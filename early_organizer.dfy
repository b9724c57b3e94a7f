/** The earlier story organizer of `story-organizer/src/App111.tsx`: one flat
    list of characters, a six-field form that appends to it, and deletion by
    identifier. */
module EarlyOrganizer {
  import opened Seqs

  datatype Character = Character(
    id: int,
    name: string,
    role: string,
    race: string,
    age: string,
    powerLevel: string,
    notes: string)

  /** The test `c.id !== id` of the filter. */
  function KeepCharacter(id: int): Character -> bool {
    (c: Character) => c.id != id
  }

  /** `characters.filter(c => c.id !== id)`: no character with identifier
      `id` is left and every other one is kept. */
  function RemoveCharacter(characters: seq<Character>, id: int): (r: seq<Character>)
    ensures |r| <= |characters|
    ensures forall i :: 0 <= i < |r| ==> r[i].id != id && r[i] in characters
    ensures forall i :: 0 <= i < |characters| && characters[i].id != id ==> characters[i] in r
  {
    Filter(characters, KeepCharacter(id))
  }

  /** Deletion removes exactly the characters with that identifier: the others
      keep their multiplicity and their relative order. */
  lemma RemoveCharacterExact(characters: seq<Character>, more: seq<Character>, id: int, c: Character)
    ensures multiset(RemoveCharacter(characters, id))[c] == if c.id == id then 0 else multiset(characters)[c]
    ensures RemoveCharacter(characters + more, id) == RemoveCharacter(characters, id) + RemoveCharacter(more, id)
  {
    FilterMultiset(characters, KeepCharacter(id), c);
    FilterConcat(characters, more, KeepCharacter(id));
  }

  /** Deleting an identifier no character carries changes nothing. */
  lemma RemoveAbsentCharacter(characters: seq<Character>, id: int)
    requires forall i :: 0 <= i < |characters| ==> characters[i].id != id
    ensures RemoveCharacter(characters, id) == characters
  {
    FilterKeepsAll(characters, KeepCharacter(id));
  }

  /** Deleting the same identifier twice is deleting it once. */
  lemma RemoveCharacterTwice(characters: seq<Character>, id: int)
    ensures RemoveCharacter(RemoveCharacter(characters, id), id) == RemoveCharacter(characters, id)
  {
    FilterIdempotent(characters, KeepCharacter(id));
  }

  /** The state of the component: the characters and the drafts of the form,
      which the form inputs write directly. */
  class StoryOrganizer {
    var characters: seq<Character>
    var name: string
    var role: string
    var notes: string
    var race: string
    var age: string
    var powerLevel: string

    /** The first render, with `saved` the characters read back from storage
        (empty when nothing was saved). */
    constructor (saved: seq<Character>)
      ensures characters == saved
      ensures name == "" && role == "" && notes == "" && race == "" && age == "" && powerLevel == ""
    {
      characters := saved;
      name, role, notes, race, age, powerLevel := "", "", "", "", "", "";
    }

    /** `addCharacter`: an empty name is ignored; otherwise one character
        carrying the form's values is appended and all six drafts are cleared. */
    method AddCharacter(freshId: int)
      modifies this
      ensures old(name) == "" ==> unchanged(this)
      ensures old(name) != "" ==>
                characters == old(characters)
                  + [Character(freshId, old(name), old(role), old(race), old(age), old(powerLevel), old(notes))]
                && name == "" && role == "" && race == "" && age == "" && powerLevel == "" && notes == ""
    {
      if name == "" {
        return;
      }
      var newCharacter := Character(freshId, name, role, race, age, powerLevel, notes);
      characters := characters + [newCharacter];
      name := "";
      role := "";
      race := "";
      age := "";
      powerLevel := "";
      notes := "";
    }

    /** `deleteCharacter`: every character with that identifier is removed. */
    method DeleteCharacter(id: int)
      modifies this`characters
      ensures characters == RemoveCharacter(old(characters), id)
    {
      characters := RemoveCharacter(characters, id);
    }
  }
}
