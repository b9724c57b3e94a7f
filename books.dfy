/** The values of the story organizer (`story-organizer/src/App.tsx`) and the
    pure rewrites its handlers apply to the list of books: append, delete by
    id, and the per-book character updates, together with the two parsers
    that turn the abilities text into a list. */
module Books {
  import opened Wrappers
  import opened Seqs
  import opened Text

  /** A named relationship of a character; `kind` is the source's `type`. */
  datatype Relationship = Relationship(name: string, kind: string)

  datatype Character = Character(
    id: int,
    name: string,
    role: string,
    notes: string,
    abilities: seq<string>,
    arcStage: string,
    relationships: seq<Relationship>)

  /** The edit buffer: every field of a character plus the abilities as one line of text. */
  datatype EditableCharacter = EditableCharacter(
    id: int,
    name: string,
    role: string,
    notes: string,
    abilities: seq<string>,
    arcStage: string,
    relationships: seq<Relationship>,
    abilitiesText: string)

  datatype Book = Book(id: int, title: string, characters: seq<Character>)

  // ----- Looking up the selected book -----

  /** Position of the first book with identifier `id`, or `|books|` when there is none. */
  function FirstIndex(books: seq<Book>, id: int): (k: nat)
    ensures k <= |books|
    ensures forall j :: 0 <= j < k ==> books[j].id != id
    ensures k < |books| ==> books[k].id == id
  {
    if books == [] then 0
    else if books[0].id == id then 0
    else 1 + FirstIndex(books[1..], id)
  }

  /** `books.find(book => book.id === currentBookId)`: the first book carrying
      the selected identifier, and nothing when no book is selected or none
      carries it. */
  function FindBook(books: seq<Book>, selected: Option<int>): (r: Option<Book>)
    ensures r.None? <==> selected.None? || forall i :: 0 <= i < |books| ==> books[i].id != selected.value
    ensures r.Some? ==> exists k :: 0 <= k < |books| && books[k] == r.value && books[k].id == selected.value
                                   && forall j :: 0 <= j < k ==> books[j].id != selected.value
  {
    if selected.None? then None
    else
      var k := FirstIndex(books, selected.value);
      if k < |books| then Some(books[k]) else None
  }

  // ----- Deleting a book -----

  /** The test `book.id !== id` of the filter. */
  function KeepBook(id: int): Book -> bool {
    (b: Book) => b.id != id
  }

  /** `books.filter(book => book.id !== id)`. */
  function RemoveBook(books: seq<Book>, id: int): (r: seq<Book>)
    ensures |r| <= |books|
    ensures forall i :: 0 <= i < |r| ==> r[i].id != id && r[i] in books
    ensures forall i :: 0 <= i < |books| && books[i].id != id ==> books[i] in r
  {
    Filter(books, KeepBook(id))
  }

  /** Removal keeps every other book exactly as often as before and keeps
      their relative order. */
  lemma RemoveBookExact(books: seq<Book>, more: seq<Book>, id: int, b: Book)
    ensures multiset(RemoveBook(books, id))[b] == if b.id == id then 0 else multiset(books)[b]
    ensures RemoveBook(books + more, id) == RemoveBook(books, id) + RemoveBook(more, id)
  {
    FilterMultiset(books, KeepBook(id), b);
    FilterConcat(books, more, KeepBook(id));
  }

  /** Deleting an identifier no book carries changes nothing. */
  lemma RemoveAbsentBook(books: seq<Book>, id: int)
    requires forall i :: 0 <= i < |books| ==> books[i].id != id
    ensures RemoveBook(books, id) == books
  {
    FilterKeepsAll(books, KeepBook(id));
  }

  /** Dropping the same book a second time is a no-op. */
  lemma RemoveBookTwice(books: seq<Book>, id: int)
    ensures RemoveBook(RemoveBook(books, id), id) == RemoveBook(books, id)
  {
    FilterIdempotent(books, KeepBook(id));
  }

  // ----- Rewriting the characters of the selected book -----

  /** `books.map(book => book.id === id ? {...book, characters: update(book.characters)} : book)`:
      books keep their positions, identifiers and titles; only books carrying
      `id` get new characters. */
  function UpdateCharacters(books: seq<Book>, id: int, update: seq<Character> -> seq<Character>): (r: seq<Book>)
    ensures |r| == |books|
    ensures forall i :: 0 <= i < |books| ==> r[i].id == books[i].id && r[i].title == books[i].title
    ensures forall i :: 0 <= i < |books| && books[i].id != id ==> r[i] == books[i]
    ensures forall i :: 0 <= i < |books| && books[i].id == id ==> r[i].characters == update(books[i].characters)
  {
    if books == [] then []
    else
      var b := books[0];
      var rest := UpdateCharacters(books[1..], id, update);
      var r := [if b.id == id then b.(characters := update(b.characters)) else b] + rest;
      assert forall i :: 1 <= i < |books| ==> r[i] == rest[i - 1] && books[i] == books[1..][i - 1];
      r
  }

  /** The new character list of `addCharacter`: `[...characters, c]`. */
  function AppendCharacter(c: Character): seq<Character> -> seq<Character> {
    (cs: seq<Character>) => cs + [c]
  }

  /** `addCharacter`'s rewrite: `c` is appended to each book carrying `id`. */
  function AddCharacterTo(books: seq<Book>, id: int, c: Character): (r: seq<Book>)
    ensures |r| == |books|
    ensures forall i :: 0 <= i < |books| && books[i].id != id ==> r[i] == books[i]
    ensures forall i :: 0 <= i < |books| && books[i].id == id ==>
              r[i] == books[i].(characters := books[i].characters + [c])
  {
    UpdateCharacters(books, id, AppendCharacter(c))
  }

  /** Total number of characters over all books. */
  function TotalCharacters(books: seq<Book>): nat {
    if books == [] then 0 else |books[0].characters| + TotalCharacters(books[1..])
  }

  /** Number of books carrying identifier `id`. */
  function BooksWithId(books: seq<Book>, id: int): nat {
    if books == [] then 0 else (if books[0].id == id then 1 else 0) + BooksWithId(books[1..], id)
  }

  /** No two books share an identifier. */
  predicate UniqueBookIds(books: seq<Book>) {
    forall i, j :: 0 <= i < j < |books| ==> books[i].id != books[j].id
  }

  /** No book carries an identifier that is absent from the list. */
  lemma {:induction false} BooksWithAbsentId(books: seq<Book>, id: int)
    requires forall i :: 0 <= i < |books| ==> books[i].id != id
    ensures BooksWithId(books, id) == 0
  {
    if books != [] {
      BooksWithAbsentId(books[1..], id);
    }
  }

  /** With unique book identifiers, an identifier carried by the book at
      position `k` is carried by that book alone. */
  lemma {:induction false} BooksWithUniqueId(books: seq<Book>, id: int, k: nat)
    requires UniqueBookIds(books) && k < |books| && books[k].id == id
    ensures BooksWithId(books, id) == 1
  {
    if k == 0 {
      BooksWithAbsentId(books[1..], id);
    } else {
      assert books[1..][k - 1] == books[k];
      BooksWithUniqueId(books[1..], id, k - 1);
    }
  }

  /** Adding a character adds exactly one character per book carrying the
      selected identifier: one in all when book identifiers are unique and the
      selected one is present (`BooksWithUniqueId`). */
  lemma {:induction false} AddCharacterCount(books: seq<Book>, id: int, c: Character)
    ensures TotalCharacters(AddCharacterTo(books, id, c)) == TotalCharacters(books) + BooksWithId(books, id)
  {
    if books != [] {
      AddCharacterCount(books[1..], id, c);
      assert AddCharacterTo(books, id, c)[1..] == AddCharacterTo(books[1..], id, c);
    }
  }

  /** The test `c.id !== id` of the character filter. */
  function KeepCharacter(id: int): Character -> bool {
    (c: Character) => c.id != id
  }

  /** `characters.filter(c => c.id !== id)`: the characters without identifier `id`. */
  function RemoveCharacters(cs: seq<Character>, id: int): (r: seq<Character>)
    ensures |r| <= |cs|
    ensures forall j :: 0 <= j < |r| ==> r[j].id != id && r[j] in cs
    ensures forall j :: 0 <= j < |cs| && cs[j].id != id ==> cs[j] in r
  {
    Filter(cs, KeepCharacter(id))
  }

  /** The new character list of `deleteCharacter`, as a function of the old one. */
  function RemoveCharactersWith(id: int): seq<Character> -> seq<Character> {
    (cs: seq<Character>) => RemoveCharacters(cs, id)
  }

  /** `deleteCharacter`'s rewrite: in each book carrying `bookId`, every
      character with identifier `id` is dropped; all other books stay. */
  function RemoveCharacterFrom(books: seq<Book>, bookId: int, id: int): (r: seq<Book>)
    ensures |r| == |books|
    ensures forall i :: 0 <= i < |books| ==> r[i].id == books[i].id && r[i].title == books[i].title
    ensures forall i :: 0 <= i < |books| && books[i].id != bookId ==> r[i] == books[i]
    ensures forall i :: 0 <= i < |books| && books[i].id == bookId ==>
              r[i].characters == RemoveCharacters(books[i].characters, id)
  {
    UpdateCharacters(books, bookId, RemoveCharactersWith(id))
  }

  /** Removal from one character list keeps the survivors with their
      multiplicities and in their relative order. */
  lemma RemoveCharactersExact(cs: seq<Character>, more: seq<Character>, id: int, c: Character)
    ensures multiset(RemoveCharacters(cs, id))[c] == if c.id == id then 0 else multiset(cs)[c]
    ensures RemoveCharacters(cs + more, id) == RemoveCharacters(cs, id) + RemoveCharacters(more, id)
  {
    FilterMultiset(cs, KeepCharacter(id), c);
    FilterConcat(cs, more, KeepCharacter(id));
  }

  /** Deleting the same character twice is deleting it once. */
  lemma RemoveCharacterTwice(books: seq<Book>, bookId: int, id: int)
    ensures RemoveCharacterFrom(RemoveCharacterFrom(books, bookId, id), bookId, id)
         == RemoveCharacterFrom(books, bookId, id)
  {
    var once := RemoveCharacterFrom(books, bookId, id);
    var twice := RemoveCharacterFrom(once, bookId, id);
    forall i | 0 <= i < |books| ensures twice[i] == once[i] {
      if books[i].id == bookId {
        FilterIdempotent(books[i].characters, KeepCharacter(id));
      }
    }
  }

  /** Deleting an identifier that no character of the selected book carries changes nothing. */
  lemma RemoveAbsentCharacter(books: seq<Book>, bookId: int, id: int)
    requires forall i, j :: 0 <= i < |books| && books[i].id == bookId && 0 <= j < |books[i].characters| ==>
               books[i].characters[j].id != id
    ensures RemoveCharacterFrom(books, bookId, id) == books
  {
    var r := RemoveCharacterFrom(books, bookId, id);
    forall i | 0 <= i < |books| ensures r[i] == books[i] {
      if books[i].id == bookId {
        FilterKeepsAll(books[i].characters, KeepCharacter(id));
      }
    }
  }

  /** `characters.map(c => c.id === updated.id ? updated : c)`: same length
      and identifiers at every position; each character with `updated`'s
      identifier becomes `updated`, every other one stays. */
  function ReplaceById(cs: seq<Character>, updated: Character): (r: seq<Character>)
    ensures |r| == |cs|
    ensures forall j :: 0 <= j < |cs| ==> r[j].id == cs[j].id
    ensures forall j :: 0 <= j < |cs| && cs[j].id != updated.id ==> r[j] == cs[j]
    ensures forall j :: 0 <= j < |cs| && cs[j].id == updated.id ==> r[j] == updated
  {
    seq(|cs|, j requires 0 <= j < |cs| => if cs[j].id == updated.id then updated else cs[j])
  }

  /** The new character list of `updateCharacter`, as a function of the old one. */
  function ReplaceWith(updated: Character): seq<Character> -> seq<Character> {
    (cs: seq<Character>) => ReplaceById(cs, updated)
  }

  /** `updateCharacter`'s rewrite: only books carrying `bookId` change, and
      in them only the characters with `c`'s identifier. */
  function ReplaceCharacterIn(books: seq<Book>, bookId: int, c: Character): (r: seq<Book>)
    ensures |r| == |books|
    ensures forall i :: 0 <= i < |books| ==> r[i].id == books[i].id && r[i].title == books[i].title
    ensures forall i :: 0 <= i < |books| && books[i].id != bookId ==> r[i] == books[i]
    ensures forall i :: 0 <= i < |books| && books[i].id == bookId ==>
              r[i].characters == ReplaceById(books[i].characters, c)
  {
    UpdateCharacters(books, bookId, ReplaceWith(c))
  }

  /** No two characters of a list share an identifier. */
  predicate UniqueCharacterIds(cs: seq<Character>) {
    forall i, j :: 0 <= i < j < |cs| ==> cs[i].id != cs[j].id
  }

  /** Replacing a character by itself, in a list where it occurs and where
      identifiers are unique, leaves the list as it was. */
  lemma ReplaceWithSame(cs: seq<Character>, c: Character)
    requires c in cs && UniqueCharacterIds(cs)
    ensures ReplaceById(cs, c) == cs
  {
    var r := ReplaceById(cs, c);
    var k :| 0 <= k < |cs| && cs[k] == c;
    forall j | 0 <= j < |cs| ensures r[j] == cs[j] {
      if cs[j].id == c.id {
        assert j == k;
      }
    }
  }

  /** Saving a character that is already, unchanged, in every selected book
      (with unique identifiers there) leaves the books as they were. */
  lemma ReplaceWithSameCharacter(books: seq<Book>, bookId: int, c: Character)
    requires forall i :: 0 <= i < |books| && books[i].id == bookId ==>
               c in books[i].characters && UniqueCharacterIds(books[i].characters)
    ensures ReplaceCharacterIn(books, bookId, c) == books
  {
    var r := ReplaceCharacterIn(books, bookId, c);
    forall i | 0 <= i < |books| ensures r[i] == books[i] {
      if books[i].id == bookId {
        ReplaceWithSame(books[i].characters, c);
      }
    }
  }

  // ----- The abilities text -----

  /** An ability survives `filter(Boolean)` exactly when it is not the empty string. */
  predicate NonEmpty(a: string) {
    a != []
  }

  /** A string without the one-character substring `[c]` does not contain `c`. */
  lemma NotContainsChar(x: string, c: char)
    requires !Contains(x, [c])
    ensures c !in x
  {
    forall k | 0 <= k < |x| ensures x[k] != c {
      assert x[k..k + 1] == [x[k]];
      assert !OccursAt(x, [c], k);
    }
  }

  /** The abilities of a new character, `abilities.split(",").map(a => a.trim())`:
      one entry per comma-separated piece, so empty pieces are kept, and every
      entry is trimmed and free of commas. */
  function ParseAbilitiesOnAdd(text: string): (r: seq<string>)
    ensures |r| == Count(text, ',') + 1
    ensures forall i :: 0 <= i < |r| ==> IsTrimmed(r[i]) && ',' !in r[i]
  {
    var pieces := Split(text, ",");
    SplitCount(text, ',');
    SplitPiecesLackSep(text, ",");
    var r := seq(|pieces|, i requires 0 <= i < |pieces| => Trim(pieces[i]));
    assert forall i :: 0 <= i < |r| ==> ',' !in r[i] by {
      forall i | 0 <= i < |r| ensures ',' !in r[i] {
        TrimKeepsAbsent(pieces[i], ",");
        NotContainsChar(r[i], ',');
      }
    }
    r
  }

  /** A string without the character `c` does not contain the substring `[c]`. */
  lemma CharAbsent(x: string, c: char)
    requires c !in x
    ensures !Contains(x, [c])
  {
    forall k: nat | k + 1 <= |x| ensures !OccursAt(x, [c], k) {
      assert x[k..k + 1][0] == x[k];
    }
  }

  /** When every piece of the split is already trimmed, the add parser
      returns the pieces. */
  lemma ParseAbilitiesOnAddTrimmed(text: string)
    requires forall i :: 0 <= i < |Split(text, ",")| ==> IsTrimmed(Split(text, ",")[i])
    ensures ParseAbilitiesOnAdd(text) == Split(text, ",")
  {
    var pieces := Split(text, ",");
    var r := seq(|pieces|, i requires 0 <= i < |pieces| => Trim(pieces[i]));
    assert r == pieces;
  }

  /** Abilities that are trimmed and free of commas, typed into the add form
      separated by commas, are parsed back exactly. */
  lemma AddRoundTrip(xs: seq<string>)
    requires xs != []
    requires forall i :: 0 <= i < |xs| ==> IsTrimmed(xs[i]) && ',' !in xs[i]
    ensures ParseAbilitiesOnAdd(Join(xs, ",")) == xs
  {
    forall i | 0 <= i < |xs| ensures !Contains(xs[i], ",") {
      CharAbsent(xs[i], ',');
    }
    SplitJoin(xs, ",");
    ParseAbilitiesOnAddTrimmed(Join(xs, ","));
  }

  /** The abilities of an edited character,
      `abilitiesText.split(", ").map(a => a.trim()).filter(Boolean)`: every
      entry is non-empty, trimmed and free of the separator `", "`. */
  function ParseAbilitiesOnEdit(text: string): (r: seq<string>)
    ensures forall i :: 0 <= i < |r| ==> r[i] != [] && IsTrimmed(r[i]) && !Contains(r[i], ", ")
  {
    var pieces := Split(text, ", ");
    SplitPiecesLackSep(text, ", ");
    var trimmed := seq(|pieces|, i requires 0 <= i < |pieces| => Trim(pieces[i]));
    assert forall i :: 0 <= i < |trimmed| ==> !Contains(trimmed[i], ", ") by {
      forall i | 0 <= i < |trimmed| ensures !Contains(trimmed[i], ", ") {
        TrimKeepsAbsent(pieces[i], ", ");
      }
    }
    Filter(trimmed, NonEmpty)
  }

  /** The edit buffer's text for a list of abilities: `abilities.join(", ")`. */
  function FormatAbilities(abilities: seq<string>): string {
    Join(abilities, ", ")
  }

  /** Opening the edit buffer and saving it again drops the empty abilities
      and nothing else, for abilities that are trimmed and free of `", "`. */
  lemma {:induction false} EditRoundTrip(abilities: seq<string>)
    requires forall i :: 0 <= i < |abilities| ==> IsTrimmed(abilities[i]) && !Contains(abilities[i], ", ")
    ensures ParseAbilitiesOnEdit(FormatAbilities(abilities)) == Filter(abilities, NonEmpty)
  {
    var text := FormatAbilities(abilities);
    if abilities == [] {
      assert Split(text, ", ") == [[]];
    } else {
      assert Unbordered(", ") by {
        forall k | 0 < k < 2 ensures ", "[k..] != ", "[..2 - k] {
          assert ", "[k..][0] == ' ' && ", "[..2 - k][0] == ',';
        }
      }
      SplitJoin(abilities, ", ");
    }
    var pieces := Split(text, ", ");
    var trimmed := seq(|pieces|, i requires 0 <= i < |pieces| => Trim(pieces[i]));
    assert abilities != [] ==> trimmed == abilities;
  }

  /** The round trip through the edit buffer returns exactly the list when
      every ability is non-empty, trimmed and free of `", "`. */
  lemma EditRoundTripExact(abilities: seq<string>)
    requires forall i :: 0 <= i < |abilities| ==>
               abilities[i] != [] && IsTrimmed(abilities[i]) && !Contains(abilities[i], ", ")
    ensures ParseAbilitiesOnEdit(FormatAbilities(abilities)) == abilities
  {
    EditRoundTrip(abilities);
    FilterKeepsAll(abilities, NonEmpty);
  }

  /** Parsing edited abilities is a fixed point after one pass: printing the
      parsed list and parsing it again gives the same list. */
  lemma EditParseIdempotent(text: string)
    ensures ParseAbilitiesOnEdit(FormatAbilities(ParseAbilitiesOnEdit(text))) == ParseAbilitiesOnEdit(text)
  {
    EditRoundTripExact(ParseAbilitiesOnEdit(text));
  }

  /** Abilities entered when adding a character survive the edit buffer
      except for their empty entries. */
  lemma AddThenEdit(text: string)
    ensures ParseAbilitiesOnEdit(FormatAbilities(ParseAbilitiesOnAdd(text)))
         == Filter(ParseAbilitiesOnAdd(text), NonEmpty)
  {
    var abilities := ParseAbilitiesOnAdd(text);
    forall i | 0 <= i < |abilities| ensures !Contains(abilities[i], ", ") {
      var a := abilities[i];
      forall k: nat | k + 2 <= |a| ensures !OccursAt(a, ", ", k) {
        assert a[k..k + 2][0] == a[k] && a[k] in a;
      }
    }
    EditRoundTrip(abilities);
  }

  /** The character `addCharacter` builds from the form: identifier, the form's
      fields, the parsed abilities and no relationships. */
  function NewCharacter(id: int, name: string, role: string, notes: string, abilitiesText: string, arcStage: string): Character {
    Character(id, name, role, notes, ParseAbilitiesOnAdd(abilitiesText), arcStage, [])
  }

  /** A character typed into the add form, with its abilities entered as a
      comma-separated list of trimmed, comma-free names, is built with exactly
      those abilities and no relationships. */
  lemma NewCharacterRoundTrip(id: int, name: string, role: string, notes: string, xs: seq<string>, arcStage: string)
    requires xs != []
    requires forall i :: 0 <= i < |xs| ==> IsTrimmed(xs[i]) && ',' !in xs[i]
    ensures NewCharacter(id, name, role, notes, Join(xs, ","), arcStage) == Character(id, name, role, notes, xs, arcStage, [])
  {
    AddRoundTrip(xs);
  }

  // ----- The edit buffer -----

  /** The buffer `openEditCharacter` fills: the character with its abilities joined by `", "`. */
  function EditBuffer(c: Character): EditableCharacter {
    EditableCharacter(c.id, c.name, c.role, c.notes, c.abilities, c.arcStage, c.relationships,
                      FormatAbilities(c.abilities))
  }

  /** The buffer's text shows every ability of the character. */
  lemma EditBufferShowsAbilities(c: Character)
    ensures forall i :: 0 <= i < |c.abilities| ==> Contains(EditBuffer(c).abilitiesText, c.abilities[i])
  {
    JoinContains(c.abilities, ", ");
  }

  /** The character `updateCharacter` saves: the buffer's fields, with the
      abilities parsed back from its text, so none of them is empty. */
  function SavedCharacter(e: EditableCharacter): (c: Character)
    ensures c.id == e.id && c.name == e.name
    ensures forall i :: 0 <= i < |c.abilities| ==> c.abilities[i] != [] && IsTrimmed(c.abilities[i])
  {
    Character(e.id, e.name, e.role, e.notes, ParseAbilitiesOnEdit(e.abilitiesText), e.arcStage, e.relationships)
  }

  /** Opening a character for editing and saving it without change gives back
      the character, when its abilities are non-empty, trimmed and free of `", "`. */
  lemma OpenThenSave(c: Character)
    requires forall i :: 0 <= i < |c.abilities| ==>
               c.abilities[i] != [] && IsTrimmed(c.abilities[i]) && !Contains(c.abilities[i], ", ")
    ensures SavedCharacter(EditBuffer(c)) == c
  {
    EditRoundTripExact(c.abilities);
  }

  /** Saving the buffer of an unchanged character of the selected book leaves
      the books as they were, when its abilities are non-empty, trimmed and
      free of `", "` and character identifiers are unique in that book. */
  lemma SaveUnchangedCharacter(books: seq<Book>, bookId: int, c: Character)
    requires forall i :: 0 <= i < |books| && books[i].id == bookId ==>
               c in books[i].characters && UniqueCharacterIds(books[i].characters)
    requires forall i :: 0 <= i < |c.abilities| ==>
               c.abilities[i] != [] && IsTrimmed(c.abilities[i]) && !Contains(c.abilities[i], ", ")
    ensures ReplaceCharacterIn(books, bookId, SavedCharacter(EditBuffer(c))) == books
  {
    OpenThenSave(c);
    ReplaceWithSameCharacter(books, bookId, c);
  }
}
