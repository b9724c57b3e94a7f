/** The state of the `StoryOrganizer` component of
    `story-organizer/src/App.tsx` and its handlers. Each handler checks its
    guard and then replaces the book list by one of the rewrites of `Books`.
    Form inputs write the draft fields directly. */
module Organizer {
  import opened Wrappers
  import opened Text
  import opened Books

  class StoryOrganizer {
    var books: seq<Book>
    /** The selected book, `null` in the source when the list of books is shown. */
    var currentBookId: Option<int>
    var showAddCharacter: bool
    var editingCharacter: Option<EditableCharacter>
    var showEditModal: bool
    /** Draft of the new book's title. */
    var bookTitle: string
    /** Drafts of the add-character form; `abilities` is the comma-separated text. */
    var name: string
    var role: string
    var notes: string
    var abilities: string
    var arcStage: string

    /** The first render, with `saved` the books read back from storage
        (empty when nothing was saved). */
    constructor (saved: seq<Book>)
      ensures books == saved && currentBookId == None && !showAddCharacter
      ensures editingCharacter == None && !showEditModal
      ensures bookTitle == "" && name == "" && role == "" && notes == "" && abilities == "" && arcStage == ""
    {
      books := saved;
      currentBookId := None;
      showAddCharacter := false;
      editingCharacter := None;
      showEditModal := false;
      bookTitle := "";
      name, role, notes, abilities, arcStage := "", "", "", "", "";
    }

    /** `currentBook`: the first book carrying the selected identifier, if any. */
    function CurrentBook(): (r: Option<Book>)
      reads this
      ensures r.Some? ==> r.value in books && currentBookId == Some(r.value.id)
      ensures r.None? ==> currentBookId.None? || forall i :: 0 <= i < |books| ==> books[i].id != currentBookId.value
    {
      FindBook(books, currentBookId)
    }

    /** `addBook`: an empty title is ignored; any other title, spaces included,
        becomes a new book without characters at the end of the list, and the
        title field is cleared. */
    method AddBook(freshId: int)
      modifies this`books, this`bookTitle
      ensures old(bookTitle) == "" ==> books == old(books)
      ensures old(bookTitle) != "" ==> books == old(books) + [Book(freshId, old(bookTitle), [])]
      ensures bookTitle == ""
    {
      if bookTitle == "" {
        return;
      }
      var newBook := Book(freshId, bookTitle, []);
      books := books + [newBook];
      bookTitle := "";
    }

    /** `handleDrop`: with a dropped identifier and a confirmed prompt, every
        book carrying that identifier is deleted; otherwise nothing changes. */
    method HandleDrop(droppedId: Option<int>, confirmed: bool)
      modifies this`books
      ensures books == if droppedId.Some? && confirmed then RemoveBook(old(books), droppedId.value) else old(books)
    {
      if droppedId.None? {
        return;
      }
      if !confirmed {
        return;
      }
      books := RemoveBook(books, droppedId.value);
    }

    /** `selectBook`: the book becomes the selection and the add-character form closes. */
    method SelectBook(id: int)
      modifies this`currentBookId, this`showAddCharacter
      ensures currentBookId == Some(id) && !showAddCharacter
    {
      currentBookId := Some(id);
      showAddCharacter := false;
    }

    /** The "Back to Books" button: the selection is cleared. */
    method BackToBooks()
      modifies this`currentBookId
      ensures currentBookId == None
    {
      currentBookId := None;
    }

    /** The "Add Character" / "Cancel" button: the form is shown or hidden. */
    method ToggleAddCharacter()
      modifies this`showAddCharacter
      ensures showAddCharacter == !old(showAddCharacter)
    {
      showAddCharacter := !showAddCharacter;
    }

    /** `addCharacter`: without a name or without a selected book nothing
        happens; otherwise the new character is appended to the selected book,
        the five drafts are cleared and the form closes. */
    method AddCharacter(freshId: int)
      modifies this`books, this`name, this`role, this`notes, this`abilities, this`arcStage, this`showAddCharacter
      ensures old(name) == "" || currentBookId.None? ==> unchanged(this)
      ensures old(name) != "" && currentBookId.Some? ==>
                books == AddCharacterTo(old(books), currentBookId.value,
                                        NewCharacter(freshId, old(name), old(role), old(notes), old(abilities), old(arcStage)))
                && name == "" && role == "" && notes == "" && abilities == "" && arcStage == ""
                && !showAddCharacter
    {
      if name == "" || currentBookId.None? {
        return;
      }
      var newCharacter := NewCharacter(freshId, name, role, notes, abilities, arcStage);
      books := AddCharacterTo(books, currentBookId.value, newCharacter);
      name := "";
      role := "";
      notes := "";
      abilities := "";
      arcStage := "";
      showAddCharacter := false;
    }

    /** `deleteCharacter`: without a selected book, or when the prompt is
        declined, nothing happens; otherwise every character with that
        identifier leaves the selected book and the edit dialog closes. */
    method DeleteCharacter(characterId: int, confirmed: bool)
      modifies this`books, this`showEditModal
      ensures currentBookId.None? || !confirmed ==> unchanged(this)
      ensures currentBookId.Some? && confirmed ==>
                books == RemoveCharacterFrom(old(books), currentBookId.value, characterId) && !showEditModal
    {
      if currentBookId.None? {
        return;
      }
      if !confirmed {
        return;
      }
      books := RemoveCharacterFrom(books, currentBookId.value, characterId);
      showEditModal := false;
    }

    /** `openEditCharacter`: the character is copied into the edit buffer, its
        abilities joined by `", "`, and the edit dialog opens. */
    method OpenEditCharacter(c: Character)
      modifies this`editingCharacter, this`showEditModal
      ensures editingCharacter == Some(EditBuffer(c)) && showEditModal
      ensures editingCharacter.value.abilitiesText == FormatAbilities(c.abilities)
    {
      editingCharacter := Some(EditBuffer(c));
      showEditModal := true;
    }

    /** Closing the edit dialog (`showModal(false)`). */
    method CloseEditModal()
      modifies this`showEditModal
      ensures !showEditModal
    {
      showEditModal := false;
    }

    /** `updateCharacter`: without a buffer, without a selected book, or with
        a blank name, nothing happens; otherwise every character of the
        selected book with the buffer's identifier is replaced by the saved
        character and the edit dialog closes. */
    method UpdateCharacter()
      modifies this`books, this`showEditModal
      ensures editingCharacter.None? || currentBookId.None? || IsBlank(editingCharacter.value.name) ==> unchanged(this)
      ensures editingCharacter.Some? && currentBookId.Some? && !IsBlank(editingCharacter.value.name) ==>
                books == ReplaceCharacterIn(old(books), currentBookId.value, SavedCharacter(editingCharacter.value))
                && !showEditModal
    {
      if editingCharacter.Some? && currentBookId.Some? {
        var ec := editingCharacter.value;
        if !IsBlank(ec.name) {
          var updated := SavedCharacter(ec);
          books := ReplaceCharacterIn(books, currentBookId.value, updated);
          showEditModal := false;
        }
      }
    }
  }

  /** Opening a character of the selected book and saving it without edits
      leaves the books unchanged, when its abilities are non-empty, trimmed and
      free of `", "` and character identifiers are unique in the selected book. */
  method SaveWithoutEdits(o: StoryOrganizer, c: Character)
    requires o.currentBookId.Some?
    requires forall i :: 0 <= i < |o.books| && o.books[i].id == o.currentBookId.value ==>
               c in o.books[i].characters && UniqueCharacterIds(o.books[i].characters)
    requires forall i :: 0 <= i < |c.abilities| ==>
               c.abilities[i] != [] && IsTrimmed(c.abilities[i]) && !Contains(c.abilities[i], ", ")
    modifies o
    ensures o.books == old(o.books)
  {
    SaveUnchangedCharacter(o.books, o.currentBookId.value, c);
    o.OpenEditCharacter(c);
    o.UpdateCharacter();
  }

  /** Dropping the same book twice, confirming both times, deletes it once. */
  method DropTwice(o: StoryOrganizer, id: int)
    modifies o
    ensures o.books == RemoveBook(old(o.books), id)
  {
    o.HandleDrop(Some(id), true);
    o.HandleDrop(Some(id), true);
    RemoveBookTwice(old(o.books), id);
  }
}
