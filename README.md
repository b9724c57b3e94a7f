# Story organizer: the book store and its handlers

The story organizer is a single-page app for writers. It keeps a list of
books, and each book holds an ordered list of characters. A character has a
name, a role, notes, a list of abilities, an arc stage and relationships. The
`StoryOrganizer` component of `story-organizer/src/App.tsx` holds this list in
memory, together with:

- the selected book (`currentBookId`);
- the drafts of the "new book" and "add character" forms;
- an edit buffer (`editingCharacter`), which shows the abilities as one line
  of text (`abilitiesText`).

Its handlers change this state:

- `addBook` adds a book;
- dropping a book card on the trash zone (`handleDrop`) deletes it;
- `selectBook` selects a book;
- `addCharacter`, `deleteCharacter`, `openEditCharacter` and
  `updateCharacter` change the characters of the selected book.

Each handler has a guard that turns it into a no-op. Otherwise it replaces
the book list by an append, a `filter` or a `map`-replace. Two small parsers
turn text into abilities:

- when adding, the text is split on `","` and each piece is trimmed;
- when editing, it is split on `", "`, trimmed, and empty entries are dropped.

`story-organizer/src/App111.tsx` is an earlier version: a flat list of
characters with a guarded append and a delete by identifier.

The project has six modules:

- `Wrappers` (`wrappers.dfy`): `Option`, for the nullable selection and edit
  buffer.
- `Seqs` (`seqs.dfy`): JavaScript's `filter` on sequences, with its facts:
  which elements survive, how often, and in what order.
- `Text` (`text.dfy`): JavaScript's `trim` (the ECMAScript whitespace and
  line-terminator characters), `split` with a string separator (leftmost,
  non-overlapping occurrences, so `"".split(",")` is `[""]`) and `join`.
  Joining the pieces of any split gives back the text. Splitting a join gives
  back the list only when the list is non-empty, no entry contains the
  separator, and the separator cannot overlap itself.
- `Books` (`books.dfy`): the App.tsx records and the pure rewrites of the book
  list, the two ability parsers, and the edit-buffer round trip.
- `Organizer` (`organizer.dfy`): the App.tsx component state as a class whose
  methods are the handlers. Each method's `ensures` gives the whole new state
  in terms of the old one and a `Books` function.
- `EarlyOrganizer` (`early_organizer.dfy`): App111.tsx as a datatype, a pure
  delete with its lemmas, and a class with the two handlers.

Identifiers are `int`. The three inputs from outside the component are
parameters:

- the clock value used as a new identifier is `freshId`;
- the answer to the confirmation prompt is `confirmed`;
- the dragged book's identifier is `Option<int>`, with `None` for the empty
  string.

The draft fields and the edit buffer are public fields of the class. The
form inputs write them directly, as the source's `onChange` handlers do.

Two behaviours of the code are worth knowing:

- `addBook` neither trims titles nor checks them for uniqueness, so `"  "` is a
  valid title;
- `addCharacter` keeps empty abilities, so `"a,,b"` gives `["a", "", "b"]` and
  `""` gives `[""]`.

## Model

| member | source | states |
|---|---|---|
| `Books.FirstIndex` | story-organizer/src/App.tsx:47 | the search inside `find`: no book before the returned position carries the id, and the book at that position does unless the position is past the end |
| `Books.FindBook` | story-organizer/src/App.tsx:47 | `currentBook` is nothing exactly when no book is selected or no book carries the selected id; otherwise it is the first book that carries it |
| `Organizer.StoryOrganizer.CurrentBook` | story-organizer/src/App.tsx:47 | the current book is one of the books and carries the selected id; it is missing only when nothing is selected or no book carries that id |
| `Organizer.StoryOrganizer.constructor` | story-organizer/src/App.tsx:24-42 | the books come from storage (a parameter); nothing is selected, no buffer is open, the dialogs are closed and every draft is empty |
| `Organizer.StoryOrganizer.AddBook` | story-organizer/src/App.tsx:105-114 | an empty title changes nothing; any other title, spaces included, is appended verbatim as a new book with no characters, after all earlier books, which stay unchanged and in order; the title draft is then `""` |
| `Books.RemoveBook` | story-organizer/src/App.tsx:89-91 | after the filter no book carries the dropped id; every remaining book was there before, and every book with another id survives |
| `Books.RemoveBookExact` | story-organizer/src/App.tsx:90 | every book with another id keeps its multiplicity, books with the id are gone, and removal distributes over concatenation, so the relative order is kept |
| `Books.RemoveAbsentBook` | story-organizer/src/App.tsx:90 | dropping an id that no book carries leaves the list unchanged |
| `Books.RemoveBookTwice` | story-organizer/src/App.tsx:90 | deleting the same book a second time is a no-op |
| `Organizer.StoryOrganizer.HandleDrop` | story-organizer/src/App.tsx:76-93 | with no dragged id, or with the prompt declined, the books are unchanged; otherwise they are the filtered list, and nothing else in the state changes |
| `Organizer.DropTwice` | story-organizer/src/App.tsx:79-92 | two confirmed drops of the same id leave the same books as one |
| `Organizer.StoryOrganizer.SelectBook` | story-organizer/src/App.tsx:116-119 | the id becomes the selection and the add-character form closes; nothing else changes |
| `Organizer.StoryOrganizer.BackToBooks` | story-organizer/src/App.tsx:265 | the selection is cleared |
| `Organizer.StoryOrganizer.ToggleAddCharacter` | story-organizer/src/App.tsx:269 | the add-character form flips between shown and hidden |
| `Books.UpdateCharacters` | story-organizer/src/App.tsx:135 | the `map` over books keeps the number, positions, ids and titles of the books; books with other ids are identical; only the selected books get the new character list |
| `Books.AddCharacterTo` | story-organizer/src/App.tsx:135 | the new character is appended at the end of the character list of each book with the selected id; other books are identical and the number of books is unchanged |
| `Books.AddCharacterCount` | story-organizer/src/App.tsx:135 | the total number of characters grows by the number of books carrying the selected id, by induction over the books |
| `Books.BooksWithAbsentId` | story-organizer/src/App.tsx:135 | when no book carries the selected id, no book is counted, so by `AddCharacterCount` the total number of characters is unchanged |
| `Books.BooksWithUniqueId` | story-organizer/src/App.tsx:135 | when book ids are unique and some book carries the selected id, exactly one book is counted, so by `AddCharacterCount` the total grows by exactly one |
| `Books.ParseAbilitiesOnAdd` | story-organizer/src/App.tsx:130 | `split(",")` then `trim`: one entry per comma plus one, so empty pieces are kept; each entry is trimmed and has no comma |
| `Books.AddRoundTrip` | story-organizer/src/App.tsx:130 | the add parser reads back exactly the list joined by `","`, when the list is non-empty and every entry is trimmed and free of commas |
| `Books.NewCharacterRoundTrip` | story-organizer/src/App.tsx:125-133 | the character built from the add form has the given id, the form's name, role, notes and arc stage, no relationships, and exactly the abilities typed as a comma-separated list of trimmed, comma-free names |
| `Organizer.StoryOrganizer.AddCharacter` | story-organizer/src/App.tsx:122-143 | an empty name or no selected book changes nothing; otherwise the new character (fresh id, form values, parsed abilities, no relationships) is added to the selected book, the five drafts become `""` and the form closes |
| `Books.RemoveCharacters` | story-organizer/src/App.tsx:159 | no remaining character has the id; every remaining character was there before, and every character with another id survives |
| `Books.RemoveCharactersExact` | story-organizer/src/App.tsx:159 | the surviving characters keep their multiplicity and their relative order |
| `Books.RemoveCharacterFrom` | story-organizer/src/App.tsx:158-160 | only books with the selected id change, and only by that filter; the positions, ids and titles of the books are kept |
| `Books.RemoveCharacterTwice` | story-organizer/src/App.tsx:159 | deleting the same character twice is the same as deleting it once |
| `Books.RemoveAbsentCharacter` | story-organizer/src/App.tsx:159 | deleting an id that no character of the selected book carries changes nothing |
| `Organizer.StoryOrganizer.DeleteCharacter` | story-organizer/src/App.tsx:152-162 | with no selected book, or with the prompt declined, nothing changes; otherwise the characters with that id leave the selected book and the edit dialog closes |
| `Books.EditBufferShowsAbilities` | story-organizer/src/App.tsx:166-167 | the text of the edit buffer, `abilities.join(", ")`, shows every ability of the character |
| `Organizer.StoryOrganizer.OpenEditCharacter` | story-organizer/src/App.tsx:165-169 | the buffer holds the character with its abilities joined by `", "`, and the edit dialog opens |
| `Organizer.StoryOrganizer.CloseEditModal` | story-organizer/src/App.tsx:146-149 | `showModal(false)` closes the edit dialog |
| `Books.ParseAbilitiesOnEdit` | story-organizer/src/App.tsx:176 | `split(", ")`, `trim`, then `filter(Boolean)`: every entry is non-empty, trimmed and free of `", "` |
| `Books.SavedCharacter` | story-organizer/src/App.tsx:175-177 | the saved character keeps the buffer's id and name, and none of its abilities is empty or untrimmed |
| `Books.ReplaceById` | story-organizer/src/App.tsx:181 | the character `map` keeps the length and the id at every position; characters with the edited id become the edited character, and the others stay |
| `Books.ReplaceCharacterIn` | story-organizer/src/App.tsx:179-183 | only books with the selected id change; in them the characters are replaced by id, with counts and positions kept; other books stay |
| `Organizer.StoryOrganizer.UpdateCharacter` | story-organizer/src/App.tsx:172-186 | with no buffer, no selected book, or a name that is empty or all whitespace, nothing changes; otherwise the selected book's characters with the buffer's id are replaced by the saved character and the edit dialog closes |
| `Text.Trim` | story-organizer/src/App.tsx:173 | `trim` leaves no whitespace at either end and returns a trimmed string unchanged; the result is empty exactly when the string is all whitespace, which is the `!name.trim()` guard |
| `Text.TrimIdempotent` | story-organizer/src/App.tsx:176 | trimming twice is trimming once |
| `Text.Split` | story-organizer/src/App.tsx:130 | `split` always returns at least one piece, and the first piece is a prefix of the text |
| `Text.JoinContains` | story-organizer/src/App.tsx:166 | `join`: every entry of the list occurs in the joined text |
| `Text.JoinSplit` | story-organizer/src/App.tsx:130 | joining the pieces of a split with the same separator gives back the text |
| `Text.SplitCount` | story-organizer/src/App.tsx:130 | splitting on one character gives one piece more than the number of times the character occurs |
| `Text.SplitPiecesLackSep` | story-organizer/src/App.tsx:176 | no piece of a split contains the separator |
| `Text.SplitJoin` | story-organizer/src/App.tsx:166-176 | splitting a join gives back the list when no entry contains the separator and the separator cannot overlap itself |
| `Text.TrimKeepsAbsent` | story-organizer/src/App.tsx:176 | trimming cannot create an occurrence of the separator |
| `Books.EditRoundTrip` | story-organizer/src/App.tsx:166-176 | for abilities that are trimmed and free of `", "`, opening the buffer and saving it drops the empty abilities and nothing else |
| `Books.EditRoundTripExact` | story-organizer/src/App.tsx:166-176 | the join and re-split give back the original list when every ability is non-empty, trimmed and free of `", "` |
| `Books.EditParseIdempotent` | story-organizer/src/App.tsx:166-176 | parsing the edit text is a fixed point after one pass: printing and re-parsing a parsed list gives the same list |
| `Books.AddThenEdit` | story-organizer/src/App.tsx:130-176 | abilities entered through the add form pass through the edit buffer unchanged, except that their empty entries are dropped |
| `Books.ReplaceWithSame` | story-organizer/src/App.tsx:181 | replacing a character by itself, in a list with unique ids, leaves the list unchanged |
| `Books.ReplaceWithSameCharacter` | story-organizer/src/App.tsx:179-183 | saving an unchanged character of the selected book leaves the books unchanged |
| `Books.OpenThenSave` | story-organizer/src/App.tsx:165-177 | the buffer filled from a character and then saved gives back that character when its abilities are non-empty, trimmed and free of `", "` |
| `Books.SaveUnchangedCharacter` | story-organizer/src/App.tsx:165-183 | the rewrite `updateCharacter` applies to the buffer of an unchanged character of the selected book leaves the books as they were (unique character ids, well-formed abilities) |
| `Organizer.SaveWithoutEdits` | story-organizer/src/App.tsx:165-186 | opening a character of the selected book and saving it without edits leaves the books unchanged (unique ids, well-formed abilities) |
| `Seqs.Filter` | story-organizer/src/App.tsx:90 | `filter` never lengthens the list; every result satisfies the test and came from the input, and every input that satisfies the test is kept |
| `Seqs.FilterConcat` | story-organizer/src/App.tsx:159 | filtering distributes over concatenation, so the survivors keep their order |
| `Seqs.FilterMultiset` | story-organizer/src/App.tsx:159 | a kept value occurs as often as before, and a dropped one does not occur at all |
| `Seqs.FilterKeepsAll` | story-organizer/src/App.tsx:90 | a filter changes nothing exactly when every element passes the test |
| `Seqs.FilterIdempotent` | story-organizer/src/App.tsx:90 | filtering twice by the same test is filtering once |
| `EarlyOrganizer.StoryOrganizer.constructor` | story-organizer/src/App111.tsx:17-27 | the characters come from storage (a parameter) and all six drafts are empty |
| `EarlyOrganizer.StoryOrganizer.AddCharacter` | story-organizer/src/App111.tsx:33-59 | an empty name changes nothing; otherwise exactly one character with the fresh id and the form's values is appended after the earlier characters, which are kept in order, and all six drafts become `""` |
| `EarlyOrganizer.RemoveCharacter` | story-organizer/src/App111.tsx:62 | no remaining character has the id; every remaining character was there before, and every character with another id survives |
| `EarlyOrganizer.RemoveCharacterExact` | story-organizer/src/App111.tsx:62 | the survivors keep their multiplicity and relative order, and characters with the id are gone |
| `EarlyOrganizer.RemoveAbsentCharacter` | story-organizer/src/App111.tsx:62 | deleting an absent id changes nothing |
| `EarlyOrganizer.RemoveCharacterTwice` | story-organizer/src/App111.tsx:62 | deleting the same id twice is the same as deleting it once |
| `EarlyOrganizer.StoryOrganizer.DeleteCharacter` | story-organizer/src/App111.tsx:61-63 | the characters become the filtered list, and nothing else changes |

## Left out

- Rendering, styling and the theme lookup with its fallback
  (`story-organizer/src/App.tsx` lines 44-59 and 190-391): these are
  presentation only. The handlers written inline in that markup are
  modelled:
  - the "Back to Books" button (line 265) is `BackToBooks`;
  - the "Add Character"/"Cancel" button (line 269) is `ToggleAddCharacter`;
  - the overlay and the "Cancel" button of the edit dialog (lines 312 and
    373) are `CloseEditModal`;
  - the dialog's "Delete" and "Save" buttons (lines 366 and 379) are
    `DeleteCharacter` and `UpdateCharacter`;
  - the `onChange` writes to the form drafts and to the edit buffer (among
    them lines 320-357) are direct assignments to the class's fields.
- Drag-and-drop plumbing (`handleDragStart`, `handleDragOver`,
  `handleDragLeave`, `draggingId`, the drag-over flag and the `dataTransfer`
  reads and writes): these are browser events. Only the delete decision of
  `handleDrop` is modelled. A dragged id that is not a number becomes `NaN`
  in the source, and no book matches it. That is the same as an absent id,
  for which `Books.RemoveAbsentBook` shows the list is unchanged.
- The confirmation prompts (`confirm`, `window.confirm`) and the
  `document.body` class toggle in `showModal`: these are browser side effects.
  The prompt's answer is the `confirmed` parameter.
- Loading from and saving to `localStorage` with `JSON.parse`/`JSON.stringify`
  (both files): this is storage I/O. The constructors take the loaded list as
  a parameter.
- `Date.now()` identifiers: the clock is read outside the model, and the id
  arrives as `freshId`. Nothing makes these ids unique, so the lemmas that
  need unique ids ask for them explicitly.
- `story-organizer/src/db.ts` is not part of this model: it only declares a
  storage schema that App.tsx does not use.
- The character that `updateCharacter` saves still carries the buffer's
  `abilitiesText` key at run time, because it is built with an object spread.
  No handler reads that key, so `Books.SavedCharacter` drops it.
- JavaScript strings are sequences of UTF-16 code units, while Dafny's
  `string` holds Unicode scalar values, so a lone surrogate cannot be written
  in the model. No handler depends on this: both separators and every
  whitespace character that `trim` removes are single code units.
- JavaScript numbers are doubles. Identifiers are modelled as unbounded
  integers, which is exact for the millisecond clock values the source uses.
- `Organizer.StoryOrganizer.UpdateCharacter`: its guard says `IsBlank(name)`
  rather than `Trim(name) == ""`. This is not weaker: the contract of
  `Text.Trim` proves the two equivalent, and stating the guard this way keeps
  the method's proof small.
