# Zen Notes: block list, note files and wiki links, in Dafny

Zen Notes is a desktop note-taking app: a list of note "blocks" in a web
front end, persisted one file per block by a small backend. This project
models three sequential parts of it and proves what they promise.

- **The note file format** (`note_file.dfy`, module `NoteFile`). `save_block`
  writes a block to `<id>.md` as a one-line HTML comment holding the metadata
  as JSON, a blank line, and the content. `load_notes` reads every `.md` file
  of the notes directory back (header detection, the "Untitled" and
  not-collapsed defaults, the `# ` heading fallback for the title, the content
  after the header block), then sorts the notes by id. `delete_block` removes
  the file if it exists. The directory is a list of (name, text) entries; the
  JSON encoder and decoder are an abstract pair of functions. The main result
  is the round trip: a block whose content has no carriage return and no final
  line break loads back exactly as it was saved.
- **The block list** (`block_store.dfy`, module `BlockStore`). A `Store` class
  holds the list of blocks and the search term. It has one method per handler:
  load, add, the title/content/collapse edits, delete and drag-reorder. Each
  method states the new list in terms of pure list functions. Lemmas then say
  what those functions do: the search filter keeps exactly the matching blocks
  in order; an edit changes one field of the blocks with that id; delete keeps
  the other blocks untouched; a reorder is a permutation with the dragged
  block at its destination and `order` equal to the position. Backend calls
  are not awaited: each handler is given how its call ended and returns the
  call it made.
- **Wiki links** (`wiki_link.dfy`, module `WikiLink`). This is the editor
  extension that marks `[[Title]]` links. The global regex scan is a recursive
  function. It is proved equal to a declarative reading of the pattern, to
  return ordered non-overlapping spans, and to miss no link. The module also
  covers the decorations that carry each title, the mouse-press rule that
  navigates only on a non-empty title, and the plugin's update rule.

`common.dfy` (module `Common`) holds `Option`, `Result` and the string
predicates (`StartsWith`, `EndsWith`, `Includes`, `IndexOf`) the others share.

The drag handler calls `update_orders`, which the backend does not register
(src-tauri/src/lib.rs:130). The model sends that call, and its outcome never
affects the local list.

## Model

| member | source | states |
|---|---|---|
| Common.IncludesWindow | src/App.tsx:40-41 | `includes` holds exactly when the term occurs at some position of the text |
| NoteFile.NoteText | src-tauri/src/lib.rs:35 | the text `save_block` writes starts with the `<!-- ` header prefix and ends with the block's content |
| NoteFile.RoundTrip | src-tauri/src/lib.rs:20-103 | parsing the text `save_block` writes gives back the same id, title, collapse flag and content, provided the codec reads the metadata back and the content has no `\r` and no final `\n` |
| NoteFile.SavedLines | src-tauri/src/lib.rs:35 | the saved text splits into the header line, an empty line, then the content's own lines |
| NoteFile.HeaderLineInverse | src-tauri/src/lib.rs:73-75 | a written header line passes the header guard, and stripping the 5-character prefix and 4-character suffix gives back the metadata text |
| NoteFile.MetadataSliceAsWritten | src-tauri/src/lib.rs:73-75 | on a line that passes the guard, the slice exists exactly when the line has at least 9 characters, and then it is the text between prefix and suffix |
| NoteFile.MetadataText | src-tauri/src/lib.rs:73-75 | the total version of the slice: the text between prefix and suffix, and empty for the 8-character line `<!-- -->` |
| NoteFile.EmptyCommentPanics | src-tauri/src/lib.rs:73-75 | `<!-- -->` passes the guard but has no slice (start 5 is past end 4) |
| NoteFile.OnlyEmptyCommentPanics | src-tauri/src/lib.rs:73-75 | `<!-- -->` is the only line that passes the guard and has no slice |
| NoteFile.MetadataFields | src-tauri/src/lib.rs:28-33 | the saved metadata object gives back the block's title as a string and its collapse flag as a boolean |
| NoteFile.ParseNoteDefaults | src-tauri/src/lib.rs:66-103 | about `ParseNote`, the per-file parse at lib.rs:66-103: the id is the given one; a note is collapsed exactly when its header decodes to an object whose `isCollapsed` is the boolean true; a decoded header whose `title` is missing or not a string keeps "Untitled" unless the `# ` heading applies; a string `title` other than "Untitled" is the title; with no header and no heading the title is "Untitled" |
| NoteFile.UndecodableHeaderKeepsDefaults | src-tauri/src/lib.rs:73-85 | a header that does not decode keeps both defaults, is still skipped, and the line after it is dropped |
| NoteFile.HeadingNoteReads | src-tauri/src/lib.rs:87-96 | a file without a header whose first line is `# t` reads as title t, not collapsed, with the lines after the heading as content |
| NoteFile.PlainFirstLineDropped | src-tauri/src/lib.rs:88-96 | without header or heading the title is "Untitled" and the first line is dropped from the content |
| NoteFile.FinalLineBreakLost | src-tauri/src/lib.rs:66-96 | content `x\n` reads back as `x`: the round trip needs its no-final-line-break condition |
| NoteFile.Lines | src-tauri/src/lib.rs:66 | `lines()` returns no line containing a line break, and at least one line for non-empty text |
| NoteFile.LinesCons | src-tauri/src/lib.rs:66 | `lines()` on `a\nb` is the first line (one trailing `\r` removed) followed by the lines of b |
| NoteFile.JoinLines | src-tauri/src/lib.rs:92-96 | joining the lines of a text with `\n` gives the text back when it has no `\r` and no final `\n` |
| NoteFile.MdStem | src-tauri/src/lib.rs:56-63 | a name is loaded only when it is `<stem>.md` with a non-empty stem, and the stem is the id |
| NoteFile.MdStemOfFileName | src-tauri/src/lib.rs:25 | the file name `save_block` writes is recognised as a note with the block's id, exactly when the id is non-empty |
| NoteFile.FileNameInjective | src-tauri/src/lib.rs:25 | different ids give different file names |
| NoteFile.CollectOk | src-tauri/src/lib.rs:52-57 | about `Collect`, the `for` loop at lib.rs:50-105: loading the entries succeeds exactly when every `.md` entry can be read |
| NoteFile.CollectMembers | src-tauri/src/lib.rs:50-105 | a record is loaded exactly when it is the parse of some `.md` entry, with the file stem as id |
| NoteFile.CollectErrStays | src-tauri/src/lib.rs:57 | once a file fails to read, the whole load fails with that error |
| NoteFile.IdLeTotal | src-tauri/src/lib.rs:108 | the byte-wise id comparison is total |
| NoteFile.IdLeTrans | src-tauri/src/lib.rs:108 | the byte-wise id comparison is transitive |
| NoteFile.IdLeAntisym | src-tauri/src/lib.rs:108 | the byte-wise id comparison is antisymmetric |
| NoteFile.InsertSorted | src-tauri/src/lib.rs:108 | inserting a record between neighbours it fits keeps the sequence sorted by id |
| NoteFile.SinkLast | src-tauri/src/lib.rs:108 | moving the next record into a sorted prefix keeps the prefix sorted and the array a permutation |
| NoteFile.SortById | src-tauri/src/lib.rs:108 | `sort_by` on ids leaves the array sorted by id and a permutation of what it held |
| NoteFile.LoadNotes | src-tauri/src/lib.rs:42-111 | no data directory and an unlistable directory are errors; a missing directory loads as empty; otherwise a failed read is the error, else the result is the parsed `.md` entries sorted by id; a first line `<!-- -->`, where the source panics, is read as empty metadata (see "## Findings") |
| NoteFile.WriteFile | src-tauri/src/lib.rs:37 | after the write the named file holds the text, every other file is kept, and nothing else appears; in a directory with one entry per name the new text is the only entry under that name and names stay unique |
| NoteFile.DeleteNote | src-tauri/src/lib.rs:113-124 | the id's file is gone and every other entry is kept; with no such file the directory is unchanged |
| NoteFile.SaveNote | src-tauri/src/lib.rs:20-38 | after `save_block` the file `<id>.md` holds the note text, every file with another name is kept, and nothing else appears; in a directory with one entry per name, names stay unique and the note text is the only entry named `<id>.md` |
| NoteFile.SavedNoteLoads | src-tauri/src/lib.rs:20-111 | after saving a block with a non-empty id, loading succeeds, returns the block, and keeps every note with another id; in a directory with one entry per name every loaded note is the block or a note of another id that loaded before |
| NoteFile.DeletedNoteGone | src-tauri/src/lib.rs:113-124 | after deleting, loading succeeds, no note has the id, every note with another id is kept, and every note that loads loaded before |
| NoteFile.DeleteLoadsNothingNew | src-tauri/src/lib.rs:113-124 | a delete makes no new note load |
| BlockStore.Filter | src/App.tsx:38-42 | the filtered list is no longer than the list and holds only matching blocks of the list |
| BlockStore.Lower | src/App.tsx:38-42 | lowercasing keeps the length, leaves no ASCII capital, and keeps every character that is not one |
| BlockStore.FilterMembers | src/App.tsx:38-42 | a block survives the search exactly when it `Matches`: its lowercased title or lowercased content includes the lowercased term (the predicate at App.tsx:38-42) |
| BlockStore.FilterAppend | src/App.tsx:38-42 | filtering keeps relative order (it distributes over concatenation) |
| BlockStore.FilterKeepsAll | src/App.tsx:38-42 | the filter returns the whole list exactly when every block matches |
| BlockStore.EmptyTermKeepsAll | src/App.tsx:38-42 | the empty term keeps every block |
| BlockStore.AppendKeepsPositions | src/App.tsx:64-71 | appending `NewBlock`, the literal at App.tsx:64-70, with `order` = old length keeps every `order` equal to its position |
| BlockStore.AppendKeepsUnique | src/App.tsx:61-71 | appending a block with a fresh id keeps ids unique |
| BlockStore.EditWhereAt | src/App.tsx:87 | about `EditWhere`, the `map` at App.tsx:87, 96 and 105-107: position by position, blocks with the id are edited and all others are equal; the length is kept |
| BlockStore.EditChangesOneField | src/App.tsx:86-107 | an edit never changes ids, order or tags, and changes only the title, the content or the collapse flag of the blocks with the id |
| BlockStore.FindEdited | src/App.tsx:87-91 | after an edit, `find` returns the edited version of the first block with the id |
| BlockStore.FindById | src/App.tsx:89 | a found block is in the list and has the id |
| BlockStore.FindByIdFirst | src/App.tsx:89-92 | `find` fails exactly when no block has the id, and otherwise returns the first block that has it |
| BlockStore.EditKeepsUnique | src/App.tsx:86-108 | an edit by id keeps ids unique |
| BlockStore.EditUnknownId | src/App.tsx:86-115 | an edit with an id no block has leaves the list unchanged |
| BlockStore.ToggleTwice | src/App.tsx:104-108 | toggling the same id twice restores the list |
| BlockStore.Without | src/App.tsx:136 | the list after delete is no longer than before and holds only blocks of the old list with another id |
| BlockStore.WithoutMembers | src/App.tsx:136 | after delete exactly the blocks with another id remain, each unchanged, `order` included |
| BlockStore.WithoutAppend | src/App.tsx:136 | delete keeps relative order |
| BlockStore.WithoutUnknownId | src/App.tsx:136 | deleting an id no block has leaves the list unchanged |
| BlockStore.WithoutKeepsUnique | src/App.tsx:136 | delete keeps ids unique |
| BlockStore.Moved | src/App.tsx:197-199 | the two splices keep the length and put the dragged block at the destination |
| BlockStore.MovedAt | src/App.tsx:197-199 | the dragged block lands at the destination, the blocks between source and destination shift by one, all others stay |
| BlockStore.MovedIsPermutation | src/App.tsx:197-199 | the two splices give a permutation of the list |
| BlockStore.Renumbered | src/App.tsx:202-205 | renumbering keeps the length and the ids, and every `order` becomes the position |
| BlockStore.RenumberedAt | src/App.tsx:202-205 | after renumbering every `order` is the position and nothing else changed |
| BlockStore.PayloadIsPositions | src/App.tsx:211-213 | about `OrdersOf`, the `map` at App.tsx:211-213: the `update_orders` payload is each id with its new position, in list order |
| BlockStore.ReorderKeepsIds | src/App.tsx:197-205 | a reorder keeps the multiset of ids |
| BlockStore.IdsOfPermutation | src/App.tsx:197-205 | permuted lists have the same multiset of ids |
| BlockStore.ReorderKeepsUnique | src/App.tsx:197-205 | a reorder keeps ids unique |
| BlockStore.MovedSameIndex | src/App.tsx:197-205 | dropping a block on its own place gives the same list with only `order` renumbered |
| BlockStore.DragAgreesWhenFilterKeepsAll | src/App.tsx:194-228 | when every block matches the term, the block at the drop position is the one dragged in the filtered list |
| BlockStore.DragMovesWrongBlockUnderFilter | src/App.tsx:194-228 | with a term that hides the first block, dragging the first visible block moves the hidden one |
| BlockStore.Store.constructor | src/App.tsx:19-20 | the list and the search term start empty |
| BlockStore.Store.SetSearchTerm | src/App.tsx:156 | the term is replaced and the list is unchanged |
| BlockStore.Store.LoadNotes | src/App.tsx:44-51 | loaded records replace the list (no order, no tags); on rejection the list stays |
| BlockStore.Store.AddNewBlock | src/App.tsx:61-84 | exactly one new empty, expanded block with `order` = old length is appended and saved; unique ids and order-equals-position are kept, whatever the save does |
| BlockStore.Store.EditBlock | src/App.tsx:86-115 | the list is edited by id; the edited first match is saved, and nothing is saved exactly when no block has the id; unique ids stay unique |
| BlockStore.Store.UpdateBlockTitle | src/App.tsx:86-93 | the title edit by id; a save of the edited block exactly when the id exists; a failed save changes nothing; unique ids stay unique |
| BlockStore.Store.UpdateBlockContent | src/App.tsx:95-102 | the content edit by id; a save of the edited block exactly when the id exists; a failed save changes nothing; unique ids stay unique |
| BlockStore.Store.ToggleCollapse | src/App.tsx:104-115 | the collapse flip by id; a save of the edited block exactly when the id exists; unique ids stay unique |
| BlockStore.Store.DeleteBlock | src/App.tsx:133-140 | the delete call is made first; the list loses the id's blocks only when it resolves, otherwise it is unchanged; unique ids stay unique |
| BlockStore.Store.OnDragEnd | src/App.tsx:194-218 | no destination changes nothing and sends nothing; otherwise the list becomes the renumbered move and its (id, order) pairs are sent; unique ids stay unique |
| WikiLink.MatchAtIsLink | src/utils/wiki-link-extension.ts:12 | about `MatchAt`, one attempt of the regex at line 12: the regex matches at a position with a given title exactly when `[[`, that non-empty `]`-free title and `]]` start there |
| WikiLink.LinkTitleUnique | src/utils/wiki-link-extension.ts:12 | at most one title can match at a position |
| WikiLink.LinkText | src/utils/wiki-link-extension.ts:12-14 | a match covers exactly `[[` + title + `]]`, and the captured title is non-empty and has no `]` |
| WikiLink.Scan | src/utils/wiki-link-extension.ts:12 | every span is a match that covers `len(title) + 4` characters, and spans come left to right without overlap |
| WikiLink.ScanLeftmost | src/utils/wiki-link-extension.ts:12 | no link starts before the first span, between spans or after the last, so each span is the leftmost match after the previous one |
| WikiLink.OpeningBracketInTitle | src/utils/wiki-link-extension.ts:12 | `[[[a]]` has one span, from 0 to 6, with title `[a` |
| WikiLink.EmptyTitleNoLink | src/utils/wiki-link-extension.ts:12 | `[[]]` has no span |
| WikiLink.DecorationsCarryTitles | src/utils/wiki-link-extension.ts:13-23 | about `Decorate`, the mark built at lines 13-23: one mark per span, in order, over the span's text, with the link class, the title as `data-title` and `Go to <title>` as hover text |
| WikiLink.DecorationsStayInLine | src/utils/wiki-link-extension.ts:11-24 | every mark of the document lies within a single line |
| WikiLink.ClosestLink | src/utils/wiki-link-extension.ts:45-46 | the link element is the nearest element, starting at the target, with the link class |
| WikiLink.OnMouseDown | src/utils/wiki-link-extension.ts:43-53 | navigation happens exactly when the nearest link element has a non-empty `data-title`, and goes to that title |
| WikiLink.PressOnLinkNavigates | src/utils/wiki-link-extension.ts:43-53 | a press on a link mark, or inside it, navigates to that link's title |
| WikiLink.LinkPlugin.constructor | src/utils/wiki-link-extension.ts:30-32 | the first decoration set is the one for the document |
| WikiLink.LinkPlugin.Update | src/utils/wiki-link-extension.ts:34-38 | the set is recomputed only when the document or the viewport changed, otherwise kept, and it stays the set for the current document |

## Left out

- File-system access, the data directory lookup and directory creation are not modelled as I/O. The directory is a list of entries. `NoDataDir` and `Unlistable` stand for the two failures that happen before any entry is read.
- Failures of single directory entries (src-tauri/src/lib.rs:53) and file names that are not UTF-8 (src-tauri/src/lib.rs:61-62) are left out. Every entry has a text name.
- A failing `fs::write`, `create_dir_all` or `remove_file` is left out. `WriteFile` and `DeleteNote` always succeed.
- Ids that contain `/` or other path syntax are left out. File names are plain strings.
- JSON encoding and decoding are abstract functions. Their correctness (decode after encode, one-line output) is a hypothesis of the round trip, not proved.
- The `createdAt`/`updatedAt` timestamps are parameters. They are written but never read back.
- NoteFile.LoadNotes: the sort is an insertion sort over an array. Rust's `sort_by` is a stable merge sort, and the model does not state stability.
- Tauri `invoke`, `async`/`await` scheduling, error logging, and the stale closures over `blocks` that overlapping handlers could see are left out. Each handler runs to completion with its backend outcome given.
- BlockStore.Store.AddNewBlock: requires an id no block has. The snowflake id generator is an external library and is taken to return fresh ids. A failure of the generator (the outer `catch`) is not modelled.
- Positions count characters (Unicode code points). CodeMirror offsets and JavaScript string positions count UTF-16 code units, so each character outside the Basic Multilingual Plane before a link shifts the source's span offsets by one relative to `WikiLink.Span`.
- BlockStore.Lower: lowercases ASCII letters only. JavaScript's `toLowerCase` also maps other Unicode letters.
- Loaded blocks and new blocks have `tags` = [] here. In the app the field is missing (`undefined`) on both. The handlers never read it.
- The `update_orders` call is modelled as sent. The backend has no handler for it (src-tauri/src/lib.rs:130), so it always fails. That failure is swallowed.
- WikiLink.LinkPlugin.Update: decorations are computed for the whole document. CodeMirror's `MatchDecorator` only matches visible lines and updates incrementally. The document is given as lines, and no other incremental behaviour is modelled.
- DOM event objects are reduced to the path of elements from the target up to the root. `preventDefault` happens exactly when `OnMouseDown` returns a title.
- Scrolling after add, the preview modal, the theme hook, the other components, `headless.rs` and `greet` are view code, bootstrap or unrelated to the block data. Archiving and tag editing are declared in `src/types.ts` (`toggleArchive`, `updateBlockTags`, `isArchived`) but implemented nowhere. Save status is neither declared nor implemented.

## Findings

| source | as written | input that shows it | evidently intended | confidence | as-written member | corrected member |
|---|---|---|---|---|---|---|
| src-tauri/src/lib.rs:73-75 | the guard checks only the `<!-- ` prefix and the ` -->` suffix, then slices from 5 to length minus 4 | a `.md` file whose first line is `<!-- -->` (8 characters): start 5 is past end 4, so the slice panics and `load_notes` fails | a header line whose prefix and suffix overlap has empty metadata; it is skipped and the defaults apply | not executed | NoteFile.EmptyCommentPanics | NoteFile.MetadataText |
