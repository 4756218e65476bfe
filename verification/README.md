# Notes app with tags — a Dafny model

This project models the logic of a small note-taking web application built
with Next.js and MongoDB/Mongoose. Notes have a title, content, tags and an
"archived" flag. It models five parts:

- **The note schema** (`NoteSchema`). Title and content are required. Tags
  default to `[]` and `archived` to `false`. Creation and update stamp the
  timestamps.
- **The collection endpoint** (`NotesRoute`). `GET` lists every note newest
  first. `POST` creates a note with `archived` forced to `false` and `tags`
  defaulting to `[]`. The database is a `NoteStore` class that holds the
  notes in insertion order, a clock and an id counter.
- **The search endpoint** (`SearchRoute`). It returns the notes whose title,
  content or some tag contains the query, ignoring case. A missing query
  counts as `""`.
- **The stand-alone note form** (`NoteFormComponent`). It splits the tag
  text on commas, trims each piece, drops empty tags and resets itself.
- **The page controller** (`HomePage`). The React component state is a
  `Home` class, and every event handler is a method on it. A handler does
  not perform network calls: it returns the requests it sends, and it
  receives the responses it awaits as parameters. The pure transforms used
  by the handlers are functions with lemmas: the tag parser, the quick-tag
  append, the archive toggle and the active/archived views.

`Text` models the JavaScript string operations the code relies on:
`trim` (ECMAScript's whitespace and line terminators), one-character
`split`, `join`, ASCII lower-casing and substring search. `Wrappers` holds
`Option`/`Result`, and `Sequences` holds `IsSubsequence`.

## Model

| member | source | states |
|---|---|---|
| NoteSchema.Create | models/Note.ts:13-21 | Creation fails exactly when title or content is missing or "", and the error names each failing required path. On success the tags default to `[]`, `archived` is true only when given as true, and `createdAt == updatedAt == now`. |
| NoteSchema.ApplyUpdate | models/Note.ts:20 | An update keeps the id and `createdAt`, sets `updatedAt` to the update time, and replaces exactly the fields supplied. |
| NotesRoute.SortNewestFirst | app/api/notes/route.js:10 | The listing is a permutation of the stored notes, ordered by `createdAt`, non-increasing. |
| NotesRoute.InsertByAge | app/api/notes/route.js:10 | Inserting into a newest-first list keeps it newest first and adds exactly that one note. |
| NotesRoute.ListingReversesCreation | app/api/notes/route.js:10 | For notes stored with increasing timestamps, the newest-first listing is the insertion order reversed. |
| NotesRoute.AppendNewest | app/api/notes/route.js:10 | A note stamped later than all stored ones goes first in the listing, and the rest of the listing is unchanged. |
| NotesRoute.AppendFreshId | app/api/notes/route.js:19-24 | Appending a note with a new id keeps ids distinct. |
| NotesRoute.NoteStore.Get | app/api/notes/route.js:8-12 | `GET` returns every stored note and only those (same multiset), newest first, which is the insertion order reversed. |
| NotesRoute.NoteStore.Post | app/api/notes/route.js:15-27 | `POST` succeeds exactly when title and content pass the schema. The new note copies title and content, takes `tags` or `[]`, is never archived, and gets a fresh id. It is appended to the store and heads the next listing. A rejected body leaves the store unchanged. The store invariant is preserved. |
| SearchRoute.QueryOf | app/api/notes/search/route.ts:9 | `q \|\| ""`: a missing query is the empty string. Its effect is stated by `SearchRoute.Search` and `SearchRoute.EmptyQueryFindsAll`. |
| SearchRoute.Matches | app/api/notes/search/route.ts:11-17 | The `$or` of the three case-insensitive conditions, where the tag condition holds when some tag satisfies it. `SearchRoute.Find` states that the result is exactly the matching notes. |
| SearchRoute.Find | app/api/notes/search/route.ts:11-17 | A note is in the result exactly when it is stored and its title, content or some tag contains the query, ignoring case. A matching note appears as often as it is stored, and a non-matching one never does. The result keeps storage order. |
| SearchRoute.EmptyQueryFindsAll | app/api/notes/search/route.ts:9-13 | The empty query returns the whole collection in storage order. |
| SearchRoute.Search | app/api/notes/search/route.ts:5-20 | A missing `q` is `""`. The result is exactly the matching stored notes, each as often as it is stored, in storage order. Nothing is written. With an empty query, everything is returned. |
| NoteFormComponent.DropEmpty | app/components/NoteForm.jsx:15 | `filter(Boolean)` removes every "" and keeps every other string, each as often as it occurs (same multiset minus the empty strings), in order. |
| NoteFormComponent.FormTags | app/components/NoteForm.jsx:15 | `split(",").map(t => t.trim()).filter(Boolean)`. Its meaning is stated by `NoteFormComponent.FormTagsWellFormed`. |
| NoteFormComponent.FormTagsWellFormed | app/components/NoteForm.jsx:15 | Every payload tag is non-empty, is its own trim and has no comma. Every non-empty trimmed piece of the input is kept, as often as it occurs, in input order. |
| NoteFormComponent.NoteForm.HandleSubmit | app/components/NoteForm.jsx:11-19 | The payload carries title and content unchanged and the parsed tags. The form is then reset to three empty strings. |
| HomePage.IsArchived | app/page.tsx:100 | The truthiness of the optional `archived` flag: only `true` counts. `HomePage.ViewsPartition` states that a note without a flag is active. |
| HomePage.Blank | app/page.tsx:56 | `!title.trim() \|\| !content.trim()`: holds exactly when the trim of the title or of the content is empty. |
| HomePage.EntryTags | app/page.tsx:68 | `split(",").map((t) => t.trim())`, as used at lines 68 and 125. Its meaning is stated by `HomePage.EntryTagsKeepEveryPiece` and `HomePage.EditTagsRoundTrip`. |
| HomePage.EntryTagsKeepEveryPiece | app/page.tsx:68 | The page's tag parser drops nothing: there is one tag per comma plus one, each the trimmed piece. A blank field gives `[""]`. |
| HomePage.EntryTagsAtComma | app/page.tsx:145 | The tags of `a, b` are the tags of `a` followed by those of `b`. |
| HomePage.EditTagsRoundTrip | app/page.tsx:111 | Tags with no comma and no surrounding whitespace come back unchanged after `join(", ")` and split/trim. An empty list comes back as `[""]`. |
| HomePage.AppendedTag | app/page.tsx:141-155 | The quick-tag append: the tag alone when the field trims to "", otherwise the field, ", " and the tag. Its effect on the sent tags is stated by `HomePage.AppendedTagAddsOne`. |
| HomePage.AppendedTagAddsOne | app/page.tsx:141-155 | A quick tag adds exactly one tag (the trimmed tag) after the typed ones, or replaces a blank field. |
| HomePage.QuickTagArrivesIntact | app/page.tsx:254-258 | Each offered quick tag reaches the request unchanged, as the last tag. |
| HomePage.Toggled | app/page.tsx:99-101 | The toggle keeps length and order and leaves notes with other ids alone. A note with that id changes only its flag, which becomes the negation of its truthiness (a missing flag counts as false, so it becomes `true`). |
| HomePage.ToggleTwiceKeepsArchivedView | app/page.tsx:99-101 | Toggling the same note twice leaves the archived view as it was. |
| HomePage.InView | app/page.tsx:165-167 | `viewArchived ? note.archived === true : !note.archived`. `HomePage.View` and `HomePage.ViewsPartition` state what the views hold. |
| HomePage.View | app/page.tsx:165-167 | A view holds exactly the notes of the list that belong to it, in list order. |
| HomePage.ViewsPartition | app/page.tsx:165-167 | The active and archived views together hold every note as often as the list does. No note is in both. A note without a flag is active. |
| HomePage.Home.constructor | app/page.tsx:14-29 | The initial state: no notes, no search, no error, the active view, empty inputs and no note being edited. |
| HomePage.Home.FilteredNotes | app/page.tsx:165-167 | The shown notes are exactly the listed notes of the current view. |
| HomePage.Home.LoadNotes | app/page.tsx:31-35 | It requests the listing, shows it, and clears `hasSearched`. |
| HomePage.Home.ExecuteSearch | app/page.tsx:37-46 | A blank search box reloads the full listing with `hasSearched` false. Otherwise it sends the search text and shows exactly the results, with `hasSearched` true. |
| HomePage.Home.HandleKeyDown | app/page.tsx:48-52 | Only Enter runs the search. Any other key changes nothing and sends nothing. |
| HomePage.Home.Reload | app/page.tsx:82-86 | It reloads through the search while search results are shown, and through the full listing otherwise. |
| HomePage.Home.CreateNote | app/page.tsx:55-77 | With a blank title or content it only sets the error message and sends nothing. Otherwise it posts title, content, the split and trimmed tags, and `archived: false`, clears the error and the three inputs, and reloads the full listing. |
| HomePage.Home.DeleteNote | app/page.tsx:79-87 | Without confirmation nothing happens. With it, the delete is sent and the list is reloaded by the `Reload` rule. |
| HomePage.Home.ToggleArchive | app/page.tsx:90-102 | It sends the note with its flag negated, then toggles the flag locally in the list. |
| HomePage.Home.OpenEdit | app/page.tsx:106-112 | It clears the error, remembers the note, and fills the edit inputs, joining the tags with ", ". |
| HomePage.Home.UpdateNote | app/page.tsx:114-138 | With a blank title or content it only sets the error message. Otherwise it sends the edits, the parsed tags and the note's own flag (missing counts as false), closes the editor, clears the error, and reloads by the `Reload` rule. |
| HomePage.Home.ShowView | app/page.tsx:285-291 | The view buttons select the active or the archived view. |
| HomePage.Home.CancelEdit | app/page.tsx:424 | Cancel closes the editor and clears the error. |
| HomePage.Home.AddTag | app/page.tsx:141-147 | The create field becomes the tag when blank, and `prev, tag` otherwise. |
| HomePage.Home.AddEditTag | app/page.tsx:149-155 | The edit field becomes the tag when blank, and `prev, tag` otherwise. |
| Text.Trim | app/page.tsx:38 | `trim()` neither starts nor ends with whitespace, and is empty exactly when the string is all whitespace. |
| Text.TrimIsSlice | app/page.tsx:38 | The trim is a contiguous slice of the input, and everything before it and everything after it is whitespace: exactly the leading and trailing whitespace is removed. |
| Text.TrimIdempotent | app/components/NoteForm.jsx:15 | Trimming twice is trimming once. |
| Text.TrimKeepsOut | app/components/NoteForm.jsx:15 | Trimming introduces no code point: a comma-free piece stays comma-free. |
| Text.TrimLeadingSpace | app/page.tsx:145 | The space after ", " disappears in the trim. |
| Text.Split | app/page.tsx:68 | `split(",")` gives at least one piece, and no piece holds the separator. |
| Text.SplitLength | app/page.tsx:68 | There is exactly one more piece than there are separators. |
| Text.Join | app/page.tsx:111 | `parts.join(sep)`. `Text.JoinSplit` and `HomePage.EditTagsRoundTrip` state how it undoes a split. |
| Text.JoinSplit | app/page.tsx:68 | Joining the pieces with the separator gives the input back. |
| Text.SplitAtSeparator | app/page.tsx:145 | Splitting at a separator splits the two sides independently. |
| Text.TrimEach | app/page.tsx:68 | `map(t => t.trim())` trims each piece and keeps the count. |
| Text.ContainsIgnoringCase | app/api/notes/search/route.ts:13-15 | The `$regex` test with `$options: "i"` for a literal query: the ASCII-lower-cased pattern occurs in the lower-cased text. `Text.EmptyOccursEverywhere` states that the empty query matches every text. |
| Text.EmptyOccursEverywhere | app/api/notes/search/route.ts:9-13 | The empty pattern matches every text, ignoring case. |

## Left out

- Database connection handling (lib/mongodb.js) is not part of this model. The database is an in-memory sequence owned by `NoteStore`.
- `fetch`, JSON encoding and decoding, and the `confirm` dialog are not executed. Handlers return the requests they would send. Responses and the user's confirmation are parameters.
- The by-id GET/PUT/DELETE handler is not part of this model. The page only sends its requests, and `ApplyUpdate` states the schema's timestamp rule for an update without modelling that handler.
- Rendering (the JSX) is left out. Typing into an input is a plain assignment to the matching field. The load on mount (app/page.tsx:157-162) is a call to `LoadNotes`.
- HomePage.Home: every handler assumes its requests succeed. In the page, a failed `fetch` or an unreadable JSON reply throws at the `await`, and the handler stops there. The model does not capture those outcomes:
  - `LoadNotes` and `ExecuteSearch` would leave `notes` and `hasSearched` as they were.
  - `CreateNote` would already have cleared `error`, but it would keep the three inputs and would not reload.
  - `ToggleArchive` would not flip the flag.
  - `DeleteNote` and `UpdateNote` would skip the reload. `UpdateNote` would also leave the editor open.
- Concurrency is left out. The reloads that the handlers start without awaiting them, and the toggle's awaited PUT, are modelled as finishing in order, each with the response passed in.
- NotesRoute.NoteStore: the clock is a natural-number counter rather than a wall clock. Because each note gets a later stamp than every stored one, ties between timestamps cannot occur. The order MongoDB would give to notes with equal timestamps is therefore not modelled.
- NotesRoute.NoteStore: ids are natural numbers handed out by a counter rather than ObjectIds, while the page sees them as strings.
- NoteSchema.Create: Mongoose type casting of non-string values is not modelled. The JSON body is assumed to carry strings, a string list and a boolean.
- NoteSchema.ApplyUpdate: it does not run the required validators, and nothing in the model calls it.
- SearchRoute.Matches: `q` is matched as a literal substring with ASCII case folding. Regular-expression metacharacters and Unicode case folding are not modelled.
- HomePage.Home.ExecuteSearch: the search text goes into the URL unencoded. The model sends the raw text and does not model how `&`, `#` or `+` would change the `q` the server receives.
- HomePage.Home.ToggleArchive: the PUT body spreads the whole client note, including `_id`. The model's body has only title, content, tags and the flag.
- HomePage.Home.UpdateNote: with no note being edited, `editingNote!._id` throws after validation. The model leaves the state unchanged and sends nothing.
- NoteFormComponent.NoteForm.HandleSubmit: `onSave` is a callback prop. The model returns the payload instead of calling it.
