# Comment server store, modelled in Dafny

`server.js` is a small Express server that keeps user comments on media
titles in a JSON file. Each comment is a record
`{id, mediaTitle, author, text, timestamp}`. Four handlers work on the list:

- `GET /api/comments` returns the whole list.
- `GET /api/comments/:mediaTitle` returns the comments with exactly that title.
- `POST /api/comments` validates a new comment, trims its fields and appends it.
- `DELETE /api/comments/:id` drops every comment with that id and always answers success.

This project models that store. The JSON file becomes the sequence field
`comments` of the class `CommentServer.CommentStore`. Reading and writing the
file are not modelled; each handler is read as one step on that sequence.

Files and modules:

- `text.dfy`, module `Text`: JavaScript `String.prototype.trim`, with the
  ECMA-262 WhiteSpace and LineTerminator characters listed one by one. It
  scans forward from the start and backward from the end, then keeps what
  lies between.
- `filter.dfy`, module `Filters`: `Array.prototype.filter` on a sequence.
  It proves that filtering keeps exactly the matching elements with their
  multiplicities, keeps their order, distributes over concatenation, is
  idempotent, and commutes with another filter.
- `comments.dfy`, module `Comments`: the record, the validation of a posted
  comment as the function `PostComment`, the title and id filters, and the
  lemmas that relate the operations.
- `store.dfy`, module `CommentServer`: the class with the list field. Its
  methods are proved against the functions of `Comments`. Its invariant
  `Valid()` says every stored comment is well formed, meaning trimmed with
  author at most 50 and text at most 500 characters. The constructor sets
  it up, and adding and deleting keep it.

Request-body fields are `Option<string>`. `None` stands for an absent or
`null` field. A field counts as given when it is present and not empty,
which is JavaScript truthiness for strings. The id and timestamp are
parameters of `AddComment`. The model does not assume ids are unique.

## Model

| member | source | states |
|---|---|---|
| `Text.SkipForward` | server.js:63-65 | the forward scan of `trim` stops at the first non-whitespace index at or after its start (or at the end), having passed only whitespace |
| `Text.SkipBackward` | server.js:63-65 | the backward scan of `trim` stops just after the last non-whitespace character above its lower bound, having passed only whitespace, and does not reach that bound if the character at the bound is not whitespace |
| `Text.Trim` | server.js:63-65 | trimming never lengthens a string; the result is empty exactly when the input is all whitespace; otherwise it starts and ends with non-whitespace |
| `Text.TrimIsSlice` | server.js:63-65 | the trimmed string is one contiguous run of the input's characters starting at the first non-whitespace index, with only whitespace before and after it |
| `Text.TrimIdempotent` | server.js:63-65 | trimming an already trimmed string changes nothing |
| `Filters.Filter` | server.js:37 | `filter` never lengthens the list, keeps an element exactly when it occurs in the input and matches, and the result is a subsequence of the input in the same order |
| `Filters.FilterCounts` | server.js:37 | the result of `filter` holds every matching element as many times as the input does, and no other element |
| `Filters.FilterAllMatch` | server.js:37 | every element of a filtered list passes the test |
| `Filters.FilterAppend` | server.js:37 | filtering a concatenation gives the kept part of the first list followed by the kept part of the second |
| `Filters.FilterKeepsAll` | server.js:85 | a filter returns its input unchanged if and only if every element matches |
| `Filters.FilterIdempotent` | server.js:85 | filtering twice with the same test gives the same result as filtering once |
| `Filters.FilterCommutes` | server.js:37 | two filters give the same result in either order |
| `Comments.PostComment` | server.js:46-77 | refused with MissingFields exactly when mediaTitle, author or text is missing or empty; refused with TooLong exactly when all are given but the untrimmed author is over 50 or the untrimmed text is over 500 characters; otherwise the record has the supplied id and timestamp, the trimmed fields, and is well formed, so the stored author is at most 50 and the stored text at most 500 characters |
| `Comments.WithTitle` | server.js:37 | exactly the comments whose title equals the query: each matching comment with all its copies, no other comment, in stored order |
| `Comments.WithoutId` | server.js:85 | exactly the comments whose id differs from the given one, with all their copies, in their original relative order; no comment with that id is left |
| `Comments.WhitespaceAuthorStoredEmpty` | server.js:50-64 | a whitespace-only author of at most 50 characters passes validation and is stored as the empty string |
| `Comments.WhitespaceTextStoredEmpty` | server.js:50-65 | a whitespace-only text of at most 500 characters passes validation and is stored as the empty string |
| `Comments.TitleAfterAppend` | server.js:69 | after an append, the new comment is at the end of its own title's view and every other title's view is unchanged |
| `Comments.DeleteIdempotent` | server.js:85 | deleting the same id a second time leaves the list unchanged |
| `Comments.DeleteUnchangedIffAbsent` | server.js:85-88 | a delete leaves the list unchanged if and only if no comment has that id |
| `Comments.DeleteUndoesAppend` | server.js:85 | deleting the id of a just-appended comment restores the earlier list when no earlier comment had that id |
| `Comments.TitleAfterDelete` | server.js:85 | the title view after a delete is the old title view without that id |
| `Comments.AppendKeepsWellFormed` | server.js:69 | appending a well-formed comment to a well-formed list gives a well-formed list |
| `Comments.DeleteKeepsWellFormed` | server.js:85 | every comment that survives a delete of a well-formed list is well formed |
| `CommentServer.CommentStore.constructor` | server.js:17-19 | a new store holds the empty list, which satisfies the invariant |
| `CommentServer.CommentStore.All` | server.js:22-25 | listing returns every stored comment in stored order and cannot change the store |
| `CommentServer.CommentStore.ByTitle` | server.js:33-38 | the title route returns exactly the stored comments with that title, each with all its copies, in stored order, and cannot change the store |
| `CommentServer.CommentStore.AddComment` | server.js:46-77 | the result is `PostComment` of the inputs; a refusal leaves the list unchanged; an acceptance appends exactly the new record and leaves every earlier element in place; the invariant is kept |
| `CommentServer.CommentStore.DeleteById` | server.js:80-93 | always reports success; the new list is the old list without every comment that has that id; the invariant is kept |

## Left out

- Express wiring, CORS, static file serving and `app.listen` (server.js:2-14, 95-99) are framework and network plumbing.
- Reading and writing `comments.json` and the JSON encoding (server.js:17-19, 24, 36, 59, 70, 83, 86) are left out. The file is the `comments` field.
- The 500 responses (server.js:26-29, 39-42, 73-76, 89-92) report only I/O or parse failures, which cannot happen on an in-memory list.
- `Date.now().toString()` and `new Date().toISOString()` (server.js:62, 66) read the clock. They are parameters of `AddComment`, and ids may repeat.
- `decodeURIComponent` of the route parameter (server.js:35) is a library call. The title is taken as already decoded.
- Non-string body values and JavaScript truthiness of non-strings (server.js:48-55) are not modelled. Fields are optional strings.
- The unsynchronised read-modify-write of the file by concurrent requests is a concurrency concern and is not modelled. Each handler is one atomic step.
- Text.Trim: JavaScript trims in UTF-16 code units. Here one `char` stands for one code unit, so a character outside the Basic Multilingual Plane is one unit here and two in JavaScript.
- Comments.PostComment: the length limits use JavaScript's `.length`, which counts UTF-16 code units, while here each `char` counts once. An author of 26 characters outside the Basic Multilingual Plane is 52 units in JavaScript and refused as too long, but 26 here and accepted.
- The `packageJson` object and its console output (server.js:101-121) are not logic.
