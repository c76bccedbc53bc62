# Collaborative editor: edit-log resolver and document store

This project models the document store behind a small real-time
collaborative text editor. Two Node servers share the same logic:
`collaborative-editor-frontend/server.js` and the repository-root `server.js`.
Clients send socket.io events:

- `join-document` puts a socket in the room of a document id. It loads the
  stored text, and creates an empty record on first use.
- `edit-document` carries a user's full text for a document. An accepted edit
  is stamped with the server clock and appended to the record's history
  (`changes`). The history is re-sorted by timestamp, the record's `content`
  becomes the newline-join of every edit's text in that order, and the result
  goes to the other sockets in the room.
- The frontend server also has two HTTP routes. `POST /save-document` upserts
  a record's content and `lastModified`. `DELETE /clear-history` deletes every
  record.

The model runs each handler atomically against an in-memory store: a class
whose fields are a map from document id to record and a map from document id
to the set of socket ids in its room.

Modules:

- `JsText`: `String.prototype.trim`, over the ECMAScript WhiteSpace and
  LineTerminator code points.
- `EditLog`: the `Edit` and `Document` records, and the timestamp sort. The sort
  is `changes.sort((a, b) => a.timestamp - b.timestamp)`, which ECMA-262
  (section 23.1.3.30, Array.prototype.sort) has required to be stable since
  its 2019 edition, so it is modelled as a stable insertion sort. The module
  also holds the `"\n"` join and its inverse on newline-free lines.
- `Resolver`: `ResolveEdit`, the record an accepted edit leaves behind, and
  the lemmas about it.
- `Gateway`: the socket events, rooms, and the edit guard shared by both
  servers.
- `FrontendServer`: the `Server` class of `collaborative-editor-frontend/server.js`,
  with join, edit, save and clear.
- `BackendServer`: the `Server` class of the root `server.js`, with join and
  edit.

`Array.prototype.sort` is stable (ECMA-262, since the 2019 edition), so
re-sorting the history never reorders edits with equal timestamps. An edit
with the same timestamp as stored edits goes after them
(`Resolver.ResolveKeepsTies`).

An edit to an unknown id creates a record that already holds that edit, with
its text verbatim as content and no trimming (server.js:87-92).

In `BackendServer`, the only operations are join and edit. There, every
stored record keeps its content equal to the join of its timestamp-sorted
history; this is the class invariant `Valid`. In `FrontendServer`, a save can
break that equality until the next edit. The invariant there is only that the
history is sorted. `FrontendServer.SaveIsForgottenByNextEdit` states exactly
when the equality breaks, for any sorted record: when the saved text is not the
join of the history. It also states that the next edit resolves as if the save
had not happened.

## Model

| member | source | states |
|---|---|---|
| JsText.Trim | collaborative-editor-frontend/server.js:65 | `trim()` yields a slice of its input with only whitespace cut from either end, neither end of a non-empty result is whitespace, and the result is empty exactly when every character is whitespace |
| JsText.TrimStart | collaborative-editor-frontend/server.js:65 | the result is a suffix of the input, everything cut off is whitespace, and the result does not start with whitespace |
| JsText.TrimEnd | collaborative-editor-frontend/server.js:65 | the result is a prefix of the input, everything cut off is whitespace, and the result does not end with whitespace |
| Gateway.EditAccepted | collaborative-editor-frontend/server.js:65 | the guard `!username \|\| !content.trim()` lets an edit through exactly when the username is non-empty and some character of the content is not whitespace (the same guard is at server.js:75) |
| Gateway.Peers | collaborative-editor-frontend/server.js:95 | `socket.to(room)` reaches exactly the room's members other than the sender |
| Gateway.JoinRoom | collaborative-editor-frontend/server.js:52 | `socket.join(documentId)` adds the socket to that room; every other room keeps its members (the same call is at server.js:62) |
| Gateway.JoinedSocketReceivesPeersUpdates | collaborative-editor-frontend/server.js:52 | after a socket joins a room it is among the recipients of every broadcast to that room except its own, and the recipients of broadcasts to other rooms are unchanged |
| EditLog.Insert | collaborative-editor-frontend/server.js:89 | one step of the stable insertion sort: the history grows by exactly one entry (its placement, permutation and sortedness are the next four rows) |
| EditLog.SortByTime | collaborative-editor-frontend/server.js:89 | the sorted history is in ascending timestamp order and is a permutation of the input (same multiset) |
| EditLog.InsertPermutes | collaborative-editor-frontend/server.js:89 | inserting an edit adds exactly that edit to the multiset of entries |
| EditLog.InsertKeepsSorted | collaborative-editor-frontend/server.js:89 | inserting into a history in timestamp order keeps it in timestamp order |
| EditLog.InsertionPoint | collaborative-editor-frontend/server.js:89 | the insertion index is within bounds; every entry from it on is later than the new timestamp, and in a sorted history every entry before it is not later |
| EditLog.InsertAtPoint | collaborative-editor-frontend/server.js:89 | insertion places the new edit at its insertion point and leaves every other entry in its original order |
| EditLog.SortSortedIsIdentity | collaborative-editor-frontend/server.js:89 | sorting a history already in timestamp order leaves it unchanged |
| EditLog.PushThenSort | collaborative-editor-frontend/server.js:88-89 | pushing an edit onto a sorted history and sorting puts the edit at its insertion point, with the earlier entries in their old order around it |
| EditLog.InsertKeepsTies | collaborative-editor-frontend/server.js:89 | among entries with any given timestamp, insertion keeps their order and puts the new edit after those of its own timestamp |
| EditLog.SortIsStable | collaborative-editor-frontend/server.js:89 | the sort never reorders entries that share a timestamp |
| EditLog.Contents | collaborative-editor-frontend/server.js:90 | `changes.map(edit => edit.content)`: one text per edit, the i-th being the i-th edit's text |
| EditLog.JoinLines | collaborative-editor-frontend/server.js:90 | `join("\n")`: the empty string for no lines, otherwise the lines with one newline between neighbours; its contract is stated by the next three rows |
| EditLog.JoinLinesEnds | collaborative-editor-frontend/server.js:90 | the joined text starts with the first line and ends with the last one |
| EditLog.JoinAppend | collaborative-editor-frontend/server.js:90 | `join("\n")` of two non-empty runs of lines is their joins with exactly one newline between them |
| EditLog.SplitJoinRoundTrip | collaborative-editor-frontend/server.js:90 | when no edit's text contains a newline, splitting the joined content at newlines recovers exactly the edits' texts |
| Resolver.Lookup | collaborative-editor-frontend/server.js:75 | `Document.findOne({ documentId })` finds a record exactly when the id is stored, and then it is the stored record (the join handler's lookup is at :55) |
| Resolver.EmptyDocument | collaborative-editor-frontend/server.js:59 | the record a first join creates, `{ content: "", changes: [] }`, with empty content and history, and consistent (the same record is created at server.js:69) |
| Resolver.ResolveEdit | collaborative-editor-frontend/server.js:77-90 | the record an accepted edit leaves is consistent (history sorted, content the join of the history). A missing record becomes one holding just the edit, with the edit's text verbatim as content. An existing one gets exactly one more entry (the old entries plus the edit as a multiset) and keeps its `lastModified` |
| Resolver.ResolveKeepsPriorOrder | collaborative-editor-frontend/server.js:88-89 | on a sorted history the new edit lands after every entry not later than it and before every later one, and the prior entries keep their relative order |
| Resolver.ResolveKeepsTies | collaborative-editor-frontend/server.js:88-89 | edits with equal timestamps stay in arrival order: the new edit follows the stored ones with its timestamp |
| Resolver.InOrderEditAppendsLine | collaborative-editor-frontend/server.js:88-90 | an edit not older than any stored one appends exactly one line, its own text, to a consistent non-empty document |
| Resolver.SecondEditPlacement | collaborative-editor-frontend/server.js:88-89 | a second edit goes before the single stored one only when it is strictly older |
| Resolver.TwoEditsOrderedByTimestamp | collaborative-editor-frontend/server.js:77-90 | two edits to a new document end up ordered by timestamp whichever arrives first; with equal timestamps the first to arrive comes first |
| Resolver.LateEditLandsBetween | collaborative-editor-frontend/server.js:88-90 | an edit stamped between a document's two edits lands between them in the content |
| Resolver.InsertBetween | collaborative-editor-frontend/server.js:89 | proof helper for the row above: insertion into a two-entry history puts an edit stamped between them in the middle |
| Resolver.JoinTwo | collaborative-editor-frontend/server.js:90 | proof helper: the content of a two-edit history is the two texts with one newline between them |
| Resolver.JoinThree | collaborative-editor-frontend/server.js:90 | proof helper: the content of a three-edit history is the three texts separated by single newlines |
| Resolver.OutOfOrderArrival | collaborative-editor-frontend/server.js:75-90 | edits arriving as a, b, c but stamped a < c < b: after b the content is a's then b's line, and the late c is placed between them |
| FrontendServer.Upsert | collaborative-editor-frontend/server.js:118-122 | the upsert replaces content and `lastModified` and keeps the history; a missing record is created with no history |
| FrontendServer.Server.JoinDocument | collaborative-editor-frontend/server.js:46-62 | without a username: an error event, with the room and the store unchanged. Otherwise: the socket joins the room; a known id loads its stored content and changes nothing; an unknown id is created as `{content: "", changes: []}` and loads `""`. Sortedness is preserved |
| FrontendServer.Server.EditDocument | collaborative-editor-frontend/server.js:64-96 | a missing username or blank content changes nothing and broadcasts nothing. Otherwise the record becomes `ResolveEdit` of the stored one, which is consistent; on an existing id the edit is inserted at its insertion point with the prior entries in order. The stored content goes to the room minus the sender, and the rooms are unchanged |
| FrontendServer.Server.SaveDocument | collaborative-editor-frontend/server.js:110-128 | without a username: status 400 with "Username is required!" and no store change. Otherwise: status 200 "Saved by <username>!" and the record upserted with the content and time, its history untouched |
| FrontendServer.Server.ClearHistory | collaborative-editor-frontend/server.js:130-137 | every record is deleted, the rooms are unchanged, and the reply is 200 "Conversation history cleared!" |
| FrontendServer.ClearMakesJoinFirstUse | collaborative-editor-frontend/server.js:130-137 | after an edit a join loads the edited text; after a clear, a join on the same id behaves as a first use and loads `""` |
| FrontendServer.NextEditDiscardsSavedContent | collaborative-editor-frontend/server.js:118-122 | on the server: edit, save, edit. The saved text replaces the content but not the history, and the record is then consistent exactly when the saved text equals the history's join. The next edit recomputes the content from the history, and the saved text is gone |
| FrontendServer.SaveIsForgottenByNextEdit | collaborative-editor-frontend/server.js:118-122 | for any record with a sorted history, the upserted record is consistent exactly when the saved text equals the join of the history, and the next edit produces the same history and content as it would have without the save |
| FrontendServer.SaveThenEdit | collaborative-editor-frontend/server.js:118-122 | the facts of `NextEditDiscardsSavedContent` stated on the pure record functions, for any one-edit record and any later edit not older than its edit: the save keeps the record consistent only if it saves that edit's text, and the edit gives the two texts joined by a newline |
| BackendServer.Server.JoinDocument | server.js:56-72 | without a username: an error event, with the room and the store unchanged. Otherwise: the socket joins the room; a known id loads its stored content; an unknown id is created empty and its content `""` loaded. Every record stays consistent |
| BackendServer.Server.EditDocument | server.js:74-105 | a missing username or blank content changes nothing and broadcasts nothing. Otherwise the record becomes `ResolveEdit` of the stored one (the created record is exactly `[newEdit]` with the verbatim text). On an existing id the edit is inserted at its insertion point with the prior entries in order. The stored content goes to the room minus the sender, and every record stays consistent |
| BackendServer.SecondJoinKeepsDocument | server.js:65-71 | a first join creates the document and loads `""`; after an edit, a second join loads the edit's text instead of resetting |

## Left out

- Express setup, CORS, `express.json`, static files and the catch-all
  `index.html` route are framework glue with no logic of their own.
- The mongoose connection and the store calls are replaced by an in-memory
  map. Their failures are foreign I/O, so the 500 replies ("Error saving the
  document.", "Error clearing history.") are not modelled.
- socket.io delivery is not modelled. A room is a set of socket ids, and an
  emitted event is the method's return value.
- Disconnect is not modelled. socket.io removes a socket from its rooms when
  it disconnects, but in the model a room only grows, so the recipients of an
  `update-document` may include sockets that have gone.
- Handlers run atomically. The `await` interleavings, and the lost update
  between two concurrent edits to one document, are not modelled.
- `Date.now()` and `new Date()` are method parameters (integer
  milliseconds).
- `routes/documentRoutes` and `models/Document` are not part of this model.
  Their schema defaults are unknown, so a record created by a join or an edit
  has no `lastModified` (`None`).
- A missing `changes` array (the `if (!document.changes)` branch) cannot occur
  in the model: a history is always a sequence, possibly empty, which is what
  that branch produces.
- A falsy username is modelled as the empty string. `null`, `undefined` and
  other non-string payloads are not represented, and neither is the TypeError
  that `trim()` raises on non-string content.
- The comparator `a.timestamp - b.timestamp` is modelled as comparing integer
  timestamps. `NaN` and non-numeric timestamps cannot arise from `Date.now()`.
- Console logging is not modelled.
