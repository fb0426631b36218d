# To-do app: registration, user store and the to-do client, modelled in Dafny

This project models four small pieces of a to-do web application (an Express
backend on MongoDB and a React client), run one step at a time:

- **Registration** (`backend/src/routes/register.ts`). The POST `/` handler
  rejects an email without `@` (error code 0). It then rejects an email that is
  already registered (error code 1). Every other request is answered
  `{ success: true }`. The password-strength rule (at least 10 characters,
  2 digits and 2 capitals) only decides whether a log line is written.
  The handler inserts nothing.
- **User store** (`backend/src/utils/database.ts`). The registered-users
  collection is a sequence of `{ email, password, sessionId }` documents.
  `isEmailAlreadyRegistered` finds the first document with the email.
  `insertUser` appends one with an empty session id. `addSession` sets the
  session id of the first matching document.
- **Grouped to-do view** (`frontend/src/components/to-do/Controller.tsx`).
  The deadlines are collected once each, in order of first appearance. Under
  each deadline the view draws the top-level items (`parent === ''`), each with
  its children (the items whose `parent` is its title).
- **To-do page** (`frontend/src/routes/toDo.tsx`). A page object holds the
  to-do list, the create button's `disabled` flag, the modal's visibility and
  the rendered list entries. It records in order what it sends and signals.

Both client screens replace their list only when a polled response carries
`dues` and that list is not deep-equal to the current one (module `Snapshot`).
The model proves that, while the server's list stays the same, polling replaces
the local list at most once. That bound is what stops the poll/re-render cycle.

Files: `wrappers.dfy` (Option), `user_store.dfy`, `register.dfy`,
`snapshot.dfy`, `controller.dfy`, `todo_route.dfy`.

Conventions taken from JavaScript truthiness:
- An absent `dues` is `None`. An empty array is truthy, so `Some([])` is a
  present snapshot.
- A response's `sessionId` is truthy when it is a non-empty string.
- An input value that `getAttribute` returns as `null` is modelled as `""`.
- A button carrying the `disabled` attribute fires no click handler. So after
  a create attempt with an empty field, the button stays disabled and later
  clicks do nothing (`ToDoRoute.EmptyFieldLocksCreate`).

The code only checks for an `@`, has no error code for weak passwords, does
not refuse a duplicate email on insert, and stores the password as given. So
`Handle` accepts weak passwords, `InsertKeepsDuplicates` shows that duplicates
are stored, and `Database.InsertUser` stores the password as given.

## Model

| member | source | states |
|---|---|---|
| UserStore.FirstMatch | backend/src/utils/database.ts:53-57 | the `{ email }` filter selects nothing iff no document has the email; otherwise it selects the first document with that email |
| UserStore.FindOne | backend/src/utils/database.ts:53 | `findOne` yields a document iff the email is registered; that document is in the collection and has the email |
| UserStore.SetSession | backend/src/utils/database.ts:57 | `updateOne` with `$set` changes only the first matching document, and only its session id; the length, every email and every password are kept; an unregistered email leaves the collection unchanged (no upsert) |
| UserStore.FirstMatchSeesOnlyEmails | backend/src/utils/database.ts:57 | two collections with the same emails in the same places select the same document |
| UserStore.FirstMatchAfterAppend | backend/src/utils/database.ts:53-55 | appending a document never changes an earlier selection; the new document is selected only if no earlier one matches |
| UserStore.InsertedIsFound | backend/src/utils/database.ts:53-55 | after `insertUser(email, password)` the lookup finds a document: the new one `{email, password, ''}` when the email was free, else the earlier duplicate |
| UserStore.InsertKeepsDuplicates | backend/src/utils/database.ts:55 | inserting an email that is already registered leaves two documents with that email |
| UserStore.SessionIsFound | backend/src/utils/database.ts:53-57 | after `addSession(email, s)` on a registered email, the lookup finds the same document carrying session id `s` |
| UserStore.Database.constructor | backend/src/utils/database.ts:13-16 | the modelled collection starts empty (see Left out) |
| UserStore.Database.Locate | backend/src/utils/database.ts:53 | the scan returns the position the `{ email }` filter selects |
| UserStore.Database.IsEmailAlreadyRegistered | backend/src/utils/database.ts:53 | returns a document iff the email is registered; that document has the email and comes from the collection; the collection is only read |
| UserStore.Database.InsertUser | backend/src/utils/database.ts:55 | appends exactly one document: the given email, the password as given, and an empty session id |
| UserStore.Database.AddSession | backend/src/utils/database.ts:57 | the new collection is `SetSession` of the old one |
| RegisterRoute.CountInRange | backend/src/routes/register.ts:32 | the number of regex matches of a character class is at most the length of the password |
| RegisterRoute.CountConcat | backend/src/routes/register.ts:32 | match counting is additive over concatenation |
| RegisterRoute.CountIgnoresOutside | backend/src/routes/register.ts:32-34 | a character outside `0-9` (or `A-Z`) inserted anywhere changes neither count, so lower-case letters and symbols count for nothing |
| RegisterRoute.CountCountsInside | backend/src/routes/register.ts:32-34 | a character inside the class, inserted anywhere, adds exactly one to the count |
| RegisterRoute.CountPositive | backend/src/routes/register.ts:32 | the regex finds a match (the array is not `null`) iff some character is in the class |
| RegisterRoute.CountAtLeastTwo | backend/src/routes/register.ts:32 | the regex finds at least two matches iff two different positions hold characters of the class |
| RegisterRoute.StrongPassword | backend/src/routes/register.ts:32-34 | the password is strong iff it has at least 10 characters, two positions holding digits `0-9` and two positions holding capitals `A-Z` |
| RegisterRoute.Handle | backend/src/routes/register.ts:13-38 | error code 0 iff the email has no `@`; error code 1 iff it has `@` and is registered; success iff it has `@` and is not registered, whatever the password; no other error code; the strength log happens iff the request succeeds and the password is strong |
| RegisterRoute.InvalidEmailIgnoresStore | backend/src/routes/register.ts:22-24 | for an email without `@`, the outcome is the same whatever emails are registered |
| RegisterRoute.Post | backend/src/routes/register.ts:13-38 | against a database, the reply and log flag are those of `Handle` over its emails; the lookup runs iff the email has `@`; the collection is unchanged |
| Snapshot.Replaces | frontend/src/components/to-do/Controller.tsx:49 | `setToDos` is called iff `dues` is present and differs from the current list in length or at some position (deep inequality) |
| Snapshot.Apply | frontend/src/components/to-do/Controller.tsx:49 | after one polled response the list equals the snapshot if one was sent and is unchanged otherwise; the same response applied again would not call `setToDos` |
| Snapshot.Poll | frontend/src/components/to-do/Controller.tsx:35-57 | over any run of polls, the final list is the last snapshot received, or the starting list if none arrived; the number of `setToDos` calls is at most the number of polls |
| Snapshot.LatestAfterFirst | frontend/src/components/to-do/Controller.tsx:49 | the last snapshot of a run is the same whether or not the first poll's snapshot is taken as the starting list |
| Snapshot.SteadyServerSetsAtMostOnce | frontend/src/routes/toDo.tsx:26-37 | while every response carries the same list (or none), polling calls `setToDos` at most once, and never if the list already equals it; the final list is that snapshot once one has arrived |
| ToDoController.FirstWith | frontend/src/components/to-do/Controller.tsx:31-32 | the first position of a deadline among the to-dos |
| ToDoController.DistinctDeadlines | frontend/src/components/to-do/Controller.tsx:31-32 | the deadlines list has no duplicates and holds exactly the deadlines of the to-dos |
| ToDoController.FirstWithPrefix | frontend/src/components/to-do/Controller.tsx:31-32 | a deadline's first position does not move when more to-dos follow |
| ToDoController.DeadlinesInFirstAppearanceOrder | frontend/src/components/to-do/Controller.tsx:31-32 | the deadlines stand in the order of their first appearance among the to-dos |
| ToDoController.Deadlines | frontend/src/components/to-do/Controller.tsx:31-32 | the push-unless-included loop builds exactly `DistinctDeadlines` |
| ToDoController.Keeps | frontend/src/components/to-do/Controller.tsx:68-71 | a kept child always has a parent and a kept top-level item never does, so no item is both; an item titled `''` gets no children |
| ToDoController.Select | frontend/src/components/to-do/Controller.tsx:67-71 | a selection holds exactly the to-dos it keeps and is no longer than the list |
| ToDoController.SelectConcat | frontend/src/components/to-do/Controller.tsx:71 | selecting distributes over concatenation, so list order is kept |
| ToDoController.SelectCount | frontend/src/components/to-do/Controller.tsx:67-71 | a kept to-do is selected as often as it occurs; any other to-do never |
| ToDoController.HasTopLevel | frontend/src/components/to-do/Controller.tsx:65 | the `some` holds iff the selection of top-level items with that deadline is non-empty |
| ToDoController.EntriesOn | frontend/src/components/to-do/Controller.tsx:67-77 | a group's entries are its deadline's top-level items, in list order; each has an empty parent, that deadline, comes from the list, and carries the children selected for its title |
| ToDoController.Render | frontend/src/components/to-do/Controller.tsx:63-79 | one group per deadline, in the order of `deadlines` |
| ToDoController.GroupItems | frontend/src/components/to-do/Controller.tsx:67-68 | a group draws exactly the top-level items of its deadline, in list order |
| ToDoController.HeadingShownIffTopLevel | frontend/src/components/to-do/Controller.tsx:65 | a deadline heading is shown iff some item with `parent === ''` has that deadline, iff the group draws at least one item |
| ToDoController.OneGroupPerDeadline | frontend/src/components/to-do/Controller.tsx:31-32 | for any to-do, exactly one group carries its deadline |
| ToDoController.TopLevelRenderedOnce | frontend/src/components/to-do/Controller.tsx:63-68 | a group draws a top-level item as often as it occurs in the list if the group has the item's deadline, and never otherwise |
| ToDoController.NestedNeverTopLevel | frontend/src/components/to-do/Controller.tsx:68 | every drawn top-level item has an empty `parent`, has the group's deadline, and is in the list |
| ToDoController.ChildrenExactly | frontend/src/components/to-do/Controller.tsx:71 | a drawn item's children are exactly the items whose non-empty `parent` equals its title, in list order, each as often as it occurs, whatever their deadline |
| ToDoController.Controller.constructor | frontend/src/components/to-do/Controller.tsx:13-23 | the state starts as the single blank record |
| ToDoController.Controller.HandleRetrieve | frontend/src/components/to-do/Controller.tsx:49 | `setToDos` is called iff `dues` is present and differs; the new list is `Snapshot.Apply` of the old one |
| ToDoRoute.Reaction | frontend/src/routes/toDo.tsx:24 | the wrong-session handler runs exactly when a response has `success` false and a non-empty `sessionId`, and at most once per response |
| ToDoRoute.Page.constructor | frontend/src/routes/toDo.tsx:10-17 | the page starts with one blank to-do, an enabled button, a hidden modal, an empty list and nothing sent |
| ToDoRoute.Page.HandleRetrieve | frontend/src/routes/toDo.tsx:20-38 | sends the GET for the session, then applies the wrong-session rule, then the snapshot gate |
| ToDoRoute.Page.HandleCreate | frontend/src/routes/toDo.tsx:41-57 | when the modal and its button exist, the modal is shown and the button gets its handler; otherwise nothing changes |
| ToDoRoute.Page.SubmitCreate | frontend/src/routes/toDo.tsx:57-84 | a disabled or unarmed button does nothing; otherwise the button is disabled before the inputs are read; an empty field stops there with the button disabled; a full submit posts `{sessionId, title, deadline}`, hides the modal, retrieves and re-enables the button, in that order |
| ToDoRoute.Page.HandleUpdate | frontend/src/routes/toDo.tsx:88-101 | nothing is sent unless the new title, new deadline, entry text and entry id are all non-empty; the PUT names the to-do by the entry's shown title, then a retrieve follows |
| ToDoRoute.Page.HandleDelete | frontend/src/routes/toDo.tsx:104-115 | nothing is sent unless the entry text is non-empty; the DELETE names the to-do by that title, then a retrieve follows |
| ToDoRoute.Page.LoadToDos | frontend/src/routes/toDo.tsx:117-140 | when the list element exists, it is cleared and gets exactly one entry per to-do, in order, with text = title and id = deadline |
| ToDoRoute.EmptyFieldLocksCreate | frontend/src/routes/toDo.tsx:67-73 | after a submit with an empty field, the button stays disabled and the next click sends nothing, whatever its inputs |

## Left out

- UserStore.Database.constructor: the model starts from an empty collection. The source connects to an existing collection whose contents are not modelled.
- The MongoDB client and its connection: `controller()`, `connect`, the `process.env` names and the colour-coded logs. The collection is an in-memory sequence. MongoDB's `_id` and the results `insertOne` and `updateOne` return are not modelled, and neither are storage failures.
- Express routing and the `res.send` transport. The handler's reply is a value. A request body whose `email` or `password` is not a string is not modelled. For some such bodies the source throws, for example when a field is missing. For others it answers normally: a numeric password, for example, counts as weak.
- The `console.log` calls. The one log that depends on the strength rule is kept as the flag `loggedStrong`.
- RegisterRoute.StrongPassword: `|password| >= 10` counts Dafny characters (Unicode scalar values), while `password.length` counts UTF-16 code units. The two differ only for characters outside the Basic Multilingual Plane. The digit and capital counts agree, since neither half of a surrogate pair is in `[0-9]` or `[A-Z]`.
- React scheduling: `useState`, `useCallback` and `useEffect`. So the mount effects that call `handleWrongSession` when there is no session and then retrieve (Controller.tsx:54-57, toDo.tsx:143-148) are not modelled as such. Handlers read the current state; the stale state a `useCallback` closure can capture is not modelled.
- JSX and DOM work: creating elements, `innerHTML`, styles, `prompt` and the element lookups. Each lookup that can fail is a boolean input, and each prompt answer is a string input.
- `doFetch`, `handleWrongSession`, `hasSession`, `create`, `Title` and `CreateModal` are not part of this model. A request is recorded as an effect, its response is a method input, and a call to `handleWrongSession` is recorded as an effect.
- The "Add To Do" button of Controller.tsx:80. It only calls `create`, which is not part of this model.
- lodash `isEqual` is value equality of the datatypes. Extra fields the server might send are not modelled.
- Concurrency: the double-click race of toDo.tsx:59-67 and the interleaving of async handlers. Each handler runs to completion before the next.
- The backend's login, session checks and task routes are not in the modelled code.
