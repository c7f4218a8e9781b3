# Number discussions: a Dafny model

The application lets registered users start a *discussion* at a number. Users then reply with *operations*. An operation takes the number it replies to (the discussion's starting number or another operation's result), applies add, subtract, multiply or divide with a right-hand number, and stores the result. The replies form a tree under each discussion.

This project models:

- **The in-memory store** (`Storage`): three append-only tables, `users`, `discussions` and `operations`.
  - A `Store` class holds them, and its methods append.
  - Lookups return the first record that matches.
  - `BuildOperationTree` builds the recursive operation tree.
- **The invariants the handlers keep**:
  - usernames are distinct, for registrations that do not overlap (see `AuthRoutes.Register` under Left out);
  - operation ids are distinct;
  - every reply's parent is an earlier operation of the same discussion;
  - every stored result is its operation applied to the value it replies to.
- **The operation tree** (`OperationTree`):
  - the tree's shape at every depth;
  - flattening a discussion's tree gives back that discussion's operations exactly once;
  - results propagate along every edge.
- **The request handlers** (`OperationRoutes`, `DiscussionRoutes`, `AuthRoutes`): each one's checks, in the order the source runs them, the status codes and messages, and the single append on success.
  - The discussion list is specified as a stable sort, newest first.
- **The client helpers** (`FrontendApi`, `Avatar`):
  - the operation symbol;
  - the result preview and its inverse, which recovers the left operand;
  - the avatar colour hash.
- **The API walk-through** from `backend/test-api.js` (`WalkThrough`), replayed against the model: register, log in, start a discussion at 10, reply 10 + 5 = 15, 15 × 2 = 30 and 10 ÷ 2 = 5, then a refused division by zero. The expected tree is proved.

Modelling choices:

- JavaScript numbers are exact `real`s.
- A JSON field that may be missing or of the wrong type is an `Option` or a small datatype:
  - `NumberField` distinguishes "not a number", NaN and a number.
  - `ParentField` distinguishes `null`, missing and an id.
- Dates are integer timestamps.
- `generateId()` is an `id` parameter. Only the create-operation handler requires it to be fresh, because its invariant needs distinct operation ids. Discussion and user ids are taken as given and may repeat. Every lookup then returns the first match, as `find` does.
- `bcrypt.hash`, `bcrypt.compare` and `jwt.sign` are parameters of the auth handlers: a function `hash`, a relation `matches` and a function `sign`.

Three points where the model follows the code literally:

- A create-operation request whose `parentId` field is missing (rather than `null`) goes down the "existing parent" branch. It looks up `undefined`, finds nothing and gets 404 "Parent operation not found".
- GET `/api/operations/discussion/:id` repeats the filter inline rather than calling `getOperationsByDiscussionId`. The two are the same function here.
- The divide-by-zero check sits inside the `switch`. It therefore runs after the discussion and parent checks.

## Model

| member | source | states |
|---|---|---|
| Storage.Store.constructor | backend/src/data/storage.ts:5-7 | The three tables start empty, and the store invariant holds |
| Storage.Store.AddOperation | backend/src/routes/operations.ts:94 | Appends exactly the given record and leaves users and discussions unchanged. A fresh id, a parent stored earlier in the same discussion, and a consistent result keep the invariant |
| Storage.Store.AddDiscussion | backend/src/routes/discussions.ts:50 | Appends exactly the given discussion, leaves the other tables unchanged, and keeps the invariant |
| Storage.Store.AddUser | backend/src/routes/auth.ts:53 | Appends exactly the given user, whose name is not yet taken, and keeps usernames distinct |
| Storage.FindUserByUsername | backend/src/data/storage.ts:15-17 | Nothing exactly when no user has the name. Otherwise the user at the first index holding that name |
| Storage.FindUserById | backend/src/data/storage.ts:20-22 | Nothing exactly when no user has the id. Otherwise the first user with that id |
| Storage.FindDiscussionById | backend/src/data/storage.ts:25-27 | Nothing exactly when no discussion has the id. Otherwise the first discussion with that id |
| Storage.FindOperationById | backend/src/data/storage.ts:30-32 | Nothing exactly when no operation has the id. Otherwise the first operation with that id |
| Storage.FindOperationAtIndex | backend/src/data/storage.ts:30-32 | The lookup returns the record at the first index whose id matches, or nothing when there is none |
| Storage.GetOperationsByDiscussionId | backend/src/data/storage.ts:35-37 | Every operation of the discussion, with its multiplicity in the table, and no other operation |
| Storage.GetOperationsByParentId | backend/src/data/storage.ts:40-42 | Every reply to the given operation, with its multiplicity in the table, and no other operation |
| Storage.ChildRankSmaller | backend/src/data/storage.ts:45-53 | Each record the tree builder recurses on ranks strictly below its parent, so the recursion terminates on a well-formed table |
| Storage.BuildOperationTree | backend/src/data/storage.ts:45-54 | Defined, and so terminating, on every well-formed table. Every top-level node is a stored operation of the discussion replying to the given parent. Its shape, distinctness and flattening are TreeTopLevel, TreeNodeAt, TreeShape, TreeDistinct and FlattenedTreeIsDiscussion |
| Storage.AppendOperationPreserves | backend/src/routes/operations.ts:36-94 | Appending a record with a fresh id, a stored parent of the same discussion, and a result computed from the parent's value keeps the table well formed and every result consistent |
| Storage.AppendDiscussionPreserves | backend/src/routes/discussions.ts:41-50 | Appending a discussion keeps the operations well formed and their results consistent |
| Storage.AppendUserPreserves | backend/src/routes/auth.ts:35-53 | Appending a user whose name no user has keeps usernames pairwise distinct |
| OperationTree.TreeTopLevel | backend/src/data/storage.ts:45-48 | The records at the top of `buildOperationTree(d, p)` are exactly the operations of `d` that reply to `p`, in storage order |
| OperationTree.TreeNodeAt | backend/src/data/storage.ts:50-53 | The k-th top node carries the k-th matching record unchanged, and its children are the tree under that record's id |
| OperationTree.TreeShape | backend/src/data/storage.ts:45-54 | At every depth, each node is a stored operation of the discussion, its children are the tree built under its id, and each child replies to it |
| OperationTree.TreeDistinct | backend/src/data/storage.ts:45-54 | No operation appears twice in a built tree |
| OperationTree.FlattenedTreeIsDiscussion | backend/src/data/storage.ts:45-54 | Flattening a discussion's tree gives every operation of that discussion exactly once. It has the same multiset as `getOperationsByDiscussionId` |
| OperationTree.ResultsPropagate | backend/src/routes/operations.ts:36-74 | In a consistent store, a top-level result is its operation applied to the starting number, and a child's result is its operation applied to its parent node's result |
| Arithmetic.ParseOperationType | backend/src/routes/operations.ts:21-24 | Accepts exactly the four names add, subtract, multiply and divide, and returns the type with that name |
| Arithmetic.Apply | backend/src/routes/operations.ts:56-78 | The result of each operation type. The parent value can be read back from it by the inverse operation, except after a multiplication by zero, whose result is 0 |
| Arithmetic.ApplyDeterminesLeft | backend/src/routes/operations.ts:56-78 | Except for a multiplication by zero, two parent values give the same result exactly when they are equal |
| OperationRoutes.CreateOperation | backend/src/routes/operations.ts:10-101 | The six 400/404 rejections are tried in the source's order, and each leaves every table unchanged. Success means the request passed every check. On success exactly one record is appended, with parent value ∘ rightNumber as its result, and the answer is 201 with that record. The store invariant is kept |
| OperationRoutes.NewOperation | backend/src/routes/operations.ts:36-91 | The record an accepted request builds carries the given id, the request's discussion, parent, operation type and right operand, and the caller's id, name and time. Its parent, if any, is stored earlier in the same discussion, and its result is the parent's value combined with the right operand by the operation |
| OperationRoutes.StoredParentPrecedes | backend/src/routes/operations.ts:40-53 | A parent that passed the lookup and discussion checks is the stored record whose result the handler reads |
| OperationRoutes.ListDiscussionOperations | backend/src/routes/operations.ts:104-123 | 404 "Discussion not found" when the discussion is unknown. Otherwise 200 with exactly the discussion's operations, in storage order |
| OperationRoutes.GetOperation | backend/src/routes/operations.ts:126-141 | 404 "Operation not found" exactly when no operation has the id. Otherwise 200 with the first stored operation carrying that id |
| DiscussionRoutes.CreateDiscussion | backend/src/routes/discussions.ts:29-57 | A starting number that is missing, not a number, or NaN gets 400 and changes nothing. Otherwise exactly one discussion is appended, with the given number and the caller's id and name, and the answer is 201 |
| DiscussionRoutes.WithTree | backend/src/routes/discussions.ts:13-16 | Each entry keeps its discussion, and its tree flattens to exactly that discussion's operations |
| DiscussionRoutes.WithTrees | backend/src/routes/discussions.ts:13-16 | One entry per stored discussion, in storage order. Entry i carries discussion i, and its tree flattens to exactly that discussion's operations |
| DiscussionRoutes.InsertSorted | backend/src/routes/discussions.ts:19 | Inserting into a newest-first list keeps it newest first |
| DiscussionRoutes.SortNewestFirst | backend/src/routes/discussions.ts:19 | The sort orders by creation time, newest first, and neither adds nor drops an entry. Its stability is SortStable |
| DiscussionRoutes.SortStable | backend/src/routes/discussions.ts:19 | Entries created at the same time keep their storage order |
| DiscussionRoutes.ListDiscussions | backend/src/routes/discussions.ts:10-26 | 200 with every stored discussion and its tree, newest first, with equal times in storage order. The tables are not modified |
| DiscussionRoutes.ListedTrees | backend/src/routes/discussions.ts:13-16 | Every listed entry is a stored discussion whose tree flattens to exactly its operations |
| DiscussionRoutes.GetDiscussion | backend/src/routes/discussions.ts:59-80 | 404 "Discussion not found" exactly when no discussion has the id. Otherwise 200 with the first discussion carrying that id and `buildOperationTree(id)`, which flattens to its operations |
| AuthRoutes.Register | backend/src/routes/auth.ts:13-63 | The checks run in order: 400 for missing credentials, 400 for a name shorter than 3, 400 for a password shorter than 6, 409 for a taken name. Any rejection leaves users unchanged. 201 exactly when every check passes. Then one user is appended, and its stored password is the hash of the submitted password. Usernames stay distinct when registrations run one at a time |
| AuthRoutes.RegisterThenLogin | backend/src/routes/auth.ts:42-108 | When the password check accepts a password against its own hash, a successful registration followed by a login with the same credentials answers 200 with a token for the new user's id and name |
| AuthRoutes.RegisteredUserFound | backend/src/routes/auth.ts:35-53 | After a registration, the new name finds the new user, and every other name finds what it found before |
| AuthRoutes.Login | backend/src/routes/auth.ts:65-113 | 400 for a missing field. The same 401 "Invalid credentials" for an unknown name and a wrong password. 200 exactly when the name is known and the password matches, and then the token is signed over the user's id and name. Nothing is modified |
| FrontendApi.GetOperationSymbol | frontend/src/services/api.ts:118-126 | add, subtract, multiply and divide get +, -, × and ÷ respectively, and any other string is returned unchanged. SymbolsDistinct shows the four symbols differ |
| FrontendApi.SymbolsDistinct | frontend/src/services/api.ts:118-126 | The four types get four distinct symbols, and no symbol is the name of a type |
| FrontendApi.CalculateResult | frontend/src/services/api.ts:128-136 | An unknown type previews the left number, and a division by zero previews 0. The accepted cases are PreviewMatchesServer |
| FrontendApi.CalculateLeftNumber | frontend/src/services/api.ts:138-146 | An unknown type gives back the result, and a multiplication by zero gives 0. The round trips with CalculateResult are LeftNumberUndoesResult and ResultUndoesLeftNumber |
| FrontendApi.PreviewMatchesServer | frontend/src/services/api.ts:128-136 | For a type the server accepts, and no division by zero, the preview equals the server's result. An unknown type previews the left number |
| FrontendApi.LeftNumberUndoesResult | frontend/src/services/api.ts:128-146 | Recovering the left number from the preview gives the original left number back, unless the right number is 0 for multiply or divide |
| FrontendApi.ResultUndoesLeftNumber | frontend/src/services/api.ts:128-146 | Previewing from the recovered left number reproduces the result, unless the right number is 0 for multiply or divide |
| FrontendApi.ShownLeftNumber | frontend/src/components/OperationNode.tsx:39 | The left number the line shows as written. It is 0 after a multiplication by zero. When it neither multiplies nor divides by zero, it reproduces the stored result through CalculateResult |
| FrontendApi.ShownLeftNumberIsParentValue | frontend/src/services/api.ts:138-146 | For every stored operation except a multiplication by zero, the left number shown on its line is the value it was applied to |
| FrontendApi.MultiplyByZeroHidesLeftNumber | frontend/src/services/api.ts:142 | A consistent store where 10 × 0 is stored shows 0 instead of 10 as that line's left number |
| FrontendApi.RenderedLinesHold | frontend/src/components/OperationNode.tsx:37-40 | In the corrected rendering, each node is shown against the value passed down from its parent. There, every rendered line shows the value its operation was applied to, and the equation on the line holds |
| FrontendApi.DiscussionPageHolds | frontend/src/components/OperationNode.tsx:37-40 | In the corrected rendering of a stored discussion's page, every line shows its true left operand, including after a multiplication by zero. The page as written shows 0 there (see Findings) |
| Avatar.CharCodeSum | frontend/src/utils/avatar.ts:19 | The fold sums the character codes, so each character's code is at most the sum. Order-independence is CharCodeSumPermutation |
| Avatar.GetAvatarColor | frontend/src/utils/avatar.ts:4-21 | The colour is one of the ten classes. It is the entry at the character-code sum modulo 10, and the empty name gets bg-blue-500 |
| Avatar.CharCodeSumAppend | frontend/src/utils/avatar.ts:19 | The code sum of a concatenation is the sum of the parts' code sums |
| Avatar.CharCodeSumPermutation | frontend/src/utils/avatar.ts:19 | Names with the same characters, counted with repetition, have the same code sum |
| Avatar.SameLettersSameColor | frontend/src/utils/avatar.ts:18-20 | Names that are permutations of each other get the same colour |
| WalkThrough.RepliesOfTheWalkThrough | backend/test-api.js:77-135 | 10 + 5, 15 × 2 and 10 ÷ 2 pass every check and store 15, 30 and 5. The division by zero passes every check before the last |
| WalkThrough.TreeOfTheWalkThrough | backend/test-api.js:181-185 | The tree is 10 + 5 = 15, with 15 × 2 = 30 below it and 10 ÷ 2 = 5 beside it |
| WalkThrough.ApiWalkThrough | backend/test-api.js:20-178 | Against a fresh store, registration and login succeed, the three replies are stored in order, and the division by zero gets 400 "Cannot divide by zero" |

## Left out

- `backend/src/server.ts` (Express wiring, CORS, logging, the 404 and global error handlers) is not part of this model. Responses are a status code and a payload.
- `backend/src/middleware/auth.ts`: its outcome is decided by `jwt.verify`. Handlers receive the authenticated user as a parameter.
- `bcrypt.hash`, `bcrypt.compare` and `jwt.sign` are foreign calls. They become the parameters `hash`, `matches` and `sign`. AuthRoutes.Register and AuthRoutes.Login assume nothing of them. AuthRoutes.RegisterThenLogin, WalkThrough.SignUp and WalkThrough.ApiWalkThrough assume that `bcrypt.compare` accepts a password against its own hash. Salt rounds, the secret and token expiry are not modelled.
- AuthRoutes.Register: the handler is modelled as one atomic step. The source awaits `bcrypt.hash` (backend/src/routes/auth.ts:42) between the uniqueness check (line 35) and `users.push` (line 53). Two overlapping registrations of one name can therefore both pass the check and store the name twice, and login then finds only the first. The model runs requests one at a time, so its distinct-usernames invariant holds only for registrations that do not overlap.
- `generateId` reads the clock and a random source. The id is a parameter, and the create-operation handler requires it to be fresh.
- `new Date()` becomes an integer timestamp parameter. `formatDate` is locale formatting and is left out.
- IEEE-754 doubles are modelled as exact reals. Rounding, overflow, Infinity and -0 are not modelled, so the inverse property of the client helpers holds here but can fail by a rounding error in the browser.
- Avatar.GetAvatarColor: characters are Dafny `char`s. `split('')` on UTF-16 code units and surrogate pairs is not modelled.
- The user-name and password length checks count Dafny characters, not UTF-16 code units.
- JSON bodies with values of other types, for example a number where a string is expected, are folded into "missing" (`None`) or "not a number" (`NotNumber`).
- The 500 "Internal server error" catch branches: nothing in the modelled code throws.
- The `default` branch of the result `switch` ("Invalid operation type") is unreachable behind the allow-list check, so the model has no such branch.
- DiscussionRoutes.ListDiscussions: `Array.prototype.sort` is modelled as a stable insertion sort on `createdAt`, newest first. This is the order a stable engine sort gives. A non-stable engine could reorder equal timestamps.
- The rest of `frontend/src/services/api.ts` (the token store, the axios instance and interceptors) and every React component are not part of this model. The exception is the operation line of `OperationNode.tsx:39`. The line as written is modelled as `FrontendApi.ShownLeftNumber`. `FrontendApi.Rendered` is the corrected rendering, which passes each parent's value down.

## Findings

| source | as written | input that shows it | evidently intended | confidence | as-written member | corrected member |
|---|---|---|---|---|---|---|
| frontend/src/services/api.ts:142 with frontend/src/components/OperationNode.tsx:39 | An operation line recovers its left operand from the stored result. For a multiplication by 0 it shows 0, because the value it was applied to cannot be recovered from result 0 | discussion at 10, reply multiply by 0: stored result 0, line shows "0 × 0 = 0" | line shows "10 × 0 = 0", the value actually multiplied | medium, not executed | FrontendApi.MultiplyByZeroHidesLeftNumber | FrontendApi.DiscussionPageHolds |
