# Prompt parts: server routes and client list logic

This project models the prompt-part core of a prompt builder. A prompt is
assembled from an ordered list of parts. Each part is either a text snippet
stored in its database row, or a mirror of a file under the project's
directory. The model covers two pieces.

- The server's six prompt-part routes (`backend/routes/prompt_parts.ts`).
  They are modelled as the class `Backend.Store`, with one method per route.
  The class has three maps: the `prompt_parts` table (id to row), the
  `projects` table (id to name) and the files on disk (path to contents).
  A path is the pair (project name, part name). Every method changes state
  step by step in the order the handler does. Its contract states the whole
  new state and every error outcome.
- The client's list logic (`frontend/components/App.tsx`): the drag reorder
  `movePromptPart`, the prompt assembly `copyPromptToClipboard`, and the
  local list updates after a checkbox change, an editor save and a new
  snippet. The reorder is a method with loops. The others are functions over
  sequences of parts.

Module `Reorder` joins the two pieces. It applies the reorder's position
updates to the store and proves that the project's stored positions end up
as 0..N-1. It also proves what create's `count + 1` rule does to positions
after a reorder or a delete.

Errors are the datatype `Parts.Error`:
- `BadRequest` stands for status 400.
- `NotFound` stands for 404 "Prompt part not found".
- `FileNotFound` stands for 404 "File not found".
- `Failure` stands for a thrown error. That covers a 500 from a `catch`, and
  the crashes on a lookup that found nothing: a missing project, or the
  missing part in update. In update, the part lookup and the file steps run
  before its `try`, so a throw there sends no reply at all. Every such crash
  in the source happens before any write, so the model leaves the state
  unchanged.

In these places the model follows the code as written:
- A failed file read aborts the whole listing with an error; it is not
  swallowed per part.
- Update of a missing id crashes (`Failure`). It never reaches the
  `changes === 0` branch, so update never answers `NotFound`.
- Update decides which fields were supplied by JavaScript truthiness, not by
  presence flags.
- Create numbers positions from 1 (`count + 1`), while the client's reorder
  numbers from 0.
- Rename is whatever `renameFile` does; it is taken to replace an existing
  destination, not to fail with a conflict.

## Model

| member | source | states |
|---|---|---|
| `Backend.Store.ListAll` | backend/routes/prompt_parts.ts:22-51 | the full listing is `ListFrom` over the rows in id order: file parts get their file's contents, an orphan is spliced out and the part after it is stepped over, any failed read fails the listing; the table is not changed |
| `Listing.ListFromAgrees` | backend/routes/prompt_parts.ts:25-46 | when no orphan is directly followed by a file part, the listing as written equals the listing that filters every orphan |
| `Listing.SpliceKeepsNextOrphan` | backend/routes/prompt_parts.ts:33-36 | two orphans in a row: the listing keeps the second one, where filtering every orphan would list nothing |
| `Listing.SpliceSkipsNextFile` | backend/routes/prompt_parts.ts:33-43 | an orphan followed by a readable file part: that part is listed with its stored content, not its file's contents |
| `Listing.ListIntendedMeaning` | backend/routes/prompt_parts.ts:25-46 | the orphan-filtering listing fails exactly when some non-orphan file cannot be read; otherwise it holds no orphan, each file part carries its file's contents, and element by element it is the non-orphans in their order, snippets as stored and file parts with their file's contents |
| `Backend.Store.ListByProject` | backend/routes/prompt_parts.ts:54-82 | the listing of a project is the project's rows in id order with every file part resolved against that project's directory |
| `Listing.ResolveAllMeaning` | backend/routes/prompt_parts.ts:63-76 | that listing fails exactly when a file part's project is gone or its file is missing; otherwise it has the same parts in the same order, each file part carrying its file's contents |
| `Backend.IdOrder` | backend/routes/prompt_parts.ts:24 | the rows fetched are rows of the table, and every row with an id below the next id is among them |
| `Backend.IdOrderSorted` | backend/routes/prompt_parts.ts:24 | the rows fetched come in strictly ascending id order, so each row is listed once, and every id is in [1, next id) |
| `Backend.InProject` | backend/routes/prompt_parts.ts:57-60 | the rows fetched for a project are exactly those of the input with that project id |
| `Backend.InProjectSorted` | backend/routes/prompt_parts.ts:57-60 | filtering by project keeps the ascending id order, so the project listing holds each row once, in id order |
| `Backend.Store.TokenCount` | backend/routes/prompt_parts.ts:85-111 | a missing id gives `NotFound`; a snippet's count is the oracle on its stored content; a file part's count is the oracle on its file's contents, and a missing project or file gives `Failure` |
| `Backend.Store.Create` | backend/routes/prompt_parts.ts:114-165 | `BadRequest` exactly when the name, project id or type is falsy; the only other errors are a missing project for a file part (`Failure`) and a missing file (`FileNotFound`), so every other request succeeds; an error inserts nothing; on success one row is inserted under a fresh id with position `count + 1`, content `''`, the table's default `included`, and the reply shows the file's contents for a file part |
| `Backend.Store.Update` | backend/routes/prompt_parts.ts:168-244 | rejects a bad id or a request supplying nothing; writes name and content only when truthy, position only when an integer, included when present, always the update stamp, and nothing else; a file part's content never reaches the row; every failure leaves the store as it was |
| `Backend.Store.SyncFile` | backend/routes/prompt_parts.ts:187-217 | a changed name renames the old file to the new path first; supplied content is then written to the new path and the reply's content is undefined; otherwise the file at that path is read back for the reply; it fails, changing nothing, when the project is gone or the old file is missing and must be renamed or read |
| `Backend.Store.Delete` | backend/routes/prompt_parts.ts:247-292 | id 0 or not a number gives `BadRequest`, a missing row `NotFound`; a missing project for a file part gives `Failure` and no other error is possible, so a missing backing file is no error; a file part's backing file is removed if present; the row is removed and the pre-delete type, project id and name are returned |
| `Client.MovePart` | frontend/components/App.tsx:78-99 | the new list is the dragged part moved to `hoverIndex`, renumbered so every position equals its index; one position update per part is produced, in the new order, carrying that index |
| `Client.Reinsert` | frontend/components/App.tsx:79-82 | the two splices keep the length and the elements (a permutation), put the dragged part at `hoverIndex`, and keep the others in their relative order |
| `Client.MoveKeepsIds` | frontend/components/App.tsx:79-87 | the reordered, renumbered list has the same ids, and apart from the dragged one in the same relative order |
| `Client.PromptAppend` | frontend/components/App.tsx:162-168 | an included part adds `name + ':\n' + content` at the end of the prompt, after a blank line unless it is the first included part |
| `Client.PromptSkipsExcluded` | frontend/components/App.tsx:162-168 | an excluded part contributes nothing to the prompt, wherever it stands |
| `Client.SetIncluded` | frontend/components/App.tsx:119-121 | only the parts with the id get the new `included`; every other field and every other part is unchanged |
| `Client.CheckboxChange` | frontend/components/App.tsx:116-122 | the new `included` reaches the local list only on an ok response |
| `Client.UncheckDropsFromPrompt` | frontend/components/App.tsx:116-122 | unticking a part removes exactly the parts with that id from the prompt's parts |
| `Client.CheckKeepsOthersInPrompt` | frontend/components/App.tsx:116-122 | a checkbox change leaves every other part's place in the prompt as it was |
| `Client.SetContent` | frontend/components/App.tsx:156-158 | only the parts with the id get the new content; every other field and every other part is unchanged |
| `Client.EditorSave` | frontend/components/App.tsx:148-160 | with a part selected the new content is applied whatever the response; with none selected nothing changes |
| `Client.SaveKeepsPromptMembers` | frontend/components/App.tsx:155-159 | saving content never changes which parts are in the prompt or their order |
| `Client.EditsKeepContiguous` | frontend/components/App.tsx:116-159 | a checkbox change or an editor save keeps positions 0..N-1 |
| `Client.NewSnippet` | frontend/components/App.tsx:139-145 | the created part is appended at the end on an ok response only; the earlier parts are unchanged |
| `Client.NewSnippetPrompt` | frontend/components/App.tsx:139-144 | a new included snippet adds its entry at the end of the prompt; an excluded one leaves the prompt unchanged |
| `Reorder.SendPosition` | frontend/components/App.tsx:91-95 | one position-only update of a part that can be updated succeeds, changes only that row's position and update stamp, and advances the clock by one |
| `Reorder.ApplyPositionUpdates` | frontend/components/App.tsx:90-96 | applying the updates in order gives each targeted row its position and, as update stamp, the clock plus its index in the list; the clock advances once per update and leaves every other field, every other row, the projects and the files unchanged |
| `Reorder.MoveAndSave` | frontend/components/App.tsx:78-99 | after the reorder's updates are applied, each part's stored position is its new index and its update stamp the clock plus that index, the clock advances once per part, the store is still well formed, no row is added or removed, no field but the position and update stamp changes, and rows outside the list are untouched; when the list holds exactly the project's parts, the project's positions are 0..N-1 with no gap or duplicate |
| `Reorder.IndexPositionsContiguous` | frontend/components/App.tsx:85-96 | distinct ids covering the project, each stored with its index as position, make the project's positions contiguous from 0 |
| `Reorder.CreateKeepsOneBased` | backend/routes/prompt_parts.ts:122-126 | on a project numbered 1..N, create's `count + 1` keeps it numbered 1..N+1 |
| `Reorder.CreateAfterReorderLeavesGap` | backend/routes/prompt_parts.ts:122-126 | on a project numbered 0..N-1 by a reorder, create puts the new part at N+1 and leaves N unused |
| `Reorder.CreateAfterDeleteDuplicates` | backend/routes/prompt_parts.ts:122-126 | delete does not renumber, so after deleting a part other than the last, the next create reuses the last part's position |

## Findings

| source | as written | input that shows it | evidently intended | confidence | as-written member | corrected member |
|---|---|---|---|---|---|---|
| backend/routes/prompt_parts.ts:25-37 | the orphan is removed with `splice` while `for…of` walks the same array, so the part after it is stepped over | two file parts in a row whose project is gone: the listing returns the second one | every orphan is left out and every other file part is resolved | high; not executed | `Listing.SpliceKeepsNextOrphan` | `Listing.ListIntendedMeaning` |

The route method `Backend.Store.ListAll` models the code as written.
`Backend.ListIntended` is the corrected listing, and
`Listing.ListFromAgrees` says when the two agree.

## Left out

- HTTP: routing, request parsing, JSON bodies and status codes. Outcomes are `Parts.Result` values.
- SQL text and the `insertStatement`, `updateStatement` and `deleteStatement` helpers. The table is a map with a fresh-id counter. An update or delete of a row that exists always changes one row.
- `SELECT *` has no `ORDER BY`. The model takes ascending id order.
- `fs-utils`, `path-utils` and `PROJECTS_ROOT` are not part of this model. Files are a map keyed by (project name, part name). Distinct pairs are distinct paths, so path normalisation by `path.join` is not modelled. I/O errors other than a missing file are not modelled.
- The tokenizer is not part of this model. It is a function parameter of `Backend.Store.TokenCount`.
- Timestamps from `new Date()` are a logical clock (`Store.clock`).
- Backend.Store.Create: `part_type` is either `file` or `snippet`. The source would also store any other string as a snippet-like row.
- Backend.Store.Update: a `position` that is not an integer is modelled as absent, which is what `Number.isInteger` makes of it. An `included` that is not a boolean is not modelled.
- The column default of `included` comes from the schema, which is not part of this model. It is the store's constant `includedDefault`.
- Concurrency is not modelled: interleaved requests, last-writer-wins, and two creates computing the same count. Every operation runs alone.
- Object aliasing in `movePromptPart`: the `forEach` also renumbers the part objects still held by the old list. The model works on values.
- React rendering, `useEffect` loading, `localStorage`, `fetch`, the clipboard write, the render-time sort by position, and the unused `gptTokenCache`.
- `frontend/components/PromptPart/usePromptPartState.ts`: React hooks and drag-and-drop wiring. Its `newName !== promptPart.name` guard only decides whether the update route is called.
- The `Reorder` members need every part in the list to be updatable, which means its row exists and, for a file part, its project and file exist. Otherwise that part's update throws before the route's `try`, so no reply is sent. The client's `await fetch` then never resolves, or rejects if the server process dies, and the loop stops at that part. The earlier parts are renumbered in the store, the later ones are not, and the local list is never set. The model does not cover such a part-applied reorder.
- Client.EditorSave: applies the new content "whatever the response" only when a reply comes. When the update throws before its `try` (a missing row, project or file), no reply is sent and the local list is never set; the model does not cover this.
