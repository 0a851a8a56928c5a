# OpenMD note store, modelled in Dafny

OpenMD is a small HTTP service. Agents POST markdown notes to it, read and
update them by id, and list them. People view the rendered notes in a browser.
All notes live in one process-wide JavaScript `Map` from id to note. This
project models that store and the four things the API handlers do with it:

- **create** rejects a missing or empty `content` with 400. Otherwise it
  defaults the title to `Untitled` and the metadata to `{}`, reads the clock
  once for `createdAt` and once more for `updatedAt`, and stores the note
  under a freshly generated id.
- **get** is a read-only lookup. An unknown id answers 404. The HTML view
  does the same lookup.
- **update** answers 404 for an unknown id. It overwrites `title` and
  `content` only with truthy values, shallow-merges `metadata` (incoming keys
  win), and always refreshes `updatedAt`.
- **list** returns every stored note, most recently updated first. It uses a
  stable sort, so notes updated in the same millisecond stay in the Map's
  insertion order.

Layout:

- `notes.dfy` (module `Notes`): the note value and the pure steps `NewNote`,
  `Patch` and `Merge`.
- `recency.dfy` (module `Recency`): the list handler's stable sort, most
  recent first. It includes the proof that "descending and ties in input
  order" has exactly one answer.
- `store.dfy` (module `NoteStore`): the class `Store`. It holds the Map as an
  insertion-ordered key sequence `order` plus a `map`. Its methods are
  `Create` and `Update`, and its functions are `Get`, `List` and `Count`.
- `scenarios.dfy` (module `Scenarios`): client call sequences against a
  fresh store, proved from the contracts of `Create` and `Update` and the
  definitions of the read-only functions `Get`, `List` and `Count`.

Things from outside the program become parameters:

- The id that `generateId` produces.
- Each clock reading, as milliseconds since the epoch. This is the value
  `new Date(iso)` gives back for a `toISOString` string.

The model assumes the clock never runs backwards. A ghost field `lastTime`
records the latest reading stored in a note, and every create and update is
handed readings no earlier than it. `Get`, `List` and `Count` take no
reading, and a rejected create stores none. This assumption is what makes
`updatedAt >= createdAt` an invariant.

Three consequences of the code that are easy to misread:

- `createdAt` and `updatedAt` come from two separate clock readings
  (server.js:38-39). So a new note has `createdAt <= updatedAt`, and the two
  are equal only when both readings fall in the same millisecond.
- After an update, only `updatedAt >= createdAt` is guaranteed. The update
  may land in the same millisecond as the create.
- `Map.set` under an id that is already present replaces that note and keeps
  its place in iteration order. `Create` models this rather than requiring a
  fresh id. Its contract says what happens in each case.

## Model

| member | source | states |
|---|---|---|
| `Notes.Merge` | server.js:85 | `{...base, ...patch}`: the keys are the union of both key sets. Every patch key maps to its patch value. Every other base key keeps its base value. |
| `Notes.NewNote` | server.js:26-40 | The outcome is Ok exactly when content is truthy; otherwise it is BadRequest. The note carries the given id and content. Its title is the given title if truthy, else `Untitled`. Its metadata is the given metadata, else empty. Its timestamps are the two clock readings. If the readings are ordered, the note is well formed (content and title non-empty, `createdAt <= updatedAt`). |
| `Notes.Patch` | server.js:83-86 | `id` and `createdAt` never change, and `updatedAt` becomes `now`. Title and content change only when the supplied value is truthy. Missing metadata leaves the metadata unchanged. Supplied metadata is merged key by key, new values winning. Well-formedness is preserved when `now >= createdAt`. |
| `Notes.PatchNothing` | server.js:83-86 | An update with an empty body changes only `updatedAt`. |
| `Notes.PatchIdempotent` | server.js:83-86 | Applying the same update body twice at the same time equals applying it once. |
| `Notes.PatchMetadataTwice` | server.js:85 | Two metadata-only updates equal one update with the merge of the two patches. Metadata accumulates and is never replaced wholesale. |
| `Recency.Insert` | server.js:98-100 | One insertion step adds exactly the new note (as a multiset) and keeps the sequence most-recent-first. |
| `Recency.SortByRecency` | server.js:98-100 | The list sort returns a permutation of its input, ordered by `updatedAt` descending. |
| `Recency.SortKeepsTies` | server.js:98-100 | The sort is stable: for every timestamp, the notes updated at that time appear in the same relative order as in the input. |
| `Recency.StableOrderUnique` | server.js:98-100 | Two sequences that are both descending and agree on the order of every group of ties are equal. So "descending and stable" pins down the list handler's answer. |
| `Recency.FreshestFirst` | server.js:98-100 | A note updated strictly later than all others is listed first. |
| `NoteStore.ValuesIn` | server.js:98 | `Array.from(notes.values())`: one value per key, taken in key order. |
| `NoteStore.SetKeepsConsistent` | server.js:42 | `Map.set` with a well-formed note read at a later clock keeps the store consistent. Keys stay unique, match the entries and the stored ids, and no note is dated after the clock. A new key goes last in iteration order; an existing key keeps its place. |
| `NoteStore.Store.constructor` | server.js:16 | The store starts empty and consistent. |
| `NoteStore.Store.Create` | server.js:24-48 | The result is `NewNote` of the arguments. On BadRequest the store (entries, order and clock) is exactly unchanged. On success the entry is set under the id and no other note changes. The id is appended to the iteration order only if it was new. Consistency is preserved. |
| `NoteStore.Store.Get` | server.js:56-65 | NotFound exactly when the id is absent. Otherwise it returns the stored note itself, whose id is the one asked for and which is well formed. As a function, it cannot change the store. |
| `NoteStore.Store.Update` | server.js:73-88 | An unknown id gives NotFound and leaves the store unchanged. Otherwise the result is `Patch` of the stored note at `now`, it replaces that entry, no other note changes, and the iteration order is untouched. Consistency is preserved. |
| `NoteStore.Store.Values` | server.js:98 | The Map's values in iteration order: one per key, and exactly the stored notes. |
| `NoteStore.Store.List` | server.js:96-101 | A permutation of all stored notes: a note is listed iff it is stored under its id. The list is ordered by `updatedAt` descending, and ties keep insertion order. |
| `NoteStore.Store.Count` | server.js:314 | `notes.size` equals the number of notes the list handler returns. |
| `NoteStore.ListKeepsSortedOrder` | server.js:98-100 | When insertion order is already most-recent-first, the list is exactly the insertion order. |
| `Scenarios.CreateThenGet` | server.js:24-65 | Creating with content `hello` and no title gives title `Untitled` and empty metadata. Get returns the same note. With one clock reading, `createdAt == updatedAt`. |
| `Scenarios.CreateNeedsContent` | server.js:28-30 | Create answers 400 exactly when content is missing or empty. The store then holds 0 notes, otherwise 1. |
| `Scenarios.UpdateContentOnly` | server.js:83-86 | Updating only the content replaces it, keeps the title and `createdAt`, and sets `updatedAt` to the update time. |
| `Scenarios.MetadataAccumulates` | server.js:85 | Updating with `{a: 1}` then with `{b: 2}` leaves metadata `{a: 1, b: 2}`. |
| `Scenarios.UnknownId` | server.js:59-81 | Get and update of an unknown id answer 404, and the listing is the same before and after. |
| `Scenarios.UpdateMovesToFront` | server.js:96-100 | Creating A, then B, then updating A lists A before B. This holds even when all clock readings coincide. |

## Left out

- HTTP wiring is not modelled: Express routing, CORS, JSON body parsing, static files, status-code plumbing, `app.listen` and the generic 500 handlers with their `console.error` logging. Outcomes are modelled as `Ok`, `BadRequest` and `NotFound`.
- `generateId` relies on `Date.now()` and `Math.random()`, so the id is a parameter of `Create`. The store does not assume ids are fresh.
- The clock (`new Date()`) is a parameter. The model assumes it never runs backwards; a wall clock that is set back would break `updatedAt >= createdAt`.
- The `url` field of the create response depends on the request's protocol and host.
- The HTML view and the landing page are not modelled: `marked.parse`, the templates, and `toLocaleString('zh-CN')` date formatting. Only their store accesses are modelled: the lookup is `Get`, the note count is `Count`.
- Request bodies whose fields are not strings or objects are not modelled. This covers a numeric or boolean `title` or `content`, a `null` or non-object `metadata`, and nested metadata values. Metadata values are the JSON scalars, with numbers as integers.
- Update assigns fields of the stored note object in place. The model replaces the Map entry with the patched value. The two agree because no other reference to a note outlives a request; each response is serialised at once.
- Metadata key order is not modelled. `{ ...note.metadata, ...metadata }` (server.js:85) lists the old keys first and then the new ones, and that order shows in the JSON response; a Dafny `map` has no key order.
- Concurrency is not modelled. Each request runs to completion on Node's single thread, so every operation is one atomic step here.
- The migration script `migrate.js` is not modelled. It sends SQL text to a remote MySQL server, and its only branch ("the column already exists, so skip") depends on the database's answer.
