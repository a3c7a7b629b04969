# Tasbih counter store — a Dafny model

The Tasbih app keeps a list of prayer counters. Each counter has an id, a title, a target `count` and a `current` tally. Users create, edit and delete counters and tap a counter up to its target. When the target is reached, a congratulations dialog opens.

This project models two pieces of that app:

- **The counter store** (`client/src/lib/storage.ts`). It is a module-level list of `Counter` records with five operations: `getCounters`, `createCounter`, `updateCounter`, `editCounter` and `deleteCounter`. Every mutation writes the whole list to local storage (`saveToStorage`).
  - `storage.dfy` models it as the class `Storage.CounterStore`. The field `counters` is the list. The ghost field `persisted` is the local-storage copy, and `Valid()` says the two are equal.
  - The `find`, `map` and `filter` expressions that build each new list are the functions `Find`, `ReplaceById` and `RemoveById`. Lemmas about them state order, framing, uniqueness and well-formedness.
- **The tap rule of the live counter page** (`client/src/pages/counter.jsx`, the page routed at `/Counter/:id`).
  - `increment` writes nothing once `current >= count`. Otherwise it writes `current + 1` and opens the dialog when the stored record has `current == count`.
  - `resetCounter` writes 0 and closes the dialog.
  - `counter_page.dfy` models the page as the class `CounterPage.Page`. It holds the store, the route id and the `showComplete` flag. The pure functions `Tapped` and `AfterTaps` describe what taps do to one record, and lemmas state how many taps reach completion.

`types.dfy` holds the `Counter` record (`client/src/lib/types.ts`) and the `Result` type for the store's "Counter not found" error. `validation.dfy` holds the form rules that callers check before they reach the store:

- create form: non-empty title, count ≥ 1 (`client/src/pages/home.tsx:27-30`);
- edit form: non-empty title, 1 ≤ count ≤ 10000 (`client/src/components/counter-list.tsx:30-36`).

The store itself does not validate, so its methods do not require these rules. Instead, the contracts state what the rules buy: with a valid create input, or a valid edit input whose `count` is not below the record's `current`, every record stays well formed (non-empty title, `count ≥ 1`, `0 ≤ current ≤ count`).

Behaviour of the code worth noting (the model follows the code):

- `updateCounter` stores `current` exactly as given. It does not clamp to `[0, count]` and rejects no value of `current` (only an absent id is rejected). Only the page's tap rule keeps `current` in range.
- `createCounter` and `editCounter` do not validate their input.
- `editCounter` keeps `current` even when the new `count` is smaller. After that, taps never change the record and never signal completion (`StuckAtOrAboveTarget`), until a reset, or an edit that raises `count` above `current`.
- `updateCounter` and `editCounter` replace **every** record carrying the id with one record built from the **first** match. When ids collide, `updateCounter` gives a later duplicate the first one's title and count (`DuplicateIdTakesFirstTitle`), and `editCounter` gives it the new title and count with the first one's `current` (`DuplicateIdTakesFirstCurrent`). The per-record frame properties ("other fields unchanged") are stated under `UniqueIds`.

## Model

| member | source | states |
|---|---|---|
| Storage.Find | client/src/lib/storage.ts:37 | `find` returns nothing exactly when no record carries the id; otherwise it returns a record of the list that carries the id |
| Storage.FindIndex | client/src/lib/storage.ts:37 | the record `find` returns sits at the first position carrying the id; no earlier record carries it |
| Storage.FindFirst | client/src/lib/storage.ts:37 | if position k is the first carrying the id, `find` returns the record at k |
| Storage.FindUnique | client/src/lib/storage.ts:37 | with unique ids, `find` returns the one record carrying the id |
| Storage.ReplaceById | client/src/lib/storage.ts:41 | the `map` keeps the length; positions carrying the id hold the replacement, every other position is unchanged |
| Storage.FindAfterReplace | client/src/lib/storage.ts:40-41 | after the `map` with a replacement that keeps the id, `find` returns that replacement |
| Storage.ReplaceKeepsIds | client/src/lib/storage.ts:41 | the `map` keeps the sequence of ids (the order of records) |
| Storage.ReplaceUnique | client/src/lib/storage.ts:40-41 | with unique ids, the `map` changes exactly the one position carrying the id |
| Storage.ReplaceAbsent | client/src/lib/storage.ts:41 | the `map` with an absent id leaves the list as it was |
| Storage.ReplaceKeepsUnique | client/src/lib/storage.ts:41 | the `map` with a replacement that keeps the id keeps ids unique |
| Storage.ReplaceKeepsWellFormed | client/src/lib/storage.ts:41 | the `map` with a well-formed replacement keeps every record well formed |
| Storage.RemoveById | client/src/lib/storage.ts:57 | the `filter` keeps exactly the records not carrying the id, never grows the list, and leaves no record carrying the id |
| Storage.RemoveDistributes | client/src/lib/storage.ts:57 | the `filter` of a concatenation is the concatenation of the filters: it keeps the remaining records in order |
| Storage.RemoveAbsent | client/src/lib/storage.ts:57 | deleting an absent id leaves the list unchanged |
| Storage.RemoveOnly | client/src/lib/storage.ts:57 | when position k holds the only record carrying the id, deleting removes exactly position k and keeps the rest in order |
| Storage.RemoveUnique | client/src/lib/storage.ts:57 | with unique ids, deleting a present id removes exactly its record and keeps the rest in order |
| Storage.RemoveIdempotent | client/src/lib/storage.ts:56-58 | deleting the same id twice equals deleting it once |
| Storage.RemoveKeepsUnique | client/src/lib/storage.ts:57 | deleting keeps ids unique |
| Storage.RemoveKeepsWellFormed | client/src/lib/storage.ts:57 | deleting keeps every record well formed |
| Storage.AppendFresh | client/src/lib/storage.ts:25-31 | appending a record with a fresh id keeps ids unique, and `find` then returns the new record |
| Storage.DuplicateIdTakesFirstTitle | client/src/lib/storage.ts:37-41 | for any list where positions i < j carry the id and i is the first, an update writes the first record (with the new `current`) over position j: its own title and count are lost |
| Storage.DuplicateIdTakesFirstCurrent | client/src/lib/storage.ts:47-51 | for any list where positions i < j carry the id and i is the first, an edit writes the new title and count with the first record's `current` over position j: its own progress is lost |
| Storage.CounterStore.Load | client/src/lib/storage.ts:6-13 | the initial list is the previously saved list, or empty when nothing was stored; the copies agree |
| Storage.CounterStore.SaveToStorage | client/src/lib/storage.ts:16-18 | the durable copy becomes the whole in-memory list |
| Storage.CounterStore.GetCounters | client/src/lib/storage.ts:20-22 | returns the in-memory list and changes nothing, so two reads without a mutation between them are equal |
| Storage.CounterStore.CreateCounter | client/src/lib/storage.ts:24-34 | appends exactly one record at the end: the given id, title and count, `current = 0`, earlier records unchanged and in order; the durable copy equals the list; a fresh id stays unique and is found; a valid create input keeps every record well formed |
| Storage.CounterStore.UpdateCounter | client/src/lib/storage.ts:36-44 | an absent id fails with not-found and changes nothing; otherwise the returned record is the first match with `current` replaced exactly as given (no clamping), it is stored over every record carrying the id, ids and order are kept, and the durable copy equals the list |
| Storage.CounterStore.EditCounter | client/src/lib/storage.ts:46-54 | an absent id fails with not-found and changes nothing; otherwise title and count are replaced while id and `current` are kept (even above the new count), ids and order are kept, and the durable copy equals the list; with a valid edit input that does not shrink below `current`, every record stays well formed |
| Storage.CounterStore.DeleteCounter | client/src/lib/storage.ts:56-58 | the list becomes the `filter` of the old one; the id is gone; an absent id is no error and changes nothing; uniqueness and well-formedness are kept; the durable copy equals the list |
| Validation.CreateFormValid | client/src/pages/home.tsx:27-30 | the create form accepts exactly the title and count that make a fresh record (current 0) well formed: non-empty title, count at least 1 |
| Validation.EditFormValid | client/src/components/counter-list.tsx:30-36 | the edit form accepts exactly the create form's inputs whose count is also at most 10000 |
| CounterPage.Tapped | client/src/pages/counter.jsx:33-36 | a tap changes only `current`, by at most one, and keeps `0 <= current <= count` |
| CounterPage.Signals | client/src/pages/counter.jsx:33-39 | a tap opens the dialog exactly when it brings `current` from `count - 1` to `count` |
| CounterPage.AfterTaps | client/src/pages/counter.jsx:32-50 | repeated taps keep id, title and count and never lower `current` |
| CounterPage.AfterTapsProgress | client/src/pages/counter.jsx:33-36 | from `current <= count`, n taps give `current = min(current + n, count)` and change nothing else |
| CounterPage.SignalsExactlyAtTarget | client/src/pages/counter.jsx:33-40 | the k-th tap opens the dialog if and only if it brings `current` to `count` |
| CounterPage.FreshCounterCompletesAtCount | client/src/pages/counter.jsx:33-40 | from `current = 0`, the dialog opens on tap number `count` and on no other, and `count` taps reach the target |
| CounterPage.TapsPastTargetChangeNothing | client/src/pages/counter.jsx:33 | once the target is reached, further taps change nothing and cannot write |
| CounterPage.StuckAtOrAboveTarget | client/src/pages/counter.jsx:33-39 | a record with `current >= count` is never changed by taps and never opens the dialog |
| CounterPage.Page.Current | client/src/pages/counter.jsx:23-30 | the page's record is the first one carrying the route id; there is none exactly when the id is absent (the page then redirects) |
| CounterPage.Page.constructor | client/src/pages/counter.jsx:25 | the page mounts with the dialog closed |
| CounterPage.Page.Increment | client/src/pages/counter.jsx:32-50 | without a record or once `current >= count`, nothing is written and the dialog does not open; otherwise `current + 1` is stored for the id and the dialog opens exactly when the stored record has `current == count`; the page's record afterwards is the tapped one; well-formedness of all records is kept |
| CounterPage.Page.ResetCounter | client/src/pages/counter.jsx:52-62 | with a record, `current = 0` is stored and the dialog closes; without one nothing changes; well-formedness of all records is kept |

## Left out

- Local storage and JSON (`client/src/lib/storage.ts:6-13, 17`): browser I/O. The durable copy is the ghost field `persisted`. On load, a stored value is either absent or already a list of counters; unparseable data counts as absent. Stored data of the wrong shape is not modelled.
- Id generation with `Math.random().toString(36)` (`client/src/lib/storage.ts:26`): the id is a parameter. Its uniqueness is not guaranteed by the code, so uniqueness appears only as a hypothesis (`UniqueIds`).
- A failing `saveToStorage` (`localStorage.setItem` throwing on a full or disabled storage) is not modelled. Each mutator reassigns the list before it saves (`client/src/lib/storage.ts:31-32, 41-42, 51-52, 57-58`), so after such a failure memory holds the change, storage does not, and the caller still sees an error. The write-through invariant `persisted == counters` holds only when every write succeeds.
- JavaScript numbers: `count` and `current` are mathematical integers. Fractional counts (the forms coerce any number), `NaN` and floating-point overflow are not modelled.
- `getCounters` returns the store's own array. The store never mutates an array in place, so a value sequence is faithful. A caller that mutates the returned array is not modelled.
- The react-query layer (`client/src/lib/queries.ts`): `useUpdateCounter` only forwards to `updateCounter` and invalidates a cache. The page handlers are modelled as synchronous calls that read the store directly. Two taps landing before a re-render, which would both write the same stale `current + 1`, are not modelled.
- Dismissing the congratulations dialog (`onOpenChange={setShowComplete}`, `client/src/pages/counter.jsx:128`) closes it without a reset; the model has no operation for it.
- The dialog's "Back to Home" and "Continue" buttons call `resetCounter` (plus closing the dialog and navigating). Navigation, the confetti, the Lottie player and all rendering are left out.
- The zod and react-hook-form machinery: only the resulting rules are kept, as the predicates `CreateFormValid` and `EditFormValid`.
- `client/src/pages/counter.tsx`, `client/src/components/circular-progress.tsx`, `client/src/App.tsx` and `attached_assets/*` are not part of this model. They hold an unrouted duplicate page, progress-ring geometry, routing and older copies.
