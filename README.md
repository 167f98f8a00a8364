# picacomic-crawler scan engine, modelled in Dafny

This project models the incremental scan engine in `src/main.ts` of the
picacomic crawler. The crawler walks the Cosplay catalog of a remote comic
service backwards, from the oldest page it has not yet finished toward
page 1, and stores every comic it has not stored before. The model covers
four parts:

- **Cursor bookkeeping.** The module-level pair `cursor` / `lastTotalPages`
  is reconciled against the catalog total at the start of `run` and again
  whenever a page reports a larger total. The catalog grows at the front,
  so growth pushes old pages back (module `Cursor`).
- **The sweep.** `run` is guarded by the `looping` flag. Its recursive inner
  `loop` walks the pages; a failure writes the cursor file and stops; the
  `finally` resets a cursor at or below zero to 1 and writes the cursor
  file (modules `Scan` and `Runtime`).
- **Assembly of one comic.** `fetchComicDataAndUnion` runs two do-while
  pagination loops. Between them it sorts the episodes in place by `order`
  (modules `Paging` and `Assembler`).
- **Dedup and record mapping.** `existsComic` and `saveComic`, and the
  check-before-write in `loop`. The mapping drops the `COSPLAY` tag,
  defaults an empty author or description to `NULL`, and turns each
  episode's pages into their media paths (modules `Records` and `Runtime`).

The remote service is an oracle, the `Remote` datatype in `remote.dfy`: one
function from page number to answer for the catalog, one per comic for the
detail request and the episode listing, and one per comic and episode order
for the content pages. Any answer may be `Failed`, which stands for a thrown
request. `Remote.Wf()` bounds every reported page total by `maxPages`. The
oracle is fixed for the length of one call to `run`; a later `run` may be
given a different `Remote`, which is how the catalog changes between runs.

The document store is a `map` from identity to `CosplayRecord`. The cursor
file is an `Option<CursorState>` field; writing it copies the two counters.

Each imperative part of the source is a method:
- the do-while loops are `Paging.Paginate` and `Assembler.FillEpisodePages`;
- the in-place sort is `Assembler.SortInPlace`, an insertion sort on an
  `array`;
- `loop` is the recursive method `Runtime.Crawler.LoopPages`;
- `run` is `Runtime.Crawler.Run`.

Each method is proved equal to a function: `Paging.Collect`,
`Assembler.SortByOrder`, `Assembler.Assemble`, `Scan.SyncItems`,
`Scan.Loop` and `Scan.RunSpec`. The properties are proved as lemmas about
those functions.

Three behaviours of the code that the model keeps:
- The cursor file is written at the start of `run` (on a zero cursor or
  on growth), in the `catch` of `loop` and in the `finally`, and by the
  signal handlers (src/main.ts:243-253), which are left out. It is not
  written after every page.
- The range the code keeps is `0 <= cursor <= lastTotalPages + 1`, not
  `cursor <= lastTotalPages`. Growth seen mid-sweep adds one extra step
  (`cursor++`). If a comic on that page then fails, the cursor file gets
  that value, which can be one past the total.
- A total that shrinks leaves both counters as they were. There is no clamp
  (`Cursor.ReconcileShrinkNoClamp`).

## Model

| member | source | states |
|---|---|---|
| `Paging.Paginate` | src/main.ts:93-101 | The do-while page loop returns exactly `Collect(listing, bound, 1)`, and the pages it requests are `Requests(listing, bound, 1)`. |
| `Paging.RequestsConsecutive` | src/main.ts:93-101 | A page walk makes at least one request, and asks for pages 1, 2, 3, … in that order. |
| `Paging.RequestsStopRule` | src/main.ts:95-101 | The walk goes past a page exactly when that page was answered with a total of at least the next page number. The last request either failed or reported a smaller total. |
| `Paging.CollectGathers` | src/main.ts:95-101 | A walk succeeds iff every request it makes is answered. It then yields the answers' documents concatenated in fetch order. |
| `Assembler.SortInPlace` | src/main.ts:104 | The in-place sort leaves the array equal to `SortByOrder` of its old contents. |
| `Assembler.SortSorted` | src/main.ts:104 | Sorted episodes are non-decreasing by `order`. |
| `Assembler.SortPermutes` | src/main.ts:104 | Sorted episodes are a permutation (the same multiset) of the input. |
| `Assembler.SortKeepsSorted` | src/main.ts:104 | Episodes already in order come out exactly as they went in. |
| `Assembler.InsertSorted` | src/main.ts:104 | One insertion step keeps a sorted prefix sorted. |
| `Assembler.InsertAt` | src/main.ts:104 | One in-place insertion step: the first i+1 slots become `Insert` of the sorted prefix and the next element, and the rest of the array is untouched. |
| `Assembler.FillEpisodePages` | src/main.ts:107-116 | The second loop gives `ok` iff every episode's page walk succeeds. On success the array holds `FillPages` of its old contents. |
| `Assembler.FillPagesSpec` | src/main.ts:108-116 | Filling keeps every episode in place, with the same entry. It appends exactly the pages of that episode's own listing, requested by its `order`. It fails iff one of those walks fails. |
| `Assembler.FetchComicDataAndUnion` | src/main.ts:87-119 | The assembler method returns exactly `Assemble(remote, comic)`. |
| `Assembler.AssembleOrdersEpisodes` | src/main.ts:87-119 | An assembled comic keeps the listing's identity and the detail attributes. Its episodes, pages aside, are the fetched episode entries sorted by `order`: in order, and a permutation of what was fetched. |
| `Assembler.AssembleFillsPages` | src/main.ts:107-116 | Each assembled episode's pages are exactly the pages of the walk for that episode's `order`, in fetch order. |
| `Assembler.AssembleFailsWhen` | src/main.ts:87-119 | Assembly fails iff one of these fails: the detail request, the episode walk, or the page walk of some fetched episode. |
| `Records.WithoutCosplayMembers` | src/main.ts:133 | The filtered tags are exactly the input tags other than `COSPLAY`. |
| `Records.WithoutCosplayAppend` | src/main.ts:133 | Filtering distributes over concatenation, so the kept tags stay in order. |
| `Records.WithoutCosplayKeeps` | src/main.ts:133 | Tags without `COSPLAY` pass through unchanged. |
| `Records.OrPlaceholder` | src/main.ts:136-138 | The result is never empty, and a non-empty value is kept as is. |
| `Records.ToRecordFaithful` | src/main.ts:133-153 | The record keeps the identity and both counts. Its episodes match the comic's one for one, with identity, `order` and pages as media paths (same length and order). A comic whose episodes are in order gives a conforming record: author and description filled, no `COSPLAY` tag, episodes in order. |
| `Cursor.Reconcile` | src/main.ts:190-202 | A zero cursor takes the current total for both counters. Growth gives `min(cursor + growth, total)` and the new total. No growth leaves both counters unchanged. |
| `Cursor.ReconcileInRange` | src/main.ts:190-202 | Reconciling against a non-negative total keeps the pair in range. When it writes the cursor file, the cursor is at most the current total. |
| `Cursor.ReconcileExample` | src/main.ts:195-201 | Cursor 5 after a total of 10 becomes 8 when the total is 13. |
| `Cursor.ReconcileShrinkNoClamp` | src/main.ts:195 | A shrinking total changes nothing, so the cursor can lie past the current total. |
| `Cursor.Regrow` | src/main.ts:208-213 | Growth seen at a page moves the cursor to `min(cursor + growth, pages) + 1` and takes the new total. Otherwise nothing changes. |
| `Cursor.AfterPage` | src/main.ts:208-223 | For a page walked to its end, `cursor++` and `cursor--` cancel. With growth the cursor ends at `min(cursor + growth, pages)`. Without growth it is exactly one lower. |
| `Cursor.Finish` | src/main.ts:237 | The `finally` leaves a cursor of at least 1, keeps the total, and keeps a cursor that was already at least 1. |
| `Cursor.RegrowInRange` | src/main.ts:208-213 | Growth at a walked page keeps the range, leaves a cursor of at least 1, and never lowers the total. |
| `Cursor.FinishInRange` | src/main.ts:237 | The reset of `finally` keeps the range. |
| `Scan.SyncItemsKeeps` | src/main.ts:216-221 | Walking a page's comics never changes or removes a stored record. Afterwards the store holds exactly the old identities and the ones written. |
| `Scan.SyncItemsFresh` | src/main.ts:216-221 | Only identities of the page's comics that were absent are written, each at most once. |
| `Scan.SyncItemsConforms` | src/main.ts:216-221 | Every identity written is stored with a conforming record. |
| `Scan.SyncItemsCompletes` | src/main.ts:216-222 | A page walked to its end leaves every comic on it stored. |
| `Scan.SyncItemsSucceeds` | src/main.ts:216-222 | A page whose comics can all be assembled is walked to its end. |
| `Scan.SyncItemsStopsAtFailure` | src/main.ts:216-228 | A failed page stopped at a comic that was absent and could not be assembled. Every comic before it is stored, it is not, and only comics before it were written. |
| `Scan.LoopSteps` | src/main.ts:204-229 | Below page 1 the sweep does nothing. A failed page request keeps the cursor pair, writes it to the cursor file and ends the sweep. A page walked to its end moves the pair by `AfterPage` and the sweep goes on. |
| `Scan.LoopGrows` | src/main.ts:203-230 | The whole sweep only adds records. Each new write is of an absent identity, distinct from the others and conforming, and earlier records are untouched. |
| `Scan.GrowsKeepsOnceEach` | src/main.ts:216-221 | A store written at most once per identity keeps that property under such growth. |
| `Scan.LoopInRange` | src/main.ts:203-230 | The sweep keeps the pair in range and never lowers the total. It ends either at cursor 0 with the cursor file untouched, or stopped with a cursor of at least 1 written to the cursor file. |
| `Scan.SteadySweep` | src/main.ts:203-230 | With no failure and no growth, the sweep requests pages cursor, cursor-1, …, 1 in that order. It ends at cursor 0 with the total and the cursor file unchanged, and every comic on those pages is stored. |
| `Scan.RunInRange` | src/main.ts:190-240 | `run` keeps the pair in range. A failed first request changes nothing else. Otherwise `run` ends with a cursor of at least 1, and the cursor file equals the in-memory pair. |
| `Scan.RunEnds` | src/main.ts:190-240 | From any cursor pair, in range or not: a failed first request changes nothing but the request record; otherwise `run` ends with a cursor of at least 1 that the `finally` has written to the cursor file. |
| `Scan.RunGrows` | src/main.ts:185-241 | `run` only adds records as `LoopGrows` says, so at most one write per identity is preserved across runs. |
| `Scan.RunResumes` | src/main.ts:191-202 | If the total is unchanged, the next `run` starts its sweep from the pair this run ended with and does not write the cursor file. |
| `Runtime.Crawler.constructor` | src/main.ts:169-183 | Module start takes the cursor file, or (0, 0) when there is none, with `looping` false. |
| `Runtime.Crawler.WriteCursorData` | src/main.ts:176-180 | The cursor file afterwards holds the current pair. |
| `Runtime.Crawler.ExistsComic` | src/main.ts:160-163 | Finds a record iff the identity is stored, and returns the stored record. |
| `Runtime.Crawler.SaveComic` | src/main.ts:125-158 | A stored identity returns the stored record with no write. Otherwise exactly `ToRecord(data)` is written under its identity, and one write is recorded. |
| `Runtime.Crawler.SyncComic` | src/main.ts:217-221 | A stored comic is skipped. An absent one is handled iff it assembles: then its record is written, else nothing is. |
| `Runtime.Crawler.SyncPage` | src/main.ts:216-222 | The `for` loop's outcome, new store and writes are exactly `SyncItems` of the old store. |
| `Runtime.Crawler.RegrowCursor` | src/main.ts:208-213 | The growth branch updates the pair exactly as `Regrow` says. |
| `Runtime.Crawler.LoopPages` | src/main.ts:203-230 | The recursive `loop` changes the state exactly as `Loop` says. |
| `Runtime.Crawler.ReconcileCursor` | src/main.ts:190-202 | The start of `run` updates the pair as `Reconcile` says, and writes the cursor file exactly when `ReconcileWrites`. |
| `Runtime.Crawler.RunOnce` | src/main.ts:190-240 | Past the guard, `run` changes the state exactly as `RunSpec` says and leaves `looping` false. |
| `Runtime.Crawler.Run` | src/main.ts:185-241 | While `looping` is set, `run` changes nothing: no request, no counter change, no write. Otherwise it acts as `RunSpec`. It keeps the store written at most once per identity, and a pair in range stays in range. |

## Left out

- Token handling, login and the re-authorization callback (src/main.ts:15-59): environment lookup, file I/O and a foreign API.
- The HTTP calls behind `fetchComics`, `fetchComicInfo`, `fetchComicEpisodes` and `fetchComicEpisodePages` (src/main.ts:67-85). They are the oracle functions of `Remote`. `run`'s probe `fetchComics()` without a page is taken as a request for page 1.
- JSON reading and writing of the cursor file (src/main.ts:169-180). A write copies the two counters into `cursorFile`, and a read is the constructor's argument.
- Signal handlers, `node-cron` scheduling and `process.exit` (src/main.ts:243-266): process and timer plumbing.
- Mongoose details. `Types.ObjectId` construction and its throw on a malformed identity, `save()`, `episodes.create` and database errors are left out. Identities are plain strings, and the store is a map.
- The schema's `type` field (src/cosplay.model.ts:88-92): `saveComic` never sets it, so the record has no such field.
- Date parsing of `updated_at` (src/main.ts:150). The timestamp is kept as the remote's text.
- Async interleaving. `run` is sequential here, so two overlapping cron ticks (the window between the guard and `looping = true`) are not modelled. `looping` is true only inside `RunOnce`.
- `debug` and `console.error` logging.
- The catalog is fixed for the length of one `run`. Growth during a sweep is still modelled, as larger totals on later pages. Changes to earlier answers within one run are not.
- Termination rests on the bound `maxPages` of `Remote.Wf()`. A remote whose totals grow without bound is not modelled.
- The merge `{ ...comic, ...info, episodes }` lets the detail answer win, `_id` included; the model assumes the detail answer's `_id` equals the listing entry's and takes every other attribute from the detail answer. Deduplication depends on that assumption: `existsComic` is asked about the listing entry's id (src/main.ts:217), while `saveComic` keys the record on the merged `_id` (src/main.ts:127). Only the detail answer's attributes are stored.
- Falsy values other than the empty string (`undefined`, `null`) for author and description are modelled as the empty string. A `cursor` of `NaN` is not modelled; only 0 counts as "no cursor".
- `Scan.SyncItemsFresh` states which identities are written and that each is written once. It does not state the order of the writes beyond what `Scan.SyncItemsStopsAtFailure` gives: writes come only from comics before the failing one.
