# Face-embedding store and search: a Dafny model

This project models the core of a face-recognition service: the in-memory
store of `(uuid, origin, embedding)` entries, its threshold / top-K
similarity search, the startup loop that rebuilds the store from the
`targets` table, and the two request handlers. `register` writes durably
first and only then appends to the store. `search` fills in the default
threshold and limit and renders each hit.

Modules, one per concern:

- `Wrappers`: `Option` and `Result`.
- `UuidText`: UUIDs as 128-bit values, their hyphenated lower-case text form,
  and its parser.
- `Ranking`: the stable non-increasing sort used to rank hits (`SortDesc`), and
  the proof that every stable non-increasing sort gives the same sequence.
- `Store`: `EmbeddingEntry`, the class `EmbeddingsStore` (`new`, `add`, `len`,
  `is_empty`, `find_similar`), and the specification `TopK` of the search with
  its lemmas.
- `Durable`: rows of the `targets` table, the records the startup query reads,
  the `Database` class, and the invariant `Backed`. `Backed` says every store
  entry has its own durable row.
- `Startup`: the startup load loop.
- `Handlers`: `register` and `search`.

The similarity function is a parameter `sim: (Embedding, Embedding) -> real`.
It can be any total function into a totally ordered score. Embedding
extraction is a parameter `extract: string -> Result<Embedding, ExtractError>`.
`ExtractError` is 400 (BAD_REQUEST) or 500 (INTERNAL_SERVER_ERROR). The
database's answer to an insert is a boolean parameter.

Facts about the code that the model keeps:

- The code has no dimension check on embeddings.
- The code does not normalise embeddings to unit length.
- The code has no duplicate-uuid policy: a second registration of a uuid is
  appended like any other.
- `limit == 0` is not an error: it yields an empty result.
- Startup appends the fetched records to a new store one by one.

## Model

| member | source | states |
|---|---|---|
| `Store.EmbeddingsStore.constructor` | src/main.rs:54-58 | a new store has no entries, `len() == 0` and `is_empty()` |
| `Store.EmbeddingsStore.Add` | src/main.rs:60-66 | appends exactly one entry `(uuid, origin, embedding)` at the end, earlier entries unchanged, `len` grows by one; no precondition, so duplicate uuids are accepted |
| `Store.EmbeddingsStore.Len` | src/main.rs:93-95 | `len()` is the number of entries in the store |
| `Store.EmbeddingsStore.IsEmpty` | src/main.rs:93-99 | `is_empty()` holds exactly when `len() == 0` |
| `Store.EmbeddingsStore.FindSimilar` | src/main.rs:68-91 | the result is the specification `TopK`; at most `limit` hits; empty for an empty store; non-increasing similarity; every hit reaches the threshold and is the `(uuid, origin, sim(query, embedding))` of a stored entry; reads the store only |
| `Store.TopKFacts` | src/main.rs:68-91 | the search result has at most `limit` hits, is empty for an empty store, is non-increasing, and every hit reaches the threshold and comes from a stored entry |
| `Store.CandidatesExactly` | src/main.rs:74-82 | a hit is collected exactly when it comes from a stored entry whose similarity is at least the threshold |
| `Store.TopKSorted` | src/main.rs:84-85 | search results are in non-increasing order of similarity |
| `Store.TopKMembers` | src/main.rs:77-88 | each result reaches the threshold and comes from a stored entry; no hit appears more often than it qualifies |
| `Store.TopKTieOrder` | src/main.rs:74-88 | for each similarity value, the results with that value are a prefix of the qualifying hits with that value in store order, so ties keep insertion order |
| `Store.TopKComplete` | src/main.rs:74-88 | exactly `min(limit, number of qualifying hits)` hits are returned; if no more than `limit` entries qualify, all are returned; no qualifying hit left out is more similar than any returned hit |
| `Store.ThresholdMonotone` | src/main.rs:81-88 | raising the threshold never increases the number of results |
| `Store.BestMatchFirst` | src/main.rs:68-91 | an entry that qualifies and is strictly more similar than every different hit is the first result for any positive limit |
| `Ranking.SortDesc` | src/main.rs:85 | the ranking sort is a permutation of its input |
| `Ranking.SortDescSorted` | src/main.rs:84-85 | the ranking sort is non-increasing in similarity |
| `Ranking.SortDescStable` | src/main.rs:85 | the ranking sort keeps the input order among hits of equal similarity |
| `Ranking.StableSortIsUnique` | src/main.rs:85 | any non-increasing sort that keeps the order among equal similarities equals `SortDesc`: the ranking is deterministic, ties included |
| `Ranking.TruncationKeepsBest` | src/main.rs:87-88 | truncating a sorted list drops nothing more similar than what is kept |
| `UuidText.ToString` | src/handlers.rs:217 | the uuid text has 36 characters: hex digits with hyphens at positions 8, 13, 18 and 23 |
| `UuidText.ParseToString` | src/handlers.rs:217 | the uuid text reads back as the same uuid |
| `UuidText.ToStringInjective` | src/handlers.rs:217 | distinct uuids have distinct text forms |
| `Durable.Database.Insert` | src/handlers.rs:142-148 | an acknowledged insert appends the row to the table; a failed one leaves the table unchanged |
| `Durable.BackedHasRow` | src/handlers.rs:142-161 | under the invariant, every store entry has a matching durable row |
| `Durable.BackedAppend` | src/handlers.rs:149-161 | writing a row and then adding its entry keeps the invariant; writing a row alone keeps it too |
| `Startup.DecodeFetchRoundTrip` | src/main.rs:197-199 | a row as the registration writes it reads back and loads as the entry it came from |
| `Startup.LoadAll` | src/main.rs:195-202 | a fetch loads exactly when every record decodes, one entry per record, in fetch order |
| `Startup.LoadStore` | src/main.rs:187-203 | startup succeeds exactly when every record decodes; the store then holds the loaded entries in fetch order, and `len` equals the number of records |
| `Startup.ReloadRestoresTable` | src/main.rs:191-202 | reloading a table the service wrote succeeds in any fetch order and rebuilds a store whose rows equal the table's as a multiset, so `Backed` holds and every durably written registration survives a restart |
| `Handlers.Register` | src/handlers.rs:124-172 | failed extraction returns its status and changes nothing; a failed insert returns 500 and leaves the store unchanged; an acknowledged insert appends one row and one entry `(target_uuid, origin, embedding)` and returns 201; `Backed`, the row-for-row mirror and the multiset mirror are preserved |
| `Handlers.RenderReadsBack` | src/handlers.rs:214-221 | each rendered result reads back as the hit it came from, at the same position |
| `Handlers.RenderInjective` | src/handlers.rs:214-221 | rendering is one to one: different hit lists give different responses |
| `Handlers.Search` | src/handlers.rs:175-224 | failed extraction returns its status; otherwise the results are the store's top-K for that query, rendered one to one in the same order, with threshold 0.7 and limit 10 when absent and the supplied values otherwise; at most `limit` results; empty for an empty store |

## Left out

- `cosine_similarity` (src/main.rs:29-45): its floating-point arithmetic is not modelled. The score is the abstract parameter `sim`.
- f32 values are modelled as `real`. NaN and rounding are not modelled. A NaN score never passes `>= threshold`, so every collected hit has a comparable score. The `unwrap_or(Equal)` fallback of the comparator is therefore never used on collected hits.
- The default threshold is the real number 0.7. The f32 nearest to 0.7 is not modelled.
- `limit` is an unbounded `nat`. The `usize` bound is not modelled.
- `par_iter` parallelism (src/main.rs:76) is not modelled. The parallel `collect` into a vector keeps store order, and the model collects with a sequential loop.
- `sort_by` is the library's in-place stable sort. The model applies the reference stable sort `SortDesc` to the collected sequence instead. `StableSortIsUnique` shows that every stable non-increasing sort gives that sequence. The in-place array algorithm itself is not modelled.
- `get_embedding_from_base64` and `preprocess_image` (src/handlers.rs:15-77, 228-253) are the opaque function `extract`. This covers base64 decoding, image loading and resizing, pixel normalisation and ONNX inference.
- Mutex locking and poisoning (src/handlers.rs:154-160, 202-208) are not modelled. With a poisoned lock, `register` returns 500 after the row was written. That path keeps `Backed` but not the row-for-row mirror.
- `Durable.Database.Insert`: an insert that committed but reported failure is not modelled. The model assumes a failed insert writes nothing. `BackedAppend` shows that a row written without its entry would still keep `Backed`.
- The Postgres connection, table creation, environment configuration, ONNX initialisation, router, listener and `health_check` are left out (src/main.rs:111-183, 208-233; src/handlers.rs:119-121). These are I/O plumbing.
- `Durable.FetchAll`: the startup query has no ORDER BY, so the fetch order is the database's choice. The model takes that order as given: the store after a restart holds the rows in fetch order, and ties in later searches follow it. Only the multiset of rows is promised to match the table.
- The `origin VARCHAR(64)` column is not modelled. For an origin longer than 64 characters whose excess is all spaces, Postgres truncates silently and the stored origin then differs from the in-memory one. The model stores the origin unchanged.
- A failure of `fetch_all` at startup is left out: the process stops before serving. `LoadStore` takes the fetched records.
- Logging is left out. This includes the `if !all_embeddings.is_empty()` test at startup, which only chooses a log message.
- Concurrency between requests and the visibility of a registration to concurrent searches are not modelled. The model is sequential.
