# Product price tracker: a Dafny model of the tracking engine

The price tracker keeps a registry of products, re-measures every product's
price in periodic tracking rounds, and stores each measurement as an
immutable point of a per-product price history. This project models the
engine's state and data rules and proves properties about them:

- the in-memory registry (`PriceTracker.products`): loading it from the store,
  registering products with upsert semantics, and the snapshot a round starts from;
- one tracking round, run sequentially: fetch every snapshot product once, keep
  the positive prices, and write every survivor to the store, where one failed
  write does not stop the rest;
- the SQLite store as state: the products table keyed by id (INSERT OR REPLACE),
  the append-only price_entries log with AUTOINCREMENT ids, and the read queries
  (existence, history newest-first with LIMIT, all products by name, latest price
  per product);
- the request rules of the history endpoint: the empty-id check, the default
  limit of 50, the `strconv.Atoi` parse of a supplied limit, and the 404 for
  any tracker error.

Files, one module each: `wrappers.dfy` (Option, Result), `models.dfy` (the
records of models.go and the errors), `ordering.dfy` (the name order, a stable
insertion sort and its sortedness and permutation lemmas), `queries.dfy` (the
tables as values and the SQL selections over them), `store.dfy` (class
`Database`), `tracker.dfy` (class `PriceTracker`, the round), `api.dfy` (the history and
products handlers).

The environment's choices are parameters:
- `fault: Option<string>` on every store operation. None means the SQL call
  succeeded. Some(message) is the driver's error.
- `fetch: Product -> real` is the measurement source.
- `clock: Product -> nat` is the `time.Now()` read when that product's fetch completes.
- `writeFault: PriceEntry -> Option<string>` is the outcome of each log write.

The goroutine fan-out only changes the order in which results reach the
collector. `ArrivalOrder` models that order by drawing the pending results
(a multiset) one at a time in an arbitrary order. Its contract, and the round's, speak only
of multisets of results, so they hold for every arrival order.

Behaviour of the code that a reader might not expect, and that the model keeps:
- Registering a known id is not a `DuplicateEntity` error. INSERT OR REPLACE overwrites the row, and the registry entry is overwritten too.
- Entries for unknown products are not rejected. SQLite does not enforce the declared foreign key unless the `foreign_keys` pragma is set, and the code never sets it.
- A store failure during a history request is answered with 404 carrying the driver's message, not with a generic internal error (api.go:65-69).

## Model

| member | source | states |
|---|---|---|
| `Store.Database.InsertProduct` | database.go:54-58 | on success the products table becomes the upsert of the product; on failure the error is returned and nothing changes; the log is untouched |
| `Queries.Upsert` | database.go:55 | after INSERT OR REPLACE a row is present iff it is the new product or an old row with another id |
| `Queries.UpsertProperties` | database.go:55-57 | after INSERT OR REPLACE ids stay unique, exactly one row has the product's id and it is the new product, every row with another id is kept and no other row appears |
| `Queries.Without` | database.go:55 | the rows left by the REPLACE's delete are exactly the old rows with another id, and their ids stay unique |
| `Store.Database.GetAllProducts` | database.go:60-78 | on success every stored product exactly once (same multiset) ordered by name; a driver failure is returned as the error |
| `Queries.AllByName` | database.go:61 | ORDER BY name yields a permutation of the rows that is sorted by name |
| `Ordering.SortBy` | database.go:61 | the sort used for ORDER BY keeps the multiset and the length of its input |
| `Ordering.SortBySorted` | database.go:135 | for a total, transitive order the sort's result is sorted |
| `Ordering.InsertSorted` | database.go:61 | inserting into a sorted sequence under a total, transitive order keeps it sorted |
| `Queries.NameOrderIsTotalOrder` | database.go:61 | ordering products by name is total and transitive, so the sorted product lists are well defined up to ties |
| `Ordering.LexLeTotal` | database.go:61 | any two names are comparable in the BINARY collation order |
| `Ordering.LexLeTransitive` | database.go:61 | the BINARY collation order on names is transitive |
| `Store.Database.GetProductsWithLatestPrices` | database.go:80-122 | on success exactly one row per stored product (same multiset of products), ordered by name, and the rows are the LEFT JOIN result whose contents `Queries.LatestPricesRow` describes; a driver failure is returned as the error |
| `Queries.LatestPrices` | database.go:81-121 | the query yields one row per stored product (the rows' products are the table's products, same multiset), each row carrying its product's latest price and time as `Queries.WithLatest` builds it |
| `Queries.WithLatest` | database.go:86-116 | a row keeps its product; its price is present iff the product has an entry; price and time are present or absent together (NULL only when no entry joins) |
| `Queries.LatestPricesShape` | database.go:81-93 | the LEFT JOIN result has one row per product, its products are a permutation of the table, sorted by name |
| `Queries.LatestPricesRow` | database.go:111-116 | a row's price and time are present iff its product has an entry, present together, and then equal the price and time of an entry of that product with the greatest timestamp |
| `Queries.Latest` | database.go:86-92 | the entry the rn = 1 subquery picks is an entry of the log that belongs to the product |
| `Queries.LatestProperties` | database.go:86-92 | the latest entry of a product exists iff the product has an entry; it is one of its entries with a maximal timestamp |
| `Queries.LatestHeadsHistory` | database.go:88-90 | the history with limit 1 has one entry iff a latest entry exists, and it is as new as the latest entry |
| `Store.Database.InsertPriceEntry` | database.go:124-128 | on success exactly one entry is appended with the next AUTOINCREMENT id and the given product id, price and timestamp, and the counter advances; on failure nothing changes; ids keep increasing |
| `Store.StampedKeepsIdsIncreasing` | database.go:35 | AUTOINCREMENT over a batch: appending the stamped batch to a log whose ids increase and lie below the counter keeps the ids increasing, puts the new ids between the counter and the counter plus the batch size, and keeps every id below the advanced counter |
| `Store.StampedPricesPositive` | tracker.go:144-151 | stamping row ids keeps the prices, so when every saved entry has a positive price, so does every entry the round appends to the log |
| `Store.Database.GetPriceHistory` | database.go:130-154 | on success only that product's stored entries, newest first, never more than a non-negative limit, and exactly the history whose count and newest-ones property `Queries.HistoryProperties` proves; a driver failure is returned as the error |
| `Queries.History` | database.go:131-136 | the selected entries are entries of the log that belong to the product, ordered newest first |
| `Queries.HistoryProperties` | database.go:131-138 | the history holds only the product's entries, newest first, exactly min(limit, count) of them (all for a negative limit), and none left out is newer than one returned |
| `Ordering.SortedPrefix` | database.go:135-136 | cutting a newest-first sequence at LIMIT keeps it sorted, keeps part of it, and everything kept is at least as new as everything cut off |
| `Queries.EntriesFor` | database.go:134 | WHERE product_id = ? keeps each entry of that product as often as it occurs, and no other entry |
| `Queries.Limit` | database.go:136 | LIMIT yields a prefix, no longer than a non-negative limit, and shorter than the input only when cut at the limit |
| `Store.Database.ProductExists` | database.go:156-161 | on success true iff some stored product has the id; a driver failure is returned as the error |
| `Queries.CountId` | database.go:157-160 | COUNT(*) is positive iff some row has the id |
| `Tracker.PriceTracker.constructor` | tracker.go:18-30 | the tracker is always created; if the store read fails the registry is empty, otherwise its keys are exactly the stored ids and each maps to the stored product |
| `Tracker.PriceTracker.LoadProducts` | tracker.go:32-47 | on a failed read the error is returned and the map is untouched; otherwise the map is the old map with every listed product put under its id in turn |
| `Tracker.Registered` | tracker.go:41-43 | putting a list into the map yields the old keys plus the list's ids |
| `Tracker.RegisteredValues` | tracker.go:41-43 | keys the list does not mention keep their value; each listed id maps to a listed product with that id |
| `Tracker.RegisteredLastWins` | tracker.go:41-43 | a later product with the same id overwrites an earlier one |
| `Tracker.LoadedFromStore` | tracker.go:33-43 | loading the stored rows puts every stored product under its id and adds no other key |
| `Tracker.PriceTracker.AddProduct` | tracker.go:49-63 | on a store error the error is returned and registry and table are unchanged; otherwise the table is upserted, the registry maps the id to the product and keeps every other entry, and the registry size grows only for a new id |
| `Tracker.PriceTracker.GetProducts` | tracker.go:65-72 | an empty list on store error; otherwise exactly the store's rows, `Queries.LatestPrices` of its tables: one row per stored product, ordered by name, each with that product's latest price and time |
| `Tracker.PriceTracker.GetPriceHistory` | tracker.go:74-85 | an existence-check error propagates; an unknown id gives not-found whatever the history read would do; otherwise the store's history for the same id and limit, holding only that product's entries, newest first, within the limit |
| `Tracker.PriceTracker.Snapshot` | tracker.go:105-110 | the snapshot has one product per registry key, as many as the map's size, with distinct ids, each equal to the registered value |
| `Tracker.PriceTracker.PriceWorker` | tracker.go:154-168 | every queued product is fetched exactly once and the results are the measurements of the queue |
| `Tracker.Measurements` | tracker.go:157-166 | the worker sends no more entries than fetched products, each with a positive price and built from a queued product's id, the fetched price, the completion time and row id 0 |
| `Tracker.MeasurementsWithinReadings` | tracker.go:157-166 | the worker sends at most one entry per fetched product: the entries are a sub-multiset of the queue's readings, one reading per queued product |
| `Tracker.MeasuredIfPositive` | tracker.go:159-165 | a product with a positive fetched price gets an entry with its id, that price and its completion time |
| `Tracker.NotMeasuredIfNotPositive` | tracker.go:159 | in a snapshot a product whose fetched price is not positive gets no entry |
| `Tracker.OneMeasurementPerProduct` | tracker.go:157-166 | in a snapshot no two entries share a product id, and there are exactly as many entries as products with a positive price |
| `Tracker.Saved` | tracker.go:145-151 | the successfully written entries are never more than the attempted ones |
| `Tracker.SavedCounts` | tracker.go:145-151 | an entry counts as saved as often as it was attempted when its write succeeds, and never otherwise |
| `Tracker.SavedAreMeasured` | tracker.go:145-166 | every saved entry is a measurement with a positive price, and there are never more saved entries than fetched products |
| `Tracker.PriceTracker.ArrivalOrder` | tracker.go:145 | the results reach the collector in some order that holds each of them exactly once (same multiset) |
| `Tracker.PriceTracker.SaveOne` | tracker.go:146-150 | one write: it succeeds exactly when the store accepts it, and then the entry is appended under the next row id and the counter advances; otherwise the store is unchanged |
| `Tracker.PriceTracker.WriteAll` | tracker.go:145-151 | the entries are written in the given order, a failure does not stop the rest, and the log grows by exactly the successful writes with consecutive ids; the products table is unchanged |
| `Tracker.PriceTracker.SaveResults` | tracker.go:144-151 | every result gets exactly one write attempt in an arbitrary order, failures do not stop the rest, and the log grows by exactly the successful writes with consecutive ids; the products table is unchanged |
| `Tracker.PriceTracker.TrackAllProducts` | tracker.go:104-152 | one round: every registered product is fetched exactly once, an empty registry means no fetch and no write, every measurement gets one write attempt, the log grows only by saved entries, all with positive prices and never more than the registry size |
| `Api.Atoi` | api.go:60 | an accepted limit string is an optional sign followed by at least one decimal digit, and its value fits Go's 64-bit int; a lone sign or any other character is rejected |
| `Api.AtoiSigned` | api.go:60 | every optional sign followed by at least one decimal digit (leading zeros allowed) is accepted exactly when its value fits Go's 64-bit int, and parses to that signed value |
| `Api.AtoiItoa` | api.go:60 | Atoi reads back every int written in canonical decimal |
| `Api.DigitsRoundTrip` | api.go:60 | the canonical decimal digits of a natural number denote that number |
| `Api.EffectiveLimit` | api.go:57-63 | the limit is the parsed value when the parameter parses and is positive, and 50 otherwise, also when the parameter is absent; it is always at least 1 |
| `Api.EffectiveLimitOfNumber` | api.go:58-63 | a positive decimal limit is used as it is; zero or a negative one falls back to 50 |
| `Api.HandleGetProducts` | api.go:43-46 | status 200 with the tracker's product list unchanged: empty after a store failure, otherwise exactly the store's rows, one per stored product ordered by name, each with its latest price and time |
| `Models.Error.Message` | tracker.go:81 | the error text is the driver's message for a store error, and ends with the product id for not-found |
| `Models.NotFoundMessageInjective` | tracker.go:81 | different product ids give different not-found messages, so the 404 body identifies the product |
| `Api.HandleGetPriceHistory` | api.go:48-76 | an empty id gives 400 without consulting the tracker; a tracker error gives 404 with its message; success gives 200 with the requested id, the history unchanged and count equal to its length, never above the effective limit, newest first and only for that product |

## Left out

- Concurrency is not modelled: goroutines, channels, `sync.WaitGroup`, `sync.RWMutex` lock scopes, and the five-worker constant (tracker.go:119-142). A round is sequential. The arbitrary arrival order of results is what remains of the fan-in.
- `StartTracking` is not modelled: the ticker loop, context cancellation and overlapping rounds (tracker.go:87-102). It schedules rounds and has no data rules of its own.
- Tracker.PriceTracker.PriceWorker: fetches in queue order. With five workers the fetch order is arbitrary, so only "each product is fetched exactly once" carries over to the source.
- `fetchPrice` is not modelled: its random delay, base-price table and ±10% variation (tracker.go:170-193). It is the `fetch` parameter.
- `time.Now()` is the `clock` parameter. Timestamps are natural numbers. The model assumes that SQLite's ORDER BY on the stored DATETIME text agrees with time order.
- Prices are reals. Go's float64 NaN and infinities are not modelled. NaN fails `> 0` and is dropped; +Inf would pass and be written.
- `NewDatabase`, `createTables`, the indexes and `Close` are not modelled (database.go:12-52, 163-165). They are schema setup. The `Database` constructor is a freshly created database. An existing database file is any state satisfying `Valid()`.
- A row-scan error in the middle of a result (database.go:71-73, 107-109, 147-149) is driver behaviour. It is not modelled apart from a query failing as a whole through `fault`.
- Go's nil slice versus empty slice is not distinguished. A query with no rows returns nil, which JSON encodes as `null`, while `GetProducts` on error returns `[]`.
- SQLite may break timestamp ties differently in the history query and in the latest-price query. `Queries.LatestHeadsHistory` therefore states only that the two entries are equally new.
- Routing, JSON encoding, the logging and CORS middleware, the root HTML page and the health endpoint (api.go:13-41, 78-162) are transport plumbing.
- main.go (sample products, signals, HTTP server start and shutdown) is process wiring.
- Logging everywhere is left out.
- `strconv.Atoi` is modelled for a 64-bit `int` only.
