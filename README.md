# Item catalogue of the Testing Starter API, in Dafny

The service in `backend/app/main.py` keeps an in-memory "database": a dictionary from integer id to
`Item(id, name)`, seeded at start-up with `1 -> Item(1, "Alpha")` and `2 -> Item(2, "Beta")`. Two
handlers use it, and a third answers a constant:

- `GET /` answers the constant greeting `{"message": "Hello World"}` and never touches the table;
- `GET /items/{item_id}` answers the stored item, or fails with 404 "Item not found";
- `POST /items` is an insert-if-absent: it fails with 400 "Item already exists" when the id is taken,
  and otherwise stores the item under its own id and answers it.

`catalog.dfy` (module `CatalogApp`) models this. `Item` is a datatype; the two failures are the
constructors `NotFound` and `AlreadyExists` of `Error`, whose `Status()` and `Detail()` give the
status code and message the handlers attach. The table is a `map<int, Item>`. The pure functions
`Lookup` and `Insert` say what `read_item` and `create_item` do to a given table. The class `Store`
holds the single shared table: its constructor builds the seeded state, `ReadItem` is a function that
reads the table, and `CreateItem` is a method that updates the table in place and is proved against
`Insert`. The store invariant `KeyedById` says every key is the id of the item stored under it.

To talk about the store over the life of the process, `Serve` answers one request (`GetRoot`,
`GetItem`, `PostItem`) against a table, and `Replay` runs a sequence of them. The lemmas about `Replay`
show that:
- no request ever replaces or removes a stored item;
- the invariant holds after any run;
- a run adds exactly the ids it posts;
- each new entry is exactly an item some request posted;
- the seeded items answer as seeded, whatever was served before.

The handler tests `if not item`. A stored `Item` is a pydantic model with no truthiness of its own,
so it is always truthy. The branch is therefore taken exactly when the id is absent, and `Lookup`
tests `id in t`.

## Model

| member | source | states |
|---|---|---|
| CatalogApp.Error.Status | backend/app/main.py:24-30 | the status code of a failure is a client error: 404 exactly for NotFound (line 24), 400 exactly for AlreadyExists (line 30) |
| CatalogApp.Error.Detail | backend/app/main.py:24-30 | the detail text is "Item not found" exactly for NotFound (line 24) and "Item already exists" exactly for AlreadyExists (line 30) |
| CatalogApp.Seed | backend/app/main.py:11-14 | the start-up table holds exactly ids 1 and 2, mapped to Item(1, "Alpha") and Item(2, "Beta"), and satisfies the key-equals-id invariant |
| CatalogApp.Store.constructor | backend/app/main.py:10-14 | a fresh store holds exactly the two seeded items and satisfies the invariant |
| CatalogApp.ReadRoot | backend/app/main.py:16-18 | the root greeting's message is "Hello World" |
| CatalogApp.RootIgnoresStore | backend/app/main.py:16-18 | on every table, GET / answers a greeting whose message is "Hello World" and leaves the table unchanged |
| CatalogApp.Lookup | backend/app/main.py:20-25 | a lookup succeeds iff the id is stored, then with exactly the stored item (whose id is the requested one when the invariant holds); otherwise it fails with NotFound, "Item not found" |
| CatalogApp.Store.ReadItem | backend/app/main.py:21-25 | reading the store answers as Lookup on its current table, changes nothing, and a found item carries the requested id in a valid store |
| CatalogApp.Insert | backend/app/main.py:27-32 | a create succeeds iff the id is absent, answering the item unchanged and storing it under its id; when the id is taken it fails with AlreadyExists, detail "Item already exists", and the table is unchanged; the key set becomes old keys plus the id, no existing entry changes, and the invariant is preserved |
| CatalogApp.Store.CreateItem | backend/app/main.py:28-32 | the in-place update yields exactly Insert's table and response: on success the table gains item.id mapped to item and a following ReadItem(item.id) answers item; on a taken id the error is AlreadyExists, detail "Item already exists", and the table is unchanged; the invariant is preserved |
| CatalogApp.Serve | backend/app/main.py:16-32 | serving one request leaves the table unchanged for the two reads, grows the key set only by a posted id, keeps every stored entry, and preserves the invariant |
| CatalogApp.ReplayKeepsStored | backend/app/main.py:29-31 | after any sequence of requests, every item stored earlier is still stored under its key, unchanged |
| CatalogApp.ReplayKeyedById | backend/app/main.py:11-32 | every sequence of requests preserves the key-equals-id invariant |
| CatalogApp.ReplayKeys | backend/app/main.py:29-31 | after a run an id is stored iff it was stored before or some request in the run posted an item with that id |
| CatalogApp.ReplayItemsOrigin | backend/app/main.py:29-31 | every entry added by a run is exactly the item carried by one of the run's create requests |
| CatalogApp.ReplayReadsOnly | backend/app/main.py:16-25 | a run made only of reads leaves the table exactly as it was |
| CatalogApp.SeedSurvives | backend/app/main.py:11-30 | whatever has been served since start-up, ids 1 and 2 answer Alpha and Beta, and creating id 1 again fails with AlreadyExists |
| CatalogApp.ReadAfterCreate | backend/app/main.py:22-31 | after a create, a lookup of the created id answers the new item if the create succeeded; every other lookup answers as before |
| CatalogApp.CreateTwice | backend/app/main.py:29-31 | repeating a create is rejected with AlreadyExists and leaves the table as the first create left it |
| CatalogApp.FirstCreateWins | backend/app/main.py:29-31 | of two creates with the same id on a table without it, the first is stored and the second, whatever its name, fails and changes nothing |
| CatalogApp.CreatesCommute | backend/app/main.py:29-31 | two creates with distinct ids leave the same table in either order |

`CatalogApp.SeededStoreClient` is a client method that replays the seeded expectations against a
`Store`, using only the contracts above. Item 1 reads as Alpha. Item 999 is not found. Re-creating
id 1 is refused. A new id 3 is stored and read back.

## Left out

- FastAPI routing, `HTTPException`, status codes on the wire and JSON serialisation: framework plumbing. Errors are the `Error` constructors, and `Status()`/`Detail()` only record the code and message attached to each.
- Pydantic validation of the request body (the 422 for a malformed item): library behaviour not visible in `main.py`. The model takes an already well-formed `Item`.
- The list endpoint `GET /items?q=` (backend/tests/test_items_exercise.py:7-26): `main.py` defines no such handler, so there is no behaviour to model.
- The price endpoint `GET /price/{usd}` and its `get_exchange_rate` dependency (backend/tests/test_price_exercise.py:7-23): not implemented in `main.py` (the tests are skipped), floating point, and framework dependency injection.
- Concurrency around the check-and-insert of `create_item`: requests are modelled as a sequence served one at a time.
- Aliasing: `create_item` stores the caller's `Item` object itself. Items are values in the model, and no handler mutates a stored item.
- Insertion order of the table: the Python dictionary keeps it and `map` does not, but no handler in `main.py` iterates the table. `CatalogApp.CreatesCommute` states equality of the maps, not of any iteration order.
- The test client and both test modules as code: they only drive HTTP requests.
