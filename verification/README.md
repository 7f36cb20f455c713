# Products service — a Dafny model

A model of `ProductsService`, the product catalogue service of the products
microservice. The service keeps products in a relational store. Each product
has a store-assigned `id`, a unique `name`, a `price` and an `available`
flag. The service offers six operations:

- `create` inserts a product and translates a uniqueness violation into a
  bad-request error.
- `findAll` returns one page of the available products with paging metadata
  (`page`, `total`, `lastPage = ceil(total / limit)`).
- `findOne` returns an available product by id, or fails with a bad-request
  "not found" error.
- `update` checks the product is visible, then overwrites the fields of the
  payload. It drops any `id` the payload carries.
- `remove` is a soft delete: it checks the product is visible, then sets
  `available` to false.
- `validateProducts` checks that every distinct id of a batch names a
  stored product, whether available or not.

The store is modelled as a map from id to row (`ProductTypes.Table`). Its
primary key is part of that type. Its unique index on `name` is the
invariant `NamesUnique`, which every write keeps. The modules are:

- `ProductTypes` (types.dfy): rows, payloads, page, errors and the fixed
  messages and error codes.
- `ProductStore` (store.dfy): the store primitives the service calls. These
  are reading rows by a set of ids, inserting and overwriting.
- `ProductQueries` (queries.dfy): `findAll`, `findOne` and
  `validateProducts` as functions of the table.
- `ProductCommands` (commands.dfy): `create`, `update` and `remove` as
  transitions. A transition maps the table before a call to the call's
  result and the table after it.
- `Service` (service.dfy): the class `ProductsService`, whose `table` field
  its `Create`, `Update` and `Remove` methods replace. Each method is proved
  equal to its transition and to keep the unique index.

Assumptions about the store, which the service does not fix itself:

- Rows come back in ascending id order. The service asks for no order.
- A new row gets one more than the largest id in use, or 1 in an empty
  table. Rows are never deleted, so ids are never reused.
- The unique index on `name` covers every row, removed ones included.
  Removing a product therefore does not free its name. Names are not merely
  unique among available products.

Two behaviours of the code worth noting:

- A missing product is reported as BAD_REQUEST, not with a dedicated
  not-found status (src/products/products.service.ts:62-65).
- A name clash on `update` is not translated. The store's own error
  (code P2002) reaches the caller as `StoreError`, because `update` has no
  catch block.

## Model

| member | source | states |
|---|---|---|
| ProductStore.Select | src/products/products.service.ts:98-104 | the rows whose ids are in the filter set, each exactly once, as stored, in ascending id order |
| ProductStore.NextId | src/products/products.service.ts:15-17 | the id given to a new row is not in use and is larger than every id in use |
| ProductStore.Insert | src/products/products.service.ts:15-17 | the insert is rejected with P2002 exactly when the name is taken; otherwise it adds one available row with the payload's name and price under a fresh id and changes nothing else |
| ProductStore.Overwrite | src/products/products.service.ts:77-80 | an update by id fails with P2025 for a missing id and with P2002 exactly when the new name belongs to another row; otherwise only that row changes, it keeps its id, and the set of ids is unchanged |
| ProductQueries.Listing | src/products/products.service.ts:39-43 | the available products: as many rows as available ids, each stored and available, every available product present, ids ascending |
| ProductQueries.Window | src/products/products.service.ts:40-41 | skip/take: at most `take` rows, namely those at positions `skip`, `skip+1`, … of the listing |
| ProductQueries.CeilDiv | src/products/products.service.ts:45 | `Math.ceil(n / d)` characterised as the unique q with `n <= q*d < n + d`; 0 for n = 0 |
| ProductQueries.FindAll | src/products/products.service.ts:34-56 | `meta.page` echoes the request; `total` is the number of available products; `lastPage` is the ceiling of total / limit; `data` is the page's window of the available products, at most `limit` rows, all available and as stored |
| ProductQueries.PageNonEmptyIff | src/products/products.service.ts:40-45 | a page holds products exactly when its number is at most `lastPage` |
| ProductQueries.ListedOnSomePage | src/products/products.service.ts:37-45 | every available product appears on some page between 1 and `lastPage` |
| ProductQueries.ListedOnAtMostOnePage | src/products/products.service.ts:40-41 | no product appears on two different pages of the same limit |
| ProductQueries.FindOne | src/products/products.service.ts:58-69 | succeeds exactly when the id is stored and available, returning that row; otherwise fails with BAD_REQUEST and "Product with id #<id> not found" |
| ProductQueries.FindOneMatchesListing | src/products/products.service.ts:59 | `findOne` succeeds exactly for the ids that the listing of `findAll` contains |
| ProductQueries.Dedup | src/products/products.service.ts:97 | the same ids as the input, each exactly once |
| ProductQueries.CountMatchesIff | src/products/products.service.ts:106 | the number of stored rows found equals the number of distinct ids exactly when every id is stored |
| ProductQueries.FoundRows | src/products/products.service.ts:98-104 | the rows found for the distinct ids are stored rows whose ids were asked for, and every requested stored id is among them |
| ProductQueries.FoundCount | src/products/products.service.ts:97-106 | the count check passes exactly when every id is stored, and then the count is the number of distinct ids |
| ProductQueries.ValidateProducts | src/products/products.service.ts:96-114 | succeeds exactly when every id names a stored row, available or not; fails with BAD_REQUEST and "Some products were not found"; on success returns one stored row per distinct id, covering every id, in ascending id order |
| ProductCommands.CreateError | src/products/products.service.ts:19-30 | P2002 becomes BAD_REQUEST with the unique-constraint message; every other code becomes INTERNAL_SERVER_ERROR with "Internal Server Error" |
| ProductCommands.Create | src/products/products.service.ts:13-32 | fails exactly when the name is already used, with the unique-constraint BAD_REQUEST and the table unchanged; otherwise returns an available row with the payload's name and price under a fresh id, and the table gains exactly that row |
| ProductCommands.Update | src/products/products.service.ts:71-81 | an unavailable or missing id fails with `findOne`'s error and the table unchanged; otherwise it succeeds exactly when the new name (if any) is not another row's, failing with P2002 and the table unchanged; on success only that row changes, taking the payload's name and price where given and keeping its id and availability |
| ProductCommands.Remove | src/products/products.service.ts:83-94 | succeeds exactly when `findOne` does, and otherwise fails with its error and the table unchanged; on success the row becomes the same row with `available` false and nothing else changes |
| ProductCommands.CreateKeepsNamesUnique | src/products/products.service.ts:15-17 | after `create` no two rows share a name |
| ProductCommands.UpdateKeepsNamesUnique | src/products/products.service.ts:77-80 | after `update` no two rows share a name |
| ProductCommands.RemoveKeepsNamesUnique | src/products/products.service.ts:86-91 | after `remove` no two rows share a name |
| ProductCommands.CreateThenFindOne | src/products/products.service.ts:13-18 | a created product is returned by `findOne` under its new id |
| ProductCommands.CreateIncrementsTotal | src/products/products.service.ts:37 | a successful `create` raises `findAll`'s total by one |
| ProductCommands.RemoveHidesProduct | src/products/products.service.ts:83-94 | after a successful `remove`, `findOne`, `update` and a second `remove` of that id all fail with the not-found error and leave the table as it is |
| ProductCommands.RemoveDecrementsTotal | src/products/products.service.ts:86-91 | a successful `remove` lowers `findAll`'s total by one |
| ProductCommands.RemoveKeepsValidation | src/products/products.service.ts:98-104 | `validateProducts` has no `available` filter: whether a batch validates is the same before and after any `remove` |
| ProductCommands.RemovedNameStaysTaken | src/products/products.service.ts:85-91 | the soft delete keeps the row, so creating a product with a removed product's name still fails with the unique-constraint error |
| ProductCommands.UpdateIgnoresPayloadId | src/products/products.service.ts:73 | the `id` in the update payload has no effect on the result or the table |
| ProductCommands.WidgetLifecycle | src/products/products.service.ts:13-94 | on an empty table: create "Widget" gives row 1; page 1 of 10 lists it with total 1 and lastPage 1; removing it returns it unavailable; the listing is then empty with total 0 and lastPage 0, and `findOne(1)` fails |
| Service.ProductsService.constructor | src/products/products.service.ts:11 | the service starts on an empty table, whose unique index holds |
| Service.ProductsService.Create | src/products/products.service.ts:13-32 | the result and the new table are those of `ProductCommands.Create` on the old table; the unique index is kept |
| Service.ProductsService.Update | src/products/products.service.ts:71-81 | the result and the new table are those of `ProductCommands.Update` on the old table; the unique index is kept |
| Service.ProductsService.Remove | src/products/products.service.ts:83-94 | the result and the new table are those of `ProductCommands.Remove` on the old table; the unique index is kept |

## Left out

- The store itself is a parameter-free abstraction: ordering, id assignment and the unique index are the assumptions stated above. Prisma, its query engine and the database are not part of this model.
- Store faults other than the two constraint errors (lost connection, timeouts) are not modelled. The INTERNAL_SERVER_ERROR branch of `create` is therefore stated only through `ProductCommands.CreateError`.
- Asynchrony and concurrency: each operation is one atomic step. The gap between `findOne` and the write in `update` and `remove` is not modelled, and neither is a race between two calls.
- Dependency injection, `console.log` on a uniqueness violation, and the transport of errors as `RpcException` are left out. An error is the pair of status and message.
- Payload validation and defaults are left out. The payload classes are not part of this model. `findAll` requires `page >= 1` and `limit >= 1`, the bounds validation enforces upstream; the code would otherwise compute the offset verbatim. Create payloads are taken as name and price; update payloads as optional id, name and price. Extra columns passed through verbatim are not modelled.
- Prices are opaque reals. The service never computes with them, and floating point is not modelled.
- `ProductQueries.CeilDiv`: exact integer ceiling, not JavaScript's floating-point `Math.ceil` of a quotient, which can differ for counts beyond 2^53.
- The commented-out physical delete in `remove` is not modelled.
- `ProductQueries.Dedup`: does not state that the ids keep the order of their first occurrence. That order has no effect on the result, because the store returns rows in its own order.
- `ProductQueries.FindOne` returns the row stored under the id. Its contract does not model `findFirst` as a search, because the primary key makes the match unique.
