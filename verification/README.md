# Order placement: a verified model of `CreateOrderService.execute`

This project models the order-placement service of a small store API. A
customer asks for a list of `(product id, quantity)` lines. The service
checks that the customer exists, looks up all requested products in one
batch, rejects the request if any requested id is unknown, rejects it if any
line asks for more than the stock on hand, and otherwise creates an order
whose lines carry the catalog price, then writes a new stock level for every
line.

The model is functional. The customers repository is a `map<Id, Customer>`.
The products repository is the catalog as a `seq<Product>`; its batch lookup
`findAllById` is the sub-list of catalog entries whose id the request names.
The two writes, order creation and stock update, are not performed: they are
returned as the `writes` of an `Execution`, in the order the service issues
them, next to the result (`Success(order)` or `Failure(error)`).

Files:

- `wrappers.dfy` — `Option` and `Result`.
- `collections.dfy` — `Filter`, the array filter the service uses for both gates.
- `entities.dfy` — customers, products, request lines, order lines, orders, stock updates.
- `catalog.dfy` — the products repository's batch lookup `FindAllById`; `FindById`,
  the `find` the service runs on the batch answer (the first entry with an id);
  `Ids`; and the lemma that the batch answer agrees with the catalog on every
  requested id.
- `create_order.dfy` — `Execute`, the service itself, step by step.
- `order_properties.dfy` — the service's promises stated against the catalog:
  which error each rejected request gets, and what an accepted request writes.

Three behaviours of the service worth knowing:

- A request with no lines is accepted. It creates an order with no lines and an
  empty stock update (`EmptyRequestAccepted`).
- Lines for the same product are not summed. Each is checked and decremented
  against the stock before the order, so two lines can together order more than
  is on hand (`DuplicateLinesNotSummed`, `DuplicateLinesCanOversell`).
- Requested quantities are not checked for positivity. A negative quantity
  passes the sufficiency gate and raises the stock (`NegativeQuantityRaisesStock`).

## Model

| member | source | states |
|---|---|---|
| Collections.Filter | src/modules/orders/services/CreateOrderService.ts:41-43 | The filtered list holds exactly the elements that satisfy the predicate, and is empty exactly when no element does. |
| Collections.FilterFirst | src/modules/orders/services/CreateOrderService.ts:41-47 | The first element of a filtered list is the first element of the input, in input order, that satisfies the predicate. |
| Catalog.FindById | src/modules/orders/services/CreateOrderService.ts:53 | The search finds nothing exactly when no entry has the id. Otherwise it returns the first entry in list order that has the id. |
| Catalog.Ids | src/modules/orders/services/CreateOrderService.ts:39 | An id is among the returned ids exactly when some entry carries it. |
| Catalog.FindAllById | src/modules/orders/services/CreateOrderService.ts:38 | The batch lookup returns exactly the catalog entries whose id the request names. |
| Catalog.FindByIdThroughFilter | src/modules/orders/services/CreateOrderService.ts:38 | Searching a filtered list for an id gives the same answer as searching the whole list, if the filter keeps every entry with that id. |
| Catalog.FindAllByIdAgrees | src/modules/orders/services/CreateOrderService.ts:38-39 | For each requested id, the batch answer knows the id exactly when the catalog does, and yields the same entry. |
| CreateOrder.QuantityOrZero | src/modules/orders/services/CreateOrderService.ts:53 | The stock is 0 when no found product has the id. Otherwise it is the stock of the first found product with that id. |
| CreateOrder.PriceOrZero | src/modules/orders/services/CreateOrderService.ts:66 | The price is 0 when no found product has the id. Otherwise it is the price of the first found product with that id. |
| CreateOrder.Serialize | src/modules/orders/services/CreateOrderService.ts:63-67 | There is one order line per request line, in order, carrying that line's product id and quantity, and the price of the first found product with that id, or 0 when none has it. |
| CreateOrder.OrderedQuantities | src/modules/orders/services/CreateOrderService.ts:74-79 | There is one stock update per request line, in order, for that line's product id. Its level is the stock the sufficiency filter compared against, minus the line's quantity, so a line that was not short gets a level of zero or more. |
| CreateOrder.Execute | src/modules/orders/services/CreateOrderService.ts:31-84 | A call writes nothing exactly when it fails. It fails with the customer error exactly when the customer is unknown. On success, the order belongs to the looked-up customer, and the writes are the order creation and then one stock update. |
| OrderProperties.LineView | src/modules/orders/services/CreateOrderService.ts:38-66 | A requested line counts as missing exactly when its id is not in the catalog. Otherwise it counts as short exactly when the catalog stock does not cover it, and the lookup in the batch answer yields the catalog's own entry and price. |
| OrderProperties.MissingIffUnregistered | src/modules/orders/services/CreateOrderService.ts:38-43 | Every requested line counts as missing exactly when its id is not in the catalog. |
| OrderProperties.ShortIffUncovered | src/modules/orders/services/CreateOrderService.ts:51-55 | With every id known, every requested line counts as short exactly when the catalog stock does not cover it. |
| OrderProperties.FirstUnregisteredReported | src/modules/orders/services/CreateOrderService.ts:38-49 | For a known customer, the first unknown id in request order is the one named in the error, whatever the other lines hold. Nothing is written. |
| OrderProperties.ExistenceCheckedFirst | src/modules/orders/services/CreateOrderService.ts:45-61 | For a known customer, if any requested id is unknown, the error names an unknown requested id, even when lines exceed the stock. Nothing is written. |
| OrderProperties.FirstInsufficientReported | src/modules/orders/services/CreateOrderService.ts:51-61 | For a known customer with every id known, the first line in request order that asks for more than its stock is reported with its quantity and id. Nothing is written. |
| OrderProperties.NoneMissingIffAllRegistered | src/modules/orders/services/CreateOrderService.ts:41-45 | The list of missing lines is empty exactly when every requested id is in the catalog. |
| OrderProperties.NoneShortIffAllCovered | src/modules/orders/services/CreateOrderService.ts:51-57 | When every id is known, the list of short lines is empty exactly when every line asks for at most its product's stock. |
| OrderProperties.SucceedsIffAccepted | src/modules/orders/services/CreateOrderService.ts:32-61 | The call succeeds, and writes anything, exactly when the customer exists, every id is known and every line is covered. |
| OrderProperties.SerializeFromCatalog | src/modules/orders/services/CreateOrderService.ts:63-67 | With every id known, the order lines match the request lines one to one, each with the catalog price of its product. |
| OrderProperties.OrderedQuantitiesFromCatalog | src/modules/orders/services/CreateOrderService.ts:74-79 | With every id known, each line's product is in the batch answer, and the stock levels match the request lines one to one, each the catalog stock minus the line's quantity. |
| OrderProperties.OrderSnapshotsCatalogPrices | src/modules/orders/services/CreateOrderService.ts:63-72 | An accepted request creates an order for the looked-up customer. Its lines match the request one to one and in order, with the requested id, the requested quantity and the catalog price. |
| OrderProperties.StockUpdatesPerLine | src/modules/orders/services/CreateOrderService.ts:74-81 | An accepted request writes one stock level per request line, in order. Each is the catalog stock minus that line's quantity, and none is negative. |
| OrderProperties.DuplicateLinesNotSummed | src/modules/orders/services/CreateOrderService.ts:51-79 | Two accepted lines for the same product each get a stock level computed from the stock before the order, not from each other. |
| OrderProperties.DuplicateLinesCanOversell | src/modules/orders/services/CreateOrderService.ts:51-79 | With five units on hand, two lines of three units are accepted, and both proposed stock levels are two. |
| OrderProperties.NegativeQuantityRaisesStock | src/modules/orders/services/CreateOrderService.ts:51-79 | In an accepted request, any line with a negative quantity gets a proposed stock level above the stock on hand. |
| OrderProperties.EmptyRequestAccepted | src/modules/orders/services/CreateOrderService.ts:41-81 | A known customer's request without lines creates an order with no lines and writes an empty stock update. |

## Left out

- Dependency injection and constructor wiring (lines 1-29): framework plumbing with no logic.
- Asynchrony: each repository call is modelled as an immediate value.
- Repository internals: how customers are found, how `findAllById` queries
  storage, how `create` stores an order and assigns its id, and how
  `updateQuantity` applies new stock levels. The model's `Order` has no
  stored id, and the stock updates are returned, not applied.
- Error messages: the `AppError` text is replaced by an `Error` datatype
  that carries the id, or the quantity and the id, the message would show.
- Atomicity and concurrency: the code has no transaction around the two
  writes, so a failure between them, and concurrent orders on one product,
  are outside this model.
- Floating point: prices are integers, since the service only copies them.
  Quantities are unbounded integers. The JavaScript `|| 0` defaults are
  modelled for integer values; `NaN` is not.
