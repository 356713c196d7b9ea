# Order creation, modelled in Dafny

This project models the order-creation use case of a Node.js/TypeORM sales
service (`CreateOrderService.execute`). Given a customer id and a list of
`(product id, quantity)` entries, the service:

1. looks the customer up and fails with "could not find any customer with the
   given id" when there is none;
2. resolves the requested products and fails with "some products does not
   exist" when fewer or more products come back than entries were requested;
3. walks the resolved products in the order the repository returned them, finds
   the first request entry with the same id, and fails with "insufficient
   quantity for product <id> on stock" for the first product whose stock minus
   the requested quantity would be negative;
4. builds one line item `(product_id, price, quantity)` per resolved product,
   capturing the product's current price;
5. computes each resolved product's new stock (its stock minus the quantity of
   the first line item with its id), writes the new levels, and then creates
   the order for the customer with those line items.

Everything lives in module `CreateOrderService` (`create_order_service.dfy`):

- Steps 1-5 before any write are pure functions. `SerializeProducts` is the
  `map` that builds line items and may throw. `UpdateProducts` is the `map`
  that computes new stock levels. `PlanOrder` is the whole validation, and it
  returns either an `OrderError` or an `OrderPlan` (customer, line items, stock
  updates). The two `filter(...)[0]` lookups are `FirstIndex`.
- The writes are in class `OrderStore`. It holds the products repository's
  stock (`stock: map<ProductId, int>`) and the orders repository's contents
  (`orders: seq<Order>`). `Execute` follows the source's sequence of steps. It
  is proved against `PlanOrder`: a failure writes nothing, and a success writes
  exactly the planned stock levels (`ApplyUpdates`) and then appends exactly
  one order with the resolved customer and the planned line items.
- The results of the two repository lookups are parameters of `Execute`. The
  customer lookup is an `Option<Customer>` and the product lookup is a
  `seq<Product>`.
- The lookup of the ordered entry at line 47 reads `.quantity` of `undefined`
  when no request entry has the product's id. `PlanOrder` and `Execute`
  therefore require `AllRequested`: once both checks have passed, every
  resolved product's id occurs in the request.
- Prices and quantities are JavaScript numbers. They are modelled as
  unbounded `int`, so a requested quantity may be zero or negative, as the
  source allows.

## Model

| member | source | states |
|---|---|---|
| `CreateOrderService.MessageInjective` | src/modules/orders/services/CreateOrderService.ts:34-55 | the three error messages are pairwise different, and the insufficient-stock message determines the product id it names |
| `CreateOrderService.Message` | src/modules/orders/services/CreateOrderService.ts:35-53 | the three error texts; each kind ends in its own letter, and the insufficient-stock text carries the product id right after its fixed prefix |
| `CreateOrderService.FirstIndex` | src/modules/orders/services/CreateOrderService.ts:47 | the index `filter(pred)[0]` reads: no earlier element matches, and the element at the index matches unless the index is past the end |
| `CreateOrderService.RequestedQuantity` | src/modules/orders/services/CreateOrderService.ts:47-49 | the quantity used for a product is that of the request entry with its id that has no earlier entry with the same id |
| `CreateOrderService.RequestedQuantityIsFirstEntry` | src/modules/orders/services/CreateOrderService.ts:47 | the ordered quantity for a product is the quantity of the first request entry with that id |
| `CreateOrderService.SerializeProducts` | src/modules/orders/services/CreateOrderService.ts:46-62 | on success there is one line item per resolved product, in the same order, with the product's id, its price and the quantity of the first request entry for it |
| `CreateOrderService.SerializeSucceedsIff` | src/modules/orders/services/CreateOrderService.ts:46-55 | building the line items succeeds exactly when no resolved product's stock minus its requested quantity is negative |
| `CreateOrderService.SerializeFailsAtFirstShortfall` | src/modules/orders/services/CreateOrderService.ts:46-55 | when building the line items fails, the error is the insufficient-stock error for the first short product in resolved order |
| `CreateOrderService.SerializedItemsConsistent` | src/modules/orders/services/CreateOrderService.ts:46-62 | the built line items carry the resolved products' ids in order, line items with the same id carry the same quantity, and no product's stock minus its line item's quantity is negative |
| `CreateOrderService.UpdateProducts` | src/modules/orders/services/CreateOrderService.ts:64-69 | one update per resolved product, in order, with its id; when the line items are the ones built for these products, the i-th update is the i-th product's stock minus the i-th line item's quantity (the first line item with that id), and it is never negative |
| `CreateOrderService.PlanOrder` | src/modules/orders/services/CreateOrderService.ts:31-69 | an unknown customer gives UnknownCustomer whatever else is wrong; otherwise a count mismatch gives MissingProducts before any stock check; success holds exactly when both checks pass and no product is short; once both checks pass, every failure is an insufficient-stock error, and that error names the first short product; on success the plan carries the resolved customer, one line item per product (id, price snapshot, first requested quantity) and updates with the same ids in the same order, each equal to old stock minus the line item's quantity and non-negative |
| `CreateOrderService.ExactStockAllowed` | src/modules/orders/services/CreateOrderService.ts:49-51 | ordering exactly the stock on hand passes the check and leaves that product's planned stock at 0 |
| `CreateOrderService.UpdatesCoverResolvedIds` | src/modules/orders/services/CreateOrderService.ts:64-69 | the ids the plan writes are exactly the ids of the resolved products |
| `CreateOrderService.ApplyUpdates` | src/modules/orders/services/CreateOrderService.ts:71 | the stock after the batch write holds the old ids plus the written ones, and every id not written keeps its old level |
| `CreateOrderService.LastWriteWins` | src/modules/orders/services/CreateOrderService.ts:71 | after the batch write, an id holds the level of the last update that writes it |
| `CreateOrderService.DistinctWrites` | src/modules/orders/services/CreateOrderService.ts:71 | writing updates with distinct ids that are already present sets each one to its level, adds no id and changes no other entry |
| `CreateOrderService.StockReducedByOrder` | src/modules/orders/services/CreateOrderService.ts:64-71 | when the resolved products are the store's current records with distinct ids, each product's stock goes down by exactly its line item's quantity and no other product's stock changes |
| `CreateOrderService.NonNegativeUpdatesKeepStock` | src/modules/orders/services/CreateOrderService.ts:49-55 | writing only non-negative levels keeps a store with no negative stock free of negative stock |
| `CreateOrderService.OrderStore.UpdateQuantity` | src/modules/orders/services/CreateOrderService.ts:71 | the products repository's write: the stock becomes the old stock with the updates applied in order, and the orders are untouched |
| `CreateOrderService.OrderStore.CreateOrder` | src/modules/orders/services/CreateOrderService.ts:73-76 | the created order has the given customer and line items and is appended to the orders, and the stock is untouched |
| `CreateOrderService.OrderStore.Execute` | src/modules/orders/services/CreateOrderService.ts:31-77 | on any failure it returns that error and changes neither stock nor orders; on success it writes exactly the planned stock levels and then appends one order with the resolved customer and exactly the planned line items, which it returns; no stock goes negative if none was negative before |

## Left out

- Dependency injection and the decorators are wiring and are not modelled. Neither is the service's constructor.
- The async/await sequencing is not modelled. The awaited calls are ordinary sequential steps.
- The repository implementations are foreign code. The results of `findById` and `findAllById` are parameters of `Execute`. Nothing relates the resolved products to the store's stock map, except the hypothesis of `StockReducedByOrder`.
- The repository write `updateQuantity` is assumed to write the levels one after the other. So for a repeated id the last write wins.
- The repository method `create` is modelled as appending an `Order` value. The TypeORM entity's generated id and timestamps are not modelled.
- No transaction or rollback is modelled, because the source has none. Two orders racing for the same stock are not modelled either.
- The `TypeError` that line 47 raises when a resolved product's id is not in the request is not modelled. `PlanOrder` and `Execute` exclude it with the `AllRequested` precondition.
- JavaScript `number` semantics (floating point, NaN) are not modelled. Prices and quantities are integers.
- `AppError` internals such as the status code are not modelled. Errors are the `OrderError` datatype, and `Message` gives each one's text.
