/**
 The order-creation use case of the orders module: check the customer, check that
 every requested product was resolved, check stock product by product, snapshot
 prices into line items, compute the new stock levels, write them and create the
 order.

 The validation and the stock arithmetic are pure functions (`PlanOrder` and the
 functions below it). The effectful sequence that writes stock and records the
 order is `OrderStore.Execute`, over a store holding the stock map and the list
 of created orders.
 */
module CreateOrderService {

  type ProductId = string
  type CustomerId = string

  datatype Option<T> = None | Some(value: T)
  datatype Result<T, E> = Success(value: T) | Failure(error: E)

  /** A customer as the customers repository returns it; only its identity is used. */
  datatype Customer = Customer(id: CustomerId)

  /** A product as the products repository returns it; `quantity` is the stock on hand. */
  datatype Product = Product(id: ProductId, price: int, quantity: int)

  /** One entry of the request: which product, and how many of it. */
  datatype RequestedProduct = RequestedProduct(id: ProductId, quantity: int)

  /** A line of the order, with the product's price captured at creation time. */
  datatype LineItem = LineItem(productId: ProductId, price: int, quantity: int)

  /** The new stock level to be written for one product. */
  datatype StockUpdate = StockUpdate(id: ProductId, quantity: int)

  datatype Order = Order(customer: Customer, products: seq<LineItem>)

  /** What a successful validation hands to the writing steps. */
  datatype OrderPlan = OrderPlan(customer: Customer, lineItems: seq<LineItem>, updates: seq<StockUpdate>)

  /** The three failures the use case reports, all as the same application error. */
  datatype OrderError = UnknownCustomer | MissingProducts | InsufficientStock(productId: ProductId)

  const InsufficientPrefix: string := "insufficient quantity for product "
  const InsufficientSuffix: string := " on stock"

  /** The message the application error carries. Each kind of failure ends
      in its own letter, and the insufficient-stock message spells out the
      product id right after its fixed prefix. */
  function Message(e: OrderError): (m: string)
    ensures |m| > 0 && m[|m| - 1] == LastLetter(e)
    ensures e.InsufficientStock? ==>
      |m| == |InsufficientPrefix| + |e.productId| + |InsufficientSuffix| &&
      m[|InsufficientPrefix|..|InsufficientPrefix| + |e.productId|] == e.productId
  {
    match e
    case UnknownCustomer => "could not find any customer with the given id"
    case MissingProducts => "some products does not exist"
    case InsufficientStock(id) => InsufficientPrefix + id + InsufficientSuffix
  }

  /** Different failures carry different messages; in particular the
      insufficient-stock message determines the product it names. */
  lemma MessageInjective(a: OrderError, b: OrderError)
    requires Message(a) == Message(b)
    ensures a == b
  {
    if a.InsufficientStock? && b.InsufficientStock? {
      assert |a.productId| == |b.productId|;
    }
  }

  /** The letter each message ends with, one per kind of failure. */
  function LastLetter(e: OrderError): (c: char)
  {
    match e
    case UnknownCustomer => 'd'
    case MissingProducts => 't'
    case InsufficientStock(_) => 'k'
  }

  /** Index of the first element of `s` that satisfies `matches`, or |s| when
      there is none: what `filter(matches)[0]` looks at. */
  function FirstIndex<T>(s: seq<T>, matches: T -> bool): (k: nat)
    ensures k <= |s|
    ensures forall j :: 0 <= j < k ==> !matches(s[j])
    ensures k < |s| ==> matches(s[k])
  {
    if s == [] then 0
    else if matches(s[0]) then 0
    else 1 + FirstIndex(s[1..], matches)
  }

  /** Some entry of the request names product `id`. */
  predicate Requests(requested: seq<RequestedProduct>, id: ProductId)
  {
    exists i :: 0 <= i < |requested| && requested[i].id == id
  }

  /** Every resolved product was asked for; without it the lookup of the
      ordered entry has nothing to read. */
  predicate AllRequested(requested: seq<RequestedProduct>, available: seq<Product>)
  {
    forall i :: 0 <= i < |available| ==> Requests(requested, available[i].id)
  }

  /** Where the request entry the stock check reads for product `id` sits. */
  function RequestIndex(requested: seq<RequestedProduct>, id: ProductId): (k: nat)
  {
    FirstIndex(requested, (r: RequestedProduct) => r.id == id)
  }

  /** No request entry before index `i` names product `id`. */
  predicate NoEarlierEntry(requested: seq<RequestedProduct>, id: ProductId, i: int)
  {
    forall j :: 0 <= j < i && j < |requested| ==> requested[j].id != id
  }

  /** The quantity ordered for product `id`: that of the first request entry
      with its id. */
  function RequestedQuantity(requested: seq<RequestedProduct>, id: ProductId): (q: int)
    requires Requests(requested, id)
    ensures forall i :: 0 <= i < |requested| && requested[i].id == id && NoEarlierEntry(requested, id, i)
                        ==> q == requested[i].quantity
  {
    requested[RequestIndex(requested, id)].quantity
  }

  /** The quantity ordered for a product is that of the first request entry
      with its id. */
  lemma RequestedQuantityIsFirstEntry(requested: seq<RequestedProduct>, id: ProductId)
    requires Requests(requested, id)
    ensures exists i :: 0 <= i < |requested| && requested[i] == RequestedProduct(id, RequestedQuantity(requested, id))
                        && forall j :: 0 <= j < i ==> requested[j].id != id
  {
    var k := RequestIndex(requested, id);
    assert requested[k] == RequestedProduct(id, RequestedQuantity(requested, id));
  }

  /** Ordering the requested quantity of `p` would leave a negative stock. */
  predicate Shortfall(requested: seq<RequestedProduct>, p: Product)
  {
    Requests(requested, p.id) && p.quantity - RequestedQuantity(requested, p.id) < 0
  }

  /** The line item for resolved product `p`. */
  function LineItemFor(requested: seq<RequestedProduct>, p: Product): (li: LineItem)
    requires Requests(requested, p.id)
  {
    LineItem(p.id, p.price, RequestedQuantity(requested, p.id))
  }

  /** The line items, one per resolved product in its order, or the
      insufficient-stock failure of the first product whose stock is short. */
  function SerializeProducts(requested: seq<RequestedProduct>, available: seq<Product>)
    : (r: Result<seq<LineItem>, OrderError>)
    requires AllRequested(requested, available)
    ensures r.Success? ==>
      |r.value| == |available| &&
      forall i :: 0 <= i < |available| ==> r.value[i] == LineItemFor(requested, available[i])
  {
    if available == [] then Success([])
    else
      var p := available[0];
      assert Requests(requested, p.id);
      if p.quantity - RequestedQuantity(requested, p.id) < 0 then
        Failure(InsufficientStock(p.id))
      else
        assert AllRequested(requested, available[1..]);
        match SerializeProducts(requested, available[1..])
        case Failure(e) =>
          Failure(e)
        case Success(rest) =>
          Success([LineItemFor(requested, p)] + rest)
  }

  /** Building the line items succeeds exactly when no resolved product is short. */
  lemma {:induction false} SerializeSucceedsIff(requested: seq<RequestedProduct>, available: seq<Product>)
    requires AllRequested(requested, available)
    ensures SerializeProducts(requested, available).Success?
            <==> forall i :: 0 <= i < |available| ==> !Shortfall(requested, available[i])
  {
    if available != [] {
      var p, tail := available[0], available[1..];
      assert Requests(requested, p.id);
      if !Shortfall(requested, p) {
        assert AllRequested(requested, tail);
        SerializeSucceedsIff(requested, tail);
        if SerializeProducts(requested, tail).Success? {
          forall i | 0 < i < |available| ensures !Shortfall(requested, available[i]) {
            assert available[i] == tail[i - 1];
          }
        } else {
          var k :| 0 <= k < |tail| && Shortfall(requested, tail[k]);
          assert available[k + 1] == tail[k];
        }
      }
    }
  }

  /** When building the line items fails, the error names the first short
      product in resolved order. */
  lemma {:induction false} SerializeFailsAtFirstShortfall(requested: seq<RequestedProduct>, available: seq<Product>)
    requires AllRequested(requested, available)
    requires SerializeProducts(requested, available).Failure?
    ensures exists k :: 0 <= k < |available| && Shortfall(requested, available[k])
                        && SerializeProducts(requested, available).error == InsufficientStock(available[k].id)
                        && forall j :: 0 <= j < k ==> !Shortfall(requested, available[j])
  {
    var p, tail := available[0], available[1..];
    assert Requests(requested, p.id);
    if !Shortfall(requested, p) {
      assert AllRequested(requested, tail);
      SerializeFailsAtFirstShortfall(requested, tail);
      var e := SerializeProducts(requested, available).error;
      var k :| 0 <= k < |tail| && Shortfall(requested, tail[k])
               && e == InsufficientStock(tail[k].id)
               && forall j :: 0 <= j < k ==> !Shortfall(requested, tail[j]);
      assert available[k + 1] == tail[k];
      forall j | 0 < j < k + 1 ensures !Shortfall(requested, available[j]) {
        assert available[j] == tail[j - 1];
      }
    }
  }

  /** Some line item is for product `id`. */
  predicate HasLineItem(items: seq<LineItem>, id: ProductId)
  {
    exists j :: 0 <= j < |items| && items[j].productId == id
  }

  /** Each resolved product has a line item with its id. */
  predicate Covered(available: seq<Product>, items: seq<LineItem>)
  {
    forall i :: 0 <= i < |available| ==> HasLineItem(items, available[i].id)
  }

  /** Where the line item the stock update reads for product `id` sits. */
  function LineIndex(items: seq<LineItem>, id: ProductId): (k: nat)
  {
    FirstIndex(items, (li: LineItem) => li.productId == id)
  }

  /** What the stock update needs of the line items: one per resolved
      product with its id, line items with the same id agree on the
      quantity, and no product is short. */
  predicate ConsistentItems(available: seq<Product>, items: seq<LineItem>)
  {
    && |items| == |available|
    && (forall i :: 0 <= i < |available| ==>
          items[i].productId == available[i].id && available[i].quantity - items[i].quantity >= 0)
    && (forall i, k :: 0 <= i < |items| && 0 <= k < |items| && items[i].productId == items[k].productId
          ==> items[i].quantity == items[k].quantity)
  }

  /** The line items `SerializeProducts` builds are consistent. */
  lemma SerializedItemsConsistent(requested: seq<RequestedProduct>, available: seq<Product>, items: seq<LineItem>)
    requires AllRequested(requested, available)
    requires SerializeProducts(requested, available) == Success(items)
    ensures ConsistentItems(available, items)
  {
    SerializeSucceedsIff(requested, available);
    forall i | 0 <= i < |available|
      ensures items[i] == LineItemFor(requested, available[i])
      ensures available[i].quantity - items[i].quantity >= 0
    {
      assert !Shortfall(requested, available[i]);
    }
  }

  /** Consistent line items cover every resolved product. */
  lemma ConsistentItemsCover(available: seq<Product>, items: seq<LineItem>)
    requires ConsistentItems(available, items)
    ensures Covered(available, items)
  {
    forall i | 0 <= i < |available| ensures HasLineItem(items, available[i].id) {
      assert items[i].productId == available[i].id;
    }
  }

  /** The new stock of each resolved product: its stock minus the quantity of
      the first line item for it. Over consistent line items that is the i-th
      line item, and the new stock is never negative. */
  function UpdateProducts(available: seq<Product>, items: seq<LineItem>): (r: seq<StockUpdate>)
    requires Covered(available, items)
    ensures |r| == |available|
    ensures forall i :: 0 <= i < |available| ==> r[i].id == available[i].id
    ensures ConsistentItems(available, items) ==>
      forall i :: 0 <= i < |available| ==>
        r[i].quantity == available[i].quantity - items[i].quantity && r[i].quantity >= 0
  {
    seq(|available|, i requires 0 <= i < |available| =>
      StockUpdate(available[i].id, available[i].quantity - items[LineIndex(items, available[i].id)].quantity))
  }

  /** The whole validation of `execute`, before anything is written: the
      customer check, the product-count check, the per-product stock check,
      then the line items and the stock updates. */
  function PlanOrder(customer: Option<Customer>, requested: seq<RequestedProduct>, available: seq<Product>)
    : (r: Result<OrderPlan, OrderError>)
    requires customer.Some? && |available| == |requested| ==> AllRequested(requested, available)
    ensures customer.None? ==> r == Failure(UnknownCustomer)
    ensures customer.Some? && |available| != |requested| ==> r == Failure(MissingProducts)
    ensures r.Success? <==>
      customer.Some? && |available| == |requested| &&
      forall i :: 0 <= i < |available| ==> !Shortfall(requested, available[i])
    ensures customer.Some? && |available| == |requested| && r.Failure? ==> r.error.InsufficientStock?
    ensures r.Failure? && r.error.InsufficientStock? ==>
      customer.Some? && |available| == |requested| &&
      exists k :: 0 <= k < |available| && Shortfall(requested, available[k])
                  && r.error.productId == available[k].id
                  && forall j :: 0 <= j < k ==> !Shortfall(requested, available[j])
    ensures r.Success? ==>
      r.value.customer == customer.value &&
      |r.value.lineItems| == |available| && |r.value.updates| == |available| &&
      forall i :: 0 <= i < |available| ==>
        && r.value.lineItems[i].productId == available[i].id
        && r.value.lineItems[i].price == available[i].price
        && r.value.lineItems[i].quantity == RequestedQuantity(requested, available[i].id)
        && r.value.updates[i].id == available[i].id
        && r.value.updates[i].quantity == available[i].quantity - r.value.lineItems[i].quantity
        && r.value.updates[i].quantity >= 0
  {
    if customer.None? then Failure(UnknownCustomer)
    else if |available| != |requested| then Failure(MissingProducts)
    else
      SerializeSucceedsIff(requested, available);
      match SerializeProducts(requested, available)
      case Failure(e) =>
        SerializeFailsAtFirstShortfall(requested, available);
        Failure(e)
      case Success(items) =>
        SerializedItemsConsistent(requested, available, items);
        ConsistentItemsCover(available, items);
        Success(OrderPlan(customer.value, items, UpdateProducts(available, items)))
  }

  /** Ordering exactly the stock on hand is accepted and leaves that product at 0. */
  lemma ExactStockAllowed(customer: Customer, requested: seq<RequestedProduct>, available: seq<Product>, i: nat)
    requires |available| == |requested| && AllRequested(requested, available)
    requires forall j :: 0 <= j < |available| && j != i ==> !Shortfall(requested, available[j])
    requires i < |available| && available[i].quantity == RequestedQuantity(requested, available[i].id)
    ensures PlanOrder(Some(customer), requested, available).Success?
    ensures PlanOrder(Some(customer), requested, available).value.updates[i].quantity == 0
  {
    assert !Shortfall(requested, available[i]);
  }

  /** The ids a list of updates writes. */
  function UpdatedIds(updates: seq<StockUpdate>): (ids: set<ProductId>)
  {
    set u | u in updates :: u.id
  }

  /** The product store after writing `updates` one after the other. */
  function ApplyUpdates(stock: map<ProductId, int>, updates: seq<StockUpdate>): (r: map<ProductId, int>)
    ensures r.Keys == stock.Keys + UpdatedIds(updates)
    ensures forall id :: id in stock && id !in UpdatedIds(updates) ==> r[id] == stock[id]
    decreases |updates|
  {
    if updates == [] then stock
    else
      var u := updates[0];
      assert UpdatedIds(updates) == {u.id} + UpdatedIds(updates[1..]) by {
        assert forall v :: v in updates <==> v == u || v in updates[1..];
      }
      ApplyUpdates(stock[u.id := u.quantity], updates[1..])
  }

  /** An id holds the level of the last update that writes it. */
  lemma {:induction false} LastWriteWins(stock: map<ProductId, int>, updates: seq<StockUpdate>, i: nat)
    requires i < |updates|
    requires forall j :: i < j < |updates| ==> updates[j].id != updates[i].id
    ensures updates[i].id in ApplyUpdates(stock, updates)
    ensures ApplyUpdates(stock, updates)[updates[i].id] == updates[i].quantity
    decreases |updates|
  {
    var u := updates[0];
    if i == 0 {
      assert updates[0] in updates;
      assert u.id !in UpdatedIds(updates[1..]);
    } else {
      LastWriteWins(stock[u.id := u.quantity], updates[1..], i - 1);
    }
  }

  /** No two resolved products share an id. */
  predicate DistinctIds(available: seq<Product>)
  {
    forall i, j :: 0 <= i < j < |available| ==> available[i].id != available[j].id
  }

  /** The ids the plan's updates write are exactly the resolved products' ids. */
  lemma UpdatesCoverResolvedIds(customer: Customer, requested: seq<RequestedProduct>, available: seq<Product>)
    requires |available| == |requested| && AllRequested(requested, available)
    requires PlanOrder(Some(customer), requested, available).Success?
    ensures UpdatedIds(PlanOrder(Some(customer), requested, available).value.updates)
            == set p | p in available :: p.id
  {
    var updates := PlanOrder(Some(customer), requested, available).value.updates;
    forall id | id in UpdatedIds(updates) ensures id in set p | p in available :: p.id {
      var u :| u in updates && u.id == id;
      var i :| 0 <= i < |updates| && updates[i] == u;
      assert available[i] in available;
    }
    forall id | id in (set p | p in available :: p.id) ensures id in UpdatedIds(updates) {
      var p :| p in available && p.id == id;
      var i :| 0 <= i < |available| && available[i] == p;
      assert updates[i] in updates;
    }
  }

  /** When the resolved products are the store's current records and their ids
      are distinct, writing the plan's updates lowers each ordered product's
      stock by exactly its line item's quantity and leaves every other
      product's stock as it was. */
  lemma StockReducedByOrder(stock: map<ProductId, int>, customer: Customer,
                            requested: seq<RequestedProduct>, available: seq<Product>)
    requires |available| == |requested| && AllRequested(requested, available)
    requires DistinctIds(available)
    requires forall i :: 0 <= i < |available| ==>
      available[i].id in stock && stock[available[i].id] == available[i].quantity
    requires PlanOrder(Some(customer), requested, available).Success?
    ensures var plan := PlanOrder(Some(customer), requested, available).value;
      var after := ApplyUpdates(stock, plan.updates);
      && after.Keys == stock.Keys
      && (forall i :: 0 <= i < |available| ==>
            after[available[i].id] == stock[available[i].id] - plan.lineItems[i].quantity)
      && (forall id :: id in stock && (forall i :: 0 <= i < |available| ==> available[i].id != id)
            ==> after[id] == stock[id])
  {
    var plan := PlanOrder(Some(customer), requested, available).value;
    var updates := plan.updates;
    assert |updates| == |available|;
    assert forall i :: 0 <= i < |available| ==>
      updates[i].id == available[i].id &&
      updates[i].quantity == available[i].quantity - plan.lineItems[i].quantity;
    DistinctWrites(stock, updates);
  }

  /** Writing updates with distinct ids, all already in the store, sets each
      of them to its written level and touches no other entry. */
  lemma DistinctWrites(stock: map<ProductId, int>, updates: seq<StockUpdate>)
    requires forall i, j :: 0 <= i < j < |updates| ==> updates[i].id != updates[j].id
    requires forall i :: 0 <= i < |updates| ==> updates[i].id in stock
    ensures var after := ApplyUpdates(stock, updates);
      && after.Keys == stock.Keys
      && (forall i :: 0 <= i < |updates| ==> after[updates[i].id] == updates[i].quantity)
      && (forall id :: id in stock && (forall i :: 0 <= i < |updates| ==> updates[i].id != id)
            ==> after[id] == stock[id])
  {
    var after := ApplyUpdates(stock, updates);
    assert UpdatedIds(updates) <= stock.Keys;
    forall i | 0 <= i < |updates| ensures after[updates[i].id] == updates[i].quantity {
      LastWriteWins(stock, updates, i);
    }
    forall id | id in stock && (forall i :: 0 <= i < |updates| ==> updates[i].id != id)
      ensures after[id] == stock[id]
    {
      assert id !in UpdatedIds(updates);
    }
  }

  /** The state the repositories hold: stock per product id, and the orders created so far. */
  class OrderStore {
    var stock: map<ProductId, int>
    var orders: seq<Order>

    /** No product has negative stock. */
    ghost predicate NoNegativeStock()
      reads this
    {
      forall id :: id in stock ==> stock[id] >= 0
    }

    constructor (initialStock: map<ProductId, int>)
      ensures stock == initialStock && orders == []
    {
      stock := initialStock;
      orders := [];
    }

    /** The products repository's batch write of new stock levels. */
    method UpdateQuantity(updates: seq<StockUpdate>)
      modifies this`stock
      ensures stock == ApplyUpdates(old(stock), updates)
    {
      stock := ApplyUpdates(stock, updates);
    }

    /** The orders repository's create: records and returns the new order. */
    method CreateOrder(customer: Customer, items: seq<LineItem>) returns (order: Order)
      modifies this`orders
      ensures order == Order(customer, items)
      ensures orders == old(orders) + [order]
    {
      order := Order(customer, items);
      orders := orders + [order];
    }

    /** `execute`: `customer` and `available` are what the customer and product
        lookups returned for the request. On a failure nothing is written; on
        success the planned stock levels are written and then the order, for the
        resolved customer with exactly the planned line items, is created. */
    method Execute(customer: Option<Customer>, requested: seq<RequestedProduct>, available: seq<Product>)
      returns (r: Result<Order, OrderError>)
      requires customer.Some? && |available| == |requested| ==> AllRequested(requested, available)
      modifies this
      ensures PlanOrder(customer, requested, available).Failure? ==>
        && r == Failure(PlanOrder(customer, requested, available).error)
        && stock == old(stock) && orders == old(orders)
      ensures PlanOrder(customer, requested, available).Success? ==>
        var plan := PlanOrder(customer, requested, available).value;
        && r == Success(Order(plan.customer, plan.lineItems))
        && stock == ApplyUpdates(old(stock), plan.updates)
        && orders == old(orders) + [r.value]
      ensures old(NoNegativeStock()) ==> NoNegativeStock()
    {
      if customer.None? {
        return Failure(UnknownCustomer);
      }
      if |available| != |requested| {
        return Failure(MissingProducts);
      }
      var serialized := SerializeProducts(requested, available);
      if serialized.Failure? {
        return Failure(serialized.error);
      }
      var items := serialized.value;
      SerializedItemsConsistent(requested, available, items);
      ConsistentItemsCover(available, items);
      var updates := UpdateProducts(available, items);
      ghost var before := stock;
      UpdateQuantity(updates);
      NonNegativeUpdatesKeepStock(before, updates);
      var order := CreateOrder(customer.value, items);
      r := Success(order);
    }
  }

  /** Writing only non-negative levels keeps every stock non-negative. */
  lemma NonNegativeUpdatesKeepStock(stock: map<ProductId, int>, updates: seq<StockUpdate>)
    requires forall i :: 0 <= i < |updates| ==> updates[i].quantity >= 0
    ensures (forall id :: id in stock ==> stock[id] >= 0) ==>
            forall id :: id in ApplyUpdates(stock, updates) ==> ApplyUpdates(stock, updates)[id] >= 0
  {
    if (forall id :: id in stock ==> stock[id] >= 0) {
      var after := ApplyUpdates(stock, updates);
      forall id | id in after ensures after[id] >= 0 {
        if id in UpdatedIds(updates) {
          var u :| u in updates && u.id == id;
          var i :| 0 <= i < |updates| && updates[i] == u;
          var last := LastIndexOf(updates, id, i);
          LastWriteWins(stock, updates, last);
        }
      }
    }
  }

  /** The last update that writes `id`, found from a known one at `i`. */
  lemma LastIndexOf(updates: seq<StockUpdate>, id: ProductId, i: nat) returns (last: nat)
    requires i < |updates| && updates[i].id == id
    ensures i <= last < |updates| && updates[last].id == id
    ensures forall j :: last < j < |updates| ==> updates[j].id != id
    decreases |updates| - i
  {
    if exists j :: i < j < |updates| && updates[j].id == id {
      var j :| i < j < |updates| && updates[j].id == id;
      last := LastIndexOf(updates, id, j);
    } else {
      last := i;
    }
  }
}
