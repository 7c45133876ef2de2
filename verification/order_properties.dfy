/** What the order service promises, stated against the catalog itself rather
    than against the intermediate lists `Execute` builds: which request is
    rejected with which error, and what an accepted request writes. */
module OrderProperties {
  import opened Wrappers
  import opened Entities
  import opened Collections
  import opened Catalog
  import opened CreateOrder

  /** Every requested id is in the catalog. */
  predicate AllRegistered(catalog: seq<Product>, products: seq<ProductRequest>)
  {
    forall i :: 0 <= i < |products| ==> Registered(catalog, products[i].id)
  }

  /** The stock on hand of a registered product. */
  function Stock(catalog: seq<Product>, id: Id): int
    requires Registered(catalog, id)
  {
    FindById(catalog, id).value.quantity
  }

  /** The current catalog price of a registered product. */
  function Price(catalog: seq<Product>, id: Id): int
    requires Registered(catalog, id)
  {
    FindById(catalog, id).value.price
  }

  /** A line of a registered product asks for no more than the stock on hand. */
  predicate Covered(catalog: seq<Product>, line: ProductRequest)
    requires Registered(catalog, line.id)
  {
    line.quantity <= Stock(catalog, line.id)
  }

  /** Every line, taken on its own, is covered by the stock on hand. */
  predicate AllCovered(catalog: seq<Product>, products: seq<ProductRequest>)
    requires AllRegistered(catalog, products)
  {
    forall i :: 0 <= i < |products| ==> Covered(catalog, products[i])
  }

  /** The request passes all three gates. */
  predicate Accepted(request: Request, customers: map<Id, Customer>, catalog: seq<Product>)
  {
    && request.customerId in customers
    && AllRegistered(catalog, request.products)
    && AllCovered(catalog, request.products)
  }

  /** What the service sees of one requested line through the batch lookup is
      what the catalog holds for it: the line counts as missing exactly when
      its id is not in the catalog, and otherwise it counts as short exactly
      when the catalog stock does not cover it, and it finds the catalog's own
      entry and price. */
  lemma LineView(catalog: seq<Product>, products: seq<ProductRequest>, i: int)
    requires 0 <= i < |products|
    ensures var found := FindAllById(catalog, products);
            && (IsMissing(Ids(found))(products[i]) <==> !Registered(catalog, products[i].id))
            && (Registered(catalog, products[i].id) ==>
                  && (IsShort(found)(products[i]) <==> !Covered(catalog, products[i]))
                  && FindById(found, products[i].id) == FindById(catalog, products[i].id)
                  && PriceOrZero(found, products[i].id) == Price(catalog, products[i].id))
  {
    assert products[i] in products;
    FindAllByIdAgrees(catalog, products, products[i].id);
  }

  /** A requested line counts as missing exactly when its id is not in the
      catalog. */
  lemma MissingIffUnregistered(catalog: seq<Product>, products: seq<ProductRequest>)
    ensures var missingLine := IsMissing(Ids(FindAllById(catalog, products)));
            forall i :: 0 <= i < |products| ==>
              (missingLine(products[i]) <==> !Registered(catalog, products[i].id))
  {
    forall i | 0 <= i < |products| {
      LineView(catalog, products, i);
    }
  }

  /** With every id known, a requested line counts as short exactly when the
      catalog stock does not cover it. */
  lemma ShortIffUncovered(catalog: seq<Product>, products: seq<ProductRequest>)
    requires AllRegistered(catalog, products)
    ensures var shortLine := IsShort(FindAllById(catalog, products));
            forall i :: 0 <= i < |products| ==>
              (shortLine(products[i]) <==> !Covered(catalog, products[i]))
  {
    forall i | 0 <= i < |products| {
      LineView(catalog, products, i);
    }
  }

  /** The existence gate lets a request through exactly when every requested
      id is in the catalog. */
  lemma NoneMissingIffAllRegistered(catalog: seq<Product>, products: seq<ProductRequest>)
    ensures var found := FindAllById(catalog, products);
            |Filter(products, IsMissing(Ids(found)))| == 0 <==> AllRegistered(catalog, products)
  {
    MissingIffUnregistered(catalog, products);
  }

  /** With every id known, the sufficiency gate lets a request through exactly
      when every line is covered by its product's stock. */
  lemma NoneShortIffAllCovered(catalog: seq<Product>, products: seq<ProductRequest>)
    requires AllRegistered(catalog, products)
    ensures var found := FindAllById(catalog, products);
            |Filter(products, IsShort(found))| == 0 <==> AllCovered(catalog, products)
  {
    ShortIffUncovered(catalog, products);
  }

  /** An unknown requested id is reported ahead of everything after it: the
      first unknown id in request order is the one named, whatever the other
      lines hold, and nothing is written. */
  lemma FirstUnregisteredReported(request: Request, customers: map<Id, Customer>, catalog: seq<Product>, k: int)
    requires request.customerId in customers
    requires 0 <= k < |request.products|
    requires !Registered(catalog, request.products[k].id)
    requires forall j :: 0 <= j < k ==> Registered(catalog, request.products[j].id)
    ensures Execute(request, customers, catalog) ==
            Execution(Failure(NotRegistered(request.products[k].id)), [])
  {
    var products := request.products;
    MissingIffUnregistered(catalog, products);
    FilterFirst(products, IsMissing(Ids(FindAllById(catalog, products))), k);
  }

  /** The existence gate runs before the sufficiency gate: as soon as one
      requested id is unknown, the error names an unknown requested id, however
      many lines ask for more than the stock. */
  lemma ExistenceCheckedFirst(request: Request, customers: map<Id, Customer>, catalog: seq<Product>, k: int)
    requires request.customerId in customers
    requires 0 <= k < |request.products|
    requires !Registered(catalog, request.products[k].id)
    ensures var e := Execute(request, customers, catalog);
            && e.writes == []
            && e.result.Failure? && e.result.error.NotRegistered?
            && e.result.error.id in RequestedIds(request.products)
            && !Registered(catalog, e.result.error.id)
  {
    var products := request.products;
    var missingLine := IsMissing(Ids(FindAllById(catalog, products)));
    MissingIffUnregistered(catalog, products);
    var missing := Filter(products, missingLine);
    assert |missing| > 0;
    assert missing[0] in products;
  }

  /** With every id known, the first line in request order that asks for more
      than its product's stock is reported with its quantity and id, and
      nothing is written. */
  lemma FirstInsufficientReported(request: Request, customers: map<Id, Customer>, catalog: seq<Product>, k: int)
    requires request.customerId in customers
    requires AllRegistered(catalog, request.products)
    requires 0 <= k < |request.products|
    requires !Covered(catalog, request.products[k])
    requires forall j :: 0 <= j < k ==> Covered(catalog, request.products[j])
    ensures Execute(request, customers, catalog) ==
            Execution(Failure(InsufficientQuantity(request.products[k].quantity, request.products[k].id)), [])
  {
    var products := request.products;
    NoneMissingIffAllRegistered(catalog, products);
    ShortIffUncovered(catalog, products);
    FilterFirst(products, IsShort(FindAllById(catalog, products)), k);
  }

  /** The service succeeds exactly when the request passes all three gates;
      only then does it write anything. */
  lemma SucceedsIffAccepted(request: Request, customers: map<Id, Customer>, catalog: seq<Product>)
    ensures Execute(request, customers, catalog).result.Success? <==> Accepted(request, customers, catalog)
    ensures Execute(request, customers, catalog).writes != [] <==> Accepted(request, customers, catalog)
  {
    if request.customerId in customers {
      NoneMissingIffAllRegistered(catalog, request.products);
      if AllRegistered(catalog, request.products) {
        NoneShortIffAllCovered(catalog, request.products);
      }
    }
  }

  /** With every id known, the order lines built from the batch answer carry
      the catalog's prices. */
  lemma SerializeFromCatalog(catalog: seq<Product>, products: seq<ProductRequest>)
    requires AllRegistered(catalog, products)
    ensures var lines := Serialize(products, FindAllById(catalog, products));
            && |lines| == |products|
            && forall i :: 0 <= i < |products| ==>
                 lines[i] == OrderLine(products[i].id, products[i].quantity, Price(catalog, products[i].id))
  {
    var found := FindAllById(catalog, products);
    forall i | 0 <= i < |products|
      ensures PriceOrZero(found, products[i].id) == Price(catalog, products[i].id)
    {
      LineView(catalog, products, i);
    }
  }

  /** With every id known, the stock levels computed from the batch answer
      are the catalog's stock minus each line's quantity. */
  lemma OrderedQuantitiesFromCatalog(catalog: seq<Product>, products: seq<ProductRequest>)
    requires AllRegistered(catalog, products)
    ensures var found := FindAllById(catalog, products);
            && (forall i :: 0 <= i < |products| ==> Registered(found, products[i].id))
            && |OrderedQuantities(products, found)| == |products|
            && forall i :: 0 <= i < |products| ==>
                 OrderedQuantities(products, found)[i] ==
                 StockUpdate(products[i].id, Stock(catalog, products[i].id) - products[i].quantity)
  {
    var found := FindAllById(catalog, products);
    forall i | 0 <= i < |products|
      ensures FindById(found, products[i].id) == FindById(catalog, products[i].id)
    {
      LineView(catalog, products, i);
    }
  }

  /** An accepted request creates an order for the looked-up customer whose
      lines follow the request one to one and in order, each with the
      requested id and quantity and the catalog price at order time. */
  lemma OrderSnapshotsCatalogPrices(request: Request, customers: map<Id, Customer>, catalog: seq<Product>)
    requires Accepted(request, customers, catalog)
    ensures var e := Execute(request, customers, catalog);
            && e.result.Success?
            && e.result.value.customer == customers[request.customerId]
            && |e.result.value.products| == |request.products|
            && forall i :: 0 <= i < |request.products| ==>
                 e.result.value.products[i] ==
                 OrderLine(request.products[i].id, request.products[i].quantity,
                           Price(catalog, request.products[i].id))
  {
    SucceedsIffAccepted(request, customers, catalog);
    SerializeFromCatalog(catalog, request.products);
  }

  /** An accepted request, after creating the order, proposes one new stock
      level per request line, in order: the catalog stock of that line's
      product minus that line's quantity, never negative. */
  lemma StockUpdatesPerLine(request: Request, customers: map<Id, Customer>, catalog: seq<Product>)
    requires Accepted(request, customers, catalog)
    ensures var e := Execute(request, customers, catalog);
            && |e.writes| == 2 && e.writes[1].UpdateQuantity?
            && |e.writes[1].updates| == |request.products|
            && (forall i :: 0 <= i < |request.products| ==>
                  e.writes[1].updates[i] ==
                  StockUpdate(request.products[i].id,
                              Stock(catalog, request.products[i].id) - request.products[i].quantity))
            && (forall i :: 0 <= i < |request.products| ==> e.writes[1].updates[i].quantity >= 0)
  {
    SucceedsIffAccepted(request, customers, catalog);
    OrderedQuantitiesFromCatalog(catalog, request.products);
    assert forall i :: 0 <= i < |request.products| ==> Covered(catalog, request.products[i]);
  }

  /** Two lines for the same product are each checked and decremented against
      the original stock, never against each other: each yields its own stock
      level, computed from the stock before the order. */
  lemma DuplicateLinesNotSummed(request: Request, customers: map<Id, Customer>, catalog: seq<Product>, i: int, j: int)
    requires Accepted(request, customers, catalog)
    requires 0 <= i < j < |request.products|
    requires request.products[i].id == request.products[j].id
    ensures var e := Execute(request, customers, catalog);
            var stock := Stock(catalog, request.products[i].id);
            && |e.writes| == 2 && e.writes[1].UpdateQuantity? && |e.writes[1].updates| > j
            && e.writes[1].updates[i] == StockUpdate(request.products[i].id, stock - request.products[i].quantity)
            && e.writes[1].updates[j] == StockUpdate(request.products[i].id, stock - request.products[j].quantity)
  {
    StockUpdatesPerLine(request, customers, catalog);
  }

  /** A concrete consequence: five units on hand, two lines of three units
      each. Both lines pass the sufficiency gate, six units are ordered, and
      both proposed stock levels are two. */
  lemma DuplicateLinesCanOversell()
    ensures var c := Customer("c1", "Ann", "ann@example.com");
            var catalog := [Product("p1", "Pen", 10, 5)];
            var request := Request("c1", [ProductRequest("p1", 3), ProductRequest("p1", 3)]);
            var e := Execute(request, map["c1" := c], catalog);
            && e.result.Success?
            && e.writes[1] == UpdateQuantity([StockUpdate("p1", 2), StockUpdate("p1", 2)])
  {
  }

  /** Quantities are not checked for positivity: in an accepted request, a
      line asking for a negative quantity raises the proposed stock above the
      stock on hand, whatever the other lines ask for. */
  lemma NegativeQuantityRaisesStock(request: Request, customers: map<Id, Customer>, catalog: seq<Product>, i: int)
    requires Accepted(request, customers, catalog)
    requires 0 <= i < |request.products|
    requires request.products[i].quantity < 0
    ensures var e := Execute(request, customers, catalog);
            && e.result.Success?
            && e.writes[1].updates[i].quantity > Stock(catalog, request.products[i].id)
  {
    StockUpdatesPerLine(request, customers, catalog);
  }

  /** A request without lines is not rejected: it creates an order with no
      lines and proposes no stock levels. */
  lemma EmptyRequestAccepted(customerId: Id, customers: map<Id, Customer>, catalog: seq<Product>)
    requires customerId in customers
    ensures var order := Order(customers[customerId], []);
            Execute(Request(customerId, []), customers, catalog) ==
            Execution(Success(order), [CreateOrder(order), UpdateQuantity([])])
  {
    var found := FindAllById(catalog, []);
    assert Filter([], IsMissing(Ids(found))) == [];
    assert Filter([], IsShort(found)) == [];
    assert Serialize([], found) == [];
    assert OrderedQuantities([], found) == [];
  }
}
