/** The order-placement service. `Execute` runs the same forward sequence of
    steps as the service: customer gate, batch product lookup, existence gate,
    sufficiency gate, price snapshot, order creation, stock computation and
    stock update. The repositories are values: the customers repository is a
    map from id to customer, the products repository is the catalog list, and
    the two repository writes are returned, in the order they are issued, as
    the `writes` of the execution. */
module CreateOrder {
  import opened Wrappers
  import opened Entities
  import opened Collections
  import opened Catalog

  /** The three application errors the service raises. */
  datatype Error =
    | CustomerDoesNotExist
    | NotRegistered(id: Id)
    | InsufficientQuantity(quantity: int, id: Id)

  /** A call into a repository that changes stored state. */
  datatype Write =
    | CreateOrder(order: Order)
    | UpdateQuantity(updates: seq<StockUpdate>)

  /** What one call of the service returns, together with the writes it issued. */
  datatype Execution = Execution(result: Result<Order, Error>, writes: seq<Write>)

  /** Selects the request lines whose id the batch lookup did not return. */
  function IsMissing(foundIds: seq<Id>): ProductRequest -> bool
  {
    (line: ProductRequest) => line.id !in foundIds
  }

  /** The stock of the first found product with `id`, or 0 when there is none
      (the `?.quantity || 0` of the sufficiency filter). */
  function QuantityOrZero(found: seq<Product>, id: Id): (r: int)
    ensures !Registered(found, id) ==> r == 0
    ensures Registered(found, id) ==>
              exists k :: 0 <= k < |found| && found[k].id == id && r == found[k].quantity &&
                          forall j :: 0 <= j < k ==> found[j].id != id
  {
    match FindById(found, id)
    case Some(p) => p.quantity
    case None => 0
  }

  /** The price of the first found product with `id`, or 0 when there is none
      (the `?.price || 0` of the price snapshot). */
  function PriceOrZero(found: seq<Product>, id: Id): (r: int)
    ensures !Registered(found, id) ==> r == 0
    ensures Registered(found, id) ==>
              exists k :: 0 <= k < |found| && found[k].id == id && r == found[k].price &&
                          forall j :: 0 <= j < k ==> found[j].id != id
  {
    match FindById(found, id)
    case Some(p) => p.price
    case None => 0
  }

  /** Selects the request lines that ask for more than the found stock. */
  function IsShort(found: seq<Product>): ProductRequest -> bool
  {
    (line: ProductRequest) => QuantityOrZero(found, line.id) < line.quantity
  }

  /** The order lines: each request line with the found price copied in. */
  function Serialize(products: seq<ProductRequest>, found: seq<Product>): (r: seq<OrderLine>)
    ensures |r| == |products|
    ensures forall i :: 0 <= i < |products| ==>
              && r[i].productId == products[i].id
              && r[i].quantity == products[i].quantity
              && (!Registered(found, products[i].id) ==> r[i].price == 0)
              && (Registered(found, products[i].id) ==>
                    exists k :: 0 <= k < |found| && found[k].id == products[i].id &&
                                r[i].price == found[k].price &&
                                forall j :: 0 <= j < k ==> found[j].id != products[i].id)
  {
    seq(|products|, i requires 0 <= i < |products| =>
      OrderLine(products[i].id, products[i].quantity, PriceOrZero(found, products[i].id)))
  }

  /** The new stock level of each request line, from the first found product
      with its id; every id must have been found. */
  function OrderedQuantities(products: seq<ProductRequest>, found: seq<Product>): (r: seq<StockUpdate>)
    requires forall i :: 0 <= i < |products| ==> Registered(found, products[i].id)
    ensures |r| == |products|
    ensures forall i :: 0 <= i < |products| ==>
              && r[i].id == products[i].id
              && r[i].quantity == QuantityOrZero(found, products[i].id) - products[i].quantity
              && (!IsShort(found)(products[i]) ==> r[i].quantity >= 0)
  {
    seq(|products|, i requires 0 <= i < |products| =>
      StockUpdate(products[i].id, FindById(found, products[i].id).value.quantity - products[i].quantity))
  }

  /** One call of the service. A rejection returns before either write; an
      accepted request issues the order creation and then the stock update. */
  function Execute(request: Request, customers: map<Id, Customer>, catalog: seq<Product>): (e: Execution)
    ensures e.result.Failure? <==> e.writes == []
    ensures e.result == Failure(CustomerDoesNotExist) <==> request.customerId !in customers
    ensures e.result.Success? ==>
              && e.result.value.customer == customers[request.customerId]
              && |e.writes| == 2
              && e.writes[0] == CreateOrder(e.result.value)
              && e.writes[1].UpdateQuantity?
  {
    if request.customerId !in customers then
      Execution(Failure(CustomerDoesNotExist), [])
    else
      var customer := customers[request.customerId];
      var products := request.products;
      var found := FindAllById(catalog, products);
      var missing := Filter(products, IsMissing(Ids(found)));
      if |missing| > 0 then
        Execution(Failure(NotRegistered(missing[0].id)), [])
      else
        var short := Filter(products, IsShort(found));
        if |short| > 0 then
          Execution(Failure(InsufficientQuantity(short[0].quantity, short[0].id)), [])
        else
          var order := Order(customer, Serialize(products, found));
          var updates := OrderedQuantities(products, found);
          Execution(Success(order), [CreateOrder(order), UpdateQuantity(updates)])
  }
}
