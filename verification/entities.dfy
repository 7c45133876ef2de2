/** The records the order service reads and produces. Identifiers are
    strings; prices and quantities are integers (a price is only ever copied,
    so its floating-point representation plays no role). */
module Entities {

  type Id = string

  /** A registered customer, as returned by the customers repository. */
  datatype Customer = Customer(id: Id, name: string, email: string)

  /** A catalog entry: its price and the stock currently on hand. */
  datatype Product = Product(id: Id, name: string, price: int, quantity: int)

  /** One requested line of an order: a product id and the quantity asked for. */
  datatype ProductRequest = ProductRequest(id: Id, quantity: int)

  /** The input of the service: who orders and what. */
  datatype Request = Request(customerId: Id, products: seq<ProductRequest>)

  /** One line of a placed order, with the catalog price captured at order time. */
  datatype OrderLine = OrderLine(productId: Id, quantity: int, price: int)

  /** The order handed to the orders repository. */
  datatype Order = Order(customer: Customer, products: seq<OrderLine>)

  /** A new stock level proposed to the products repository. */
  datatype StockUpdate = StockUpdate(id: Id, quantity: int)
}
