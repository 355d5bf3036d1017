/**
 * The records the handlers read and write.  Prices and totals are whole cents;
 * the creation and update timestamps the ORM maintains are not modelled.
 */
module Models {

  import opened Store

  /** The five order statuses; the source stores them as the strings of StatusName. */
  datatype Status = Pending | Processing | Shipped | Delivered | Cancelled

  function StatusName(s: Status): string {
    match s
    case Pending => "pending"
    case Processing => "processing"
    case Shipped => "shipped"
    case Delivered => "delivered"
    case Cancelled => "cancelled"
  }

  /** The `oneof=pending processing shipped delivered cancelled` binding rule. */
  function ParseStatus(s: string): (r: Option<Status>)
    ensures r.Some? ==> StatusName(r.value) == s
    ensures forall st: Status :: StatusName(st) == s ==> r == Some(st)
  {
    if s == "pending" then Some(Pending)
    else if s == "processing" then Some(Processing)
    else if s == "shipped" then Some(Shipped)
    else if s == "delivered" then Some(Delivered)
    else if s == "cancelled" then Some(Cancelled)
    else None
  }

  datatype Product = Product(
    name: string,
    description: string,
    price: int,
    category: string,
    imageUrl: string,
    stock: int,
    isAvailable: bool)

  datatype Order = Order(
    userId: nat,
    totalAmount: int,
    status: Status,
    contactNumber: string)

  /** One priced line of an order; `price` is the line total frozen at checkout. */
  datatype OrderItem = OrderItem(
    orderId: nat,
    productId: nat,
    quantity: int,
    price: int)

  datatype ShippingAddress = ShippingAddress(
    orderId: nat,
    street: string,
    city: string,
    state: string,
    zipCode: string,
    country: string,
    notes: string)

  datatype Cart = Cart(userId: nat)

  datatype CartItem = CartItem(cartId: nat, productId: nat, quantity: int)

  /**
   * An account.  The stored `password` is the hash.  The record declares no role,
   * but the middleware and the admin update read and write one, so it is here.
   */
  datatype User = User(name: string, email: string, password: string, role: string)

  /**
   * The password check against a stored hash.  Hashing is a parameter of the
   * model, so a password matches when it hashes to the stored value.
   */
  predicate ComparePassword(hash: string -> string, stored: string, plain: string) {
    hash(plain) == stored
  }
}

/** The outcomes the handlers send back. */
module Replies {

  import opened Store

  datatype Code = BadRequest | Unauthorized | Forbidden | NotFound | Conflict | InternalServerError

  function HttpStatus(c: Code): (r: int)
    ensures 400 <= r < 600
    ensures c == BadRequest <==> r == 400
    ensures c == Unauthorized <==> r == 401
    ensures c == Forbidden <==> r == 403
    ensures c == NotFound <==> r == 404
    ensures c == Conflict <==> r == 409
    ensures c == InternalServerError <==> r == 500
  {
    match c
    case BadRequest => 400
    case Unauthorized => 401
    case Forbidden => 403
    case NotFound => 404
    case Conflict => 409
    case InternalServerError => 500
  }

  /** A handler's result: its payload, or the error status and message it replies with. */
  datatype Result<T> = Ok(value: T) | Err(code: Code, message: string)

  /** The JSON body `{"success": ..., "message": ...}` with its HTTP status. */
  datatype Reply = Reply(status: int, success: bool, message: string)

  /** The error code a status stands for: the inverse of HttpStatus. */
  function CodeFor(status: int): (r: Option<Code>)
    ensures r.Some? ==> HttpStatus(r.value) == status
    ensures r.None? <==> forall c: Code :: HttpStatus(c) != status
  {
    if status == 400 then Some(BadRequest)
    else if status == 401 then Some(Unauthorized)
    else if status == 403 then Some(Forbidden)
    else if status == 404 then Some(NotFound)
    else if status == 409 then Some(Conflict)
    else if status == 500 then Some(InternalServerError)
    else None
  }

  /**
   * `handleError`: an error reply says `success = false`, and its status and
   * message give back the code and the message it was built from.
   */
  function HandleError(c: Code, message: string): (r: Reply)
    ensures !r.success && r.message == message
    ensures CodeFor(r.status) == Some(c)
  {
    Reply(HttpStatus(c), false, message)
  }

  /**
   * The reply a handler sends for its error result.  No information is lost:
   * the only error result sent as this reply is the one it was built from.
   */
  function ErrorReply<T>(r: Result<T>): (rep: Reply)
    requires r.Err?
    ensures !rep.success && rep.message == r.message && CodeFor(rep.status) == Some(r.code)
    ensures forall c: Code, m: string :: HandleError(c, m) == rep ==> r == Err(c, m)
  {
    HandleError(r.code, r.message)
  }
}
