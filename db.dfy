/**
 * The process-wide database handle: one table per record kind.  Only the user
 * table is migrated by the program itself, so no foreign keys and no cascades
 * are assumed; a handler changes exactly the rows it writes.
 */
module Db {

  import opened Store
  import opened Models

  /** The content of the whole database at one moment. */
  datatype Tables = Tables(
    products: Table<Product>,
    orders: Table<Order>,
    orderItems: Table<OrderItem>,
    addresses: Table<ShippingAddress>,
    carts: Table<Cart>,
    cartItems: Table<CartItem>,
    users: Table<User>)

  /** At most one cart line per (cart, product) pair. */
  ghost predicate OneLinePerProduct(items: map<nat, CartItem>) {
    forall a, b ::
      a in items && b in items && items[a].cartId == items[b].cartId && items[a].productId == items[b].productId
      ==> a == b
  }

  /** The `unique` email column of the user table. */
  ghost predicate UniqueEmails(users: map<nat, User>) {
    forall a, b :: a in users && b in users && users[a].email == users[b].email ==> a == b
  }

  ghost predicate Invariants(t: Tables) {
    && t.products.Valid() && t.orders.Valid() && t.orderItems.Valid() && t.addresses.Valid()
    && t.carts.Valid() && t.cartItems.Valid() && t.users.Valid()
    && OneLinePerProduct(t.cartItems.rows)
    && UniqueEmails(t.users.rows)
  }

  /** The cart of a user: `db.Where("user_id = ?", userID).First(&cart)`. */
  function CartOf(carts: Table<Cart>, userId: nat): (r: Option<nat>)
    requires carts.Valid()
    ensures r.Some? ==> r.value in carts.rows && carts.rows[r.value].userId == userId
    ensures r.None? <==> forall k :: k in carts.rows ==> carts.rows[k].userId != userId
  {
    carts.FirstWhere((c: Cart) => c.userId == userId)
  }

  /** Whether some account already uses the email: `Where("email = ?").Find` is non-empty. */
  function EmailTaken(users: Table<User>, email: string): (r: bool)
    requires users.Valid()
    ensures r <==> exists k :: k in users.rows && users.rows[k].email == email
  {
    users.FirstWhere((u: User) => u.email == email).Some?
  }

  class Database {
    var products: Table<Product>
    var orders: Table<Order>
    var orderItems: Table<OrderItem>
    var addresses: Table<ShippingAddress>
    var carts: Table<Cart>
    var cartItems: Table<CartItem>
    var users: Table<User>

    function Snapshot(): Tables
      reads this
    {
      Tables(products, orders, orderItems, addresses, carts, cartItems, users)
    }

    ghost predicate Valid()
      reads this
    {
      Invariants(Snapshot())
    }

    /** A freshly migrated, empty database. */
    constructor ()
      ensures Valid()
      ensures products.rows == map[] && orders.rows == map[] && orderItems.rows == map[]
      ensures addresses.rows == map[] && carts.rows == map[] && cartItems.rows == map[]
      ensures users.rows == map[]
    {
      products := EmptyTable();
      orders := EmptyTable();
      orderItems := EmptyTable();
      addresses := EmptyTable();
      carts := EmptyTable();
      cartItems := EmptyTable();
      users := EmptyTable();
    }
  }
}
