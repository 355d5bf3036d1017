/**
 * The order handlers.  `userId` is what the authentication middleware stored
 * under the "userid" key, None when it is absent; the order id is the `:id`
 * path parameter.
 */
module OrderController {

  import opened Store
  import opened Models
  import opened Replies
  import opened Db
  import opened Checkout

  /**
   * `CreateOrder`.  The transaction works on private copies of the tables it
   * writes and commits them at the end; every early return inside it is a
   * rollback.  A rollback restores every row, but the ids the rolled-back
   * inserts drew from the order, address and order-item sequences stay used,
   * as the database's sequences are not transactional.
   */
  method CreateOrder(db: Database, userId: Option<nat>, input: CreateOrderInput) returns (r: Result<nat>)
    requires db.Valid()
    modifies db
    ensures db.Valid()
    ensures var spec := PlaceOrder(old(db.Snapshot()), userId, input);
      && (spec.Ok? ==> r == Ok(spec.value.0) && db.Snapshot() == spec.value.1)
      && (spec.Err? ==> r == Err(spec.code, spec.message))
    // rejected before the transaction began: nothing changes
    ensures userId.None? || !ValidInput(input) ==> db.Snapshot() == old(db.Snapshot())
    // rejected inside it: the rows are as before, the sequences have moved on
    ensures r.Err? && userId.Some? && ValidInput(input) ==>
      && db.Snapshot() == old(db.Snapshot()).(orders := db.orders, addresses := db.addresses, orderItems := db.orderItems)
      && db.orders == old(db.orders).(nextId := old(db.orders.nextId) + 1)
      && db.addresses == old(db.addresses).(nextId := old(db.addresses.nextId) + 1)
      && db.orderItems == old(db.orderItems).(nextId := old(db.orderItems.nextId)
                            + Accepted(Tx(old(db.products), old(db.orderItems), 0), old(db.orders.nextId), input.items))
  {
    if userId.None? {
      return Err(Unauthorized, "User not authenticated");
    }
    if !ValidInput(input) {
      return Err(BadRequest, "Invalid input data");
    }
    // begin the transaction
    var products, orders, orderItems, addresses := db.products, db.orders, db.orderItems, db.addresses;

    var order := Order(userId.value, 0, Pending, input.contactNumber);
    var created := orders.Insert(order);
    var orderId := created.0;
    orders := created.1;

    var a := input.shippingAddress;
    var createdAddress := addresses.Insert(ShippingAddress(orderId, a.street, a.city, a.state, a.zipCode, a.country, a.notes));
    addresses := createdAddress.1;

    var placed, orderItemsNext := ReserveItems(products, orderItems, orderId, input.items);
    if placed.Err? {
      Rollback(db, orders.nextId, addresses.nextId, orderItemsNext);
      return Err(placed.code, placed.message);
    }

    orders := orders.Update(orderId, order.(totalAmount := placed.value.total));
    // commit
    db.products, db.orders, db.orderItems, db.addresses := placed.value.products, orders, placed.value.orderItems, addresses;
    r := Ok(orderId);
  }

  /**
   * The loop of `CreateOrder` over the line items, on the transaction's copies
   * of the product and order-item tables: it yields what the transaction has
   * written when every line is accepted, or the error of the first rejected
   * line together with the next order-item id at that point.
   */
  method ReserveItems(products0: Table<Product>, orderItems0: Table<OrderItem>, orderId: nat, items: seq<LineItem>)
    returns (r: Result<Tx>, orderItemsNext: nat)
    requires products0.Valid() && orderItems0.Valid()
    ensures r == PlaceItems(Tx(products0, orderItems0, 0), orderId, items)
    ensures orderItemsNext == orderItems0.nextId + Accepted(Tx(products0, orderItems0, 0), orderId, items)
  {
    var products, orderItems := products0, orderItems0;
    var totalAmount := 0;
    var i := 0;
    while i < |items|
      invariant 0 <= i <= |items|
      invariant products.Valid() && orderItems.Valid()
      invariant PlaceItems(Tx(products0, orderItems0, 0), orderId, items)
                == PlaceItems(Tx(products, orderItems, totalAmount), orderId, items[i..])
      invariant Accepted(Tx(products0, orderItems0, 0), orderId, items)
                == i + Accepted(Tx(products, orderItems, totalAmount), orderId, items[i..])
      invariant orderItems.nextId == orderItems0.nextId + i
    {
      var item := items[i];
      ghost var before := Tx(products, orderItems, totalAmount);
      if !Accepts(products, item) {
        PlaceItemsStop(Tx(products0, orderItems0, 0), before, orderId, items, i);
      } else {
        PlaceItemsStep(Tx(products0, orderItems0, 0), before, orderId, items, i);
      }
      if item.productId !in products.rows {
        return Err(NotFound, "Product not found"), orderItems.nextId;
      }
      var product := products.rows[item.productId];
      if !product.isAvailable {
        return Err(BadRequest, "Product is not available"), orderItems.nextId;
      }
      if product.stock < item.quantity {
        return Err(BadRequest, "Insufficient stock for product"), orderItems.nextId;
      }
      product := product.(stock := product.stock - item.quantity);
      ReserveWrites(before, orderId, item, product);
      products := products.Update(item.productId, product);

      var itemPrice := product.price * item.quantity;
      var createdItem := orderItems.Insert(OrderItem(orderId, item.productId, item.quantity, itemPrice));
      orderItems := createdItem.1;
      totalAmount := totalAmount + itemPrice;
      assert Tx(products, orderItems, totalAmount) == Reserve(before, orderId, item);
      i := i + 1;
    }
    assert items[i..] == [];
    r, orderItemsNext := Ok(Tx(products, orderItems, totalAmount)), orderItems.nextId;
  }

  /** The end of a rolled-back checkout: every row as before, the sequences where the transaction left them. */
  method Rollback(db: Database, ordersNext: nat, addressesNext: nat, orderItemsNext: nat)
    requires db.Valid()
    requires db.orders.nextId <= ordersNext && db.addresses.nextId <= addressesNext && db.orderItems.nextId <= orderItemsNext
    modifies db
    ensures db.Valid()
    ensures db.Snapshot() == old(db.Snapshot()).(orders := old(db.orders).(nextId := ordersNext),
                                                 addresses := old(db.addresses).(nextId := addressesNext),
                                                 orderItems := old(db.orderItems).(nextId := orderItemsNext))
  {
    db.orders, db.addresses, db.orderItems :=
      db.orders.(nextId := ordersNext), db.addresses.(nextId := addressesNext), db.orderItems.(nextId := orderItemsNext);
  }

  /** An order as `GetUserOrderByID` returns it, with its preloaded address and items. */
  datatype OrderView = OrderView(order: Order, address: Option<ShippingAddress>, items: map<nat, OrderItem>)

  /** `GetUserOrderByID`: the order is found only among the caller's own orders. */
  function GetUserOrderByID(t: Tables, userId: Option<nat>, orderId: nat): (r: Result<OrderView>)
    requires t.addresses.Valid()
    ensures userId.None? ==> r == Err(Unauthorized, "User not authenticated")
    ensures userId.Some? ==>
      (r.Ok? <==> orderId in t.orders.rows && t.orders.rows[orderId].userId == userId.value)
    ensures r.Err? && userId.Some? ==> r == Err(NotFound, "Order not found")
    ensures r.Ok? ==> r.value.order == t.orders.rows[orderId]
    ensures r.Ok? ==> forall k :: k in r.value.items <==> k in t.orderItems.rows && t.orderItems.rows[k].orderId == orderId
    ensures r.Ok? ==> forall k :: k in r.value.items ==> r.value.items[k] == t.orderItems.rows[k]
    // the preloaded address: one of the order's address rows, none when the order has none;
    // of several, the model picks the one with the lowest id
    ensures r.Ok? ==> (r.value.address.None? <==> forall k :: k in t.addresses.rows ==> t.addresses.rows[k].orderId != orderId)
    ensures r.Ok? && r.value.address.Some? ==>
      exists k :: k in t.addresses.rows && t.addresses.rows[k] == r.value.address.value
                  && (forall j :: j in t.addresses.rows && j < k ==> t.addresses.rows[j].orderId != orderId)
    ensures r.Ok? && r.value.address.Some? ==> r.value.address.value.orderId == orderId
  {
    if userId.None? then Err(Unauthorized, "User not authenticated")
    else if orderId !in t.orders.rows || t.orders.rows[orderId].userId != userId.value then Err(NotFound, "Order not found")
    else
      var address := t.addresses.FirstWhere((s: ShippingAddress) => s.orderId == orderId);
      Ok(OrderView(
        t.orders.rows[orderId],
        if address.Some? then Some(t.addresses.rows[address.value]) else None,
        map k | k in t.orderItems.rows && t.orderItems.rows[k].orderId == orderId :: t.orderItems.rows[k]))
  }

  /**
   * `CancelUserOrder`: the owner may cancel a pending order; only its status
   * changes.  The lookup is the same owner filter as GetUserOrderByID.
   */
  method CancelUserOrder(db: Database, userId: Option<nat>, orderId: nat) returns (r: Result<()>)
    requires db.Valid()
    modifies db
    ensures db.Valid()
    ensures db.Snapshot() == old(db.Snapshot()).(orders := db.orders)
    ensures userId.None? ==> r == Err(Unauthorized, "User not authenticated")
    ensures userId.Some? && GetUserOrderByID(old(db.Snapshot()), userId, orderId).Err? ==> r == Err(NotFound, "Order not found")
    ensures GetUserOrderByID(old(db.Snapshot()), userId, orderId).Ok? && old(db.orders.rows[orderId].status) != Pending
            ==> r == Err(BadRequest, "Only pending orders can be cancelled")
    ensures r.Ok? <==> GetUserOrderByID(old(db.Snapshot()), userId, orderId).Ok? && old(db.orders.rows[orderId].status) == Pending
    ensures r.Ok? ==> db.orders.rows == old(db.orders.rows)[orderId := old(db.orders.rows[orderId]).(status := Cancelled)]
    ensures r.Ok? ==> db.orders.nextId == old(db.orders.nextId)
    ensures r.Err? ==> db.orders == old(db.orders)
  {
    if userId.None? {
      return Err(Unauthorized, "User not authenticated");
    }
    if orderId !in db.orders.rows || db.orders.rows[orderId].userId != userId.value {
      return Err(NotFound, "Order not found");
    }
    var order := db.orders.rows[orderId];
    if order.status != Pending {
      return Err(BadRequest, "Only pending orders can be cancelled");
    }
    order := order.(status := Cancelled);
    db.orders := db.orders.Update(orderId, order);
    r := Ok(());
  }

  /**
   * `AdminUpdateOrderStatus`: the order is looked up first, then the requested
   * status must be one of the five names; any status may follow any other.
   */
  method AdminUpdateOrderStatus(db: Database, orderId: nat, status: string) returns (r: Result<()>)
    requires db.Valid()
    modifies db
    ensures db.Valid()
    ensures db.Snapshot() == old(db.Snapshot()).(orders := db.orders)
    ensures orderId !in old(db.orders.rows) ==> r == Err(NotFound, "Order not found")
    ensures orderId in old(db.orders.rows) && ParseStatus(status).None? ==> r == Err(BadRequest, "Invalid input data")
    ensures r.Ok? <==> orderId in old(db.orders.rows) && ParseStatus(status).Some?
    ensures r.Ok? ==> db.orders.rows == old(db.orders.rows)[orderId := old(db.orders.rows[orderId]).(status := ParseStatus(status).value)]
    ensures r.Ok? ==> StatusName(db.orders.rows[orderId].status) == status && db.orders.nextId == old(db.orders.nextId)
    ensures r.Err? ==> db.orders == old(db.orders)
  {
    if orderId !in db.orders.rows {
      return Err(NotFound, "Order not found");
    }
    var order := db.orders.rows[orderId];
    var parsed := ParseStatus(status);
    if parsed.None? {
      return Err(BadRequest, "Invalid input data");
    }
    order := order.(status := parsed.value);
    db.orders := db.orders.Update(orderId, order);
    r := Ok(());
  }
}
