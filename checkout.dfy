/**
 * The checkout transaction as a function of the database before it: a pending
 * order with total 0, its shipping address, then every line item in input order
 * (re-read the product, reject it when missing, unavailable or short of stock,
 * decrement the stock, record an order item priced at unit price times quantity),
 * and finally the accumulated total.  Any failure aborts the whole transaction;
 * a failed checkout therefore yields an error and no new rows.  How many ids the
 * aborted inserts drew from the sequences is `Accepted`, used by the handler.
 */
module Checkout {

  import opened Store
  import opened Models
  import opened Replies
  import opened Db

  datatype LineItem = LineItem(productId: nat, quantity: int)

  datatype AddressInput = AddressInput(
    street: string,
    city: string,
    state: string,
    country: string,
    zipCode: string,
    notes: string)

  datatype CreateOrderInput = CreateOrderInput(
    shippingAddress: AddressInput,
    contactNumber: string,
    items: seq<LineItem>)

  /**
   * The binding rules of the request body: every address field but the notes is
   * required (non-empty), the contact number has exactly 10 characters, and every
   * line names a product (a required id is non-zero) and a quantity of at least 1.
   * A present but empty item list passes `required`.
   */
  predicate ValidInput(input: CreateOrderInput)
    ensures ValidInput(input) ==> PositiveQuantities(input.items)
  {
    var a := input.shippingAddress;
    && a.street != "" && a.city != "" && a.state != "" && a.country != "" && a.zipCode != ""
    && |input.contactNumber| == 10
    && forall i :: 0 <= i < |input.items| ==> input.items[i].productId != 0 && input.items[i].quantity >= 1
  }

  /**
   * The rules judge each line on its own: a list of lines passes exactly when
   * both of its parts do, and an empty list passes whenever address and contact do.
   */
  lemma ValidInputLines(input: CreateOrderInput, a: seq<LineItem>, b: seq<LineItem>)
    ensures ValidInput(input.(items := a + b)) <==> ValidInput(input.(items := a)) && ValidInput(input.(items := b))
    ensures ValidInput(input) ==> ValidInput(input.(items := []))
  {
    var ab := a + b;
    assert forall i :: 0 <= i < |a| ==> ab[i] == a[i];
    assert forall i :: 0 <= i < |b| ==> ab[|a| + i] == b[i];
  }

  /** The rows the transaction has written so far, and the running total. */
  datatype Tx = Tx(products: Table<Product>, orderItems: Table<OrderItem>, total: int)

  ghost predicate TxValid(tx: Tx) {
    tx.products.Valid() && tx.orderItems.Valid()
  }

  /** One accepted line: decrement the stock, record the priced item, add to the total. */
  function Reserve(tx: Tx, orderId: nat, line: LineItem): (r: Tx)
    requires TxValid(tx) && line.productId in tx.products.rows
    ensures TxValid(r)
    ensures r.products.rows.Keys == tx.products.rows.Keys
  {
    var product := tx.products.rows[line.productId];
    var itemPrice := product.price * line.quantity;
    var inserted := tx.orderItems.Insert(OrderItem(orderId, line.productId, line.quantity, itemPrice));
    Tx(tx.products.Update(line.productId, product.(stock := product.stock - line.quantity)),
       inserted.1,
       tx.total + itemPrice)
  }

  /** The loop over the line items, in input order, inside the transaction. */
  function PlaceItems(tx: Tx, orderId: nat, lines: seq<LineItem>): (r: Result<Tx>)
    requires TxValid(tx)
    ensures r.Ok? ==> TxValid(r.value) && r.value.products.rows.Keys == tx.products.rows.Keys
    ensures r.Err? ==>
      || r == Err(NotFound, "Product not found")
      || r == Err(BadRequest, "Product is not available")
      || r == Err(BadRequest, "Insufficient stock for product")
    decreases |lines|
  {
    if lines == [] then Ok(tx)
    else
      var line := lines[0];
      if line.productId !in tx.products.rows then Err(NotFound, "Product not found")
      else if !tx.products.rows[line.productId].isAvailable then Err(BadRequest, "Product is not available")
      else if tx.products.rows[line.productId].stock < line.quantity then Err(BadRequest, "Insufficient stock for product")
      else PlaceItems(Reserve(tx, orderId, line), orderId, lines[1..])
  }

  /** Whether the loop accepts a line against the products as they stand. */
  predicate Accepts(products: Table<Product>, line: LineItem) {
    && line.productId in products.rows
    && products.rows[line.productId].isAvailable
    && line.quantity <= products.rows[line.productId].stock
  }

  /**
   * How many lines the loop accepts before it rejects one, or all of them.
   * Each accepted line has inserted an order item and so drawn one id from the
   * order-item sequence, which a rollback does not give back.
   */
  function Accepted(tx: Tx, orderId: nat, lines: seq<LineItem>): (n: nat)
    requires TxValid(tx)
    ensures n <= |lines|
    decreases |lines|
  {
    if lines == [] || !Accepts(tx.products, lines[0]) then 0
    else 1 + Accepted(Reserve(tx, orderId, lines[0]), orderId, lines[1..])
  }

  /** The loop goes through exactly when it accepts every line. */
  lemma {:induction false} AcceptedAll(tx: Tx, orderId: nat, lines: seq<LineItem>)
    requires TxValid(tx)
    ensures PlaceItems(tx, orderId, lines).Ok? <==> Accepted(tx, orderId, lines) == |lines|
    decreases |lines|
  {
    if lines != [] && Accepts(tx.products, lines[0]) {
      AcceptedAll(Reserve(tx, orderId, lines[0]), orderId, lines[1..]);
    }
  }

  /** Reserve spelled out in the order the handler performs it: the stock write, then the item insert. */
  lemma ReserveWrites(tx: Tx, orderId: nat, line: LineItem, product: Product)
    requires TxValid(tx) && line.productId in tx.products.rows
    requires product == tx.products.rows[line.productId].(stock := tx.products.rows[line.productId].stock - line.quantity)
    ensures Reserve(tx, orderId, line)
            == Tx(tx.products.Update(line.productId, product),
                  tx.orderItems.Insert(OrderItem(orderId, line.productId, line.quantity, product.price * line.quantity)).1,
                  tx.total + product.price * line.quantity)
  {
  }

  /**
   * One accepted line at position i: what is left of the loop from the reserved
   * state is what was left from the state before it, one line shorter.
   */
  lemma PlaceItemsStep(start: Tx, tx: Tx, orderId: nat, lines: seq<LineItem>, i: nat)
    requires TxValid(start) && TxValid(tx) && i < |lines| && Accepts(tx.products, lines[i])
    requires PlaceItems(start, orderId, lines) == PlaceItems(tx, orderId, lines[i..])
    requires Accepted(start, orderId, lines) == i + Accepted(tx, orderId, lines[i..])
    ensures PlaceItems(start, orderId, lines) == PlaceItems(Reserve(tx, orderId, lines[i]), orderId, lines[i + 1..])
    ensures Accepted(start, orderId, lines) == i + 1 + Accepted(Reserve(tx, orderId, lines[i]), orderId, lines[i + 1..])
  {
    assert lines[i..][0] == lines[i] && lines[i..][1..] == lines[i + 1..];
  }

  /** One rejected line at position i: the loop fails there, after accepting i lines. */
  lemma PlaceItemsStop(start: Tx, tx: Tx, orderId: nat, lines: seq<LineItem>, i: nat)
    requires TxValid(start) && TxValid(tx) && i < |lines| && !Accepts(tx.products, lines[i])
    requires PlaceItems(start, orderId, lines) == PlaceItems(tx, orderId, lines[i..])
    requires Accepted(start, orderId, lines) == i + Accepted(tx, orderId, lines[i..])
    ensures Accepted(start, orderId, lines) == i
    ensures var line := lines[i];
      PlaceItems(start, orderId, lines)
      == if line.productId !in tx.products.rows then Err(NotFound, "Product not found")
         else if !tx.products.rows[line.productId].isAvailable then Err(BadRequest, "Product is not available")
         else Err(BadRequest, "Insufficient stock for product")
  {
    assert lines[i..][0] == lines[i];
  }

  /** The shipping address row built from the request. */
  function AddressRow(orderId: nat, a: AddressInput): ShippingAddress {
    ShippingAddress(orderId, a.street, a.city, a.state, a.zipCode, a.country, a.notes)
  }

  /** `CreateOrder`: the committed database and the new order's id, or the error. */
  function PlaceOrder(t: Tables, userId: Option<nat>, input: CreateOrderInput): (r: Result<(nat, Tables)>)
    requires Invariants(t)
    ensures userId.None? ==> r == Err(Unauthorized, "User not authenticated")
    ensures userId.Some? && !ValidInput(input) ==> r == Err(BadRequest, "Invalid input data")
    ensures r.Err? && userId.Some? && ValidInput(input) ==>
      || r == Err(NotFound, "Product not found")
      || r == Err(BadRequest, "Product is not available")
      || r == Err(BadRequest, "Insufficient stock for product")
    ensures r.Ok? ==> Invariants(r.value.1)
    // exactly one new order, pending and owned by the caller
    ensures r.Ok? ==> r.value.0 !in t.orders.rows && r.value.0 in r.value.1.orders.rows
    ensures r.Ok? ==>
      r.value.1.orders.rows
         == t.orders.rows[r.value.0 := Order(userId.value, r.value.1.orders.rows[r.value.0].totalAmount, Pending, input.contactNumber)]
    // exactly one new shipping address, linked to it and carrying the input fields
    ensures r.Ok? ==>
      && t.addresses.nextId !in t.addresses.rows
      && r.value.1.addresses.rows == t.addresses.rows[t.addresses.nextId := AddressRow(r.value.0, input.shippingAddress)]
    // the tables checkout does not write are untouched
    ensures r.Ok? ==> r.value.1.carts == t.carts && r.value.1.cartItems == t.cartItems && r.value.1.users == t.users
  {
    if userId.None? then Err(Unauthorized, "User not authenticated")
    else if !ValidInput(input) then Err(BadRequest, "Invalid input data")
    else
      var order := Order(userId.value, 0, Pending, input.contactNumber);
      var createdOrder := t.orders.Insert(order);
      var orderId := createdOrder.0;
      var createdAddress := t.addresses.Insert(AddressRow(orderId, input.shippingAddress));
      match PlaceItems(Tx(t.products, t.orderItems, 0), orderId, input.items)
      case Err(code, message) => Err(code, message)
      case Ok(tx) =>
        Ok((orderId, t.(products := tx.products,
                        orders := createdOrder.1.Update(orderId, order.(totalAmount := tx.total)),
                        orderItems := tx.orderItems,
                        addresses := createdAddress.1)))
  }

  // ---------------------------------------------------------------------------
  // What the transaction does to stock

  /** The total quantity the lines ask of one product. */
  function Demand(lines: seq<LineItem>, productId: nat): int
    decreases |lines|
  {
    if lines == [] then 0
    else (if lines[0].productId == productId then lines[0].quantity else 0) + Demand(lines[1..], productId)
  }

  ghost predicate PositiveQuantities(lines: seq<LineItem>) {
    forall i :: 0 <= i < |lines| ==> lines[i].quantity >= 1
  }

  /** A product can serve the lines: it exists, is available and has stock for their combined demand. */
  ghost predicate Reservable(products: Table<Product>, lines: seq<LineItem>, productId: nat) {
    && productId in products.rows
    && products.rows[productId].isAvailable
    && Demand(lines, productId) <= products.rows[productId].stock
  }

  lemma {:induction false} DemandNonNegative(lines: seq<LineItem>, productId: nat)
    requires PositiveQuantities(lines)
    ensures Demand(lines, productId) >= 0
    decreases |lines|
  {
    if lines != [] {
      DemandNonNegative(lines[1..], productId);
    }
  }

  lemma {:induction false} DemandOfAbsent(lines: seq<LineItem>, productId: nat)
    requires forall i :: 0 <= i < |lines| ==> lines[i].productId != productId
    ensures Demand(lines, productId) == 0
    decreases |lines|
  {
    if lines != [] {
      DemandOfAbsent(lines[1..], productId);
    }
  }

  /** Each product's stock drops by exactly the combined quantity of its lines; nothing else changes. */
  lemma {:induction false} PlaceItemsStock(tx: Tx, orderId: nat, lines: seq<LineItem>)
    requires TxValid(tx) && PlaceItems(tx, orderId, lines).Ok?
    ensures var after := PlaceItems(tx, orderId, lines).value.products;
      && after.rows.Keys == tx.products.rows.Keys
      && forall pid :: pid in tx.products.rows ==>
           after.rows[pid] == tx.products.rows[pid].(stock := tx.products.rows[pid].stock - Demand(lines, pid))
    decreases |lines|
  {
    if lines != [] {
      var next := Reserve(tx, orderId, lines[0]);
      PlaceItemsStock(next, orderId, lines[1..]);
    }
  }

  /**
   * Given quantities of at least 1, the lines go through exactly when every
   * product they name can serve its combined demand; the order of the lines
   * does not matter for success.
   */
  lemma {:induction false} PlaceItemsSucceedsIff(tx: Tx, orderId: nat, lines: seq<LineItem>)
    requires TxValid(tx) && PositiveQuantities(lines)
    ensures PlaceItems(tx, orderId, lines).Ok?
            <==> forall i :: 0 <= i < |lines| ==> Reservable(tx.products, lines, lines[i].productId)
    decreases |lines|
  {
    if lines != [] {
      var line, rest := lines[0], lines[1..];
      var pid := line.productId;
      assert forall i :: 0 < i < |lines| ==> lines[i] == rest[i - 1];
      DemandNonNegative(rest, pid);
      if pid in tx.products.rows && tx.products.rows[pid].isAvailable && line.quantity <= tx.products.rows[pid].stock {
        var next := Reserve(tx, orderId, line);
        PlaceItemsSucceedsIff(next, orderId, rest);
        // Reservable over the rest, after this line, is Reservable over all lines before it.
        forall q | q in tx.products.rows
          ensures (q in next.products.rows && next.products.rows[q].isAvailable && Demand(rest, q) <= next.products.rows[q].stock)
                  <==> Reservable(tx.products, lines, q)
        {
        }
        if PlaceItems(tx, orderId, lines).Ok? {
          forall i | 0 <= i < |lines| ensures Reservable(tx.products, lines, lines[i].productId) {
            if i > 0 {
              assert Reservable(next.products, rest, rest[i - 1].productId);
            } else if exists j :: 0 <= j < |rest| && rest[j].productId == pid {
              var j :| 0 <= j < |rest| && rest[j].productId == pid;
              assert Reservable(next.products, rest, rest[j].productId);
            } else {
              DemandOfAbsent(rest, pid);
            }
          }
        } else {
          var j :| 0 <= j < |rest| && !Reservable(next.products, rest, rest[j].productId);
          assert !Reservable(tx.products, lines, lines[j + 1].productId);
        }
      } else {
        assert !Reservable(tx.products, lines, lines[0].productId);
      }
    }
  }

  // ---------------------------------------------------------------------------
  // What the transaction records

  /** The order items the lines stand for, priced at the products' unit prices. */
  ghost function PricedItems(orderId: nat, products: map<nat, Product>, lines: seq<LineItem>): (r: seq<OrderItem>)
    requires forall i :: 0 <= i < |lines| ==> lines[i].productId in products
    ensures |r| == |lines|
    ensures forall i :: 0 <= i < |lines| ==>
      r[i] == OrderItem(orderId, lines[i].productId, lines[i].quantity, products[lines[i].productId].price * lines[i].quantity)
    decreases |lines|
  {
    if lines == [] then []
    else
      [OrderItem(orderId, lines[0].productId, lines[0].quantity, products[lines[0].productId].price * lines[0].quantity)]
      + PricedItems(orderId, products, lines[1..])
  }

  /** The sum of the line totals stored on order items. */
  function SumPrices(items: seq<OrderItem>): int
    decreases |items|
  {
    if items == [] then 0 else items[0].price + SumPrices(items[1..])
  }

  lemma {:induction false} PricedItemsFrame(orderId: nat, a: map<nat, Product>, b: map<nat, Product>, lines: seq<LineItem>)
    requires forall i :: 0 <= i < |lines| ==> lines[i].productId in a
    requires a.Keys == b.Keys && forall pid :: pid in a ==> a[pid].price == b[pid].price
    ensures PricedItems(orderId, a, lines) == PricedItems(orderId, b, lines)
  {
  }

  /** The transaction adds one order item per line under consecutive fresh ids and keeps every earlier one. */
  lemma {:induction false} PlaceItemsKeys(tx: Tx, orderId: nat, lines: seq<LineItem>)
    requires TxValid(tx) && PlaceItems(tx, orderId, lines).Ok?
    ensures var after := PlaceItems(tx, orderId, lines).value.orderItems;
      && after.nextId == tx.orderItems.nextId + |lines|
      && (forall k :: k in after.rows <==> k in tx.orderItems.rows || tx.orderItems.nextId <= k < after.nextId)
      && (forall k :: k in tx.orderItems.rows ==> after.rows[k] == tx.orderItems.rows[k])
    decreases |lines|
  {
    if lines != [] {
      PlaceItemsKeys(Reserve(tx, orderId, lines[0]), orderId, lines[1..]);
    }
  }

  /**
   * The item written for line i sits at the i-th fresh id and is priced at the
   * unit price the product had when the transaction began, times the quantity.
   */
  lemma {:induction false} PlaceItemsRows(tx: Tx, orderId: nat, lines: seq<LineItem>)
    requires TxValid(tx) && PlaceItems(tx, orderId, lines).Ok?
    ensures forall i :: 0 <= i < |lines| ==> lines[i].productId in tx.products.rows
    ensures var after := PlaceItems(tx, orderId, lines).value.orderItems;
      forall i :: 0 <= i < |lines| ==>
        && tx.orderItems.nextId + i in after.rows
        && after.rows[tx.orderItems.nextId + i]
           == OrderItem(orderId, lines[i].productId, lines[i].quantity, tx.products.rows[lines[i].productId].price * lines[i].quantity)
    decreases |lines|
  {
    if lines != [] {
      var line, rest := lines[0], lines[1..];
      var base := tx.orderItems.nextId;
      var next := Reserve(tx, orderId, line);
      var after := PlaceItems(next, orderId, rest).value.orderItems;
      assert PlaceItems(tx, orderId, lines).value.orderItems == after;
      PlaceItemsRows(next, orderId, rest);
      PlaceItemsKeys(next, orderId, rest);
      assert forall pid :: pid in tx.products.rows ==> next.products.rows[pid].price == tx.products.rows[pid].price;
      assert next.orderItems.nextId == base + 1;
      forall i | 0 <= i < |lines|
        ensures lines[i].productId in tx.products.rows
        ensures base + i in after.rows
        ensures after.rows[base + i]
                == OrderItem(orderId, lines[i].productId, lines[i].quantity, tx.products.rows[lines[i].productId].price * lines[i].quantity)
      {
        if i == 0 {
          assert base in next.orderItems.rows;
        } else {
          assert lines[i] == rest[i - 1];
          assert base + i == (base + 1) + (i - 1);
        }
      }
    }
  }

  /** The running total grows by exactly the sum of the prices of the items written. */
  lemma {:induction false} PlaceItemsTotal(tx: Tx, orderId: nat, lines: seq<LineItem>)
    requires TxValid(tx) && PlaceItems(tx, orderId, lines).Ok?
    ensures forall i :: 0 <= i < |lines| ==> lines[i].productId in tx.products.rows
    ensures PlaceItems(tx, orderId, lines).value.total == tx.total + SumPrices(PricedItems(orderId, tx.products.rows, lines))
    decreases |lines|
  {
    if lines != [] {
      var line, rest := lines[0], lines[1..];
      var next := Reserve(tx, orderId, line);
      assert forall i :: 0 < i < |lines| ==> lines[i] == rest[i - 1];
      PlaceItemsTotal(next, orderId, rest);
      PricedItemsFrame(orderId, next.products.rows, tx.products.rows, rest);
      var created := PricedItems(orderId, tx.products.rows, lines);
      assert created == [created[0]] + PricedItems(orderId, tx.products.rows, rest);
    }
  }

  // ---------------------------------------------------------------------------
  // The properties of a whole checkout

  /** On success every product's stock is decreased by exactly its combined demand. */
  lemma PlaceOrderStock(t: Tables, userId: Option<nat>, input: CreateOrderInput)
    requires Invariants(t) && PlaceOrder(t, userId, input).Ok?
    ensures var after := PlaceOrder(t, userId, input).value.1.products;
      && after.rows.Keys == t.products.rows.Keys
      && forall pid :: pid in t.products.rows ==>
           after.rows[pid] == t.products.rows[pid].(stock := t.products.rows[pid].stock - Demand(input.items, pid))
  {
    PlaceItemsStock(Tx(t.products, t.orderItems, 0), t.orders.nextId, input.items);
  }

  /**
   * A checkout succeeds exactly when the caller is known, the input is well
   * formed, and every product named can serve the combined quantity its lines
   * ask for: two lines for one product need their sum in stock.
   */
  lemma PlaceOrderSucceedsIff(t: Tables, userId: Option<nat>, input: CreateOrderInput)
    requires Invariants(t)
    ensures PlaceOrder(t, userId, input).Ok?
            <==> && userId.Some? && ValidInput(input)
                 && forall i :: 0 <= i < |input.items| ==> Reservable(t.products, input.items, input.items[i].productId)
  {
    if userId.Some? && ValidInput(input) {
      PlaceItemsSucceedsIff(Tx(t.products, t.orderItems, 0), t.orders.nextId, input.items);
    }
  }

  /** A successful checkout never oversells: no product's stock becomes negative. */
  lemma PlaceOrderNeverOversells(t: Tables, userId: Option<nat>, input: CreateOrderInput)
    requires Invariants(t) && PlaceOrder(t, userId, input).Ok?
    ensures var after := PlaceOrder(t, userId, input).value.1.products;
      forall i :: 0 <= i < |input.items| ==> input.items[i].productId in after.rows
    ensures var after := PlaceOrder(t, userId, input).value.1.products;
      forall i :: 0 <= i < |input.items| ==> after.rows[input.items[i].productId].stock >= 0
    ensures var after := PlaceOrder(t, userId, input).value.1.products;
      (forall pid :: pid in t.products.rows ==> t.products.rows[pid].stock >= 0)
      ==> forall pid :: pid in after.rows ==> after.rows[pid].stock >= 0
  {
    PlaceOrderStock(t, userId, input);
    PlaceOrderSucceedsIff(t, userId, input);
    var after := PlaceOrder(t, userId, input).value.1.products;
    forall pid | pid in t.products.rows && !(exists i :: 0 <= i < |input.items| && input.items[i].productId == pid)
      ensures after.rows[pid].stock == t.products.rows[pid].stock
    {
      DemandOfAbsent(input.items, pid);
    }
  }

  /**
   * The new order's items are one per line, in input order, each priced at the
   * product's unit price times the quantity; the order's final total is the sum
   * of those items' prices, and no earlier order item changes.
   */
  lemma PlaceOrderRecordsItems(t: Tables, userId: Option<nat>, input: CreateOrderInput)
    requires Invariants(t) && PlaceOrder(t, userId, input).Ok?
    ensures forall i :: 0 <= i < |input.items| ==> input.items[i].productId in t.products.rows
    ensures var orderId := PlaceOrder(t, userId, input).value.0;
      var after := PlaceOrder(t, userId, input).value.1;
      var created := PricedItems(orderId, t.products.rows, input.items);
      var base := t.orderItems.nextId;
      && (forall k :: k in after.orderItems.rows <==> k in t.orderItems.rows || base <= k < base + |input.items|)
      && (forall k :: k in t.orderItems.rows ==> after.orderItems.rows[k] == t.orderItems.rows[k])
      && (forall i :: 0 <= i < |input.items| ==> after.orderItems.rows[base + i] == created[i])
      && after.orders.rows[orderId].totalAmount == SumPrices(created)
  {
    var tx := Tx(t.products, t.orderItems, 0);
    PlaceItemsKeys(tx, t.orders.nextId, input.items);
    PlaceItemsRows(tx, t.orders.nextId, input.items);
    PlaceItemsTotal(tx, t.orders.nextId, input.items);
  }
}
