/**
 * The cart handlers.  They run behind the user middleware, so the caller's id
 * is always set; the caller's cart is the first cart row owned by that id.
 */
module CartController {

  import opened Store
  import opened Models
  import opened Replies
  import opened Db

  /** The body of an add-to-cart request.  No validation rule constrains its quantity. */
  datatype CartItemInput = CartItemInput(productId: nat, quantity: int)

  /** The caller's existing line for a product: `Where("cart_id = ? AND product_id = ?").First`. */
  function LineFor(items: Table<CartItem>, cartId: nat, productId: nat): (r: Option<nat>)
    requires items.Valid()
    ensures r.Some? ==> r.value in items.rows && items.rows[r.value].cartId == cartId && items.rows[r.value].productId == productId
    ensures r.None? <==> forall k :: k in items.rows ==> !(items.rows[k].cartId == cartId && items.rows[k].productId == productId)
  {
    items.FirstWhere((it: CartItem) => it.cartId == cartId && it.productId == productId)
  }

  /**
   * `AddToCart`: merge into the caller's line for the product when there is one,
   * otherwise insert a new line in the caller's cart.  Returns the cart's id.
   */
  method AddToCart(db: Database, userId: nat, input: CartItemInput) returns (r: Result<nat>)
    requires db.Valid()
    modifies db
    ensures db.Valid()
    ensures db.Snapshot() == old(db.Snapshot()).(cartItems := db.cartItems)
    ensures CartOf(old(db.carts), userId).None? ==> r == Err(NotFound, "Cart not found") && db.cartItems == old(db.cartItems)
    ensures CartOf(old(db.carts), userId).Some? ==> r == Ok(CartOf(old(db.carts), userId).value)
    // a product already in the cart: its line grows by the requested quantity, no row is added
    ensures r.Ok? ==> forall k :: k in old(db.cartItems.rows) && old(db.cartItems.rows[k]).cartId == r.value
                                && old(db.cartItems.rows[k]).productId == input.productId
                        ==> && db.cartItems.nextId == old(db.cartItems.nextId)
                            && db.cartItems.rows == old(db.cartItems.rows)[k := old(db.cartItems.rows[k]).(quantity := old(db.cartItems.rows[k]).quantity + input.quantity)]
    // a product not yet in the cart: exactly one new line, in the caller's cart
    ensures r.Ok? && LineFor(old(db.cartItems), r.value, input.productId).None? ==>
      && old(db.cartItems.nextId) !in old(db.cartItems.rows)
      && db.cartItems.rows == old(db.cartItems.rows)[old(db.cartItems.nextId) := CartItem(r.value, input.productId, input.quantity)]
  {
    var cart := CartOf(db.carts, userId);
    if cart.None? {
      return Err(NotFound, "Cart not found");
    }
    var cartId := cart.value;
    var existing := LineFor(db.cartItems, cartId, input.productId);
    if existing.Some? {
      var existingItem := db.cartItems.rows[existing.value];
      existingItem := existingItem.(quantity := existingItem.quantity + input.quantity);
      db.cartItems := db.cartItems.Update(existing.value, existingItem);
    } else {
      var created := db.cartItems.Insert(CartItem(cartId, input.productId, input.quantity));
      db.cartItems := created.1;
    }
    r := Ok(cartId);
  }

  /**
   * `UpdateCartItemQuantity`: the new quantity must be at least 1, the line must
   * exist and belong to the caller's cart; then only its quantity changes.
   */
  method UpdateCartItemQuantity(db: Database, userId: nat, cartItemId: nat, quantity: int) returns (r: Result<CartItem>)
    requires db.Valid()
    modifies db
    ensures db.Valid()
    ensures db.Snapshot() == old(db.Snapshot()).(cartItems := db.cartItems)
    ensures quantity < 1 ==> r == Err(BadRequest, "Invalid request payload")
    ensures quantity >= 1 && cartItemId !in old(db.cartItems.rows) ==> r == Err(NotFound, "Cart item not found")
    ensures quantity >= 1 && cartItemId in old(db.cartItems.rows) && CartOf(old(db.carts), userId) != Some(old(db.cartItems.rows[cartItemId]).cartId)
            ==> r == Err(Forbidden, "Unauthorized access to cart item")
    ensures r.Ok? <==> && quantity >= 1 && cartItemId in old(db.cartItems.rows)
                       && CartOf(old(db.carts), userId) == Some(old(db.cartItems.rows[cartItemId]).cartId)
    ensures r.Ok? ==> && db.cartItems.rows == old(db.cartItems.rows)[cartItemId := old(db.cartItems.rows[cartItemId]).(quantity := quantity)]
                      && db.cartItems.nextId == old(db.cartItems.nextId)
                      && r.value == db.cartItems.rows[cartItemId]
    ensures r.Err? ==> db.cartItems == old(db.cartItems)
  {
    if quantity < 1 {
      return Err(BadRequest, "Invalid request payload");
    }
    if cartItemId !in db.cartItems.rows {
      return Err(NotFound, "Cart item not found");
    }
    var cartItem := db.cartItems.rows[cartItemId];
    var cart := CartOf(db.carts, userId);
    if cart.None? || cart.value != cartItem.cartId {
      return Err(Forbidden, "Unauthorized access to cart item");
    }
    cartItem := cartItem.(quantity := quantity);
    db.cartItems := db.cartItems.Update(cartItemId, cartItem);
    r := Ok(cartItem);
  }

  /** `DeleteCartItem`: the same guards as the quantity update; then only that line goes. */
  method DeleteCartItem(db: Database, userId: nat, cartItemId: nat) returns (r: Result<()>)
    requires db.Valid()
    modifies db
    ensures db.Valid()
    ensures db.Snapshot() == old(db.Snapshot()).(cartItems := db.cartItems)
    ensures cartItemId !in old(db.cartItems.rows) ==> r == Err(NotFound, "Cart item not found")
    ensures cartItemId in old(db.cartItems.rows) && CartOf(old(db.carts), userId) != Some(old(db.cartItems.rows[cartItemId]).cartId)
            ==> r == Err(Forbidden, "Unauthorized access to cart item")
    ensures r.Ok? <==> cartItemId in old(db.cartItems.rows) && CartOf(old(db.carts), userId) == Some(old(db.cartItems.rows[cartItemId]).cartId)
    ensures r.Ok? ==> db.cartItems.rows == old(db.cartItems.rows) - {cartItemId} && db.cartItems.nextId == old(db.cartItems.nextId)
    ensures r.Err? ==> db.cartItems == old(db.cartItems)
  {
    if cartItemId !in db.cartItems.rows {
      return Err(NotFound, "Cart item not found");
    }
    var cartItem := db.cartItems.rows[cartItemId];
    var cart := CartOf(db.carts, userId);
    if cart.None? || cart.value != cartItem.cartId {
      return Err(Forbidden, "Unauthorized access to cart item");
    }
    db.cartItems := db.cartItems.Remove(cartItemId);
    r := Ok(());
  }
}
