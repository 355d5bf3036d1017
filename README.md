# Ecommerce-Api checkout, cart and account core in Dafny

A model of the request handlers of a Go/gin e-commerce REST backend that
change state: the checkout transaction, order cancellation and admin status
updates, the shopping cart, the token guard in front of the routes, sign-up
and sign-in, and the account updates. A handler that writes is a Dafny `method`
over one `Db.Database` object; the read-only ones (`Signin`, `GetUserOrderByID`,
`DecodeJwt`) are functions of the tables they read, and token validation is a
function parameter. The database object holds one table per record kind. A table
(`Store.Table`) is a map from a positive integer id to a row, plus the next
auto-increment id, as the ORM presents a table.

Modules, in dependency order:

- `Store`: tables and the five ORM operations the handlers use: `Create` as
  `Insert`, `Save` as `Update`, `Delete` as `Remove`, `Where(..).Delete` as
  `DeleteWhere`, and `Where(..).First` as `FirstWhere`. `First` returns the
  matching row with the lowest id.
- `Models`, `Replies`: the records, the closed set of five order statuses,
  the error codes and the error reply of `handleError`.
- `Db`: the database object, the uniqueness invariants the handlers keep (one
  cart line per cart and product, unique e-mails), and the cart-of-user and
  e-mail-taken lookups.
- `Checkout`: the checkout transaction as a function `PlaceOrder` of the
  database before it, with the lemmas about stock, success, pricing and totals.
- `OrderController`: the `CreateOrder` method, which inserts the order and its
  address on private copies of the tables, runs the loop over the line items
  (the method `ReserveItems`), and then commits or rolls back. Both are proved
  equal to `PlaceOrder` and `PlaceItems`. The module also holds the
  owner-filtered order lookup, cancellation and the admin status update.
- `CartController`, `AuthMiddleware`, `AuthController`, `UserController`: the
  remaining handlers.

Modelling choices:

- Prices and totals are integers (cents).
- Password hashing is a function parameter `hash`. A password matches when
  `hash(plain)` equals the stored string.
- Token validation is a function parameter `validate`. It returns the claimed
  user id or the validator's error text.
- The validator's `email` rule is a parameter `isEmail`.
- A handler's reply is `Ok(value)` or `Err(code, message)`, with the handler's
  exact message strings. Typos and trailing spaces are kept.
- The `User` record carries a `role` field. The handlers read and write
  `Role`, but models/user.model.go:5-12 declares no such field. Because the
  field is there, `Signup` stores whatever role the request body carries, so
  in the model a sign-up may give itself the role "admin" and then pass
  `CheckAdmin`. That follows from adding the field; the source struct has none
  to bind.
- Ids come from the database's sequences (the store is PostgreSQL,
  database/connectDB.go:40). A sequence is not rolled back with a transaction,
  so the ids a failed checkout drew stay used.

Behaviour of the code worth noting:

- Order statuses form no forward-only machine. The admin may set any of the five
  statuses from any status. The owner may cancel only a pending order, and
  otherwise gets `BadRequest`, not a distinct transition error.
- The order request's `items` list may be empty (`required` on a slice only
  rejects an absent list). Such an order is created with total 0.
- The contact number must have exactly ten characters. Nothing requires them
  to be digits.
- Sign-up creates no cart. Deleting a user deletes that user's carts but, as
  the code is written, not their lines (see Findings).
- Insufficient stock is `BadRequest`.
- A checkout that fails inside its transaction leaves no row behind, but the
  order, the address and every order item inserted before the failing line
  have still used up their ids.
- Adding to the cart validates nothing about the quantity. `CartItem` has no
  `validate` tags, so zero or negative quantities are stored or added.
- `UpdateProfile` and `ChangePassword` check none of their `validate` tags.
  Those tags need an explicit `validate.Struct`, which these two handlers never
  call. Any non-empty name and any new password, the empty one included, are
  accepted.
- `UpdateUserByAdmin` validates the whole record. Name, e-mail and password
  therefore always reach the merge non-empty, and only the role guard can be
  false. So every successful admin update re-hashes the stored password.

## Model

| member | source | states |
|---|---|---|
| Store.Table.Insert | controllers/order.controller.go:70 | `Create` stores the row under the next id, which is fresh and positive, and leaves every other row as it was |
| Store.Table.Update | controllers/order.controller.go:115 | `Save` of a row read before overwrites exactly that row and keeps the id set and the counter |
| Store.Table.Remove | controllers/cart.controller.go:165 | `Delete` of a row read before removes exactly that id |
| Store.Table.DeleteWhere | controllers/user.controller.go:279 | `Where(cond).Delete` keeps exactly the rows that fail the condition, unchanged |
| Store.Table.FirstWhere | controllers/cart.controller.go:61 | `Where(cond).First` yields a matching row with no lower matching id, and yields nothing exactly when no row matches |
| Store.Table.ScanFrom | controllers/cart.controller.go:61 | the lowest matching id at or above a bound, or nothing exactly when there is none |
| Models.ParseStatus | models/order.model.go:7-13 | a status name parses to the status with that name, and every one of the five names parses |
| Replies.HttpStatus | controllers/cart.controller.go:15-17 | each error code maps to its HTTP status (400, 401, 403, 404, 409, 500), and status and code determine each other |
| Replies.CodeFor | controllers/cart.controller.go:15-17 | the error code a status stands for, so that status and code determine each other; nothing for a status no code has |
| Replies.HandleError | controllers/cart.controller.go:15-17 | every error reply has `success = false` and the given message, and its status gives back the code it was built from |
| Replies.ErrorReply | controllers/cart.controller.go:15-17 | a handler's error result is sent as a `success = false` reply from which the code and message can be recovered: no two error results are sent alike |
| Db.CartOf | controllers/cart.controller.go:60-64 | the caller's cart is a cart the caller owns, and there is none exactly when the caller owns no cart |
| Db.EmailTaken | controllers/auth.controller.go:50-60 | true exactly when some stored account has the e-mail |
| Db.Database.constructor | database/connectDB.go:46 | a fresh database is empty and satisfies the invariants |
| Checkout.ValidInput | controllers/order.controller.go:14-34 | the binding rules of the request body. A valid request has every quantity at least 1 |
| Checkout.ValidInputLines | controllers/order.controller.go:14-34 | the line rules judge each line alone: a list passes exactly when both of its parts pass, and an empty list passes whenever the address and contact do |
| Checkout.Reserve | controllers/order.controller.go:114-133 | an accepted line keeps both tables well formed and the product ids the same |
| Checkout.PlaceItems | controllers/order.controller.go:94-134 | the loop either succeeds with well-formed tables and the same products, or fails with one of the three product errors |
| Checkout.Accepted | controllers/order.controller.go:94-134 | how many lines the loop accepts before it rejects one, at most all of them |
| Checkout.AcceptedAll | controllers/order.controller.go:94-134 | the loop succeeds exactly when it accepts every line |
| Checkout.PlaceItemsStep | controllers/order.controller.go:94-134 | after an accepted line the loop goes on from the reserved state, one more line accepted |
| Checkout.PlaceItemsStop | controllers/order.controller.go:95-112 | a rejected line ends the loop with its NotFound or BadRequest error, after exactly the lines before it were accepted |
| Checkout.PlaceOrder | controllers/order.controller.go:37-148 | a missing caller is Unauthorized and bad input BadRequest before any write. Other failures are the three product errors. A success adds exactly one pending order owned by the caller and one address linked to it with the input fields, keeps the invariants, and leaves carts, cart lines and users alone |
| Checkout.DemandNonNegative | controllers/order.controller.go:94 | with quantities of at least 1, the combined demand for a product is never negative |
| Checkout.DemandOfAbsent | controllers/order.controller.go:94 | a product no line names has demand 0 |
| Checkout.PlaceItemsStock | controllers/order.controller.go:94-119 | after the loop each product's stock is its old stock minus the combined quantity of its lines, and nothing else about a product changes |
| Checkout.PlaceItemsSucceedsIff | controllers/order.controller.go:94-112 | with quantities of at least 1, the loop succeeds exactly when every product named exists, is available and has stock for the sum of its lines |
| Checkout.PricedItems | controllers/order.controller.go:121-127 | one order item per line, in line order, priced at unit price times quantity |
| Checkout.PricedItemsFrame | controllers/order.controller.go:114-121 | the priced items depend only on the prices, which the stock decrements do not change |
| Checkout.PlaceItemsKeys | controllers/order.controller.go:121-132 | the loop adds one order item per line under consecutive fresh ids and keeps every earlier item |
| Checkout.PlaceItemsRows | controllers/order.controller.go:121-132 | the item for line i sits at the i-th fresh id and records the product, the quantity and unit price times quantity |
| Checkout.PlaceItemsTotal | controllers/order.controller.go:121-133 | the running total grows by exactly the sum of the prices of the items written |
| Checkout.PlaceOrderStock | controllers/order.controller.go:94-119 | a successful checkout decreases each product's stock by exactly its combined demand, so repeated products accumulate their decrements |
| Checkout.PlaceOrderSucceedsIff | controllers/order.controller.go:42-112 | a checkout succeeds exactly when the caller is known, the input is well formed and each named product can serve the sum of its lines |
| Checkout.PlaceOrderNeverOversells | controllers/order.controller.go:108-119 | after a successful checkout every named product's stock is at least 0, and stocks that were non-negative stay non-negative |
| Checkout.PlaceOrderRecordsItems | controllers/order.controller.go:121-137 | the new order's items are one per line at fresh ids, each priced at unit price times quantity. Earlier items are kept, and the stored total equals the sum of the new items' prices |
| OrderController.CreateOrder | controllers/order.controller.go:37-156 | the method's result and, on success, its final database are those of PlaceOrder. An error before the transaction changes nothing. An error inside it (rollback) restores every row, while the order and address sequences have moved on by one and the order-item sequence by the number of accepted lines |
| OrderController.ReserveItems | controllers/order.controller.go:93-134 | the loop over the lines yields exactly what PlaceItems yields, and the next order-item id after the accepted lines |
| OrderController.Rollback | controllers/order.controller.go:97-110 | a rollback leaves every row as it was and keeps the sequences where the transaction left them |
| OrderController.GetUserOrderByID | controllers/order.controller.go:186-211 | a missing caller is Unauthorized. Otherwise the order is found exactly when it exists and the caller owns it (NotFound otherwise). It is shown with exactly its own items and with an address of its own, absent exactly when the order has none; of several, the model shows the one of lowest id |
| OrderController.CancelUserOrder | controllers/order.controller.go:214-249 | the owner's pending order becomes cancelled and nothing else changes. An order not found by the owner lookup is NotFound, and a non-pending one is BadRequest, with no change |
| OrderController.AdminUpdateOrderStatus | controllers/order.controller.go:360-392 | an unknown order is NotFound before the body is read, and a name outside the five statuses is BadRequest. Otherwise exactly the named status is set, whatever the current one |
| CartController.LineFor | controllers/cart.controller.go:66-67 | the line found is one of the caller's cart for the product, and there is none exactly when no such line exists |
| CartController.AddToCart | controllers/cart.controller.go:41-99 | no cart is NotFound with the lines untouched. A product already in the cart has its line's quantity increased by the amount and no row added; otherwise exactly one line is inserted in the caller's cart. At most one line per cart and product is kept |
| CartController.UpdateCartItemQuantity | controllers/cart.controller.go:101-142 | a quantity below 1 is BadRequest, a missing line NotFound, a line outside the caller's cart Forbidden, with no change. Otherwise exactly that line's quantity becomes the new value |
| CartController.DeleteCartItem | controllers/cart.controller.go:144-175 | the same NotFound and Forbidden guards, with no change on error; on success exactly the targeted line is removed |
| AuthMiddleware.ExtractToken | middlewares/auth.middleware.go:15-30 | a non-empty header is accepted exactly when it starts with "Bearer ", and the token is the header with that prefix removed. An empty header uses the cookie, and no cookie is an error |
| AuthMiddleware.BearerRoundTrip | middlewares/auth.middleware.go:25-26 | "Bearer " followed by a token yields exactly that token, whatever the cookie |
| AuthMiddleware.DecodeJwt | middlewares/auth.middleware.go:14-49 | extraction and validation failures pass their text through, and an unknown user gives "record not found". A user is resolved exactly when the token validates and names a stored user |
| AuthMiddleware.Context.constructor | middlewares/auth.middleware.go:51-53 | a request context starts with nothing set, no reply, not aborted |
| AuthMiddleware.Context.Reject | middlewares/auth.middleware.go:55-59 | the `handleError` reply for Unauthorized with the message, and the chain aborted |
| AuthMiddleware.Context.Admit | middlewares/auth.middleware.go:62-64 | "userid" and "usertype" set to the given id and role, then the next handler runs |
| AuthMiddleware.CheckUser | middlewares/auth.middleware.go:51-66 | any decoding failure is a 401 with its message and an abort, and the next handler does not run. Otherwise the resolved id and role are set and the next handler runs |
| AuthMiddleware.CheckAdmin | middlewares/auth.middleware.go:68-90 | the next handler runs exactly when the token resolves to a user whose role is "admin", with id and role set. Every other request is a 401 and aborted, with "Unauthorized access" for a non-admin |
| AuthController.FieldErrors | models/user.model.go:7-9 | the validator reports no error exactly when the name has 2 to 100 characters, the e-mail is one and non-empty, and the password has at least 6 characters |
| AuthController.JoinLines | controllers/auth.controller.go:37-41 | the error texts joined one per line: empty exactly when there are no errors, and starting with the first error's text |
| AuthController.ValidationMessage | controllers/auth.controller.go:37-41 | the reply text of a rejected record is never empty |
| AuthController.Signup | controllers/auth.controller.go:19-102 | an invalid record is BadRequest, and a taken e-mail Conflict, with nothing inserted. Otherwise one account is added under a fresh id with the password hashed, never the plaintext. The reply has id, name and e-mail, without the password |
| AuthController.AccountFor | controllers/auth.controller.go:131 | the account found holds the e-mail, and there is none exactly when the e-mail is not taken |
| AuthController.Signin | controllers/auth.controller.go:104-169 | an empty e-mail or password is BadRequest. An unknown e-mail and a wrong password get the same Unauthorized reply. A token is issued, for the account's id, only after both checks pass and when a signing key is set |
| AuthController.AccountForOwner | controllers/auth.controller.go:131 | with unique e-mails, the lookup by an account's e-mail finds that account |
| AuthController.SigninAfterSignup | controllers/auth.controller.go:69-82 | after a sign-up, signing in with the same e-mail and password reaches the new account |
| AuthController.SigninSucceedsIff | controllers/auth.controller.go:129-165 | with unique e-mails, a sign-in reaches the e-mail's holder exactly when the password hashes to the stored one, and fails for an unused e-mail |
| UserController.UpdateProfile | controllers/user.controller.go:44-88 | an unknown user is NotFound with no change. Otherwise only the name changes, and only when the supplied one is non-empty. The reply has id, name and e-mail |
| UserController.SigninUnaffectedByRename | controllers/user.controller.go:63-73 | a profile update changes no sign-in outcome |
| UserController.ChangePassword | controllers/user.controller.go:90-138 | an unknown user is NotFound, and a wrong old password Unauthorized, with no change. Otherwise only the stored password changes, to the hash of the new one |
| UserController.SigninAfterPasswordChange | controllers/user.controller.go:114-127 | after a change the new password signs in and an old one hashing differently does not |
| UserController.AdminMerge | controllers/user.controller.go:208-237 | the merge as written: an empty payload changes nothing, and the stored password ends up as the old hash or the hash of it, never as anything derived from the supplied password |
| UserController.AdminMergeIntended | controllers/user.controller.go:225-233 | a supplied password becomes the stored one's hash, and the other fields merge as written |
| UserController.AdminMergeKeepsOnlyOldHash | controllers/user.controller.go:225-233 | with an injective hash, after the merge as written the only matching password is the old stored hash string |
| UserController.AdminMergeLocksOut | controllers/user.controller.go:225-233 | a concrete account whose new password fails after the merge as written and matches after the intended one |
| UserController.UpdateUserByAdmin | controllers/user.controller.go:183-256 | an invalid record is BadRequest, an unknown id NotFound, and a changed e-mail held by some account Conflict, all with no change. Otherwise the record merges as written under the non-empty guards, e-mails stay unique, and the reply includes the role |
| UserController.CartsOwnedBy | controllers/user.controller.go:278-279 | the user's carts are stored carts, and id 0 is never among them, since the sequence never hands it out |
| UserController.RemoveUser | controllers/user.controller.go:267-289 | the deletion as written removes the user and the user's carts, then the cart lines with cart id 0. Everything else is unchanged and the invariants hold |
| UserController.RemoveUserIntended | controllers/user.controller.go:277-289 | the intended deletion also removes exactly the lines of the removed carts |
| UserController.RemoveUserKeepsCartLines | controllers/user.controller.go:284-289 | as written, every line of the deleted user's cart survives and points at a cart that no longer exists |
| UserController.RemoveUserIntendedLeavesNoOrphans | controllers/user.controller.go:284-289 | as intended, no remaining line points at a cart removed with its owner |
| UserController.DeleteUserByAdmin | controllers/user.controller.go:258-296 | an unknown id is NotFound with no change. Otherwise the database becomes RemoveUser of the old one |

## Left out

- HTTP and gin plumbing are not modelled: request parsing, JSON syntax errors, response bodies beyond the reply's fields, and the 10-second context timeouts.
- Store-write, query and commit failures are not modelled (the `InternalServerError` branches after `Create`, `Save`, `Find`, `Delete` and `Commit`), nor the `recover` that rolls back on a panic.
- Concurrency is not modelled: isolation levels, row locks and two checkouts racing for the same stock.
- Prices and totals are `float64` in the source and integers (cents) here, so IEEE rounding is not modelled.
- Integers are unbounded: 64-bit overflow of `stock - quantity` or `price * quantity` is not modelled.
- bcrypt hashing and comparison, and JWT validation, are function parameters. The hashing-failure branches are not modelled.
- The token's contents are not modelled. Sign-in models only the id the token is issued for and the missing-signing-key failure of helpers/token.helper.go:21-24. It does not model that `string(existingUser.ID)` at controllers/auth.controller.go:151 turns the id into a rune rather than decimal digits.
- `helpers.ValidateToken` is not part of this model: its source is absent.
- User and order ids in path parameters arrive as strings. They are modelled as the ids they denote, so a malformed path id behaves like an unknown one.
- DecodeJwt: the user id of the token's claims is modelled as the id it denotes. A claim that is not a number makes the database report a cast error, whose text the guard passes on instead of "record not found"; the status is 401 either way.
- A client-supplied `id` in a bound user or cart-line body is not modelled. Nor are timestamps or the e-mail validator's regular expression (the `isEmail` parameter).
- DecodeJwt: a validator error with an empty text, which would make the guard dereference a nil user, is not modelled. Any rejection is a failure.
- ExtractToken: the cookie value is taken as delivered; unescaping is not modelled.
- Database schemas beyond the user table are not modelled. The program migrates only that table (database/connectDB.go:46), so no foreign key or cascade is assumed for carts, lines or orders, and neither is the `unique` owner of a cart (models/cart.model.go:9): no handler creates a cart, and `CartOf` takes a user's cart of lowest id.
- GetUserOrderByID: `Preload("ShippingAddress")` (controllers/order.controller.go:200) orders nothing, so which of several address rows of one order is shown is up to the ORM. Showing the one with the lowest id is the model's choice. `CreateOrder` writes exactly one address per order, so for orders it created there is only one to show.
- AddToCart: the bound `CartItem` body may carry a nested `Product` object (models/cart.model.go:20). On `Create` the ORM would upsert that product and take the line's product id from it, so such a body could store a second line for a product already in the cart, or a new product row. The model does not capture the nested object. Its guarantees that only cart lines change and that a cart keeps one line per product hold for bodies without it.
- The responses of `AddToCart` and `GetUserOrderByID` preload the whole cart or order with its products. The model returns the cart id and the order with its own items and address.
- Wiring is not modelled. The cart delete route binds `:id` (routes/cart.router.go:15) while the handler reads `cartItemId`, so that lookup never finds a line. Product update and delete sit outside the admin group (routes/product.router.go:17-18). The user routes are never registered (main.go:56-59).
- controllers/authController.go redeclares `Signup`, so the package as shown does not compile; the auth.controller.go version is modelled.
- Product CRUD and the list and get endpoints for orders, carts and users pass straight through to the ORM and are not modelled.

## Findings

| source | as written | input that shows it | evidently intended | confidence | as-written member | corrected member |
|---|---|---|---|---|---|---|
| controllers/user.controller.go:225-233 | a supplied password makes the stored password `HashPassword()` of the existing record, i.e. the hash of the stored hash | account with stored `hash("secret1")`, admin update with password `newpass1`: signing in with `newpass1` fails, and only the old hash string itself now signs in | store the hash of the supplied password | high, not executed | UserController.AdminMerge, UserController.AdminMergeLocksOut | UserController.AdminMergeIntended |
| controllers/user.controller.go:284-289 | the cart lines are deleted `WHERE cart_id = cart.ID`, but `cart` was never read, so its id is 0 and lines with cart id 0 are deleted | a user owning cart 1 with one line: after the deletion the line is still stored and points at the removed cart 1 | delete the lines of the carts removed with the user | medium, not executed; a database-level cascade on the carts table, which this program does not create, would hide it | UserController.RemoveUserKeepsCartLines | UserController.RemoveUserIntended |

The handlers `UpdateUserByAdmin` and `DeleteUserByAdmin` are modelled as
written, so their contracts describe what the code does; the corrected
definitions sit beside them with their intended properties proved.
