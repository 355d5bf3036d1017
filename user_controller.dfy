/**
 * The account handlers: a user's own profile and password, and the admin's
 * update and deletion of any account.  `userId` is the caller's id (profile,
 * password) or the `:userId` path parameter (admin).
 */
module UserController {

  import opened Store
  import opened Models
  import opened Replies
  import opened Db
  import opened AuthController

  /** A user as the admin update shows it. */
  datatype AdminProfile = AdminProfile(id: nat, name: string, email: string, role: string)

  /**
   * `UpdateProfile`: the payload's `validate` tags are never checked, so any
   * name is taken, except that an empty one leaves the stored name alone.
   */
  method UpdateProfile(db: Database, userId: nat, name: string) returns (r: Result<Profile>)
    requires db.Valid()
    modifies db
    ensures db.Valid()
    ensures db.Snapshot() == old(db.Snapshot()).(users := db.users)
    ensures r.Ok? <==> userId in old(db.users.rows)
    ensures r.Err? ==> r == Err(NotFound, "User not found") && db.users == old(db.users)
    ensures r.Ok? ==>
      && db.users.nextId == old(db.users.nextId)
      && db.users.rows == old(db.users.rows)[userId := old(db.users.rows[userId]).(name := if name != "" then name else old(db.users.rows[userId]).name)]
      && r.value == Profile(userId, db.users.rows[userId].name, old(db.users.rows[userId]).email)
  {
    if userId !in db.users.rows {
      return Err(NotFound, "User not found");
    }
    var existingUser := db.users.rows[userId];
    if name != "" {
      existingUser := existingUser.(name := name);
    }
    db.users := db.users.Update(userId, existingUser);
    r := Ok(Profile(userId, existingUser.name, existingUser.email));
  }

  /** A profile update changes no credential: every sign-in is answered as before. */
  lemma SigninUnaffectedByRename(hash: string -> string, secretKey: string, users: Table<User>, id: nat, name: string, email: string, password: string)
    requires users.Valid() && UniqueEmails(users.rows) && id in users.rows
    ensures var after := users.Update(id, users.rows[id].(name := name));
      Signin(hash, secretKey, after, email, password) == Signin(hash, secretKey, users, email, password)
  {
    var after := users.Update(id, users.rows[id].(name := name));
    assert UniqueEmails(after.rows);
    if EmailTaken(users, email) {
      var k :| k in users.rows && users.rows[k].email == email;
      AccountForOwner(users, k);
      AccountForOwner(after, k);
    } else {
      assert !EmailTaken(after, email);
    }
  }

  /**
   * `ChangePassword`: the old password must match the stored hash; then the
   * stored password becomes the hash of the new one (which is not validated).
   */
  method ChangePassword(db: Database, hash: string -> string, userId: nat, oldPassword: string, newPassword: string)
    returns (r: Result<()>)
    requires db.Valid()
    modifies db
    ensures db.Valid()
    ensures db.Snapshot() == old(db.Snapshot()).(users := db.users)
    ensures userId !in old(db.users.rows) ==> r == Err(NotFound, "User not found")
    ensures userId in old(db.users.rows) && !ComparePassword(hash, old(db.users.rows[userId]).password, oldPassword)
            ==> r == Err(Unauthorized, "Invalid credentials!")
    ensures r.Ok? <==> userId in old(db.users.rows) && ComparePassword(hash, old(db.users.rows[userId]).password, oldPassword)
    ensures r.Ok? ==>
      && db.users.nextId == old(db.users.nextId)
      && db.users.rows == old(db.users.rows)[userId := old(db.users.rows[userId]).(password := hash(newPassword))]
    ensures r.Err? ==> db.users == old(db.users)
  {
    if userId !in db.users.rows {
      return Err(NotFound, "User not found");
    }
    var existingUser := db.users.rows[userId];
    if !ComparePassword(hash, existingUser.password, oldPassword) {
      return Err(Unauthorized, "Invalid credentials!");
    }
    existingUser := existingUser.(password := hash(newPassword));
    db.users := db.users.Update(userId, existingUser);
    r := Ok(());
  }

  /** After a password change the new password signs in and an old one that hashes differently does not. */
  lemma SigninAfterPasswordChange(hash: string -> string, secretKey: string, users: Table<User>, id: nat, oldPassword: string, newPassword: string)
    requires users.Valid() && UniqueEmails(users.rows) && id in users.rows
    requires users.rows[id].email != "" && secretKey != ""
    ensures var after := users.Update(id, users.rows[id].(password := hash(newPassword)));
      && (newPassword != "" ==> Signin(hash, secretKey, after, users.rows[id].email, newPassword) == Ok(id))
      && (hash(oldPassword) != hash(newPassword) ==> Signin(hash, secretKey, after, users.rows[id].email, oldPassword).Err?)
  {
    var after := users.Update(id, users.rows[id].(password := hash(newPassword)));
    assert UniqueEmails(after.rows);
    AccountForOwner(after, id);
  }

  /**
   * The admin merge as the handler writes it: a supplied e-mail, name or role
   * replaces the stored one, and a supplied password makes the stored password
   * the hash of the stored hash.
   */
  function AdminMerge(hash: string -> string, existing: User, u: User): (r: User)
    ensures u == User("", "", "", "") ==> r == existing
    // the supplied password never reaches the record: only the stored hash does, or its hash
    ensures r.password == existing.password || r.password == hash(existing.password)
  {
    existing.(
      email := if u.email != "" then u.email else existing.email,
      name := if u.name != "" then u.name else existing.name,
      password := if u.password != "" then hash(existing.password) else existing.password,
      role := if u.role != "" then u.role else existing.role)
  }

  /** The merge with the supplied password hashed, as the non-empty guard evidently intends. */
  function AdminMergeIntended(hash: string -> string, existing: User, u: User): (r: User)
    ensures u.password != "" ==> ComparePassword(hash, r.password, u.password)
    ensures u.password == "" ==> r.password == existing.password
    ensures r.(password := existing.password) == AdminMerge(hash, existing, u).(password := existing.password)
  {
    AdminMerge(hash, existing, u).(password := if u.password != "" then hash(u.password) else existing.password)
  }

  /**
   * With an injective hash, after the merge as written the only password that
   * matches the record is the old stored hash itself; the supplied one never
   * does unless it equals that hash.
   */
  lemma AdminMergeKeepsOnlyOldHash(hash: string -> string, existing: User, u: User, p: string)
    requires forall a, b :: hash(a) == hash(b) ==> a == b
    requires u.password != ""
    ensures ComparePassword(hash, AdminMerge(hash, existing, u).password, p) <==> p == existing.password
  {
  }

  /** A concrete account the merge as written locks out of its new password. */
  lemma AdminMergeLocksOut()
    ensures var hash := (s: string) => "h" + s;
      var existing := User("Ann", "ann@shop.io", "hsecret1", "customer");
      var u := User("Ann", "ann@shop.io", "newpass1", "");
      && !ComparePassword(hash, AdminMerge(hash, existing, u).password, u.password)
      && ComparePassword(hash, AdminMergeIntended(hash, existing, u).password, u.password)
  {
    var hash := (s: string) => "h" + s;
    assert hash("newpass1") == "hnewpass1";
    assert hash("hsecret1") == "hhsecret1";
  }

  /**
   * `UpdateUserByAdmin`: the whole record is validated, the target must exist,
   * and a changed e-mail must be unused; then the fields merge as the handler
   * writes them.
   */
  method UpdateUserByAdmin(db: Database, hash: string -> string, isEmail: string -> bool, userId: nat, u: User)
    returns (r: Result<AdminProfile>)
    requires db.Valid()
    modifies db
    ensures db.Valid()
    ensures db.Snapshot() == old(db.Snapshot()).(users := db.users)
    ensures !ValidUser(isEmail, u) ==> r == Err(BadRequest, ValidationMessage(isEmail, u))
    ensures ValidUser(isEmail, u) && userId !in old(db.users.rows) ==> r == Err(NotFound, "User not found")
    ensures ValidUser(isEmail, u) && userId in old(db.users.rows)
            && u.email != "" && u.email != old(db.users.rows[userId]).email && EmailTaken(old(db.users), u.email)
            ==> r == Err(Conflict, "Email already exists!")
    ensures r.Ok? <==>
      && ValidUser(isEmail, u) && userId in old(db.users.rows)
      && !(u.email != "" && u.email != old(db.users.rows[userId]).email && EmailTaken(old(db.users), u.email))
    ensures r.Ok? ==>
      && db.users.nextId == old(db.users.nextId)
      && db.users.rows == old(db.users.rows)[userId := AdminMerge(hash, old(db.users.rows[userId]), u)]
      && r.value == AdminProfile(userId, db.users.rows[userId].name, db.users.rows[userId].email, db.users.rows[userId].role)
    ensures r.Err? ==> db.users == old(db.users)
  {
    if !ValidUser(isEmail, u) {
      return Err(BadRequest, ValidationMessage(isEmail, u));
    }
    if userId !in db.users.rows {
      return Err(NotFound, "User not found");
    }
    var existingUser := db.users.rows[userId];
    if u.email != "" && u.email != existingUser.email {
      if EmailTaken(db.users, u.email) {
        return Err(Conflict, "Email already exists!");
      }
      existingUser := existingUser.(email := u.email);
    }
    if u.name != "" {
      existingUser := existingUser.(name := u.name);
    }
    if u.password != "" {
      existingUser := existingUser.(password := hash(existingUser.password));
    }
    if u.role != "" {
      existingUser := existingUser.(role := u.role);
    }
    db.users := db.users.Update(userId, existingUser);
    assert UniqueEmails(db.users.rows);
    r := Ok(AdminProfile(userId, existingUser.name, existingUser.email, existingUser.role));
  }

  /**
   * The ids of the carts a user owns.  They are stored ids, so id 0, which the
   * sequence never hands out, is never among them.
   */
  function CartsOwnedBy(carts: Table<Cart>, userId: nat): (r: set<nat>)
    requires carts.Valid()
    ensures r <= carts.rows.Keys
    ensures 0 !in r
  {
    set k | k in carts.rows && carts.rows[k].userId == userId
  }

  /**
   * The writes of `DeleteUserByAdmin` as the handler issues them: the user row,
   * the user's carts, and then the cart lines whose cart id is that of the
   * never-filled `cart` variable, which is 0.
   */
  function RemoveUser(t: Tables, userId: nat): (r: Tables)
    requires Invariants(t) && userId in t.users.rows
    ensures Invariants(r)
    ensures r == t.(users := r.users, carts := r.carts, cartItems := r.cartItems)
    ensures r.users.rows == t.users.rows - {userId}
    ensures forall k :: k in r.carts.rows <==> k in t.carts.rows && k !in CartsOwnedBy(t.carts, userId)
    ensures forall k :: k in r.cartItems.rows <==> k in t.cartItems.rows && t.cartItems.rows[k].cartId != 0
    ensures forall k :: k in r.carts.rows ==> r.carts.rows[k] == t.carts.rows[k]
    ensures forall k :: k in r.cartItems.rows ==> r.cartItems.rows[k] == t.cartItems.rows[k]
  {
    var cartId := 0;
    t.(users := t.users.Remove(userId),
       carts := t.carts.DeleteWhere((c: Cart) => c.userId == userId),
       cartItems := t.cartItems.DeleteWhere((it: CartItem) => it.cartId == cartId))
  }

  /** The deletion as the comment "delete the cart items" intends: the lines of the removed carts go too. */
  function RemoveUserIntended(t: Tables, userId: nat): (r: Tables)
    requires Invariants(t) && userId in t.users.rows
    ensures Invariants(r)
    ensures r.users == RemoveUser(t, userId).users && r.carts == RemoveUser(t, userId).carts
    ensures r == t.(users := r.users, carts := r.carts, cartItems := r.cartItems)
    ensures forall k :: k in r.cartItems.rows <==>
      k in t.cartItems.rows && t.cartItems.rows[k].cartId !in CartsOwnedBy(t.carts, userId)
    ensures forall k :: k in r.cartItems.rows ==> r.cartItems.rows[k] == t.cartItems.rows[k]
  {
    var owned := CartsOwnedBy(t.carts, userId);
    t.(users := t.users.Remove(userId),
       carts := t.carts.DeleteWhere((c: Cart) => c.userId == userId),
       cartItems := t.cartItems.DeleteWhere((it: CartItem) => it.cartId in owned))
  }

  /** As written, every line of the deleted user's cart survives, now pointing at a deleted cart. */
  lemma RemoveUserKeepsCartLines(t: Tables, userId: nat, k: nat)
    requires Invariants(t) && userId in t.users.rows
    requires k in t.cartItems.rows && t.cartItems.rows[k].cartId in CartsOwnedBy(t.carts, userId)
    ensures k in RemoveUser(t, userId).cartItems.rows
    ensures t.cartItems.rows[k].cartId !in RemoveUser(t, userId).carts.rows
  {
  }

  /** As intended, no remaining line points at a cart removed with its owner. */
  lemma RemoveUserIntendedLeavesNoOrphans(t: Tables, userId: nat)
    requires Invariants(t) && userId in t.users.rows
    ensures var r := RemoveUserIntended(t, userId);
      forall k :: k in r.cartItems.rows ==>
        (r.cartItems.rows[k].cartId in t.carts.rows ==> r.cartItems.rows[k].cartId in r.carts.rows)
  {
  }

  /** `DeleteUserByAdmin`: an unknown id is NotFound; otherwise the writes of RemoveUser. */
  method DeleteUserByAdmin(db: Database, userId: nat) returns (r: Result<()>)
    requires db.Valid()
    modifies db
    ensures db.Valid()
    ensures userId !in old(db.users.rows) ==> r == Err(NotFound, "User not found") && db.Snapshot() == old(db.Snapshot())
    ensures userId in old(db.users.rows) ==> r == Ok(()) && db.Snapshot() == RemoveUser(old(db.Snapshot()), userId)
  {
    if userId !in db.users.rows {
      return Err(NotFound, "User not found");
    }
    db.users := db.users.Remove(userId);
    var cartId := 0;
    db.carts := db.carts.DeleteWhere((c: Cart) => c.userId == userId);
    db.cartItems := db.cartItems.DeleteWhere((it: CartItem) => it.cartId == cartId);
    r := Ok(());
  }
}
