/**
 * The request guard in front of the user and admin routes.  A request carries
 * its token either in the `Authorization` header, after a mandatory "Bearer "
 * prefix, or, when the header is empty, in the `Authorization` cookie.  Token
 * validation is the parameter `validate`; it yields the user id named by the
 * token's claims or the validator's error text.
 */
module AuthMiddleware {

  import opened Store
  import opened Models
  import opened Replies

  const BearerPrefix: string := "Bearer "

  /** The parts of an HTTP request the guard looks at. */
  datatype Request = Request(authorization: string, cookie: Option<string>)

  /** What token validation says about a token. */
  datatype TokenCheck = Claims(userId: nat) | Rejected(message: string)

  /** The outcome of `DecodeJwt`: the stored user the token names, or the text of the failure. */
  datatype Decoded = Resolved(id: nat, user: User) | Failed(message: string)

  /** Lines 15-30 of `DecodeJwt`: where the token comes from. */
  function ExtractToken(req: Request): (r: Result<string>)
    ensures r.Err? ==> r.code == Unauthorized
    ensures req.authorization != "" ==> (r.Ok? <==> BearerPrefix <= req.authorization)
    ensures req.authorization != "" && r.Ok? ==> BearerPrefix + r.value == req.authorization
    ensures req.authorization != "" && r.Err? ==>
      r.message == "Invalid token format. Include \"Brearer \" prefix "
    ensures req.authorization == "" && req.cookie.Some? ==> r == Ok(req.cookie.value)
    ensures req.authorization == "" && req.cookie.None? ==>
      r == Err(Unauthorized, "No Authorization header or cookie provided")
  {
    if req.authorization == "" then
      if req.cookie.None? then Err(Unauthorized, "No Authorization header or cookie provided")
      else Ok(req.cookie.value)
    else if BearerPrefix <= req.authorization then
      Ok(req.authorization[|BearerPrefix|..])
    else
      Err(Unauthorized, "Invalid token format. Include \"Brearer \" prefix ")
  }

  /** A bearer header hands the validator exactly the token after the prefix, whatever the cookie says. */
  lemma BearerRoundTrip(token: string, cookie: Option<string>)
    ensures ExtractToken(Request(BearerPrefix + token, cookie)) == Ok(token)
  {
  }

  /**
   * `DecodeJwt`: extraction, then validation, then `Where("id = ?").First` on
   * the user table.  A missing user fails with the ORM's "record not found".
   */
  function DecodeJwt(req: Request, validate: string -> TokenCheck, users: Table<User>): (r: Decoded)
    ensures ExtractToken(req).Err? ==> r == Failed(ExtractToken(req).message)
    ensures ExtractToken(req).Ok? && validate(ExtractToken(req).value).Rejected? ==>
      r == Failed(validate(ExtractToken(req).value).message)
    ensures r.Resolved? <==>
      && ExtractToken(req).Ok?
      && validate(ExtractToken(req).value).Claims?
      && validate(ExtractToken(req).value).userId in users.rows
    ensures r.Resolved? ==>
      && r.id == validate(ExtractToken(req).value).userId
      && r.user == users.rows[r.id]
    ensures (&& ExtractToken(req).Ok? && validate(ExtractToken(req).value).Claims?
             && validate(ExtractToken(req).value).userId !in users.rows)
            ==> r == Failed("record not found")
  {
    match ExtractToken(req)
    case Err(_, message) => Failed(message)
    case Ok(token) =>
      match validate(token)
      case Rejected(message) => Failed(message)
      case Claims(userId) =>
        if userId in users.rows then Resolved(userId, users.rows[userId])
        else Failed("record not found")
  }

  /**
   * The gin context of one request, as far as the guard touches it: the values
   * it stores under "userid" and "usertype", the reply it writes, whether it
   * aborted the chain and whether it passed control to the next handler.
   */
  class Context {
    const request: Request
    var userId: Option<nat>
    var userType: Option<string>
    var reply: Option<Reply>
    var aborted: bool
    var nextCalled: bool

    /** A context before any middleware has run. */
    constructor (request: Request)
      ensures this.request == request
      ensures userId.None? && userType.None? && reply.None? && !aborted && !nextCalled
    {
      this.request := request;
      userId := None;
      userType := None;
      reply := None;
      aborted := false;
      nextCalled := false;
    }

    /** `c.JSON(401, {success: false, message})` followed by `c.Abort()`. */
    method Reject(message: string)
      modifies this
      ensures reply == Some(HandleError(Unauthorized, message)) && aborted
      ensures userId == old(userId) && userType == old(userType) && nextCalled == old(nextCalled)
    {
      reply := Some(HandleError(Unauthorized, message));
      aborted := true;
    }

    /** `c.Set("userid", ..)`, `c.Set("usertype", ..)` and `c.Next()`. */
    method Admit(id: nat, role: string)
      modifies this
      ensures userId == Some(id) && userType == Some(role) && nextCalled
      ensures reply == old(reply) && aborted == old(aborted)
    {
      userId := Some(id);
      userType := Some(role);
      nextCalled := true;
    }
  }

  /** `CheckUser`: any request whose token resolves to a stored user goes through. */
  method CheckUser(ctx: Context, validate: string -> TokenCheck, users: Table<User>)
    requires !ctx.aborted && !ctx.nextCalled
    modifies ctx
    ensures var d := DecodeJwt(ctx.request, validate, users);
      && (d.Failed? ==> && ctx.reply == Some(HandleError(Unauthorized, d.message))
                        && ctx.aborted && !ctx.nextCalled
                        && ctx.userId == old(ctx.userId) && ctx.userType == old(ctx.userType))
      && (d.Resolved? ==> && ctx.userId == Some(d.id) && ctx.userType == Some(d.user.role)
                          && ctx.nextCalled && !ctx.aborted && ctx.reply == old(ctx.reply))
  {
    var d := DecodeJwt(ctx.request, validate, users);
    if d.Failed? {
      ctx.Reject(d.message);
      return;
    }
    ctx.Admit(d.id, d.user.role);
  }

  /** `CheckAdmin`: as CheckUser, and the resolved user's role must be exactly "admin". */
  method CheckAdmin(ctx: Context, validate: string -> TokenCheck, users: Table<User>)
    requires !ctx.aborted && !ctx.nextCalled
    modifies ctx
    ensures ctx.nextCalled <==> DecodeJwt(ctx.request, validate, users).Resolved?
                                && DecodeJwt(ctx.request, validate, users).user.role == "admin"
    ensures ctx.aborted <==> !ctx.nextCalled
    ensures var d := DecodeJwt(ctx.request, validate, users);
      && (d.Failed? ==> ctx.reply == Some(HandleError(Unauthorized, d.message)))
      && (d.Resolved? && d.user.role != "admin" ==>
            ctx.reply == Some(HandleError(Unauthorized, "Unauthorized access")))
      && (ctx.nextCalled ==> && ctx.userId == Some(d.id) && ctx.userType == Some("admin")
                             && ctx.reply == old(ctx.reply))
      && (ctx.aborted ==> ctx.userId == old(ctx.userId) && ctx.userType == old(ctx.userType))
  {
    var d := DecodeJwt(ctx.request, validate, users);
    if d.Failed? {
      ctx.Reject(d.message);
      return;
    }
    if d.user.role != "admin" {
      ctx.Reject("Unauthorized access");
      return;
    }
    ctx.Admit(d.id, d.user.role);
  }
}
