/** The auth middlewares (backend/src/middlewares/auth.js) as fixed guard chains.

    A middleware either answers (`Respond`, or `Issue` for 200 with a token),
    calls `next()` with the resulting `req.locals` (`Next`), does neither (`Hang`),
    or catches an exception and answers 500 (`Error500`).

    The credential schema validator, `compareHash`, `generateToken` and
    `decodeToken` are external code; they are parameters (`Deps`) that may throw.
    So is the read of the user table. */
module AuthGate {
  import opened Wrappers
  import opened LogStore
  import opened Accounts

  /** What `decodeToken` may return: a falsy value, or an object whose `userId`
      field may be missing, and whose `userId.id` may be missing in turn. */
  datatype Decoded = Falsy | Claims(userId: Option<IdClaim>)
  datatype IdClaim = IdClaim(id: Option<UserId>)

  /** The contents of `req.locals`: undefined, a bare user id (set by
      `getIdByToken`), or an object holding a bearer token (set by
      `authenticateForRestoreUser`). */
  datatype Locals = Unset | BareId(id: UserId) | TokenBag(token: string)

  /** The parts of a request the middlewares read. */
  datatype Request = Request(body: map<string, string>, authorization: Option<string>, locals: Locals)

  datatype Deps = Deps(
    validateCredentials: (Option<string>, Option<string>) -> Call<bool>,
    compareHash: (Option<string>, string) -> Call<bool>,
    generateToken: UserId -> Call<string>,
    decodeToken: string -> Call<Decoded>)

  datatype Outcome = Respond(status: int) | Issue(token: string) | Next(locals: Locals) | Hang | Error500

  /** JavaScript truthiness of an optional string: present and non-empty. */
  predicate Truthy(s: Option<string>) {
    s.Some? && s.value != ""
  }

  function Email(req: Request): Option<string> {
    if "email" in req.body then Some(req.body["email"]) else None
  }

  function Password(req: Request): Option<string> {
    if "password" in req.body then Some(req.body["password"]) else None
  }

  /** `User.findOne({where: {email}, paranoid})`. A failing table read throws, and so
      does an undefined `email` in the where clause, which Sequelize rejects. */
  function LookupUser(users: Call<seq<User>>, email: Option<string>, paranoid: bool): (r: Call<Option<User>>)
    ensures r.Throws? <==> users.Throws? || email.None?
    ensures r.Returns? ==> (r.value.None? <==> forall u :: u in users.value ==> !Selectable(u, email.value, paranoid))
    ensures r.Returns? && r.value.Some? ==> r.value.value in users.value && Selectable(r.value.value, email.value, paranoid)
  {
    match users
    case Throws => Throws
    case Returns(table) =>
      if email.None? then Throws else Returns(FindByEmail(table, email.value, paranoid))
  }

  /** The outcome of the guards both credential middlewares share, or the user whose
      password matched. */
  datatype Verdict = Stop(outcome: Outcome) | Pass(user: User)

  /** Body key count, then schema, then lookup, then password comparison. */
  function CheckCredentials(req: Request, users: Call<seq<User>>, deps: Deps, paranoid: bool): (v: Verdict)
    ensures v.Stop? ==> v.outcome.Respond? || v.outcome.Error500?
    ensures |req.body| > 2 ==> v == Stop(Respond(406))
    ensures |req.body| <= 2 && deps.validateCredentials(Email(req), Password(req)).Throws? ==> v == Stop(Error500)
    ensures |req.body| <= 2 && deps.validateCredentials(Email(req), Password(req)) == Returns(false) ==> v == Stop(Respond(406))
    ensures ShapeAccepted(req, deps) && LookupUser(users, Email(req), paranoid).Throws? ==> v == Stop(Error500)
    ensures ShapeAccepted(req, deps) && LookupUser(users, Email(req), paranoid) == Returns(None) ==> v == Stop(Respond(400))
    ensures forall u: User :: ShapeAccepted(req, deps) && LookupUser(users, Email(req), paranoid) == Returns(Some(u)) ==>
      match deps.compareHash(Password(req), u.passwordHash)
      case Throws => v == Stop(Error500)
      case Returns(matched) => v == (if matched then Pass(u) else Stop(Respond(401)))
    ensures v.Pass? ==> ShapeAccepted(req, deps) && LookupUser(users, Email(req), paranoid) == Returns(Some(v.user))
    ensures v.Pass? ==> deps.compareHash(Password(req), v.user.passwordHash) == Returns(true)
    ensures v.Pass? ==> Email(req) == Some(v.user.email) && Live(v.user, paranoid)
  {
    if |req.body| > 2 then Stop(Respond(406))
    else
      match deps.validateCredentials(Email(req), Password(req))
      case Throws => Stop(Error500)
      case Returns(isValid) =>
        if !isValid then Stop(Respond(406))
        else
          match LookupUser(users, Email(req), paranoid)
          case Throws => Stop(Error500)
          case Returns(None) => Stop(Respond(400))
          case Returns(Some(user)) =>
            match deps.compareHash(Password(req), user.passwordHash)
            case Throws => Stop(Error500)
            case Returns(isValidPassword) =>
              if isValidPassword then Pass(user) else Stop(Respond(401))
  }

  /** The validator accepted the credentials of a body with at most two keys. */
  predicate ShapeAccepted(req: Request, deps: Deps) {
    |req.body| <= 2 && deps.validateCredentials(Email(req), Password(req)) == Returns(true)
  }

  /** The user table was read and holds a user the lookup may select. */
  predicate Registered(req: Request, users: Call<seq<User>>, paranoid: bool) {
    && users.Returns? && Email(req).Some?
    && exists i :: 0 <= i < |users.value| && Selectable(users.value[i], Email(req).value, paranoid)
  }

  /** `authenticate`: 406 for more than two body keys or a rejected shape, 400 when
      no active user has the email, 401 for a wrong password, 200 with a token
      generated from the user's id otherwise; any exception answers 500. */
  function Authenticate(req: Request, users: Call<seq<User>>, deps: Deps): (o: Outcome)
    ensures !o.Next? && !o.Hang?
    ensures |req.body| > 2 ==> o == Respond(406)
    ensures o == Respond(406) <==> |req.body| > 2 || deps.validateCredentials(Email(req), Password(req)) == Returns(false)
    ensures o == Respond(400) <==> ShapeAccepted(req, deps) && users.Returns? && Email(req).Some? && !Registered(req, users, true)
    ensures o == Respond(401) || o.Issue? ==> ShapeAccepted(req, deps) && Registered(req, users, true)
    ensures o.Issue? ==>
      exists u :: u in users.value && Email(req) == Some(u.email) && !u.deleted
        && deps.compareHash(Password(req), u.passwordHash) == Returns(true)
        && deps.generateToken(u.id) == Returns(o.token)
    ensures ShapeAccepted(req, deps) && LookupUser(users, Email(req), true).Throws? ==> o == Error500
    ensures forall u: User :: ShapeAccepted(req, deps) && LookupUser(users, Email(req), true) == Returns(Some(u)) ==>
      (deps.compareHash(Password(req), u.passwordHash) == Returns(false) ==> o == Respond(401))
    ensures forall u: User :: ShapeAccepted(req, deps) && LookupUser(users, Email(req), true) == Returns(Some(u)) ==>
      (deps.compareHash(Password(req), u.passwordHash) == Returns(true) ==>
        o == match deps.generateToken(u.id) case Throws => Error500 case Returns(t) => Issue(t))
  {
    match CheckCredentials(req, users, deps, true)
    case Stop(o) => o
    case Pass(user) =>
      match deps.generateToken(user.id)
      case Throws => Error500
      case Returns(token) => Issue(token)
  }

  /** `authenticateForRestoreUser`: the same guards and codes, but the lookup also
      sees soft-deleted users, and success answers nothing: it stores
      `"Bearer " + token` in `req.locals.token` and calls `next`. */
  function AuthenticateForRestoreUser(req: Request, users: Call<seq<User>>, deps: Deps): (o: Outcome)
    ensures !o.Issue? && !o.Hang?
    ensures |req.body| > 2 ==> o == Respond(406)
    ensures o == Respond(406) <==> |req.body| > 2 || deps.validateCredentials(Email(req), Password(req)) == Returns(false)
    ensures o == Respond(400) <==> ShapeAccepted(req, deps) && users.Returns? && Email(req).Some? && !Registered(req, users, false)
    ensures o == Respond(401) || o.Next? ==> ShapeAccepted(req, deps) && Registered(req, users, false)
    ensures o.Next? ==>
      exists u, t :: u in users.value && Email(req) == Some(u.email)
        && deps.compareHash(Password(req), u.passwordHash) == Returns(true)
        && deps.generateToken(u.id) == Returns(t) && o.locals == TokenBag("Bearer " + t)
    ensures ShapeAccepted(req, deps) && LookupUser(users, Email(req), false).Throws? ==> o == Error500
    ensures forall u: User :: ShapeAccepted(req, deps) && LookupUser(users, Email(req), false) == Returns(Some(u)) ==>
      (deps.compareHash(Password(req), u.passwordHash) == Returns(false) ==> o == Respond(401))
    ensures forall u: User :: ShapeAccepted(req, deps) && LookupUser(users, Email(req), false) == Returns(Some(u)) ==>
      (deps.compareHash(Password(req), u.passwordHash) == Returns(true) ==>
        o == match deps.generateToken(u.id) case Throws => Error500 case Returns(t) => Next(TokenBag("Bearer " + t)))
  {
    match CheckCredentials(req, users, deps, false)
    case Stop(o) => o
    case Pass(user) =>
      match deps.generateToken(user.id)
      case Throws => Error500
      case Returns(token) => Next(TokenBag("Bearer " + token))
  }

  /** `decodeToken` returned a truthy value. */
  predicate DecodesTruthy(deps: Deps, token: string) {
    deps.decodeToken(token).Returns? && deps.decodeToken(token).value.Claims?
  }

  /** Decoding a present token: a throw answers 500, a falsy result neither answers
      nor calls `next`, anything else calls `next` with `req.locals` unchanged. */
  function PassIfDecoded(token: string, locals: Locals, deps: Deps): Outcome {
    match deps.decodeToken(token)
    case Throws => Error500
    case Returns(Falsy) => Hang
    case Returns(_) => Next(locals)
  }

  /** `authorizeForRestoreUser`: reads the token from `req.locals`, not from a header.
      Destructuring an undefined `req.locals` throws; a bare id has no `token`
      field, which answers 401. */
  function AuthorizeForRestoreUser(req: Request, deps: Deps): (o: Outcome)
    ensures req.locals.Unset? ==> o == Error500
    ensures req.locals.BareId? || req.locals == TokenBag("") ==> o == Respond(401)
    ensures o.Next? <==> req.locals.TokenBag? && req.locals.token != "" && DecodesTruthy(deps, req.locals.token)
    ensures o.Next? ==> o.locals == req.locals
    ensures o.Hang? <==> req.locals.TokenBag? && req.locals.token != "" && deps.decodeToken(req.locals.token) == Returns(Falsy)
    ensures !o.Issue?
  {
    match req.locals
    case Unset => Error500
    case BareId(_) => Respond(401)
    case TokenBag(token) =>
      if token == "" then Respond(401) else PassIfDecoded(token, req.locals, deps)
  }

  /** `authorize`: 401 when the authorization header is missing or empty; `next`
      only when decoding yields a truthy value; a falsy decode leaves the request
      hanging. */
  function Authorize(req: Request, deps: Deps): (o: Outcome)
    ensures !Truthy(req.authorization) ==> o == Respond(401)
    ensures o.Next? <==> Truthy(req.authorization) && DecodesTruthy(deps, req.authorization.value)
    ensures o.Next? ==> o.locals == req.locals
    ensures o.Hang? <==> Truthy(req.authorization) && deps.decodeToken(req.authorization.value) == Returns(Falsy)
    ensures o == Error500 <==> Truthy(req.authorization) && deps.decodeToken(req.authorization.value).Throws?
  {
    if !Truthy(req.authorization) then Respond(401)
    else PassIfDecoded(req.authorization.value, req.locals, deps)
  }

  /** `getIdByToken`: 406 (not 401) for a missing header. Otherwise it destructures
      `userId.id` from the decoded token: a throw, a falsy result or a missing
      `userId` answers 500; else `req.locals` becomes the id (undefined when the
      claim has no `id`) and `next` is called. */
  function GetIdByToken(req: Request, deps: Deps): (o: Outcome)
    ensures !Truthy(req.authorization) ==> o == Respond(406)
    ensures o.Next? <==> (Truthy(req.authorization) && DecodesTruthy(deps, req.authorization.value)
      && deps.decodeToken(req.authorization.value).value.userId.Some?)
    ensures o.Next? && deps.decodeToken(req.authorization.value).value.userId.value.id.Some? ==>
      o.locals == BareId(deps.decodeToken(req.authorization.value).value.userId.value.id.value)
    ensures o == Error500 <==> (Truthy(req.authorization) && (deps.decodeToken(req.authorization.value).Throws?
      || deps.decodeToken(req.authorization.value) == Returns(Falsy)
      || deps.decodeToken(req.authorization.value) == Returns(Claims(None))))
    ensures Truthy(req.authorization) && deps.decodeToken(req.authorization.value) == Returns(Claims(Some(IdClaim(None)))) ==>
      o == Next(Unset)
    ensures !o.Hang? && !o.Issue?
  {
    if !Truthy(req.authorization) then Respond(406)
    else
      match deps.decodeToken(req.authorization.value)
      case Throws => Error500
      case Returns(Falsy) => Error500
      case Returns(Claims(None)) => Error500
      case Returns(Claims(Some(IdClaim(None)))) => Next(Unset)
      case Returns(Claims(Some(IdClaim(Some(id))))) => Next(BareId(id))
  }

  /** The caller id the top-level controller reads: `req.locals` itself. */
  function SrcCaller(locals: Locals): (c: Option<UserId>)
    ensures c.Some? <==> locals.BareId?
    ensures forall id: UserId :: c == Some(id) <==> locals == BareId(id)
  {
    if locals.BareId? then Some(locals.id) else None
  }

  /** The caller id the backend read and create handlers read: `req.locals.UserId`.
      Destructuring an undefined `req.locals` throws; neither a number nor a token
      bag has a `UserId` field. */
  function BackendCaller(locals: Locals): (c: Call<Option<UserId>>)
    ensures c.Throws? <==> locals.Unset?
    ensures c.Returns? ==> c.value == None
  {
    match locals
    case Unset => Throws
    case BareId(_) => Returns(None)
    case TokenBag(_) => Returns(None)
  }
}
