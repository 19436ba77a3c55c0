/** Properties of the auth middlewares that relate several inputs or several
    middlewares: what the guard order makes irrelevant, how the two credential
    chains differ, and how the middlewares compose with each other and with the
    controllers' reading of `req.locals`. */
module AuthProperties {
  import opened Wrappers
  import opened Accounts
  import opened AuthGate

  /** The key-count guard comes first: a body with more than two keys answers 406
      whatever the validator, the hash comparison, the token service or the user
      table would have done. */
  lemma KeyCountGuardFirst(req: Request, users: Call<seq<User>>, users': Call<seq<User>>, deps: Deps, deps': Deps)
    requires |req.body| > 2
    ensures Authenticate(req, users, deps) == Authenticate(req, users', deps') == Respond(406)
    ensures AuthenticateForRestoreUser(req, users, deps) == AuthenticateForRestoreUser(req, users', deps') == Respond(406)
  {
  }

  /** The schema guard comes before the lookup: while the body is not accepted, the
      user table plays no part in the outcome. */
  lemma SchemaGuardBeforeLookup(req: Request, users: Call<seq<User>>, users': Call<seq<User>>, deps: Deps)
    requires !ShapeAccepted(req, deps)
    ensures Authenticate(req, users, deps) == Authenticate(req, users', deps)
    ensures AuthenticateForRestoreUser(req, users, deps) == AuthenticateForRestoreUser(req, users', deps)
    ensures Authenticate(req, users, deps) == Respond(406) || Authenticate(req, users, deps) == Error500
    ensures AuthenticateForRestoreUser(req, users, deps) == Respond(406) || AuthenticateForRestoreUser(req, users, deps) == Error500
  {
  }

  /** A throwing collaborator (decode, user-table read or lookup with an undefined
      email, validator, hash comparison, token generation) answers 500 and never calls `next`. */
  lemma ThrowsAnswer500(req: Request, users: Call<seq<User>>, deps: Deps)
    ensures Truthy(req.authorization) && deps.decodeToken(req.authorization.value).Throws? ==>
      Authorize(req, deps) == Error500 && GetIdByToken(req, deps) == Error500
    ensures req.locals.TokenBag? && req.locals.token != "" && deps.decodeToken(req.locals.token).Throws? ==>
      AuthorizeForRestoreUser(req, deps) == Error500
    ensures ShapeAccepted(req, deps) && LookupUser(users, Email(req), true).Throws? ==>
      Authenticate(req, users, deps) == Error500
    ensures ShapeAccepted(req, deps) && LookupUser(users, Email(req), false).Throws? ==>
      AuthenticateForRestoreUser(req, users, deps) == Error500
    ensures |req.body| <= 2 && deps.validateCredentials(Email(req), Password(req)).Throws? ==>
      Authenticate(req, users, deps) == Error500 && AuthenticateForRestoreUser(req, users, deps) == Error500
    ensures ShapeAccepted(req, deps) && users.Returns? && Email(req).Some? ==>
      forall u ::
        (FindByEmail(users.value, Email(req).value, true) == Some(u) && deps.compareHash(Password(req), u.passwordHash).Throws?)
        ==> Authenticate(req, users, deps) == Error500
    ensures ShapeAccepted(req, deps) && users.Returns? && Email(req).Some? ==>
      forall u ::
        (FindByEmail(users.value, Email(req).value, false) == Some(u) && deps.compareHash(Password(req), u.passwordHash).Throws?)
        ==> AuthenticateForRestoreUser(req, users, deps) == Error500
    ensures CheckCredentials(req, users, deps, true).Pass? ==>
      (deps.generateToken(CheckCredentials(req, users, deps, true).user.id).Throws? ==> Authenticate(req, users, deps) == Error500)
    ensures CheckCredentials(req, users, deps, false).Pass? ==>
      (deps.generateToken(CheckCredentials(req, users, deps, false).user.id).Throws? ==>
        AuthenticateForRestoreUser(req, users, deps) == Error500)
  {
  }

  /** On a user table without soft-deleted users both credential chains reach the
      same verdict. */
  lemma {:induction false} VerdictsAgreeWithoutTombstones(req: Request, users: Call<seq<User>>, deps: Deps)
    requires users.Returns? ==> forall i :: 0 <= i < |users.value| ==> !users.value[i].deleted
    ensures CheckCredentials(req, users, deps, true) == CheckCredentials(req, users, deps, false)
  {
    if users.Returns? && Email(req).Some? {
      LookupIgnoresParanoiaWithoutTombstones(users.value, Email(req).value);
    }
  }

  /** On a user table without soft-deleted users one credential chain issues token
      `t` exactly when the other stores `"Bearer " + t` and calls `next`. */
  lemma {:induction false} ChainsAgreeWithoutTombstones(req: Request, users: Call<seq<User>>, deps: Deps)
    requires users.Returns? ==> forall i :: 0 <= i < |users.value| ==> !users.value[i].deleted
    ensures forall t :: Authenticate(req, users, deps) == Issue(t) <==>
      AuthenticateForRestoreUser(req, users, deps) == Next(TokenBag("Bearer " + t))
  {
    VerdictsAgreeWithoutTombstones(req, users, deps);
    forall t ensures Authenticate(req, users, deps) == Issue(t) <==>
      AuthenticateForRestoreUser(req, users, deps) == Next(TokenBag("Bearer " + t))
    {
      if AuthenticateForRestoreUser(req, users, deps) == Next(TokenBag("Bearer " + t)) {
        var t' :| deps.generateToken(CheckCredentials(req, users, deps, false).user.id) == Returns(t');
        assert t' == ("Bearer " + t')[7..] == ("Bearer " + t)[7..] == t;
      }
    }
  }

  /** On a user table without soft-deleted users every outcome other than a token
      is the same in both credential chains. */
  lemma {:induction false} RefusalsAgreeWithoutTombstones(req: Request, users: Call<seq<User>>, deps: Deps)
    requires users.Returns? ==> forall i :: 0 <= i < |users.value| ==> !users.value[i].deleted
    ensures !Authenticate(req, users, deps).Issue? ==>
      Authenticate(req, users, deps) == AuthenticateForRestoreUser(req, users, deps)
  {
    VerdictsAgreeWithoutTombstones(req, users, deps);
  }

  /** Without soft-deleted users a paranoid and a non-paranoid email lookup agree. */
  lemma {:induction false} LookupIgnoresParanoiaWithoutTombstones(users: seq<User>, email: string)
    requires forall i :: 0 <= i < |users| ==> !users[i].deleted
    ensures FindByEmail(users, email, true) == FindByEmail(users, email, false)
    decreases |users|
  {
    if |users| > 0 {
      LookupIgnoresParanoiaWithoutTombstones(users[1..], email);
    }
  }

  /** A user known only as a tombstone: in any table where the email matches no
      live user but the non-paranoid lookup finds `u`, `authenticate` answers 400,
      while `authenticateForRestoreUser` finds `u` and goes on to the password. */
  lemma TombstoneOnlyForRestore(req: Request, table: seq<User>, u: User, deps: Deps)
    requires ShapeAccepted(req, deps) && Email(req) == Some(u.email)
    requires FindByEmail(table, u.email, false) == Some(u)
    requires forall i :: 0 <= i < |table| ==> !Selectable(table[i], u.email, true)
    ensures u.deleted
    ensures Authenticate(req, Returns(table), deps) == Respond(400)
    ensures deps.compareHash(Password(req), u.passwordHash) == Returns(false) ==>
      AuthenticateForRestoreUser(req, Returns(table), deps) == Respond(401)
    ensures deps.compareHash(Password(req), u.passwordHash) == Returns(true) && deps.generateToken(u.id).Returns? ==>
      AuthenticateForRestoreUser(req, Returns(table), deps) == Next(TokenBag("Bearer " + deps.generateToken(u.id).value))
  {
    assert LookupUser(Returns(table), Email(req), true) == Returns(None);
    assert LookupUser(Returns(table), Email(req), false) == Returns(Some(u));
  }

  /** The account-restore chain: what `authenticateForRestoreUser` hands on always
      carries a token, so `authorizeForRestoreUser` never answers 401 or fails on
      `req.locals`, and it calls `next` exactly when the bearer string decodes to a
      truthy value. */
  lemma RestoreChainComposes(req: Request, users: Call<seq<User>>, deps: Deps)
    requires AuthenticateForRestoreUser(req, users, deps).Next?
    ensures var req' := req.(locals := AuthenticateForRestoreUser(req, users, deps).locals);
      && AuthorizeForRestoreUser(req', deps) != Respond(401)
      && (AuthorizeForRestoreUser(req', deps).Next? <==> DecodesTruthy(deps, req'.locals.token))
  {
  }

  /** `authorize` and `getIdByToken` read the same header: a missing one answers
      401 in the first and 406 in the second, and a header `authorize` lets through
      never makes `getIdByToken` answer 406 or hang. */
  lemma AuthorizeThenGetId(req: Request, deps: Deps)
    ensures !Truthy(req.authorization) ==>
      Authorize(req, deps) == Respond(401) && GetIdByToken(req, deps) == Respond(406)
    ensures Authorize(req, deps).Next? ==> GetIdByToken(req, deps).Next? || GetIdByToken(req, deps) == Error500
  {
  }

  /** `getIdByToken` stores the bare id in `req.locals`. The top-level controller
      reads that id back, but the backend read and create handlers, which read
      `req.locals.UserId`, never receive it. */
  lemma BackendReadPathMissesCaller(req: Request, deps: Deps)
    requires GetIdByToken(req, deps).Next?
    ensures var l := GetIdByToken(req, deps).locals;
      && !(BackendCaller(l).Returns? && BackendCaller(l).value.Some?)
      && (deps.decodeToken(req.authorization.value).value.userId.value.id.Some? ==>
            SrcCaller(l) == deps.decodeToken(req.authorization.value).value.userId.value.id)
  {
  }
}
