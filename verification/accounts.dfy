/** The user table as the log core sees it: a lookup table of accounts, each
    possibly soft-deleted. Creating and deleting accounts is outside this model. */
module Accounts {
  import opened Wrappers
  import opened LogStore

  datatype User = User(id: UserId, email: string, passwordHash: string, deleted: bool)

  /** A user a `findOne({where: {email}, paranoid})` may return. */
  predicate Selectable(u: User, email: string, paranoid: bool) {
    u.email == email && Live(u, paranoid)
  }

  predicate Live(u: User, paranoid: bool) {
    !paranoid || !u.deleted
  }

  /** `User.findOne({where: {email}, paranoid})`: the first selectable user in table
      order, or none. With unique emails at most one user matches. */
  function FindByEmail(users: seq<User>, email: string, paranoid: bool): (found: Option<User>)
    ensures found.None? <==> forall i :: 0 <= i < |users| ==> !Selectable(users[i], email, paranoid)
    ensures found.Some? ==>
      exists i :: 0 <= i < |users| && users[i] == found.value && Selectable(users[i], email, paranoid)
        && forall j :: 0 <= j < i ==> !Selectable(users[j], email, paranoid)
  {
    if |users| == 0 then None
    else if Selectable(users[0], email, paranoid) then Some(users[0])
    else
      var rest := FindByEmail(users[1..], email, paranoid);
      assert forall i :: 1 <= i < |users| ==> users[i] == users[1..][i - 1];
      rest
  }

  /** `User.findOne({where: {id}})` with the default paranoid read: a live account with this id exists. */
  predicate HasActiveUser(users: seq<User>, id: UserId) {
    exists i :: 0 <= i < |users| && users[i].id == id && !users[i].deleted
  }
}
