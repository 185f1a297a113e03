/**
 * The access checks and role changes of the authentication service. The caller's security
 * context is passed explicitly as an Authentication value instead of being read from a
 * thread-local holder.
 */
module Authentications {
  import opened Errors
  import opened Entities
  import opened Friendships
  import opened Repositories
  import FriendshipMachine

  /** The current security context: nobody, or a user id with its granted roles. */
  datatype Authentication = Anonymous | Authenticated(principal: UserId, authorities: set<Role>)

  /** isCurrentUser: the caller must be authenticated and be the user in question. */
  function IsCurrentUser(auth: Authentication, userId: UserId): (r: Result<bool>)
    ensures r == Err(Unauthorized) <==> auth.Anonymous?
    ensures r == Err(AccessDeny) <==> auth.Authenticated? && auth.principal != userId
    ensures r.Ok? <==> auth.Authenticated? && auth.principal == userId
    ensures r.Ok? ==> r.value
  {
    match auth
    case Anonymous => Err(Unauthorized)
    case Authenticated(principal, _) => if principal != userId then Err(AccessDeny) else Ok(true)
  }

  /** isAdmin: the caller must be authenticated and hold the ADMIN authority. */
  function IsAdmin(auth: Authentication): (r: Result<bool>)
    ensures r == Err(Unauthorized) <==> auth.Anonymous?
    ensures r.Ok? <==> auth.Authenticated? && AdminRole in auth.authorities
    ensures r.Err? && auth.Authenticated? ==> r.error == AccessDeny
    ensures r.Ok? ==> r.value
  {
    match auth
    case Anonymous => Err(Unauthorized)
    case Authenticated(_, authorities) => if AdminRole in authorities then Ok(true) else Err(AccessDeny)
  }

  /** isCurrentUserOrAdmin: either of the two grants access. */
  function IsCurrentUserOrAdmin(auth: Authentication, userId: UserId): (r: Result<bool>)
    ensures r == Err(Unauthorized) <==> auth.Anonymous?
    ensures r.Ok? <==> IsCurrentUser(auth, userId).Ok? || IsAdmin(auth).Ok?
    ensures r.Err? && auth.Authenticated? ==> r.error == AccessDeny
    ensures r.Ok? ==> r.value
  {
    match auth
    case Anonymous => Err(Unauthorized)
    case Authenticated(principal, authorities) =>
      var isAdmin := AdminRole in authorities;
      var isCurrentUser := principal == userId;
      if !isCurrentUser && !isAdmin then Err(AccessDeny) else Ok(true)
  }

  /**
   * isBlockedByCurrentUser(friendId): an anonymous caller passes without any lookup; an
   * authenticated caller is refused exactly when friendId has blocked them.
   */
  function IsBlockedByCurrentUser(auth: Authentication, rows: seq<Friendship>, friendId: UserId): (r: Result<bool>)
    ensures auth.Anonymous? ==> r == Ok(true)
    ensures r.Ok? ==> r.value
    ensures r.Err? ==> r.error == AccessDeny
    ensures r.Err? ==> (auth.Authenticated? &&
      exists x :: x in rows && x.status == Blocked && x.user == friendId && x.friend == auth.principal)
    ensures OnePerPair(rows) && auth.Authenticated? &&
      (exists x :: x in rows && x.status == Blocked && x.user == friendId && x.friend == auth.principal)
      ==> r.Err?
  {
    match auth
    case Anonymous => Ok(true)
    case Authenticated(userId, _) =>
      match FindIndex(rows, userId, friendId)
      case None => Ok(true)
      case Some(k) =>
        BlockDecidesAccess(rows, userId, friendId, k);
        var friendship := rows[k];
        if friendship.status == Blocked && friendship.user == friendId then Err(AccessDeny) else Ok(true)
  }

  /** With one record per pair, the record found for the pair is the only one that can block. */
  lemma BlockDecidesAccess(rows: seq<Friendship>, userId: UserId, friendId: UserId, k: nat)
    requires FindIndex(rows, userId, friendId) == Some(k)
    ensures rows[k].status == Blocked && rows[k].user == friendId ==> rows[k].friend == userId
    ensures OnePerPair(rows) ==> forall x :: x in rows && Links(x, userId, friendId) ==> x == rows[k]
  {
    if OnePerPair(rows) {
      forall x | x in rows && Links(x, userId, friendId) ensures x == rows[k] {
        var i :| 0 <= i < |rows| && rows[i] == x;
        FindIndexUnique(rows, userId, friendId, i);
      }
    }
  }

  /** The administration side of the service: role and enabled-flag changes by user id. */
  class AuthenticationService {
    const users: UserRepository

    constructor (users: UserRepository)
      ensures this.users == users
    {
      this.users := users;
    }

    /** makeAdmin: the user gains ADMIN and keeps its roles; no other user changes. */
    method MakeAdmin(userId: UserId) returns (o: Outcome)
      requires users.Valid()
      modifies users.users.Values`roles
      ensures userId !in users.users ==> o == Fail(NotFound)
      ensures userId in users.users ==> o == Done && users.users[userId].roles == old(users.users[userId].roles) + {AdminRole}
      ensures forall k :: k in users.users && k != userId ==> users.users[k].roles == old(users.users[k].roles)
    {
      if userId !in users.users {
        return Fail(NotFound);
      }
      var user := users.users[userId];
      user.MakeAdmin();
      return Done;
    }

    /** makeUser: the user's roles become exactly USER; no other user changes. */
    method MakeUser(userId: UserId) returns (o: Outcome)
      requires users.Valid()
      modifies users.users.Values`roles
      ensures userId !in users.users ==> o == Fail(NotFound)
      ensures userId in users.users ==> o == Done && users.users[userId].roles == {UserRole}
      ensures forall k :: k in users.users && k != userId ==> users.users[k].roles == old(users.users[k].roles)
    {
      if userId !in users.users {
        return Fail(NotFound);
      }
      var user := users.users[userId];
      user.MakeUser();
      return Done;
    }

    /** makeDisabled and makeEnabled: only the user's enabled flag changes. */
    method SetEnabled(userId: UserId, enabled: bool) returns (o: Outcome)
      requires users.Valid()
      modifies users.users.Values`enabled
      ensures userId !in users.users ==> o == Fail(NotFound)
      ensures userId in users.users ==> o == Done && users.users[userId].enabled == enabled
      ensures forall k :: k in users.users && k != userId ==> users.users[k].enabled == old(users.users[k].enabled)
    {
      if userId !in users.users {
        return Fail(NotFound);
      }
      var user := users.users[userId];
      user.SetEnabled(enabled);
      return Done;
    }
  }

  /**
   * Once b has blocked a, b's data is closed to a, while a can still see b's data: the block
   * works in one direction only.
   */
  lemma BlockClosesOneDirection(t: FriendshipMachine.Table, users: set<UserId>, a: UserId, b: UserId, now: Instant,
                                ra: set<Role>, rb: set<Role>)
    requires FriendshipMachine.Valid(t) && a != b && a in users && b in users
    ensures var rows := FriendshipMachine.AddToBlackList(t, users, false, b, a, now).table.rows;
      && IsBlockedByCurrentUser(Authenticated(a, ra), rows, b) == Err(AccessDeny)
      && IsBlockedByCurrentUser(Authenticated(b, rb), rows, a) == Ok(true)
  {
    var s := FriendshipMachine.AddToBlackList(t, users, false, b, a, now);
    FriendshipMachine.AddToBlackListBlocks(t, users, b, a, now);
    FriendshipMachine.AddToBlackListValid(t, users, false, b, a, now);
    FindIndexSymmetric(s.table.rows, b, a);
  }
}
