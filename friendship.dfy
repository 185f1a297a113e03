/**
 * Friendship records and the friendship repository's queries.
 *
 * A record links two users with a status. Its orientation carries meaning: for REQUESTED the
 * `user` follows the `friend` (asked and was not answered, or was unfriended), for BLOCKED the
 * `user` imposed the block; ACCEPTED is symmetric. The repository finds a record by its
 * unordered pair and lists the users standing in each relation to a given user.
 */
module Friendships {
  import opened Errors
  import opened Entities

  datatype Status = Requested | Accepted | Blocked

  /** One row of the friendship table; both ends are mandatory (nullable = false). */
  datatype Friendship = Friendship(
    id: int,
    status: Status,
    createdAt: Instant,
    updatedAt: Option<Instant>,
    user: UserId,
    friend: UserId)

  /**
   * The record `new Friendship(user, friend, status)` builds once the database has given it
   * `id`: createdAt is the construction time and updatedAt is not yet set.
   */
  function NewFriendship(id: int, user: UserId, friend: UserId, status: Status, now: Instant): Friendship {
    Friendship(id, status, now, None, user, friend)
  }

  /** The record links u and f, in either orientation. */
  predicate Links(r: Friendship, u: UserId, f: UserId) {
    (r.user == u && r.friend == f) || (r.user == f && r.friend == u)
  }

  /** The record mentions user u at either end. */
  predicate Mentions(r: Friendship, u: UserId) {
    r.user == u || r.friend == u
  }

  /** No two rows share an id. */
  predicate UniqueIds(rows: seq<Friendship>) {
    forall i, j :: 0 <= i < j < |rows| ==> rows[i].id != rows[j].id
  }

  /** No two rows link the same unordered pair of users. */
  predicate OnePerPair(rows: seq<Friendship>) {
    forall i, j :: 0 <= i < j < |rows| ==> !Links(rows[i], rows[j].user, rows[j].friend)
  }

  /** The table's invariant: ids are unique and below the next id to hand out, one row per pair. */
  predicate ValidTable(rows: seq<Friendship>, nextId: int) {
    UniqueIds(rows) && OnePerPair(rows) && forall r :: r in rows ==> r.id < nextId
  }

  /** The index of the first row linking u and f: findByUserIdAndFriendId. */
  function FindIndex(rows: seq<Friendship>, u: UserId, f: UserId): (r: Option<nat>)
    ensures r.Some? ==> r.value < |rows| && Links(rows[r.value], u, f)
    ensures r.Some? ==> forall k :: 0 <= k < r.value ==> !Links(rows[k], u, f)
    ensures r.None? <==> forall k :: 0 <= k < |rows| ==> !Links(rows[k], u, f)
  {
    if rows == [] then None
    else if Links(rows[0], u, f) then Some(0)
    else match FindIndex(rows[1..], u, f)
      case None => None
      case Some(k) => Some(k + 1)
  }

  /** The row linking u and f, if any. */
  function FindByPair(rows: seq<Friendship>, u: UserId, f: UserId): (r: Option<Friendship>)
    ensures r.Some? <==> exists k :: 0 <= k < |rows| && Links(rows[k], u, f)
    ensures r.Some? ==> r.value in rows && Links(r.value, u, f)
  {
    match FindIndex(rows, u, f)
    case None => None
    case Some(k) => Some(rows[k])
  }

  /** The lookup does not depend on the order in which the two users are named. */
  lemma {:induction false} FindIndexSymmetric(rows: seq<Friendship>, u: UserId, f: UserId)
    ensures FindIndex(rows, u, f) == FindIndex(rows, f, u)
  {
    if rows != [] {
      FindIndexSymmetric(rows[1..], u, f);
    }
  }

  /** Under the one-row-per-pair invariant the row found is the only row linking the pair. */
  lemma FindIndexUnique(rows: seq<Friendship>, u: UserId, f: UserId, k: nat)
    requires OnePerPair(rows)
    requires k < |rows| && Links(rows[k], u, f)
    ensures FindIndex(rows, u, f) == Some(k)
  {
    var i := FindIndex(rows, u, f).value;
    if i < k {
      assert Links(rows[i], rows[k].user, rows[k].friend);
    }
  }

  /** The row with the given id, if any: findById. */
  function FindById(rows: seq<Friendship>, id: int): (r: Option<nat>)
    ensures r.Some? ==> r.value < |rows| && rows[r.value].id == id
    ensures r.None? <==> forall k :: 0 <= k < |rows| ==> rows[k].id != id
  {
    if rows == [] then None
    else if rows[0].id == id then Some(0)
    else match FindById(rows[1..], id)
      case None => None
      case Some(k) => Some(k + 1)
  }

  /** The table with row k removed. */
  function RemoveAt(rows: seq<Friendship>, k: nat): (r: seq<Friendship>)
    requires k < |rows|
    ensures |r| == |rows| - 1
    ensures forall x :: x in r ==> x in rows
    ensures forall i :: 0 <= i < |rows| && i != k ==> rows[i] in r
  {
    rows[..k] + rows[k + 1..]
  }

  /** Every row that does not mention user u: the rows that survive u's deletion. */
  function WithoutUser(rows: seq<Friendship>, u: UserId): (r: seq<Friendship>)
    ensures forall x :: x in r <==> x in rows && !Mentions(x, u)
  {
    if rows == [] then []
    else if Mentions(rows[0], u) then WithoutUser(rows[1..], u)
    else [rows[0]] + WithoutUser(rows[1..], u)
  }

  /** Deleting a user's rows keeps ids unique. */
  lemma {:induction false} WithoutUserUniqueIds(rows: seq<Friendship>, u: UserId)
    requires UniqueIds(rows)
    ensures UniqueIds(WithoutUser(rows, u))
  {
    if rows != [] {
      var tail := rows[1..];
      assert UniqueIds(tail) by {
        forall i, j | 0 <= i < j < |tail| ensures tail[i].id != tail[j].id {
          assert tail[i] == rows[i + 1] && tail[j] == rows[j + 1];
        }
      }
      WithoutUserUniqueIds(tail, u);
      if !Mentions(rows[0], u) {
        var rest := WithoutUser(tail, u);
        var r := [rows[0]] + rest;
        forall i, j | 0 <= i < j < |r| ensures r[i].id != r[j].id {
          if i == 0 {
            assert r[j] in tail;
            var m :| 0 <= m < |tail| && tail[m] == r[j];
            assert rows[0].id != rows[m + 1].id;
          } else {
            assert r[i] == rest[i - 1] && r[j] == rest[j - 1];
          }
        }
      }
    }
  }

  /** Deleting a user's rows keeps one row per pair. */
  lemma {:induction false} WithoutUserOnePerPair(rows: seq<Friendship>, u: UserId)
    requires OnePerPair(rows)
    ensures OnePerPair(WithoutUser(rows, u))
  {
    if rows != [] {
      var tail := rows[1..];
      assert OnePerPair(tail) by {
        forall i, j | 0 <= i < j < |tail| ensures !Links(tail[i], tail[j].user, tail[j].friend) {
          assert tail[i] == rows[i + 1] && tail[j] == rows[j + 1];
        }
      }
      WithoutUserOnePerPair(tail, u);
      if !Mentions(rows[0], u) {
        var rest := WithoutUser(tail, u);
        var r := [rows[0]] + rest;
        forall i, j | 0 <= i < j < |r| ensures !Links(r[i], r[j].user, r[j].friend) {
          if i == 0 {
            assert r[j] in tail;
            var m :| 0 <= m < |tail| && tail[m] == r[j];
            assert !Links(rows[0], rows[m + 1].user, rows[m + 1].friend);
          } else {
            assert r[i] == rest[i - 1] && r[j] == rest[j - 1];
          }
        }
      }
    }
  }

  /** Deleting a user's rows keeps the table's invariant. */
  lemma WithoutUserValid(rows: seq<Friendship>, nextId: int, u: UserId)
    requires ValidTable(rows, nextId)
    ensures ValidTable(WithoutUser(rows, u), nextId)
  {
    WithoutUserUniqueIds(rows, u);
    WithoutUserOnePerPair(rows, u);
  }

  // The list queries, as sets of user ids; the paging module orders them by id.

  /** findFriendsByUserId: users sharing an ACCEPTED row with s in either direction, s excluded. */
  function Friends(rows: seq<Friendship>, users: set<UserId>, s: UserId): set<UserId> {
    set u | u in users && u != s && exists r :: r in rows && r.status == Accepted && Links(r, s, u)
  }

  /** findFollowersByUserId: users whose REQUESTED row points at s. */
  function Followers(rows: seq<Friendship>, users: set<UserId>, s: UserId): set<UserId> {
    set u | u in users && exists r :: r in rows && r.status == Requested && r.user == u && r.friend == s
  }

  /** findFollowingByUserId: users s has a REQUESTED row pointing at. */
  function Following(rows: seq<Friendship>, users: set<UserId>, s: UserId): set<UserId> {
    set u | u in users && exists r :: r in rows && r.status == Requested && r.user == s && r.friend == u
  }

  /** findBlockedUsers: users s has blocked. */
  function Blacklist(rows: seq<Friendship>, users: set<UserId>, s: UserId): set<UserId> {
    set u | u in users && exists r :: r in rows && r.status == Blocked && r.user == s && r.friend == u
  }

  /** The users on the other end of an ACCEPTED row with s, as the common-friends subqueries select them. */
  function AcceptedNeighbours(rows: seq<Friendship>, users: set<UserId>, s: UserId): set<UserId> {
    set u | u in users && exists r :: r in rows && r.status == Accepted && Links(r, s, u)
  }

  /** findCommonFriends: users in both ACCEPTED neighbourhoods (no self-exclusion, unlike Friends). */
  function CommonFriends(rows: seq<Friendship>, users: set<UserId>, a: UserId, b: UserId): set<UserId> {
    set u | u in users
      && (exists r :: r in rows && r.status == Accepted && Links(r, a, u))
      && (exists r :: r in rows && r.status == Accepted && Links(r, b, u))
  }

  /** Friendship is symmetric: t is among s's friends exactly when s is among t's. */
  lemma FriendsSymmetric(rows: seq<Friendship>, users: set<UserId>, s: UserId, t: UserId)
    requires s in users && t in users
    ensures t in Friends(rows, users, s) <==> s in Friends(rows, users, t)
  {
    if t in Friends(rows, users, s) {
      var r :| r in rows && r.status == Accepted && Links(r, s, t);
      assert Links(r, t, s);
    }
    if s in Friends(rows, users, t) {
      var r :| r in rows && r.status == Accepted && Links(r, t, s);
      assert Links(r, s, t);
    }
  }

  /** Following and followers are the two ends of the same REQUESTED rows. */
  lemma FollowingIsFollowers(rows: seq<Friendship>, users: set<UserId>, s: UserId, t: UserId)
    requires s in users && t in users
    ensures t in Following(rows, users, s) <==> s in Followers(rows, users, t)
  {
    if t in Following(rows, users, s) {
      var r :| r in rows && r.status == Requested && r.user == s && r.friend == t;
      assert s in Followers(rows, users, t);
    }
    if s in Followers(rows, users, t) {
      var r :| r in rows && r.status == Requested && r.user == s && r.friend == t;
      assert t in Following(rows, users, s);
    }
  }

  /** The common friends of a and b are the intersection of their ACCEPTED neighbourhoods. */
  lemma CommonFriendsIsIntersection(rows: seq<Friendship>, users: set<UserId>, a: UserId, b: UserId)
    ensures CommonFriends(rows, users, a, b)
         == AcceptedNeighbours(rows, users, a) * AcceptedNeighbours(rows, users, b)
  {
  }

  /** Away from s itself, the friends list is the ACCEPTED neighbourhood. */
  lemma FriendsAreNeighbours(rows: seq<Friendship>, users: set<UserId>, s: UserId)
    ensures Friends(rows, users, s) == AcceptedNeighbours(rows, users, s) - {s}
  {
  }

  /**
   * Under the one-row-per-pair invariant the relations are exclusive: a user on s's blacklist
   * is neither a friend, a follower nor followed by s, and nobody both follows and is followed.
   */
  lemma RelationsExclusive(rows: seq<Friendship>, users: set<UserId>, s: UserId, t: UserId)
    requires OnePerPair(rows)
    requires s != t
    ensures t in Blacklist(rows, users, s) ==>
      t !in Friends(rows, users, s) && t !in Followers(rows, users, s) && t !in Following(rows, users, s)
    ensures t in Friends(rows, users, s) ==> t !in Followers(rows, users, s) && t !in Following(rows, users, s)
    ensures !(t in Followers(rows, users, s) && t in Following(rows, users, s))
  {
  }

  /** The blacklist of s holds only users s blocked: a user who blocked s is not on it. */
  lemma BlacklistOnlyOwnBlocks(rows: seq<Friendship>, users: set<UserId>, s: UserId, t: UserId)
    requires OnePerPair(rows) && s != t
    requires exists r :: r in rows && r.status == Blocked && r.user == t && r.friend == s
    ensures t !in Blacklist(rows, users, s)
  {
  }
}
