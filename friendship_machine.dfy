/**
 * The friendship service's operations as steps on the friendship table.
 *
 * Each step takes the table and the call's arguments and gives the new table together with what
 * the call returns or the exception it throws. The service methods run these steps on the
 * database in place; the lemmas below state what the steps promise.
 */
module FriendshipMachine {
  import opened Errors
  import opened Entities
  import opened Friendships

  /** The friendship rows and the next id the database will hand out. */
  datatype Table = Table(rows: seq<Friendship>, nextId: int)

  /** What an operation leaves behind: the new table and the record it returns, or its error. */
  datatype Step = Step(table: Table, result: Result<Friendship>)

  /** The same for removeFromBlackList, which returns nothing. */
  datatype UnitStep = UnitStep(table: Table, outcome: Outcome)

  predicate Valid(t: Table) {
    ValidTable(t.rows, t.nextId)
  }

  /** `friendshipRepository.save` of a managed record: row k is replaced in place. */
  function Update(t: Table, k: nat, r: Friendship): Table
    requires k < |t.rows|
  {
    Table(t.rows[k := r], t.nextId)
  }

  /** `save` of a new record: it gets the next id and joins the table. */
  function Insert(t: Table, user: UserId, friend: UserId, status: Status, now: Instant): Step {
    var r := NewFriendship(t.nextId, user, friend, status, now);
    Step(Table(t.rows + [r], t.nextId + 1), Ok(r))
  }

  /** acceptRequest(userId, friendId): the request friendId sent to userId becomes ACCEPTED. */
  function AcceptRequest(t: Table, userId: UserId, friendId: UserId, now: Instant): Step {
    match FindIndex(t.rows, userId, friendId)
    case None => Step(t, Err(NotFound))
    case Some(k) => AcceptAt(t, k, userId, friendId, now)
  }

  /** acceptRequest(userId, friendId, requestId): the same check on the record found by its id. */
  function AcceptRequestById(t: Table, userId: UserId, friendId: UserId, requestId: int, now: Instant): Step {
    match FindById(t.rows, requestId)
    case None => Step(t, Err(NotFound))
    case Some(k) => AcceptAt(t, k, userId, friendId, now)
  }

  /** The common body of both acceptRequest overloads, on row k. */
  function AcceptAt(t: Table, k: nat, userId: UserId, friendId: UserId, now: Instant): Step
    requires k < |t.rows|
  {
    var r := t.rows[k];
    if r.user == friendId && r.friend == userId && r.status == Requested then
      var accepted := r.(status := Accepted, updatedAt := Some(now));
      Step(Update(t, k, accepted), Ok(accepted))
    else
      Step(t, Err(BadRequest))
  }

  /**
   * sendRequest(userId, friendId). An existing record refuses the request, except a pending
   * request in the opposite direction, which is accepted instead. Without a record both users
   * must exist and a new REQUESTED record from userId to friendId is saved.
   */
  function SendRequest(t: Table, users: set<UserId>, userId: UserId, friendId: UserId, now: Instant): Step {
    match FindIndex(t.rows, userId, friendId)
    case Some(k) =>
      var r := t.rows[k];
      (match r.status
       case Accepted => Step(t, Err(AlreadyExists))
       case Requested =>
         if r.user == userId then Step(t, Err(AlreadyExists))
         else if r.user == friendId then AcceptRequest(t, userId, friendId, now)
         else Step(t, Err(AlreadyExists))
       case Blocked => Step(t, Err(AlreadyExists)))
    case None =>
      if userId !in users || friendId !in users then Step(t, Err(NotFound))
      else Insert(t, userId, friendId, Requested, now)
  }

  /**
   * addToBlackList(userId, friendId). The target must exist and must not be an administrator.
   * An existing record is turned around if needed so that its user is the one who blocks, and
   * becomes BLOCKED; otherwise a new BLOCKED record is saved.
   */
  function AddToBlackList(t: Table, users: set<UserId>, friendIsAdmin: bool,
                          userId: UserId, friendId: UserId, now: Instant): Step {
    if friendId !in users then Step(t, Err(NotFound))
    else if friendIsAdmin then Step(t, Err(IllegalState))
    else match FindIndex(t.rows, userId, friendId)
      case Some(k) =>
        var r := t.rows[k];
        if r.user == friendId && userId !in users then Step(t, Err(NotFound))
        else
          var turned := if r.user == friendId then r.(user := userId, friend := friendId) else r;
          var blocked := turned.(status := Blocked, updatedAt := Some(now));
          Step(Update(t, k, blocked), Ok(blocked))
      case None =>
        if userId !in users then Step(t, Err(NotFound))
        else Insert(t, userId, friendId, Blocked, now)
  }

  /**
   * removeFromFriends(userId, friendId). Only an ACCEPTED record can be removed; it goes back to
   * REQUESTED oriented from friendId to userId, so the removed friend keeps following the remover.
   */
  function RemoveFromFriends(t: Table, users: set<UserId>, userId: UserId, friendId: UserId, now: Instant): Step {
    match FindIndex(t.rows, userId, friendId)
    case None => Step(t, Err(NotFound))
    case Some(k) =>
      var r := t.rows[k];
      if r.status != Accepted then Step(t, Err(IllegalState))
      else if r.user == userId && (friendId !in users || userId !in users) then Step(t, Err(NotFound))
      else
        var turned := if r.user == userId then r.(user := friendId, friend := userId) else r;
        var requested := turned.(status := Requested, updatedAt := Some(now));
        Step(Update(t, k, requested), Ok(requested))
  }

  /**
   * removeFromBlackList(userId, friendId). A record that is not BLOCKED is left alone; a block
   * can only be lifted by the user who imposed it, and lifting it deletes the record.
   */
  function RemoveFromBlackList(t: Table, userId: UserId, friendId: UserId): UnitStep {
    match FindIndex(t.rows, userId, friendId)
    case None => UnitStep(t, Fail(NotFound))
    case Some(k) =>
      var r := t.rows[k];
      if r.status != Blocked then UnitStep(t, Done)
      else if r.user == friendId then UnitStep(t, Fail(IllegalState))
      else UnitStep(Table(RemoveAt(t.rows, k), t.nextId), Done)
  }

  // ---------------------------------------------------------------------------------------------
  // The invariant: every step keeps ids unique and fresh and at most one record per pair.

  /** Replacing a row by one with the same id that links the same pair keeps the invariant. */
  lemma UpdateValid(t: Table, k: nat, r: Friendship)
    requires Valid(t) && k < |t.rows|
    requires r.id == t.rows[k].id && Links(r, t.rows[k].user, t.rows[k].friend)
    ensures Valid(Update(t, k, r))
  {
    var rows' := t.rows[k := r];
    forall x | x in rows' ensures x.id < t.nextId {
      var i :| 0 <= i < |rows'| && rows'[i] == x;
      assert i != k ==> x == t.rows[i];
    }
    forall i, j | 0 <= i < j < |rows'|
      ensures rows'[i].id != rows'[j].id && !Links(rows'[i], rows'[j].user, rows'[j].friend)
    {
      assert !Links(t.rows[i], t.rows[j].user, t.rows[j].friend);
    }
  }

  /** Saving a new record for a pair no record links keeps the invariant. */
  lemma InsertValid(t: Table, user: UserId, friend: UserId, status: Status, now: Instant)
    requires Valid(t)
    requires FindIndex(t.rows, user, friend).None?
    ensures Valid(Insert(t, user, friend, status, now).table)
  {
    var r := NewFriendship(t.nextId, user, friend, status, now);
    var rows' := t.rows + [r];
    forall i, j | 0 <= i < j < |rows'|
      ensures rows'[i].id != rows'[j].id && !Links(rows'[i], rows'[j].user, rows'[j].friend)
    {
      if j == |t.rows| {
        assert rows'[i] == t.rows[i] && t.rows[i] in t.rows;
        assert !Links(t.rows[i], user, friend);
      } else {
        assert rows'[i] == t.rows[i] && rows'[j] == t.rows[j];
      }
    }
  }

  lemma AcceptRequestValid(t: Table, userId: UserId, friendId: UserId, now: Instant)
    requires Valid(t)
    ensures Valid(AcceptRequest(t, userId, friendId, now).table)
  {
    match FindIndex(t.rows, userId, friendId)
    case None =>
    case Some(k) =>
      var r := t.rows[k];
      UpdateValid(t, k, r.(status := Accepted, updatedAt := Some(now)));
  }

  lemma AcceptRequestByIdValid(t: Table, userId: UserId, friendId: UserId, requestId: int, now: Instant)
    requires Valid(t)
    ensures Valid(AcceptRequestById(t, userId, friendId, requestId, now).table)
  {
    match FindById(t.rows, requestId)
    case None =>
    case Some(k) =>
      var r := t.rows[k];
      UpdateValid(t, k, r.(status := Accepted, updatedAt := Some(now)));
  }

  lemma SendRequestValid(t: Table, users: set<UserId>, userId: UserId, friendId: UserId, now: Instant)
    requires Valid(t)
    ensures Valid(SendRequest(t, users, userId, friendId, now).table)
  {
    match FindIndex(t.rows, userId, friendId)
    case Some(k) =>
      AcceptRequestValid(t, userId, friendId, now);
    case None =>
      if userId in users && friendId in users {
        InsertValid(t, userId, friendId, Requested, now);
      }
  }

  lemma AddToBlackListValid(t: Table, users: set<UserId>, friendIsAdmin: bool,
                            userId: UserId, friendId: UserId, now: Instant)
    requires Valid(t)
    ensures Valid(AddToBlackList(t, users, friendIsAdmin, userId, friendId, now).table)
  {
    if friendId in users && !friendIsAdmin {
      match FindIndex(t.rows, userId, friendId)
      case Some(k) =>
        var r := t.rows[k];
        if !(r.user == friendId && userId !in users) {
          var turned := if r.user == friendId then r.(user := userId, friend := friendId) else r;
          UpdateValid(t, k, turned.(status := Blocked, updatedAt := Some(now)));
        }
      case None =>
        if userId in users {
          InsertValid(t, userId, friendId, Blocked, now);
        }
    }
  }

  lemma RemoveFromFriendsValid(t: Table, users: set<UserId>, userId: UserId, friendId: UserId, now: Instant)
    requires Valid(t)
    ensures Valid(RemoveFromFriends(t, users, userId, friendId, now).table)
  {
    match FindIndex(t.rows, userId, friendId)
    case None =>
    case Some(k) =>
      var r := t.rows[k];
      if r.status == Accepted && !(r.user == userId && (friendId !in users || userId !in users)) {
        var turned := if r.user == userId then r.(user := friendId, friend := userId) else r;
        UpdateValid(t, k, turned.(status := Requested, updatedAt := Some(now)));
      }
  }

  /** Deleting row k keeps the invariant. */
  lemma RemoveAtValid(t: Table, k: nat)
    requires Valid(t) && k < |t.rows|
    ensures Valid(Table(RemoveAt(t.rows, k), t.nextId))
  {
    var rows' := RemoveAt(t.rows, k);
    forall i, j | 0 <= i < j < |rows'|
      ensures rows'[i].id != rows'[j].id && !Links(rows'[i], rows'[j].user, rows'[j].friend)
    {
      var i' := if i < k then i else i + 1;
      var j' := if j < k then j else j + 1;
      assert rows'[i] == t.rows[i'] && rows'[j] == t.rows[j'];
    }
  }

  lemma RemoveFromBlackListValid(t: Table, userId: UserId, friendId: UserId)
    requires Valid(t)
    ensures Valid(RemoveFromBlackList(t, userId, friendId).table)
  {
    match FindIndex(t.rows, userId, friendId)
    case None =>
    case Some(k) =>
      RemoveAtValid(t, k);
  }

  // ---------------------------------------------------------------------------------------------
  // What each operation promises.

  /**
   * With no record between the two users in either orientation, sendRequest saves exactly one
   * new record: userId to friendId, REQUESTED, created now and never updated.
   */
  lemma SendRequestCreates(t: Table, users: set<UserId>, userId: UserId, friendId: UserId, now: Instant)
    requires Valid(t)
    requires forall r :: r in t.rows ==> !Links(r, userId, friendId)
    requires userId in users && friendId in users
    ensures var s := SendRequest(t, users, userId, friendId, now);
      && s.result == Ok(Friendship(t.nextId, Requested, now, None, userId, friendId))
      && s.table.rows == t.rows + [s.result.value]
      && FindByPair(s.table.rows, friendId, userId) == Some(s.result.value)
      && Valid(s.table)
  {
    var s := SendRequest(t, users, userId, friendId, now);
    InsertValid(t, userId, friendId, Requested, now);
    FindIndexSymmetric(s.table.rows, friendId, userId);
    FindIndexUnique(s.table.rows, userId, friendId, |t.rows|);
  }

  /** sendRequest between users who are already friends fails and changes nothing. */
  lemma SendRequestWhenFriends(t: Table, users: set<UserId>, userId: UserId, friendId: UserId, now: Instant)
    requires exists r :: r in t.rows && Links(r, userId, friendId)
    requires FindByPair(t.rows, userId, friendId).value.status == Accepted
    ensures SendRequest(t, users, userId, friendId, now) == Step(t, Err(AlreadyExists))
  {
  }

  /** sendRequest against a block, whoever imposed it, fails and changes nothing. */
  lemma SendRequestWhenBlocked(t: Table, users: set<UserId>, userId: UserId, friendId: UserId, now: Instant)
    requires exists r :: r in t.rows && Links(r, userId, friendId)
    requires FindByPair(t.rows, userId, friendId).value.status == Blocked
    ensures SendRequest(t, users, userId, friendId, now) == Step(t, Err(AlreadyExists))
  {
  }

  /** Asking again while one's own request is pending fails and changes nothing. */
  lemma SendRequestTwice(t: Table, users: set<UserId>, userId: UserId, friendId: UserId, now: Instant)
    requires exists r :: r in t.rows && Links(r, userId, friendId)
    requires var r := FindByPair(t.rows, userId, friendId).value; r.status == Requested && r.user == userId
    ensures SendRequest(t, users, userId, friendId, now) == Step(t, Err(AlreadyExists))
  {
  }

  /**
   * Asking a user whose own request to the caller is pending accepts that request: the record
   * keeps its orientation and id, and only its status (now ACCEPTED) and updatedAt change.
   */
  lemma SendRequestAcceptsPending(t: Table, users: set<UserId>, userId: UserId, friendId: UserId, now: Instant)
    requires userId != friendId
    requires exists r :: r in t.rows && Links(r, userId, friendId)
    requires var r := FindByPair(t.rows, userId, friendId).value; r.status == Requested && r.user == friendId
    ensures SendRequest(t, users, userId, friendId, now) == AcceptRequest(t, userId, friendId, now)
    ensures var k := FindIndex(t.rows, userId, friendId).value;
      var r := t.rows[k];
      var s := SendRequest(t, users, userId, friendId, now);
      && s.result == Ok(r.(status := Accepted, updatedAt := Some(now)))
      && s.table == Table(t.rows[k := s.result.value], t.nextId)
      && s.result.value.user == friendId && s.result.value.friend == userId
  {
  }

  /**
   * acceptRequest succeeds exactly when the record between the two users is friendId's pending
   * request to userId; then only that record's status and updatedAt change. A missing record
   * gives NotFound and any other record an error, with nothing changed.
   */
  lemma AcceptRequestSpec(t: Table, userId: UserId, friendId: UserId, now: Instant)
    ensures var s := AcceptRequest(t, userId, friendId, now);
      match FindIndex(t.rows, userId, friendId)
      case None => s == Step(t, Err(NotFound))
      case Some(k) =>
        var r := t.rows[k];
        if r.user == friendId && r.friend == userId && r.status == Requested then
          && s.result == Ok(r.(status := Accepted, updatedAt := Some(now)))
          && s.table == Table(t.rows[k := s.result.value], t.nextId)
          && s.result.value.createdAt == r.createdAt && s.result.value.id == r.id
        else s == Step(t, Err(BadRequest))
  {
  }

  /** A successful acceptRequest leaves the two users friends of each other. */
  lemma AcceptRequestMakesFriends(t: Table, users: set<UserId>, userId: UserId, friendId: UserId, now: Instant)
    requires userId != friendId && userId in users && friendId in users
    requires AcceptRequest(t, userId, friendId, now).result.Ok?
    ensures var rows' := AcceptRequest(t, userId, friendId, now).table.rows;
      friendId in Friends(rows', users, userId) && userId in Friends(rows', users, friendId)
  {
    var s := AcceptRequest(t, userId, friendId, now);
    var k := FindIndex(t.rows, userId, friendId).value;
    assert s.table.rows[k] == s.result.value;
    assert s.result.value in s.table.rows;
  }

  /** Blocking an administrator fails with IllegalState and creates or changes nothing. */
  lemma BlockAdminRefused(t: Table, users: set<UserId>, userId: UserId, friendId: UserId, now: Instant)
    requires friendId in users
    ensures AddToBlackList(t, users, true, userId, friendId, now) == Step(t, Err(IllegalState))
  {
  }

  /**
   * A successful addToBlackList leaves the record between the two users reading userId blocks
   * friendId: the existing record turned around and updated in place if there was one, a new
   * record under the next id otherwise; no other record changes. Either way friendId is on
   * userId's blacklist.
   */
  lemma AddToBlackListBlocks(t: Table, users: set<UserId>, userId: UserId, friendId: UserId, now: Instant)
    requires Valid(t) && userId in users && friendId in users
    ensures var s := AddToBlackList(t, users, false, userId, friendId, now);
      && s.result.Ok?
      && s.result.value.user == userId && s.result.value.friend == friendId
      && s.result.value.status == Blocked
      && FindByPair(s.table.rows, userId, friendId) == Some(s.result.value)
      && friendId in Blacklist(s.table.rows, users, userId)
      && (match FindIndex(t.rows, userId, friendId)
          case Some(k) => s.result.value.id == t.rows[k].id && s.result.value.createdAt == t.rows[k].createdAt
                          && s.result.value.updatedAt == Some(now) && s.table == Update(t, k, s.result.value)
          case None => s.result.value == NewFriendship(t.nextId, userId, friendId, Blocked, now)
                       && s.table == Table(t.rows + [s.result.value], t.nextId + 1))
  {
    var s := AddToBlackList(t, users, false, userId, friendId, now);
    AddToBlackListValid(t, users, false, userId, friendId, now);
    match FindIndex(t.rows, userId, friendId)
    case Some(k) =>
      assert s.table.rows[k] == s.result.value;
      FindIndexUnique(s.table.rows, userId, friendId, k);
    case None =>
      FindIndexUnique(s.table.rows, userId, friendId, |t.rows|);
    assert s.result.value in s.table.rows;
  }

  /**
   * removeFromFriends: a missing record gives NotFound, a record that is not ACCEPTED gives
   * IllegalState, both without change. On success the record reads friendId to userId,
   * REQUESTED, so the removed friend becomes a follower of the remover.
   */
  lemma RemoveFromFriendsSpec(t: Table, users: set<UserId>, userId: UserId, friendId: UserId, now: Instant)
    requires userId in users && friendId in users
    ensures var s := RemoveFromFriends(t, users, userId, friendId, now);
      match FindIndex(t.rows, userId, friendId)
      case None => s == Step(t, Err(NotFound))
      case Some(k) =>
        if t.rows[k].status != Accepted then s == Step(t, Err(IllegalState))
        else
          && s.result.Ok?
          && s.result.value == t.rows[k].(user := friendId, friend := userId, status := Requested, updatedAt := Some(now))
          && s.table == Update(t, k, s.result.value)
          && friendId in Followers(s.table.rows, users, userId)
  {
    var s := RemoveFromFriends(t, users, userId, friendId, now);
    match FindIndex(t.rows, userId, friendId)
    case None =>
    case Some(k) =>
      if t.rows[k].status == Accepted {
        assert s.table.rows[k] == s.result.value;
        assert s.result.value in s.table.rows;
      }
  }

  /**
   * removeFromBlackList: without a record NotFound; a record that is not BLOCKED is left as
   * it is; the blocked party cannot lift the block (IllegalState); the one who blocked deletes
   * the record, and only it, after which nothing links the two users.
   */
  lemma RemoveFromBlackListSpec(t: Table, userId: UserId, friendId: UserId)
    requires Valid(t)
    ensures var s := RemoveFromBlackList(t, userId, friendId);
      match FindIndex(t.rows, userId, friendId)
      case None => s == UnitStep(t, Fail(NotFound))
      case Some(k) =>
        if t.rows[k].status != Blocked then s == UnitStep(t, Done)
        else if t.rows[k].user == friendId then s == UnitStep(t, Fail(IllegalState))
        else
          && s.outcome == Done
          && s.table == Table(RemoveAt(t.rows, k), t.nextId)
          && |s.table.rows| == |t.rows| - 1
          && forall r :: r in s.table.rows ==> !Links(r, userId, friendId)
  {
    match FindIndex(t.rows, userId, friendId)
    case None =>
    case Some(k) =>
      RemoveAtUnlinks(t.rows, k);
  }

  /** Deleting the one record of a pair leaves no record of that pair. */
  lemma RemoveAtUnlinks(rows: seq<Friendship>, k: nat)
    requires OnePerPair(rows) && k < |rows|
    ensures forall r :: r in RemoveAt(rows, k) ==> !Links(r, rows[k].user, rows[k].friend)
  {
    var rows' := RemoveAt(rows, k);
    forall i | 0 <= i < |rows'| ensures !Links(rows'[i], rows[k].user, rows[k].friend) {
      if i < k {
        assert rows'[i] == rows[i];
      } else {
        assert rows'[i] == rows[i + 1];
        assert !Links(rows[k], rows[i + 1].user, rows[i + 1].friend);
      }
    }
  }

  /** Two tables of which the second keeps the creation time of every record it shares with the first. */
  predicate KeepsCreatedAt(before: Table, after: Table) {
    forall r, r' :: r in before.rows && r' in after.rows && r.id == r'.id ==> r.createdAt == r'.createdAt
  }

  /** With unique ids, a record is determined by its id. */
  lemma IdDeterminesIndex(rows: seq<Friendship>, i: nat, j: nat)
    requires UniqueIds(rows) && i < |rows| && j < |rows| && rows[i].id == rows[j].id
    ensures i == j
  {
  }

  lemma UpdateKeepsCreatedAt(t: Table, k: nat, r: Friendship)
    requires Valid(t) && k < |t.rows|
    requires r.id == t.rows[k].id && r.createdAt == t.rows[k].createdAt
    ensures KeepsCreatedAt(t, Update(t, k, r))
  {
    var rows' := t.rows[k := r];
    forall x, x' | x in t.rows && x' in rows' && x.id == x'.id ensures x.createdAt == x'.createdAt {
      var i :| 0 <= i < |t.rows| && t.rows[i] == x;
      var j :| 0 <= j < |rows'| && rows'[j] == x';
      IdDeterminesIndex(t.rows, i, j);
    }
  }

  lemma InsertKeepsCreatedAt(t: Table, user: UserId, friend: UserId, status: Status, now: Instant)
    requires Valid(t)
    ensures KeepsCreatedAt(t, Insert(t, user, friend, status, now).table)
  {
    var rows' := Insert(t, user, friend, status, now).table.rows;
    forall x, x' | x in t.rows && x' in rows' && x.id == x'.id ensures x.createdAt == x'.createdAt {
      var i :| 0 <= i < |t.rows| && t.rows[i] == x;
      var j :| 0 <= j < |rows'| && rows'[j] == x';
      assert j < |t.rows| && rows'[j] == t.rows[j];
      IdDeterminesIndex(t.rows, i, j);
    }
  }

  lemma RemoveAtKeepsCreatedAt(t: Table, k: nat)
    requires Valid(t) && k < |t.rows|
    ensures KeepsCreatedAt(t, Table(RemoveAt(t.rows, k), t.nextId))
  {
    forall x, x' | x in t.rows && x' in RemoveAt(t.rows, k) && x.id == x'.id ensures x.createdAt == x'.createdAt {
      var i :| 0 <= i < |t.rows| && t.rows[i] == x;
      var j :| 0 <= j < |t.rows| && t.rows[j] == x';
      IdDeterminesIndex(t.rows, i, j);
    }
  }

  lemma AcceptAtKeepsCreatedAt(t: Table, k: nat, userId: UserId, friendId: UserId, now: Instant)
    requires Valid(t) && k < |t.rows|
    ensures KeepsCreatedAt(t, AcceptAt(t, k, userId, friendId, now).table)
  {
    UpdateKeepsCreatedAt(t, k, t.rows[k].(status := Accepted, updatedAt := Some(now)));
  }

  /** No friendship operation reassigns the creation time of a record it keeps. */
  lemma SendRequestKeepsCreatedAt(t: Table, users: set<UserId>, userId: UserId, friendId: UserId, now: Instant)
    requires Valid(t)
    ensures KeepsCreatedAt(t, SendRequest(t, users, userId, friendId, now).table)
  {
    match FindIndex(t.rows, userId, friendId)
    case Some(k) => AcceptAtKeepsCreatedAt(t, k, userId, friendId, now);
    case None => InsertKeepsCreatedAt(t, userId, friendId, Requested, now);
  }

  lemma AcceptRequestKeepsCreatedAt(t: Table, userId: UserId, friendId: UserId, now: Instant)
    requires Valid(t)
    ensures KeepsCreatedAt(t, AcceptRequest(t, userId, friendId, now).table)
  {
    match FindIndex(t.rows, userId, friendId)
    case Some(k) => AcceptAtKeepsCreatedAt(t, k, userId, friendId, now);
    case None =>
  }

  lemma AcceptRequestByIdKeepsCreatedAt(t: Table, userId: UserId, friendId: UserId, requestId: int, now: Instant)
    requires Valid(t)
    ensures KeepsCreatedAt(t, AcceptRequestById(t, userId, friendId, requestId, now).table)
  {
    match FindById(t.rows, requestId)
    case Some(k) => AcceptAtKeepsCreatedAt(t, k, userId, friendId, now);
    case None =>
  }

  lemma AddToBlackListKeepsCreatedAt(t: Table, users: set<UserId>, friendIsAdmin: bool,
                                     userId: UserId, friendId: UserId, now: Instant)
    requires Valid(t)
    ensures KeepsCreatedAt(t, AddToBlackList(t, users, friendIsAdmin, userId, friendId, now).table)
  {
    match FindIndex(t.rows, userId, friendId)
    case Some(k) =>
      var r := t.rows[k];
      var turned := if r.user == friendId then r.(user := userId, friend := friendId) else r;
      UpdateKeepsCreatedAt(t, k, turned.(status := Blocked, updatedAt := Some(now)));
    case None => InsertKeepsCreatedAt(t, userId, friendId, Blocked, now);
  }

  lemma RemoveFromFriendsKeepsCreatedAt(t: Table, users: set<UserId>, userId: UserId, friendId: UserId, now: Instant)
    requires Valid(t)
    ensures KeepsCreatedAt(t, RemoveFromFriends(t, users, userId, friendId, now).table)
  {
    match FindIndex(t.rows, userId, friendId)
    case Some(k) =>
      var r := t.rows[k];
      var turned := if r.user == userId then r.(user := friendId, friend := userId) else r;
      UpdateKeepsCreatedAt(t, k, turned.(status := Requested, updatedAt := Some(now)));
    case None =>
  }

  lemma RemoveFromBlackListKeepsCreatedAt(t: Table, userId: UserId, friendId: UserId)
    requires Valid(t)
    ensures KeepsCreatedAt(t, RemoveFromBlackList(t, userId, friendId).table)
  {
    match FindIndex(t.rows, userId, friendId)
    case Some(k) => RemoveAtKeepsCreatedAt(t, k);
    case None =>
  }

  // ---------------------------------------------------------------------------------------------
  // Scenarios.

  /**
   * a asks b, then b asks a: the second request accepts the first, and the two are friends
   * with the one record a created.
   */
  lemma MutualRequestsMakeFriends(t: Table, users: set<UserId>, a: UserId, b: UserId, t1: Instant, t2: Instant)
    requires Valid(t) && a != b && a in users && b in users
    requires forall r :: r in t.rows ==> !Links(r, a, b)
    ensures var s1 := SendRequest(t, users, a, b, t1);
      var s2 := SendRequest(s1.table, users, b, a, t2);
      && s2.result == Ok(Friendship(t.nextId, Accepted, t1, Some(t2), a, b))
      && b in Friends(s2.table.rows, users, a) && a in Friends(s2.table.rows, users, b)
  {
    var s1 := SendRequest(t, users, a, b, t1);
    SendRequestCreates(t, users, a, b, t1);
    FindIndexUnique(s1.table.rows, b, a, |t.rows|);
    AcceptRequestMakesFriends(s1.table, users, b, a, t2);
  }

  /**
   * Friends a and b; a removes b: b now follows a, and a can no longer remove b as a friend.
   */
  lemma UnfriendLeavesFollower(t: Table, users: set<UserId>, a: UserId, b: UserId, now: Instant)
    requires Valid(t) && a in users && b in users
    requires exists r :: r in t.rows && Links(r, a, b) && r.status == Accepted
    ensures var s := RemoveFromFriends(t, users, a, b, now);
      && b in Followers(s.table.rows, users, a)
      && RemoveFromFriends(s.table, users, a, b, now).result == Err(IllegalState)
  {
    var k := FindIndex(t.rows, a, b).value;
    var r :| r in t.rows && Links(r, a, b) && r.status == Accepted;
    var i :| 0 <= i < |t.rows| && t.rows[i] == r;
    FindIndexUnique(t.rows, a, b, i);
    RemoveFromFriendsSpec(t, users, a, b, now);
    var s := RemoveFromFriends(t, users, a, b, now);
    RemoveFromFriendsValid(t, users, a, b, now);
    FindIndexUnique(s.table.rows, a, b, k);
  }

  /** A block can be lifted only by the user who imposed it. */
  lemma OnlyBlockerUnblocks(t: Table, users: set<UserId>, a: UserId, b: UserId, now: Instant)
    requires Valid(t) && a != b && a in users && b in users
    ensures var s := AddToBlackList(t, users, false, a, b, now);
      && RemoveFromBlackList(s.table, b, a).outcome == Fail(IllegalState)
      && RemoveFromBlackList(s.table, a, b).outcome == Done
      && FindByPair(RemoveFromBlackList(s.table, a, b).table.rows, a, b) == None
  {
    var s := AddToBlackList(t, users, false, a, b, now);
    AddToBlackListBlocks(t, users, a, b, now);
    AddToBlackListValid(t, users, false, a, b, now);
    FindIndexSymmetric(s.table.rows, a, b);
    RemoveFromBlackListSpec(s.table, a, b);
  }
}
