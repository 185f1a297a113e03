/**
 * The friendship service: each operation looks the record up, changes it in place or creates
 * or deletes it through the repository, and is proved to do exactly what the corresponding
 * step of the friendship machine does. The lemmas about the steps then hold of the service.
 */
module FriendshipServices {
  import opened Errors
  import opened Entities
  import opened Friendships
  import opened Repositories
  import M = FriendshipMachine

  class FriendshipService {
    const friendships: FriendshipRepository
    const users: UserRepository

    constructor (friendships: FriendshipRepository, users: UserRepository)
      ensures this.friendships == friendships && this.users == users
    {
      this.friendships := friendships;
      this.users := users;
    }

    /** sendRequest; a pending request from friendId is accepted through acceptRequest. */
    method SendRequest(userId: UserId, friendId: UserId, now: Instant) returns (r: Result<Friendship>)
      requires friendships.Valid()
      modifies friendships
      ensures friendships.Valid()
      ensures var s := M.SendRequest(old(friendships.Table()), users.users.Keys, userId, friendId, now);
        r == s.result && friendships.Table() == s.table
    {
      M.SendRequestValid(friendships.Table(), users.users.Keys, userId, friendId, now);
      match FindIndex(friendships.rows, userId, friendId) {
        case Some(k) =>
          var existing := friendships.rows[k];
          match existing.status {
            case Accepted =>
              return Err(AlreadyExists);
            case Requested =>
              if existing.user == userId {
                return Err(AlreadyExists);
              }
              // The record links the two users, so its user is friendId.
              r := AcceptRequest(userId, friendId, now);
            case Blocked =>
              return Err(AlreadyExists);
          }
        case None =>
          if userId !in users.users || friendId !in users.users {
            return Err(NotFound);
          }
          var created := friendships.Insert(userId, friendId, Requested, now);
          return Ok(created);
      }
    }

    /** acceptRequest(userId, friendId). */
    method AcceptRequest(userId: UserId, friendId: UserId, now: Instant) returns (r: Result<Friendship>)
      requires friendships.Valid()
      modifies friendships
      ensures friendships.Valid()
      ensures var s := M.AcceptRequest(old(friendships.Table()), userId, friendId, now);
        r == s.result && friendships.Table() == s.table
    {
      M.AcceptRequestValid(friendships.Table(), userId, friendId, now);
      match FindIndex(friendships.rows, userId, friendId) {
        case None =>
          return Err(NotFound);
        case Some(k) =>
          r := Accept(k, userId, friendId, now);
      }
    }

    /** acceptRequest(userId, friendId, requestId): the request is looked up by its id. */
    method AcceptRequestById(userId: UserId, friendId: UserId, requestId: int, now: Instant) returns (r: Result<Friendship>)
      requires friendships.Valid()
      modifies friendships
      ensures friendships.Valid()
      ensures var s := M.AcceptRequestById(old(friendships.Table()), userId, friendId, requestId, now);
        r == s.result && friendships.Table() == s.table
    {
      M.AcceptRequestByIdValid(friendships.Table(), userId, friendId, requestId, now);
      match FindById(friendships.rows, requestId) {
        case None =>
          return Err(NotFound);
        case Some(k) =>
          r := Accept(k, userId, friendId, now);
      }
    }

    /** The check and update both acceptRequest overloads make on the record found. */
    method Accept(k: nat, userId: UserId, friendId: UserId, now: Instant) returns (r: Result<Friendship>)
      requires k < |friendships.rows|
      modifies friendships
      ensures var s := M.AcceptAt(old(friendships.Table()), k, userId, friendId, now);
        r == s.result && friendships.Table() == s.table
    {
      var friendship := friendships.rows[k];
      if friendship.user == friendId && friendship.friend == userId && friendship.status == Requested {
        friendship := friendship.(status := Accepted);
        friendship := friendship.(updatedAt := Some(now));
        friendships.Update(k, friendship);
        return Ok(friendship);
      } else {
        return Err(BadRequest);
      }
    }

    /** addToBlackList: the record is turned so that its user is the one who blocks. */
    method AddToBlackList(userId: UserId, friendId: UserId, now: Instant) returns (r: Result<Friendship>)
      requires friendships.Valid()
      modifies friendships
      ensures friendships.Valid()
      ensures var s := M.AddToBlackList(old(friendships.Table()), users.users.Keys,
                                        friendId in users.users && AdminRole in users.users[friendId].roles,
                                        userId, friendId, now);
        r == s.result && friendships.Table() == s.table
    {
      M.AddToBlackListValid(friendships.Table(), users.users.Keys,
                            friendId in users.users && AdminRole in users.users[friendId].roles,
                            userId, friendId, now);
      if friendId !in users.users {
        return Err(NotFound);
      }
      var friend := users.users[friendId];
      if AdminRole in friend.roles {
        return Err(IllegalState);
      }
      match FindIndex(friendships.rows, userId, friendId) {
        case Some(k) =>
          var friendship := friendships.rows[k];
          if friendship.user == friendId {
            if userId !in users.users {
              return Err(NotFound);
            }
            friendship := friendship.(user := userId);
            friendship := friendship.(friend := friendId);
          }
          friendship := friendship.(status := Blocked);
          friendship := friendship.(updatedAt := Some(now));
          friendships.Update(k, friendship);
          return Ok(friendship);
        case None =>
          if userId !in users.users {
            return Err(NotFound);
          }
          var created := friendships.Insert(userId, friendId, Blocked, now);
          return Ok(created);
      }
    }

    /** removeFromFriends: the record is turned so that its user is the one who still follows. */
    method RemoveFromFriends(userId: UserId, friendId: UserId, now: Instant) returns (r: Result<Friendship>)
      requires friendships.Valid()
      modifies friendships
      ensures friendships.Valid()
      ensures var s := M.RemoveFromFriends(old(friendships.Table()), users.users.Keys, userId, friendId, now);
        r == s.result && friendships.Table() == s.table
    {
      M.RemoveFromFriendsValid(friendships.Table(), users.users.Keys, userId, friendId, now);
      match FindIndex(friendships.rows, userId, friendId) {
        case None =>
          return Err(NotFound);
        case Some(k) =>
          var friendship := friendships.rows[k];
          if friendship.status != Accepted {
            return Err(IllegalState);
          }
          if friendship.user == userId {
            if friendId !in users.users || userId !in users.users {
              return Err(NotFound);
            }
            friendship := friendship.(user := friendId);
            friendship := friendship.(friend := userId);
          }
          friendship := friendship.(status := Requested);
          friendship := friendship.(updatedAt := Some(now));
          friendships.Update(k, friendship);
          return Ok(friendship);
      }
    }

    /** removeFromBlackList: only the user who blocked can lift the block, which deletes the record. */
    method RemoveFromBlackList(userId: UserId, friendId: UserId) returns (o: Outcome)
      requires friendships.Valid()
      modifies friendships
      ensures friendships.Valid()
      ensures var s := M.RemoveFromBlackList(old(friendships.Table()), userId, friendId);
        o == s.outcome && friendships.Table() == s.table
    {
      M.RemoveFromBlackListValid(friendships.Table(), userId, friendId);
      match FindIndex(friendships.rows, userId, friendId) {
        case None =>
          return Fail(NotFound);
        case Some(k) =>
          var friendship := friendships.rows[k];
          if friendship.status != Blocked {
            return Done;
          }
          if friendship.user == friendId {
            return Fail(IllegalState);
          }
          friendships.Delete(k);
          return Done;
      }
    }

  }
}
