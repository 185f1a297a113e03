/**
 * The user service: registration, partial update and deletion of users, and the like service
 * that records a user's likes on both the user and the film.
 */
module UserServices {
  import opened Errors
  import opened Entities
  import opened Friendships
  import opened Reviews
  import opened Repositories
  import opened Merging

  /** The registration request; a missing name is None. */
  datatype UserCreate = UserCreate(login: string, email: string, name: Option<string>,
                                   birthday: Option<Date>, password: string)

  /** The update request: every field may be missing (None), which leaves it as it is. */
  datatype UserUpdate = UserUpdate(login: Option<string>, email: Option<string>, birthday: Option<Date>,
                                   name: Option<string>, password: Option<string>)

  /**
   * The birthday step of updateUser as written: the stored birthday's equals is called before
   * any null check, so a user without a birthday makes every update fail with a
   * NullPointerException, whatever the request holds.
   */
  function BirthdayMergedAsWritten(stored: Option<Date>, incoming: Option<Date>): (r: Result<Option<Date>>)
    ensures stored.None? ==> r == Err(NullPointer)
    ensures stored.Some? ==> r == Ok(MergedOptional(stored, incoming))
  {
    match stored
    case None => Err(NullPointer)
    case Some(_) => if stored != incoming && incoming.Some? then Ok(incoming) else Ok(stored)
  }

  /**
   * A user registered without a birthday (the registration request allows that) can never be
   * updated as written, even when the request leaves the birthday out; the corrected merge
   * keeps the missing birthday or takes the new one.
   */
  lemma BirthdayCounterexample(d: Date)
    ensures BirthdayMergedAsWritten(None, None) == Err(NullPointer)
    ensures BirthdayMergedAsWritten(None, Some(d)) == Err(NullPointer)
    ensures MergedOptional<Date>(None, None) == None
    ensures MergedOptional(None, Some(d)) == Some(d)
  {
  }

  class UserService {
    const users: UserRepository
    const reviews: ReviewRepository
    const friendships: FriendshipRepository
    /** The password encoder, a one-way function given from outside. */
    const encode: string -> string

    constructor (users: UserRepository, reviews: ReviewRepository, friendships: FriendshipRepository,
                 encode: string -> string)
      ensures this.users == users && this.reviews == reviews && this.friendships == friendships
      ensures this.encode == encode
    {
      this.users := users;
      this.reviews := reviews;
      this.friendships := friendships;
      this.encode := encode;
    }

    /**
     * createUser: the email and the login must be unused (AlreadyExists otherwise, nothing
     * saved). The new user has the encoded password, exactly the USER role, and the login as
     * its name when no name is given.
     */
    method CreateUser(dto: UserCreate) returns (r: Result<User>)
      requires users.Valid() && users.DistinctCredentials()
      modifies users
      ensures users.Valid() && users.DistinctCredentials()
      ensures r.Err? <==> old(users.EmailInUse(dto.email)) || old(users.LoginInUse(dto.login))
      ensures r.Err? ==> r.error == AlreadyExists && users.users == old(users.users) && users.nextId == old(users.nextId)
      ensures r.Ok? ==>
        && fresh(r.value) && r.value.id == old(users.nextId)
        && users.users == old(users.users)[r.value.id := r.value]
        && r.value.login == dto.login && r.value.email == dto.email && r.value.birthday == dto.birthday
        && r.value.name == (if dto.name.None? then dto.login else dto.name.value)
        && r.value.password == encode(dto.password)
        && r.value.roles == {UserRole} && r.value.enabled && r.value.likedFilms == {}
    {
      if users.EmailInUse(dto.email) || users.LoginInUse(dto.login) {
        return Err(AlreadyExists);
      }
      var name := if dto.name.None? then dto.login else dto.name.value;
      var user := new User(users.nextId, dto.login, dto.email, name, encode(dto.password), dto.birthday, {UserRole});
      users.Add(user);
      return Ok(user);
    }

    /**
     * updateUser, as evidently intended: each given field that differs replaces the stored
     * one; a new login or email must be unused (AlreadyExists otherwise, nothing changed).
     * The new password is stored as given, not encoded.
     */
    method UpdateUser(id: UserId, dto: UserUpdate) returns (r: Result<User>)
      requires users.Valid() && users.DistinctCredentials()
      modifies users.users.Values`login, users.users.Values`email, users.users.Values`birthday
      modifies users.users.Values`name, users.users.Values`password
      ensures users.Valid() && users.DistinctCredentials()
      ensures id !in users.users ==> r == Err(NotFound)
      ensures id in users.users ==>
        var u := users.users[id];
        && (r.Err? <==>
              || (dto.login.Some? && dto.login.value != old(u.login) && old(users.LoginInUse(dto.login.value)))
              || (dto.email.Some? && dto.email.value != old(u.email) && old(users.EmailInUse(dto.email.value))))
        && (r.Err? ==> r.error == AlreadyExists)
        && (r.Ok? ==> r.value == u)
        && u.login == (if r.Ok? then Merged(old(u.login), dto.login) else old(u.login))
        && u.email == (if r.Ok? then Merged(old(u.email), dto.email) else old(u.email))
        && u.birthday == (if r.Ok? then MergedOptional(old(u.birthday), dto.birthday) else old(u.birthday))
        && u.name == (if r.Ok? then Merged(old(u.name), dto.name) else old(u.name))
        && u.password == (if r.Ok? then Merged(old(u.password), dto.password) else old(u.password))
      ensures forall k :: k in users.users && k != id ==> unchanged(users.users[k])
    {
      if id !in users.users {
        return Err(NotFound);
      }
      var oldUser := users.users[id];
      var newLogin := Merged(oldUser.login, dto.login);
      var newEmail := Merged(oldUser.email, dto.email);
      if newLogin != oldUser.login && users.LoginInUse(newLogin) {
        return Err(AlreadyExists);
      }
      if newEmail != oldUser.email && users.EmailInUse(newEmail) {
        return Err(AlreadyExists);
      }
      oldUser.login := newLogin;
      oldUser.email := newEmail;
      oldUser.birthday := MergedOptional(oldUser.birthday, dto.birthday);
      oldUser.name := Merged(oldUser.name, dto.name);
      oldUser.password := Merged(oldUser.password, dto.password);
      return Ok(oldUser);
    }

    /**
     * deleteUser: an unknown id gives NotFound; otherwise the user's reviews go, then the user,
     * and with it (by cascade) every friendship record naming the user.
     */
    method DeleteUser(id: UserId) returns (o: Outcome)
      requires users.Valid() && reviews.Valid() && friendships.Valid()
      modifies users, reviews, friendships
      ensures users.Valid() && reviews.Valid() && friendships.Valid()
      ensures id !in old(users.users) ==> o == Fail(NotFound) && unchanged(users, reviews, friendships)
      ensures id in old(users.users) ==>
        && o == Done
        && users.users == old(users.users) - {id} && users.nextId == old(users.nextId)
        && reviews.rows == WithoutUserReviews(old(reviews.rows), id) && reviews.nextId == old(reviews.nextId)
        && friendships.rows == WithoutUser(old(friendships.rows), id) && friendships.nextId == old(friendships.nextId)
    {
      if id !in users.users {
        return Fail(NotFound);
      }
      WhereValid(reviews.rows, reviews.nextId, (x: Review) => x.user != id);
      reviews.DeleteAllByUserId(id);
      WithoutUserValid(friendships.rows, friendships.nextId, id);
      friendships.DeleteMentioning(id);
      users.Delete(id);
      return Done;
    }
  }

  /** The like service: a like is recorded on the user and on the film. */
  class FilmLikeService {
    const users: UserRepository
    const films: FilmRepository

    constructor (users: UserRepository, films: FilmRepository)
      ensures this.users == users && this.films == films
    {
      this.users := users;
      this.films := films;
    }

    /**
     * addLike: an unknown user, then an unknown film, gives NotFound before any change;
     * otherwise the pair is added on both sides, and liking again changes nothing.
     */
    method AddLike(filmId: FilmId, userId: UserId) returns (r: Result<Film>)
      requires users.Valid() && films.Valid() && LikesMirrored(users, films)
      modifies users.users.Values`likedFilms, films.films.Values`likedBy
      ensures LikesMirrored(users, films)
      ensures userId !in users.users ==> r == Err(NotFound)
      ensures userId in users.users && filmId !in films.films ==> r == Err(NotFound)
      ensures userId in users.users && filmId in films.films ==>
        && r == Ok(films.films[filmId])
        && users.users[userId].likedFilms == old(users.users[userId].likedFilms) + {filmId}
        && films.films[filmId].likedBy == old(films.films[filmId].likedBy) + {userId}
        && filmId in users.users[userId].likedFilms && userId in films.films[filmId].likedBy
      ensures forall k :: k in users.users && (r.Err? || k != userId) ==>
        users.users[k].likedFilms == old(users.users[k].likedFilms)
      ensures forall f :: f in films.films && (r.Err? || f != filmId) ==>
        films.films[f].likedBy == old(films.films[f].likedBy)
    {
      if userId !in users.users {
        return Err(NotFound);
      }
      var user := users.users[userId];
      if filmId !in films.films {
        return Err(NotFound);
      }
      var film := films.films[filmId];
      user.LikeFilm(film);
      return Ok(film);
    }

    /**
     * deleteLike: an unknown user, then an unknown film, gives NotFound before any change;
     * otherwise the pair is removed on both sides and every other like stays.
     */
    method DeleteLike(filmId: FilmId, userId: UserId) returns (o: Outcome)
      requires users.Valid() && films.Valid() && LikesMirrored(users, films)
      modifies users.users.Values`likedFilms, films.films.Values`likedBy
      ensures LikesMirrored(users, films)
      ensures userId !in users.users ==> o == Fail(NotFound)
      ensures userId in users.users && filmId !in films.films ==> o == Fail(NotFound)
      ensures userId in users.users && filmId in films.films ==>
        && o == Done
        && users.users[userId].likedFilms == old(users.users[userId].likedFilms) - {filmId}
        && films.films[filmId].likedBy == old(films.films[filmId].likedBy) - {userId}
      ensures forall k :: k in users.users && (o.Fail? || k != userId) ==>
        users.users[k].likedFilms == old(users.users[k].likedFilms)
      ensures forall f :: f in films.films && (o.Fail? || f != filmId) ==>
        films.films[f].likedBy == old(films.films[f].likedBy)
    {
      if userId !in users.users {
        return Fail(NotFound);
      }
      var user := users.users[userId];
      if filmId !in films.films {
        return Fail(NotFound);
      }
      var film := films.films[filmId];
      user.UnlikeFilm(film);
      return Done;
    }
  }
}
