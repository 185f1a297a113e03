/**
 * The stores behind the services: one class per repository, each holding its table and
 * changing it only through the repository's save and delete operations.
 */
module Repositories {
  import opened Errors
  import opened Entities
  import opened Friendships
  import opened Reviews
  import FriendshipMachine

  /** The friendship table: records as values, replaced in place when a managed record is saved. */
  class FriendshipRepository {
    var rows: seq<Friendship>
    var nextId: int

    constructor ()
      ensures rows == [] && nextId == 1
    {
      rows := [];
      nextId := 1;
    }

    ghost predicate Valid()
      reads this
    {
      ValidTable(rows, nextId)
    }

    function Table(): FriendshipMachine.Table
      reads this
    {
      FriendshipMachine.Table(rows, nextId)
    }

    /** save of a record already in the table: row k takes the record's new field values. */
    method Update(k: nat, r: Friendship)
      requires k < |rows|
      modifies this
      ensures rows == old(rows)[k := r] && nextId == old(nextId)
    {
      rows := rows[k := r];
    }

    /** save of a new record: it receives the next id and is created at `now`. */
    method Insert(user: UserId, friend: UserId, status: Status, now: Instant) returns (r: Friendship)
      modifies this
      ensures r == NewFriendship(old(nextId), user, friend, status, now)
      ensures rows == old(rows) + [r] && nextId == old(nextId) + 1
    {
      r := NewFriendship(nextId, user, friend, status, now);
      rows := rows + [r];
      nextId := nextId + 1;
    }

    /** delete of the record in row k. */
    method Delete(k: nat)
      requires k < |rows|
      modifies this
      ensures rows == RemoveAt(old(rows), k) && nextId == old(nextId)
    {
      rows := RemoveAt(rows, k);
    }

    /** The cascade of a user's deletion: every record naming the user goes. */
    method DeleteMentioning(u: UserId)
      modifies this
      ensures rows == WithoutUser(old(rows), u) && nextId == old(nextId)
    {
      rows := WithoutUser(rows, u);
    }
  }

  class ReviewRepository {
    var rows: seq<Review>
    var nextId: int

    constructor ()
      ensures rows == [] && nextId == 1
    {
      rows := [];
      nextId := 1;
    }

    ghost predicate Valid()
      reads this
    {
      ValidReviews(rows, nextId)
    }

    /** save of a new review: it receives the next id. */
    method Save(user: UserId, film: FilmId, rating: Rating.Tenths) returns (r: Review)
      modifies this
      ensures r == Review(old(nextId), user, film, rating)
      ensures rows == old(rows) + [r] && nextId == old(nextId) + 1
    {
      r := Review(nextId, user, film, rating);
      rows := rows + [r];
      nextId := nextId + 1;
    }

    method DeleteById(id: int)
      modifies this
      ensures rows == WithoutReview(old(rows), id) && nextId == old(nextId)
    {
      rows := WithoutReview(rows, id);
    }

    method DeleteAllByUserId(u: UserId)
      modifies this
      ensures rows == WithoutUserReviews(old(rows), u) && nextId == old(nextId)
    {
      rows := WithoutUserReviews(rows, u);
    }

    method DeleteAllByFilmId(f: FilmId)
      modifies this
      ensures rows == WithoutFilmReviews(old(rows), f) && nextId == old(nextId)
    {
      rows := WithoutFilmReviews(rows, f);
    }
  }

  /** The users by id. */
  class UserRepository {
    var users: map<UserId, User>
    var nextId: int

    constructor ()
      ensures users == map[] && nextId == 1
    {
      users := map[];
      nextId := 1;
    }

    /** Every user is stored under its own id, and ids below the next one. */
    ghost predicate Valid()
      reads this
    {
      forall k :: k in users ==> users[k].id == k && k < nextId
    }

    /** Logins and emails are unique across users (the two findBy lookups return at most one). */
    ghost predicate DistinctCredentials()
      reads this, users.Values
    {
      forall a, b :: a in users && b in users && a != b ==>
        users[a].login != users[b].login && users[a].email != users[b].email
    }

    /** findByLogin(login).isPresent() */
    predicate LoginInUse(login: string)
      reads this, users.Values
    {
      exists k :: k in users && users[k].login == login
    }

    /** findByEmail(email).isPresent() */
    predicate EmailInUse(email: string)
      reads this, users.Values
    {
      exists k :: k in users && users[k].email == email
    }

    /** save of a new user, which takes the next id. */
    method Add(u: User)
      requires u.id == nextId
      modifies this
      ensures users == old(users)[u.id := u] && nextId == old(nextId) + 1
    {
      users := users[u.id := u];
      nextId := nextId + 1;
    }

    method Delete(id: UserId)
      modifies this
      ensures users == old(users) - {id} && nextId == old(nextId)
    {
      users := users - {id};
    }
  }

  /** The films by id. */
  class FilmRepository {
    var films: map<FilmId, Film>

    constructor ()
      ensures films == map[]
    {
      films := map[];
    }

    ghost predicate Valid()
      reads this
    {
      forall k :: k in films ==> films[k].id == k
    }

    method DeleteById(id: FilmId)
      modifies this
      ensures films == old(films) - {id}
    {
      films := films - {id};
    }
  }

  /**
   * The like association is stored on both sides: a stored user likes a stored film exactly
   * when the film lists the user among those who liked it.
   */
  ghost predicate LikesMirrored(users: UserRepository, films: FilmRepository)
    reads users, films, users.users.Values, films.films.Values
  {
    forall u, f :: u in users.users && f in films.films ==>
      (f in users.users[u].likedFilms <==> u in films.films[f].likedBy)
  }

  /** A stored film with a review has a rating (the rating is cleared only with the last review). */
  ghost predicate RatedWhileReviewed(films: FilmRepository, reviews: ReviewRepository)
    reads films, reviews, films.films.Values
  {
    forall x :: x in reviews.rows && x.film in films.films ==> films.films[x.film].rating.Some?
  }
}
