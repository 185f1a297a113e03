/**
 * Reviews and the queries of the review repository.
 *
 * A review is a user's rating of a film. The repository's finders are queries over the review
 * rows; its two bulk deletes keep exactly the rows the query does not select.
 */
module Reviews {
  import opened Errors
  import opened Rating
  import opened Entities

  datatype Review = Review(id: int, user: UserId, film: FilmId, rating: Tenths)

  /** The rows that satisfy `keep`, in their table order. */
  function Where(rows: seq<Review>, keep: Review -> bool): (r: seq<Review>)
    ensures |r| <= |rows|
    ensures forall x :: x in r <==> x in rows && keep(x)
  {
    if rows == [] then []
    else
      var tail := Where(rows[1..], keep);
      if keep(rows[0]) then [rows[0]] + tail else tail
  }

  /** findAllByFilmId: exactly the reviews of film f. */
  function ReviewsOfFilm(rows: seq<Review>, f: FilmId): (r: seq<Review>)
    ensures forall x :: x in r <==> x in rows && x.film == f
  {
    Where(rows, (x: Review) => x.film == f)
  }

  /** The number of reviews of film f, the count the rating aggregator divides by. */
  function ReviewCount(rows: seq<Review>, f: FilmId): nat {
    |ReviewsOfFilm(rows, f)|
  }

  /** deleteAllByUserId: the reviews of user u go, every other review stays. */
  function WithoutUserReviews(rows: seq<Review>, u: UserId): (r: seq<Review>)
    ensures forall x :: x in r <==> x in rows && x.user != u
  {
    Where(rows, (x: Review) => x.user != u)
  }

  /** deleteAllByFilmId: the reviews of film f go, every other review stays. */
  function WithoutFilmReviews(rows: seq<Review>, f: FilmId): (r: seq<Review>)
    ensures forall x :: x in r <==> x in rows && x.film != f
  {
    Where(rows, (x: Review) => x.film != f)
  }

  /** deleteById: the review with this id goes, every other review stays. */
  function WithoutReview(rows: seq<Review>, id: int): (r: seq<Review>)
    ensures forall x :: x in r <==> x in rows && x.id != id
  {
    Where(rows, (x: Review) => x.id != id)
  }

  /** findByUserIdAndFilmId: the first review by user u of film f, if there is one. */
  function FindByUserAndFilm(rows: seq<Review>, u: UserId, f: FilmId): (r: Option<Review>)
    ensures r.Some? ==> r.value in rows && r.value.user == u && r.value.film == f
    ensures r.None? <==> forall x :: x in rows ==> !(x.user == u && x.film == f)
  {
    if rows == [] then None
    else if rows[0].user == u && rows[0].film == f then Some(rows[0])
    else FindByUserAndFilm(rows[1..], u, f)
  }

  /** findById: the index of the review with this id, if there is one. */
  function FindReview(rows: seq<Review>, id: int): (r: Option<nat>)
    ensures r.Some? ==> r.value < |rows| && rows[r.value].id == id
    ensures r.None? <==> forall x :: x in rows ==> x.id != id
  {
    if rows == [] then None
    else if rows[0].id == id then Some(0)
    else match FindReview(rows[1..], id)
      case None => None
      case Some(k) => Some(k + 1)
  }

  /** Review ids are unique and below the next id, and a user reviews a film at most once. */
  predicate ValidReviews(rows: seq<Review>, nextId: int) {
    && (forall i, j :: 0 <= i < j < |rows| ==> rows[i].id != rows[j].id)
    && (forall i, j :: 0 <= i < j < |rows| ==> !(rows[i].user == rows[j].user && rows[i].film == rows[j].film))
    && (forall x :: x in rows ==> x.id < nextId)
  }

  /** Every subsequence of a valid table is valid: the bulk deletes and deleteById keep the invariant. */
  lemma {:induction false} WhereValid(rows: seq<Review>, nextId: int, keep: Review -> bool)
    requires ValidReviews(rows, nextId)
    ensures ValidReviews(Where(rows, keep), nextId)
  {
    if rows != [] {
      var tail := rows[1..];
      assert ValidReviews(tail, nextId) by {
        forall i, j | 0 <= i < j < |tail|
          ensures tail[i].id != tail[j].id && !(tail[i].user == tail[j].user && tail[i].film == tail[j].film)
        {
          assert tail[i] == rows[i + 1] && tail[j] == rows[j + 1];
        }
      }
      WhereValid(tail, nextId, keep);
      var r := Where(rows, keep);
      if keep(rows[0]) {
        var rest := Where(tail, keep);
        forall i, j | 0 <= i < j < |r|
          ensures r[i].id != r[j].id && !(r[i].user == r[j].user && r[i].film == r[j].film)
        {
          if i == 0 {
            assert r[j] == rest[j - 1] && rest[j - 1] in tail;
            var m :| 0 <= m < |tail| && tail[m] == r[j];
            assert r[j] == rows[m + 1];
          } else {
            assert r[i] == rest[i - 1] && r[j] == rest[j - 1];
          }
        }
      }
    }
  }

  /** Saving a new review of a pair without one, with the next id, keeps the invariant. */
  lemma AppendValid(rows: seq<Review>, nextId: int, x: Review)
    requires ValidReviews(rows, nextId)
    requires x.id == nextId
    requires FindByUserAndFilm(rows, x.user, x.film).None?
    ensures ValidReviews(rows + [x], nextId + 1)
  {
    var rows' := rows + [x];
    forall i, j | 0 <= i < j < |rows'|
      ensures rows'[i].id != rows'[j].id && !(rows'[i].user == rows'[j].user && rows'[i].film == rows'[j].film)
    {
      assert rows'[i] == rows[i] && rows[i] in rows;
    }
  }

  /**
   * When a film has a single review, deleting that review leaves the film without reviews:
   * the case in which deleteReview clears the rating.
   */
  lemma DeletingOnlyReview(rows: seq<Review>, k: nat)
    requires k < |rows| && ReviewCount(rows, rows[k].film) == 1
    ensures forall x :: x in WithoutReview(rows, rows[k].id) ==> x.film != rows[k].film
  {
    var all := ReviewsOfFilm(rows, rows[k].film);
    forall x | x in rows && x.film == rows[k].film ensures x == rows[k] {
      assert x == all[0] && rows[k] == all[0];
    }
  }
}
