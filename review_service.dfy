/**
 * The film review service: adding and deleting a review, each of which updates the film's
 * rating incrementally instead of recomputing it from all reviews.
 */
module ReviewServices {
  import opened Errors
  import opened Rating
  import opened Entities
  import opened Reviews
  import opened Repositories

  /** The body of a review creation request: who reviews which film, with what rating. */
  datatype ReviewCreate = ReviewCreate(userId: UserId, filmId: FilmId, rating: Tenths)

  /**
   * calculateRating: the film's rating once a review rated x has been saved, where count is the
   * number of the film's reviews including the new one. A film without a rating takes the
   * review's rating as it is.
   */
  function CalculatedRating(current: Option<Tenths>, count: nat, x: Tenths): (r: Tenths)
    requires count >= 1
    ensures current.None? ==> r == x
    ensures current.Some? ==> r == AddedRating(current.value, count, x)
    ensures InRange(x) && (current.None? || InRange(current.value)) ==> InRange(r)
  {
    match current
    case None => x
    case Some(rating) => AddedRating(rating, count, x)
  }

  /**
   * The rating deleteReview leaves, where count is the number of the film's reviews before the
   * deletion: no rating once the last review goes, otherwise the incremental update kept in
   * range. A film with more than one review has a rating (RatedWhileReviewed).
   */
  function RatingAfterDeletion(current: Option<Tenths>, count: nat, x: Tenths): (r: Option<Tenths>)
    requires count >= 1 && (count >= 2 ==> current.Some?)
    ensures r.None? <==> count == 1
    ensures r.Some? ==> InRange(r.value) && r.value == DeletedRating(current.value, count, x)
  {
    if count == 1 then None else Some(DeletedRating(current.value, count, x))
  }

  /** The review service's unit-test examples: 6.3 after adding, 3.0 after deleting, none after the last. */
  lemma ReviewServiceExamples(x: Tenths)
    ensures CalculatedRating(Some(50), 3, 90) == 63
    ensures CalculatedRating(None, 1, x) == x
    ensures RatingAfterDeletion(Some(50), 3, 90) == Some(30)
    ensures RatingAfterDeletion(Some(x), 1, x) == None
  {
    UnitTestExamples();
  }

  class FilmReviewService {
    const reviews: ReviewRepository
    const films: FilmRepository
    const users: UserRepository

    constructor (reviews: ReviewRepository, films: FilmRepository, users: UserRepository)
      ensures this.reviews == reviews && this.films == films && this.users == users
    {
      this.reviews := reviews;
      this.films := films;
      this.users := users;
    }

    /**
     * addReview. The path ids must match the body, the user must not have reviewed the film
     * yet, and both must exist; otherwise IllegalState and nothing is written. On success the
     * review is saved with the next id and the film's rating is recalculated.
     */
    method AddReview(review: ReviewCreate, userId: UserId, filmId: FilmId) returns (r: Result<Review>)
      requires reviews.Valid() && films.Valid() && RatedWhileReviewed(films, reviews)
      modifies reviews, films.films.Values`rating
      ensures reviews.Valid() && RatedWhileReviewed(films, reviews)
      ensures r.Err? <==>
        || userId != review.userId || filmId != review.filmId
        || FindByUserAndFilm(old(reviews.rows), review.userId, review.filmId).Some?
        || review.userId !in users.users || review.filmId !in films.films
      ensures r.Err? ==> r.error == IllegalState && reviews.rows == old(reviews.rows) && reviews.nextId == old(reviews.nextId)
      ensures r.Ok? ==>
        && r.value == Review(old(reviews.nextId), userId, filmId, review.rating)
        && reviews.rows == old(reviews.rows) + [r.value] && reviews.nextId == old(reviews.nextId) + 1
        && films.films[filmId].rating ==
             Some(CalculatedRating(old(films.films[filmId].rating), ReviewCount(reviews.rows, filmId), review.rating))
      ensures forall f :: f in films.films && (r.Err? || f != filmId) ==>
        films.films[f].rating == old(films.films[f].rating)
    {
      if userId != review.userId || filmId != review.filmId {
        return Err(IllegalState);
      }
      if FindByUserAndFilm(reviews.rows, review.userId, review.filmId).Some? {
        return Err(IllegalState);
      }
      var existsUser := review.userId in users.users;
      var existsFilm := review.filmId in films.films;
      if !existsUser || !existsFilm {
        return Err(IllegalState);
      }
      AppendValid(reviews.rows, reviews.nextId, Review(reviews.nextId, review.userId, review.filmId, review.rating));
      var saved := reviews.Save(review.userId, review.filmId, review.rating);
      CalculateRating(saved);
      return Ok(saved);
    }

    /** calculateRating, applied to the review just saved. */
    method CalculateRating(review: Review)
      requires films.Valid() && review in reviews.rows && review.film in films.films
      modifies films.films.Values`rating
      ensures films.films[review.film].rating ==
        Some(CalculatedRating(old(films.films[review.film].rating), ReviewCount(reviews.rows, review.film), review.rating))
      ensures forall f :: f in films.films && f != review.film ==> films.films[f].rating == old(films.films[f].rating)
    {
      var film := films.films[review.film];
      var numberOfReviews := ReviewCount(reviews.rows, review.film);
      assert review in ReviewsOfFilm(reviews.rows, review.film);
      film.rating := Some(CalculatedRating(film.rating, numberOfReviews, review.rating));
    }

    /**
     * deleteReview. A missing review gives NotFound and a review of another user or film
     * IllegalState, both before any change. Otherwise the review goes and the film's rating is
     * cleared if it was the film's only review, or updated incrementally.
     */
    method DeleteReview(id: int, filmId: FilmId, userId: UserId) returns (o: Outcome)
      requires reviews.Valid() && films.Valid() && RatedWhileReviewed(films, reviews)
      modifies reviews, films.films.Values`rating
      ensures reviews.Valid() && RatedWhileReviewed(films, reviews)
      ensures match FindReview(old(reviews.rows), id)
        case None => o == Fail(NotFound)
        case Some(k) =>
          var x := old(reviews.rows)[k];
          if x.user != userId || x.film != filmId then o == Fail(IllegalState)
          else if filmId !in films.films then o == Fail(NotFound)
          else
            && o == Done
            && reviews.rows == WithoutReview(old(reviews.rows), id)
            && films.films[filmId].rating ==
                 RatingAfterDeletion(old(films.films[filmId].rating), ReviewCount(old(reviews.rows), filmId), x.rating)
      ensures o.Fail? ==> reviews.rows == old(reviews.rows)
      ensures reviews.nextId == old(reviews.nextId)
      ensures forall f :: f in films.films && (o.Fail? || f != filmId) ==>
        films.films[f].rating == old(films.films[f].rating)
    {
      var found := FindReview(reviews.rows, id);
      if found.None? {
        return Fail(NotFound);
      }
      var k := found.value;
      var review := reviews.rows[k];
      if userId != review.user || filmId != review.film {
        return Fail(IllegalState);
      }
      var rating := review.rating;
      if filmId !in films.films {
        return Fail(NotFound);
      }
      var film := films.films[filmId];
      var numberOfReviews := ReviewCount(reviews.rows, filmId);
      assert review in ReviewsOfFilm(reviews.rows, filmId);
      var currentRating := film.rating;
      WhereValid(reviews.rows, reviews.nextId, (y: Review) => y.id != id);
      if numberOfReviews == 1 {
        DeletingOnlyReview(reviews.rows, k);
        film.rating := None;
        reviews.DeleteById(id);
        return Done;
      }
      film.rating := Some(DeletedRating(currentRating.value, numberOfReviews, rating));
      reviews.DeleteById(id);
      return Done;
    }
  }
}
