/**
 * The film service: the filter a search request builds, the partial update of a film, and
 * the deletion of a film with its reviews.
 */
module FilmServices {
  import opened Errors
  import opened Text
  import opened Entities
  import opened Paging
  import opened Reviews
  import opened Repositories
  import opened Merging
  import opened FilmSpecifications
  import opened FilmQueries

  /** Both years are given and the range runs backwards. */
  predicate Reversed(fromYear: Option<int>, toYear: Option<int>)
  {
    fromYear.Some? && toYear.Some? && fromYear.value > toYear.value
  }

  /**
   * The year part of the filter: nothing without years, the exact year when both are equal,
   * IllegalState for a reversed range, and otherwise a range, one-sided when a bound is absent.
   */
  function YearCriteria(fromYear: Option<int>, toYear: Option<int>): (r: Result<seq<Criterion>>)
    ensures r.Err? <==> Reversed(fromYear, toYear)
    ensures r.Err? ==> r.error == IllegalState
  {
    if fromYear.None? && toYear.None? then Ok([])
    else if fromYear == toYear then Ok([ReleaseYear(fromYear.value)])
    else if Reversed(fromYear, toYear) then Err(IllegalState)
    else Ok([YearBetween(fromYear, toYear)])
  }

  /**
   * getFilmsByFilter's specification: the name and rating criteria when given, the year part,
   * then the genre and mpa criteria when given and not empty, all conjoined.
   */
  function FilterCriteria(name: Option<string>, genre: Option<seq<string>>, rating: Option<Decimal>,
                          fromYear: Option<int>, toYear: Option<int>, mpa: Option<seq<string>>): (r: Result<seq<Criterion>>)
    ensures r.Err? <==> Reversed(fromYear, toYear)
    ensures r.Err? ==> r.error == IllegalState
  {
    match YearCriteria(fromYear, toYear)
    case Err(e) => Err(e)
    case Ok(years) =>
      Ok((if name.Some? then [TitleLike(name.value)] else [])
         + (if rating.Some? then [RatingAtLeast(rating.value)] else [])
         + years
         + (if Listed(genre) then [Genres(genre.value)] else [])
         + (if Listed(mpa) then [MpaRating(mpa.value)] else []))
  }

  /** The release year is within the bounds that are given (none given, any film). */
  predicate WithinYears(fromYear: Option<int>, toYear: Option<int>, f: FilmRow)
  {
    && (fromYear.Some? ==> f.releaseYear.Some? && f.releaseYear.value >= fromYear.value)
    && (toYear.Some? ==> f.releaseYear.Some? && f.releaseYear.value <= toYear.value)
  }

  /** What a search request asks of a film, argument by argument; an absent argument asks nothing. */
  predicate Admits(name: Option<string>, genre: Option<seq<string>>, rating: Option<Decimal>,
                   fromYear: Option<int>, toYear: Option<int>, mpa: Option<seq<string>>, f: FilmRow)
  {
    && HasTitleLike(name, f)
    && (rating.Some? ==> HasRatingGreaterThanOrEqual(rating.value, f))
    && WithinYears(fromYear, toYear, f)
    && (Listed(genre) ==> HasGenres(genre.value, f))
    && (Listed(mpa) ==> HasMpaRating(mpa.value, f))
  }

  lemma SatisfiesAppend(a: seq<Criterion>, b: seq<Criterion>, f: FilmRow)
    ensures Satisfies(a + b, f) <==> Satisfies(a, f) && Satisfies(b, f)
  {
    if Satisfies(a, f) && Satisfies(b, f) {
      forall i | 0 <= i < |a + b| ensures Matches((a + b)[i], f) {
        if i >= |a| {
          assert (a + b)[i] == b[i - |a|];
        }
      }
    }
    if Satisfies(a + b, f) {
      forall i | 0 <= i < |b| ensures Matches(b[i], f) {
        assert (a + b)[|a| + i] == b[i];
      }
      forall i | 0 <= i < |a| ensures Matches(a[i], f) {
        assert (a + b)[i] == a[i];
      }
    }
  }

  /** The year part admits exactly the films within the given years, whichever form it takes. */
  lemma YearCriteriaMeaning(fromYear: Option<int>, toYear: Option<int>, f: FilmRow)
    requires YearCriteria(fromYear, toYear).Ok?
    ensures Satisfies(YearCriteria(fromYear, toYear).value, f) <==> WithinYears(fromYear, toYear, f)
  {
    var years := YearCriteria(fromYear, toYear).value;
    if fromYear.None? && toYear.None? {
    } else if fromYear == toYear {
      SatisfiesOne(ReleaseYear(fromYear.value), f);
    } else {
      SatisfiesOne(YearBetween(fromYear, toYear), f);
      ReleaseYearBetweenBounds(fromYear, toYear, f);
    }
  }

  /**
   * The filter a request builds admits a film exactly when the film meets every given
   * argument: the exact-year form and the range form both mean "within the given years".
   */
  lemma FilterMeaning(name: Option<string>, genre: Option<seq<string>>, rating: Option<Decimal>,
                      fromYear: Option<int>, toYear: Option<int>, mpa: Option<seq<string>>, f: FilmRow)
    requires !Reversed(fromYear, toYear)
    ensures Satisfies(FilterCriteria(name, genre, rating, fromYear, toYear, mpa).value, f)
      <==> Admits(name, genre, rating, fromYear, toYear, mpa, f)
  {
    var s1: seq<Criterion> := if name.Some? then [TitleLike(name.value)] else [];
    var s2: seq<Criterion> := if rating.Some? then [RatingAtLeast(rating.value)] else [];
    var years := YearCriteria(fromYear, toYear).value;
    var s3: seq<Criterion> := if Listed(genre) then [Genres(genre.value)] else [];
    var s4: seq<Criterion> := if Listed(mpa) then [MpaRating(mpa.value)] else [];
    assert FilterCriteria(name, genre, rating, fromYear, toYear, mpa).value == s1 + s2 + years + s3 + s4;
    SatisfiesFive(s1, s2, years, s3, s4, f);
    if name.Some? { SatisfiesOne(TitleLike(name.value), f); }
    if rating.Some? { SatisfiesOne(RatingAtLeast(rating.value), f); }
    if Listed(genre) { SatisfiesOne(Genres(genre.value), f); }
    if Listed(mpa) { SatisfiesOne(MpaRating(mpa.value), f); }
    YearCriteriaMeaning(fromYear, toYear, f);
  }

  /** Five runs of criteria are satisfied together exactly when each run is. */
  lemma SatisfiesFive(s1: seq<Criterion>, s2: seq<Criterion>, s3: seq<Criterion>, s4: seq<Criterion>,
                      s5: seq<Criterion>, f: FilmRow)
    ensures Satisfies(s1 + s2 + s3 + s4 + s5, f)
      <==> Satisfies(s1, f) && Satisfies(s2, f) && Satisfies(s3, f) && Satisfies(s4, f) && Satisfies(s5, f)
  {
    SatisfiesAppend(s1 + s2 + s3 + s4, s5, f);
    SatisfiesAppend(s1 + s2 + s3, s4, f);
    SatisfiesAppend(s1 + s2, s3, f);
    SatisfiesAppend(s1, s2, f);
  }

  /**
   * Equal years give the exact-year criterion and no range, and a request without arguments
   * gives no criterion at all.
   */
  lemma FilterCriteriaForms(name: Option<string>, genre: Option<seq<string>>, rating: Option<Decimal>,
                            y: int, mpa: Option<seq<string>>)
    ensures var r := FilterCriteria(name, genre, rating, Some(y), Some(y), mpa);
      r.Ok? && ReleaseYear(y) in r.value && forall c :: c in r.value ==> !c.YearBetween?
    ensures FilterCriteria(None, None, None, None, None, None) == Ok([])
  {
    var none: seq<Criterion> := [];
    assert none + none + none + none + none == [];
  }

  /**
   * getFilmsByFilter: IllegalState for a reversed year range, before any query; otherwise the
   * requested page of the stored films the filter admits.
   */
  function GetFilmsByFilter(rows: seq<FilmRow>, number: nat, size: nat, name: Option<string>,
                            genre: Option<seq<string>>, rating: Option<Decimal>, fromYear: Option<int>,
                            toYear: Option<int>, mpa: Option<seq<string>>): (r: Result<Page<FilmRow>>)
    requires size > 0
    ensures r.Err? <==> Reversed(fromYear, toYear)
    ensures r.Err? ==> r.error == IllegalState
    ensures r.Ok? ==> r.value.number == number && |r.value.content| <= size
    ensures r.Ok? ==> forall x :: x in r.value.content ==>
      x in rows && Admits(name, genre, rating, fromYear, toYear, mpa, x)
  {
    match FilterCriteria(name, genre, rating, fromYear, toYear, mpa)
    case Err(e) => Err(e)
    case Ok(spec) =>
      var selected := Select(rows, spec);
      var p := PageOf(selected, number, size);
      assert forall x :: x in p.content ==> x in selected;
      forall x | x in p.content ensures Admits(name, genre, rating, fromYear, toYear, mpa, x) {
        FilterMeaning(name, genre, rating, fromYear, toYear, mpa, x);
      }
      Ok(p)
  }

  /** The update request: every field may be missing; the genres arrive as genre entities. */
  datatype FilmUpdate = FilmUpdate(name: Option<string>, description: Option<string>, genres: Option<seq<Genre>>,
                                   duration: Option<int>, releaseDate: Option<Date>, mpa: Option<Mpa>)

  function GenresOf(dto: FilmUpdate): set<Genre>
  {
    if dto.genres.Some? then set g | g in dto.genres.value else {}
  }

  /**
   * The mpa step of updateFilm as written: the stored rating's id is read before any null check,
   * so a film stored without an mpa rating cannot be given one by an update.
   */
  function MpaMergedAsWritten(stored: Option<Mpa>, incoming: Option<Mpa>): (r: Result<Option<Mpa>>)
    ensures r.Err? <==> incoming.Some? && stored.None?
    ensures r.Err? ==> r.error == NullPointer
    ensures r.Ok? ==> r.value == MergedMpa(stored, incoming)
  {
    if incoming.None? then Ok(stored)
    else match stored
      case None => Err(NullPointer)
      case Some(m) => if incoming.value.id != m.id then Ok(incoming) else Ok(stored)
  }

  /** The mpa step as evidently intended: a given rating with another id replaces the stored one. */
  function MergedMpa(stored: Option<Mpa>, incoming: Option<Mpa>): (r: Option<Mpa>)
    ensures incoming.None? ==> r == stored
    ensures incoming.Some? ==> r.Some? && r.value.id == incoming.value.id
    ensures r != incoming ==> r == stored
  {
    if incoming.Some? && (stored.None? || incoming.value.id != stored.value.id) then incoming else stored
  }

  /** A film created without an mpa rating (the creation request allows that) fails every update that sets one. */
  lemma MpaCounterexample(m: Mpa)
    ensures MpaMergedAsWritten(None, Some(m)) == Err(NullPointer)
    ensures MergedMpa(None, Some(m)) == Some(m)
  {
  }

  class FilmService {
    const films: FilmRepository
    const reviews: ReviewRepository

    constructor (films: FilmRepository, reviews: ReviewRepository)
      ensures this.films == films && this.reviews == reviews
    {
      this.films := films;
      this.reviews := reviews;
    }

    /**
     * updateFilm: an unknown id gives NotFound. Otherwise each given field replaces the stored
     * one (a duration of 0 counts as not given), given genres replace the film's genres and
     * each lists the film, and the rating and the likes stay as they are.
     */
    method UpdateFilm(id: FilmId, dto: FilmUpdate) returns (r: Result<Film>)
      requires films.Valid()
      modifies films.films.Values, GenresOf(dto)
      ensures id !in films.films ==> r == Err(NotFound) && forall g :: g in GenresOf(dto) ==> unchanged(g)
      ensures id in films.films ==>
        var f := films.films[id];
        && r == Ok(f)
        && f.name == Merged(old(f.name), dto.name)
        && f.description == MergedOptional(old(f.description), dto.description)
        && f.genres == (if dto.genres.Some? then set g | g in dto.genres.value :: g.id else old(f.genres))
        && f.duration == MergedOptional(old(f.duration), if dto.duration == Some(0) then None else dto.duration)
        && f.releaseDate == MergedOptional(old(f.releaseDate), dto.releaseDate)
        && f.mpa == MergedMpa(old(f.mpa), dto.mpa)
        && f.rating == old(f.rating) && f.likedBy == old(f.likedBy)
        && forall g :: g in GenresOf(dto) ==> g.films == old(g.films) + {id}
      ensures forall k :: k in films.films && k != id ==> unchanged(films.films[k])
    {
      if id !in films.films {
        return Err(NotFound);
      }
      var oldFilm := films.films[id];
      Apply(oldFilm, dto);
      ReplaceGenres(oldFilm, dto);
      return Ok(oldFilm);
    }

    /** The changes updateFilm makes to the stored film's own fields, field by field. */
    method Apply(oldFilm: Film, dto: FilmUpdate)
      modifies oldFilm`name, oldFilm`description, oldFilm`duration, oldFilm`releaseDate, oldFilm`mpa
      ensures oldFilm.name == Merged(old(oldFilm.name), dto.name)
      ensures oldFilm.description == MergedOptional(old(oldFilm.description), dto.description)
      ensures oldFilm.duration == MergedOptional(old(oldFilm.duration), if dto.duration == Some(0) then None else dto.duration)
      ensures oldFilm.releaseDate == MergedOptional(old(oldFilm.releaseDate), dto.releaseDate)
      ensures oldFilm.mpa == MergedMpa(old(oldFilm.mpa), dto.mpa)
    {
      if dto.name.Some? && dto.name.value != oldFilm.name {
        oldFilm.name := dto.name.value;
      }
      if dto.description.Some? && dto.description != oldFilm.description {
        oldFilm.description := dto.description;
      }
      if dto.duration.Some? && dto.duration.value != 0 && dto.duration != oldFilm.duration {
        oldFilm.duration := dto.duration;
      }
      if dto.releaseDate.Some? && dto.releaseDate != oldFilm.releaseDate {
        oldFilm.releaseDate := dto.releaseDate;
      }
      if dto.mpa.Some? && (oldFilm.mpa.None? || dto.mpa.value.id != oldFilm.mpa.value.id) {
        oldFilm.mpa := dto.mpa;
      }
    }

    /** The genres step of updateFilm: given genres replace the film's genres wholesale. */
    method ReplaceGenres(oldFilm: Film, dto: FilmUpdate)
      modifies oldFilm`genres, GenresOf(dto)
      ensures oldFilm.genres == (if dto.genres.Some? then set g | g in dto.genres.value :: g.id else old(oldFilm.genres))
      ensures forall g :: g in GenresOf(dto) ==> g.films == old(g.films) + {oldFilm.id}
    {
      if dto.genres.Some? {
        oldFilm.SetGenres(dto.genres.value);
      }
    }

    /** deleteFilmById: an unknown id gives NotFound; otherwise the film's reviews go, then the film. */
    method DeleteFilmById(id: FilmId) returns (o: Outcome)
      requires films.Valid() && reviews.Valid() && RatedWhileReviewed(films, reviews)
      modifies films, reviews
      ensures films.Valid() && reviews.Valid() && RatedWhileReviewed(films, reviews)
      ensures id !in old(films.films) ==>
        o == Fail(NotFound) && films.films == old(films.films) && reviews.rows == old(reviews.rows)
      ensures id in old(films.films) ==>
        && o == Done
        && films.films == old(films.films) - {id}
        && reviews.rows == WithoutFilmReviews(old(reviews.rows), id)
      ensures reviews.nextId == old(reviews.nextId)
    {
      if id !in films.films {
        return Fail(NotFound);
      }
      WhereValid(reviews.rows, reviews.nextId, (x: Review) => x.film != id);
      reviews.DeleteAllByFilmId(id);
      films.DeleteById(id);
      return Done;
    }
  }
}
