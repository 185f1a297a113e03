/**
 * The film predicates the filter combines. Each is a condition on a film row, the values the
 * query reads from a film and its joins: the name, the release year, the rating, the mpa name,
 * the genre names and the number of likes.
 */
module FilmSpecifications {
  import opened Errors
  import opened Rating
  import opened Text

  datatype FilmRow = FilmRow(id: int, name: string, releaseYear: Option<int>, rating: Option<Tenths>,
                             mpaName: Option<string>, genreNames: set<string>, likes: nat)

  /** lower() on one character: the Latin and Russian capitals map to their small letters. */
  function LowerChar(c: char): (l: char)
    ensures !('A' <= l <= 'Z') && !('А' <= l <= 'Я') && l != 'Ё'
  {
    if 'A' <= c <= 'Z' then (c as int + 32) as char
    else if 'А' <= c <= 'Я' then (c as int + 32) as char
    else if c == 'Ё' then 'ё'
    else c
  }

  function Lower(s: string): (r: string)
    ensures |r| == |s| && forall i :: 0 <= i < |s| ==> r[i] == LowerChar(s[i])
  {
    seq(|s|, i requires 0 <= i < |s| => LowerChar(s[i]))
  }

  lemma LowerIdempotent(s: string)
    ensures Lower(Lower(s)) == Lower(s)
  {
  }

  /** sub occurs in s starting at index i. */
  predicate OccursAt(s: string, sub: string, i: int)
  {
    0 <= i <= |s| - |sub| && s[i..i + |sub|] == sub
  }

  /** The LIKE pattern '%' + sub + '%': sub occurs somewhere in s. */
  predicate Contains(s: string, sub: string)
  {
    exists i :: 0 <= i <= |s| - |sub| && OccursAt(s, sub, i)
  }

  /** hasTitleLike: the lower-cased name contains the lower-cased query; no query, no restriction. */
  predicate HasTitleLike(name: Option<string>, f: FilmRow)
  {
    name.None? || Contains(Lower(f.name), Lower(name.value))
  }

  /**
   * The title match ignores case on both sides: a query and its lower-case form match the same
   * films, an empty query matches every film, and a film always matches its own name.
   */
  lemma TitleLikeIgnoresCase(q: string, f: FilmRow)
    ensures HasTitleLike(Some(q), f) == HasTitleLike(Some(Lower(q)), f)
    ensures HasTitleLike(Some(""), f)
    ensures HasTitleLike(Some(f.name), f)
  {
    LowerIdempotent(q);
    var l := Lower(f.name);
    assert OccursAt(l, Lower(""), 0);
    assert OccursAt(l, l, 0);
  }

  /** A match does not depend on the case the film's name is written in. */
  lemma TitleLikeIgnoresNameCase(q: string, f: FilmRow, name: string)
    requires Lower(name) == Lower(f.name)
    ensures HasTitleLike(Some(q), f) == HasTitleLike(Some(q), f.(name := name))
  {
  }

  /** hasMpaRating: the film has an mpa rating whose name is listed. */
  predicate HasMpaRating(mpa: seq<string>, f: FilmRow)
  {
    f.mpaName.Some? && f.mpaName.value in mpa
  }

  /** hasGenres: one of the film's genre names is listed. */
  predicate HasGenres(genres: seq<string>, f: FilmRow)
  {
    exists g :: g in f.genreNames && g in genres
  }

  /** Several listed genres select the union of the films of each genre. */
  lemma GenresSelectUnion(a: seq<string>, b: seq<string>, f: FilmRow)
    ensures HasGenres(a + b, f) <==> HasGenres(a, f) || HasGenres(b, f)
    ensures !HasGenres([], f)
  {
  }

  /** hasReleaseYear: released in exactly that year; no year, no restriction. */
  predicate HasReleaseYear(year: Option<int>, f: FilmRow)
  {
    year.None? || (f.releaseYear.Some? && f.releaseYear.value == year.value)
  }

  /**
   * releaseYearBetween: between both bounds inclusive, or at least fromYear, or at most
   * toYear. A film without a release date has no year and never matches. The source
   * dereferences toYear when fromYear is absent, so one bound at least is required.
   */
  predicate ReleaseYearBetween(fromYear: Option<int>, toYear: Option<int>, f: FilmRow)
    requires fromYear.Some? || toYear.Some?
  {
    f.releaseYear.Some? &&
    var y := f.releaseYear.value;
    if fromYear.Some? && toYear.Some? then fromYear.value <= y <= toYear.value
    else if fromYear.Some? then y >= fromYear.value
    else y <= toYear.value
  }

  /** The year range is inclusive at both ends, and one-sided when a bound is absent. */
  lemma ReleaseYearBetweenBounds(fromYear: Option<int>, toYear: Option<int>, f: FilmRow)
    requires fromYear.Some? || toYear.Some?
    ensures ReleaseYearBetween(fromYear, toYear, f) <==>
      && f.releaseYear.Some?
      && (fromYear.Some? ==> f.releaseYear.value >= fromYear.value)
      && (toYear.Some? ==> f.releaseYear.value <= toYear.value)
    ensures fromYear.Some? && toYear.Some? && fromYear.value <= toYear.value ==>
      ReleaseYearBetween(fromYear, toYear, f.(releaseYear := fromYear)) &&
      ReleaseYearBetween(fromYear, toYear, f.(releaseYear := toYear))
  {
  }

  /** rating >= threshold, with the threshold a decimal of any scale; a film without a rating fails. */
  predicate AtLeast(rating: Tenths, threshold: Decimal)
  {
    rating * Pow10(threshold.scale) >= threshold.unscaled * 10
  }

  /** hasRatingGreaterThanOrEqual: the film has a rating of at least the threshold. */
  predicate HasRatingGreaterThanOrEqual(threshold: Decimal, f: FilmRow)
  {
    f.rating.Some? && AtLeast(f.rating.value, threshold)
  }

  /** A threshold of one fractional digit compares directly in tenths: 7.5 admits 7.5 but not 7.4. */
  lemma AtLeastTenths(rating: Tenths, t: int)
    ensures AtLeast(rating, Decimal(t, 1)) <==> rating >= t
    ensures AtLeast(rating, Decimal(t, 0)) <==> rating >= 10 * t
  {
  }

  /** One predicate of the filter, as the service conjoins them. */
  datatype Criterion =
    | TitleLike(name: string)
    | RatingAtLeast(threshold: Decimal)
    | ReleaseYear(year: int)
    | YearBetween(fromYear: Option<int>, toYear: Option<int>)
    | Genres(genres: seq<string>)
    | MpaRating(mpa: seq<string>)

  /** Whether a film satisfies one criterion. A YearBetween is only built with a bound. */
  predicate Matches(c: Criterion, f: FilmRow)
  {
    match c
    case TitleLike(name) => HasTitleLike(Some(name), f)
    case RatingAtLeast(threshold) => HasRatingGreaterThanOrEqual(threshold, f)
    case ReleaseYear(year) => HasReleaseYear(Some(year), f)
    case YearBetween(fromYear, toYear) =>
      (fromYear.Some? || toYear.Some?) && ReleaseYearBetween(fromYear, toYear, f)
    case Genres(genres) => HasGenres(genres, f)
    case MpaRating(mpa) => HasMpaRating(mpa, f)
  }

  /** The conjunction of the criteria; no criterion admits every film. */
  predicate Satisfies(spec: seq<Criterion>, f: FilmRow)
  {
    forall i :: 0 <= i < |spec| ==> Matches(spec[i], f)
  }

  /** A single criterion is satisfied exactly when it matches. */
  lemma SatisfiesOne(c: Criterion, f: FilmRow)
    ensures Satisfies([c], f) <==> Matches(c, f)
  {
    assert [c][0] == c;
  }
}
