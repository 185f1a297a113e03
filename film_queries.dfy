/**
 * The film repository's queries over the stored films, each film seen as the row the query
 * reads: findAll with a specification, the rating threshold query and the popularity order.
 */
module FilmQueries {
  import opened Errors
  import opened Text
  import opened Entities
  import opened Paging
  import opened FilmSpecifications

  /** findAll(spec): the films that satisfy every criterion, in the order they are stored. */
  function Select(rows: seq<FilmRow>, spec: seq<Criterion>): (r: seq<FilmRow>)
    ensures |r| <= |rows|
    ensures forall x :: x in r <==> x in rows && Satisfies(spec, x)
  {
    if rows == [] then []
    else
      var rest := Select(rows[1..], spec);
      assert forall x :: x in rows <==> x == rows[0] || x in rows[1..];
      if Satisfies(spec, rows[0]) then [rows[0]] + rest else rest
  }

  /** findFilmsWithRatingGreaterThanOrEqual: the films rated at least minRating. */
  function WithRatingAtLeast(rows: seq<FilmRow>, minRating: Decimal): (r: seq<FilmRow>)
    ensures forall x :: x in r <==> x in rows && x.rating.Some? && AtLeast(x.rating.value, minRating)
  {
    if rows == [] then []
    else
      var rest := WithRatingAtLeast(rows[1..], minRating);
      assert forall x :: x in rows <==> x == rows[0] || x in rows[1..];
      if rows[0].rating.Some? && AtLeast(rows[0].rating.value, minRating)
      then [rows[0]] + rest else rest
  }

  /** The threshold query selects what the filter's rating criterion alone selects, in the same order. */
  lemma {:induction false} ThresholdQueryIsRatingFilter(rows: seq<FilmRow>, minRating: Decimal)
    ensures WithRatingAtLeast(rows, minRating) == Select(rows, [RatingAtLeast(minRating)])
  {
    if rows != [] {
      ThresholdQueryIsRatingFilter(rows[1..], minRating);
      SatisfiesOne(RatingAtLeast(minRating), rows[0]);
    }
  }

  /** Each film has at least as many likes as the next one. */
  predicate NonIncreasing(rows: seq<FilmRow>)
  {
    forall i :: 0 < i < |rows| ==> rows[i - 1].likes >= rows[i].likes
  }

  /** One film put before the first film with fewer likes. */
  function InsertByLikes(x: FilmRow, s: seq<FilmRow>): (r: seq<FilmRow>)
    requires NonIncreasing(s)
    ensures NonIncreasing(r) && multiset(r) == multiset(s) + multiset{x}
    ensures |r| > 0 && (r[0] == x || (|s| > 0 && r[0] == s[0]))
  {
    if s == [] || x.likes >= s[0].likes then [x] + s
    else
      var rest := InsertByLikes(x, s[1..]);
      assert s == [s[0]] + s[1..];
      assert rest[0].likes <= s[0].likes;
      [s[0]] + rest
  }

  /**
   * findTheMostPopularFilms: every film, those without likes too (the left join), ordered by
   * their number of likes, most liked first. The order among films with equally many likes is
   * not fixed by the query; this ordering keeps them as stored.
   */
  function MostPopular(rows: seq<FilmRow>): (r: seq<FilmRow>)
    ensures NonIncreasing(r)
    ensures multiset(r) == multiset(rows) && |r| == |rows|
  {
    if rows == [] then []
    else
      assert rows == [rows[0]] + rows[1..];
      var r := InsertByLikes(rows[0], MostPopular(rows[1..]));
      assert |r| == |multiset(r)| == |multiset(rows)| == |rows|;
      r
  }

  /** The most liked film comes first: none has more likes. */
  lemma {:induction false} MostLikedFirst(rows: seq<FilmRow>, x: FilmRow)
    requires x in rows
    ensures var r := MostPopular(rows); |r| > 0 && r[0].likes >= x.likes
  {
    var r := MostPopular(rows);
    assert x in multiset(r);
    var i :| 0 <= i < |r| && r[i] == x;
    NonIncreasingHead(r, i);
  }

  lemma {:induction false} NonIncreasingHead(r: seq<FilmRow>, i: nat)
    requires NonIncreasing(r) && i < |r|
    ensures r[0].likes >= r[i].likes
  {
    if i > 0 {
      NonIncreasingHead(r, i - 1);
    }
  }

  /** A page of the popularity list: PageRequest.of(page, count). */
  function PopularPage(rows: seq<FilmRow>, number: nat, size: nat): (p: Page<FilmRow>)
    requires size > 0
    ensures p.totalElements == |rows| && p.totalPages == TotalPages(|rows|, size)
    ensures forall x :: x in p.content ==> x in rows
  {
    var sorted := MostPopular(rows);
    var p := PageOf(sorted, number, size);
    assert forall x :: x in p.content ==> x in multiset(sorted);
    p
  }

  /** Five films in pages of three: the first page holds the three most liked, and there are two pages. */
  lemma FiveFilmsInPagesOfThree(rows: seq<FilmRow>)
    requires |rows| == 5
    ensures var p := PopularPage(rows, 0, 3);
      p.content == MostPopular(rows)[..3] && p.totalPages == 2 && p.totalElements == 5
  {
    FiveInPagesOfThree(MostPopular(rows));
  }
}
