/**
 * Ordering by id and the page slicing that the paged repository queries apply to their results
 * (a PageRequest of a page number and a page size, answered with the page's content, the total
 * element count and the total page count).
 */
module Paging {

  lemma NoElementsMeansEmpty(s: set<int>)
    ensures (forall y :: y !in s) ==> s == {}
  {
    if forall y :: y !in s {
      assert s == {};
    }
  }

  /** Every finite non-empty set of integers has a least element. */
  lemma {:induction false} HasMinimum(s: set<int>)
    requires s != {}
    ensures exists m :: m in s && forall y :: y in s ==> m <= y
    decreases |s|
  {
    NoElementsMeansEmpty(s);
    var x :| x in s;
    var rest := s - {x};
    if rest == {} {
      forall y | y in s ensures x <= y {
        assert y !in rest;
      }
      assert x in s;
    } else {
      HasMinimum(rest);
      var m :| m in rest && forall y :: y in rest ==> m <= y;
      var least := if x < m then x else m;
      forall y | y in s ensures least <= y {
        if y != x {
          assert y in rest;
        }
      }
      assert least in s;
    }
  }

  /** The least element of a finite non-empty set of integers. */
  ghost function Minimum(s: set<int>): (m: int)
    requires s != {}
    ensures m in s && forall y :: y in s ==> m <= y
  {
    HasMinimum(s);
    var m :| m in s && forall y :: y in s ==> m <= y; m
  }

  /** The ids of a set in ascending order (ORDER BY u.id ASC). */
  ghost function SortedIds(s: set<int>): (r: seq<int>)
    ensures |r| == |s|
    ensures forall x :: x in r <==> x in s
    ensures forall i, j :: 0 <= i < j < |r| ==> r[i] < r[j]
    decreases |s|
  {
    if s == {} then []
    else
      var m := Minimum(s);
      [m] + SortedIds(s - {m})
  }

  /** A page of results, as the paged queries answer a PageRequest. */
  datatype Page<T> = Page(content: seq<T>, number: nat, totalElements: nat, totalPages: nat)

  /** ceil(count / size), the total page count of a result of `count` elements. */
  function TotalPages(count: nat, size: nat): (t: nat)
    requires size > 0
    ensures count == 0 <==> t == 0
  {
    (count + size - 1) / size
  }

  /** TotalPages is the least number of pages of `size` elements that hold `count` elements. */
  lemma TotalPagesIsCeiling(count: nat, size: nat)
    requires size > 0
    ensures TotalPages(count, size) * size >= count
    ensures TotalPages(count, size) > 0 ==> (TotalPages(count, size) - 1) * size < count
  {
    var t := TotalPages(count, size);
    var r := (count + size - 1) % size;
    assert count + size - 1 == t * size + r && 0 <= r < size;
    assert t * size - size == (t - 1) * size;
  }

  /** The offset of the first element of page `number`. */
  function Offset(number: nat, size: nat): nat {
    number * size
  }

  /** The slice [number * size, number * size + size) of the ordered result, cut at its end. */
  function Slice<T>(xs: seq<T>, number: nat, size: nat): (p: seq<T>)
    ensures |p| <= size
    ensures Offset(number, size) >= |xs| ==> p == []
    ensures forall i :: 0 <= i < |p| ==> Offset(number, size) + i < |xs| && p[i] == xs[Offset(number, size) + i]
  {
    var start := Offset(number, size);
    if start >= |xs| then []
    else if start + size >= |xs| then xs[start..]
    else xs[start..start + size]
  }

  /** The page of the ordered result xs for the request (number, size). */
  function PageOf<T>(xs: seq<T>, number: nat, size: nat): (p: Page<T>)
    requires size > 0
    ensures p.number == number && p.totalElements == |xs| && p.totalPages == TotalPages(|xs|, size)
    ensures p.content == Slice(xs, number, size)
  {
    Page(Slice(xs, number, size), number, |xs|, TotalPages(|xs|, size))
  }

  /** Every element of the result lies on exactly the page its index falls into. */
  lemma ElementOnItsPage<T>(xs: seq<T>, size: nat, i: nat)
    requires size > 0 && i < |xs|
    ensures var p := Slice(xs, i / size, size);
      i % size < |p| && p[i % size] == xs[i]
  {
    var n := i / size;
    assert Offset(n, size) + i % size == i;
    assert Offset(n, size) <= i < |xs|;
    assert Offset(n, size) + size > i;
  }

  /** Three elements in pages of two: the first page holds two of them, the second the last one. */
  lemma ThreeInPagesOfTwo(a: int, b: int, c: int)
    ensures PageOf([a, b, c], 0, 2) == Page([a, b], 0, 3, 2)
    ensures PageOf([a, b, c], 1, 2) == Page([c], 1, 3, 2)
    ensures PageOf([a, b, c], 0, 20) == Page([a, b, c], 0, 3, 1)
  {
    assert Offset(1, 2) == 2;
  }

  /** Five elements in pages of three: two pages, the first holding the first three elements. */
  lemma FiveInPagesOfThree<T>(xs: seq<T>)
    requires |xs| == 5
    ensures PageOf(xs, 0, 3) == Page(xs[..3], 0, 5, 2)
  {
  }
}
