/**
 * The text forms the cache keys are built from: the decimal form of an integer (Long and
 * Integer toString), the plain form of a BigDecimal, String's natural order (compareTo,
 * character by character) and the sorting of a list of strings by that order. A char here is
 * a Unicode scalar value, whereas compareTo compares UTF-16 code units; the two orders differ
 * only on characters above U+FFFF.
 */
module Text {
  import opened Errors

  /** A list argument of a filter counts only when it is given and not empty. */
  predicate Listed(xs: Option<seq<string>>)
  {
    xs.Some? && xs.value != []
  }

  function DigitChar(d: nat): (c: char)
    requires d < 10
    ensures '0' <= c <= '9'
  {
    "0123456789"[d]
  }

  /** The decimal digits of n, most significant first, without leading zeros. */
  function NatText(n: nat): (s: string)
    ensures |s| >= 1
    ensures forall i :: 0 <= i < |s| ==> '0' <= s[i] <= '9'
  {
    if n < 10 then [DigitChar(n)] else NatText(n / 10) + [DigitChar(n % 10)]
  }

  /** toString of a Long or Integer: a minus sign before the digits of a negative value. */
  function IntText(n: int): (s: string)
    ensures |s| >= 1
    ensures forall i :: 0 <= i < |s| ==> s[i] == '-' || '0' <= s[i] <= '9'
    ensures n >= 0 <==> '0' <= s[0] <= '9'
  {
    if n < 0 then "-" + NatText(-n) else NatText(n)
  }

  lemma DigitCharInjective(a: nat, b: nat)
    requires a < 10 && b < 10 && DigitChar(a) == DigitChar(b)
    ensures a == b
  {
  }

  /** Different numbers have different digits. */
  lemma {:induction false} NatTextInjective(a: nat, b: nat)
    requires NatText(a) == NatText(b)
    ensures a == b
  {
    var s := NatText(a);
    if a < 10 && b < 10 {
      DigitCharInjective(a, b);
    } else if a >= 10 && b >= 10 {
      var pa, pb := NatText(a / 10), NatText(b / 10);
      assert s == pa + [DigitChar(a % 10)] && s == pb + [DigitChar(b % 10)];
      assert pa == s[..|s| - 1] == pb;
      DigitCharInjective(a % 10, b % 10);
      NatTextInjective(a / 10, b / 10);
    }
  }

  /** Different integers have different texts, so an integer field of a key determines its value. */
  lemma IntTextInjective(a: int, b: int)
    requires IntText(a) == IntText(b)
    ensures a == b
  {
    if a < 0 && b < 0 {
      assert NatText(-a) == IntText(a)[1..] == NatText(-b);
      NatTextInjective(-a, -b);
    } else if a >= 0 && b >= 0 {
      NatTextInjective(a, b);
    }
  }

  /** A BigDecimal as the unscaled value and the scale: the number unscaled / 10^scale. */
  datatype Decimal = Decimal(unscaled: int, scale: nat)

  function Pow10(k: nat): (p: nat)
    ensures p >= 1
  {
    if k == 0 then 1 else 10 * Pow10(k - 1)
  }

  function Zeros(k: nat): (s: string)
    ensures |s| == k && forall i :: 0 <= i < k ==> s[i] == '0'
  {
    if k == 0 then "" else "0" + Zeros(k - 1)
  }

  /**
   * BigDecimal.toString in plain notation: the digits of the unscaled value, padded with
   * leading zeros to more than `scale` digits, with the point `scale` digits from the right.
   */
  function DecimalText(d: Decimal): (s: string)
    ensures |s| >= 1
  {
    var digits := NatText(if d.unscaled < 0 then -d.unscaled else d.unscaled);
    var padded := if |digits| > d.scale then digits else Zeros(d.scale + 1 - |digits|) + digits;
    var sign := if d.unscaled < 0 then "-" else "";
    if d.scale == 0 then sign + padded
    else sign + padded[..|padded| - d.scale] + "." + padded[|padded| - d.scale..]
  }

  /** The decimal forms of whole numbers of tenths and of a threshold like 7.5. */
  lemma DecimalTextExamples()
    ensures DecimalText(Decimal(75, 1)) == "7.5"
    ensures DecimalText(Decimal(7, 0)) == "7"
    ensures DecimalText(Decimal(5, 2)) == "0.05"
    ensures DecimalText(Decimal(-5, 1)) == "-0.5"
  {
    assert NatText(75) == NatText(7) + [DigitChar(5)];
  }

  /** String.compareTo(a, b) <= 0: the first differing character decides; a prefix comes first. */
  predicate LessEq(a: string, b: string)
  {
    if a == [] then true
    else if b == [] then false
    else if a[0] != b[0] then a[0] < b[0]
    else LessEq(a[1..], b[1..])
  }

  lemma {:induction false} LessEqTotal(a: string, b: string)
    ensures LessEq(a, b) || LessEq(b, a)
  {
    if a != [] && b != [] && a[0] == b[0] {
      LessEqTotal(a[1..], b[1..]);
    }
  }

  lemma {:induction false} LessEqAntisymmetric(a: string, b: string)
    requires LessEq(a, b) && LessEq(b, a)
    ensures a == b
  {
    if a != [] && b != [] {
      LessEqAntisymmetric(a[1..], b[1..]);
      assert a == [a[0]] + a[1..] && b == [b[0]] + b[1..];
    }
  }

  lemma {:induction false} LessEqTransitive(a: string, b: string, c: string)
    requires LessEq(a, b) && LessEq(b, c)
    ensures LessEq(a, c)
  {
    if a != [] && b != [] && c != [] && a[0] == b[0] && b[0] == c[0] {
      LessEqTransitive(a[1..], b[1..], c[1..]);
    }
  }

  /** Each string is at most the next one. */
  predicate Sorted(s: seq<string>)
  {
    forall i :: 0 < i < |s| ==> LessEq(s[i - 1], s[i])
  }

  /** The first string of a sorted list is at most every string in it. */
  lemma {:induction false} SortedHeadLeast(s: seq<string>)
    requires Sorted(s) && |s| > 0
    ensures forall x :: x in s ==> LessEq(s[0], x)
  {
    if |s| > 1 {
      SortedHeadLeast(s[1..]);
      forall x | x in s ensures LessEq(s[0], x) {
        if x == s[0] {
          LessEqReflexive(x);
        } else {
          assert x in s[1..];
          LessEqTransitive(s[0], s[1], x);
        }
      }
    } else {
      LessEqReflexive(s[0]);
    }
  }

  lemma LessEqReflexive(a: string)
    ensures LessEq(a, a)
  {
    LessEqTotal(a, a);
  }

  /** One string put in its place in a sorted list, before the first string it is at most. */
  function Insert(x: string, s: seq<string>): (r: seq<string>)
    requires Sorted(s)
    ensures Sorted(r) && multiset(r) == multiset(s) + multiset{x}
    ensures |r| > 0 && (r[0] == x || (|s| > 0 && r[0] == s[0]))
  {
    if s == [] then [x]
    else if LessEq(x, s[0]) then [x] + s
    else
      LessEqTotal(x, s[0]);
      var rest := Insert(x, s[1..]);
      assert s == [s[0]] + s[1..];
      [s[0]] + rest
  }

  /** stream().sorted(): the strings in ascending order. */
  function Sort(xs: seq<string>): (r: seq<string>)
    ensures Sorted(r) && multiset(r) == multiset(xs)
  {
    if xs == [] then []
    else
      assert xs == [xs[0]] + xs[1..];
      Insert(xs[0], Sort(xs[1..]))
  }

  /** Two non-empty sorted lists of the same strings start with the same string. */
  lemma SortedSameHead(a: seq<string>, b: seq<string>)
    requires Sorted(a) && Sorted(b) && multiset(a) == multiset(b) && a != []
    ensures b != [] && a[0] == b[0]
  {
    assert a[0] in multiset(b);
    assert b[0] in multiset(a);
    SortedHeadLeast(a);
    SortedHeadLeast(b);
    LessEqAntisymmetric(a[0], b[0]);
  }

  /** Dropping the first string of a sorted list leaves a sorted list of the other strings. */
  lemma SortedTail(a: seq<string>)
    requires Sorted(a) && a != []
    ensures Sorted(a[1..]) && multiset(a[1..]) == multiset(a) - multiset{a[0]}
  {
    assert a == [a[0]] + a[1..];
  }

  /** Two sorted lists of the same strings are equal: the sorted order leaves no choice. */
  lemma {:induction false} SortedUnique(a: seq<string>, b: seq<string>)
    requires Sorted(a) && Sorted(b) && multiset(a) == multiset(b)
    ensures a == b
  {
    if a != [] {
      SortedSameHead(a, b);
      SortedTail(a);
      SortedTail(b);
      SortedUnique(a[1..], b[1..]);
      assert a == [a[0]] + a[1..] && b == [b[0]] + b[1..];
    } else {
      assert |multiset(b)| == 0;
    }
  }

  /** Sorting forgets the order it was given: a reordered list sorts to the same list. */
  lemma SortIgnoresOrder(xs: seq<string>, ys: seq<string>)
    requires multiset(xs) == multiset(ys)
    ensures Sort(xs) == Sort(ys)
  {
    SortedUnique(Sort(xs), Sort(ys));
  }

  /** Collectors.joining(sep): the strings with sep between neighbours. */
  function Join(xs: seq<string>, sep: string): string
  {
    if xs == [] then ""
    else if |xs| == 1 then xs[0]
    else xs[0] + sep + Join(xs[1..], sep)
  }
}
