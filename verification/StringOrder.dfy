/**
 The order of strings used by JavaScript's `sort()` and `<`: lexicographic on UTF-16 code units.
 A string is a sequence of Unicode scalar values, so a character above U+FFFF compares like its
 leading surrogate: after U+D7FF and before U+E000.
 */
module StringOrder {
  import opened StableSort

  function Rank(c: char): (r: nat)
    ensures r == c as int || c as int >= 0xE000
  {
    var u := c as int;
    if u < 0xD800 then u
    else if u >= 0x1_0000 then u - 0x1_0000 + 0xD800
    else u + 0x10_0000
  }

  lemma RankInjective(c: char, d: char)
    requires Rank(c) == Rank(d)
    ensures c == d
  {
  }

  /** `a <= b` */
  predicate Leq(a: string, b: string) {
    if a == [] then true
    else if b == [] then false
    else Rank(a[0]) < Rank(b[0]) || (a[0] == b[0] && Leq(a[1..], b[1..]))
  }

  /** `a < b` */
  predicate Less(a: string, b: string) {
    Leq(a, b) && a != b
  }

  lemma LeqTotal(a: string, b: string)
    ensures Leq(a, b) || Leq(b, a)
  {
    if a != [] && b != [] && Rank(a[0]) == Rank(b[0]) {
      RankInjective(a[0], b[0]);
      LeqTotal(a[1..], b[1..]);
    }
  }

  lemma {:induction false} LeqTransitive(a: string, b: string, c: string)
    requires Leq(a, b) && Leq(b, c)
    ensures Leq(a, c)
    decreases |a|
  {
    if a != [] && a[0] == b[0] && b[0] == c[0] {
      LeqTransitive(a[1..], b[1..], c[1..]);
    }
  }

  lemma {:induction false} LeqAntisymmetric(a: string, b: string)
    requires Leq(a, b) && Leq(b, a)
    ensures a == b
    decreases |a|
  {
    if a != [] {
      LeqAntisymmetric(a[1..], b[1..]);
      assert a == [a[0]] + a[1..] && b == [b[0]] + b[1..];
    }
  }

  lemma LeqSameHead(c: char, a: string, b: string)
    ensures Leq([c] + a, [c] + b) <==> Leq(a, b)
  {
    assert ([c] + a)[1..] == a && ([c] + b)[1..] == b;
  }

  lemma {:induction false} LeqCommonPrefix(p: string, a: string, b: string)
    ensures Leq(p + a, p + b) <==> Leq(a, b)
  {
    hide Leq;
    if p == [] {
      assert p + a == a && p + b == b;
    } else {
      LeqCommonPrefix(p[1..], a, b);
      LeqSameHead(p[0], p[1..] + a, p[1..] + b);
      assert p + a == [p[0]] + (p[1..] + a) && p + b == [p[0]] + (p[1..] + b);
    }
  }

  lemma LeqIsTotalPreorder()
    ensures TotalPreorder(Leq)
  {
    forall x, y ensures Leq(x, y) || Leq(y, x) {
      LeqTotal(x, y);
    }
    forall x, y, z | Leq(x, y) && Leq(y, z) ensures Leq(x, z) {
      LeqTransitive(x, y, z);
    }
  }

  // ----- The order, by code units -----

  /** The one or two UTF-16 code units of a character. */
  function Units(c: char): (us: seq<nat>)
    ensures 1 <= |us| <= 2
  {
    var u := c as int;
    if u < 0x1_0000 then [u] else [0xD800 + (u - 0x1_0000) / 0x400, 0xDC00 + (u - 0x1_0000) % 0x400]
  }

  function Encoded(s: string): seq<nat> {
    if s == [] then [] else Units(s[0]) + Encoded(s[1..])
  }

  /** The one list is a beginning of the other, or smaller at the first place where they differ. */
  ghost predicate UnitsLeq(a: seq<nat>, b: seq<nat>) {
    a <= b || exists k | 0 <= k < |a| && k < |b| :: a[..k] == b[..k] && a[k] < b[k]
  }

  lemma {:induction false} UnitsDecide(c: char, d: char, x: seq<nat>, y: seq<nat>)
    requires c != d
    ensures UnitsLeq(Units(c) + x, Units(d) + y) <==> Rank(c) < Rank(d)
  {
    var a, b := Units(c) + x, Units(d) + y;
    if a[0] != b[0] {
      assert a[..0] == b[..0];
      assert UnitsLeq(a, b) <==> a[0] < b[0] by { FirstDecides(a, b); }
    } else {
      assert a[..1] == [a[0]] && b[..1] == [b[0]];
      assert |Units(c)| == 2 && |Units(d)| == 2;
      assert a[1] != b[1];
      SecondDecides(a, b);
    }
  }

  lemma FirstDecides(a: seq<nat>, b: seq<nat>)
    requires a != [] && b != [] && a[0] != b[0]
    ensures UnitsLeq(a, b) <==> a[0] < b[0]
  {
    if a[0] < b[0] {
      assert a[..0] == b[..0];
    }
    forall k | 0 < k < |a| && k < |b| ensures a[..k] != b[..k] {
      assert a[..k][0] == a[0] && b[..k][0] == b[0];
    }
  }

  lemma SecondDecides(a: seq<nat>, b: seq<nat>)
    requires |a| >= 2 && |b| >= 2 && a[0] == b[0] && a[1] != b[1]
    ensures UnitsLeq(a, b) <==> a[1] < b[1]
  {
    if a[1] < b[1] {
      assert a[..1] == b[..1];
    }
    forall k | 1 < k < |a| && k < |b| ensures a[..k] != b[..k] {
      assert a[..k][1] == a[1] && b[..k][1] == b[1];
    }
  }

  lemma {:induction false} UnitsCommonPrefix(p: seq<nat>, a: seq<nat>, b: seq<nat>)
    ensures UnitsLeq(p + a, p + b) <==> UnitsLeq(a, b)
  {
    var x, y := p + a, p + b;
    assert x <= y <==> a <= b by {
      assert forall i | 0 <= i < |a| :: x[|p| + i] == a[i];
      assert forall i | 0 <= i < |b| :: y[|p| + i] == b[i];
    }
    if k :| 0 <= k < |a| && k < |b| && a[..k] == b[..k] && a[k] < b[k] {
      assert x[..|p| + k] == p + a[..k] && y[..|p| + k] == p + b[..k];
      assert x[|p| + k] < y[|p| + k];
    }
    if k :| 0 <= k < |x| && k < |y| && x[..k] == y[..k] && x[k] < y[k] {
      assert k >= |p|;
      assert x[..k] == p + a[..k - |p|] && y[..k] == p + b[..k - |p|];
      assert a[..k - |p|] == x[..k][|p|..] && b[..k - |p|] == y[..k][|p|..];
      assert a[k - |p|] < b[k - |p|];
    }
  }

  /** The order of strings is the order of their lists of UTF-16 code units. */
  lemma {:induction false} LeqIsByUnits(a: string, b: string)
    ensures Leq(a, b) <==> UnitsLeq(Encoded(a), Encoded(b))
    decreases |a|
  {
    hide Rank, Units, UnitsLeq;
    if a == [] {
      EmptyFirst(Encoded(b));
    } else if b == [] {
      EmptyFirst(Encoded(a));
    } else if a[0] == b[0] {
      LeqIsByUnits(a[1..], b[1..]);
      SameRank(a[0], b[0]);
      UnitsCommonPrefix(Units(a[0]), Encoded(a[1..]), Encoded(b[1..]));
    } else {
      UnitsDecide(a[0], b[0], Encoded(a[1..]), Encoded(b[1..]));
    }
  }

  lemma SameRank(c: char, d: char)
    requires c == d
    ensures Rank(c) == Rank(d)
  {
  }

  lemma EmptyFirst(a: seq<nat>)
    ensures UnitsLeq([], a)
    ensures a != [] ==> !UnitsLeq(a, [])
  {
  }

  /** The default `sort()` of an array of strings. */
  function SortStrings(s: seq<string>): seq<string> {
    Sort(Leq, s)
  }

  lemma SortStringsSpec(s: seq<string>)
    ensures Sorted(Leq, SortStrings(s))
    ensures multiset(SortStrings(s)) == multiset(s) && |SortStrings(s)| == |s|
    ensures forall x :: x in SortStrings(s) <==> x in s
  {
    LeqIsTotalPreorder();
    SortSpec(Leq, s);
    assert forall x :: x in SortStrings(s) <==> x in multiset(SortStrings(s));
  }

  /** Sorted arrangements of the same strings are equal, so the listing order before `sort()` does not matter. */
  lemma SortStringsCanonical(s: seq<string>, t: seq<string>)
    requires multiset(s) == multiset(t)
    ensures SortStrings(s) == SortStrings(t)
  {
    SortStringsSpec(s);
    SortStringsSpec(t);
    forall x, y | Leq(x, y) && Leq(y, x) ensures x == y {
      LeqAntisymmetric(x, y);
    }
    SortedUnique(Leq, SortStrings(s), SortStrings(t));
  }

  // ----- Decimal numerals, as `String(n)` prints them -----

  function Decimal(n: nat): (s: string)
    ensures s != []
    ensures forall i | 0 <= i < |s| :: '0' <= s[i] <= '9'
  {
    if n < 10 then [Digit(n)] else Decimal(n / 10) + [Digit(n % 10)]
  }

  /** The number that a numeral stands for. */
  function Value(s: string): int {
    if s == [] then 0 else 10 * Value(s[..|s| - 1]) + (s[|s| - 1] as int - '0' as int)
  }

  /** A numeral stands for its number, and begins with zero only for zero. */
  lemma {:induction false} DecimalMeans(n: nat)
    ensures Value(Decimal(n)) == n
    ensures Decimal(n)[0] == '0' <==> n == 0
  {
    if n >= 10 {
      var d := Decimal(n / 10);
      DecimalMeans(n / 10);
      assert Decimal(n)[..|Decimal(n)| - 1] == d;
      assert Decimal(n)[0] == d[0];
    } else {
      assert Decimal(n)[..0] == [];
    }
  }

  function Digit(d: nat): (c: char)
    requires d < 10
    ensures '0' <= c <= '9'
  {
    '0' + d as char
  }

  function Pow10(k: nat): (p: nat)
    ensures p >= 1
  {
    if k == 0 then 1 else 10 * Pow10(k - 1)
  }

  /** More digits mean a larger number. */
  lemma {:induction false} FewerDigitsSmaller(a: nat, b: nat)
    requires a <= b
    ensures |Decimal(a)| <= |Decimal(b)|
    decreases b
  {
    if b >= 10 {
      FewerDigitsSmaller(a / 10, b / 10);
    }
  }

  lemma {:induction false} DigitCount(n: nat, k: nat)
    requires k >= 1
    ensures |Decimal(n)| <= k <==> n < Pow10(k)
    decreases k
  {
    if k > 1 && n >= 10 {
      DigitCount(n / 10, k - 1);
    }
    assert Pow10(1) == 10 * Pow10(0);
  }

  /** Padded with zeros to the length of `u`, the shorter numeral is the larger one. */
  predicate PaddedExceeds(t: nat, u: nat) {
    |Decimal(t)| < |Decimal(u)| && t * Pow10(|Decimal(u)| - |Decimal(t)|) > u
  }

  lemma {:induction false} PaddingExceeds(t: nat, d: nat)
    requires t >= 1 && d >= 1
    ensures t * Pow10(d) > t + 1
  {
    var p := Pow10(d - 1);
    assert Pow10(d) == 10 * p;
    assert t * (10 * p) == 10 * t + 10 * t * (p - 1);
    assert t * (p - 1) >= 0;
  }

  /** The last number with `k` digits, padded, exceeds the first one with more. */
  lemma {:induction false} DigitGained(k: nat)
    requires k >= 1
    ensures PaddedExceeds(Pow10(k) - 1, Pow10(k))
  {
    var t, u := Pow10(k) - 1, Pow10(k);
    assert u == 10 * Pow10(k - 1);
    DigitCount(t, k);
    DigitCount(u, k);
    hide Decimal, Pow10;
    PaddingExceeds(t, |Decimal(u)| - |Decimal(t)|);
  }

  /** Among numerals of one length the string order is the numeric order, whatever follows them. */
  lemma {:induction false} SameLengthOrder(a: nat, b: nat, x: string, y: string)
    requires |Decimal(a)| == |Decimal(b)| && a < b
    ensures Leq(Decimal(a) + x, Decimal(b) + y)
    ensures !Leq(Decimal(b) + y, Decimal(a) + x)
    decreases a
  {
    if a >= 10 && b >= 10 {
      var p, q := Decimal(a / 10), Decimal(b / 10);
      var x', y' := [Digit(a % 10)] + x, [Digit(b % 10)] + y;
      assert Decimal(a) + x == p + x' && Decimal(b) + y == q + y';
      if a / 10 == b / 10 {
        LeqCommonPrefix(p, x', y');
        LeqCommonPrefix(p, y', x');
      } else {
        SameLengthOrder(a / 10, b / 10, x', y');
      }
    }
  }

  function DropDigits(b: nat, k: nat): nat {
    if k == 0 then b else DropDigits(b / 10, k - 1)
  }

  lemma {:induction false} DropDigitsText(b: nat, k: nat)
    requires k < |Decimal(b)|
    ensures Decimal(b)[..|Decimal(b)| - k] == Decimal(DropDigits(b, k))
    decreases k
  {
    if k == 0 {
      assert Decimal(b)[..|Decimal(b)|] == Decimal(b);
    } else {
      DropDigitsText(b / 10, k - 1);
      var d := Decimal(b / 10);
      assert Decimal(b) == d + [Digit(b % 10)];
      assert Decimal(b)[..|Decimal(b)| - k] == d[..|d| - (k - 1)];
    }
  }

  lemma {:induction false} DropDigitsValue(a: nat, b: nat, k: nat)
    ensures a <= DropDigits(b, k) <==> a * Pow10(k) <= b
    decreases k
  {
    if k > 0 {
      DropDigitsValue(a, b / 10, k - 1);
      var v := a * Pow10(k - 1);
      assert a * Pow10(k) == 10 * v;
    }
  }

  /**
   Exact order of two numerals that are followed by the same text, when that text begins below '0':
   the shorter numeral behaves as if it were padded with zeros to the length of the longer one.
   */
  lemma {:induction false} NumeralOrder(a: nat, b: nat, rest: string)
    requires a < b
    requires rest != [] && rest[0] < '0'
    ensures |Decimal(a)| <= |Decimal(b)|
    ensures Leq(Decimal(a) + rest, Decimal(b) + rest) <==> a * Pow10(|Decimal(b)| - |Decimal(a)|) <= b
  {
    hide Leq, Decimal, Pow10;
    FewerDigitsSmaller(a, b);
    var k := |Decimal(b)| - |Decimal(a)|;
    DropDigitsValue(a, b, k);
    OrderByDroppedDigits(a, b, k, rest);
  }

  lemma OrderByDroppedDigits(a: nat, b: nat, k: nat, rest: string)
    requires a < b && |Decimal(b)| == |Decimal(a)| + k
    requires rest != [] && rest[0] < '0'
    ensures Leq(Decimal(a) + rest, Decimal(b) + rest) <==> a <= DropDigits(b, k)
  {
    if k == 0 {
      SameLengthOrder(a, b, rest, rest);
    } else {
      var d := Decimal(b);
      DropDigitsText(b, k);
      SplitBefore(d, |d| - k, rest);
      ShorterNumeralOrder(a, DropDigits(b, k), rest, d[|d| - k..] + rest);
    }
  }

  lemma SplitBefore(s: string, n: nat, rest: string)
    requires n < |s|
    ensures s + rest == s[..n] + (s[n..] + rest)
    ensures (s[n..] + rest)[0] == s[n]
  {
  }

  lemma ShorterNumeralOrder(a: nat, top: nat, rest: string, low: string)
    requires |Decimal(a)| == |Decimal(top)|
    requires rest != [] && low != [] && rest[0] < '0' <= low[0] <= '9'
    ensures Leq(Decimal(a) + rest, Decimal(top) + low) <==> a <= top
  {
    if a < top {
      SameLengthOrder(a, top, rest, low);
    } else if a == top {
      LeqCommonPrefix(Decimal(a), rest, low);
    } else {
      SameLengthOrder(top, a, low, rest);
    }
  }
}
