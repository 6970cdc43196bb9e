/** Optional values, and the string operations of the JavaScript runtime that the modelled code calls. */
module Text {

  datatype Option<+T> = None | Some(value: T)

  /** The characters matched by `\s` and removed by `trim` (ECMAScript WhiteSpace and LineTerminator). */
  predicate IsSpace(c: char) {
    || '\t' <= c <= '\r'
    || c == ' '
    || c == '\U{a0}'
    || c == '\U{1680}'
    || '\U{2000}' <= c <= '\U{200a}'
    || IsLineTerminator(c)
    || c == '\U{202f}'
    || c == '\U{205f}'
    || c == '\U{3000}'
    || c == '\U{feff}'
  }

  /** The characters that `.` does not match. */
  predicate IsLineTerminator(c: char) {
    c == '\n' || c == '\r' || c == '\U{2028}' || c == '\U{2029}'
  }

  predicate AllSpace(s: string) {
    forall i | 0 <= i < |s| :: IsSpace(s[i])
  }

  predicate IsLetter(c: char) {
    'a' <= c <= 'z' || 'A' <= c <= 'Z'
  }

  /** Case folding of the `i` flag without the `u` flag, on ASCII patterns: only ASCII letters fold. */
  function Lower(c: char): char {
    if 'A' <= c <= 'Z' then c - 'A' + 'a' else c
  }

  function LowerAll(s: string): (r: string)
    ensures |r| == |s|
    ensures forall i | 0 <= i < |s| :: r[i] == Lower(s[i])
  {
    seq(|s|, i requires 0 <= i < |s| => Lower(s[i]))
  }

  lemma LowerAppend(a: string, b: string)
    ensures LowerAll(a + b) == LowerAll(a) + LowerAll(b)
  {
  }

  /** `s.startsWith(p)` */
  predicate StartsWith(s: string, p: string) {
    p <= s
  }

  /** `s.endsWith(p)` for a one-character `p` */
  predicate EndsWith(s: string, c: char) {
    s != [] && s[|s| - 1] == c
  }

  predicate OccursAt(s: string, p: string, i: int) {
    0 <= i <= i + |p| <= |s| && s[i..i + |p|] == p
  }

  /** `s.indexOf(p)` */
  function IndexOf(s: string, p: string): (r: int)
    ensures r == -1 || OccursAt(s, p, r)
    ensures r == -1 ==> forall i :: !OccursAt(s, p, i)
    ensures forall i | i < r :: !OccursAt(s, p, i)
  {
    IndexFrom(s, p, 0)
  }

  function IndexFrom(s: string, p: string, from: nat): (r: int)
    requires from <= |s|
    ensures r == -1 || (from <= r && OccursAt(s, p, r))
    ensures r == -1 ==> forall i | from <= i :: !OccursAt(s, p, i)
    ensures forall i | from <= i < r :: !OccursAt(s, p, i)
    decreases |s| - from
  {
    if OccursAt(s, p, from) then from
    else if from == |s| then -1
    else IndexFrom(s, p, from + 1)
  }

  /** `s.includes(p)` */
  predicate Contains(s: string, p: string)
    ensures Contains(s, p) <==> exists i :: OccursAt(s, p, i)
  {
    IndexOf(s, p) >= 0
  }

  /** Occurrences in `a + b` that lie inside `a`, or inside `b`, are the occurrences there. */
  lemma OccursInParts(a: string, b: string, p: string, i: int)
    ensures i + |p| <= |a| ==> (OccursAt(a + b, p, i) <==> OccursAt(a, p, i))
    ensures |a| <= i ==> (OccursAt(a + b, p, i) <==> OccursAt(b, p, i - |a|))
  {
    if 0 <= i && i + |p| <= |a| {
      assert (a + b)[i..i + |p|] == a[i..i + |p|];
    }
    if |a| <= i && i + |p| <= |a + b| {
      assert (a + b)[i..i + |p|] == b[i - |a|..i - |a| + |p|];
    }
  }

  lemma NoOccurrenceWithout(s: string, p: string, c: char)
    requires c in p && c !in s
    ensures forall i :: !OccursAt(s, p, i)
  {
    var m :| 0 <= m < |p| && p[m] == c;
    forall i ensures !OccursAt(s, p, i) {
      if 0 <= i && i + |p| <= |s| {
        assert s[i..i + |p|][m] == s[i + m] != c;
      }
    }
  }

  lemma OccurrenceCovers(s: string, p: string, i: int, k: int)
    requires OccursAt(s, p, i) && i <= k < i + |p|
    ensures s[k] == p[k - i]
  {
    assert s[i..i + |p|][k - i] == s[k];
  }

  /** An occurrence of a text does not cover a character that the text does not contain. */
  lemma OccurrenceAvoids(s: string, p: string, i: int, k: int)
    requires OccursAt(s, p, i) && 0 <= k < |s| && s[k] !in p
    ensures k < i || i + |p| <= k
  {
    if i <= k < i + |p| {
      OccurrenceCovers(s, p, i, k);
    }
  }

  /** `s.trimStart()`, also `s.replace(/^\s+/, "")` */
  function TrimStart(s: string): (r: string)
    ensures r == [] || !IsSpace(r[0])
    ensures |r| <= |s| && r == s[|s| - |r|..] && AllSpace(s[..|s| - |r|])
  {
    if s != [] && IsSpace(s[0]) then TrimStart(s[1..]) else s
  }

  /** `s.trimEnd()` */
  function TrimEnd(s: string): (r: string)
    ensures r == [] || !IsSpace(r[|r| - 1])
    ensures r <= s && AllSpace(s[|r|..])
  {
    if s != [] && IsSpace(s[|s| - 1]) then TrimEnd(s[..|s| - 1]) else s
  }

  /** `s.trim()` */
  function Trim(s: string): string {
    TrimEnd(TrimStart(s))
  }

  lemma {:induction false} TrimStartIs(a: string, rest: string)
    requires AllSpace(a)
    requires rest == [] || !IsSpace(rest[0])
    ensures TrimStart(a + rest) == rest
  {
    if a == [] {
      assert a + rest == rest;
    } else {
      assert (a + rest)[1..] == a[1..] + rest;
      TrimStartIs(a[1..], rest);
    }
  }

  lemma {:induction false} TrimEndIs(rest: string, b: string)
    requires AllSpace(b)
    requires rest == [] || !IsSpace(rest[|rest| - 1])
    ensures TrimEnd(rest + b) == rest
  {
    if b == [] {
      assert rest + b == rest;
    } else {
      assert (rest + b)[..|rest + b| - 1] == rest + b[..|b| - 1];
      TrimEndIs(rest, b[..|b| - 1]);
    }
  }

  /** `trim` is determined by its meaning: strip white space on both sides down to a core that has none at its ends. */
  lemma TrimIs(a: string, core: string, b: string)
    requires AllSpace(a) && AllSpace(b)
    requires core == [] || (!IsSpace(core[0]) && !IsSpace(core[|core| - 1]))
    ensures Trim(a + core + b) == core
  {
    assert a + core + b == a + (core + b);
    if core == [] {
      assert a + core + b == (a + b) + [];
      TrimStartIs(a + b, []);
    } else {
      TrimStartIs(a, core + b);
      TrimEndIs(core, b);
    }
  }

  /** The white space that `trim` removes, made explicit. */
  lemma TrimParts(s: string) returns (a: string, b: string)
    ensures s == a + Trim(s) + b && AllSpace(a) && AllSpace(b)
    ensures Trim(s) == [] || (!IsSpace(Trim(s)[0]) && !IsSpace(Trim(s)[|Trim(s)| - 1]))
  {
    var t := TrimStart(s);
    a, b := s[..|s| - |t|], t[|Trim(s)|..];
    ConcatCut(s, a, t, Trim(s), b);
  }

  lemma ConcatCut(s: string, a: string, t: string, u: string, b: string)
    requires |t| <= |s| && a == s[..|s| - |t|] && t == s[|s| - |t|..]
    requires u <= t && b == t[|u|..]
    ensures s == a + u + b
  {
  }

  /** Joining with one separator character, `parts.join(c)`. */
  function Join(parts: seq<string>, c: char): string {
    if parts == [] then []
    else if |parts| == 1 then parts[0]
    else parts[0] + [c] + Join(parts[1..], c)
  }

  /** The parts with a separator of its own between each two. */
  function Interleave(parts: seq<string>, seps: seq<string>): string
    requires |parts| == |seps| + 1
  {
    if seps == [] then parts[0] else parts[0] + seps[0] + Interleave(parts[1..], seps[1..])
  }

  /** Splitting at every occurrence of one separator character, `s.split(c)`. */
  function Split(s: string, c: char): (r: seq<string>)
    ensures r != []
    ensures forall p | p in r :: c !in p
  {
    if c !in s then [s]
    else
      var k := FirstIndex(s, c);
      [s[..k]] + Split(s[k + 1..], c)
  }

  function FirstIndex(s: string, c: char): (k: nat)
    requires c in s
    ensures k < |s| && s[k] == c && c !in s[..k]
  {
    if s[0] == c then 0 else 1 + FirstIndex(s[1..], c)
  }

  lemma {:induction false} FirstIndexIs(head: string, c: char, tail: string)
    requires c !in head
    ensures FirstIndex(head + [c] + tail, c) == |head|
  {
    var s := head + [c] + tail;
    assert s[|head|] == c;
    if head != [] {
      assert s[0] == head[0];
      assert s[1..] == head[1..] + [c] + tail;
      FirstIndexIs(head[1..], c, tail);
    }
  }

  lemma SplitCons(head: string, c: char, tail: string)
    requires c !in head
    ensures Split(head + [c] + tail, c) == [head] + Split(tail, c)
  {
    var s := head + [c] + tail;
    assert s[|head|] == c;
    FirstIndexIs(head, c, tail);
    assert s[..|head|] == head && s[|head| + 1..] == tail;
  }

  lemma JoinCons(head: string, rest: seq<string>, c: char)
    requires rest != []
    ensures Join([head] + rest, c) == head + [c] + Join(rest, c)
  {
    assert ([head] + rest)[1..] == rest;
  }

  lemma {:induction false} JoinSplit(s: string, c: char)
    ensures Join(Split(s, c), c) == s
    decreases |s|
  {
    if c in s {
      var k := FirstIndex(s, c);
      JoinSplit(s[k + 1..], c);
      JoinCons(s[..k], Split(s[k + 1..], c), c);
      hide Join;
      assert s == s[..k] + [c] + s[k + 1..];
    }
  }
}
