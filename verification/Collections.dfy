/** Mapping over sequences and counting in maps. */
module Collections {
  import opened Text

  function Map<A, B>(f: A -> B, s: seq<A>): (r: seq<B>)
    ensures |r| == |s|
    ensures forall i | 0 <= i < |s| :: r[i] == f(s[i])
  {
    seq(|s|, i requires 0 <= i < |s| => f(s[i]))
  }

  lemma MapAppend<A, B>(f: A -> B, a: seq<A>, b: seq<A>)
    ensures Map(f, a + b) == Map(f, a) + Map(f, b)
  {
  }

  lemma MultisetParts<B>(a: seq<B>, x: B, b: seq<B>)
    ensures multiset(a + [x] + b) == multiset(a + b) + multiset{x}
  {
  }

  lemma MapAround<A, B>(f: A -> B, a: seq<A>, x: A, b: seq<A>)
    ensures multiset(Map(f, a + [x] + b)) == multiset(Map(f, a + b)) + multiset{f(x)}
  {
    MapAppend(f, a + [x], b);
    MapAppend(f, a, [x]);
    MapAppend(f, a, b);
    hide Map;
    assert Map(f, [x]) == [f(x)];
    MultisetParts(Map(f, a), f(x), Map(f, b));
  }

  function Without<A>(s: seq<A>, k: nat): (r: seq<A>)
    requires k < |s|
    ensures |r| == |s| - 1
  {
    s[..k] + s[k + 1..]
  }

  lemma RemoveOne<A, B>(f: A -> B, s: seq<A>, k: nat)
    requires k < |s|
    ensures multiset(s) == multiset(Without(s, k)) + multiset{s[k]}
    ensures multiset(Map(f, s)) == multiset(Map(f, Without(s, k))) + multiset{f(s[k])}
  {
    assert s == s[..k] + [s[k]] + s[k + 1..];
    MultisetParts(s[..k], s[k], s[k + 1..]);
    MapAround(f, s[..k], s[k], s[k + 1..]);
  }

  lemma Cancel<A>(a: multiset<A>, b: multiset<A>, x: A)
    requires a + multiset{x} == b + multiset{x}
    ensures a == b
  {
    assert (a + multiset{x}) - multiset{x} == a;
  }

  /** The same elements in another order map to the same values in another order. */
  lemma {:induction false} MapPermutation<A, B>(f: A -> B, a: seq<A>, b: seq<A>)
    requires multiset(a) == multiset(b)
    ensures multiset(Map(f, a)) == multiset(Map(f, b))
    decreases |a|
  {
    assert |b| == |multiset(b)| == |a|;
    if a != [] {
      var x := a[0];
      assert x in multiset(b);
      var k :| 0 <= k < |b| && b[k] == x;
      RemoveOne(f, a, 0);
      RemoveOne(f, b, k);
      hide Map, Without;
      Cancel(multiset(Without(a, 0)), multiset(Without(b, k)), x);
      MapPermutation(f, Without(a, 0), Without(b, k));
    }
  }

  ghost predicate Distinct<A>(s: seq<A>) {
    forall i, j | 0 <= i < j < |s| :: s[i] != s[j]
  }

  /** What the function gives for the elements for which it gives something, in order. */
  function FilterMap<A, B>(f: A -> Option<B>, s: seq<A>): seq<B>
    decreases |s|
  {
    if s == [] then []
    else
      var n := |s| - 1;
      FilterMap(f, s[..n]) + match f(s[n]) case Some(b) => [b] case None => []
  }

  /** Where the results come from: one for each such element, in order. */
  ghost predicate Places<A, B>(f: A -> Option<B>, s: seq<A>, bs: seq<B>, at: seq<nat>) {
    && |at| == |bs|
    && (forall i | 0 <= i < |at| :: at[i] < |s| && f(s[at[i]]) == Some(bs[i]))
    && (forall i, j | 0 <= i < j < |at| :: at[i] < at[j])
    && (forall k: nat :: k in at <==> k < |s| && f(s[k]).Some?)
  }

  lemma {:induction false} OneMorePlace<A, B>(f: A -> Option<B>, s: seq<A>, bs: seq<B>, at: seq<nat>)
    requires s != [] && Places(f, s[..|s| - 1], bs, at)
    ensures var n := |s| - 1;
            if f(s[n]).Some? then Places(f, s, bs + [f(s[n]).value], at + [n]) else Places(f, s, bs, at)
  {
    var n := |s| - 1;
    assert forall i | 0 <= i < |at| :: at[i] in at;
    assert forall k | 0 <= k < n :: s[..n][k] == s[k];
  }

  lemma {:induction false} FilterMapPlaces<A, B>(f: A -> Option<B>, s: seq<A>) returns (at: seq<nat>)
    ensures Places(f, s, FilterMap(f, s), at)
    decreases |s|
  {
    if s == [] {
      at := [];
    } else {
      var n := |s| - 1;
      at := FilterMapPlaces(f, s[..n]);
      OneMorePlace(f, s, FilterMap(f, s[..n]), at);
      hide Places;
      if f(s[n]).Some? {
        at := at + [n];
      }
    }
  }

  /** `m[k] ?? 0` */
  function CountOf<K>(m: map<K, nat>, k: K): nat {
    if k in m then m[k] else 0
  }
}
