/**
 The runtime's `Array.prototype.sort` as a function: a stable arrangement by a comparison. The uniqueness
 lemmas show that its result does not depend on the algorithm.
 */
module StableSort {

  ghost predicate TotalPreorder<T(!new)>(leq: (T, T) -> bool) {
    && (forall x, y :: leq(x, y) || leq(y, x))
    && (forall x, y, z :: leq(x, y) && leq(y, z) ==> leq(x, z))
  }

  ghost predicate Sorted<T>(leq: (T, T) -> bool, s: seq<T>) {
    forall i, j | 0 <= i < j < |s| :: leq(s[i], s[j])
  }

  /** Places `x` before every element it may precede; used for an `x` that stood before all of `s`. */
  function Insert<T>(leq: (T, T) -> bool, x: T, s: seq<T>): seq<T> {
    if s == [] || leq(x, s[0]) then [x] + s
    else [s[0]] + Insert(leq, x, s[1..])
  }

  function Sort<T>(leq: (T, T) -> bool, s: seq<T>): seq<T> {
    if s == [] then [] else Insert(leq, s[0], Sort(leq, s[1..]))
  }

  /** The elements that compare equal to `e`, in order. */
  function Peers<T>(leq: (T, T) -> bool, e: T, s: seq<T>): seq<T> {
    if s == [] then []
    else if leq(s[0], e) && leq(e, s[0]) then [s[0]] + Peers(leq, e, s[1..])
    else Peers(leq, e, s[1..])
  }

  lemma PrependSmallest<T(!new)>(leq: (T, T) -> bool, h: T, t: seq<T>, x: T, rest: seq<T>)
    requires Sorted(leq, t) && multiset(t) == multiset{x} + multiset(rest)
    requires leq(h, x) && forall y | y in rest :: leq(h, y)
    ensures Sorted(leq, [h] + t)
  {
    forall y | y in t ensures leq(h, y) {
      assert y in multiset(t);
    }
    assert forall i | 0 <= i < |t| :: t[i] in t;
  }

  lemma {:induction false} InsertSpec<T(!new)>(leq: (T, T) -> bool, x: T, s: seq<T>)
    requires TotalPreorder(leq) && Sorted(leq, s)
    ensures Sorted(leq, Insert(leq, x, s))
    ensures multiset(Insert(leq, x, s)) == multiset{x} + multiset(s)
  {
    if s != [] && !leq(x, s[0]) {
      InsertSpec(leq, x, s[1..]);
      assert s == [s[0]] + s[1..];
      PrependSmallest(leq, s[0], Insert(leq, x, s[1..]), x, s[1..]);
    } else if s != [] {
      PrependAtMost(leq, x, s);
    }
  }

  lemma PrependAtMost<T(!new)>(leq: (T, T) -> bool, x: T, s: seq<T>)
    requires TotalPreorder(leq) && Sorted(leq, s)
    requires s != [] && leq(x, s[0])
    ensures Sorted(leq, [x] + s)
  {
    forall i | 0 <= i < |s| ensures leq(x, s[i]) {
      assert i == 0 || leq(s[0], s[i]);
    }
  }

  /** `sort` arranges the same elements in ascending order. */
  lemma {:induction false} SortSpec<T(!new)>(leq: (T, T) -> bool, s: seq<T>)
    requires TotalPreorder(leq)
    ensures Sorted(leq, Sort(leq, s))
    ensures multiset(Sort(leq, s)) == multiset(s)
    ensures |Sort(leq, s)| == |s|
  {
    if s != [] {
      SortSpec(leq, s[1..]);
      InsertSpec(leq, s[0], Sort(leq, s[1..]));
      assert s == [s[0]] + s[1..];
    }
    assert |multiset(Sort(leq, s))| == |Sort(leq, s)|;
  }

  lemma {:induction false} InsertStable<T(!new)>(leq: (T, T) -> bool, x: T, s: seq<T>, e: T)
    requires TotalPreorder(leq) && Sorted(leq, s)
    ensures Peers(leq, e, Insert(leq, x, s)) == Peers(leq, e, [x] + s)
  {
    if s != [] && !leq(x, s[0]) {
      InsertStable(leq, x, s[1..], e);
      assert ([x] + s)[1..] == s && ([x] + s[1..])[1..] == s[1..];
      var r := Insert(leq, x, s);
      assert r[0] == s[0] && r[1..] == Insert(leq, x, s[1..]);
    }
  }

  /** `sort` is stable: elements that compare equal keep their order. */
  lemma {:induction false} SortStable<T(!new)>(leq: (T, T) -> bool, s: seq<T>, e: T)
    requires TotalPreorder(leq)
    ensures Peers(leq, e, Sort(leq, s)) == Peers(leq, e, s)
  {
    if s != [] {
      SortStable(leq, s[1..], e);
      SortSpec(leq, s[1..]);
      var t := Sort(leq, s[1..]);
      InsertStable(leq, s[0], t, e);
      assert ([s[0]] + t)[1..] == t;
    }
  }

  lemma {:induction false} PeersMember<T>(leq: (T, T) -> bool, e: T, s: seq<T>)
    ensures forall y | y in Peers(leq, e, s) :: y in s && leq(y, e) && leq(e, y)
  {
    if s != [] {
      PeersMember(leq, e, s[1..]);
    }
  }

  lemma PeersTail<T>(leq: (T, T) -> bool, e: T, s: seq<T>)
    requires s != []
    ensures Peers(leq, e, s[1..]) ==
            if leq(s[0], e) && leq(e, s[0]) then Peers(leq, e, s)[1..] else Peers(leq, e, s)
  {
  }

  lemma HeadAtMost<T(!new)>(leq: (T, T) -> bool, a: seq<T>, b: seq<T>)
    requires TotalPreorder(leq) && Sorted(leq, a) && Sorted(leq, b)
    requires a != []
    requires Peers(leq, a[0], a) == Peers(leq, a[0], b)
    ensures b != [] && leq(b[0], a[0])
  {
    assert leq(a[0], a[0]);
    assert Peers(leq, a[0], b) != [];
    var y := Peers(leq, a[0], b)[0];
    assert y in Peers(leq, a[0], b);
    PeersMember(leq, a[0], b);
    var k :| 0 <= k < |b| && b[k] == y;
    assert k == 0 || leq(b[0], b[k]);
  }

  /** There is only one ascending arrangement that keeps the order of equal elements. */
  lemma {:induction false} StableArrangementUnique<T(!new)>(leq: (T, T) -> bool, a: seq<T>, b: seq<T>)
    requires TotalPreorder(leq) && Sorted(leq, a) && Sorted(leq, b)
    requires forall e :: Peers(leq, e, a) == Peers(leq, e, b)
    ensures a == b
    decreases |a|
  {
    if a == [] {
      if b != [] {
        HeadAtMost(leq, b, a);
      }
    } else {
      HeadAtMost(leq, a, b);
      HeadAtMost(leq, b, a);
      assert Peers(leq, a[0], a)[0] == a[0] && Peers(leq, a[0], b)[0] == b[0];
      forall e ensures Peers(leq, e, a[1..]) == Peers(leq, e, b[1..]) {
        assert Peers(leq, e, a) == Peers(leq, e, b);
        PeersTail(leq, e, a);
        PeersTail(leq, e, b);
      }
      StableArrangementUnique(leq, a[1..], b[1..]);
      assert a == [a[0]] + a[1..] && b == [b[0]] + b[1..];
    }
  }

  lemma HeadsEqual<T(!new)>(leq: (T, T) -> bool, a: seq<T>, b: seq<T>)
    requires Sorted(leq, a) && Sorted(leq, b)
    requires a != [] && multiset(a) == multiset(b)
    requires forall x, y | x in a && y in a && leq(x, y) && leq(y, x) :: x == y
    ensures b != [] && a[0] == b[0]
  {
    assert a[0] in multiset(b);
    var i :| 0 <= i < |b| && b[i] == a[0];
    assert b[0] in multiset(a);
    var j :| 0 <= j < |a| && a[j] == b[0];
    if i != 0 && j != 0 {
      assert leq(b[0], b[i]) && leq(a[0], a[j]);
    }
  }

  lemma TailElements<T>(s: seq<T>)
    requires s != []
    ensures multiset(s[1..]) == multiset(s) - multiset{s[0]}
    ensures s == [s[0]] + s[1..]
    ensures forall x | x in s[1..] :: x in s
  {
    assert s == [s[0]] + s[1..];
    assert multiset(s) == multiset{s[0]} + multiset(s[1..]);
  }

  /** Under a comparison that tells all elements apart, the sorted arrangement depends on the elements only. */
  lemma {:induction false} SortedUnique<T(!new)>(leq: (T, T) -> bool, a: seq<T>, b: seq<T>)
    requires Sorted(leq, a) && Sorted(leq, b)
    requires multiset(a) == multiset(b)
    requires forall x, y | x in a && y in a && leq(x, y) && leq(y, x) :: x == y
    ensures a == b
    decreases |a|
  {
    if a == [] {
      assert |multiset(b)| == 0;
    } else {
      HeadsEqual(leq, a, b);
      TailElements(a);
      TailElements(b);
      SortedUnique(leq, a[1..], b[1..]);
    }
  }
}
