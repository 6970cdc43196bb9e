/** The recursive walk of the public export over a source tree. */
module SourceTree {
  import opened Text
  import opened Collections

  /** A directory lists its entries in the order in which the file system returns them. */
  datatype Entry = Entry(name: string, node: Node)
  datatype Node = File(text: string) | Dir(entries: seq<Entry>) | Special

  const HARD_SKIP_DIRS: set<string> := {".git", "node_modules", "dist", ".claude", ".avorelo", ".npm-cache"}

  datatype Leaf = Leaf(path: string, text: string)

  /** The files that the walk finds, with what they hold. `prefix` is the path of the directory, with a final slash. */
  function Leaves(prefix: string, entries: seq<Entry>): seq<Leaf>
    decreases entries, 0
  {
    if entries == [] then []
    else
      var n := |entries| - 1;
      Leaves(prefix, entries[..n]) + EntryLeaves(prefix, entries[n])
  }

  function EntryLeaves(prefix: string, e: Entry): seq<Leaf>
    decreases e, 1
  {
    match e.node
    case File(text) => [Leaf(prefix + e.name, text)]
    case Dir(entries) => if e.name in HARD_SKIP_DIRS then [] else Leaves(prefix + e.name + "/", entries)
    case Special => []
  }

  function LeafPath(l: Leaf): string {
    l.path
  }

  function Paths(ls: seq<Leaf>): (ps: seq<string>)
    ensures |ps| == |ls|
    ensures forall i | 0 <= i < |ls| :: ps[i] == ls[i].path
  {
    Map(LeafPath, ls)
  }

  lemma PathsAppend(a: seq<Leaf>, b: seq<Leaf>)
    ensures Paths(a + b) == Paths(a) + Paths(b)
  {
  }

  lemma NothingWalked(prefix: string)
    ensures Paths(Leaves(prefix, [])) == []
  {
  }

  lemma PathsSnoc(prefix: string, entries: seq<Entry>, i: nat)
    requires i < |entries|
    ensures Paths(Leaves(prefix, entries[..i + 1])) ==
            Paths(Leaves(prefix, entries[..i])) + Paths(EntryLeaves(prefix, entries[i]))
  {
    assert entries[..i + 1][..i] == entries[..i];
    PathsAppend(Leaves(prefix, entries[..i]), EntryLeaves(prefix, entries[i]));
  }

  class PathList {
    var items: seq<string>

    constructor ()
      ensures items == []
    {
      items := [];
    }
  }

  /** `walkAll(dir, acc)`: the paths of the files are pushed onto the accumulator. */
  method WalkAll(prefix: string, entries: seq<Entry>, acc: PathList)
    modifies acc
    ensures acc.items == old(acc.items) + Paths(Leaves(prefix, entries))
    decreases entries
  {
    hide Leaves;
    NothingWalked(prefix);
    for i := 0 to |entries|
      invariant acc.items == old(acc.items) + Paths(Leaves(prefix, entries[..i]))
    {
      var e := entries[i];
      PathsSnoc(prefix, entries, i);
      match e.node
      case Dir(inner) =>
        if e.name in HARD_SKIP_DIRS {
          continue;
        }
        WalkAll(prefix + e.name + "/", inner, acc);
      case File(_) =>
        acc.items := acc.items + [prefix + e.name];
      case Special =>
    }
    assert entries[..|entries|] == entries;
  }

  // ----- The reference: looking a file up by its path components -----

  ghost predicate HoldsFile(entries: seq<Entry>, comps: seq<string>, text: string)
    decreases |comps|
  {
    comps != [] && exists i :: 0 <= i < |entries| && EntryHolds(entries[i], comps, text)
  }

  ghost predicate EntryHolds(e: Entry, comps: seq<string>, text: string)
    requires comps != []
    decreases |comps|, 0
  {
    e.name == comps[0] &&
    if |comps| == 1 then e.node == File(text) else e.node.Dir? && HoldsFile(e.node.entries, comps[1..], text)
  }

  /** No ancestor directory of the file is one of the skipped ones. */
  ghost predicate Unskipped(comps: seq<string>) {
    forall k | 0 <= k < |comps| - 1 ::
      comps[k] !in {".git", "node_modules", "dist", ".claude", ".avorelo", ".npm-cache"}
  }

  lemma JoinStep(prefix: string, comps: seq<string>)
    requires |comps| > 1
    ensures prefix + Join(comps, '/') == prefix + comps[0] + "/" + Join(comps[1..], '/')
  {
    assert Join(comps, '/') == comps[0] + ['/'] + Join(comps[1..], '/');
  }

  lemma {:induction false} LeavesOfEntry(prefix: string, entries: seq<Entry>, i: nat, l: Leaf)
    requires i < |entries| && l in EntryLeaves(prefix, entries[i])
    ensures l in Leaves(prefix, entries)
    decreases |entries|
  {
    hide EntryLeaves;
    var n := |entries| - 1;
    if i < n {
      LeavesOfEntry(prefix, entries[..n], i, l);
    }
  }

  /** Completeness: every file outside the skipped directories is found. */
  lemma {:induction false} WalkFinds(prefix: string, entries: seq<Entry>, comps: seq<string>, text: string)
    requires HoldsFile(entries, comps, text) && Unskipped(comps)
    ensures Leaf(prefix + Join(comps, '/'), text) in Leaves(prefix, entries)
    decreases |comps|
  {
    var i :| 0 <= i < |entries| && EntryHolds(entries[i], comps, text);
    var e := entries[i];
    if |comps| > 1 {
      WalkFinds(prefix + e.name + "/", e.node.entries, comps[1..], text);
      JoinStep(prefix, comps);
      assert comps[0] !in HARD_SKIP_DIRS;
    }
    LeavesOfEntry(prefix, entries, i, Leaf(prefix + Join(comps, '/'), text));
  }

  /** Soundness: everything that is found is such a file. */
  lemma {:induction false} WalkIsSound(prefix: string, entries: seq<Entry>, l: Leaf) returns (comps: seq<string>)
    requires l in Leaves(prefix, entries)
    ensures HoldsFile(entries, comps, l.text) && Unskipped(comps) && l.path == prefix + Join(comps, '/')
    decreases entries, 0
  {
    var n := |entries| - 1;
    if l in Leaves(prefix, entries[..n]) {
      comps := WalkIsSound(prefix, entries[..n], l);
      var i :| 0 <= i < n && EntryHolds(entries[..n][i], comps, l.text);
      assert entries[i] == entries[..n][i];
    } else {
      comps := EntryIsSound(prefix, entries[n], l);
    }
  }

  lemma {:induction false} EntryIsSound(prefix: string, e: Entry, l: Leaf) returns (comps: seq<string>)
    requires l in EntryLeaves(prefix, e)
    ensures comps != [] && EntryHolds(e, comps, l.text) && Unskipped(comps) && l.path == prefix + Join(comps, '/')
    decreases e, 1
  {
    match e.node
    case File(text) =>
      comps := [e.name];
    case Dir(entries) =>
      var rest := WalkIsSound(prefix + e.name + "/", entries, l);
      comps := [e.name] + rest;
      assert comps[1..] == rest;
      JoinStep(prefix, comps);
      assert forall k | 1 <= k < |comps| - 1 :: comps[k] == rest[k - 1];
  }

  // ----- Each file once -----

  /** Names are distinct in each directory and hold no slash. */
  ghost predicate WellNamed(entries: seq<Entry>)
    decreases entries
  {
    && (forall i, j | 0 <= i < j < |entries| :: entries[i].name != entries[j].name)
    && (forall i | 0 <= i < |entries| :: '/' !in entries[i].name)
    && (forall i | 0 <= i < |entries| && entries[i].node.Dir? :: WellNamed(entries[i].node.entries))
  }

  ghost predicate DistinctPaths(ls: seq<Leaf>) {
    forall i, j | 0 <= i < j < |ls| :: ls[i].path != ls[j].path
  }

  /** A path below an entry is the entry's name, at the end or followed by a slash. */
  ghost predicate Below(prefix: string, name: string, path: string) {
    path == prefix + name || exists rest :: path == prefix + name + "/" + rest
  }

  lemma EntryLeavesBelow(prefix: string, e: Entry, l: Leaf)
    requires l in EntryLeaves(prefix, e)
    ensures Below(prefix, e.name, l.path)
  {
    var comps := EntryIsSound(prefix, e, l);
    if |comps| > 1 {
      JoinStep(prefix, comps);
    }
  }

  lemma {:induction false} LeavesBelowSome(prefix: string, entries: seq<Entry>, l: Leaf) returns (i: nat)
    requires l in Leaves(prefix, entries)
    ensures i < |entries| && Below(prefix, entries[i].name, l.path)
    decreases |entries|
  {
    var n := |entries| - 1;
    if l in Leaves(prefix, entries[..n]) {
      i := LeavesBelowSome(prefix, entries[..n], l);
    } else {
      i := n;
      EntryLeavesBelow(prefix, entries[n], l);
    }
  }

  lemma BelowOne(prefix: string, a: string, b: string, path: string)
    requires '/' !in a && '/' !in b && Below(prefix, a, path) && Below(prefix, b, path)
    ensures a == b
  {
    var rest := path[|prefix|..];
    NameOf(prefix, a, path);
    NameOf(prefix, b, path);
  }

  lemma NameOf(prefix: string, a: string, path: string)
    requires '/' !in a && Below(prefix, a, path)
    ensures |prefix| <= |path| && Split(path[|prefix|..], '/')[0] == a
  {
    if path == prefix + a {
      assert path[|prefix|..] == a;
    } else {
      var rest :| path == prefix + a + "/" + rest;
      assert path[|prefix|..] == a + ['/'] + rest;
      SplitCons(a, '/', rest);
    }
  }

  lemma {:induction false} WalkFindsOnce(prefix: string, entries: seq<Entry>)
    requires WellNamed(entries)
    ensures DistinctPaths(Leaves(prefix, entries))
    decreases entries, 0
  {
    if entries != [] {
      var n := |entries| - 1;
      var a, b := Leaves(prefix, entries[..n]), EntryLeaves(prefix, entries[n]);
      WellNamedPrefix(entries, n);
      WalkFindsOnce(prefix, entries[..n]);
      EntryFoundOnce(prefix, entries[n]);
      forall l, k | l in a && k in b ensures l.path != k.path {
        var i := LeavesBelowSome(prefix, entries[..n], l);
        EntryLeavesBelow(prefix, entries[n], k);
        if l.path == k.path {
          BelowOne(prefix, entries[i].name, entries[n].name, l.path);
        }
      }
      DistinctAppend(a, b);
    }
  }

  lemma WellNamedPrefix(entries: seq<Entry>, n: nat)
    requires WellNamed(entries) && n <= |entries|
    ensures WellNamed(entries[..n])
  {
  }

  lemma DistinctAppend(a: seq<Leaf>, b: seq<Leaf>)
    requires DistinctPaths(a) && DistinctPaths(b)
    requires forall l, k | l in a && k in b :: l.path != k.path
    ensures DistinctPaths(a + b)
  {
    forall i, j | 0 <= i < j < |a + b| ensures (a + b)[i].path != (a + b)[j].path {
      if i < |a| <= j {
        assert a[i] in a && b[j - |a|] in b;
      }
    }
  }

  lemma {:induction false} EntryFoundOnce(prefix: string, e: Entry)
    requires e.node.Dir? ==> WellNamed(e.node.entries)
    ensures DistinctPaths(EntryLeaves(prefix, e))
    decreases e, 1
  {
    if e.node.Dir? {
      WalkFindsOnce(prefix + e.name + "/", e.node.entries);
    }
  }

  // ----- The listing order does not matter -----

  /** The trees hold the same files. */
  ghost predicate SameFiles(a: seq<Entry>, b: seq<Entry>) {
    forall comps, text :: HoldsFile(a, comps, text) <==> HoldsFile(b, comps, text)
  }

  /** Every entry of `a`, at any depth, is also in `b`, wherever it is listed there. */
  ghost predicate Within(a: seq<Entry>, b: seq<Entry>)
    decreases a, 0
  {
    forall i | 0 <= i < |a| :: exists j :: 0 <= j < |b| && EntryWithin(a[i], b[j])
  }

  ghost predicate EntryWithin(e: Entry, f: Entry)
    decreases e, 1
  {
    e.name == f.name &&
    if e.node.Dir? && f.node.Dir? then Within(e.node.entries, f.node.entries) else e.node == f.node
  }

  /** As names are distinct in each directory, such trees differ in listing order only, at any depth. */
  ghost predicate Relisted(a: seq<Entry>, b: seq<Entry>) {
    WellNamed(a) && WellNamed(b) && Within(a, b) && Within(b, a)
  }

  lemma {:induction false} WithinHolds(a: seq<Entry>, b: seq<Entry>, comps: seq<string>, text: string)
    requires Within(a, b) && HoldsFile(a, comps, text)
    ensures HoldsFile(b, comps, text)
    decreases |comps|
  {
    var i :| 0 <= i < |a| && EntryHolds(a[i], comps, text);
    var j :| 0 <= j < |b| && EntryWithin(a[i], b[j]);
    if |comps| > 1 {
      WithinHolds(a[i].node.entries, b[j].node.entries, comps[1..], text);
    }
    assert EntryHolds(b[j], comps, text);
  }

  lemma {:induction false} ListingOrder(a: seq<Entry>, b: seq<Entry>)
    requires Relisted(a, b)
    ensures SameFiles(a, b)
  {
    forall comps, text ensures HoldsFile(a, comps, text) <==> HoldsFile(b, comps, text) {
      if HoldsFile(a, comps, text) { WithinHolds(a, b, comps, text); }
      if HoldsFile(b, comps, text) { WithinHolds(b, a, comps, text); }
    }
  }

  lemma LeafCarriesOver(a: seq<Entry>, b: seq<Entry>, l: Leaf)
    requires SameFiles(a, b) && l in Leaves("", a)
    ensures l in Leaves("", b)
  {
    var comps := WalkIsSound("", a, l);
    assert HoldsFile(b, comps, l.text);
    WalkFinds("", b, comps, l.text);
  }

  /** Trees with the same files give the same walk up to order. */
  lemma {:induction false} SameLeaves(a: seq<Entry>, b: seq<Entry>)
    requires SameFiles(a, b) && WellNamed(a) && WellNamed(b)
    ensures multiset(Leaves("", a)) == multiset(Leaves("", b))
  {
    WalkFindsOnce("", a);
    WalkFindsOnce("", b);
    forall l ensures l in Leaves("", a) <==> l in Leaves("", b) {
      if l in Leaves("", a) { LeafCarriesOver(a, b, l); }
      if l in Leaves("", b) { LeafCarriesOver(b, a, l); }
    }
    SameMultiset(Leaves("", a), Leaves("", b));
  }

  lemma {:induction false} DistinctCount(ls: seq<Leaf>, l: Leaf)
    requires DistinctPaths(ls)
    ensures multiset(ls)[l] == if l in ls then 1 else 0
    decreases |ls|
  {
    if ls != [] {
      var n := |ls| - 1;
      assert ls == ls[..n] + [ls[n]];
      DistinctCount(ls[..n], l);
      assert forall i | 0 <= i < n :: ls[..n][i].path != ls[n].path;
    }
  }

  lemma SameMultiset(a: seq<Leaf>, b: seq<Leaf>)
    requires DistinctPaths(a) && DistinctPaths(b) && forall l :: l in a <==> l in b
    ensures multiset(a) == multiset(b)
  {
    forall l ensures multiset(a)[l] == multiset(b)[l] {
      DistinctCount(a, l);
      DistinctCount(b, l);
    }
  }
}
