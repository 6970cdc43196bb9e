/** JSON objects with ordered keys, and the loop that rewrites the list stored at each of a series of keys. */
module JsonObjects {
  import opened Collections

  /** Keys in insertion order, and the value at each key. */
  datatype Dict<V> = Dict(keys: seq<string>, vals: map<string, V>)

  function EmptyDict<V>(): Dict<V> { Dict([], map[]) }

  /** `o[k] = v`: an existing key keeps its place, a new one goes last. */
  function Put<V>(o: Dict<V>, k: string, v: V): Dict<V> {
    Dict(if k in o.vals then o.keys else o.keys + [k], o.vals[k := v])
  }

  /** `o[k] ?? []` */
  function ListAt<G>(o: Dict<seq<G>>, k: string): seq<G> {
    if k in o.vals then o.vals[k] else []
  }

  /** For each key of `ks` in turn: `o[k] = [...keep(o[k] ?? []), ...add[k]]`. */
  function Merged<G>(o: Dict<seq<G>>, keep: seq<G> -> seq<G>, add: Dict<seq<G>>, ks: seq<string>): Dict<seq<G>>
    decreases |ks|
  {
    if ks == [] then o
    else
      var n := |ks| - 1;
      var m := Merged(o, keep, add, ks[..n]);
      Put(m, ks[n], keep(ListAt(m, ks[n])) + ListAt(add, ks[n]))
  }

  /** For each key of `ks` in turn that is present: `o[k] = keep(o[k])`. */
  function Pruned<G>(o: Dict<seq<G>>, keep: seq<G> -> seq<G>, ks: seq<string>): Dict<seq<G>>
    decreases |ks|
  {
    if ks == [] then o
    else
      var n := |ks| - 1;
      var m := Pruned(o, keep, ks[..n]);
      if ks[n] in m.vals then Put(m, ks[n], keep(m.vals[ks[n]])) else m
  }

  /** The keys of `ks` that are not yet present, in order. */
  function NewKeys<V>(o: Dict<V>, ks: seq<string>): seq<string>
    decreases |ks|
  {
    if ks == [] then []
    else
      var n := |ks| - 1;
      NewKeys(o, ks[..n]) + if ks[n] in o.vals then [] else [ks[n]]
  }

  /** What the merge leaves at one key: every key that is not treated is untouched. */
  lemma {:induction false} MergedAt<G>(o: Dict<seq<G>>, keep: seq<G> -> seq<G>, add: Dict<seq<G>>, ks: seq<string>,
                                       k: string)
    requires Distinct(ks)
    ensures ListAt(Merged(o, keep, add, ks), k) == if k in ks then keep(ListAt(o, k)) + ListAt(add, k) else ListAt(o, k)
    ensures k in Merged(o, keep, add, ks).vals <==> k in o.vals || k in ks
    decreases |ks|
  {
    if ks != [] {
      var n := |ks| - 1;
      MergedAt(o, keep, add, ks[..n], k);
      MergedAt(o, keep, add, ks[..n], ks[n]);
      assert ks == ks[..n] + [ks[n]];
    }
  }

  /** The merge only adds the missing keys, at the end. */
  lemma {:induction false} MergedKeys<G>(o: Dict<seq<G>>, keep: seq<G> -> seq<G>, add: Dict<seq<G>>, ks: seq<string>)
    requires Distinct(ks)
    ensures Merged(o, keep, add, ks).keys == o.keys + NewKeys(o, ks)
    decreases |ks|
  {
    if ks != [] {
      var n := |ks| - 1;
      MergedKeys(o, keep, add, ks[..n]);
      MergedAt(o, keep, add, ks[..n], ks[n]);
    }
  }

  lemma {:induction false} PrunedAt<G>(o: Dict<seq<G>>, keep: seq<G> -> seq<G>, ks: seq<string>, k: string)
    requires Distinct(ks)
    ensures Pruned(o, keep, ks).keys == o.keys
    ensures k in Pruned(o, keep, ks).vals <==> k in o.vals
    ensures k in o.vals ==> Pruned(o, keep, ks).vals[k] == if k in ks then keep(o.vals[k]) else o.vals[k]
    decreases |ks|
  {
    if ks != [] {
      var n := |ks| - 1;
      PrunedAt(o, keep, ks[..n], k);
      PrunedAt(o, keep, ks[..n], ks[n]);
      assert ks == ks[..n] + [ks[n]];
    }
  }

  lemma {:induction false} NoNewKeys<V>(o: Dict<V>, ks: seq<string>)
    requires forall k | k in ks :: k in o.vals
    ensures NewKeys(o, ks) == []
    decreases |ks|
  {
    if ks != [] {
      NoNewKeys(o, ks[..|ks| - 1]);
    }
  }

  lemma DictsEqual<G>(a: Dict<seq<G>>, b: Dict<seq<G>>)
    requires a.keys == b.keys
    requires forall k :: k in a.vals <==> k in b.vals
    requires forall k | k in a.vals && k in b.vals :: a.vals[k] == b.vals[k]
    ensures a == b
  {
    assert a.vals == b.vals;
  }

  /** Merging again what `keep` removes changes nothing. */
  lemma MergeTwice<G>(o: Dict<seq<G>>, keep: seq<G> -> seq<G>, add: Dict<seq<G>>, ks: seq<string>)
    requires Distinct(ks)
    requires forall k | k in ks :: keep(keep(ListAt(o, k)) + ListAt(add, k)) == keep(ListAt(o, k))
    ensures Merged(Merged(o, keep, add, ks), keep, add, ks) == Merged(o, keep, add, ks)
  {
    var m := Merged(o, keep, add, ks);
    var mm := Merged(m, keep, add, ks);
    MergedKeys(m, keep, add, ks);
    forall k ensures (k in ks ==> k in m.vals) && (k in mm.vals <==> k in m.vals) && ListAt(mm, k) == ListAt(m, k) {
      MergedAt(o, keep, add, ks, k);
      MergedAt(m, keep, add, ks, k);
    }
    NoNewKeys(m, ks);
    forall k | k in m.vals && k in mm.vals ensures m.vals[k] == mm.vals[k] {
      assert ListAt(mm, k) == ListAt(m, k);
    }
    DictsEqual(m, mm);
  }

  /** Pruning lists that `keep` leaves alone changes nothing. */
  lemma PruneNothing<G>(o: Dict<seq<G>>, keep: seq<G> -> seq<G>, ks: seq<string>)
    requires Distinct(ks)
    requires forall k | k in ks && k in o.vals :: keep(o.vals[k]) == o.vals[k]
    ensures Pruned(o, keep, ks) == o
  {
    var p := Pruned(o, keep, ks);
    forall k ensures (k in p.vals <==> k in o.vals) && (k in o.vals ==> p.vals[k] == o.vals[k]) {
      PrunedAt(o, keep, ks, k);
    }
    PrunedAt(o, keep, ks, "");
    DictsEqual(p, o);
  }
}
