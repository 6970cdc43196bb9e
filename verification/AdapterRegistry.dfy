/** Detecting, ranking and installing the tool adapters. What an adapter detects or installs is a parameter. */
module AdapterRegistry {
  import opened Text
  import opened Collections
  import opened StableSort

  datatype ControlTier = LifecycleHooks | InstructionOnly | PromptOnly | PostSessionOnly

  function TierRank(t: ControlTier): nat {
    match t
    case LifecycleHooks => 4
    case InstructionOnly => 3
    case PromptOnly => 2
    case PostSessionOnly => 1
  }

  datatype Adapter = Adapter(id: string, tier: ControlTier)
  datatype Detection = Detection(detected: bool, reason: string)
  datatype DetectedAdapter = DetectedAdapter(adapter: Adapter, detection: Detection)

  /** `(a, b) => TIER_RANK[b] - TIER_RANK[a]` puts `x` before or level with `y`. */
  predicate HigherTierFirst(x: DetectedAdapter, y: DetectedAdapter) {
    TierRank(y.adapter.tier) - TierRank(x.adapter.tier) <= 0
  }

  /** The tiers, best first. */
  const TIERS := [LifecycleHooks, InstructionOnly, PromptOnly, PostSessionOnly]

  /** An adapter comes before or level with another if and only if its tier does in that list. */
  lemma {:induction false} TierOrder(x: DetectedAdapter, y: DetectedAdapter, i: nat, j: nat)
    requires i < |TIERS| && j < |TIERS| && x.adapter.tier == TIERS[i] && y.adapter.tier == TIERS[j]
    ensures HigherTierFirst(x, y) <==> i <= j
  {
  }

  /** The detected adapters in registry order. */
  function Detected(all: seq<Adapter>, detect: Adapter -> Detection): seq<DetectedAdapter>
    decreases |all|
  {
    if all == [] then []
    else
      var n := |all| - 1;
      Detected(all[..n], detect) +
      if detect(all[n]).detected then [DetectedAdapter(all[n], detect(all[n]))] else []
  }

  method DetectAllAdapters(all: seq<Adapter>, detect: Adapter -> Detection) returns (results: seq<DetectedAdapter>)
    ensures results == Sort(HigherTierFirst, Detected(all, detect))
  {
    results := [];
    for i := 0 to |all|
      invariant results == Detected(all[..i], detect)
    {
      assert all[..i + 1][..i] == all[..i];
      var detection := detect(all[i]);
      if detection.detected {
        results := results + [DetectedAdapter(all[i], detection)];
      }
    }
    assert all[..|all|] == all;
    results := Sort(HigherTierFirst, results);
  }

  method GetBestAdapter(all: seq<Adapter>, detect: Adapter -> Detection) returns (best: Option<DetectedAdapter>)
    ensures var ranked := Sort(HigherTierFirst, Detected(all, detect));
            best == if ranked == [] then None else Some(ranked[0])
  {
    var detected := DetectAllAdapters(all, detect);
    best := if |detected| > 0 then Some(detected[0]) else None;
  }

  /** The detected adapters are exactly the adapters whose detection succeeds. */
  lemma {:induction false} DetectedMeaning(all: seq<Adapter>, detect: Adapter -> Detection, d: DetectedAdapter)
    ensures d in Detected(all, detect) <==> d.adapter in all && d.detection == detect(d.adapter) && d.detection.detected
    decreases |all|
  {
    if all != [] {
      var n := |all| - 1;
      DetectedMeaning(all[..n], detect, d);
      assert all == all[..n] + [all[n]];
    }
  }

  /** The detected adapters stand in the order of the registry, each with what its detection says. */
  lemma {:induction false} DetectedInOrder(all: seq<Adapter>, detect: Adapter -> Detection) returns (at: seq<nat>)
    ensures |at| == |Detected(all, detect)|
    ensures forall i | 0 <= i < |at| ::
              at[i] < |all| && Detected(all, detect)[i] == DetectedAdapter(all[at[i]], detect(all[at[i]]))
    ensures forall i, j | 0 <= i < j < |at| :: at[i] < at[j]
    ensures forall k: nat :: k in at <==> k < |all| && detect(all[k]).detected
  {
    var f := (a: Adapter) => if detect(a).detected then Some(DetectedAdapter(a, detect(a))) else None;
    DetectedFilters(all, detect, f);
    at := FilterMapPlaces(f, all);
    hide FilterMap, Detected;
  }

  lemma {:induction false} DetectedFilters(all: seq<Adapter>, detect: Adapter -> Detection,
                                           f: Adapter -> Option<DetectedAdapter>)
    requires forall a :: f(a) == if detect(a).detected then Some(DetectedAdapter(a, detect(a))) else None
    ensures Detected(all, detect) == FilterMap(f, all)
    decreases |all|
  {
    if all != [] {
      DetectedFilters(all[..|all| - 1], detect, f);
    }
  }

  lemma TiersAreOrdered()
    ensures TotalPreorder(HigherTierFirst)
  {
  }

  /** Descending by tier, with ties in the order of `ds`. */
  ghost predicate IsRanking(r: seq<DetectedAdapter>, ds: seq<DetectedAdapter>) {
    && Sorted(HigherTierFirst, r)
    && forall e :: Peers(HigherTierFirst, e, r) == Peers(HigherTierFirst, e, ds)
  }

  /** The ranking is the one descending arrangement of the detected adapters that keeps ties in registry order. */
  lemma RankingIsUnique(all: seq<Adapter>, detect: Adapter -> Detection, r: seq<DetectedAdapter>)
    ensures r == Sort(HigherTierFirst, Detected(all, detect)) <==> IsRanking(r, Detected(all, detect))
  {
    var ds := Detected(all, detect);
    var ranked := Sort(HigherTierFirst, ds);
    TiersAreOrdered();
    SortSpec(HigherTierFirst, ds);
    forall e ensures Peers(HigherTierFirst, e, ranked) == Peers(HigherTierFirst, e, ds) {
      SortStable(HigherTierFirst, ds, e);
    }
    assert IsRanking(ranked, ds);
    if IsRanking(r, ds) {
      forall e ensures Peers(HigherTierFirst, e, r) == Peers(HigherTierFirst, e, ranked) {
        assert Peers(HigherTierFirst, e, r) == Peers(HigherTierFirst, e, ds);
      }
      StableArrangementUnique(HigherTierFirst, r, ranked);
    }
  }

  lemma {:induction false} FirstPeer(s: seq<DetectedAdapter>, e: DetectedAdapter) returns (i: nat)
    requires Peers(HigherTierFirst, e, s) != []
    ensures i < |s| && s[i] == Peers(HigherTierFirst, e, s)[0]
    ensures forall j | 0 <= j < i :: TierRank(s[j].adapter.tier) != TierRank(e.adapter.tier)
    ensures TierRank(s[i].adapter.tier) == TierRank(e.adapter.tier)
  {
    if HigherTierFirst(s[0], e) && HigherTierFirst(e, s[0]) {
      i := 0;
    } else {
      i := FirstPeer(s[1..], e);
      assert forall j | 1 <= j < |s| :: s[j] == s[1..][j - 1];
      i := i + 1;
    }
  }

  /** The best adapter is the first of the highest tier in registry order; there is one when anything is detected. */
  lemma BestIsFirstOfHighestTier(all: seq<Adapter>, detect: Adapter -> Detection) returns (i: nat)
    requires Detected(all, detect) != []
    ensures var ds := Detected(all, detect);
            && Sort(HigherTierFirst, ds) != [] && i < |ds| && Sort(HigherTierFirst, ds)[0] == ds[i]
            && (forall j | 0 <= j < |ds| :: TierRank(ds[j].adapter.tier) <= TierRank(ds[i].adapter.tier))
            && (forall j | 0 <= j < i :: TierRank(ds[j].adapter.tier) < TierRank(ds[i].adapter.tier))
  {
    var ds := Detected(all, detect);
    var ranked := Sort(HigherTierFirst, ds);
    TiersAreOrdered();
    SortSpec(HigherTierFirst, ds);
    SortStable(HigherTierFirst, ds, ranked[0]);
    assert Peers(HigherTierFirst, ranked[0], ranked)[0] == ranked[0];
    i := FirstPeer(ds, ranked[0]);
    forall j | 0 <= j < |ds| ensures TierRank(ds[j].adapter.tier) <= TierRank(ds[i].adapter.tier) {
      assert ds[j] in multiset(ranked);
      var k :| 0 <= k < |ranked| && ranked[k] == ds[j];
      assert k == 0 || HigherTierFirst(ranked[0], ranked[k]);
    }
  }

  // ----- Installing -----

  datatype InstallResult = InstallResult(installed: bool, warnings: seq<string>)
  datatype InstallSummary = InstallSummary(installed: seq<string>, skipped: seq<string>, warnings: seq<string>)

  predicate Bypassed(adapters: seq<DetectedAdapter>, i: nat)
    requires i < |adapters|
  {
    adapters[i].adapter.id == "generic" && |adapters| > 1
  }

  /** What the first `n` adapters contribute; `install(i)` is what the install of adapter `i` returns if it runs. */
  function InstalledBy(adapters: seq<DetectedAdapter>, install: nat -> InstallResult, n: nat): InstallSummary
    requires n <= |adapters|
  {
    if n == 0 then InstallSummary([], [], [])
    else
      var s, id := InstalledBy(adapters, install, n - 1), adapters[n - 1].adapter.id;
      if Bypassed(adapters, n - 1) then s.(skipped := s.skipped + [id])
      else if install(n - 1).installed
      then InstallSummary(s.installed + [id], s.skipped, s.warnings + install(n - 1).warnings)
      else InstallSummary(s.installed, s.skipped + [id], s.warnings + install(n - 1).warnings)
  }

  method InstallAll(adapters: seq<DetectedAdapter>, install: nat -> InstallResult) returns (summary: InstallSummary)
    ensures summary == InstalledBy(adapters, install, |adapters|)
  {
    var installed: seq<string>, skipped: seq<string>, warnings: seq<string> := [], [], [];
    for i := 0 to |adapters|
      invariant InstallSummary(installed, skipped, warnings) == InstalledBy(adapters, install, i)
    {
      var id := adapters[i].adapter.id;
      if id == "generic" && |adapters| > 1 {
        skipped := skipped + [id];
        continue;
      }
      var result := install(i);
      if result.installed {
        installed := installed + [id];
      } else {
        skipped := skipped + [id];
      }
      warnings := warnings + result.warnings;
    }
    summary := InstallSummary(installed, skipped, warnings);
  }

  /** The generic adapter is not needed beside others. */
  ghost predicate IsSpare(adapters: seq<DetectedAdapter>, i: nat) {
    i < |adapters| && adapters[i].adapter.id == "generic" && |adapters| >= 2
  }

  /** `parts` are the elements of `s` at the positions in `at`, which ascend. */
  ghost predicate PicksInOrder(s: seq<DetectedAdapter>, at: seq<nat>, ids: seq<string>) {
    && |at| == |ids|
    && (forall i | 0 <= i < |at| :: at[i] < |s| && ids[i] == s[at[i]].adapter.id)
    && (forall i, j | 0 <= i < j < |at| :: at[i] < at[j])
  }

  lemma SpareIsBypassed(adapters: seq<DetectedAdapter>, i: nat)
    requires i < |adapters|
    ensures IsSpare(adapters, i) <==> Bypassed(adapters, i)
  {
  }

  /** The adapter is needed and its install succeeds. */
  ghost predicate Works(adapters: seq<DetectedAdapter>, install: nat -> InstallResult, i: nat) {
    install(i).installed && !IsSpare(adapters, i)
  }

  lemma OneInstalled(adapters: seq<DetectedAdapter>, install: nat -> InstallResult, n: nat)
    requires n < |adapters|
    ensures var before, now := InstalledBy(adapters, install, n), InstalledBy(adapters, install, n + 1);
            var id := adapters[n].adapter.id;
            if Works(adapters, install, n)
            then now.installed == before.installed + [id] && now.skipped == before.skipped
            else now.installed == before.installed && now.skipped == before.skipped + [id]
  {
    SpareIsBypassed(adapters, n);
    hide IsSpare, Bypassed;
  }

  /** The identifiers are those of the adapters below `n` that work, or of those that do not, in order. */
  ghost predicate Picked(adapters: seq<DetectedAdapter>, install: nat -> InstallResult, n: nat, working: bool,
                         at: seq<nat>, ids: seq<string>) {
    && PicksInOrder(adapters, at, ids)
    && forall i: nat :: i in at <==> i < n && (Works(adapters, install, i) <==> working)
  }

  lemma {:induction false} OneMorePicked(adapters: seq<DetectedAdapter>, install: nat -> InstallResult, n: nat,
                                         working: bool, at: seq<nat>, ids: seq<string>)
    requires n < |adapters| && Picked(adapters, install, n, working, at, ids)
    ensures if Works(adapters, install, n) <==> working
            then Picked(adapters, install, n + 1, working, at + [n], ids + [adapters[n].adapter.id])
            else Picked(adapters, install, n + 1, working, at, ids)
  {
    hide Works;
    OneMore(adapters, at, ids, n);
    hide PicksInOrder;
  }

  /** Every adapter is in exactly one of installed and skipped, and both lists keep the order of the adapters. */
  lemma {:induction false} InstallPartition(adapters: seq<DetectedAdapter>, install: nat -> InstallResult, n: nat)
    returns (yes: seq<nat>, no: seq<nat>)
    requires n <= |adapters|
    ensures Picked(adapters, install, n, true, yes, InstalledBy(adapters, install, n).installed)
    ensures Picked(adapters, install, n, false, no, InstalledBy(adapters, install, n).skipped)
  {
    if n == 0 {
      yes, no := [], [];
    } else {
      var before := InstalledBy(adapters, install, n - 1);
      yes, no := InstallPartition(adapters, install, n - 1);
      OneInstalled(adapters, install, n - 1);
      OneMorePicked(adapters, install, n - 1, true, yes, before.installed);
      OneMorePicked(adapters, install, n - 1, false, no, before.skipped);
      hide InstalledBy, Works, Picked;
      if Works(adapters, install, n - 1) {
        yes := yes + [n - 1];
      } else {
        no := no + [n - 1];
      }
    }
  }

  lemma OneMore(s: seq<DetectedAdapter>, at: seq<nat>, ids: seq<string>, n: nat)
    requires n < |s| && PicksInOrder(s, at, ids)
    requires forall i: nat | i in at :: i < n
    ensures PicksInOrder(s, at + [n], ids + [s[n].adapter.id])
  {
    assert forall i | 0 <= i < |at| :: at[i] in at;
  }

  function Flatten(parts: seq<seq<string>>): seq<string>
    decreases |parts|
  {
    if parts == [] then [] else Flatten(parts[..|parts| - 1]) + parts[|parts| - 1]
  }

  /** What the installs at the given positions warn about, in order. */
  function WarningsAt(at: seq<nat>, install: nat -> InstallResult): seq<string> {
    Flatten(Map(i => install(i).warnings, at))
  }

  /** The positions of the adapters that are not bypassed, in order. */
  ghost predicate AreRun(adapters: seq<DetectedAdapter>, n: nat, at: seq<nat>)
    requires n <= |adapters|
  {
    && (forall i, j | 0 <= i < j < |at| :: at[i] < at[j])
    && (forall i: nat :: i in at <==> i < n && !IsSpare(adapters, i))
  }

  lemma WarningsSnoc(at: seq<nat>, i: nat, install: nat -> InstallResult)
    ensures WarningsAt(at + [i], install) == WarningsAt(at, install) + install(i).warnings
  {
    var parts := Map(k => install(k).warnings, at + [i]);
    assert parts[..|parts| - 1] == Map(k => install(k).warnings, at);
  }

  lemma OneMoreRun(adapters: seq<DetectedAdapter>, n: nat, at: seq<nat>)
    requires n < |adapters| && AreRun(adapters, n, at)
    ensures AreRun(adapters, n + 1, if Bypassed(adapters, n) then at else at + [n])
  {
    assert forall i | 0 <= i < |at| :: at[i] in at;
  }

  lemma WarningsStep(adapters: seq<DetectedAdapter>, install: nat -> InstallResult, n: nat)
    requires n < |adapters|
    ensures var before := InstalledBy(adapters, install, n).warnings;
            InstalledBy(adapters, install, n + 1).warnings ==
            if Bypassed(adapters, n) then before else before + install(n).warnings
  {
    hide Bypassed;
  }

  lemma NoWarnings(adapters: seq<DetectedAdapter>, install: nat -> InstallResult)
    ensures AreRun(adapters, 0, [])
    ensures InstalledBy(adapters, install, 0).warnings == WarningsAt([], install)
  {
  }

  /** The warnings are those of the adapters that are not bypassed, one after the other, in order. */
  lemma {:induction false} WarningsKept(adapters: seq<DetectedAdapter>, install: nat -> InstallResult, n: nat)
    returns (at: seq<nat>)
    requires n <= |adapters|
    ensures AreRun(adapters, n, at)
    ensures InstalledBy(adapters, install, n).warnings == WarningsAt(at, install)
  {
    hide Bypassed, AreRun, WarningsAt, InstalledBy;
    if n == 0 {
      NoWarnings(adapters, install);
      at := [];
    } else {
      at := WarningsKept(adapters, install, n - 1);
      OneMoreRun(adapters, n - 1, at);
      WarningsStep(adapters, install, n - 1);
      WarningsSnoc(at, n - 1, install);
      at := if Bypassed(adapters, n - 1) then at else at + [n - 1];
    }
  }
}
