/** Which files the public export includes: allowlist, denylist and the checks on the plan. */
module ExportPlan {
  import opened Text
  import opened Collections
  import opened StableSort
  import opened StringOrder

  // ----- The policy. Paths are in POSIX form; a regular expression is a predicate on strings. -----

  datatype Mode = Review | Final

  datatype IncludeRule = TreeRule(path: string) | FileRule(path: string)
  datatype PrefixRule = PrefixRule(path: string, category: string)
  datatype PatternRule = PatternRule(matches: string -> bool, category: string, exceptions: seq<string>)
  datatype GeneratedRule = GeneratedRule(path: string, modes: set<Mode>)

  datatype Exclusions = Exclusions(prefixes: seq<PrefixRule>, patterns: seq<PatternRule>)
  datatype Manifest = Manifest(
    includes: seq<IncludeRule>,
    generated: seq<GeneratedRule>,
    expectedPresent: seq<string>,
    mustNeverAppear: seq<string>)

  /** `p.endsWith("/") ? p : p + "/"` */
  function DirPrefix(p: string): string {
    if EndsWith(p, '/') then p else p + "/"
  }

  /** `p.replace(/\/$/, "")` */
  function WithoutSlash(p: string): string {
    if EndsWith(p, '/') then p[..|p| - 1] else p
  }

  /** The path is the given directory or file, or lies below it. */
  predicate UnderPath(rel: string, p: string) {
    StartsWith(rel, DirPrefix(p)) || rel == WithoutSlash(p)
  }

  predicate RuleAllows(r: IncludeRule, rel: string) {
    match r
    case FileRule(p) => rel == p
    case TreeRule(p) => StartsWith(rel, DirPrefix(p))
  }

  predicate Allowed(rel: string, includes: seq<IncludeRule>) {
    exists i | 0 <= i < |includes| :: RuleAllows(includes[i], rel)
  }

  // ----- What the rules admit and deny, in words -----

  /** The directory of which a rule speaks, with or without a final slash. */
  ghost predicate Names(p: string, dir: string) {
    p == dir || p == dir + "/"
  }

  /** The path lies in the directory, at any depth; a name that only begins like the directory's is not in it. */
  ghost predicate Inside(rel: string, dir: string) {
    exists rest :: rel == dir + "/" + rest
  }

  ghost predicate InNamed(rel: string, p: string) {
    exists dir :: Names(p, dir) && Inside(rel, dir)
  }

  ghost predicate IsNamedOrInside(rel: string, p: string) {
    exists dir :: Names(p, dir) && (rel == dir || Inside(rel, dir))
  }

  lemma {:induction false} PrefixMeaning(rel: string, p: string)
    ensures StartsWith(rel, DirPrefix(p)) <==> InNamed(rel, p)
  {
    if StartsWith(rel, DirPrefix(p)) {
      var dir := if EndsWith(p, '/') then p[..|p| - 1] else p;
      assert DirPrefix(p) == dir + "/";
      assert Names(p, dir);
      assert rel == dir + "/" + rel[|dir| + 1..];
    }
    if dir :| Names(p, dir) && Inside(rel, dir) {
      var rest :| rel == dir + "/" + rest;
      InsideStarts(rel, p, dir, rest);
    }
  }

  lemma InsideStarts(rel: string, p: string, dir: string, rest: string)
    requires Names(p, dir) && rel == dir + "/" + rest
    ensures StartsWith(rel, DirPrefix(p))
  {
    assert rel[..|dir| + 1] == dir + "/";
    assert DirPrefix(p) == dir + "/" || DirPrefix(p) == dir;
  }

  lemma {:induction false} UnderPathMeaning(rel: string, p: string)
    ensures UnderPath(rel, p) <==> IsNamedOrInside(rel, p)
  {
    PrefixMeaning(rel, p);
    if rel == WithoutSlash(p) {
      assert Names(p, rel) by { assert EndsWith(p, '/') ==> p == p[..|p| - 1] + "/"; }
    }
    if dir :| Names(p, dir) && rel == dir {
      if EndsWith(p, '/') && p == dir {
        assert rel[..|p|] == p;
      } else {
        assert (dir + "/")[..|dir|] == dir;
      }
    }
  }

  /** A file rule admits its path, a tree rule what lies in its directory. */
  ghost predicate Admits(r: IncludeRule, rel: string) {
    match r
    case FileRule(p) => rel == p
    case TreeRule(p) => InNamed(rel, p)
  }

  lemma {:induction false} RuleMeaning(r: IncludeRule, rel: string)
    ensures RuleAllows(r, rel) <==> Admits(r, rel)
  {
    if r.TreeRule? {
      PrefixMeaning(rel, r.path);
    }
  }

  lemma {:induction false} AllowedMeaning(rel: string, includes: seq<IncludeRule>)
    ensures Allowed(rel, includes) <==> exists i :: 0 <= i < |includes| && Admits(includes[i], rel)
  {
    hide RuleAllows, Admits;
    forall i | 0 <= i < |includes| ensures RuleAllows(includes[i], rel) <==> Admits(includes[i], rel) {
      RuleMeaning(includes[i], rel);
    }
  }

  /** A pattern rule denies what it matches unless the path begins with one of its exceptions. */
  ghost predicate Catches(r: PatternRule, rel: string) {
    r.matches(rel) && !exists e, rest :: e in r.exceptions && rel == e + rest
  }

  lemma {:induction false} PatternMeaning(r: PatternRule, rel: string)
    ensures PatternDenies(r, rel) <==> Catches(r, rel)
  {
    if e, rest :| e in r.exceptions && rel == e + rest {
      var i :| 0 <= i < |r.exceptions| && r.exceptions[i] == e;
      assert rel[..|e|] == e;
    }
    if i :| 0 <= i < |r.exceptions| && StartsWith(rel, r.exceptions[i]) {
      assert rel == r.exceptions[i] + rel[|r.exceptions[i]|..];
    }
  }

  lemma {:induction false} DeniedMeaning(rel: string, ex: Exclusions)
    ensures Denied(rel, ex) <==>
            || (exists i :: 0 <= i < |ex.prefixes| && IsNamedOrInside(rel, ex.prefixes[i].path))
            || (exists i :: 0 <= i < |ex.patterns| && Catches(ex.patterns[i], rel))
  {
    hide UnderPath, PatternDenies, IsNamedOrInside, Catches;
    forall i | 0 <= i < |ex.prefixes|
      ensures UnderPath(rel, ex.prefixes[i].path) <==> IsNamedOrInside(rel, ex.prefixes[i].path)
    {
      UnderPathMeaning(rel, ex.prefixes[i].path);
    }
    forall i | 0 <= i < |ex.patterns| ensures PatternDenies(ex.patterns[i], rel) <==> Catches(ex.patterns[i], rel) {
      PatternMeaning(ex.patterns[i], rel);
    }
  }

  ghost predicate FirstPrefixIs(rel: string, rules: seq<PrefixRule>, k: nat) {
    && k <= |rules| && (k < |rules| ==> IsNamedOrInside(rel, rules[k].path))
    && forall j | 0 <= j < k :: !IsNamedOrInside(rel, rules[j].path)
  }

  ghost predicate FirstPatternIs(rel: string, rules: seq<PatternRule>, k: nat) {
    && k <= |rules| && (k < |rules| ==> Catches(rules[k], rel))
    && forall j | 0 <= j < k :: !Catches(rules[j], rel)
  }

  /** The category is that of the first rule that denies the path, where prefixes come before patterns. */
  ghost predicate IsFirstDenial(rel: string, ex: Exclusions, category: Option<string>) {
    exists k: nat, l: nat :: FirstPrefixIs(rel, ex.prefixes, k) && FirstPatternIs(rel, ex.patterns, l) &&
                             category == if k < |ex.prefixes| then Some(ex.prefixes[k].category)
                             else if l < |ex.patterns| then Some(ex.patterns[l].category) else None
  }

  lemma {:induction false} CategoryIsFirst(rel: string, ex: Exclusions)
    ensures IsFirstDenial(rel, ex, DenialCategory(rel, ex))
  {
    hide UnderPath, PatternDenies, IsNamedOrInside, Catches;
    forall i | 0 <= i < |ex.prefixes|
      ensures UnderPath(rel, ex.prefixes[i].path) <==> IsNamedOrInside(rel, ex.prefixes[i].path)
    {
      UnderPathMeaning(rel, ex.prefixes[i].path);
    }
    forall i | 0 <= i < |ex.patterns| ensures PatternDenies(ex.patterns[i], rel) <==> Catches(ex.patterns[i], rel) {
      PatternMeaning(ex.patterns[i], rel);
    }
    var k, l := FirstPrefix(rel, ex.prefixes, 0), FirstPattern(rel, ex.patterns, 0);
    assert FirstPrefixIs(rel, ex.prefixes, k) && FirstPatternIs(rel, ex.patterns, l);
  }

  method MatchesAllowlist(rel: string, includes: seq<IncludeRule>) returns (allowed: bool)
    ensures allowed <==> Allowed(rel, includes)
    ensures allowed <==> exists i :: 0 <= i < |includes| && Admits(includes[i], rel)
  {
    AllowedMeaning(rel, includes);
    hide Admits, RuleAllows;
    for i := 0 to |includes|
      invariant forall j | 0 <= j < i :: !RuleAllows(includes[j], rel)
    {
      if RuleAllows(includes[i], rel) {
        return true;
      }
    }
    allowed := false;
  }

  predicate PatternDenies(r: PatternRule, rel: string) {
    r.matches(rel) && forall i | 0 <= i < |r.exceptions| :: !StartsWith(rel, r.exceptions[i])
  }

  predicate DeniedByPrefix(rel: string, rules: seq<PrefixRule>) {
    exists i | 0 <= i < |rules| :: UnderPath(rel, rules[i].path)
  }

  predicate DeniedByPattern(rel: string, rules: seq<PatternRule>) {
    exists i | 0 <= i < |rules| :: PatternDenies(rules[i], rel)
  }

  predicate Denied(rel: string, ex: Exclusions) {
    DeniedByPrefix(rel, ex.prefixes) || DeniedByPattern(rel, ex.patterns)
  }

  /** The first prefix rule from index `i` on that denies the path, or the number of rules. */
  function FirstPrefix(rel: string, rules: seq<PrefixRule>, i: nat): (k: nat)
    requires i <= |rules|
    ensures i <= k <= |rules| && (k < |rules| ==> UnderPath(rel, rules[k].path))
    ensures forall j | i <= j < k :: !UnderPath(rel, rules[j].path)
    decreases |rules| - i
  {
    if i == |rules| || UnderPath(rel, rules[i].path) then i else FirstPrefix(rel, rules, i + 1)
  }

  function FirstPattern(rel: string, rules: seq<PatternRule>, i: nat): (k: nat)
    requires i <= |rules|
    ensures i <= k <= |rules| && (k < |rules| ==> PatternDenies(rules[k], rel))
    ensures forall j | i <= j < k :: !PatternDenies(rules[j], rel)
    decreases |rules| - i
  {
    if i == |rules| || PatternDenies(rules[i], rel) then i else FirstPattern(rel, rules, i + 1)
  }

  /** The category of the first rule that denies the path, prefixes before patterns. */
  function DenialCategory(rel: string, ex: Exclusions): Option<string> {
    var k, l := FirstPrefix(rel, ex.prefixes, 0), FirstPattern(rel, ex.patterns, 0);
    if k < |ex.prefixes| then Some(ex.prefixes[k].category)
    else if l < |ex.patterns| then Some(ex.patterns[l].category)
    else None
  }

  method DeniedByPath(rel: string, ex: Exclusions) returns (category: Option<string>)
    ensures category == DenialCategory(rel, ex)
    ensures IsFirstDenial(rel, ex, category)
  {
    CategoryIsFirst(rel, ex);
    hide UnderPath, PatternDenies, IsFirstDenial;
    for i := 0 to |ex.prefixes|
      invariant forall j | 0 <= j < i :: !UnderPath(rel, ex.prefixes[j].path)
    {
      if UnderPath(rel, ex.prefixes[i].path) {
        assert FirstPrefix(rel, ex.prefixes, 0) == i;
        return Some(ex.prefixes[i].category);
      }
    }
    for i := 0 to |ex.patterns|
      invariant forall j | 0 <= j < i :: !PatternDenies(ex.patterns[j], rel)
    {
      if PatternDenies(ex.patterns[i], rel) {
        assert FirstPattern(rel, ex.patterns, 0) == i;
        return Some(ex.patterns[i].category);
      }
    }
    category := None;
  }

  /** Prefix denial is closed under descendants. */
  lemma {:induction false} PrefixDenialCoversDescendants(rel: string, child: string, rules: seq<PrefixRule>)
    requires DeniedByPrefix(rel, rules)
    ensures DeniedByPrefix(rel + "/" + child, rules)
  {
    var i :| 0 <= i < |rules| && UnderPath(rel, rules[i].path);
    UnderPathCoversDescendants(rel, child, rules[i].path);
  }

  lemma UnderPathCoversDescendants(rel: string, child: string, p: string)
    requires UnderPath(rel, p)
    ensures UnderPath(rel + "/" + child, p)
  {
    var below := rel + "/" + child;
    assert below[..|rel|] == rel;
    if StartsWith(rel, DirPrefix(p)) {
      assert below[..|DirPrefix(p)|] == rel[..|DirPrefix(p)|];
    } else if EndsWith(p, '/') {
      assert p == p[..|p| - 1] + "/";
      assert below[..|p|] == rel + "/" == p;
    } else {
      assert below[..|p| + 1] == p + "/";
    }
  }

  // ----- The plan -----

  datatype Excluded = Excluded(path: string, category: string)
  datatype Classes = Classes(included: seq<string>, dropped: seq<string>, excluded: seq<Excluded>)
  datatype Plan = Plan(mode: Mode, classes: Classes, generatedFiles: seq<string>, commit: string)

  /** The denylist wins over the allowlist. */
  function Classified(paths: seq<string>, includes: seq<IncludeRule>, ex: Exclusions): Classes
    decreases |paths|
  {
    if paths == [] then Classes([], [], [])
    else
      var n := |paths| - 1;
      var c, rel := Classified(paths[..n], includes, ex), paths[n];
      match DenialCategory(rel, ex)
      case Some(category) => c.(excluded := c.excluded + [Excluded(rel, category)])
      case None =>
        if Allowed(rel, includes) then c.(included := c.included + [rel]) else c.(dropped := c.dropped + [rel])
  }

  function GeneratedFor(rules: seq<GeneratedRule>, mode: Mode): seq<string>
    decreases |rules|
  {
    if rules == [] then []
    else
      var n := |rules| - 1;
      GeneratedFor(rules[..n], mode) + if mode in rules[n].modes then [rules[n].path] else []
  }

  function PlanOf(all: seq<string>, manifest: Manifest, ex: Exclusions, mode: Mode, commit: string): Plan {
    Plan(mode, Classified(SortStrings(all), manifest.includes, ex), GeneratedFor(manifest.generated, mode), commit)
  }

  method BuildPlan(all: seq<string>, manifest: Manifest, ex: Exclusions, mode: Mode, commit: string)
    returns (plan: Plan)
    ensures plan == PlanOf(all, manifest, ex, mode, commit)
  {
    hide DenialCategory, Allowed;
    var included: seq<string>, dropped: seq<string>, excluded: seq<Excluded> := [], [], [];
    var sorted := SortStrings(all);
    for i := 0 to |sorted|
      invariant Classes(included, dropped, excluded) == Classified(sorted[..i], manifest.includes, ex)
    {
      assert sorted[..i + 1][..i] == sorted[..i];
      var rel := sorted[i];
      var d := DeniedByPath(rel, ex);
      if d.Some? {
        excluded := excluded + [Excluded(rel, d.value)];
        continue;
      }
      var allowed := MatchesAllowlist(rel, manifest.includes);
      if allowed {
        included := included + [rel];
      } else {
        dropped := dropped + [rel];
      }
    }
    assert sorted[..|sorted|] == sorted;
    plan := Plan(mode, Classes(included, dropped, excluded), GeneratedFor(manifest.generated, mode), commit);
  }

  // ----- What the plan promises -----

  function ExcludedPath(e: Excluded): string {
    e.path
  }

  function ExcludedPaths(es: seq<Excluded>): (ps: seq<string>)
    ensures |ps| == |es|
    ensures forall i | 0 <= i < |es| :: ps[i] == es[i].path
  {
    Map(ExcludedPath, es)
  }

  lemma ExcludedPathsAppend(es: seq<Excluded>, e: Excluded)
    ensures ExcludedPaths(es + [e]) == ExcludedPaths(es) + [e.path]
  {
  }

  /** All the paths of the three classes. */
  function AllOf(c: Classes): multiset<string> {
    multiset(c.included) + multiset(c.dropped) + multiset(ExcludedPaths(c.excluded))
  }

  lemma Snoc(s: seq<string>, x: string)
    ensures multiset(s + [x]) == multiset(s) + multiset{x}
  {
  }

  lemma PlacedOnce(c: Classes, rel: string, category: string)
    ensures AllOf(c.(included := c.included + [rel])) == AllOf(c) + multiset{rel}
    ensures AllOf(c.(dropped := c.dropped + [rel])) == AllOf(c) + multiset{rel}
    ensures AllOf(c.(excluded := c.excluded + [Excluded(rel, category)])) == AllOf(c) + multiset{rel}
  {
    Snoc(c.included, rel);
    Snoc(c.dropped, rel);
    ExcludedPathsAppend(c.excluded, Excluded(rel, category));
    Snoc(ExcludedPaths(c.excluded), rel);
  }

  /** Included, dropped and excluded partition the paths, with their multiplicity. */
  lemma {:induction false} ClassesPartition(paths: seq<string>, includes: seq<IncludeRule>, ex: Exclusions)
    ensures AllOf(Classified(paths, includes, ex)) == multiset(paths)
    decreases |paths|
  {
    if paths != [] {
      var n := |paths| - 1;
      ClassesPartition(paths[..n], includes, ex);
      LastPlacedOnce(paths, includes, ex);
      LastCounted(paths);
      hide AllOf, Classified;
    }
  }

  lemma LastCounted(s: seq<string>)
    requires s != []
    ensures multiset(s) == multiset(s[..|s| - 1]) + multiset{s[|s| - 1]}
  {
    assert s == s[..|s| - 1] + [s[|s| - 1]];
  }

  lemma LastPlacedOnce(paths: seq<string>, includes: seq<IncludeRule>, ex: Exclusions)
    requires paths != []
    ensures var n := |paths| - 1;
            AllOf(Classified(paths, includes, ex)) == AllOf(Classified(paths[..n], includes, ex)) + multiset{paths[n]}
  {
    hide DenialCategory, Allowed, AllOf;
    var n := |paths| - 1;
    var d := DenialCategory(paths[n], ex);
    PlacedOnce(Classified(paths[..n], includes, ex), paths[n], if d.Some? then d.value else "");
  }

  /** Deny always wins: the class of each path, in both directions. */
  lemma {:induction false} ClassMeaning(paths: seq<string>, includes: seq<IncludeRule>, ex: Exclusions, rel: string)
    ensures var c := Classified(paths, includes, ex);
            && (rel in c.included <==> rel in paths && !Denied(rel, ex) && Allowed(rel, includes))
            && (rel in c.dropped <==> rel in paths && !Denied(rel, ex) && !Allowed(rel, includes))
            && (rel in ExcludedPaths(c.excluded) <==> rel in paths && Denied(rel, ex))
    decreases |paths|
  {
    if paths != [] {
      DeniedHasCategory(paths[|paths| - 1], ex);
      hide Allowed, Denied, DenialCategory;
      var n := |paths| - 1;
      ClassMeaning(paths[..n], includes, ex, rel);
      InLonger(paths, rel);
      var c := Classified(paths[..n], includes, ex);
      if DenialCategory(paths[n], ex).Some? {
        ExcludedPathsAppend(c.excluded, Excluded(paths[n], DenialCategory(paths[n], ex).value));
        hide ExcludedPaths;
      }
    }
  }

  lemma InLonger(s: seq<string>, x: string)
    requires s != []
    ensures x in s <==> x in s[..|s| - 1] || x == s[|s| - 1]
  {
    assert s == s[..|s| - 1] + [s[|s| - 1]];
  }

  /** An excluded path carries the category of the first rule that denies it. */
  lemma {:induction false} CategoryMeaning(paths: seq<string>, includes: seq<IncludeRule>, ex: Exclusions, e: Excluded)
    requires e in Classified(paths, includes, ex).excluded
    ensures DenialCategory(e.path, ex) == Some(e.category)
    decreases |paths|
  {
    hide DenialCategory, Allowed;
    var n := |paths| - 1;
    if e in Classified(paths[..n], includes, ex).excluded {
      CategoryMeaning(paths[..n], includes, ex, e);
    }
  }

  lemma DeniedHasCategory(rel: string, ex: Exclusions)
    ensures Denied(rel, ex) <==> DenialCategory(rel, ex).Some?
  {
  }

  /** Growing the allowlist never admits an excluded path: the excluded list is the same and included only grows. */
  lemma {:induction false} AllowlistGrowth(paths: seq<string>, small: seq<IncludeRule>, large: seq<IncludeRule>,
                                           ex: Exclusions)
    requires forall r | r in small :: r in large
    ensures Classified(paths, small, ex).excluded == Classified(paths, large, ex).excluded
    ensures forall rel | rel in Classified(paths, small, ex).included :: rel in Classified(paths, large, ex).included
    decreases |paths|
  {
    if paths != [] {
      var n := |paths| - 1;
      AllowlistGrowth(paths[..n], small, large, ex);
      if Allowed(paths[n], small) {
        var i :| 0 <= i < |small| && RuleAllows(small[i], paths[n]);
        assert small[i] in large;
        var j :| 0 <= j < |large| && large[j] == small[i];
      }
      hide Allowed, DenialCategory;
    }
  }

  /** Growing the prefix denylist only shrinks what is included. */
  lemma {:induction false} DenylistGrowth(paths: seq<string>, includes: seq<IncludeRule>, ex: Exclusions,
                                          more: seq<PrefixRule>, rel: string)
    requires forall r | r in ex.prefixes :: r in more
    requires rel in Classified(paths, includes, ex.(prefixes := more)).included
    ensures rel in Classified(paths, includes, ex).included
  {
    ClassMeaning(paths, includes, ex, rel);
    ClassMeaning(paths, includes, ex.(prefixes := more), rel);
    hide Classified, Allowed, DeniedByPattern, DeniedByPrefix;
    MorePrefixes(rel, ex.prefixes, more);
  }

  lemma MorePrefixes(rel: string, few: seq<PrefixRule>, more: seq<PrefixRule>)
    requires forall r | r in few :: r in more
    ensures DeniedByPrefix(rel, few) ==> DeniedByPrefix(rel, more)
  {
    hide UnderPath;
    if i :| 0 <= i < |few| && UnderPath(rel, few[i].path) {
      assert few[i] in more;
      var j :| 0 <= j < |more| && more[j] == few[i];
    }
  }

  /** Each class lists its paths in the order of the sorted walk. */
  lemma {:induction false} ClassesSorted(paths: seq<string>, includes: seq<IncludeRule>, ex: Exclusions)
    requires Sorted(Leq, paths)
    ensures var c := Classified(paths, includes, ex);
            Sorted(Leq, c.included) && Sorted(Leq, c.dropped) && Sorted(Leq, ExcludedPaths(c.excluded))
    decreases |paths|
  {
    hide Leq, DenialCategory, Allowed;
    if paths != [] {
      var n := |paths| - 1;
      var c := Classified(paths[..n], includes, ex);
      ClassesSorted(paths[..n], includes, ex);
      ClassesWalked(paths[..n], includes, ex);
      LastIsGreatest(paths, c.included);
      LastIsGreatest(paths, c.dropped);
      LastIsGreatest(paths, ExcludedPaths(c.excluded));
      var d := DenialCategory(paths[n], ex);
      ExcludedPathsAppend(c.excluded, Excluded(paths[n], if d.Some? then d.value else ""));
      hide Sorted, ExcludedPaths;
    }
  }

  lemma {:induction false} ClassesWalked(paths: seq<string>, includes: seq<IncludeRule>, ex: Exclusions)
    ensures var c := Classified(paths, includes, ex);
            forall rel | rel in c.included || rel in c.dropped || rel in ExcludedPaths(c.excluded) :: rel in paths
  {
    var c := Classified(paths, includes, ex);
    forall rel | rel in c.included || rel in c.dropped || rel in ExcludedPaths(c.excluded) ensures rel in paths {
      ClassMeaning(paths, includes, ex, rel);
    }
  }

  lemma LastIsGreatest(paths: seq<string>, some: seq<string>)
    requires paths != [] && Sorted(Leq, paths)
    requires Sorted(Leq, some) && forall rel | rel in some :: rel in paths[..|paths| - 1]
    ensures Sorted(Leq, some + [paths[|paths| - 1]])
  {
    hide Leq;
    var n := |paths| - 1;
    forall i | 0 <= i < |some| ensures Leq(some[i], paths[n]) {
      assert some[i] in some;
      var k :| 0 <= k < n && paths[..n][k] == some[i];
    }
  }

  /** A declared generated file is planned for exactly the modes of its rule. */
  lemma {:induction false} GeneratedMeaning(rules: seq<GeneratedRule>, mode: Mode, p: string)
    ensures p in GeneratedFor(rules, mode) <==>
            exists i :: 0 <= i < |rules| && rules[i].path == p && mode in rules[i].modes
    decreases |rules|
  {
    if rules != [] {
      var n := |rules| - 1;
      GeneratedMeaning(rules[..n], mode, p);
      assert forall i | 0 <= i < n :: rules[..n][i] == rules[i];
    }
  }

  /** The plan depends on which paths were walked, not on their order. */
  lemma PlanIgnoresOrder(a: seq<string>, b: seq<string>, manifest: Manifest, ex: Exclusions, mode: Mode, commit: string)
    requires multiset(a) == multiset(b)
    ensures PlanOf(a, manifest, ex, mode, commit) == PlanOf(b, manifest, ex, mode, commit)
  {
    SortStringsCanonical(a, b);
  }
}
