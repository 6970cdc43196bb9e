/** The public export from end to end: walk, plan, checks, and the written destination. */
module PublicExport {
  import opened Text
  import opened Collections
  import opened StringOrder
  import opened SourceTree
  import opened ExportPlan
  import opened ExportChecks
  import opened ExportWriter

  /**
   Everything but the source tree. The functions stand for what is computed from the files' contents and from the
   included paths; `valueErrors` are the errors of the values that final mode requires, `intoSource` tells whether
   the destination is the source root, and `freshGit` whether a fresh repository can be made in it.
   */
  datatype Settings = Settings(
    manifest: Manifest,
    exclusions: Exclusions,
    mode: Mode,
    dryRun: bool,
    intoSource: bool,
    freshGit: bool,
    valueErrors: seq<string>,
    commit: string,
    escapesOf: seq<string> -> seq<string>,
    scanOf: map<string, string> -> Scan,
    generate: map<string, string> -> Generated,
    hash: string -> string,
    render: ExportManifest -> string)

  datatype Outcome =
    | ValuesRefused(messages: seq<string>)
    | Refused(errors: seq<PlanError>)
    | Planned(plan: Plan)
    | IntoSource
    | Written(dest: map<string, string>, manifest: ExportManifest)

  const INTO_SOURCE := "destination must not be the source root"

  /** What the program says at its end. */
  datatype Report =
    | NoValues(messages: seq<string>)
    | NoExport(errors: seq<PlanError>)
    | DryRun(plan: Plan)
    | Threw(message: string)
    | Done(fileCount: nat, freshGit: bool)

  function ReportOf(o: Outcome, freshGit: bool): Report {
    match o
    case ValuesRefused(messages) => NoValues(messages)
    case Refused(errors) => NoExport(errors)
    case Planned(plan) => DryRun(plan)
    case IntoSource => Threw(INTO_SOURCE)
    case Written(_, m) => Done(m.fileCount, freshGit)
  }

  /** The files that the walk finds, by path. */
  function SourceOf(tree: seq<Entry>): map<string, string> {
    FilesOf(Leaves("", tree))
  }

  function TreePlan(tree: seq<Entry>, s: Settings): Plan {
    PlanOf(Paths(Leaves("", tree)), s.manifest, s.exclusions, s.mode, s.commit)
  }

  function Checked(tree: seq<Entry>, s: Settings): seq<PlanError> {
    var plan := TreePlan(tree, s);
    PlanErrors(plan, s.manifest, s.escapesOf(plan.classes.included), s.scanOf(SourceOf(tree)))
  }

  function WritesOf(tree: seq<Entry>, s: Settings): seq<Leaf> {
    var source := SourceOf(tree);
    IncludedIsWalked(tree, s);
    Writes(TreePlan(tree, s), source, s.generate(source))
  }

  function Exported(tree: seq<Entry>, s: Settings): Outcome {
    var errors := Checked(tree, s);
    if s.mode == Final && s.valueErrors != [] then ValuesRefused(s.valueErrors)
    else if errors != [] then Refused(errors)
    else if s.dryRun then Planned(TreePlan(tree, s))
    else if s.intoSource then IntoSource
    else
      var m := ManifestOf(TreePlan(tree, s), WritesOf(tree, s), s.hash);
      Written(FilesOf(WritesOf(tree, s))[MANIFEST := s.render(m)], m)
  }

  /** Only an export that is written touches the destination. */
  method CreateExport(tree: seq<Entry>, s: Settings, run: ExportRun) returns (report: Report)
    modifies run
    ensures report == ReportOf(Exported(tree, s), s.freshGit)
    ensures match Exported(tree, s)
            case ValuesRefused(_) => report == NoValues(s.valueErrors)
            case Refused(_) => report == NoExport(Checked(tree, s))
            case Planned(_) => report == DryRun(TreePlan(tree, s))
            case IntoSource => report == Threw("destination must not be the source root")
            case Written(_, m) => report == Done(|m.files|, s.freshGit)
    ensures !Exported(tree, s).Written? ==> run.dest == old(run.dest) && run.entries == old(run.entries)
    ensures Exported(tree, s).Written? ==>
              run.dest == Exported(tree, s).dest && run.entries == Exported(tree, s).manifest.files
  {
    hide Classified, Writes, FilesOf, PlanErrors, SortStrings;
    if s.mode == Final && s.valueErrors != [] {
      return NoValues(s.valueErrors);
    }
    var list := new PathList();
    WalkAll("", tree, list);
    assert list.items == Paths(Leaves("", tree));
    var plan := BuildPlan(list.items, s.manifest, s.exclusions, s.mode, s.commit);
    assert plan == TreePlan(tree, s);
    hide PlanOf, Leaves;
    var source := SourceOf(tree);
    var errors := VerifyPlan(plan, s.manifest, s.escapesOf(plan.classes.included), s.scanOf(source));
    if errors != [] {
      return NoExport(errors);
    }
    if s.dryRun {
      return DryRun(plan);
    }
    if s.intoSource {
      return Threw(INTO_SOURCE);
    }
    IncludedIsWalked(tree, s);
    var fileCount := run.WriteExport(plan, source, s.generate(source), s.hash, s.render);
    report := Done(fileCount, s.freshGit);
  }

  /** Nothing is written without the values of final mode, with an error, in a dry run, or into the source itself. */
  lemma {:induction false} WrittenExactlyWhen(tree: seq<Entry>, s: Settings)
    ensures Exported(tree, s).Written? <==>
            (s.mode == Review || s.valueErrors == []) && Checked(tree, s) == [] && !s.dryRun && !s.intoSource
    ensures s.mode == Final && s.valueErrors != [] ==> Exported(tree, s) == ValuesRefused(s.valueErrors)
    ensures Exported(tree, s).Refused? ==> Exported(tree, s).errors == Checked(tree, s) != []
    ensures Exported(tree, s).Planned? ==> Exported(tree, s).plan == TreePlan(tree, s) && s.dryRun
    ensures Exported(tree, s).IntoSource? ==> s.intoSource && !s.dryRun
  {
    hide Checked, TreePlan, WritesOf;
  }

  // ----- Included files come from the walk, once each -----

  lemma PathWalked(ls: seq<Leaf>, p: string)
    ensures p in Paths(ls) <==> p in FilesOf(ls)
  {
    FilesMember(ls, p);
    if i :| 0 <= i < |ls| && ls[i].path == p {
      assert Paths(ls)[i] == p;
    }
  }

  lemma IncludedMeaning(tree: seq<Entry>, s: Settings, p: string)
    ensures p in TreePlan(tree, s).classes.included <==>
            p in SourceOf(tree) && !Denied(p, s.exclusions) && Allowed(p, s.manifest.includes)
  {
    var paths := Paths(Leaves("", tree));
    SortStringsSpec(paths);
    ClassMeaning(SortStrings(paths), s.manifest.includes, s.exclusions, p);
    PathWalked(Leaves("", tree), p);
  }

  lemma IncludedIsWalked(tree: seq<Entry>, s: Settings)
    ensures forall p | p in TreePlan(tree, s).classes.included :: p in SourceOf(tree)
  {
    forall p | p in TreePlan(tree, s).classes.included ensures p in SourceOf(tree) {
      IncludedMeaning(tree, s, p);
    }
  }

  lemma TwoStrings(t: seq<string>, i: nat, j: nat)
    requires i < j < |t|
    ensures t[i] == t[j] ==> multiset(t)[t[i]] >= 2
  {
    assert t == t[..j] + [t[j]] + t[j + 1..];
    assert t[..j][i] == t[i];
    assert t[i] in multiset(t[..j]);
  }

  lemma IncludedOnce(tree: seq<Entry>, s: Settings)
    requires WellNamed(tree)
    ensures Distinct(TreePlan(tree, s).classes.included)
  {
    var paths, c := Paths(Leaves("", tree)), TreePlan(tree, s).classes;
    WalkFindsOnce("", tree);
    SortStringsSpec(paths);
    ClassesPartition(SortStrings(paths), s.manifest.includes, s.exclusions);
    forall i, j | 0 <= i < j < |c.included| ensures c.included[i] != c.included[j] {
      TwoStrings(c.included, i, j);
      PathCounts(Leaves("", tree), c.included[i]);
      assert AllOf(c)[c.included[i]] >= multiset(c.included)[c.included[i]];
    }
  }

  // ----- Determinism -----

  lemma {:induction false} FileOfPermutedLeaves(a: seq<Leaf>, b: seq<Leaf>, p: string)
    requires multiset(a) == multiset(b) && DistinctPaths(a) && DistinctPaths(b)
    ensures p in FilesOf(a) ==> p in FilesOf(b) && FilesOf(b)[p] == FilesOf(a)[p]
  {
    FilesMember(a, p);
    if p in FilesOf(a) {
      var i :| 0 <= i < |a| && a[i].path == p;
      FileText(a, i);
      assert a[i] in multiset(b);
      var j :| 0 <= j < |b| && b[j] == a[i];
      FileText(b, j);
    }
  }

  lemma {:induction false} FilesOfPermutedLeaves(a: seq<Leaf>, b: seq<Leaf>)
    requires multiset(a) == multiset(b) && DistinctPaths(a) && DistinctPaths(b)
    ensures FilesOf(a) == FilesOf(b)
  {
    hide FilesOf, DistinctPaths;
    var m, n := FilesOf(a), FilesOf(b);
    forall p ensures (p in m <==> p in n) && (p in m ==> n[p] == m[p]) {
      FileOfPermutedLeaves(a, b, p);
      FileOfPermutedLeaves(b, a, p);
    }
  }

  lemma {:induction false} SameSource(a: seq<Entry>, b: seq<Entry>)
    requires SameFiles(a, b) && WellNamed(a) && WellNamed(b)
    ensures SourceOf(a) == SourceOf(b)
    ensures multiset(Paths(Leaves("", a))) == multiset(Paths(Leaves("", b)))
  {
    SameLeaves(a, b);
    WalkFindsOnce("", a);
    WalkFindsOnce("", b);
    hide Leaves, FilesOf, DistinctPaths, Map;
    FilesOfPermutedLeaves(Leaves("", a), Leaves("", b));
    MapPermutation(LeafPath, Leaves("", a), Leaves("", b));
  }

  /**
   Determinism: trees with the same files, in whatever order their directories are listed, give the same plan and
   the same outcome: the same refusal, or the same destination, byte for byte, and the same manifest.
   */
  lemma {:induction false} Deterministic(a: seq<Entry>, b: seq<Entry>, s: Settings)
    requires SameFiles(a, b) && WellNamed(a) && WellNamed(b)
    ensures TreePlan(a, s) == TreePlan(b, s)
    ensures Exported(a, s) == Exported(b, s)
  {
    SameSource(a, b);
    PlanIgnoresOrder(Paths(Leaves("", a)), Paths(Leaves("", b)), s.manifest, s.exclusions, s.mode, s.commit);
  }

  lemma {:induction false} ListingOrderIsIrrelevant(a: seq<Entry>, b: seq<Entry>, s: Settings)
    requires Relisted(a, b)
    ensures TreePlan(a, s) == TreePlan(b, s) && Exported(a, s) == Exported(b, s)
  {
    ListingOrder(a, b);
    Deterministic(a, b, s);
  }

  // ----- What the destination holds -----

  /** The names that the export writes itself. */
  predicate MadeByExport(p: string, mode: Mode) {
    p == PACKAGE_JSON || p == PACKAGE_LOCK || p == HISTORY || p == ModeFile(mode) || p == MANIFEST
  }

  /** The path leads, outside skipped directories, to a file of the tree with the given text. */
  ghost predicate FileAt(tree: seq<Entry>, p: string, text: string) {
    exists comps :: HoldsFile(tree, comps, text) && Unskipped(comps) && Join(comps, '/') == p
  }

  lemma SourceMeaning(tree: seq<Entry>, p: string, text: string)
    requires WellNamed(tree)
    ensures p in SourceOf(tree) && SourceOf(tree)[p] == text <==> FileAt(tree, p, text)
  {
    var ls := Leaves("", tree);
    WalkFindsOnce("", tree);
    FilesMember(ls, p);
    if p in FilesOf(ls) && FilesOf(ls)[p] == text {
      var i :| 0 <= i < |ls| && ls[i].path == p;
      FileText(ls, i);
      var comps := WalkIsSound("", tree, ls[i]);
    }
    if FileAt(tree, p, text) {
      var comps :| HoldsFile(tree, comps, text) && Unskipped(comps) && Join(comps, '/') == p;
      WalkFinds("", tree, comps, text);
      var i :| 0 <= i < |ls| && ls[i] == Leaf("" + p, text);
      FileText(ls, i);
    }
  }

  /**
   Nothing else gets out: apart from the files that the export makes itself, the destination holds exactly the
   files of the tree outside skipped directories that are allowed and not denied, with their own text.
   */
  lemma {:induction false} DestinationMeaning(tree: seq<Entry>, s: Settings, p: string, text: string)
    requires WellNamed(tree) && Exported(tree, s).Written? && !MadeByExport(p, s.mode)
    ensures var dest := Exported(tree, s).dest;
            p in dest && dest[p] == text <==>
            FileAt(tree, p, text) && !Denied(p, s.exclusions) && Allowed(p, s.manifest.includes)
  {
    IncludedMeaning(tree, s, p);
    SourceMeaning(tree, p, text);
    CopiedToDestination(tree, s, p);
    hide Exported, SourceOf, TreePlan, FileAt, Denied, Allowed;
  }

  lemma {:induction false} CopiedToDestination(tree: seq<Entry>, s: Settings, p: string)
    requires Exported(tree, s).Written? && !MadeByExport(p, s.mode)
    ensures var dest, source := Exported(tree, s).dest, SourceOf(tree);
            && (p in dest <==> p in TreePlan(tree, s).classes.included)
            && (p in dest ==> p in source && dest[p] == source[p])
  {
    var plan, source := TreePlan(tree, s), SourceOf(tree);
    var included := plan.classes.included;
    IncludedIsWalked(tree, s);
    CopiedFile(included, source, p);
    GeneratedFile(included, s.mode, s.generate(source), p);
    FileOfAppend(Copied(included, source), GeneratedWrites(included, s.mode, s.generate(source)), p);
  }

  /** What a written export takes from the source tree: an allowed and not denied file, with its text. */
  ghost predicate Takes(tree: seq<Entry>, s: Settings, p: string, text: string) {
    FileAt(tree, p, text) && !Denied(p, s.exclusions) && Allowed(p, s.manifest.includes)
  }

  /**
   Every text in the destination, from the tree and the policy: the manifest, the mode's own file and the
   rewritten package.json always; the rewritten lockfile and other files if the tree has them for the export; the
   history that the export makes only if the tree has none for it; and nothing else.
   */
  lemma {:induction false} DestinationText(tree: seq<Entry>, s: Settings, p: string, text: string)
    requires WellNamed(tree) && Exported(tree, s).Written?
    ensures var r, g := Exported(tree, s), s.generate(SourceOf(tree));
            p in r.dest && r.dest[p] == text <==>
            if p == "PUBLIC-EXPORT-MANIFEST.json" then text == s.render(r.manifest)
            else if IsModeFile(p, s.mode) then text == g.modeText
            else if p == "package.json" then text == g.packageJson
            else if p == "package-lock.json" then text == g.lockJson && exists t :: Takes(tree, s, p, t)
            else if p == "docs/project-history.md" && !exists t :: Takes(tree, s, p, t) then text == g.history
            else Takes(tree, s, p, text)
  {
    var source, plan := SourceOf(tree), TreePlan(tree, s);
    IncludedIsWalked(tree, s);
    WrittenTextAt(plan, source, s.generate(source), s.render(Exported(tree, s).manifest), p);
    IncludedTakes(tree, s, p, text);
    NamesDiffer();
    hide SourceOf, TreePlan, Writes, FilesOf, Takes;
    if p in plan.classes.included {
      IncludedTakes(tree, s, p, source[p]);
    } else if t :| Takes(tree, s, p, t) {
      IncludedTakes(tree, s, p, t);
    }
  }

  lemma {:induction false} IncludedTakes(tree: seq<Entry>, s: Settings, p: string, text: string)
    requires WellNamed(tree)
    ensures Takes(tree, s, p, text) <==>
            p in TreePlan(tree, s).classes.included && p in SourceOf(tree) && SourceOf(tree)[p] == text
  {
    IncludedMeaning(tree, s, p);
    SourceMeaning(tree, p, text);
    hide FileAt, Denied, Allowed, SourceOf, TreePlan;
  }

  /** The paths that an export has in its destination, all told. */
  lemma {:induction false} DestinationPaths(tree: seq<Entry>, s: Settings, p: string)
    requires Exported(tree, s).Written?
    ensures var included := TreePlan(tree, s).classes.included;
            p in Exported(tree, s).dest <==>
                 p in included || p == PACKAGE_JSON || p == HISTORY || p == ModeFile(s.mode) || p == MANIFEST
  {
    var plan, source := TreePlan(tree, s), SourceOf(tree);
    var included := plan.classes.included;
    IncludedIsWalked(tree, s);
    CopiedFile(included, source, p);
    GeneratedFile(included, s.mode, s.generate(source), p);
    FileOfAppend(Copied(included, source), GeneratedWrites(included, s.mode, s.generate(source)), p);
  }

  /** The files that every export writes, whatever the policy says about them. */
  predicate AlwaysWritten(p: string, mode: Mode) {
    p == PACKAGE_JSON || p == HISTORY || p == ModeFile(mode) || p == MANIFEST
  }

  predicate Forbidden(p: string, s: Settings) {
    exists j | 0 <= j < |s.manifest.mustNeverAppear| :: UnderPath(p, s.manifest.mustNeverAppear[j])
  }

  /** What the policy says must not get out. */
  predicate Unwanted(p: string, s: Settings) {
    || Denied(p, s.exclusions) || Forbidden(p, s)
    || (!Allowed(p, s.manifest.includes) && p !in GeneratedFor(s.manifest.generated, s.mode))
  }

  lemma MemberNotForbidden(files: seq<string>, s: Settings, p: string)
    requires forall j | 0 <= j < |s.manifest.mustNeverAppear| :: NoneUnder(files, s.manifest.mustNeverAppear[j])
    ensures p in files ==> !Forbidden(p, s)
  {
    hide UnderPath;
  }

  lemma {:induction false} IncludedWanted(tree: seq<Entry>, s: Settings, p: string)
    requires Exported(tree, s).Written?
    ensures p in TreePlan(tree, s).classes.included ==> !Unwanted(p, s)
  {
    var plan := TreePlan(tree, s);
    var files := plan.classes.included;
    PassesWhen(plan, s.manifest, s.escapesOf(files), s.scanOf(SourceOf(tree)));
    IncludedMeaning(tree, s, p);
    hide UnderPath, Denied, Allowed, Forbidden;
    MemberNotForbidden(files, s, p);
  }

  /** An unwanted path is in a written export exactly when it is one of the four that are always written. */
  lemma UnwantedInExport(tree: seq<Entry>, s: Settings, p: string)
    requires Exported(tree, s).Written? && Unwanted(p, s)
    ensures p in Exported(tree, s).dest <==> AlwaysWritten(p, s.mode)
  {
    IncludedWanted(tree, s, p);
    DestinationPaths(tree, s, p);
    hide Unwanted;
  }

  /** So an export keeps to the policy exactly when the policy wants those four. */
  lemma KeepsToPolicy(tree: seq<Entry>, s: Settings)
    requires Exported(tree, s).Written?
    ensures (forall p | p in Exported(tree, s).dest :: !Unwanted(p, s)) <==>
            (forall p | AlwaysWritten(p, s.mode) :: !Unwanted(p, s))
  {
    forall p ensures Unwanted(p, s) ==> (p in Exported(tree, s).dest <==> AlwaysWritten(p, s.mode)) {
      if Unwanted(p, s) {
        UnwantedInExport(tree, s, p);
      }
    }
    hide Unwanted, AlwaysWritten, Exported;
  }

  /** A forbidden path that gets out: package.json, from an empty tree. */
  lemma {:induction false} ForbiddenPathExported(s: Settings)
    requires s.manifest == Manifest([], [], [], [PACKAGE_JSON])
    requires s.mode == Review && !s.dryRun && !s.intoSource && s.escapesOf([]) == []
    ensures Forbidden(PACKAGE_JSON, s)
    ensures Exported([], s).Written? && PACKAGE_JSON in Exported([], s).dest
  {
    var plan := TreePlan([], s);
    NothingIncluded(s);
    PassesWhen(plan, s.manifest, [], s.scanOf(SourceOf([])));
    PackageJsonForbidden(s);
    hide UnderPath, PlanErrors, Forbidden;
    DestinationPaths([], s, PACKAGE_JSON);
  }

  lemma PackageJsonForbidden(s: Settings)
    requires s.manifest.mustNeverAppear == [PACKAGE_JSON]
    ensures Forbidden(PACKAGE_JSON, s)
  {
    assert PACKAGE_JSON[11] == 'n' && |PACKAGE_JSON| == 12;
    assert UnderPath(PACKAGE_JSON, s.manifest.mustNeverAppear[0]);
  }

  lemma NothingIncluded(s: Settings)
    ensures TreePlan([], s).classes == Classes([], [], [])
  {
    assert Paths(Leaves("", [])) == [];
    SortStringsSpec([]);
  }

  /**
   Manifest agreement from the tree: exactly when the tree has no allowed file with the name of the mode's
   generated file or of the manifest.
   */
  lemma {:induction false} ExportAgrees(tree: seq<Entry>, s: Settings)
    requires WellNamed(tree) && Exported(tree, s).Written?
    ensures var r := Exported(tree, s);
            Agreement(r.dest, r.manifest, s.hash) <==>
            forall p | p == ModeFile(s.mode) || p == MANIFEST ::
              p in SourceOf(tree) ==> Denied(p, s.exclusions) || !Allowed(p, s.manifest.includes)
  {
    var source := SourceOf(tree);
    IncludedIsWalked(tree, s);
    IncludedOnce(tree, s);
    IncludedMeaning(tree, s, ModeFile(s.mode));
    IncludedMeaning(tree, s, MANIFEST);
    ManifestAgrees(TreePlan(tree, s), source, s.generate(source), s.hash, s.render);
    hide Agreement, Denied, Allowed, ModeFile;
  }
}
