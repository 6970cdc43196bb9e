/** Writing the export: the destination files and the hashed manifest. Hashing and JSON printing are parameters. */
module ExportWriter {
  import opened Text
  import opened Collections
  import opened JsonObjects
  import opened StableSort
  import opened StringOrder
  import opened SourceTree
  import opened ExportPlan

  const PACKAGE_JSON := "package.json"
  const PACKAGE_LOCK := "package-lock.json"
  const HISTORY := "docs/project-history.md"
  const REVIEW_NOTICE := "PRE-RELEASE-NOTICE.md"
  const LICENSE := "LICENSE"
  const MANIFEST := "PUBLIC-EXPORT-MANIFEST.json"

  /** The texts that the export makes itself: rewritten JSON, the history, and the mode's own file. */
  datatype Generated = Generated(packageJson: string, lockJson: string, history: string, modeText: string)

  function ModeFile(mode: Mode): string {
    match mode
    case Review => REVIEW_NOTICE
    case Final => LICENSE
  }

  predicate Rewritten(rel: string) {
    rel == PACKAGE_JSON || rel == PACKAGE_LOCK
  }

  // ----- What is written, in order -----

  function Copied(included: seq<string>, source: map<string, string>): seq<Leaf>
    requires forall p | p in included :: p in source
    decreases |included|
  {
    if included == [] then []
    else
      var n := |included| - 1;
      Copied(included[..n], source) + if Rewritten(included[n]) then [] else [Leaf(included[n], source[included[n]])]
  }

  function GeneratedWrites(included: seq<string>, mode: Mode, g: Generated): seq<Leaf> {
    [Leaf(PACKAGE_JSON, g.packageJson)] +
    (if PACKAGE_LOCK in included then [Leaf(PACKAGE_LOCK, g.lockJson)] else []) +
    (if HISTORY in included then [] else [Leaf(HISTORY, g.history)]) +
    [Leaf(ModeFile(mode), g.modeText)]
  }

  function Writes(plan: Plan, source: map<string, string>, g: Generated): seq<Leaf>
    requires forall p | p in plan.classes.included :: p in source
  {
    Copied(plan.classes.included, source) + GeneratedWrites(plan.classes.included, plan.mode, g)
  }

  /** The files after the writes: a later write to a path replaces an earlier one. */
  function FilesOf(ws: seq<Leaf>): map<string, string>
    decreases |ws|
  {
    if ws == [] then map[] else FilesOf(ws[..|ws| - 1])[ws[|ws| - 1].path := ws[|ws| - 1].text]
  }

  datatype FileEntry = FileEntry(path: string, hash: string)

  function EntriesOf(ws: seq<Leaf>, hash: string -> string): (es: seq<FileEntry>)
    ensures |es| == |ws|
    ensures forall i | 0 <= i < |ws| :: es[i] == FileEntry(ws[i].path, hash(ws[i].text))
  {
    Map((l: Leaf) => FileEntry(l.path, hash(l.text)), ws)
  }

  /** One more write. */
  lemma WriteSnoc(ws: seq<Leaf>, l: Leaf, hash: string -> string)
    ensures FilesOf(ws + [l]) == FilesOf(ws)[l.path := l.text]
    ensures EntriesOf(ws + [l], hash) == EntriesOf(ws, hash) + [FileEntry(l.path, hash(l.text))]
  {
    assert (ws + [l])[..|ws|] == ws;
  }

  lemma CopiedSnoc(included: seq<string>, source: map<string, string>, i: nat)
    requires forall p | p in included :: p in source
    requires i < |included|
    ensures Copied(included[..i + 1], source) ==
            if Rewritten(included[i]) then Copied(included[..i], source)
            else Copied(included[..i], source) + [Leaf(included[i], source[included[i]])]
  {
    assert included[..i + 1][..i] == included[..i];
    hide Rewritten;
  }

  /** `(a, b) => a.path < b.path ? -1 : ...` */
  predicate EntryLeq(a: FileEntry, b: FileEntry) {
    Leq(a.path, b.path)
  }

  // ----- Counting excluded files by category -----

  /** An object whose keys stand in the order of their first appearance. */
  function CategoryCounts(es: seq<Excluded>): Dict<nat>
    decreases |es|
  {
    if es == [] then EmptyDict()
    else
      var n := |es| - 1;
      var d := CategoryCounts(es[..n]);
      Put(d, es[n].category, CountOf(d.vals, es[n].category) + 1)
  }

  function Categories(es: seq<Excluded>): (cs: seq<string>)
    ensures |cs| == |es|
    ensures forall i | 0 <= i < |es| :: cs[i] == es[i].category
  {
    Map((e: Excluded) => e.category, es)
  }

  /** The summary counts every excluded file once, under its category. */
  lemma {:induction false} CountsAreRight(es: seq<Excluded>, c: string)
    ensures CountOf(CategoryCounts(es).vals, c) == multiset(Categories(es))[c]
    ensures c in CategoryCounts(es).keys <==> c in Categories(es)
    ensures c in CategoryCounts(es).keys <==> c in CategoryCounts(es).vals
    decreases |es|
  {
    if es != [] {
      var n := |es| - 1;
      CountsAreRight(es[..n], c);
      assert Categories(es) == Categories(es[..n]) + [es[n].category];
    }
  }

  // ----- The manifest -----

  datatype ExportManifest = ExportManifest(
    canonicalCommit: string,
    mode: Mode,
    fileCount: nat,
    paths: seq<string>,
    files: seq<FileEntry>,
    excludedCategorySummary: Dict<nat>,
    droppedCount: nat)

  function EntryPath(e: FileEntry): string {
    e.path
  }

  function EntryPaths(es: seq<FileEntry>): (ps: seq<string>)
    ensures |ps| == |es|
    ensures forall i | 0 <= i < |es| :: ps[i] == es[i].path
  {
    Map(EntryPath, es)
  }

  function ManifestOf(plan: Plan, ws: seq<Leaf>, hash: string -> string): ExportManifest {
    var files := Sort(EntryLeq, EntriesOf(ws, hash));
    ExportManifest(plan.commit, plan.mode, |files|, EntryPaths(files), files,
                   CategoryCounts(plan.classes.excluded), |plan.classes.dropped|)
  }

  class ExportRun {
    var dest: map<string, string>
    var entries: seq<FileEntry>

    /** The destination may hold anything before; it is emptied first. */
    constructor (dest: map<string, string>)
      ensures this.dest == dest && entries == []
    {
      this.dest := dest;
      entries := [];
    }

    method WriteFile(l: Leaf, hash: string -> string)
      modifies this
      ensures dest == old(dest)[l.path := l.text]
      ensures entries == old(entries) + [FileEntry(l.path, hash(l.text))]
    {
      dest := dest[l.path := l.text];
      entries := entries + [FileEntry(l.path, hash(l.text))];
    }

    method CopyIncluded(included: seq<string>, source: map<string, string>, hash: string -> string)
      requires forall p | p in included :: p in source
      requires dest == map[] && entries == []
      modifies this
      ensures dest == FilesOf(Copied(included, source))
      ensures entries == EntriesOf(Copied(included, source), hash)
    {
      assert included[..0] == [] && EntriesOf([], hash) == [];
      hide EntriesOf, Rewritten;
      for i := 0 to |included|
        invariant dest == FilesOf(Copied(included[..i], source))
        invariant entries == EntriesOf(Copied(included[..i], source), hash)
      {
        var rel := included[i];
        CopiedSnoc(included, source, i);
        if Rewritten(rel) {
          continue;
        }
        WriteFile(Leaf(rel, source[rel]), hash);
        WriteSnoc(Copied(included[..i], source), Leaf(rel, source[rel]), hash);
      }
      assert included[..|included|] == included;
    }

    method WriteExport(plan: Plan, source: map<string, string>, g: Generated,
                       hash: string -> string, render: ExportManifest -> string) returns (fileCount: nat)
      requires forall p | p in plan.classes.included :: p in source
      modifies this
      ensures var ws := Writes(plan, source, g);
              && dest == FilesOf(ws)[MANIFEST := render(ManifestOf(plan, ws, hash))]
              && entries == Sort(EntryLeq, EntriesOf(ws, hash))
              && fileCount == ManifestOf(plan, ws, hash).fileCount
      ensures var json := render(ManifestOf(plan, Writes(plan, source, g), hash));
              forall p :: HoldsAt(dest, p, TextAt(plan.classes.included, plan.mode, source, g, json, p))
    {
      var included := plan.classes.included;
      dest, entries := map[], [];
      CopyIncluded(included, source, hash);
      var generated := [Leaf(PACKAGE_JSON, g.packageJson)];
      if PACKAGE_LOCK in included {
        generated := generated + [Leaf(PACKAGE_LOCK, g.lockJson)];
      }
      if HISTORY !in included {
        generated := generated + [Leaf(HISTORY, g.history)];
      }
      generated := generated + [Leaf(ModeFile(plan.mode), g.modeText)];
      assert generated == GeneratedWrites(included, plan.mode, g);
      WriteGenerated(Copied(included, source), generated, hash);
      entries := Sort(EntryLeq, entries);
      var summary := CountCategories(plan.classes.excluded);
      var manifest := ExportManifest(plan.commit, plan.mode, |entries|, EntryPaths(entries), entries,
                                     summary, |plan.classes.dropped|);
      dest := dest[MANIFEST := render(manifest)];
      fileCount := |entries|;
      WrittenTexts(plan, source, g, render(manifest));
    }

    method WriteGenerated(ghost before: seq<Leaf>, generated: seq<Leaf>, hash: string -> string)
      requires dest == FilesOf(before) && entries == EntriesOf(before, hash)
      modifies this
      ensures dest == FilesOf(before + generated)
      ensures entries == EntriesOf(before + generated, hash)
    {
      hide EntriesOf;
      assert before + generated[..0] == before;
      for i := 0 to |generated|
        invariant dest == FilesOf(before + generated[..i])
        invariant entries == EntriesOf(before + generated[..i], hash)
      {
        WriteFile(generated[i], hash);
        assert before + generated[..i + 1] == before + generated[..i] + [generated[i]];
        WriteSnoc(before + generated[..i], generated[i], hash);
      }
      assert generated[..|generated|] == generated;
    }
  }

  method CountCategories(es: seq<Excluded>) returns (d: Dict<nat>)
    ensures d == CategoryCounts(es)
  {
    d := EmptyDict();
    for i := 0 to |es|
      invariant d == CategoryCounts(es[..i])
    {
      assert es[..i + 1][..i] == es[..i];
      d := Put(d, es[i].category, CountOf(d.vals, es[i].category) + 1);
    }
    assert es[..|es|] == es;
  }

  // ----- Agreement of the manifest and the destination -----

  ghost predicate Agreement(dest: map<string, string>, m: ExportManifest, hash: string -> string) {
    && (forall i, j | 0 <= i < j < |m.files| :: Less(m.files[i].path, m.files[j].path))
    && m.fileCount == |m.files| && m.paths == EntryPaths(m.files)
    && MANIFEST !in m.paths
    && (forall p :: p in dest <==> p in m.paths || p == MANIFEST)
    && (forall i | 0 <= i < |m.files| :: m.files[i].path in dest && m.files[i].hash == hash(dest[m.files[i].path]))
  }

  lemma NamesDiffer()
    ensures PACKAGE_JSON != PACKAGE_LOCK && PACKAGE_JSON != HISTORY && PACKAGE_LOCK != HISTORY
    ensures forall mode: Mode :: ModeFile(mode) !in [PACKAGE_JSON, PACKAGE_LOCK, HISTORY, MANIFEST]
    ensures MANIFEST !in [PACKAGE_JSON, PACKAGE_LOCK, HISTORY]
  {
    assert |PACKAGE_JSON| == 12 && |PACKAGE_LOCK| == 17 && |HISTORY| == 23;
    assert |REVIEW_NOTICE| == 21 && |LICENSE| == 7 && |MANIFEST| == 27;
  }

  lemma {:induction false} FilesMember(ws: seq<Leaf>, p: string)
    ensures p in FilesOf(ws) <==> exists i :: 0 <= i < |ws| && ws[i].path == p
    decreases |ws|
  {
    if ws != [] {
      var n := |ws| - 1;
      FilesMember(ws[..n], p);
      assert forall i | 0 <= i < n :: ws[..n][i] == ws[i];
    }
  }

  lemma {:induction false} FileText(ws: seq<Leaf>, i: nat)
    requires DistinctPaths(ws) && i < |ws|
    ensures ws[i].path in FilesOf(ws) && FilesOf(ws)[ws[i].path] == ws[i].text
    decreases |ws|
  {
    var n := |ws| - 1;
    if i < n {
      assert ws[..n][i] == ws[i];
      FileText(ws[..n], i);
    }
  }

  lemma {:induction false} CopiedMember(included: seq<string>, source: map<string, string>, l: Leaf)
    requires forall p | p in included :: p in source
    ensures l in Copied(included, source) <==> l.path in included && !Rewritten(l.path) && l.text == source[l.path]
    decreases |included|
  {
    hide Rewritten;
    if included != [] {
      var n := |included| - 1;
      CopiedMember(included[..n], source, l);
      InLonger(included, l.path);
    }
  }

  lemma {:induction false} CopiedDistinct(included: seq<string>, source: map<string, string>)
    requires forall p | p in included :: p in source
    requires Distinct(included)
    ensures DistinctPaths(Copied(included, source))
    decreases |included|
  {
    hide Rewritten;
    if included != [] {
      var n := |included| - 1;
      var ws := Copied(included[..n], source);
      CopiedDistinct(included[..n], source);
      forall l | l in ws ensures l.path != included[n] {
        CopiedMember(included[..n], source, l);
      }
      assert forall i | 0 <= i < |ws| :: ws[i] in ws;
    }
  }

  lemma GeneratedDistinct(included: seq<string>, mode: Mode, g: Generated)
    ensures DistinctPaths(GeneratedWrites(included, mode, g))
    ensures forall l | l in GeneratedWrites(included, mode, g) ::
              || l.path == PACKAGE_JSON || l.path == PACKAGE_LOCK
              || (l.path == HISTORY && HISTORY !in included) || l.path == ModeFile(mode)
  {
    NamesDiffer();
    hide ModeFile;
  }

  /** Each path is written once exactly when the source does not include the mode's own file. */
  lemma WritesDistinct(plan: Plan, source: map<string, string>, g: Generated)
    requires forall p | p in plan.classes.included :: p in source
    requires Distinct(plan.classes.included)
    ensures DistinctPaths(Writes(plan, source, g)) <==> ModeFile(plan.mode) !in plan.classes.included
  {
    var included, mode := plan.classes.included, plan.mode;
    var a, b := Copied(included, source), GeneratedWrites(included, mode, g);
    CopiedDistinct(included, source);
    GeneratedDistinct(included, mode, g);
    NamesDiffer();
    if ModeFile(mode) !in included {
      forall l, k | l in a && k in b ensures l.path != k.path {
        CopiedMember(included, source, l);
      }
      DistinctAppend(a, b);
    } else {
      var l := Leaf(ModeFile(mode), source[ModeFile(mode)]);
      CopiedMember(included, source, l);
      var i :| 0 <= i < |a| && a[i] == l;
      assert (a + b)[i].path == (a + b)[|a + b| - 1].path;
    }
  }

  // ----- Sorting entries -----

  ghost predicate DistinctEntries(es: seq<FileEntry>) {
    forall i, j | 0 <= i < j < |es| :: es[i].path != es[j].path
  }

  lemma EntriesDistinct(ws: seq<Leaf>, hash: string -> string)
    ensures DistinctEntries(EntriesOf(ws, hash)) <==> DistinctPaths(ws)
  {
    var es := EntriesOf(ws, hash);
    assert forall i | 0 <= i < |ws| :: es[i].path == ws[i].path;
  }

  lemma TwoPlaces(s: seq<FileEntry>, i: nat, j: nat)
    requires i < j < |s| && s[i] == s[j]
    ensures multiset(s)[s[i]] >= 2
  {
    assert s == s[..j] + [s[j]] + s[j + 1..];
    assert s[..j][i] == s[i];
    assert s[i] in multiset(s[..j]);
  }

  lemma {:induction false} OnePlace(s: seq<FileEntry>, e: FileEntry)
    requires DistinctEntries(s)
    ensures multiset(s)[e] <= 1 && (e in s <==> multiset(s)[e] == 1)
    decreases |s|
  {
    if s != [] {
      var n := |s| - 1;
      OnePlace(s[..n], e);
      assert s == s[..n] + [s[n]];
      assert forall i | 0 <= i < n :: s[..n][i].path != s[n].path;
    }
  }

  lemma DistinctCarriesOver(a: seq<FileEntry>, b: seq<FileEntry>)
    requires multiset(a) == multiset(b) && DistinctEntries(a)
    ensures DistinctEntries(b)
  {
    forall i, j | 0 <= i < j < |b| ensures b[i].path != b[j].path {
      assert b[i] in multiset(a) && b[j] in multiset(a);
      var k :| 0 <= k < |a| && a[k] == b[i];
      var l :| 0 <= l < |a| && a[l] == b[j];
      OnePlace(a, b[i]);
      if b[i] == b[j] {
        TwoPlaces(b, i, j);
      }
    }
  }

  lemma EntryOrder()
    ensures TotalPreorder(EntryLeq)
  {
    LeqIsTotalPreorder();
    assert forall x: FileEntry, y: FileEntry :: Leq(x.path, y.path) || Leq(y.path, x.path);
  }

  /** The manifest lists its entries in strictly ascending order exactly when no path was written twice. */
  lemma StrictlySorted(ws: seq<Leaf>, hash: string -> string)
    ensures var files := Sort(EntryLeq, EntriesOf(ws, hash));
            (forall i, j | 0 <= i < j < |files| :: Less(files[i].path, files[j].path)) <==> DistinctPaths(ws)
    ensures multiset(Sort(EntryLeq, EntriesOf(ws, hash))) == multiset(EntriesOf(ws, hash))
  {
    var es := EntriesOf(ws, hash);
    var files := Sort(EntryLeq, es);
    EntryOrder();
    SortSpec(EntryLeq, es);
    EntriesDistinct(ws, hash);
    hide Sort, TotalPreorder, Leq;
    if DistinctPaths(ws) {
      DistinctCarriesOver(es, files);
      forall i, j | 0 <= i < j < |files| ensures Less(files[i].path, files[j].path) {
        assert EntryLeq(files[i], files[j]);
      }
    }
    if forall i, j | 0 <= i < j < |files| :: Less(files[i].path, files[j].path) {
      assert DistinctEntries(files);
      DistinctCarriesOver(files, es);
    }
  }

  lemma EntryInFiles(ws: seq<Leaf>, hash: string -> string, p: string)
    ensures p in EntryPaths(Sort(EntryLeq, EntriesOf(ws, hash))) <==> p in FilesOf(ws)
  {
    var es := EntriesOf(ws, hash);
    var files := Sort(EntryLeq, es);
    EntryOrder();
    SortSpec(EntryLeq, es);
    FilesMember(ws, p);
    hide Sort, TotalPreorder, FilesOf;
    PathsOfPermutation(es, files, p);
    PathsOfPermutation(files, es, p);
    if i :| 0 <= i < |ws| && ws[i].path == p {
      assert EntryPaths(es)[i] == p;
    }
  }

  lemma PathsOfPermutation(a: seq<FileEntry>, b: seq<FileEntry>, p: string)
    requires multiset(a) == multiset(b)
    ensures p in EntryPaths(a) ==> p in EntryPaths(b)
  {
    if i :| 0 <= i < |a| && EntryPaths(a)[i] == p {
      assert a[i] in multiset(b);
      var k :| 0 <= k < |b| && b[k] == a[i];
      assert EntryPaths(b)[k] == p;
    }
  }

  lemma EntryHash(ws: seq<Leaf>, hash: string -> string, k: nat)
    requires DistinctPaths(ws) && k < |Sort(EntryLeq, EntriesOf(ws, hash))|
    ensures var e := Sort(EntryLeq, EntriesOf(ws, hash))[k];
            e.path in FilesOf(ws) && e.hash == hash(FilesOf(ws)[e.path])
  {
    var es := EntriesOf(ws, hash);
    var files := Sort(EntryLeq, es);
    EntryOrder();
    SortSpec(EntryLeq, es);
    hide Sort, TotalPreorder, FilesOf;
    assert files[k] in multiset(es);
    var i :| 0 <= i < |es| && es[i] == files[k];
    FileText(ws, i);
  }

  /**
   Manifest agreement: the manifest describes the destination exactly (strictly sorted paths, file count, every
   file but the manifest itself, and the hash of each file present) if and only if the source includes neither
   the mode's generated file nor a file with the manifest's name.
   */
  lemma ManifestAgrees(plan: Plan, source: map<string, string>, g: Generated, hash: string -> string,
                       render: ExportManifest -> string)
    requires forall p | p in plan.classes.included :: p in source
    requires Distinct(plan.classes.included)
    ensures var ws := Writes(plan, source, g);
            var m := ManifestOf(plan, ws, hash);
            Agreement(FilesOf(ws)[MANIFEST := render(m)], m, hash) <==>
            ModeFile(plan.mode) !in plan.classes.included && MANIFEST !in plan.classes.included
  {
    var ws := Writes(plan, source, g);
    WritesDistinct(plan, source, g);
    ManifestNotWritten(plan, source, g);
    AgreementOfWrites(plan, ws, hash, render);
  }

  lemma ManifestNotWritten(plan: Plan, source: map<string, string>, g: Generated)
    requires forall p | p in plan.classes.included :: p in source
    ensures MANIFEST in FilesOf(Writes(plan, source, g)) <==> MANIFEST in plan.classes.included
  {
    var included := plan.classes.included;
    var a, b := Copied(included, source), GeneratedWrites(included, plan.mode, g);
    NamesDiffer();
    GeneratedDistinct(included, plan.mode, g);
    FilesMember(a + b, MANIFEST);
    if MANIFEST in included {
      var l := Leaf(MANIFEST, source[MANIFEST]);
      CopiedMember(included, source, l);
      var i :| 0 <= i < |a| && a[i] == l;
      assert (a + b)[i].path == MANIFEST;
    }
    forall i | 0 <= i < |b| ensures b[i].path != MANIFEST {
      assert b[i] in b;
    }
    if i :| 0 <= i < |a + b| && (a + b)[i].path == MANIFEST {
      assert (a + b)[i] == a[i] && a[i] in a;
      CopiedMember(included, source, a[i]);
    }
  }

  lemma AgreementOfWrites(plan: Plan, ws: seq<Leaf>, hash: string -> string, render: ExportManifest -> string)
    ensures var m := ManifestOf(plan, ws, hash);
            Agreement(FilesOf(ws)[MANIFEST := render(m)], m, hash) <==> DistinctPaths(ws) && MANIFEST !in FilesOf(ws)
  {
    var m := ManifestOf(plan, ws, hash);
    StrictlySorted(ws, hash);
    forall p ensures p in m.paths <==> p in FilesOf(ws) {
      EntryInFiles(ws, hash, p);
    }
    if DistinctPaths(ws) && MANIFEST !in FilesOf(ws) {
      HashesAgree(plan, ws, hash, render(m));
    }
    hide Sort, FilesOf, Less, EntriesOf, DistinctPaths;
  }

  lemma HashesAgree(plan: Plan, ws: seq<Leaf>, hash: string -> string, json: string)
    requires DistinctPaths(ws) && MANIFEST !in FilesOf(ws)
    ensures var files, dest := ManifestOf(plan, ws, hash).files, FilesOf(ws)[MANIFEST := json];
            forall k | 0 <= k < |files| :: files[k].path in dest && files[k].hash == hash(dest[files[k].path])
  {
    hide Sort, FilesOf, EntriesOf, DistinctPaths;
    var files := ManifestOf(plan, ws, hash).files;
    forall k | 0 <= k < |files|
      ensures files[k].path in FilesOf(ws) && files[k].hash == hash(FilesOf(ws)[files[k].path])
    {
      EntryHash(ws, hash, k);
    }
  }

  // ----- When the source includes the mode's own file -----

  lemma {:induction false} FilesCount(ws: seq<Leaf>)
    requires DistinctPaths(ws)
    ensures |FilesOf(ws)| == |ws|
    decreases |ws|
  {
    if ws != [] {
      var n := |ws| - 1;
      FilesCount(ws[..n]);
      FilesMember(ws[..n], ws[n].path);
      assert forall i | 0 <= i < n :: ws[..n][i].path != ws[n].path;
    }
  }

  lemma {:induction false} PathCounts(ls: seq<Leaf>, p: string)
    requires DistinctPaths(ls)
    ensures multiset(Paths(ls))[p] == if p in FilesOf(ls) then 1 else 0
    decreases |ls|
  {
    if ls != [] {
      var n := |ls| - 1;
      PathCounts(ls[..n], p);
      FilesMember(ls[..n], ls[n].path);
      assert Paths(ls) == Paths(ls[..n]) + [ls[n].path];
      assert forall i | 0 <= i < n :: ls[..n][i].path != ls[n].path;
    }
  }

  /** The manifest lists the path of every write, with multiplicity. */
  lemma {:induction false} ManifestPaths(plan: Plan, ws: seq<Leaf>, hash: string -> string)
    ensures var m := ManifestOf(plan, ws, hash);
            multiset(m.paths) == multiset(Paths(ws)) && m.fileCount == |ws| && m.paths == EntryPaths(m.files)
    ensures multiset(ManifestOf(plan, ws, hash).files) == multiset(EntriesOf(ws, hash))
  {
    var es := EntriesOf(ws, hash);
    EntryOrder();
    SortSpec(EntryLeq, es);
    hide Sort, TotalPreorder, Leq;
    MapPermutation(EntryPath, Sort(EntryLeq, es), es);
    assert EntryPaths(es) == Paths(ws);
  }

  /** All writes but the last, which is the one to the mode's own file. */
  function FirstWrites(plan: Plan, source: map<string, string>, g: Generated): (ws: seq<Leaf>)
    requires forall p | p in plan.classes.included :: p in source
  {
    var all := Writes(plan, source, g);
    all[..|all| - 1]
  }

  lemma {:induction false} LastWrite(plan: Plan, source: map<string, string>, g: Generated)
    requires forall p | p in plan.classes.included :: p in source
    ensures Writes(plan, source, g) == FirstWrites(plan, source, g) + [Leaf(ModeFile(plan.mode), g.modeText)]
  {
    var included := plan.classes.included;
    var a, b := Copied(included, source), GeneratedWrites(included, plan.mode, g);
    hide Copied, ModeFile;
    var all := a + b;
    assert all[|all| - 1] == b[|b| - 1] == Leaf(ModeFile(plan.mode), g.modeText);
  }

  lemma {:induction false} FirstWritesDistinct(plan: Plan, source: map<string, string>, g: Generated)
    requires forall p | p in plan.classes.included :: p in source
    requires Distinct(plan.classes.included)
    ensures DistinctPaths(FirstWrites(plan, source, g))
  {
    var included := plan.classes.included;
    var a, b := Copied(included, source), GeneratedWrites(included, plan.mode, g);
    var c := b[..|b| - 1];
    CopiedDistinct(included, source);
    GeneratedDistinct(included, plan.mode, g);
    NamesDiffer();
    assert FirstWrites(plan, source, g) == a + c;
    forall l, k | l in a && k in c ensures l.path != k.path {
      CopiedMember(included, source, l);
      NotTheModeFile(included, plan.mode, g, k);
    }
    assert DistinctPaths(c);
    hide Copied, GeneratedWrites, ModeFile;
    DistinctAppend(a, c);
  }

  lemma NotTheModeFile(included: seq<string>, mode: Mode, g: Generated, k: Leaf)
    requires var b := GeneratedWrites(included, mode, g); k in b[..|b| - 1]
    ensures Rewritten(k.path) || (k.path == HISTORY && HISTORY !in included)
  {
  }

  lemma {:induction false} IncludedFirst(plan: Plan, source: map<string, string>, g: Generated)
    requires forall p | p in plan.classes.included :: p in source
    requires ModeFile(plan.mode) in plan.classes.included
    ensures var rel := ModeFile(plan.mode); Leaf(rel, source[rel]) in FirstWrites(plan, source, g)
  {
    var included, rel := plan.classes.included, ModeFile(plan.mode);
    var a, b := Copied(included, source), GeneratedWrites(included, plan.mode, g);
    NamesDiffer();
    CopiedMember(included, source, Leaf(rel, source[rel]));
    hide Copied, GeneratedWrites, ModeFile;
    assert FirstWrites(plan, source, g) == a + b[..|b| - 1];
  }

  /**
   If the source includes the mode's own file, the manifest lists that path exactly twice, once with the hash of
   the source's text and once with that of the text that is really there, every other path at most once, and its
   file count exceeds the number of files beside the manifest by exactly one.
   */
  lemma {:induction false} ModeFileListedTwice(plan: Plan, source: map<string, string>, g: Generated,
                                               hash: string -> string, json: string)
    requires forall p | p in plan.classes.included :: p in source
    requires Distinct(plan.classes.included)
    requires ModeFile(plan.mode) in plan.classes.included
    ensures var ws, rel := Writes(plan, source, g), ModeFile(plan.mode);
            var m, dest := ManifestOf(plan, ws, hash), FilesOf(ws)[MANIFEST := json];
            && multiset(m.paths)[rel] == 2
            && (forall p | p != rel :: multiset(m.paths)[p] <= 1)
            && FileEntry(rel, hash(source[rel])) in m.files
            && FileEntry(rel, hash(g.modeText)) in m.files
            && rel in dest && dest[rel] == g.modeText
            && (MANIFEST !in plan.classes.included ==> m.fileCount == |dest - {MANIFEST}| + 1)
  {
    var ws, rel := Writes(plan, source, g), ModeFile(plan.mode);
    var first := FirstWrites(plan, source, g);
    var last := Leaf(rel, g.modeText);
    LastWrite(plan, source, g);
    FirstWritesDistinct(plan, source, g);
    IncludedFirst(plan, source, g);
    NamesDiffer();
    ManifestPaths(plan, ws, hash);
    ManifestNotWritten(plan, source, g);
    hide Writes, FirstWrites, ManifestOf, ModeFile;
    TwoWrites(first, last, Leaf(rel, source[rel]), hash);
    SameEntries(ManifestOf(plan, ws, hash).files, EntriesOf(ws, hash));
    WithoutKey(FilesOf(ws), MANIFEST, json);
  }

  lemma SameEntries(a: seq<FileEntry>, b: seq<FileEntry>)
    requires multiset(a) == multiset(b)
    ensures forall e :: e in a <==> e in b
  {
    assert forall e :: e in a <==> e in multiset(a);
  }

  lemma WithoutKey(m: map<string, string>, k: string, v: string)
    ensures k !in m ==> m[k := v] - {k} == m
  {
  }

  lemma {:induction false} TwoPaths(first: seq<Leaf>, last: Leaf)
    requires DistinctPaths(first) && last.path in FilesOf(first)
    ensures multiset(Paths(first + [last]))[last.path] == 2
    ensures forall p | p != last.path :: multiset(Paths(first + [last]))[p] <= 1
  {
    PathsAppend(first, [last]);
    assert Paths([last]) == [last.path];
    forall p ensures multiset(Paths(first))[p] == if p in FilesOf(first) then 1 else 0 {
      PathCounts(first, p);
    }
    hide Paths, FilesOf, DistinctPaths;
  }

  /** A path that has been written already is written again. */
  lemma {:induction false} TwoWrites(first: seq<Leaf>, last: Leaf, earlier: Leaf, hash: string -> string)
    requires DistinctPaths(first) && earlier in first && earlier.path == last.path
    ensures var ws := first + [last];
            && multiset(Paths(ws))[last.path] == 2
            && (forall p | p != last.path :: multiset(Paths(ws))[p] <= 1)
            && FileEntry(earlier.path, hash(earlier.text)) in EntriesOf(ws, hash)
            && FileEntry(last.path, hash(last.text)) in EntriesOf(ws, hash)
            && last.path in FilesOf(ws) && FilesOf(ws)[last.path] == last.text
            && |ws| == |FilesOf(ws)| + 1
  {
    var i :| 0 <= i < |first| && first[i] == earlier;
    WriteSnoc(first, last, hash);
    FilesCount(first);
    FileText(first, i);
    TwoPaths(first, last);
    assert EntriesOf(first, hash)[i] == FileEntry(earlier.path, hash(earlier.text));
    hide FilesOf, EntriesOf, Paths, DistinctPaths;
  }

  /** So it is for a final export whose source has a licence: one file too many, and no agreement. */
  lemma {:induction false} LicenseListedTwice(plan: Plan, source: map<string, string>, g: Generated,
                                              hash: string -> string, render: ExportManifest -> string)
    requires plan.mode == Final && plan.classes.included == [LICENSE] && LICENSE in source
    ensures var ws := Writes(plan, source, g);
            var m := ManifestOf(plan, ws, hash);
            && m.fileCount == 4 && |FilesOf(ws)| == 3
            && !Agreement(FilesOf(ws)[MANIFEST := render(m)], m, hash)
  {
    var ws := Writes(plan, source, g);
    var m := ManifestOf(plan, ws, hash);
    NamesDiffer();
    assert MANIFEST !in plan.classes.included by { assert |MANIFEST| != |LICENSE|; }
    ModeFileListedTwice(plan, source, g, hash, render(m));
    ManifestAgrees(plan, source, g, hash, render);
    ManifestNotWritten(plan, source, g);
    ManifestPaths(plan, ws, hash);
    LicenseWrites(plan, source, g);
    WithoutKey(FilesOf(ws), MANIFEST, render(m));
    hide Agreement, ManifestOf, Writes, FilesOf;
  }

  lemma LicenseWrites(plan: Plan, source: map<string, string>, g: Generated)
    requires plan.mode == Final && plan.classes.included == [LICENSE] && LICENSE in source
    ensures |Writes(plan, source, g)| == 4
  {
    assert |LICENSE| == 7 && |PACKAGE_JSON| == 12 && |PACKAGE_LOCK| == 17 && |HISTORY| == 23;
    assert Copied([], source) == [];
    assert [LICENSE][..0] == [];
    assert Copied([LICENSE], source) == Copied([LICENSE][..0], source) + [Leaf(LICENSE, source[LICENSE])];
  }

  // ----- The texts in the destination -----

  lemma {:induction false} FileOfAppend(a: seq<Leaf>, b: seq<Leaf>, p: string)
    ensures p in FilesOf(a + b) <==> p in FilesOf(a) || p in FilesOf(b)
    ensures p in FilesOf(a + b) ==> FilesOf(a + b)[p] == if p in FilesOf(b) then FilesOf(b)[p] else FilesOf(a)[p]
    decreases |b|
  {
    if b == [] {
      assert a + b == a;
    } else {
      var n := |b| - 1;
      assert (a + b)[..|a + b| - 1] == a + b[..n];
      FileOfAppend(a, b[..n], p);
    }
  }

  lemma {:induction false} CopiedFile(included: seq<string>, source: map<string, string>, p: string)
    requires forall q | q in included :: q in source
    ensures p in FilesOf(Copied(included, source)) <==> p in included && !Rewritten(p)
    ensures p in FilesOf(Copied(included, source)) ==> FilesOf(Copied(included, source))[p] == source[p]
    decreases |included|
  {
    hide Rewritten;
    if included != [] {
      var n := |included| - 1;
      CopiedFile(included[..n], source, p);
      InLonger(included, p);
      CopiedSnoc(included, source, n);
      assert included[..n + 1] == included;
      if !Rewritten(included[n]) {
        WriteSnoc(Copied(included[..n], source), Leaf(included[n], source[included[n]]), x => x);
      }
    }
  }

  lemma GeneratedFile(included: seq<string>, mode: Mode, g: Generated, p: string)
    ensures p in FilesOf(GeneratedWrites(included, mode, g)) <==>
            || p == PACKAGE_JSON || (p == PACKAGE_LOCK && PACKAGE_LOCK in included)
            || (p == HISTORY && HISTORY !in included) || p == ModeFile(mode)
  {
    var ws := GeneratedWrites(included, mode, g);
    FilesMember(ws, p);
    hide ModeFile, FilesOf;
    assert |ws| >= 2 && ws[0].path == PACKAGE_JSON && ws[|ws| - 1].path == ModeFile(mode);
    if PACKAGE_LOCK in included {
      assert ws[1].path == PACKAGE_LOCK;
    }
    if HISTORY !in included {
      assert ws[|ws| - 2].path == HISTORY;
    }
  }

  lemma {:induction false} GeneratedText(included: seq<string>, mode: Mode, g: Generated)
    ensures var files := FilesOf(GeneratedWrites(included, mode, g));
            && PACKAGE_JSON in files && files[PACKAGE_JSON] == g.packageJson
            && (PACKAGE_LOCK in included ==> PACKAGE_LOCK in files && files[PACKAGE_LOCK] == g.lockJson)
            && (HISTORY !in included ==> HISTORY in files && files[HISTORY] == g.history)
            && ModeFile(mode) in files && files[ModeFile(mode)] == g.modeText
  {
    var ws := GeneratedWrites(included, mode, g);
    GeneratedDistinct(included, mode, g);
    hide ModeFile, FilesOf;
    assert |ws| >= 2 && ws[0] == Leaf(PACKAGE_JSON, g.packageJson) && ws[|ws| - 1] == Leaf(ModeFile(mode), g.modeText);
    FileText(ws, 0);
    FileText(ws, |ws| - 1);
    if PACKAGE_LOCK in included {
      assert ws[1] == Leaf(PACKAGE_LOCK, g.lockJson);
      FileText(ws, 1);
    }
    if HISTORY !in included {
      assert ws[|ws| - 2] == Leaf(HISTORY, g.history);
      FileText(ws, |ws| - 2);
    }
  }

  /** The name of the file that each mode adds. */
  ghost predicate IsModeFile(p: string, mode: Mode) {
    if mode.Review? then p == "PRE-RELEASE-NOTICE.md" else p == "LICENSE"
  }

  /** Which text stands at a path of the destination, if there is a file; `manifest` is the printed manifest. */
  ghost function TextAt(included: seq<string>, mode: Mode, source: map<string, string>, g: Generated, manifest: string,
                        p: string): Option<string>
    requires forall q | q in included :: q in source
  {
    if p == "PUBLIC-EXPORT-MANIFEST.json" then Some(manifest)
    else if IsModeFile(p, mode) then Some(g.modeText)
    else if p == "package.json" then Some(g.packageJson)
    else if p == "package-lock.json" && p in included then Some(g.lockJson)
    else if p in included then Some(source[p])
    else if p == "docs/project-history.md" then Some(g.history)
    else None
  }

  ghost predicate HoldsAt(dest: map<string, string>, p: string, text: Option<string>) {
    (p in dest <==> text.Some?) && (p in dest ==> dest[p] == text.value)
  }

  lemma {:induction false} WrittenTextAt(plan: Plan, source: map<string, string>, g: Generated, manifest: string,
                                         p: string)
    requires forall q | q in plan.classes.included :: q in source
    ensures HoldsAt(FilesOf(Writes(plan, source, g))[MANIFEST := manifest], p,
                    TextAt(plan.classes.included, plan.mode, source, g, manifest, p))
  {
    var included := plan.classes.included;
    NamesDiffer();
    CopiedFile(included, source, p);
    GeneratedFile(included, plan.mode, g, p);
    GeneratedText(included, plan.mode, g);
    FileOfAppend(Copied(included, source), GeneratedWrites(included, plan.mode, g), p);
    hide Copied, GeneratedWrites, FilesOf;
  }

  lemma WrittenTexts(plan: Plan, source: map<string, string>, g: Generated, manifest: string)
    requires forall q | q in plan.classes.included :: q in source
    ensures forall p :: HoldsAt(FilesOf(Writes(plan, source, g))[MANIFEST := manifest], p,
                                TextAt(plan.classes.included, plan.mode, source, g, manifest, p))
  {
    forall p ensures HoldsAt(FilesOf(Writes(plan, source, g))[MANIFEST := manifest], p,
                             TextAt(plan.classes.included, plan.mode, source, g, manifest, p))
    {
      WrittenTextAt(plan, source, g, manifest, p);
    }
  }

  /** The entries of the manifest that do not speak of files. */
  lemma ManifestMeaning(plan: Plan, ws: seq<Leaf>, hash: string -> string, c: string)
    ensures var m := ManifestOf(plan, ws, hash);
            && m.canonicalCommit == plan.commit && m.mode == plan.mode && m.droppedCount == |plan.classes.dropped|
            && CountOf(m.excludedCategorySummary.vals, c) == multiset(Categories(plan.classes.excluded))[c]
  {
    CountsAreRight(plan.classes.excluded, c);
  }
}
