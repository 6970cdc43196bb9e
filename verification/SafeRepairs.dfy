/** The safe repairs of activation: directories, the .gitignore block and the activation contract. */
module SafeRepairs {
  import opened Text
  import opened Repository

  datatype Status = Applied | Blocked | NotNeeded
  datatype RepairAction = RepairAction(
    id: string,
    title: string,
    status: Status,
    path: Option<Path>,
    reason: Option<string>)

  const AVORELO := ".avorelo"

  const REPAIR_DIRS: seq<Path> :=
    [[AVORELO], [AVORELO, "activation"], [AVORELO, "receipts"], [AVORELO, "events"],
     [AVORELO, "internal"], [AVORELO, "dashboard"], [AVORELO, "run-entry"], [AVORELO, "site"]]

  const RUN_ENTRY_DIR: Path := [AVORELO, "run-entry"]
  const GITIGNORE: Path := [".gitignore"]
  const CONTRACT: Path := [AVORELO, "run-entry", "activation-contract.json"]

  /** `d.replace(/[/.]/g, "_")` of the joined path */
  function DirId(d: Path): string {
    var name := Join(d, '/');
    "create_dir_" + seq(|name|, i requires 0 <= i < |name| => if name[i] == '/' || name[i] == '.' then '_' else name[i])
  }

  /** The record of a call that failed has the error instead of the path. */
  function FileRepair(id: string, title: string, ok: bool, path: Path): RepairAction {
    if ok then RepairAction(id, title, Applied, Some(path), None)
    else RepairAction(id, title, Blocked, None, Some(IO_ERROR))
  }

  function NothingToDo(id: string, title: string, path: Path, reason: Option<string>): RepairAction {
    RepairAction(id, title, NotNeeded, Some(path), reason)
  }

  // ----- Directories -----

  function DirRepair(d: Path, status: Status): RepairAction {
    RepairAction(DirId(d), "Create " + Join(d, '/'), status, Some(d),
                 if status == Blocked then Some(IO_ERROR) else None)
  }

  function DirStatus(w: Repo, d: Path, fails: set<Path>): Status {
    if d in w.dirs then NotNeeded else if d in fails then Blocked else Applied
  }

  function AfterDirs(w: Repo, ds: seq<Path>, fails: set<Path>): Repo
    decreases |ds|
  {
    if ds == [] then w
    else
      var n := |ds| - 1;
      var w' := AfterDirs(w, ds[..n], fails);
      if ds[n] in w'.dirs then w' else AfterMkdir(w', ds[n], fails)
  }

  function DirRepairs(w: Repo, ds: seq<Path>, fails: set<Path>): seq<RepairAction>
    decreases |ds|
  {
    if ds == [] then []
    else
      var n := |ds| - 1;
      DirRepairs(w, ds[..n], fails) +
      [DirRepair(ds[n], DirStatus(AfterDirs(w, ds[..n], fails), ds[n], fails))]
  }

  // ----- The .gitignore block -----

  const GITIGNORE_MARKER_START := "# >>> Avorelo (managed block \U{2014} do not edit) >>>"
  const GITIGNORE_MARKER_END := "# <<< Avorelo <<<"
  const GITIGNORE_BLOCK := GITIGNORE_MARKER_START + "\n.avorelo/\n" + GITIGNORE_MARKER_END

  predicate GitignoreDone(text: string) {
    Contains(text, GITIGNORE_MARKER_START) || Contains(text, ".avorelo/") || Contains(text, AVORELO)
  }

  /** The repaired text, or `None` when nothing has to be written. */
  function GitignoreText(file: Option<string>): Option<string> {
    match file
    case None => Some(GITIGNORE_BLOCK + "\n")
    case Some(text) => if GitignoreDone(text) then None else Some(text + ("\n" + GITIGNORE_BLOCK + "\n"))
  }

  function AfterGitignore(w: Repo, fails: set<Path>): Repo {
    match GitignoreText(FileAt(w, GITIGNORE))
    case None => w
    case Some(text) => AfterWrite(w, GITIGNORE, text, fails)
  }

  function WriteStatus(w: Repo, p: Path, needed: bool, fails: set<Path>): Status
    requires p != []
  {
    if !needed then NotNeeded else if CanWrite(w, p, fails) then Applied else Blocked
  }

  const GITIGNORE_CREATE := "gitignore_create"
  const GITIGNORE_UPDATE := "gitignore_block"
  const ALREADY_IGNORED := ".avorelo already in .gitignore"

  function GitignoreRepair(w: Repo, fails: set<Path>): (r: RepairAction)
    ensures r.status == WriteStatus(w, GITIGNORE, GitignoreText(FileAt(w, GITIGNORE)).Some?, fails)
  {
    var ok := CanWrite(w, GITIGNORE, fails);
    match FileAt(w, GITIGNORE)
    case None =>
      FileRepair(GITIGNORE_CREATE, if ok then "Create .gitignore with Avorelo block" else "Create .gitignore",
                 ok, GITIGNORE)
    case Some(text) =>
      if Contains(text, GITIGNORE_MARKER_START)
      then NothingToDo(GITIGNORE_UPDATE, "Avorelo .gitignore block", GITIGNORE, None)
      else if GitignoreDone(text)
        then NothingToDo(GITIGNORE_UPDATE, "Avorelo .gitignore entry", GITIGNORE, Some(ALREADY_IGNORED))
        else FileRepair(GITIGNORE_UPDATE, "Add Avorelo .gitignore block", ok, GITIGNORE)
  }

  // ----- The activation contract -----

  function AfterContract(w: Repo, contract: string, fails: set<Path>): Repo {
    if CONTRACT in w.files then w else AfterWrite(w, CONTRACT, contract, fails)
  }

  const CONTRACT_ID := "activation_contract"

  function ContractRepair(w: Repo, fails: set<Path>): (r: RepairAction)
    ensures r.status == WriteStatus(w, CONTRACT, CONTRACT !in w.files, fails)
  {
    if CONTRACT in w.files then NothingToDo(CONTRACT_ID, "Activation contract", CONTRACT, None)
    else FileRepair(CONTRACT_ID, "Create activation contract", CanWrite(w, CONTRACT, fails), CONTRACT)
  }

  // ----- All repairs -----

  /** `contract` is the text with the time stamp of this run. */
  function AfterRepairs(w: Repo, contract: string, fails: set<Path>): Repo {
    AfterContract(AfterGitignore(AfterDirs(w, REPAIR_DIRS, fails), fails), contract, fails)
  }

  function Repairs(w: Repo, fails: set<Path>): seq<RepairAction> {
    var w1 := AfterDirs(w, REPAIR_DIRS, fails);
    DirRepairs(w, REPAIR_DIRS, fails) +
    [GitignoreRepair(w1, fails)] + [ContractRepair(AfterGitignore(w1, fails), fails)]
  }

  method RunSafeRepairs(ws: Workspace, contract: string, fails: set<Path>) returns (repairs: seq<RepairAction>)
    modifies ws
    ensures ws.State() == AfterRepairs(old(ws.State()), contract, fails)
    ensures repairs == Repairs(old(ws.State()), fails)
  {
    repairs := [];
    var dirs := REPAIR_DIRS;
    for i := 0 to |dirs|
      invariant ws.State() == AfterDirs(old(ws.State()), dirs[..i], fails)
      invariant repairs == DirRepairs(old(ws.State()), dirs[..i], fails)
    {
      assert dirs[..i + 1][..i] == dirs[..i];
      if dirs[i] !in ws.dirs {
        var ok := ws.Mkdir(dirs[i], fails);
        repairs := repairs + [DirRepair(dirs[i], if ok then Applied else Blocked)];
      } else {
        repairs := repairs + [DirRepair(dirs[i], NotNeeded)];
      }
    }
    assert dirs[..|dirs|] == dirs;
    var gitignore := RepairGitignore(ws, fails);
    repairs := repairs + [gitignore];
    if CONTRACT !in ws.files {
      var ok := ws.Write(CONTRACT, contract, fails);
      repairs := repairs + [FileRepair(CONTRACT_ID, "Create activation contract", ok, CONTRACT)];
    } else {
      repairs := repairs + [NothingToDo(CONTRACT_ID, "Activation contract", CONTRACT, None)];
    }
  }

  method RepairGitignore(ws: Workspace, fails: set<Path>) returns (r: RepairAction)
    modifies ws
    ensures ws.State() == AfterGitignore(old(ws.State()), fails)
    ensures r == GitignoreRepair(old(ws.State()), fails)
  {
    if GITIGNORE !in ws.files {
      var ok := ws.Write(GITIGNORE, GITIGNORE_BLOCK + "\n", fails);
      if !ok {
        return RepairAction(GITIGNORE_CREATE, "Create .gitignore", Blocked, None, Some(IO_ERROR));
      }
      return RepairAction(GITIGNORE_CREATE, "Create .gitignore with Avorelo block", Applied, Some(GITIGNORE), None);
    }
    var content := ws.files[GITIGNORE];
    if Contains(content, GITIGNORE_MARKER_START) {
      return NothingToDo(GITIGNORE_UPDATE, "Avorelo .gitignore block", GITIGNORE, None);
    }
    if Contains(content, ".avorelo/") || Contains(content, ".avorelo") {
      return NothingToDo(GITIGNORE_UPDATE, "Avorelo .gitignore entry", GITIGNORE, Some(ALREADY_IGNORED));
    }
    var ok := ws.Write(GITIGNORE, content + ("\n" + GITIGNORE_BLOCK + "\n"), fails);
    r := FileRepair(GITIGNORE_UPDATE, "Add Avorelo .gitignore block", ok, GITIGNORE);
  }

  // ----- What the repairs amount to -----

  /** The directories that can be made, with their ancestors. */
  function MadeDirs(ds: seq<Path>, fails: set<Path>): set<Path>
    decreases |ds|
  {
    if ds == [] then {}
    else
      var n := |ds| - 1;
      MadeDirs(ds[..n], fails) + if ds[n] in fails then {} else Chain(ds[n])
  }

  lemma {:induction false} MadeDirsMember(ds: seq<Path>, fails: set<Path>, d: Path)
    ensures d in MadeDirs(ds, fails) <==> exists i :: 0 <= i < |ds| && ds[i] !in fails && d <= ds[i]
    decreases |ds|
  {
    if ds != [] {
      var n := |ds| - 1;
      MadeDirsMember(ds[..n], fails, d);
      assert forall i | 0 <= i < n :: ds[..n][i] == ds[i];
    }
  }

  lemma ClosedUnion(a: set<Path>, b: set<Path>)
    requires Closed(a) && Closed(b)
    ensures Closed(a + b)
  {
    forall d | d in a + b ensures Chain(d) <= a + b {
      if d in a {
        assert Chain(d) <= a;
      } else {
        assert Chain(d) <= b;
      }
    }
  }

  lemma {:induction false} AfterDirsIs(w: Repo, ds: seq<Path>, fails: set<Path>)
    requires Closed(w.dirs)
    ensures AfterDirs(w, ds, fails) == w.(dirs := w.dirs + MadeDirs(ds, fails))
    ensures Closed(AfterDirs(w, ds, fails).dirs)
    decreases |ds|
  {
    hide Chain;
    if ds == [] {
      assert w.dirs + {} == w.dirs;
    } else {
      var n := |ds| - 1;
      AfterDirsIs(w, ds[..n], fails);
      var before := AfterDirs(w, ds[..n], fails).dirs;
      if ds[n] in before {
        assert Chain(ds[n]) <= before;
      } else {
        ChainClosed(ds[n]);
        ClosedUnion(before, Chain(ds[n]));
      }
      assert w.dirs + MadeDirs(ds, fails) == before + if ds[n] in fails then {} else Chain(ds[n]);
    }
  }

  lemma {:induction false} MadeDirsMonotone(ds: seq<Path>, fails: set<Path>)
    ensures MadeDirs(ds, fails) <= MadeDirs(ds, {})
    ensures MadeDirs(ds, {}) + MadeDirs(ds, fails) == MadeDirs(ds, {})
    decreases |ds|
  {
    if ds != [] {
      MadeDirsMonotone(ds[..|ds| - 1], fails);
    }
  }

  /** The repaired text needs no repair, and the old text is a prefix of it. */
  lemma GitignoreOnce(file: Option<string>)
    ensures GitignoreText(file).Some? ==> GitignoreText(GitignoreText(file)) == None
    ensures GitignoreText(file).Some? && file.Some? ==> file.value <= GitignoreText(file).value
  {
    var pre := match file case None => "" case Some(t) => t + "\n";
    if GitignoreText(file).Some? {
      var text := GitignoreText(file).value;
      assert text == pre + (GITIGNORE_MARKER_START + ("\n.avorelo/\n" + GITIGNORE_MARKER_END + "\n"));
      OccursInside(pre, GITIGNORE_MARKER_START, "\n.avorelo/\n" + GITIGNORE_MARKER_END + "\n");
    }
  }

  lemma {:induction false} LaterLine(head: string, tail: string, line: string)
    requires '\n' !in head && line in Split(tail, '\n')
    ensures line in Split(head + ['\n'] + tail, '\n')
  {
    SplitCons(head, '\n', tail);
    hide Split;
  }

  lemma FirstLine(a: string) returns (head: string, rest: string)
    requires a != [] && a[|a| - 1] == '\n'
    ensures '\n' !in head && a == head + ['\n'] + rest && |rest| < |a|
    ensures rest == [] || rest[|rest| - 1] == '\n'
  {
    var k := FirstIndex(a, '\n');
    head, rest := a[..k], a[k + 1..];
  }

  /** A line that stands in a text between line breaks is one of its lines. */
  lemma {:induction false} LineInside(a: string, line: string, b: string)
    requires '\n' !in line && (a == [] || a[|a| - 1] == '\n')
    ensures line in Split(a + (line + ['\n'] + b), '\n')
    decreases |a|
  {
    var tail := line + ['\n'] + b;
    if a == [] {
      assert a + tail == tail;
      SplitCons(line, '\n', b);
    } else {
      var head, rest := FirstLine(a);
      LineInside(rest, line, b);
      hide Split;
      LaterLine(head, rest + tail, line);
      Regroup(head + ['\n'], rest, tail);
    }
  }

  lemma Regroup(a: string, b: string, c: string)
    ensures a + b + c == a + (b + c)
  {
  }

  /** A file that mentions Avorelo, and so needs no repair. */
  ghost predicate MentionsAvorelo(text: string) {
    || (exists before, behind :: text == before + ".avorelo" + behind)
    || (exists before, behind :: text == before + GITIGNORE_MARKER_START + behind)
  }

  lemma {:induction false} ContainsMeaning(s: string, p: string)
    ensures Contains(s, p) <==> exists before, behind :: s == before + p + behind
  {
    if i :| OccursAt(s, p, i) {
      assert s == s[..i] + p + s[i + |p|..];
    }
    if a, b :| s == a + p + b {
      OccursInside(a, p, b);
      assert a + p + b == a + (p + b);
    }
  }

  lemma ShorterContained(text: string)
    ensures Contains(text, ".avorelo/") ==> Contains(text, ".avorelo")
  {
    if i :| OccursAt(text, ".avorelo/", i) {
      assert text[i..i + 8] == text[i..i + 9][..8] == ".avorelo";
      assert OccursAt(text, ".avorelo", i);
    }
  }

  /** A repair is needed exactly for a file that does not mention Avorelo, and then its directory gets a line. */
  lemma {:induction false} GitignoreMeaning(file: Option<string>)
    ensures GitignoreText(file).None? <==> file.Some? && MentionsAvorelo(file.value)
    ensures GitignoreText(file).Some? ==>
              && ".avorelo/" in Split(GitignoreText(file).value, '\n')
              && GitignoreText(file).value ==
                 (match file case None => "" case Some(t) => t + "\n") +
                 (GITIGNORE_MARKER_START + ("\n.avorelo/\n" + (GITIGNORE_MARKER_END + "\n")))
  {
    if file.Some? {
      ContainsMeaning(file.value, ".avorelo");
      ContainsMeaning(file.value, GITIGNORE_MARKER_START);
      ShorterContained(file.value);
    }
    hide Contains;
    if GitignoreText(file).Some? {
      var pre := match file case None => "" case Some(t) => t + "\n";
      RepairedLine(pre);
      RepairedIs(file, pre);
    }
  }

  lemma {:induction false} RepairedIs(file: Option<string>, pre: string)
    requires GitignoreText(file).Some? && pre == match file case None => "" case Some(t) => t + "\n"
    ensures GitignoreText(file).value ==
            pre + (GITIGNORE_MARKER_START + ("\n.avorelo/\n" + (GITIGNORE_MARKER_END + "\n")))
  {
    Grouped(pre, GITIGNORE_MARKER_START, "\n.avorelo/\n", GITIGNORE_MARKER_END);
    RepairedShape(file, pre);
    hide GitignoreText;
  }

  lemma {:induction false} RepairedShape(file: Option<string>, pre: string)
    requires GitignoreText(file).Some? && pre == match file case None => "" case Some(t) => t + "\n"
    ensures GitignoreText(file).value == pre + GITIGNORE_BLOCK + "\n"
  {
    hide GitignoreDone;
    if file.Some? {
      Shape(file.value, GITIGNORE_BLOCK);
    } else {
      NoShape(GITIGNORE_BLOCK);
    }
  }

  lemma Shape(t: string, block: string)
    ensures t + ("\n" + block + "\n") == t + "\n" + block + "\n"
  {
  }

  lemma NoShape(block: string)
    ensures "" + block + "\n" == block + "\n"
  {
  }

  lemma Grouped(pre: string, start: string, middle: string, end: string)
    ensures pre + (start + middle + end) + "\n" == pre + (start + (middle + (end + "\n")))
  {
  }

  lemma {:induction false} LineAfter(pre: string, start: string, line: string, b: string)
    requires '\n' !in line
    ensures line in Split(pre + (start + (['\n'] + line + ['\n'] + b)), '\n')
  {
    LineInside(pre + start + ['\n'], line, b);
    hide Split;
    var t := line + ['\n'] + b;
    Regroup(['\n'], line, ['\n']);
    Regroup(['\n'], line + ['\n'], b);
    Regroup(pre, start, ['\n'] + t);
    Regroup(pre + start, ['\n'], t);
  }

  lemma {:induction false} LineBetween(pre: string, start: string, line: string, middle: string, b: string)
    requires '\n' !in line && middle == ['\n'] + line + ['\n']
    ensures line in Split(pre + (start + (middle + b)), '\n')
  {
    LineAfter(pre, start, line, b);
  }

  lemma {:induction false} RepairedLine(pre: string)
    ensures ".avorelo/" in
              Split(pre + (GITIGNORE_MARKER_START + ("\n.avorelo/\n" + (GITIGNORE_MARKER_END + "\n"))), '\n')
  {
    assert "\n.avorelo/\n" == ['\n'] + ".avorelo/" + ['\n'];
    hide Split;
    LineBetween(pre, GITIGNORE_MARKER_START, ".avorelo/", "\n.avorelo/\n", GITIGNORE_MARKER_END + "\n");
  }

  lemma OccursInside(a: string, p: string, b: string)
    ensures Contains(a + (p + b), p)
  {
    OccursInParts(a, p + b, p, |a|);
    OccursInParts(p, b, p, 0);
    assert p[0..|p|] == p;
    assert OccursAt(a + (p + b), p, |a|);
  }

  lemma PathsDiffer()
    ensures GITIGNORE != CONTRACT
    ensures Parent(GITIGNORE) == [] && Parent(CONTRACT) == RUN_ENTRY_DIR
    ensures RUN_ENTRY_DIR in REPAIR_DIRS
  {
    assert REPAIR_DIRS[6] == RUN_ENTRY_DIR;
  }

  /** After a clean run everything that the repairs need exists. */
  lemma CleanDirs()
    ensures [] in MadeDirs(REPAIR_DIRS, {}) && RUN_ENTRY_DIR in MadeDirs(REPAIR_DIRS, {})
  {
    assert REPAIR_DIRS[6] == RUN_ENTRY_DIR && [] <= RUN_ENTRY_DIR;
    MadeDirsMember(REPAIR_DIRS, {}, []);
    MadeDirsMember(REPAIR_DIRS, {}, RUN_ENTRY_DIR);
  }

  // ----- The files after a run, path by path -----

  /** The .gitignore after a repair that could write. */
  function RepairedGitignore(file: Option<string>): Option<string> {
    if GitignoreText(file).Some? then GitignoreText(file) else file
  }

  lemma GitignoreAt(w: Repo, fails: set<Path>, q: Path)
    ensures AfterGitignore(w, fails).dirs == w.dirs
    ensures FileAt(AfterGitignore(w, fails), q) ==
            if q == GITIGNORE && CanWrite(w, GITIGNORE, fails) then RepairedGitignore(FileAt(w, GITIGNORE))
            else FileAt(w, q)
  {
    hide GitignoreText, AfterWrite, CanWrite;
    var t := GitignoreText(FileAt(w, GITIGNORE));
    if t.Some? {
      WriteAt(w, GITIGNORE, t.value, fails, q);
    }
  }

  lemma ContractAt(w: Repo, contract: string, fails: set<Path>, q: Path)
    ensures AfterContract(w, contract, fails).dirs == w.dirs
    ensures FileAt(AfterContract(w, contract, fails), q) ==
            if q == CONTRACT && CanWrite(w, CONTRACT, fails) && FileAt(w, CONTRACT).None? then Some(contract)
            else FileAt(w, q)
  {
    hide AfterWrite, CanWrite;
    if CONTRACT !in w.files {
      WriteAt(w, CONTRACT, contract, fails, q);
    }
  }

  /** Whether the two files could be written in a run. */
  predicate GitignoreWritable(w: Repo, fails: set<Path>) {
    GITIGNORE !in fails && [] in w.dirs + MadeDirs(REPAIR_DIRS, fails)
  }

  predicate ContractWritable(w: Repo, fails: set<Path>) {
    CONTRACT !in fails && RUN_ENTRY_DIR in w.dirs + MadeDirs(REPAIR_DIRS, fails)
  }

  /** What a run with any failing calls leaves at one path. */
  function RepairedFile(w: Repo, contract: string, fails: set<Path>, q: Path): Option<string> {
    if q == GITIGNORE && GitignoreWritable(w, fails) then RepairedGitignore(FileAt(w, GITIGNORE))
    else if q == CONTRACT && ContractWritable(w, fails) && FileAt(w, CONTRACT).None? then Some(contract)
    else FileAt(w, q)
  }

  lemma RepairedAt(w: Repo, contract: string, fails: set<Path>, q: Path)
    requires Closed(w.dirs)
    ensures AfterRepairs(w, contract, fails).dirs == w.dirs + MadeDirs(REPAIR_DIRS, fails)
    ensures Closed(AfterRepairs(w, contract, fails).dirs)
    ensures FileAt(AfterRepairs(w, contract, fails), q) == RepairedFile(w, contract, fails, q)
  {
    var w1 := AfterDirs(w, REPAIR_DIRS, fails);
    AfterDirsIs(w, REPAIR_DIRS, fails);
    PathsDiffer();
    hide GitignoreText, MadeDirs, AfterDirs, AfterGitignore, AfterContract, RepairedGitignore, Closed;
    GitignoreAt(w1, fails, q);
    GitignoreAt(w1, fails, CONTRACT);
    ContractAt(AfterGitignore(w1, fails), contract, fails, q);
  }

  lemma CleanWritable(w: Repo)
    ensures GitignoreWritable(w, {}) && ContractWritable(w, {})
  {
    CleanDirs();
  }

  lemma RepairedGitignoreTwice(file: Option<string>)
    ensures RepairedGitignore(RepairedGitignore(file)) == RepairedGitignore(file)
    ensures RepairedGitignore(file).Some? && GitignoreText(RepairedGitignore(file)) == None
    ensures file.Some? ==> file.value <= RepairedGitignore(file).value
  {
    GitignoreOnce(file);
  }

  /** A failed attempt and then a clean run give, at each path, what one clean run gives. */
  lemma RetriedFile(w: Repo, contract1: string, contract2: string, fails: set<Path>, q: Path)
    requires Closed(w.dirs)
    ensures var once, r := AfterRepairs(w, contract2, {}), AfterRepairs(w, contract1, fails);
            FileAt(AfterRepairs(r, contract2, {}), q) ==
            if q == CONTRACT && FileAt(w, CONTRACT).None? && ContractWritable(w, fails) then Some(contract1)
            else FileAt(once, q)
  {
    var r := AfterRepairs(w, contract1, fails);
    RepairedAt(w, contract2, {}, q);
    RepairedAt(w, contract1, fails, q);
    RepairedAt(w, contract1, fails, GITIGNORE);
    RepairedAt(w, contract1, fails, CONTRACT);
    RepairedAt(r, contract2, {}, q);
    CleanWritable(w);
    CleanWritable(r);
    RepairedGitignoreTwice(FileAt(w, GITIGNORE));
    PathsDiffer();
    hide AfterRepairs, RepairedGitignore, GitignoreText, FileAt, GitignoreWritable, ContractWritable;
  }

  /**
   Retry convergence: a run in which any calls fail, followed by a clean run, leaves the files and directories
   of one clean run, up to the time stamp in the contract.
   */
  lemma RetryConverges(w: Repo, contract1: string, contract2: string, fails: set<Path>)
    requires Closed(w.dirs)
    ensures var once := AfterRepairs(w, contract2, {});
            var retried := AfterRepairs(AfterRepairs(w, contract1, fails), contract2, {});
            && retried.dirs == once.dirs
            && (forall q :: FileAt(retried, q).Some? <==> FileAt(once, q).Some?)
            && (forall q | q != CONTRACT || contract1 == contract2 :: FileAt(retried, q) == FileAt(once, q))
  {
    var r := AfterRepairs(w, contract1, fails);
    RepairedAt(w, contract1, fails, []);
    RepairedAt(w, contract2, {}, CONTRACT);
    RepairedAt(r, contract2, {}, []);
    CleanWritable(w);
    MadeDirsMonotone(REPAIR_DIRS, fails);
    hide AfterRepairs, RepairedGitignore, FileAt, GitignoreWritable, ContractWritable, MadeDirs;
    forall q
      ensures var once, retried := AfterRepairs(w, contract2, {}), AfterRepairs(r, contract2, {});
              && (FileAt(retried, q).Some? <==> FileAt(once, q).Some?)
              && (q != CONTRACT || contract1 == contract2 ==> FileAt(retried, q) == FileAt(once, q))
    {
      RetriedFile(w, contract1, contract2, fails, q);
    }
  }

  /** The old .gitignore is a prefix of what any run leaves. */
  lemma GitignoreKept(w: Repo, contract: string, fails: set<Path>)
    requires Closed(w.dirs) && GITIGNORE in w.files
    ensures GITIGNORE in AfterRepairs(w, contract, fails).files
    ensures w.files[GITIGNORE] <= AfterRepairs(w, contract, fails).files[GITIGNORE]
  {
    RepairedAt(w, contract, fails, GITIGNORE);
    RepairedGitignoreTwice(FileAt(w, GITIGNORE));
    PathsDiffer();
    hide AfterRepairs, RepairedGitignore, GitignoreText;
    assert FileAt(AfterRepairs(w, contract, fails), GITIGNORE).Some?;
  }

  // ----- A further run applies nothing -----

  lemma {:induction false} AllDirsPresent(w: Repo, ds: seq<Path>, fails: set<Path>)
    requires forall i | 0 <= i < |ds| :: ds[i] in w.dirs
    ensures AfterDirs(w, ds, fails) == w
    ensures forall i | 0 <= i < |DirRepairs(w, ds, fails)| :: DirRepairs(w, ds, fails)[i].status == NotNeeded
    decreases |ds|
  {
    if ds != [] {
      AllDirsPresent(w, ds[..|ds| - 1], fails);
    }
  }

  /** After a clean run a further run needs no repair and changes nothing, even if calls would fail. */
  lemma FurtherRunAppliesNothing(w: Repo, contract: string, later: string, fails: set<Path>)
    requires Closed(w.dirs)
    ensures var once := AfterRepairs(w, contract, {});
            && AfterRepairs(once, later, fails) == once
            && forall i | 0 <= i < |Repairs(once, fails)| :: Repairs(once, fails)[i].status == NotNeeded
  {
    var once := AfterRepairs(w, contract, {});
    RepairedAt(w, contract, {}, GITIGNORE);
    RepairedAt(w, contract, {}, CONTRACT);
    CleanWritable(w);
    RepairedGitignoreTwice(FileAt(w, GITIGNORE));
    PathsDiffer();
    forall i | 0 <= i < |REPAIR_DIRS| ensures REPAIR_DIRS[i] in once.dirs {
      MadeDirsMember(REPAIR_DIRS, {}, REPAIR_DIRS[i]);
    }
    AllDirsPresent(once, REPAIR_DIRS, fails);
    NothingNeeded(once, later, fails);
  }

  lemma NothingNeeded(w: Repo, contract: string, fails: set<Path>)
    requires AfterDirs(w, REPAIR_DIRS, fails) == w
    requires forall i | 0 <= i < |DirRepairs(w, REPAIR_DIRS, fails)| ::
               DirRepairs(w, REPAIR_DIRS, fails)[i].status == NotNeeded
    requires GitignoreText(FileAt(w, GITIGNORE)) == None && FileAt(w, CONTRACT).Some?
    ensures AfterRepairs(w, contract, fails) == w
    ensures forall i | 0 <= i < |Repairs(w, fails)| :: Repairs(w, fails)[i].status == NotNeeded
  {
    hide GitignoreText, AfterDirs, DirRepairs;
  }

  // ----- What a clean run leaves, in words -----

  const REPAIR_NAMES := ["activation", "receipts", "events", "internal", "dashboard", "run-entry", "site"]

  /** After a clean run the eight directories and the two files are there. */
  lemma {:induction false} AllThere(w: Repo, contract: string)
    requires Closed(w.dirs)
    ensures var once := AfterRepairs(w, contract, {});
            && (forall name | name in REPAIR_NAMES ::
                  [".avorelo", name] in once.dirs)
            && [".avorelo"] in once.dirs
            && FileAt(once, [".gitignore"]).Some?
            && FileAt(once, [".avorelo", "run-entry", "activation-contract.json"]) ==
               (if FileAt(w, CONTRACT).Some? then FileAt(w, CONTRACT) else Some(contract))
  {
    RepairedAt(w, contract, {}, GITIGNORE);
    RepairedAt(w, contract, {}, CONTRACT);
    CleanWritable(w);
    PathsDiffer();
    RepairedGitignoreTwice(FileAt(w, GITIGNORE));
    DirsListed();
    hide AfterRepairs, MadeDirs, RepairedGitignore, GitignoreText;
    forall i | 0 <= i < |REPAIR_DIRS| ensures REPAIR_DIRS[i] in MadeDirs(REPAIR_DIRS, {}) {
      MadeDirsMember(REPAIR_DIRS, {}, REPAIR_DIRS[i]);
    }
  }

  lemma DirsListed()
    ensures [".avorelo"] in REPAIR_DIRS
    ensures forall name | name in REPAIR_NAMES ::
              [".avorelo", name] in REPAIR_DIRS
  {
    assert forall i | 0 <= i < |REPAIR_NAMES| :: REPAIR_DIRS[i + 1] == [".avorelo", REPAIR_NAMES[i]];
    assert REPAIR_DIRS[0] == [".avorelo"];
  }
}
