/** Installing the run entry into the instruction files of a repository. */
module RunEntry {
  import opened Text
  import opened ManagedBlock
  import opened Repository
  import opened SafeRepairs

  datatype Surface = Surface(path: Path, action: Action, reason: Option<string>)

  const CLAUDE_MD: Path := ["CLAUDE.md"]
  const AGENTS_MD: Path := ["AGENTS.md"]
  const CURSOR_DIR: Path := [".cursor"]
  const RULES_DIR: Path := [".cursor", "rules"]
  const CURSOR_RULE: Path := [".cursor", "rules", "avorelo.mdc"]
  const CODEX_DIR: Path := [".codex"]
  const RUN_ENTRY_JSON: Path := [AVORELO, "run-entry", "run-entry.json"]

  // ----- One instruction file -----

  predicate BlockDirReady(w: Repo, path: Path, fails: set<Path>)
    requires path != []
  {
    CanMkdir(w, Parent(path), fails)
  }

  function WithBlockDir(w: Repo, path: Path, fails: set<Path>): Repo
    requires path != []
  {
    if Parent(path) in w.dirs then w else AfterMkdir(w, Parent(path), fails)
  }

  function AfterInstallBlock(w: Repo, path: Path, block: string, fails: set<Path>): Repo
    requires path != []
  {
    var w1 := WithBlockDir(w, path, fails);
    var (text, action) := WithBlock(FileAt(w1, path), block);
    if !BlockDirReady(w, path, fails) || action == Unchanged then w1
    else AfterWrite(w1, path, text, fails)
  }

  function UpdateReason(file: Option<string>): Option<string> {
    match file
    case None => None
    case Some(t) => Some(if HasBoth(t, MARKER_START, MARKER_END) then "Stale block refreshed" else "Block appended")
  }

  function BlockSurface(w: Repo, path: Path, block: string, fails: set<Path>): Surface
    requires path != []
  {
    var file := FileAt(w, path);
    var action := WithBlock(file, block).1;
    if !BlockDirReady(w, path, fails) then Surface(path, Action.Blocked, Some("Cannot create directory"))
    else if action == Unchanged then Surface(path, Unchanged, None)
    else if path in fails then Surface(path, Action.Blocked, Some(IO_ERROR))
    else Surface(path, action, UpdateReason(file))
  }

  method InstallBlock(ws: Workspace, path: Path, block: string, fails: set<Path>) returns (s: Surface)
    requires path != []
    modifies ws
    ensures ws.State() == AfterInstallBlock(old(ws.State()), path, block, fails)
    ensures s == BlockSurface(old(ws.State()), path, block, fails)
  {
    hide Trim, Slice, Contains, IndexOf, EndsWith, Chain;
    var dir := Parent(path);
    if dir !in ws.dirs {
      var ok := ws.Mkdir(dir, fails);
      if !ok {
        return Surface(path, Action.Blocked, Some("Cannot create directory"));
      }
    }
    if path !in ws.files {
      var ok := ws.Write(path, block + "\n", fails);
      return if ok then Surface(path, Created, None) else Surface(path, Action.Blocked, Some(IO_ERROR));
    }
    var content := ws.files[path];
    if Contains(content, MARKER_START) && Contains(content, MARKER_END) {
      var startIdx := IndexOf(content, MARKER_START);
      var endIdx := IndexOf(content, MARKER_END) + |MARKER_END|;
      if Slice(content, startIdx, endIdx) == Trim(block) {
        return Surface(path, Unchanged, None);
      }
      var ok := ws.Write(path, content[..startIdx] + Trim(block) + content[endIdx..], fails);
      return if ok then Surface(path, Updated, Some("Stale block refreshed"))
        else Surface(path, Action.Blocked, Some(IO_ERROR));
    }
    var separator := if EndsWith(content, '\n') then "\n" else "\n\n";
    var ok := ws.Write(path, content + separator + block + "\n", fails);
    s := if ok then Surface(path, Updated, Some("Block appended")) else Surface(path, Action.Blocked, Some(IO_ERROR));
  }

  // ----- All surfaces -----

  const CURSOR_TEXT :=
    "---\ndescription: Avorelo AI Work Control\nglobs: ['**/*']\nalwaysApply: true\n---\n\n" +
    "This project is activated with Avorelo.\nCheck `npx avorelo status` before starting work.\n" +
    "Use Avorelo validators for proof. Do not claim production readiness without receipts.\n"

  function AfterAgents(w: Repo, block: string, fails: set<Path>): Repo {
    if AGENTS_MD in w.files then AfterInstallBlock(w, AGENTS_MD, block, fails) else w
  }

  function AgentsSurface(w: Repo, block: string, fails: set<Path>): Surface {
    if AGENTS_MD in w.files then BlockSurface(w, AGENTS_MD, block, fails)
    else Surface(AGENTS_MD, Skipped, Some("AGENTS.md does not exist \U{2014} not creating"))
  }

  predicate CursorNeeded(w: Repo) {
    CURSOR_DIR in w.dirs && CURSOR_RULE !in w.files
  }

  function AfterCursor(w: Repo, fails: set<Path>): Repo {
    if CursorNeeded(w) && CanMkdir(w, RULES_DIR, fails)
    then AfterWrite(AfterMkdir(w, RULES_DIR, fails), CURSOR_RULE, CURSOR_TEXT, fails)
    else w
  }

  function CursorSurfaces(w: Repo, fails: set<Path>): seq<Surface> {
    if CURSOR_DIR !in w.dirs then []
    else if CURSOR_RULE in w.files then [Surface(CURSOR_RULE, Unchanged, Some("Already exists"))]
    else if CanMkdir(w, RULES_DIR, fails) && CURSOR_RULE !in fails then [Surface(CURSOR_RULE, Created, None)]
    else [Surface(CURSOR_RULE, Action.Blocked, Some(IO_ERROR))]
  }

  function AgentsAdvisory(w: Repo): seq<string> {
    if AGENTS_MD in w.files then [] else ["AGENTS.md not present"]
  }

  function CursorAdvisory(w: Repo): seq<string> {
    if CURSOR_DIR in w.dirs then [] else [".cursor not present"]
  }

  function CodexAdvisory(w: Repo): seq<string> {
    if CODEX_DIR in w.dirs then ["Codex detected \U{2014} manual run-entry recommended"] else []
  }

  /** The block, and how the contract is printed with this run's time stamp. */
  datatype Entry = Entry(block: string, render: (seq<Surface>, seq<string>) -> string)

  function AfterClaude(w: Repo, e: Entry, fails: set<Path>): Repo {
    AfterInstallBlock(w, CLAUDE_MD, e.block, fails)
  }

  function AfterInstructions(w: Repo, e: Entry, fails: set<Path>): Repo {
    AfterAgents(AfterClaude(w, e, fails), e.block, fails)
  }

  function AfterSurfaces(w: Repo, e: Entry, fails: set<Path>): Repo {
    AfterCursor(AfterInstructions(w, e, fails), fails)
  }

  function Surfaces(w: Repo, e: Entry, fails: set<Path>): seq<Surface> {
    [BlockSurface(w, CLAUDE_MD, e.block, fails), AgentsSurface(AfterClaude(w, e, fails), e.block, fails)] +
    CursorSurfaces(AfterInstructions(w, e, fails), fails)
  }

  function Advisory(w: Repo, e: Entry, fails: set<Path>): seq<string> {
    AgentsAdvisory(AfterClaude(w, e, fails)) +
    CursorAdvisory(AfterInstructions(w, e, fails)) +
    CodexAdvisory(AfterSurfaces(w, e, fails))
  }

  function AfterRunEntryContract(w: Repo, text: string, fails: set<Path>): Repo {
    if CanMkdir(w, RUN_ENTRY_DIR, fails)
    then AfterWrite(AfterMkdir(w, RUN_ENTRY_DIR, fails), RUN_ENTRY_JSON, text, fails)
    else w
  }

  function AfterRunEntry(w: Repo, e: Entry, fails: set<Path>): Repo {
    AfterRunEntryContract(AfterSurfaces(w, e, fails), e.render(Surfaces(w, e, fails), Advisory(w, e, fails)), fails)
  }

  predicate Installs(s: Surface) {
    s.action == Created || s.action == Updated || s.action == Unchanged
  }

  method InstallRunEntry(ws: Workspace, e: Entry, fails: set<Path>)
    returns (installed: bool, surfaces: seq<Surface>, advisory: seq<string>, contractWritten: bool)
    modifies ws
    ensures ws.State() == AfterRunEntry(old(ws.State()), e, fails)
    ensures surfaces == Surfaces(old(ws.State()), e, fails) && advisory == Advisory(old(ws.State()), e, fails)
    ensures installed <==> exists i :: 0 <= i < |surfaces| && Installs(surfaces[i])
    ensures contractWritten <==>
            CanMkdir(AfterSurfaces(old(ws.State()), e, fails), RUN_ENTRY_DIR, fails) && RUN_ENTRY_JSON !in fails
  {
    hide AfterClaude, AfterInstructions, AfterCursor, AfterRunEntryContract;
    hide BlockSurface, AgentsSurface, CursorSurfaces, AgentsAdvisory, CursorAdvisory;
    ghost var w := ws.State();
    surfaces, advisory := InstallInstructions(ws, e, fails);
    var cursor, cursorAdvisory := InstallCursorRule(ws, fails);
    surfaces, advisory := surfaces + cursor, advisory + cursorAdvisory;
    if CODEX_DIR in ws.dirs {
      advisory := advisory + ["Codex detected \U{2014} manual run-entry recommended"];
    }
    assert advisory == Advisory(w, e, fails);
    contractWritten := WriteContract(ws, e.render(surfaces, advisory), fails);
    installed := exists i | 0 <= i < |surfaces| :: Installs(surfaces[i]);
  }

  method InstallInstructions(ws: Workspace, e: Entry, fails: set<Path>)
    returns (surfaces: seq<Surface>, advisory: seq<string>)
    modifies ws
    ensures ws.State() == AfterInstructions(old(ws.State()), e, fails)
    ensures surfaces == [BlockSurface(old(ws.State()), CLAUDE_MD, e.block, fails),
                         AgentsSurface(AfterClaude(old(ws.State()), e, fails), e.block, fails)]
    ensures advisory == AgentsAdvisory(AfterClaude(old(ws.State()), e, fails))
  {
    hide AfterInstallBlock, BlockSurface;
    advisory := [];
    var claude := InstallBlock(ws, CLAUDE_MD, e.block, fails);
    surfaces := [claude];
    if AGENTS_MD in ws.files {
      var agents := InstallBlock(ws, AGENTS_MD, e.block, fails);
      surfaces := surfaces + [agents];
    } else {
      surfaces := surfaces + [Surface(AGENTS_MD, Skipped, Some("AGENTS.md does not exist \U{2014} not creating"))];
      advisory := advisory + ["AGENTS.md not present"];
    }
  }

  method InstallCursorRule(ws: Workspace, fails: set<Path>)
    returns (surfaces: seq<Surface>, advisory: seq<string>)
    modifies ws
    ensures ws.State() == AfterCursor(old(ws.State()), fails)
    ensures surfaces == CursorSurfaces(old(ws.State()), fails) && advisory == CursorAdvisory(old(ws.State()))
  {
    surfaces, advisory := [], [];
    if CURSOR_DIR !in ws.dirs {
      advisory := [".cursor not present"];
    } else if CURSOR_RULE in ws.files {
      surfaces := [Surface(CURSOR_RULE, Unchanged, Some("Already exists"))];
    } else {
      var made := ws.Mkdir(RULES_DIR, fails);
      var wrote := false;
      if made {
        wrote := ws.Write(CURSOR_RULE, CURSOR_TEXT, fails);
      }
      surfaces := [if wrote then Surface(CURSOR_RULE, Created, None)
                   else Surface(CURSOR_RULE, Action.Blocked, Some(IO_ERROR))];
    }
  }

  method WriteContract(ws: Workspace, text: string, fails: set<Path>) returns (written: bool)
    modifies ws
    ensures ws.State() == AfterRunEntryContract(old(ws.State()), text, fails)
    ensures written <==> CanMkdir(old(ws.State()), RUN_ENTRY_DIR, fails) && RUN_ENTRY_JSON !in fails
  {
    written := ws.Mkdir(RUN_ENTRY_DIR, fails);
    if written {
      written := ws.Write(RUN_ENTRY_JSON, text, fails);
    }
  }

  // ----- What run entry touches -----

  lemma SameHead(a: Path, b: Path)
    requires a != []
    ensures a <= b ==> b != [] && a[0] == b[0]
  {
  }

  lemma PathsApart()
    ensures CLAUDE_MD != AGENTS_MD && CLAUDE_MD != CURSOR_RULE && CLAUDE_MD != RUN_ENTRY_JSON
    ensures AGENTS_MD != CURSOR_RULE && AGENTS_MD != RUN_ENTRY_JSON && CURSOR_RULE != RUN_ENTRY_JSON
    ensures GITIGNORE !in {CLAUDE_MD, AGENTS_MD, CURSOR_RULE, RUN_ENTRY_JSON}
    ensures CONTRACT !in {CLAUDE_MD, AGENTS_MD, CURSOR_RULE, RUN_ENTRY_JSON}
    ensures Parent(CLAUDE_MD) == Parent(AGENTS_MD) == []
    ensures Parent(CURSOR_RULE) == RULES_DIR && Parent(RUN_ENTRY_JSON) == RUN_ENTRY_DIR
    ensures !(RUN_ENTRY_DIR <= RULES_DIR) && !(CODEX_DIR <= RULES_DIR)
    ensures CURSOR_DIR <= RULES_DIR
    ensures CURSOR_DIR[0] != AVORELO && CODEX_DIR[0] != AVORELO && RULES_DIR[0] != AVORELO
  {
    assert |"CLAUDE.md"| == |"AGENTS.md"| == 9 && "CLAUDE.md"[0] != "AGENTS.md"[0];
    assert |".gitignore"| == 10;
    assert |".cursor"| == 7 && |AVORELO| == 8 && |".codex"| == 6;
    assert |"run-entry.json"| == 14 && |"activation-contract.json"| == 24;
    SameHead(RUN_ENTRY_DIR, RULES_DIR);
    SameHead(CODEX_DIR, RULES_DIR);
  }

  /** With the root present, installing a block at top level changes nothing but that file. */
  lemma BlockTouchesOneFile(w: Repo, path: Path, block: string, fails: set<Path>)
    requires path != [] && Parent(path) in w.dirs
    ensures AfterInstallBlock(w, path, block, fails).dirs == w.dirs
    ensures forall q | q != path :: FileAt(AfterInstallBlock(w, path, block, fails), q) == FileAt(w, q)
    ensures FileAt(AfterInstallBlock(w, path, block, fails), path) == BlockFile(FileAt(w, path), path, block, fails)
  {
    hide WithBlock;
  }

  /** A file after `installBlock`, as a function of the file before. */
  function BlockFile(file: Option<string>, path: Path, block: string, fails: set<Path>): Option<string> {
    if WithBlock(file, block).1 == Unchanged || path in fails then file else Some(WithBlock(file, block).0)
  }

  // ----- Run entry, path by path -----

  lemma CursorAt(w: Repo, fails: set<Path>, q: Path)
    ensures FileAt(AfterCursor(w, fails), q) ==
            if q == CURSOR_RULE && CursorNeeded(w) && CanMkdir(w, RULES_DIR, fails) && CURSOR_RULE !in fails
            then Some(CURSOR_TEXT)
            else FileAt(w, q)
    ensures AfterCursor(w, fails).dirs ==
            w.dirs + if CursorNeeded(w) && CanMkdir(w, RULES_DIR, fails) then Chain(RULES_DIR) else {}
  {
    PathsApart();
    hide AfterWrite;
    WriteAt(AfterMkdir(w, RULES_DIR, fails), CURSOR_RULE, CURSOR_TEXT, fails, q);
  }

  lemma ContractFileAt(w: Repo, text: string, fails: set<Path>, q: Path)
    ensures FileAt(AfterRunEntryContract(w, text, fails), q) ==
            if q == RUN_ENTRY_JSON && CanMkdir(w, RUN_ENTRY_DIR, fails) && RUN_ENTRY_JSON !in fails then Some(text)
            else FileAt(w, q)
    ensures AfterRunEntryContract(w, text, fails).dirs ==
            w.dirs + if CanMkdir(w, RUN_ENTRY_DIR, fails) then Chain(RUN_ENTRY_DIR) else {}
  {
    PathsApart();
    hide AfterWrite;
    WriteAt(AfterMkdir(w, RUN_ENTRY_DIR, fails), RUN_ENTRY_JSON, text, fails, q);
  }

  /** The parts of a repository that run entry looks at. */
  ghost predicate SameView(w: Repo, v: Repo, fails: set<Path>) {
    && [] in w.dirs && [] in v.dirs
    && FileAt(w, CLAUDE_MD) == FileAt(v, CLAUDE_MD)
    && FileAt(w, AGENTS_MD) == FileAt(v, AGENTS_MD)
    && FileAt(w, CURSOR_RULE) == FileAt(v, CURSOR_RULE)
    && (CURSOR_DIR in w.dirs <==> CURSOR_DIR in v.dirs)
    && (CODEX_DIR in w.dirs <==> CODEX_DIR in v.dirs)
    && (RULES_DIR in w.dirs <==> RULES_DIR in v.dirs)
    && (CanMkdir(w, RUN_ENTRY_DIR, fails) <==> CanMkdir(v, RUN_ENTRY_DIR, fails))
  }

  lemma InstructionsAt(w: Repo, e: Entry, fails: set<Path>, q: Path)
    requires [] in w.dirs
    ensures AfterClaude(w, e, fails).dirs == w.dirs && AfterInstructions(w, e, fails).dirs == w.dirs
    ensures FileAt(AfterClaude(w, e, fails), AGENTS_MD) == FileAt(w, AGENTS_MD)
    ensures FileAt(AfterInstructions(w, e, fails), q) ==
            if q == CLAUDE_MD then BlockFile(FileAt(w, CLAUDE_MD), CLAUDE_MD, e.block, fails)
            else if q == AGENTS_MD && FileAt(w, AGENTS_MD).Some?
            then BlockFile(FileAt(w, AGENTS_MD), AGENTS_MD, e.block, fails)
            else FileAt(w, q)
  {
    PathsApart();
    hide AfterInstallBlock, BlockFile;
    BlockTouchesOneFile(w, CLAUDE_MD, e.block, fails);
    BlockTouchesOneFile(AfterClaude(w, e, fails), AGENTS_MD, e.block, fails);
  }

  /** What a run leaves at one path, given what it prints in its contract. */
  function EntryFile(w: Repo, e: Entry, text: string, fails: set<Path>, q: Path): Option<string> {
    if q == CLAUDE_MD then BlockFile(FileAt(w, CLAUDE_MD), CLAUDE_MD, e.block, fails)
    else if q == AGENTS_MD && FileAt(w, AGENTS_MD).Some? then BlockFile(FileAt(w, AGENTS_MD), AGENTS_MD, e.block, fails)
    else if q == CURSOR_RULE && CursorNeeded(w) && CanMkdir(w, RULES_DIR, fails) && CURSOR_RULE !in fails
    then Some(CURSOR_TEXT)
    else if q == RUN_ENTRY_JSON && CanMkdir(w, RUN_ENTRY_DIR, fails) && RUN_ENTRY_JSON !in fails then Some(text)
      else FileAt(w, q)
  }

  function EntryDirs(w: Repo, fails: set<Path>): set<Path> {
    (if CursorNeeded(w) && CanMkdir(w, RULES_DIR, fails) then Chain(RULES_DIR) else {}) +
    (if CanMkdir(w, RUN_ENTRY_DIR, fails) then Chain(RUN_ENTRY_DIR) else {})
  }

  lemma SurfacesAt(w: Repo, e: Entry, fails: set<Path>, q: Path)
    requires [] in w.dirs
    ensures AfterSurfaces(w, e, fails).dirs ==
            w.dirs + if CursorNeeded(w) && CanMkdir(w, RULES_DIR, fails) then Chain(RULES_DIR) else {}
    ensures CanMkdir(AfterSurfaces(w, e, fails), RUN_ENTRY_DIR, fails) <==> CanMkdir(w, RUN_ENTRY_DIR, fails)
    ensures CODEX_DIR in AfterSurfaces(w, e, fails).dirs <==> CODEX_DIR in w.dirs
    ensures q != RUN_ENTRY_JSON ==> FileAt(AfterSurfaces(w, e, fails), q) == EntryFile(w, e, [], fails, q)
    ensures q == RUN_ENTRY_JSON ==> FileAt(AfterSurfaces(w, e, fails), q) == FileAt(w, q)
  {
    PathsApart();
    hide AfterInstructions, BlockFile, AfterCursor;
    var w2 := AfterInstructions(w, e, fails);
    InstructionsAt(w, e, fails, q);
    InstructionsAt(w, e, fails, CURSOR_RULE);
    assert CURSOR_RULE in w2.files <==> CURSOR_RULE in w.files by {
      assert FileAt(w2, CURSOR_RULE) == FileAt(w, CURSOR_RULE);
    }
    CursorAt(w2, fails, q);
  }

  lemma {:induction false} EntryAt(w: Repo, e: Entry, fails: set<Path>, q: Path)
    requires [] in w.dirs
    ensures AfterRunEntry(w, e, fails).dirs == w.dirs + EntryDirs(w, fails)
    ensures FileAt(AfterRunEntry(w, e, fails), q) ==
            EntryFile(w, e, e.render(Surfaces(w, e, fails), Advisory(w, e, fails)), fails, q)
  {
    hide AfterSurfaces, BlockFile, AfterRunEntryContract, Surfaces, Advisory, CanMkdir, CursorNeeded, Chain;
    PathsApart();
    SurfacesAt(w, e, fails, q);
    ContractFileAt(AfterSurfaces(w, e, fails), e.render(Surfaces(w, e, fails), Advisory(w, e, fails)), fails, q);
  }

  /** Run entry reports the same surfaces and advisories on repositories that look the same to it. */
  lemma SameReport(w: Repo, v: Repo, e: Entry, fails: set<Path>)
    requires SameView(w, v, fails)
    ensures Surfaces(w, e, fails) == Surfaces(v, e, fails) && Advisory(w, e, fails) == Advisory(v, e, fails)
  {
    PathsApart();
    InstructionsAt(w, e, fails, CURSOR_RULE);
    InstructionsAt(v, e, fails, CURSOR_RULE);
    SurfacesAt(w, e, fails, []);
    SurfacesAt(v, e, fails, []);
    assert BlockSurface(w, CLAUDE_MD, e.block, fails) == BlockSurface(v, CLAUDE_MD, e.block, fails) by {
      hide WithBlock;
    }
    SameAgents(AfterClaude(w, e, fails), AfterClaude(v, e, fails), e.block, fails);
    SameCursor(AfterInstructions(w, e, fails), AfterInstructions(v, e, fails), fails);
    hide AfterClaude, AfterInstructions, AfterSurfaces, BlockSurface, AgentsSurface, CursorSurfaces;
  }

  lemma SameAgents(w: Repo, v: Repo, block: string, fails: set<Path>)
    requires [] in w.dirs && [] in v.dirs && FileAt(w, AGENTS_MD) == FileAt(v, AGENTS_MD)
    ensures AgentsSurface(w, block, fails) == AgentsSurface(v, block, fails)
    ensures AgentsAdvisory(w) == AgentsAdvisory(v)
  {
    PathsApart();
    hide WithBlock;
  }

  lemma SameCursor(w: Repo, v: Repo, fails: set<Path>)
    requires FileAt(w, CURSOR_RULE) == FileAt(v, CURSOR_RULE)
    requires (CURSOR_DIR in w.dirs <==> CURSOR_DIR in v.dirs) && (RULES_DIR in w.dirs <==> RULES_DIR in v.dirs)
    ensures CursorSurfaces(w, fails) == CursorSurfaces(v, fails) && CursorAdvisory(w) == CursorAdvisory(v)
  {
  }

  // ----- Repairs and run entry commute -----

  /** The directories that repairs make are outside what run entry looks at, but for its own. */
  lemma RepairsKeepView(w: Repo, contract: string, fails: set<Path>)
    requires Closed(w.dirs) && [] in w.dirs
    ensures SameView(w, AfterRepairs(w, contract, fails), fails)
  {
    PathsApart();
    RepairedAt(w, contract, fails, CLAUDE_MD);
    RepairedAt(w, contract, fails, AGENTS_MD);
    RepairedAt(w, contract, fails, CURSOR_RULE);
    MadeOnlyAvorelo(CURSOR_DIR, fails);
    MadeOnlyAvorelo(CODEX_DIR, fails);
    MadeOnlyAvorelo(RULES_DIR, fails);
    RunEntryDirMade(fails);
    hide AfterRepairs, MadeDirs, RepairedFile;
    assert RepairedFile(w, contract, fails, CLAUDE_MD) == FileAt(w, CLAUDE_MD) by {
      OtherFilesKept(w, contract, fails, CLAUDE_MD);
    }
    assert RepairedFile(w, contract, fails, AGENTS_MD) == FileAt(w, AGENTS_MD) by {
      OtherFilesKept(w, contract, fails, AGENTS_MD);
    }
    assert RepairedFile(w, contract, fails, CURSOR_RULE) == FileAt(w, CURSOR_RULE) by {
      OtherFilesKept(w, contract, fails, CURSOR_RULE);
    }
  }

  lemma OtherFilesKept(w: Repo, contract: string, fails: set<Path>, q: Path)
    requires q != GITIGNORE && q != CONTRACT
    ensures RepairedFile(w, contract, fails, q) == FileAt(w, q)
  {
  }

  lemma MadeOnlyAvorelo(d: Path, fails: set<Path>)
    requires d != [] && d[0] != AVORELO
    ensures d !in MadeDirs(REPAIR_DIRS, fails)
  {
    MadeDirsMember(REPAIR_DIRS, fails, d);
    assert forall i | 0 <= i < |REPAIR_DIRS| :: REPAIR_DIRS[i] != [] && REPAIR_DIRS[i][0] == AVORELO;
    hide MadeDirs;
    forall i | 0 <= i < |REPAIR_DIRS| ensures !(d <= REPAIR_DIRS[i]) {
      SameHead(d, REPAIR_DIRS[i]);
    }
  }

  /** The run-entry directory is made by the repairs exactly when it can be made. */
  lemma RunEntryDirMade(fails: set<Path>)
    ensures RUN_ENTRY_DIR !in fails ==> Chain(RUN_ENTRY_DIR) <= MadeDirs(REPAIR_DIRS, fails)
    ensures RUN_ENTRY_DIR in fails ==> RUN_ENTRY_DIR !in MadeDirs(REPAIR_DIRS, fails)
  {
    assert REPAIR_DIRS[6] == RUN_ENTRY_DIR;
    assert forall i | 0 <= i < |REPAIR_DIRS| :: |REPAIR_DIRS[i]| <= 2;
    hide MadeDirs;
    MadeDirsMember(REPAIR_DIRS, fails, RUN_ENTRY_DIR);
    forall d | d in Chain(RUN_ENTRY_DIR) ensures RUN_ENTRY_DIR !in fails ==> d in MadeDirs(REPAIR_DIRS, fails) {
      MadeDirsMember(REPAIR_DIRS, fails, d);
    }
    forall i | 0 <= i < |REPAIR_DIRS| ensures RUN_ENTRY_DIR <= REPAIR_DIRS[i] ==> REPAIR_DIRS[i] == RUN_ENTRY_DIR {}
  }

  lemma EntryKeepsClosed(w: Repo, e: Entry, fails: set<Path>)
    requires Closed(w.dirs) && [] in w.dirs
    ensures Closed(AfterRunEntry(w, e, fails).dirs)
  {
    hide AfterRunEntry, EntryFile, EntryDirs, Closed;
    EntryAt(w, e, fails, []);
    EntryDirsClosed(w, fails);
    ClosedUnion(w.dirs, EntryDirs(w, fails));
  }

  lemma EntryDirsClosed(w: Repo, fails: set<Path>)
    ensures Closed(EntryDirs(w, fails))
  {
    ChainClosed(RULES_DIR);
    ChainClosed(RUN_ENTRY_DIR);
    NoneClosed();
    hide Chain, Closed, CursorNeeded, CanMkdir;
    ClosedUnion(if CursorNeeded(w) && CanMkdir(w, RULES_DIR, fails) then Chain(RULES_DIR) else {},
                if CanMkdir(w, RUN_ENTRY_DIR, fails) then Chain(RUN_ENTRY_DIR) else {});
  }

  lemma NoneClosed()
    ensures Closed({})
  {
  }

  /** Run entry changes nothing that the repairs look at, but for making a directory that they can make themselves. */
  lemma EntryKeepsRepairs(w: Repo, contract: string, e: Entry, fails: set<Path>, q: Path)
    requires Closed(w.dirs) && [] in w.dirs
    ensures RepairedFile(AfterRunEntry(w, e, fails), contract, fails, q) ==
            if q == GITIGNORE || q == CONTRACT then RepairedFile(w, contract, fails, q)
            else FileAt(AfterRunEntry(w, e, fails), q)
  {
    hide AfterRunEntry, EntryFile, MadeDirs, RepairedGitignore, Surfaces, Advisory, Closed;
    var v := AfterRunEntry(w, e, fails);
    var text := e.render(Surfaces(w, e, fails), Advisory(w, e, fails));
    PathsDiffer();
    EntryAt(w, e, fails, GITIGNORE);
    EntryAt(w, e, fails, CONTRACT);
    EntryLeaves(w, e, text, fails, GITIGNORE);
    EntryLeaves(w, e, text, fails, CONTRACT);
    SameWritable(w, fails);
  }

  lemma SameWritable(w: Repo, fails: set<Path>)
    requires [] in w.dirs
    ensures RUN_ENTRY_DIR in w.dirs + EntryDirs(w, fails) + MadeDirs(REPAIR_DIRS, fails) <==>
            RUN_ENTRY_DIR in w.dirs + MadeDirs(REPAIR_DIRS, fails)
  {
    PathsApart();
    RunEntryDirMade(fails);
    hide MadeDirs, CursorNeeded;
  }

  /**
   The repairs and the run entry commute: whatever calls fail, both orders leave the same directories and the
   same text at every path.
   */
  lemma RepairsCommuteWithRunEntry(w: Repo, contract: string, e: Entry, fails: set<Path>)
    requires Closed(w.dirs) && [] in w.dirs
    ensures var a := AfterRunEntry(AfterRepairs(w, contract, fails), e, fails);
            var b := AfterRepairs(AfterRunEntry(w, e, fails), contract, fails);
            a.dirs == b.dirs && forall q :: FileAt(a, q) == FileAt(b, q)
  {
    SameDirs(w, contract, e, fails);
    hide AfterRunEntry, AfterRepairs;
    forall q
      ensures FileAt(AfterRunEntry(AfterRepairs(w, contract, fails), e, fails), q) ==
              FileAt(AfterRepairs(AfterRunEntry(w, e, fails), contract, fails), q)
    {
      SameFile(w, contract, e, fails, q);
    }
  }

  lemma SameDirs(w: Repo, contract: string, e: Entry, fails: set<Path>)
    requires Closed(w.dirs) && [] in w.dirs
    ensures AfterRunEntry(AfterRepairs(w, contract, fails), e, fails).dirs ==
            AfterRepairs(AfterRunEntry(w, e, fails), contract, fails).dirs
  {
    var r, v := AfterRepairs(w, contract, fails), AfterRunEntry(w, e, fails);
    RepairsKeepView(w, contract, fails);
    EntryKeepsClosed(w, e, fails);
    RepairedAt(w, contract, fails, []);
    RepairedAt(v, contract, fails, []);
    EntryAt(w, e, fails, []);
    EntryAt(r, e, fails, []);
    SameNeeds(w, r, fails);
    hide AfterRunEntry, AfterRepairs, EntryFile, MadeDirs, RepairedFile, EntryDirs;
    assert w.dirs + MadeDirs(REPAIR_DIRS, fails) + EntryDirs(w, fails) ==
           w.dirs + EntryDirs(w, fails) + MadeDirs(REPAIR_DIRS, fails);
  }

  lemma SameNeeds(w: Repo, v: Repo, fails: set<Path>)
    requires SameView(w, v, fails)
    ensures CursorNeeded(w) <==> CursorNeeded(v)
    ensures CanMkdir(w, RULES_DIR, fails) <==> CanMkdir(v, RULES_DIR, fails)
    ensures EntryDirs(w, fails) == EntryDirs(v, fails)
  {
    hide Chain;
  }

  lemma SameFile(w: Repo, contract: string, e: Entry, fails: set<Path>, q: Path)
    requires Closed(w.dirs) && [] in w.dirs
    ensures FileAt(AfterRunEntry(AfterRepairs(w, contract, fails), e, fails), q) ==
            FileAt(AfterRepairs(AfterRunEntry(w, e, fails), contract, fails), q)
  {
    hide AfterRunEntry, AfterRepairs, RepairedFile, EntryFile, Surfaces, Advisory, FileAt, SameView;
    var r, v := AfterRepairs(w, contract, fails), AfterRunEntry(w, e, fails);
    RepairsKeepView(w, contract, fails);
    RootStays(w, r, fails);
    EntryKeepsClosed(w, e, fails);
    RepairedAt(w, contract, fails, q);
    RepairedAt(v, contract, fails, q);
    EntryAt(w, e, fails, q);
    EntryAt(r, e, fails, q);
    EntryKeepsRepairs(w, contract, e, fails, q);
    SameReport(w, r, e, fails);
    var text := e.render(Surfaces(w, e, fails), Advisory(w, e, fails));
    if q == GITIGNORE || q == CONTRACT {
      EntryLeaves(r, e, text, fails, q);
    } else {
      OtherFilesKept(w, contract, fails, q);
      SameEntryFile(w, r, e, text, fails, q);
    }
  }

  lemma RootStays(w: Repo, v: Repo, fails: set<Path>)
    requires SameView(w, v, fails)
    ensures [] in v.dirs
  {
  }

  lemma EntryLeaves(w: Repo, e: Entry, text: string, fails: set<Path>, q: Path)
    requires q == GITIGNORE || q == CONTRACT
    ensures EntryFile(w, e, text, fails, q) == FileAt(w, q)
  {
    PathsApart();
  }

  lemma SameEntryFile(w: Repo, v: Repo, e: Entry, text: string, fails: set<Path>, q: Path)
    requires SameView(w, v, fails) && FileAt(w, q) == FileAt(v, q)
    ensures EntryFile(w, e, text, fails, q) == EntryFile(v, e, text, fails, q)
  {
    SameNeeds(w, v, fails);
    hide BlockFile, CursorNeeded;
  }
}
