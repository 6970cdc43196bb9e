/** What activation reports is what it did. */
module ActivationReports {
  import opened Text
  import opened ManagedBlock
  import opened Repository
  import opened SafeRepairs
  import opened RunEntry
  import opened RunEntryTwice

  // ----- Instruction files -----

  lemma WithBlockAction(file: Option<string>, block: string)
    ensures WithBlock(file, block).1 == Created <==> file.None?
    ensures file.Some? ==> WithBlock(file, block).1 == Unchanged || WithBlock(file, block).1 == Updated
    ensures file.Some? ==> (WithBlock(file, block).1 == Unchanged <==> WithBlock(file, block).0 == file.value)
  {
    if file.Some? {
      UpdateChangesText(file.value, block, MARKER_START, MARKER_END);
    }
    hide Trim, Contains, IndexOf, Slice;
  }

  /** The surface that `installBlock` reports tells what became of the file, whatever calls fail. */
  lemma {:induction false} SurfaceTellsTheTruth(w: Repo, path: Path, block: string, fails: set<Path>)
    requires path != []
    ensures var before, after := FileAt(w, path), FileAt(AfterInstallBlock(w, path, block, fails), path);
            var action := BlockSurface(w, path, block, fails).action;
            && (action == Created <==> before.None? && after.Some?)
            && (action == Updated <==> before.Some? && after != before)
            && (action == Unchanged || action == Action.Blocked <==> after == before)
  {
    hide WithBlock, Chain;
    WithBlockAction(FileAt(w, path), block);
  }

  // ----- Repairs -----

  predicate Silent(repairs: seq<RepairAction>) {
    forall i | 0 <= i < |repairs| :: repairs[i].status != Applied
  }

  lemma SilentSnoc(a: seq<RepairAction>, r: RepairAction)
    ensures Silent(a + [r]) <==> Silent(a) && r.status != Applied
  {
    assert (a + [r])[|a|] == r;
    assert forall i | 0 <= i < |a| :: (a + [r])[i] == a[i];
  }

  lemma {:induction false} DirsReported(w: Repo, ds: seq<Path>, fails: set<Path>)
    ensures w.dirs <= AfterDirs(w, ds, fails).dirs && AfterDirs(w, ds, fails).files == w.files
    ensures Silent(DirRepairs(w, ds, fails)) <==> AfterDirs(w, ds, fails).dirs == w.dirs
    decreases |ds|
  {
    hide Silent, DirId;
    if ds == [] {
      NothingReported();
    } else {
      var n := |ds| - 1;
      DirsReported(w, ds[..n], fails);
      var before := AfterDirs(w, ds[..n], fails);
      SilentSnoc(DirRepairs(w, ds[..n], fails), DirRepair(ds[n], DirStatus(before, ds[n], fails)));
      assert ds[n] in Chain(ds[n]);
    }
  }

  lemma NothingReported()
    ensures Silent([])
  {
  }

  lemma GitignoreReported(w: Repo, fails: set<Path>)
    ensures AfterGitignore(w, fails).dirs == w.dirs
    ensures forall q | q != GITIGNORE :: FileAt(AfterGitignore(w, fails), q) == FileAt(w, q)
    ensures GitignoreRepair(w, fails).status != Applied <==>
            FileAt(AfterGitignore(w, fails), GITIGNORE) == FileAt(w, GITIGNORE)
    ensures GitignoreRepair(w, fails).status != Applied ==> AfterGitignore(w, fails) == w
  {
    RepairLengthens(FileAt(w, GITIGNORE));
    hide GitignoreText;
  }

  lemma RepairLengthens(file: Option<string>)
    ensures GitignoreText(file).Some? ==> GitignoreText(file) != file
  {
    if file.Some? && GitignoreText(file).Some? {
      assert |GitignoreText(file).value| > |file.value|;
    }
  }

  lemma ContractReported(w: Repo, contract: string, fails: set<Path>)
    ensures AfterContract(w, contract, fails).dirs == w.dirs
    ensures forall q | q != CONTRACT :: FileAt(AfterContract(w, contract, fails), q) == FileAt(w, q)
    ensures ContractRepair(w, fails).status != Applied <==>
            FileAt(AfterContract(w, contract, fails), CONTRACT) == FileAt(w, CONTRACT)
    ensures ContractRepair(w, fails).status != Applied ==> AfterContract(w, contract, fails) == w
  {
  }

  /** A run reports no applied repair exactly when it left every directory and every file as it was. */
  lemma NoChangeUnreported(w: Repo, contract: string, fails: set<Path>)
    ensures Silent(Repairs(w, fails)) <==> AfterRepairs(w, contract, fails) == w
  {
    var w1 := AfterDirs(w, REPAIR_DIRS, fails);
    var w2 := AfterGitignore(w1, fails);
    PathsDiffer();
    DirsReported(w, REPAIR_DIRS, fails);
    GitignoreReported(w1, fails);
    ContractReported(w2, contract, fails);
    hide Silent, DirRepairs, AfterDirs, AfterGitignore, AfterContract, GitignoreRepair, ContractRepair, FileAt;
    SilentSnoc(DirRepairs(w, REPAIR_DIRS, fails), GitignoreRepair(w1, fails));
    SilentSnoc(DirRepairs(w, REPAIR_DIRS, fails) + [GitignoreRepair(w1, fails)], ContractRepair(w2, fails));
    assert FileAt(w, CONTRACT) == FileAt(w1, CONTRACT) && FileAt(w, GITIGNORE) == FileAt(w1, GITIGNORE) by {
      SameFilesSameFile(w, w1);
    }
  }

  lemma SameFilesSameFile(w: Repo, v: Repo)
    requires w.files == v.files
    ensures forall q :: FileAt(w, q) == FileAt(v, q)
  {
  }

  // ----- The reports in words -----

  /** Why an instruction file was updated or blocked; nothing is said of one that was created or left alone. */
  lemma {:induction false} SurfaceReasons(w: Repo, path: Path, block: string, fails: set<Path>)
    requires path != []
    ensures var s := BlockSurface(w, path, block, fails);
            && s.path == path && s.action != Skipped
            && (s.action == Created || s.action == Unchanged <==> s.reason.None?)
            && (s.action == Updated ==>
                  s.reason == Some(if HasBoth(FileAt(w, path).value, MARKER_START, MARKER_END)
                                   then "Stale block refreshed" else "Block appended"))
            && (s.action == Action.Blocked ==>
                  s.reason == Some(if path[..|path| - 1] !in w.dirs && path[..|path| - 1] in fails
                                   then "Cannot create directory" else IO_ERROR))
  {
    WithBlockAction(FileAt(w, path), block);
    hide WithBlock, Contains;
  }

  /** The surfaces of a run, in order, by what was there before. */
  lemma {:induction false} SurfacesReported(w: Repo, e: Entry, fails: set<Path>)
    requires [] in w.dirs
    ensures var ss := Surfaces(w, e, fails);
            && |ss| == (if [".cursor"] in w.dirs then 3 else 2)
            && ss[0] == BlockSurface(w, ["CLAUDE.md"], e.block, fails)
            && ss[1] == (if FileAt(w, ["AGENTS.md"]).None?
                         then Surface(["AGENTS.md"], Skipped, Some("AGENTS.md does not exist \U{2014} not creating"))
                         else BlockSurface(w, ["AGENTS.md"], e.block, fails))
            && ([".cursor"] in w.dirs ==> ss[2] == CursorReport(w, fails))
  {
    PathsApart();
    InstructionsAt(w, e, fails, AGENTS_MD);
    InstructionsAt(w, e, fails, CURSOR_RULE);
    var v := AfterClaude(w, e, fails);
    SameSurface(w, v, AGENTS_MD, e.block, fails);
    hide BlockSurface, AfterClaude, AfterInstructions, BlockFile;
  }

  /** The rule file is created where there is none, if nothing fails. */
  function CursorReport(w: Repo, fails: set<Path>): Surface {
    var rule := [".cursor", "rules", "avorelo.mdc"];
    if FileAt(w, rule).Some? then Surface(rule, Unchanged, Some("Already exists"))
    else if rule !in fails && ([".cursor", "rules"] in w.dirs || [".cursor", "rules"] !in fails)
    then Surface(rule, Created, None)
    else Surface(rule, Action.Blocked, Some(IO_ERROR))
  }

  lemma {:induction false} SameSurface(w: Repo, v: Repo, path: Path, block: string, fails: set<Path>)
    requires path != [] && w.dirs == v.dirs && FileAt(w, path) == FileAt(v, path)
    ensures BlockSurface(w, path, block, fails) == BlockSurface(v, path, block, fails)
  {
    hide WithBlock;
  }

  /** What a run advises, in order. */
  lemma {:induction false} AdviceReported(w: Repo, e: Entry, fails: set<Path>)
    requires [] in w.dirs
    ensures Advisory(w, e, fails) ==
            (if FileAt(w, ["AGENTS.md"]).None? then ["AGENTS.md not present"] else []) +
            (if [".cursor"] in w.dirs then [] else [".cursor not present"]) +
            (if [".codex"] in w.dirs then ["Codex detected \U{2014} manual run-entry recommended"] else [])
  {
    InstructionsAt(w, e, fails, AGENTS_MD);
    SurfacesAt(w, e, fails, []);
    hide AfterClaude, AfterInstructions, AfterSurfaces, BlockFile, EntryFile;
  }

  /** A run in which nothing fails counts as installed. */
  lemma {:induction false} CleanRunInstalls(w: Repo, e: Entry)
    requires [] in w.dirs
    ensures Installs(Surfaces(w, e, {})[0])
  {
    WithBlockAction(FileAt(w, CLAUDE_MD), e.block);
    hide WithBlock;
  }

  /** The records of the repairs: eight directories, the .gitignore and the contract, in order. */
  lemma {:induction false} RecordsInOrder(w: Repo, fails: set<Path>)
    ensures var rs := Repairs(w, fails);
            && |rs| == 10
            && (forall i | 0 <= i < 8 ::
                  && rs[i].path == Some(REPAIR_DIRS[i]) && rs[i].title == "Create " + Join(REPAIR_DIRS[i], '/')
                  && NamedAfter(rs[i].id, Join(REPAIR_DIRS[i], '/'))
                  && (rs[i].reason.Some? <==> rs[i].status == Status.Blocked))
            && rs[8].id == (if GITIGNORE in w.files then "gitignore_block" else "gitignore_create")
            && rs[9].id == "activation_contract"
            && (forall i | 8 <= i < 10 :: rs[i].status == Status.Blocked <==> rs[i].path.None?)
  {
    var w1 := AfterDirs(w, REPAIR_DIRS, fails);
    DirsReported(w, REPAIR_DIRS, fails);
    DirRecords(w, REPAIR_DIRS, fails);
    LastRecords(w1, AfterGitignore(w1, fails), fails);
    EightDirs();
    hide AfterDirs, AfterGitignore, GitignoreRepair, ContractRepair, DirRepairs, NamedAfter, Join;
    TwoMore(DirRepairs(w, REPAIR_DIRS, fails), GitignoreRepair(w1, fails),
            ContractRepair(AfterGitignore(w1, fails), fails));
  }

  lemma EightDirs()
    ensures |REPAIR_DIRS| == 8
  {
  }

  lemma TwoMore(rs: seq<RepairAction>, a: RepairAction, b: RepairAction)
    requires |rs| == 8
    ensures var all := rs + [a] + [b];
            |all| == 10 && all[8] == a && all[9] == b && forall i | 0 <= i < 8 :: all[i] == rs[i]
  {
  }

  lemma LastRecords(w: Repo, v: Repo, fails: set<Path>)
    ensures GitignoreRepair(w, fails).id == if GITIGNORE in w.files then "gitignore_block" else "gitignore_create"
    ensures GitignoreRepair(w, fails).status == Status.Blocked <==> GitignoreRepair(w, fails).path.None?
    ensures ContractRepair(v, fails).id == "activation_contract"
    ensures ContractRepair(v, fails).status == Status.Blocked <==> ContractRepair(v, fails).path.None?
  {
    hide Contains, GitignoreText, GitignoreDone;
  }

  /** The identifier spells the name with an underscore for every slash and full stop. */
  ghost predicate NamedAfter(id: string, name: string) {
    && |id| == |"create_dir_"| + |name| && "create_dir_" <= id
    && forall i | 0 <= i < |name| :: id[|"create_dir_"| + i] == if name[i] in "/." then '_' else name[i]
  }

  lemma {:induction false} IdNamedAfter(d: Path)
    ensures NamedAfter(DirId(d), Join(d, '/'))
  {
  }

  lemma {:induction false} DirRecords(w: Repo, ds: seq<Path>, fails: set<Path>)
    ensures var rs := DirRepairs(w, ds, fails);
            |rs| == |ds| && forall i | 0 <= i < |ds| ::
              rs[i].path == Some(ds[i]) && rs[i].title == "Create " + Join(ds[i], '/') &&
              NamedAfter(rs[i].id, Join(ds[i], '/')) &&
              (rs[i].reason.Some? <==> rs[i].status == Status.Blocked)
    decreases |ds|
  {
    hide DirId, AfterDirs, DirStatus, NamedAfter, Join;
    if ds != [] {
      DirRecords(w, ds[..|ds| - 1], fails);
      IdNamedAfter(ds[|ds| - 1]);
    }
  }
}
