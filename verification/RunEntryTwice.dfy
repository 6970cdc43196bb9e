/** Running the run entry a second time: what "idempotent" amounts to for the whole repository. */
module RunEntryTwice {
  import opened Text
  import opened ManagedBlock
  import opened RunEntryBlock
  import opened Repository
  import opened SafeRepairs
  import opened RunEntry

  lemma CutTwice(t: string, s: nat, e: nat)
    requires s <= |t| && e <= |t|
    ensures s <= e ==> t == t[..s] + Slice(t, s, e) + t[e..]
    ensures s > e ==> |t[..s] + t[e..]| > |t|
  {
  }

  lemma SameCutSameMiddle(a: string, x: string, y: string, b: string)
    requires a + x + b == a + y + b
    ensures x == y
  {
    var u := a + x + b;
    assert |x| == |y|;
    assert u[|a|..|a| + |x|] == x;
    assert (a + y + b)[|a|..|a| + |y|] == y;
  }

  /** A call that reports an update has changed the text. */
  lemma {:induction false} UpdateChangesText(t: string, block: string, p: string, q: string)
    ensures WithMarkers(Some(t), block, p, q).1 == Unchanged <==> WithMarkers(Some(t), block, p, q).0 == t
  {
    if HasBoth(t, p, q) {
      var s, e := IndexOf(t, p), EndOf(t, q);
      var current := Trim(block);
      hide Trim, IndexOf, Contains;
      CutTwice(t, s, e);
      if s <= e && t[..s] + current + t[e..] == t {
        SameCutSameMiddle(t[..s], current, Slice(t, s, e), t[e..]);
      }
      assert |t[..s] + current + t[e..]| == |t[..s] + t[e..]| + |current|;
    } else {
      assert |t + Separator(t) + block + "\n"| > |t|;
    }
  }

  function Installed(file: Option<string>): string {
    WithBlock(file, RUN_ENTRY_BLOCK).0
  }

  lemma BlockFileIs(file: Option<string>, path: Path)
    ensures BlockFile(file, path, RUN_ENTRY_BLOCK, {}) == Some(Installed(file))
  {
    if file.Some? {
      UpdateChangesText(file.value, RUN_ENTRY_BLOCK, MARKER_START, MARKER_END);
    }
    hide WithMarkers;
    if file.None? {
      CreatesFile();
    }
  }

  lemma CreatesFile()
    ensures WithBlock(None, RUN_ENTRY_BLOCK).1 == Created
  {
  }

  lemma SecondTextSame(file: Option<string>)
    ensures Installed(Some(Installed(file))) == Installed(file) <==> Settles(file, MARKER_START, MARKER_END)
  {
    hide WithMarkers, Settles;
    RunEntrySecondCall(file);
    UpdateChangesText(Installed(file), RUN_ENTRY_BLOCK, MARKER_START, MARKER_END);
  }

  /** After a clean run the Cursor rule needs no further work, and every directory that a run makes is there. */
  lemma NothingLeftToMake(w: Repo, e: Entry)
    requires [] in w.dirs
    ensures var once := AfterRunEntry(w, e, {});
            !CursorNeeded(once) && once.dirs + EntryDirs(once, {}) == once.dirs
  {
    EntryAt(w, e, {}, CURSOR_RULE);
    PathsApart();
    hide AfterRunEntry;
    var once := AfterRunEntry(w, e, {});
    assert CURSOR_RULE in once.files <==> FileAt(once, CURSOR_RULE).Some?;
    SameHead(CURSOR_DIR, RUN_ENTRY_DIR);
    assert EntryDirs(once, {}) == Chain(RUN_ENTRY_DIR);
    assert Chain(RUN_ENTRY_DIR) <= once.dirs;
  }

  /**
   A second run of the run entry leaves every directory, and every file but its own time-stamped contract, as
   the first run left it, exactly when the markers in CLAUDE.md, and in AGENTS.md if there is one, were settled.
   */
  lemma {:induction false} RunEntryIdempotent(w: Repo, e: Entry)
    requires [] in w.dirs && e.block == RUN_ENTRY_BLOCK
    ensures var once := AfterRunEntry(w, e, {});
            var twice := AfterRunEntry(once, e, {});
            && twice.dirs == once.dirs
            && ((forall q | q != RUN_ENTRY_JSON :: FileAt(twice, q) == FileAt(once, q)) <==>
                && Settles(FileAt(w, CLAUDE_MD), MARKER_START, MARKER_END)
                && (AGENTS_MD in w.files ==> Settles(FileAt(w, AGENTS_MD), MARKER_START, MARKER_END)))
  {
    var once := AfterRunEntry(w, e, {});
    NothingLeftToMake(w, e);
    EntryAt(once, e, {}, []);
    RootStaysPresent(w, e);
    SecondFileSame(w, e);
    hide AfterRunEntry, EntryFile, Settles, CursorNeeded, EntryDirs, SecondFile, FileAt;
    forall q ensures FileAt(AfterRunEntry(once, e, {}), q) == SecondFile(w, e, q) {
      FileOfSecondRun(w, e, q);
    }
  }

  lemma {:induction false} SecondFileSame(w: Repo, e: Entry)
    requires [] in w.dirs && e.block == RUN_ENTRY_BLOCK
    ensures (forall q | q != RUN_ENTRY_JSON :: SecondFile(w, e, q) == FileAt(AfterRunEntry(w, e, {}), q)) <==>
            && Settles(FileAt(w, CLAUDE_MD), MARKER_START, MARKER_END)
            && (AGENTS_MD in w.files ==> Settles(FileAt(w, AGENTS_MD), MARKER_START, MARKER_END))
  {
    OnlyInstructionsDiffer(w, e);
    FirstInstructions(w, e);
    SecondInstructions(w, e);
    SecondTextSame(FileAt(w, CLAUDE_MD));
    SecondTextSame(FileAt(w, AGENTS_MD));
    hide *;
  }

  lemma {:induction false} OnlyInstructionsDiffer(w: Repo, e: Entry)
    ensures var once := AfterRunEntry(w, e, {});
            (forall q | q != RUN_ENTRY_JSON :: SecondFile(w, e, q) == FileAt(once, q)) <==>
            && SecondFile(w, e, CLAUDE_MD) == FileAt(once, CLAUDE_MD)
            && SecondFile(w, e, AGENTS_MD) == FileAt(once, AGENTS_MD)
  {
    PathsApart();
    OtherwiseSame(w, e);
    hide *;
  }

  lemma SecondInstructions(w: Repo, e: Entry)
    ensures var once := AfterRunEntry(w, e, {});
            && SecondFile(w, e, CLAUDE_MD) == Some(Installed(FileAt(once, CLAUDE_MD)))
            && SecondFile(w, e, AGENTS_MD) ==
               (if FileAt(once, AGENTS_MD).Some? then Some(Installed(FileAt(once, AGENTS_MD))) else None)
  {
    PathsApart();
    hide AfterRunEntry, Installed, Surfaces, Advisory, FileAt;
  }

  lemma OtherwiseSame(w: Repo, e: Entry)
    ensures forall q | q != CLAUDE_MD && q != AGENTS_MD && q != RUN_ENTRY_JSON ::
              SecondFile(w, e, q) == FileAt(AfterRunEntry(w, e, {}), q)
  {
    hide AfterRunEntry, Installed, Surfaces, Advisory, FileAt;
  }

  lemma RootStaysPresent(w: Repo, e: Entry)
    requires [] in w.dirs
    ensures [] in AfterRunEntry(w, e, {}).dirs
  {
    EntryAt(w, e, {}, []);
  }

  lemma {:induction false} FirstInstructions(w: Repo, e: Entry)
    requires [] in w.dirs && e.block == RUN_ENTRY_BLOCK
    ensures var once := AfterRunEntry(w, e, {});
            && FileAt(once, CLAUDE_MD) == Some(Installed(FileAt(w, CLAUDE_MD)))
            && FileAt(once, AGENTS_MD) ==
               (if AGENTS_MD in w.files then Some(Installed(FileAt(w, AGENTS_MD))) else None)
  {
    EntryAt(w, e, {}, CLAUDE_MD);
    EntryAt(w, e, {}, AGENTS_MD);
    var text := e.render(Surfaces(w, e, {}), Advisory(w, e, {}));
    InstructionFiles(w, e, text);
    hide AfterRunEntry, EntryFile, Installed, Surfaces, Advisory;
  }

  lemma {:induction false} InstructionFiles(w: Repo, e: Entry, text: string)
    requires e.block == RUN_ENTRY_BLOCK
    ensures EntryFile(w, e, text, {}, CLAUDE_MD) == Some(Installed(FileAt(w, CLAUDE_MD)))
    ensures EntryFile(w, e, text, {}, AGENTS_MD) ==
            if AGENTS_MD in w.files then Some(Installed(FileAt(w, AGENTS_MD))) else None
  {
    BlockFileIs(FileAt(w, CLAUDE_MD), CLAUDE_MD);
    BlockFileIs(FileAt(w, AGENTS_MD), AGENTS_MD);
    PathsApart();
    hide BlockFile, Installed, CursorNeeded;
  }

  /** What a second run leaves at one path. */
  function SecondFile(w: Repo, e: Entry, q: Path): Option<string> {
    var once := AfterRunEntry(w, e, {});
    if q == CLAUDE_MD || (q == AGENTS_MD && FileAt(once, AGENTS_MD).Some?) then Some(Installed(FileAt(once, q)))
    else if q == RUN_ENTRY_JSON then Some(e.render(Surfaces(once, e, {}), Advisory(once, e, {})))
    else FileAt(once, q)
  }

  /** A run on a repository that needs no Cursor rule, path by path. */
  lemma {:induction false} FileOfRun(w: Repo, e: Entry, text: string, q: Path)
    requires !CursorNeeded(w) && e.block == RUN_ENTRY_BLOCK
    ensures EntryFile(w, e, text, {}, q) ==
            if q == CLAUDE_MD || (q == AGENTS_MD && FileAt(w, AGENTS_MD).Some?) then Some(Installed(FileAt(w, q)))
            else if q == RUN_ENTRY_JSON then Some(text)
            else FileAt(w, q)
  {
    BlockFileIs(FileAt(w, q), q);
    hide BlockFile, Installed, CursorNeeded;
  }

  lemma {:induction false} FileOfSecondRun(w: Repo, e: Entry, q: Path)
    requires [] in w.dirs && [] in AfterRunEntry(w, e, {}).dirs && e.block == RUN_ENTRY_BLOCK
    ensures FileAt(AfterRunEntry(AfterRunEntry(w, e, {}), e, {}), q) == SecondFile(w, e, q)
  {
    var once := AfterRunEntry(w, e, {});
    NothingLeftToMake(w, e);
    EntryAt(once, e, {}, q);
    FileOfRun(once, e, e.render(Surfaces(once, e, {}), Advisory(once, e, {})), q);
    hide AfterRunEntry, EntryFile, FileAt, Installed, CursorNeeded, Surfaces, Advisory;
  }
}
