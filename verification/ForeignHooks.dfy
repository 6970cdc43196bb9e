/** Which hooks are foreign, in words that do not go through the recogniser, and what becomes of them. */
module ForeignHooks {
  import opened Text
  import opened JsonObjects
  import opened HookSettings
  import opened HookInstaller
  import opened HookRuns
  import opened HookRoundTrip

  // ----- What the recogniser matches -----

  /** In lower case the command is made of these parts. */
  ghost predicate Names(command: string, before: string, between: string, behind: string) {
    LowerAll(command) == before + "avorelo" + between + "lifecycle-hook" + behind
  }

  ghost predicate NamesAvoreloHook(command: string) {
    exists before, between, behind :: Names(command, before, between, behind)
  }

  lemma OccursWhole(a: string, p: string, b: string)
    ensures OccursAt(a + p + b, p, |a|)
  {
    assert (a + p + b)[|a|..|a| + |p|] == p;
  }

  lemma TwoOccurrences(c: string, i: nat, j: nat)
    requires OccursAt(c, AVORELO, i) && OccursAt(c, LIFECYCLE_HOOK, j) && i + |AVORELO| <= j
    ensures j + |LIFECYCLE_HOOK| <= |c|
    ensures c == c[..i] + AVORELO + c[i + |AVORELO|..j] + LIFECYCLE_HOOK + c[j + |LIFECYCLE_HOOK|..]
  {
    var k, l := i + |AVORELO|, j + |LIFECYCLE_HOOK|;
    assert c == c[..i] + c[i..k] + c[k..j] + c[j..l] + c[l..];
  }

  lemma {:induction false} RecognisedIsNamed(command: string)
    requires IsAvoreloCommand(command)
    ensures NamesAvoreloHook(command)
  {
    var c := LowerAll(command);
    var i, j :| 0 <= i < |c| && i + |AVORELO| <= j < |c| && OccursAt(c, AVORELO, i) && OccursAt(c, LIFECYCLE_HOOK, j);
    hide OccursAt, LowerAll;
    TwoOccurrences(c, i, j);
    assert Names(command, c[..i], c[i + |AVORELO|..j], c[j + |LIFECYCLE_HOOK|..]);
  }

  lemma {:induction false} PartsOccur(c: string, a: string, m: string, z: string)
    requires c == a + AVORELO + m + LIFECYCLE_HOOK + z
    ensures OccursAt(c, AVORELO, |a|) && OccursAt(c, LIFECYCLE_HOOK, |a| + |AVORELO| + |m|)
    ensures |a| + |AVORELO| + |m| < |c|
  {
    hide OccursAt;
    OccursWhole(a, AVORELO, m + LIFECYCLE_HOOK + z);
    OccursWhole(a + AVORELO + m, LIFECYCLE_HOOK, z);
    assert c == a + AVORELO + (m + LIFECYCLE_HOOK + z);
  }

  lemma {:induction false} NamedIsRecognised(command: string)
    requires NamesAvoreloHook(command)
    ensures IsAvoreloCommand(command)
  {
    var a, m, z :| Names(command, a, m, z);
    hide OccursAt, LowerAll;
    PartsOccur(LowerAll(command), a, m, z);
  }

  /**
   A command is recognised if and only if, up to letter case, it is made of any text, "avorelo", any text,
   "lifecycle-hook" and any text.
   */
  lemma {:induction false} RecognisedCommands(command: string)
    ensures IsAvoreloCommand(command) <==> NamesAvoreloHook(command)
  {
    hide IsAvoreloCommand, NamesAvoreloHook;
    if IsAvoreloCommand(command) {
      RecognisedIsNamed(command);
    }
    if NamesAvoreloHook(command) {
      NamedIsRecognised(command);
    }
  }

  /** A base mentions avorelo if and only if, up to letter case, it has "avorelo" in it. */
  lemma {:induction false} BasesThatName(base: string)
    ensures NamesAvorelo(base) <==> exists before, behind :: LowerAll(base) == before + "avorelo" + behind
  {
    var c := LowerAll(base);
    assert AVORELO == "avorelo";
    if i :| OccursAt(c, AVORELO, i) {
      assert c == c[..i] + "avorelo" + c[i + |AVORELO|..];
    }
    if a, z :| c == a + "avorelo" + z {
      OccursWhole(a, AVORELO, z);
    }
  }

  /** Only the twenty-six letters fold, each to its own small letter. */
  lemma LetterCase(i: nat, c: char)
    requires i < 26
    ensures Lower("ABCDEFGHIJKLMNOPQRSTUVWXYZ"[i]) == "abcdefghijklmnopqrstuvwxyz"[i]
    ensures c !in "ABCDEFGHIJKLMNOPQRSTUVWXYZ" ==> Lower(c) == c
  {
    var capitals := "ABCDEFGHIJKLMNOPQRSTUVWXYZ";
    assert 'A' <= c <= 'Z' ==> capitals[c as int - 'A' as int] == c;
  }

  // ----- Foreign groups -----

  /** Some command of the group names an Avorelo hook; an entry without a command names none. */
  ghost predicate HoldsAvoreloHook(g: HookGroup) {
    g.hooks.Some? && exists k | 0 <= k < |g.hooks.value| && g.hooks.value[k].command.Some? ::
      NamesAvoreloHook(g.hooks.value[k].command.value)
  }

  lemma {:induction false} NothingIsNotRecognised()
    ensures !IsAvoreloCommand("")
  {
  }

  lemma {:induction false} RecognisedGroups(g: HookGroup)
    ensures IsAvoreloHook(g) <==> HoldsAvoreloHook(g)
  {
    hide IsAvoreloCommand, NamesAvoreloHook;
    NothingIsNotRecognised();
    if g.hooks.Some? {
      forall k | 0 <= k < |g.hooks.value| && g.hooks.value[k].command.Some?
        ensures IsAvoreloCommand(g.hooks.value[k].command.value) <==> NamesAvoreloHook(g.hooks.value[k].command.value)
      {
        RecognisedCommands(g.hooks.value[k].command.value);
      }
    }
  }

  lemma CountOfFirst(x: HookGroup, s: seq<HookGroup>, g: HookGroup)
    ensures multiset([x] + s)[g] == multiset(s)[g] + if x == g then 1 else 0
  {
  }

  /** The foreign groups are the groups without such a command, each as often as it stood there. */
  lemma {:induction false} ForeignGroups(gs: seq<HookGroup>, g: HookGroup)
    ensures multiset(Foreign(gs))[g] == if HoldsAvoreloHook(g) then 0 else multiset(gs)[g]
  {
    hide IsAvoreloHook, HoldsAvoreloHook;
    if gs != [] {
      ForeignGroups(gs[1..], g);
      RecognisedGroups(gs[0]);
      CountOfFirst(gs[0], gs[1..], g);
      CountOfFirst(gs[0], Foreign(gs[1..]), g);
      assert gs == [gs[0]] + gs[1..];
    }
  }

  lemma CountOfAppended(a: seq<HookGroup>, b: seq<HookGroup>, g: HookGroup)
    ensures multiset(a + b)[g] == multiset(a)[g] + multiset(b)[g]
  {
  }

  /** An install keeps every group without such a command, under every event, and takes none away. */
  lemma {:induction false} InstallKeeps(s: Settings, base: string, ev: string, g: HookGroup)
    requires !HoldsAvoreloHook(g)
    ensures multiset(GroupsAt(Installed(s, base), ev))[g] >= multiset(GroupsAt(s, ev))[g]
  {
    InstalledAt(s, base, ev);
    ForeignGroups(GroupsAt(s, ev), g);
    CountOfAppended(Foreign(GroupsAt(s, ev)), [BuiltGroup(base, ev)], g);
    hide GroupsAt, Installed, HoldsAvoreloHook, Foreign, BuiltGroup;
  }

  lemma {:induction false} StripKeeps(s: Settings, ev: string, g: HookGroup)
    requires !HoldsAvoreloHook(g)
    ensures multiset(GroupsAt(Stripped(s), ev))[g] == multiset(GroupsAt(s, ev))[g]
  {
    StrippedExactly(s);
    ForeignGroups(GroupsAt(s, ev), g);
    hide *;
  }

  lemma {:induction false} InstallsKeep(st: Store, installs: seq<Op>, ev: string, g: HookGroup)
    requires Activations(installs) && !HoldsAvoreloHook(g)
    ensures multiset(GroupsAt(Existing(Run(st, installs).settings), ev))[g] >=
            multiset(GroupsAt(Existing(st.settings), ev))[g]
    decreases |installs|
  {
    if installs != [] {
      var n := |installs| - 1;
      InstallsKeep(st, installs[..n], ev, g);
      InstallKeeps(Existing(Run(st, installs[..n]).settings), installs[n].base, ev, g);
      hide HoldsAvoreloHook, GroupsAt, Installed, NeedsBackup, BackupName;
    }
  }

  /** After any activations and an uninstall that restores nothing, a group without such a command is still there. */
  lemma {:induction false} NotTakenAway(st: Store, installs: seq<Op>, ev: string, g: HookGroup)
    requires Activations(installs) && Baseline(Run(st, installs)).None? && !HoldsAvoreloHook(g)
    requires g in GroupsAt(Existing(st.settings), ev)
    ensures g in GroupsAt(Existing(AfterUninstall(Run(st, installs)).settings), ev)
  {
    var c := Run(st, installs).settings;
    InstallsKeep(st, installs, ev, g);
    StripKeeps(Existing(c), ev, g);
    StrippedNothing();
    hide Run, GroupsAt, HoldsAvoreloHook, Stripped, Baseline;
  }

  lemma StrippedNothing()
    ensures Stripped(EmptyDict()) == EmptyDict()
  {
  }

  // ----- The hooks that Avorelo adds -----

  /** One group that runs the command for the event, on every tool if the event is about tools. */
  ghost predicate RunsOn(g: HookGroup, base: string, ev: string) {
    && (g.matcher == Some("*") <==> ev == "PreToolUse" || ev == "PostToolUse")
    && (g.matcher == None <==> ev != "PreToolUse" && ev != "PostToolUse")
    && g.hooks.Some? && |g.hooks.value| == 1
    && g.hooks.value[0].command == Some(base + " lifecycle-hook " + ev)
    && g.hooks.value[0].rest == "\"type\":\"command\""
  }

  lemma {:induction false} ConfigInFull(base: string)
    ensures HookConfig(base).keys ==
            ["SessionStart", "UserPromptSubmit", "PreToolUse", "PostToolUse", "Stop", "SessionEnd"]
    ensures forall ev :: ev in HookConfig(base).vals <==> ev in HookConfig(base).keys
    ensures forall ev | ev in HookConfig(base).vals ::
              |HookConfig(base).vals[ev]| == 1 && RunsOn(HookConfig(base).vals[ev][0], base, ev)
  {
    forall ev | ev in LIFECYCLE_EVENTS ensures RunsOn(BuiltGroup(base, ev), base, ev) {
      BuiltRuns(base, ev);
    }
    hide BuiltGroup, RunsOn;
  }

  lemma BuiltRuns(base: string, ev: string)
    ensures RunsOn(BuiltGroup(base, ev), base, ev)
  {
  }
}
