/** The settings value of `.claude/settings.json` and the hook configuration of the Claude Code adapter. */
module HookSettings {
  import opened Text
  import opened Collections
  import opened JsonObjects

  /** `rest` is the JSON text of the remaining fields, which no operation looks at. */
  datatype HookEntry = HookEntry(command: Option<string>, rest: string)
  datatype HookGroup = HookGroup(matcher: Option<string>, hooks: Option<seq<HookEntry>>)
  type HookTable = Dict<seq<HookGroup>>

  /** `Other` holds the JSON text of any value that has no properties. */
  datatype SettingValue = Hooks(table: HookTable) | Other(json: string)
  type Settings = Dict<SettingValue>

  /** The bytes of a settings file: either `JSON.parse` throws, or it yields a settings value. */
  datatype Content = Unparseable(bytes: string) | Parsed(settings: Settings)

  const LIFECYCLE_EVENTS: seq<string> :=
    ["SessionStart", "UserPromptSubmit", "PreToolUse", "PostToolUse", "Stop", "SessionEnd"]

  // ----- Recognising Avorelo hooks -----

  const AVORELO := "avorelo"
  const LIFECYCLE_HOOK := "lifecycle-hook"

  /** `/avorelo[\s\S]*lifecycle-hook/i.test(command)` */
  predicate IsAvoreloCommand(command: string) {
    var c := LowerAll(command);
    exists i, j | 0 <= i < |c| && i + |AVORELO| <= j < |c| :: OccursAt(c, AVORELO, i) && OccursAt(c, LIFECYCLE_HOOK, j)
  }

  predicate IsAvoreloHook(g: HookGroup) {
    g.hooks.Some? && exists k | 0 <= k < |g.hooks.value| ::
      IsAvoreloCommand(match g.hooks.value[k].command case Some(c) => c case None => "")
  }

  predicate AnyAvorelo(gs: seq<HookGroup>) {
    exists k | 0 <= k < |gs| :: IsAvoreloHook(gs[k])
  }

  /** `groups.filter((g) => !isAvoreloHook(g))` */
  function Foreign(gs: seq<HookGroup>): seq<HookGroup> {
    if gs == [] then []
    else if IsAvoreloHook(gs[0]) then Foreign(gs[1..])
    else [gs[0]] + Foreign(gs[1..])
  }

  lemma {:induction false} ForeignSpec(gs: seq<HookGroup>)
    ensures !AnyAvorelo(Foreign(gs))
    ensures !AnyAvorelo(gs) ==> Foreign(gs) == gs
    ensures Foreign(Foreign(gs)) == Foreign(gs)
  {
    if gs != [] {
      ForeignSpec(gs[1..]);
      assert forall k | 0 <= k < |gs| - 1 :: gs[1..][k] == gs[k + 1];
    }
  }

  lemma {:induction false} ForeignAppend(a: seq<HookGroup>, b: seq<HookGroup>)
    ensures Foreign(a + b) == Foreign(a) + Foreign(b)
  {
    if a == [] {
      assert a + b == b;
    } else {
      assert (a + b)[1..] == a[1..] + b;
      ForeignAppend(a[1..], b);
    }
  }

  // ----- The hooks that Avorelo installs -----

  function HookCommand(base: string, event: string): string {
    base + " lifecycle-hook " + event
  }

  function BuiltGroup(base: string, event: string): HookGroup {
    HookGroup(if event == "PreToolUse" || event == "PostToolUse" then Some("*") else None,
              Some([HookEntry(Some(HookCommand(base, event)), "\"type\":\"command\"")]))
  }

  /** `buildHookConfig()`: one group under each lifecycle event. */
  function HookConfig(base: string): HookTable {
    Dict(LIFECYCLE_EVENTS, map ev | ev in LIFECYCLE_EVENTS :: [BuiltGroup(base, ev)])
  }

  /** What decides whether the installed command will be recognised later. */
  predicate NamesAvorelo(base: string) {
    Contains(LowerAll(base), AVORELO)
  }

  /** The lower-cased part of the command after its base. */
  function CommandTail(event: string): string {
    " lifecycle-hook " + LowerAll(event)
  }

  lemma EventsDoNotNameAvorelo(event: string)
    requires event in LIFECYCLE_EVENTS
    ensures forall i :: !OccursAt(CommandTail(event), AVORELO, i)
  {
    var t := CommandTail(event);
    assert AVORELO[1] == 'v';
    assert forall i | 0 <= i < |t| :: t[i] != 'v';
    NoOccurrenceWithout(t, AVORELO, 'v');
  }

  lemma LoweredCommand(base: string, event: string)
    ensures LowerAll(HookCommand(base, event)) == LowerAll(base) + CommandTail(event)
  {
    LowerAppend(base, " lifecycle-hook " + event);
    LowerAppend(" lifecycle-hook ", event);
    assert LowerAll(" lifecycle-hook ") == " lifecycle-hook ";
    assert HookCommand(base, event) == base + (" lifecycle-hook " + event);
  }

  /** A built command is recognised exactly when its base mentions avorelo, in any letter case. */
  lemma BuiltCommandRecognised(base: string, event: string)
    requires event in LIFECYCLE_EVENTS
    ensures IsAvoreloCommand(HookCommand(base, event)) <==> NamesAvorelo(base)
  {
    LoweredCommand(base, event);
    EventsDoNotNameAvorelo(event);
    TailCompletesMatch(LowerAll(base), CommandTail(event));
  }

  lemma TailCompletesMatch(b: string, t: string)
    requires " lifecycle-hook " <= t
    requires forall k :: !OccursAt(t, AVORELO, k)
    ensures (exists i, j | 0 <= i < |b + t| && i + |AVORELO| <= j < |b + t| ::
               OccursAt(b + t, AVORELO, i) && OccursAt(b + t, LIFECYCLE_HOOK, j)) <==>
            Contains(b, AVORELO)
  {
    HookInTail(b, t);
    hide OccursAt;
    if i :| OccursAt(b, AVORELO, i) {
      MatchStarts(b, t, i);
    }
    forall i | OccursAt(b + t, AVORELO, i) ensures OccursAt(b, AVORELO, i) {
      OccurrenceStaysLeft(b, t, i);
    }
  }

  lemma HookInTail(b: string, t: string)
    requires " lifecycle-hook " <= t
    ensures OccursAt(b + t, LIFECYCLE_HOOK, |b| + 1) && |b| + 1 < |b + t|
  {
    assert t[1..1 + |LIFECYCLE_HOOK|] == " lifecycle-hook "[1..1 + |LIFECYCLE_HOOK|] == LIFECYCLE_HOOK;
    OccursInParts(b, t, LIFECYCLE_HOOK, |b| + 1);
  }

  lemma MatchStarts(b: string, t: string, i: int)
    requires OccursAt(b, AVORELO, i)
    ensures 0 <= i && i + |AVORELO| <= |b| && OccursAt(b + t, AVORELO, i)
  {
    OccursInParts(b, t, AVORELO, i);
  }

  lemma BuiltGroupRecognised(base: string, event: string)
    requires event in LIFECYCLE_EVENTS
    ensures IsAvoreloHook(BuiltGroup(base, event)) <==> NamesAvorelo(base)
  {
    BuiltCommandRecognised(base, event);
    assert BuiltGroup(base, event).hooks.value[0].command == Some(HookCommand(base, event));
  }

  /** "avorelo" has no space, so it cannot reach across the space that follows the base. */
  lemma OccurrenceStaysLeft(b: string, t: string, i: int)
    requires t != [] && t[0] == ' '
    requires forall k :: !OccursAt(t, AVORELO, k)
    requires OccursAt(b + t, AVORELO, i)
    ensures OccursAt(b, AVORELO, i)
  {
    var c := b + t;
    assert c[|b|] == ' ' && ' ' !in AVORELO;
    OccurrenceAvoids(c, AVORELO, i, |b|);
    OccursInParts(b, t, AVORELO, i);
  }

  // ----- Reading and rewriting the hook table -----

  /** `settings.hooks ?? {}` */
  function HooksOf(s: Settings): HookTable {
    if "hooks" in s.vals && s.vals["hooks"].Hooks? then s.vals["hooks"].table else EmptyDict()
  }

  /** The groups that a settings value registers for an event. */
  function GroupsAt(s: Settings, event: string): seq<HookGroup> {
    ListAt(HooksOf(s), event)
  }

  predicate HasAvorelo(s: Settings) {
    exists k | 0 <= k < |LIFECYCLE_EVENTS| :: AnyAvorelo(GroupsAt(s, LIFECYCLE_EVENTS[k]))
  }

  /** The settings that an install writes. */
  function Installed(s: Settings, base: string): Settings {
    Put(s, "hooks", Hooks(Merged(HooksOf(s), Foreign, HookConfig(base), LIFECYCLE_EVENTS)))
  }

  /** The settings that an uninstall writes when the file parses. */
  function Stripped(s: Settings): Settings {
    if "hooks" in s.vals && s.vals["hooks"].Hooks?
    then Put(s, "hooks", Hooks(Pruned(s.vals["hooks"].table, Foreign, LIFECYCLE_EVENTS)))
    else s
  }

  lemma LifecycleEventsDistinct()
    ensures Distinct(LIFECYCLE_EVENTS)
  {
    assert |LIFECYCLE_EVENTS[0]| == 12 && |LIFECYCLE_EVENTS[1]| == 16 && |LIFECYCLE_EVENTS[2]| == 10;
    assert |LIFECYCLE_EVENTS[3]| == 11 && |LIFECYCLE_EVENTS[4]| == 4;
    assert LIFECYCLE_EVENTS[5][7] == 'E' && |LIFECYCLE_EVENTS[5]| == 10;
    assert LIFECYCLE_EVENTS[2][7] == 'U';
  }

  /** The groups that an install leaves under an event. */
  function InstalledGroups(s: Settings, base: string, ev: string): seq<HookGroup> {
    if ev in LIFECYCLE_EVENTS then Foreign(GroupsAt(s, ev)) + [BuiltGroup(base, ev)] else GroupsAt(s, ev)
  }

  lemma InstalledAt(s: Settings, base: string, ev: string)
    ensures GroupsAt(Installed(s, base), ev) == InstalledGroups(s, base, ev)
  {
    LifecycleEventsDistinct();
    MergedAt(HooksOf(s), Foreign, HookConfig(base), LIFECYCLE_EVENTS, ev);
  }

  /**
   Install is exact: each lifecycle event ends with its foreign groups in their old order and then exactly
   one built group, every other event and every other setting is unchanged, and only missing keys are added.
   */
  lemma {:induction false} InstalledExactly(s: Settings, base: string)
    ensures forall ev :: GroupsAt(Installed(s, base), ev) == InstalledGroups(s, base, ev)
    ensures HooksOf(Installed(s, base)).keys == HooksOf(s).keys + NewKeys(HooksOf(s), LIFECYCLE_EVENTS)
    ensures Installed(s, base).keys == s.keys + if "hooks" in s.vals then [] else ["hooks"]
    ensures Installed(s, base).vals - {"hooks"} == s.vals - {"hooks"}
  {
    LifecycleEventsDistinct();
    MergedKeys(HooksOf(s), Foreign, HookConfig(base), LIFECYCLE_EVENTS);
    forall ev ensures GroupsAt(Installed(s, base), ev) == InstalledGroups(s, base, ev) {
      InstalledAt(s, base, ev);
    }
  }

  /** Foreign groups survive an install, and a recognised group that is added is not one of them. */
  lemma ForeignAfterMerge(gs: seq<HookGroup>, base: string, event: string)
    requires event in LIFECYCLE_EVENTS
    ensures Foreign(Foreign(gs) + [BuiltGroup(base, event)]) ==
            Foreign(gs) + if NamesAvorelo(base) then [] else [BuiltGroup(base, event)]
  {
    ForeignSpec(gs);
    ForeignAppend(Foreign(gs), [BuiltGroup(base, event)]);
    BuiltGroupRecognised(base, event);
  }

  lemma ForeignAfterConfig(gs: seq<HookGroup>, base: string, event: string)
    requires event in LIFECYCLE_EVENTS && NamesAvorelo(base)
    ensures Foreign(Foreign(gs) + ListAt(HookConfig(base), event)) == Foreign(gs)
  {
    ForeignAfterMerge(gs, base, event);
    assert ListAt(HookConfig(base), event) == [BuiltGroup(base, event)];
  }

  lemma MergeConfigTwice(t: HookTable, base: string, events: seq<string>)
    requires Distinct(events) && NamesAvorelo(base)
    requires forall ev | ev in events :: ev in LIFECYCLE_EVENTS
    ensures Merged(Merged(t, Foreign, HookConfig(base), events), Foreign, HookConfig(base), events) ==
            Merged(t, Foreign, HookConfig(base), events)
  {
    forall ev | ev in events
      ensures Foreign(Foreign(ListAt(t, ev)) + ListAt(HookConfig(base), ev)) == Foreign(ListAt(t, ev))
    {
      ForeignAfterConfig(ListAt(t, ev), base, ev);
    }
    MergeTwice(t, Foreign, HookConfig(base), events);
  }

  /** Installing twice with one recognised command is installing once. */
  lemma InstalledIdempotent(s: Settings, base: string)
    requires NamesAvorelo(base)
    ensures Installed(Installed(s, base), base) == Installed(s, base)
  {
    LifecycleEventsDistinct();
    MergeConfigTwice(HooksOf(s), base, LIFECYCLE_EVENTS);
    var once := Installed(s, base);
    assert HooksOf(once) == Merged(HooksOf(s), Foreign, HookConfig(base), LIFECYCLE_EVENTS);
    assert once.vals["hooks" := once.vals["hooks"]] == once.vals;
  }

  lemma AnyAvoreloLast(f: seq<HookGroup>, b: HookGroup)
    requires !AnyAvorelo(f)
    ensures AnyAvorelo(f + [b]) <==> IsAvoreloHook(b)
  {
    assert (f + [b])[|f|] == b;
    assert forall k | 0 <= k < |f| :: (f + [b])[k] == f[k];
  }

  lemma EventRecognised(s: Settings, base: string, event: string)
    requires event in LIFECYCLE_EVENTS
    ensures AnyAvorelo(GroupsAt(Installed(s, base), event)) <==> NamesAvorelo(base)
  {
    InstalledExactly(s, base);
    ForeignSpec(GroupsAt(s, event));
    BuiltGroupRecognised(base, event);
    AnyAvoreloLast(Foreign(GroupsAt(s, event)), BuiltGroup(base, event));
  }

  /** Right after an install the settings count as activated exactly when the command base mentions avorelo. */
  lemma {:induction false} InstalledRecognised(s: Settings, base: string)
    ensures HasAvorelo(Installed(s, base)) <==> NamesAvorelo(base)
  {
    forall k | 0 <= k < |LIFECYCLE_EVENTS|
      ensures AnyAvorelo(GroupsAt(Installed(s, base), LIFECYCLE_EVENTS[k])) <==> NamesAvorelo(base)
    {
      EventRecognised(s, base, LIFECYCLE_EVENTS[k]);
    }
  }

  /** Stripping keeps every key, every other setting and every foreign group, in order, and nothing of Avorelo. */
  lemma StrippedExactly(s: Settings)
    ensures !HasAvorelo(Stripped(s))
    ensures forall ev :: GroupsAt(Stripped(s), ev) ==
                         if ev in LIFECYCLE_EVENTS then Foreign(GroupsAt(s, ev)) else GroupsAt(s, ev)
    ensures HooksOf(Stripped(s)).keys == HooksOf(s).keys
    ensures Stripped(s).keys == s.keys
    ensures Stripped(s).vals - {"hooks"} == s.vals - {"hooks"}
  {
    LifecycleEventsDistinct();
    PrunedAt(HooksOf(s), Foreign, LIFECYCLE_EVENTS, "");
    forall ev
      ensures GroupsAt(Stripped(s), ev) == if ev in LIFECYCLE_EVENTS then Foreign(GroupsAt(s, ev)) else GroupsAt(s, ev)
    {
      StrippedAt(s, ev);
    }
    forall k | 0 <= k < |LIFECYCLE_EVENTS| ensures !AnyAvorelo(GroupsAt(Stripped(s), LIFECYCLE_EVENTS[k])) {
      ForeignSpec(GroupsAt(s, LIFECYCLE_EVENTS[k]));
      hide AnyAvorelo, Stripped, Foreign, GroupsAt;
    }
  }

  lemma StrippedAt(s: Settings, ev: string)
    ensures GroupsAt(Stripped(s), ev) == if ev in LIFECYCLE_EVENTS then Foreign(GroupsAt(s, ev)) else GroupsAt(s, ev)
  {
    LifecycleEventsDistinct();
    PrunedAt(HooksOf(s), Foreign, LIFECYCLE_EVENTS, ev);
    ForeignSpec([]);
    hide Distinct, Foreign;
  }

  /** Stripping settings that hold no Avorelo group changes nothing. */
  lemma StrippedCleanUnchanged(s: Settings)
    requires !HasAvorelo(s)
    ensures Stripped(s) == s
  {
    LifecycleEventsDistinct();
    var t := HooksOf(s);
    forall ev | ev in LIFECYCLE_EVENTS && ev in t.vals ensures Foreign(t.vals[ev]) == t.vals[ev] {
      var k :| 0 <= k < |LIFECYCLE_EVENTS| && LIFECYCLE_EVENTS[k] == ev;
      assert !AnyAvorelo(GroupsAt(s, LIFECYCLE_EVENTS[k]));
      ForeignSpec(t.vals[ev]);
    }
    PruneNothing(t, Foreign, LIFECYCLE_EVENTS);
    if "hooks" in s.vals && s.vals["hooks"].Hooks? {
      assert s.vals["hooks" := s.vals["hooks"]] == s.vals;
    }
  }
}
