/**
 Installing and uninstalling the Claude Code hooks of one repository: the state is the settings file and the
 folder of timestamped backups.
 */
module HookInstaller {
  import opened Text
  import opened JsonObjects
  import opened HookSettings
  import opened StableSort
  import opened StringOrder

  datatype Store = Store(settings: Option<Content>, backups: map<string, Content>)

  function BackupName(now: nat): string {
    "settings-" + (Decimal(now) + ".json")
  }

  predicate IsBackupName(name: string) {
    StartsWith(name, "settings-")
  }

  /** The guard of the backup branch: there is a settings file, and it is not an activated one. */
  predicate NeedsBackup(c: Option<Content>) {
    c.Some? && (c.value.Parsed? ==> !HasAvorelo(c.value.settings))
  }

  predicate CleanContent(c: Content) {
    c.Parsed? ==> !HasAvorelo(c.settings)
  }

  /** The settings that an install merges into. */
  function Existing(c: Option<Content>): Settings {
    if c.Some? && c.value.Parsed? then c.value.settings else EmptyDict()
  }

  function AfterInstall(st: Store, base: string, now: nat): Store {
    Store(Some(Parsed(Installed(Existing(st.settings), base))),
          if NeedsBackup(st.settings) then st.backups[BackupName(now) := st.settings.value] else st.backups)
  }

  function StripContent(c: Content): Content {
    if c.Parsed? then Parsed(Stripped(c.settings)) else c
  }

  ghost predicate IsNewest(names: set<string>, r: Option<string>) {
    match r
    case None => forall n | n in names :: !IsBackupName(n)
    case Some(best) =>
      && best in names && IsBackupName(best)
      && forall n | n in names && IsBackupName(n) :: Leq(n, best)
  }

  lemma NewestUnique(names: set<string>, r: Option<string>, q: Option<string>)
    requires IsNewest(names, r) && IsNewest(names, q)
    ensures r == q
  {
    if r.Some? && q.Some? {
      LeqAntisymmetric(r.value, q.value);
    }
  }

  ghost function Pick(names: set<string>): (n: string)
    requires names != {}
    ensures n in names
  {
    var n :| n in names; n
  }

  /** The last backup name in string order. */
  ghost function Newest(names: set<string>): (r: Option<string>)
    ensures r.Some? ==> r.value in names
  {
    if names == {} then None
    else
      var n := Pick(names);
      var r := Newest(names - {n});
      if !IsBackupName(n) then r
      else if r.None? then Some(n)
      else if Leq(n, r.value) then r
      else Some(n)
  }

  lemma {:induction false} NewestSpec(names: set<string>)
    ensures IsNewest(names, Newest(names))
  {
    if names != {} {
      var n := Pick(names);
      NewestSpec(names - {n});
      NewestStep(names - {n}, Newest(names - {n}), n);
      assert names - {n} + {n} == names;
      hide Leq, IsBackupName, IsNewest;
    }
  }

  lemma NewestStep(names: set<string>, r: Option<string>, n: string)
    requires IsNewest(names, r)
    ensures IsNewest(names + {n}, if IsBackupName(n) && (r.None? || !Leq(n, r.value)) then Some(n) else r)
  {
    LeqTotal(n, n);
    if IsBackupName(n) && r.Some? && !Leq(n, r.value) {
      LaterIsNewest(names, r.value, n);
    }
    hide Leq, IsBackupName;
  }

  lemma LaterIsNewest(names: set<string>, best: string, n: string)
    requires IsNewest(names, Some(best)) && IsBackupName(n) && !Leq(n, best)
    ensures IsNewest(names + {n}, Some(n))
  {
    LeqTotal(n, best);
    LeqTotal(n, n);
    forall m | m in names && IsBackupName(m) ensures Leq(m, n) {
      LeqTransitive(m, best, n);
    }
  }

  ghost function Baseline(st: Store): Option<Content> {
    match Newest(st.backups.Keys)
    case Some(n) => Some(st.backups[n])
    case None => None
  }

  ghost function AfterUninstall(st: Store): Store {
    var c := if Baseline(st).Some? then Baseline(st) else st.settings;
    Store(if c.Some? then Some(StripContent(c.value)) else None, st.backups)
  }

  // ----- The adapter's methods -----

  datatype Refusal = HomeDirectory | InsideGlobalClaude | NotApproved

  datatype InstallOutcome =
    | Refused(why: Refusal)
    | Activated(backup: Option<string>, merged: bool, reasonCodes: seq<string>)

  datatype Validation = Validation(installed: bool, wellFormed: bool, missingEvents: seq<string>, problems: seq<string>)

  function GlobalClaude(home: string): string {
    home + (if EndsWith(home, '/') then ".claude" else "/.claude")
  }

  /** Whether an install is refused, for a resolved target and home directory. */
  function RefusalOf(target: string, home: string, approve: bool): Option<Refusal> {
    if target == home then Some(HomeDirectory)
    else if target == GlobalClaude(home) || StartsWith(target, GlobalClaude(home) + "/") then Some(InsideGlobalClaude)
    else if !approve then Some(NotApproved)
    else None
  }

  /** An install goes ahead if and only if it is approved and the target is outside the home's own place. */
  lemma {:induction false} GoesAhead(target: string, home: string, approve: bool)
    requires !EndsWith(home, '/')
    ensures RefusalOf(target, home, approve).None? <==>
            approve && target != home && target != home + "/.claude" &&
            !exists rest :: target == home + "/.claude" + "/" + rest
  {
    var g := home + "/.claude";
    assert GlobalClaude(home) == g;
    if StartsWith(target, g + "/") {
      assert target == g + "/" + target[|g| + 1..];
    }
    if rest :| target == g + "/" + rest {
      assert target[..|g| + 1] == g + "/";
    }
  }

  const MERGED_BACKED_UP := "MERGED_BACKED_UP"
  const FRESH_INSTALL := "FRESH_INSTALL"

  /** What an install that goes ahead reports. */
  function InstallReport(c: Option<Content>, now: nat): InstallOutcome {
    var merged := c.Some? && c.value.Parsed?;
    Activated(if NeedsBackup(c) then Some(BackupName(now)) else None, merged,
              [if merged then MERGED_BACKED_UP else FRESH_INSTALL])
  }

  lemma ReportsDiffer()
    ensures MERGED_BACKED_UP != FRESH_INSTALL
  {
    assert |MERGED_BACKED_UP| == 16 && |FRESH_INSTALL| == 13;
  }

  /** The reported backup is the one that is stored. */
  lemma ReportedBackup(st: Store, base: string, now: nat)
    ensures var backup := InstallReport(st.settings, now).backup;
            AfterInstall(st, base, now).backups ==
            if backup.None? then st.backups else st.backups[backup.value := st.settings.value]
  {
  }

  /**
   The reason code tells whether a backup was taken exactly when the settings file is missing or parses without
   Avorelo groups.
   */
  lemma ReasonCodeTellsBackup(c: Option<Content>, now: nat)
    ensures var r := InstallReport(c, now);
            (r.reasonCodes == [MERGED_BACKED_UP] <==> r.backup.Some?) <==>
            c.None? || (c.value.Parsed? && !HasAvorelo(c.value.settings))
  {
    ReportsDiffer();
    hide HasAvorelo, BackupName;
    var r := InstallReport(c, now);
    assert r.reasonCodes[0] == MERGED_BACKED_UP <==> r.merged;
  }

  /** On an activated file the code speaks of a backup that was not taken. */
  lemma ActivatedFileMisreported(s: Settings, now: nat)
    requires HasAvorelo(s)
    ensures var r := InstallReport(Some(Parsed(s)), now);
            r.backup.None? && r.reasonCodes == [MERGED_BACKED_UP]
  {
  }

  /** On an unparseable file it is silent about the backup that was taken. */
  lemma UnparseableFileMisreported(bytes: string, now: nat)
    ensures var r := InstallReport(Some(Unparseable(bytes)), now);
            r.backup == Some(BackupName(now)) && r.reasonCodes == [FRESH_INSTALL]
  {
  }

  /** The lifecycle events, in order, under which a settings value has no Avorelo group. */
  function MissingEvents(s: Settings, events: seq<string>): seq<string>
    decreases |events|
  {
    if events == [] then []
    else
      var n := |events| - 1;
      MissingEvents(s, events[..n]) + if AnyAvorelo(GroupsAt(s, events[n])) then [] else [events[n]]
  }

  /** Exactly the events without an Avorelo group are missing, each in its place. */
  lemma {:induction false} MissingMeaning(s: Settings, events: seq<string>) returns (at: seq<nat>)
    ensures |at| == |MissingEvents(s, events)|
    ensures forall i | 0 <= i < |at| :: at[i] < |events| && MissingEvents(s, events)[i] == events[at[i]]
    ensures forall i, j | 0 <= i < j < |at| :: at[i] < at[j]
    ensures forall k: nat :: k in at <==> k < |events| && !AnyAvorelo(GroupsAt(s, events[k]))
    decreases |events|
  {
    hide AnyAvorelo, GroupsAt;
    if events == [] {
      at := [];
    } else {
      var n := |events| - 1;
      at := MissingMeaning(s, events[..n]);
      assert forall i | 0 <= i < |at| :: at[i] in at;
      if !AnyAvorelo(GroupsAt(s, events[n])) {
        at := at + [n];
      }
    }
  }

  /** Only names that begin with "settings-" are ever restored. */
  lemma {:induction false} OnlyBackupsRestored(names: set<string>)
    ensures Newest(names).Some? ==> exists rest :: Newest(names).value == "settings-" + rest
    ensures Newest(names).None? ==> forall rest :: "settings-" + rest !in names
  {
    NewestSpec(names);
    if Newest(names).Some? {
      var n := Newest(names).value;
      assert n == "settings-" + n[9..];
    } else {
      forall rest ensures "settings-" + rest !in names {
        assert ("settings-" + rest)[..9] == "settings-";
      }
    }
  }

  /** `names.filter((f) => f.startsWith("settings-"))` */
  function BackupNames(names: seq<string>): (r: seq<string>)
    ensures forall n :: n in r <==> n in names && IsBackupName(n)
  {
    if names == [] then []
    else (if IsBackupName(names[0]) then [names[0]] else []) + BackupNames(names[1..])
  }

  /** `readdirSync(...).filter(...).sort()` ends with the newest name, whatever the listing order. */
  lemma LastSortedIsNewest(listing: seq<string>, names: set<string>)
    requires forall n :: n in listing <==> n in names
    ensures var sorted := SortStrings(BackupNames(listing));
            Newest(names) == if sorted == [] then None else Some(sorted[|sorted| - 1])
  {
    var filtered := BackupNames(listing);
    SortStringsSpec(filtered);
    var sorted := SortStrings(filtered);
    forall n | n in names && IsBackupName(n) ensures n in sorted {
      assert n in filtered;
    }
    forall n | n in sorted ensures n in names && IsBackupName(n) {
      assert n in filtered;
    }
    LastIsNewest(sorted, names);
    NewestSpec(names);
    NewestUnique(names, Newest(names), if sorted == [] then None else Some(sorted[|sorted| - 1]));
  }

  lemma LastIsNewest(sorted: seq<string>, names: set<string>)
    requires Sorted(Leq, sorted)
    requires forall n | n in names && IsBackupName(n) :: n in sorted
    requires forall n | n in sorted :: n in names && IsBackupName(n)
    ensures IsNewest(names, if sorted == [] then None else Some(sorted[|sorted| - 1]))
  {
    if sorted != [] {
      var last := sorted[|sorted| - 1];
      LeqTotal(last, last);
      forall n | n in names && IsBackupName(n) ensures Leq(n, last) {
        var i :| 0 <= i < |sorted| && sorted[i] == n;
      }
    }
  }

  class HookTarget {
    var settings: Option<Content>
    var backups: map<string, Content>

    ghost function State(): Store
      reads this
    {
      Store(settings, backups)
    }

    constructor (settings: Option<Content>)
      ensures State() == Store(settings, map[])
    {
      this.settings := settings;
      backups := map[];
    }

    static method BuildHookConfig(base: string) returns (out: HookTable)
      ensures out == HookConfig(base)
    {
      LifecycleEventsDistinct();
      out := EmptyDict();
      for i := 0 to |LIFECYCLE_EVENTS|
        invariant out.keys == LIFECYCLE_EVENTS[..i]
        invariant forall ev :: ev in out.vals <==> ev in LIFECYCLE_EVENTS[..i]
        invariant forall ev | ev in out.vals :: out.vals[ev] == [BuiltGroup(base, ev)]
      {
        var ev := LIFECYCLE_EVENTS[i];
        assert ev !in LIFECYCLE_EVENTS[..i];
        out := Put(out, ev, [BuiltGroup(base, ev)]);
      }
      assert LIFECYCLE_EVENTS[..|LIFECYCLE_EVENTS|] == LIFECYCLE_EVENTS;
      assert out.vals == HookConfig(base).vals;
    }

    /** `target` and `home` are resolved paths. */
    method InstallHooks(target: string, home: string, approve: bool, base: string, now: nat) returns (r: InstallOutcome)
      modifies this
      ensures State() == if RefusalOf(target, home, approve).None? then AfterInstall(old(State()), base, now)
                         else old(State())
      ensures r == match RefusalOf(target, home, approve)
                   case Some(why) => Refused(why)
                   case None => InstallReport(old(settings), now)
    {
      hide Foreign, BackupName, HookConfig, Put, IsAvoreloHook;
      if target == home {
        return Refused(HomeDirectory);
      }
      if target == GlobalClaude(home) || StartsWith(target, GlobalClaude(home) + "/") {
        return Refused(InsideGlobalClaude);
      }
      if !approve {
        return Refused(NotApproved);
      }
      var existing: Settings := EmptyDict();
      var backup: Option<string> := None;
      var merged := false;
      if settings.Some? {
        var parseable := settings.value.Parsed?;
        if parseable {
          existing := settings.value.settings;
          merged := true;
        }
        var alreadyHasAvorelo := parseable && HasAvorelo(existing);
        if !alreadyHasAvorelo {
          backup := Some(BackupName(now));
          backups := backups[BackupName(now) := settings.value];
        }
      }
      var avoreloHooks := BuildHookConfig(base);
      var hooks := HooksOf(existing);
      for i := 0 to |LIFECYCLE_EVENTS|
        invariant hooks == Merged(HooksOf(existing), Foreign, HookConfig(base), LIFECYCLE_EVENTS[..i])
        invariant State() == Store(old(settings), AfterInstall(old(State()), base, now).backups)
      {
        var ev := LIFECYCLE_EVENTS[i];
        assert LIFECYCLE_EVENTS[..i + 1][..i] == LIFECYCLE_EVENTS[..i];
        hooks := Put(hooks, ev, Foreign(ListAt(hooks, ev)) + ListAt(avoreloHooks, ev));
      }
      assert LIFECYCLE_EVENTS[..|LIFECYCLE_EVENTS|] == LIFECYCLE_EVENTS;
      settings := Some(Parsed(Put(existing, "hooks", Hooks(hooks))));
      r := Activated(backup, merged, [if merged then MERGED_BACKED_UP else FRESH_INSTALL]);
    }

    /** `listing` is what the directory listing of the backup folder returns, in any order. */
    method Uninstall(listing: seq<string>) returns (restored: bool, reasonCodes: seq<string>)
      requires forall n :: n in listing <==> n in backups.Keys
      modifies this
      ensures State() == AfterUninstall(old(State()))
      ensures restored <==> exists n :: n in old(backups) && IsBackupName(n)
      ensures reasonCodes ==
              if settings.None? then ["NOTHING_TO_UNINSTALL"]
              else (if restored then ["RESTORED_FROM_BACKUP"] else []) +
                   (if settings.value.Unparseable? then ["SETTINGS_UNPARSEABLE_LEFT_INTACT"]
                    else if restored then [] else ["STRIPPED_AVORELO_HOOKS"])
    {
      reasonCodes := [];
      restored := false;
      var names := SortStrings(BackupNames(listing));
      LastSortedIsNewest(listing, backups.Keys);
      NewestSpec(backups.Keys);
      if |names| > 0 {
        settings := Some(backups[names[|names| - 1]]);
        restored := true;
        reasonCodes := reasonCodes + ["RESTORED_FROM_BACKUP"];
      }
      if settings.Some? {
        match settings.value
        case Unparseable(_) =>
          reasonCodes := reasonCodes + ["SETTINGS_UNPARSEABLE_LEFT_INTACT"];
        case Parsed(s) =>
          var stripped := StripHooks(s);
          settings := Some(Parsed(stripped));
          if !restored {
            reasonCodes := reasonCodes + ["STRIPPED_AVORELO_HOOKS"];
          }
      }
      if |reasonCodes| == 0 {
        reasonCodes := reasonCodes + ["NOTHING_TO_UNINSTALL"];
      }
    }

    static method StripHooks(s: Settings) returns (r: Settings)
      ensures r == Stripped(s)
    {
      r := s;
      if "hooks" in s.vals && s.vals["hooks"].Hooks? {
        var hooks := s.vals["hooks"].table;
        for i := 0 to |LIFECYCLE_EVENTS|
          invariant hooks == Pruned(s.vals["hooks"].table, Foreign, LIFECYCLE_EVENTS[..i])
        {
          var ev := LIFECYCLE_EVENTS[i];
          assert LIFECYCLE_EVENTS[..i + 1][..i] == LIFECYCLE_EVENTS[..i];
          if ev in hooks.vals {
            hooks := Put(hooks, ev, Foreign(hooks.vals[ev]));
          }
        }
        assert LIFECYCLE_EVENTS[..|LIFECYCLE_EVENTS|] == LIFECYCLE_EVENTS;
        r := Put(s, "hooks", Hooks(hooks));
      }
    }

    /** `message` is what the parser says of bytes that it cannot parse. */
    method ValidateInstall(message: string -> string) returns (v: Validation)
      ensures v == match settings
                   case None => Validation(false, false, LIFECYCLE_EVENTS, ["settings.json not found"])
                   case Some(Unparseable(bytes)) =>
                     Validation(true, false, [], ["settings.json not parseable: " + message(bytes)])
                   case Some(Parsed(s)) =>
                     Validation(true, MissingEvents(s, LIFECYCLE_EVENTS) == [], MissingEvents(s, LIFECYCLE_EVENTS), [])
    {
      match settings
      case None => v := Validation(false, false, LIFECYCLE_EVENTS, ["settings.json not found"]);
      case Some(Unparseable(bytes)) =>
        v := Validation(true, false, [], ["settings.json not parseable: " + message(bytes)]);
      case Some(Parsed(s)) =>
        var missing := [];
        for i := 0 to |LIFECYCLE_EVENTS|
          invariant missing == MissingEvents(s, LIFECYCLE_EVENTS[..i])
        {
          assert LIFECYCLE_EVENTS[..i + 1][..i] == LIFECYCLE_EVENTS[..i];
          if !AnyAvorelo(GroupsAt(s, LIFECYCLE_EVENTS[i])) {
            missing := missing + [LIFECYCLE_EVENTS[i]];
          }
        }
        assert LIFECYCLE_EVENTS[..|LIFECYCLE_EVENTS|] == LIFECYCLE_EVENTS;
        v := Validation(true, missing == [], missing, []);
    }
  }
}
