/** What a series of activations and then uninstall give back: exactly when the file, exactly when the foreign hooks. */
module HookRoundTrip {
  import opened Text
  import opened JsonObjects
  import opened HookSettings
  import opened StringOrder
  import opened HookInstaller
  import opened HookRuns

  ghost predicate Activations(ops: seq<Op>) {
    forall i | 0 <= i < |ops| :: ops[i].Install? && ops[i].approve
  }

  /** Activations with commands that the recogniser accepts. */
  ghost predicate RecognisedActivations(ops: seq<Op>) {
    Activations(ops) && forall i | 0 <= i < |ops| :: NamesAvorelo(ops[i].base)
  }

  /** As before, but the last command does not matter. */
  ghost predicate AllButLastRecognised(ops: seq<Op>) {
    Activations(ops) && forall i | 0 <= i < |ops| - 1 :: NamesAvorelo(ops[i].base)
  }

  // ----- Which activations take a backup -----

  /** The first activation takes one if the file needs it, a later one if the command before was not recognised. */
  ghost predicate Takes(st: Store, installs: seq<Op>, k: nat) {
    && k < |installs| && installs[k].Install?
    && if k == 0 then NeedsBackup(st.settings) else installs[k - 1].Install? && !NamesAvorelo(installs[k - 1].base)
  }

  ghost predicate TakesAs(st: Store, installs: seq<Op>, k: nat, name: string) {
    Takes(st, installs, k) && BackupName(installs[k].now) == name
  }

  /** The last of the first `n` activations that stores its backup under a name, or -1. */
  ghost function Taker(st: Store, installs: seq<Op>, name: string, n: nat): (k: int)
    ensures -1 <= k < n && (k >= 0 ==> TakesAs(st, installs, k, name))
    ensures forall j: nat | k < j < n :: !TakesAs(st, installs, j, name)
  {
    if n == 0 then -1
    else if TakesAs(st, installs, n - 1, name) then n - 1
    else Taker(st, installs, name, n - 1)
  }

  /** The last of the first `n` activations that takes a backup at all, or -1. */
  ghost function LastTaking(st: Store, installs: seq<Op>, n: nat): (k: int)
    ensures -1 <= k < n && (k >= 0 ==> Takes(st, installs, k))
    ensures forall j: nat | k < j < n :: !Takes(st, installs, j)
  {
    if n == 0 then -1 else if Takes(st, installs, n - 1) then n - 1 else LastTaking(st, installs, n - 1)
  }

  /** The names in the backup folder after the activations. */
  ghost function NamesAfter(st: Store, installs: seq<Op>): set<string> {
    st.backups.Keys + set k | 0 <= k < |installs| && Takes(st, installs, k) :: BackupName(installs[k].now)
  }

  /** The activation whose backup uninstall restores; -1 if that backup was there before, or if there is none. */
  ghost function RestoredFrom(st: Store, installs: seq<Op>): int {
    match Newest(NamesAfter(st, installs))
    case None => -1
    case Some(name) => Taker(st, installs, name, |installs|)
  }

  lemma TakerStep(st: Store, installs: seq<Op>, name: string, n: nat)
    ensures Taker(st, installs, name, n + 1) ==
            if TakesAs(st, installs, n, name) then n else Taker(st, installs, name, n)
  {
  }

  // ----- The state after the activations -----

  /** Foreign groups under Stop: an unrecognised install adds one, a recognised install adds none. */
  function Weight(c: Option<Content>): nat {
    |Foreign(GroupsAt(Existing(c), "Stop"))|
  }

  lemma WeightOfInstall(c: Option<Content>, base: string)
    ensures Weight(Some(Parsed(Installed(Existing(c), base)))) == Weight(c) + if NamesAvorelo(base) then 0 else 1
  {
    assert LIFECYCLE_EVENTS[4] == "Stop";
    InstalledExactly(Existing(c), base);
    ForeignAfterMerge(GroupsAt(Existing(c), "Stop"), base, "Stop");
  }

  /** Unrecognised commands leave weight behind, and the last command decides whether the file counts as activated. */
  lemma {:induction false} SettingsAfter(st: Store, installs: seq<Op>)
    requires installs != [] && Activations(installs)
    ensures var c := Run(st, installs).settings;
            && c.Some? && c.value.Parsed?
            && (HasAvorelo(c.value.settings) <==> NamesAvorelo(installs[|installs| - 1].base))
            && Weight(c) >= Weight(st.settings)
            && (!RecognisedActivations(installs) ==> Weight(c) > Weight(st.settings))
    decreases |installs|
  {
    var n := |installs| - 1;
    var before := Run(st, installs[..n]).settings;
    assert installs[..|installs|] == installs;
    RunOneMore(st, installs, n);
    WeightOfInstall(before, installs[n].base);
    InstalledRecognised(Existing(before), installs[n].base);
    RecognisedSplit(installs);
    hide Run, Weight, HasAvorelo, NamesAvorelo, Installed, NeedsBackup, BackupName, RecognisedActivations;
    if n > 0 {
      SettingsAfter(st, installs[..n]);
    } else {
      NothingRun(st, installs[..0]);
      RecognisedNone(installs[..0]);
    }
  }

  lemma RecognisedSplit(installs: seq<Op>)
    requires installs != [] && Activations(installs)
    ensures var n := |installs| - 1;
            && Activations(installs[..n])
            && (RecognisedActivations(installs) <==>
                RecognisedActivations(installs[..n]) && NamesAvorelo(installs[n].base))
  {
    hide NamesAvorelo;
    var n := |installs| - 1;
    assert forall i | 0 <= i < n :: installs[..n][i] == installs[i];
  }

  lemma RecognisedNone(ops: seq<Op>)
    requires ops == []
    ensures RecognisedActivations(ops)
  {
  }

  lemma NothingRun(st: Store, ops: seq<Op>)
    requires ops == []
    ensures Run(st, ops) == st
  {
  }

  /** Where each backup that is stored after `n` activations comes from. */
  ghost predicate Provenance(st: Store, installs: seq<Op>, name: string, n: nat, backups: map<string, Content>) {
    var k := Taker(st, installs, name, n);
    && (name in backups <==> name in st.backups || k >= 0)
    && (name in backups && k == -1 ==> backups[name] == st.backups[name])
    && (name in backups && k == 0 ==> Some(backups[name]) == st.settings)
    && (name in backups && k > 0 ==> Weight(Some(backups[name])) > Weight(st.settings))
  }

  lemma TakesNow(st: Store, installs: seq<Op>, n: nat)
    requires Activations(installs) && n < |installs|
    ensures NeedsBackup(Run(st, installs[..n]).settings) <==> Takes(st, installs, n)
    ensures n > 0 && Takes(st, installs, n) ==> Weight(Run(st, installs[..n]).settings) > Weight(st.settings)
  {
    if n > 0 {
      SettingsAfter(st, installs[..n]);
      assert installs[..n][n - 1] == installs[n - 1];
    }
  }

  lemma RunOneMore(st: Store, installs: seq<Op>, n: nat)
    requires Activations(installs) && n < |installs|
    ensures Run(st, installs[..n + 1]) == AfterInstall(Run(st, installs[..n]), installs[n].base, installs[n].now)
  {
    assert installs[..n + 1][..n] == installs[..n];
  }

  lemma {:induction false} ProvenanceStep(st: Store, installs: seq<Op>, name: string, n: nat,
                                          backups: map<string, Content>, c: Option<Content>)
    requires n < |installs| && installs[n].Install? && Provenance(st, installs, name, n, backups)
    requires Takes(st, installs, n) ==> c.Some? && if n == 0 then c == st.settings else Weight(c) > Weight(st.settings)
    ensures Provenance(st, installs, name, n + 1,
                       if Takes(st, installs, n) then backups[BackupName(installs[n].now) := c.value] else backups)
  {
    TakerStep(st, installs, name, n);
    hide Takes, Weight, BackupName, Taker;
  }

  lemma {:induction false} BackupsAfter(st: Store, installs: seq<Op>, name: string, n: nat)
    requires Activations(installs) && n <= |installs|
    ensures Provenance(st, installs, name, n, Run(st, installs[..n]).backups)
    decreases n
  {
    if n > 0 {
      var before := Run(st, installs[..n - 1]);
      BackupsAfter(st, installs, name, n - 1);
      TakesNow(st, installs, n - 1);
      RunOneMore(st, installs, n - 1);
      if n == 1 {
        NothingRun(st, installs[..0]);
      }
      ProvenanceStep(st, installs, name, n - 1, before.backups, before.settings);
      hide Run, Takes, Weight, Installed, BackupName, Provenance;
    }
  }

  lemma BackupAfter(st: Store, installs: seq<Op>, name: string)
    requires Activations(installs)
    ensures Provenance(st, installs, name, |installs|, Run(st, installs).backups)
  {
    assert installs[..|installs|] == installs;
    BackupsAfter(st, installs, name, |installs|);
  }

  lemma NamesAre(st: Store, installs: seq<Op>)
    requires Activations(installs)
    ensures Run(st, installs).backups.Keys == NamesAfter(st, installs)
  {
    hide Run, Takes, Taker, BackupName;
    forall name ensures name in Run(st, installs).backups.Keys <==> name in NamesAfter(st, installs) {
      BackupAfter(st, installs, name);
      if k :| 0 <= k < |installs| && Takes(st, installs, k) && BackupName(installs[k].now) == name {
        assert TakesAs(st, installs, k, name);
      }
    }
  }

  lemma CleanComesBack(st: Store)
    requires CleanBackups(st) && Baseline(st).Some?
    ensures AfterUninstall(st).settings == Baseline(st)
  {
    var b := Baseline(st).value;
    if b.Parsed? {
      StrippedCleanUnchanged(b.settings);
    }
  }

  lemma {:induction false} StaysClean(st: Store, ops: seq<Op>)
    requires CleanBackups(st)
    ensures CleanBackups(Run(st, ops))
    decreases |ops|
  {
    if ops != [] {
      StaysClean(st, ops[..|ops| - 1]);
    }
  }

  lemma NewestAmongFewer(few: set<string>, all: set<string>, name: string)
    requires few <= all && Newest(all) == Some(name) && name in few
    ensures Newest(few) == Some(name)
  {
    NewestSpec(all);
    NewestSpec(few);
    NewestUnique(few, Newest(few), Some(name));
  }

  /** What uninstall makes of the file after the activations, by the activation whose backup it restores. */
  lemma {:induction false} AfterRoundTrip(st: Store, installs: seq<Op>)
    requires CleanBackups(st) && Activations(installs)
    ensures var k, last := RestoredFrom(st, installs), Run(st, installs);
            var after := AfterUninstall(last).settings;
            && (Newest(NamesAfter(st, installs)).None? <==> Baseline(last).None?)
            && (Baseline(last).Some? ==> after.Some? && after == Baseline(last))
            && (Baseline(last).Some? && k == -1 ==> after == Baseline(st))
            && (k == 0 ==> NeedsBackup(st.settings) && after == st.settings)
            && (k > 0 ==> Weight(after) > Weight(st.settings))
  {
    var last := Run(st, installs);
    NamesAre(st, installs);
    StaysClean(st, installs);
    if Baseline(last).Some? {
      CleanComesBack(last);
      var name := Newest(NamesAfter(st, installs)).value;
      BackupAfter(st, installs, name);
      hide Run, AfterUninstall, Newest, CleanBackups, Weight, Taker;
      if RestoredFrom(st, installs) == -1 {
        NewestAmongFewer(st.backups.Keys, NamesAfter(st, installs), name);
      }
    }
  }

  // ----- The whole file -----

  lemma SomethingTaken(st: Store, installs: seq<Op>)
    requires installs != [] && Activations(installs) && NeedsBackup(st.settings)
    ensures Newest(NamesAfter(st, installs)).Some?
  {
    var name := BackupName(installs[0].now);
    assert name in NamesAfter(st, installs);
    BackupNameIsOne(installs[0].now);
    hide BackupName, IsBackupName;
    NewestSpec(NamesAfter(st, installs));
  }

  /**
   The round trip, exactly, for every clock and all commands. Any positive number of activations followed by
   uninstall gives the settings file back, equal in keys, events, groups and order (and byte for byte when it does
   not parse), if and only if the file existed without Avorelo groups and what is restored is the backup that the
   first activation took, or an older one of the same content.
   */
  lemma {:induction false} RoundTrip(st: Store, installs: seq<Op>)
    requires CleanBackups(st) && installs != [] && Activations(installs)
    ensures var k := RestoredFrom(st, installs);
            AfterUninstall(Run(st, installs)).settings == st.settings <==>
            NeedsBackup(st.settings) && (k == 0 || (k == -1 && Baseline(st) == st.settings))
  {
    AfterRoundTrip(st, installs);
    if NeedsBackup(st.settings) {
      SomethingTaken(st, installs);
    } else {
      SettingsAfter(st, installs);
      UninstallLeavesNoAvorelo(Run(st, installs));
    }
  }

  // ----- The foreign hooks -----

  /** The hook groups under an event that are not Avorelo's. */
  function ForeignAt(c: Option<Content>, ev: string): seq<HookGroup> {
    Foreign(GroupsAt(Existing(c), ev))
  }

  ghost predicate SameForeign(a: Option<Content>, b: Option<Content>) {
    forall ev :: ForeignAt(a, ev) == ForeignAt(b, ev)
  }

  lemma HeavierDiffers(a: Option<Content>, b: Option<Content>)
    requires Weight(a) != Weight(b)
    ensures !SameForeign(a, b)
  {
    assert ForeignAt(a, "Stop") != ForeignAt(b, "Stop");
  }

  /** Stripping takes no foreign group away. */
  lemma StripKeepsForeign(c: Content, ev: string)
    ensures ForeignAt(Some(StripContent(c)), ev) == ForeignAt(Some(c), ev)
  {
    if c.Parsed? {
      StrippedExactly(c.settings);
      ForeignSpec(GroupsAt(c.settings, ev));
    }
  }

  lemma StrippedInPlace(st: Store)
    requires st.settings.Some? && Baseline(st).None?
    ensures SameForeign(AfterUninstall(st).settings, st.settings)
    ensures Weight(AfterUninstall(st).settings) == Weight(st.settings)
  {
    forall ev ensures ForeignAt(AfterUninstall(st).settings, ev) == ForeignAt(st.settings, ev) {
      StripKeepsForeign(st.settings.value, ev);
    }
    assert ForeignAt(AfterUninstall(st).settings, "Stop") == ForeignAt(st.settings, "Stop");
  }

  lemma InstallKeepsForeign(c: Option<Content>, base: string, ev: string)
    requires NamesAvorelo(base)
    ensures ForeignAt(Some(Parsed(Installed(Existing(c), base))), ev) == ForeignAt(c, ev)
  {
    InstalledAt(Existing(c), base, ev);
    if ev in LIFECYCLE_EVENTS {
      ForeignAfterMerge(GroupsAt(Existing(c), ev), base, ev);
    }
  }

  lemma {:induction false} InstallsKeepForeign(st: Store, installs: seq<Op>, ev: string)
    requires RecognisedActivations(installs)
    ensures ForeignAt(Run(st, installs).settings, ev) == ForeignAt(st.settings, ev)
    decreases |installs|
  {
    hide ForeignAt, NamesAvorelo;
    if installs != [] {
      var n := |installs| - 1;
      InstallsKeepForeign(st, installs[..n], ev);
      InstallKeepsForeign(Run(st, installs[..n]).settings, installs[n].base, ev);
    }
  }

  lemma {:induction false} NothingRestored(st: Store, installs: seq<Op>)
    requires installs != [] && Activations(installs) && Baseline(Run(st, installs)).None?
    ensures SameForeign(AfterUninstall(Run(st, installs)).settings, st.settings) <==> RecognisedActivations(installs)
  {
    var last := Run(st, installs);
    SettingsAfter(st, installs);
    StrippedInPlace(last);
    hide ForeignAt, Weight, Run, AfterUninstall, Baseline;
    if RecognisedActivations(installs) {
      forall ev ensures ForeignAt(AfterUninstall(last).settings, ev) == ForeignAt(st.settings, ev) {
        InstallsKeepForeign(st, installs, ev);
      }
    } else {
      HeavierDiffers(AfterUninstall(last).settings, st.settings);
    }
  }

  /**
   What the round trip keeps of other tools' hooks, exactly, for every clock and all commands: every foreign group
   under every event, in order, if and only if
   - every command is recognised, when there is no backup to restore, and
   - otherwise what is restored is the backup that the first activation took, or an older one with the same
     foreign groups.
   */
  lemma {:induction false} ForeignHooksKept(st: Store, installs: seq<Op>)
    requires CleanBackups(st) && installs != [] && Activations(installs)
    ensures var k := RestoredFrom(st, installs);
            SameForeign(AfterUninstall(Run(st, installs)).settings, st.settings) <==>
            if Newest(NamesAfter(st, installs)).None? then RecognisedActivations(installs)
            else k == 0 || (k == -1 && SameForeign(Baseline(st), st.settings))
  {
    var after := AfterUninstall(Run(st, installs)).settings;
    AfterRoundTrip(st, installs);
    hide Run, AfterUninstall, Baseline, NamesAfter, Newest;
    if Newest(NamesAfter(st, installs)).None? {
      NothingRestored(st, installs);
    } else if RestoredFrom(st, installs) > 0 {
      HeavierDiffers(after, st.settings);
    }
  }

  /** Under events that Avorelo has nothing to do with, every group stays when nothing is restored. */
  lemma {:induction false} OtherEventsUntouched(st: Store, installs: seq<Op>, ev: string)
    requires CleanBackups(st) && Activations(installs) && Newest(NamesAfter(st, installs)).None?
    requires ev !in LIFECYCLE_EVENTS
    ensures GroupsAt(Existing(AfterUninstall(Run(st, installs)).settings), ev) == GroupsAt(Existing(st.settings), ev)
  {
    AfterRoundTrip(st, installs);
    OtherEventsInstalled(st, installs, ev);
    var c := Run(st, installs).settings;
    if c.Some? && c.value.Parsed? {
      StrippedExactly(c.value.settings);
    }
  }

  lemma {:induction false} OtherEventsInstalled(st: Store, installs: seq<Op>, ev: string)
    requires Activations(installs) && ev !in LIFECYCLE_EVENTS
    ensures GroupsAt(Existing(Run(st, installs).settings), ev) == GroupsAt(Existing(st.settings), ev)
    decreases |installs|
  {
    if installs != [] {
      var n := |installs| - 1;
      OtherEventsInstalled(st, installs[..n], ev);
      InstalledAt(Existing(Run(st, installs[..n]).settings), installs[n].base, ev);
    }
  }

  // ----- Recognised commands, any clock -----

  /** The first activation's backup sorts last. */
  ghost predicate SortsLast(st: Store, name: string) {
    forall n | n in st.backups && IsBackupName(n) :: Leq(n, name)
  }

  lemma RecognisedTaker(st: Store, installs: seq<Op>, name: string)
    requires installs != [] && RecognisedActivations(installs)
    ensures Taker(st, installs, name, |installs|) ==
            if NeedsBackup(st.settings) && BackupName(installs[0].now) == name then 0 else -1
  {
    hide BackupName, NeedsBackup, Taker, NamesAvorelo;
    assert TakesAs(st, installs, 0, name) <==> NeedsBackup(st.settings) && BackupName(installs[0].now) == name;
  }

  lemma {:induction false} RecognisedNames(st: Store, installs: seq<Op>)
    requires installs != [] && RecognisedActivations(installs)
    ensures NamesAfter(st, installs) ==
            st.backups.Keys + if NeedsBackup(st.settings) then {BackupName(installs[0].now)} else {}
  {
    hide BackupName, NeedsBackup;
    assert forall k | 0 < k < |installs| :: !Takes(st, installs, k);
    assert Takes(st, installs, 0) <==> NeedsBackup(st.settings);
  }

  lemma NewestWithOneMore(names: set<string>, name: string)
    requires IsBackupName(name)
    ensures Newest(names + {name}) == Some(name) <==> forall n | n in names && IsBackupName(n) :: Leq(n, name)
    ensures Newest(names + {name}).Some?
  {
    NewestSpec(names + {name});
    LeqTotal(name, name);
    hide Leq, IsBackupName, Newest;
    if forall n | n in names && IsBackupName(n) :: Leq(n, name) {
      NewestUnique(names + {name}, Newest(names + {name}), Some(name));
    }
  }

  lemma {:induction false} RecognisedRestored(st: Store, installs: seq<Op>)
    requires installs != [] && RecognisedActivations(installs)
    ensures RestoredFrom(st, installs) ==
            if NeedsBackup(st.settings) && SortsLast(st, BackupName(installs[0].now)) then 0 else -1
    ensures Newest(NamesAfter(st, installs)).None? <==> !NeedsBackup(st.settings) && Baseline(st).None?
  {
    var name := BackupName(installs[0].now);
    BackupNameIsOne(installs[0].now);
    RecognisedNames(st, installs);
    hide BackupName, NeedsBackup, IsBackupName, Leq, Newest, NamesAfter, Taker;
    if NeedsBackup(st.settings) {
      NewestWithOneMore(st.backups.Keys, name);
    } else {
      assert NamesAfter(st, installs) == st.backups.Keys;
    }
    if Newest(NamesAfter(st, installs)).Some? {
      RecognisedTaker(st, installs, Newest(NamesAfter(st, installs)).value);
    }
  }

  /**
   With recognised commands the file comes back, whatever the clock, if and only if it existed without Avorelo
   groups, and no older backup sorts behind the one taken now or the last of them has the same content.
   */
  lemma {:induction false} RecognisedRoundTrip(st: Store, installs: seq<Op>)
    requires CleanBackups(st) && installs != [] && RecognisedActivations(installs)
    ensures AfterUninstall(Run(st, installs)).settings == st.settings <==>
            NeedsBackup(st.settings) && (SortsLast(st, BackupName(installs[0].now)) || Baseline(st) == st.settings)
  {
    hide Run, AfterUninstall, NeedsBackup, SortsLast, Baseline, BackupName;
    RoundTrip(st, installs);
    RecognisedRestored(st, installs);
  }

  /**
   With recognised commands the foreign hooks are kept, whatever the clock, if and only if the backup taken now
   sorts last, there is no older one, or the last of the older ones has the same foreign groups.
   */
  lemma {:induction false} RecognisedKeepsForeign(st: Store, installs: seq<Op>)
    requires CleanBackups(st) && installs != [] && RecognisedActivations(installs)
    ensures SameForeign(AfterUninstall(Run(st, installs)).settings, st.settings) <==>
            || (NeedsBackup(st.settings) && SortsLast(st, BackupName(installs[0].now)))
            || Baseline(st).None?
            || SameForeign(Baseline(st), st.settings)
  {
    var name := BackupName(installs[0].now);
    ForeignHooksKept(st, installs);
    RecognisedRestored(st, installs);
    NoneSortsLast(st, name);
    hide *;
  }

  lemma NoneSortsLast(st: Store, name: string)
    ensures Baseline(st).None? ==> SortsLast(st, name)
  {
    NewestSpec(st.backups.Keys);
  }

  // ----- Stamps in order -----

  /** The stored backups sort before the first activation's stamp, and the stamps of the activations do not descend. */
  ghost predicate Ascending(st: Store, installs: seq<Op>)
    requires installs != [] && Activations(installs)
  {
    && SortsLast(st, BackupName(installs[0].now))
    && forall i, j | 0 <= i <= j < |installs| :: Leq(BackupName(installs[i].now), BackupName(installs[j].now))
  }

  /** So it is for a clock that never goes back, as long as its stamps have equally many digits. */
  lemma {:induction false} ClockAscends(init: Store, history: seq<Op>, installs: seq<Op>, digits: nat)
    requires init.backups == map[] && installs != [] && Activations(installs) && ClockOk(history + installs, digits)
    ensures Ascending(Run(init, history), installs)
  {
    hide BackupName, Leq, Decimal, Run, IsBackupName;
    var ops := history + installs;
    assert forall i | 0 <= i < |installs| :: ops[|history| + i] == installs[i];
    forall i, j | 0 <= i <= j < |installs| ensures Leq(BackupName(installs[i].now), BackupName(installs[j].now)) {
      EarlierSortsFirst(ops[|history| + i].now, ops[|history| + j].now);
    }
    BackupsAreStamped(init, history);
    forall n | n in Run(init, history).backups ensures Leq(n, BackupName(installs[0].now)) {
      var i :| 0 <= i < |history| && history[i].Install? && n == BackupName(history[i].now);
      assert ops[i] == history[i];
      EarlierSortsFirst(ops[i].now, ops[|history|].now);
    }
  }

  lemma {:induction false} LastSortsLast(st: Store, installs: seq<Op>, k: nat)
    requires installs != [] && Activations(installs) && Ascending(st, installs)
    requires k < |installs| && Takes(st, installs, k) && forall j: nat | k < j < |installs| :: !Takes(st, installs, j)
    ensures Newest(NamesAfter(st, installs)) == Some(BackupName(installs[k].now))
  {
    var name, names := BackupName(installs[k].now), NamesAfter(st, installs);
    BackupNameIsOne(installs[k].now);
    hide BackupName, IsBackupName, Leq, Newest, Takes;
    assert name in names;
    forall n | n in names && IsBackupName(n) ensures Leq(n, name) {
      if n in st.backups {
        LeqTransitive(n, BackupName(installs[0].now), name);
      }
    }
    NewestSpec(names);
    NewestUnique(names, Newest(names), Some(name));
  }

  lemma {:induction false} RestoredInOrder(st: Store, installs: seq<Op>)
    requires installs != [] && Activations(installs) && Ascending(st, installs)
    ensures RestoredFrom(st, installs) == LastTaking(st, installs, |installs|)
    ensures Newest(NamesAfter(st, installs)).None? <==> LastTaking(st, installs, |installs|) == -1 && Baseline(st).None?
  {
    var k, names := LastTaking(st, installs, |installs|), NamesAfter(st, installs);
    hide Newest, BackupName, Takes, Taker, LastTaking, Leq, IsBackupName;
    if k >= 0 {
      LastSortsLast(st, installs, k);
      hide NamesAfter;
      assert TakesAs(st, installs, k, BackupName(installs[k].now));
    } else {
      assert names == st.backups.Keys;
      hide NamesAfter;
      if Newest(names).Some? {
      }
    }
  }

  lemma {:induction false} FirstTaking(st: Store, installs: seq<Op>)
    requires installs != [] && Activations(installs)
    ensures LastTaking(st, installs, |installs|) == -1 ==> !NeedsBackup(st.settings)
    ensures LastTaking(st, installs, |installs|) == 0 ==> NeedsBackup(st.settings)
  {
    hide NeedsBackup, LastTaking, NamesAvorelo;
    assert Takes(st, installs, 0) <==> NeedsBackup(st.settings);
  }

  lemma {:induction false} NoLaterTaking(installs: seq<Op>, st: Store)
    requires Activations(installs) && forall j: nat | 0 < j < |installs| :: !Takes(st, installs, j)
    ensures AllButLastRecognised(installs)
  {
    hide NeedsBackup, NamesAvorelo;
    forall i | 0 <= i < |installs| - 1 ensures NamesAvorelo(installs[i].base) {
      assert !Takes(st, installs, i + 1);
    }
  }

  lemma {:induction false} LastTakingMeaning(st: Store, installs: seq<Op>)
    requires installs != [] && Activations(installs)
    ensures LastTaking(st, installs, |installs|) <= 0 <==> AllButLastRecognised(installs)
  {
    var k := LastTaking(st, installs, |installs|);
    hide NeedsBackup, NamesAvorelo, LastTaking;
    if k <= 0 {
      hide Takes;
      NoLaterTaking(installs, st);
    } else {
      assert !NamesAvorelo(installs[k - 1].base);
    }
  }

  /** With stamps in order: the file must need a backup, and every command but the last one be recognised. */
  lemma {:induction false} RoundTripInOrder(st: Store, installs: seq<Op>)
    requires CleanBackups(st) && installs != [] && Activations(installs) && Ascending(st, installs)
    ensures AfterUninstall(Run(st, installs)).settings == st.settings <==>
            NeedsBackup(st.settings) && AllButLastRecognised(installs)
  {
    RoundTrip(st, installs);
    RestoredInOrder(st, installs);
    FirstTaking(st, installs);
    LastTakingMeaning(st, installs);
    hide *;
  }

  /** With stamps in order, the foreign hooks by the three states of the file. */
  lemma {:induction false} ForeignHooksKeptInOrder(st: Store, installs: seq<Op>)
    requires CleanBackups(st) && installs != [] && Activations(installs) && Ascending(st, installs)
    ensures SameForeign(AfterUninstall(Run(st, installs)).settings, st.settings) <==>
            if NeedsBackup(st.settings) then AllButLastRecognised(installs)
            else if Baseline(st).None? then RecognisedActivations(installs)
            else AllButLastRecognised(installs) && SameForeign(Baseline(st), st.settings)
  {
    ForeignHooksKept(st, installs);
    RestoredInOrder(st, installs);
    FirstTaking(st, installs);
    LastTakingMeaning(st, installs);
    assert RecognisedActivations(installs) ==> AllButLastRecognised(installs);
    hide *;
  }

  // ----- Two ways to lose hooks -----

  lemma SingleBackup(name: string)
    requires IsBackupName(name)
    ensures Newest({name}) == Some(name)
  {
    NewestWithOneMore({}, name);
    assert {} + {name} == {name};
  }

  /**
   When the file needs no backup, or the one taken now does not sort last, uninstall returns to the last older
   backup: edits made since are lost.
   */
  lemma {:induction false} OlderBaselineReturns(st: Store, installs: seq<Op>)
    requires CleanBackups(st) && RecognisedActivations(installs) && Baseline(st).Some?
    requires installs != [] && NeedsBackup(st.settings) ==> !SortsLast(st, BackupName(installs[0].now))
    ensures AfterUninstall(Run(st, installs)).settings == Baseline(st)
  {
    if installs == [] {
      CleanComesBack(st);
    } else {
      AfterRoundTrip(st, installs);
      RecognisedRestored(st, installs);
      hide *;
    }
  }

  /** Settings to which a group for another event was added by hand. */
  function WithNotification(s: Settings, g: HookGroup): Settings {
    Put(s, "hooks", Hooks(Put(HooksOf(s), "Notification", [g])))
  }

  lemma EditKeepsAvorelo(base: string, g: HookGroup)
    requires NamesAvorelo(base)
    ensures HasAvorelo(WithNotification(Installed(EmptyDict(), base), g))
  {
    var activated := Installed(EmptyDict(), base);
    var edited := WithNotification(activated, g);
    EventRecognised(EmptyDict(), base, LIFECYCLE_EVENTS[4]);
    assert |LIFECYCLE_EVENTS[4]| == 4;
    assert GroupsAt(edited, LIFECYCLE_EVENTS[4]) == GroupsAt(activated, LIFECYCLE_EVENTS[4]);
  }

  /** The run up to a second edit: one activation has backed up the first content. */
  lemma {:induction false} AfterSecondEdit(c1: Option<Content>, c2: Option<Content>, base: string, now: nat)
    requires NeedsBackup(c1)
    ensures var st := Run(Store(None, map[]), [Rewrite(c1), Install(true, base, now), Rewrite(c2)]);
            st == Store(c2, map[BackupName(now) := c1.value]) && Baseline(st) == c1
  {
    assert c1.Some?;
    hide NeedsBackup, Installed, BackupName;
    var init := Store(None, map[]);
    var ops := [Rewrite(c1), Install(true, base, now), Rewrite(c2)];
    assert ops[..2] == [Rewrite(c1), Install(true, base, now)];
    assert ops[..2][..1] == [Rewrite(c1)] && ops[..2][..1][..0] == [];
    assert Run(init, ops[..2][..1]) == Store(c1, map[]);
    BackupNameIsOne(now);
    OneBackup(Store(c2, map[BackupName(now) := c1.value]), BackupName(now), c1);
  }

  lemma OneBackup(st: Store, name: string, c: Option<Content>)
    requires IsBackupName(name) && c.Some? && st.backups == map[name := c.value]
    ensures Baseline(st) == c
  {
    SingleBackup(name);
    hide Newest, IsBackupName;
    assert st.backups.Keys == {name};
  }

  lemma {:induction false} OlderBackupReturns(c1: Option<Content>, c2: Option<Content>, base: string,
                                              now: nat, later: nat)
    requires NeedsBackup(c1) && NamesAvorelo(base)
    requires !NeedsBackup(c2) || Less(BackupName(later), BackupName(now))
    ensures var st := Store(c2, map[BackupName(now) := c1.value]);
            AfterUninstall(Run(st, [Install(true, base, later)])).settings == c1
  {
    var st := Store(c2, map[BackupName(now) := c1.value]);
    BackupNameIsOne(now);
    OneBackup(st, BackupName(now), c1);
    assert CleanBackups(st);
    NotLast(st, BackupName(now), BackupName(later));
    var installs := [Install(true, base, later)];
    assert RecognisedActivations(installs) && installs[0].now == later;
    hide *;
    OlderBaselineReturns(st, installs);
  }

  lemma {:induction false} SecondActivation(c1: Option<Content>, c2: Option<Content>, base: string,
                                            now: nat, later: nat)
    requires NeedsBackup(c1) && NamesAvorelo(base)
    requires !NeedsBackup(c2) || Less(BackupName(later), BackupName(now))
    ensures var history := [Rewrite(c1), Install(true, base, now), Rewrite(c2)];
            AfterUninstall(Run(Store(None, map[]), history + [Install(true, base, later)])).settings == c1
  {
    AfterSecondEdit(c1, c2, base, now);
    OlderBackupReturns(c1, c2, base, now, later);
    RunAppend(Store(None, map[]), [Rewrite(c1), Install(true, base, now), Rewrite(c2)], [Install(true, base, later)]);
    hide *;
  }

  lemma NotLast(st: Store, older: string, name: string)
    requires older in st.backups && IsBackupName(older)
    ensures Less(name, older) ==> !SortsLast(st, name)
  {
    if Less(name, older) && Leq(older, name) {
      LeqAntisymmetric(older, name);
    }
  }

  /** A run in which a foreign hook is lost: it was added by hand between two activations, at any two times. */
  lemma {:induction false} HookAddedBetweenActivationsIsLost(base: string, g: HookGroup, now: nat, later: nat)
    requires NamesAvorelo(base) && !IsAvoreloHook(g)
    ensures var empty := Some(Parsed(EmptyDict()));
            var edited := WithNotification(Installed(EmptyDict(), base), g);
            var history := [Rewrite(empty), Install(true, base, now), Rewrite(Some(Parsed(edited)))];
            && GroupsAt(edited, "Notification") == [g]
            && AfterUninstall(Run(Store(None, map[]), history + [Install(true, base, later)])).settings == empty
  {
    EditKeepsAvorelo(base, g);
    var edited := WithNotification(Installed(EmptyDict(), base), g);
    SecondActivation(Some(Parsed(EmptyDict())), Some(Parsed(edited)), base, now, later);
  }

  /** A run in which a whole file is lost: the clock was set back before the second activation. */
  lemma {:induction false} ClockSetBackLosesFile(c1: Option<Content>, c2: Option<Content>, base: string,
                                                 now: nat, later: nat)
    requires NeedsBackup(c1) && NeedsBackup(c2) && NamesAvorelo(base)
    requires later < now && |Decimal(later)| == |Decimal(now)|
    ensures var history := [Rewrite(c1), Install(true, base, now), Rewrite(c2)];
            AfterUninstall(Run(Store(None, map[]), history + [Install(true, base, later)])).settings == c1
  {
    EarlierSortsFirst(later, now);
    BackupNamesDiffer(later, now);
    hide NeedsBackup, Decimal, BackupName, NamesAvorelo;
    SecondActivation(c1, c2, base, now, later);
  }
}
