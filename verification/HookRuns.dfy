/** What holds over every run of installs, uninstalls and outside rewrites of the settings file. */
module HookRuns {
  import opened Text
  import opened JsonObjects
  import opened HookSettings
  import opened StringOrder
  import opened HookInstaller

  datatype Op =
    | Install(approve: bool, base: string, now: nat)  // a refusal for another reason is like one for lack of approval
    | Uninstall
    | Rewrite(content: Option<Content>)  // anything else that writes or deletes settings.json

  ghost function Step(st: Store, op: Op): Store {
    match op
    case Install(approve, base, now) => if approve then AfterInstall(st, base, now) else st
    case Uninstall => AfterUninstall(st)
    case Rewrite(content) => st.(settings := content)
  }

  ghost function Run(st: Store, ops: seq<Op>): Store
    decreases |ops|
  {
    if ops == [] then st else Step(Run(st, ops[..|ops| - 1]), ops[|ops| - 1])
  }

  lemma {:induction false} RunAppend(st: Store, a: seq<Op>, b: seq<Op>)
    ensures Run(st, a + b) == Run(Run(st, a), b)
    decreases |b|
  {
    if b == [] {
      assert a + b == a;
    } else {
      var n := |b| - 1;
      assert (a + b)[..|a + b| - 1] == a + b[..n];
      RunAppend(st, a, b[..n]);
    }
  }

  // ----- Backups are pre-Avorelo -----

  ghost predicate CleanBackups(st: Store) {
    forall n | n in st.backups :: CleanContent(st.backups[n])
  }

  /** Every stored backup is unparseable or holds no Avorelo group, whatever the commands, clock and outside edits. */
  lemma {:induction false} BackupInvariant(init: Store, ops: seq<Op>)
    requires init.backups == map[]
    ensures CleanBackups(Run(init, ops))
    decreases |ops|
  {
    if ops != [] {
      BackupInvariant(init, ops[..|ops| - 1]);
    }
  }

  // ----- The newest backup -----

  lemma BackupNameOrder(t: nat, u: nat)
    ensures Leq(BackupName(t), BackupName(u)) <==> Leq(Decimal(t) + ".json", Decimal(u) + ".json")
  {
    LeqCommonPrefix("settings-", Decimal(t) + ".json", Decimal(u) + ".json");
  }

  /**
   Backup names sort by time exactly when the earlier stamp, padded with zeros to the length of the later
   one, does not exceed it.
   */
  lemma {:induction false} NewestByStringSort(t1: nat, t2: nat)
    requires t1 < t2
    ensures |Decimal(t1)| <= |Decimal(t2)|
    ensures Less(BackupName(t1), BackupName(t2)) <==> t1 * Pow10(|Decimal(t2)| - |Decimal(t1)|) <= t2
  {
    hide Leq, Decimal, BackupName, Pow10;
    NumeralOrder(t1, t2, ".json");
    BackupNameOrder(t1, t2);
    BackupNamesDiffer(t1, t2);
  }

  lemma BackupNamesDiffer(t1: nat, t2: nat)
    requires t1 < t2
    ensures BackupName(t1) != BackupName(t2)
  {
    if BackupName(t1) == BackupName(t2) {
      var a, b := Decimal(t1), Decimal(t2);
      assert a + ".json" == BackupName(t1)[|"settings-"|..] == b + ".json";
      assert |a| == |b|;
      assert a == (a + ".json")[..|a|] == b;
      SameLengthOrder(t1, t2, [], []);
      assert false;
    }
  }

  lemma {:induction false} ExceedingSortsLast(t1: nat, t2: nat)
    requires t1 < t2 && PaddedExceeds(t1, t2)
    ensures Less(BackupName(t2), BackupName(t1))
  {
    NewestByStringSort(t1, t2);
    BackupNamesDiffer(t1, t2);
    LeqTotal(BackupName(t1), BackupName(t2));
    hide BackupName, Decimal, Pow10;
  }

  /** Whenever the stamps gain a digit, the sort puts the last backup before the gain last. */
  lemma {:induction false} RolloverSortsLast(k: nat)
    requires k >= 1
    ensures Less(BackupName(Pow10(k)), BackupName(Pow10(k) - 1))
  {
    DigitGained(k);
    hide Less, BackupName, Pow10, PaddedExceeds;
    ExceedingSortsLast(Pow10(k) - 1, Pow10(k));
  }

  /** So it was for a clock that crossed 2001-09-09, when the stamps went from twelve digits to thirteen. */
  lemma {:induction false} ShorterStampSortsLast()
    ensures Less(BackupName(1_000_000_000_000), BackupName(999_999_999_999))
  {
    assert Pow10(12) == 1_000_000_000_000;
    RolloverSortsLast(12);
  }

  /** The clock of a run never goes backwards, and its stamps have `digits` digits. */
  ghost predicate ClockOk(ops: seq<Op>, digits: nat) {
    && (forall i | 0 <= i < |ops| && ops[i].Install? :: |Decimal(ops[i].now)| == digits)
    && (forall i, j | 0 <= i < j < |ops| && ops[i].Install? && ops[j].Install? :: ops[i].now <= ops[j].now)
  }

  ghost predicate StampedBy(names: set<string>, ops: seq<Op>) {
    forall n | n in names :: exists i :: 0 <= i < |ops| && ops[i].Install? && n == BackupName(ops[i].now)
  }

  lemma {:induction false} BackupsAreStamped(init: Store, ops: seq<Op>)
    requires init.backups == map[]
    ensures StampedBy(Run(init, ops).backups.Keys, ops)
    decreases |ops|
  {
    if ops != [] {
      var n := |ops| - 1;
      BackupsAreStamped(init, ops[..n]);
      forall name | name in Run(init, ops).backups
        ensures exists i :: 0 <= i < |ops| && ops[i].Install? && name == BackupName(ops[i].now)
      {
        if name in Run(init, ops[..n]).backups {
          var i :| 0 <= i < n && ops[..n][i].Install? && name == BackupName(ops[..n][i].now);
          assert ops[i] == ops[..n][i];
        }
      }
    }
  }

  lemma NoPadding(t: nat)
    ensures t * Pow10(0) == t
  {
  }

  lemma EarlierSortsFirst(t: nat, now: nat)
    requires t <= now && |Decimal(t)| == |Decimal(now)|
    ensures Leq(BackupName(t), BackupName(now))
  {
    hide Leq, Decimal, BackupName, Pow10;
    LeqTotal(BackupName(t), BackupName(now));
    NoPadding(t);
    if t < now {
      NewestByStringSort(t, now);
    }
  }

  lemma BackupNameIsOne(now: nat)
    ensures IsBackupName(BackupName(now))
  {
  }

  // ----- Repeating calls -----

  /** After uninstall no Avorelo group is left, in any state whatever. */
  lemma UninstallLeavesNoAvorelo(st: Store)
    ensures AfterUninstall(st).settings.Some? ==> CleanContent(AfterUninstall(st).settings.value)
  {
    var c := if Baseline(st).Some? then Baseline(st) else st.settings;
    if c.Some? && c.value.Parsed? {
      StrippedExactly(c.value.settings);
    }
  }

  lemma UninstallIdempotent(st: Store)
    ensures AfterUninstall(AfterUninstall(st)) == AfterUninstall(st)
  {
    UninstallLeavesNoAvorelo(st);
    var c := AfterUninstall(st).settings;
    if c.Some? && c.value.Parsed? {
      StrippedCleanUnchanged(c.value.settings);
    }
  }

  /** Re-activation with the same recognised command changes neither the settings nor the backups. */
  lemma {:induction false} InstallIdempotent(st: Store, base: string, now: nat, later: nat)
    requires NamesAvorelo(base)
    ensures AfterInstall(AfterInstall(st, base, now), base, later) == AfterInstall(st, base, now)
  {
    InstalledRecognised(Existing(st.settings), base);
    InstalledIdempotent(Existing(st.settings), base);
  }

  /** After an install validation finds every event if the command names avorelo, and none otherwise. */
  lemma InstallValidates(s: Settings, base: string)
    ensures MissingEvents(Installed(s, base), LIFECYCLE_EVENTS) == if NamesAvorelo(base) then [] else LIFECYCLE_EVENTS
  {
    forall ev | ev in LIFECYCLE_EVENTS
      ensures AnyAvorelo(GroupsAt(Installed(s, base), ev)) <==> NamesAvorelo(base)
    {
      EventRecognised(s, base, ev);
    }
    AllOrNoneMissing(Installed(s, base), LIFECYCLE_EVENTS, NamesAvorelo(base));
  }

  lemma {:induction false} AllOrNoneMissing(s: Settings, events: seq<string>, present: bool)
    requires forall ev | ev in events :: AnyAvorelo(GroupsAt(s, ev)) <==> present
    ensures MissingEvents(s, events) == if present then [] else events
    decreases |events|
  {
    hide AnyAvorelo, GroupsAt;
    if events != [] {
      var n := |events| - 1;
      AllOrNoneMissing(s, events[..n], present);
      assert events[n] in events;
      assert events == events[..n] + [events[n]];
    }
  }
}
