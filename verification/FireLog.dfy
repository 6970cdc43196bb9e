/** Summarising the hook fire log. Parsing a line and detecting secret classes are parameters of the model. */
module FireLog {
  import opened Text
  import opened Collections

  /** `classes` are the secret classes detected on the entry. An absent or empty field is `None`. */
  datatype Entry = Entry(event: Option<string>, verdict: Option<string>, classes: seq<string>)

  datatype Summary = Summary(
    total: nat,
    events: map<string, nat>,
    verdicts: map<string, nat>,
    preToolUse: nat,
    leakClasses: seq<string>)  // a JavaScript Set: distinct, in insertion order

  function Increment(m: map<string, nat>, k: Option<string>): map<string, nat> {
    if k.Some? then m[k.value := CountOf(m, k.value) + 1] else m
  }

  /** Classes that mean a raw value survived redaction. */
  predicate IsRawClass(c: string) {
    !StartsWith(c, "key:") && c != "high_entropy_hex"
  }

  function AddClass(leaks: seq<string>, c: string): seq<string> {
    if !IsRawClass(c) || c in leaks then leaks else leaks + [c]
  }

  function AddClasses(leaks: seq<string>, cs: seq<string>): seq<string>
    decreases |cs|
  {
    if cs == [] then leaks
    else AddClass(AddClasses(leaks, cs[..|cs| - 1]), cs[|cs| - 1])
  }

  const EMPTY := Summary(0, map[], map[], 0, [])

  function AddEntry(s: Summary, e: Entry): Summary {
    Summary(s.total + 1, Increment(s.events, e.event), Increment(s.verdicts, e.verdict),
            s.preToolUse + (if e.event == Some("PreToolUse") then 1 else 0),
            AddClasses(s.leakClasses, e.classes))
  }

  /** `parse` is `None` for a blank line and for a line that is not JSON. */
  function Summarized(lines: seq<string>, parse: string -> Option<Entry>): Summary
    decreases |lines|
  {
    if lines == [] then EMPTY
    else
      var s := Summarized(lines[..|lines| - 1], parse);
      match parse(lines[|lines| - 1])
      case None => s
      case Some(e) => AddEntry(s, e)
  }

  method SummarizeFireLog(lines: seq<string>, parse: string -> Option<Entry>) returns (s: Summary, rawSecretLeak: bool)
    ensures s == Summarized(lines, parse)
    ensures rawSecretLeak <==> s.leakClasses != []
  {
    hide IsRawClass, Increment;
    var events: map<string, nat>, verdicts: map<string, nat> := map[], map[];
    var total, preToolUse := 0, 0;
    var leakClasses: seq<string> := [];
    for i := 0 to |lines|
      invariant Summary(total, events, verdicts, preToolUse, leakClasses) == Summarized(lines[..i], parse)
    {
      assert lines[..i + 1][..i] == lines[..i];
      var parsed := parse(lines[i]);
      if parsed.None? {
        continue;
      }
      var e := parsed.value;
      total := total + 1;
      events := Increment(events, e.event);
      if e.event == Some("PreToolUse") {
        preToolUse := preToolUse + 1;
      }
      verdicts := Increment(verdicts, e.verdict);
      var before := leakClasses;
      for j := 0 to |e.classes|
        invariant leakClasses == AddClasses(before, e.classes[..j])
      {
        assert e.classes[..j + 1][..j] == e.classes[..j];
        leakClasses := AddClass(leakClasses, e.classes[j]);
      }
      assert e.classes[..|e.classes|] == e.classes;
    }
    assert lines[..|lines|] == lines;
    s := Summary(total, events, verdicts, preToolUse, leakClasses);
    rawSecretLeak := |leakClasses| > 0;
  }

  // ----- The fold laws -----

  function Sum(a: map<string, nat>, b: map<string, nat>): map<string, nat> {
    map k | k in a.Keys + b.Keys :: CountOf(a, k) + CountOf(b, k)
  }

  /** Pointwise sums, and the union of the leak classes in order of first appearance. */
  function Plus(a: Summary, b: Summary): Summary {
    Summary(a.total + b.total, Sum(a.events, b.events), Sum(a.verdicts, b.verdicts),
            a.preToolUse + b.preToolUse, AddClasses(a.leakClasses, b.leakClasses))
  }

  lemma SumIncrement(a: map<string, nat>, b: map<string, nat>, k: Option<string>)
    ensures Sum(a, Increment(b, k)) == Increment(Sum(a, b), k)
  {
  }

  lemma {:induction false} AddClassesMember(leaks: seq<string>, cs: seq<string>, c: string)
    ensures c in AddClasses(leaks, cs) <==> c in leaks || (c in cs && IsRawClass(c))
    decreases |cs|
  {
    hide IsRawClass;
    if cs != [] {
      var n := |cs| - 1;
      AddClassesMember(leaks, cs[..n], c);
      assert cs == cs[..n] + [cs[n]];
    }
  }

  /** Adding the union of two lists is adding one after the other. */
  lemma {:induction false} AddUnion(a: seq<string>, b: seq<string>, cs: seq<string>)
    ensures AddClasses(a, AddClasses(b, cs)) == AddClasses(AddClasses(a, b), cs)
    decreases |cs|
  {
    hide IsRawClass;
    if cs != [] {
      var n := |cs| - 1;
      var c, bs := cs[n], AddClasses(b, cs[..n]);
      AddUnion(a, b, cs[..n]);
      AddClassesMember(a, bs, c);
      if IsRawClass(c) && c !in bs {
        assert (bs + [c])[..|bs|] == bs;
      }
    }
  }

  lemma PlusEntry(a: Summary, b: Summary, e: Entry)
    ensures Plus(a, AddEntry(b, e)) == AddEntry(Plus(a, b), e)
  {
    SumIncrement(a.events, b.events, e.event);
    SumIncrement(a.verdicts, b.verdicts, e.verdict);
    AddUnion(a.leakClasses, b.leakClasses, e.classes);
  }

  lemma PlusEmpty(s: Summary)
    ensures Plus(s, EMPTY) == s
  {
    assert Sum(s.events, map[]) == s.events && Sum(s.verdicts, map[]) == s.verdicts;
  }

  /** The summary of two logs one after the other is the sum of their summaries. */
  lemma {:induction false} SummaryOfConcatenation(a: seq<string>, b: seq<string>, parse: string -> Option<Entry>)
    ensures Summarized(a + b, parse) == Plus(Summarized(a, parse), Summarized(b, parse))
    decreases |b|
  {
    hide AddEntry, Plus;
    var s := Summarized(a, parse);
    if b == [] {
      assert a + b == a;
      PlusEmpty(s);
    } else {
      var n := |b| - 1;
      assert (a + b)[..|a + b| - 1] == a + b[..n];
      SummaryOfConcatenation(a, b[..n], parse);
      match parse(b[n])
      case None =>
      case Some(e) => PlusEntry(s, Summarized(b[..n], parse), e);
    }
  }

  /** The PreToolUse counter agrees with the event table. */
  lemma {:induction false} PreToolUseIsEventCount(lines: seq<string>, parse: string -> Option<Entry>)
    ensures Summarized(lines, parse).preToolUse == CountOf(Summarized(lines, parse).events, "PreToolUse")
    decreases |lines|
  {
    if lines != [] {
      PreToolUseIsEventCount(lines[..|lines| - 1], parse);
    }
  }

  /** A class is reported as leaked exactly when it is a raw class of some parsed entry. */
  lemma {:induction false} LeakMeaning(lines: seq<string>, parse: string -> Option<Entry>, c: string)
    ensures c in Summarized(lines, parse).leakClasses <==>
            NotAName(c) && exists i :: 0 <= i < |lines| && parse(lines[i]).Some? && c in parse(lines[i]).value.classes
    decreases |lines|
  {
    RawMeaning(c);
    hide IsRawClass, NotAName;
    if lines != [] {
      var n := |lines| - 1;
      var earlier := lines[..n];
      LeakMeaning(earlier, parse, c);
      assert forall i | 0 <= i < n :: earlier[i] == lines[i];
      if parse(lines[n]).Some? {
        AddClassesMember(Summarized(earlier, parse).leakClasses, parse(lines[n]).value.classes, c);
      }
    }
  }

  /** The class is that of a value: not of a key, and not of hexadecimal digits that could be anything. */
  ghost predicate NotAName(c: string) {
    c != "high_entropy_hex" && !exists key :: c == "key:" + key
  }

  lemma {:induction false} RawMeaning(c: string)
    ensures IsRawClass(c) <==> NotAName(c)
  {
    if StartsWith(c, "key:") {
      assert c == "key:" + c[4..];
    }
    if key :| c == "key:" + key {
      assert c[..4] == "key:";
    }
  }

  /** No class is reported twice. */
  lemma {:induction false} LeaksDistinct(lines: seq<string>, parse: string -> Option<Entry>)
    ensures Distinct(Summarized(lines, parse).leakClasses)
    decreases |lines|
  {
    if lines != [] {
      var n := |lines| - 1;
      LeaksDistinct(lines[..n], parse);
      if parse(lines[n]).Some? {
        StaysDistinct(Summarized(lines[..n], parse).leakClasses, parse(lines[n]).value.classes);
      }
    }
  }

  lemma {:induction false} StaysDistinct(leaks: seq<string>, cs: seq<string>)
    requires Distinct(leaks)
    ensures Distinct(AddClasses(leaks, cs))
    decreases |cs|
  {
    hide IsRawClass;
    if cs != [] {
      StaysDistinct(leaks, cs[..|cs| - 1]);
    }
  }

  // ----- What the counters count -----

  /** How many numbers below `n` have the property. */
  ghost function Tally(p: nat -> bool, n: nat): nat {
    |set i: nat | i < n && p(i)|
  }

  lemma {:induction false} TallyStep(p: nat -> bool, n: nat)
    ensures Tally(p, n + 1) == Tally(p, n) + if p(n) then 1 else 0
  {
    var before, now := set i: nat | i < n && p(i), set i: nat | i < n + 1 && p(i);
    if p(n) {
      assert now == before + {n};
    } else {
      assert now == before;
    }
  }

  ghost predicate Parsed(lines: seq<string>, parse: string -> Option<Entry>, i: nat) {
    i < |lines| && parse(lines[i]).Some?
  }

  ghost predicate WithEvent(lines: seq<string>, parse: string -> Option<Entry>, event: string, i: nat) {
    Parsed(lines, parse, i) && parse(lines[i]).value.event == Some(event)
  }

  ghost predicate WithVerdict(lines: seq<string>, parse: string -> Option<Entry>, verdict: string, i: nat) {
    Parsed(lines, parse, i) && parse(lines[i]).value.verdict == Some(verdict)
  }

  lemma {:induction false} CountsBelow(lines: seq<string>, parse: string -> Option<Entry>, k: string, n: nat,
                                       parsed: nat -> bool, event: nat -> bool, verdict: nat -> bool)
    requires n <= |lines|
    requires forall i: nat :: parsed(i) <==> Parsed(lines, parse, i)
    requires forall i: nat :: event(i) <==> WithEvent(lines, parse, k, i)
    requires forall i: nat :: verdict(i) <==> WithVerdict(lines, parse, k, i)
    ensures var s := Summarized(lines[..n], parse);
            && s.total == Tally(parsed, n)
            && CountOf(s.events, k) == Tally(event, n)
            && CountOf(s.verdicts, k) == Tally(verdict, n)
    decreases n
  {
    if n == 0 {
      assert lines[..0] == [];
    } else {
      CountsBelow(lines, parse, k, n - 1, parsed, event, verdict);
      TallyStep(parsed, n - 1);
      TallyStep(event, n - 1);
      TallyStep(verdict, n - 1);
      assert lines[..n][..n - 1] == lines[..n - 1];
      hide Tally, AddClasses;
    }
  }

  /** The total counts the lines that parse; the tables count, under each name, the lines with that event or verdict. */
  lemma {:induction false} CountsMeaning(lines: seq<string>, parse: string -> Option<Entry>, k: string)
    ensures var s := Summarized(lines, parse);
            && s.total == |set i: nat | i < |lines| && Parsed(lines, parse, i)|
            && CountOf(s.events, k) == |set i: nat | i < |lines| && WithEvent(lines, parse, k, i)|
            && CountOf(s.verdicts, k) == |set i: nat | i < |lines| && WithVerdict(lines, parse, k, i)|
  {
    var parsed := (i: nat) => Parsed(lines, parse, i);
    var event := (i: nat) => WithEvent(lines, parse, k, i);
    var verdict := (i: nat) => WithVerdict(lines, parse, k, i);
    assert lines[..|lines|] == lines;
    CountsBelow(lines, parse, k, |lines|, parsed, event, verdict);
    var n := |lines|;
    assert (set i: nat | i < n && parsed(i)) == (set i: nat | i < n && Parsed(lines, parse, i));
    assert (set i: nat | i < n && event(i)) == (set i: nat | i < n && WithEvent(lines, parse, k, i));
    assert (set i: nat | i < n && verdict(i)) == (set i: nat | i < n && WithVerdict(lines, parse, k, i));
    hide Summarized, Parsed, WithEvent, WithVerdict;
  }
}
