/**
 The lifecycle hook handler and its recursion guard. The code it calls (session orchestrator, gate, redaction)
 may call the handler again, so a call is a tree: each piece of work lists the nested calls it makes and then
 yields a result or throws.
 */
module RecursionGuard {
  import opened Text
  import opened Collections

  datatype Work<R> = Work(nested: seq<Call>, result: Option<R>)  // None: the work throws

  datatype SessionResult = SessionResult(verdict: string, corrections: Option<string>)
  datatype GateResult = GateResult(verdict: string, reasonCodes: seq<string>, redactionClasses: seq<string>)
  datatype Finding = Finding(code: string, severity: string)

  datatype Call = Call(
    event: string,
    hasDir: bool,
    session: Work<SessionResult>,
    gate: Work<GateResult>,
    redact: Work<seq<Finding>>,
    sessionEnd: Work<()>)

  datatype Outcome =
    | Returned(event: string, verdict: string, reasonCodes: seq<string>, redactionClasses: seq<string>,
               exitCode: int, recursionSkipped: bool, correction: Option<string>)
    | Threw

  const ACTIVE := Some("1")

  function Skip(event: string): Outcome {
    Returned(event, "allow", ["RECURSION_GUARD_SKIP"], [], 0, true, None)
  }

  function Skips(calls: seq<Call>): (r: seq<Outcome>)
    ensures |r| == |calls|
    ensures forall i | 0 <= i < |calls| :: r[i] == Skip(calls[i].event)
  {
    Map((c: Call) => Skip(c.event), calls)
  }

  /** The nested calls that an outermost call makes, in order. */
  function NestedCalls(c: Call): seq<Call> {
    (if c.hasDir then c.session.nested else []) +
    (if c.event == "PreToolUse" then c.gate.nested
     else if c.event == "PostToolUse" then c.redact.nested
     else if c.event == "SessionEnd" && c.hasDir then c.sessionEnd.nested
     else [])
  }

  /** A session failure is swallowed. */
  function SessionOf(c: Call): Option<SessionResult> {
    if c.hasDir then c.session.result else None
  }

  function CorrectionOf(c: Call): Option<string> {
    match SessionOf(c)
    case Some(s) => s.corrections
    case None => None
  }

  function Codes(fs: seq<Finding>): seq<string> {
    Map((f: Finding) => f.code, fs)
  }

  function Classes(fs: seq<Finding>): seq<string> {
    Map((f: Finding) => f.code + ":" + f.severity, fs)
  }

  predicate NeedsApproval(c: Call) {
    SessionOf(c).Some? && SessionOf(c).value.verdict == "needs_approval"
  }

  /** What an outermost call yields. */
  function Outermost(c: Call): Outcome {
    if c.event == "PreToolUse" then
      match c.gate.result
      case None => Threw
      case Some(g) =>
        if NeedsApproval(c) && g.verdict == "allow" then
          Returned(c.event, "needs_approval", g.reasonCodes + ["SESSION_DRIFT_APPROVAL"], g.redactionClasses,
                   2, false, CorrectionOf(c))
        else
          Returned(c.event, g.verdict, g.reasonCodes, g.redactionClasses,
                   if g.verdict == "allow" then 0 else 2, false, CorrectionOf(c))
    else if c.event == "PostToolUse" then
      match c.redact.result
      case None => Threw
      case Some(fs) => Returned(c.event, "allow", Codes(fs), Classes(fs), 0, false, CorrectionOf(c))
    else
      Returned(c.event, "allow", ["RECORDED"], [], 0, false, CorrectionOf(c))
  }

  // ----- What a call answers, in words -----

  /** The answer of a call that is skipped. */
  ghost predicate IsSkip(c: Call, r: Outcome) {
    && r.Returned? && r.event == c.event && r.recursionSkipped
    && r.verdict == "allow" && r.exitCode == 0
    && r.reasonCodes == ["RECURSION_GUARD_SKIP"] && r.redactionClasses == [] && r.correction == None
  }

  /** The session answered and wants the tool to be approved. */
  ghost predicate SessionAsks(c: Call) {
    c.hasDir && c.session.result.Some? && c.session.result.value.verdict == "needs_approval"
  }

  /** Before a tool: the gate's answer, unless it allows what the session wants approved. */
  ghost predicate AnswersGate(c: Call, g: GateResult, r: Outcome)
    requires r.Returned?
  {
    && r.redactionClasses == g.redactionClasses
    && (r.exitCode == 0 <==> r.verdict == "allow") && (r.exitCode == 2 <==> r.verdict != "allow")
    && if g.verdict == "allow" && SessionAsks(c)
       then r.verdict == "needs_approval" && r.reasonCodes == g.reasonCodes + ["SESSION_DRIFT_APPROVAL"]
       else r.verdict == g.verdict && r.reasonCodes == g.reasonCodes
  }

  /** After a tool: one code and one class for each finding, in order. */
  ghost predicate AnswersFindings(fs: seq<Finding>, r: Outcome)
    requires r.Returned?
  {
    && |r.reasonCodes| == |fs| && |r.redactionClasses| == |fs|
    && forall i | 0 <= i < |fs| ::
         r.reasonCodes[i] == fs[i].code && r.redactionClasses[i] == fs[i].code + ":" + fs[i].severity
  }

  /**
   The answer of an outermost call. It throws only where the gate or the redaction does; every other event than
   PreToolUse is allowed with exit code 0; the session's correction is always passed on.
   */
  ghost predicate Answers(c: Call, r: Outcome) {
    && (r.Threw? <==>
        (c.event == "PreToolUse" && c.gate.result.None?) || (c.event == "PostToolUse" && c.redact.result.None?))
    && (r.Returned? ==>
          && r.event == c.event && !r.recursionSkipped
          && r.correction == (if c.hasDir && c.session.result.Some? then c.session.result.value.corrections else None)
          && (c.event != "PreToolUse" ==> r.verdict == "allow" && r.exitCode == 0)
          && (c.event == "PreToolUse" ==> AnswersGate(c, c.gate.result.value, r))
          && (c.event == "PostToolUse" ==> AnswersFindings(c.redact.result.value, r))
          && (c.event != "PreToolUse" && c.event != "PostToolUse" ==>
                r.reasonCodes == ["RECORDED"] && r.redactionClasses == []))
  }

  lemma VerdictsDiffer()
    ensures "allow" != "needs_approval" && "PreToolUse" != "PostToolUse"
  {
    assert "allow"[0] != "needs_approval"[0] && "PreToolUse"[1] != "PostToolUse"[1];
  }

  lemma OutermostAnswers(c: Call)
    ensures Answers(c, Outermost(c))
  {
    VerdictsDiffer();
  }

  lemma SkipIsSkip(c: Call)
    ensures IsSkip(c, Skip(c.event))
  {
  }

  /** The work that an outermost call does, and so the nested calls that it makes, by event. */
  lemma NestedCallsByEvent(c: Call)
    ensures var session := if c.hasDir then c.session.nested else [];
            && (c.event == "PreToolUse" ==> NestedCalls(c) == session + c.gate.nested)
            && (c.event == "PostToolUse" ==> NestedCalls(c) == session + c.redact.nested)
            && (c.event == "SessionEnd" && c.hasDir ==> NestedCalls(c) == session + c.sessionEnd.nested)
            && (c.event !in ["PreToolUse", "PostToolUse", "SessionEnd"] ==> NestedCalls(c) == session)
            && (c.event == "SessionEnd" && !c.hasDir ==> NestedCalls(c) == [])
  {
    VerdictsDiffer();
    assert |"SessionEnd"| == 10 && "SessionEnd"[0] == 'S' && "PreToolUse"[0] == 'P' && "PostToolUse"[0] == 'P';
  }

  class HookProcess {
    var hookActive: Option<string>  // the environment variable AVORELO_HOOK_ACTIVE

    constructor ()
      ensures hookActive == None
    {
      hookActive := None;
    }

    /**
     `inner` collects the outcomes of the nested calls. While the flag is set a call is skipped and leaves the
     flag alone; otherwise every nested call of the whole tree below is skipped, and the flag is cleared on
     every exit, a throw included.
     */
    method HandleLifecycleHook(c: Call) returns (r: Outcome, inner: seq<Outcome>)
      modifies this
      ensures old(hookActive) == ACTIVE ==> hookActive == ACTIVE && r == Skip(c.event) && inner == []
      ensures old(hookActive) != ACTIVE ==> hookActive == None && r == Outermost(c) && inner == Skips(NestedCalls(c))
      ensures if old(hookActive) == ACTIVE then IsSkip(c, r) else Answers(c, r)
      decreases c, 1
    {
      OutermostAnswers(c);
      SkipIsSkip(c);
      hide Answers, IsSkip, Outermost, Skip;
      if hookActive == ACTIVE {
        return Skip(c.event), [];
      }
      hookActive := ACTIVE;
      r, inner := Guarded(c);
      hookActive := None;
    }

    /** Calls made one after another are never skipped, however many of them throw. */
    method HandleInTurn(calls: seq<Call>) returns (outcomes: seq<Outcome>)
      requires hookActive != ACTIVE
      modifies this
      ensures hookActive != ACTIVE
      ensures |outcomes| == |calls| && forall i | 0 <= i < |calls| :: outcomes[i] == Outermost(calls[i])
      ensures forall i | 0 <= i < |calls| :: Answers(calls[i], outcomes[i])
    {
      hide Outermost, Answers;
      outcomes := [];
      for i := 0 to |calls|
        invariant hookActive != ACTIVE
        invariant |outcomes| == i && forall j | 0 <= j < i :: outcomes[j] == Outermost(calls[j])
        invariant forall j | 0 <= j < i :: Answers(calls[j], outcomes[j])
      {
        var r, inner := HandleLifecycleHook(calls[i]);
        outcomes := outcomes + [r];
      }
    }

    /** The body of the `try` block. */
    method Guarded(c: Call) returns (r: Outcome, inner: seq<Outcome>)
      requires hookActive == ACTIVE
      modifies this
      ensures hookActive == ACTIVE
      ensures r == Outermost(c)
      ensures inner == Skips(NestedCalls(c))
      decreases c, 0
    {
      inner := [];
      var session: Option<SessionResult> := None;
      if c.hasDir {
        inner := CallNested(c, c.session.nested);
        session := c.session.result;
      }
      var correction := match session case Some(s) => s.corrections case None => None;
      if c.event == "PreToolUse" {
        var more := CallNested(c, c.gate.nested);
        inner := inner + more;
        match c.gate.result
        case None => r := Threw;
        case Some(g) =>
          var exitCode := if g.verdict == "allow" then 0 else 2;
          if session.Some? && session.value.verdict == "needs_approval" && g.verdict == "allow" {
            r := Returned(c.event, "needs_approval", g.reasonCodes + ["SESSION_DRIFT_APPROVAL"], g.redactionClasses,
                          2, false, session.value.corrections);
          } else {
            r := Returned(c.event, g.verdict, g.reasonCodes, g.redactionClasses, exitCode, false, correction);
          }
      } else if c.event == "PostToolUse" {
        var more := CallNested(c, c.redact.nested);
        inner := inner + more;
        match c.redact.result
        case None => r := Threw;
        case Some(fs) => r := Returned(c.event, "allow", Codes(fs), Classes(fs), 0, false, correction);
      } else {
        if c.event == "SessionEnd" && c.hasDir {
          var more := CallNested(c, c.sessionEnd.nested);
          inner := inner + more;
        }
        r := Returned(c.event, "allow", ["RECORDED"], [], 0, false, correction);
      }
    }

    method CallNested(ghost parent: Call, calls: seq<Call>) returns (outcomes: seq<Outcome>)
      requires hookActive == ACTIVE
      requires forall k | k in calls :: k < parent
      modifies this
      ensures hookActive == ACTIVE
      ensures outcomes == Skips(calls)
      decreases parent, 0, calls
    {
      outcomes := [];
      for i := 0 to |calls|
        invariant hookActive == ACTIVE
        invariant outcomes == Skips(calls[..i])
      {
        assert calls[i] in calls;
        var r, deeper := HandleLifecycleHook(calls[i]);
        outcomes := outcomes + [r];
      }
    }
  }

  /** The exit code blocks exactly the verdicts other than allow. */
  lemma {:induction false} ExitCodeMatchesVerdict(c: Call)
    requires Outermost(c).Returned?
    ensures Outermost(c).exitCode == 0 <==> Outermost(c).verdict == "allow"
  {
    assert "allow" != "needs_approval" by { assert "allow"[0] != "needs_approval"[0]; }
  }

  /**
   The session can only tighten a PreToolUse verdict: the tool is allowed exactly when the gate allows it and
   the session asks for no approval, and a verdict of the gate other than allow is never replaced.
   */
  lemma {:induction false} SessionOnlyTightens(c: Call)
    requires c.event == "PreToolUse" && c.gate.result.Some?
    ensures Outermost(c).Returned?
    ensures Outermost(c).verdict == "allow" <==> c.gate.result.value.verdict == "allow" && !SessionAsks(c)
    ensures c.gate.result.value.verdict != "allow" ==>
              Outermost(c).verdict == c.gate.result.value.verdict && Outermost(c).exitCode == 2
  {
    assert "allow" != "needs_approval" by { assert "allow"[0] != "needs_approval"[0]; }
  }
}
