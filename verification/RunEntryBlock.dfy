/** The block text of run entry, and why it is a block in the sense of the managed-block lemmas. */
module RunEntryBlock {
  import opened Text
  import opened ManagedBlock

  const ACTIVATED := "\n\nThis project is activated with " + "Avorelo.\n\n"
  const SESSIONS :=
    ("Supported AI coding sessions " + "should start by checking Avorelo ") +
    ("status, current receipts, and " + "run-entry guidance.\n\n")
  const EDITS := "Before edits or pushes, check " + "dirty/collision risk.\n\n"
  const CLAIMS :=
    ("Do not claim deploy, publish, " + "production, payment, or cloud ") +
    ("sync unless proven by Avorelo " + "receipts.\n\n")
  const PROOF := "Use Avorelo validators and " + "dogfood artifacts for proof.\n\n"
  const STATUS := "Commands:\n- `npx avorelo status` " + "\U{2014} check current activation state\n"
  const OPEN := "- `npx avorelo open` \U{2014} local " + "receipts dashboard\n"
  const VERIFY := "- `npx avorelo verify` \U{2014} validate " + "activation invariants\n"
  const DOCTOR := "- `npx avorelo doctor` \U{2014} health " + "check\n\n"

  const RUN_ENTRY_BODY := ACTIVATED + SESSIONS + EDITS + CLAIMS + PROOF + (STATUS + OPEN + VERIFY + DOCTOR)

  const RUN_ENTRY_BLOCK := MARKER_START + RUN_ENTRY_BODY + MARKER_END

  lemma OpeningLacksAngle()
    ensures '<' !in ACTIVATED
  {
    assert '<' !in "\n\nThis project is activated with ";
    assert '<' !in "Avorelo.\n\n";
  }

  lemma ProofLacksAngle()
    ensures '<' !in PROOF
  {
    assert '<' !in "Use Avorelo validators and ";
    assert '<' !in "dogfood artifacts for proof.\n\n";
  }

  lemma EditsLackAngle()
    ensures '<' !in EDITS
  {
    assert '<' !in "Before edits or pushes, check ";
    assert '<' !in "dirty/collision risk.\n\n";
  }

  lemma SessionsStart()
    ensures '<' !in "Supported AI coding sessions " + "should start by checking Avorelo "
  {
    assert '<' !in "Supported AI coding sessions ";
    assert '<' !in "should start by checking Avorelo ";
  }

  lemma SessionsEnd()
    ensures '<' !in "status, current receipts, and " + "run-entry guidance.\n\n"
  {
    assert '<' !in "status, current receipts, and ";
    assert '<' !in "run-entry guidance.\n\n";
  }

  lemma ClaimsStart()
    ensures '<' !in "Do not claim deploy, publish, " + "production, payment, or cloud "
  {
    assert '<' !in "Do not claim deploy, publish, ";
    assert '<' !in "production, payment, or cloud ";
  }

  lemma ClaimsEnd()
    ensures '<' !in "sync unless proven by Avorelo " + "receipts.\n\n"
  {
    assert '<' !in "sync unless proven by Avorelo ";
    assert '<' !in "receipts.\n\n";
  }

  lemma OpenLacksAngle()
    ensures '<' !in OPEN
  {
    assert '<' !in "- `npx avorelo open` \U{2014} local ";
    assert '<' !in "receipts dashboard\n";
  }

  lemma StatusLacksAngle()
    ensures '<' !in STATUS
  {
    assert '<' !in "Commands:\n- `npx avorelo status` ";
    assert '<' !in "\U{2014} check current activation state\n";
  }

  lemma VerifyLacksAngle()
    ensures '<' !in VERIFY
  {
    assert '<' !in "- `npx avorelo verify` \U{2014} validate ";
    assert '<' !in "activation invariants\n";
  }

  lemma DoctorLacksAngle()
    ensures '<' !in DOCTOR
  {
    assert '<' !in "- `npx avorelo doctor` \U{2014} health ";
    assert '<' !in "check\n\n";
  }

  /** The block that is really installed meets the hypothesis of every managed-block lemma. */
  lemma {:induction false} RunEntryBlockIsABlock()
    ensures IsBlock(RUN_ENTRY_BLOCK, RUN_ENTRY_BODY, MARKER_START, MARKER_END)
  {
    MarkersAreAPair();
    OpeningLacksAngle();
    ProofLacksAngle();
    EditsLackAngle();
    SessionsStart();
    SessionsEnd();
    ClaimsStart();
    ClaimsEnd();
    StatusLacksAngle();
    OpenLacksAngle();
    VerifyLacksAngle();
    DoctorLacksAngle();
  }

  /** Run entry's second call on an instruction file reports it unchanged exactly when its markers were settled. */
  lemma {:induction false} RunEntrySecondCall(file: Option<string>)
    ensures WithBlock(Some(WithBlock(file, RUN_ENTRY_BLOCK).0), RUN_ENTRY_BLOCK).1 == Unchanged <==>
            Settles(file, MARKER_START, MARKER_END)
  {
    RunEntryBlockIsABlock();
    hide IsBlock, WithMarkers, Settles;
    SecondCallUnchanged(file, RUN_ENTRY_BLOCK, RUN_ENTRY_BODY, MARKER_START, MARKER_END);
  }
}
