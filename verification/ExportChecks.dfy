/** The validation pass over an export plan. Reading files and matching content rules are parameters. */
module ExportChecks {
  import opened Text
  import opened Collections
  import opened ExportPlan

  /** `find` yields the text of the first match of the rule's pattern. */
  datatype ContentRule = ContentRule(id: string, category: string, allow: seq<string>, find: string -> Option<string>)

  /** What the scan reads: a body is `None` when the file cannot be read as text. */
  datatype Scan = Scan(
    isBinary: string -> bool,
    size: string -> nat,
    body: string -> Option<string>,
    rules: seq<ContentRule>)

  datatype PlanError =
    | Forbidden(hit: string, rule: string)
    | DocsLegal(hit: string)
    | ExpectedMissing(path: string)
    | SymlinkEscape(note: string)
    | ContentViolation(file: string, ruleId: string, category: string, sample: string)

  const MAX_SCANNED_SIZE: nat := 8_000_000
  const DOCS_LEGAL := "docs/legal"

  // ----- Forbidden paths -----

  /** `files.find((f) => under p)` */
  function FindUnder(files: seq<string>, p: string, i: nat): (r: Option<string>)
    requires i <= |files|
    ensures r.Some? ==> r.value in files && UnderPath(r.value, p)
    ensures r.None? ==> forall j | i <= j < |files| :: !UnderPath(files[j], p)
    decreases |files| - i
  {
    if i == |files| then None
    else if UnderPath(files[i], p) then Some(files[i])
    else FindUnder(files, p, i + 1)
  }

  function ForbiddenErrors(files: seq<string>, forbidden: seq<string>): seq<PlanError>
    decreases |forbidden|
  {
    if forbidden == [] then []
    else
      var n := |forbidden| - 1;
      ForbiddenErrors(files, forbidden[..n]) +
      match FindUnder(files, forbidden[n], 0) case Some(hit) => [Forbidden(hit, forbidden[n])] case None => []
  }

  function FindLegal(files: seq<string>, i: nat): (r: Option<string>)
    requires i <= |files|
    ensures r.Some? ==> r.value in files && Contains(r.value, DOCS_LEGAL)
    ensures r.None? ==> forall j | i <= j < |files| :: !Contains(files[j], DOCS_LEGAL)
    decreases |files| - i
  {
    if i == |files| then None
    else if Contains(files[i], DOCS_LEGAL) then Some(files[i])
    else FindLegal(files, i + 1)
  }

  function LegalErrors(files: seq<string>): seq<PlanError> {
    match FindLegal(files, 0) case Some(hit) => [DocsLegal(hit)] case None => []
  }

  // ----- Expected paths -----

  function MissingErrors(plan: Plan, expected: seq<string>): seq<PlanError>
    decreases |expected|
  {
    if expected == [] then []
    else
      var n := |expected| - 1;
      MissingErrors(plan, expected[..n]) +
      if expected[n] in plan.classes.included || expected[n] in plan.generatedFiles then []
      else [ExpectedMissing(expected[n])]
  }

  // ----- Content -----

  predicate Scanned(f: string, scan: Scan) {
    !scan.isBinary(f) && scan.size(f) <= MAX_SCANNED_SIZE && scan.body(f).Some?
  }

  predicate Exempt(f: string, rule: ContentRule) {
    exists i | 0 <= i < |rule.allow| :: StartsWith(f, rule.allow[i])
  }

  function Sample(match_: string): string {
    if |match_| <= 40 then match_ else match_[..40]
  }

  function FileHits(f: string, body: string, rules: seq<ContentRule>): seq<PlanError>
    decreases |rules|
  {
    if rules == [] then []
    else
      var n := |rules| - 1;
      var rule := rules[n];
      FileHits(f, body, rules[..n]) +
      if !Exempt(f, rule) && rule.find(body).Some?
      then [ContentViolation(f, rule.id, rule.category, Sample(rule.find(body).value))] else []
  }

  function ContentHits(files: seq<string>, scan: Scan): seq<PlanError>
    decreases |files|
  {
    if files == [] then []
    else
      var n := |files| - 1;
      ContentHits(files[..n], scan) +
      if Scanned(files[n], scan) then FileHits(files[n], scan.body(files[n]).value, scan.rules) else []
  }

  function SymlinkErrors(notes: seq<string>): (es: seq<PlanError>)
    ensures |es| == |notes|
  {
    Map(note => SymlinkEscape(note), notes)
  }

  // ----- The pass -----

  /** `escapes` are the notes of the symlink check, which is a parameter. */
  function PlanErrors(plan: Plan, manifest: Manifest, escapes: seq<string>, scan: Scan): seq<PlanError> {
    var files := plan.classes.included;
    ForbiddenErrors(files, manifest.mustNeverAppear) + LegalErrors(files) +
    MissingErrors(plan, manifest.expectedPresent) + SymlinkErrors(escapes) + ContentHits(files, scan)
  }

  method ScanContent(files: seq<string>, scan: Scan) returns (hits: seq<PlanError>)
    ensures hits == ContentHits(files, scan)
  {
    hits := [];
    for i := 0 to |files|
      invariant hits == ContentHits(files[..i], scan)
    {
      assert files[..i + 1][..i] == files[..i];
      var f := files[i];
      if scan.isBinary(f) { continue; }
      if scan.size(f) > MAX_SCANNED_SIZE { continue; }
      var body := scan.body(f);
      if body.None? { continue; }
      ghost var before := hits;
      for j := 0 to |scan.rules|
        invariant hits == before + FileHits(f, body.value, scan.rules[..j])
      {
        assert scan.rules[..j + 1][..j] == scan.rules[..j];
        var rule := scan.rules[j];
        if Exempt(f, rule) { continue; }
        var m := rule.find(body.value);
        if m.Some? {
          hits := hits + [ContentViolation(f, rule.id, rule.category, Sample(m.value))];
        }
      }
      assert scan.rules[..|scan.rules|] == scan.rules;
    }
    assert files[..|files|] == files;
  }

  method VerifyPlan(plan: Plan, manifest: Manifest, escapes: seq<string>, scan: Scan) returns (errors: seq<PlanError>)
    ensures errors == PlanErrors(plan, manifest, escapes, scan)
  {
    hide FindUnder, FindLegal, ContentHits, SymlinkErrors, UnderPath, Contains;
    errors := [];
    var files, forbidden, expected := plan.classes.included, manifest.mustNeverAppear, manifest.expectedPresent;
    for i := 0 to |forbidden|
      invariant errors == ForbiddenErrors(files, forbidden[..i])
    {
      assert forbidden[..i + 1][..i] == forbidden[..i];
      var hit := FindUnder(files, forbidden[i], 0);
      if hit.Some? {
        errors := errors + [Forbidden(hit.value, forbidden[i])];
      }
    }
    assert forbidden[..|forbidden|] == forbidden;
    var legal := FindLegal(files, 0);
    if legal.Some? {
      errors := errors + [DocsLegal(legal.value)];
    }
    ghost var before := errors;
    for i := 0 to |expected|
      invariant errors == before + MissingErrors(plan, expected[..i])
    {
      assert expected[..i + 1][..i] == expected[..i];
      if expected[i] !in files && expected[i] !in plan.generatedFiles {
        errors := errors + [ExpectedMissing(expected[i])];
      }
    }
    assert expected[..|expected|] == expected;
    errors := errors + SymlinkErrors(escapes);
    var hits := ScanContent(files, scan);
    errors := errors + hits;
  }

  // ----- What an empty error list means -----

  /** No file is the path `p` or lies below it. */
  predicate NoneUnder(files: seq<string>, p: string) {
    forall i | 0 <= i < |files| :: !UnderPath(files[i], p)
  }

  lemma FindUnderNone(files: seq<string>, p: string)
    ensures FindUnder(files, p, 0).None? <==> NoneUnder(files, p)
  {
    hide UnderPath;
    var r := FindUnder(files, p, 0);
    if r.Some? {
      var i :| 0 <= i < |files| && files[i] == r.value;
    }
  }

  lemma {:induction false} NoForbidden(files: seq<string>, forbidden: seq<string>)
    ensures ForbiddenErrors(files, forbidden) == [] <==>
            forall j | 0 <= j < |forbidden| :: NoneUnder(files, forbidden[j])
    decreases |forbidden|
  {
    hide NoneUnder, FindUnder, UnderPath;
    if forbidden != [] {
      var n := |forbidden| - 1;
      NoForbidden(files, forbidden[..n]);
      FindUnderNone(files, forbidden[n]);
      assert forall j | 0 <= j < n :: forbidden[..n][j] == forbidden[j];
    }
  }

  lemma {:induction false} NoMissing(plan: Plan, expected: seq<string>)
    ensures MissingErrors(plan, expected) == [] <==>
            forall j | 0 <= j < |expected| :: expected[j] in plan.classes.included || expected[j] in plan.generatedFiles
    decreases |expected|
  {
    if expected != [] {
      NoMissing(plan, expected[..|expected| - 1]);
    }
  }

  lemma {:induction false} NoFileHits(f: string, body: string, rules: seq<ContentRule>)
    ensures FileHits(f, body, rules) == [] <==>
            forall k | 0 <= k < |rules| :: Exempt(f, rules[k]) || rules[k].find(body).None?
    decreases |rules|
  {
    hide Exempt, Sample;
    if rules != [] {
      var n := |rules| - 1;
      NoFileHits(f, body, rules[..n]);
      assert forall k | 0 <= k < n :: rules[..n][k] == rules[k];
    }
  }

  /** A file that is scanned has no match of any rule it is not exempt from. */
  predicate Clean(f: string, scan: Scan) {
    Scanned(f, scan) ==>
      forall k | 0 <= k < |scan.rules| :: Exempt(f, scan.rules[k]) || scan.rules[k].find(scan.body(f).value).None?
  }

  lemma {:induction false} NoContentHits(files: seq<string>, scan: Scan)
    ensures ContentHits(files, scan) == [] <==> forall i | 0 <= i < |files| :: Clean(files[i], scan)
    decreases |files|
  {
    if files != [] {
      var n := |files| - 1;
      NoContentHits(files[..n], scan);
      if Scanned(files[n], scan) {
        NoFileHits(files[n], scan.body(files[n]).value, scan.rules);
      }
      hide Scanned, FileHits, Exempt;
      assert forall i | 0 <= i < n :: files[..n][i] == files[i];
    }
  }

  /** The text has the other in it. */
  ghost predicate Mentions(text: string, other: string) {
    exists before, behind :: text == before + other + behind
  }

  lemma {:induction false} ContainsMeaning(s: string, p: string)
    ensures Contains(s, p) <==> Mentions(s, p)
  {
    if i :| OccursAt(s, p, i) {
      assert s == s[..i] + p + s[i + |p|..];
    }
    if a, b :| s == a + p + b {
      assert (a + p + b)[|a|..|a| + |p|] == p;
      assert OccursAt(s, p, |a|);
    }
  }

  /**
   The file is read, which a binary or large file is not, and the rule, of which the file's path is not exempt by any
   prefix, finds something in it.
   */
  ghost predicate Violates(f: string, rule: ContentRule, scan: Scan) {
    && !scan.isBinary(f) && scan.size(f) <= 8_000_000 && scan.body(f).Some?
    && rule.find(scan.body(f).value).Some?
    && !exists prefix, rest :: prefix in rule.allow && f == prefix + rest
  }

  lemma {:induction false} ExemptMeaning(f: string, rule: ContentRule)
    ensures Exempt(f, rule) <==> exists prefix, rest :: prefix in rule.allow && f == prefix + rest
  {
    if i :| 0 <= i < |rule.allow| && StartsWith(f, rule.allow[i]) {
      assert f == rule.allow[i] + f[|rule.allow[i]|..];
    }
    if p, rest :| p in rule.allow && f == p + rest {
      var i :| 0 <= i < |rule.allow| && rule.allow[i] == p;
      assert f[..|p|] == p;
    }
  }

  lemma {:induction false} CleanMeaning(f: string, scan: Scan)
    ensures Clean(f, scan) <==> forall k | 0 <= k < |scan.rules| :: !Violates(f, scan.rules[k], scan)
  {
    hide Exempt;
    forall k | 0 <= k < |scan.rules|
      ensures Violates(f, scan.rules[k], scan) <==>
              Scanned(f, scan) && !Exempt(f, scan.rules[k]) && scan.rules[k].find(scan.body(f).value).Some?
    {
      ExemptMeaning(f, scan.rules[k]);
    }
    hide Violates;
  }

  lemma {:induction false} NoneUnderMeaning(files: seq<string>, p: string)
    ensures NoneUnder(files, p) <==> forall i | 0 <= i < |files| :: !IsNamedOrInside(files[i], p)
  {
    hide UnderPath, IsNamedOrInside;
    forall i | 0 <= i < |files| ensures UnderPath(files[i], p) <==> IsNamedOrInside(files[i], p) {
      UnderPathMeaning(files[i], p);
    }
  }

  /** No included file is named by a path or lies inside a directory that it names. */
  ghost predicate NoneForbidden(files: seq<string>, forbidden: seq<string>) {
    forall i, j | 0 <= i < |files| && 0 <= j < |forbidden| :: !IsNamedOrInside(files[i], forbidden[j])
  }

  /**
   The plan passes exactly when no included file is a forbidden path or inside one, none mentions docs/legal,
   every expected path is included or generated, no symlink escapes, and no scanned file violates a rule.
   */
  lemma {:induction false} PassesExactlyWhen(plan: Plan, manifest: Manifest, escapes: seq<string>, scan: Scan)
    ensures var files := plan.classes.included;
            PlanErrors(plan, manifest, escapes, scan) == [] <==>
            && NoneForbidden(files, manifest.mustNeverAppear)
            && (forall i | 0 <= i < |files| :: !Mentions(files[i], "docs/legal"))
            && (forall p | p in manifest.expectedPresent :: p in files || p in plan.generatedFiles)
            && escapes == []
            && (forall i, k | 0 <= i < |files| && 0 <= k < |scan.rules| :: !Violates(files[i], scan.rules[k], scan))
  {
    var files := plan.classes.included;
    PassesWhen(plan, manifest, escapes, scan);
    hide PlanErrors, NoneUnder, Contains, Mentions, Clean, Violates, IsNamedOrInside;
    forall j | 0 <= j < |manifest.mustNeverAppear|
      ensures NoneUnder(files, manifest.mustNeverAppear[j]) <==>
              forall i | 0 <= i < |files| :: !IsNamedOrInside(files[i], manifest.mustNeverAppear[j])
    {
      NoneUnderMeaning(files, manifest.mustNeverAppear[j]);
    }
    forall i | 0 <= i < |files|
      ensures Contains(files[i], DOCS_LEGAL) <==> Mentions(files[i], "docs/legal")
      ensures Clean(files[i], scan) <==> forall k | 0 <= k < |scan.rules| :: !Violates(files[i], scan.rules[k], scan)
    {
      ContainsMeaning(files[i], "docs/legal");
      CleanMeaning(files[i], scan);
    }
  }

  lemma {:induction false} PassesWhen(plan: Plan, manifest: Manifest, escapes: seq<string>, scan: Scan)
    ensures var files := plan.classes.included;
            PlanErrors(plan, manifest, escapes, scan) == [] <==>
            && (forall j | 0 <= j < |manifest.mustNeverAppear| :: NoneUnder(files, manifest.mustNeverAppear[j]))
            && (forall i | 0 <= i < |files| :: !Contains(files[i], DOCS_LEGAL))
            && (forall j | 0 <= j < |manifest.expectedPresent| ::
                  manifest.expectedPresent[j] in files || manifest.expectedPresent[j] in plan.generatedFiles)
            && escapes == []
            && (forall i | 0 <= i < |files| :: Clean(files[i], scan))
  {
    var files := plan.classes.included;
    NoForbidden(files, manifest.mustNeverAppear);
    NoMissing(plan, manifest.expectedPresent);
    NoContentHits(files, scan);
    NoLegal(files);
    hide NoneUnder, Contains, Clean, ForbiddenErrors, LegalErrors, MissingErrors, ContentHits;
    assert SymlinkErrors(escapes) == [] <==> escapes == [];
  }

  lemma NoLegal(files: seq<string>)
    ensures LegalErrors(files) == [] <==> forall i | 0 <= i < |files| :: !Contains(files[i], DOCS_LEGAL)
  {
    hide Contains;
    var r := FindLegal(files, 0);
    if r.Some? {
      var i :| 0 <= i < |files| && files[i] == r.value;
    }
  }

  // ----- What the errors say -----

  /** One violation of one rule in one file, with at most forty characters of what was found. */
  ghost predicate Tells(e: PlanError, f: string, rule: ContentRule, scan: Scan)
    requires Violates(f, rule, scan)
  {
    && e.ContentViolation? && e.file == f && e.ruleId == rule.id && e.category == rule.category
    && e.sample <= rule.find(scan.body(f).value).value
    && |e.sample| == if |rule.find(scan.body(f).value).value| < 40 then |rule.find(scan.body(f).value).value| else 40
  }

  lemma {:induction false} FileHitsMeaning(f: string, rules: seq<ContentRule>, scan: Scan, e: PlanError)
    requires Scanned(f, scan)
    ensures e in FileHits(f, scan.body(f).value, rules) <==>
            exists k :: 0 <= k < |rules| && Violates(f, rules[k], scan) && Tells(e, f, rules[k], scan)
    decreases |rules|
  {
    if rules != [] {
      var n := |rules| - 1;
      FileHitsMeaning(f, rules[..n], scan, e);
      ExemptMeaning(f, rules[n]);
      LastHit(f, rules[n], scan, e);
      hide Violates, Tells, Exempt;
      assert forall k | 0 <= k < n :: rules[..n][k] == rules[k];
      assert FileHits(f, scan.body(f).value, rules) ==
             FileHits(f, scan.body(f).value, rules[..n]) + HitsOf(f, rules[n], scan);
    }
  }

  function HitsOf(f: string, rule: ContentRule, scan: Scan): seq<PlanError>
    requires scan.body(f).Some?
  {
    var body := scan.body(f).value;
    if !Exempt(f, rule) && rule.find(body).Some?
    then [ContentViolation(f, rule.id, rule.category, Sample(rule.find(body).value))] else []
  }

  lemma {:induction false} LastHit(f: string, rule: ContentRule, scan: Scan, e: PlanError)
    requires Scanned(f, scan)
    ensures e in HitsOf(f, rule, scan) <==> Violates(f, rule, scan) && Tells(e, f, rule, scan)
  {
    ExemptMeaning(f, rule);
    hide Exempt;
    if Violates(f, rule, scan) && Tells(e, f, rule, scan) {
      var found := rule.find(scan.body(f).value).value;
      assert e.sample == found[..|e.sample|];
      assert Sample(found) == e.sample;
    }
  }

  /** The error tells of a violation of some rule in the file. */
  ghost predicate TellsOf(e: PlanError, f: string, scan: Scan) {
    exists k :: 0 <= k < |scan.rules| && Violates(f, scan.rules[k], scan) && Tells(e, f, scan.rules[k], scan)
  }

  lemma {:induction false} FileTold(f: string, scan: Scan, e: PlanError)
    ensures TellsOf(e, f, scan) <==> Scanned(f, scan) && e in FileHits(f, scan.body(f).value, scan.rules)
  {
    if Scanned(f, scan) {
      FileHitsMeaning(f, scan.rules, scan, e);
    }
    hide Tells, FileHits;
  }

  /** The scan tells exactly the violations. */
  lemma {:induction false} ScanMeaning(files: seq<string>, scan: Scan, e: PlanError)
    ensures e in ContentHits(files, scan) <==> exists f :: f in files && TellsOf(e, f, scan)
    decreases |files|
  {
    if files != [] {
      var n := |files| - 1;
      ScanMeaning(files[..n], scan, e);
      FileTold(files[n], scan, e);
      hide TellsOf, FileHits, Scanned;
      forall f ensures f in files <==> f in files[..n] || f == files[n] {
        InLonger(files, f);
      }
    }
  }

  ghost predicate FirstNamed(files: seq<string>, p: string, k: nat) {
    k < |files| && IsNamedOrInside(files[k], p) && forall j | 0 <= j < k :: !IsNamedOrInside(files[j], p)
  }

  lemma {:induction false} FoundIsFirst(files: seq<string>, p: string, i: nat) returns (k: nat)
    requires i <= |files| && FindUnder(files, p, i).Some?
    requires forall j | 0 <= j < i :: !IsNamedOrInside(files[j], p)
    ensures FirstNamed(files, p, k) && FindUnder(files, p, i) == Some(files[k])
    decreases |files| - i
  {
    UnderPathMeaning(files[i], p);
    hide UnderPath, IsNamedOrInside;
    if UnderPath(files[i], p) {
      k := i;
    } else {
      k := FoundIsFirst(files, p, i + 1);
    }
  }

  /** A forbidden path is told if and only if the plan has a file for it, and the file told is the first such one. */
  lemma {:induction false} ForbiddenTold(files: seq<string>, forbidden: seq<string>, p: string, k: nat)
    requires FirstNamed(files, p, k)
    ensures Forbidden(files[k], p) in ForbiddenErrors(files, forbidden) <==> p in forbidden
    ensures forall hit | Forbidden(hit, p) in ForbiddenErrors(files, forbidden) :: hit == files[k]
    decreases |forbidden|
  {
    if forbidden != [] {
      var n := |forbidden| - 1;
      ForbiddenTold(files, forbidden[..n], p, k);
      InLonger(forbidden, p);
      if forbidden[n] == p {
        FirstIsFound(files, p, k);
      }
      hide FindUnder, FirstNamed;
    }
  }

  lemma {:induction false} FirstIsFound(files: seq<string>, p: string, k: nat)
    requires FirstNamed(files, p, k)
    ensures FindUnder(files, p, 0) == Some(files[k])
  {
    FindUnderNone(files, p);
    NoneUnderMeaning(files, p);
    hide IsNamedOrInside, FindUnder, NoneUnder, UnderPath;
    var l := FoundIsFirst(files, p, 0);
  }

  /** An expected path is told to be missing if and only if it is neither included nor generated. */
  lemma {:induction false} MissingTold(plan: Plan, expected: seq<string>, p: string)
    ensures ExpectedMissing(p) in MissingErrors(plan, expected) <==>
            p in expected && p !in plan.classes.included && p !in plan.generatedFiles
    decreases |expected|
  {
    if expected != [] {
      MissingTold(plan, expected[..|expected| - 1], p);
      InLonger(expected, p);
    }
  }
}
