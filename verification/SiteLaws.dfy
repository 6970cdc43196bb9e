/**
 The prose stripper as a set of laws: the first script, style, tag or entity of a text, or any run of white space,
 is worth one space. The laws hold of the stripper, and they hold of no other function.
 */
module SiteLaws {
  import opened Text
  import opened SiteText

  predicate IsScript(t: string) {
    IsElement("<script", "</script>", t)
  }

  predicate IsStyle(t: string) {
    IsElement("<style", "</style>", t)
  }

  predicate IsRun(t: string) {
    t != [] && AllSpace(t)
  }

  /** No part of the text is of the kind. */
  ghost predicate Lacks(kind: string -> bool, s: string) {
    forall i, j | 0 <= i <= j <= |s| :: !kind(s[i..j])
  }

  /** In the text `a + rest` nothing of the kind begins within `a`. */
  ghost predicate NoneBegins(kind: string -> bool, a: string, rest: string) {
    forall i, j | 0 <= i < |a| && i <= j <= |a + rest| :: !kind((a + rest)[i..j])
  }

  /** The text begins with nothing of the kind that is shorter. */
  ghost predicate IsShortest(kind: string -> bool, e: string) {
    kind(e) && forall n | 0 <= n < |e| :: !kind(e[..n])
  }

  ghost predicate FirstIsSpace(f: string -> string, kind: string -> bool, s: string, a: string, e: string, b: string) {
    s == a + e + b && IsShortest(kind, e) && NoneBegins(kind, a, e + b) ==> f(s) == f(a + " " + b)
  }

  ghost predicate Laws(f: string -> string) {
    && (forall s, a, e, b :: FirstIsSpace(f, IsScript, s, a, e, b))
    && (forall s, a, e, b | Lacks(IsScript, s) :: FirstIsSpace(f, IsStyle, s, a, e, b))
    && (forall s, a, e, b | Lacks(IsScript, s) && Lacks(IsStyle, s) :: FirstIsSpace(f, IsTag, s, a, e, b))
    && (forall s, a, e, b | Lacks(IsTag, s) :: FirstIsSpace(f, IsEntity, s, a, e, b))
    && (forall s, a, e, b | Lacks(IsTag, s) && Lacks(IsEntity, s) && s == a + e + b && IsRun(e) ::
          f(s) == f(a + " " + b))
    && (forall s | Normal(s) :: f(s) == s)
  }

  // ----- Matchers and what they match -----

  /** The matcher finds something of the kind at the start of a text whenever there is something. */
  ghost predicate Finds(m: string -> nat, kind: string -> bool) {
    && (forall t :: m(t) <= |t|)
    && (forall t: string | m(t) > 0 :: IsShortest(kind, t[..m(t)]))
    && (forall t: string, n: nat | m(t) == 0 && n <= |t| :: !kind(t[..n]))
  }

  lemma {:induction false} ShortestTag(t: string)
    requires IsTag(t)
    ensures IsShortest(IsTag, t)
  {
    forall n | 0 <= n < |t| ensures !IsTag(t[..n]) {
      if n >= 3 {
        assert t[..n][n - 1] == t[1..|t| - 1][n - 2];
      }
    }
  }

  lemma {:induction false} TagsFound()
    ensures Finds(TagLen, IsTag)
  {
    forall t: string ensures TagLen(t) > 0 ==> IsShortest(IsTag, t[..TagLen(t)])
      ensures TagLen(t) == 0 ==> forall n: nat | n <= |t| :: !IsTag(t[..n])
    {
      TagLenSpec(t);
      if TagLen(t) > 0 {
        ShortestTag(t[..TagLen(t)]);
      }
    }
  }

  lemma {:induction false} EntitiesFound()
    ensures Finds(EntityLen, IsEntity)
  {
    hide IsEntity;
    forall t: string ensures EntityLen(t) > 0 ==> IsShortest(IsEntity, t[..EntityLen(t)])
      ensures EntityLen(t) == 0 ==> forall n: nat | n <= |t| :: !IsEntity(t[..n])
    {
      EntityLenSpec(t);
      var e := t[..EntityLen(t)];
      assert forall n | 0 <= n < |e| :: e[..n] == t[..n];
    }
  }

  lemma {:induction false} ElementsFound()
    ensures Finds(ScriptLen, IsScript) && Finds(StyleLen, IsStyle)
  {
    hide IsElement, ElementLen;
    forall t: string ensures ScriptLen(t) > 0 ==> IsShortest(IsScript, t[..ScriptLen(t)])
      ensures ScriptLen(t) == 0 ==> forall n: nat | n <= |t| :: !IsScript(t[..n])
    {
      ElementLenSpec(SCRIPT, SCRIPT_END, t);
      var e := t[..ScriptLen(t)];
      assert forall n | 0 <= n < |e| :: e[..n] == t[..n];
    }
    forall t: string ensures StyleLen(t) > 0 ==> IsShortest(IsStyle, t[..StyleLen(t)])
      ensures StyleLen(t) == 0 ==> forall n: nat | n <= |t| :: !IsStyle(t[..n])
    {
      ElementLenSpec(STYLE, STYLE_END, t);
      var e := t[..StyleLen(t)];
      assert forall n | 0 <= n < |e| :: e[..n] == t[..n];
    }
  }

  lemma {:induction false} PartFrom(s: string, i: nat, n: nat)
    requires i <= |s| && n <= |s| - i
    ensures s[i..][..n] == s[i..i + n]
  {
  }

  /** A text lacks the kind exactly when the matcher passes over it. */
  lemma {:induction false} LacksIsFree(m: string -> nat, kind: string -> bool, s: string)
    requires Finds(m, kind) && !kind([])
    ensures Lacks(kind, s) <==> Free(m, s)
  {
    FreeEverywhere(m, s);
    hide Free;
    if Free(m, s) {
      forall i, j | 0 <= i <= j <= |s| ensures !kind(s[i..j]) {
        PartFrom(s, i, j - i);
        if i < |s| {
          assert m(s[i..]) == 0;
        } else {
          assert s[i..j] == [];
        }
      }
    } else {
      var i :| 0 <= i < |s| && m(s[i..]) != 0;
      PartFrom(s, i, m(s[i..]));
    }
  }

  /** Where nothing of the kind begins the matcher finds nothing, and at the shortest it finds just that. */
  lemma {:induction false} NothingFound(m: string -> nat, kind: string -> bool, a: string, rest: string, i: nat)
    requires Finds(m, kind) && NoneBegins(kind, a, rest) && i < |a|
    ensures m(a[i..] + rest) == 0
  {
    var s := a + rest;
    assert s[i..] == a[i..] + rest;
    PartFrom(s, i, m(s[i..]));
  }

  lemma {:induction false} ShortestFound(m: string -> nat, kind: string -> bool, e: string, b: string)
    requires Finds(m, kind) && IsShortest(kind, e) && !kind([])
    ensures m(e + b) == |e|
  {
    var t, n := e + b, m(e + b);
    assert t[..|e|] == e;
    assert forall k | 0 <= k <= |e| :: t[..k] == e[..k];
    assert forall k | 0 <= k <= n :: t[..n][..k] == t[..k];
  }

  /** The first one is replaced, and the pass goes on behind it. */
  lemma {:induction false} FirstReplaced(m: string -> nat, kind: string -> bool, a: string, e: string, b: string)
    requires Finds(m, kind) && IsShortest(kind, e) && !kind([]) && NoneBegins(kind, a, e + b)
    ensures ReplaceAll(m, a + e + b) == a + " " + ReplaceAll(m, b)
  {
    forall i | 0 <= i < |a| ensures m(a[i..] + (e + b)) == 0 {
      NothingFound(m, kind, a, e + b, i);
    }
    ShortestFound(m, kind, e, b);
    MatchReplaced(m, a, e, b);
  }

  /** A space stays if nothing begins before it. */
  lemma {:induction false} SpaceKept(m: string -> nat, kind: string -> bool, a: string, b: string)
    requires Finds(m, kind) && NoneBegins(kind, a + " ", b)
    ensures ReplaceAll(m, a + " " + b) == a + " " + ReplaceAll(m, b)
  {
    var c := a + " ";
    forall i | 0 <= i < |a| ensures m(a[i..] + (" " + b)) == 0 {
      NothingFound(m, kind, c, b, i);
      assert c[i..] + b == a[i..] + (" " + b);
    }
    NothingFound(m, kind, c, b, |a|);
    assert c[|a|..] + b == " " + b;
    BlankKept(m, a, b);
  }

  /** The pass makes no difference between the first one and a space. */
  lemma {:induction false} SameAfterPass(m: string -> nat, kind: string -> bool, a: string, e: string, b: string)
    requires Finds(m, kind) && IsShortest(kind, e) && !kind([])
    requires NoneBegins(kind, a, e + b) && NoneBegins(kind, a + " ", b)
    ensures ReplaceAll(m, a + e + b) == ReplaceAll(m, a + " " + b)
  {
    FirstReplaced(m, kind, a, e, b);
    SpaceKept(m, kind, a, b);
  }

  // ----- A space in the place of a part -----

  lemma {:induction false} PartOfSpaced(a: string, b: string, i: nat, j: nat)
    requires i <= j <= |a| + 1 + |b|
    ensures var t := a + " " + b;
            && (j <= |a| ==> t[i..j] == a[i..j])
            && (|a| < i ==> t[i..j] == b[i - |a| - 1..j - |a| - 1])
            && (i <= |a| < j ==> t[i..j] == a[i..] + " " + b[..j - |a| - 1])
  {
  }

  lemma {:induction false} PartOfWhole(a: string, e: string, b: string, i: nat, k: nat)
    requires i <= |a| && k <= |b|
    ensures (a + e + b)[i..|a| + |e| + k] == a[i..] + e + b[..k]
  {
  }

  lemma {:induction false} PartOfEnds(a: string, e: string, b: string, i: nat, j: nat)
    ensures i <= j <= |a| ==> (a + e + b)[i..j] == a[i..j]
    ensures i <= j <= |b| ==> (a + e + b)[|a| + |e| + i..|a| + |e| + j] == b[i..j]
  {
  }

  /** What is of the kind with a space in it is so with `e` instead. */
  ghost predicate Fills(kind: string -> bool, e: string) {
    forall x, y :: kind(x + " " + y) ==> kind(x + e + y)
  }

  lemma {:induction false} StillLacks(kind: string -> bool, a: string, e: string, b: string)
    requires Lacks(kind, a + e + b) && Fills(kind, e)
    ensures Lacks(kind, a + " " + b)
  {
    forall i, j | 0 <= i <= j <= |a + " " + b| ensures !kind((a + " " + b)[i..j]) {
      PartOfSpaced(a, b, i, j);
      if j <= |a| {
        PartOfEnds(a, e, b, i, j);
      } else if |a| < i {
        PartOfEnds(a, e, b, i - |a| - 1, j - |a| - 1);
      } else {
        PartOfWhole(a, e, b, i, j - |a| - 1);
      }
    }
  }

  ghost predicate BeginsWithin(kind: string -> bool, a: string, b: string) {
    exists k: nat :: k <= |b| && kind(a + b[..k])
  }

  /** If something of the kind begins before the space, something begins there with `e` instead, perhaps shorter. */
  ghost predicate BeginsToo(kind: string -> bool, e: string) {
    forall x, y | x != [] && kind(x + " " + y) :: BeginsWithin(kind, x + e, y)
  }

  lemma {:induction false} StillNoneBegins(kind: string -> bool, a: string, e: string, b: string)
    requires NoneBegins(kind, a, e + b) && BeginsToo(kind, e)
    requires forall y :: !kind(" " + y)
    requires !kind([])
    ensures NoneBegins(kind, a + " ", b)
  {
    assert a + " " + b == (a + " ") + b && a + e + b == a + (e + b);
    forall i, j | 0 <= i < |a + " "| && i <= j <= |a + " " + b| ensures !kind((a + " " + b)[i..j]) {
      PartOfSpaced(a, b, i, j);
      if j <= |a| {
        PartOfEnds(a, e, b, i, j);
        if i == |a| {
          assert (a + " " + b)[i..j] == [];
        }
      } else if i == |a| {
        assert a[i..] + " " + b[..j - |a| - 1] == " " + b[..j - |a| - 1];
      } else {
        NotBefore(kind, a, e, b, i, j - |a| - 1);
      }
    }
  }

  lemma {:induction false} NotBefore(kind: string -> bool, a: string, e: string, b: string, i: nat, l: nat)
    requires NoneBegins(kind, a, e + b) && BeginsToo(kind, e) && i < |a| && l <= |b|
    ensures !kind(a[i..] + " " + b[..l])
  {
    var y := b[..l];
    forall k: nat | k <= |y| ensures !kind(a[i..] + e + y[..k]) {
      NotThere(kind, a, e, b, i, k);
      assert y[..k] == b[..k];
    }
  }

  lemma {:induction false} NotThere(kind: string -> bool, a: string, e: string, b: string, i: nat, k: nat)
    requires NoneBegins(kind, a, e + b) && i < |a| && k <= |b|
    ensures !kind(a[i..] + e + b[..k])
  {
    PartOfWhole(a, e, b, i, k);
    assert a + e + b == a + (e + b);
  }

  // ----- The kinds -----

  lemma NotAtStart(open: string, t: string)
    requires open != [] && t != [] && open[0] != t[0]
    ensures !OccursAt(t, open, 0)
  {
    if OccursAt(t, open, 0) {
      OccurrenceCovers(t, open, 0, 0);
    }
  }

  lemma {:induction false} NothingIsOfAKind()
    ensures !IsTag([]) && !IsEntity([]) && !IsScript([]) && !IsStyle([])
    ensures forall y :: !IsTag(" " + y) && !IsEntity(" " + y) && !IsScript(" " + y) && !IsStyle(" " + y)
  {
    forall y ensures !IsScript(" " + y) && !IsStyle(" " + y) {
      NotAtStart("<script", LowerAll(" " + y));
      NotAtStart("<style", LowerAll(" " + y));
    }
  }

  lemma {:induction false} TagAroundSpace(x: string, y: string)
    requires IsTag(x + " " + y)
    ensures x != [] && y != [] && x[0] == '<' && y[|y| - 1] == '>'
    ensures '>' !in x[1..] && '>' !in y[..|y| - 1]
  {
    var t := x + " " + y;
    assert t[0] == '<' && t[|t| - 1] == '>' && t[|x|] == ' ';
    assert t[1..|t| - 1] == x[1..] + " " + y[..|y| - 1];
  }

  lemma {:induction false} FilledTag(x: string, e: string, y: string)
    requires IsTag(x + " " + y) && '>' !in e && e != []
    ensures IsTag(x + e + y)
  {
    TagAroundSpace(x, y);
    var u := x + e + y;
    assert u[1..|u| - 1] == x[1..] + e + y[..|y| - 1];
  }

  lemma {:induction false} TagFilled(e: string)
    requires '>' !in e && e != []
    ensures Fills(IsTag, e)
  {
    hide IsTag;
    forall x, y | IsTag(x + " " + y) ensures IsTag(x + e + y) {
      FilledTag(x, e, y);
    }
  }

  lemma {:induction false} TagCutShort(x: string, e: string, y: string)
    requires IsTag(x + " " + y) && IsTag(e)
    ensures IsTag(x + e)
  {
    TagAroundSpace(x, y);
    var u := x + e;
    assert u[1..|u| - 1] == x[1..] + e[..|e| - 1];
    assert e[..|e| - 1] == [e[0]] + e[1..|e| - 1];
  }

  lemma {:induction false} BeginsShort(kind: string -> bool, a: string, b: string)
    requires kind(a)
    ensures BeginsWithin(kind, a, b)
  {
    assert a + b[..0] == a;
  }

  lemma {:induction false} TagBeginsToo(e: string)
    requires IsTag(e)
    ensures BeginsToo(IsTag, e)
  {
    hide IsTag, BeginsWithin;
    forall x, y | x != [] && IsTag(x + " " + y) ensures BeginsWithin(IsTag, x + e, y) {
      TagCutShort(x, e, y);
      BeginsShort(IsTag, x + e, y);
    }
  }

  lemma {:induction false} EntityHasNoSpace(x: string, y: string)
    ensures !IsEntity(x + " " + y)
  {
    var t := x + " " + y;
    assert t[|x|] == ' ';
    if IsEntity(t) {
      NoSpaceInEntity(t);
    }
  }

  lemma {:induction false} EntityFilled(e: string)
    ensures Fills(IsEntity, e) && BeginsToo(IsEntity, e)
  {
    forall x, y ensures !IsEntity(x + " " + y) {
      EntityHasNoSpace(x, y);
    }
  }

  lemma {:induction false} LowerAround(x: string, e: string, y: string)
    ensures LowerAll(x + e + y) == LowerAll(x) + (LowerAll(e) + LowerAll(y))
  {
    LowerAppend(x + e, y);
    LowerAppend(x, e);
  }

  lemma {:induction false} EndsAvoidSpace(x: string, y: string, open: string, close: string)
    requires ' ' !in open && ' ' !in close && open != [] && close != []
    requires OccursAt(x + (" " + y), open, 0) && OccursAt(x + (" " + y), close, |x| + 1 + |y| - |close|)
    ensures |open| <= |x| && |close| <= |y|
  {
    var t := x + (" " + y);
    assert t[|x|] == ' ';
    hide OccursAt;
    OccurrenceAvoids(t, open, 0, |x|);
    OccurrenceAvoids(t, close, |x| + 1 + |y| - |close|, |x|);
  }

  predicate EndsAt(t: string, open: string, close: string) {
    |open| + |close| <= |t| && OccursAt(t, open, 0) && OccursAt(t, close, |t| - |close|)
  }

  lemma {:induction false} ElementAround(open: string, close: string, x: string, e: string, y: string)
    ensures IsElement(open, close, x + e + y) <==> EndsAt(LowerAll(x) + (LowerAll(e) + LowerAll(y)), open, close)
  {
    LowerAround(x, e, y);
    hide LowerAll, OccursAt;
  }

  lemma {:induction false} EndsFilled(x: string, e: string, y: string, open: string, close: string)
    requires ' ' !in open && ' ' !in close && open != [] && close != []
    requires EndsAt(x + (" " + y), open, close)
    ensures EndsAt(x + (e + y), open, close)
  {
    hide OccursAt;
    EndsAvoidSpace(x, y, open, close);
    EndsMove(x, e, y, open, close);
  }

  lemma {:induction false} FilledElement(open: string, close: string, x: string, e: string, y: string)
    requires open != [] && close != [] && ' ' !in open && ' ' !in close
    requires IsElement(open, close, x + " " + y)
    ensures IsElement(open, close, x + e + y)
  {
    assert LowerAll(" ") == " ";
    ElementAround(open, close, x, " ", y);
    ElementAround(open, close, x, e, y);
    hide LowerAll, EndsAt, IsElement;
    EndsFilled(LowerAll(x), LowerAll(e), LowerAll(y), open, close);
  }

  lemma {:induction false} EndsMove(x: string, e: string, y: string, open: string, close: string)
    requires |open| <= |x| && |close| <= |y|
    requires OccursAt(x + (" " + y), open, 0) && OccursAt(x + (" " + y), close, |x| + 1 + |y| - |close|)
    ensures OccursAt(x + (e + y), open, 0) && OccursAt(x + (e + y), close, |x| + |e| + |y| - |close|)
  {
    hide OccursAt;
    OccursInParts(x, " " + y, open, 0);
    OccursInParts(x, e + y, open, 0);
    OccursInParts(x, " " + y, close, |x| + 1 + |y| - |close|);
    OccursInParts(" ", y, close, 1 + |y| - |close|);
    OccursInParts(x, e + y, close, |x| + |e| + |y| - |close|);
    OccursInParts(e, y, close, |e| + |y| - |close|);
  }

  lemma {:induction false} ElementsFilled(e: string)
    ensures Fills(IsScript, e) && Fills(IsStyle, e) && BeginsToo(IsScript, e) && BeginsToo(IsStyle, e)
  {
    hide IsElement;
    forall x, y
      ensures BeginsWithin(IsScript, x + e, y) <== IsScript(x + e + y)
      ensures BeginsWithin(IsStyle, x + e, y) <== IsStyle(x + e + y)
    {
      assert y[..|y|] == y;
    }
    forall x, y
      ensures IsScript(x + " " + y) ==> IsScript(x + e + y)
      ensures IsStyle(x + " " + y) ==> IsStyle(x + e + y)
    {
      if IsScript(x + " " + y) { FilledElement("<script", "</script>", x, e, y); }
      if IsStyle(x + " " + y) { FilledElement("<style", "</style>", x, e, y); }
    }
  }

  // ----- The laws hold of the stripper -----

  lemma {:induction false} NoTagUntagged(s: string)
    requires Lacks(IsTag, s)
    ensures Untagged(s) == s
  {
    TagsFound();
    NothingIsOfAKind();
    LacksIsFree(TagLen, IsTag, s);
    ScriptAndStyleHaveTags();
    hide TagLen, ScriptLen, StyleLen, ReplaceAll, Free, Lacks;
    NoTagNoElement(ScriptLen, s);
    NoTagNoElement(StyleLen, s);
    FreeUnchanged(ScriptLen, s);
    FreeUnchanged(StyleLen, s);
    FreeUnchanged(TagLen, s);
  }

  lemma {:induction false} ScriptLaw(a: string, e: string, b: string)
    requires IsShortest(IsScript, e) && NoneBegins(IsScript, a, e + b)
    ensures Prose(a + e + b) == Prose(a + " " + b)
  {
    ElementsFound();
    NothingIsOfAKind();
    ElementsFilled(e);
    hide ReplaceAll, IsScript, ScriptLen, NoneBegins, BeginsToo, Fills, Finds;
    StillNoneBegins(IsScript, a, e, b);
    SameAfterPass(ScriptLen, IsScript, a, e, b);
  }

  lemma {:induction false} NoScriptUnchanged(s: string)
    requires Lacks(IsScript, s)
    ensures ReplaceAll(ScriptLen, s) == s
  {
    ElementsFound();
    NothingIsOfAKind();
    hide ReplaceAll, IsScript, ScriptLen, Lacks, Finds, Free;
    LacksIsFree(ScriptLen, IsScript, s);
    FreeUnchanged(ScriptLen, s);
  }

  lemma {:induction false} NoStyleUnchanged(s: string)
    requires Lacks(IsStyle, s)
    ensures ReplaceAll(StyleLen, s) == s
  {
    ElementsFound();
    NothingIsOfAKind();
    hide ReplaceAll, IsStyle, StyleLen, Lacks, Finds, Free;
    LacksIsFree(StyleLen, IsStyle, s);
    FreeUnchanged(StyleLen, s);
  }

  lemma {:induction false} StyleLaw(a: string, e: string, b: string)
    requires Lacks(IsScript, a + e + b) && IsShortest(IsStyle, e) && NoneBegins(IsStyle, a, e + b)
    ensures Prose(a + e + b) == Prose(a + " " + b)
  {
    ElementsFound();
    NothingIsOfAKind();
    ElementsFilled(e);
    hide ReplaceAll, IsScript, IsStyle, ScriptLen, StyleLen, NoneBegins, BeginsToo, Fills, Finds, Lacks;
    StillLacks(IsScript, a, e, b);
    NoScriptUnchanged(a + e + b);
    NoScriptUnchanged(a + " " + b);
    StillNoneBegins(IsStyle, a, e, b);
    SameAfterPass(StyleLen, IsStyle, a, e, b);
  }

  lemma {:induction false} TagLaw(a: string, e: string, b: string)
    requires Lacks(IsScript, a + e + b) && Lacks(IsStyle, a + e + b)
    requires IsShortest(IsTag, e) && NoneBegins(IsTag, a, e + b)
    ensures Prose(a + e + b) == Prose(a + " " + b)
  {
    TagsFound();
    NothingIsOfAKind();
    ElementsFilled(e);
    TagBeginsToo(e);
    hide ReplaceAll, IsScript, IsStyle, IsTag, ScriptLen, StyleLen, TagLen, NoneBegins, BeginsToo, Fills, Finds, Lacks;
    StillLacks(IsScript, a, e, b);
    StillLacks(IsStyle, a, e, b);
    NoScriptUnchanged(a + e + b);
    NoScriptUnchanged(a + " " + b);
    NoStyleUnchanged(a + e + b);
    NoStyleUnchanged(a + " " + b);
    StillNoneBegins(IsTag, a, e, b);
    SameAfterPass(TagLen, IsTag, a, e, b);
  }

  lemma EntityChars(e: string)
    requires IsEntity(e)
    ensures '>' !in e && e != []
  {
    assert forall i | 0 <= i < |e| :: e[i] == '&' || e[i] == ';' || IsLetter(e[i]);
  }

  lemma {:induction false} EntityLaw(a: string, e: string, b: string)
    requires Lacks(IsTag, a + e + b) && IsShortest(IsEntity, e) && NoneBegins(IsEntity, a, e + b)
    ensures Prose(a + e + b) == Prose(a + " " + b)
  {
    EntitiesFound();
    NothingIsOfAKind();
    EntityChars(e);
    TagFilled(e);
    EntityFilled(e);
    hide ReplaceAll, IsTag, IsEntity, EntityLen, NoneBegins, BeginsToo, Fills, Finds, Lacks, Untagged;
    StillLacks(IsTag, a, e, b);
    NoTagUntagged(a + e + b);
    NoTagUntagged(a + " " + b);
    StillNoneBegins(IsEntity, a, e, b);
    SameAfterPass(EntityLen, IsEntity, a, e, b);
  }

  lemma {:induction false} NoEntityUnchanged(s: string)
    requires Lacks(IsEntity, s)
    ensures ReplaceAll(EntityLen, s) == s
  {
    EntitiesFound();
    NothingIsOfAKind();
    hide ReplaceAll, IsEntity, EntityLen, Lacks, Finds, Free;
    LacksIsFree(EntityLen, IsEntity, s);
    FreeUnchanged(EntityLen, s);
  }

  lemma {:induction false} SpaceLenOfRun(e: string, b: string)
    requires AllSpace(e)
    ensures SpaceLen(e + b) == |e| + SpaceLen(b)
    decreases |e|
  {
    hide IsSpace;
    if e == [] {
      assert e + b == b;
    } else {
      assert (e + b)[1..] == e[1..] + b;
      SpaceLenOfRun(e[1..], b);
    }
  }

  lemma {:induction false} RunFirst(e: string, b: string)
    requires IsRun(e)
    ensures ReplaceAll(SpaceLen, e + b) == " " + ReplaceAll(SpaceLen, b[SpaceLen(b)..])
  {
    SpaceLenOfRun(e, b);
    assert (e + b)[|e| + SpaceLen(b)..] == b[SpaceLen(b)..];
  }

  /** A run of white space counts as one space, whatever stands around it. */
  lemma {:induction false} RunCollapses(a: string, e: string, b: string)
    requires IsRun(e)
    ensures ReplaceAll(SpaceLen, a + e + b) == ReplaceAll(SpaceLen, a + " " + b)
    decreases |a|
  {
    IsBlank();
    hide IsSpace;
    var s, t := a + e + b, a + " " + b;
    if a == [] {
      assert s == e + b && t == " " + b;
      RunFirst(e, b);
      RunFirst(" ", b);
    } else if !IsSpace(a[0]) {
      assert s[1..] == a[1..] + e + b && t[1..] == a[1..] + " " + b;
      RunCollapses(a[1..], e, b);
    } else {
      LeadingRun(a, e, b);
    }
  }

  lemma IsBlank()
    ensures IsSpace(' ')
  {
  }

  /** A run at the start is gone after one step. */
  lemma {:induction false} RunThen(r: string, c: string)
    requires IsRun(r) && c != [] && !IsSpace(c[0])
    ensures ReplaceAll(SpaceLen, r + c) == " " + ReplaceAll(SpaceLen, c)
  {
    RunFirst(r, c);
    assert c[0..] == c;
  }

  lemma {:induction false} AllOneRun(a: string, e: string, b: string)
    requires IsRun(e) && AllSpace(a)
    ensures ReplaceAll(SpaceLen, a + e + b) == " " + ReplaceAll(SpaceLen, b[SpaceLen(b)..])
  {
    hide IsSpace;
    assert IsRun(a + e);
    RunFirst(a + e, b);
  }

  lemma {:induction false} CutRun(a: string) returns (r: string, c: string)
    requires a != [] && IsSpace(a[0])
    ensures a == r + c && IsRun(r) && |c| < |a| && (c != [] ==> !IsSpace(c[0]))
  {
    hide IsSpace;
    var n := SpaceLen(a);
    SpaceLenSpec(a);
    r, c := a[..n], a[n..];
  }

  lemma Regroup(r: string, c: string, e: string, b: string)
    ensures r + c + e + b == r + (c + e + b)
    ensures c != [] ==> c + e + b != [] && (c + e + b)[0] == c[0]
  {
  }

  lemma {:induction false} LeadingRun(a: string, e: string, b: string)
    requires IsRun(e) && a != [] && IsSpace(a[0])
    ensures ReplaceAll(SpaceLen, a + e + b) == ReplaceAll(SpaceLen, a + " " + b)
    decreases |a|, 0
  {
    IsBlank();
    var r, c := CutRun(a);
    assert IsRun(" ");
    hide IsSpace, ReplaceAll, SpaceLen;
    if c == [] {
      assert a == r;
      AllOneRun(a, e, b);
      AllOneRun(a, " ", b);
    } else {
      hide IsRun;
      Regroup(r, c, e, b);
      Regroup(r, c, " ", b);
      RunThen(r, c + e + b);
      RunThen(r, c + " " + b);
      RunCollapses(c, e, b);
    }
  }

  lemma RunChars(e: string)
    requires IsRun(e)
    ensures '>' !in e
  {
  }

  lemma {:induction false} SpaceLaw(a: string, e: string, b: string)
    requires Lacks(IsTag, a + e + b) && Lacks(IsEntity, a + e + b) && IsRun(e)
    ensures Prose(a + e + b) == Prose(a + " " + b)
  {
    RunChars(e);
    TagFilled(e);
    EntityFilled(e);
    hide ReplaceAll, IsTag, IsEntity, EntityLen, Fills, Lacks, Untagged, IsSpace;
    StillLacks(IsTag, a, e, b);
    StillLacks(IsEntity, a, e, b);
    NoTagUntagged(a + e + b);
    NoTagUntagged(a + " " + b);
    NoEntityUnchanged(a + e + b);
    NoEntityUnchanged(a + " " + b);
    RunCollapses(a, e, b);
  }

  /** The laws hold of the stripper. */
  lemma {:induction false} ProseKeepsLaws()
    ensures Laws(Prose)
  {
    hide Prose, IsShortest, NoneBegins, Lacks, IsRun, Normal, IsScript, IsStyle, IsTag, IsEntity;
    forall a, e, b
      ensures IsShortest(IsScript, e) && NoneBegins(IsScript, a, e + b) ==> Prose(a + e + b) == Prose(a + " " + b)
      ensures Lacks(IsScript, a + e + b) && IsShortest(IsStyle, e) && NoneBegins(IsStyle, a, e + b) ==>
                Prose(a + e + b) == Prose(a + " " + b)
      ensures (Lacks(IsScript, a + e + b) && Lacks(IsStyle, a + e + b) &&
               IsShortest(IsTag, e) && NoneBegins(IsTag, a, e + b)) ==> Prose(a + e + b) == Prose(a + " " + b)
      ensures Lacks(IsTag, a + e + b) && IsShortest(IsEntity, e) && NoneBegins(IsEntity, a, e + b) ==>
                Prose(a + e + b) == Prose(a + " " + b)
      ensures Lacks(IsTag, a + e + b) && Lacks(IsEntity, a + e + b) && IsRun(e) ==>
                Prose(a + e + b) == Prose(a + " " + b)
    {
      if IsShortest(IsScript, e) && NoneBegins(IsScript, a, e + b) { ScriptLaw(a, e, b); }
      if Lacks(IsScript, a + e + b) && IsShortest(IsStyle, e) && NoneBegins(IsStyle, a, e + b) { StyleLaw(a, e, b); }
      if
        Lacks(IsScript, a + e + b) && Lacks(IsStyle, a + e + b) && IsShortest(IsTag, e) && NoneBegins(IsTag, a, e + b)
      {
        TagLaw(a, e, b);
      }
      if Lacks(IsTag, a + e + b) && IsShortest(IsEntity, e) && NoneBegins(IsEntity, a, e + b) { EntityLaw(a, e, b); }
      if Lacks(IsTag, a + e + b) && Lacks(IsEntity, a + e + b) && IsRun(e) { SpaceLaw(a, e, b); }
    }
    forall s | Normal(s) ensures Prose(s) == s {
      FixedExactlyWhenNormal(s);
    }
  }

  // ----- No other function keeps the laws -----

  /** White space other than the space itself. */
  function Untidy(s: string): nat {
    if s == [] then 0 else (if IsSpace(s[0]) && s[0] != ' ' then 1 else 0) + Untidy(s[1..])
  }

  lemma {:induction false} UntidyAppend(a: string, b: string)
    ensures Untidy(a + b) == Untidy(a) + Untidy(b)
  {
    hide IsSpace;
    if a == [] {
      assert a + b == b;
    } else {
      assert (a + b)[1..] == a[1..] + b;
      UntidyAppend(a[1..], b);
    }
  }

  /** How far the laws have to go. */
  function Size(s: string): nat {
    |s| + Untidy(s)
  }

  lemma {:induction false} SpaceIsSmaller(a: string, e: string, b: string)
    requires |e| > 1 || (|e| == 1 && IsSpace(e[0]) && e[0] != ' ')
    ensures Size(a + " " + b) < Size(a + e + b)
  {
    UntidyAppend(a + " ", b);
    UntidyAppend(a, " ");
    UntidyAppend(a + e, b);
    UntidyAppend(a, e);
    assert Untidy(" ") == 0;
    if |e| == 1 {
      assert e[1..] == [];
    }
  }

  lemma CutFound(s: string, i: nat, n: nat)
    requires i <= |s| && n <= |s| - i
    ensures s == s[..i] + s[i..][..n] + s[i..][n..] && s[i..] == s[i..][..n] + s[i..][n..]
  {
  }

  /** The first place at which a matcher finds something. */
  lemma {:induction false} FirstFound(m: string -> nat, kind: string -> bool, s: string)
    returns (a: string, e: string, b: string)
    requires Finds(m, kind) && !kind([]) && !Lacks(kind, s)
    ensures s == a + e + b && IsShortest(kind, e) && NoneBegins(kind, a, e + b)
  {
    LacksIsFree(m, kind, s);
    FreeEverywhere(m, s);
    hide Free, Lacks;
    var i := FirstIndexFound(m, s, 0);
    var n := m(s[i..]);
    a, e, b := s[..i], s[i..][..n], s[i..][n..];
    assert IsShortest(kind, e) && n <= |s| - i;
    NoneBefore(m, kind, s, i);
    hide NoneBegins, IsShortest, Finds;
    CutFound(s, i, n);
  }

  lemma {:induction false} FirstIndexFound(m: string -> nat, s: string, from: nat) returns (i: nat)
    requires exists k :: from <= k < |s| && m(s[k..]) != 0
    ensures from <= i < |s| && m(s[i..]) != 0 && forall k | from <= k < i :: m(s[k..]) == 0
    decreases |s| - from
  {
    if m(s[from..]) != 0 {
      i := from;
    } else {
      i := FirstIndexFound(m, s, from + 1);
    }
  }

  lemma {:induction false} NoneBefore(m: string -> nat, kind: string -> bool, s: string, i: nat)
    requires Finds(m, kind) && i < |s| && forall k | 0 <= k < i :: m(s[k..]) == 0
    ensures NoneBegins(kind, s[..i], s[i..])
  {
    assert s[..i] + s[i..] == s;
    forall k, j | 0 <= k < i && k <= j <= |s| ensures !kind(s[k..j]) {
      PartFrom(s, k, j - k);
    }
  }

  lemma {:induction false} UncollapsedRun(s: string) returns (a: string, e: string, b: string)
    requires !Collapsed(s)
    ensures s == a + e + b && IsRun(e) && (|e| > 1 || (|e| == 1 && e[0] != ' '))
  {
    hide IsSpace;
    var i :| 0 <= i < |s| && IsSpace(s[i]) && !(s[i] == ' ' && (i + 1 < |s| ==> !IsSpace(s[i + 1])));
    var n := if s[i] != ' ' then 1 else 2;
    a, e, b := s[..i], s[i..i + n], s[i + n..];
    assert s == a + e + b;
  }

  /** A text that is not in normal form has something that the laws replace. */
  lemma {:induction false} SomethingToReplace(s: string) returns (a: string, e: string, b: string)
    requires !Normal(s)
    ensures s == a + e + b && Size(a + " " + b) < Size(s)
    ensures forall f: string -> string | Laws(f) :: f(s) == f(a + " " + b)
  {
    TagsFound();
    EntitiesFound();
    ElementsFound();
    NothingIsOfAKind();
    hide Finds, Size, IsSpace, NoneBegins, IsElement;
    if !Lacks(IsScript, s) {
      a, e, b := FirstFound(ScriptLen, IsScript, s);
      forall f: string -> string | Laws(f) ensures f(s) == f(a + " " + b) {
        assert FirstIsSpace(f, IsScript, s, a, e, b);
      }
    } else if !Lacks(IsStyle, s) {
      a, e, b := FirstFound(StyleLen, IsStyle, s);
      forall f: string -> string | Laws(f) ensures f(s) == f(a + " " + b) {
        assert FirstIsSpace(f, IsStyle, s, a, e, b);
      }
    } else if !Lacks(IsTag, s) {
      a, e, b := FirstFound(TagLen, IsTag, s);
      forall f: string -> string | Laws(f) ensures f(s) == f(a + " " + b) {
        assert FirstIsSpace(f, IsTag, s, a, e, b);
      }
    } else if !Lacks(IsEntity, s) {
      a, e, b := FirstFound(EntityLen, IsEntity, s);
      forall f: string -> string | Laws(f) ensures f(s) == f(a + " " + b) {
        assert FirstIsSpace(f, IsEntity, s, a, e, b);
      }
    } else {
      a, e, b := UncollapsedRun(s);
    }
    LongEnough(e);
    SpaceIsSmaller(a, e, b);
  }

  lemma LongEnough(e: string)
    requires IsScript(e) || IsStyle(e) || IsTag(e) || IsEntity(e) || (IsRun(e) && (|e| > 1 || e[0] != ' '))
    ensures |e| > 1 || (|e| == 1 && IsSpace(e[0]) && e[0] != ' ')
  {
  }

  /** Any function that keeps the laws is the stripper: the laws determine its result on every text. */
  lemma {:induction false} LawsDetermine(f: string -> string, s: string)
    requires Laws(f)
    ensures f(s) == Prose(s)
    decreases Size(s)
  {
    ProseKeepsLaws();
    hide Prose, Size, Normal;
    if Normal(s) {
      assert f(s) == s && Prose(s) == s;
    } else {
      var a, e, b := SomethingToReplace(s);
      hide Laws;
      LawsDetermine(f, a + " " + b);
    }
  }
}
