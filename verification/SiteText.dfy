/**
 The prose stripper of the site truth gate: five global replacements by one space. A pattern is modelled by the
 length of its match at the start of a text (0 for no match), and each length is tied to the pattern's meaning.
 */
module SiteText {
  import opened Text

  /** `s.replace(/pattern/g, " ")`: matches are taken from left to right and do not overlap. */
  function ReplaceAll(m: string -> nat, s: string): string
    requires forall t :: m(t) <= |t|
    decreases |s|
  {
    if s == [] then []
    else if m(s) > 0 then " " + ReplaceAll(m, s[m(s)..])
    else [s[0]] + ReplaceAll(m, s[1..])
  }

  // ----- The patterns -----

  /** `<[^>]+>` */
  predicate IsTag(t: string) {
    |t| >= 3 && t[0] == '<' && t[|t| - 1] == '>' && '>' !in t[1..|t| - 1]
  }

  function TagLen(s: string): (n: nat)
    ensures n <= |s|
  {
    if s != [] && s[0] == '<' && '>' in s[1..] && s[1] != '>' then FirstIndex(s[1..], '>') + 2 else 0
  }

  lemma {:induction false} TagLenSpec(s: string)
    ensures TagLen(s) > 0 ==> IsTag(s[..TagLen(s)])
    ensures TagLen(s) == 0 ==> forall n: nat | n <= |s| :: !IsTag(s[..n])
  {
    var n := TagLen(s);
    if n > 0 {
      assert s[..n][1..n - 1] == s[1..][..n - 2];
    } else {
      forall k: nat | k <= |s| ensures !IsTag(s[..k]) {
        if k >= 3 && s[0] == '<' {
          assert s[..k][1..k - 1][0] == s[1];
          assert s[..k][k - 1] == s[1..][k - 2];
        }
      }
    }
  }

  /** `&[a-z]+;` with the `i` flag */
  predicate IsEntity(t: string) {
    |t| >= 3 && t[0] == '&' && t[|t| - 1] == ';' && forall i | 1 <= i < |t| - 1 :: IsLetter(t[i])
  }

  function LettersLen(s: string): (n: nat)
    ensures n <= |s|
    ensures forall i | 0 <= i < n :: IsLetter(s[i])
    ensures n < |s| ==> !IsLetter(s[n])
  {
    if s != [] && IsLetter(s[0]) then 1 + LettersLen(s[1..]) else 0
  }

  function EntityLen(s: string): (n: nat)
    ensures n <= |s|
    ensures n > 0 ==> IsEntity(s[..n])
  {
    if s != [] && s[0] == '&' then
      var n := LettersLen(s[1..]);
      assert forall i | 1 <= i < n + 1 :: s[i] == s[1..][i - 1];
      if n >= 1 && n + 1 < |s| && s[n + 1] == ';' then n + 2 else 0
    else 0
  }

  lemma {:induction false} LettersLenIs(s: string, n: nat)
    requires n < |s| && !IsLetter(s[n])
    requires forall i | 0 <= i < n :: IsLetter(s[i])
    ensures LettersLen(s) == n
    decreases n
  {
    if n > 0 {
      assert forall i | 0 <= i < n - 1 :: s[1..][i] == s[i + 1];
      LettersLenIs(s[1..], n - 1);
    }
  }

  lemma {:induction false} EntityLenIs(s: string, n: nat)
    requires n <= |s| && IsEntity(s[..n])
    ensures EntityLen(s) == n
  {
    assert forall i | 0 <= i < n :: s[..n][i] == s[i];
    assert forall i | 0 <= i < n - 1 :: s[1..][i] == s[..n][i + 1];
    LettersLenIs(s[1..], n - 2);
  }

  /** The only prefix that is an entity, if there is one, is the one that is found. */
  lemma EntityLenSpec(s: string)
    ensures forall n: nat | n <= |s| :: IsEntity(s[..n]) <==> 0 < n == EntityLen(s)
  {
    forall n: nat | n <= |s| ensures IsEntity(s[..n]) <==> 0 < n == EntityLen(s) {
      if IsEntity(s[..n]) {
        EntityLenIs(s, n);
      }
    }
  }

  /** `\s+` */
  function SpaceLen(s: string): (n: nat)
    ensures n <= |s|
  {
    if s != [] && IsSpace(s[0]) then 1 + SpaceLen(s[1..]) else 0
  }

  lemma {:induction false} SpaceLenSpec(s: string)
    ensures AllSpace(s[..SpaceLen(s)])
    ensures SpaceLen(s) < |s| ==> !IsSpace(s[SpaceLen(s)])
    decreases |s|
  {
    hide IsSpace;
    if s != [] && IsSpace(s[0]) {
      SpaceLenSpec(s[1..]);
      var n := SpaceLen(s);
      assert s[..n] == [s[0]] + s[1..][..n - 1];
    }
  }

  /** `open[\s\S]*?close` with the `i` flag, as a whole match */
  predicate IsElement(open: string, close: string, t: string) {
    |open| + |close| <= |t| && OccursAt(LowerAll(t), open, 0) && OccursAt(LowerAll(t), close, |t| - |close|)
  }

  /** The lazy match takes the first closing text. */
  function ElementLen(open: string, close: string, s: string): (n: nat)
    ensures n <= |s|
  {
    var t := LowerAll(s);
    if !OccursAt(t, open, 0) then 0
    else
      var k := IndexOf(t[|open|..], close);
      if k < 0 then 0 else |open| + k + |close|
  }

  /** A lazy match: an element none of whose proper prefixes is one. */
  ghost predicate IsShortestElement(open: string, close: string, e: string) {
    IsElement(open, close, e) && forall n | 0 <= n < |e| :: !IsElement(open, close, e[..n])
  }

  lemma PrefixElement(open: string, close: string, s: string, n: nat)
    requires n <= |s|
    ensures IsElement(open, close, s[..n]) <==>
            |open| + |close| <= n && OccursAt(LowerAll(s), open, 0) && OccursAt(LowerAll(s), close, n - |close|)
  {
    LowerAppend(s[..n], s[n..]);
    assert s == s[..n] + s[n..];
    var p, q := LowerAll(s[..n]), LowerAll(s[n..]);
    hide LowerAll, OccursAt;
    OccursInParts(p, q, open, 0);
    OccursInParts(p, q, close, n - |close|);
  }

  lemma ElementLenSpec(open: string, close: string, s: string)
    ensures ElementLen(open, close, s) > 0 ==> IsElement(open, close, s[..ElementLen(open, close, s)])
    ensures forall n | 0 <= n < ElementLen(open, close, s) :: !IsElement(open, close, s[..n])
    ensures ElementLen(open, close, s) == 0 && open != [] ==>
              forall n | 0 <= n <= |s| :: !IsElement(open, close, s[..n])
  {
    var t, len := LowerAll(s), ElementLen(open, close, s);
    if OccursAt(t, open, 0) {
      assert t == t[..|open|] + t[|open|..];
      forall i ensures |open| <= i ==> (OccursAt(t, close, i) <==> OccursAt(t[|open|..], close, i - |open|)) {
        OccursInParts(t[..|open|], t[|open|..], close, i);
      }
      if len > 0 {
        PrefixElement(open, close, s, len);
      }
    }
    forall n | 0 <= n <= |s| ensures n < len || (len == 0 && open != []) ==> !IsElement(open, close, s[..n]) {
      PrefixElement(open, close, s, n);
    }
  }

  /** The length of a lazy match does not depend on what follows it. */
  lemma ElementLenIs(open: string, close: string, e: string, rest: string)
    requires open != [] && IsShortestElement(open, close, e)
    ensures ElementLen(open, close, e + rest) == |e|
  {
    var s := e + rest;
    ElementLenSpec(open, close, s);
    assert s[..|e|] == e;
    assert forall n | 0 <= n < |e| :: s[..n] == e[..n];
  }

  const SCRIPT := "<script"
  const SCRIPT_END := "</script>"
  const STYLE := "<style"
  const STYLE_END := "</style>"

  function ScriptLen(s: string): (n: nat)
    ensures n <= |s|
  {
    ElementLen(SCRIPT, SCRIPT_END, s)
  }

  function StyleLen(s: string): (n: nat)
    ensures n <= |s|
  {
    ElementLen(STYLE, STYLE_END, s)
  }

  /** The page without scripts, styles and tags. */
  function Untagged(html: string): string {
    ReplaceAll(TagLen, ReplaceAll(StyleLen, ReplaceAll(ScriptLen, html)))
  }

  /** Rendered prose only. */
  function Prose(html: string): string {
    ReplaceAll(SpaceLen, ReplaceAll(EntityLen, Untagged(html)))
  }

  // ----- Texts without a match -----

  predicate Free(m: string -> nat, s: string)
    decreases |s|
  {
    s == [] || (m(s) == 0 && Free(m, s[1..]))
  }

  lemma {:induction false} FreeUnchanged(m: string -> nat, s: string)
    requires forall t :: m(t) <= |t|
    requires Free(m, s)
    ensures ReplaceAll(m, s) == s
    decreases |s|
  {
    if s != [] {
      FreeUnchanged(m, s[1..]);
      assert s == [s[0]] + s[1..];
    }
  }

  lemma {:induction false} FreeSuffix(m: string -> nat, s: string, k: nat)
    requires Free(m, s) && k <= |s|
    ensures Free(m, s[k..])
    decreases k
  {
    if k > 0 {
      FreeSuffix(m, s[1..], k - 1);
      assert s[1..][k - 1..] == s[k..];
    } else {
      assert s[k..] == s;
    }
  }

  /** Replacements bring in no character but the space. */
  lemma {:induction false} NoNewCharacter(m: string -> nat, s: string, c: char)
    requires forall t :: m(t) <= |t|
    requires c !in s && c != ' '
    ensures c !in ReplaceAll(m, s)
    decreases |s|
  {
    if s != [] {
      NoNewCharacter(m, if m(s) > 0 then s[m(s)..] else s[1..], c);
    }
  }

  /** A beginning of the result without a space was copied from the text. */
  lemma {:induction false} CopiedPrefix(m: string -> nat, s: string, n: nat)
    requires forall t :: m(t) <= |t|
    requires n <= |ReplaceAll(m, s)| && ' ' !in ReplaceAll(m, s)[..n]
    ensures n <= |s| && s[..n] == ReplaceAll(m, s)[..n]
    decreases |s|
  {
    if n > 0 {
      var r := ReplaceAll(m, s);
      assert r[0] == r[..n][0] != ' ';
      assert m(s) == 0;
      var rest := ReplaceAll(m, s[1..]);
      assert r[..n] == [s[0]] + rest[..n - 1];
      CopiedPrefix(m, s[1..], n - 1);
      assert s[..n] == [s[0]] + s[1..][..n - 1];
    }
  }

  // ----- Tags -----

  lemma {:induction false} TagStaysAbsent(m: string -> nat, s: string)
    requires forall t :: m(t) <= |t|
    requires forall t: string | t != [] && t[0] == '>' :: m(t) == 0
    requires s != [] && m(s) == 0 && TagLen(s) == 0
    ensures TagLen([s[0]] + ReplaceAll(m, s[1..])) == 0
  {
    var rest := ReplaceAll(m, s[1..]);
    assert ([s[0]] + rest)[1..] == rest;
    if s[0] == '<' && '>' !in s[1..] {
      NoNewCharacter(m, s[1..], '>');
    }
  }

  /** No replacement pass creates a tag: what follows each "<" is ">" or text without ">". */
  lemma {:induction false} TagsStayAway(m: string -> nat, s: string)
    requires forall t :: m(t) <= |t|
    requires forall t: string | t != [] && t[0] == '>' :: m(t) == 0
    requires Free(TagLen, s)
    ensures Free(TagLen, ReplaceAll(m, s))
    decreases |s|
  {
    if s != [] {
      var k := if m(s) > 0 then m(s) else 1;
      FreeSuffix(TagLen, s, k);
      TagsStayAway(m, s[k..]);
      if m(s) == 0 {
        TagStaysAbsent(m, s);
      }
      assert ReplaceAll(m, s)[1..] == ReplaceAll(m, s[k..]);
    }
  }

  lemma {:induction false} TagsRemoved(s: string)
    ensures Free(TagLen, ReplaceAll(TagLen, s))
    decreases |s|
  {
    if s != [] {
      var k := if TagLen(s) > 0 then TagLen(s) else 1;
      TagsRemoved(s[k..]);
      if TagLen(s) == 0 {
        TagStaysAbsent(TagLen, s);
      }
      assert ReplaceAll(TagLen, s)[1..] == ReplaceAll(TagLen, s[k..]);
    }
  }

  // ----- Entities -----

  lemma {:induction false} EntityStaysAbsent(m: string -> nat, s: string)
    requires forall t :: m(t) <= |t|
    requires s != [] && m(s) == 0 && EntityLen(s) == 0
    ensures EntityLen(ReplaceAll(m, s)) == 0
  {
    var r := ReplaceAll(m, s);
    var n := EntityLen(r);
    if n > 0 {
      NoSpaceInEntity(r[..n]);
      hide EntityLen, IsEntity;
      CopiedPrefix(m, s, n);
      EntityLenIs(s, n);
    }
  }

  lemma NoSpaceInEntity(t: string)
    requires IsEntity(t)
    ensures ' ' !in t
  {
    assert forall i | 0 <= i < |t| :: t[i] == '&' || t[i] == ';' || IsLetter(t[i]);
  }

  lemma {:induction false} EntitiesStayAway(m: string -> nat, s: string)
    requires forall t :: m(t) <= |t|
    requires Free(EntityLen, s)
    ensures Free(EntityLen, ReplaceAll(m, s))
    decreases |s|
  {
    if s != [] {
      var k := if m(s) > 0 then m(s) else 1;
      FreeSuffix(EntityLen, s, k);
      EntitiesStayAway(m, s[k..]);
      if m(s) == 0 {
        EntityStaysAbsent(m, s);
      }
      assert ReplaceAll(m, s)[1..] == ReplaceAll(m, s[k..]);
    }
  }

  lemma {:induction false} EntitiesRemoved(s: string)
    ensures Free(EntityLen, ReplaceAll(EntityLen, s))
    decreases |s|
  {
    if s != [] {
      var k := if EntityLen(s) > 0 then EntityLen(s) else 1;
      EntitiesRemoved(s[k..]);
      if EntityLen(s) == 0 {
        EntityStaysAbsent(EntityLen, s);
      }
      assert ReplaceAll(EntityLen, s)[1..] == ReplaceAll(EntityLen, s[k..]);
    }
  }

  // ----- White space -----

  predicate Collapsed(s: string) {
    forall i | 0 <= i < |s| && IsSpace(s[i]) :: s[i] == ' ' && (i + 1 < |s| ==> !IsSpace(s[i + 1]))
  }

  lemma {:induction false} SpacesCollapse(s: string)
    ensures Collapsed(ReplaceAll(SpaceLen, s))
    ensures s != [] && !IsSpace(s[0]) ==> !IsSpace(ReplaceAll(SpaceLen, s)[0])
    ensures s == [] ==> ReplaceAll(SpaceLen, s) == []
    decreases |s|
  {
    hide IsSpace;
    if s != [] {
      var n := SpaceLen(s);
      SpaceLenSpec(s);
      SpacesCollapse(if n > 0 then s[n..] else s[1..]);
    }
  }

  lemma {:induction false} CollapsedUnchanged(s: string)
    requires Collapsed(s)
    ensures ReplaceAll(SpaceLen, s) == s
    decreases |s|
  {
    if s != [] {
      CollapsedUnchanged(s[1..]);
      assert s == [s[0]] + s[1..];
      if SpaceLen(s) > 0 {
        assert SpaceLen(s[1..]) == 0;
      }
    }
  }

  // ----- Scripts and styles -----

  /** Where there is no tag there is no element either. */
  lemma ElementHasTag(open: string, close: string, s: string)
    requires |open| >= 2 && open[0] == '<' && open[1] != '>' && 'a' <= open[1] <= 'z'
    requires close != [] && close[|close| - 1] == '>'
    requires ElementLen(open, close, s) > 0
    ensures TagLen(s) > 0
  {
    var n := ElementLen(open, close, s);
    ElementLenSpec(open, close, s);
    PrefixElement(open, close, s, n);
    var t := LowerAll(s);
    assert t[0..|open|][0] == t[0] && t[0..|open|][1] == t[1];
    assert t[n - |close|..n][|close| - 1] == t[n - 1];
    assert s[0] == '<' && s[1] != '>' && s[n - 1] == '>';
    assert s[1..][n - 2] == '>';
  }

  lemma {:induction false} NoTagNoElement(m: string -> nat, s: string)
    requires forall t: string | m(t) > 0 :: TagLen(t) > 0
    requires Free(TagLen, s)
    ensures Free(m, s)
    decreases |s|
  {
    if s != [] {
      NoTagNoElement(m, s[1..]);
    }
  }

  lemma ScriptAndStyleHaveTags()
    ensures forall t: string | ScriptLen(t) > 0 :: TagLen(t) > 0
    ensures forall t: string | StyleLen(t) > 0 :: TagLen(t) > 0
  {
    forall t: string | ScriptLen(t) > 0 ensures TagLen(t) > 0 {
      ElementHasTag(SCRIPT, SCRIPT_END, t);
    }
    forall t: string | StyleLen(t) > 0 ensures TagLen(t) > 0 {
      ElementHasTag(STYLE, STYLE_END, t);
    }
  }

  // ----- The normal form -----

  /** No part of the text is a tag or an entity, and each white-space run is one space. */
  ghost predicate Normal(s: string) {
    && (forall i, j | 0 <= i <= j <= |s| :: !IsTag(s[i..j]))
    && (forall i, j | 0 <= i <= j <= |s| :: !IsEntity(s[i..j]))
    && Collapsed(s)
  }

  lemma {:induction false} FreeEverywhere(m: string -> nat, s: string)
    ensures Free(m, s) <==> forall i | 0 <= i < |s| :: m(s[i..]) == 0
    decreases |s|
  {
    if s != [] {
      var t := s[1..];
      FreeEverywhere(m, t);
      assert s[0..] == s;
      assert forall i | 1 <= i < |s| :: s[i..] == t[i - 1..];
      assert forall i | 0 <= i < |t| :: t[i..] == s[i + 1..];
    }
  }

  lemma TagAt(s: string, i: nat, j: nat)
    requires i <= j <= |s| && IsTag(s[i..j])
    ensures i < |s| && TagLen(s[i..]) > 0
  {
    TagLenSpec(s[i..]);
    assert s[i..j] == s[i..][..j - i];
  }

  lemma TagFrom(s: string, i: nat)
    requires i < |s| && TagLen(s[i..]) > 0
    ensures IsTag(s[i..i + TagLen(s[i..])])
  {
    TagLenSpec(s[i..]);
    assert s[i..i + TagLen(s[i..])] == s[i..][..TagLen(s[i..])];
  }

  lemma TagFreeMeaning(s: string)
    ensures Free(TagLen, s) <==> forall i, j | 0 <= i <= j <= |s| :: !IsTag(s[i..j])
  {
    FreeEverywhere(TagLen, s);
    hide TagLen, IsTag, Free;
    if i, j :| 0 <= i <= j <= |s| && IsTag(s[i..j]) {
      TagAt(s, i, j);
    }
    if i :| 0 <= i < |s| && TagLen(s[i..]) > 0 {
      TagFrom(s, i);
    }
  }

  lemma EntityAt(s: string, i: nat, j: nat)
    requires i <= j <= |s| && IsEntity(s[i..j])
    ensures i < |s| && EntityLen(s[i..]) > 0
  {
    assert s[i..j] == s[i..][..j - i];
    EntityLenIs(s[i..], j - i);
  }

  lemma EntityFrom(s: string, i: nat)
    requires i < |s| && EntityLen(s[i..]) > 0
    ensures IsEntity(s[i..i + EntityLen(s[i..])])
  {
    assert s[i..i + EntityLen(s[i..])] == s[i..][..EntityLen(s[i..])];
  }

  lemma EntityFreeMeaning(s: string)
    ensures Free(EntityLen, s) <==> forall i, j | 0 <= i <= j <= |s| :: !IsEntity(s[i..j])
  {
    FreeEverywhere(EntityLen, s);
    hide EntityLen, IsEntity, Free;
    if i, j :| 0 <= i <= j <= |s| && IsEntity(s[i..j]) {
      EntityAt(s, i, j);
    }
    if i :| 0 <= i < |s| && EntityLen(s[i..]) > 0 {
      EntityFrom(s, i);
    }
  }

  lemma LaterPassesKeepTagsAway(s: string)
    requires Free(TagLen, s)
    ensures Free(TagLen, ReplaceAll(EntityLen, s)) && Free(TagLen, ReplaceAll(SpaceLen, s))
  {
    TagsStayAway(EntityLen, s);
    TagsStayAway(SpaceLen, s);
  }

  lemma {:induction false} UntaggedHasNoTag(html: string)
    ensures Free(TagLen, Untagged(html))
  {
    TagsRemoved(ReplaceAll(StyleLen, ReplaceAll(ScriptLen, html)));
  }

  lemma {:induction false} ProseHasNoTag(html: string)
    ensures Free(TagLen, Prose(html))
  {
    hide ReplaceAll, Free, Untagged, TagLen, EntityLen, SpaceLen;
    UntaggedHasNoTag(html);
    LaterPassesKeepTagsAway(Untagged(html));
    LaterPassesKeepTagsAway(ReplaceAll(EntityLen, Untagged(html)));
  }

  lemma {:induction false} ProseHasNoEntity(html: string)
    ensures Free(EntityLen, Prose(html))
  {
    hide ReplaceAll, Free, Untagged, EntityLen;
    EntitiesRemoved(Untagged(html));
    EntitiesStayAway(SpaceLen, ReplaceAll(EntityLen, Untagged(html)));
  }

  /** The result is in normal form for every input. */
  lemma ProseIsNormal(html: string)
    ensures Normal(Prose(html))
  {
    ProseHasNoTag(html);
    ProseHasNoEntity(html);
    ProseCollapsed(html);
    hide Prose, Free, IsTag, IsEntity, Collapsed;
    TagFreeMeaning(Prose(html));
    EntityFreeMeaning(Prose(html));
  }

  lemma ProseCollapsed(html: string)
    ensures Collapsed(Prose(html))
  {
    hide ReplaceAll, Collapsed;
    SpacesCollapse(ReplaceAll(EntityLen, Untagged(html)));
  }

  /** The texts that the stripper leaves alone are exactly the normal ones. */
  lemma FixedExactlyWhenNormal(s: string)
    ensures Prose(s) == s <==> Normal(s)
  {
    ProseIsNormal(s);
    if Normal(s) {
      TagFreeMeaning(s);
      EntityFreeMeaning(s);
      ScriptAndStyleHaveTags();
      NoTagNoElement(ScriptLen, s);
      NoTagNoElement(StyleLen, s);
      FreeUnchanged(ScriptLen, s);
      FreeUnchanged(StyleLen, s);
      FreeUnchanged(TagLen, s);
      FreeUnchanged(EntityLen, s);
      CollapsedUnchanged(s);
    }
  }

  lemma ProseIdempotent(html: string)
    ensures Prose(Prose(html)) == Prose(html)
  {
    ProseIsNormal(html);
    FixedExactlyWhenNormal(Prose(html));
  }

  // ----- Scripts and styles leave nothing behind -----

  /** A pattern passes over text in which none of its matches starts. */
  lemma {:induction false} PassesOver(m: string -> nat, a: string, b: string)
    requires forall t :: m(t) <= |t|
    requires forall i | 0 <= i < |a| :: m(a[i..] + b) == 0
    ensures ReplaceAll(m, a + b) == a + ReplaceAll(m, b)
    decreases |a|
  {
    if a == [] {
      assert a + b == b;
    } else {
      assert a[0..] + b == a + b;
      forall i | 0 <= i < |a[1..]| ensures m(a[1..][i..] + b) == 0 {
        assert a[1..][i..] == a[i + 1..];
      }
      PassesFirst(m, a, b);
      PassesOver(m, a[1..], b);
      hide ReplaceAll;
      assert a == [a[0]] + a[1..];
    }
  }

  lemma {:induction false} PassesFirst(m: string -> nat, a: string, b: string)
    requires forall t :: m(t) <= |t|
    requires a != [] && m(a + b) == 0
    ensures ReplaceAll(m, a + b) == [a[0]] + ReplaceAll(m, a[1..] + b)
  {
    assert (a + b)[1..] == a[1..] + b;
  }

  /** No element starts in `a` when its opening text does not occur there and cannot reach into what follows. */
  lemma NoElementStarts(open: string, close: string, a: string, b: string, i: nat)
    requires i < |a| && open != []
    requires forall k :: !OccursAt(LowerAll(a), open, k)
    requires b == [] || Lower(b[0]) !in open[1..] || Lower(a[|a| - 1]) !in open[..|open| - 1]
    ensures ElementLen(open, close, a[i..] + b) == 0
  {
    hide OccursAt, ElementLen, LowerAll;
    NoOpeningAt(open, a, i);
    NoStraddlingStart(LowerAll(a[i..]), LowerAll(b), open);
    LowerAppend(a[i..], b);
    NoOpeningNoElement(open, close, a[i..] + b);
  }

  lemma NoOpeningAt(open: string, a: string, i: nat)
    requires i < |a| && !OccursAt(LowerAll(a), open, i)
    ensures !OccursAt(LowerAll(a[i..]), open, 0)
  {
    LowerAppend(a[..i], a[i..]);
    assert a == a[..i] + a[i..];
    hide OccursAt, LowerAll;
    OccursInParts(LowerAll(a[..i]), LowerAll(a[i..]), open, i);
  }

  lemma NoOpeningNoElement(open: string, close: string, s: string)
    requires !OccursAt(LowerAll(s), open, 0)
    ensures ElementLen(open, close, s) == 0
  {
  }

  lemma NoStraddlingStart(a: string, b: string, p: string)
    requires a != [] && !OccursAt(a, p, 0)
    requires b == [] || b[0] !in p[1..] || a[|a| - 1] !in p[..|p| - 1]
    requires p != []
    ensures !OccursAt(a + b, p, 0)
  {
    OccursInParts(a, b, p, 0);
    if |a| < |p| {
      assert p[1..][|a| - 1] == p[|a|] && p[..|p| - 1][|a| - 1] == p[|a| - 1];
      if OccursAt(a + b, p, 0) {
        OccurrenceCovers(a + b, p, 0, |a|);
        OccurrenceCovers(a + b, p, 0, |a| - 1);
      }
    }
  }

  /** The first script element of a page, whatever it holds, is worth one space. */
  lemma {:induction false} ScriptRemoved(a: string, e: string, b: string)
    requires forall k :: !OccursAt(LowerAll(a), SCRIPT, k)
    requires IsShortestElement(SCRIPT, SCRIPT_END, e)
    ensures Prose(a + e + b) == Prose(a + " " + b)
  {
    hide ReplaceAll, IsShortestElement, ElementLen;
    ElementVanishes(ScriptLen, SCRIPT, SCRIPT_END, a, e, b);
    BlankStays(ScriptLen, SCRIPT, SCRIPT_END, a, b);
  }

  lemma ElementStart(open: string, close: string, e: string)
    requires open != [] && open[0] == '<' && close != [] && close[|close| - 1] == '>' && IsElement(open, close, e)
    ensures e != [] && e[0] == '<' && e[|e| - 1] == '>'
  {
    var t := LowerAll(e);
    assert t[0..|open|][0] == t[0];
    assert t[|t| - |close|..|t|][|close| - 1] == t[|t| - 1];
  }

  lemma Assoc(a: string, x: string, b: string)
    ensures a + x + b == a + (x + b)
  {
  }

  lemma MatchReplaced(m: string -> nat, a: string, e: string, b: string)
    requires forall t :: m(t) <= |t|
    requires forall i | 0 <= i < |a| :: m(a[i..] + (e + b)) == 0
    requires m(e + b) == |e| > 0
    ensures ReplaceAll(m, a + e + b) == a + " " + ReplaceAll(m, b)
  {
    PassesOver(m, a, e + b);
    assert (e + b)[|e|..] == b;
    Assoc(a, e, b);
    Assoc(a, " ", ReplaceAll(m, b));
  }

  lemma BlankKept(m: string -> nat, a: string, b: string)
    requires forall t :: m(t) <= |t|
    requires forall i | 0 <= i < |a| :: m(a[i..] + (" " + b)) == 0
    requires m(" " + b) == 0
    ensures ReplaceAll(m, a + " " + b) == a + " " + ReplaceAll(m, b)
  {
    PassesOver(m, a, " " + b);
    assert (" " + b)[1..] == b;
    Assoc(a, " ", b);
    Assoc(a, " ", ReplaceAll(m, b));
  }

  lemma ElementVanishes(m: string -> nat, open: string, close: string, a: string, e: string, b: string)
    requires forall t :: m(t) <= |t|
    requires forall t :: m(t) == ElementLen(open, close, t)
    requires open != [] && open[0] == '<' && '<' !in open[1..]
    requires close != [] && close[|close| - 1] == '>'
    requires forall k :: !OccursAt(LowerAll(a), open, k)
    requires IsShortestElement(open, close, e)
    ensures ReplaceAll(m, a + e + b) == a + " " + ReplaceAll(m, b)
  {
    ElementStart(open, close, e);
    ElementLenIs(open, close, e, b);
    hide ElementLen, OccursAt, IsShortestElement, IsElement, LowerAll, ReplaceAll;
    NoElementInside(open, close, a, e + b);
    MatchReplaced(m, a, e, b);
  }

  lemma BlankStays(m: string -> nat, open: string, close: string, a: string, b: string)
    requires forall t :: m(t) <= |t|
    requires forall t :: m(t) == ElementLen(open, close, t)
    requires open != [] && ' ' !in open
    requires forall k :: !OccursAt(LowerAll(a), open, k)
    ensures ReplaceAll(m, a + " " + b) == a + " " + ReplaceAll(m, b)
  {
    NotAtSpace(open, close, b);
    hide ElementLen, OccursAt, LowerAll, ReplaceAll;
    NoElementInside(open, close, a, " " + b);
    BlankKept(m, a, b);
  }

  lemma NoElementInside(open: string, close: string, a: string, b: string)
    requires open != [] && (b == [] || Lower(b[0]) !in open[1..])
    requires forall k :: !OccursAt(LowerAll(a), open, k)
    ensures forall i | 0 <= i < |a| :: ElementLen(open, close, a[i..] + b) == 0
  {
    hide ElementLen, OccursAt, LowerAll;
    forall i | 0 <= i < |a| ensures ElementLen(open, close, a[i..] + b) == 0 {
      NoElementStarts(open, close, a, b, i);
    }
  }

  lemma NotAtSpace(open: string, close: string, b: string)
    requires open != [] && ' ' !in open
    ensures ElementLen(open, close, " " + b) == 0
  {
    var t := LowerAll(" " + b);
    assert t[0] == ' ';
    if OccursAt(t, open, 0) {
      OccurrenceAvoids(t, open, 0, 0);
    }
  }

  /** The first style element of a page is worth one space when no script opens before its end. */
  lemma {:induction false} StyleRemoved(a: string, e: string, b: string)
    requires forall k :: !OccursAt(LowerAll(a + e), SCRIPT, k)
    requires forall k :: !OccursAt(LowerAll(a), STYLE, k)
    requires IsShortestElement(STYLE, STYLE_END, e)
    ensures Prose(a + e + b) == Prose(a + " " + b)
  {
    NoScriptBeforeSpace(a, e);
    hide IsShortestElement, OccursAt, LowerAll, ReplaceAll, ElementLen;
    StyleEnds(e);
    ScriptPassesOver(a + e, b);
    ScriptPassesOver(a + " ", b);
    StyleReplaced(a, e, ReplaceAll(ScriptLen, b));
  }

  lemma StyleReplaced(a: string, e: string, b: string)
    requires forall k :: !OccursAt(LowerAll(a), STYLE, k)
    requires IsShortestElement(STYLE, STYLE_END, e)
    ensures ReplaceAll(StyleLen, a + e + b) == ReplaceAll(StyleLen, a + " " + b)
  {
    hide ReplaceAll, IsShortestElement, ElementLen;
    ElementVanishes(StyleLen, STYLE, STYLE_END, a, e, b);
    BlankStays(StyleLen, STYLE, STYLE_END, a, b);
  }

  lemma StyleEnds(e: string)
    requires IsShortestElement(STYLE, STYLE_END, e)
    ensures e != [] && e[|e| - 1] == '>'
  {
    ElementStart(STYLE, STYLE_END, e);
  }

  lemma ScriptPassesOver(a: string, b: string)
    requires a != [] && (a[|a| - 1] == '>' || a[|a| - 1] == ' ')
    requires forall k :: !OccursAt(LowerAll(a), SCRIPT, k)
    ensures ReplaceAll(ScriptLen, a + b) == a + ReplaceAll(ScriptLen, b)
  {
    assert '>' !in SCRIPT[..|SCRIPT| - 1] && ' ' !in SCRIPT[..|SCRIPT| - 1];
    hide OccursAt, LowerAll, ReplaceAll, ElementLen;
    forall i | 0 <= i < |a| ensures ScriptLen(a[i..] + b) == 0 {
      NoElementStarts(SCRIPT, SCRIPT_END, a, b, i);
    }
    PassesOver(ScriptLen, a, b);
  }

  lemma NoScriptBeforeSpace(a: string, e: string)
    requires forall k :: !OccursAt(LowerAll(a + e), SCRIPT, k)
    ensures forall k :: !OccursAt(LowerAll(a + " "), SCRIPT, k)
  {
    var la, t := LowerAll(a), LowerAll(a + " ");
    assert t == la + " " && LowerAll(a + e) == la + LowerAll(e);
    forall k ensures !OccursAt(t, SCRIPT, k) {
      OccursInParts(la, " ", SCRIPT, k);
      OccursInParts(la, LowerAll(e), SCRIPT, k);
      assert t[|la|] == ' ' && ' ' !in SCRIPT;
      if OccursAt(t, SCRIPT, k) {
        OccurrenceAvoids(t, SCRIPT, k, |la|);
      }
    }
  }
}
