/** The marker-managed block that run entry keeps inside a user's instruction file. */
module ManagedBlock {
  import opened Text

  const START_KEY := "<!-- >>> Avorelo Run Entry "
  const START_NOTE := "(managed \U{2014} do not edit "
  const START_END := "between markers) >>> -->"
  const MARKER_START := START_KEY + START_NOTE + START_END
  const MARKER_END := "<!-- <<< Avorelo Run Entry <<< -->"

  datatype Action = Created | Updated | Unchanged | Skipped | Blocked

  /** `s.slice(a, b)` for indices within the text: empty when `b` comes before `a`. */
  function Slice(s: string, a: nat, b: nat): string
    requires a <= |s| && b <= |s|
  {
    if a <= b then s[a..b] else []
  }

  predicate HasBoth(t: string, p: string, q: string) {
    Contains(t, p) && Contains(t, q)
  }

  /** The index behind the first end marker. */
  function EndOf(t: string, q: string): (e: nat)
    requires Contains(t, q)
    ensures e <= |t|
  {
    IndexOf(t, q) + |q|
  }

  function Separator(t: string): string {
    if EndsWith(t, '\n') then "\n" else "\n\n"
  }

  /**
   What a call does to the file when writing succeeds, for a start marker `p` and an end marker `q`.
   `None` is a missing file.
   */
  function WithMarkers(file: Option<string>, block: string, p: string, q: string): (string, Action) {
    match file
    case None => (block + "\n", Created)
    case Some(t) =>
      if HasBoth(t, p, q) then
        var s, e := IndexOf(t, p), EndOf(t, q);
        if Slice(t, s, e) == Trim(block) then (t, Unchanged)
        else (t[..s] + Trim(block) + t[e..], Updated)
      else (t + Separator(t) + block + "\n", Updated)
  }

  function WithBlock(file: Option<string>, block: string): (string, Action) {
    WithMarkers(file, block, MARKER_START, MARKER_END)
  }

  // ----- The markers -----

  /** The facts about two marker texts that everything below rests on. */
  ghost predicate MarkerPair(p: string, q: string) {
    && 5 < |q| <= |p|
    && p[0] == '<' && p[1] == '!' && p[5] == '>' && (forall k | 1 <= k < |p| :: p[k] != '<')
    && q[0] == '<' && q[5] == '<' && q[|q| - 1] == '>'
    && (forall k | 1 <= k < |q| - 1 :: q[k] == '<' ==> q[k + 1] != '!')
    && '\n' !in p && '\n' !in q
  }

  lemma MarkersAreAPair()
    ensures MarkerPair(MARKER_START, MARKER_END)
  {
    StartMarkerShape();
    EndMarkerShape();
  }

  lemma StartMarkerShape()
    ensures var p := MARKER_START;
            && |p| >= |START_KEY| + 10 && p[0] == '<' && p[1] == '!' && p[5] == '>' && '\n' !in p
            && forall k | 1 <= k < |p| :: p[k] != '<'
  {
    KeyShape();
    NoteShape();
    EndShape();
    Pieces(START_KEY, START_NOTE, START_END);
  }

  lemma KeyShape()
    ensures |START_KEY| == 27 && START_KEY[0] == '<' && START_KEY[1] == '!' && START_KEY[5] == '>'
    ensures '\n' !in START_KEY && forall k | 1 <= k < |START_KEY| :: START_KEY[k] != '<'
  {
  }

  lemma NoteShape()
    ensures '<' !in START_NOTE && '\n' !in START_NOTE && |START_NOTE| >= 10
  {
  }

  lemma EndShape()
    ensures '<' !in START_END && '\n' !in START_END
  {
  }

  lemma Pieces(a: string, b: string, c: string)
    requires a != [] && (forall k | 1 <= k < |a| :: a[k] != '<') && '<' !in b && '<' !in c
    requires '\n' !in a && '\n' !in b && '\n' !in c
    ensures forall k | 1 <= k < |a + b + c| :: (a + b + c)[k] != '<'
    ensures '\n' !in a + b + c
  {
  }

  lemma EndMarkerShape()
    ensures var q := MARKER_END;
            && |q| == 34 && q[0] == '<' && q[5] == '<' && q[|q| - 1] == '>' && '\n' !in q
            && forall k | 1 <= k < |q| - 1 :: q[k] == '<' ==> q[k + 1] != '!'
  {
  }

  /** Occurrences of the two markers never overlap. */
  lemma NoOverlap(p: string, q: string, t: string, s: int, f: int)
    requires MarkerPair(p, q) && OccursAt(t, p, s) && OccursAt(t, q, f)
    ensures s + |p| <= f || f + |q| <= s
  {
    if s < f < s + |p| {
      OccurrenceCovers(t, p, s, f);
      OccurrenceCovers(t, q, f, f);
    } else if f == s {
      OccurrenceCovers(t, p, s, s + 5);
      OccurrenceCovers(t, q, s, s + 5);
    } else if f < s < f + |q| - 1 {
      OccurrenceCovers(t, p, s, s);
      OccurrenceCovers(t, p, s, s + 1);
      OccurrenceCovers(t, q, f, s);
      OccurrenceCovers(t, q, f, s + 1);
    } else if s == f + |q| - 1 {
      OccurrenceCovers(t, p, s, s);
      OccurrenceCovers(t, q, f, s);
    }
  }

  /** In a block the end marker occurs only at the end. */
  lemma EndOccursLast(p: string, q: string, block: string, body: string, i: int)
    requires MarkerPair(p, q) && block == p + body + q && '<' !in body
    requires OccursAt(block, q, i)
    ensures i == |block| - |q|
  {
    assert block[5] == p[5];
    BlockInner(p, q, block, body);
    OccurrenceCovers(block, q, i, i);
    if i == 0 {
      OccurrenceCovers(block, q, i, 5);
    }
  }

  lemma BlockInner(p: string, q: string, block: string, body: string)
    requires MarkerPair(p, q) && block == p + body + q && '<' !in body
    ensures forall k | 1 <= k < |p| + |body| :: block[k] != '<'
  {
    assert forall k | 1 <= k < |p| :: block[k] == p[k];
    assert forall k | |p| <= k < |p| + |body| :: block[k] == body[k - |p|];
  }

  /** A text that contains no line break does not occur across one. */
  lemma NoOccurrenceAcross(p: string, t: string, sep: string, rest: string, i: int)
    requires p != [] && '\n' !in p && sep != [] && forall k | 0 <= k < |sep| :: sep[k] == '\n'
    requires OccursAt(t + sep + rest, p, i) && i < |t| + |sep|
    ensures OccursAt(t, p, i)
  {
    var all := t + sep + rest;
    assert all == t + (sep + rest);
    assert forall k | |t| <= k < |t| + |sep| :: all[k] == '\n';
    OccurrenceAvoids(all, p, i, |t|);
    OccursInParts(t, sep + rest, p, i);
    if |t| < i {
      OccurrenceCovers(all, p, i, i);
    }
  }

  /** Two texts with a common beginning have the same occurrences there. */
  lemma SameBeginning(t: string, u: string, p: string, n: nat, i: int)
    requires n <= |t| && n <= |u| && t[..n] == u[..n] && i + |p| <= n
    ensures OccursAt(t, p, i) <==> OccursAt(u, p, i)
  {
    assert t == t[..n] + t[n..] && u == u[..n] + u[n..];
    OccursInParts(t[..n], t[n..], p, i);
    OccursInParts(u[..n], u[n..], p, i);
  }

  // ----- Where the first markers are after a splice -----

  ghost predicate FirstAt(t: string, p: string, i: int) {
    OccursAt(t, p, i) && forall k | k < i :: !OccursAt(t, p, k)
  }

  lemma FirstAtIsIndex(t: string, p: string, i: int)
    ensures FirstAt(t, p, i) <==> IndexOf(t, p) == i && i >= 0
  {
  }

  lemma OccursShifted(a: string, b: string, c: string, p: string, i: int)
    requires |a| <= i && i + |p| <= |a| + |b|
    ensures OccursAt(a + b + c, p, i) <==> OccursAt(b, p, i - |a|)
  {
    OccursInParts(a + b, c, p, i);
    OccursInParts(a, b, p, i);
  }

  /** Replacing everything from the first start marker on by a block keeps the first start marker where it is. */
  lemma StartStays(p: string, t: string, block: string, rest: string, s: int)
    requires FirstAt(t, p, s) && p <= block
    ensures FirstAt(t[..s] + block + rest, p, s)
  {
    var u := t[..s] + block + rest;
    assert u[s..s + |p|] == block[..|p|] == p;
    assert t[..s + |p|] == t[..s] + p == u[..s + |p|];
    forall k | k < s ensures !OccursAt(u, p, k) {
      SameBeginning(t, u, p, s + |p|, k);
    }
  }

  /** If the first end marker comes later, the block's end marker is the first one in the new text. */
  lemma EndIsTheBlocks(p: string, q: string, t: string, block: string, body: string, rest: string, s: int, f: int)
    requires MarkerPair(p, q) && block == p + body + q && '<' !in body
    requires FirstAt(t, p, s) && FirstAt(t, q, f) && s < f
    ensures FirstAt(t[..s] + block + rest, q, s + |block| - |q|)
  {
    var u := t[..s] + block + rest;
    var at := s + |block| - |q|;
    assert u[at..at + |q|] == block[|block| - |q|..] == q;
    assert t[..s + |p|] == t[..s] + p == u[..s + |p|];
    forall k | k < at ensures !OccursAt(u, q, k) {
      NoEarlierEnd(p, q, t, block, body, rest, s, f, k);
    }
  }

  lemma NoEarlierEnd(p: string, q: string, t: string, block: string, body: string, rest: string, s: int, f: int, k: int)
    requires MarkerPair(p, q) && block == p + body + q && '<' !in body
    requires 0 <= s && s + |p| <= |t| && FirstAt(t, q, f) && s < f
    requires t[..s + |p|] == (t[..s] + block + rest)[..s + |p|]
    requires k < s + |block| - |q|
    ensures !OccursAt(t[..s] + block + rest, q, k)
  {
    assert |q| <= |p|;
    hide OccursAt, MarkerPair;
    if k < s {
      SameBeginning(t, t[..s] + block + rest, q, s + |p|, k);
    } else {
      OccursShifted(t[..s], block, rest, q, k);
      if OccursAt(block, q, k - s) {
        EndOccursLast(p, q, block, body, k - s);
      }
    }
  }

  // ----- What repeated calls do -----

  /** A block as run entry writes it: the markers around text without "<". */
  ghost predicate IsBlock(block: string, body: string, p: string, q: string) {
    MarkerPair(p, q) && block == p + body + q && '<' !in body
  }

  lemma BlockEnds(block: string, body: string, p: string, q: string)
    requires IsBlock(block, body, p, q)
    ensures p != [] && q != [] && |block| >= |p| + |q|
    ensures !IsSpace(block[0]) && !IsSpace(block[|block| - 1])
  {
    assert block[0] == '<' && block[|block| - 1] == '>';
  }

  lemma BlockSize(block: string, body: string, p: string, q: string)
    requires IsBlock(block, body, p, q)
    ensures Trim(block) == block && p != [] && q != [] && |block| >= |p| + |q|
  {
    hide IsBlock, IsSpace, Trim;
    BlockEnds(block, body, p, q);
    TrimIs([], block, []);
    assert [] + block + [] == block;
  }

  /** A call on a text with both markers, in terms of their first places. */
  lemma CallWithBoth(t: string, s: nat, f: nat, block: string, p: string, q: string)
    requires FirstAt(t, p, s) && FirstAt(t, q, f) && Trim(block) == block
    ensures f + |q| <= |t| && s <= |t|
    ensures HasBoth(t, p, q) && IndexOf(t, p) == s && IndexOf(t, q) == f
    ensures WithMarkers(Some(t), block, p, q) ==
            if Slice(t, s, f + |q|) == block then (t, Unchanged) else (t[..s] + block + t[f + |q|..], Updated)
  {
    hide Trim;
    FirstAtIsIndex(t, p, s);
    FirstAtIsIndex(t, q, f);
  }

  lemma FirstPlaces(t: string, p: string, q: string)
    requires HasBoth(t, p, q)
    ensures FirstAt(t, p, IndexOf(t, p)) && FirstAt(t, q, IndexOf(t, q))
  {
  }

  /** A text whose first markers are those of the current block is left alone. */
  lemma CurrentIsUnchanged(u: string, s: nat, block: string, body: string, p: string, q: string)
    requires IsBlock(block, body, p, q)
    requires FirstAt(u, p, s) && FirstAt(u, q, s + |block| - |q|)
    requires s + |block| <= |u| && u[s..s + |block|] == block
    ensures WithMarkers(Some(u), block, p, q) == (u, Unchanged)
    ensures HasBoth(u, p, q) && Slice(u, IndexOf(u, p), EndOf(u, q)) == block
  {
    hide IsBlock, FirstAt, WithMarkers, Trim, HasBoth, IndexOf;
    BlockSize(block, body, p, q);
    CallWithBoth(u, s, s + |block| - |q|, block, p, q);
  }

  /** Replacing the span between forward markers by the block. */
  lemma Spliced(t: string, s: nat, f: nat, block: string, body: string, p: string, q: string)
    requires IsBlock(block, body, p, q)
    requires FirstAt(t, p, s) && FirstAt(t, q, f) && s < f
    ensures s <= f + |q| <= |t|
    ensures var u := t[..s] + block + t[f + |q|..];
            WithMarkers(Some(t), block, p, q).0 == u && WithMarkers(Some(u), block, p, q) == (u, Unchanged)
  {
    hide IsBlock, FirstAt, WithMarkers, Trim, OccursAt, HasBoth, Slice;
    BlockSize(block, body, p, q);
    CallWithBoth(t, s, f, block, p, q);
    MarkersAfterSplice(t, s, f, block, body, p, q);
    BlockAt(t[..s], block, t[f + |q|..]);
    if Slice(t, s, f + |q|) == block {
      Parts(t, s, f + |q|);
    }
    CurrentIsUnchanged(t[..s] + block + t[f + |q|..], s, block, body, p, q);
  }

  lemma MarkersAfterSplice(t: string, s: nat, f: nat, block: string, body: string, p: string, q: string)
    requires IsBlock(block, body, p, q)
    requires FirstAt(t, p, s) && FirstAt(t, q, f) && s < f
    ensures s <= f + |q| <= |t|
    ensures FirstAt(t[..s] + block + t[f + |q|..], p, s)
    ensures FirstAt(t[..s] + block + t[f + |q|..], q, s + |block| - |q|)
  {
    StartStays(p, t, block, t[f + |q|..], s);
    EndIsTheBlocks(p, q, t, block, body, t[f + |q|..], s, f);
  }

  lemma BlockAt(a: string, block: string, b: string)
    ensures (a + block + b)[|a|..|a| + |block|] == block
  {
  }

  lemma Parts(t: string, s: nat, e: nat)
    requires s <= e <= |t|
    ensures t == t[..s] + Slice(t, s, e) + t[e..]
  {
  }

  /**
   Refresh: when both markers occur and the start marker comes first, everything before the start marker and
   behind the end marker is kept, the block between them is the current one, and a second call changes nothing.
   */
  lemma Refresh(t: string, block: string, body: string, p: string, q: string)
    requires IsBlock(block, body, p, q)
    requires HasBoth(t, p, q) && IndexOf(t, p) < IndexOf(t, q)
    ensures var u := WithMarkers(Some(t), block, p, q).0;
            && u == t[..IndexOf(t, p)] + block + t[EndOf(t, q)..]
            && WithMarkers(Some(u), block, p, q) == (u, Unchanged)
  {
    FirstPlaces(t, p, q);
    hide IsBlock, FirstAt, WithMarkers, HasBoth;
    Spliced(t, IndexOf(t, p), IndexOf(t, q), block, body, p, q);
  }

  /** White space around the block given to a call is dropped when the block replaces another. */
  lemma {:induction false} RefreshTrims(t: string, pre: string, block: string, body: string, post: string,
                                        p: string, q: string)
    requires IsBlock(block, body, p, q) && AllSpace(pre) && AllSpace(post) && HasBoth(t, p, q)
    ensures WithMarkers(Some(t), pre + block + post, p, q) == WithMarkers(Some(t), block, p, q)
  {
    BlockEnds(block, body, p, q);
    BlockSize(block, body, p, q);
    TrimIs(pre, block, post);
    hide Trim, IsBlock, IndexOf, Contains, Slice;
  }

  /** The old text followed by a new block. */
  function Appended(t: string, block: string): string {
    t + Separator(t) + (block + "\n")
  }

  lemma CallAppends(t: string, block: string, p: string, q: string)
    requires !HasBoth(t, p, q)
    ensures WithMarkers(Some(t), block, p, q) == (Appended(t, block), Updated)
  {
    assert t + Separator(t) + block + "\n" == t + Separator(t) + (block + "\n");
  }

  lemma SeparatorIsBreaks(t: string)
    ensures Separator(t) != [] && forall k | 0 <= k < |Separator(t)| :: Separator(t)[k] == '\n'
  {
  }

  ghost predicate PlaceInBlock(m: string, at: nat, block: string, body: string, p: string, q: string) {
    IsBlock(block, body, p, q) && ((m == p && at == 0) || (m == q && at == |block| - |q|))
  }

  lemma MarkerPlace(m: string, at: nat, block: string, body: string, p: string, q: string)
    requires PlaceInBlock(m, at, block, body, p, q)
    ensures m != [] && '\n' !in m && at + |m| <= |block| && OccursAt(block, m, at)
    ensures forall k | k < at :: !OccursAt(block, m, k)
  {
    MarkersInBlock(block, body, p, q);
    NoBreaks(block, body, p, q);
    hide IsBlock, OccursAt;
    if m == q {
      forall k | k < at ensures !OccursAt(block, m, k) {
        EndNotBefore(block, body, p, q, k);
      }
    }
  }

  lemma MarkersInBlock(block: string, body: string, p: string, q: string)
    requires IsBlock(block, body, p, q)
    ensures p != [] && q != [] && |block| >= |p| + |q|
    ensures OccursAt(block, p, 0) && OccursAt(block, q, |block| - |q|)
    ensures forall k | k < 0 :: !OccursAt(block, p, k)
  {
    assert p != [] && q != [] && block == p + body + q;
    hide IsBlock, MarkerPair, OccursAt;
    AtBothEnds(p, body, q);
  }

  lemma AtBothEnds(p: string, body: string, q: string)
    ensures OccursAt(p + body + q, p, 0) && OccursAt(p + body + q, q, |p| + |body|)
  {
    OccursInParts(p, body + q, p, 0);
    OccursInParts(p + body, q, q, |p + body|);
    assert p + body + q == p + (body + q);
    assert p[0..|p|] == p && q[0..|q|] == q;
  }

  lemma NoBreaks(block: string, body: string, p: string, q: string)
    requires IsBlock(block, body, p, q)
    ensures '\n' !in p && '\n' !in q
  {
  }

  lemma EndNotBefore(block: string, body: string, p: string, q: string, k: int)
    requires IsBlock(block, body, p, q) && k < |block| - |q|
    ensures !OccursAt(block, q, k)
  {
    if OccursAt(block, q, k) {
      EndOccursLast(p, q, block, body, k);
    }
  }

  /** Where a marker is first found after the block has been appended to a text without it. */
  lemma AppendedMarker(t: string, m: string, at: nat, block: string, body: string, p: string, q: string)
    requires PlaceInBlock(m, at, block, body, p, q) && !Contains(t, m)
    ensures FirstAt(Appended(t, block), m, |t| + |Separator(t)| + at)
  {
    MarkerPlace(m, at, block, body, p, q);
    var u, n := Appended(t, block), |t| + |Separator(t)|;
    hide OccursAt, PlaceInBlock, Separator;
    OccursShifted(t + Separator(t), block, "\n", m, n + at);
    assert u == t + Separator(t) + block + "\n";
    forall k | k < n + at ensures !OccursAt(u, m, k) {
      NotBefore(t, m, k, at, block);
    }
  }

  lemma NotBefore(t: string, m: string, k: int, at: nat, block: string)
    requires m != [] && '\n' !in m && at + |m| <= |block| && !Contains(t, m)
    requires forall j | j < at :: !OccursAt(block, m, j)
    requires k < |t| + |Separator(t)| + at
    ensures !OccursAt(Appended(t, block), m, k)
  {
    SeparatorIsBreaks(t);
    hide Separator;
    var n := |t| + |Separator(t)|;
    if k < n {
      NotInOldText(t, Separator(t), block + "\n", m, k);
    } else {
      assert Appended(t, block) == t + Separator(t) + block + "\n";
      hide OccursAt;
      OccursShifted(t + Separator(t), block, "\n", m, k);
    }
  }

  lemma NotInOldText(t: string, sep: string, rest: string, m: string, k: int)
    requires m != [] && '\n' !in m && sep != [] && forall i | 0 <= i < |sep| :: sep[i] == '\n'
    requires !Contains(t, m) && k < |t| + |sep|
    ensures !OccursAt(t + sep + rest, m, k)
  {
    hide OccursAt;
    if OccursAt(t + sep + rest, m, k) {
      NoOccurrenceAcross(m, t, sep, rest, k);
    }
  }

  /** A marker that was there before stays the first one. */
  lemma KeptMarker(t: string, m: string, block: string)
    requires Contains(t, m)
    ensures FirstAt(Appended(t, block), m, IndexOf(t, m)) && IndexOf(t, m) + |m| <= |t|
  {
    var k := IndexOf(t, m);
    var u := Appended(t, block);
    assert u == t + (Separator(t) + (block + "\n"));
    forall i | i <= k ensures OccursAt(u, m, i) <==> OccursAt(t, m, i) {
      OccursInParts(t, Separator(t) + (block + "\n"), m, i);
    }
  }

  /**
   Create and append: from a missing file, or a text with neither marker, the old text is a prefix of the
   result, the block's markers are the first in it, and the next call changes nothing.
   */
  lemma CreateOrAppend(file: Option<string>, block: string, body: string, p: string, q: string)
    requires IsBlock(block, body, p, q)
    requires file.Some? ==> !Contains(file.value, p) && !Contains(file.value, q)
    ensures var u := WithMarkers(file, block, p, q).0;
            && (file.Some? ==> file.value <= u)
            && HasBoth(u, p, q) && Slice(u, IndexOf(u, p), EndOf(u, q)) == block
            && WithMarkers(Some(u), block, p, q) == (u, Unchanged)
    ensures WithMarkers(file, block, p, q) ==
            if file.None? then (block + "\n", Created) else (file.value + GapBefore(file.value) + block + "\n", Updated)
  {
    FirstText(file, block, p, q);
    hide WithMarkers, IsBlock, HasBoth, Slice, GapBefore;
    if file.Some? {
      AppendOnce(file.value, block, body, p, q);
    } else {
      CreateOnce(block, body, p, q);
    }
  }

  /** What completes the last line of a text and leaves one line empty. */
  ghost function GapBefore(t: string): string {
    if t != "" && t[|t| - 1] == '\n' then "\n" else "\n\n"
  }

  lemma FirstText(file: Option<string>, block: string, p: string, q: string)
    requires file.Some? ==> !Contains(file.value, p) && !Contains(file.value, q)
    ensures WithMarkers(file, block, p, q) ==
            if file.None? then (block + "\n", Created) else (file.value + GapBefore(file.value) + block + "\n", Updated)
  {
    hide Contains;
  }

  lemma CreateOnce(block: string, body: string, p: string, q: string)
    requires IsBlock(block, body, p, q)
    ensures var u := WithMarkers(None, block, p, q).0;
            && HasBoth(u, p, q) && Slice(u, IndexOf(u, p), EndOf(u, q)) == block
            && WithMarkers(Some(u), block, p, q) == (u, Unchanged)
  {
    CreatedText(block, p, q);
    hide WithMarkers, IsBlock, FirstAt, HasBoth, IndexOf, Slice, Trim, OccursAt, EndOf;
    BlockSize(block, body, p, q);
    CreatedMarkers(block, body, p, q);
    assert (block + "\n")[0..|block|] == block;
    CurrentIsUnchanged(block + "\n", 0, block, body, p, q);
  }

  lemma CreatedText(block: string, p: string, q: string)
    ensures WithMarkers(None, block, p, q) == (block + "\n", Created)
  {
  }

  lemma AppendOnce(t: string, block: string, body: string, p: string, q: string)
    requires IsBlock(block, body, p, q)
    requires !Contains(t, p) && !Contains(t, q)
    ensures var u := WithMarkers(Some(t), block, p, q).0;
            && t <= u
            && HasBoth(u, p, q) && Slice(u, IndexOf(u, p), EndOf(u, q)) == block
            && WithMarkers(Some(u), block, p, q) == (u, Unchanged)
  {
    hide IsBlock, FirstAt, HasBoth, IndexOf, Separator, OccursAt, WithMarkers, Appended, Slice;
    BlockSize(block, body, p, q);
    NeitherMarker(t, p, q);
    CallAppends(t, block, p, q);
    AppendedMarker(t, p, 0, block, body, p, q);
    AppendedMarker(t, q, |block| - |q|, block, body, p, q);
    BlockInAppended(t, block);
    CurrentIsUnchanged(Appended(t, block), |t| + |Separator(t)|, block, body, p, q);
  }

  lemma NeitherMarker(t: string, p: string, q: string)
    requires !Contains(t, p) || !Contains(t, q)
    ensures !HasBoth(t, p, q)
  {
  }

  lemma BlockInAppended(t: string, block: string)
    ensures var n := |t| + |Separator(t)|; |Appended(t, block)| == n + |block| + 1
    ensures var n := |t| + |Separator(t)|; Appended(t, block)[n..n + |block|] == block
    ensures Appended(t, block)[|t| + |Separator(t)| + |block|..] == "\n"
    ensures t <= Appended(t, block)
  {
    hide Separator;
  }

  lemma CreatedMarkers(block: string, body: string, p: string, q: string)
    requires IsBlock(block, body, p, q)
    ensures FirstAt(block + "\n", p, 0) && FirstAt(block + "\n", q, |block| - |q|)
  {
    hide OccursAt, IsBlock;
    BlockSize(block, body, p, q);
    MarkerPlace(p, 0, block, body, p, q);
    MarkerPlace(q, |block| - |q|, block, body, p, q);
    forall k ensures k <= |block| - |q| ==> (OccursAt(block + "\n", q, k) <==> OccursAt(block, q, k)) {
      OccursInParts(block, "\n", q, k);
    }
    forall k ensures k <= 0 ==> (OccursAt(block + "\n", p, k) <==> OccursAt(block, p, k)) {
      OccursInParts(block, "\n", p, k);
    }
  }

  // ----- Files on which one call is not enough -----

  /** The end marker comes first: the call duplicates what lies between the markers. */
  ghost predicate Backward(t: string, p: string, q: string, s: nat, f: nat) {
    FirstAt(t, p, s) && FirstAt(t, q, f) && f < s
  }

  /** In that state a call makes the text longer and leaves the markers where they are. */
  lemma {:induction false} BackwardGrows(t: string, block: string, body: string, p: string, q: string, s: nat, f: nat)
    requires IsBlock(block, body, p, q) && Backward(t, p, q, s, f)
    ensures f + |q| <= s <= |t|
    ensures WithMarkers(Some(t), block, p, q) == (t[..s] + block + t[f + |q|..], Updated)
    ensures Backward(t[..s] + block + t[f + |q|..], p, q, s, f)
  {
    hide IsBlock, FirstAt, WithMarkers, OccursAt, Trim, HasBoth, IndexOf, Slice;
    BackwardPlaces(t, block, body, p, q, s, f);
    BlockSize(block, body, p, q);
    CallWithBoth(t, s, f, block, p, q);
    EmptySlice(t, s, f + |q|);
    StartStaysBeforeBlock(t, block, body, p, q, t[f + |q|..], s);
    EndStaysInFront(t, q, t[..s] + block + t[f + |q|..], s, f);
  }

  lemma EmptySlice(t: string, s: nat, e: nat)
    requires e <= s <= |t|
    ensures Slice(t, s, e) == []
  {
  }

  lemma BackwardPlaces(t: string, block: string, body: string, p: string, q: string, s: nat, f: nat)
    requires IsBlock(block, body, p, q) && Backward(t, p, q, s, f)
    ensures FirstAt(t, p, s) && FirstAt(t, q, f) && f < s
    ensures f + |q| <= s <= |t|
  {
    NoOverlap(p, q, t, s, f);
  }

  lemma StartStaysBeforeBlock(t: string, block: string, body: string, p: string, q: string, rest: string, s: nat)
    requires IsBlock(block, body, p, q) && FirstAt(t, p, s)
    ensures s <= |t| && FirstAt(t[..s] + block + rest, p, s)
  {
    StartStays(p, t, block, rest, s);
  }

  lemma EndStaysInFront(t: string, q: string, u: string, s: nat, f: nat)
    requires s <= |t| && s <= |u| && t[..s] == u[..s] && f + |q| <= s && FirstAt(t, q, f)
    ensures FirstAt(u, q, f)
  {
    hide OccursAt;
    forall k | k <= f ensures OccursAt(u, q, k) <==> OccursAt(t, q, k) {
      SameBeginning(t, u, q, s, k);
    }
  }

  function Repeated(t: string, block: string, p: string, q: string, n: nat): string {
    if n == 0 then t else WithMarkers(Some(Repeated(t, block, p, q, n - 1)), block, p, q).0
  }

  /** With the end marker first the file grows by the same amount on every call, without bound. */
  lemma {:induction false} BackwardGrowsForever(t: string, block: string, body: string, p: string, q: string,
                                                s: nat, f: nat, n: nat)
    requires IsBlock(block, body, p, q) && Backward(t, p, q, s, f)
    ensures f + |q| <= s
    ensures |Repeated(t, block, p, q, n)| == |t| + n * (|block| + (s - (f + |q|)))
    ensures Backward(Repeated(t, block, p, q, n), p, q, s, f)
    ensures |block| > 0
  {
    hide WithMarkers, Backward, IsBlock, Trim;
    BlockSize(block, body, p, q);
    BackwardGrows(t, block, body, p, q, s, f);
    if n > 0 {
      var step := |block| + (s - (f + |q|));
      BackwardGrowsForever(t, block, body, p, q, s, f, n - 1);
      BackwardGrows(Repeated(t, block, p, q, n - 1), block, body, p, q, s, f);
      assert n * step == (n - 1) * step + step;
    }
  }

  /** With a start marker alone, the second call replaces everything from it to the appended block. */
  lemma StrayStartSwallows(t: string, block: string, body: string, p: string, q: string)
    requires IsBlock(block, body, p, q) && Contains(t, p) && !Contains(t, q)
    ensures var u := WithMarkers(Some(t), block, p, q).0;
            WithMarkers(Some(u), block, p, q) == (t[..IndexOf(t, p)] + block + "\n", Updated)
  {
    var s, n := IndexOf(t, p), |t| + |Separator(t)|;
    var u := Appended(t, block);
    hide IsBlock, FirstAt, WithMarkers, HasBoth, Separator, OccursAt, Appended, Trim;
    BlockSize(block, body, p, q);
    NeitherMarker(t, p, q);
    CallAppends(t, block, p, q);
    KeptMarker(t, p, block);
    AppendedMarker(t, q, |block| - |q|, block, body, p, q);
    BlockInAppended(t, block);
    CallWithBoth(u, s, n + |block| - |q|, block, p, q);
    assert |Slice(u, s, n + |block|)| > |block|;
    assert u[..s] == u[..|t|][..s] == t[..s];
  }

  /** A stray end marker alone leads into the growing state. */
  lemma StrayEndTurnsBackward(t: string, block: string, body: string, p: string, q: string)
    requires IsBlock(block, body, p, q) && !Contains(t, p) && Contains(t, q)
    ensures Backward(WithMarkers(Some(t), block, p, q).0, p, q, |t| + |Separator(t)|, IndexOf(t, q))
  {
    hide IsBlock, FirstAt, WithMarkers, HasBoth, Separator, OccursAt, Appended;
    NeitherMarker(t, p, q);
    CallAppends(t, block, p, q);
    KeptMarker(t, q, block);
    AppendedMarker(t, p, 0, block, body, p, q);
    MarkersInBlock(block, body, p, q);
  }

  /** The files on which one call is enough. */
  predicate Settles(file: Option<string>, p: string, q: string) {
    match file
    case None => true
    case Some(t) =>
      (!Contains(t, p) && !Contains(t, q)) || (HasBoth(t, p, q) && IndexOf(t, p) < IndexOf(t, q))
  }

  /** Exactly when a second call reports the file unchanged. */
  lemma SecondCallUnchanged(file: Option<string>, block: string, body: string, p: string, q: string)
    requires IsBlock(block, body, p, q)
    ensures WithMarkers(Some(WithMarkers(file, block, p, q).0), block, p, q).1 == Unchanged <==> Settles(file, p, q)
  {
    hide WithMarkers, IsBlock, Backward;
    if file.None? || (!Contains(file.value, p) && !Contains(file.value, q)) {
      CreateOrAppend(file, block, body, p, q);
    } else {
      var t := file.value;
      var u := WithMarkers(file, block, p, q).0;
      if !Contains(t, q) {
        StrayStartSwallows(t, block, body, p, q);
      } else if !Contains(t, p) {
        StrayEndTurnsBackward(t, block, body, p, q);
        BackwardGrows(u, block, body, p, q, |t| + |Separator(t)|, IndexOf(t, q));
      } else if IndexOf(t, p) < IndexOf(t, q) {
        Refresh(t, block, body, p, q);
      } else {
        GrowsTwice(t, block, body, p, q);
      }
    }
  }

  lemma GrowsTwice(t: string, block: string, body: string, p: string, q: string)
    requires IsBlock(block, body, p, q) && HasBoth(t, p, q) && IndexOf(t, q) <= IndexOf(t, p)
    ensures WithMarkers(Some(WithMarkers(Some(t), block, p, q).0), block, p, q).1 == Updated
  {
    var s, f := IndexOf(t, p), IndexOf(t, q);
    FirstPlaces(t, p, q);
    NotTogether(t, block, body, p, q, s, f);
    hide WithMarkers, IsBlock, Backward, FirstAt, HasBoth, OccursAt;
    BackwardGrows(t, block, body, p, q, s, f);
    BackwardGrows(t[..s] + block + t[f + |q|..], block, body, p, q, s, f);
  }

  lemma NotTogether(t: string, block: string, body: string, p: string, q: string, s: nat, f: nat)
    requires IsBlock(block, body, p, q) && FirstAt(t, p, s) && FirstAt(t, q, f) && f <= s
    ensures Backward(t, p, q, s, f)
  {
    NoOverlap(p, q, t, s, f);
  }
}
