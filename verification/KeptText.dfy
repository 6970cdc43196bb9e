/** What any number of calls on an instruction file keeps of the user's text. */
module KeptText {
  import opened Text
  import opened ManagedBlock
  import opened RunEntryBlock

  predicate EndsIn(u: string, b: string) {
    |b| <= |u| && u[|u| - |b|..] == b
  }

  predicate Forward(t: string, p: string, q: string) {
    HasBoth(t, p, q) && IndexOf(t, p) < IndexOf(t, q)
  }

  /**
   The text outside the markers, before and behind the place where a call puts its block: around the span of the
   first markers if the start marker comes first, around the start marker's place if the end marker comes first,
   and the whole text otherwise.
   */
  function Outside(t: string, p: string, q: string): (string, string) {
    if !HasBoth(t, p, q) then (t, "")
    else (t[..IndexOf(t, p)], t[if Forward(t, p, q) then EndOf(t, q) else IndexOf(t, p)..])
  }

  /** The new text still begins and ends with the two parts, without overlap. */
  predicate Kept(parts: (string, string), u: string) {
    |parts.0| + |parts.1| <= |u| && parts.0 <= u && EndsIn(u, parts.1)
  }

  // ----- Calls that have come to rest -----

  lemma {:induction false} Rests(t: string, block: string, p: string, q: string, m: nat, n: nat)
    requires m <= n
    requires WithMarkers(Some(Repeated(t, block, p, q, m)), block, p, q).0 == Repeated(t, block, p, q, m)
    ensures Repeated(t, block, p, q, n) == Repeated(t, block, p, q, m)
    decreases n
  {
    hide WithMarkers;
    if m < n {
      Rests(t, block, p, q, m, n - 1);
    }
  }

  lemma ForwardKept(t: string, block: string, body: string, p: string, q: string, n: nat)
    requires IsBlock(block, body, p, q) && Forward(t, p, q)
    ensures Kept(Outside(t, p, q), Repeated(t, block, p, q, n))
  {
    hide IsBlock, WithMarkers, IndexOf, Contains;
    FirstPlaces(t, p, q);
    if n > 0 {
      Refresh(t, block, body, p, q);
      assert Repeated(t, block, p, q, 1) == WithMarkers(Some(Repeated(t, block, p, q, 0)), block, p, q).0;
      Rests(t, block, p, q, 1, n);
    }
  }

  /** With the end marker first nothing is lost, although the file grows. */
  lemma {:induction false} BackwardKept(t: string, block: string, body: string, p: string, q: string, s: nat, f: nat,
                                        n: nat)
    requires IsBlock(block, body, p, q) && Backward(t, p, q, s, f)
    ensures s <= |t| && Kept((t[..s], t[s..]), Repeated(t, block, p, q, n))
    decreases n
  {
    hide WithMarkers, Backward, IsBlock;
    BackwardGrows(t, block, body, p, q, s, f);
    if n > 0 {
      var u := Repeated(t, block, p, q, n - 1);
      BackwardKept(t, block, body, p, q, s, f, n - 1);
      BackwardGrowsForever(t, block, body, p, q, s, f, n - 1);
      BackwardGrows(u, block, body, p, q, s, f);
      SpliceKeeps(t, s, u, f + |q|, block);
    }
  }

  lemma SpliceKeeps(t: string, s: nat, u: string, e: nat, block: string)
    requires e <= s <= |t| && Kept((t[..s], t[s..]), u)
    ensures s <= |u| && Kept((t[..s], t[s..]), u[..s] + block + u[e..])
  {
    var b := t[s..];
    var v := u[..s] + block + u[e..];
    assert v[|v| - |b|..] == u[e..][|u[e..]| - |b|..] == u[|u| - |b|..];
  }

  lemma {:induction false} NeitherKept(t: string, block: string, body: string, p: string, q: string, n: nat)
    requires IsBlock(block, body, p, q) && !Contains(t, p) && !Contains(t, q)
    ensures t <= Repeated(t, block, p, q, n)
  {
    hide IsBlock, WithMarkers, Contains;
    if n > 0 {
      CreateOrAppend(Some(t), block, body, p, q);
      assert Repeated(t, block, p, q, 1) == WithMarkers(Some(Repeated(t, block, p, q, 0)), block, p, q).0;
      Rests(t, block, p, q, 1, n);
    }
  }

  lemma {:induction false} RepeatedFromFirst(t: string, block: string, p: string, q: string, n: nat)
    ensures Repeated(t, block, p, q, n + 1) == Repeated(WithMarkers(Some(t), block, p, q).0, block, p, q, n)
    decreases n
  {
    hide WithMarkers;
    if n > 0 {
      RepeatedFromFirst(t, block, p, q, n - 1);
    } else {
      assert Repeated(t, block, p, q, 0) == t;
    }
  }

  /** With an end marker alone the old text stays the beginning of the file. */
  lemma {:induction false} EndAloneKept(t: string, block: string, body: string, p: string, q: string, n: nat)
    requires IsBlock(block, body, p, q) && !Contains(t, p) && Contains(t, q)
    ensures t <= Repeated(t, block, p, q, n)
  {
    hide IsBlock, WithMarkers, Contains, Backward, Separator;
    if n > 0 {
      var u, s := WithMarkers(Some(t), block, p, q).0, |t| + |Separator(t)|;
      AppendsAfter(t, block, p, q);
      StrayEndTurnsBackward(t, block, body, p, q);
      BackwardKept(u, block, body, p, q, s, IndexOf(t, q), n - 1);
      RepeatedFromFirst(t, block, p, q, n - 1);
      assert t == u[..s][..|t|];
    }
  }

  lemma AppendsAfter(t: string, block: string, p: string, q: string)
    requires !HasBoth(t, p, q)
    ensures WithMarkers(Some(t), block, p, q).0 == Appended(t, block)
    ensures t <= WithMarkers(Some(t), block, p, q).0
    ensures |WithMarkers(Some(t), block, p, q).0| >= |t| + |Separator(t)|
  {
    CallAppends(t, block, p, q);
  }

  // ----- A start marker alone -----

  /** From the second call on, all that stood behind the start marker is gone. */
  lemma {:induction false} StartAloneBecomes(t: string, block: string, body: string, p: string, q: string, n: nat)
    requires IsBlock(block, body, p, q) && Contains(t, p) && !Contains(t, q) && n >= 2
    ensures Repeated(t, block, p, q, n) == t[..IndexOf(t, p)] + block + "\n"
  {
    var u := WithMarkers(Some(t), block, p, q).0;
    hide IsBlock, WithMarkers, IndexOf, Contains, HasBoth;
    StrayStartSwallows(t, block, body, p, q);
    StartAloneForward(t, block, body, p, q);
    Refresh(u, block, body, p, q);
    assert Repeated(t, block, p, q, 0) == t;
    assert Repeated(t, block, p, q, 1) == u;
    assert Repeated(t, block, p, q, 2) == WithMarkers(Some(u), block, p, q).0;
    Rests(t, block, p, q, 2, n);
  }

  lemma {:induction false} StartAloneForward(t: string, block: string, body: string, p: string, q: string)
    requires IsBlock(block, body, p, q) && Contains(t, p) && !Contains(t, q)
    ensures Forward(WithMarkers(Some(t), block, p, q).0, p, q)
  {
    var u := Appended(t, block);
    var f := |t| + |Separator(t)| + |block| - |q|;
    hide IsBlock, FirstAt, WithMarkers, Separator, OccursAt, Appended;
    BlockSize(block, body, p, q);
    NeitherMarker(t, p, q);
    CallAppends(t, block, p, q);
    KeptMarker(t, p, block);
    AppendedMarker(t, q, |block| - |q|, block, body, p, q);
    FirstAtIsIndex(u, p, IndexOf(t, p));
    FirstAtIsIndex(u, q, f);
  }

  /** The old text survives that only if the block itself begins with what is gone. */
  lemma {:induction false} StartAloneKept(t: string, block: string, body: string, p: string, q: string)
    requires IsBlock(block, body, p, q) && Contains(t, p) && !Contains(t, q)
    ensures t <= t[..IndexOf(t, p)] + block + "\n" <==> t[IndexOf(t, p)..] <= block
  {
    var s := IndexOf(t, p);
    assert 0 <= s <= |t|;
    hide IsBlock, OccursAt, IndexOf, Contains;
    var rest := t[s..];
    assert t == t[..s] + rest;
    if t <= t[..s] + block + "\n" {
      assert t[..s] + block + "\n" == t[..s] + (block + "\n");
      assert rest <= block + "\n" by { SamePrefix(t[..s], rest, block + "\n"); }
      NotWholeBlock(t, s, block, body, p, q);
    }
  }

  lemma SamePrefix(a: string, x: string, y: string)
    requires a + x <= a + y
    ensures x <= y
  {
    assert forall i | 0 <= i < |x| :: x[i] == (a + x)[|a| + i] == (a + y)[|a| + i] == y[i];
  }

  lemma NotWholeBlock(t: string, s: nat, block: string, body: string, p: string, q: string)
    requires IsBlock(block, body, p, q) && !Contains(t, q)
    requires s <= |t| && t[s..] <= block + "\n"
    ensures t[s..] <= block
  {
    var rest := t[s..];
    if |rest| > |block| {
      MarkersInBlock(block, body, p, q);
      assert rest[..|block|] == block;
      assert rest == block + rest[|block|..] && t == t[..s] + rest;
      hide IsBlock, OccursAt;
      OccursInParts(block, rest[|block|..], q, |block| - |q|);
      OccursInParts(t[..s], rest, q, s + |block| - |q|);
    }
  }

  // ----- All files, all numbers of calls -----

  /**
   Whatever the file and however many calls are made, the text outside the markers is kept, unless there are at
   least two calls on a file that has a start marker but no end marker, and the text from that marker on is not a
   beginning of the block.
   */
  lemma {:induction false} OutsideKept(t: string, block: string, body: string, p: string, q: string, n: nat)
    requires IsBlock(block, body, p, q)
    ensures Kept(Outside(t, p, q), Repeated(t, block, p, q, n)) <==>
            n < 2 || !Contains(t, p) || Contains(t, q) || t[IndexOf(t, p)..] <= block
  {
    hide IsBlock, WithMarkers, Contains, IndexOf;
    if HasBoth(t, p, q) {
      if Forward(t, p, q) {
        ForwardKept(t, block, body, p, q, n);
      } else {
        NotForward(t, block, body, p, q);
        BackwardKept(t, block, body, p, q, IndexOf(t, p), IndexOf(t, q), n);
      }
    } else {
      if !Contains(t, p) && !Contains(t, q) {
        NeitherKept(t, block, body, p, q, n);
      } else if !Contains(t, p) {
        EndAloneKept(t, block, body, p, q, n);
      } else {
        StartAloneCalls(t, block, body, p, q, n);
      }
    }
  }

  lemma {:induction false} StartAloneCalls(t: string, block: string, body: string, p: string, q: string, n: nat)
    requires IsBlock(block, body, p, q) && Contains(t, p) && !Contains(t, q)
    ensures t <= Repeated(t, block, p, q, n) <==> n < 2 || t[IndexOf(t, p)..] <= block
  {
    hide IsBlock, WithMarkers, Contains, IndexOf;
    if n >= 2 {
      StartAloneBecomes(t, block, body, p, q, n);
      StartAloneKept(t, block, body, p, q);
    } else if n == 1 {
      AppendsAfter(t, block, p, q);
      assert Repeated(t, block, p, q, 0) == t;
    }
  }

  lemma NotForward(t: string, block: string, body: string, p: string, q: string)
    requires IsBlock(block, body, p, q) && HasBoth(t, p, q) && !Forward(t, p, q)
    ensures Backward(t, p, q, IndexOf(t, p), IndexOf(t, q))
  {
    FirstPlaces(t, p, q);
    NotTogether(t, block, body, p, q, IndexOf(t, p), IndexOf(t, q));
  }

  /** The same for the block and the markers of run entry. */
  lemma RunEntryKeepsText(t: string, n: nat)
    ensures Kept(Outside(t, MARKER_START, MARKER_END), Repeated(t, RUN_ENTRY_BLOCK, MARKER_START, MARKER_END, n)) <==>
            || n < 2 || !Contains(t, MARKER_START) || Contains(t, MARKER_END)
            || t[IndexOf(t, MARKER_START)..] <= RUN_ENTRY_BLOCK
  {
    RunEntryBlockIsABlock();
    hide IsBlock, Kept, Outside, Repeated;
    OutsideKept(t, RUN_ENTRY_BLOCK, RUN_ENTRY_BODY, MARKER_START, MARKER_END, n);
  }

  /** A file that is just the start marker is not harmed by any number of calls. */
  lemma LoneStartSurvives(block: string, body: string, p: string, q: string, n: nat)
    requires IsBlock(block, body, p, q)
    ensures Contains(p, p) && !Contains(p, q)
    ensures Kept(Outside(p, p, q), Repeated(p, block, p, q, n))
  {
    NotInStart(block, body, p, q);
    assert p[IndexOf(p, p)..] <= block;
    OutsideKept(p, block, body, p, q, n);
  }

  lemma NotInStart(block: string, body: string, p: string, q: string)
    requires IsBlock(block, body, p, q)
    ensures FirstAt(p, p, 0) && Contains(p, p) && !Contains(p, q) && IndexOf(p, p) == 0
  {
    assert p[0..|p|] == p;
    assert OccursAt(p, p, 0);
    FirstAtIsIndex(p, p, 0);
    forall i ensures !OccursAt(p, q, i) {
      if OccursAt(p, q, i) {
        NoOverlap(p, q, p, 0, i);
      }
    }
  }
}
