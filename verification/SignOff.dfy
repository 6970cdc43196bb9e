/** The sign-off trailer of the DCO checker and the verdict on each commit. */
module SignOff {
  import opened Text
  import opened Collections
  import opened CommitLog

  const TRAILER := "Signed-off-by:"

  // ----- The trailer pattern, by its meaning -----

  /** One way to read a line as `\s*Signed-off-by:\s*(.+?)\s*<([^<>]+)>\s*`. */
  datatype Reading = Reading(a: string, b: string, name: string, c: string, email: string, d: string)

  predicate NoLineTerminator(s: string) {
    forall i | 0 <= i < |s| :: !IsLineTerminator(s[i])
  }

  function Unread(r: Reading): string {
    r.a + (TRAILER + (r.b + r.name + r.c + ['<'] + (r.email + ['>'] + r.d)))
  }

  predicate Allowed(r: Reading) {
    && AllSpace(r.a) && AllSpace(r.b) && AllSpace(r.c) && AllSpace(r.d)
    && r.name != [] && NoLineTerminator(r.name)
    && r.email != [] && '<' !in r.email && '>' !in r.email
  }

  ghost predicate Reads(line: string, r: Reading) {
    Allowed(r) && line == Unread(r)
  }

  // ----- Matching a line -----

  datatype Trailer = Trailer(name: string, email: string)

  function LastIndex(s: string, c: char): (k: nat)
    requires c in s
    ensures k < |s| && s[k] == c && c !in s[k + 1..]
  {
    if s[|s| - 1] == c then |s| - 1 else LastIndex(s[..|s| - 1], c)
  }

  /** The text between the trailer key and the last "<" can be read as `\s*(.+?)\s*`. */
  predicate NameReadable(middle: string) {
    if Trim(middle) != [] then NoLineTerminator(Trim(middle)) else !AllLineTerminators(middle)
  }

  /** No character of the text can stand for `.`. */
  predicate AllLineTerminators(s: string) {
    forall i | 0 <= i < |s| :: IsLineTerminator(s[i])
  }

  /** What follows the last "<" can be read as `([^<>]+)>\s*`. */
  predicate EmailReadable(tail: string) {
    '>' in tail && FirstIndex(tail, '>') > 0 && AllSpace(tail[FirstIndex(tail, '>') + 1..])
  }

  function MatchAfterKey(rest: string): Option<Trailer> {
    if '<' !in rest then None
    else
      var k := LastIndex(rest, '<');
      var tail := rest[k + 1..];
      if NameReadable(rest[..k]) && EmailReadable(tail)
      then Some(Trailer(Trim(rest[..k]), Trim(tail[..FirstIndex(tail, '>')])))
      else None
  }

  /** `raw.match(SIGNOFF_RE)` with both captures trimmed. */
  function MatchTrailer(line: string): Option<Trailer> {
    var t := TrimStart(line);
    if StartsWith(t, TRAILER) then MatchAfterKey(t[|TRAILER|..]) else None
  }

  lemma {:induction false} LastIndexIs(head: string, c: char, tail: string)
    requires c !in tail
    ensures LastIndex(head + [c] + tail, c) == |head|
    decreases |tail|
  {
    var s := head + [c] + tail;
    assert s[|head|] == c;
    if tail != [] {
      var n := |tail| - 1;
      assert s[|s| - 1] == tail[n];
      assert s[..|s| - 1] == head + [c] + tail[..n];
      LastIndexIs(head, c, tail[..n]);
    }
  }

  lemma SpaceConcat(a: string, b: string)
    ensures AllSpace(a + b) <==> AllSpace(a) && AllSpace(b)
  {
    assert forall i | 0 <= i < |b| :: (a + b)[|a| + i] == b[i];
    assert forall i | 0 <= i < |a| :: (a + b)[i] == a[i];
  }

  /** However the space around the name is divided, the trimmed name is the same. */
  lemma MiddleTrimmed(b: string, name: string, c: string)
    requires AllSpace(b) && AllSpace(c) && name != [] && NoLineTerminator(name)
    ensures Trim(b + name + c) == Trim(name)
    ensures NameReadable(b + name + c)
  {
    var middle := b + name + c;
    var p, q := TrimParts(name);
    var core := Trim(name);
    hide Trim, IsSpace, IsLineTerminator;
    SpaceConcat(b, p);
    SpaceConcat(q, c);
    assert middle == (b + p) + core + (q + c);
    TrimIs(b + p, core, q + c);
    assert forall i | 0 <= i < |core| :: name[|p| + i] == core[i];
    assert middle[|b|] == name[0];
  }

  lemma TailRead(email: string, d: string)
    requires AllSpace(d) && email != [] && '<' !in email && '>' !in email
    ensures var tail := email + ['>'] + d;
            '<' !in tail && EmailReadable(tail) && tail[..FirstIndex(tail, '>')] == email
  {
    assert !IsSpace('<');
    hide IsSpace;
    var tail := email + ['>'] + d;
    assert tail[|email|] == '>';
    FirstIndexIs(email, '>', d);
    assert tail[|email| + 1..] == d;
  }

  lemma AfterKeyAgrees(middle: string, tail: string)
    requires '<' !in tail && NameReadable(middle) && EmailReadable(tail)
    ensures MatchAfterKey(middle + ['<'] + tail) ==
            Some(Trailer(Trim(middle), Trim(tail[..FirstIndex(tail, '>')])))
  {
    hide NameReadable, EmailReadable, Trim, LastIndex;
    LastIndexIs(middle, '<', tail);
    CutBack(middle, '<', tail);
  }

  lemma CutBack(head: string, c: char, tail: string)
    ensures var s := head + [c] + tail;
            |head| < |s| && s[..|head|] == head && s[|head|] == c && s[|head| + 1..] == tail && c in s
  {
    assert (head + [c] + tail)[|head|] == c;
  }

  /** Every reading of a line gives what the matcher returns, so the last "<" is the one that counts. */
  lemma {:induction false} ReadingsAgree(line: string, r: Reading)
    requires Reads(line, r)
    ensures MatchTrailer(line) == Some(Trailer(Trim(r.name), Trim(r.email)))
  {
    var middle, tail := r.b + r.name + r.c, r.email + ['>'] + r.d;
    MiddleTrimmed(r.b, r.name, r.c);
    TailRead(r.email, r.d);
    AfterKeyAgrees(middle, tail);
    KeyFirst(r.a, middle + ['<'] + tail);
    hide Trim, NameReadable, EmailReadable, TrimStart, AllSpace, NoLineTerminator, MatchAfterKey;
    assert line == r.a + (TRAILER + (middle + ['<'] + tail));
  }

  lemma KeyFirst(a: string, rest: string)
    requires AllSpace(a)
    ensures TrimStart(a + (TRAILER + rest)) == TRAILER + rest
    ensures StartsWith(TRAILER + rest, TRAILER) && (TRAILER + rest)[|TRAILER|..] == rest
  {
    assert !IsSpace(TRAILER[0]);
    TrimStartIs(a, TRAILER + rest);
  }

  lemma BlankName(middle: string, i: nat)
    requires i < |middle| && AllSpace(middle)
    ensures middle == middle[..i] + [middle[i]] + middle[i + 1..]
    ensures AllSpace(middle[..i]) && AllSpace(middle[i + 1..])
  {
    hide IsSpace;
  }

  lemma NameReading(middle: string) returns (b: string, name: string, c: string)
    requires NameReadable(middle)
    ensures middle == b + name + c && AllSpace(b) && AllSpace(c) && name != [] && NoLineTerminator(name)
  {
    hide Trim, IsSpace, IsLineTerminator;
    b, c := TrimParts(middle);
    name := Trim(middle);
    if name == [] {
      var i :| 0 <= i < |middle| && !IsLineTerminator(middle[i]);
      SpaceConcat(b, c);
      assert middle == b + c;
      BlankName(middle, i);
      b, name, c := middle[..i], [middle[i]], middle[i + 1..];
    }
  }

  lemma EmailReading(tail: string) returns (email: string, d: string)
    requires EmailReadable(tail) && '<' !in tail
    ensures tail == email + ['>'] + d && AllSpace(d) && email != [] && '<' !in email && '>' !in email
  {
    var k := FirstIndex(tail, '>');
    email, d := tail[..k], tail[k + 1..];
  }

  lemma AfterKeyReading(rest: string) returns (b: string, name: string, c: string, email: string, d: string)
    requires MatchAfterKey(rest).Some?
    ensures rest == b + name + c + ['<'] + (email + ['>'] + d)
    ensures Allowed(Reading([], b, name, c, email, d))
  {
    hide NameReadable, EmailReadable, Trim, AllSpace, NoLineTerminator;
    var k := LastIndex(rest, '<');
    b, name, c := NameReading(rest[..k]);
    email, d := EmailReading(rest[k + 1..]);
    CutAt(rest, k);
    NothingIsSpace();
  }

  lemma CutAt(s: string, k: nat)
    requires k < |s|
    ensures s == s[..k] + [s[k]] + s[k + 1..]
  {
  }

  lemma NothingIsSpace()
    ensures AllSpace([])
  {
  }

  /** The matcher accepts a line only if there is a reading of it. */
  lemma {:induction false} MatchedHasReading(line: string) returns (r: Reading)
    requires MatchTrailer(line).Some?
    ensures Reads(line, r)
  {
    hide MatchAfterKey, IsSpace;
    var t := TrimStart(line);
    var a, rest := line[..|line| - |t|], t[|TRAILER|..];
    var b, name, c, email, d := AfterKeyReading(rest);
    r := Reading(a, b, name, c, email, d);
    Glue(line, a, t, rest);
  }

  lemma Glue(line: string, a: string, t: string, rest: string)
    requires |t| <= |line| && a == line[..|line| - |t|] && t == line[|line| - |t|..]
    requires TRAILER <= t && rest == t[|TRAILER|..]
    ensures line == a + (TRAILER + rest)
  {
    assert t == TRAILER + rest;
  }

  // ----- Extracting sign-offs -----

  function DropCr(s: string): string {
    if EndsWith(s, '\r') then s[..|s| - 1] else s
  }

  /** Each part but the last without a carriage return at its end. */
  function LinesOf(parts: seq<string>): (ls: seq<string>)
    ensures |ls| == |parts|
    ensures forall i | 0 <= i < |parts| :: ls[i] == if i < |parts| - 1 then DropCr(parts[i]) else parts[i]
  {
    seq(|parts|, i requires 0 <= i < |parts| => if i < |parts| - 1 then DropCr(parts[i]) else parts[i])
  }

  /** `body.split(/\r?\n/)` */
  function Lines(body: string): (ls: seq<string>)
    ensures ls != []
  {
    LinesOf(Split(body, '\n'))
  }

  /** Each line is followed by its break: of two characters, or of one if the line does not end like the longer one. */
  ghost predicate BreaksOf(ls: seq<string>, seps: seq<string>) {
    && |ls| == |seps| + 1
    && forall i | 0 <= i < |seps| :: seps[i] == "\r\n" || (seps[i] == "\n" && !EndsWith(ls[i], '\r'))
  }

  lemma LinesStep(parts: seq<string>)
    requires |parts| >= 2
    ensures LinesOf(parts) == [DropCr(parts[0])] + LinesOf(parts[1..])
  {
  }

  lemma {:induction false} OneMoreBreak(line: string, sep: string, ls: seq<string>, seps: seq<string>)
    requires BreaksOf(ls, seps) && (sep == "\r\n" || (sep == "\n" && !EndsWith(line, '\r')))
    ensures BreaksOf([line] + ls, [sep] + seps)
    ensures Interleave([line] + ls, [sep] + seps) == line + sep + Interleave(ls, seps)
  {
    assert ([line] + ls)[1..] == ls && ([sep] + seps)[1..] == seps;
  }

  lemma {:induction false} LinesRejoin(parts: seq<string>) returns (seps: seq<string>)
    requires parts != []
    ensures BreaksOf(LinesOf(parts), seps) && Interleave(LinesOf(parts), seps) == Join(parts, '\n')
    decreases |parts|
  {
    if |parts| == 1 {
      seps := [];
    } else {
      var sep := if EndsWith(parts[0], '\r') then "\r\n" else "\n";
      var more := LinesRejoin(parts[1..]);
      LinesStep(parts);
      assert parts[0] + "\n" == DropCr(parts[0]) + sep;
      hide LinesOf, Interleave, BreaksOf;
      OneMoreBreak(DropCr(parts[0]), sep, LinesOf(parts[1..]), more);
      seps := [sep] + more;
    }
  }

  /**
   The lines are what stands between the line breaks of the body: with breaks of one or two characters between them
   they are the body, and no line holds a break.
   */
  lemma {:induction false} LinesMeaning(body: string) returns (seps: seq<string>)
    ensures BreaksOf(Lines(body), seps) && Interleave(Lines(body), seps) == body
    ensures forall line | line in Lines(body) :: '\n' !in line
  {
    seps := LinesRejoin(Split(body, '\n'));
    JoinSplit(body, '\n');
    LinesLackBreaks(Split(body, '\n'));
    hide Split, Join, Interleave, BreaksOf, LinesOf;
  }

  lemma LinesLackBreaks(parts: seq<string>)
    requires forall p | p in parts :: '\n' !in p
    ensures forall line | line in LinesOf(parts) :: '\n' !in line
  {
    forall i | 0 <= i < |parts| ensures '\n' !in LinesOf(parts)[i] {
      assert parts[i] in parts;
    }
    hide LinesOf;
  }

  function Trailers(lines: seq<string>): seq<Trailer> {
    FilterMap(MatchTrailer, lines)
  }

  method ExtractSignoffs(body: string) returns (out: seq<Trailer>)
    ensures out == Trailers(Lines(body))
  {
    hide MatchTrailer;
    out := [];
    var lines := Lines(body);
    for i := 0 to |lines|
      invariant out == Trailers(lines[..i])
    {
      assert lines[..i + 1][..i] == lines[..i];
      var m := MatchTrailer(lines[i]);
      if m.Some? {
        out := out + [m.value];
      }
    }
    assert lines[..|lines|] == lines;
  }

  /** `/^[^\s@]+@[^\s@]+\.[^\s@]+$/` */
  predicate IsEmail(e: string) {
    exists i, k | 1 <= i < |e| && i + 1 < k < |e| - 1 ::
      && e[i] == '@' && e[k] == '.'
      && forall j | 0 <= j < |e| && j != i :: !IsSpace(e[j]) && e[j] != '@'
  }

  /** A text without white space and without "@". */
  ghost predicate IsWord(s: string) {
    s != [] && forall i | 0 <= i < |s| :: !IsSpace(s[i]) && s[i] != '@'
  }

  ghost predicate IsAddress(e: string, name: string, host: string, domain: string) {
    IsWord(name) && IsWord(host) && IsWord(domain) && e == name + "@" + host + "." + domain
  }

  lemma CutTwice(e: string, i: nat, k: nat)
    requires i < k < |e| && e[i] == '@' && e[k] == '.'
    ensures e == e[..i] + "@" + e[i + 1..k] + "." + e[k + 1..]
  {
  }

  lemma WordsCut(e: string, i: nat, k: nat)
    requires 1 <= i < |e| && i + 1 < k < |e| - 1
    requires forall j | 0 <= j < |e| && j != i :: !IsSpace(e[j]) && e[j] != '@'
    ensures IsWord(e[..i]) && IsWord(e[i + 1..k]) && IsWord(e[k + 1..])
  {
    hide IsSpace;
  }

  lemma {:induction false} EmailParts(e: string)
    requires IsEmail(e)
    ensures exists name, host, domain :: IsAddress(e, name, host, domain)
  {
    hide IsSpace;
    var i, k :| 1 <= i < |e| && i + 1 < k < |e| - 1 && e[i] == '@' && e[k] == '.' &&
                forall j | 0 <= j < |e| && j != i :: !IsSpace(e[j]) && e[j] != '@';
    CutTwice(e, i, k);
    WordsCut(e, i, k);
    hide IsWord;
    assert IsAddress(e, e[..i], e[i + 1..k], e[k + 1..]);
  }

  /** An address is three words, with "@" between the first two and a full stop before the last. */
  lemma {:induction false} EmailMeaning(e: string)
    ensures IsEmail(e) <==> exists name, host, domain :: IsAddress(e, name, host, domain)
  {
    hide IsEmail;
    if IsEmail(e) {
      EmailParts(e);
    }
    if name, host, domain :| IsAddress(e, name, host, domain) {
      AddressParts(name, host, domain);
    }
  }

  lemma {:induction false} AddressParts(name: string, host: string, domain: string)
    requires IsWord(name) && IsWord(host) && IsWord(domain)
    ensures IsEmail(name + "@" + host + "." + domain)
  {
    assert !IsSpace('.') && '.' != '@';
    hide IsSpace;
    var e := name + "@" + host + "." + domain;
    var i, k := |name|, |name| + 1 + |host|;
    assert e[i] == '@' && e[k] == '.';
    assert forall j | 0 <= j < |name| :: e[j] == name[j];
    assert forall j | i < j < k :: e[j] == host[j - i - 1];
    assert forall j | k < j < |e| :: e[j] == domain[j - k - 1];
  }

  predicate IsValid(t: Trailer) {
    t.name != [] && IsEmail(t.email)
  }

  predicate AnyValid(ts: seq<Trailer>) {
    exists i | 0 <= i < |ts| :: IsValid(ts[i])
  }

  method HasValidSignoff(body: string) returns (valid: bool)
    ensures valid <==> AnyValid(Trailers(Lines(body)))
  {
    hide Lines, Trailers, IsEmail;
    var signoffs := ExtractSignoffs(body);
    for i := 0 to |signoffs|
      invariant forall j | 0 <= j < i :: !IsValid(signoffs[j])
    {
      if |signoffs[i].name| > 0 && IsEmail(signoffs[i].email) {
        assert IsValid(signoffs[i]);
        return true;
      }
    }
    valid := false;
  }

  // ----- Verdicts -----

  datatype Verdict = Verdict(sha: string, ok: bool, reason: Option<string>)

  predicate IsMerge(c: Commit) {
    |c.parents| >= 2
  }

  function CheckCommit(c: Commit): Verdict {
    if IsMerge(c) then Verdict(c.sha, true, None)
    else
      var signoffs := Trailers(Lines(c.body));
      if |signoffs| == 0 then Verdict(c.sha, false, Some("no Signed-off-by trailer"))
      else if !AnyValid(signoffs) then
        var bad := signoffs[0];
        Verdict(c.sha, false, Some(
                  if |bad.name| == 0 then "empty name in sign-off"
                  else if !IsEmail(bad.email) then "malformed email in sign-off: <" + bad.email + ">"
                  else "malformed sign-off"))
      else Verdict(c.sha, true, None)
  }

  function CheckCommits(cs: seq<Commit>): (r: seq<Verdict>)
    ensures |r| == |cs|
  {
    Map(CheckCommit, cs)
  }

  /** A line that reads as a trailer with a non-blank name and an email-shaped address. */
  ghost predicate SignsOff(line: string) {
    exists r :: Reads(line, r) && Trim(r.name) != [] && IsEmail(Trim(r.email))
  }

  ghost predicate SignedOff(c: Commit) {
    exists k :: 0 <= k < |Lines(c.body)| && SignsOff(Lines(c.body)[k])
  }

  lemma LineMeaning(line: string)
    ensures MatchTrailer(line).Some? && IsValid(MatchTrailer(line).value) <==> SignsOff(line)
  {
    hide IsEmail, Trim, Reads, MatchTrailer;
    if MatchTrailer(line).Some? {
      var r := MatchedHasReading(line);
      ReadingsAgree(line, r);
    }
    if r :| Reads(line, r) && Trim(r.name) != [] && IsEmail(Trim(r.email)) {
      ReadingsAgree(line, r);
    }
  }

  lemma {:induction false} TrailersMeaning(lines: seq<string>)
    ensures AnyValid(Trailers(lines)) <==> exists k :: 0 <= k < |lines| && SignsOff(lines[k])
    decreases |lines|
  {
    hide MatchTrailer, SignsOff, IsValid;
    if lines != [] {
      var n := |lines| - 1;
      TrailersMeaning(lines[..n]);
      LineMeaning(lines[n]);
      AnyValidAppend(Trailers(lines[..n]), MatchTrailer(lines[n]));
      assert forall k | 0 <= k < n :: lines[..n][k] == lines[k];
    }
  }

  lemma AnyValidAppend(ts: seq<Trailer>, t: Option<Trailer>)
    ensures AnyValid(ts + match t case Some(x) => [x] case None => []) <==>
            AnyValid(ts) || (t.Some? && IsValid(t.value))
  {
    hide IsValid;
    var all := ts + match t case Some(x) => [x] case None => [];
    assert forall i | 0 <= i < |ts| :: all[i] == ts[i];
    if t.Some? {
      assert all[|ts|] == t.value;
    }
  }

  /**
   The verdicts stand in the order of the commits; a commit passes exactly when it is a merge or signed off; a
   failing one has one of three reasons, and the fallback "malformed sign-off" is never given.
   */
  lemma {:induction false} VerdictsAreRight(cs: seq<Commit>, i: nat)
    requires i < |cs|
    ensures var v := CheckCommits(cs)[i];
            && v.sha == cs[i].sha
            && (v.ok <==> |cs[i].parents| >= 2 || SignedOff(cs[i]))
            && (v.ok <==> v.reason.None?)
            && v.reason != Some("malformed sign-off")
  {
    TrailersMeaning(Lines(cs[i].body));
    FallbackUnreachable(cs[i]);
  }

  lemma {:induction false} FallbackUnreachable(c: Commit)
    ensures CheckCommit(c).reason != Some("malformed sign-off")
  {
    hide Lines, Trailers, IsEmail;
    var signoffs := Trailers(Lines(c.body));
    if signoffs != [] && !AnyValid(signoffs) {
      assert !IsValid(signoffs[0]);
    }
    assert "malformed sign-off"[10] == 's';
    assert forall e: string :: ("malformed email in sign-off: <" + e + ">")[10] == 'e';
    assert "no Signed-off-by trailer"[0] != 'm' && "empty name in sign-off"[0] != 'm';
    assert "malformed sign-off"[0] == 'm';
  }

  // ----- The trailers and the reasons, in words -----

  ghost predicate IsTrailer(line: string) {
    exists r :: Reads(line, r)
  }

  lemma {:induction false} TrailerMeaning(line: string)
    ensures MatchTrailer(line).Some? <==> IsTrailer(line)
  {
    hide MatchTrailer, Reads;
    if MatchTrailer(line).Some? {
      var r := MatchedHasReading(line);
    }
    if r :| Reads(line, r) {
      ReadingsAgree(line, r);
    }
  }

  /** The sign-offs are those of the lines that can be read as trailers, one for each, in order. */
  lemma {:induction false} TrailersInOrder(lines: seq<string>) returns (at: seq<nat>)
    ensures |at| == |Trailers(lines)|
    ensures forall i | 0 <= i < |at| :: at[i] < |lines| && MatchTrailer(lines[at[i]]) == Some(Trailers(lines)[i])
    ensures forall i, j | 0 <= i < j < |at| :: at[i] < at[j]
    ensures forall k: nat :: k in at <==> k < |lines| && IsTrailer(lines[k])
  {
    at := FilterMapPlaces(MatchTrailer, lines);
    hide MatchTrailer, IsTrailer, FilterMap;
    forall k: nat | k < |lines| ensures MatchTrailer(lines[k]).Some? <==> IsTrailer(lines[k]) {
      TrailerMeaning(lines[k]);
    }
  }

  /** A commit without any trailer is told so; otherwise the reason speaks of the first trailer. */
  lemma {:induction false} ReasonMeaning(c: Commit, k: nat, r: Reading)
    requires !CheckCommit(c).ok
    ensures (forall j | 0 <= j < |Lines(c.body)| :: !IsTrailer(Lines(c.body)[j])) ==>
              CheckCommit(c).reason == Some("no Signed-off-by trailer")
    ensures k < |Lines(c.body)| && Reads(Lines(c.body)[k], r) &&
            (forall j | 0 <= j < k :: !IsTrailer(Lines(c.body)[j])) ==>
              CheckCommit(c).reason ==
              Some(if Trim(r.name) == [] then "empty name in sign-off"
                   else "malformed email in sign-off: <" + Trim(r.email) + ">")
  {
    var lines := Lines(c.body);
    var at := TrailersInOrder(lines);
    hide Lines, Trailers, MatchTrailer, Reads, IsEmail, Trim;
    assert forall i | 0 <= i < |at| :: at[i] in at;
    if k < |lines| && Reads(lines[k], r) && forall j | 0 <= j < k :: !IsTrailer(lines[j]) {
      assert IsTrailer(lines[k]) && k in at;
      ReadingsAgree(lines[k], r);
      assert at[0] == k;
      FirstTrailerReason(c, Trailer(Trim(r.name), Trim(r.email)));
    }
  }

  lemma {:induction false} FirstTrailerReason(c: Commit, t: Trailer)
    requires !CheckCommit(c).ok && Trailers(Lines(c.body)) != [] && Trailers(Lines(c.body))[0] == t
    ensures CheckCommit(c).reason ==
            Some(if t.name == [] then "empty name in sign-off" else "malformed email in sign-off: <" + t.email + ">")
  {
    hide Lines, Trailers, IsEmail;
    assert !IsValid(t);
  }
}
