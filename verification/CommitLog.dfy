/** Reading the commit log of the DCO checker: records of sha NUL parents NUL body, each ended by RS and a newline. */
module CommitLog {
  import opened Text

  datatype Commit = Commit(sha: string, parents: seq<string>, body: string)

  const NUL := '\0'
  const RS := '\U{1e}'

  // ----- Printing, as `git log --format=%H%x00%P%x00%B%x1e` does -----

  function PrintCommit(c: Commit): string {
    c.sha + [NUL] + (Join(c.parents, ' ') + [NUL] + c.body)
  }

  function PrintLog(cs: seq<Commit>): string {
    if cs == [] then [] else PrintCommit(cs[0]) + [RS] + ("\n" + PrintLog(cs[1..]))
  }

  // ----- Parsing -----

  /** `s.split(/\s+/)` for a text that does not begin or end with white space. */
  function SplitSpaces(s: string): seq<string>
    decreases |s|
  {
    var w := WordLen(s);
    if w == |s| then [s]
    else
      [s[..w]] + SplitSpaces(TrimStart(s[w + 1..]))
  }

  function WordLen(s: string): (n: nat)
    ensures n <= |s|
    ensures forall i | 0 <= i < n :: !IsSpace(s[i])
    ensures n < |s| ==> IsSpace(s[n])
  {
    if s == [] || IsSpace(s[0]) then 0 else 1 + WordLen(s[1..])
  }

  /** `p.trim() ? p.trim().split(/\s+/) : []` */
  function ParseParents(p: string): seq<string> {
    if Trim(p) == [] then [] else SplitSpaces(Trim(p))
  }

  /** One chunk between separators: skipped, a record, or a TypeError because it has no NUL. */
  datatype Chunk = Skipped | Record(commit: Commit) | TypeError

  function ParseChunk(chunk: string): Chunk {
    var t := TrimStart(chunk);
    if t == [] then Skipped
    else
      var parts := Split(t, NUL);
      if parts[0] == [] then Skipped
      else if |parts| == 1 then TypeError
      else Record(Commit(Trim(parts[0]), ParseParents(parts[1]), Join(parts[2..], NUL)))
  }

  /** The records collected so far and then those of the chunks, in order; `None` when the loop throws. */
  function ParseChunks(chunks: seq<string>, records: seq<Commit>): Option<seq<Commit>>
    decreases |chunks|
  {
    if chunks == [] then Some(records)
    else
      match ParseChunk(chunks[0])
      case Skipped => ParseChunks(chunks[1..], records)
      case Record(c) => ParseChunks(chunks[1..], records + [c])
      case TypeError => None
  }

  function ParseLog(out: string): Option<seq<Commit>> {
    ParseChunks(Split(out, RS), [])
  }

  method GitCommits(out: string) returns (r: Option<seq<Commit>>)
    ensures r == ParseLog(out)
  {
    hide ParseChunk, Split;
    var chunks := Split(out, RS);
    var records: seq<Commit> := [];
    for i := 0 to |chunks|
      invariant ParseLog(out) == ParseChunks(chunks[i..], records)
    {
      assert chunks[i..][1..] == chunks[i + 1..];
      match ParseChunk(chunks[i])
      case Skipped =>
      case Record(c) => records := records + [c];
      case TypeError => return None;
    }
    r := Some(records);
  }

  // ----- The round trip -----

  predicate Plain(s: string) {
    s != [] && (forall i | 0 <= i < |s| :: !IsSpace(s[i])) && NUL !in s && RS !in s
  }

  /** What git guarantees of its hashes. */
  ghost predicate GitHashes(c: Commit) {
    Plain(c.sha) && forall i | 0 <= i < |c.parents| :: Plain(c.parents[i])
  }

  /** The record separator does not occur in the body. */
  ghost predicate Printable(c: Commit) {
    GitHashes(c) && RS !in c.body
  }

  lemma {:induction false} WordLenIs(w: string, rest: string)
    requires forall i | 0 <= i < |w| :: !IsSpace(w[i])
    requires rest == [] || IsSpace(rest[0])
    ensures WordLen(w + rest) == |w|
  {
    if w == [] {
      assert w + rest == rest;
    } else {
      assert (w + rest)[1..] == w[1..] + rest;
      WordLenIs(w[1..], rest);
    }
  }

  /** A joined list of words has no white space at its ends and splits into the words again. */
  lemma {:induction false} JoinedWords(ws: seq<string>)
    requires ws != [] && forall i | 0 <= i < |ws| :: Plain(ws[i])
    ensures var s := Join(ws, ' '); s != [] && !IsSpace(s[0]) && !IsSpace(s[|s| - 1]) && SplitSpaces(s) == ws
  {
    hide IsSpace;
    var w := ws[0];
    if |ws| == 1 {
      WordLenIs(w, []);
      assert w + [] == w;
    } else {
      var rest := Join(ws[1..], ' ');
      assert Join(ws, ' ') == w + [' '] + rest;
      JoinedWords(ws[1..]);
      FirstWord(w, rest);
      Ends(w, rest);
      hide Join, SplitSpaces;
      assert ws == [w] + ws[1..];
    }
  }

  lemma Ends(w: string, rest: string)
    requires w != [] && rest != []
    ensures var s := w + [' '] + rest; s[0] == w[0] && s[|s| - 1] == rest[|rest| - 1]
  {
  }

  lemma {:induction false} JoinLacks(ws: seq<string>, c: char)
    requires c != ' ' && forall i | 0 <= i < |ws| :: c !in ws[i]
    ensures c !in Join(ws, ' ')
  {
    if |ws| > 1 {
      JoinLacks(ws[1..], c);
    }
  }

  lemma FirstWord(w: string, rest: string)
    requires Plain(w) && rest != [] && !IsSpace(rest[0])
    ensures SplitSpaces(w + [' '] + rest) == [w] + SplitSpaces(rest)
  {
    var s := w + [' '] + rest;
    WordLenIs(w, [' '] + rest);
    assert s == w + ([' '] + rest);
    assert s[|w| + 1..] == rest && s[..|w|] == w;
    TrimStartIs([], rest);
    assert [] + rest == rest;
  }

  lemma ParentsRoundTrip(ps: seq<string>)
    requires forall i | 0 <= i < |ps| :: Plain(ps[i])
    ensures ParseParents(Join(ps, ' ')) == ps
    ensures NUL !in Join(ps, ' ') && RS !in Join(ps, ' ')
  {
    hide IsSpace, Join, Trim, SplitSpaces;
    var s := Join(ps, ' ');
    JoinLacks(ps, NUL);
    JoinLacks(ps, RS);
    assert [] + s + [] == s;
    if ps == [] {
      JoinNone();
      TrimIs([], [], []);
    } else {
      JoinedWords(ps);
      TrimIs([], s, []);
    }
  }

  lemma JoinNone()
    ensures Join([], ' ') == []
  {
  }

  lemma ChunkRoundTrip(pre: string, c: Commit)
    requires AllSpace(pre) && Printable(c)
    ensures ParseChunk(pre + PrintCommit(c)) == Record(c)
  {
    hide IsSpace, Split, Join, Trim, TrimStart, ParseParents, AllSpace;
    var text, parents := PrintCommit(c), Join(c.parents, ' ');
    assert text[0] == c.sha[0];
    TrimStartIs(pre, text);
    ParentsRoundTrip(c.parents);
    PartsOf(c.sha, parents, c.body);
    var parts := Split(text, NUL);
    assert parts[0] == c.sha && parts[1] == parents && parts[2..] == Split(c.body, NUL);
    TrimPlain(c.sha);
  }

  lemma TrimPlain(s: string)
    requires Plain(s)
    ensures Trim(s) == s
  {
    TrimIs([], s, []);
    assert [] + s + [] == s;
  }

  lemma PartsOf(sha: string, parents: string, body: string)
    requires NUL !in sha && NUL !in parents
    ensures Split(sha + [NUL] + (parents + [NUL] + body), NUL) == [sha] + ([parents] + Split(body, NUL))
    ensures Join(Split(body, NUL), NUL) == body
  {
    SplitCons(sha, NUL, parents + [NUL] + body);
    SplitCons(parents, NUL, body);
    JoinSplit(body, NUL);
  }

  lemma PrintedHasNoSeparator(pre: string, c: Commit)
    requires AllSpace(pre) && Printable(c)
    ensures RS !in pre + PrintCommit(c)
  {
    assert !IsSpace(RS);
    hide IsSpace, Join;
    ParentsRoundTrip(c.parents);
    assert RS !in c.sha + [NUL];
    assert RS !in Join(c.parents, ' ') + [NUL] + c.body;
  }

  lemma {:induction false} ParsePrinted(pre: string, cs: seq<Commit>, records: seq<Commit>)
    requires AllSpace(pre)
    requires forall i | 0 <= i < |cs| :: Printable(cs[i])
    ensures ParseChunks(Split(pre + PrintLog(cs), RS), records) == Some(records + cs)
    decreases |cs|
  {
    hide Split, ParseChunks, PrintCommit, Printable;
    if cs == [] {
      NothingPrinted(pre, records);
      assert records + cs == records;
    } else {
      var c, rest := cs[0], cs[1..];
      assert AllSpace("\n");
      ParsePrinted("\n", rest, records + [c]);
      ParseFirst(pre, c, "\n" + PrintLog(rest), records);
      assert pre + PrintLog(cs) == pre + (PrintCommit(c) + [RS] + ("\n" + PrintLog(rest)));
      assert records + [c] + rest == records + cs;
    }
  }

  lemma NothingPrinted(pre: string, records: seq<Commit>)
    requires AllSpace(pre)
    ensures ParseChunks(Split(pre + PrintLog([]), RS), records) == Some(records)
  {
    assert pre + [] == pre;
    assert Split(pre, RS) == [pre];
    TrimStartIs(pre, []);
  }

  lemma ParseFirst(pre: string, c: Commit, tail: string, records: seq<Commit>)
    requires AllSpace(pre) && Printable(c)
    ensures ParseChunks(Split(pre + (PrintCommit(c) + [RS] + tail), RS), records) ==
            ParseChunks(Split(tail, RS), records + [c])
  {
    hide AllSpace, Printable, Split, ParseChunk, PrintCommit;
    var head := pre + PrintCommit(c);
    PrintedHasNoSeparator(pre, c);
    ChunkRoundTrip(pre, c);
    SplitCons(head, RS, tail);
    SeparatorInside(pre, PrintCommit(c), tail);
    assert [Split(head + [RS] + tail, RS)[0]] + Split(tail, RS) == Split(head + [RS] + tail, RS);
  }

  lemma SeparatorInside(pre: string, text: string, tail: string)
    ensures pre + (text + [RS] + tail) == pre + text + [RS] + tail
  {
  }

  // ----- White space between parents, and chunks that are no records -----

  lemma {:induction false} WordAndSpace(w: string, sep: string, rest: string)
    requires Plain(w) && sep != [] && AllSpace(sep) && rest != [] && !IsSpace(rest[0])
    ensures SplitSpaces(w + sep + rest) == [w] + SplitSpaces(rest)
  {
    assert IsSpace(sep[0]) && AllSpace(sep[1..]);
    hide IsSpace, AllSpace;
    WordLenIs(w, sep + rest);
    TrimStartIs(sep[1..], rest);
    hide WordLen, TrimStart, Plain;
    AfterWord(w, sep, rest);
  }

  lemma AfterWord(w: string, sep: string, rest: string)
    requires sep != []
    ensures var s := w + sep + rest; s == w + (sep + rest) && s[..|w|] == w && s[|w| + 1..] == sep[1..] + rest
  {
  }

  /** Words of which a splitter must give back exactly these. */
  ghost predicate SplitsInto(s: string, ws: seq<string>) {
    s != [] && !IsSpace(s[0]) && !IsSpace(s[|s| - 1]) && SplitSpaces(s) == ws
  }

  lemma {:induction false} OneMoreWord(w: string, sep: string, rest: string, ws: seq<string>)
    requires Plain(w) && sep != [] && AllSpace(sep) && SplitsInto(rest, ws)
    ensures SplitsInto(w + sep + rest, [w] + ws)
  {
    WordAndSpace(w, sep, rest);
    EndsOfThree(w, sep, rest);
    assert w != [] && !IsSpace(w[0]);
    hide IsSpace, AllSpace, SplitSpaces;
  }

  lemma {:induction false} SpacedWords(ws: seq<string>, seps: seq<string>)
    requires |ws| == |seps| + 1 && forall i | 0 <= i < |ws| :: Plain(ws[i])
    requires forall i | 0 <= i < |seps| :: seps[i] != [] && AllSpace(seps[i])
    ensures SplitsInto(Interleave(ws, seps), ws)
    decreases |ws|
  {
    hide Plain, AllSpace, SplitsInto;
    if seps == [] {
      LastWord(ws[0]);
      assert ws == [ws[0]];
    } else {
      SpacedWords(ws[1..], seps[1..]);
      OneMoreWord(ws[0], seps[0], Interleave(ws[1..], seps[1..]), ws[1..]);
      assert ws == [ws[0]] + ws[1..];
    }
  }

  lemma LastWord(w: string)
    requires Plain(w)
    ensures SplitsInto(w, [w])
  {
    hide IsSpace;
    WordLenIs(w, []);
    assert w + [] == w;
  }

  lemma EndsOfThree(w: string, sep: string, rest: string)
    requires w != [] && rest != []
    ensures var s := w + sep + rest; s != [] && s[0] == w[0] && s[|s| - 1] == rest[|rest| - 1]
  {
  }

  lemma {:induction false} SplitsTrimmed(pre: string, s: string, post: string, ws: seq<string>)
    requires SplitsInto(s, ws) && AllSpace(pre) && AllSpace(post)
    ensures ParseParents(pre + s + post) == ws
  {
    hide IsSpace, AllSpace, SplitSpaces, Trim;
    TrimIs(pre, s, post);
  }

  /** The parents are the words of their field, whatever white space stands between and around them. */
  lemma {:induction false} ParentsAnySpacing(pre: string, ws: seq<string>, seps: seq<string>, post: string)
    requires |ws| == |seps| + 1 && forall i | 0 <= i < |ws| :: Plain(ws[i])
    requires forall i | 0 <= i < |seps| :: seps[i] != [] && AllSpace(seps[i])
    requires AllSpace(pre) && AllSpace(post)
    ensures ParseParents(pre + Interleave(ws, seps) + post) == ws
  {
    SpacedWords(ws, seps);
    SplitsTrimmed(pre, Interleave(ws, seps), post, ws);
    hide *;
  }

  lemma {:induction false} HashTrimmed(sha: string, space: string)
    requires Plain(sha) && AllSpace(space)
    ensures Trim(sha + space) == sha && NUL !in sha + space && sha + space != [] && !IsSpace((sha + space)[0])
  {
    NoNulInSpace(space);
    hide IsSpace, AllSpace, Trim;
    NothingIsBlank();
    TrimIs([], sha, space);
    assert [] + sha + space == sha + space;
  }

  lemma NothingIsBlank()
    ensures AllSpace([])
  {
  }

  lemma {:induction false} PartsRead(chunk: string, ps: seq<string>)
    requires TrimStart(chunk) != [] && Split(TrimStart(chunk), NUL) == ps && |ps| >= 2 && ps[0] != []
    ensures ParseChunk(chunk) == Record(Commit(Trim(ps[0]), ParseParents(ps[1]), Join(ps[2..], NUL)))
  {
    hide Split, Join, Trim, TrimStart, ParseParents;
  }

  lemma ThreeParts(a: string, b: string, rest: seq<string>)
    ensures var ps := [a] + ([b] + rest); |ps| >= 2 && ps[0] == a && ps[1] == b && ps[2..] == rest
  {
  }

  lemma {:induction false} FieldsRead(pre: string, sha: string, parents: string, body: string)
    requires AllSpace(pre) && sha != [] && !IsSpace(sha[0]) && NUL !in sha && NUL !in parents
    ensures ParseChunk(pre + (sha + [NUL] + (parents + [NUL] + body))) ==
            Record(Commit(Trim(sha), ParseParents(parents), body))
  {
    var text := sha + [NUL] + (parents + [NUL] + body);
    assert text[0] == sha[0];
    hide IsSpace, Split, Join, Trim, TrimStart, ParseParents, AllSpace, ParseChunk;
    TrimStartIs(pre, text);
    PartsOf(sha, parents, body);
    ThreeParts(sha, parents, Split(body, NUL));
    PartsRead(pre + text, [sha] + ([parents] + Split(body, NUL)));
  }

  /** A record: the hash and the parents without the white space around them, and all behind the second NUL. */
  lemma {:induction false} RecordMeaning(pre: string, sha: string, space: string, parents: string, body: string)
    requires Plain(sha) && AllSpace(pre) && AllSpace(space) && NUL !in parents
    ensures ParseChunk(pre + (sha + space + [NUL] + (parents + [NUL] + body))) ==
            Record(Commit(sha, ParseParents(parents), body))
  {
    HashTrimmed(sha, space);
    FieldsRead(pre, sha + space, parents, body);
    hide *;
  }

  /** The text holds something, but no NUL. */
  ghost predicate HasNoFields(chunk: string) {
    !AllSpace(chunk) && NUL !in chunk
  }

  lemma NoNulInSpace(s: string)
    requires AllSpace(s)
    ensures NUL !in s
  {
    assert !IsSpace(NUL);
    hide IsSpace;
  }

  lemma CutOff(s: string, t: string)
    requires |t| <= |s| && t == s[|s| - |t|..]
    ensures s == s[..|s| - |t|] + t
  {
  }

  lemma {:induction false} TrimmedOff(chunk: string) returns (pre: string)
    ensures chunk == pre + TrimStart(chunk) && AllSpace(pre) && NUL !in pre
    ensures AllSpace(chunk) <==> TrimStart(chunk) == []
    ensures NUL in chunk <==> NUL in TrimStart(chunk)
  {
    hide IsSpace;
    var t := TrimStart(chunk);
    pre := chunk[..|chunk| - |t|];
    CutOff(chunk, t);
    NoNulInSpace(pre);
    SpaceAround(pre, t);
    hide *;
  }

  lemma SpaceAround(pre: string, t: string)
    requires AllSpace(pre) && (t != [] ==> !IsSpace(t[0]))
    ensures AllSpace(pre + t) <==> t == []
  {
    hide IsSpace;
    if t != [] {
      assert (pre + t)[|pre|] == t[0];
    } else {
      assert pre + t == pre;
    }
  }

  lemma {:induction false} OnePart(t: string)
    ensures |Split(t, NUL)| == 1 <==> NUL !in t
  {
    JoinSplit(t, NUL);
    if |Split(t, NUL)| == 1 {
      assert Split(t, NUL)[0] in Split(t, NUL);
    }
  }

  lemma {:induction false} ChunkThrows(chunk: string)
    ensures ParseChunk(chunk).TypeError? <==> HasNoFields(chunk)
  {
    var t := TrimStart(chunk);
    var pre := TrimmedOff(chunk);
    OnePart(t);
    hide TrimStart, AllSpace, Split, ParseParents, Join, Trim;
    if t != [] {
      FirstPartEmpty(t);
    }
  }

  lemma {:induction false} ParseThrows(chunks: seq<string>, records: seq<Commit>)
    ensures ParseChunks(chunks, records).None? <==> exists i :: 0 <= i < |chunks| && HasNoFields(chunks[i])
    decreases |chunks|
  {
    hide ParseChunk, HasNoFields;
    if chunks != [] {
      var rest := chunks[1..];
      ChunkThrows(chunks[0]);
      assert forall i | 0 <= i < |rest| :: rest[i] == chunks[i + 1];
      assert forall i | 1 <= i < |chunks| :: chunks[i] == rest[i - 1];
      match ParseChunk(chunks[0])
      case Skipped => ParseThrows(rest, records);
      case Record(c) => ParseThrows(rest, records + [c]);
      case TypeError =>
    }
  }

  /** Parsing throws if and only if some chunk is neither blank nor divided by a NUL. */
  lemma {:induction false} LogThrows(out: string)
    ensures ParseLog(out).None? <==> exists i :: 0 <= i < |Split(out, RS)| && HasNoFields(Split(out, RS)[i])
  {
    ParseThrows(Split(out, RS), []);
    assert ParseLog(out) == ParseChunks(Split(out, RS), []);
    hide *;
  }

  /** A chunk is passed over if and only if it is blank or its hash is missing. */
  lemma {:induction false} ChunkSkipped(chunk: string)
    ensures ParseChunk(chunk).Skipped? <==> AllSpace(chunk) || HashMissing(chunk)
  {
    var t := TrimStart(chunk);
    var pre := TrimmedOff(chunk);
    HashMissingTrimmed(chunk);
    hide TrimStart, AllSpace, Split, ParseParents, Join, Trim, HashMissing;
    if t != [] {
      FirstPartEmpty(t);
    }
  }

  lemma {:induction false} HashMissingTrimmed(chunk: string)
    ensures HashMissing(chunk) <==> TrimStart(chunk) != [] && TrimStart(chunk)[0] == NUL
  {
    var t := TrimStart(chunk);
    var pre := TrimmedOff(chunk);
    hide TrimStart, AllSpace;
    if HashMissing(chunk) {
      MissingTrimmed(chunk);
    }
    if t != [] && t[0] == NUL {
      assert chunk == pre + [NUL] + t[1..];
    }
  }

  /** The first character that is no white space is the NUL behind the hash. */
  ghost predicate HashMissing(chunk: string) {
    exists pre, rest :: AllSpace(pre) && chunk == pre + [NUL] + rest
  }

  lemma {:induction false} MissingIs(pre: string, rest: string)
    requires AllSpace(pre)
    ensures TrimStart(pre + [NUL] + rest) == [NUL] + rest
  {
    assert !IsSpace(NUL);
    hide IsSpace, AllSpace, TrimStart;
    TrimStartIs(pre, [NUL] + rest);
    assert pre + [NUL] + rest == pre + ([NUL] + rest);
  }

  lemma {:induction false} MissingTrimmed(chunk: string)
    requires HashMissing(chunk)
    ensures TrimStart(chunk) != [] && TrimStart(chunk)[0] == NUL
  {
    hide AllSpace, TrimStart;
    var pre, rest :| AllSpace(pre) && chunk == pre + [NUL] + rest;
    MissingIs(pre, rest);
    assert ([NUL] + rest)[0] == NUL;
  }

  lemma FirstPartEmpty(t: string)
    requires t != []
    ensures Split(t, NUL)[0] == [] <==> t[0] == NUL
  {
    if NUL in t {
      var k := FirstIndex(t, NUL);
      assert Split(t, NUL)[0] == t[..k];
    }
  }

  // ----- Bodies with the record separator -----

  /** Later chunks never change the records collected before. */
  lemma {:induction false} ParseExtends(chunks: seq<string>, records: seq<Commit>)
    ensures var r := ParseChunks(chunks, records); r.Some? ==> records <= r.value
    decreases |chunks|
  {
    hide ParseChunk;
    if chunks != [] {
      match ParseChunk(chunks[0])
      case Skipped => ParseExtends(chunks[1..], records);
      case Record(c) => ParseExtends(chunks[1..], records + [c]);
      case TypeError =>
    }
  }

  /** The commit as far as the parser sees it: up to the first separator in its body. */
  function Shortened(c: Commit): Commit
    requires RS in c.body
  {
    c.(body := c.body[..FirstIndex(c.body, RS)])
  }

  lemma {:induction false} ShortenedText(c: Commit, rest: string)
    requires RS in c.body && GitHashes(c)
    ensures Printable(Shortened(c)) && Shortened(c) != c
    ensures PrintCommit(c) + [RS] + rest ==
            PrintCommit(Shortened(c)) + [RS] + (c.body[FirstIndex(c.body, RS) + 1..] + [RS] + rest)
  {
    hide Join, Plain;
    var k := FirstIndex(c.body, RS);
    assert |Shortened(c).body| < |c.body|;
    assert c.body == c.body[..k] + [RS] + c.body[k + 1..];
  }

  lemma {:induction false} BrokenFirst(pre: string, cs: seq<Commit>, records: seq<Commit>)
    requires AllSpace(pre) && cs != [] && GitHashes(cs[0]) && RS in cs[0].body
    ensures ParseChunks(Split(pre + PrintLog(cs), RS), records) != Some(records + cs)
  {
    var c, rest := cs[0], "\n" + PrintLog(cs[1..]);
    var tail := c.body[FirstIndex(c.body, RS) + 1..] + [RS] + rest;
    ShortenedText(c, rest);
    assert PrintLog(cs) == PrintCommit(Shortened(c)) + [RS] + tail;
    hide AllSpace, Split, ParseChunks, PrintCommit, PrintLog, Printable, Shortened;
    ParseFirst(pre, Shortened(c), tail, records);
    ParseExtends(Split(tail, RS), records + [Shortened(c)]);
    assert (records + cs)[|records|] == c;
    assert (records + [Shortened(c)])[|records|] == Shortened(c);
  }

  lemma {:induction false} ParseBroken(pre: string, cs: seq<Commit>, records: seq<Commit>)
    requires AllSpace(pre)
    requires forall i | 0 <= i < |cs| :: GitHashes(cs[i])
    requires exists i :: 0 <= i < |cs| && RS in cs[i].body
    ensures ParseChunks(Split(pre + PrintLog(cs), RS), records) != Some(records + cs)
    decreases |cs|
  {
    var c, rest := cs[0], cs[1..];
    if RS in c.body {
      BrokenFirst(pre, cs, records);
    } else {
      assert pre + PrintLog(cs) == pre + (PrintCommit(c) + [RS] + ("\n" + PrintLog(rest)));
      assert AllSpace("\n");
      hide Split, ParseChunks, PrintCommit, PrintLog, GitHashes, AllSpace;
      var i :| 0 <= i < |cs| && RS in cs[i].body;
      assert rest[i - 1] == cs[i];
      ParseBroken("\n", rest, records + [c]);
      ParseFirst(pre, c, "\n" + PrintLog(rest), records);
      assert records + [c] + rest == records + cs;
    }
  }

  /**
   Printing commits and parsing the log gives the same commits back if and only if no body holds the record
   separator; bodies may contain NUL.
   */
  lemma {:induction false} LogRoundTrip(cs: seq<Commit>)
    requires forall i | 0 <= i < |cs| :: GitHashes(cs[i])
    ensures ParseLog(PrintLog(cs)) == Some(cs) <==> forall i | 0 <= i < |cs| :: RS !in cs[i].body
  {
    hide Split, ParseChunks, PrintLog, GitHashes;
    assert [] + PrintLog(cs) == PrintLog(cs);
    assert [] + cs == cs;
    assert AllSpace([]);
    if forall i | 0 <= i < |cs| :: RS !in cs[i].body {
      ParsePrinted([], cs, []);
    } else {
      ParseBroken([], cs, []);
    }
  }
}
