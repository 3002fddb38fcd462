// The audit log of audit.c on bytes: a day file is a chain of signed lines, and the tail scan
// finds again where the chain stands.
module AuditChain {
  import opened Bytes

  const NEWLINE: byte := 10
  const TAIL_SCAN: int := 65536
  /** A record with its newline: two of them fit the tail scan. */
  const MAX_LINE: int := 32768
  const SIG_LEN: int := 64
  const MAX_SEQ: int := 0x20_0000_0000_0000
  const ASCII_ZERO: byte := 48
  /** The link of a first record: 64 zero digits. */
  const GENESIS: bytes := Zeros(SIG_LEN)

  function Zeros(n: nat): (s: bytes)
    ensures |s| == n && forall i :: 0 <= i < n ==> s[i] == ASCII_ZERO
  {
    if n == 0 then [] else Zeros(n - 1) + [ASCII_ZERO]
  }

  datatype Entry = Entry(user: nat, contentRef: string, verdict: string, reason: string, duration: nat)

  /** The signed part of a record. */
  datatype Body = Body(entry: Entry, ts: string, date: string, prev: bytes, seqNo: nat)

  /** The JSON printer and parser and the keyed signature: `canonical` is what is signed, `line`
      the printed record with its signature, `parse` reads the number and signature of a line. */
  datatype Codec = Codec(
    canonical: Body -> bytes,
    sign: bytes -> bytes,
    line: (Body, bytes) -> bytes,
    parse: bytes -> Option<(int, bytes)>)

  ghost predicate IsSig(s: bytes) {
    |s| == SIG_LEN && NEWLINE !in s
  }

  ghost predicate LawsAt(k: Codec, b: Body, sig: bytes) {
    && IsSig(k.sign(k.canonical(b)))
    && (IsSig(sig) ==>
          && k.line(b, sig) != [] && NEWLINE !in k.line(b, sig)
          && (b.seqNo < MAX_SEQ ==> k.parse(k.line(b, sig)) == Some((b.seqNo as int, sig))))
  }

  ghost predicate Lawful(k: Codec) {
    forall b, sig :: LawsAt(k, b, sig)
  }

  lemma LawfulCodecExists()
    ensures exists k :: Lawful(k)
  {
    var k := Codec(
      (b: Body) => [],
      (x: bytes) => GENESIS,
      (b: Body, sig: bytes) => sig + Zeros(b.seqNo),
      (x: bytes) => if |x| < SIG_LEN then None else Some((|x| - SIG_LEN, x[..SIG_LEN])));
    forall b, sig ensures LawsAt(k, b, sig) {
      assert (sig + Zeros(b.seqNo))[..|sig|] == sig;
    }
    assert Lawful(k);
  }

  function Sig(k: Codec, b: Body): bytes { k.sign(k.canonical(b)) }

  function Record(k: Codec, b: Body): bytes { k.line(b, Sig(k, b)) + [NEWLINE] }

  // ---------------------------------------------------------------------------
  // Day files

  function LastSig(k: Codec, bodies: seq<Body>): bytes {
    if bodies == [] then GENESIS else Sig(k, bodies[|bodies| - 1])
  }

  /** Numbered from zero, all of one day, each linked to the one before. */
  ghost predicate Chain(k: Codec, date: string, bodies: seq<Body>) {
    forall i :: 0 <= i < |bodies| ==> Linked(k, date, bodies, i)
  }

  ghost predicate Linked(k: Codec, date: string, bodies: seq<Body>, i: nat)
    requires i < |bodies|
  {
    && bodies[i].seqNo == i < MAX_SEQ && bodies[i].date == date
    && bodies[i].prev == LastSig(k, bodies[..i])
    && |Record(k, bodies[i])| <= MAX_LINE
  }

  function Lines(k: Codec, bodies: seq<Body>): bytes {
    if bodies == [] then [] else Lines(k, bodies[..|bodies| - 1]) + Record(k, bodies[|bodies| - 1])
  }

  /** What a crash or a short write may leave behind the last complete line. */
  ghost predicate Torn(t: bytes) {
    NEWLINE !in t && |t| < MAX_LINE
  }

  ghost predicate IsDayFile(k: Codec, date: string, content: bytes, bodies: seq<Body>, torn: bytes) {
    Chain(k, date, bodies) && Torn(torn) && content == Lines(k, bodies) + torn
  }

  ghost predicate DayFile(k: Codec, date: string, content: bytes) {
    exists bodies, torn :: IsDayFile(k, date, content, bodies, torn)
  }

  // ---------------------------------------------------------------------------
  // The tail scan (audit_reseed_from_tail)

  /** The last position of the newline, or -1. */
  function LastNewline(s: bytes): (i: int)
    ensures -1 <= i < |s|
  {
    if s == [] then -1
    else if s[|s| - 1] == NEWLINE then |s| - 1
    else LastNewline(s[..|s| - 1])
  }

  lemma {:induction false} LastNewlineIs(s: bytes)
    ensures var i := LastNewline(s);
      (i >= 0 ==> s[i] == NEWLINE) && forall j :: i < j < |s| ==> s[j] != NEWLINE
  {
    if s != [] && s[|s| - 1] != NEWLINE {
      LastNewlineIs(s[..|s| - 1]);
    }
  }

  datatype Tail = Tail(content: bytes, seqNo: nat, prev: bytes)

  /** The state the last complete line of `buf`, which ends at `last`, stands for. */
  function FromLine(k: Codec, content: bytes, line: bytes): Tail {
    if line == [] then Tail(content, 0, GENESIS)
    else
      match k.parse(line)
      case None => Tail(content, 0, GENESIS)
      case Some((n, sig)) =>
        if |sig| != SIG_LEN then Tail(content, 0, GENESIS)
        else Tail(content, if n < 0 then 0 else n + 1, sig)
  }

  /** The tail scan reads at most the last 64 KiB. */
  function ScanStart(content: bytes): (start: nat)
    ensures start <= |content|
  {
    if |content| > TAIL_SCAN then |content| - TAIL_SCAN else 0
  }

  /** The line that ends at `last`, as far as the buffer shows it. */
  function LineBefore(buf: bytes, last: nat): bytes
    requires last <= |buf|
  {
    buf[LastNewline(buf[..last]) + 1..last]
  }

  function ReseedFrom(k: Codec, content: bytes, start: nat, buf: bytes): Tail
    requires start <= |content| && buf == content[start..]
  {
    if LastNewline(buf) < 0 then Tail(if start == 0 then [] else content, 0, GENESIS)
    else FromLine(k, content[..start + LastNewline(buf) + 1], LineBefore(buf, LastNewline(buf)))
  }

  /** What is left of the file, and the next number and link. */
  function Reseed(k: Codec, content: bytes): Tail {
    if content == [] then Tail(content, 0, GENESIS)
    else ReseedFrom(k, content, ScanStart(content), content[ScanStart(content)..])
  }

  lemma LastNewlineAt(s: bytes, i: nat)
    requires i < |s| && s[i] == NEWLINE && NEWLINE !in s[i + 1..]
    ensures LastNewline(s) == i
  {
    LastNewlineIs(s);
    assert forall j :: i < j < |s| ==> s[j] == s[i + 1..][j - i - 1];
  }

  lemma {:induction false} LinesEnd(k: Codec, bodies: seq<Body>)
    ensures var s := Lines(k, bodies); s == [] || s[|s| - 1] == NEWLINE
  {
  }

  lemma NoNewline(s: bytes)
    requires NEWLINE !in s
    ensures LastNewline(s) == -1
  {
    LastNewlineIs(s);
  }

  /** A buffer that ends in `front` (empty or newline-ended), a line, a newline and a torn tail. */
  lemma ScanBuffer(front: bytes, line: bytes, torn: bytes)
    requires NEWLINE !in line && NEWLINE !in torn
    requires front == [] || front[|front| - 1] == NEWLINE
    ensures var buf := front + line + [NEWLINE] + torn;
      var last := LastNewline(buf);
      && last == |front| + |line|
      && LineBefore(buf, last) == line
  {
    var buf := front + line + [NEWLINE] + torn;
    var at := |front| + |line|;
    assert buf[at + 1..] == torn;
    LastNewlineAt(buf, at);
    assert buf[..at] == front + line;
    if front == [] {
      assert front + line == line;
      NoNewline(line);
    } else {
      assert (front + line)[|front|..] == line;
      LastNewlineAt(front + line, |front| - 1);
    }
    assert buf[|front|..at] == line;
  }

  /** The scan of a whole file of that form: the window starts early enough to show the line. */
  lemma ScanFile(k: Codec, front: bytes, line: bytes, torn: bytes)
    requires NEWLINE !in line && NEWLINE !in torn && |line| + 1 + |torn| <= TAIL_SCAN
    requires front == [] || front[|front| - 1] == NEWLINE
    ensures Reseed(k, front + line + [NEWLINE] + torn) == FromLine(k, front + line + [NEWLINE], line)
  {
    hide LastNewline, LineBefore, FromLine;
    var content := front + line + [NEWLINE] + torn;
    var start := ScanStart(content);
    var shown := front[start..];
    assert shown == [] || shown[|shown| - 1] == front[|front| - 1];
    var buf := content[start..];
    assert buf == shown + line + [NEWLINE] + torn;
    ScanBuffer(shown, line, torn);
    assert content[..start + (|shown| + |line|) + 1] == front + line + [NEWLINE];
  }

  /** Recovery.  On a day file, however it was cut off, the scan drops exactly the torn tail and
      finds exactly where the chain stands. */
  lemma ReseedRecovers(k: Codec, date: string, content: bytes, bodies: seq<Body>, torn: bytes)
    requires Lawful(k) && IsDayFile(k, date, content, bodies, torn)
    ensures Reseed(k, content) == Tail(Lines(k, bodies), |bodies|, LastSig(k, bodies))
  {
    if bodies == [] {
      assert content == torn;
      NoNewline(torn);
      assert content[0..] == content;
    } else {
      hide Reseed, LastNewline;
      var n := |bodies| - 1;
      var front, b := Lines(k, bodies[..n]), bodies[n];
      var line := k.line(b, Sig(k, b));
      assert Linked(k, date, bodies, n);
      assert LawsAt(k, b, Sig(k, b));
      LinesEnd(k, bodies[..n]);
      assert Lines(k, bodies) == front + line + [NEWLINE];
      ScanFile(k, front, line, torn);
    }
  }

  /** A new record of the right number and link extends the chain. */
  lemma ChainGrows(k: Codec, date: string, bodies: seq<Body>, b: Body)
    requires Chain(k, date, bodies) && b.date == date && b.seqNo == |bodies| < MAX_SEQ
    requires b.prev == LastSig(k, bodies) && |Record(k, b)| <= MAX_LINE
    ensures Chain(k, date, bodies + [b])
    ensures Lines(k, bodies + [b]) == Lines(k, bodies) + Record(k, b)
    ensures LastSig(k, bodies + [b]) == Sig(k, b)
  {
    var more := bodies + [b];
    assert more[..|bodies|] == bodies;
    forall i | 0 <= i < |more| ensures Linked(k, date, more, i) {
      if i < |bodies| {
        assert Linked(k, date, bodies, i);
        assert more[..i] == bodies[..i];
      }
    }
  }

  /** The complete lines of a file. */
  function Complete(content: bytes): bytes { content[..LastNewline(content) + 1] }

  lemma CompletePart(k: Codec, date: string, content: bytes, bodies: seq<Body>, torn: bytes)
    requires IsDayFile(k, date, content, bodies, torn)
    ensures Complete(content) == Lines(k, bodies)
  {
    var s := Lines(k, bodies);
    LinesEnd(k, bodies);
    if s == [] {
      assert content == torn;
      NoNewline(torn);
    } else {
      assert content[|s| - 1] == s[|s| - 1];
      assert content[|s|..] == torn;
      LastNewlineAt(content, |s| - 1);
      assert content[..|s|] == s;
    }
  }

  // ---------------------------------------------------------------------------
  // A position that is out of date

  function Newlines(s: bytes): nat {
    if s == [] then 0 else Newlines(s[..|s| - 1]) + if s[|s| - 1] == NEWLINE then 1 else 0
  }

  lemma {:induction false} NewlinesJoin(a: bytes, b: bytes)
    ensures Newlines(a + b) == Newlines(a) + Newlines(b)
  {
    if b == [] {
      assert a + b == a;
    } else {
      NewlinesJoin(a, b[..|b| - 1]);
      assert (a + b)[..|a + b| - 1] == a + b[..|b| - 1];
    }
  }

  lemma {:induction false} NoNewlines(s: bytes)
    requires NEWLINE !in s
    ensures Newlines(s) == 0
  {
    if s != [] {
      NoNewlines(s[..|s| - 1]);
    }
  }

  lemma RecordIsALine(k: Codec, b: Body)
    requires Lawful(k)
    ensures Newlines(Record(k, b)) == 1
  {
    var line := k.line(b, Sig(k, b));
    assert LawsAt(k, b, Sig(k, b));
    NoNewlines(line);
    NewlinesJoin(line, [NEWLINE]);
    assert Newlines([NEWLINE]) == Newlines([]) + 1;
  }

  lemma {:induction false} LinesCounted(k: Codec, bodies: seq<Body>)
    requires Lawful(k)
    ensures Newlines(Lines(k, bodies)) == |bodies|
  {
    if bodies != [] {
      hide Record, Newlines;
      var n := |bodies| - 1;
      LinesCounted(k, bodies[..n]);
      RecordIsALine(k, bodies[n]);
      NewlinesJoin(Lines(k, bodies[..n]), Record(k, bodies[n]));
    } else {
      assert Newlines([]) == 0;
    }
  }

  /** A file that ends in a whole record says by that record's number how many it should have. */
  lemma LastNumberCounts(k: Codec, date: string, front: bytes, b: Body)
    requires Lawful(k) && b.seqNo < MAX_SEQ && |Record(k, b)| <= MAX_LINE
    requires front == [] || front[|front| - 1] == NEWLINE
    requires DayFile(k, date, front + Record(k, b))
    ensures Newlines(front + Record(k, b)) == b.seqNo + 1
  {
    hide Reseed, Lines, Newlines, Chain;
    var line := k.line(b, Sig(k, b));
    var content := front + Record(k, b);
    assert LawsAt(k, b, Sig(k, b));
    var bodies, torn :| IsDayFile(k, date, content, bodies, torn);
    assert content[|content| - 1] == NEWLINE;
    assert torn == [];
    assert Lines(k, bodies) + torn == Lines(k, bodies);
    LinesCounted(k, bodies);
    ReseedRecovers(k, date, content, bodies, torn);
    ScanFile(k, front, line, []);
    assert front + line + [NEWLINE] + [] == content;
  }

  /** A record written from the position behind `stale` records of a file that has more by now, as
      another process may have appended them: the file stays a chain exactly when it has not. */
  lemma ForkedExactlyWhenStale(k: Codec, date: string, bodies: seq<Body>, stale: nat, b: Body)
    requires Lawful(k) && Chain(k, date, bodies) && stale <= |bodies| && stale < MAX_SEQ
    requires b.date == date && b.seqNo == stale && b.prev == LastSig(k, bodies[..stale])
    requires |Record(k, b)| <= MAX_LINE
    ensures DayFile(k, date, Lines(k, bodies) + Record(k, b)) <==> stale == |bodies|
  {
    var content := Lines(k, bodies) + Record(k, b);
    LinesEnd(k, bodies);
    if DayFile(k, date, content) {
      hide Lines, Record, Newlines, DayFile, Chain;
      LastNumberCounts(k, date, Lines(k, bodies), b);
      LinesCounted(k, bodies);
      RecordIsALine(k, b);
      NewlinesJoin(Lines(k, bodies), Record(k, b));
    }
    if stale == |bodies| {
      hide Lines, Record, Chain, LastSig;
      assert bodies[..stale] == bodies;
      ChainGrows(k, date, bodies, b);
      assert content + [] == content;
      assert IsDayFile(k, date, content, bodies + [b], []);
    }
  }
}
