// The clamd client (clamav.c).
module ClamAv {
  // A plaintext goes out as length-prefixed frames closed by a zero length, either chunk by chunk
  // while a file is decrypted or in one buffer scan; and one line comes back.

  import opened Bytes

  const SCAN_CHUNK: int := 256 * 1024
  const MAX_SCAN_SIZE: int := 2 * 1024 * 1024 * 1024
  /** "nINSTREAM\n" */
  const COMMAND: bytes := [110, 73, 78, 83, 84, 82, 69, 65, 77, 10]
  const TERMINATOR: bytes := [0, 0, 0, 0]

  /** The longest line that is kept of an answer. */
  const LINE_MAX: int := 511

  /** What clamd says of too long a stream. */
  const LIMIT: string := "size limit exceeded"

  datatype Verdict = Clean | Infected | Unavailable | TooLarge | Error

  /** What comes back: nothing before an error or the time-out, or what clamd prints. */
  datatype Reply = NoReply | Prints(text: string)

  /** How one connection goes: whether it is made, how many bytes the socket takes before it fails,
      and what comes back. */
  datatype Clamd = Clamd(connects: bool, takes: nat, reply: Reply)

  /** Everything one connection to clamd carried, and what came back. */
  datatype Session = Session(wire: bytes, reply: Reply)

  predicate EndsLine(c: char) {
    c == '\n' || c == '\0'
  }

  ghost predicate OneLine(text: string) {
    forall i :: 0 <= i < |text| ==> text[i] != '\n' && text[i] != '\0'
  }

  /** The first line of `text`, or what there is room for of it. */
  function LineOf(text: string, room: nat): (line: string)
    ensures line <= text && |line| <= room && OneLine(line)
    ensures |line| == room || |line| == |text| || text[|line|] == '\n' || text[|line|] == '\0'
  {
    if room == 0 || text == "" || EndsLine(text[0]) then ""
    else [text[0]] + LineOf(text[1..], room - 1)
  }

  /** The line that is read of a reply. */
  function Heard(reply: Reply): string {
    if reply.NoReply? then "" else LineOf(reply.text, LINE_MAX)
  }

  function Classify(line: string): Verdict {
    if line == "" then Error
    else if Occurs(" FOUND", line) then Infected
    else if Occurs(" OK", line) then Clean
    else if Occurs(LIMIT, line) then TooLarge
    else Error
  }

  // ---------------------------------------------------------------------------
  // What clamd said

  ghost predicate StandsAt(needle: string, line: string, p: nat) {
    p + |needle| <= |line| && line[p..p + |needle|] == needle
  }

  /** `needle` stands somewhere in `line`. */
  ghost predicate Stands(needle: string, line: string) {
    exists p :: StandsAt(needle, line, p)
  }

  ghost predicate SaysFound(reply: Reply) {
    Stands(" FOUND", Heard(reply))
  }

  ghost predicate SaysClean(reply: Reply) {
    Stands(" OK", Heard(reply)) && !SaysFound(reply)
  }

  lemma StandsExactly(needle: string, line: string)
    ensures Occurs(needle, line) <==> Stands(needle, line)
  {
    if Occurs(needle, line) {
      var i :| 0 <= i <= |line| && needle <= line[i..];
      assert line[i..i + |needle|] == line[i..][..|needle|] == needle;
      assert StandsAt(needle, line, i);
    }
    if Stands(needle, line) {
      var p: nat :| StandsAt(needle, line, p);
      assert line[p..][..|needle|] == line[p..p + |needle|];
      assert needle <= line[p..];
    }
  }

  /** Each verdict on a line, by what stands where in it; the empty line says nothing. */
  lemma ClassifyExactly(line: string)
    ensures Classify(line).Infected? <==> Stands(" FOUND", line)
    ensures Classify(line).Clean? <==> Stands(" OK", line) && !Stands(" FOUND", line)
    ensures Classify(line).TooLarge? <==>
              Stands(LIMIT, line) && !Stands(" OK", line) && !Stands(" FOUND", line)
    ensures !Classify(line).Unavailable?
  {
    hide Occurs, Stands;
    StandsExactly(" FOUND", line);
    StandsExactly(" OK", line);
    StandsExactly(LIMIT, line);
    if line == "" {
      NothingStandsInNothing(" FOUND");
      NothingStandsInNothing(" OK");
      NothingStandsInNothing(LIMIT);
    }
  }

  lemma NothingStandsInNothing(needle: string)
    requires needle != ""
    ensures !Stands(needle, "")
  {
  }

  /** What clamd has to say about a stream. */
  datatype Said = NothingFound | VirusFound(signature: string) | LimitExceeded | OtherError(text: string)

  const CLEAN_LINE: string := "stream: OK"
  const LIMIT_LINE: string := "INSTREAM " + LIMIT + ". ERROR"

  /** How it prints that. */
  function Printed(a: Said): string {
    match a
    case NothingFound => CLEAN_LINE + "\n"
    case VirusFound(signature) => "stream: " + signature + " FOUND\n"
    case LimitExceeded => LIMIT_LINE + "\n"
    case OtherError(text) => text + " ERROR\n"
  }

  lemma {:induction false} LineRead(text: string, rest: string, room: nat)
    requires OneLine(text) && (rest == "" || EndsLine(rest[0]))
    ensures LineOf(text + rest, room) == text[..if |text| < room then |text| else room]
  {
    var line := LineOf(text + rest, room);
    var whole, n, m := text + rest, |text|, |line|;
    if rest != "" {
      assert whole[n] == rest[0];
    }
  }

  /** A clean stream is heard as clean. */
  lemma CleanIsHeard()
    ensures Classify(Heard(Prints(Printed(NothingFound)))) == Clean
  {
    hide Classify, Stands, LineOf;
    LineRead(CLEAN_LINE, "\n", LINE_MAX);
    assert CLEAN_LINE[..|CLEAN_LINE|] == CLEAN_LINE;
    ClassifyExactly(CLEAN_LINE);
    CleanLine();
  }

  lemma CleanLine()
    ensures Stands(" OK", CLEAN_LINE) && !Stands(" FOUND", CLEAN_LINE)
  {
    NoFirst(" FOUND", CLEAN_LINE);
    assert StandsAt(" OK", CLEAN_LINE, 7);
  }

  /** A stream over clamd's own limit is heard as that. */
  lemma LimitIsHeard()
    ensures Classify(Heard(Prints(Printed(LimitExceeded)))) == TooLarge
  {
    hide Classify, Stands, LineOf;
    LineRead(LIMIT_LINE, "\n", LINE_MAX);
    assert LIMIT_LINE[..|LIMIT_LINE|] == LIMIT_LINE;
    ClassifyExactly(LIMIT_LINE);
    LimitLine();
  }

  lemma LimitLine()
    ensures Stands(LIMIT, LIMIT_LINE) && !Stands(" OK", LIMIT_LINE) && !Stands(" FOUND", LIMIT_LINE)
  {
    NoFirst(" FOUND", LIMIT_LINE);
    NoFirst(" OK", LIMIT_LINE);
    assert LIMIT_LINE[9..9 + |LIMIT|] == LIMIT;
    assert StandsAt(LIMIT, LIMIT_LINE, 9);
  }

  function Least(m: nat, n: nat): nat { if m < n then m else n }

  /** A virus is heard as one exactly when its name leaves room for the word behind it in the line
      that is kept, or that word stands in front of there; and no virus is heard as clean, unless
      its name says so. */
  lemma FoundIsHeard(signature: string)
    requires OneLine(signature)
    ensures var (heard, head) := (Classify(Heard(Prints(Printed(VirusFound(signature))))), "stream: " + signature);
      && (heard.Infected? <==> |head| + 6 <= LINE_MAX || Stands(" FOUND", head[..Least(|head|, LINE_MAX)]))
      && (heard.Clean? && ' ' !in signature ==> "OK" <= signature)
  {
    hide Classify, LineOf, Stands;
    var head := "stream: " + signature;
    var line := head + " FOUND";
    var kept := line[..Least(|line|, LINE_MAX)];
    assert OneLine(line) by {
      assert OneLine("stream: ") && OneLine(" FOUND");
    }
    assert Printed(VirusFound(signature)) == line + "\n";
    LineRead(line, "\n", LINE_MAX);
    ClassifyExactly(kept);
    FoundAtTheEnd(head);
    if ' ' !in signature && Stands(" OK", kept) {
      OkIsNamed(signature, |kept|);
    }
  }

  /** Such a virus: one whose name is 498 letters "a". */
  lemma LongNameIsNotHeard(signature: string)
    requires |signature| == 498 && forall i :: 0 <= i < 498 ==> signature[i] == 'a'
    ensures var heard := Classify(Heard(Prints(Printed(VirusFound(signature)))));
      !heard.Infected? && !heard.Clean?
  {
    hide Classify, Heard, Stands;
    var head := "stream: " + signature;
    assert head[..Least(|head|, LINE_MAX)] == head;
    NoFirst(" FOUND", head);
    FoundIsHeard(signature);
    assert ' ' !in signature && signature[0] != "OK"[0];
  }

  lemma OkIsNamed(signature: string, n: nat)
    requires ' ' !in signature && n <= |signature| + 14
    requires Stands(" OK", ("stream: " + signature + " FOUND")[..n])
    ensures "OK" <= signature
  {
    var line := "stream: " + signature + " FOUND";
    var kept := line[..n];
    var p: nat :| StandsAt(" OK", kept, p);
    Letters(" OK", kept, p);
    assert kept[p + 0] == " OK"[0] && kept[p + 1] == " OK"[1] && kept[p + 2] == " OK"[2];
    SpaceInHead(signature, p);
    assert line[p + 1] == 'O' && line[p + 2] == 'K';
    assert signature[..2] == "OK";
  }

  lemma Letters(needle: string, line: string, p: nat)
    requires StandsAt(needle, line, p)
    ensures forall k :: 0 <= k < |needle| ==> line[p + k] == needle[k]
  {
    var word := line[p..p + |needle|];
    assert forall k :: 0 <= k < |needle| ==> word[k] == line[p + k];
  }

  lemma FirstTwo(needle: string, line: string, p: nat)
    requires |needle| > 1
    ensures StandsAt(needle, line, p) ==> p + 1 < |line| && line[p] == needle[0] && line[p + 1] == needle[1]
  {
    if StandsAt(needle, line, p) {
      Letters(needle, line, p);
      assert line[p + 0] == needle[0] && line[p + 1] == needle[1];
    }
  }

  /** A word behind a space stands nowhere if its first letter follows no space. */
  lemma NoFirst(needle: string, line: string)
    requires |needle| > 1 && needle[0] == ' '
    requires forall p :: 0 < p < |line| && line[p - 1] == ' ' ==> line[p] != needle[1]
    ensures !Stands(needle, line)
  {
    forall p: nat ensures !StandsAt(needle, line, p) {
      FirstTwo(needle, line, p);
    }
  }

  lemma SpaceInHead(signature: string, p: nat)
    requires ' ' !in signature && p < |signature| + 14 && ("stream: " + signature + " FOUND")[p] == ' '
    ensures p == 7 || p == |signature| + 8
  {
    var line := "stream: " + signature + " FOUND";
  }

  lemma FoundAtTheEnd(head: string)
    ensures Stands(" FOUND", (head + " FOUND")[..Least(|head| + 6, LINE_MAX)]) <==>
              |head| + 6 <= LINE_MAX || Stands(" FOUND", head[..Least(|head|, LINE_MAX)])
  {
    var line := head + " FOUND";
    var kept, front := line[..Least(|line|, LINE_MAX)], head[..Least(|head|, LINE_MAX)];
    if |head| + 6 <= LINE_MAX {
      assert kept == line && line[|head|..|head| + 6] == " FOUND";
      assert StandsAt(" FOUND", kept, |head|);
    } else {
      assert front == kept[..|front|];
      if Stands(" FOUND", kept) {
        var p: nat :| StandsAt(" FOUND", kept, p);
        NotAcross(head, |kept|, p);
        assert front[p..p + 6] == kept[p..p + 6];
        assert StandsAt(" FOUND", front, p);
      }
      if p: nat :| StandsAt(" FOUND", front, p) {
        assert front[p..p + 6] == kept[p..p + 6];
        assert StandsAt(" FOUND", kept, p);
      }
    }
  }

  lemma NotAcross(head: string, n: nat, p: nat)
    requires n < |head| + 6 && StandsAt(" FOUND", (head + " FOUND")[..n], p)
    ensures p + 6 <= |head|
  {
    var line := head + " FOUND";
    var kept := line[..n];
    Letters(" FOUND", kept, p);
    forall q | p < q < p + 6 ensures line[q] != ' ' {
      assert kept[p + (q - p)] == " FOUND"[q - p] != ' ';
    }
    assert line[|head|] == ' ';
  }

  /** What clamd reads: frames up to a zero length, which must end the input. */
  function ReadInstream(w: bytes): Option<bytes> {
    if |w| < 4 then None
    else
      var n := ReadBE32(w);
      if n == 0 then (if |w| == 4 then Some([]) else None)
      else if |w| < 4 + n then None
      else
        match ReadInstream(w[4 + n..])
        case None => None
        case Some(rest) => Some(w[4..4 + n] + rest)
  }

  /** clamd was handed exactly `data`. */
  predicate Handed(s: Session, data: bytes) {
    COMMAND <= s.wire && ReadInstream(s.wire[|COMMAND|..]) == Some(data)
  }

  /** The wire form of a list of chunks. */
  function Frames(chunks: seq<bytes>): bytes
    requires Sendable(chunks)
  {
    if chunks == [] then [] else BE32(|chunks[0]|) + chunks[0] + Frames(chunks[1..])
  }

  ghost predicate Sendable(chunks: seq<bytes>) {
    forall i :: 0 <= i < |chunks| ==> 0 < |chunks[i]| < TWO32
  }

  /** The open stream `sent` has carried `data`, in some chunks. */
  ghost predicate Carries(sent: bytes, data: bytes) {
    exists chunks :: Sendable(chunks) && sent == COMMAND + Frames(chunks) && data == Flatten(chunks)
  }

  lemma {:induction false} FramesSnoc(chunks: seq<bytes>, x: bytes)
    requires Sendable(chunks) && 0 < |x| < TWO32
    ensures Sendable(chunks + [x]) && Frames(chunks + [x]) == Frames(chunks) + BE32(|x|) + x
  {
    if chunks == [] {
      assert chunks + [x] == [x];
      assert [x][1..] == [];
    } else {
      FramesSnoc(chunks[1..], x);
      assert (chunks + [x])[1..] == chunks[1..] + [x];
    }
  }

  lemma FrameAppends(sent: bytes, data: bytes, x: bytes)
    requires Carries(sent, data) && 0 < |x| < TWO32
    ensures Carries(sent + BE32(|x|) + x, data + x)
  {
    var chunks :| Sendable(chunks) && sent == COMMAND + Frames(chunks) && data == Flatten(chunks);
    FramesSnoc(chunks, x);
    FlattenSnoc(chunks, x);
    assert sent + BE32(|x|) + x == COMMAND + Frames(chunks + [x]);
  }

  lemma ReadFrame(x: bytes, rest: bytes)
    requires 0 < |x| < TWO32
    ensures ReadInstream(BE32(|x|) + x + rest)
         == (match ReadInstream(rest) case None => None case Some(d) => Some(x + d))
  {
    var w := BE32(|x|) + x + rest;
    assert w == BE32(|x|) + (x + rest);
    BE32RoundTrip(|x|, x + rest);
    assert w[4..4 + |x|] == x && w[4 + |x|..] == rest;
  }

  /** clamd reads back what was framed. */
  lemma {:induction false} FramesRead(chunks: seq<bytes>)
    requires Sendable(chunks)
    ensures ReadInstream(Frames(chunks) + TERMINATOR) == Some(Flatten(chunks))
  {
    if chunks == [] {
      assert Frames(chunks) + TERMINATOR == TERMINATOR;
    } else {
      var rest := Frames(chunks[1..]) + TERMINATOR;
      FramesRead(chunks[1..]);
      ReadFrame(chunks[0], rest);
      assert Frames(chunks) + TERMINATOR == BE32(|chunks[0]|) + chunks[0] + rest;
    }
  }

  lemma TerminatorCloses(sent: bytes, data: bytes)
    requires Carries(sent, data)
    ensures COMMAND <= sent + TERMINATOR
    ensures ReadInstream((sent + TERMINATOR)[|COMMAND|..]) == Some(data)
  {
    var chunks :| Sendable(chunks) && sent == COMMAND + Frames(chunks) && data == Flatten(chunks);
    hide ReadInstream, Frames, Flatten;
    FramesRead(chunks);
    assert (sent + TERMINATOR)[|COMMAND|..] == Frames(chunks) + TERMINATOR;
  }

  lemma CommandCarriesNothing()
    ensures Carries(COMMAND, [])
  {
    assert Sendable([]) && COMMAND == COMMAND + Frames([]) && Flatten([]) == [];
  }

  // ---------------------------------------------------------------------------
  // When everything arrives

  /** The bytes that a list of chunks takes on the wire; of an empty one nothing is sent. */
  function WireSize(chunks: seq<bytes>): nat {
    if chunks == [] then 0
    else
      var last := chunks[|chunks| - 1];
      WireSize(chunks[..|chunks| - 1]) + (if last == [] then 0 else 4 + |last|)
  }

  lemma WireSizeSnoc(chunks: seq<bytes>, x: bytes)
    ensures WireSize(chunks + [x]) == WireSize(chunks) + (if x == [] then 0 else 4 + |x|)
  {
    assert (chunks + [x])[..|chunks|] == chunks;
  }

  /** A stream into which the chunks are fed comes to its answer. */
  predicate StreamDelivers(d: Clamd, chunks: seq<bytes>) {
    d.connects && |Flatten(chunks)| <= MAX_SCAN_SIZE && |COMMAND| + WireSize(chunks) + |TERMINATOR| <= d.takes
  }

  /** The frames of a buffer that is sent in pieces. */
  function Slices(size: nat): nat { (size + SCAN_CHUNK - 1) / SCAN_CHUNK }

  /** A buffer scan comes to its answer. */
  predicate BufferDelivers(d: Clamd, data: bytes) {
    && d.connects && |data| <= MAX_SCAN_SIZE
    && |COMMAND| + |data| + 4 * Slices(|data|) + |TERMINATOR| <= d.takes
  }

  // ---------------------------------------------------------------------------
  // The client

  /** send_all on a socket that takes `takes` bytes in all: what has been sent afterwards. */
  method SendAll(takes: nat, sent: bytes, b: bytes) returns (ok: bool, sent': bytes)
    requires |sent| <= takes
    ensures ok <==> |sent| + |b| <= takes
    ensures sent' == (sent + b)[..if ok then |sent| + |b| else takes]
    ensures ok ==> sent' == sent + b
  {
    ok := |sent| + |b| <= takes;
    sent' := sent + (if ok then b else b[..takes - |sent|]);
  }

  /** There is only one first line. */
  lemma LineUnique(text: string, room: nat, line: string)
    requires line <= text && |line| <= room && OneLine(line)
    requires |line| == room || |line| == |text| || EndsLine(text[|line|])
    ensures line == LineOf(text, room)
  {
    var other := LineOf(text, room);
    hide LineOf;
    assert forall i :: 0 <= i < |line| ==> line[i] == text[i];
    assert forall i :: 0 <= i < |other| ==> other[i] == text[i];
  }

  /** recv_line, from what will come. */
  method ReceiveLine(reply: Reply) returns (n: int, line: string)
    ensures line == Heard(reply) && n == if reply.NoReply? then -1 else |line|
  {
    hide LineOf;
    n, line := -1, "";
    if reply.Prints? {
      var text := reply.text;
      while |line| < LINE_MAX
        invariant |line| <= |text| && |line| <= LINE_MAX && line == text[..|line|] && OneLine(line)
        decreases LINE_MAX - |line|
      {
        if |line| == |text| || EndsLine(text[|line|]) {
          break;
        }
        line := line + [text[|line|]];
      }
      LineUnique(text, LINE_MAX, line);
      n := |line|;
    }
  }

  /** Sends one frame.  An empty frame would be a terminator; callers send none. */
  method SendFrame(takes: nat, sent: bytes, x: bytes, ghost data: bytes) returns (ok: bool, sent': bytes)
    requires 0 < |x| < TWO32 && |sent| <= takes && Carries(sent, data)
    ensures |sent'| <= takes && (ok <==> |sent| + 4 + |x| <= takes)
    ensures ok ==> |sent'| == |sent| + 4 + |x| && Carries(sent', data + x)
  {
    ok, sent' := SendAll(takes, sent, BE32(|x|));
    if ok {
      ok, sent' := SendAll(takes, sent', x);
      if ok {
        FrameAppends(sent, data, x);
      }
    }
  }

  /** Sends the terminator and waits for the answer. */
  method Conclude(d: Clamd, sent: bytes, ghost data: bytes) returns (verdict: Verdict, session: Session)
    requires |sent| <= d.takes && Carries(sent, data)
    ensures var delivered := |sent| + |TERMINATOR| <= d.takes;
      && (!delivered ==> verdict == Error && session.reply.NoReply?)
      && (delivered ==> verdict == Classify(Heard(d.reply)) && session.reply == d.reply && Handed(session, data))
  {
    TerminatorCloses(sent, data);
    var ok, sent' := SendAll(d.takes, sent, TERMINATOR);
    if !ok {
      return Error, Session(sent', NoReply);
    }
    var n, line := ReceiveLine(d.reply);
    session := Session(sent', d.reply);
    if n < 0 || |line| == 0 {
      return Error, session;
    }
    verdict := Classify(line);
  }

  class ClamStream {
    /** What is at the other end. */
    const clamd: Clamd
    var sent: bytes
    var bytesSent: nat
    var broken: bool
    var oversize: bool
    /** The socket and the stream itself are there until the finish. */
    var live: bool
    /** What clamd has been handed so far, while the stream is not broken. */
    ghost var data: bytes

    ghost predicate Valid()
      reads this
    {
      && (!broken ==> Carries(sent, data) && bytesSent == |data| <= MAX_SCAN_SIZE)
      && |sent| <= clamd.takes
      && (oversize ==> broken)
    }

    /** A connection whose command has been sent. */
    constructor (clamd: Clamd)
      requires |COMMAND| <= clamd.takes
      ensures Valid() && !broken && data == [] && live && this.clamd == clamd && sent == COMMAND
    {
      this.clamd := clamd;
      sent, bytesSent, broken, oversize, live, data := COMMAND, 0, false, false, true, [];
      CommandCarriesNothing();
    }

    /** The stream has room for `more` bytes of data in frames of `wire` bytes. */
    ghost predicate Room(more: nat, wire: nat)
      reads this
    {
      |data| + more <= MAX_SCAN_SIZE && |sent| + wire <= clamd.takes
    }

    /** clamav_stream_feed.  The first failure breaks the stream for good. */
    method Feed(chunk: bytes) returns (rc: int)
      requires Valid()
      modifies this
      ensures Valid() && live == old(live)
      ensures rc == if broken then -1 else 0
      ensures broken <==> old(broken) || (chunk != [] && old(!Room(|chunk|, 4 + |chunk|)))
      ensures !broken ==> data == old(data) + chunk && |sent| == old(|sent|) + (if chunk == [] then 0 else 4 + |chunk|)
      ensures oversize <==> old(oversize) || (!old(broken) && chunk != [] && |old(data)| + |chunk| > MAX_SCAN_SIZE)
    {
      if broken {
        return -1;
      }
      if |chunk| == 0 {
        assert data + chunk == data;
        return 0;
      }
      if bytesSent + |chunk| > MAX_SCAN_SIZE {
        broken, oversize := true, true;
        return -1;
      }
      var ok;
      ok, sent := SendFrame(clamd.takes, sent, chunk, data);
      if !ok {
        broken := true;
        return -1;
      }
      bytesSent, data := bytesSent + |chunk|, data + chunk;
      rc := 0;
    }

    /** clamav_stream_finish.  It closes the connection and gives up the stream, whatever it says. */
    method Finish() returns (verdict: Verdict, session: Session)
      requires Valid() && live
      modifies this`live
      ensures !live
      ensures broken ==> verdict == (if oversize then TooLarge else Unavailable) && session.reply.NoReply?
      ensures !broken && !Room(0, |TERMINATOR|) ==> verdict == Error && session.reply.NoReply?
      ensures !broken && Room(0, |TERMINATOR|) ==> Handed(session, data) && session.reply == clamd.reply
      ensures verdict.Infected? <==> !broken && Room(0, |TERMINATOR|) && SaysFound(clamd.reply)
      ensures verdict.Clean? <==> !broken && Room(0, |TERMINATOR|) && SaysClean(clamd.reply)
    {
      live := false;
      if broken {
        return if oversize then TooLarge else Unavailable, Session(sent, NoReply);
      }
      ClassifyExactly(Heard(clamd.reply));
      verdict, session := Conclude(clamd, sent, data);
    }
  }

  /** Sends a buffer in pieces. */
  method SendSlices(d: Clamd, data: bytes) returns (ok: bool, sent: bytes)
    requires |COMMAND| <= d.takes
    ensures |sent| <= d.takes && (ok <==> |COMMAND| + |data| + 4 * Slices(|data|) <= d.takes)
    ensures ok ==> |sent| == |COMMAND| + |data| + 4 * Slices(|data|) && Carries(sent, data)
  {
    hide Carries, Slices, EvenSlices;
    NoSlices();
    CommandCarriesNothing();
    assert data[..0] == [];
    ok, sent := true, COMMAND;
    var off := 0;
    while off < |data|
      invariant 0 <= off <= |data| && Carries(sent, data[..off])
      invariant |sent| == |COMMAND| + off + 4 * Slices(off) <= d.takes
      invariant ok && (EvenSlices(off) || off == |data|)
    {
      var n := if |data| - off > SCAN_CHUNK then SCAN_CHUNK else |data| - off;
      OneSliceMore(off, n, |data|);
      var (before, piece) := (data[..off], data[off..off + n]);
      ok, sent := SendFrame(d.takes, sent, piece, before);
      if !ok {
        return;
      }
      assert data[..off + n] == before + piece;
      off := off + n;
    }
    assert data[..off] == data;
  }

  /** clamav_scan_buffer. */
  method ScanBuffer(d: Clamd, data: bytes) returns (verdict: Verdict, session: Session)
    ensures verdict.Infected? <==> BufferDelivers(d, data) && SaysFound(d.reply)
    ensures verdict.Clean? <==> BufferDelivers(d, data) && SaysClean(d.reply)
    ensures BufferDelivers(d, data) ==> Handed(session, data) && session.reply == d.reply
    ensures !BufferDelivers(d, data) ==> session.reply.NoReply?
    ensures |data| > MAX_SCAN_SIZE ==> verdict == TooLarge
    ensures |data| <= MAX_SCAN_SIZE && !d.connects ==> verdict == Unavailable
    ensures |data| <= MAX_SCAN_SIZE && d.connects && !BufferDelivers(d, data) ==> verdict == Error
  {
    hide Classify, Handed, Carries, Slices, Stands, Heard;
    session := Session([], NoReply);
    if |data| > MAX_SCAN_SIZE {
      return TooLarge, session;
    }
    if !d.connects {
      return Unavailable, session;
    }
    var ok, sent := SendAll(d.takes, [], COMMAND);
    if !ok {
      return Error, session;
    }
    ok, sent := SendSlices(d, data);
    if !ok {
      return Error, session;
    }
    ClassifyExactly(Heard(d.reply));
    verdict, session := Conclude(d, sent, data);
  }

  predicate EvenSlices(off: nat) { off % SCAN_CHUNK == 0 }

  lemma NoSlices()
    ensures Slices(0) == 0 && EvenSlices(0)
  {
  }

  lemma OneSliceMore(off: nat, n: nat, size: nat)
    requires EvenSlices(off) && 0 < n <= SCAN_CHUNK && off + n <= size
    ensures Slices(off + n) == Slices(off) + 1 <= Slices(size)
    ensures n == SCAN_CHUNK ==> EvenSlices(off + n)
  {
    var q := off / SCAN_CHUNK;
    assert off == q * SCAN_CHUNK;
    assert Slices(off) == q;
    assert Slices(off + n) == q + 1;
  }
}
