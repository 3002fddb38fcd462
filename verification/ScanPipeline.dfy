// One scan from request to reply (main.c, handle_scan; scanner.c, scanner_inspect), with every
// way out.
module ScanPipeline {
  // What lies outside, the file type detector, YARA, the sanitizers but that of texts, the
  // signer, the clock and the sockets, answers as a World says, whatever it says.

  import opened Bytes
  import opened Limits
  import opened SubmitterTable
  import opened ClamAv
  import opened ChunkedFile
  import opened MetadataMac
  import opened TextSanitizer

  const WALL_CAP_MS: nat := 540 * 1000

  datatype ScanVerdict = VClean | VSanitized | VRejected | VError

  /** A request as parse_scan_request leaves it. */
  datatype Request = Request(
    user: nat, version: int, nonce: bytes, chunks: int, sha: ShaClaim, size: nat, mac: string, detach: bool)

  /** The re-encrypted output announced with a reply. */
  datatype NewMeta = NewMeta(file: bytes, nonce: bytes, chunks: int, sha: string, size: int, mac: Option<string>)

  datatype Reply =
    | UserBusy
    | Busy
    | Failed
    | Answer(verdict: ScanVerdict, meta: Option<NewMeta>)

  /** What a client and the audit log see, in order. */
  datatype Output = Ack | Logged(verdict: ScanVerdict) | OnSocket(reply: Reply) | InVerdictFile(reply: Reply)

  datatype Crypto = Crypto(
    aead: Aead, sha: bytes -> bytes, hmac: (bytes, string) -> bytes, base64: bytes -> string)

  function FieldsOf(c: Crypto, version: int, nonce: bytes, chunks: int, digest: bytes, size: int): Fields {
    Fields(version, c.base64(nonce), CHUNK_SIZE, chunks, HexEncode(digest), size)
  }

  /** The request's ciphertext is authentic: it decrypts to `text` and the metadata MAC agrees. */
  ghost predicate Authentic(c: Crypto, req: Request, file: bytes, key: bytes, text: bytes) {
    && Decrypted(c.aead, c.sha, file, key, req.nonce, req.chunks, req.sha, req.version) == Some(text)
    && MetadataHolds(c, req, key, text)
  }

  /** clamd was handed the text and found nothing in it. */
  ghost predicate CleanSession(sessions: seq<Session>, text: bytes) {
    exists i :: 0 <= i < |sessions| && Handed(sessions[i], text) && SaysClean(sessions[i].reply)
  }

  ghost predicate NothingInfected(sessions: seq<Session>) {
    forall i :: 0 <= i < |sessions| ==> !SaysFound(sessions[i].reply)
  }

  /** tee_scan_past_deadline: a rejection is never too late. */
  predicate PastDeadline(verdict: Option<ScanVerdict>, elapsed: nat) {
    verdict != Some(VRejected) && elapsed > WALL_CAP_MS
  }

  datatype YaraVerdict = YaraClear | YaraMatch | YaraTimeout | YaraUnavailable
  datatype SanitizeResult = SanClean | SanModified(output: bytes) | SanRejected | SanError

  /** What the content is taken for, and what the check for that says. */
  datatype Kind = Archive(refused: bool) | Text(haveMemory: bool) | Other(result: SanitizeResult)

  /** How everything outside turns out during one scan: what the signer unseals; the two connections
      to clamd; the time at the two looks at the clock; the file type detector and the whitelist;
      YARA; the content check; and the nonce, the writing and the signing of a new file. */
  datatype World = World(
    unsealed: Option<bytes>, stream: Clamd, buffer: Clamd, firstLook: nat, secondLook: nat,
    haveDetector: bool, typeDetected: bool, typeAllowed: bool, extensionFits: bool,
    yara: YaraVerdict, kind: Kind, nonce: bytes, written: bool, signed: bool)

  /** The metadata MAC that the request carries agrees with what was decrypted. */
  predicate MetadataHolds(c: Crypto, req: Request, key: bytes, text: bytes) {
    MacVerifies(c.hmac, key, FieldsOf(c, req.version, req.nonce, req.chunks, c.sha(text), req.size), req.mac)
  }

  /** What the file decrypts to. */
  ghost function Plain(c: Crypto, req: Request, file: bytes, key: bytes): Option<bytes> {
    Decrypted(c.aead, c.sha, file, key, req.nonce, req.chunks, req.sha, req.version)
  }

  /** The file decrypts, but not to what the metadata MAC is about. */
  ghost predicate Forged(c: Crypto, req: Request, file: bytes, key: bytes) {
    Plain(c, req, file, key).Some? && !MetadataHolds(c, req, key, Plain(c, req, file, key).value)
  }

  // ---------------------------------------------------------------------------
  // Which outcomes give which reply

  /** The text is refused by its type, by clamd where it has not been found clean before, by YARA, or
      by the check of its kind. */
  ghost predicate Refused(w: World, text: bytes, foundClean: bool) {
    || !w.typeAllowed || !w.extensionFits
    || !(foundClean || (BufferDelivers(w.buffer, text) && SaysClean(w.buffer.reply)))
    || w.yara.YaraMatch? || w.yara.YaraTimeout?
    || w.kind == Archive(true) || w.kind == Other(SanRejected)
  }

  /** The verdict, with the new content if there is one. */
  type Finding = (ScanVerdict, Option<bytes>)

  /** What the check of its kind makes of a text that is not refused. */
  ghost function Treated(kind: Kind, text: bytes): Finding {
    match kind
    case Archive(_) => (VClean, None)
    case Text(haveMemory) =>
      if !(BOM <= text) then (VClean, None)
      else if haveMemory then (VSanitized, Some(text[|BOM|..])) else (VError, None)
    case Other(SanModified(output)) => (VSanitized, Some(output))
    case Other(result) => (if result.SanClean? then VClean else VError, None)
  }

  /** The finding on a text, or None where there is no detector. */
  ghost function Inspected(w: World, text: bytes, foundClean: bool): Option<Finding> {
    if text == [] then Some((VClean, None))
    else if !w.haveDetector then None
    else if !w.typeDetected then Some((VError, None))
    else if Refused(w, text, foundClean) then Some((VRejected, None))
    else Some(Treated(w.kind, text))
  }

  ghost predicate StreamFinds(w: World, chunks: seq<bytes>) {
    StreamDelivers(w.stream, chunks) && SaysFound(w.stream.reply)
  }

  ghost predicate StreamClears(w: World, chunks: seq<bytes>) {
    StreamDelivers(w.stream, chunks) && SaysClean(w.stream.reply)
  }

  /** The finding on a decrypted file, or None if it fails or comes too late. */
  ghost function Judged(w: World, chunks: seq<bytes>, text: bytes): Option<Finding> {
    if StreamFinds(w, chunks) then Some((VRejected, None))
    else
      var found := Inspected(w, text, StreamClears(w, chunks));
      if w.firstLook > WALL_CAP_MS || found.None? then None
      else if found.value.0 != VRejected && w.secondLook > WALL_CAP_MS then None
      else found
  }

  ghost predicate HasContent(f: Finding) {
    f.1.Some? && f.1.value != []
  }

  ghost function FramesIn(c: Crypto, req: Request, file: bytes, key: bytes): seq<bytes> {
    var frames := ReadFrames(c.aead, key, req.nonce, 0, file);
    if frames.Some? then frames.value else []
  }

  /** What is left of a finding if its new content has to be written and signed. */
  ghost function Published(w: World, found: Option<Finding>): Option<Finding> {
    if found.Some? && HasContent(found.value) && !(w.written && w.signed) then None else found
  }

  /** The finding that an admitted scan answers with, or None if it fails. */
  ghost function Due(c: Crypto, req: Request, file: bytes, w: World, key: bytes): Option<Finding> {
    var plain := Plain(c, req, file, key);
    if plain.None? || !MetadataHolds(c, req, key, plain.value) then None
    else Published(w, Judged(w, FramesIn(c, req, file, key), plain.value))
  }

  /** The scan gets memory: its user has a slot, its key is unsealed, and three times the announced
      size fits in the budget beside what is reserved. */
  ghost predicate Admitted(req: Request, w: World, usage: Usage, reserved: int) {
    MayAcquire(usage, req.user) && w.unsealed.Some? && reserved + req.size * RESERVE_MULT <= BUDGET
  }

  /** The finding of an admitted scan. */
  ghost function Found(c: Crypto, req: Request, file: bytes, w: World, usage: Usage, reserved: int): Option<Finding> {
    if Admitted(req, w, usage, reserved) then Due(c, req, file, w, w.unsealed.value) else None
  }

  /** The reply gives the finding, with a new file for new content, or fails if there is none. */
  ghost predicate Answers(c: Crypto, w: World, key: bytes, found: Option<Finding>, reply: Reply)
    requires Lawful(c.aead)
  {
    && (reply.Answer? <==> found.Some?)
    && (found.Some? && reply.Answer? ==>
          && reply.verdict == found.value.0
          && (reply.meta.Some? <==> HasContent(found.value))
          && (reply.meta.Some? && HasContent(found.value) ==>
                Republished(c, key, found.value.1.value, w.nonce, reply.meta.value)))
  }

  /** The reply to a request that was understood, by how things turn out. */
  ghost predicate Replies(c: Crypto, req: Request, file: bytes, w: World, usage: Usage, reserved: int, reply: Reply)
    requires Lawful(c.aead)
  {
    && (reply.UserBusy? <==> !MayAcquire(usage, req.user))
    && (reply.Busy? <==>
          MayAcquire(usage, req.user) && w.unsealed.Some? && reserved + req.size * RESERVE_MULT > BUDGET)
    && (if Admitted(req, w, usage, reserved)
        then Answers(c, w, w.unsealed.value, Due(c, req, file, w, w.unsealed.value), reply)
        else !reply.Answer?)
  }

  /** A file is released exactly if it is authentic and there was memory and time for it, if clamd
      found nothing in it, neither on the way nor, where it had not found it clean on the way, in the
      whole of it, if its type, YARA and the check of its kind let it pass, and if what the check left
      of it could be written and signed; but of an empty one only clamd's word on the way is asked. */
  lemma ReleasedExactly(c: Crypto, req: Request, file: bytes, w: World, usage: Usage, reserved: int, reply: Reply)
    requires Lawful(c.aead)
    ensures Replies(c, req, file, w, usage, reserved, reply) ==>
      (reply.Answer? && (reply.verdict.VClean? || reply.verdict.VSanitized?) <==>
        && Admitted(req, w, usage, reserved)
        && exists text :: Authentic(c, req, file, w.unsealed.value, text)
             && var chunks := FramesIn(c, req, file, w.unsealed.value);
                && !StreamFinds(w, chunks)
                && w.firstLook <= WALL_CAP_MS && w.secondLook <= WALL_CAP_MS
                && (text != [] ==>
                      && w.haveDetector && w.typeDetected && w.typeAllowed && w.extensionFits
                      && (StreamClears(w, chunks) || (BufferDelivers(w.buffer, text) && SaysClean(w.buffer.reply)))
                      && (w.yara.YaraClear? || w.yara.YaraUnavailable?)
                      && Passes(w.kind, text)
                      && (Changes(w.kind, text) ==> w.written && w.signed)))
  {
    hide Decrypted, MetadataHolds, Republished, StreamDelivers, BufferDelivers, SaysFound, SaysClean;
    var plain := if w.unsealed.Some? then Plain(c, req, file, w.unsealed.value) else None;
    if plain.Some? {
      assert Authentic(c, req, file, w.unsealed.value, plain.value) <==> MetadataHolds(c, req, w.unsealed.value, plain.value);
    }
  }

  /** clamd says that it has found a virus of that name, which leaves room for saying so. */
  ghost predicate TellsOf(d: Clamd, signature: string) {
    d.reply == Prints(Printed(VirusFound(signature))) && OneLine(signature) && |signature| + 14 <= LINE_MAX
  }

  /** What clamd found a virus in is not released: if it tells of one on the way, the answer to an
      authentic upload is that it is rejected, however late; and if it tells of one in the whole
      buffer, and was not done on the way, the answer is not that it is clean or sanitized. */
  lemma VirusIsNotReleased(c: Crypto, req: Request, file: bytes, w: World, usage: Usage, reserved: int, reply: Reply,
                           text: bytes, signature: string)
    requires Lawful(c.aead) && Admitted(req, w, usage, reserved)
    requires Authentic(c, req, file, w.unsealed.value, text) && text != []
    ensures var done := StreamDelivers(w.stream, FramesIn(c, req, file, w.unsealed.value));
      Replies(c, req, file, w, usage, reserved, reply) ==>
        && (done && TellsOf(w.stream, signature) ==> reply == Answer(VRejected, None))
        && (!done && TellsOf(w.buffer, signature) && reply.Answer? ==> reply.verdict.VRejected? || reply.verdict.VError?)
  {
    hide Decrypted, MetadataHolds, Republished, StreamDelivers, BufferDelivers, FramesIn, Classify, LineOf, Stands;
    if OneLine(signature) && |signature| + 14 <= LINE_MAX {
      FoundIsHeard(signature);
      ClassifyExactly(Heard(Prints(Printed(VirusFound(signature)))));
    }
  }

  /** The check of its kind lets the text pass, as it is or changed. */
  ghost predicate Passes(kind: Kind, text: bytes) {
    match kind
    case Archive(refused) => !refused
    case Text(haveMemory) => haveMemory || !(BOM <= text)
    case Other(result) => result.SanClean? || result.SanModified?
  }

  /** It leaves something else of the text, and not nothing. */
  ghost predicate Changes(kind: Kind, text: bytes) {
    match kind
    case Archive(_) => false
    case Text(_) => BOM <= text && text != BOM
    case Other(result) => result.SanModified? && result.output != []
  }

  // ---------------------------------------------------------------------------
  // The inspection

  /** scanner_inspect.  `rc` is -1 when the file type detector is missing. */
  method Inspect(w: World, text: bytes, skipAv: bool)
    returns (rc: int, verdict: ScanVerdict, output: Option<bytes>, sessions: seq<Session>)
    ensures Inspected(w, text, skipAv) == if rc == 0 then Some((verdict, output)) else None
    ensures (rc == 0 || rc == -1) && (output.Some? ==> verdict.VSanitized?)
    ensures rc == 0 && text != [] && !skipAv && (verdict.VClean? || verdict.VSanitized?) ==>
              CleanSession(sessions, text)
    ensures rc == 0 && (verdict.VClean? || verdict.VSanitized?) ==> NothingInfected(sessions)
    ensures skipAv ==> sessions == []
  {
    hide BufferDelivers, SaysFound, SaysClean, Handed;
    rc, verdict, output, sessions := 0, VError, None, [];
    if |text| == 0 {
      verdict := VClean;
      return;
    }
    if !w.haveDetector {
      rc := -1;
      return;
    }
    if !w.typeDetected {
      return;
    }
    if !w.typeAllowed || !w.extensionFits {
      verdict := VRejected;
      return;
    }
    if !skipAv {
      var av, session := ScanBuffer(w.buffer, text);
      sessions := [session];
      if !av.Clean? {
        verdict := VRejected;
        return;
      }
      CleanIsNotFound(session.reply);
      assert Handed(sessions[0], text) && SaysClean(sessions[0].reply);
    }
    if w.yara.YaraMatch? || w.yara.YaraTimeout? {
      verdict := VRejected;
      return;
    }
    if w.kind.Archive? {
      verdict := if w.kind.refused then VRejected else VClean;
      return;
    }
    var sanitized := if w.kind.Other? then w.kind.result else SanClean;
    if w.kind.Text? {
      sanitized := SanitizeAsText(text, w.kind.haveMemory);
    }
    match sanitized {
      case SanClean => verdict := VClean;
      case SanModified(out) => verdict, output := VSanitized, Some(out);
      case SanRejected => verdict := VRejected;
      case SanError => verdict := VError;
    }
  }

  lemma CleanIsNotFound(reply: ClamAv.Reply)
    ensures SaysClean(reply) ==> !SaysFound(reply)
  {
  }

  method SanitizeAsText(text: bytes, haveMemory: bool) returns (r: SanitizeResult)
    ensures r == if !(BOM <= text) then SanClean else if haveMemory then SanModified(text[|BOM|..]) else SanError
  {
    var t := SanitizeText(text, haveMemory);
    match t {
      case TextClean => r := SanClean;
      case TextModified(out) =>
        assert out == text[|BOM|..];
        r := SanModified(out);
      case TextError => r := SanError;
    }
  }

  /** One more stream is left open if so, and none if not. */
  ghost predicate Abandons(so: bool, before: set<ClamStream>, after: set<ClamStream>)
    reads after
  {
    if so then exists s <- after :: s !in before && s.live && after == before + {s} else after == before
  }

  lemma AbandonsOneOrNone(so: bool, before: set<ClamStream>, after: set<ClamStream>)
    requires Abandons(so, before, after)
    ensures before <= after && |after| == |before| + (if so then 1 else 0)
    ensures after == before <==> !so
    ensures forall s <- after :: s in before || s.live
  {
  }

  /** What the daemon counts while a scan is at work: the scans, the bytes, and the users. */
  datatype Held = Held(scans: int, bytes: int, usage: Usage)

  /** The sessions with clamd, and what was counted while the scan was at work, if it got there. */
  datatype Evidence = Evidence(sessions: seq<Session>, held: Option<Held>)

  const NO_EVIDENCE: Evidence := Evidence([], None)

  /** A verdict is given only on authentic content; and nothing is released that clamd was not handed
      in full and called clean, or in which it found anything. */
  ghost predicate Justified(c: Crypto, req: Request, file: bytes, w: World, reply: Reply, e: Evidence) {
    reply.Answer? ==>
      && w.unsealed.Some?
      && var key := w.unsealed.value;
      exists text :: Authentic(c, req, file, key, text)
        && (reply.verdict.VClean? || reply.verdict.VSanitized? ==>
              NothingInfected(e.sessions) && (text != [] ==> CleanSession(e.sessions, text)))
  }

  /** An answer on content that was sanitized to nothing. */
  ghost predicate LeavesBuffer(found: Option<Finding>) {
    found == Some((VSanitized, Some([])))
  }

  /** Of what is taken for text and sanitized, exactly the mark alone gets no new file. */
  lemma OnlyTheMarkGetsNoFile(c: Crypto, req: Request, file: bytes, w: World, usage: Usage, reserved: int, reply: Reply)
    requires Lawful(c.aead)
    ensures Replies(c, req, file, w, usage, reserved, reply) && w.kind.Text? && reply.Answer? && reply.verdict.VSanitized? ==>
              (reply.meta.None? <==> Plain(c, req, file, w.unsealed.value) == Some(BOM))
    ensures w.kind.Text? && w.unsealed.Some? && Plain(c, req, file, w.unsealed.value) != Some(BOM) ==>
              !LeavesBuffer(Found(c, req, file, w, usage, reserved))
  {
    hide Decrypted, MetadataHolds, Republished, StreamDelivers, BufferDelivers, SaysFound, SaysClean, FramesIn;
    if w.unsealed.Some? && Plain(c, req, file, w.unsealed.value).Some? {
      NothingLeftExactly(Plain(c, req, file, w.unsealed.value).value);
    }
  }

  class Daemon {
    var inflight: int
    var inflightBytes: int
    const submitters: Table
    /** The clamd streams that were begun and not finished. */
    ghost var streams: set<ClamStream>
    /** The sanitizer's buffers that were taken over and not freed. */
    ghost var buffers: int

    ghost predicate Valid()
      reads this, submitters, submitters.slots, streams
    {
      submitters.Valid() && forall s :: s in streams ==> s.live
    }

    constructor ()
      ensures Valid() && inflight == 0 && inflightBytes == 0 && submitters.usage == map[] && streams == {} && buffers == 0
    {
      inflight, inflightBytes, streams, buffers := 0, 0, {}, 0;
      submitters := new Table();
    }

    /** clamav_stream_begin. */
    method BeginStream(d: Clamd) returns (stream: ClamStream?)
      modifies this`streams
      ensures stream != null <==> d.connects && |COMMAND| <= d.takes
      ensures stream == null ==> streams == old(streams)
      ensures stream != null ==> fresh(stream) && stream.Valid() && stream.live && stream.clamd == d
      ensures stream != null ==> At(stream) == Position(false, [], |COMMAND|) && streams == old(streams) + {stream}
    {
      stream := null;
      if d.connects {
        var ok, _ := SendAll(d.takes, [], COMMAND);
        if ok {
          stream := new ClamStream(d);
          streams := streams + {stream};
        }
      }
    }

    method EndStream(stream: ClamStream) returns (verdict: ClamAv.Verdict, session: Session)
      requires stream.Valid() && stream.live
      modifies this`streams, stream`live
      ensures streams == old(streams) - {stream} && !stream.live
      ensures verdict.Infected? <==> Arrives(stream) && SaysFound(stream.clamd.reply)
      ensures verdict.Clean? <==> Arrives(stream) && SaysClean(stream.clamd.reply)
      ensures if Arrives(stream) then Handed(session, stream.data) && session.reply == stream.clamd.reply else session.reply.NoReply?
    {
      hide Handed, SaysFound, SaysClean;
      verdict, session := stream.Finish();
      streams := streams - {stream};
    }

    /** tee_admission_reserve, run by one worker. */
    method Reserve(amount: nat) returns (rc: int)
      modifies this`inflightBytes
      ensures rc == if old(inflightBytes) + amount > BUDGET then -1 else 0
      ensures inflightBytes == old(inflightBytes) + (if rc == 0 then amount else 0)
    {
      inflightBytes := inflightBytes + amount;
      var after := inflightBytes;
      if after > BUDGET {
        inflightBytes := inflightBytes - amount;
        return -1;
      }
      rc := 0;
    }

    /** handle_scan. */
    method HandleScan(c: Crypto, request: Option<Request>, file: bytes, w: World)
      returns (outputs: seq<Output>, reply: Reply, ghost e: Evidence)
      requires Valid() && Lawful(c.aead)
      modifies this`inflight, this`inflightBytes, this`streams, this`buffers, submitters, submitters.slots
      ensures Valid()
      // whatever way out was taken, the counts and the slot are given back
      ensures inflight == old(inflight) && inflightBytes == old(inflightBytes)
      ensures submitters.usage == old(submitters.usage)
      // which outcomes give which reply
      ensures request.None? ==> reply == Failed
      ensures request.Some? ==>
                Replies(c, request.value, file, w, old(submitters.usage), old(inflightBytes), reply)
      ensures request.Some? ==> Justified(c, request.value, file, w, reply, e)
      // what an admitted scan holds while it is at work, and nobody else works
      ensures e.held ==
                if request.Some? && Admitted(request.value, w, old(submitters.usage), old(inflightBytes))
                then Some(Held(old(inflight) + 1, old(inflightBytes) + request.value.size * RESERVE_MULT,
                               Acquired(old(submitters.usage), request.value.user)))
                else None
      // what is seen of it: an acknowledgement exactly for an admitted request that asks for one, one
      // line in the audit log for all but the busy replies, and one reply, in the verdict file where
      // the client was told to go away
      ensures var acked := e.held.Some? && request.Some? && request.value.detach;
        outputs == (if acked then [Ack] else [])
                   + (if reply.Answer? then [Logged(reply.verdict)] else if reply.Failed? then [Logged(VError)] else [])
                   + [if acked then InVerdictFile(reply) else OnSocket(reply)]
      // the clamd stream is closed but on the one way out that forgets it
      ensures old(streams) <= streams
      ensures var forgotten := request.Some? && e.held.Some? && Forgets(c, request.value, file, w);
        |streams| == |old(streams)| + (if forgotten then 1 else 0) && (streams == old(streams) <==> !forgotten)
      // and the sanitizer's buffer freed, but for one of no bytes that is answered with
      ensures buffers == old(buffers) +
                if request.Some? && LeavesBuffer(Found(c, request.value, file, w, old(submitters.usage), old(inflightBytes)))
                then 1 else 0
    {
      hide Justified, Forgets, Abandons, Replies, Admitted, Found, Acquired, LeavesBuffer, Sound, Represents;
      reply, e := Failed, NO_EVIDENCE;
      var detached := false;
      inflight := inflight + 1;
      if request.Some? {
        detached, reply, e := ScanRequest(c, request.value, file, w);
        AbandonsOneOrNone(e.held.Some? && Forgets(c, request.value, file, w), old(streams), streams);
      }
      outputs := if detached then [Ack] else [];
      if reply.Answer? {
        outputs := outputs + [Logged(reply.verdict)];
      } else if reply.Failed? {
        outputs := outputs + [Logged(VError)];
      }
      inflight := inflight - 1;
      outputs := outputs + [if detached then InVerdictFile(reply) else OnSocket(reply)];
    }

    /** handle_scan on a request that was understood. */
    method ScanRequest(c: Crypto, req: Request, file: bytes, w: World)
      returns (detached: bool, reply: Reply, ghost e: Evidence)
      requires submitters.Valid() && Lawful(c.aead)
      modifies this`inflightBytes, this`streams, this`buffers, submitters, submitters.slots
      ensures submitters.Valid() && submitters.usage == old(submitters.usage)
      ensures inflightBytes == old(inflightBytes)
      ensures e.held ==
                if Admitted(req, w, old(submitters.usage), old(inflightBytes))
                then Some(Held(inflight, old(inflightBytes) + req.size * RESERVE_MULT, Acquired(old(submitters.usage), req.user)))
                else None
      ensures detached <==> e.held.Some? && req.detach
      ensures Abandons(e.held.Some? && Forgets(c, req, file, w), old(streams), streams)
      ensures buffers == old(buffers) +
                if LeavesBuffer(Found(c, req, file, w, old(submitters.usage), old(inflightBytes))) then 1 else 0
      ensures Replies(c, req, file, w, old(submitters.usage), old(inflightBytes), reply)
      ensures Justified(c, req, file, w, reply, e)
    {
      hide Forgets, Authentic, MayAcquire, Due, Answers, Released, Sound, Represents;
      detached, reply, e := false, UserBusy, NO_EVIDENCE;
      ghost var usage := submitters.usage;
      var slot := submitters.Acquire(req.user);
      if slot == 0 {
        hide Justified, Abandons;
        ReleaseUndoesAcquire(usage, req.user);
        detached, reply, e := ScanInSlot(c, req, file, w);
        submitters.Release(req.user);
      }
    }

    /** handle_scan once the user slot is held, down to the release of the reservation. */
    method ScanInSlot(c: Crypto, req: Request, file: bytes, w: World)
      returns (detached: bool, reply: Reply, ghost e: Evidence)
      requires Lawful(c.aead)
      modifies this`inflightBytes, this`streams, this`buffers
      ensures inflightBytes == old(inflightBytes)
      ensures var reserved := old(inflightBytes) + req.size * RESERVE_MULT;
        && (reply.Busy? <==> w.unsealed.Some? && reserved > BUDGET)
        && (reply.Answer? ==> w.unsealed.Some? && reserved <= BUDGET)
        && e.held == (if w.unsealed.Some? && reserved <= BUDGET then Some(Held(inflight, reserved, submitters.usage)) else None)
      ensures detached <==> e.held.Some? && req.detach
      ensures !reply.UserBusy?
      ensures e.held.Some? ==> Answers(c, w, w.unsealed.value, Due(c, req, file, w, w.unsealed.value), reply)
      ensures Abandons(e.held.Some? && Forgets(c, req, file, w), old(streams), streams)
      ensures buffers == old(buffers) +
                if e.held.Some? && LeavesBuffer(Due(c, req, file, w, w.unsealed.value)) then 1 else 0
      ensures Justified(c, req, file, w, reply, e)
    {
      hide Forgets, Authentic, Due, Answers;
      detached, reply, e := false, Failed, NO_EVIDENCE;
      if !w.unsealed.Some? {
        return;
      }
      var amount := req.size * RESERVE_MULT;
      var admitted := Reserve(amount);
      if admitted != 0 {
        reply := Busy;
        return;
      }
      detached := req.detach;
      reply, e := Work(c, req, file, w, w.unsealed.value);
      inflightBytes := inflightBytes - amount;
    }

    /** The part of handle_scan between admission and release.  The counts are not its to change. */
    method Work(c: Crypto, req: Request, file: bytes, w: World, key: bytes) returns (reply: Reply, ghost e: Evidence)
      requires Lawful(c.aead) && w.unsealed == Some(key)
      modifies this`streams, this`buffers
      ensures e.held == Some(Held(inflight, inflightBytes, submitters.usage))
      ensures reply.Failed? || reply.Answer?
      ensures Answers(c, w, key, Due(c, req, file, w, key), reply)
      ensures Abandons(Forgets(c, req, file, w), old(streams), streams)
      ensures buffers == old(buffers) + if LeavesBuffer(Due(c, req, file, w, key)) then 1 else 0
      ensures Justified(c, req, file, w, reply, e)
    {
      hide Decrypted, ReadFrames, MacVerifies, CleanSession, NothingInfected, StreamDelivers, Judged, Fed, Arrives, Published;
      reply := Failed;
      e := Evidence([], Some(Held(inflight, inflightBytes, submitters.usage)));
      var stream := BeginStream(w.stream);
      var plain, chunks := DecryptFile(c.aead, c.sha, file, key, req.nonce, req.chunks, req.sha, req.version, stream);
      if plain.None? {
        if stream != null {
          var _, _ := EndStream(stream);
        }
        return;
      }
      if !MetadataHolds(c, req, key, plain.value) {
        // the stream, if there is one, is left as it is
        return;
      }
      assert Authentic(c, req, file, key, plain.value);
      StreamArrives(w.stream, stream, chunks);
      var sessions;
      reply, sessions := Judge(c, w, key, chunks, plain.value, stream);
      e := e.(sessions := sessions);
    }

    /** From the decrypted file, and the stream it went to, to the reply. */
    method Judge(c: Crypto, w: World, key: bytes, ghost chunks: seq<bytes>, text: bytes, stream: ClamStream?)
      returns (reply: Reply, sessions: seq<Session>)
      requires Lawful(c.aead)
      requires stream != null ==>
                 && stream.Valid() && stream.live && stream.clamd == w.stream
                 && (Arrives(stream) ==> stream.data == text)
      requires stream != null && Arrives(stream) <==> StreamDelivers(w.stream, chunks)
      modifies this`streams, this`buffers, stream
      ensures streams == if stream == null then old(streams) else old(streams) - {stream}
      ensures reply.Failed? || reply.Answer?
      ensures Answers(c, w, key, Published(w, Judged(w, chunks, text)), reply)
      ensures buffers == old(buffers) + if LeavesBuffer(Published(w, Judged(w, chunks, text))) then 1 else 0
      ensures reply.Answer? && (reply.verdict.VClean? || reply.verdict.VSanitized?) ==>
                NothingInfected(sessions) && (text != [] ==> CleanSession(sessions, text))
    {
      hide Republished, CleanSession, NothingInfected, StreamDelivers, Judged, Arrives;
      reply := Failed;
      var ok, verdict, output;
      ok, verdict, output, sessions := Examine(w, chunks, text, stream);
      buffers := buffers + if output.Some? then 1 else 0;
      if !ok {
        buffers := buffers - if output.Some? then 1 else 0;
        return;
      }
      var meta: Option<NewMeta> := None;
      if output.Some? && |output.value| > 0 {
        meta := Republish(c, key, output.value, w);
        buffers := buffers - 1;
        if meta.None? {
          return;
        }
      }
      reply := Answer(verdict, meta);
    }

    /** The verdict on a decrypted file whose chunks went to `stream`: the stream's own answer, or,
        when it has none, a second scan of the whole buffer; then the type and content checks. */
    method Examine(w: World, ghost chunks: seq<bytes>, text: bytes, stream: ClamStream?)
      returns (ok: bool, verdict: ScanVerdict, output: Option<bytes>, sessions: seq<Session>)
      requires stream != null ==>
                 && stream.Valid() && stream.live && stream.clamd == w.stream
                 && (Arrives(stream) ==> stream.data == text)
      requires stream != null && Arrives(stream) <==> StreamDelivers(w.stream, chunks)
      modifies this`streams, stream
      ensures streams == if stream == null then old(streams) else old(streams) - {stream}
      ensures Judged(w, chunks, text) == if ok then Some((verdict, output)) else None
      ensures ok && (verdict.VClean? || verdict.VSanitized?) ==>
                && (text != [] ==> CleanSession(sessions, text))
                && NothingInfected(sessions)
      ensures output.Some? ==> verdict.VSanitized?
    {
      hide StreamDelivers, SaysFound, SaysClean, Handed, Refused;
      ok, verdict, output, sessions := false, VRejected, None, [];
      var av := Unavailable;
      if stream != null {
        var session;
        av, session := EndStream(stream);
        CleanIsNotFound(session.reply);
        NothingIsNotFound();
        sessions := [session];
        assert av.Clean? ==> Handed(sessions[0], text) && SaysClean(sessions[0].reply);
      }
      if av.Infected? {
        ok := true;
        return;
      }
      assert NothingInfected(sessions) && (av.Clean? ==> CleanSession(sessions, text));
      if PastDeadline(None, w.firstLook) {
        return;
      }
      var rc, more;
      rc, verdict, output, more := Inspect(w, text, av.Clean?);
      SessionsJoin(sessions, more, text);
      sessions := sessions + more;
      ok := rc == 0 && !PastDeadline(Some(verdict), w.secondLook);
    }
  }

  /** The stream has room for the terminator. */
  ghost predicate Arrives(stream: ClamStream)
    reads stream
  {
    !stream.broken && stream.Room(0, |TERMINATOR|)
  }

  lemma StreamArrives(d: Clamd, stream: ClamStream?, chunks: seq<bytes>)
    requires stream != null <==> d.connects && |COMMAND| <= d.takes
    requires stream != null ==> stream.clamd == d && Fed(d.takes, Position(false, [], |COMMAND|), chunks, At(stream))
    ensures stream != null && Arrives(stream) <==> StreamDelivers(d, chunks)
    ensures stream != null && Arrives(stream) ==> stream.data == Flatten(chunks)
  {
  }

  lemma NothingIsNotFound()
    ensures !SaysFound(NoReply)
  {
    NothingStandsInNothing(" FOUND");
  }

  /** The stream is forgotten exactly where one was begun and what decrypts is not what the MAC is about. */
  ghost predicate Forgets(c: Crypto, req: Request, file: bytes, w: World) {
    w.stream.connects && |COMMAND| <= w.stream.takes && w.unsealed.Some? && Forged(c, req, file, w.unsealed.value)
  }

  /** The announced file decrypts to the cleaned content and its metadata MAC verifies. */
  ghost predicate Republished(c: Crypto, key: bytes, cleaned: bytes, nonce: bytes, m: NewMeta)
    requires Lawful(c.aead)
  {
    && m.nonce == nonce
    && Fit(Chunks(cleaned)) && m.file == FileOf(c.aead, key, m.nonce, 0, Chunks(cleaned))
    && m.chunks == |Chunks(cleaned)| && m.size == |cleaned| && m.sha == HexEncode(c.sha(cleaned))
    && m.mac == ComputeMac(c.hmac, key, FieldsOf(c, METADATA_VERSION, m.nonce, m.chunks, c.sha(cleaned), m.size))
  }

  /** Re-encrypts what the sanitizer made, under the same key and a fresh nonce. */
  method Republish(c: Crypto, key: bytes, cleaned: bytes, w: World) returns (meta: Option<NewMeta>)
    requires Lawful(c.aead)
    ensures meta.Some? <==> w.written && w.signed
    ensures meta.Some? ==> Republished(c, key, cleaned, w.nonce, meta.value)
  {
    hide FileOf, Chunks, ComputeMac, FieldsOf;
    var file, chunks, digest, _ := EncryptFile(c.aead, c.sha, cleaned, key, w.nonce);
    if !w.written {
      return None;
    }
    var mac := ComputeMac(c.hmac, key, FieldsOf(c, METADATA_VERSION, w.nonce, chunks, digest, |cleaned|));
    if !w.signed {
      return None;
    }
    meta := Some(NewMeta(file, w.nonce, chunks, HexEncode(digest), |cleaned|, mac));
  }

  lemma SessionsJoin(a: seq<Session>, b: seq<Session>, text: bytes)
    ensures CleanSession(a, text) || CleanSession(b, text) ==> CleanSession(a + b, text)
    ensures NothingInfected(a) && NothingInfected(b) ==> NothingInfected(a + b)
  {
    hide Handed, SaysClean, SaysFound;
    if CleanSession(a, text) {
      var i :| 0 <= i < |a| && Handed(a[i], text) && SaysClean(a[i].reply);
      assert (a + b)[i] == a[i];
    } else if CleanSession(b, text) {
      var i :| 0 <= i < |b| && Handed(b[i], text) && SaysClean(b[i].reply);
      assert (a + b)[|a| + i] == b[i];
    }
  }

  /** A published file is itself a valid upload: the announced fields pass the parser's check, a
      decryption with them returns the cleaned bytes, and there is a MAC, which verifies. */
  lemma RepublishedIsAuthentic(c: Crypto, key: bytes, cleaned: bytes, m: NewMeta, user: nat, detach: bool)
    requires Lawful(c.aead)
    ensures Republished(c, key, cleaned, m.nonce, m) ==> m.size >= 0 && ChunkCountPlausible(m.size, m.chunks)
    ensures
      && Republished(c, key, cleaned, m.nonce, m)
      && |cleaned| + (LEN_PREFIX + TAG_SIZE) * |Chunks(cleaned)| <= MAX_PLAINTEXT
      && |c.base64(m.nonce)| <= 47 && |c.sha(cleaned)| == 32
      && |c.hmac(key, Canonical(FieldsOf(c, METADATA_VERSION, m.nonce, m.chunks, c.sha(cleaned), m.size)))| == MAC_SIZE ==>
        && m.mac.Some?
        && var req := Request(user, METADATA_VERSION, m.nonce, m.chunks, Digest(c.sha(cleaned)), m.size, m.mac.value, detach);
        Authentic(c, req, m.file, key, cleaned)
  {
    hide FileOf, Chunks, Decrypted, ComputeMac, MacVerifies, FieldsOf, Canonical, HexEncode;
    if Republished(c, key, cleaned, m.nonce, m) {
      WrittenCountIsPlausible(cleaned);
      RoundTrip(c.aead, c.sha, cleaned, key, m.nonce, Digest(c.sha(cleaned)), METADATA_VERSION);
      OwnMacVerifies(c, key, FieldsOf(c, METADATA_VERSION, m.nonce, m.chunks, c.sha(cleaned), m.size));
      RealMacIsMade(c, key, METADATA_VERSION, m.nonce, m.chunks, c.sha(cleaned), m.size);
      ChunksShape(cleaned);
    }
  }

  lemma RealMacIsMade(c: Crypto, key: bytes, version: int, nonce: bytes, chunks: int, digest: bytes, size: int)
    ensures 0 <= version < 0x8000_0000 && 0 <= chunks < 0x8000_0000 && 0 <= size <= MAX_PLAINTEXT
            && |c.base64(nonce)| <= 47 && |digest| == 32 ==>
              ComputeMac(c.hmac, key, FieldsOf(c, version, nonce, chunks, digest, size)).Some?
  {
    hide Canonical;
    var f := FieldsOf(c, version, nonce, chunks, digest, size);
    if 0 <= version < 0x8000_0000 && 0 <= chunks < 0x8000_0000 && 0 <= size <= MAX_PLAINTEXT
       && |c.base64(nonce)| <= 47 && |digest| == 32 {
      RealFieldsFit(f);
    }
  }

  /** Base 64 has no quotes, and can be undone. */
  ghost predicate Base64Lawful(c: Crypto) {
    forall n :: '\"' !in c.base64(n) && forall m :: c.base64(m) == c.base64(n) ==> m == n
  }

  /** Lower-case hex has these laws too. */
  lemma LawfulBase64Exists(c: Crypto) returns (hex: Crypto)
    ensures Base64Lawful(hex)
  {
    hide HexEncode;
    hex := c.(base64 := n => HexEncode(n));
    forall n ensures '\"' !in hex.base64(n) && forall m :: hex.base64(m) == hex.base64(n) ==> m == n {
      HexIsQuoteFree(n);
      forall m | hex.base64(m) == hex.base64(n) ensures m == n {
        HexInjective(m, n);
      }
    }
  }

  /** One MAC is for one upload: two that are authentic under one key and carry the same MAC agree in
      version, nonce, number of chunks, size and the digest of what they decrypt to, or else the HMAC
      collides on their two lines. */
  lemma OneMacOneUpload(c: Crypto, key: bytes, r1: Request, file1: bytes, text1: bytes, r2: Request, file2: bytes, text2: bytes)
    ensures Base64Lawful(c) && Authentic(c, r1, file1, key, text1) && Authentic(c, r2, file2, key, text2) && r1.mac == r2.mac ==>
            || (r1.version == r2.version && r1.nonce == r2.nonce && r1.chunks == r2.chunks && r1.size == r2.size
                && c.sha(text1) == c.sha(text2))
            || var (line1, line2) := (
                 Canonical(Fields(r1.version, c.base64(r1.nonce), CHUNK_SIZE, r1.chunks, HexEncode(c.sha(text1)), r1.size)),
                 Canonical(Fields(r2.version, c.base64(r2.nonce), CHUNK_SIZE, r2.chunks, HexEncode(c.sha(text2)), r2.size)));
               line1 != line2 && c.hmac(key, line1) == c.hmac(key, line2)
  {
    hide Decrypted, Canonical, HexEncode, HexDecode, BuildCanonical;
    var f1 := FieldsOf(c, r1.version, r1.nonce, r1.chunks, c.sha(text1), r1.size);
    var f2 := FieldsOf(c, r2.version, r2.nonce, r2.chunks, c.sha(text2), r2.size);
    HexIsQuoteFree(c.sha(text1));
    HexIsQuoteFree(c.sha(text2));
    if Base64Lawful(c) && Canonical(f1) == Canonical(f2) {
      CanonicalInjective(f1, f2);
      HexInjective(c.sha(text1), c.sha(text2));
    }
  }

  lemma OwnMacVerifies(c: Crypto, key: bytes, f: Fields)
    ensures var mac := ComputeMac(c.hmac, key, f);
      mac.Some? && |c.hmac(key, Canonical(f))| == MAC_SIZE ==> MacVerifies(c.hmac, key, f, mac.value)
  {
    hide HexEncode, HexDecode;
    var mac := c.hmac(key, Canonical(f));
    HexRoundTrip(mac);
    if |mac| == MAC_SIZE {
      assert HexEncode(mac)[..2 * MAC_SIZE] == HexEncode(mac);
    }
  }

  /** Not both of two different MACs can hold. */
  lemma OneMacHolds(c: Crypto, req: Request, key: bytes, text: bytes)
    ensures var (zeros, ones) := (Repeat(MAC_SIZE, 0), Repeat(MAC_SIZE, 1));
      !(MetadataHolds(c, req.(mac := HexEncode(zeros)), key, text) && MetadataHolds(c, req.(mac := HexEncode(ones)), key, text))
  {
    hide HexEncode, HexDecode, BuildCanonical, Canonical, FieldsOf;
    var (zeros, ones) := (Repeat(MAC_SIZE, 0), Repeat(MAC_SIZE, 1));
    HexRoundTrip(zeros);
    HexRoundTrip(ones);
    assert HexEncode(zeros)[..2 * MAC_SIZE] == HexEncode(zeros);
    assert HexEncode(ones)[..2 * MAC_SIZE] == HexEncode(ones);
    assert zeros[0] != ones[0];
  }

  /** The request that a stream is left open for: any file that was properly encrypted, announced
      with its true size and count, and a MAC of proper form that is not its own. */
  lemma ForgedUploadExists(c: Crypto, key: bytes, nonce: bytes, text: bytes, user: nat) returns (req: Request)
    requires Lawful(c.aead)
    ensures Fit(Chunks(text))
    ensures |text| + (LEN_PREFIX + TAG_SIZE) * |Chunks(text)| <= MAX_PLAINTEXT ==>
              Forged(c, req, FileOf(c.aead, key, nonce, 0, Chunks(text)), key)
    ensures req.user == user && req.size == |text| && ChunkCountPlausible(req.size, req.chunks)
    ensures |req.mac| == 2 * MAC_SIZE && HexDecode(req.mac).Some?
  {
    hide FileOf, Decrypted, MetadataHolds, HexEncode, HexDecode, Chunks;
    ChunksShape(text);
    WrittenCountIsPlausible(text);
    RoundTrip(c.aead, c.sha, text, key, nonce, ShaClaim.Absent, METADATA_VERSION);
    var (zeros, ones) := (Repeat(MAC_SIZE, 0), Repeat(MAC_SIZE, 1));
    HexRoundTrip(zeros);
    HexRoundTrip(ones);
    req := Request(user, METADATA_VERSION, nonce, |Chunks(text)|, ShaClaim.Absent, |text|, HexEncode(zeros), false);
    OneMacHolds(c, req, key, text);
    if MetadataHolds(c, req, key, text) {
      req := req.(mac := HexEncode(ones));
    }
  }
}
