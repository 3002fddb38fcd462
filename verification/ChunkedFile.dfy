// The encrypted file format of crypto.c.
module ChunkedFile {
  // Length-prefixed AEAD frames under a counter nonce, each bound to its index, written by
  // tee_encrypt_file and read by tee_decrypt_file_cb.

  import opened Bytes
  import opened Limits
  import opened Nonce
  import opened ClamAv

  const CHUNK_SIZE: int := 1024 * 1024
  const TAG_SIZE: int := 16
  const LEN_PREFIX: int := 4
  const MAX_FRAME: int := CHUNK_SIZE + TAG_SIZE + 1024
  const METADATA_VERSION: int := 2

  /** An authenticated cipher: `seal(key, nonce, ad, text)` and `open(key, nonce, ad, sealed)`. */
  datatype Aead = Aead(
    seal: (bytes, bytes, bytes, bytes) -> bytes,
    open: (bytes, bytes, bytes, bytes) -> Option<bytes>)

  /** What XChaCha20-Poly1305 gives as a function: the tag is 16 bytes, opening undoes sealing,
      and only a sealed text opens. */
  ghost predicate Lawful(a: Aead) {
    forall key, nonce, ad, x :: LawsAt(a, key, nonce, ad, x)
  }

  ghost predicate LawsAt(a: Aead, key: bytes, nonce: bytes, ad: bytes, x: bytes) {
    && |a.seal(key, nonce, ad, x)| == |x| + TAG_SIZE
    && a.open(key, nonce, ad, a.seal(key, nonce, ad, x)) == Some(x)
    && (a.open(key, nonce, ad, x).Some? ==> a.seal(key, nonce, ad, a.open(key, nonce, ad, x).value) == x)
  }

  /** The laws are satisfiable: a cipher that only appends a fixed tag has them. */
  lemma LawfulCipherExists()
    ensures exists a :: Lawful(a)
  {
    var tag: bytes := seq(TAG_SIZE, _ => 0);
    var a := Aead(
      (k, n, ad, text) => text + tag,
      (k, n, ad, sealed) =>
        if |sealed| >= TAG_SIZE && sealed[|sealed| - TAG_SIZE..] == tag
        then Some(sealed[..|sealed| - TAG_SIZE]) else None);
    assert Lawful(a) by {
      forall key, nonce, ad, x ensures LawsAt(a, key, nonce, ad, x) {
        assert (x + tag)[|x|..] == tag && (x + tag)[..|x|] == x;
        assert |x| >= TAG_SIZE ==> x == x[..|x| - TAG_SIZE] + x[|x| - TAG_SIZE..];
      }
    }
  }

  function AD(i: nat): bytes { BE32(i % TWO32) }

  // ---------------------------------------------------------------------------
  // The format: a file is the frames of a list of chunks

  ghost predicate Fit(chunks: seq<bytes>) {
    forall i :: 0 <= i < |chunks| ==> |chunks[i]| + TAG_SIZE <= MAX_FRAME
  }

  /** The frame of chunk `i`. */
  ghost function Frame(a: Aead, key: bytes, nonce: bytes, i: nat, chunk: bytes): (f: bytes)
    requires Lawful(a) && |chunk| + TAG_SIZE <= MAX_FRAME
    ensures |f| == LEN_PREFIX + |chunk| + TAG_SIZE
  {
    assert LawsAt(a, key, NonceAt(nonce, i), AD(i), chunk);
    var sealed := a.seal(key, NonceAt(nonce, i), AD(i), chunk);
    BE32(|sealed|) + sealed
  }

  /** The frames of `chunks`, the first of which has index `i`. */
  ghost function FileOf(a: Aead, key: bytes, nonce: bytes, i: nat, chunks: seq<bytes>): bytes
    requires Lawful(a) && Fit(chunks)
    decreases |chunks|
  {
    if chunks == [] then []
    else Frame(a, key, nonce, i, chunks[0]) + FileOf(a, key, nonce, i + 1, chunks[1..])
  }

  lemma {:induction false} FileSize(a: Aead, key: bytes, nonce: bytes, i: nat, chunks: seq<bytes>)
    requires Lawful(a) && Fit(chunks)
    ensures |FileOf(a, key, nonce, i, chunks)| == |Flatten(chunks)| + (LEN_PREFIX + TAG_SIZE) * |chunks|
    decreases |chunks|
  {
    if chunks != [] {
      FileSize(a, key, nonce, i + 1, chunks[1..]);
    }
  }

  function Pieces(text: bytes): seq<bytes> {
    if text == [] then []
    else if |text| <= CHUNK_SIZE then [text]
    else [text[..CHUNK_SIZE]] + Pieces(text[CHUNK_SIZE..])
  }

  /** The chunks of a plaintext: 1 MiB pieces, and one empty chunk for an empty file. */
  function Chunks(text: bytes): seq<bytes> {
    if text == [] then [[]] else Pieces(text)
  }

  lemma {:induction false} PiecesShape(text: bytes)
    ensures Fit(Pieces(text)) && Flatten(Pieces(text)) == text
    ensures |Pieces(text)| == (|text| + CHUNK_SIZE - 1) / CHUNK_SIZE
  {
    if |text| > CHUNK_SIZE {
      var head, tail := text[..CHUNK_SIZE], text[CHUNK_SIZE..];
      var rest := Pieces(tail);
      assert Pieces(text) == [head] + rest;
      PiecesShape(tail);
      hide Pieces;
      assert ([head] + rest)[1..] == rest && text == head + tail;
      CeilStep(|tail|);
    } else if text != [] {
      assert [text][1..] == [];
    }
  }

  lemma CeilStep(n: nat)
    ensures (n + CHUNK_SIZE + CHUNK_SIZE - 1) / CHUNK_SIZE == (n + CHUNK_SIZE - 1) / CHUNK_SIZE + 1
  {
  }

  lemma ChunksShape(text: bytes)
    ensures Fit(Chunks(text)) && Flatten(Chunks(text)) == text
    ensures |Chunks(text)| == if text == [] then 1 else (|text| + CHUNK_SIZE - 1) / CHUNK_SIZE
  {
    PiecesShape(text);
    if text == [] {
      assert Flatten([[]]) == [] + Flatten([]);
    }
  }

  // ---------------------------------------------------------------------------
  // Reading

  function Prepend(front: seq<bytes>, back: Option<seq<bytes>>): Option<seq<bytes>> {
    match back
    case None => None
    case Some(b) => Some(front + b)
  }

  /** The first frame of a non-empty file: its chunk and what follows it, or None when the frame
      is cut short, too long or does not open. */
  function ReadOne(a: Aead, key: bytes, nonce: bytes, i: nat, file: bytes): (r: Option<(bytes, bytes)>)
    ensures r.Some? ==> |r.value.1| < |file|
  {
    if |file| < LEN_PREFIX then None
    else
      var n := ReadBE32(file);
      if n > MAX_FRAME || |file| < LEN_PREFIX + n then None
      else
        match a.open(key, NonceAt(nonce, i), AD(i), file[LEN_PREFIX..LEN_PREFIX + n])
        case None => None
        case Some(chunk) => Some((chunk, file[LEN_PREFIX + n..]))
  }

  /** The chunks of a file whose first frame has index `i`. */
  function ReadFrames(a: Aead, key: bytes, nonce: bytes, i: nat, file: bytes): Option<seq<bytes>>
    decreases |file|
  {
    if file == [] then Some([])
    else
      match ReadOne(a, key, nonce, i, file)
      case None => None
      case Some((chunk, rest)) => Prepend([chunk], ReadFrames(a, key, nonce, i + 1, rest))
  }

  lemma ReadFrame(a: Aead, key: bytes, nonce: bytes, i: nat, chunk: bytes, rest: bytes)
    requires Lawful(a) && |chunk| + TAG_SIZE <= MAX_FRAME
    ensures ReadOne(a, key, nonce, i, Frame(a, key, nonce, i, chunk) + rest) == Some((chunk, rest))
  {
    assert LawsAt(a, key, NonceAt(nonce, i), AD(i), chunk);
    var sealed := a.seal(key, NonceAt(nonce, i), AD(i), chunk);
    var file := BE32(|sealed|) + sealed + rest;
    assert file == BE32(|sealed|) + (sealed + rest);
    BE32RoundTrip(|sealed|, sealed + rest);
    assert file[LEN_PREFIX..LEN_PREFIX + |sealed|] == sealed && file[LEN_PREFIX + |sealed|..] == rest;
  }

  lemma {:induction false} WrittenIsRead(a: Aead, key: bytes, nonce: bytes, i: nat, chunks: seq<bytes>)
    requires Lawful(a) && Fit(chunks)
    ensures ReadFrames(a, key, nonce, i, FileOf(a, key, nonce, i, chunks)) == Some(chunks)
    decreases |chunks|
  {
    hide Frame, BE32, ReadOne, NonceAt;
    if chunks != [] {
      var rest := chunks[1..];
      var tail := FileOf(a, key, nonce, i + 1, rest);
      WrittenIsRead(a, key, nonce, i + 1, rest);
      ReadFrame(a, key, nonce, i, chunks[0], tail);
      assert [chunks[0]] + rest == chunks;
    }
  }

  /** A frame that reads back was made from its chunk. */
  lemma ReadOneWasFramed(a: Aead, key: bytes, nonce: bytes, i: nat, file: bytes)
    requires Lawful(a) && ReadOne(a, key, nonce, i, file).Some?
    ensures var (chunk, rest) := ReadOne(a, key, nonce, i, file).value;
      |chunk| + TAG_SIZE <= MAX_FRAME && file == Frame(a, key, nonce, i, chunk) + rest
  {
    var n := ReadBE32(file);
    var (chunk, rest) := ReadOne(a, key, nonce, i, file).value;
    var sealed := file[LEN_PREFIX..LEN_PREFIX + n];
    assert LawsAt(a, key, NonceAt(nonce, i), AD(i), sealed);
    assert LawsAt(a, key, NonceAt(nonce, i), AD(i), chunk);
    BE32Unique(file[..4]);
    assert file == BE32(n) + sealed + rest;
  }

  lemma {:induction false} ReadWasWritten(a: Aead, key: bytes, nonce: bytes, i: nat, file: bytes)
    requires Lawful(a) && ReadFrames(a, key, nonce, i, file).Some?
    ensures var chunks := ReadFrames(a, key, nonce, i, file).value;
      Fit(chunks) && file == FileOf(a, key, nonce, i, chunks)
    decreases |file|
  {
    if file != [] {
      ReadOneWasFramed(a, key, nonce, i, file);
      var (chunk, rest) := ReadOne(a, key, nonce, i, file).value;
      ReadWasWritten(a, key, nonce, i + 1, rest);
      var tail := ReadFrames(a, key, nonce, i + 1, rest).value;
      assert ([chunk] + tail)[1..] == tail;
    }
  }

  /** The plaintext hash the request may carry. */
  datatype ShaClaim = Absent | Malformed | Digest(value: bytes)

  predicate ClaimHolds(claim: ShaClaim, digest: bytes) {
    claim.Absent? || claim == Digest(digest)
  }

  /** What a decryption accepts, and the plaintext it yields. */
  function Decrypted(a: Aead, sha: bytes -> bytes, file: bytes, key: bytes, nonce: bytes,
                     expected: int, claim: ShaClaim, version: int): Option<bytes>
  {
    if expected <= 0 || version < METADATA_VERSION || |file| > MAX_PLAINTEXT then None
    else
      match ReadFrames(a, key, nonce, 0, file)
      case None => None
      case Some(chunks) =>
        if |chunks| == expected && ClaimHolds(claim, sha(Flatten(chunks)))
        then Some(Flatten(chunks)) else None
  }

  /** Canonical acceptance: a file is accepted exactly when it is the frames of `expected` chunks,
      frame i sealed under nonce + i and index i, and the plaintext is those chunks joined. */
  lemma AcceptedExactlyWhenWritten(a: Aead, sha: bytes -> bytes, file: bytes, key: bytes, nonce: bytes,
                                   expected: int, claim: ShaClaim, version: int, text: bytes)
    requires Lawful(a)
    ensures Decrypted(a, sha, file, key, nonce, expected, claim, version) == Some(text)
       <==> && expected > 0 && version >= METADATA_VERSION && |file| <= MAX_PLAINTEXT
            && (claim.Absent? || claim == Digest(sha(text)))
            && exists chunks :: |chunks| == expected && Fit(chunks) && text == Flatten(chunks)
                             && file == FileOf(a, key, nonce, 0, chunks)
  {
    if ReadFrames(a, key, nonce, 0, file).Some? {
      ReadWasWritten(a, key, nonce, 0, file);
    }
    forall chunks | Fit(chunks) && file == FileOf(a, key, nonce, 0, chunks)
      ensures ReadFrames(a, key, nonce, 0, file) == Some(chunks)
    {
      WrittenIsRead(a, key, nonce, 0, chunks);
    }
  }

  /** A digest that the request carries decides: with it the file yields what it yields without one if
      that has this digest, and else nothing; nor does it with one that cannot be read. */
  lemma DigestDecides(a: Aead, sha: bytes -> bytes, file: bytes, key: bytes, nonce: bytes,
                      expected: int, digest: bytes, version: int)
    ensures var plain := Decrypted(a, sha, file, key, nonce, expected, Absent, version);
      && Decrypted(a, sha, file, key, nonce, expected, Digest(digest), version)
         == (if plain.Some? && sha(plain.value) == digest then plain else None)
      && Decrypted(a, sha, file, key, nonce, expected, Malformed, version).None?
  {
    hide ReadFrames;
  }

  /** Round trip, exactly: what was encrypted is decrypted again unless the ciphertext, 20 bytes
      a chunk longer than the plaintext, is over the limit meant for plaintexts. */
  lemma RoundTrip(a: Aead, sha: bytes -> bytes, text: bytes, key: bytes, nonce: bytes,
                  claim: ShaClaim, version: int)
    requires Lawful(a) && version >= METADATA_VERSION && (claim.Absent? || claim == Digest(sha(text)))
    ensures Fit(Chunks(text))
    ensures var n := |Chunks(text)|;
      Decrypted(a, sha, FileOf(a, key, nonce, 0, Chunks(text)), key, nonce, n, claim, version) == Some(text)
      <==> |text| + (LEN_PREFIX + TAG_SIZE) * n <= MAX_PLAINTEXT
  {
    ChunksShape(text);
    FileSize(a, key, nonce, 0, Chunks(text));
    WrittenIsRead(a, key, nonce, 0, Chunks(text));
  }

  /** The limit is not the one the request parser applies: a plaintext of the largest size it
      lets through is refused when decrypted, whatever its bytes. */
  lemma LargestPlaintextIsRefused(a: Aead, sha: bytes -> bytes, text: bytes, key: bytes, nonce: bytes)
    requires Lawful(a) && |text| == MAX_PLAINTEXT
    ensures Fit(Chunks(text))
    ensures Decrypted(a, sha, FileOf(a, key, nonce, 0, Chunks(text)), key, nonce,
                      |Chunks(text)|, Absent, METADATA_VERSION).None?
  {
    hide FileOf, Flatten, ReadFrames;
    ChunksShape(text);
    FileSize(a, key, nonce, 0, Chunks(text));
  }

  /** The announced number of chunks is off by at most one from what the announced size takes. */
  predicate ChunkCountPlausible(size: nat, chunks: int) {
    chunks > 0 && (chunks - 2) * CHUNK_SIZE < size <= (chunks + 1) * CHUNK_SIZE
  }

  /** Every file tee_encrypt_file writes passes that check with its true size and count. */
  lemma WrittenCountIsPlausible(text: bytes)
    ensures ChunkCountPlausible(|text|, |Chunks(text)|)
  {
    ChunksShape(text);
  }

  /** The check ties the count to the announced size only within a chunk: announced as nothing, so
      with nothing reserved for it, a file of one chunk is decrypted to 1 MiB. */
  lemma UnreservedUpload(a: Aead, sha: bytes -> bytes, text: bytes, key: bytes, nonce: bytes)
    requires Lawful(a) && |text| == CHUNK_SIZE
    ensures ChunkCountPlausible(0, 1) && |text| > RESERVE_MULT * 0
    ensures Fit(Chunks(text))
    ensures Decrypted(a, sha, FileOf(a, key, nonce, 0, Chunks(text)), key, nonce, 1, Absent, METADATA_VERSION) == Some(text)
  {
    hide FileOf, Decrypted, Flatten;
    ChunksShape(text);
    RoundTrip(a, sha, text, key, nonce, Absent, METADATA_VERSION);
  }

  /** Frames cannot be moved: a frame read back at another position of an accepted file would
      have been sealed under another nonce. */
  lemma FramesHaveOwnNonces(nonce: bytes, count: nat, i: nat, j: nat)
    requires |nonce| == NONCE_SIZE && i < j < count && count * (LEN_PREFIX + TAG_SIZE) <= MAX_PLAINTEXT
    ensures NonceAt(nonce, i) != NonceAt(nonce, j) && AD(i) != AD(j)
  {
    assert count <= 0x1000_0000 < TWO32;
    PowMonotone(4, NONCE_SIZE);
    assert Pow256(4) == 256 * (256 * (256 * (256 * Pow256(0))));
    NoncesDistinct(nonce, i, j);
    IndexBound(i);
    IndexBound(j);
  }

  lemma IndexBound(i: nat)
    requires i < TWO32
    ensures ReadBE32(AD(i)) == i
  {
    hide BE32, ReadBE32;
    BE32RoundTrip(i, []);
    assert BE32(i) + [] == BE32(i);
  }

  lemma {:induction false} PowMonotone(i: nat, j: nat)
    requires i <= j
    ensures Pow256(i) <= Pow256(j)
    decreases j - i
  {
    if i < j {
      PowMonotone(i, j - 1);
    }
  }

  // ---------------------------------------------------------------------------
  // The loops

  method CopyNonce(nonce: bytes) returns (current: array<byte>)
    ensures fresh(current) && current[..] == nonce
  {
    current := new byte[|nonce|](i requires 0 <= i < |nonce| => nonce[i]);
  }

  /** tee_encrypt_file, without the I/O failures: the bytes written, their number of chunks and
      the digest of everything written. */
  method EncryptFile(a: Aead, sha: bytes -> bytes, text: bytes, key: bytes, nonce: bytes)
    returns (file: bytes, chunks: nat, textSha: bytes, fileSha: bytes)
    requires Lawful(a)
    ensures Fit(Chunks(text))
    ensures file == FileOf(a, key, nonce, 0, Chunks(text))
    ensures chunks == |Chunks(text)|
    ensures textSha == sha(text) && fileSha == sha(file)
  {
    hide Frame, BE32, FileOf, Pieces;
    ChunksShape(text);
    textSha := sha(text);
    var current := CopyNonce(nonce);
    var hashed: bytes := [];
    var offset := 0;
    file, chunks := [], 0;
    ghost var left := Chunks(text);
    WriteStart(a, key, nonce, text);
    while offset < |text| || (|text| == 0 && chunks == 0)
      invariant 0 <= offset <= |text| && hashed == file
      invariant current[..] == NonceAt(nonce, chunks)
      invariant text == [] ==> chunks <= 1
      invariant Written(a, key, nonce, text, file, offset, chunks, left)
      decreases |text| - offset, 1 - chunks
    {
      var n := |text| - offset;
      if n > CHUNK_SIZE {
        n := CHUNK_SIZE;
      }
      WriteStep(a, key, nonce, text, file, offset, chunks, left, n);
      var frame := SealFrame(a, key, nonce, current, chunks, text[offset..offset + n]);
      left := left[1..];
      file, hashed := file + frame, hashed + frame;
      chunks := chunks + 1;
      offset := offset + n;
      if |text| == 0 {
        break;
      }
    }
    WriteEnd(a, key, nonce, text, file, offset, chunks, left);
    fileSha := sha(hashed);
  }

  /** Seals one chunk, prefixes the length and steps the nonce. */
  method SealFrame(a: Aead, key: bytes, ghost nonce: bytes, current: array<byte>, i: nat, chunk: bytes)
    returns (frame: bytes)
    requires Lawful(a) && |chunk| <= CHUNK_SIZE && current[..] == NonceAt(nonce, i)
    modifies current
    ensures frame == Frame(a, key, nonce, i, chunk)
    ensures current[..] == NonceAt(nonce, i + 1)
  {
    assert LawsAt(a, key, current[..], AD(i), chunk);
    var sealed := a.seal(key, current[..], AD(i), chunk);
    frame := BE32(|sealed|) + sealed;
    Increment(current);
  }

  /** After `written` frames, up to `offset` of the text, `file` has been written and the chunks
      `left` have not. */
  ghost predicate Written(a: Aead, key: bytes, nonce: bytes, text: bytes,
                          file: bytes, offset: nat, written: nat, left: seq<bytes>)
    requires Lawful(a) && offset <= |text|
  {
    && Fit(left) && Fit(Chunks(text)) && written + |left| == |Chunks(text)|
    && left == (if text != [] then Pieces(text[offset..]) else if written == 0 then [[]] else [])
    && FileOf(a, key, nonce, 0, Chunks(text)) == file + FileOf(a, key, nonce, written, left)
  }

  lemma WriteStart(a: Aead, key: bytes, nonce: bytes, text: bytes)
    requires Lawful(a)
    ensures Written(a, key, nonce, text, [], 0, 0, Chunks(text))
  {
    ChunksShape(text);
    assert text[0..] == text;
  }

  lemma WriteStep(a: Aead, key: bytes, nonce: bytes, text: bytes,
                  file: bytes, offset: nat, written: nat, left: seq<bytes>, n: nat)
    requires Lawful(a) && offset <= |text| && Written(a, key, nonce, text, file, offset, written, left)
    requires offset < |text| || (text == [] && written == 0)
    requires n == if |text| - offset > CHUNK_SIZE then CHUNK_SIZE else |text| - offset
    ensures left != [] && left[0] == text[offset..offset + n]
    ensures var file' := file + Frame(a, key, nonce, written, left[0]);
      Written(a, key, nonce, text, file', offset + n, written + 1, left[1..])
  {
    hide Frame, BE32, NonceAt;
    var piece, after := text[offset..offset + n], text[offset + n..];
    if text != [] {
      assert text[offset..][..n] == piece && text[offset..][n..] == after;
      if |text| - offset <= CHUNK_SIZE {
        assert text[offset..] == piece && after == [];
      }
      assert left == [piece] + Pieces(after);
    }
    var rest := left[1..];
    assert rest == if text != [] then Pieces(after) else [];
    var frame, tail := Frame(a, key, nonce, written, left[0]), FileOf(a, key, nonce, written + 1, rest);
    assert file + (frame + tail) == file + frame + tail;
  }

  lemma WriteEnd(a: Aead, key: bytes, nonce: bytes, text: bytes, file: bytes, offset: nat, written: nat, left: seq<bytes>)
    requires Lawful(a) && offset == |text| && (text == [] ==> written > 0)
    requires Written(a, key, nonce, text, file, offset, written, left)
    ensures file == FileOf(a, key, nonce, 0, Chunks(text)) && written == |Chunks(text)|
  {
    assert text[offset..] == [];
  }

  /** tee_decrypt_file_cb. */
  method DecryptFile(a: Aead, sha: bytes -> bytes, file: bytes, key: bytes, nonce: bytes,
                     expected: int, claim: ShaClaim, version: int, av: ClamStream?)
    returns (r: Option<bytes>, ghost chunks: seq<bytes>)
    requires Lawful(a)
    requires av != null ==> av.Valid()
    modifies av
    ensures av != null ==> av.Valid() && av.live == old(av.live)
    ensures r == Decrypted(a, sha, file, key, nonce, expected, claim, version)
    ensures r.Some? ==> ReadFrames(a, key, nonce, 0, file) == Some(chunks) && r.value == Flatten(chunks)
    ensures r.Some? && av != null ==> Fed(av.clamd.takes, old(At(av)), chunks, At(av))
  {
    hide ReadFrames, Fed;
    r, chunks := None, [];
    if expected <= 0 || version < METADATA_VERSION || |file| > MAX_PLAINTEXT {
      return;
    }
    var text, index;
    text, index, chunks := DecryptFrames(a, file, key, nonce, av);
    if text.None? {
      return;
    }
    if index != expected {
      return;
    }
    var computed := sha(text.value);
    if !ClaimHolds(claim, computed) {
      return;
    }
    r := text;
  }

  /** How far a clamd stream has come. */
  datatype Position = Position(broken: bool, data: bytes, sent: nat)

  ghost function At(av: ClamStream): Position
    reads av
  {
    Position(av.broken, av.data, |av.sent|)
  }

  /** The chunks have been fed to a stream: it is broken exactly if it was, or if they are more than
      it may carry or its socket takes; else they are what it carried on top. */
  ghost predicate Fed(takes: nat, from: Position, chunks: seq<bytes>, to: Position) {
    && (to.broken <==> from.broken || |from.data| + |Flatten(chunks)| > MAX_SCAN_SIZE || from.sent + WireSize(chunks) > takes)
    && (!to.broken ==> to.data == from.data + Flatten(chunks) && to.sent == from.sent + WireSize(chunks))
  }

  lemma FedNothing(takes: nat, p: Position)
    requires !p.broken ==> |p.data| <= MAX_SCAN_SIZE && p.sent <= takes
    ensures Fed(takes, p, [], p)
  {
    assert p.data + [] == p.data;
  }

  lemma FedOneMore(takes: nat, from: Position, chunks: seq<bytes>, p: Position, x: bytes, to: Position)
    requires Fed(takes, from, chunks, p)
    requires to.broken <==> p.broken || (x != [] && (|p.data| + |x| > MAX_SCAN_SIZE || p.sent + 4 + |x| > takes))
    requires !to.broken ==> to.data == p.data + x && to.sent == p.sent + (if x == [] then 0 else 4 + |x|)
    ensures Fed(takes, from, chunks + [x], to)
  {
    FlattenSnoc(chunks, x);
    WireSizeSnoc(chunks, x);
    Associates(from.data, Flatten(chunks), x);
  }

  /** The read loop: every opened chunk is also fed to the antivirus stream, whose errors the
      callback swallows. */
  method DecryptFrames(a: Aead, file: bytes, key: bytes, nonce: bytes, av: ClamStream?)
    returns (r: Option<bytes>, index: nat, ghost chunks: seq<bytes>)
    requires Lawful(a)
    requires av != null ==> av.Valid()
    modifies av
    ensures av != null ==> av.Valid() && av.live == old(av.live)
    ensures ReadFrames(a, key, nonce, 0, file) == if r.None? then None else Some(chunks)
    ensures r.Some? ==> r.value == Flatten(chunks) && index == |chunks|
    ensures r.Some? && av != null ==> Fed(av.clamd.takes, old(At(av)), chunks, At(av))
  {
    hide BE32, ReadBE32, ReadFrames, ReadOne, Fed, WireSize;
    ghost var from := if av == null then Position(false, [], 0) else At(av);
    if av != null {
      FedNothing(av.clamd.takes, from);
    }
    var current := CopyNonce(nonce);
    var text: bytes := [];
    index := 0;
    var pos := 0;
    chunks := [];
    ReadStart(a, key, nonce, file);
    while pos < |file|
      invariant 0 <= pos <= |file| && index == |chunks| && fresh(current)
      invariant current[..] == NonceAt(nonce, index)
      invariant text == Flatten(chunks) && |text| <= pos
      invariant ReadUpTo(a, key, nonce, file, pos, chunks)
      invariant av != null ==> av.Valid() && av.live == old(av.live)
      invariant av != null ==> Fed(av.clamd.takes, from, chunks, At(av))
    {
      var chunk;
      var end;
      chunk, end := ReadChunk(a, file, pos, key, nonce, current, index);
      ReadStep(a, key, nonce, file, pos, chunks);
      if chunk.None? {
        return None, index, chunks;
      }
      pos := end;
      var x := chunk.value;
      // the guard against overrunning the output buffer, which is as large as the file:
      assert |text| + |x| <= |file|;
      if av != null {
        ghost var before := At(av);
        var _ := av.Feed(x);
        FedOneMore(av.clamd.takes, from, chunks, before, x, At(av));
      }
      FlattenSnoc(chunks, x);
      text, chunks := text + x, chunks + [x];
      index := index + 1;
    }
    ReadEnd(a, key, nonce, file, chunks);
    r := Some(text);
  }

  /** `chunks` are the frames before `pos`. */
  ghost predicate ReadUpTo(a: Aead, key: bytes, nonce: bytes, file: bytes, pos: nat, chunks: seq<bytes>)
    requires pos <= |file|
  {
    ReadFrames(a, key, nonce, 0, file) == Prepend(chunks, ReadFrames(a, key, nonce, |chunks|, file[pos..]))
  }

  lemma ReadStart(a: Aead, key: bytes, nonce: bytes, file: bytes)
    ensures ReadUpTo(a, key, nonce, file, 0, [])
  {
    assert file[0..] == file;
    PrependNone(ReadFrames(a, key, nonce, 0, file));
  }

  lemma ReadStep(a: Aead, key: bytes, nonce: bytes, file: bytes, pos: nat, chunks: seq<bytes>)
    requires pos < |file| && ReadUpTo(a, key, nonce, file, pos, chunks)
    ensures var one := ReadOne(a, key, nonce, |chunks|, file[pos..]);
      if one.None? then ReadFrames(a, key, nonce, 0, file) == None
      else var end := |file| - |one.value.1|;
        0 <= end <= |file| && (file[end..] == one.value.1 ==>
          ReadUpTo(a, key, nonce, file, end, chunks + [one.value.0]))
  {
    var one := ReadOne(a, key, nonce, |chunks|, file[pos..]);
    if one.Some? {
      PrependStep(chunks, one.value.0, ReadFrames(a, key, nonce, |chunks| + 1, one.value.1));
    }
  }

  lemma ReadEnd(a: Aead, key: bytes, nonce: bytes, file: bytes, chunks: seq<bytes>)
    requires ReadUpTo(a, key, nonce, file, |file|, chunks)
    ensures ReadFrames(a, key, nonce, 0, file) == Some(chunks)
  {
    assert file[|file|..] == [];
    assert chunks + [] == chunks;
  }

  /** Reads the frame at `pos`, opens it and steps the nonce. */
  method ReadChunk(a: Aead, file: bytes, pos: nat, key: bytes, ghost nonce: bytes, current: array<byte>, i: nat)
    returns (chunk: Option<bytes>, end: nat)
    requires Lawful(a) && pos < |file| && current[..] == NonceAt(nonce, i)
    modifies current
    ensures chunk.None? ==> ReadOne(a, key, nonce, i, file[pos..]).None?
    ensures chunk.Some? ==> pos + |chunk.value| < end <= |file|
    ensures chunk.Some? ==> ReadOne(a, key, nonce, i, file[pos..]) == Some((chunk.value, file[end..]))
    ensures chunk.Some? ==> current[..] == NonceAt(nonce, i + 1)
  {
    end := pos;
    if |file| - pos < LEN_PREFIX {
      return None, end;
    }
    var n := ReadBE32(file[pos..]);
    if n > MAX_FRAME || |file| - pos - LEN_PREFIX < n {
      return None, end;
    }
    end := pos + LEN_PREFIX + n;
    var sealed := file[pos + LEN_PREFIX..end];
    assert file[pos..][LEN_PREFIX..LEN_PREFIX + n] == sealed;
    assert file[pos..][LEN_PREFIX + n..] == file[end..];
    chunk := a.open(key, current[..], AD(i), sealed);
    assert LawsAt(a, key, current[..], AD(i), sealed);
    if chunk.Some? {
      assert LawsAt(a, key, current[..], AD(i), chunk.value);
      Increment(current);
    }
  }

  lemma PrependNone(back: Option<seq<bytes>>)
    ensures Prepend([], back) == back
  {
    if back.Some? {
      assert [] + back.value == back.value;
    }
  }

  lemma PrependStep(front: seq<bytes>, x: bytes, back: Option<seq<bytes>>)
    ensures Prepend(front, Prepend([x], back)) == Prepend(front + [x], back)
  {
    if back.Some? {
      assert front + ([x] + back.value) == front + [x] + back.value;
    }
  }
}
