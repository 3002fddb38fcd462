// The WebP chunk walk of sanitizers/image.c against the RIFF layout of RFC 9649, sections 2.3
// and 2.4.
module WebpWalk {
  // A header that carries the size, then chunks of type, length, data and a byte of padding after
  // odd lengths.

  import opened Bytes

  const MAX_CHUNKS: nat := 4096
  const MAX_LENGTH: nat := 0x7FFF_FFFF
  const RIFF: bytes := [82, 73, 70, 70]
  const WEBP: bytes := [87, 69, 66, 80]
  const ANIM: bytes := [65, 78, 73, 77]
  const ANMF: bytes := [65, 78, 77, 70]

  datatype Chunk = Chunk(kind: bytes, size: bytes, data: bytes, pad: bytes)

  predicate ValidChunk(c: Chunk) {
    |c.kind| == 4 && |c.size| == 4 && ReadLE32(c.size) == |c.data| <= MAX_LENGTH && |c.pad| == |c.data| % 2
  }

  ghost predicate ValidChunks(cs: seq<Chunk>) {
    forall i :: 0 <= i < |cs| ==> ValidChunk(cs[i])
  }

  function EncodeChunk(c: Chunk): bytes { c.kind + c.size + c.data + c.pad }

  function Encode(cs: seq<Chunk>): bytes {
    if cs == [] then [] else EncodeChunk(cs[0]) + Encode(cs[1..])
  }

  /** A header whose size is that of the whole file, and chunks that fill it. */
  ghost predicate IsWebp(data: bytes, cs: seq<Chunk>) {
    && HasHeader(data) && ReadLE32(data[4..8]) + 8 == |data|
    && ValidChunks(cs) && |cs| < MAX_CHUNKS && data[12..] == Encode(cs)
  }

  predicate HasHeader(data: bytes) {
    |data| >= 12 && data[..4] == RIFF && data[8..12] == WEBP
  }

  ghost predicate HasKind(cs: seq<Chunk>, kind: bytes) {
    exists i :: 0 <= i < |cs| && cs[i].kind == kind
  }

  // ---------------------------------------------------------------------------
  // The walk, as functions of what is left

  function ReadChunk(s: bytes): (r: Option<(Chunk, bytes)>)
    ensures r.Some? ==> ValidChunk(r.value.0) && |r.value.1| < |s|
  {
    if |s| < 8 then None
    else
      var n := ReadLE32(s[4..8]);
      var padded := n + n % 2;
      if n > MAX_LENGTH || padded + 8 > |s| then None
      else Some((Chunk(s[..4], s[4..8], s[8..8 + n], s[8 + n..8 + padded]), s[8 + padded..]))
  }

  datatype Seen = Seen(anim: bool, frames: nat, atEnd: bool)

  function Note(seen: Seen, kind: bytes): Seen {
    seen.(anim := seen.anim || kind == ANIM, frames := seen.frames + if kind == ANMF then 1 else 0)
  }

  function WalkChunks(s: bytes, seen: Seen, guard: nat): Seen
    decreases guard
  {
    if guard == 0 then seen
    else if s == [] then seen.(atEnd := true)
    else
      match ReadChunk(s)
      case None => seen
      case Some((c, rest)) => WalkChunks(rest, Note(seen, c.kind), guard - 1)
  }

  function Walk(data: bytes): (bool, bool) {
    if !HasHeader(data) then (false, false)
    else
      var seen := WalkChunks(data[12..], Seen(false, 0, false), MAX_CHUNKS);
      (seen.anim && seen.frames > 0, seen.atEnd && ReadLE32(data[4..8]) + 8 == |data|)
  }

  function NoteAll(seen: Seen, cs: seq<Chunk>): Seen
    decreases |cs|
  {
    if cs == [] then seen else NoteAll(Note(seen, cs[0].kind), cs[1..])
  }

  // ---------------------------------------------------------------------------
  // Reading is the inverse of encoding

  lemma EncodedIsRead(c: Chunk, rest: bytes)
    requires ValidChunk(c)
    ensures ReadChunk(EncodeChunk(c) + rest) == Some((c, rest)) && EncodeChunk(c) + rest != []
  {
    hide ReadLE32;
    var n := |c.data|;
    var s := EncodeChunk(c) + rest;
    assert s[..4] == c.kind && s[4..8] == c.size && s[8..8 + n] == c.data;
    assert s[8 + n..8 + n + n % 2] == c.pad && s[8 + n + n % 2..] == rest;
  }

  lemma ReadWasEncoded(s: bytes)
    requires ReadChunk(s).Some?
    ensures var (c, rest) := ReadChunk(s).value; s == EncodeChunk(c) + rest
  {
    hide ReadLE32;
  }

  lemma {:induction false} EncodedIsWalked(cs: seq<Chunk>, seen: Seen, guard: nat)
    requires ValidChunks(cs) && |cs| < guard
    ensures WalkChunks(Encode(cs), seen, guard) == NoteAll(seen, cs).(atEnd := true)
    decreases guard
  {
    hide ReadChunk, EncodeChunk, Note;
    if cs != [] {
      EncodedIsRead(cs[0], Encode(cs[1..]));
      EncodedIsWalked(cs[1..], Note(seen, cs[0].kind), guard - 1);
    }
  }

  lemma {:induction false} WalkedChunksExist(s: bytes, seen: Seen, guard: nat) returns (cs: seq<Chunk>)
    requires !seen.atEnd && WalkChunks(s, seen, guard).atEnd
    ensures ValidChunks(cs) && |cs| < guard && s == Encode(cs)
    decreases guard
  {
    hide ReadChunk, EncodeChunk;
    if s == [] {
      cs := [];
    } else {
      ReadWasEncoded(s);
      var (c, rest) := ReadChunk(s).value;
      var more := WalkedChunksExist(rest, Note(seen, c.kind), guard - 1);
      cs := [c] + more;
      assert cs[1..] == more;
    }
  }

  lemma {:induction false} NotedKinds(seen: Seen, cs: seq<Chunk>)
    ensures NoteAll(seen, cs).anim <==> seen.anim || HasKind(cs, ANIM)
    ensures NoteAll(seen, cs).frames > 0 <==> seen.frames > 0 || HasKind(cs, ANMF)
    decreases |cs|
  {
    if cs != [] {
      NotedKinds(Note(seen, cs[0].kind), cs[1..]);
      KindSplit(cs, ANIM);
      KindSplit(cs, ANMF);
    }
  }

  lemma KindSplit(cs: seq<Chunk>, kind: bytes)
    requires cs != []
    ensures HasKind(cs, kind) <==> cs[0].kind == kind || HasKind(cs[1..], kind)
  {
    if i :| 0 <= i < |cs| && cs[i].kind == kind {
      assert i > 0 ==> cs[1..][i - 1].kind == kind;
    }
    if i :| 0 <= i < |cs[1..]| && cs[1..][i].kind == kind {
      assert cs[i + 1].kind == kind;
    }
  }

  // ---------------------------------------------------------------------------
  // The theorem

  /** The walk accepts exactly the files that are a header with the right size followed by whole
      chunks, and then reports an animation exactly when both kinds of animation chunk occur. */
  lemma WalkIsExact(data: bytes)
    ensures Walk(data).1 <==> exists cs :: IsWebp(data, cs)
    ensures forall cs :: IsWebp(data, cs) ==> (Walk(data).0 <==> HasKind(cs, ANIM) && HasKind(cs, ANMF))
  {
    hide WalkChunks, ReadLE32, HasKind, Encode;
    var none := Seen(false, 0, false);
    if Walk(data).1 {
      var cs := WalkedChunksExist(data[12..], none, MAX_CHUNKS);
      assert IsWebp(data, cs);
    }
    forall cs | IsWebp(data, cs)
      ensures Walk(data).1 && (Walk(data).0 <==> HasKind(cs, ANIM) && HasKind(cs, ANMF))
    {
      EncodedIsWalked(cs, none, MAX_CHUNKS);
      NotedKinds(none, cs);
    }
  }

  // ---------------------------------------------------------------------------
  // The loop

  method WalkWebp(data: bytes) returns (hasAnim: bool, exactRiff: bool)
    ensures (hasAnim, exactRiff) == Walk(data)
  {
    hide ReadLE32, ReadChunk;
    hasAnim, exactRiff := false, false;
    if |data| < 12 || data[..4] != RIFF || data[8..12] != WEBP {
      return;
    }
    var sizeExact := ReadLE32(data[4..8]) + 8 == |data|;
    var i: nat := 12;
    var seenAnim := false;
    var frames := 0;
    var guard := 0;
    ghost var goal := WalkChunks(data[12..], Seen(false, 0, false), MAX_CHUNKS);
    while guard < MAX_CHUNKS
      invariant guard <= MAX_CHUNKS && 12 <= i <= |data| && !exactRiff
      invariant goal == WalkChunks(data[i..], Seen(seenAnim, frames, false), MAX_CHUNKS - guard)
    {
      if i == |data| {
        exactRiff := sizeExact;
        break;
      }
      var kind, next := NextChunk(data, i);
      if kind == [] {
        break;
      }
      if kind == ANIM {
        seenAnim := true;
      }
      if kind == ANMF {
        frames := frames + 1;
      }
      i := next;
      guard := guard + 1;
    }
    hasAnim := seenAnim && frames > 0;
  }

  /** The type of the chunk at `i` and where the next one starts; no type when the chunk does not
      fit, where the loop stops. */
  method NextChunk(data: bytes, i: nat) returns (kind: bytes, next: nat)
    requires i < |data|
    ensures kind == [] ==> ReadChunk(data[i..]).None?
    ensures kind != [] ==> i < next <= |data|
    ensures kind != [] ==> ReadChunk(data[i..]).Some?
    ensures kind != [] ==>
              ReadChunk(data[i..]).value.0.kind == kind && ReadChunk(data[i..]).value.1 == data[next..]
  {
    hide ReadLE32;
    kind, next := [], i;
    if i + 8 > |data| {
      return;
    }
    var n := ReadLE32(data[i + 4..i + 8]);
    assert data[i..][4..8] == data[i + 4..i + 8];
    if n > MAX_LENGTH {
      return;
    }
    var padded := n + n % 2;
    if padded + 8 > |data| - i {
      return;
    }
    ChunkAt(data, i, n);
    kind, next := data[i..i + 4], i + 8 + padded;
  }

  lemma ChunkAt(data: bytes, i: nat, n: nat)
    requires i + 8 <= |data| && n == ReadLE32(data[i + 4..i + 8]) && n <= MAX_LENGTH && n + n % 2 + 8 <= |data| - i
    ensures ReadChunk(data[i..]).Some?
    ensures var (c, rest) := ReadChunk(data[i..]).value; c.kind == data[i..i + 4] && rest == data[i + 8 + n + n % 2..]
  {
    hide ReadLE32;
    var s := data[i..];
    assert s[4..8] == data[i + 4..i + 8] && s[..4] == data[i..i + 4];
    assert s[8 + n + n % 2..] == data[i + 8 + n + n % 2..];
  }
}
