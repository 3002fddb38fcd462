// The PNG chunk walk of sanitizers/image.c against the chunk layout of the PNG specification,
// section 5.3: length, type, data, CRC.
module PngWalk {
  import opened Bytes

  const MAX_CHUNKS: nat := 4096
  const MAX_LENGTH: nat := 0x7FFF_FFFF
  const ACTL: bytes := [97, 99, 84, 76]
  const IDAT: bytes := [73, 68, 65, 84]
  const IEND: bytes := [73, 69, 78, 68]

  datatype Chunk = Chunk(kind: bytes, data: bytes, crc: bytes)

  predicate ValidChunk(c: Chunk) {
    |c.kind| == 4 && |c.crc| == 4 && |c.data| <= MAX_LENGTH
  }

  ghost predicate ValidChunks(cs: seq<Chunk>) {
    forall i :: 0 <= i < |cs| ==> ValidChunk(cs[i])
  }

  function EncodeChunk(c: Chunk): (e: bytes)
    requires ValidChunk(c)
    ensures |e| == 12 + |c.data|
  {
    BE32(|c.data|) + c.kind + c.data + c.crc
  }

  ghost function Encode(cs: seq<Chunk>): bytes
    requires ValidChunks(cs)
  {
    if cs == [] then [] else EncodeChunk(cs[0]) + Encode(cs[1..])
  }

  /** A chunk list that ends with its first IEND. */
  ghost predicate EndsOnce(cs: seq<Chunk>) {
    && cs != [] && cs[|cs| - 1].kind == IEND
    && forall i :: 0 <= i < |cs| - 1 ==> cs[i].kind != IEND
  }

  /** Eight bytes of signature and a chunk list through the first IEND, then nothing. */
  ghost predicate IsPng(data: bytes, cs: seq<Chunk>) {
    && ValidChunks(cs) && EndsOnce(cs) && |cs| <= MAX_CHUNKS
    && |data| >= 8 && data[8..] == Encode(cs)
  }

  /** An animation header that counts: eight bytes long and before any image data. */
  ghost predicate Announces(cs: seq<Chunk>, i: nat)
    requires i < |cs|
  {
    cs[i].kind == ACTL && |cs[i].data| == 8 && forall k :: 0 <= k < i ==> cs[k].kind != IDAT
  }

  /** The last such header announces more than one frame. */
  ghost predicate Animated(cs: seq<Chunk>) {
    exists i :: 0 <= i < |cs| && Announces(cs, i) && ReadBE32(cs[i].data) > 1
             && forall j :: i < j < |cs| ==> !Announces(cs, j)
  }

  // ---------------------------------------------------------------------------
  // The walk, as functions of what is left

  function ReadChunk(s: bytes): (r: Option<(Chunk, bytes)>)
    ensures r.Some? ==> ValidChunk(r.value.0) && |s| == 12 + |r.value.0.data| + |r.value.1|
  {
    if |s| < 12 then None
    else
      var n := ReadBE32(s);
      if n > MAX_LENGTH || n + 12 > |s| then None
      else Some((Chunk(s[4..8], s[8..8 + n], s[8 + n..12 + n]), s[12 + n..]))
  }

  /** The animation flag after chunk `c`. */
  function Flag(c: Chunk, seenIdat: bool, hasActl: bool): bool {
    if !seenIdat && c.kind == ACTL && |c.data| == 8 then ReadBE32(c.data) > 1 else hasActl
  }

  function WalkChunks(s: bytes, seenIdat: bool, hasActl: bool, guard: nat): (bool, bool)
    decreases guard
  {
    if guard == 0 then (hasActl, false)
    else
      match ReadChunk(s)
      case None => (hasActl, false)
      case Some((c, rest)) =>
        if c.kind == IEND then (Flag(c, seenIdat, hasActl), rest == [])
        else WalkChunks(rest, seenIdat || c.kind == IDAT, Flag(c, seenIdat, hasActl), guard - 1)
  }

  function Walk(data: bytes): (bool, bool) {
    if |data| < 8 then (false, false) else WalkChunks(data[8..], false, false, MAX_CHUNKS)
  }

  function Flags(cs: seq<Chunk>, seenIdat: bool, hasActl: bool): bool
    decreases |cs|
  {
    if cs == [] then hasActl
    else Flags(cs[1..], seenIdat || cs[0].kind == IDAT, Flag(cs[0], seenIdat, hasActl))
  }

  // ---------------------------------------------------------------------------
  // Reading is the inverse of encoding

  lemma EncodedIsRead(c: Chunk, rest: bytes)
    requires ValidChunk(c)
    ensures ReadChunk(EncodeChunk(c) + rest) == Some((c, rest))
  {
    var n := |c.data|;
    var s := EncodeChunk(c) + rest;
    assert s == BE32(n) + (c.kind + c.data + c.crc + rest);
    BE32RoundTrip(n, c.kind + c.data + c.crc + rest);
    hide BE32, ReadBE32;
    assert s[4..8] == c.kind && s[8..8 + n] == c.data && s[8 + n..12 + n] == c.crc && s[12 + n..] == rest;
  }

  lemma ReadWasEncoded(s: bytes)
    requires ReadChunk(s).Some?
    ensures var (c, rest) := ReadChunk(s).value; s == EncodeChunk(c) + rest
  {
    var n := ReadBE32(s);
    BE32Unique(s[..4]);
    hide BE32;
    assert ReadBE32(s[..4]) == n;
    assert s == s[..4] + s[4..8] + s[8..8 + n] + s[8 + n..12 + n] + s[12 + n..];
  }

  lemma {:induction false} EncodedIsWalked(cs: seq<Chunk>, junk: bytes, seenIdat: bool, hasActl: bool, guard: nat)
    requires ValidChunks(cs) && EndsOnce(cs) && |cs| <= guard
    ensures WalkChunks(Encode(cs) + junk, seenIdat, hasActl, guard) == (Flags(cs, seenIdat, hasActl), junk == [])
    decreases guard
  {
    hide ReadChunk, EncodeChunk, Flag;
    var c := cs[0];
    var rest := Encode(cs[1..]) + junk;
    EncodedIsRead(c, rest);
    assert Encode(cs) + junk == EncodeChunk(c) + rest;
    if |cs| == 1 {
      assert rest == junk;
    } else {
      EncodedIsWalked(cs[1..], junk, seenIdat || c.kind == IDAT, Flag(c, seenIdat, hasActl), guard - 1);
    }
  }

  lemma {:induction false} WalkedChunksExist(s: bytes, seenIdat: bool, hasActl: bool, guard: nat)
    returns (cs: seq<Chunk>)
    requires WalkChunks(s, seenIdat, hasActl, guard).1
    ensures ValidChunks(cs) && EndsOnce(cs) && |cs| <= guard && s == Encode(cs)
    decreases guard
  {
    hide ReadChunk, EncodeChunk, Flag;
    ReadWasEncoded(s);
    var (c, rest) := ReadChunk(s).value;
    if c.kind == IEND {
      cs := [c];
      assert cs[1..] == [];
      assert EncodeChunk(c) + [] == s;
    } else {
      var more := WalkedChunksExist(rest, seenIdat || c.kind == IDAT, Flag(c, seenIdat, hasActl), guard - 1);
      cs := [c] + more;
      assert cs[1..] == more;
    }
  }

  // ---------------------------------------------------------------------------
  // The flag is decided by the last header that counts

  lemma {:induction false} FlagsAfterData(cs: seq<Chunk>, hasActl: bool)
    ensures Flags(cs, true, hasActl) == hasActl
    decreases |cs|
  {
    if cs != [] {
      FlagsAfterData(cs[1..], hasActl);
    }
  }

  lemma AnnouncesShift(cs: seq<Chunk>, i: nat)
    requires 0 < i < |cs| && cs[0].kind != IDAT
    ensures Announces(cs, i) <==> Announces(cs[1..], i - 1)
  {
    assert forall k :: 0 <= k < |cs[1..]| ==> cs[1..][k] == cs[k + 1];
    if Announces(cs[1..], i - 1) {
      forall k | 0 <= k < i ensures cs[k].kind != IDAT {
        if k > 0 {
          assert cs[1..][k - 1].kind != IDAT;
        }
      }
    }
  }

  /** With a last announcing header at `i` the flag is that header's; with none it is unchanged. */
  lemma {:induction false} FlagsFollowLast(cs: seq<Chunk>, hasActl: bool, i: int)
    requires -1 <= i < |cs|
    requires i >= 0 ==> Announces(cs, i)
    requires forall j :: i < j < |cs| ==> !Announces(cs, j)
    ensures Flags(cs, false, hasActl) == if i < 0 then hasActl else ReadBE32(cs[i].data) > 1
    decreases |cs|
  {
    hide ReadBE32;
    if cs != [] {
      var c := cs[0];
      if c.kind == IDAT {
        FlagsAfterData(cs[1..], hasActl);
        assert i == -1;
      } else {
        forall j | 0 < j < |cs| ensures Announces(cs, j) <==> Announces(cs[1..], j - 1) {
          AnnouncesShift(cs, j);
        }
        forall j | (if i > 0 then i - 1 else -1) < j < |cs[1..]| ensures !Announces(cs[1..], j) {
          assert Announces(cs, j + 1) <==> Announces(cs[1..], j);
        }
        assert Announces(cs, 0) <==> c.kind == ACTL && |c.data| == 8;
        FlagsFollowLast(cs[1..], Flag(c, false, hasActl), if i > 0 then i - 1 else -1);
      }
    }
  }

  lemma FlagsAreAnimated(cs: seq<Chunk>)
    ensures Flags(cs, false, false) <==> Animated(cs)
  {
    hide ReadBE32, Flags;
    if i :| 0 <= i < |cs| && Announces(cs, i) && forall j :: i < j < |cs| ==> !Announces(cs, j) {
      FlagsFollowLast(cs, false, i);
    } else {
      forall i | 0 <= i < |cs| ensures !Announces(cs, i) {
        NoLastNone(cs, i);
      }
      FlagsFollowLast(cs, false, -1);
    }
  }

  /** If no announcing header is the last, there is none. */
  lemma {:induction false} NoLastNone(cs: seq<Chunk>, i: nat)
    requires i < |cs|
    requires forall k :: 0 <= k < |cs| && Announces(cs, k) ==> exists j :: k < j < |cs| && Announces(cs, j)
    ensures !Announces(cs, i)
    decreases |cs| - i
  {
    if Announces(cs, i) {
      var j :| i < j < |cs| && Announces(cs, j);
      NoLastNone(cs, j);
    }
  }

  // ---------------------------------------------------------------------------
  // The theorems

  /** The walk ends at IEND exactly on a tiling chunk list, and then the animation flag is that
      list's; chunk types are only ever read where a chunk starts. */
  lemma WalkIsExact(data: bytes)
    ensures Walk(data).1 <==> exists cs :: IsPng(data, cs)
    ensures forall cs :: IsPng(data, cs) ==> (Walk(data).0 <==> Animated(cs))
  {
    hide WalkChunks, Animated;
    if Walk(data).1 {
      var cs := WalkedChunksExist(data[8..], false, false, MAX_CHUNKS);
      assert IsPng(data, cs);
    }
    forall cs | IsPng(data, cs) ensures Walk(data).1 && (Walk(data).0 <==> Animated(cs)) {
      EncodedIsWalked(cs, [], false, false, MAX_CHUNKS);
      assert Encode(cs) + [] == data[8..];
      FlagsAreAnimated(cs);
    }
  }

  /** Anything after the first IEND is noticed. */
  lemma TrailingDataIsNoticed(head: bytes, cs: seq<Chunk>, junk: bytes)
    requires IsPng(head, cs) && junk != []
    ensures !Walk(head + junk).1 && (Walk(head + junk).0 <==> Animated(cs))
  {
    hide WalkChunks, Animated;
    EncodedIsWalked(cs, junk, false, false, MAX_CHUNKS);
    assert (head + junk)[8..] == Encode(cs) + junk;
    FlagsAreAnimated(cs);
  }

  // ---------------------------------------------------------------------------
  // The loop

  /** Type and length of the chunk at `i`; no type when the chunk does not fit, where the loop stops. */
  method ChunkHeader(data: bytes, i: nat) returns (kind: bytes, n: nat)
    requires i <= |data|
    ensures kind == [] ==> ReadChunk(data[i..]).None?
    ensures kind != [] ==> i + 12 + n <= |data| && ReadChunk(data[i..]) == Some((ChunkOf(data, i, n), data[i + 12 + n..]))
    ensures kind != [] ==> kind == ChunkOf(data, i, n).kind
  {
    hide ReadBE32;
    kind, n := [], 0;
    if i + 12 > |data| {
      return;
    }
    n := ReadBE32(data[i..]);
    if n > MAX_LENGTH || n + 12 > |data| - i {
      return;
    }
    ChunkAt(data, i, n);
    kind := data[i + 4..i + 8];
  }

  method NextFlag(data: bytes, i: nat, n: nat, kind: bytes, seenIdat: bool, was: bool) returns (hasActl: bool)
    requires i + 12 + n <= |data| && kind == ChunkOf(data, i, n).kind
    ensures hasActl == Flag(ChunkOf(data, i, n), seenIdat, was)
  {
    hide ReadBE32;
    hasActl := was;
    if !seenIdat && n == 8 && kind == ACTL {
      hasActl := ReadBE32(data[i + 8..i + 8 + n]) > 1;
    }
  }

  function ChunkOf(data: bytes, i: nat, n: nat): (c: Chunk)
    requires i + 12 + n <= |data|
    ensures |c.data| == n
  {
    Chunk(data[i + 4..i + 8], data[i + 8..i + 8 + n], data[i + 8 + n..i + 12 + n])
  }

  method WalkPng(data: bytes) returns (hasActl: bool, endsAtIend: bool)
    ensures (hasActl, endsAtIend) == Walk(data)
  {
    hide ReadBE32, ReadChunk, Flag;
    hasActl, endsAtIend := false, false;
    if |data| < 8 {
      return;
    }
    var i: nat := 8;
    var seenIdat := false;
    var guard := 0;
    while guard < MAX_CHUNKS
      invariant guard <= MAX_CHUNKS && 8 <= i <= |data| && !endsAtIend
      invariant Walk(data) == WalkChunks(data[i..], seenIdat, hasActl, MAX_CHUNKS - guard)
    {
      var kind, n := ChunkHeader(data, i);
      if kind == [] {
        return;
      }
      hasActl := NextFlag(data, i, n, kind, seenIdat, hasActl);
      if kind == IDAT {
        seenIdat := true;
      }
      if kind == IEND {
        endsAtIend := i + 12 + n == |data|;
        return;
      }
      i := i + 12 + n;
      guard := guard + 1;
    }
  }

  lemma ChunkAt(data: bytes, i: nat, n: nat)
    requires i + 12 <= |data| && n == ReadBE32(data[i..]) && n <= MAX_LENGTH && n + 12 <= |data| - i
    ensures ReadChunk(data[i..]) == Some((ChunkOf(data, i, n), data[i + 12 + n..]))
  {
    hide ReadBE32;
    var s := data[i..];
    assert s[4..8] == data[i + 4..i + 8] && s[8..8 + n] == data[i + 8..i + 8 + n];
    assert s[8 + n..12 + n] == data[i + 8 + n..i + 12 + n] && s[12 + n..] == data[i + 12 + n..];
  }
}
