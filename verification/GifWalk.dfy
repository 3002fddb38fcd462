// The GIF block walk of sanitizers/image.c against a grammar.
//
// A GIF is a header, a list of extension and image blocks, and a trailer (GIF89a, sections 15 to 27).
module GifWalk {
  import opened Bytes

  const MAX_BLOCKS: nat := 1_000_000
  const EXTENSION: byte := 0x21
  const IMAGE: byte := 0x2C
  const TRAILER: byte := 0x3B
  /** "GIF87a" and "GIF89a" */
  const SIGNATURE_87: bytes := [71, 73, 70, 56, 55, 97]
  const SIGNATURE_89: bytes := [71, 73, 70, 56, 57, 97]

  // ---------------------------------------------------------------------------
  // The grammar

  datatype Block =
    | Extension(tag: byte, data: seq<bytes>)
    | Image(descriptor: bytes, table: bytes, codeSize: byte, data: seq<bytes>)

  datatype Gif = Gif(head: bytes, table: bytes, blocks: seq<Block>)

  /** The length of the colour table a flag byte announces: a bit for its presence and three for
      its size. */
  function TableSize(flags: byte): (size: nat)
    ensures size == if flags < 0x80 then 0 else [6, 12, 24, 48, 96, 192, 384, 768][flags % 8]
  {
    assert Pow2(1) == 2 && Pow2(2) == 4 && Pow2(3) == 8 && Pow2(4) == 16;
    assert Pow2(5) == 32 && Pow2(6) == 64 && Pow2(7) == 128 && Pow2(8) == 256;
    if flags >= 0x80 then 3 * Pow2(flags % 8 + 1) else 0
  }

  function Pow2(n: nat): nat { if n == 0 then 1 else 2 * Pow2(n - 1) }

  ghost predicate ValidData(subs: seq<bytes>) {
    forall i :: 0 <= i < |subs| ==> 1 <= |subs[i]| <= 255
  }

  ghost predicate ValidBlock(b: Block) {
    match b
    case Extension(_, data) => ValidData(data)
    case Image(descriptor, table, _, data) =>
      |descriptor| == 9 && |table| == TableSize(descriptor[8]) && ValidData(data)
  }

  ghost predicate ValidGif(g: Gif) {
    && |g.head| == 13 && (g.head[..6] == SIGNATURE_87 || g.head[..6] == SIGNATURE_89)
    && |g.table| == TableSize(g.head[10])
    && forall i :: 0 <= i < |g.blocks| ==> ValidBlock(g.blocks[i])
  }

  ghost predicate ValidBlocks(bs: seq<Block>) {
    forall i :: 0 <= i < |bs| ==> ValidBlock(bs[i])
  }

  ghost function EncodeData(subs: seq<bytes>): bytes
    requires ValidData(subs)
  {
    if subs == [] then [0] else [|subs[0]|] + subs[0] + EncodeData(subs[1..])
  }

  /** A block up to its data. */
  function Lead(b: Block): (lead: bytes)
    ensures lead != [] && lead[0] == if b.Image? then IMAGE else EXTENSION
  {
    match b
    case Extension(tag, _) => [EXTENSION, tag]
    case Image(descriptor, table, codeSize, _) => [IMAGE] + descriptor + table + [codeSize]
  }

  ghost function EncodeBlock(b: Block): bytes
    requires ValidBlock(b)
  {
    Lead(b) + EncodeData(b.data)
  }

  ghost function EncodeBlocks(bs: seq<Block>): bytes
    requires ValidBlocks(bs)
  {
    if bs == [] then [] else EncodeBlock(bs[0]) + EncodeBlocks(bs[1..])
  }

  ghost function Encode(g: Gif): bytes
    requires ValidGif(g)
  {
    g.head + g.table + EncodeBlocks(g.blocks) + [TRAILER]
  }

  function Images(bs: seq<Block>): nat {
    if bs == [] then 0 else (if bs[0].Image? then 1 else 0) + Images(bs[1..])
  }

  /** Short enough for the walk's loop guards. */
  ghost predicate WithinGuards(bs: seq<Block>) {
    |bs| < MAX_BLOCKS && ShortData(bs)
  }

  ghost predicate ShortData(bs: seq<Block>) {
    forall i :: 0 <= i < |bs| ==> |bs[i].data| < MAX_BLOCKS
  }

  // ---------------------------------------------------------------------------
  // The walk, as functions of what is left of the input

  /** gif_skip_subblocks: what follows the data blocks. */
  function SkipData(s: bytes, guard: nat): Option<bytes> {
    if guard == 0 || s == [] then None
    else
      var n: int := s[0];
      if n == 0 then Some(s[1..])
      else if n > |s| - 1 then None
      else SkipData(s[1 + n..], guard - 1)
  }

  /** One block other than the trailer: what follows it. */
  function SkipBlock(s: bytes): Option<bytes>
    requires s != []
  {
    if s[0] == EXTENSION then
      (if |s| < 2 then None else SkipData(s[2..], MAX_BLOCKS))
    else if s[0] == IMAGE then
      (if |s| < 10 then None
       else if TableSize(s[9]) > |s| - 10 then None
       else if |s| == 10 + TableSize(s[9]) then None
       else SkipData(s[11 + TableSize(s[9])..], MAX_BLOCKS))
    else None
  }

  /** The blocks from `s` on: how many images were counted and whether the walk stopped at a
      trailer that is the last byte. */
  function WalkBlocks(s: bytes, frames: nat, guard: nat): (nat, bool)
    decreases guard
  {
    if guard == 0 || s == [] then (frames, false)
    else if s[0] == TRAILER then (frames, |s| == 1)
    else
      match SkipBlock(s)
      case None => (frames, false)
      case Some(rest) => WalkBlocks(rest, frames + (if s[0] == IMAGE then 1 else 0), guard - 1)
  }

  function Walk(data: bytes): (nat, bool) {
    if |data| < 13 || (data[..6] != SIGNATURE_87 && data[..6] != SIGNATURE_89) then (0, false)
    else if TableSize(data[10]) > |data| - 13 then (0, false)
    else WalkBlocks(data[13 + TableSize(data[10])..], 0, MAX_BLOCKS)
  }

  // ---------------------------------------------------------------------------
  // Complete: what was encoded is walked

  lemma {:induction false} DataIsSkipped(subs: seq<bytes>, rest: bytes, guard: nat)
    requires ValidData(subs)
    ensures SkipData(EncodeData(subs) + rest, guard) == if |subs| < guard then Some(rest) else None
    decreases |subs|
  {
    var s := EncodeData(subs) + rest;
    if subs == [] {
      assert s[1..] == rest;
    } else if guard > 0 {
      var n, after := |subs[0]|, EncodeData(subs[1..]) + rest;
      assert s == [n] + subs[0] + after;
      assert s[1 + n..] == after;
      DataIsSkipped(subs[1..], rest, guard - 1);
    }
  }

  /** Where the parts of an image block lie. */
  lemma ImageLayout(descriptor: bytes, table: bytes, codeSize: byte, after: bytes)
    requires |descriptor| == 9
    ensures var s := [IMAGE] + descriptor + table + [codeSize] + after;
      && |s| == 11 + |table| + |after| && s[0] == IMAGE && s[9] == descriptor[8]
      && s[1..10] == descriptor && s[10..10 + |table|] == table && s[11 + |table|..] == after
  {
  }

  lemma ImageIsSkipped(descriptor: bytes, table: bytes, codeSize: byte, after: bytes)
    requires |descriptor| == 9 && |table| == TableSize(descriptor[8]) && after != []
    ensures SkipBlock([IMAGE] + descriptor + table + [codeSize] + after) == SkipData(after, MAX_BLOCKS)
  {
    hide SkipData, TableSize;
    ImageLayout(descriptor, table, codeSize, after);
  }

  lemma ExtensionIsSkipped(tag: byte, after: bytes)
    ensures SkipBlock([EXTENSION, tag] + after) == SkipData(after, MAX_BLOCKS)
  {
    hide SkipData, TableSize;
    assert ([EXTENSION, tag] + after)[2..] == after;
  }

  lemma BlockIsSkipped(b: Block, rest: bytes)
    requires ValidBlock(b)
    ensures EncodeBlock(b) != [] && EncodeBlock(b)[0] == (if b.Image? then IMAGE else EXTENSION)
    ensures SkipBlock(EncodeBlock(b) + rest) == if |b.data| < MAX_BLOCKS then Some(rest) else None
  {
    DataIsSkipped(b.data, rest, MAX_BLOCKS);
    var lead, encoded := Lead(b), EncodeData(b.data);
    assert encoded != [];
    assert (lead + encoded) + rest == lead + (encoded + rest);
    hide EncodeData, SkipData, SkipBlock, TableSize, ValidData;
    match b
    case Extension(tag, data) => ExtensionIsSkipped(tag, encoded + rest);
    case Image(descriptor, table, codeSize, data) =>
      ImageIsSkipped(descriptor, table, codeSize, encoded + rest);
  }

  lemma {:induction false} BlocksAreWalked(bs: seq<Block>, junk: bytes, frames: nat, guard: nat)
    requires ValidBlocks(bs)
    ensures var end := WalkBlocks(EncodeBlocks(bs) + [TRAILER] + junk, frames, guard);
            if |bs| < guard && ShortData(bs) then end == (frames + Images(bs), junk == []) else !end.1
    decreases |bs|
  {
    hide EncodeBlock, SkipBlock;
    var s := EncodeBlocks(bs) + [TRAILER] + junk;
    if bs == [] {
      assert s == [TRAILER] + junk;
    } else if guard > 0 {
      var rest := EncodeBlocks(bs[1..]) + [TRAILER] + junk;
      BlockIsSkipped(bs[0], rest);
      assert s == EncodeBlock(bs[0]) + rest;
      assert ShortData(bs) <==> |bs[0].data| < MAX_BLOCKS && ShortData(bs[1..]) by {
        assert forall i :: 1 <= i < |bs| ==> bs[i] == bs[1..][i - 1];
      }
      BlocksAreWalked(bs[1..], junk, frames + (if bs[0].Image? then 1 else 0), guard - 1);
    }
  }

  /** On any encoded GIF followed by anything, the walk counts the images and reports the end at
      the trailer exactly when nothing follows; past its guards it gives up and reports no end. */
  lemma WalkIsComplete(g: Gif, junk: bytes)
    requires ValidGif(g)
    ensures WithinGuards(g.blocks) ==> Walk(Encode(g) + junk) == (Images(g.blocks), junk == [])
    ensures !WithinGuards(g.blocks) ==> !Walk(Encode(g) + junk).1
  {
    hide EncodeBlocks, WalkBlocks, TableSize;
    var data := Encode(g) + junk;
    var tail := EncodeBlocks(g.blocks) + [TRAILER] + junk;
    assert data == g.head + g.table + tail;
    assert data[..6] == g.head[..6] && data[10] == g.head[10];
    assert data[13 + |g.table|..] == tail;
    BlocksAreWalked(g.blocks, junk, 0, MAX_BLOCKS);
  }

  // ---------------------------------------------------------------------------
  // Sound: what is walked to its end was encoded

  lemma EncodeMore(sub: bytes, more: seq<bytes>, rest: bytes)
    requires ValidData(more) && 0 < |sub| < 256
    ensures ValidData([sub] + more)
    ensures EncodeData([sub] + more) + rest == [|sub|] + sub + (EncodeData(more) + rest)
  {
    assert ([sub] + more)[1..] == more;
  }

  lemma {:induction false} SkippedDataExists(s: bytes, guard: nat) returns (subs: seq<bytes>)
    requires SkipData(s, guard).Some?
    ensures ValidData(subs) && s == EncodeData(subs) + SkipData(s, guard).value
    decreases guard
  {
    var n: int := s[0];
    if n == 0 {
      subs := [];
    } else {
      hide EncodeData, ValidData;
      var (sub, rest) := (s[1..1 + n], s[1 + n..]);
      var more := SkippedDataExists(rest, guard - 1);
      subs := [sub] + more;
      EncodeMore(sub, more, SkipData(rest, guard - 1).value);
      assert s == [n] + sub + rest;
    }
  }

  lemma SkippedBlockExists(s: bytes) returns (b: Block)
    requires s != [] && SkipBlock(s).Some?
    ensures ValidBlock(b) && s == EncodeBlock(b) + SkipBlock(s).value && b.Image? == (s[0] == IMAGE)
  {
    hide SkipData, TableSize;
    if s[0] == EXTENSION {
      var data := SkippedDataExists(s[2..], MAX_BLOCKS);
      b := Extension(s[1], data);
      hide EncodeData;
      assert s == [EXTENSION, s[1]] + s[2..];
    } else {
      b := SkippedImageExists(s);
    }
  }

  lemma SkippedImageExists(s: bytes) returns (b: Block)
    requires s != [] && s[0] == IMAGE && SkipBlock(s).Some?
    ensures ValidBlock(b) && s == EncodeBlock(b) + SkipBlock(s).value && b.Image?
  {
    hide SkipData, TableSize, EncodeData, ValidData;
    var t := TableSize(s[9]);
    var after := s[11 + t..];
    var descriptor, table := s[1..10], s[10..10 + t];
    var data := SkippedDataExists(after, MAX_BLOCKS);
    b := Image(descriptor, table, s[10 + t], data);
    assert s == [IMAGE] + descriptor + table + [s[10 + t]] + after;
    var rest := SkipData(after, MAX_BLOCKS).value;
    assert SkipBlock(s).value == rest;
    assert after == EncodeData(data) + rest;
  }

  lemma {:induction false} WalkedBlocksExist(s: bytes, frames: nat, guard: nat) returns (bs: seq<Block>)
    requires WalkBlocks(s, frames, guard).1
    ensures ValidBlocks(bs) && s == EncodeBlocks(bs) + [TRAILER]
    ensures WalkBlocks(s, frames, guard).0 == frames + Images(bs)
    decreases guard
  {
    hide EncodeBlock, SkipBlock;
    if s[0] == TRAILER {
      bs := [];
      assert s == [TRAILER];
    } else {
      var b := SkippedBlockExists(s);
      var rest := SkipBlock(s).value;
      var more := WalkedBlocksExist(rest, frames + (if s[0] == IMAGE then 1 else 0), guard - 1);
      bs := [b] + more;
      assert bs[1..] == more;
    }
  }

  /** Whatever the bytes, an end at the trailer means they are a whole GIF with as many images as
      were counted. */
  lemma WalkIsSound(data: bytes)
    requires Walk(data).1
    ensures exists g :: ValidGif(g) && data == Encode(g) && Walk(data).0 == Images(g.blocks)
  {
    hide EncodeBlocks, WalkBlocks, TableSize;
    var t := TableSize(data[10]);
    var blocks := WalkedBlocksExist(data[13 + t..], 0, MAX_BLOCKS);
    var g := Gif(data[..13], data[13..13 + t], blocks);
    assert g.head[..6] == data[..6];
    assert data == data[..13] + data[13..13 + t] + data[13 + t..];
    assert ValidGif(g) && data == Encode(g);
  }

  /** An animated GIF is passed through only if it is a whole GIF and nothing else
      (sanitize_raster_image). */
  lemma PassedThroughIsExact(data: bytes)
    requires Walk(data).0 > 1 && Walk(data).1
    ensures exists g :: ValidGif(g) && data == Encode(g) && Images(g.blocks) > 1
  {
    WalkIsSound(data);
  }

  // ---------------------------------------------------------------------------
  // The loops

  /** One round of the loop over data blocks. */
  lemma SkipDataRound(data: bytes, i: nat, guard: nat)
    requires i <= |data|
    ensures guard == 0 || i == |data| ==> SkipData(data[i..], guard).None?
    ensures guard > 0 && i < |data| ==>
              var n: int := data[i];
              SkipData(data[i..], guard) ==
                if n == 0 then Some(data[i + 1..])
                else if n > |data| - (i + 1) then None
                else SkipData(data[i + 1 + n..], guard - 1)
  {
    if guard > 0 && i < |data| {
      var (s, n: int) := (data[i..], data[i]);
      assert s[0] == data[i] && s[1..] == data[i + 1..];
      assert n <= |data| - (i + 1) ==> s[1 + n..] == data[i + 1 + n..];
    }
  }

  method SkipSubblocks(data: bytes, start: nat) returns (ok: bool, i: nat)
    requires start <= |data|
    ensures i <= |data|
    ensures SkipData(data[start..], MAX_BLOCKS) == if ok then Some(data[i..]) else None
  {
    hide SkipData;
    i := start;
    var guard := 0;
    while guard < MAX_BLOCKS
      invariant guard <= MAX_BLOCKS && i <= |data|
      invariant SkipData(data[start..], MAX_BLOCKS) == SkipData(data[i..], MAX_BLOCKS - guard)
    {
      SkipDataRound(data, i, MAX_BLOCKS - guard);
      if i >= |data| {
        return false, i;
      }
      var n := data[i] as nat;
      i := i + 1;
      if n == 0 {
        return true, i;
      }
      if n > |data| - i {
        return false, i;
      }
      i := i + n;
      guard := guard + 1;
    }
    SkipDataRound(data, i, 0);
    return false, i;
  }

  /** The body of the block loop for an extension or an image. */
  method SkipOne(data: bytes, start: nat) returns (ok: bool, i: nat)
    requires start < |data|
    ensures i <= |data|
    ensures SkipBlock(data[start..]) == if ok then Some(data[i..]) else None
  {
    hide SkipData, TableSize;
    var s := data[start..];
    i := start;
    assert s[0] == data[i];
    if data[i] == EXTENSION {
      if i + 2 > |data| {
        return false, i;
      }
      assert s[2..] == data[i + 2..];
      ok, i := SkipSubblocks(data, i + 2);
      return;
    }
    if data[i] == IMAGE {
      if i + 10 > |data| {
        return false, i;
      }
      var table := TableSize(data[i + 9]);
      assert s[9] == data[i + 9];
      if table > |data| - (i + 10) {
        return false, i;
      }
      if i + 10 + table >= |data| {
        return false, i;
      }
      assert s[11 + table..] == data[i + 11 + table..];
      ok, i := SkipSubblocks(data, i + 11 + table);
      return;
    }
    return false, i;
  }

  method WalkGif(data: bytes) returns (frames: nat, endsAtTrailer: bool)
    ensures (frames, endsAtTrailer) == Walk(data)
  {
    hide SkipBlock, TableSize;
    frames, endsAtTrailer := 0, false;
    if |data| < 13 {
      return;
    }
    if data[..6] != SIGNATURE_87 && data[..6] != SIGNATURE_89 {
      return;
    }
    var table := TableSize(data[10]);
    if table > |data| - 13 {
      return;
    }
    var i: nat := 13 + table;
    var guard := 0;
    while guard < MAX_BLOCKS
      invariant guard <= MAX_BLOCKS && i <= |data| && !endsAtTrailer
      invariant Walk(data) == WalkBlocks(data[i..], frames, MAX_BLOCKS - guard)
    {
      if i >= |data| {
        return;
      }
      assert data[i..][0] == data[i];
      if data[i] == TRAILER {
        endsAtTrailer := i + 1 == |data|;
        return;
      }
      var image := data[i] == IMAGE;
      var ok;
      ok, i := SkipOne(data, i);
      if !ok {
        return;
      }
      if image {
        frames := frames + 1;
      }
      guard := guard + 1;
    }
  }
}
