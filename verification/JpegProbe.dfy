// How sanitizers/image.c finds the dimensions of a JPEG.
//
// It walks fill bytes, markers that stand alone and segments to the first frame header, and gives up
// at anything else; whatever follows that header is not looked at.
module JpegProbe {
  import opened Bytes

  const MARK: byte := 0xFF

  /** What may stand before the frame header: a fill byte, a marker that stands alone (restart, start
      or end of image), or a segment of any other kind. */
  datatype Item = Fill | Alone(marker: byte) | Segment(marker: byte, payload: bytes)

  /** A frame header: its payload holds the precision, then the height and the width. */
  datatype Frame = Frame(marker: byte, payload: bytes)

  predicate StandsAlone(m: byte)
    ensures StandsAlone(m) <==> m in {0xD0, 0xD1, 0xD2, 0xD3, 0xD4, 0xD5, 0xD6, 0xD7, 0xD8, 0xD9}
  {
    0xD0 <= m <= 0xD9
  }

  predicate StartsFrame(m: byte)
    ensures StartsFrame(m) <==>
              m in {0xC0, 0xC1, 0xC2, 0xC3, 0xC5, 0xC6, 0xC7, 0xC9, 0xCA, 0xCB, 0xCD, 0xCE, 0xCF}
  {
    0xC0 <= m <= 0xCF && m != 0xC4 && m != 0xC8 && m != 0xCC
  }

  predicate ValidItem(x: Item) {
    match x
    case Fill => true
    case Alone(m) => StandsAlone(m)
    case Segment(m, payload) => m != MARK && !StandsAlone(m) && !StartsFrame(m) && |payload| + 2 < 0x1_0000
  }

  ghost predicate ValidItems(xs: seq<Item>) {
    forall i :: 0 <= i < |xs| ==> ValidItem(xs[i])
  }

  predicate ValidFrame(f: Frame) {
    StartsFrame(f.marker) && 5 <= |f.payload| && |f.payload| + 2 < 0x1_0000
  }

  function BE16(v: nat): (b: bytes)
    requires v < 0x1_0000
    ensures |b| == 2
  {
    [v / 0x100, v % 0x100]
  }

  function ReadBE16(s: bytes): (v: nat)
    requires |s| >= 2
    ensures v < 0x1_0000
  {
    s[0] as int * 0x100 + s[1] as int
  }

  function EncodeSegment(marker: byte, payload: bytes): (e: bytes)
    requires |payload| + 2 < 0x1_0000
    ensures |e| == 4 + |payload|
  {
    [MARK, marker] + BE16(|payload| + 2) + payload
  }

  function EncodeItem(x: Item): bytes
    requires ValidItem(x)
  {
    match x
    case Fill => [MARK]
    case Alone(m) => [MARK, m]
    case Segment(m, payload) => EncodeSegment(m, payload)
  }

  ghost function Encode(xs: seq<Item>): bytes
    requires ValidItems(xs)
  {
    if xs == [] then [] else EncodeItem(xs[0]) + Encode(xs[1..])
  }

  /** Items, then a frame header, then anything. */
  ghost predicate Leads(s: bytes, xs: seq<Item>, f: Frame, rest: bytes) {
    && ValidItems(xs) && ValidFrame(f)
    && s == Encode(xs) + (EncodeSegment(f.marker, f.payload) + rest)
  }

  function Dimensions(f: Frame): (nat, nat)
    requires ValidFrame(f)
  {
    (ReadBE16(f.payload[3..]), ReadBE16(f.payload[1..]))
  }

  // ---------------------------------------------------------------------------
  // The walk on what is left of the input

  /** What the first item is and what follows it; None where the walk fails or is at a frame. */
  function ReadItem(s: bytes): Option<(Item, bytes)>
    requires |s| > 4
  {
    if s[0] != MARK then None
    else if s[1] == MARK then Some((Fill, s[1..]))
    else if StandsAlone(s[1]) then Some((Alone(s[1]), s[2..]))
    else
      var n := ReadBE16(s[2..4]);
      if n < 2 || 2 + n > |s| || StartsFrame(s[1]) then None
      else Some((Segment(s[1], s[4..2 + n]), s[2 + n..]))
  }

  function ReadFrame(s: bytes): Option<(nat, nat)>
    requires |s| > 4
  {
    var n := ReadBE16(s[2..4]);
    if s[0] == MARK && StartsFrame(s[1]) && n >= 7 && 2 + n <= |s|
    then Some((ReadBE16(s[7..9]), ReadBE16(s[5..7])))
    else None
  }

  function Probe(s: bytes): Option<(nat, nat)> {
    if |s| <= 4 then None
    else
      match ReadItem(s)
      case Some((x, rest)) => if |rest| < |s| then Probe(rest) else None
      case None => ReadFrame(s)
  }

  lemma BE16RoundTrip(v: nat)
    requires v < 0x1_0000
    ensures ReadBE16(BE16(v)) == v
  {
  }

  lemma BE16Unique(s: bytes)
    requires |s| == 2
    ensures BE16(ReadBE16(s)) == s
  {
    var (a: int, b: int) := (s[0], s[1]);
    assert (a * 0x100 + b) / 0x100 == a;
  }

  lemma ItemIsRead(x: Item, rest: bytes)
    requires ValidItem(x) && |EncodeItem(x) + rest| > 4 && (x.Fill? ==> rest != [] && rest[0] == MARK)
    ensures ReadItem(EncodeItem(x) + rest) == Some((x, rest))
  {
    var s := EncodeItem(x) + rest;
    match x {
      case Fill => assert s[1..] == rest && s[1] == rest[0];
      case Alone(m) => assert s[2..] == rest;
      case Segment(m, payload) =>
        BE16RoundTrip(|payload| + 2);
        assert s[2..4] == BE16(|payload| + 2);
        assert s[4..4 + |payload|] == payload && s[4 + |payload|..] == rest;
    }
  }

  lemma FrameIsRead(f: Frame, rest: bytes)
    requires ValidFrame(f)
    ensures var s := EncodeSegment(f.marker, f.payload) + rest;
            ReadItem(s).None? && ReadFrame(s) == Some(Dimensions(f))
  {
    var s := EncodeSegment(f.marker, f.payload) + rest;
    BE16RoundTrip(|f.payload| + 2);
    assert s[2..4] == BE16(|f.payload| + 2);
    assert s[5..7] == f.payload[1..3] && s[7..9] == f.payload[3..5];
  }

  lemma {:induction false} LedIsProbed(xs: seq<Item>, f: Frame, rest: bytes)
    requires ValidItems(xs) && ValidFrame(f)
    ensures var s := Encode(xs) + (EncodeSegment(f.marker, f.payload) + rest);
            |s| > 4 && s[0] == MARK && Probe(s) == Some(Dimensions(f))
  {
    hide ReadItem, ReadFrame, EncodeItem, Dimensions;
    var tail := EncodeSegment(f.marker, f.payload) + rest;
    if xs == [] {
      FrameIsRead(f, rest);
      assert Encode(xs) + tail == tail;
    } else {
      var after := Encode(xs[1..]) + tail;
      LedIsProbed(xs[1..], f, rest);
      assert Encode(xs) + tail == EncodeItem(xs[0]) + after;
      ItemStarts(xs[0]);
      ItemIsRead(xs[0], after);
    }
  }

  lemma ItemStarts(x: Item)
    requires ValidItem(x)
    ensures EncodeItem(x) != [] && EncodeItem(x)[0] == MARK
  {
  }

  lemma ReadItemExists(s: bytes)
    requires |s| > 4 && ReadItem(s).Some?
    ensures var (x, rest) := ReadItem(s).value; ValidItem(x) && s == EncodeItem(x) + rest && |rest| < |s|
  {
    var n := ReadBE16(s[2..4]);
    BE16Unique(s[2..4]);
    if s[1] != MARK && !StandsAlone(s[1]) {
      assert s == [s[0], s[1]] + s[2..4] + s[4..2 + n] + s[2 + n..];
    }
  }

  lemma ReadFrameExists(s: bytes) returns (f: Frame, rest: bytes)
    requires |s| > 4 && ReadFrame(s).Some?
    ensures ValidFrame(f) && s == EncodeSegment(f.marker, f.payload) + rest && ReadFrame(s) == Some(Dimensions(f))
  {
    var n := ReadBE16(s[2..4]);
    BE16Unique(s[2..4]);
    f, rest := Frame(s[1], s[4..2 + n]), s[2 + n..];
    assert s == [s[0], s[1]] + s[2..4] + s[4..2 + n] + rest;
    assert s[5..7] == f.payload[1..3] && s[7..9] == f.payload[3..5];
  }

  lemma {:induction false} ProbedLeads(s: bytes) returns (xs: seq<Item>, f: Frame, rest: bytes)
    requires Probe(s).Some?
    ensures Leads(s, xs, f, rest) && Probe(s) == Some(Dimensions(f))
    decreases |s|
  {
    hide ReadItem, ReadFrame, EncodeItem, Dimensions, ValidItem;
    if ReadItem(s).Some? {
      var (x, after) := ReadItem(s).value;
      ReadItemExists(s);
      var ys;
      ys, f, rest := ProbedLeads(after);
      xs := [x] + ys;
      assert xs[1..] == ys;
      var tail := EncodeSegment(f.marker, f.payload) + rest;
      assert EncodeItem(x) + (Encode(ys) + tail) == (EncodeItem(x) + Encode(ys)) + tail;
    } else {
      f, rest := ReadFrameExists(s);
      xs := [];
      assert s == Encode([]) + s;
    }
  }

  /** The probe finds dimensions exactly where items lead to a frame header, and they are the ones in
      the first such header: what the segments before it hold is never taken for a marker. */
  lemma ProbeIsExact(s: bytes, dimensions: (nat, nat))
    ensures Probe(s) == Some(dimensions) <==>
              exists xs, f, rest :: Leads(s, xs, f, rest) && dimensions == Dimensions(f)
  {
    hide Probe, Dimensions;
    if Probe(s).Some? {
      var xs, f, rest := ProbedLeads(s);
      assert Leads(s, xs, f, rest);
    }
    forall xs, f, rest | Leads(s, xs, f, rest) ensures Probe(s) == Some(Dimensions(f)) {
      LedIsProbed(xs, f, rest);
    }
  }

  // ---------------------------------------------------------------------------
  // The loop

  /** Dimensions, or None for a malformed header. */
  method ProbeJpeg(data: bytes) returns (dimensions: Option<(nat, nat)>)
    ensures dimensions == if |data| >= 4 && data[0] == 0xFF && data[1] == 0xD8 then Probe(data[2..]) else None
  {
    hide ReadItem, ReadFrame;
    if |data| < 4 || data[0] != 0xFF || data[1] != 0xD8 {
      return None;
    }
    var i := 2;
    while i + 4 < |data|
      invariant 2 <= i <= |data|
      invariant Probe(data[2..]) == Probe(data[i..])
      decreases |data| - i
    {
      ghost var s := data[i..];
      var done, next, found := OneItem(data, i);
      if done {
        return found;
      }
      assert ReadItem(s).Some? && ReadItem(s).value.1 == data[next..];
      i := next;
    }
    return None;
  }

  /** One round: where the next item starts, or the end of the walk. */
  method OneItem(data: bytes, i: nat) returns (done: bool, next: nat, found: Option<(nat, nat)>)
    requires i + 4 < |data|
    ensures done ==> ReadItem(data[i..]).None? && found == ReadFrame(data[i..])
    ensures !done ==> i < next <= |data| && ReadItem(data[i..]).Some? && ReadItem(data[i..]).value.1 == data[next..]
  {
    ghost var s := data[i..];
    done, next, found := true, i, None;
    if data[i] != 0xFF {
      return;
    }
    var marker := data[i + 1];
    if marker == 0xFF {
      assert s[1..] == data[i + 1..];
      return false, i + 1, None;
    }
    if marker == 0xD8 || marker == 0xD9 || 0xD0 <= marker <= 0xD7 {
      assert s[2..] == data[i + 2..];
      return false, i + 2, None;
    }
    var n := data[i + 2] as int * 0x100 + data[i + 3] as int;
    assert n == ReadBE16(s[2..4]);
    if n < 2 || i + 2 + n > |data| {
      return;
    }
    var isSof := 0xC0 <= marker <= 0xCF && marker != 0xC4 && marker != 0xC8 && marker != 0xCC;
    if isSof {
      if n < 7 || i + 2 + 7 > |data| {
        return;
      }
      var height := data[i + 5] as int * 0x100 + data[i + 6] as int;
      var width := data[i + 7] as int * 0x100 + data[i + 8] as int;
      return true, i, Some((width, height));
    }
    assert s[2 + n..] == data[i + 2 + n..];
    return false, i + 2 + n, None;
  }
}
