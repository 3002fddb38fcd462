// Byte strings, optional values and the fixed-width integers that the file and
// wire formats of the scanner use.
module Bytes {
  type byte = x: int | 0 <= x < 256
  type bytes = seq<byte>

  datatype Option<+T> = None | Some(value: T)

  const TWO32: int := 0x1_0000_0000

  function Repeat(n: nat, b: byte): (s: bytes)
    ensures |s| == n && forall i :: 0 <= i < n ==> s[i] == b
  {
    if n == 0 then [] else [b] + Repeat(n - 1, b)
  }

  function Pow256(k: nat): (p: nat)
    ensures p >= 1
  {
    if k == 0 then 1 else 256 * Pow256(k - 1)
  }

  function BE32(v: nat): (b: bytes)
    requires v < TWO32
    ensures |b| == 4
  {
    [v / 0x100_0000, v / 0x1_0000 % 0x100, v / 0x100 % 0x100, v % 0x100]
  }

  function ReadBE32(b: bytes): (v: nat)
    requires |b| >= 4
    ensures v < TWO32
  {
    var (b0: int, b1: int, b2: int, b3: int) := (b[0], b[1], b[2], b[3]);
    ((b0 * 0x100 + b1) * 0x100 + b2) * 0x100 + b3
  }

  function ReadLE32(b: bytes): (v: nat)
    requires |b| >= 4
    ensures v < TWO32
  {
    var (b0: int, b1: int, b2: int, b3: int) := (b[0], b[1], b[2], b[3]);
    ((b3 * 0x100 + b2) * 0x100 + b1) * 0x100 + b0
  }

  function ReadLE16(b: bytes): (v: nat)
    requires |b| >= 2
    ensures v < 0x1_0000
  {
    var (b0: int, b1: int) := (b[0], b[1]);
    b1 * 0x100 + b0
  }

  function LE32(v: nat): (b: bytes)
    requires v < TWO32
    ensures |b| == 4
  {
    [v % 0x100, v / 0x100 % 0x100, v / 0x1_0000 % 0x100, v / 0x100_0000]
  }

  function LE16(v: nat): (b: bytes)
    requires v < 0x1_0000
    ensures |b| == 2
  {
    [v % 0x100, v / 0x100]
  }

  /** The four digits of a number in base 256. */
  lemma Digits256(v: nat)
    requires v < TWO32
    ensures var (d0, d1, d2, d3) := (v % 0x100, v / 0x100 % 0x100, v / 0x1_0000 % 0x100, v / 0x100_0000);
            ((d3 * 0x100 + d2) * 0x100 + d1) * 0x100 + d0 == v
  {
    var v1 := v / 0x100;
    var v2 := v1 / 0x100;
    var v3 := v2 / 0x100;
    assert v / 0x1_0000 == v2 && v / 0x100_0000 == v3;
    assert v2 == v3 * 0x100 + v2 % 0x100;
    assert v1 == v2 * 0x100 + v1 % 0x100;
  }

  lemma LERoundTrip(v: nat)
    ensures v < TWO32 ==> ReadLE32(LE32(v)) == v
    ensures v < 0x1_0000 ==> ReadLE16(LE16(v)) == v
  {
    if v < TWO32 {
      Digits256(v);
    }
  }

  lemma BE32RoundTrip(v: nat, rest: bytes)
    requires v < TWO32
    ensures ReadBE32(BE32(v) + rest) == v
  {
    Digits256(v);
  }

  lemma BE32Unique(b: bytes)
    requires |b| == 4
    ensures BE32(ReadBE32(b)) == b
  {
    var (b0: int, b1: int, b2: int, b3: int) := (b[0], b[1], b[2], b[3]);
    var v2 := b0 * 0x100 + b1;
    var v1 := v2 * 0x100 + b2;
    var v := v1 * 0x100 + b3;
    assert v / 0x100 == v1 && v1 / 0x100 == v2 && v2 / 0x100 == b0;
    assert v / 0x1_0000 == v2;
    assert v / 0x100_0000 == b0;
  }

  /** The concatenation of a list of pieces. */
  function Flatten(pieces: seq<bytes>): bytes {
    if pieces == [] then [] else pieces[0] + Flatten(pieces[1..])
  }

  lemma Associates<T>(a: seq<T>, b: seq<T>, c: seq<T>)
    ensures (a + b) + c == a + (b + c)
  {
  }

  lemma {:induction false} FlattenAppend(a: seq<bytes>, b: seq<bytes>)
    ensures Flatten(a + b) == Flatten(a) + Flatten(b)
  {
    if a == [] {
      assert a + b == b;
    } else {
      var (ab, first, rest) := (a + b, a[0], a[1..]);
      FlattenAppend(rest, b);
      assert ab[0] == first && ab[1..] == rest + b;
      Associates(first, Flatten(rest), Flatten(b));
    }
  }

  lemma FlattenSnoc(a: seq<bytes>, x: bytes)
    ensures Flatten(a + [x]) == Flatten(a) + x
  {
    FlattenAppend(a, [x]);
    assert Flatten([x]) == x + Flatten([]);
  }

  /** `part` stands in `data` at p. */
  ghost predicate Holds(data: bytes, p: nat, part: bytes) {
    p + |part| <= |data| && data[p..p + |part|] == part
  }

  lemma PartOf(data: bytes, p: nat, whole: bytes, k: nat, part: bytes)
    requires Holds(data, p, whole) && Holds(whole, k, part)
    ensures Holds(data, p + k, part)
  {
    var (d, n) := (data[p + k..p + k + |part|], p + |whole|);
    forall i | 0 <= i < |part| ensures d[i] == part[i] {
      assert data[p..n][k + i] == whole[k + i];
    }
  }

  lemma HoldsSplit(data: bytes, p: nat, a: bytes, b: bytes)
    requires Holds(data, p, a + b)
    ensures Holds(data, p, a) && Holds(data, p + |a|, b)
  {
    assert Holds(a + b, 0, a);
    assert Holds(a + b, |a|, b);
    PartOf(data, p, a + b, 0, a);
    PartOf(data, p, a + b, |a|, b);
  }

  /** Whether `needle` is a stretch of `hay`: the search strstr makes. */
  predicate Occurs<T(==)>(needle: seq<T>, hay: seq<T>)
    ensures Occurs(needle, hay) <==> exists i :: 0 <= i <= |hay| && needle <= hay[i..]
  {
    if needle <= hay then
      assert needle <= hay[0..];
      true
    else if hay == [] then false
    else
      assert forall i :: 0 <= i <= |hay[1..]| ==> hay[1..][i..] == hay[i + 1..];
      assert forall i :: 1 <= i <= |hay| ==> hay[i..] == hay[1..][i - 1..];
      assert hay[0..] == hay;
      Occurs(needle, hay[1..])
  }
}
