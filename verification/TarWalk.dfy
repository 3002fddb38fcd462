// The tar inspection of sanitizers/archive.c (inspect_tar_data) over the header layout of the
// "ustar Interchange Format" of the POSIX pax utility.
module TarWalk {
  import opened Bytes
  import opened ArchiveChecks

  const BLOCK: nat := 512
  const INT64_MAX: int := 0x7FFF_FFFF_FFFF_FFFF
  const TWO64: int := 0x1_0000_0000_0000_0000
  const SPACE: byte := 32

  datatype Reason = Malformed | BadPath(verdict: PathVerdict) | EntriesExceeded | ExpansionExceeded

  datatype Outcome = Clean | Rejected(reason: Reason)

  // ---------------------------------------------------------------------------
  // The fields of a header

  predicate IsOctal(c: byte) {
    48 <= c <= 55
  }

  function SkipSpaces(s: bytes): (t: bytes)
    ensures |t| <= |s|
  {
    if s != [] && s[0] == SPACE then SkipSpaces(s[1..]) else s
  }

  /** The value of the octal digits that `s` starts with, behind those already read. */
  function Digits(s: bytes, value: nat): nat {
    if s == [] || !IsOctal(s[0]) then value else Digits(s[1..], value * 8 + (s[0] as int - 48))
  }

  /** A size in base 256, in 64 bits. */
  function Base256(s: bytes, value: nat): nat {
    if s == [] then value else Base256(s[1..], (value * 256 + s[0] as int) % TWO64)
  }

  /** The twelve bytes of a size field: base 256 if the top bit is set, octal otherwise. */
  function ReadSize(field: bytes): (n: nat)
    requires |field| == 12
  {
    if field[0] >= 0x80 then
      var n := Base256(field[1..], 0);
      if n > INT64_MAX then INT64_MAX else n
    else Digits(SkipSpaces(field[..11]), 0)
  }

  function Pow8(n: nat): (p: nat)
    ensures p > 0
  {
    if n == 0 then 1 else 8 * Pow8(n - 1)
  }

  lemma OneMoreDigit(value: nat, d: nat, p: nat)
    requires d <= 7
    ensures (value * 8 + d + 1) * p <= (value + 1) * (8 * p)
  {
    assert (value + 1) * (8 * p) == (value * 8 + d + 1) * p + (7 - d) * p;
  }

  lemma {:induction false} DigitsBelow(s: bytes, value: nat)
    ensures Digits(s, value) < (value + 1) * Pow8(|s|)
  {
    if s != [] {
      if IsOctal(s[0]) {
        var d := s[0] as int - 48;
        DigitsBelow(s[1..], value * 8 + d);
        OneMoreDigit(value, d, Pow8(|s| - 1));
      } else {
        assert (value + 1) * Pow8(|s|) >= value + 1;
      }
    }
  }

  lemma {:induction false} Pow8Grows(m: nat, n: nat)
    requires m <= n
    ensures Pow8(m) <= Pow8(n)
  {
    if m < n { Pow8Grows(m, n - 1); }
  }

  /** A size fits in 64 bits; one written in octal is below 8 GiB. */
  lemma SizeBelow(h: bytes)
    requires |h| == BLOCK
    ensures SizeOf(h) <= INT64_MAX
    ensures h[124] < 0x80 ==> SizeOf(h) < 0x2_0000_0000
  {
    var digits := SkipSpaces(h[124..136][..11]);
    DigitsBelow(digits, 0);
    Pow8Grows(|digits|, 11);
    assert Pow8(11) == 0x2_0000_0000;
  }

  function SizeOf(h: bytes): nat
    requires |h| == BLOCK
  {
    ReadSize(h[124..136])
  }

  function Signed(b: byte): int {
    if b < 128 then b as int else b as int - 256
  }

  /** The sum of the first n header bytes, with the checksum field counted as spaces. */
  function Sum(h: bytes, n: nat, signed: bool): int
    requires n <= |h|
  {
    if n == 0 then 0
    else
      var b := if 148 <= n - 1 < 156 then SPACE else h[n - 1];
      Sum(h, n - 1, signed) + if signed then Signed(b) else b as int
  }

  /** How many of the bytes that count have their top bit set. */
  function HighBytes(h: bytes, n: nat): nat
    requires n <= |h|
  {
    if n == 0 then 0
    else HighBytes(h, n - 1) + if h[n - 1] >= 0x80 && !(148 <= n - 1 < 156) then 1 else 0
  }

  /** The two sums differ by 256 for each of those, and by nothing else. */
  lemma {:induction false} SumsDiffer(h: bytes, n: nat)
    requires n <= |h|
    ensures Sum(h, n, false) == Sum(h, n, true) + 256 * HighBytes(h, n)
  {
    if n > 0 {
      SumsDiffer(h, n - 1);
    }
  }

  predicate ChecksumValid(h: bytes)
    requires |h| == BLOCK
  {
    var digits := SkipSpaces(h[148..156]);
    var stored := Digits(digits, 0);
    && digits != [] && IsOctal(digits[0])
    && (stored == Sum(h, BLOCK, false) || stored == Sum(h, BLOCK, true))
  }

  /** A field up to its first NUL. */
  function Cut(field: bytes): (s: bytes)
    ensures |s| <= |field|
  {
    if field == [] || field[0] == 0 then [] else [field[0]] + Cut(field[1..])
  }

  /** The name behind its prefix, if there is one and the two fit in 255 bytes; else the name. */
  function PathOf(h: bytes): bytes
    requires |h| == BLOCK
  {
    var (name, prefix) := (Cut(h[..100]), Cut(h[345..500]));
    if prefix != [] && |prefix| + 1 + |name| < 256 then prefix + [SLASH] + name else name
  }

  /** Headers that describe the next entry: pax 'x' and 'g', GNU 'L' and 'K'. */
  predicate IsExtension(h: bytes)
    requires |h| == BLOCK
  {
    h[156] == 120 || h[156] == 103 || h[156] == 76 || h[156] == 75
  }

  predicate AllZero(s: bytes) {
    forall i :: 0 <= i < |s| ==> s[i] == 0
  }

  // ---------------------------------------------------------------------------
  // The walk

  function Padded(n: nat): (p: nat)
    ensures n <= p < n + BLOCK && p % BLOCK == 0
  {
    (n + 511) / 512 * 512
  }

  function HeaderAt(data: bytes, at: nat): (h: bytes)
    requires at + BLOCK <= |data|
    ensures |h| == BLOCK
  {
    data[at..at + BLOCK]
  }

  predicate Stops(data: bytes, at: nat) {
    at + BLOCK > |data| || AllZero(HeaderAt(data, at))
  }

  /** The offset after the entry whose header is at `at`. */
  function Next(data: bytes, at: nat): (next: nat)
    requires at + BLOCK <= |data|
    ensures next >= at + BLOCK + SizeOf(HeaderAt(data, at))
  {
    at + BLOCK + Padded(SizeOf(HeaderAt(data, at)))
  }

  /** As much of the entry's bytes as is there. */
  function Content(data: bytes, at: nat): bytes
    requires at + BLOCK <= |data|
  {
    var n := SizeOf(HeaderAt(data, at));
    var avail := |data| - at - BLOCK;
    data[at + BLOCK..at + BLOCK + if n < avail then n else avail]
  }

  /** Signed 64-bit addition of numbers that are not both negative, taken to wrap around. */
  function AddInt64(a: int, b: int): int {
    if a + b > INT64_MAX then a + b - TWO64 else a + b
  }

  ghost function TarVerdict(data: bytes, at: nat, entries: nat, total: int): Outcome
    decreases if at <= |data| then |data| - at else 0
  {
    if Stops(data, at) then Clean
    else
      var h := HeaderAt(data, at);
      var path := Verdict(PathOf(h), Content(data, at));
      var seen := if IsExtension(h) then entries else entries + 1;
      var sum := AddInt64(total, SizeOf(h));
      if !ChecksumValid(h) then Rejected(Malformed)
      else if !IsExtension(h) && !path.PathOk? then Rejected(BadPath(path))
      else if seen > MAX_ENTRIES then Rejected(EntriesExceeded)
      else if sum > ExpansionLimit(|data|) then Rejected(ExpansionExceeded)
      else TarVerdict(data, Next(data, at), seen, sum)
  }

  // ---------------------------------------------------------------------------
  // What a clean archive is

  /** The offsets of the headers, each found from the size in the one before. */
  ghost function Headers(data: bytes, at: nat): seq<nat>
    decreases if at <= |data| then |data| - at else 0
  {
    if Stops(data, at) then [] else [at] + Headers(data, Next(data, at))
  }

  ghost predicate HeaderSound(data: bytes, at: nat) {
    && at + BLOCK <= |data|
    && var h := HeaderAt(data, at);
    && ChecksumValid(h)
    && (!IsExtension(h) ==> Verdict(PathOf(h), Content(data, at)).PathOk?)
  }

  ghost predicate AllSound(data: bytes, hs: seq<nat>) {
    forall i :: 0 <= i < |hs| ==> HeaderSound(data, hs[i])
  }

  ghost predicate InRange(data: bytes, hs: seq<nat>) {
    forall i :: 0 <= i < |hs| ==> hs[i] + BLOCK <= |data|
  }

  ghost function Members(data: bytes, hs: seq<nat>): nat
    requires InRange(data, hs)
  {
    if hs == [] then 0
    else (if IsExtension(HeaderAt(data, hs[0])) then 0 else 1) + Members(data, hs[1..])
  }

  ghost function Total(data: bytes, hs: seq<nat>): nat
    requires InRange(data, hs)
  {
    if hs == [] then 0 else SizeOf(HeaderAt(data, hs[0])) + Total(data, hs[1..])
  }

  lemma NextIsABlock(data: bytes, at: nat)
    requires at + BLOCK <= |data| && at % BLOCK == 0
    ensures Next(data, at) % BLOCK == 0
  {
    hide Padded;
    var (p, q) := (Padded(SizeOf(HeaderAt(data, at))), at / 512);
    assert p == p / 512 * 512;
    assert Next(data, at) == (q + 1 + p / 512) * 512;
  }

  /** The headers visited lie in range at strictly increasing multiples of 512. */
  lemma {:induction false} HeadersInRange(data: bytes, at: nat)
    ensures var hs := Headers(data, at);
            && InRange(data, hs)
            && (forall i :: 0 <= i < |hs| ==> at <= hs[i])
            && (forall i, j :: 0 <= i < j < |hs| ==> hs[i] < hs[j])
            && (at % BLOCK == 0 ==> forall i :: 0 <= i < |hs| ==> hs[i] % BLOCK == 0)
    decreases if at <= |data| then |data| - at else 0
  {
    hide Next, AllZero;
    if !Stops(data, at) {
      var next := Next(data, at);
      var rest := Headers(data, next);
      HeadersInRange(data, next);
      if at % BLOCK == 0 { NextIsABlock(data, at); }
      var hs := Headers(data, at);
      assert hs == [at] + rest;
      forall i, j | 0 <= i < j < |hs| ensures hs[i] < hs[j] {
        assert hs[j] == rest[j - 1];
        if i > 0 { assert hs[i] == rest[i - 1]; }
      }
    }
  }

  // ---------------------------------------------------------------------------
  // It says "clean" exactly of clean archives, but for an overflow

  /** The running total never exceeds the limit before it exceeds 64 bits. */
  ghost predicate Within(data: bytes, hs: seq<nat>, total: nat)
    requires InRange(data, hs)
  {
    hs == [] ||
    var sum := total + SizeOf(HeaderAt(data, hs[0]));
    sum > INT64_MAX || (sum <= ExpansionLimit(|data|) && Within(data, hs[1..], sum))
  }

  const ADDRESSABLE: nat := 0x4000_0000_0000_0000

  lemma SumsStart(data: bytes, at: nat)
    requires !Stops(data, at)
    ensures InRange(data, Headers(data, at)) && InRange(data, Headers(data, Next(data, at)))
    ensures var (hs, rest) := (Headers(data, at), Headers(data, Next(data, at)));
            && hs == [at] + rest && hs[1..] == rest
            && (AllSound(data, hs) <==> HeaderSound(data, at) && AllSound(data, rest))
  {
    hide Next, HeaderSound, AllZero;
    HeadersInRange(data, at);
    HeadersInRange(data, Next(data, at));
    var (hs, rest) := (Headers(data, at), Headers(data, Next(data, at)));
    assert hs == [at] + rest;
    if AllSound(data, hs) {
      assert HeaderSound(data, hs[0]);
      assert forall i :: 0 <= i < |rest| ==> rest[i] == hs[i + 1];
    }
    if HeaderSound(data, at) && AllSound(data, rest) {
      assert forall i :: 1 <= i < |hs| ==> hs[i] == rest[i - 1];
    }
  }

  lemma {:induction false} VerdictIsOfTheHeaders(data: bytes, at: nat, entries: nat, total: nat)
    requires |data| <= ADDRESSABLE && entries <= MAX_ENTRIES && total <= ExpansionLimit(|data|)
    ensures InRange(data, Headers(data, at))
    ensures var hs := Headers(data, at);
            TarVerdict(data, at, entries, total).Clean? <==>
              AllSound(data, hs) && entries + Members(data, hs) <= MAX_ENTRIES && Within(data, hs, total)
    decreases if at <= |data| then |data| - at else 0
  {
    hide Next, AllZero, AllSound, SizeOf, ChecksumValid, IsExtension, PathOf, Content, Verdict, ExpansionLimit;
    HeadersInRange(data, at);
    if Stops(data, at) {
      assert AllSound(data, []) by { NoneUnsound(data); }
    } else {
      SumsStart(data, at);
      var (h, next) := (HeaderAt(data, at), Next(data, at));
      var seen := if IsExtension(h) then entries else entries + 1;
      var sum := total + SizeOf(h);
      SizeBelow(h);
      if sum > INT64_MAX {
        assert next >= at + BLOCK + SizeOf(h);
        assert Stops(data, next);
        assert AddInt64(total, SizeOf(h)) < 0;
        assert Headers(data, next) == [];
        assert Members(data, [at]) == seen - entries;
        assert AllSound(data, []) by { NoneUnsound(data); }
      } else if seen <= MAX_ENTRIES && sum <= ExpansionLimit(|data|) {
        VerdictIsOfTheHeaders(data, next, seen, sum);
      }
    }
  }

  lemma NoneUnsound(data: bytes)
    ensures AllSound(data, [])
  {
  }

  /** All but the last. */
  function Init<T>(s: seq<T>): seq<T>
    requires s != []
  {
    s[..|s| - 1]
  }

  ghost predicate SizesWithin(data: bytes, hs: seq<nat>, total: nat)
    requires InRange(data, hs)
  {
    || total + Total(data, hs) <= ExpansionLimit(|data|)
    || (hs != [] && total + Total(data, hs) > INT64_MAX && total + Total(data, Init(hs)) <= ExpansionLimit(|data|))
  }

  lemma {:induction false} WithinMeans(data: bytes, at: nat, total: nat)
    requires |data| <= ADDRESSABLE && total <= ExpansionLimit(|data|)
    requires InRange(data, Headers(data, at))
    ensures Within(data, Headers(data, at), total) <==> SizesWithin(data, Headers(data, at), total)
    decreases if at <= |data| then |data| - at else 0
  {
    hide Next, AllZero, SizeOf, AllSound, ExpansionLimit;
    if !Stops(data, at) {
      SumsStart(data, at);
      var (hs, rest) := (Headers(data, at), Headers(data, Next(data, at)));
      var sum := total + SizeOf(HeaderAt(data, at));
      if rest != [] {
        assert Init(hs)[1..] == Init(rest);
        assert Total(data, Init(hs)) == SizeOf(HeaderAt(data, at)) + Total(data, Init(rest));
      } else {
        assert Init(hs) == [];
      }
      if sum > INT64_MAX {
        assert rest == [];
      } else if sum <= ExpansionLimit(|data|) {
        WithinMeans(data, Next(data, at), sum);
      }
    }
  }

  ghost predicate CleanTar(data: bytes)
    requires InRange(data, Headers(data, 0))
  {
    var hs := Headers(data, 0);
    && AllSound(data, hs) && Members(data, hs) <= MAX_ENTRIES && Total(data, hs) <= ExpansionLimit(|data|)
  }

  /** The 64-bit total passes an archive whose sizes are within the limit but for the last, when that
      one makes the sum overflow. */
  ghost predicate Overflows(data: bytes, hs: seq<nat>)
    requires InRange(data, hs)
  {
    hs != [] && Total(data, hs) > INT64_MAX && Total(data, Init(hs)) <= ExpansionLimit(|data|)
  }

  lemma VerdictExactly(data: bytes)
    requires |data| <= ADDRESSABLE
    ensures InRange(data, Headers(data, 0))
    ensures var hs := Headers(data, 0);
            TarVerdict(data, 0, 0, 0).Clean? <==>
              || CleanTar(data)
              || (AllSound(data, hs) && Members(data, hs) <= MAX_ENTRIES && Overflows(data, hs))
  {
    hide AllSound;
    VerdictIsOfTheHeaders(data, 0, 0, 0);
    WithinMeans(data, 0, 0);
  }

  ghost predicate AllOctal(data: bytes, hs: seq<nat>) {
    forall i :: 0 <= i < |hs| ==> hs[i] + BLOCK <= |data| && data[hs[i] + 124] < 0x80
  }

  /** With sizes written in octal there is no overflow, and "clean" is what it should be. */
  lemma OctalSizesAreCounted(data: bytes)
    requires |data| <= ADDRESSABLE
    requires AllOctal(data, Headers(data, 0))
    ensures InRange(data, Headers(data, 0))
    ensures TarVerdict(data, 0, 0, 0).Clean? <==> CleanTar(data)
  {
    hide AllSound, SizeOf, TarVerdict, Headers, Members;
    VerdictExactly(data);
    var hs := Headers(data, 0);
    if hs != [] {
      var at := hs[|hs| - 1];
      assert HeaderAt(data, at)[124] == data[at + 124];
      SizeBelow(HeaderAt(data, at));
      assert hs == Init(hs) + [at];
      TotalSnoc(data, Init(hs), at);
    }
  }

  lemma {:induction false} TotalSnoc(data: bytes, hs: seq<nat>, at: nat)
    requires InRange(data, hs + [at])
    ensures InRange(data, hs) && at + BLOCK <= |data|
    ensures Total(data, hs + [at]) == Total(data, hs) + SizeOf(HeaderAt(data, at))
  {
    hide SizeOf;
    assert (hs + [at])[|hs|] == at;
    assert forall i :: 0 <= i < |hs| ==> (hs + [at])[i] == hs[i];
    if hs == [] {
      assert (hs + [at])[1..] == [];
    } else {
      var rest := hs[1..];
      assert (hs + [at])[1..] == rest + [at];
      TotalSnoc(data, rest, at);
    }
  }

  // ---------------------------------------------------------------------------
  // The inspection itself

  method ParseTarSize(h: bytes) returns (n: nat)
    requires |h| == BLOCK
    ensures n == SizeOf(h)
  {
    if h[124] >= 0x80 {
      n := 0;
      for i := 125 to 136
        invariant Base256(h[i..136], n) == Base256(h[125..136], 0)
      {
        assert h[i..136][1..] == h[i + 1..136];
        n := (n * 256 + h[i] as int) % TWO64;
      }
      assert h[124..136][1..] == h[125..136];
      return if n > INT64_MAX then INT64_MAX else n;
    }
    assert h[124..136][..11] == h[124..135];
    n := ParseOctal(h, 124, 135);
  }

  method ParseOctal(h: bytes, start: nat, end: nat) returns (n: nat)
    requires start <= end <= |h|
    ensures n == Digits(SkipSpaces(h[start..end]), 0)
  {
    var i := start;
    while i < end && h[i] == SPACE
      invariant start <= i <= end
      invariant SkipSpaces(h[i..end]) == SkipSpaces(h[start..end])
    {
      assert h[i..end][1..] == h[i + 1..end];
      i := i + 1;
    }
    assert SkipSpaces(h[i..end]) == h[i..end];
    n := 0;
    while i < end && IsOctal(h[i])
      invariant start <= i <= end
      invariant Digits(h[i..end], n) == Digits(SkipSpaces(h[start..end]), 0)
    {
      assert h[i..end][1..] == h[i + 1..end];
      n := n * 8 + (h[i] as int - 48);
      i := i + 1;
    }
  }

  method TarChecksumValid(h: bytes) returns (ok: bool)
    requires |h| == BLOCK
    ensures ok == ChecksumValid(h)
  {
    hide Digits, Sum;
    var stored := ParseOctal(h, 148, 156);
    var i := 148;
    while i < 156 && h[i] == SPACE
      invariant 148 <= i <= 156
      invariant SkipSpaces(h[i..156]) == SkipSpaces(h[148..156])
    {
      assert h[i..156][1..] == h[i + 1..156];
      i := i + 1;
    }
    assert SkipSpaces(h[i..156]) == h[i..156];
    if i == 156 || !IsOctal(h[i]) {
      return false;
    }
    var usum, ssum := HeaderSums(h);
    return stored == usum || stored == ssum;
  }

  method HeaderSums(h: bytes) returns (usum: int, ssum: int)
    requires |h| == BLOCK
    ensures usum == Sum(h, BLOCK, false) && ssum == Sum(h, BLOCK, true)
  {
    usum, ssum := 0, 0;
    for j := 0 to BLOCK
      invariant usum == Sum(h, j, false) && ssum == Sum(h, j, true)
    {
      var c := if 148 <= j < 156 then SPACE else h[j];
      usum := usum + c as int;
      ssum := ssum + Signed(c);
    }
  }

  method IsAllZero(h: bytes) returns (zero: bool)
    ensures zero == AllZero(h)
  {
    var i := 0;
    zero := true;
    while i < |h| && zero
      invariant 0 <= i <= |h|
      invariant zero <==> AllZero(h[..i])
    {
      if h[i] != 0 {
        zero := false;
        assert h[..i + 1][i] != 0;
      }
      i := i + 1;
    }
    if zero {
      assert h[..i] == h;
    } else {
      assert !AllZero(h) by {
        var k :| 0 <= k < i && h[..i][k] != 0;
        assert h[k] != 0;
      }
    }
  }

  method CheckEntry(data: bytes, at: nat, h: bytes, size: nat) returns (v: PathVerdict)
    requires at + BLOCK <= |data| && h == HeaderAt(data, at) && size == SizeOf(h)
    ensures v == Verdict(PathOf(h), Content(data, at))
  {
    hide Verdict, SizeOf;
    var (name, prefix) := (Cut(h[..100]), Cut(h[345..500]));
    var path := name;
    if h[345] != 0 && |prefix| + 1 + |name| < 256 {
      path := prefix + [SLASH] + name;
    }
    assert h[345..500][0] == h[345];
    var head := [];
    if at + BLOCK < |data| {
      var avail := |data| - at - BLOCK;
      head := data[at + BLOCK..at + BLOCK + if size < avail then size else avail];
    }
    assert head == Content(data, at);
    assert path == PathOf(h);
    v := ValidateEntryPath(path, head);
  }

  /** Reads inside the buffer whatever it holds, and gives the reason of the first fault. */
  method InspectTar(data: bytes) returns (v: Outcome)
    ensures v == TarVerdict(data, 0, 0, 0)
  {
    hide AllZero, SizeOf, ChecksumValid, IsExtension, PathOf, Content, Verdict, ExpansionLimit, Padded;
    var limit := ExpansionLimit(|data|);
    var (at: nat, entries: nat, total: int) := (0, 0, 0);
    while at + BLOCK <= |data|
      invariant TarVerdict(data, 0, 0, 0) == TarVerdict(data, at, entries, total)
      decreases |data| - at
    {
      var h := HeaderAt(data, at);
      var zero := IsAllZero(h);
      if zero {
        break;
      }
      var valid := TarChecksumValid(h);
      if !valid {
        return Rejected(Malformed);
      }
      var size := ParseTarSize(h);
      if !IsExtension(h) {
        var path := CheckEntry(data, at, h, size);
        if !path.PathOk? {
          return Rejected(BadPath(path));
        }
        entries := entries + 1;
      }
      if entries > MAX_ENTRIES {
        return Rejected(EntriesExceeded);
      }
      total := AddInt64(total, size);
      if total > limit {
        return Rejected(ExpansionExceeded);
      }
      at := at + BLOCK + Padded(size);
    }
    return Clean;
  }
}
