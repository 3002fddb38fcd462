// Tar archives as they are written ("ustar Interchange Format" of the POSIX pax utility), and what
// the inspection reads of them.
module TarArchive {
  import opened Bytes
  import opened ArchiveChecks
  import opened TarWalk

  const REGULAR: byte := 48
  const OLD_REGULAR: byte := 0
  /** "ustar" and a NUL, which say that the header has a prefix. */
  const MAGIC: bytes := [117, 115, 116, 97, 114, 0]

  /** A member, with the fields that the inspection passes over.  `data` is what is stored behind the
      header, and `fill` what fills it up to whole blocks. */
  datatype Member = Member(
    name: bytes, prefix: bytes, size: bytes, kind: byte,
    ids: bytes, mtime: bytes, link: bytes, owner: bytes, padding: bytes, data: bytes, fill: bytes)

  /** GNU's sparse 'S', multi-volume 'M' and old long name 'N' have layouts of their own. */
  predicate Modelled(kind: byte) {
    kind != 83 && kind != 77 && kind != 78
  }

  predicate SlashEnded(m: Member) {
    m.name != [] && m.name[|m.name| - 1] == SLASH
  }

  /** A link, a device, a directory or a FIFO has nothing stored, whatever size its header has; the old
      way to write a directory is as a regular file of the old kind whose name ends in a slash. */
  predicate Bodiless(m: Member) {
    49 <= m.kind <= 54 || (m.kind == OLD_REGULAR && SlashEnded(m))
  }

  /** Of a slash behind the name of another member readers make different things. */
  predicate ValidFields(m: Member) {
    && |m.name| <= 100 && 0 !in m.name && |m.prefix| <= 155 && 0 !in m.prefix
    && |m.size| == 12 && |m.ids| == 24 && |m.mtime| == 12
    && |m.link| == 100 && |m.owner| == 88 && MAGIC <= m.owner && |m.padding| == 12
    && Modelled(m.kind) && (m.name == [] ==> m.prefix == [])
    && (SlashEnded(m) ==> Bodiless(m))
  }

  predicate ValidMember(m: Member) {
    && ValidFields(m) && |m.data| + |m.fill| == Padded(|m.data|)
    && (if Bodiless(m) then m.data == [] else ReadSize(m.size) == |m.data|)
  }

  /** The header says how much is stored. */
  predicate SizeTold(m: Member)
    requires |m.size| == 12
  {
    ReadSize(m.size) == |m.data|
  }

  ghost predicate SizesTold(ms: seq<Member>)
    requires ValidMembers(ms)
  {
    forall i :: 0 <= i < |ms| ==> SizeTold(ms[i])
  }

  ghost predicate ValidMembers(ms: seq<Member>) {
    forall i :: 0 <= i < |ms| ==> ValidMember(ms[i])
  }

  function Field(text: bytes, n: nat): (f: bytes)
    requires |text| <= n
    ensures |f| == n
  {
    text + Repeat(n - |text|, 0)
  }

  function OctalDigits(v: nat, n: nat): (s: bytes)
    ensures |s| == n && forall i :: 0 <= i < n ==> IsOctal(s[i])
  {
    if n == 0 then [] else OctalDigits(v / 8, n - 1) + [48 + v % 8]
  }

  function Front(m: Member): (b: bytes)
    requires ValidFields(m)
    ensures |b| == 148
  {
    (Field(m.name, 100) + m.ids) + m.size + m.mtime
  }

  function Back(m: Member): (b: bytes)
    requires ValidFields(m)
    ensures |b| == 356
  {
    [m.kind] + (m.link + m.owner) + Field(m.prefix, 155) + m.padding
  }

  function Checksum(m: Member): (sum: nat)
    requires ValidFields(m)
    ensures sum < 0x4_0000
  {
    SumBounds(Front(m) + Repeat(8, SPACE) + Back(m), BLOCK);
    Sum(Front(m) + Repeat(8, SPACE) + Back(m), BLOCK, false)
  }

  function Header(m: Member): (h: bytes)
    requires ValidFields(m)
    ensures |h| == BLOCK
  {
    Front(m) + (OctalDigits(Checksum(m), 6) + [0, SPACE]) + Back(m)
  }

  ghost function EncodeMember(m: Member): (e: bytes)
    requires ValidMember(m)
    ensures |e| == BLOCK + Padded(|m.data|)
  {
    Header(m) + m.data + m.fill
  }

  ghost function Encode(ms: seq<Member>): bytes
    requires ValidMembers(ms)
  {
    if ms == [] then [] else EncodeMember(ms[0]) + Encode(ms[1..])
  }

  ghost function Offsets(ms: seq<Member>, at: nat): seq<nat>
    requires ValidMembers(ms)
  {
    if ms == [] then [] else [at] + Offsets(ms[1..], at + |EncodeMember(ms[0])|)
  }

  // ---------------------------------------------------------------------------
  // Numbers and texts read back

  lemma {:induction false} SumBounds(h: bytes, n: nat)
    requires n <= |h|
    ensures 0 <= Sum(h, n, false) <= 255 * n
  {
    if n > 0 { SumBounds(h, n - 1); }
  }

  lemma {:induction false} SumsAgree(h: bytes, g: bytes, n: nat)
    requires n <= |h| == |g| && forall i :: 0 <= i < n && !(148 <= i < 156) ==> h[i] == g[i]
    ensures Sum(h, n, false) == Sum(g, n, false)
  {
    if n > 0 { SumsAgree(h, g, n - 1); }
  }

  lemma {:induction false} DigitsAppend(s: bytes, t: bytes, value: nat)
    requires forall i :: 0 <= i < |s| ==> IsOctal(s[i])
    ensures Digits(s + t, value) == Digits(t, Digits(s, value))
  {
    if s == [] {
      assert s + t == t;
    } else {
      assert (s + t)[1..] == s[1..] + t;
      DigitsAppend(s[1..], t, value * 8 + (s[0] as int - 48));
    }
  }

  lemma {:induction false} DigitsRoundTrip(v: nat, n: nat)
    requires v < Pow8(n)
    ensures Digits(OctalDigits(v, n), 0) == v
  {
    if n > 0 {
      DigitsRoundTrip(v / 8, n - 1);
      var last: byte := 48 + v % 8;
      DigitsAppend(OctalDigits(v / 8, n - 1), [last], 0);
      assert Digits([last][1..], v) == v;
    }
  }

  /** A size below 8 GiB, written in octal. */
  function OctalSize(n: nat): (f: bytes)
    ensures |f| == 12
  {
    OctalDigits(n, 11) + [0]
  }

  lemma SizeRoundTrip(n: nat)
    requires n < 0x2_0000_0000
    ensures ReadSize(OctalSize(n)) == n
  {
    assert Pow8(11) == 0x2_0000_0000;
    DigitsRoundTrip(n, 11);
    assert OctalSize(n)[..11] == OctalDigits(n, 11);
  }

  lemma {:induction false} CutField(text: bytes, n: nat)
    requires |text| <= n && 0 !in text
    ensures Cut(Field(text, n)) == text
  {
    if text != [] {
      CutField(text[1..], n - 1);
      assert Field(text, n)[1..] == Field(text[1..], n - 1);
    }
  }

  // ---------------------------------------------------------------------------
  // A written header

  /** The whole path: the name behind the prefix, if there is one. */
  function FullPath(m: Member): bytes {
    if m.prefix == [] then m.name else m.prefix + [SLASH] + m.name
  }

  /** Prefix and name are short enough to be joined. */
  predicate PrefixFits(m: Member) {
    m.prefix == [] || |m.prefix| + 1 + |m.name| <= 255
  }

  /** The path as the inspection reads it. */
  ghost function PathText(m: Member): bytes {
    if m.prefix != [] && |m.prefix| + 1 + |m.name| < 256 then m.prefix + [SLASH] + m.name else m.name
  }

  predicate Extends(m: Member) {
    m.kind == 120 || m.kind == 103 || m.kind == 76 || m.kind == 75
  }

  lemma HeaderParts(m: Member)
    requires ValidFields(m)
    ensures var h := Header(m);
            && h[..100] == Field(m.name, 100) && h[124..136] == m.size
            && h[148..156] == OctalDigits(Checksum(m), 6) + [0, SPACE]
            && h[156] == m.kind && h[345..500] == Field(m.prefix, 155)
  {
    hide Field, OctalDigits, Checksum, Holds;
    var h := Header(m);
    var check := OctalDigits(Checksum(m), 6) + [0, SPACE];
    WholeHolds(h);
    HoldsSplit(h, 0, Front(m) + check, Back(m));
    HoldsSplit(h, 0, Front(m), check);
    var names := Field(m.name, 100) + m.ids;
    HoldsSplit(h, 0, names + m.size, m.mtime);
    HoldsSplit(h, 0, names, m.size);
    HoldsSplit(h, 0, Field(m.name, 100), m.ids);
    var kinds := [m.kind] + (m.link + m.owner);
    HoldsSplit(h, 156, kinds + Field(m.prefix, 155), m.padding);
    HoldsSplit(h, 156, kinds, Field(m.prefix, 155));
    HoldsSplit(h, 156, [m.kind], m.link + m.owner);
    Held(h, 0, Field(m.name, 100));
    Held(h, 124, m.size);
    Held(h, 148, check);
    Held(h, 156, [m.kind]);
    Held(h, 345, Field(m.prefix, 155));
    assert h[156..157][0] == h[156];
  }

  lemma WholeHolds(data: bytes)
    ensures Holds(data, 0, data)
  {
  }

  lemma Held(data: bytes, p: nat, part: bytes)
    requires Holds(data, p, part)
    ensures p + |part| <= |data| && data[p..p + |part|] == part
  {
  }

  lemma ChecksumIsValid(m: Member)
    requires ValidFields(m)
    ensures ChecksumValid(Header(m))
  {
    hide Sum, Field, OctalDigits, Checksum;
    var (h, sum) := (Header(m), Checksum(m));
    HeaderParts(m);
    var digits := OctalDigits(sum, 6);
    assert Pow8(6) == 0x4_0000;
    DigitsRoundTrip(sum, 6);
    DigitsAppend(digits, [0, SPACE], 0);
    assert (digits + [0, SPACE])[0] == digits[0];
    ChecksumIsItsSum(m);
  }

  lemma ChecksumIsItsSum(m: Member)
    requires ValidFields(m)
    ensures Checksum(m) == Sum(Header(m), BLOCK, false)
  {
    hide Sum, OctalDigits, Front, Back;
    SumsAgree(Header(m), Front(m) + Repeat(8, SPACE) + Back(m), BLOCK);
  }

  lemma HeaderRead(m: Member)
    requires ValidFields(m)
    ensures var h := Header(m);
            && ChecksumValid(h) && !AllZero(h)
            && SizeOf(h) == ReadSize(m.size) && PathOf(h) == PathText(m)
            && (PathOf(h) == FullPath(m) <==> PrefixFits(m))
            && (IsExtension(h) <==> Extends(m))
  {
    hide Header, Field, OctalDigits, ReadSize, ChecksumValid, Checksum;
    ChecksumIsValid(m);
    HeaderParts(m);
    CutField(m.name, 100);
    CutField(m.prefix, 155);
    var h := Header(m);
    assert IsOctal(h[148..156][0]);
    assert h[148..156][0] == h[148];
  }

  // ---------------------------------------------------------------------------
  // Sizes in base 256

  function BigEndian(v: nat, n: nat): (s: bytes)
    ensures |s| == n
  {
    if n == 0 then [] else BigEndian(v / 256, n - 1) + [v % 256]
  }

  /** A size of up to eleven bytes with the mark of base 256 before it. */
  function BinarySize(v: nat): (f: bytes)
    ensures |f| == 12
  {
    [0x80] + BigEndian(v, 11)
  }

  lemma {:induction false} Base256Snoc(s: bytes, d: byte, value: nat)
    ensures Base256(s + [d], value) == (Base256(s, value) * 256 + d as int) % TWO64
  {
    if s == [] {
      assert ([] + [d])[1..] == [];
    } else {
      Base256Snoc(s[1..], d, (value * 256 + s[0] as int) % TWO64);
      assert (s + [d])[1..] == s[1..] + [d];
    }
  }

  lemma {:induction false} BigEndianRead(v: nat, n: nat)
    requires v < Pow256(n)
    ensures Base256(BigEndian(v, n), 0) == v % TWO64
  {
    if n > 0 {
      BigEndianRead(v / 256, n - 1);
      Base256Snoc(BigEndian(v / 256, n - 1), v % 256, 0);
      OneMoreByte(v);
    }
  }

  lemma OneMoreByte(v: nat)
    ensures (v / 256 % TWO64 * 256 + v % 256) % TWO64 == v % TWO64
  {
    var q := v / 256;
    var k := q / TWO64;
    assert v == q % TWO64 * 256 + v % 256 + k * 256 * TWO64;
    Congruent(q % TWO64 * 256 + v % 256, k * 256);
  }

  lemma Congruent(a: nat, k: nat)
    ensures (a + k * TWO64) % TWO64 == a % TWO64
  {
    var q := a / TWO64;
    assert a + k * TWO64 == (q + k) * TWO64 + a % TWO64;
  }

  /** A size in base 256 is read back up to 2^63 - 1, which larger ones of up to 64 bits are taken for;
      of still larger ones only the last 64 bits count. */
  lemma BinarySizeRead(v: nat)
    requires v < Pow256(11)
    ensures ReadSize(BinarySize(v)) == if v % TWO64 <= INT64_MAX then v % TWO64 else INT64_MAX
  {
    hide Base256, BigEndian, Pow256;
    BigEndianRead(v, 11);
    assert BinarySize(v)[1..] == BigEndian(v, 11);
  }

  // ---------------------------------------------------------------------------
  // A written archive

  /** A member that is let through, by what is read of it: a header for the next member, or one whose path is accepted. */
  ghost predicate GoodMember(m: Member) {
    Extends(m) || Verdict(PathText(m), m.data).PathOk?
  }

  ghost predicate GoodMembers(ms: seq<Member>) {
    forall i :: 0 <= i < |ms| ==> GoodMember(ms[i])
  }

  ghost function Count(ms: seq<Member>): nat {
    if ms == [] then 0 else (if Extends(ms[0]) then 0 else 1) + Count(ms[1..])
  }

  ghost function TotalSize(ms: seq<Member>): nat {
    if ms == [] then 0 else |ms[0].data| + TotalSize(ms[1..])
  }

  lemma MemberRead(data: bytes, at: nat, m: Member)
    requires ValidMember(m) && SizeTold(m) && Holds(data, at, EncodeMember(m))
    ensures !Stops(data, at) && HeaderAt(data, at) == Header(m)
    ensures Next(data, at) == at + |EncodeMember(m)| && Content(data, at) == m.data
    ensures HeaderSound(data, at) <==> GoodMember(m)
  {
    hide Header, ChecksumValid, SizeOf, PathOf, PathText, IsExtension, Extends, Verdict, Padded;
    var h := Header(m);
    HoldsSplit(data, at, h + m.data, m.fill);
    HoldsSplit(data, at, h, m.data);
    HeaderRead(m);
  }

  lemma GoodMembersSplit(ms: seq<Member>)
    requires ms != []
    ensures GoodMembers(ms) <==> GoodMember(ms[0]) && GoodMembers(ms[1..])
  {
    hide GoodMember;
    assert forall i :: 1 <= i < |ms| ==> ms[i] == ms[1..][i - 1];
  }

  /** What is proved of the headers from `at` on and the members written there. */
  ghost predicate Mirrors(data: bytes, at: nat, ms: seq<Member>)
    requires ValidMembers(ms)
  {
    var hs := Headers(data, at);
    && hs == Offsets(ms, at) && InRange(data, hs)
    && (AllSound(data, hs) <==> GoodMembers(ms))
    && Members(data, hs) == Count(ms) && Total(data, hs) == TotalSize(ms)
  }

  /** What the sums need of a written header. */
  lemma SizeAndKindRead(m: Member)
    requires ValidMember(m) && SizeTold(m)
    ensures SizeOf(Header(m)) == |m.data| && (IsExtension(Header(m)) <==> Extends(m))
  {
    hide Header, SizeOf, IsExtension, Extends, ReadSize, PathOf, PathText, FullPath, PrefixFits, ChecksumValid, AllZero;
    HeaderRead(m);
  }

  lemma MirrorsBehind(data: bytes, at: nat, ms: seq<Member>)
    requires ValidMembers(ms) && ms != [] && SizeTold(ms[0]) && Holds(data, at, EncodeMember(ms[0]))
    requires Mirrors(data, at + |EncodeMember(ms[0])|, ms[1..])
    ensures Mirrors(data, at, ms)
  {
    hide EncodeMember, Header, HeaderAt, HeaderSound, GoodMember, GoodMembers, AllSound, Stops, SizeOf, IsExtension, Extends, Holds, Next, Headers, Content;
    var m := ms[0];
    MemberRead(data, at, m);
    SizeAndKindRead(m);
    SumsStart(data, at);
    GoodMembersSplit(ms);
  }

  lemma {:induction false} MembersRead(data: bytes, at: nat, ms: seq<Member>)
    requires ValidMembers(ms) && SizesTold(ms) && Holds(data, at, Encode(ms)) && Stops(data, at + |Encode(ms)|)
    ensures Mirrors(data, at, ms)
    decreases |ms|
  {
    hide EncodeMember, Stops, Holds, AllSound;
    if ms == [] {
      NoneUnsound(data);
    } else {
      hide Mirrors;
      var e := EncodeMember(ms[0]);
      HoldsSplit(data, at, e, Encode(ms[1..]));
      MembersRead(data, at + |e|, ms[1..]);
      MirrorsBehind(data, at, ms);
    }
  }

  /** A written archive. `tail` is what follows the members: nothing, or a block of zeros and
      anything after that. */
  ghost predicate Written(ms: seq<Member>, tail: bytes) {
    && ValidMembers(ms) && Stops(Encode(ms) + tail, |Encode(ms)|)
    && |Encode(ms) + tail| <= ADDRESSABLE
  }

  /** Where the headers say how much is stored, the walk visits those that were written and no others,
      whatever the members hold, and calls the archive clean exactly when all its members are good by what is read of them, those
      that count are at most 2000, and their sizes sum within the limit. */
  lemma ArchiveCleanAsRead(ms: seq<Member>, tail: bytes)
    requires Written(ms, tail) && SizesTold(ms)
    ensures var data := Encode(ms) + tail;
            && Headers(data, 0) == Offsets(ms, 0)
            && (TarVerdict(data, 0, 0, 0).Clean? <==>
                  GoodMembers(ms) && Count(ms) <= MAX_ENTRIES && TotalSize(ms) <= ExpansionLimit(|data|))
  {
    hide AllSound, GoodMembers, Stops, TarVerdict, ExpansionLimit;
    var data := Encode(ms) + tail;
    assert Holds(data, 0, Encode(ms));
    MembersRead(data, 0, ms);
    VerdictExactly(data);
    SizesFit(ms);
  }

  lemma {:induction false} SizesFit(ms: seq<Member>)
    requires ValidMembers(ms)
    ensures TotalSize(ms) <= |Encode(ms)|
  {
    if ms != [] { SizesFit(ms[1..]); }
  }

  // ---------------------------------------------------------------------------
  // The overflow: one byte, then a header alone that claims 2^63 - 1

  /** 2^63 in base 256, behind the mark. */
  function Huge(): (size: bytes)
    ensures |size| == 12
  {
    [0x80] + (Repeat(3, 0) + ([0x80] + Repeat(7, 0)))
  }

  /** A member with nothing in the fields that are passed over. */
  function Simple(name: bytes, prefix: bytes, kind: byte, size: bytes, data: bytes): (m: Member)
    requires |size| == 12
    ensures |m.owner| == 88 && MAGIC <= m.owner
  {
    Member(name, prefix, size, kind, Repeat(24, 0), Repeat(12, 0), Repeat(100, 0), MAGIC + Repeat(82, 0), Repeat(12, 0),
           data, Repeat(Padded(|data|) - |data|, 0))
  }

  function Sample(size: bytes, data: bytes): (m: Member)
    requires |size| == 12
    ensures ValidFields(m) && m.data == data
  {
    Simple([97], [], 48, size, data)
  }

  lemma ZeroShifts(n: nat, value: nat)
    requires n > 0 && value * 256 < TWO64
    ensures Base256(Repeat(n, 0), value) == Base256(Repeat(n - 1, 0), value * 256)
  {
    assert Repeat(n, 0)[1..] == Repeat(n - 1, 0);
  }

  lemma {:induction false} LeadingZeros(n: nat, s: bytes)
    ensures Base256(Repeat(n, 0) + s, 0) == Base256(s, 0)
  {
    if n == 0 {
      assert Repeat(0, 0) + s == s;
    } else {
      assert (Repeat(n, 0) + s)[1..] == Repeat(n - 1, 0) + s;
      LeadingZeros(n - 1, s);
    }
  }

  lemma HugeSize()
    ensures ReadSize(Huge()) == INT64_MAX
  {
    hide Repeat;
    var digits := [0x80] + Repeat(7, 0);
    assert Huge()[1..] == Repeat(3, 0) + digits;
    LeadingZeros(3, digits);
    assert digits[1..] == Repeat(7, 0);
    assert Base256(digits, 0) == Base256(Repeat(7, 0), 0x80);
    ZeroShifts(7, 0x80);
    ZeroShifts(6, 0x8000);
    ZeroShifts(5, 0x80_0000);
    ZeroShifts(4, 0x8000_0000);
    ZeroShifts(3, 0x80_0000_0000);
    ZeroShifts(2, 0x8000_0000_0000);
    ZeroShifts(1, 0x80_0000_0000_0000);
    assert Base256(Repeat(0, 0), 0x8000_0000_0000_0000) == 0x8000_0000_0000_0000;
  }

  /** Two headers: a file of one byte, and one that claims 2^63 - 1 bytes and ends the archive. */
  ghost function Wrapping(): bytes {
    SizeRoundTrip(1);
    EncodeMember(Sample(OctalSize(1), [0])) + Header(Sample(Huge(), []))
  }

  lemma SampleIsSound(data: bytes, at: nat, size: bytes, stored: bytes)
    requires |size| == 12 && at + BLOCK <= |data| && HeaderAt(data, at) == Header(Sample(size, stored))
    requires |Content(data, at)| <= 1
    ensures HeaderSound(data, at) && !Stops(data, at) && SizeOf(HeaderAt(data, at)) == ReadSize(size)
  {
    hide Header, ReadSize, SizeOf, ChecksumValid, PathOf, AllZero, Content, Verdict;
    HeaderRead(Sample(size, stored));
    LettersAreAccepted([97], 1, Content(data, at));
  }

  /** The running total wraps around, so that this archive passes though its sizes sum to 2^63. */
  lemma OverflowIsPassed()
    ensures InRange(Wrapping(), Headers(Wrapping(), 0))
    ensures TarVerdict(Wrapping(), 0, 0, 0).Clean? && !CleanTar(Wrapping())
    ensures Total(Wrapping(), Headers(Wrapping(), 0)) == INT64_MAX + 1
  {
    hide EncodeMember, Header, ReadSize, OctalSize, Huge, SizeOf, IsExtension, HeaderSound, Stops, Sample, GoodMember, Content;
    SizeRoundTrip(1);
    HugeSize();
    var (m, last) := (Sample(OctalSize(1), [0]), Sample(Huge(), []));
    var data := Wrapping();
    WrappingParts();
    MemberRead(data, 0, m);
    assert Content(data, 1024) == [] by { NothingBehind(data, 1024); }
    SampleIsSound(data, 0, OctalSize(1), [0]);
    SampleIsSound(data, 1024, Huge(), []);
    assert Next(data, 1024) > |data|;
    BehindTheEnd(data, Next(data, 1024));
    assert Headers(data, 1024) == [1024] + Headers(data, Next(data, 1024));
    assert Headers(data, 0) == [0] + Headers(data, 1024);
    assert Headers(data, 0) == [0, 1024];
    assert Init([0, 1024]) == [0];
    assert Total(data, [0]) == 1 + Total(data, []);
    assert Total(data, [0, 1024][1..]) == INT64_MAX + Total(data, []);
    assert Members(data, [0, 1024][1..]) <= 1;
    VerdictExactly(data);
  }

  lemma WrappingParts()
    ensures var (m, last) := (Sample(OctalSize(1), [0]), Sample(Huge(), []));
            var data := Wrapping();
            && ValidMember(m) && SizeTold(m) && |data| == 1536 && Holds(data, 0, EncodeMember(m))
            && |EncodeMember(m)| == 1024 && HeaderAt(data, 1024) == Header(last)
  {
    hide EncodeMember, Header, ReadSize, OctalSize, Huge;
    SizeRoundTrip(1);
  }

  lemma NothingBehind(data: bytes, at: nat)
    requires at + BLOCK == |data|
    ensures Content(data, at) == []
  {
  }

  lemma BehindTheEnd(data: bytes, at: nat)
    requires at > |data|
    ensures Stops(data, at) && Headers(data, at) == []
  {
  }
}
