// What a tar archive really holds, and when the tar inspection goes by that: long prefixes, headers
// that name the member behind them, and headers whose size is not what is stored.
module TarNames {
  import opened Bytes
  import opened ArchiveChecks
  import opened TarWalk
  import opened TarArchive

  const LONG_NAME: byte := 76
  const PAX: byte := 120
  const PAX_GLOBAL: byte := 103
  const PAX_SOLARIS: byte := 88
  /** "path=", "size=" and "GNU.sparse.name=". */
  const PATH_KEY: bytes := [112, 97, 116, 104, 61]
  const SIZE_KEY: bytes := [115, 105, 122, 101, 61]
  const SPARSE_NAME_KEY: bytes := [71, 78, 85, 46, 115, 112, 97, 114, 115, 101, 46, 110, 97, 109, 101, 61]
  const NEWLINE: byte := 10

  // ---------------------------------------------------------------------------
  // Names

  /** The decimal number that `s` starts with, behind the digits already read, and what follows. */
  function Decimal(s: bytes, value: nat): (r: (nat, bytes))
    ensures |r.1| <= |s|
  {
    if s != [] && 48 <= s[0] <= 57 then Decimal(s[1..], value * 10 + (s[0] as int - 48)) else (value, s)
  }

  /** The value that pax records give to a keyword, the last one if several do; a record is its own
      length, a space, a keyword with "=", a value and a newline. */
  function PaxValue(records: bytes, key: bytes): Option<bytes> {
    var (len, rest) := Decimal(records, 0);
    var head := |records| - |rest|;
    if rest == [] || rest[0] != SPACE || len > |records| || len < head + 2 then None
    else
      var body := records[head + 1..len - 1];
      var later := PaxValue(records[len..], key);
      if later.Some? then later
      else if key <= body then Some(body[|key|..])
      else None
  }

  /** The path that pax records give. */
  function PaxPath(records: bytes): Option<bytes> {
    var sparse := PaxValue(records, SPARSE_NAME_KEY);
    if sparse.Some? then sparse else PaxValue(records, PATH_KEY)
  }

  /** A header that is about other members: the four kinds that the inspection knows, and one more. */
  predicate TrulyExtends(m: Member) {
    Extends(m) || m.kind == PAX_SOLARIS
  }

  predicate IsPax(kind: byte) {
    kind == PAX || kind == PAX_GLOBAL || kind == PAX_SOLARIS
  }

  /** Names given by headers: to the next member, and to all that follow. */
  datatype Naming = Naming(next: Option<bytes>, all: Option<bytes>)

  const UNNAMED: Naming := Naming(None, None)

  function Named(nm: Naming, m: Member): Naming {
    if m.kind == LONG_NAME then nm.(next := Some(Cut(m.data)))
    else if IsPax(m.kind) then
      var path := PaxPath(m.data);
      if path.None? then nm else if m.kind == PAX_GLOBAL then nm.(all := path) else nm.(next := path)
    else if Extends(m) then nm
    else nm.(next := None)
  }

  function TrueName(nm: Naming, m: Member): bytes {
    if nm.next.Some? then nm.next.value
    else if nm.all.Some? then nm.all.value
    else FullPath(m)
  }

  /** Every member, by its true name. */
  ghost predicate TrulyGood(ms: seq<Member>, nm: Naming) {
    ms == [] ||
    ((TrulyExtends(ms[0]) || Verdict(TrueName(nm, ms[0]), ms[0].data).PathOk?) && TrulyGood(ms[1..], Named(nm, ms[0])))
  }

  ghost function TrueCount(ms: seq<Member>): nat {
    if ms == [] then 0 else (if TrulyExtends(ms[0]) then 0 else 1) + TrueCount(ms[1..])
  }

  /** The inspection calls the archive clean exactly when it is, by the members that are there and their
      true names. */
  ghost predicate JudgedRight(ms: seq<Member>, tail: bytes)
    requires Written(ms, tail)
  {
    var data := Encode(ms) + tail;
    TarVerdict(data, 0, 0, 0).Clean? <==>
      TrulyGood(ms, UNNAMED) && TrueCount(ms) <= MAX_ENTRIES && TotalSize(ms) <= ExpansionLimit(|data|)
  }

  // ---------------------------------------------------------------------------
  // Where the inspection is right

  /** A header that gives another member a name or a size. */
  predicate Redefines(m: Member) {
    m.kind == LONG_NAME || (IsPax(m.kind) && (PaxPath(m.data).Some? || PaxValue(m.data, SIZE_KEY).Some?))
  }

  /** A header that means what it says to the inspection: its name is its own and short enough to be
      joined, and its size is what is stored. */
  predicate Straight(m: Member)
    requires |m.size| == 12
  {
    PrefixFits(m) && !Redefines(m) && m.kind != PAX_SOLARIS && SizeTold(m)
  }

  ghost predicate AllStraight(ms: seq<Member>)
    requires ValidMembers(ms)
  {
    forall i :: 0 <= i < |ms| ==> Straight(ms[i])
  }

  lemma {:induction false} ReadAsTheyAre(ms: seq<Member>)
    requires ValidMembers(ms) && AllStraight(ms)
    ensures GoodMembers(ms) <==> TrulyGood(ms, UNNAMED)
    ensures Count(ms) == TrueCount(ms) && SizesTold(ms)
  {
    hide Verdict, PaxValue, PaxPath, ReadSize;
    if ms != [] {
      var (m, rest) := (ms[0], ms[1..]);
      assert forall i :: 0 <= i < |rest| ==> rest[i] == ms[i + 1];
      ReadAsTheyAre(rest);
      GoodMembersSplit(ms);
      assert Straight(m);
      assert Named(UNNAMED, m) == UNNAMED;
      assert PathText(m) == FullPath(m) == TrueName(UNNAMED, m);
    }
  }

  lemma ArchiveCleanExactly(ms: seq<Member>, tail: bytes)
    requires Written(ms, tail) && AllStraight(ms)
    ensures JudgedRight(ms, tail)
  {
    hide TarVerdict, GoodMembers, TrulyGood, Encode, Stops, ExpansionLimit, Straight;
    ReadAsTheyAre(ms);
    ArchiveCleanAsRead(ms, tail);
  }

  /** Then every path of a clean archive stays in the directory, but those that start with a backslash
      or are just a climb. */
  lemma CleanPathsStayInside(ms: seq<Member>, tail: bytes, i: nat)
    requires Written(ms, tail) && AllStraight(ms) && TarVerdict(Encode(ms) + tail, 0, 0, 0).Clean?
    requires i < |ms| && !TrulyExtends(ms[i])
    ensures var path := FullPath(ms[i]);
            Leaves(path) <==> (path != [] && path[0] == BACKSLASH) || BareClimb(Components(path))
  {
    hide TarVerdict, Encode, Stops, Verdict, Leaves, BareClimb, Components, ReadSize;
    ReadAsTheyAre(ms);
    ArchiveCleanAsRead(ms, tail);
    assert GoodMember(ms[i]) && Straight(ms[i]);
    assert PathText(ms[i]) == FullPath(ms[i]);
    AcceptedPathStaysInside(FullPath(ms[i]), ms[i].data);
  }

  // ---------------------------------------------------------------------------
  // Where it is not

  /** A short archive whose members are good as they are read but not by their true names. */
  lemma JudgedWrong(ms: seq<Member>)
    requires ValidMembers(ms) && SizesTold(ms) && |Encode(ms)| <= ADDRESSABLE && |ms| <= 2 && TotalSize(ms) <= EXPANSION_MIN
    requires GoodMembers(ms) && !TrulyGood(ms, UNNAMED)
    ensures Written(ms, []) && !JudgedRight(ms, [])
  {
    hide TarVerdict, GoodMembers, TrulyGood, AllZero, Encode, TotalSize, SizeTold;
    assert Encode(ms) + [] == Encode(ms);
    CountBelow(ms);
    ArchiveCleanAsRead(ms, []);
  }

  lemma {:induction false} CountBelow(ms: seq<Member>)
    ensures Count(ms) <= |ms|
  {
    if ms != [] { CountBelow(ms[1..]); }
  }

  /** An empty file with a name of 100 bytes behind a prefix of 155 that climbs. */
  function LongPrefixed(): (m: Member)
    ensures |m.prefix| == 155 && |m.name| == 100
  {
    Simple(Repeat(100, 97), (UP + [SLASH]) + Repeat(152, 97), 48, OctalSize(0), [])
  }

  /** Its path as a whole leaves the directory, and the check would refuse it. */
  lemma LongPrefixClimbs()
    ensures Leaves(FullPath(LongPrefixed())) && !Verdict(FullPath(LongPrefixed()), []).PathOk?
  {
    hide Verdict, OctalSize, Leaves, Repeat;
    var m := LongPrefixed();
    var (letters, name) := (Repeat(152, 97), Repeat(100, 97));
    LeadingClimb(letters + ([SLASH] + name), []);
    assert ((UP + [SLASH]) + letters) + [SLASH] + name == UP + ([SLASH] + (letters + ([SLASH] + name)));
  }

  lemma LongPrefixIsJudgedWrong()
    ensures Written([LongPrefixed()], []) && !JudgedRight([LongPrefixed()], [])
    ensures !Redefines(LongPrefixed()) && LongPrefixed().kind == REGULAR && SizeTold(LongPrefixed())
  {
    hide Verdict, OctalSize, Leaves, Repeat, EncodeMember;
    var m := LongPrefixed();
    SizeRoundTrip(0);
    LettersAreAccepted(m.name, 100, []);
    LongPrefixClimbs();
    OneMemberSizes(m);
    assert GoodMember(m) && !TrulyGood([m], UNNAMED);
    JudgedWrong([m]);
  }

  lemma OneMemberSizes(m: Member)
    requires ValidMember(m)
    ensures Encode([m]) == EncodeMember(m) && TotalSize([m]) == |m.data|
  {
    hide EncodeMember;
    assert [m][1..] == [];
    assert Encode([m]) == EncodeMember(m) + Encode([m][1..]);
    assert TotalSize([m]) == |m.data| + TotalSize([m][1..]);
  }

  ghost predicate Shaped(ms: seq<Member>, prefix: nat, name: nat)
    requires ValidMembers(ms)
  {
    forall i :: 0 <= i < |ms| ==>
      var m := ms[i];
      |m.prefix| == prefix && |m.name| == name && !Redefines(m) && m.kind != PAX_SOLARIS && SizeTold(m)
  }

  /** Among the lengths that the fields allow, the inspection is right about all archives that are
      straight otherwise exactly where prefix, separator and name come to at most 255 bytes. */
  lemma PrefixLimitIsExact(prefix: nat, name: nat)
    requires 0 < prefix <= 155 && name <= 100
    ensures (forall ms, tail :: Written(ms, tail) && Shaped(ms, prefix, name) ==> JudgedRight(ms, tail))
       <==> prefix + 1 + name <= 255
  {
    hide JudgedRight, Encode, Redefines, LongPrefixed, SizeTold;
    if prefix + 1 + name <= 255 {
      forall ms, tail | Written(ms, tail) && Shaped(ms, prefix, name) ensures JudgedRight(ms, tail) {
        assert AllStraight(ms);
        ArchiveCleanExactly(ms, tail);
      }
    } else {
      LongPrefixIsJudgedWrong();
      assert Shaped([LongPrefixed()], prefix, name);
    }
  }

  /** "13 path=../x" and a newline. */
  function PathRecord(): bytes {
    [49, 51, SPACE] + (PATH_KEY + CLIMB) + [NEWLINE]
  }

  lemma PathRecordGivesTheClimb()
    ensures |PathRecord()| == 13 && PaxPath(PathRecord()) == Some(CLIMB)
    ensures !LooksLikeArchive(PathRecord()) && !LooksLikeArchive([])
  {
    var d := PathRecord();
    var (d1, d2) := (d[1..], d[2..]);
    assert d1[1..] == d2;
    assert Decimal(d2, 13) == (13, d2);
    assert Decimal(d1, 1) == Decimal(d2, 13);
    assert Decimal(d, 0) == Decimal(d1, 1);
    assert d[3..12] == PATH_KEY + CLIMB;
    assert (PATH_KEY + CLIMB)[|PATH_KEY|..] == CLIMB;
    assert d[13..] == [];
    assert PaxValue([], PATH_KEY).None? && PaxValue([], SPARSE_NAME_KEY).None?;
    assert (PATH_KEY + CLIMB)[0] != SPARSE_NAME_KEY[0];
  }

  lemma CutNothing(text: bytes)
    requires 0 !in text
    ensures Cut(text) == text
  {
    CutField(text, |text|);
    assert Field(text, |text|) == text;
  }

  /** A header of that kind, and an empty file "a" that it names "../x". */
  function Renaming(kind: byte): seq<Member> {
    var data := if kind == LONG_NAME then CLIMB else PathRecord();
    [Simple([97], [], kind, OctalSize(|data|), data), Simple([97], [], 48, OctalSize(0), [])]
  }

  lemma RenamingIsValid(kind: byte)
    requires Modelled(kind) && !(49 <= kind <= 54)
    ensures ValidMembers(Renaming(kind)) && SizesTold(Renaming(kind)) && |Encode(Renaming(kind))| <= 3 * BLOCK && TotalSize(Renaming(kind)) <= BLOCK
  {
    hide OctalSize, ReadSize, EncodeMember, PathRecord, Repeat;
    var ms := Renaming(kind);
    var (m, f) := (ms[0], ms[1]);
    PathRecordGivesTheClimb();
    SizeRoundTrip(|m.data|);
    SizeRoundTrip(0);
    assert ValidMember(m) && ValidMember(f);
    OneMemberSizes(f);
    assert ms[1..] == [f];
    assert Encode(ms) == EncodeMember(m) + Encode([f]);
    assert TotalSize(ms) == |m.data| + TotalSize([f]);
  }

  lemma RenamingFields(kind: byte)
    ensures var ms := Renaming(kind);
            && |ms| == 2 && ms[0].kind == kind && ms[1].kind == REGULAR
            && (forall i :: 0 <= i < 2 ==> ms[i].name == [97] && ms[i].prefix == [])
            && ms[0].data == (if kind == LONG_NAME then CLIMB else PathRecord()) && ms[1].data == []
  {
    hide OctalSize, PathRecord, Repeat;
  }

  lemma RenamingIsMisread(kind: byte)
    requires kind == LONG_NAME || IsPax(kind)
    ensures GoodMembers(Renaming(kind)) && !TrulyGood(Renaming(kind), UNNAMED)
  {
    hide Verdict, OctalSize, PaxPath, PathRecord, Cut, Repeat, LooksLikeArchive, Simple;
    RenamingFields(kind);
    var ms := Renaming(kind);
    var (m, f) := (ms[0], ms[1]);
    PathRecordGivesTheClimb();
    CutNothing(CLIMB);
    LettersAreAccepted([97], 1, []);
    LettersAreAccepted([97], 1, PathRecord());
    ClimbIsRefused([], CLIMB, []);
    assert [] + CLIMB == CLIMB;
    var nm := Named(UNNAMED, m);
    assert TrueName(nm, f) == CLIMB;
    assert ms[1..] == [f];
    assert !TrulyGood([f], nm);
  }

  lemma RenamingIsJudgedWrong(kind: byte)
    requires kind == LONG_NAME || IsPax(kind)
    ensures Written(Renaming(kind), []) && !JudgedRight(Renaming(kind), [])
  {
    hide GoodMembers, TrulyGood, ValidMembers, Encode, TotalSize, OctalSize, PathRecord;
    RenamingIsValid(kind);
    RenamingIsMisread(kind);
    JudgedWrong(Renaming(kind));
  }

  ghost predicate ExtendedBy(ms: seq<Member>, kind: byte)
    requires ValidMembers(ms)
  {
    forall i :: 0 <= i < |ms| ==> PrefixFits(ms[i]) && SizeTold(ms[i]) && (ms[i].kind == kind || !TrulyExtends(ms[i]))
  }

  /** And the kinds of header whose presence leaves it right about all archives that are straight
      otherwise are exactly those that say nothing of another member's name or size. */
  lemma KindsAreExact(kind: byte)
    requires Modelled(kind)
    ensures (forall ms, tail :: Written(ms, tail) && ExtendedBy(ms, kind) ==> JudgedRight(ms, tail))
       <==> kind != LONG_NAME && !IsPax(kind)
  {
    hide JudgedRight, ValidMembers, Encode, Stops, ExtendedBy, Renaming;
    if kind == LONG_NAME || IsPax(kind) {
      RenamingIsJudgedWrong(kind);
      RenamingFits(kind);
    } else {
      forall ms, tail | Written(ms, tail) && ExtendedBy(ms, kind) ensures JudgedRight(ms, tail) {
        OtherKindsAreStraight(ms, tail, kind);
        ArchiveCleanExactly(ms, tail);
      }
    }
  }

  lemma OtherKindsAreStraight(ms: seq<Member>, tail: bytes, kind: byte)
    requires Written(ms, tail) && ExtendedBy(ms, kind) && kind != LONG_NAME && !IsPax(kind)
    ensures AllStraight(ms)
  {
    hide Encode, PrefixFits, SizeTold, PaxPath, PaxValue, ValidMember;
  }

  lemma RenamingFits(kind: byte)
    requires kind == LONG_NAME || IsPax(kind)
    ensures ValidMembers(Renaming(kind)) && ExtendedBy(Renaming(kind), kind)
  {
    hide ReadSize, OctalSize, PathRecord, Repeat, Encode, TotalSize, ValidMember, SizeTold;
    RenamingIsValid(kind);
    var ms := Renaming(kind);
    assert ms[0].prefix == [] && ms[1].prefix == [] && ms[0].kind == kind && ms[1].kind == REGULAR;
    assert |ms| == 2 && SizeTold(ms[0]) && SizeTold(ms[1]);
  }

  // ---------------------------------------------------------------------------
  // Sizes of what has nothing stored

  /** A header of that kind and size, of the name "a/", and an empty file behind it. */
  function Hiding(kind: byte, size: bytes, name: bytes): seq<Member>
    requires |size| == 12
  {
    [Simple([97, SLASH], [], kind, size, []), Simple(name, [], REGULAR, OctalSize(0), [])]
  }

  predicate MayBeBodiless(kind: byte) {
    49 <= kind <= 54 || kind == OLD_REGULAR
  }

  lemma SlashNameIsAccepted(head: bytes)
    ensures Verdict([97, SLASH], head).PathOk? <==> !LooksLikeArchive(head)
  {
    hide LooksLikeArchive;
    var path: bytes := [97, SLASH];
    ShortPathsAreUnsuspicious(path);
    assert forall i :: 0 <= i <= |path| ==> |path[i..]| < 3;
    OneComponent([97]);
    ComponentsJoin([97], []);
    assert [97] + ([SLASH] + []) == path;
  }

  lemma HidingIsValid(kind: byte, size: bytes, name: bytes)
    requires |size| == 12 && MayBeBodiless(kind) && |name| <= 100 && 0 !in name && name != [] && name[|name| - 1] != SLASH
    ensures var ms := Hiding(kind, size, name);
            && ValidMembers(ms) && SizeTold(ms[1]) && Encode(ms) == Header(ms[0]) + Header(ms[1])
            && TotalSize(ms) == 0
  {
    hide OctalSize, ReadSize, Header, Repeat;
    SizeRoundTrip(0);
    var ms := Hiding(kind, size, name);
    assert ValidMember(ms[0]) && ValidMember(ms[1]);
    OneMemberSizes(ms[1]);
    assert ms[1..] == [ms[1]];
    assert Encode(ms) == EncodeMember(ms[0]) + Encode([ms[1]]);
    assert Header(ms[0]) + [] + [] == Header(ms[0]) && Header(ms[1]) + [] + [] == Header(ms[1]);
    assert TotalSize(ms) == 0 + TotalSize([ms[1]]);
  }

  /** What the walk makes of the first header: the second is its content, and there is no other. */
  lemma HidingIsRead(kind: byte, size: bytes, name: bytes)
    requires |size| == 12 && MayBeBodiless(kind) && |name| <= 100 && 0 !in name && name != [] && name[|name| - 1] != SLASH
    requires ReadSize(size) > 0
    ensures var ms := Hiding(kind, size, name);
            var n := ReadSize(size);
            && Written(ms, [])
            && (TarVerdict(Encode(ms) + [], 0, 0, 0).Clean? <==>
                  !LooksLikeArchive(Header(ms[1])[..if n < BLOCK then n else BLOCK]) && n <= EXPANSION_MIN)
  {
    hide OctalSize, ReadSize, Header, Verdict, ChecksumValid, PathOf, AllZero, LooksLikeArchive, IsExtension, SizeOf, TarVerdict, Encode;
    var ms := Hiding(kind, size, name);
    var n := ReadSize(size);
    HidingIsValid(kind, size, name);
    var data := Encode(ms) + [];
    assert data == Header(ms[0]) + Header(ms[1]) && |data| == 1024;
    assert data[..BLOCK] == Header(ms[0]) && data[BLOCK..] == Header(ms[1]);
    HeaderRead(ms[0]);
    assert PathOf(Header(ms[0])) == [97, SLASH];
    var seen := if n < BLOCK then n else BLOCK;
    assert Content(data, 0) == data[BLOCK..BLOCK + seen] == Header(ms[1])[..seen];
    SlashNameIsAccepted(Content(data, 0));
    SizeBelow(Header(ms[0]));
    BehindTheBlocks(data, n, 1, n);
    OneHeader(data, ms[0], n);
  }

  /** The verdict on a sound header that is no extension and has nothing behind its content. */
  lemma OneHeader(data: bytes, m: Member, n: nat)
    requires ValidFields(m) && !Extends(m) && |data| >= BLOCK && HeaderAt(data, 0) == Header(m)
    requires n == ReadSize(m.size) <= INT64_MAX && TarVerdict(data, BLOCK + Padded(n), 1, n).Clean?
    ensures TarVerdict(data, 0, 0, 0).Clean? <==>
              Verdict(PathText(m), Content(data, 0)).PathOk? && n <= ExpansionLimit(|data|)
  {
    hide ReadSize, Header, Verdict, ChecksumValid, PathOf, PathText, AllZero, IsExtension, SizeOf, Content, ExpansionLimit, Padded;
    HeaderRead(m);
    assert Next(data, 0) == BLOCK + Padded(n);
  }

  lemma BehindTheBlocks(data: bytes, n: nat, seen: nat, total: int)
    requires |data| == 1024 && n > 0
    ensures Stops(data, BLOCK + Padded(n)) && ExpansionLimit(|data|) == EXPANSION_MIN
    ensures TarVerdict(data, BLOCK + Padded(n), seen, total).Clean?
  {
    assert Padded(n) >= BLOCK;
  }

  /** Within its first 261 bytes a header has only its name for a beginning; with the 262nd the whole
      magic is there. */
  lemma HeaderLooksLikeArchive(m: Member, n: nat)
    requires ValidFields(m) && n <= BLOCK && m.name != [] && (m.name[0] == DOT || m.name[0] == 97)
    ensures LooksLikeArchive(Header(m)[..n]) <==> n >= 262
  {
    hide Header, Checksum, OctalDigits;
    var h := Header(m);
    HeaderParts(m);
    HeaderMagic(m);
    assert h[..100][0] == h[0] == m.name[0];
    if n >= 262 {
      assert h[..n][257..262] == h[257..262] == h[257..263][..5];
    }
  }

  lemma HeaderMagic(m: Member)
    requires ValidFields(m)
    ensures Header(m)[257..263] == MAGIC
  {
    hide Field, OctalDigits, Checksum, Holds;
    var h := Header(m);
    var check := OctalDigits(Checksum(m), 6) + [0, SPACE];
    WholeHolds(h);
    HoldsSplit(h, 0, Front(m) + check, Back(m));
    var kinds := [m.kind] + (m.link + m.owner);
    HoldsSplit(h, 156, kinds + Field(m.prefix, 155), m.padding);
    HoldsSplit(h, 156, kinds, Field(m.prefix, 155));
    HoldsSplit(h, 156, [m.kind], m.link + m.owner);
    HoldsSplit(h, 157, m.link, m.owner);
    Held(h, 257, m.owner);
    assert h[257..263] == h[257..345][..6];
  }

  lemma FieldsOf(m: Member)
    requires ValidMember(m)
    ensures ValidFields(m)
  {
  }

  /** A directory "a/" of size 1, say, and behind it the header of "../x": the walk takes that for the
      directory's contents and says "clean". */
  lemma HiddenMemberIsPassed(kind: byte, size: bytes)
    requires |size| == 12 && MayBeBodiless(kind) && 0 < ReadSize(size) <= 261
    ensures var ms := Hiding(kind, size, CLIMB);
            && Written(ms, []) && TarVerdict(Encode(ms) + [], 0, 0, 0).Clean? && !JudgedRight(ms, [])
            && Leaves(FullPath(ms[1]))
  {
    hide OctalSize, ReadSize, Header, Verdict, TarVerdict, LooksLikeArchive, Encode, Leaves, PaxPath, PaxValue, Simple, ValidMember, SizeTold;
    var ms := Hiding(kind, size, CLIMB);
    HidingFields(kind, size, CLIMB);
    HidingIsRead(kind, size, CLIMB);
    HidingIsValid(kind, size, CLIMB);
    assert ValidFields(ms[1]) by { FieldsOf(ms[1]); }
    HeaderLooksLikeArchive(ms[1], ReadSize(size));
    ClimbIsRefused([], CLIMB, []);
    assert [] + CLIMB == CLIMB;
    LeadingClimb([120], []);
    assert UP + ([SLASH] + [120]) == CLIMB;
    assert ms[1..] == [ms[1]];
    assert !TrulyGood([ms[1]], UNNAMED);
  }

  /** And of a larger size, a good file behind it is refused. */
  lemma GoodMemberIsRefused(kind: byte, size: bytes)
    requires |size| == 12 && MayBeBodiless(kind) && ReadSize(size) > 261
    ensures var ms := Hiding(kind, size, [97]);
            && Written(ms, []) && !TarVerdict(Encode(ms) + [], 0, 0, 0).Clean? && !JudgedRight(ms, [])
  {
    hide OctalSize, ReadSize, Header, Verdict, TarVerdict, LooksLikeArchive, Encode, PaxPath, PaxValue, TotalSize;
    var ms := Hiding(kind, size, [97]);
    HidingIsRead(kind, size, [97]);
    HidingIsValid(kind, size, [97]);
    HeaderLooksLikeArchive(ms[1], if ReadSize(size) < BLOCK then ReadSize(size) else BLOCK);
    EmptyLooksLikeNothing();
    SlashNameIsAccepted([]);
    LettersAreAccepted([97], 1, []);
    assert ms[1..] == [ms[1]] && ms[1..][1..] == [];
    assert TrulyGood([], UNNAMED) && TrulyGood([ms[1]], UNNAMED);
    assert TrueCount(ms) == 1 + TrueCount([ms[1]]) && TrueCount([ms[1]]) == 1 + TrueCount([]);
  }

  lemma EmptyLooksLikeNothing()
    ensures !LooksLikeArchive([])
  {
  }

  ghost predicate Sized(ms: seq<Member>, kind: byte, size: bytes)
    requires ValidMembers(ms)
  {
    forall i :: 0 <= i < |ms| ==>
      var m := ms[i];
      && PrefixFits(m) && !Redefines(m) && m.kind != PAX_SOLARIS
      && (SizeTold(m) || (m.kind == kind && m.size == size))
  }

  /** The sizes with which a kind of header leaves the inspection right about all archives that are
      straight otherwise: any for what has its data stored, and only zero for what has none. */
  lemma SizesAreExact(kind: byte, size: bytes)
    requires |size| == 12
    ensures (forall ms, tail :: Written(ms, tail) && Sized(ms, kind, size) ==> JudgedRight(ms, tail))
       <==> !MayBeBodiless(kind) || ReadSize(size) == 0
  {
    hide JudgedRight, ValidMembers, Encode, Stops, Sized, ReadSize, Hiding;
    if !MayBeBodiless(kind) || ReadSize(size) == 0 {
      forall ms, tail | Written(ms, tail) && Sized(ms, kind, size) ensures JudgedRight(ms, tail) {
        OtherSizesAreTold(ms, kind, size);
        ArchiveCleanExactly(ms, tail);
      }
    } else if ReadSize(size) <= 261 {
      HiddenMemberIsPassed(kind, size);
      HidingIsSized(kind, size, CLIMB);
    } else {
      GoodMemberIsRefused(kind, size);
      HidingIsSized(kind, size, [97]);
    }
  }

  lemma OtherSizesAreTold(ms: seq<Member>, kind: byte, size: bytes)
    requires ValidMembers(ms) && |size| == 12 && Sized(ms, kind, size)
    requires !MayBeBodiless(kind) || ReadSize(size) == 0
    ensures AllStraight(ms)
  {
    hide ReadSize, PrefixFits, PaxPath, PaxValue;
    forall i | 0 <= i < |ms| ensures Straight(ms[i]) {
      assert ValidMember(ms[i]);
    }
  }

  lemma HidingIsSized(kind: byte, size: bytes, name: bytes)
    requires |size| == 12 && MayBeBodiless(kind) && |name| <= 100 && 0 !in name && name != [] && name[|name| - 1] != SLASH
    ensures ValidMembers(Hiding(kind, size, name)) && Sized(Hiding(kind, size, name), kind, size)
  {
    hide ReadSize, OctalSize, Encode, TotalSize, Header, Simple, SizeTold, PaxPath, PaxValue, ValidMember;
    HidingIsValid(kind, size, name);
    HidingFields(kind, size, name);
  }

  lemma HidingFields(kind: byte, size: bytes, name: bytes)
    requires |size| == 12
    ensures var ms := Hiding(kind, size, name);
            && |ms| == 2 && ms[0].kind == kind && ms[0].size == size && ms[1].kind == REGULAR
            && ms[0].prefix == [] && ms[1].prefix == [] && ms[0].name == [97, SLASH] && ms[1].name == name
            && ms[0].data == [] && ms[1].data == []
  {
    hide OctalSize, Repeat;
  }
}
