// Zip archives as they are written (PKWARE APPNOTE, section 4.3): the local parts, the central
// directory and its end record; and which names of an entry the inspection goes by.
module ZipArchive {
  import opened Bytes
  import opened ArchiveChecks
  import opened Inflate
  import opened ZipWalk

  /** An entry, with the fields that the inspection passes over; the local header has a name and extra
      fields of its own. */
  datatype Entry = Entry(
    path: bytes, deflated: bool, packed: bytes, declared: nat, flags: nat,
    versions: bytes, dates: bytes, attributes: bytes, extra: bytes, comment: bytes,
    localFields: bytes, localPath: bytes, localExtra: bytes)

  predicate ValidEntry(e: Entry) {
    && |e.path| < 0x1_0000 && |e.extra| < 0x1_0000 && |e.comment| < 0x1_0000
    && |e.localPath| < 0x1_0000 && |e.localExtra| < 0x1_0000
    && |e.packed| < MARKER && e.declared < MARKER
    && e.flags < 0x1_0000 && e.flags % 2 == 0
    && |e.versions| == 4 && |e.dates| == 8 && |e.attributes| == 8 && |e.localFields| == 22
  }

  ghost predicate ValidEntries(es: seq<Entry>) {
    forall i :: 0 <= i < |es| ==> ValidEntry(es[i])
  }

  function LocalHead(e: Entry): (b: bytes)
    requires ValidEntry(e)
    ensures |b| == 30
  {
    LE32(LOCAL_SIG) + e.localFields + LE16(|e.localPath|) + LE16(|e.localExtra|)
  }

  function LocalPart(e: Entry): (b: bytes)
    requires ValidEntry(e)
    ensures |b| == 30 + |e.localPath| + |e.localExtra| + |e.packed|
  {
    LocalHead(e) + (e.localPath + e.localExtra) + e.packed
  }

  function CentralHead(e: Entry, at: nat): (b: bytes)
    requires ValidEntry(e) && at < TWO32
    ensures |b| == 46
  {
    (LE32(CENTRAL_SIG) + e.versions + LE16(e.flags) + LE16(if e.deflated then 8 else 0) + e.dates)
    + (LE32(|e.packed|) + LE32(e.declared))
    + (LE16(|e.path|) + LE16(|e.extra|) + LE16(|e.comment|))
    + e.attributes + LE32(at)
  }

  function CentralPart(e: Entry, at: nat): (b: bytes)
    requires ValidEntry(e) && at < TWO32
    ensures |b| == 46 + |e.path| + |e.extra| + |e.comment|
  {
    CentralHead(e, at) + e.path + (e.extra + e.comment)
  }

  function EndPart(n: nat, size: nat, start: nat, disks: bytes): (b: bytes)
    requires n < 0x1_0000 && size < TWO32 && start < TWO32 && |disks| == 6
    ensures |b| == 22
  {
    LE32(END_SIG) + disks + LE16(n) + LE32(size) + LE32(start) + LE16(0)
  }

  ghost function Locals(es: seq<Entry>): bytes
    requires ValidEntries(es)
  {
    if es == [] then [] else LocalPart(es[0]) + Locals(es[1..])
  }

  ghost function Directory(es: seq<Entry>, at: nat): bytes
    requires ValidEntries(es) && at + |Locals(es)| < TWO32
  {
    if es == [] then [] else CentralPart(es[0], at) + Directory(es[1..], at + |LocalPart(es[0])|)
  }

  /** The archive, behind whatever bytes come first (a self-extractor, say). */
  ghost function Archive(stub: bytes, es: seq<Entry>, disks: bytes): (a: bytes)
    requires Storable(stub, es) && |disks| == 6
    ensures |a| >= 22
  {
    var start := stub + Locals(es);
    var d := Directory(es, |stub|);
    start + d + EndPart(|es|, |d|, |start|, disks)
  }

  ghost predicate Storable(stub: bytes, es: seq<Entry>) {
    && ValidEntries(es) && |es| < 0x1_0000
    && |stub| + |Locals(es)| < TWO32
    && |Directory(es, |stub|)| < TWO32
  }

  // ---------------------------------------------------------------------------
  // What the inspection should say of them

  /** By what the directory says of its name. */
  ghost predicate GoodEntry(e: Entry, z: Inflater, nm: Naming) {
    && Verdict(NameBy(e.path, e.extra, nm), []).PathOk?
    && (if !e.deflated then |e.packed| == e.declared
        else (e.packed == [] && e.declared == 0) || z.fate(e.packed) == Ends(e.declared))
  }

  ghost predicate GoodEntries(es: seq<Entry>, z: Inflater, nm: Naming) {
    forall i :: 0 <= i < |es| ==> GoodEntry(es[i], z, nm)
  }

  ghost function TotalDeclared(es: seq<Entry>): nat {
    if es == [] then 0 else es[0].declared + TotalDeclared(es[1..])
  }

  // ---------------------------------------------------------------------------
  // Fields read back

  lemma Field32(data: bytes, p: nat, v: nat)
    requires v < TWO32 && Holds(data, p, LE32(v))
    ensures U32(data, p) == v
  {
    hide LE32, ReadLE32;
    LERoundTrip(v);
  }

  lemma Field16(data: bytes, p: nat, v: nat)
    requires v < 0x1_0000 && Holds(data, p, LE16(v))
    ensures U16(data, p) == v
  {
    hide LE16, ReadLE16;
    LERoundTrip(v);
  }

  lemma CentralHeadFields(data: bytes, p: nat, e: Entry, at: nat)
    requires ValidEntry(e) && at < TWO32 && Holds(data, p, CentralHead(e, at))
    ensures U32(data, p) == CENTRAL_SIG
    ensures ReadRecord(data, p) == Record(e.flags, if e.deflated then 8 else 0, |e.packed|, e.declared,
                                          |e.path|, |e.extra|, |e.comment|, at)
  {
    hide LE32, LE16, U16, U32, Holds;
    var m := if e.deflated then 8 else 0;
    var a1 := LE32(CENTRAL_SIG) + e.versions;
    var a2 := a1 + LE16(e.flags);
    var a3 := a2 + LE16(m);
    var a := a3 + e.dates;
    var b := LE32(|e.packed|) + LE32(e.declared);
    var c1 := LE16(|e.path|) + LE16(|e.extra|);
    var c := c1 + LE16(|e.comment|);
    var abc := a + b + c;
    HoldsSplit(data, p, abc + e.attributes, LE32(at));
    HoldsSplit(data, p, abc, e.attributes);
    HoldsSplit(data, p, a + b, c);
    HoldsSplit(data, p, a, b);
    HoldsSplit(data, p, a3, e.dates);
    HoldsSplit(data, p, a2, LE16(m));
    HoldsSplit(data, p, a1, LE16(e.flags));
    HoldsSplit(data, p, LE32(CENTRAL_SIG), e.versions);
    HoldsSplit(data, p + 20, LE32(|e.packed|), LE32(e.declared));
    HoldsSplit(data, p + 28, c1, LE16(|e.comment|));
    HoldsSplit(data, p + 28, LE16(|e.path|), LE16(|e.extra|));
    Field32(data, p, CENTRAL_SIG);
    Field16(data, p + 8, e.flags);
    Field16(data, p + 10, m);
    Field32(data, p + 20, |e.packed|);
    Field32(data, p + 24, e.declared);
    Field16(data, p + 28, |e.path|);
    Field16(data, p + 30, |e.extra|);
    Field16(data, p + 32, |e.comment|);
    Field32(data, p + 42, at);
  }

  lemma CentralPartRead(data: bytes, p: nat, end: nat, e: Entry, at: nat)
    requires ValidEntry(e) && at < TWO32 && Holds(data, p, CentralPart(e, at))
    requires p + |CentralPart(e, at)| <= end <= |data|
    ensures RecordPresent(data, p, end)
    ensures ReadRecord(data, p) == Record(e.flags, if e.deflated then 8 else 0, |e.packed|, e.declared,
                                          |e.path|, |e.extra|, |e.comment|, at)
    ensures forall nm :: Name(data, p, ReadRecord(data, p), nm) == NameBy(e.path, e.extra, nm)
  {
    hide U32, U16, ReadRecord, CentralHead, NameBy;
    var head := CentralHead(e, at);
    HoldsSplit(data, p, head + e.path, e.extra + e.comment);
    HoldsSplit(data, p, head, e.path);
    HoldsSplit(data, p + |head + e.path|, e.extra, e.comment);
    CentralHeadFields(data, p, e, at);
  }

  lemma LocalHeadFields(data: bytes, at: nat, e: Entry)
    requires ValidEntry(e) && Holds(data, at, LocalHead(e))
    ensures U32(data, at) == LOCAL_SIG
    ensures ContentsAt(data, at) == at + 30 + |e.localPath| + |e.localExtra|
  {
    hide LE32, LE16, U16, U32, Holds;
    var a := LE32(LOCAL_SIG) + e.localFields;
    HoldsSplit(data, at, a + LE16(|e.localPath|), LE16(|e.localExtra|));
    HoldsSplit(data, at, a, LE16(|e.localPath|));
    HoldsSplit(data, at, LE32(LOCAL_SIG), e.localFields);
    Field32(data, at, LOCAL_SIG);
    Field16(data, at + 26, |e.localPath|);
    Field16(data, at + 28, |e.localExtra|);
    assert at + 30 <= |data| by { HeldInRange(data, at, LocalHead(e)); }
  }

  lemma HeldInRange(data: bytes, p: nat, part: bytes)
    requires Holds(data, p, part)
    ensures p + |part| <= |data|
  {
  }

  lemma LocalPartRead(data: bytes, at: nat, e: Entry)
    requires ValidEntry(e) && Holds(data, at, LocalPart(e))
    ensures at + 30 <= |data| && U32(data, at) == LOCAL_SIG
    ensures var start := ContentsAt(data, at);
            start + |e.packed| <= |data| && data[start..start + |e.packed|] == e.packed
  {
    hide U32, U16, ContentsAt, LocalHead;
    var head := LocalHead(e);
    HoldsSplit(data, at, head + (e.localPath + e.localExtra), e.packed);
    HoldsSplit(data, at, head, e.localPath + e.localExtra);
    LocalHeadFields(data, at, e);
  }

  /** A written record is sound exactly when its entry is good. */
  lemma RecordIsItsEntry(data: bytes, p: nat, end: nat, e: Entry, at: nat, z: Inflater, nm: Naming)
    requires ValidEntry(e) && at < TWO32
    requires Holds(data, p, CentralPart(e, at)) && Holds(data, at, LocalPart(e))
    requires p + |CentralPart(e, at)| <= end <= |data|
    ensures RecordSound(data, p, end, z, nm) <==> GoodEntry(e, z, nm)
  {
    hide U32, U16, ContentsAt, ReadRecord, Holds, Verdict, CentralPart, LocalPart, Name, NameBy;
    CentralPartRead(data, p, end, e, at);
    LocalPartRead(data, at, e);
  }

  lemma {:induction false} DirectoryIsItsEntries(data: bytes, p: nat, end: nat, es: seq<Entry>, at: nat, z: Inflater, nm: Naming)
    requires ValidEntries(es) && at + |Locals(es)| < TWO32
    requires Holds(data, p, Directory(es, at)) && Holds(data, at, Locals(es))
    requires p + |Directory(es, at)| <= end <= |data|
    ensures DirectorySound(data, p, end, |es|, z, nm) <==> GoodEntries(es, z, nm)
    ensures Declared(data, p, |es|) == TotalDeclared(es)
    decreases |es|
  {
    hide Holds, CentralPart, LocalPart, ReadRecord, RecordSound, GoodEntry, DirectorySound, RecordPresent;
    if es == [] {
      EmptyDirectorySound(data, p, end, z, nm);
    } else {
      var (e, rest) := (es[0], es[1..]);
      var (c, l) := (CentralPart(e, at), LocalPart(e));
      HoldsSplit(data, p, c, Directory(rest, at + |l|));
      HoldsSplit(data, at, l, Locals(rest));
      RecordIsItsEntry(data, p, end, e, at, z, nm);
      CentralPartRead(data, p, end, e, at);
      DirectoryIsItsEntries(data, p + |c|, end, rest, at + |l|, z, nm);
      DirectorySoundSplits(data, p, end, |es|, z, nm);
      assert Size(ReadRecord(data, p)) == |c|;
      assert GoodEntries(es, z, nm) <==> GoodEntry(e, z, nm) && GoodEntries(rest, z, nm) by {
        assert forall i :: 1 <= i < |es| ==> es[i] == rest[i - 1];
      }
    }
  }

  lemma EndPartRead(data: bytes, e: nat, n: nat, size: nat, start: nat, disks: bytes)
    requires n < 0x1_0000 && size < TWO32 && start < TWO32 && |disks| == 6
    requires e + 22 == |data| && Holds(data, e, EndPart(n, size, start, disks))
    ensures EndsAt(data, e)
    ensures U16(data, e + 10) == n && U32(data, e + 12) == size && U32(data, e + 16) == start
  {
    hide LE32, LE16, U16, U32, Holds;
    var a := LE32(END_SIG) + disks;
    var b := a + LE16(n);
    var c := b + LE32(size);
    HoldsSplit(data, e, c + LE32(start), LE16(0));
    HoldsSplit(data, e, c, LE32(start));
    HoldsSplit(data, e, b, LE32(size));
    HoldsSplit(data, e, a, LE16(n));
    HoldsSplit(data, e, LE32(END_SIG), disks);
    Field32(data, e, END_SIG);
    Field16(data, e + 10, n);
    Field32(data, e + 12, size);
    Field32(data, e + 16, start);
  }

  lemma ArchiveCleanAtItsEnd(stub: bytes, es: seq<Entry>, disks: bytes, z: Inflater, nm: Naming)
    requires Storable(stub, es) && |disks| == 6
    ensures var data := Archive(stub, es, disks);
            && EndsAt(data, |data| - 22)
            && (CleanZip(data, |data| - 22, z, nm) <==>
                  |es| <= MAX_ENTRIES && GoodEntries(es, z, nm) && TotalDeclared(es) <= ExpansionLimit(|data|))
  {
    hide Locals, Directory, EndPart, DirectorySound, U16, U32, ExpansionLimit, EndsAt, GoodEntries, Declared, TotalDeclared;
    var data := Archive(stub, es, disks);
    var (l, d) := (Locals(es), Directory(es, |stub|));
    var start := stub + l;
    var tail := EndPart(|es|, |d|, |start|, disks);
    assert data == start + d + tail;
    assert Holds(data, 0, start + d + tail);
    HoldsSplit(data, 0, start + d, tail);
    HoldsSplit(data, 0, start, d);
    HoldsSplit(data, 0, stub, l);
    EndPartRead(data, |start| + |d|, |es|, |d|, |start|, disks);
    DirectoryIsItsEntries(data, |start|, |start| + |d|, es, |stub|, z, nm);
  }

  /** An archive as written is clean exactly when it has at most 2000 entries, each of them good,
      that declare no more together than the limit: by the one naming or the other. */
  lemma ArchiveCleanBy(stub: bytes, es: seq<Entry>, disks: bytes, z: Inflater, nm: Naming)
    requires Storable(stub, es) && |disks| == 6
    ensures var data := Archive(stub, es, disks);
            (exists e :: CleanZip(data, e, z, nm)) <==>
              |es| <= MAX_ENTRIES && GoodEntries(es, z, nm) && TotalDeclared(es) <= ExpansionLimit(|data|)
  {
    hide CleanZip, Archive, GoodEntries, Storable, U32;
    ArchiveCleanAtItsEnd(stub, es, disks, z, nm);
    var data := Archive(stub, es, disks);
    CleanAtItsEndOnly(data, |data| - 22, z, nm);
  }

  /** Sound, and of an acceptable name, whether a reader takes it from the directory or from the local
      header. */
  ghost predicate TrulyGood(e: Entry, z: Inflater, crc: bytes -> nat) {
    && GoodEntry(e, z, AsMeant(crc))
    && Verdict(Meant(e.localPath, e.localExtra, crc), []).PathOk?
  }

  ghost predicate AllTrulyGood(es: seq<Entry>, z: Inflater, crc: bytes -> nat) {
    forall i :: 0 <= i < |es| ==> TrulyGood(es[i], z, crc)
  }

  /** The inspection is right about an archive: it calls it clean exactly when it is, by true names. */
  ghost predicate JudgedRight(stub: bytes, es: seq<Entry>, disks: bytes, z: Inflater, crc: bytes -> nat)
    requires Storable(stub, es) && |disks| == 6
  {
    var data := Archive(stub, es, disks);
    (exists e :: CleanZip(data, e, z, AsShown)) <==>
      |es| <= MAX_ENTRIES && AllTrulyGood(es, z, crc) && TotalDeclared(es) <= ExpansionLimit(|data|)
  }

  ghost predicate NamesUpTo(es: seq<Entry>, n: nat) {
    forall i :: 0 <= i < |es| ==> |es[i].path| <= n
  }

  /** The local header and the extra fields mean the name that the directory has. */
  predicate OneName(e: Entry, crc: bytes -> nat) {
    Meant(e.path, e.extra, crc) == e.path && Meant(e.localPath, e.localExtra, crc) == e.path
  }

  ghost predicate OneNameEach(es: seq<Entry>, crc: bytes -> nat) {
    forall i :: 0 <= i < |es| ==> OneName(es[i], crc)
  }

  /** Right about every archive none of whose names is longer than 511 bytes and all of whose entries
      have one name. */
  lemma ArchiveCleanExactly(stub: bytes, es: seq<Entry>, disks: bytes, z: Inflater, crc: bytes -> nat)
    requires Storable(stub, es) && |disks| == 6 && NamesUpTo(es, NAME_LIMIT) && OneNameEach(es, crc)
    ensures JudgedRight(stub, es, disks, z, crc)
  {
    hide CleanZip, Archive, Storable, TotalDeclared, ExpansionLimit, Verdict, Meant;
    ArchiveCleanBy(stub, es, disks, z, AsShown);
    forall i | 0 <= i < |es| ensures GoodEntry(es[i], z, AsShown) <==> TrulyGood(es[i], z, crc) {
      assert OneName(es[i], crc);
      assert First(es[i].path, NAME_LIMIT) == es[i].path;
    }
    assert GoodEntries(es, z, AsShown) <==> AllTrulyGood(es, z, crc);
  }

  // ---------------------------------------------------------------------------
  // Other names

  /** An empty file of that name, with extra fields, and a name of its own in the local header. */
  function Named(path: bytes, extra: bytes, localPath: bytes): (e: Entry)
    requires |path| < 0x1_0000 && |extra| < 0x1_0000 && |localPath| < 0x1_0000
    ensures ValidEntry(e) && e.path == path && e.extra == extra && e.localPath == localPath && e.localExtra == []
  {
    Entry(path, false, [], 0, 0, Repeat(4, 0), Repeat(8, 0), Repeat(8, 0), extra, [], Repeat(22, 0), localPath, [])
  }

  lemma OneNamedIsStorable(e: Entry)
    requires ValidEntry(e) && |e.packed| == 0
    ensures Storable([], [e])
  {
    hide LocalPart, CentralPart;
    var es := [e];
    assert es[1..] == [];
    assert Locals(es) == LocalPart(es[0]) + Locals(es[1..]);
    assert Directory(es, 0) == CentralPart(es[0], 0) + Directory(es[1..], 0 + |LocalPart(es[0])|);
  }

  /** An archive of one empty file whose name is accepted as shown but not as it is meant is judged
      wrong. */
  lemma JudgedWrong(e: Entry, z: Inflater, crc: bytes -> nat)
    requires ValidEntry(e) && !e.deflated && e.packed == [] && e.declared == 0
    requires Verdict(First(e.path, NAME_LIMIT), []).PathOk?
    requires !Verdict(Meant(e.path, e.extra, crc), []).PathOk? || !Verdict(Meant(e.localPath, e.localExtra, crc), []).PathOk?
    ensures Storable([], [e]) && !JudgedRight([], [e], Repeat(6, 0), z, crc)
  {
    hide CleanZip, Archive, Storable, Verdict, ExpansionLimit, Meant, ValidEntry;
    var es := [e];
    OneNamedIsStorable(e);
    ArchiveCleanBy([], es, Repeat(6, 0), z, AsShown);
    assert GoodEntry(es[0], z, AsShown) && !TrulyGood(es[0], z, crc);
    assert TotalDeclared(es) == 0 + TotalDeclared(es[1..]);
  }

  lemma NothingExtra(name: bytes, crc: bytes -> nat)
    ensures Meant(name, [], crc) == name
  {
  }

  /** 509 letters, then "../". */
  function LongName(): (path: bytes)
    ensures |path| == 512
  {
    Repeat(509, 97) + (UP + [SLASH])
  }

  function LongNamed(): Entry {
    Named(LongName(), [], LongName())
  }

  lemma LongNameIsJudgedWrong(z: Inflater, crc: bytes -> nat)
    ensures Storable([], [LongNamed()]) && !JudgedRight([], [LongNamed()], Repeat(6, 0), z, crc)
    ensures OneName(LongNamed(), crc)
  {
    hide Verdict, Meant;
    var path := LongName();
    LettersAreAccepted(path[..NAME_LIMIT], 509, []);
    ClimbIsRefused(Repeat(509, 97), UP + [SLASH], []);
    NothingExtra(path, crc);
    JudgedWrong(LongNamed(), z, crc);
  }

  /** An extra field that gives the name "../x" to what is called `path`. */
  function ClimbField(path: bytes, crc: bytes -> nat): (x: bytes)
    ensures |x| == 13
  {
    LE16(UNICODE_PATH) + LE16(9) + [1] + LE32(crc(path) % TWO32) + CLIMB
  }

  lemma ClimbFieldIsRead(path: bytes, crc: bytes -> nat)
    ensures Meant(path, ClimbField(path, crc), crc) == CLIMB
  {
    hide LE16, LE32, ReadLE16, ReadLE32;
    var c := crc(path) % TWO32;
    LERoundTrip(UNICODE_PATH);
    LERoundTrip(9);
    LERoundTrip(c);
    var x := ClimbField(path, crc);
    assert x[..2] == LE16(UNICODE_PATH) && x[2..4] == LE16(9) && x[5..9] == LE32(c);
    ReadsFront(x);
    ReadsFront(x[2..]);
    assert x[2..][..2] == x[2..4];
    var body := x[4..4 + 9];
    assert body == x[4..] && body[1..5] == x[5..9] && body[5..] == CLIMB;
  }

  lemma ReadsFront(x: bytes)
    requires |x| >= 2
    ensures ReadLE16(x) == ReadLE16(x[..2])
  {
  }

  /** An entry called `path` that means "../x". */
  function Renamed(path: bytes, crc: bytes -> nat): Entry
    requires |path| < 0x1_0000
  {
    Named(path, ClimbField(path, crc), path)
  }

  lemma RenamedIsJudgedWrong(path: bytes, z: Inflater, crc: bytes -> nat)
    requires |path| <= NAME_LIMIT && Verdict(path, []).PathOk?
    ensures Storable([], [Renamed(path, crc)]) && !JudgedRight([], [Renamed(path, crc)], Repeat(6, 0), z, crc)
  {
    hide Verdict, Meant, ClimbField;
    ClimbFieldIsRead(path, crc);
    ClimbIsRefused([], CLIMB, []);
    assert [] + CLIMB == CLIMB;
    JudgedWrong(Renamed(path, crc), z, crc);
  }

  /** An entry "a" with a Unicode Path field "../x", and one whose local header says "../x". */
  lemma OtherNamesAreAccepted(z: Inflater, crc: bytes -> nat)
    ensures Leaves(CLIMB)
    ensures Meant([97], ClimbField([97], crc), crc) == CLIMB
    ensures Storable([], [Renamed([97], crc)]) && !JudgedRight([], [Renamed([97], crc)], Repeat(6, 0), z, crc)
    ensures Storable([], [Named([97], [], CLIMB)]) && !JudgedRight([], [Named([97], [], CLIMB)], Repeat(6, 0), z, crc)
  {
    hide Verdict, Meant, ClimbField, Leaves, JudgedRight, Storable;
    LettersAreAccepted([97], 1, []);
    RenamedIsJudgedWrong([97], z, crc);
    ClimbFieldIsRead([97], crc);
    LeadingClimb([120], []);
    assert UP + ([SLASH] + [120]) == CLIMB;
    NothingExtra([97], crc);
    NothingExtra(CLIMB, crc);
    JudgedWrong(Named([97], [], CLIMB), z, crc);
  }

  /** So 511 is exactly the length of names up to which the inspection is right about all archives, and
      it is only where the entries have no other names. */
  lemma NamesAreExact(n: nat, others: bool, z: Inflater, crc: bytes -> nat)
    ensures (forall stub, es, disks ::
               Storable(stub, es) && |disks| == 6 && NamesUpTo(es, n) && (others || OneNameEach(es, crc)) ==>
                 JudgedRight(stub, es, disks, z, crc))
       <==> n <= NAME_LIMIT && !others
  {
    hide JudgedRight, Storable, OneName, Verdict;
    if n > NAME_LIMIT {
      LongNameIsJudgedWrong(z, crc);
      assert NamesUpTo([LongNamed()], n) && OneNameEach([LongNamed()], crc);
    } else if others {
      RenamedIsJudgedWrong([], z, crc) by { assert Verdict([], []).PathOk? by { NoNameIsAccepted(); } }
      assert NamesUpTo([Renamed([], crc)], n);
    } else {
      forall stub, es, disks | Storable(stub, es) && |disks| == 6 && NamesUpTo(es, n) && OneNameEach(es, crc)
        ensures JudgedRight(stub, es, disks, z, crc)
      {
        ArchiveCleanExactly(stub, es, disks, z, crc);
      }
    }
  }

  lemma NoNameIsAccepted()
    ensures Verdict([], []).PathOk?
  {
  }

  /** Behind 511 letters a name can climb out of the directory. */
  function ClimbingName(): (path: bytes)
    ensures |path| == 519
  {
    Repeat(511, 97) + ([SLASH] + UP + [SLASH] + UP + [SLASH, 120])
  }

  lemma ClimbingNameIsAccepted(z: Inflater, crc: bytes -> nat)
    ensures Leaves(ClimbingName())
    ensures var e := Named(ClimbingName(), [], ClimbingName());
            OneName(e, crc) && Storable([], [e]) && !JudgedRight([], [e], Repeat(6, 0), z, crc)
  {
    hide Verdict, Leaves, Meant;
    var path := ClimbingName();
    var letters := Repeat(511, 97);
    assert path[..511] == letters;
    LettersAreAccepted(path[..NAME_LIMIT], 511, []);
    assert path == (letters + [SLASH]) + (UP + [SLASH] + UP + [SLASH, 120]);
    ClimbIsRefused(letters + [SLASH], UP + [SLASH] + UP + [SLASH, 120], []);
    NothingExtra(path, crc);
    JudgedWrong(Named(path, [], path), z, crc);
    ClimbsTwice(letters);
  }

  lemma ClimbsTwice(letters: bytes)
    requires letters != [] && forall i :: 0 <= i < |letters| ==> letters[i] == 97
    ensures Leaves(letters + ([SLASH] + UP + [SLASH] + UP + [SLASH, 120]))
  {
    var x: bytes := [120];
    OneComponent(x);
    OneComponent(UP);
    OneComponent(letters);
    ComponentsJoin(UP, x);
    ComponentsJoin(UP, UP + ([SLASH] + x));
    ComponentsJoin(letters, UP + ([SLASH] + (UP + ([SLASH] + x))));
    assert letters + ([SLASH] + UP + [SLASH] + UP + [SLASH, 120]) == letters + ([SLASH] + (UP + ([SLASH] + (UP + ([SLASH] + x)))));
    EscapesTwice(letters, x);
  }

  lemma EscapesTwice(letters: bytes, x: bytes)
    requires Move(letters) == 1
    ensures Escapes([letters] + ([UP] + ([UP] + [x])), 0)
  {
    var cs := [letters] + ([UP] + ([UP] + [x]));
    assert cs[1..] == [UP, UP, x] && cs[1..][1..] == [UP, x] && cs[1..][1..][1..] == [x];
    assert Escapes([x], -1);
    assert Escapes([UP, x], 0);
    assert Escapes([UP, UP, x], 1);
  }
}
