// The zip inspection of sanitizers/archive.c (inspect_zip), built with zlib, over the fields that
// sections 4.3.7, 4.3.12 and 4.3.16 of the PKWARE APPNOTE define.
module ZipWalk {
  import opened Bytes
  import opened ArchiveChecks
  import opened Inflate

  const LOCAL_SIG: nat := 0x04034b50
  const CENTRAL_SIG: nat := 0x02014b50
  const END_SIG: nat := 0x06054b50
  const MARKER: nat := 0xFFFF_FFFF
  const NAME_LIMIT: nat := 511
  const UNICODE_PATH: nat := 0x7075
  const SCRATCH: nat := 32 * 1024

  datatype Reason =
    | TooSmall | NoEnd | EntriesExceeded | DirectoryTruncated | DirectoryMalformed
    | BadPath(verdict: PathVerdict) | ExpansionExceeded
    | LocalHeaderInvalid | EntryTruncated | SizeMismatch | EntryCorrupt

  datatype Outcome = Clean | Rejected(reason: Reason)

  function U16(data: bytes, i: nat): (v: nat)
    requires i + 2 <= |data|
    ensures v < 0x1_0000
  {
    ReadLE16(data[i..i + 2])
  }

  function U32(data: bytes, i: nat): (v: nat)
    requires i + 4 <= |data|
    ensures v < TWO32
  {
    ReadLE32(data[i..i + 4])
  }

  // ---------------------------------------------------------------------------
  // The fields of a central directory record at p

  datatype Record = Record(
    flags: nat, compression: nat, packed: nat, declared: nat,
    nameLen: nat, extraLen: nat, commentLen: nat, localAt: nat)

  function ReadRecord(data: bytes, p: nat): (r: Record)
    requires p + 46 <= |data|
    ensures r.declared < TWO32 && r.packed < TWO32 && r.localAt < TWO32
  {
    Record(U16(data, p + 8), U16(data, p + 10), U32(data, p + 20), U32(data, p + 24),
           U16(data, p + 28), U16(data, p + 30), U16(data, p + 32), U32(data, p + 42))
  }

  function Size(r: Record): nat {
    46 + r.nameLen + r.extraLen + r.commentLen
  }

  function First(s: bytes, n: nat): (t: bytes)
    ensures |s| <= n ==> t == s
  {
    if |s| <= n then s else s[..n]
  }

  /** The name that an extra field gives: the Info-ZIP Unicode Path field of the APPNOTE, section 4.6.9,
      which holds its version, the checksum of the name it stands for, and the name. */
  function UnicodePath(extra: bytes, checksum: nat): Option<bytes> {
    if |extra| < 4 then None
    else
      var (id, n) := (ReadLE16(extra), ReadLE16(extra[2..]));
      if 4 + n > |extra| then None
      else
        var body := extra[4..4 + n];
        if id == UNICODE_PATH && n >= 5 && body[0] == 1 && ReadLE32(body[1..5]) == checksum
        then Some(body[5..])
        else UnicodePath(extra[4 + n..], checksum)
  }

  /** The name that is meant; `crc` is the checksum of names. */
  function Meant(name: bytes, extra: bytes, crc: bytes -> nat): bytes {
    var given := UnicodePath(extra, crc(name) % TWO32);
    if given.Some? then given.value else name
  }

  /** Which name an entry is judged by: as much of the name as the inspection looks at, or the one that
      is meant. */
  datatype Naming = AsShown | AsMeant(crc: bytes -> nat)

  function NameBy(name: bytes, extra: bytes, nm: Naming): bytes {
    match nm
    case AsShown => First(name, NAME_LIMIT)
    case AsMeant(crc) => Meant(name, extra, crc)
  }

  function WholeName(data: bytes, p: nat, r: Record): bytes
    requires p + 46 + r.nameLen <= |data|
  {
    data[p + 46..p + 46 + r.nameLen]
  }

  function Extra(data: bytes, p: nat, r: Record): bytes {
    var start := p + 46 + r.nameLen;
    if start + r.extraLen <= |data| then data[start..start + r.extraLen] else []
  }

  function Name(data: bytes, p: nat, r: Record, nm: Naming): bytes
    requires p + 46 + r.nameLen <= |data|
  {
    NameBy(WholeName(data, p, r), Extra(data, p, r), nm)
  }

  /** Whether the contents of an entry are looked at: not if encrypted, marked as ZIP64, or packed
      by another method than "stored" and "deflated". */
  predicate Checked(r: Record) {
    r.flags % 2 == 0 && r.packed != MARKER && r.declared != MARKER &&
    (r.compression == 0 || r.compression == 8)
  }

  // ---------------------------------------------------------------------------
  // What a clean archive is

  /** The end record is the last one whose signature starts in the stretch that is searched. */
  ghost predicate EndsAt(data: bytes, e: nat) {
    && e + 22 <= |data| <= e + 65557 && U32(data, e) == END_SIG
    && forall j :: e < j <= |data| - 22 ==> U32(data, j) != END_SIG
  }

  /** Where the local header at `at` says that the entry's bytes begin. */
  function ContentsAt(data: bytes, at: nat): nat
    requires at + 30 <= |data|
  {
    at + 30 + U16(data, at + 26) + U16(data, at + 28)
  }

  /** A local header in range, the contents in range, and of exactly the declared size. */
  ghost predicate ContentsSound(data: bytes, r: Record, z: Inflater) {
    && r.localAt + 30 <= |data| && U32(data, r.localAt) == LOCAL_SIG
    && var start := ContentsAt(data, r.localAt);
    && start + r.packed <= |data|
    && (if r.compression == 0 then r.packed == r.declared
        else (r.packed == 0 && r.declared == 0) ||
             z.fate(data[start..start + r.packed]) == Ends(r.declared))
  }

  ghost predicate RecordPresent(data: bytes, p: nat, end: nat)
    requires end <= |data|
  {
    p + 46 <= end && U32(data, p) == CENTRAL_SIG && p + 46 + ReadRecord(data, p).nameLen <= end
  }

  ghost predicate RecordSound(data: bytes, p: nat, end: nat, z: Inflater, nm: Naming)
    requires end <= |data|
  {
    && RecordPresent(data, p, end)
    && var r := ReadRecord(data, p);
    && Verdict(Name(data, p, r, nm), []).PathOk?
    && (r.flags % 2 == 0 && r.packed != MARKER && r.declared != MARKER && (r.compression == 0 || r.compression == 8) ==>
          ContentsSound(data, r, z))
  }

  /** Where the i-th record after the one at p begins. */
  ghost function At(data: bytes, p: nat, i: nat): nat
    decreases i
  {
    if i == 0 || p + 46 > |data| then p else At(data, p + Size(ReadRecord(data, p)), i - 1)
  }

  /** The sizes that n records from p on declare, together. */
  ghost function Declared(data: bytes, p: nat, n: nat): nat
    decreases n
  {
    if n == 0 || p + 46 > |data| then 0
    else
      var r := ReadRecord(data, p);
      r.declared + Declared(data, p + Size(r), n - 1)
  }

  ghost predicate DirectorySound(data: bytes, p: nat, end: nat, n: nat, z: Inflater, nm: Naming)
    requires end <= |data|
  {
    forall i :: 0 <= i < n ==> RecordSound(data, At(data, p, i), end, z, nm)
  }

  ghost predicate CleanZip(data: bytes, e: nat, z: Inflater, nm: Naming) {
    && EndsAt(data, e)
    && var (n, size, start) := (U16(data, e + 10), U32(data, e + 12), U32(data, e + 16));
    && n <= MAX_ENTRIES && start + size <= |data|
    && DirectorySound(data, start, start + size, n, z, nm)
    && Declared(data, start, n) <= ExpansionLimit(|data|)
  }

  // ---------------------------------------------------------------------------
  // The inspection as a function: the first fault it meets

  ghost function ContentsVerdict(data: bytes, r: Record, z: Inflater): Outcome {
    if r.localAt + 30 > |data| || U32(data, r.localAt) != LOCAL_SIG then Rejected(LocalHeaderInvalid)
    else
      var start := ContentsAt(data, r.localAt);
      if start + r.packed > |data| then Rejected(EntryTruncated)
      else if r.compression == 0 then
        if r.packed == r.declared then Clean else Rejected(SizeMismatch)
      else if r.packed == 0 && r.declared == 0 then Clean
      else
        match z.fate(data[start..start + r.packed])
        case Ends(total) => if total == r.declared then Clean else Rejected(SizeMismatch)
        case Broken => Rejected(EntryCorrupt)
  }

  ghost function RecordVerdict(data: bytes, p: nat, total: nat, z: Inflater): Outcome
    requires p + 46 <= |data| && p + 46 + ReadRecord(data, p).nameLen <= |data|
  {
    var r := ReadRecord(data, p);
    var path := Verdict(Name(data, p, r, AsShown), []);
    if !path.PathOk? then Rejected(BadPath(path))
    else if total + r.declared > ExpansionLimit(|data|) then Rejected(ExpansionExceeded)
    else if Checked(r) then ContentsVerdict(data, r, z)
    else Clean
  }

  ghost function DirectoryVerdict(data: bytes, p: nat, end: nat, n: nat, total: nat, z: Inflater): Outcome
    requires end <= |data|
    decreases n
  {
    if n == 0 then Clean
    else if !RecordPresent(data, p, end) then Rejected(DirectoryMalformed)
    else
      var v := RecordVerdict(data, p, total, z);
      if v.Rejected? then v
      else
        var r := ReadRecord(data, p);
        DirectoryVerdict(data, p + Size(r), end, n - 1, total + r.declared, z)
  }

  ghost function EndVerdict(data: bytes, e: nat, z: Inflater): Outcome
    requires e + 22 <= |data|
  {
    var (n, size, start) := (U16(data, e + 10), U32(data, e + 12), U32(data, e + 16));
    if n > MAX_ENTRIES then Rejected(EntriesExceeded)
    else if start + size > |data| then Rejected(DirectoryTruncated)
    else DirectoryVerdict(data, start, start + size, n, 0, z)
  }

  // ---------------------------------------------------------------------------
  // It says "clean" exactly of clean archives

  lemma RecordCleanExactly(data: bytes, p: nat, end: nat, total: nat, z: Inflater)
    requires end <= |data| && RecordPresent(data, p, end)
    ensures RecordVerdict(data, p, total, z).Clean? <==>
              RecordSound(data, p, end, z, AsShown) && total + ReadRecord(data, p).declared <= ExpansionLimit(|data|)
  {
    hide ExpansionLimit, Verdict, U16, U32, Name;
  }

  lemma DirectorySoundSplits(data: bytes, p: nat, end: nat, n: nat, z: Inflater, nm: Naming)
    requires end <= |data| && n > 0 && p + 46 <= |data|
    ensures DirectorySound(data, p, end, n, z, nm) <==>
              RecordSound(data, p, end, z, nm) &&
              DirectorySound(data, p + Size(ReadRecord(data, p)), end, n - 1, z, nm)
  {
    hide RecordSound, ReadRecord, Size;
    var q := p + Size(ReadRecord(data, p));
    assert At(data, p, 0) == p;
    forall i | 1 <= i < n ensures At(data, p, i) == At(data, q, i - 1) {}
    if RecordSound(data, p, end, z, nm) && DirectorySound(data, q, end, n - 1, z, nm) {
      forall i | 0 <= i < n ensures RecordSound(data, At(data, p, i), end, z, nm) {
        if i > 0 { assert RecordSound(data, At(data, q, i - 1), end, z, nm); }
      }
    }
    if DirectorySound(data, p, end, n, z, nm) {
      assert RecordSound(data, At(data, p, 0), end, z, nm);
      forall i | 0 <= i < n - 1 ensures RecordSound(data, At(data, q, i), end, z, nm) {
        assert RecordSound(data, At(data, p, i + 1), end, z, nm);
      }
    }
  }

  lemma FirstRecordPresent(data: bytes, p: nat, end: nat, n: nat, z: Inflater, nm: Naming)
    requires end <= |data| && n > 0 && DirectorySound(data, p, end, n, z, nm)
    ensures RecordPresent(data, p, end)
  {
    hide Verdict, ReadRecord, ContentsSound;
    assert At(data, p, 0) == p;
    assert RecordSound(data, At(data, p, 0), end, z, nm);
  }

  lemma {:induction false} DirectoryCleanExactly(data: bytes, p: nat, end: nat, n: nat, total: nat, z: Inflater)
    requires end <= |data| && total <= ExpansionLimit(|data|)
    ensures DirectoryVerdict(data, p, end, n, total, z).Clean? <==>
              DirectorySound(data, p, end, n, z, AsShown) && total + Declared(data, p, n) <= ExpansionLimit(|data|)
    decreases n
  {
    hide ExpansionLimit, RecordVerdict, RecordSound, ReadRecord, DirectorySound;
    if n == 0 {
      assert DirectorySound(data, p, end, 0, z, AsShown) by { EmptyDirectorySound(data, p, end, z, AsShown); }
    } else if RecordPresent(data, p, end) {
      RecordCleanExactly(data, p, end, total, z);
      DirectorySoundSplits(data, p, end, n, z, AsShown);
      var r := ReadRecord(data, p);
      if RecordVerdict(data, p, total, z).Clean? {
        DirectoryCleanExactly(data, p + Size(r), end, n - 1, total + r.declared, z);
      }
    } else if DirectorySound(data, p, end, n, z, AsShown) {
      FirstRecordPresent(data, p, end, n, z, AsShown);
    }
  }

  lemma EmptyDirectorySound(data: bytes, p: nat, end: nat, z: Inflater, nm: Naming)
    requires end <= |data|
    ensures DirectorySound(data, p, end, 0, z, nm)
  {
  }

  lemma OneEnd(data: bytes, e: nat, f: nat)
    requires EndsAt(data, e) && EndsAt(data, f)
    ensures e == f
  {
  }

  lemma CleanAtItsEndOnly(data: bytes, e: nat, z: Inflater, nm: Naming)
    requires EndsAt(data, e)
    ensures (exists f :: CleanZip(data, f, z, nm)) <==> CleanZip(data, e, z, nm)
  {
    hide DirectorySound, Declared, ExpansionLimit, U16, U32;
    forall f | CleanZip(data, f, z, nm) ensures f == e {
      OneEnd(data, e, f);
    }
  }

  /** "Clean" of the archive whose end record is at e. */
  lemma EndCleanExactly(data: bytes, e: nat, z: Inflater)
    requires EndsAt(data, e)
    ensures EndVerdict(data, e, z).Clean? <==> CleanZip(data, e, z, AsShown)
  {
    hide ExpansionLimit, RecordVerdict, RecordSound, ReadRecord, DirectorySound, DirectoryVerdict;
    var (n, size, start) := (U16(data, e + 10), U32(data, e + 12), U32(data, e + 16));
    if start + size <= |data| {
      DirectoryCleanExactly(data, start, start + size, n, 0, z);
    }
  }

  lemma {:induction false} OneOfTheDeclared(data: bytes, p: nat, n: nat, i: nat)
    requires i < n && At(data, p, i) + 46 <= |data|
    ensures Declared(data, p, n) >= ReadRecord(data, At(data, p, i)).declared
    decreases i
  {
    hide ReadRecord, Size;
    if i > 0 && p + 46 <= |data| {
      OneOfTheDeclared(data, p + Size(ReadRecord(data, p)), n - 1, i - 1);
    }
  }

  /** A clean archive has no record whose size is only marked as "see ZIP64": so of what is stored or
      deflated, only what is encrypted or has that mark for its packed size goes unchecked. */
  lemma NoUnstatedSize(data: bytes, e: nat, z: Inflater, i: nat)
    requires CleanZip(data, e, z, AsShown) && i < U16(data, e + 10)
    ensures var r := ReadRecord(data, At(data, U32(data, e + 16), i));
            && r.declared < MARKER
            && (r.flags % 2 == 0 && r.packed < MARKER && r.compression in {0, 8} ==>
                  ContentsSound(data, r, z))
  {
    hide U16, U32, Verdict, ContentsSound;
    var start := U32(data, e + 16);
    var end := start + U32(data, e + 12);
    assert DirectorySound(data, start, end, U16(data, e + 10), z, AsShown);
    assert RecordSound(data, At(data, start, i), end, z, AsShown);
    OneOfTheDeclared(data, start, U16(data, e + 10), i);
  }

  // ---------------------------------------------------------------------------
  // Names that are not what is shown

  /** All names are shown to their ends, and are the ones that are meant. */
  ghost predicate NamesShown(data: bytes, e: nat, crc: bytes -> nat)
    requires e + 22 <= |data|
  {
    var start := U32(data, e + 16);
    forall i :: 0 <= i < U16(data, e + 10) ==> NameShown(data, At(data, start, i), crc)
  }

  ghost predicate NameShown(data: bytes, p: nat, crc: bytes -> nat) {
    p + 46 <= |data| ==>
      var r := ReadRecord(data, p);
      p + 46 + r.nameLen <= |data| ==>
        r.nameLen <= NAME_LIMIT && Name(data, p, r, AsMeant(crc)) == WholeName(data, p, r)
  }

  lemma SoundAsShown(data: bytes, p: nat, end: nat, z: Inflater, crc: bytes -> nat)
    requires end <= |data| && NameShown(data, p, crc)
    ensures RecordSound(data, p, end, z, AsShown) <==> RecordSound(data, p, end, z, AsMeant(crc))
  {
    hide U16, U32, Verdict, ContentsSound, Meant, Extra;
  }

  /** Then the archive is judged by the names that are meant. */
  lemma JudgedByTrueNames(data: bytes, e: nat, z: Inflater, crc: bytes -> nat)
    requires e + 22 <= |data| && NamesShown(data, e, crc)
    ensures CleanZip(data, e, z, AsShown) <==> CleanZip(data, e, z, AsMeant(crc))
  {
    hide U16, U32, RecordSound, NameShown, Declared, ExpansionLimit;
    var (n, size, start) := (U16(data, e + 10), U32(data, e + 12), U32(data, e + 16));
    if start + size <= |data| {
      forall i | 0 <= i < n
        ensures RecordSound(data, At(data, start, i), start + size, z, AsShown)
           <==> RecordSound(data, At(data, start, i), start + size, z, AsMeant(crc))
      {
        assert NameShown(data, At(data, start, i), crc);
        SoundAsShown(data, At(data, start, i), start + size, z, crc);
      }
    }
  }

  /** The name that the i-th record means. */
  ghost function PathAt(data: bytes, e: nat, i: nat, crc: bytes -> nat): bytes
    requires e + 22 <= |data|
  {
    var p := At(data, U32(data, e + 16), i);
    if p + 46 > |data| || p + 46 + ReadRecord(data, p).nameLen > |data| then []
    else Name(data, p, ReadRecord(data, p), AsMeant(crc))
  }

  /** In an archive that is clean, and all of whose names are shown, every path stays in the directory
      but those that start with a backslash or are just a climb. */
  lemma CleanPathsStayInside(data: bytes, e: nat, z: Inflater, crc: bytes -> nat, i: nat)
    ensures CleanZip(data, e, z, AsShown) && NamesShown(data, e, crc) && i < U16(data, e + 10) ==>
              var path := PathAt(data, e, i, crc);
              Leaves(path) <==> (path != [] && path[0] == BACKSLASH) || BareClimb(Components(path))
  {
    hide U16, U32, Leaves, BareClimb, ContentsSound, Components, Name;
    if CleanZip(data, e, z, AsShown) && NamesShown(data, e, crc) && i < U16(data, e + 10) {
      JudgedByTrueNames(data, e, z, crc);
      var start := U32(data, e + 16);
      var p := At(data, start, i);
      assert RecordSound(data, p, start + U32(data, e + 12), z, AsMeant(crc));
      AcceptedPathStaysInside(Name(data, p, ReadRecord(data, p), AsMeant(crc)), []);
    }
  }

  // ---------------------------------------------------------------------------
  // The inspection itself

  method FindEnd(data: bytes) returns (e: Option<nat>)
    requires |data| >= 22
    ensures e.Some? ==> EndsAt(data, e.value)
    ensures e.None? ==> forall j :: !EndsAt(data, j)
  {
    var searchStart := if |data| > 65557 then |data| - 65557 else 0;
    var i := |data| - 22;
    while i >= searchStart
      invariant -1 <= i <= |data| - 22
      invariant forall j :: i < j <= |data| - 22 ==> U32(data, j) != END_SIG
    {
      if U32(data, i) == END_SIG {
        return Some(i);
      }
      if i == 0 {
        assert forall j :: 0 <= j <= |data| - 22 ==> U32(data, j) != END_SIG;
        break;
      }
      i := i - 1;
    }
    return None;
  }

  /** A broken stream that first overruns the declared size is reported for its size. */
  predicate Agrees(v: Outcome, spec: Outcome) {
    v == spec || (v == Rejected(SizeMismatch) && spec == Rejected(EntryCorrupt))
  }

  method CheckContents(data: bytes, r: Record, z: Inflater) returns (v: Outcome)
    requires Honest(z)
    ensures Agrees(v, ContentsVerdict(data, r, z))
  {
    if r.localAt + 30 > |data| || U32(data, r.localAt) != LOCAL_SIG {
      return Rejected(LocalHeaderInvalid);
    }
    var start := r.localAt + 30 + U16(data, r.localAt + 26) + U16(data, r.localAt + 28);
    if start + r.packed > |data| {
      return Rejected(EntryTruncated);
    }
    if r.compression == 0 {
      return if r.packed != r.declared then Rejected(SizeMismatch) else Clean;
    }
    if r.packed > 0 || r.declared > 0 {
      var rc := TrialInflate(z, data[start..start + r.packed], r.declared, SCRATCH);
      if rc == -1 {
        return Rejected(SizeMismatch);
      }
      if rc != 0 {
        return Rejected(EntryCorrupt);
      }
    }
    return Clean;
  }

  method CheckRecord(data: bytes, p: nat, r: Record, total: nat, z: Inflater) returns (v: Outcome)
    requires Honest(z) && p + 46 + r.nameLen <= |data| && r == ReadRecord(data, p)
    ensures Agrees(v, RecordVerdict(data, p, total, z))
  {
    hide Verdict, U16, U32;
    var path := ValidateEntryPath(Name(data, p, r, AsShown), []);
    if !path.PathOk? {
      return Rejected(BadPath(path));
    }
    if total + r.declared > ExpansionLimit(|data|) {
      return Rejected(ExpansionExceeded);
    }
    if Checked(r) {
      v := CheckContents(data, r, z);
      return v;
    }
    return Clean;
  }

  method WalkDirectory(data: bytes, start: nat, end: nat, n: nat, z: Inflater) returns (v: Outcome)
    requires Honest(z) && start <= end <= |data|
    ensures Agrees(v, DirectoryVerdict(data, start, end, n, 0, z))
  {
    hide RecordVerdict, ReadRecord, Verdict, U16, U32;
    var p: nat, total: nat, seen: nat := start, 0, 0;
    while p + 46 <= end && seen < n
      invariant seen <= n
      invariant DirectoryVerdict(data, start, end, n, 0, z) == DirectoryVerdict(data, p, end, n - seen, total, z)
      decreases n - seen
    {
      if U32(data, p) != CENTRAL_SIG {
        break;
      }
      var r := ReadRecord(data, p);
      if p + 46 + r.nameLen > end {
        break;
      }
      v := CheckRecord(data, p, r, total, z);
      if v.Rejected? {
        return v;
      }
      total := total + r.declared;
      p := p + 46 + r.nameLen + r.extraLen + r.commentLen;
      seen := seen + 1;
    }
    return if seen != n then Rejected(DirectoryMalformed) else Clean;
  }

  /** Reads inside the buffer whatever it holds; the reason is that of the first fault; and it says
      "clean" exactly of an archive that is clean by what it is shown of the names, which is to say by
      the names that are meant where they are shown. */
  method InspectZip(data: bytes, z: Inflater) returns (v: Outcome)
    requires Honest(z)
    ensures |data| < 22 ==> v == Rejected(TooSmall)
    ensures |data| >= 22 && (forall e :: !EndsAt(data, e)) ==> v == Rejected(NoEnd)
    ensures forall e :: EndsAt(data, e) ==> Agrees(v, EndVerdict(data, e, z))
    ensures v.Clean? <==> exists e :: CleanZip(data, e, z, AsShown)
    ensures forall e, crc :: EndsAt(data, e) && NamesShown(data, e, crc) ==> (v.Clean? <==> CleanZip(data, e, z, AsMeant(crc)))
  {
    hide DirectoryVerdict, DirectorySound, RecordSound, U16, U32, NamesShown, ExpansionLimit, Declared;
    if |data| < 22 {
      return Rejected(TooSmall);
    }
    var found := FindEnd(data);
    if found.None? {
      return Rejected(NoEnd);
    }
    var e := found.value;
    v := InspectFrom(data, e, z);
    EndCleanExactly(data, e, z);
    forall f | EndsAt(data, f) ensures f == e {
      OneEnd(data, e, f);
    }
    forall crc | NamesShown(data, e, crc) ensures CleanZip(data, e, z, AsShown) <==> CleanZip(data, e, z, AsMeant(crc)) {
      JudgedByTrueNames(data, e, z, crc);
    }
  }

  method InspectFrom(data: bytes, e: nat, z: Inflater) returns (v: Outcome)
    requires Honest(z) && e + 22 <= |data|
    ensures Agrees(v, EndVerdict(data, e, z))
  {
    hide DirectoryVerdict;
    var (n, size, start) := (U16(data, e + 10), U32(data, e + 12), U32(data, e + 16));
    if n > MAX_ENTRIES {
      return Rejected(EntriesExceeded);
    }
    if start + size > |data| {
      return Rejected(DirectoryTruncated);
    }
    v := WalkDirectory(data, start, start + size, n, z);
  }
}
