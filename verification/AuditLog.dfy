// audit_record over whole runs (audit.c): the day files, and the cached position in one of them.
module AuditLog {
  // The runs have short writes, crashes, restarts, hang-up signals, rotation, and dates that were
  // fixed before the lock was taken.

  import opened Bytes
  import opened AuditChain

  type Inode = nat

  /** Paths, one a day, and the content of every file ever made. */
  datatype Disk = Disk(names: map<string, Inode>, files: map<Inode, bytes>)

  /** The process's variables; an empty date means nothing is cached. */
  datatype Mem = Mem(date: string, seqNo: nat, prev: bytes, inode: Inode, reseed: bool)

  const COLD: Mem := Mem("", 0, GENESIS, 0, false)

  /** How far one call gets: the record is not written, or only `count` bytes of it, none when
      writev fails, or all of it. */
  datatype Outcome = OpenFails | LockFails | SignFails | WritesPart(count: nat) | WritesAll {
    predicate Writes() { WritesPart? || WritesAll? }

    /** What writev reports of a line of that length. */
    function Count(length: nat): nat
      requires Writes()
    {
      if WritesAll? then length else count
    }
  }

  function Open(d: Disk, date: string, newInode: Inode): Disk {
    if date in d.names then d else Disk(d.names[date := newInode], d.files[newInode := []])
  }

  function HonourSignal(m: Mem): Mem {
    if m.reseed then m.(date := "", reseed := false) else m
  }

  function NoteInode(m: Mem, inode: Inode): Mem {
    (if m.inode != 0 && inode != m.inode then m.(date := "") else m).(inode := inode)
  }

  /** The content and variables once the position for `date` is known. */
  function Position(k: Codec, content: bytes, m: Mem, date: string): (bytes, Mem) {
    if m.date != date then
      var t := Reseed(k, content);
      (t.content, m.(date := date, seqNo := t.seqNo, prev := t.prev))
    else (content, m)
  }

  function NextBody(m: Mem, entry: Entry, ts: string, date: string): Body {
    Body(entry, ts, date, m.prev, m.seqNo)
  }

  function AfterWrite(k: Codec, m: Mem, b: Body, count: nat): Mem {
    if count == |Record(k, b)| then m.(seqNo := m.seqNo + 1, prev := Sig(k, b)) else m.(date := "")
  }

  datatype Call = Call(date: string, entry: Entry, ts: string, newInode: Inode, outcome: Outcome)

  ghost predicate CallPossible(k: Codec, d: Disk, m: Mem, call: Call) {
    && call.date != "" && call.newInode != 0 && call.newInode !in d.files
    && (call.date in d.names ==> d.names[call.date] in d.files)
    && (call.outcome.Writes() ==>
          var (_, m') := AtWrite(k, d, m, call);
          var b := NextBody(m', call.entry, call.ts, call.date);
          m'.seqNo < MAX_SEQ && |Record(k, b)| <= MAX_LINE)
    && PartIsLess(k, d, m, call)
  }

  ghost predicate PartIsLess(k: Codec, d: Disk, m: Mem, call: Call)
    requires call.date in d.names ==> d.names[call.date] in d.files
  {
    call.outcome.WritesPart? ==>
      var (_, m') := AtWrite(k, d, m, call);
      call.outcome.count < |Record(k, NextBody(m', call.entry, call.ts, call.date))|
  }

  /** Disk and variables when the record is about to be signed. */
  function AtWrite(k: Codec, d: Disk, m: Mem, call: Call): (Disk, Mem)
    requires call.date in d.names ==> d.names[call.date] in d.files
  {
    var d1 := Open(d, call.date, call.newInode);
    var inode := d1.names[call.date];
    var (content, m1) := Position(k, d1.files[inode], NoteInode(HonourSignal(m), inode), call.date);
    (d1.(files := d1.files[inode := content]), m1)
  }

  /** The whole of one call. */
  ghost function AfterCall(k: Codec, d: Disk, m: Mem, call: Call): (Disk, Mem)
    requires call.date in d.names ==> d.names[call.date] in d.files
    requires PartIsLess(k, d, m, call)
  {
    match call.outcome
    case OpenFails => (d, HonourSignal(m))
    case LockFails => (Open(d, call.date, call.newInode), HonourSignal(m))
    case SignFails => AtWrite(k, d, m, call)
    case _ =>
      var (d1, m1) := AtWrite(k, d, m, call);
      var b := NextBody(m1, call.entry, call.ts, call.date);
      var count := call.outcome.Count(|Record(k, b)|);
      var inode := d1.names[call.date];
      (d1.(files := d1.files[inode := d1.files[inode] + Record(k, b)[..count]]), AfterWrite(k, m1, b, count))
  }

  // ---------------------------------------------------------------------------
  // The code

  class FileSystem {
    var names: map<string, Inode>
    var files: map<Inode, bytes>

    ghost function View(): Disk
      reads this
    {
      Disk(names, files)
    }
  }

  class Logger {
    var date: string
    var seqNo: nat
    var prev: bytes
    var inode: Inode
    var reseed: bool

    ghost function View(): Mem
      reads this
    {
      Mem(date, seqNo, prev, inode, reseed)
    }

    constructor ()
      ensures View() == COLD
    {
      date, seqNo, prev, inode, reseed := "", 0, GENESIS, 0, false;
    }

    method RequestReseed()
      modifies this`reseed
      ensures View() == old(View()).(reseed := true)
    {
      reseed := true;
    }

    /** The backward scan for a newline below `from`. */
    method FindNewline(buf: bytes, from: nat) returns (i: int)
      requires from <= |buf|
      ensures i == LastNewline(buf[..from])
    {
      i := from - 1;
      assert buf[..from][..from] == buf[..from];
      while i >= 0
        invariant -1 <= i < from
        invariant LastNewline(buf[..from]) == LastNewline(buf[..i + 1])
      {
        assert buf[..i + 1][..i] == buf[..i];
        if buf[i] == NEWLINE {
          return;
        }
        i := i - 1;
      }
    }

    /** The scan itself: how much of the file to keep, and where the chain stands. */
    method ScanTail(k: Codec, content: bytes) returns (keep: nat, seqNo: nat, prev: bytes)
      ensures keep <= |content| && Tail(content[..keep], seqNo, prev) == Reseed(k, content)
    {
      hide LastNewline, FromLine, Reseed, ReseedFrom, LineBefore, Zeros;
      keep, seqNo, prev := |content|, 0, GENESIS;
      assert content[..|content|] == content;
      NoLineShown(k, content);
      if |content| == 0 {
        return;
      }
      var start := if |content| > TAIL_SCAN then |content| - TAIL_SCAN else 0;
      var buf := content[start..];
      assert buf[..|buf|] == buf;
      var last := FindNewline(buf, |buf|);
      if last < 0 {
        if start == 0 {
          keep := 0;
        }
        return;
      }
      keep := start + last + 1;
      seqNo, prev := ReadLine(k, content, start, buf, last);
    }

    method ReadLine(k: Codec, ghost content: bytes, ghost start: nat, buf: bytes, last: nat) returns (seqNo: nat, prev: bytes)
      requires content != [] && start == ScanStart(content) && buf == content[start..]
      requires last < |buf| && last == LastNewline(buf)
      ensures Tail(content[..start + last + 1], seqNo, prev) == Reseed(k, content)
    {
      hide *;
      var newline := FindNewline(buf, last);
      LineShown(k, content, start, buf, last, newline);
      seqNo, prev := ReadPosition(k, buf[newline + 1..last], content[..start + last + 1]);
    }

    lemma NoLineShown(k: Codec, content: bytes)
      ensures content == [] ==> Reseed(k, content) == Tail(content, 0, GENESIS)
      ensures LastNewline(content[ScanStart(content)..]) < 0 ==>
                Reseed(k, content) == Tail(if ScanStart(content) == 0 then [] else content, 0, GENESIS)
    {
      hide LastNewline, FromLine;
    }

    lemma LineShown(k: Codec, content: bytes, start: nat, buf: bytes, last: nat, newline: int)
      requires content != [] && start == ScanStart(content) && buf == content[start..]
      requires last < |buf| && last == LastNewline(buf) && newline == LastNewline(buf[..last])
      ensures Reseed(k, content) == FromLine(k, content[..start + last + 1], buf[newline + 1..last])
    {
      hide LastNewline, FromLine;
    }

    /** The number and link that follow the record `line`; a reset when it cannot be read. */
    method ReadPosition(k: Codec, line: bytes, ghost content: bytes) returns (seqNo: nat, prev: bytes)
      ensures Tail(content, seqNo, prev) == FromLine(k, content, line)
    {
      seqNo, prev := 0, GENESIS;
      if |line| == 0 {
        return;
      }
      var record := k.parse(line);
      if record.None? || |record.value.1| != SIG_LEN {
        return;
      }
      seqNo := if record.value.0 < 0 then 0 else record.value.0 + 1;
      prev := record.value.1;
    }

    /** audit_reseed_from_tail on the open file `ino`. */
    method ReseedFromTail(k: Codec, fs: FileSystem, ino: Inode)
      requires ino in fs.files
      modifies this`seqNo, this`prev, fs`files
      ensures var t := Reseed(k, old(fs.files[ino]));
        fs.files == old(fs.files)[ino := t.content] && seqNo == t.seqNo && prev == t.prev
    {
      hide Reseed;
      var content := fs.files[ino];
      var keep;
      keep, seqNo, prev := ScanTail(k, content);
      if keep < |content| {
        fs.files := fs.files[ino := content[..keep]];
      } else {
        assert content[..keep] == content;
        assert fs.files == fs.files[ino := content];
      }
    }

    /** From opening the day's file to knowing the position in it. */
    method FindPosition(k: Codec, fs: FileSystem, call: Call)
      requires call.date in fs.names ==> fs.names[call.date] in fs.files
      requires !reseed
      modifies this, fs
      ensures (fs.View(), View()) == AtWrite(k, old(fs.View()), old(View()), call)
    {
      hide Reseed;
      if call.date !in fs.names {
        fs.names, fs.files := fs.names[call.date := call.newInode], fs.files[call.newInode := []];
      }
      var ino := fs.names[call.date];
      if inode != 0 && ino != inode {
        date := "";
      }
      inode := ino;
      if date != call.date {
        ReseedFromTail(k, fs, ino);
        date := call.date;
      } else {
        assert fs.files == fs.files[ino := fs.files[ino]];
      }
    }

    /** audit_record from the reseed check on, as far as `call.outcome` lets it get. */
    method Record(k: Codec, fs: FileSystem, call: Call)
      requires CallPossible(k, fs.View(), View(), call)
      modifies this, fs
      ensures (fs.View(), View()) == AfterCall(k, old(fs.View()), old(View()), call)
    {
      hide AuditChain.Record, Position, NoteInode;
      if reseed {
        date, reseed := "", false;
      }
      if call.outcome.OpenFails? {
        return;
      }
      if call.outcome.LockFails? {
        if call.date !in fs.names {
          fs.names, fs.files := fs.names[call.date := call.newInode], fs.files[call.newInode := []];
        }
        return;
      }
      FindPosition(k, fs, call);
      if call.outcome.SignFails? {
        return;
      }
      var ino := fs.names[call.date];
      var b := NextBody(Mem(date, seqNo, prev, inode, reseed), call.entry, call.ts, call.date);
      var line := AuditChain.Record(k, b);
      var wrote := call.outcome.Count(|line|);
      fs.files := fs.files[ino := fs.files[ino] + line[..wrote]];
      if wrote == |line| {
        seqNo, prev := seqNo + 1, Sig(k, b);
      } else {
        date := "";
      }
    }
  }

  // ---------------------------------------------------------------------------
  // Whole runs

  /** `days` remembers for which day each file was made. */
  datatype State = State(disk: Disk, mem: Mem, days: map<Inode, string>)

  datatype Step =
    | Recorded(call: Call)
    | CrashedIn(call: Call)   // the process dies after the call's effect on the disk
    | HangUp
    | Rotated(date: string)   // the path is moved away; the file stays
    | Restarted

  ghost predicate Enabled(k: Codec, s: State, step: Step) {
    (step.Recorded? || step.CrashedIn?) ==> CallPossible(k, s.disk, s.mem, step.call)
  }

  ghost function DaysAfter(s: State, call: Call): map<Inode, string> {
    if call.date in s.disk.names || call.outcome.OpenFails? then s.days else s.days[call.newInode := call.date]
  }

  ghost function Apply(k: Codec, s: State, step: Step): State
    requires Enabled(k, s, step)
  {
    match step
    case Recorded(call) =>
      var (d, m) := AfterCall(k, s.disk, s.mem, call);
      State(d, m, DaysAfter(s, call))
    case CrashedIn(call) =>
      var (d, _) := AfterCall(k, s.disk, s.mem, call);
      State(d, COLD, DaysAfter(s, call))
    case HangUp => s.(mem := s.mem.(reseed := true))
    case Rotated(date) => s.(disk := s.disk.(names := s.disk.names - {date}))
    case Restarted => s.(mem := COLD)
  }

  const EMPTY: State := State(Disk(map[], map[]), COLD, map[])

  ghost predicate Legal(k: Codec, s: State, steps: seq<Step>)
    decreases |steps|
  {
    steps == [] || (Enabled(k, s, steps[0]) && Legal(k, Apply(k, s, steps[0]), steps[1..]))
  }

  ghost function Run(k: Codec, s: State, steps: seq<Step>): State
    requires Legal(k, s, steps)
    decreases |steps|
  {
    if steps == [] then s else Run(k, Apply(k, s, steps[0]), steps[1..])
  }

  /** The file is complete lines only, and the chain stands at (seqNo, prev). */
  ghost predicate Settled(k: Codec, date: string, content: bytes, seqNo: nat, prev: bytes) {
    exists bodies :: IsDayFile(k, date, content, bodies, []) && seqNo == |bodies| && prev == LastSig(k, bodies)
  }

  ghost predicate DiskOk(k: Codec, d: Disk, days: map<Inode, string>) {
    && 0 !in d.files && d.files.Keys == days.Keys
    && (forall date :: date in d.names ==> d.names[date] in days && days[d.names[date]] == date)
    && (forall i :: i in d.files ==> DayFile(k, days[i], d.files[i]))
  }

  ghost predicate CacheOk(k: Codec, d: Disk, m: Mem, days: map<Inode, string>) {
    && (m.inode != 0 ==> m.inode in d.files && m.inode in days)
    && (m.date != "" ==> && m.inode != 0 && days[m.inode] == m.date
                         && Settled(k, m.date, d.files[m.inode], m.seqNo, m.prev))
  }

  ghost predicate Inv(k: Codec, s: State) {
    DiskOk(k, s.disk, s.days) && CacheOk(k, s.disk, s.mem, s.days)
  }

  lemma SettledIsDayFile(k: Codec, date: string, content: bytes, seqNo: nat, prev: bytes)
    requires Settled(k, date, content, seqNo, prev)
    ensures DayFile(k, date, content)
  {
  }

  lemma ReseedSettles(k: Codec, date: string, content: bytes)
    requires Lawful(k) && DayFile(k, date, content)
    ensures var t := Reseed(k, content);
      Settled(k, date, t.content, t.seqNo, t.prev) && t.content == Complete(content)
  {
    hide Reseed, Complete, IsDayFile;
    var bodies, torn :| IsDayFile(k, date, content, bodies, torn);
    ReseedRecovers(k, date, content, bodies, torn);
    CompletePart(k, date, content, bodies, torn);
    WholeLines(k, date, content, bodies, torn);
  }

  lemma WholeLines(k: Codec, date: string, content: bytes, bodies: seq<Body>, torn: bytes)
    requires IsDayFile(k, date, content, bodies, torn)
    ensures IsDayFile(k, date, Lines(k, bodies), bodies, [])
  {
    hide Chain, Lines;
    assert Lines(k, bodies) == Lines(k, bodies) + [];
  }

  /** A write of any length leaves a day file; a whole one leaves a settled one. */
  lemma WriteKeepsDayFile(k: Codec, date: string, content: bytes, seqNo: nat, prev: bytes, b: Body, count: nat)
    requires Lawful(k) && Settled(k, date, content, seqNo, prev)
    requires b.date == date && b.seqNo == seqNo < MAX_SEQ && b.prev == prev
    requires |Record(k, b)| <= MAX_LINE && count <= |Record(k, b)|
    ensures var after := content + Record(k, b)[..count];
      && DayFile(k, date, after)
      && Complete(content) == content
      && (count == |Record(k, b)| ==>
            Settled(k, date, after, seqNo + 1, Sig(k, b)) && Complete(after) == content + Record(k, b))
      && (count < |Record(k, b)| ==> Complete(after) == content)
  {
    hide Complete, Chain, Lines, Record, LastSig;
    var bodies :| IsDayFile(k, date, content, bodies, []) && seqNo == |bodies| && prev == LastSig(k, bodies);
    var line := Record(k, b);
    assert content == Lines(k, bodies);
    CompletePart(k, date, content, bodies, []);
    if count == |line| {
      ChainGrows(k, date, bodies, b);
      assert line[..count] == line;
      assert content + line + [] == content + line;
      assert IsDayFile(k, date, content + line, bodies + [b], []);
      CompletePart(k, date, content + line, bodies + [b], []);
    } else {
      PartOfRecordIsTorn(k, b, count);
      assert IsDayFile(k, date, content + line[..count], bodies, line[..count]);
      CompletePart(k, date, content + line[..count], bodies, line[..count]);
    }
  }

  lemma PartOfRecordIsTorn(k: Codec, b: Body, count: nat)
    requires Lawful(k) && count < |Record(k, b)| <= MAX_LINE
    ensures Torn(Record(k, b)[..count])
  {
    assert LawsAt(k, b, Sig(k, b));
    assert Record(k, b)[..count] == k.line(b, Sig(k, b))[..count];
  }

  /** No complete line of any file is lost. */
  ghost predicate Keeps(d: Disk, d': Disk) {
    forall i :: i in d.files ==> i in d'.files && Complete(d.files[i]) <= Complete(d'.files[i])
  }

  lemma OpenKeeps(k: Codec, d: Disk, days: map<Inode, string>, call: Call)
    requires DiskOk(k, d, days) && call.newInode != 0 && call.newInode !in d.files
    ensures var days' := if call.date in d.names then days else days[call.newInode := call.date];
      DiskOk(k, Open(d, call.date, call.newInode), days') && Keeps(d, Open(d, call.date, call.newInode))
  {
    assert IsDayFile(k, call.date, [], [], []);
    assert DayFile(k, call.date, []);
  }

  /** Replacing the content of the day's file by another day file. */
  lemma FileUpdate(k: Codec, d: Disk, days: map<Inode, string>, i: Inode, content: bytes)
    requires DiskOk(k, d, days) && i in d.files && DayFile(k, days[i], content)
    requires Complete(d.files[i]) <= Complete(content)
    ensures DiskOk(k, d.(files := d.files[i := content]), days)
    ensures Keeps(d, d.(files := d.files[i := content]))
  {
    hide Complete, DayFile;
  }

  lemma AtWriteKeeps(k: Codec, s: State, call: Call)
    requires Lawful(k) && Inv(k, s) && CallPossible(k, s.disk, s.mem, call) && !call.outcome.OpenFails?
    ensures var (d, m) := AtWrite(k, s.disk, s.mem, call);
      && DiskOk(k, d, DaysAfter(s, call)) && CacheOk(k, d, m, DaysAfter(s, call)) && Keeps(s.disk, d)
      && call.date in d.names && m.inode == d.names[call.date] && m.date == call.date
  {
    hide Reseed, Complete, DayFile, Settled, Record;
    var d1, days := Open(s.disk, call.date, call.newInode), DaysAfter(s, call);
    OpenKeeps(k, s.disk, s.days, call);
    var inode := d1.names[call.date];
    var m1 := NoteInode(HonourSignal(s.mem), inode);
    var content := d1.files[inode];
    var (content', m2) := Position(k, content, m1, call.date);
    if m1.date != call.date {
      ReseedSettles(k, call.date, content);
    } else {
      assert inode == s.mem.inode && content == s.disk.files[inode];
    }
    assert Settled(k, call.date, content', m2.seqNo, m2.prev);
    SettledIsDayFile(k, call.date, content', m2.seqNo, m2.prev);
    CompleteOfSettled(k, call.date, content', m2.seqNo, m2.prev);
    FileUpdate(k, d1, days, inode, content');
  }

  lemma CompleteOfSettled(k: Codec, date: string, content: bytes, seqNo: nat, prev: bytes)
    requires Settled(k, date, content, seqNo, prev)
    ensures Complete(content) == content
  {
    var bodies :| IsDayFile(k, date, content, bodies, []) && seqNo == |bodies| && prev == LastSig(k, bodies);
    CompletePart(k, date, content, bodies, []);
  }

  lemma WriteKeeps(k: Codec, s: State, call: Call)
    requires Lawful(k) && Inv(k, s) && CallPossible(k, s.disk, s.mem, call) && call.outcome.Writes()
    ensures var (d, m) := AfterCall(k, s.disk, s.mem, call);
      && DiskOk(k, d, DaysAfter(s, call)) && CacheOk(k, d, m, DaysAfter(s, call)) && Keeps(s.disk, d)
  {
    hide Reseed, Complete, DayFile, Settled, Record, AtWrite;
    AtWriteKeeps(k, s, call);
    var (d1, m1) := AtWrite(k, s.disk, s.mem, call);
    var days := DaysAfter(s, call);
    var b := NextBody(m1, call.entry, call.ts, call.date);
    var count := call.outcome.Count(|Record(k, b)|);
    var before := d1.files[m1.inode];
    WriteKeepsDayFile(k, call.date, before, m1.seqNo, m1.prev, b, count);
    FileUpdate(k, d1, days, m1.inode, before + Record(k, b)[..count]);
  }

  lemma CallKeeps(k: Codec, s: State, call: Call)
    requires Lawful(k) && Inv(k, s) && CallPossible(k, s.disk, s.mem, call)
    ensures var (d, m) := AfterCall(k, s.disk, s.mem, call);
      Inv(k, State(d, m, DaysAfter(s, call))) && Keeps(s.disk, d)
  {
    hide Reseed, Complete, DayFile, Settled, Record, AtWrite;
    match call.outcome
    case OpenFails =>
    case LockFails => OpenKeeps(k, s.disk, s.days, call);
    case SignFails => AtWriteKeeps(k, s, call);
    case _ => WriteKeeps(k, s, call);
  }

  lemma StepKeeps(k: Codec, s: State, step: Step)
    requires Lawful(k) && Inv(k, s) && Enabled(k, s, step)
    ensures Inv(k, Apply(k, s, step)) && Keeps(s.disk, Apply(k, s, step).disk)
  {
    hide Complete, DayFile, Settled, AfterCall;
    match step
    case Recorded(call) => CallKeeps(k, s, call);
    case CrashedIn(call) => CallKeeps(k, s, call);
    case HangUp =>
    case Rotated(date) =>
    case Restarted =>
  }

  lemma {:induction false} RunKeeps(k: Codec, s: State, steps: seq<Step>)
    requires Lawful(k) && Inv(k, s) && Legal(k, s, steps)
    ensures Inv(k, Run(k, s, steps)) && Keeps(s.disk, Run(k, s, steps).disk)
    decreases |steps|
  {
    hide Complete, Inv, Apply;
    if steps != [] {
      StepKeeps(k, s, steps[0]);
      RunKeeps(k, Apply(k, s, steps[0]), steps[1..]);
    }
  }

  // ---------------------------------------------------------------------------
  // The theorems

  /** After any run from an empty disk every file is one day's chain, from number 0 and the
      genesis link, plus at most a torn tail without a newline; and the cached position is the
      one a fresh scan of the cached file would compute, without changing that file. */
  lemma ChainAlwaysHolds(k: Codec, steps: seq<Step>)
    requires Lawful(k) && Legal(k, EMPTY, steps)
    ensures var s := Run(k, EMPTY, steps);
      && (forall i :: i in s.disk.files ==> i in s.days && DayFile(k, s.days[i], s.disk.files[i]))
      && (s.mem.date != "" ==>
            && s.mem.inode in s.disk.files
            && var content := s.disk.files[s.mem.inode];
               Reseed(k, content) == Tail(content, s.mem.seqNo, s.mem.prev))
  {
    RunKeeps(k, EMPTY, steps);
    var s := Run(k, EMPTY, steps);
    if s.mem.date != "" {
      var content := s.disk.files[s.mem.inode];
      var bodies :| IsDayFile(k, s.mem.date, content, bodies, []) && s.mem.seqNo == |bodies|
                 && s.mem.prev == LastSig(k, bodies);
      ReseedRecovers(k, s.mem.date, content, bodies, []);
      assert content == Lines(k, bodies) + [] == Lines(k, bodies);
    }
  }

  /** Nothing that follows, crash recovery and its truncation included, takes away a complete line. */
  lemma RecordsAreNeverLost(k: Codec, before: seq<Step>, after: seq<Step>)
    requires Lawful(k) && Legal(k, EMPTY, before) && Legal(k, Run(k, EMPTY, before), after)
    ensures Keeps(Run(k, EMPTY, before).disk, Run(k, Run(k, EMPTY, before), after).disk)
  {
    RunKeeps(k, EMPTY, before);
    RunKeeps(k, Run(k, EMPTY, before), after);
  }

  /** With a second process on the same files: a whole record written from a cached position keeps the
      day file a chain exactly when nobody has appended since the position was cached. */
  lemma CachedPositionMustBeCurrent(k: Codec, d: Disk, m: Mem, call: Call, bodies: seq<Body>)
    requires Lawful(k) && CallPossible(k, d, m, call) && call.outcome.WritesAll?
    requires !m.reseed && m.date == call.date && call.date in d.names && m.inode == d.names[call.date]
    requires d.files[m.inode] == Lines(k, bodies) && Chain(k, call.date, bodies)
    requires m.seqNo <= |bodies| && m.prev == LastSig(k, bodies[..m.seqNo])
    ensures DayFile(k, call.date, AfterCall(k, d, m, call).0.files[m.inode]) <==> m.seqNo == |bodies|
  {
    hide AuditChain.Record, Lines, Chain, DayFile, LastSig;
    var b := NextBody(m, call.entry, call.ts, call.date);
    var line := AuditChain.Record(k, b);
    assert AtWrite(k, d, m, call).1 == m && AtWrite(k, d, m, call).0.files[m.inode] == Lines(k, bodies);
    assert line[..|line|] == line;
    ForkedExactlyWhenStale(k, call.date, bodies, m.seqNo, b);
  }
}
