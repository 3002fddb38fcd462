// The audit log as a history (audit.c): every file says what was recorded, in order, and no more.
module AuditHistory {
  import opened Bytes
  import opened AuditChain
  import opened AuditLog

  /** The file that a call opens. */
  ghost function Opened(d: Disk, call: Call): Inode {
    if call.date in d.names then d.names[call.date] else call.newInode
  }

  /** The step writes a whole record to file `i`, whether or not the process outlives it. */
  ghost predicate WritesTo(s: State, step: Step, i: Inode) {
    (step.Recorded? || step.CrashedIn?) && step.call.outcome.WritesAll? && Opened(s.disk, step.call) == i
  }

  ghost function NewlyLogged(s: State, step: Step, i: Inode): seq<Call> {
    if WritesTo(s, step, i) then [step.call] else []
  }

  /** The calls that a run writes to file `i` in full, in their order. */
  ghost function Logged(k: Codec, s: State, steps: seq<Step>, i: Inode): seq<Call>
    requires Legal(k, s, steps)
    decreases |steps|
  {
    if steps == [] then []
    else NewlyLogged(s, steps[0], i) + Logged(k, Apply(k, s, steps[0]), steps[1..], i)
  }

  /** The text that records of these calls make, and the signature of the last: each has the entry and
      the time of its call, its place in the file for a number, and the signature before it, or 64 zero
      digits, for a link; and it is printed with the signature of all that. */
  ghost function Written(k: Codec, calls: seq<Call>): (bytes, bytes) {
    if calls == [] then ([], Zeros(64))
    else
      var n := |calls| - 1;
      var ((text, link), call) := (Written(k, calls[..n]), calls[n]);
      var body := Body(call.entry, call.ts, call.date, link, n);
      var signature := k.sign(k.canonical(body));
      (text + (k.line(body, signature) + [10]), signature)
  }

  /** The same as a chain. */
  ghost function Bodies(k: Codec, calls: seq<Call>): (bodies: seq<Body>)
    ensures |bodies| == |calls|
  {
    if calls == [] then []
    else
      var (front, call) := (Bodies(k, calls[..|calls| - 1]), calls[|calls| - 1]);
      front + [Body(call.entry, call.ts, call.date, LastSig(k, front), |front|)]
  }

  lemma {:induction false} WrittenAsChain(k: Codec, calls: seq<Call>)
    ensures Written(k, calls) == (Lines(k, Bodies(k, calls)), LastSig(k, Bodies(k, calls)))
  {
    if calls != [] {
      var bodies, front := Bodies(k, calls), Bodies(k, calls[..|calls| - 1]);
      WrittenAsChain(k, calls[..|calls| - 1]);
      assert bodies[..|calls| - 1] == front;
    }
  }

  lemma BodiesSnoc(k: Codec, calls: seq<Call>, call: Call)
    ensures var front := Bodies(k, calls);
      Bodies(k, calls + [call]) == front + [Body(call.entry, call.ts, call.date, LastSig(k, front), |front|)]
  {
    assert (calls + [call])[..|calls|] == calls;
  }

  /** File `i` holds the records of these calls, and perhaps a torn tail. */
  ghost predicate Holds(k: Codec, s: State, i: Inode, calls: seq<Call>) {
    && (i !in s.disk.files ==> calls == [])
    && (i in s.disk.files ==> i in s.days && exists torn :: IsDayFile(k, s.days[i], s.disk.files[i], Bodies(k, calls), torn))
  }

  /** A day file stands at one position only. */
  lemma OnePosition(k: Codec, date: string, content: bytes, a: seq<Body>, aTorn: bytes, b: seq<Body>, bTorn: bytes)
    requires Lawful(k) && IsDayFile(k, date, content, a, aTorn) && IsDayFile(k, date, content, b, bTorn)
    ensures Lines(k, a) == Lines(k, b) && |a| == |b| && LastSig(k, a) == LastSig(k, b)
  {
    hide Reseed, IsDayFile;
    ReseedRecovers(k, date, content, a, aTorn);
    ReseedRecovers(k, date, content, b, bTorn);
  }

  /** When a call comes to write, its file is whole lines and its variables stand behind them. */
  lemma StandsBehind(k: Codec, s: State, call: Call, calls: seq<Call>)
    requires Lawful(k) && Inv(k, s) && CallPossible(k, s.disk, s.mem, call) && !call.outcome.OpenFails?
    requires Holds(k, s, Opened(s.disk, call), calls)
    ensures var (d, m) := AtWrite(k, s.disk, s.mem, call);
      && call.date in d.names && d.names[call.date] == Opened(s.disk, call)
      && Opened(s.disk, call) in d.files && d.files[Opened(s.disk, call)] == Lines(k, Bodies(k, calls))
      && m.seqNo == |calls| && m.prev == LastSig(k, Bodies(k, calls)) && Chain(k, call.date, Bodies(k, calls))
  {
    hide Reseed, Lines, Chain, LastSig, Bodies, LastNewline;
    var (i, bodies) := (Opened(s.disk, call), Bodies(k, calls));
    var content := if i in s.disk.files then s.disk.files[i] else [];
    var torn := [];
    if i in s.disk.files {
      torn :| IsDayFile(k, s.days[i], content, bodies, torn);
    } else {
      EmptyFile(k, call.date);
      assert calls == [] && bodies == [];
    }
    assert IsDayFile(k, call.date, content, bodies, torn);
    ReseedRecovers(k, call.date, content, bodies, torn);
    var m1 := NoteInode(HonourSignal(s.mem), i);
    if m1.date == call.date {
      assert Settled(k, call.date, content, m1.seqNo, m1.prev);
      var old' :| IsDayFile(k, call.date, content, old', []) && m1.seqNo == |old'| && m1.prev == LastSig(k, old');
      OnePosition(k, call.date, content, bodies, torn, old', []);
      assert content == Lines(k, old') + [] == Lines(k, old');
    }
  }

  lemma EmptyFile(k: Codec, date: string)
    ensures IsDayFile(k, date, [], [], [])
  {
  }

  lemma Whole(k: Codec, date: string, bodies: seq<Body>, torn: bytes)
    requires Chain(k, date, bodies) && Torn(torn)
    ensures IsDayFile(k, date, Lines(k, bodies) + torn, bodies, torn)
  {
  }

  /** How the texts of a chain go on: with part of a record, or with a whole one. */
  lemma TextGoesOn(k: Codec, date: string, calls: seq<Call>, call: Call, b: Body, count: nat)
    requires Lawful(k) && Chain(k, date, Bodies(k, calls)) && call.date == date && |calls| < MAX_SEQ
    requires b == Body(call.entry, call.ts, call.date, LastSig(k, Bodies(k, calls)), |calls|)
    requires count <= |AuditChain.Record(k, b)| <= MAX_LINE
    ensures var (line, calls') := (AuditChain.Record(k, b), if count == |AuditChain.Record(k, b)| then calls + [call] else calls);
      exists torn :: IsDayFile(k, date, Lines(k, Bodies(k, calls)) + line[..count], Bodies(k, calls'), torn)
  {
    hide Lines, Chain, LastSig, Bodies, Torn, AuditChain.Record, IsDayFile;
    var (bodies, line) := (Bodies(k, calls), AuditChain.Record(k, b));
    var text := Lines(k, bodies);
    if count < |line| {
      PartOfRecordIsTorn(k, b, count);
      Whole(k, date, bodies, line[..count]);
    } else {
      NothingIsTorn();
      ChainGrows(k, date, bodies, b);
      BodiesSnoc(k, calls, call);
      Whole(k, date, bodies + [b], []);
      assert line[..|line|] == line;
      assert text + line + [] == text + line;
    }
  }

  /** What the file that a call opens holds when the call got as far as knowing its position. */
  lemma OpenedFileAfter(k: Codec, s: State, call: Call, calls: seq<Call>)
    requires Lawful(k) && Inv(k, s) && CallPossible(k, s.disk, s.mem, call)
    requires !call.outcome.OpenFails? && !call.outcome.LockFails?
    requires Holds(k, s, Opened(s.disk, call), calls)
    ensures var (i, calls') := (Opened(s.disk, call), if call.outcome.WritesAll? then calls + [call] else calls);
      && i in AfterCall(k, s.disk, s.mem, call).0.files
      && exists torn :: IsDayFile(k, call.date, AfterCall(k, s.disk, s.mem, call).0.files[i], Bodies(k, calls'), torn)
  {
    hide Lines, Chain, LastSig, Bodies, AtWrite, Torn, AuditChain.Record, IsDayFile, Holds, Inv;
    StandsBehind(k, s, call, calls);
    AtWriteKeeps(k, s, call);
    var (i, bodies) := (Opened(s.disk, call), Bodies(k, calls));
    var (d1, m1) := AtWrite(k, s.disk, s.mem, call);
    if call.outcome.SignFails? {
      var text := Lines(k, bodies);
      NothingIsTorn();
      Whole(k, call.date, bodies, []);
      assert text + [] == text;
    } else {
      var b := NextBody(m1, call.entry, call.ts, call.date);
      var count := call.outcome.Count(|AuditChain.Record(k, b)|);
      TextGoesOn(k, call.date, calls, call, b, count);
    }
  }

  lemma NothingIsTorn()
    ensures Torn([])
  {
  }

  /** A call adds its own record to the file it opens, if it writes it in full, and else adds nothing;
      and to every other file it adds nothing. */
  lemma CallAddsItsRecord(k: Codec, s: State, call: Call, i: Inode, calls: seq<Call>)
    requires Lawful(k) && Inv(k, s) && CallPossible(k, s.disk, s.mem, call) && Holds(k, s, i, calls)
    ensures var (d, m) := AfterCall(k, s.disk, s.mem, call);
      Holds(k, State(d, m, DaysAfter(s, call)), i, calls + NewlyLogged(s, Recorded(call), i))
  {
    hide Bodies, IsDayFile, AfterCall;
    assert calls + [] == calls;
    if i == Opened(s.disk, call) && !call.outcome.OpenFails? && !call.outcome.LockFails? {
      OpenedFileAfter(k, s, call, calls);
      DayOfOpened(s, call);
    } else {
      OtherFileAfter(k, s, call, i);
      EmptyFile(k, call.date);
      NoBodies(k);
      if !call.outcome.OpenFails? {
        DayOfOpened(s, call);
      }
    }
  }

  /** Another file is as it was; and so is the one that a call opens and gets no further with, but that
      it may be new. */
  lemma OtherFileAfter(k: Codec, s: State, call: Call, i: Inode)
    requires Inv(k, s) && CallPossible(k, s.disk, s.mem, call)
    requires i == Opened(s.disk, call) ==> call.outcome.OpenFails? || call.outcome.LockFails?
    ensures var files := AfterCall(k, s.disk, s.mem, call).0.files;
      && NewlyLogged(s, Recorded(call), i) == []
      && (i in s.disk.files ==>
            i in files && files[i] == s.disk.files[i] && i in DaysAfter(s, call) && DaysAfter(s, call)[i] == s.days[i])
      && (i !in s.disk.files && i in files ==> i == Opened(s.disk, call) && !call.outcome.OpenFails? && files[i] == [])
  {
    hide Reseed, AuditChain.Record, DayFile, Settled;
  }

  lemma DayOfOpened(s: State, call: Call)
    requires forall date :: date in s.disk.names ==> s.disk.names[date] in s.days && s.days[s.disk.names[date]] == date
    requires !call.outcome.OpenFails?
    ensures var i := Opened(s.disk, call); i in DaysAfter(s, call) && DaysAfter(s, call)[i] == call.date
  {
  }

  lemma NoBodies(k: Codec)
    ensures Bodies(k, []) == []
  {
  }

  lemma StepAddsItsRecord(k: Codec, s: State, step: Step, i: Inode, calls: seq<Call>)
    requires Lawful(k) && Inv(k, s) && Enabled(k, s, step) && Holds(k, s, i, calls)
    ensures Holds(k, Apply(k, s, step), i, calls + NewlyLogged(s, step, i))
  {
    hide Lines, Chain, LastSig, Bodies, IsDayFile, Inv, AfterCall;
    assert calls + [] == calls;
    if step.Recorded? || step.CrashedIn? {
      CallAddsItsRecord(k, s, step.call, i, calls);
    }
  }

  lemma {:induction false} RunAddsRecords(k: Codec, s: State, steps: seq<Step>, i: Inode, calls: seq<Call>)
    requires Lawful(k) && Inv(k, s) && Legal(k, s, steps) && Holds(k, s, i, calls)
    ensures Inv(k, Run(k, s, steps)) && Holds(k, Run(k, s, steps), i, calls + Logged(k, s, steps, i))
    decreases |steps|
  {
    hide Inv, Apply, Holds, NewlyLogged;
    if steps == [] {
      assert calls + [] == calls;
    } else {
      var (more, rest) := (NewlyLogged(s, steps[0], i), Logged(k, Apply(k, s, steps[0]), steps[1..], i));
      StepAddsItsRecord(k, s, steps[0], i, calls);
      StepKeeps(k, s, steps[0]);
      RunAddsRecords(k, Apply(k, s, steps[0]), steps[1..], i, calls + more);
      assert calls + (more + rest) == calls + more + rest;
    }
  }

  /** The file's text is that of the calls, and perhaps a torn tail without a newline. */
  ghost predicate SaysExactly(k: Codec, content: bytes, calls: seq<Call>) {
    Written(k, calls).0 <= content
    && var torn := content[|Written(k, calls).0|..];
       10 !in torn && |torn| < MAX_LINE
  }

  /** After every run from an empty disk, with crashes, short writes, rotation and all, each file says
      the calls that were written to it in full, in their order: none is missing, added or altered.
      They are all of its day. */
  lemma LogIsTheHistory(k: Codec, steps: seq<Step>, i: Inode)
    requires Lawful(k) && Legal(k, EMPTY, steps)
    ensures var (s, calls) := (Run(k, EMPTY, steps), Logged(k, EMPTY, steps, i));
      && (i !in s.disk.files ==> calls == [])
      && (i in s.disk.files ==> i in s.days && SaysExactly(k, s.disk.files[i], calls)
                                && forall c <- calls :: c.date == s.days[i])
  {
    hide Run, Logged, Lines, Written, LastSig;
    NothingYet(k, i);
    RunAddsRecords(k, EMPTY, steps, i, []);
    var (s, calls) := (Run(k, EMPTY, steps), Logged(k, EMPTY, steps, i));
    assert [] + calls == calls;
    WrittenAsChain(k, calls);
    if i in s.disk.files {
      var (content, bodies) := (s.disk.files[i], Bodies(k, calls));
      var torn :| IsDayFile(k, s.days[i], content, bodies, torn);
      assert content[|Lines(k, bodies)|..] == torn;
      hide Bodies;
      forall c | c in calls ensures c.date == s.days[i] {
        var j :| 0 <= j < |calls| && calls[j] == c;
        BodyOf(k, calls, j);
        assert Linked(k, s.days[i], bodies, j);
      }
    }
  }

  lemma {:induction false} BodyOf(k: Codec, calls: seq<Call>, j: nat)
    requires j < |calls|
    ensures var b := Bodies(k, calls)[j]; b.entry == calls[j].entry && b.ts == calls[j].ts && b.date == calls[j].date
  {
    if j < |calls| - 1 {
      BodyOf(k, calls[..|calls| - 1], j);
    }
  }

  /** After a call that writes in full, at any point of a run, the file it opens is its complete lines,
      then this one record, which has the entry, the time and the date of the call, the number of the
      lines before it, and the last signature. */
  lemma WholeWriteSaysTheCall(k: Codec, steps: seq<Step>, call: Call)
    requires Lawful(k) && Legal(k, EMPTY, steps)
    requires var s := Run(k, EMPTY, steps); CallPossible(k, s.disk, s.mem, call) && call.outcome.WritesAll?
    ensures var s := Run(k, EMPTY, steps);
      var (i, after) := (Opened(s.disk, call), AfterCall(k, s.disk, s.mem, call).0);
      var before := if i in s.disk.files then Complete(s.disk.files[i]) else [];
      var calls := Logged(k, EMPTY, steps, i);
      var body := Body(call.entry, call.ts, call.date, Written(k, calls).1, Newlines(before));
      && before == Written(k, calls).0 && i in after.files
      && after.files[i] == before + (k.line(body, k.sign(k.canonical(body))) + [10])
  {
    hide Run, Logged, Lines, Written, LastSig, AtWrite, Chain, Newlines, Bodies, LastNewline, Inv, CallPossible, IsDayFile;
    var s := Run(k, EMPTY, steps);
    var i := Opened(s.disk, call);
    var calls := Logged(k, EMPTY, steps, i);
    NothingYet(k, i);
    RunAddsRecords(k, EMPTY, steps, i, []);
    assert [] + calls == calls;
    WrittenAsChain(k, calls);
    StandsBehind(k, s, call, calls);
    AtWriteKeeps(k, s, call);
    LinesCounted(k, Bodies(k, calls));
    var line := AuditChain.Record(k, Body(call.entry, call.ts, call.date, Written(k, calls).1, |calls|));
    assert line[..|line|] == line;
    if i in s.disk.files {
      var torn :| IsDayFile(k, s.days[i], s.disk.files[i], Bodies(k, calls), torn);
      CompletePart(k, s.days[i], s.disk.files[i], Bodies(k, calls), torn);
    } else {
      NoLines(k);
    }
  }

  lemma NothingYet(k: Codec, i: Inode)
    ensures Inv(k, EMPTY) && Holds(k, EMPTY, i, [])
  {
  }

  lemma NoLines(k: Codec)
    ensures Lines(k, []) == [] && Bodies(k, []) == []
  {
  }
}
