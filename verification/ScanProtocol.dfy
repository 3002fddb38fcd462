// Admission of scans (main.c, handle_scan; admission.c) by workers in any interleaving.
module ScanProtocol {
  // Workers count themselves in, take a user slot, reserve memory by an optimistic
  // fetch-add, hold a plaintext buffer, and give everything back on every way out.
  // A step is one atomic operation or one mutex section.

  import opened Limits
  import opened SubmitterTable

  const WORKERS: int := 8

  /** Where a worker is in handle_scan.
      - Entered: counted in g_inflight, request being parsed
      - Slotted: holds a user slot
      - Added: its reservation is in the shared counter, which read `after` when it was added
      - Admitted: the reservation was within the budget; `buffer` when plaintext is allocated
      - Leaving: on a way out, with what it still holds */
  datatype Pc =
    | Idle
    | Entered
    | Slotted
    | Added(after: int)
    | Admitted(buffer: bool)
    | Leaving(reserved: bool, slot: bool)

  /** `size` is what the request announces; `fileSize` is that of the file it names. */
  datatype Worker = Worker(pc: Pc, user: nat, size: nat, fileSize: nat) {
    function Reserve(): nat { size * RESERVE_MULT }

    /** What the decryption allocates: as much as the file has, and never nothing. */
    function BufferSize(): nat { if fileSize == 0 then 1 else fileSize }
  }

  datatype State = State(bytes: int, inflight: int, usage: Usage, workers: seq<Worker>)

  datatype Step =
    | Enter(w: nat, user: nat, size: nat, fileSize: nat)
    | RejectRequest(w: nat)
    | AcquireSlot(w: nat)
    | UnsealFails(w: nat)
    | FetchAdd(w: nat)
    | Decide(w: nat)
    | AllocateBuffer(w: nat)
    | FreeBuffer(w: nat)
    | Finish(w: nat)
    | ReleaseBytes(w: nat)
    | ReleaseSlot(w: nat)
    | Exit(w: nat)

  predicate Enabled(s: State, step: Step) {
    step.w < |s.workers| &&
    var pc := s.workers[step.w].pc;
    match step
    case Enter(_, _, size, _) => pc.Idle? && size <= MAX_PLAINTEXT
    case RejectRequest(_) => pc.Entered?
    case AcquireSlot(_) => pc.Entered?
    case UnsealFails(_) => pc.Slotted?
    case FetchAdd(_) => pc.Slotted?
    case Decide(_) => pc.Added?
    case AllocateBuffer(_) => pc == Admitted(false) && s.workers[step.w].fileSize <= MAX_PLAINTEXT
    case FreeBuffer(_) => pc == Admitted(true)
    case Finish(_) => pc == Admitted(false)
    case ReleaseBytes(_) => pc.Leaving? && pc.reserved
    case ReleaseSlot(_) => pc.Leaving? && !pc.reserved && pc.slot
    case Exit(_) => pc == Leaving(false, false)
  }

  function Goto(s: State, w: nat, pc: Pc): State
    requires w < |s.workers|
  {
    s.(workers := s.workers[w := s.workers[w].(pc := pc)])
  }

  function Apply(s: State, step: Step): State
    requires Enabled(s, step)
  {
    var w := step.w;
    var me := s.workers[w];
    match step
    case Enter(_, user, size, fileSize) =>
      s.(inflight := s.inflight + 1, workers := s.workers[w := Worker(Entered, user, size, fileSize)])
    case RejectRequest(_) => Goto(s, w, Leaving(false, false))
    case AcquireSlot(_) =>
      if MayAcquire(s.usage, me.user)
      then Goto(s, w, Slotted).(usage := Acquired(s.usage, me.user))
      else Goto(s, w, Leaving(false, false))
    case UnsealFails(_) => Goto(s, w, Leaving(false, true))
    case FetchAdd(_) =>
      Goto(s, w, Added(s.bytes + me.Reserve())).(bytes := s.bytes + me.Reserve())
    case Decide(_) =>
      if me.pc.after > BUDGET
      then Goto(s, w, Leaving(false, true)).(bytes := s.bytes - me.Reserve())
      else Goto(s, w, Admitted(false))
    case AllocateBuffer(_) => Goto(s, w, Admitted(true))
    case FreeBuffer(_) => Goto(s, w, Admitted(false))
    case Finish(_) => Goto(s, w, Leaving(true, true))
    case ReleaseBytes(_) =>
      Goto(s, w, Leaving(false, me.pc.slot)).(bytes := s.bytes - me.Reserve())
    case ReleaseSlot(_) =>
      Goto(s, w, Leaving(false, false)).(usage := Released(s.usage, me.user))
    case Exit(_) => Goto(s, w, Idle).(inflight := s.inflight - 1)
  }

  function Init(): State {
    State(0, 0, map[], seq(WORKERS, _ => Worker(Idle, 0, 0, 0)))
  }

  ghost predicate Legal(s: State, steps: seq<Step>)
    decreases |steps|
  {
    steps == [] || (Enabled(s, steps[0]) && Legal(Apply(s, steps[0]), steps[1..]))
  }

  ghost function Run(s: State, steps: seq<Step>): State
    requires Legal(s, steps)
    decreases |steps|
  {
    if steps == [] then s else Run(Apply(s, steps[0]), steps[1..])
  }

  ghost predicate Reachable(s: State) {
    exists steps: seq<Step> :: Legal(Init(), steps) && s == Run(Init(), steps)
  }

  // ---------------------------------------------------------------------------
  // What a worker holds

  predicate HoldsSlot(w: Worker) {
    w.pc.Slotted? || w.pc.Added? || w.pc.Admitted? || (w.pc.Leaving? && w.pc.slot)
  }

  /** In the shared byte counter: from the fetch-add to the fetch-sub. */
  predicate HoldsBytes(w: Worker) {
    w.pc.Added? || HoldsReservation(w)
  }

  /** Admitted: the comparison with the budget has let it through and it has not released. */
  predicate HoldsReservation(w: Worker) {
    (w.pc.Added? && w.pc.after <= BUDGET) || w.pc.Admitted? || (w.pc.Leaving? && w.pc.reserved)
  }

  function One(b: bool): nat { if b then 1 else 0 }

  function Contribution(w: Worker): nat { if HoldsBytes(w) then w.Reserve() else 0 }
  function Granted(w: Worker): nat { if HoldsReservation(w) then w.Reserve() else 0 }
  function Buffered(w: Worker): nat { if w.pc == Admitted(true) then w.BufferSize() else 0 }
  function Counted(w: Worker): nat { One(!w.pc.Idle?) }
  function SlotsOf(user: nat): Worker -> nat { (w: Worker) => One(HoldsSlot(w) && w.user == user) }

  function Sum(ws: seq<Worker>, f: Worker -> nat): nat {
    if ws == [] then 0 else f(ws[0]) + Sum(ws[1..], f)
  }

  lemma {:induction false} SumUpdate(ws: seq<Worker>, i: nat, x: Worker, f: Worker -> nat)
    requires i < |ws|
    ensures Sum(ws[i := x], f) == Sum(ws, f) - f(ws[i]) + f(x)
    ensures Sum(ws, f) >= f(ws[i])
  {
    if i == 0 {
      assert ws[i := x][1..] == ws[1..];
    } else {
      SumUpdate(ws[1..], i - 1, x, f);
      assert ws[i := x][1..] == ws[1..][i - 1 := x];
    }
  }

  lemma {:induction false} SumMonotone(ws: seq<Worker>, f: Worker -> nat, g: Worker -> nat)
    requires forall w :: f(w) <= g(w)
    ensures Sum(ws, f) <= Sum(ws, g)
  {
    if ws != [] {
      SumMonotone(ws[1..], f, g);
    }
  }

  lemma {:induction false} SumPositive(ws: seq<Worker>, f: Worker -> nat)
    ensures Sum(ws, f) > 0 <==> exists i :: 0 <= i < |ws| && f(ws[i]) > 0
  {
    if ws != [] {
      SumPositive(ws[1..], f);
      if f(ws[0]) == 0 && Sum(ws[1..], f) > 0 {
        var i :| 0 <= i < |ws[1..]| && f(ws[1..][i]) > 0;
        assert f(ws[i + 1]) > 0;
      }
      if i :| 0 <= i < |ws| && f(ws[i]) > 0 && f(ws[0]) == 0 {
        assert f(ws[1..][i - 1]) > 0;
      }
    }
  }

  lemma {:induction false} SumBound(ws: seq<Worker>, f: Worker -> nat, bound: nat)
    requires forall i :: 0 <= i < |ws| ==> f(ws[i]) <= bound
    ensures Sum(ws, f) <= |ws| * bound
  {
    if ws != [] {
      SumBound(ws[1..], f, bound);
    }
  }

  // ---------------------------------------------------------------------------
  // The invariant

  ghost predicate Inv(s: State) {
    && |s.workers| == WORKERS
    && (forall i :: 0 <= i < WORKERS ==> s.workers[i].size <= MAX_PLAINTEXT && Buffered(s.workers[i]) <= MAX_PLAINTEXT)
    && s.bytes == Sum(s.workers, Contribution)
    && s.inflight == Sum(s.workers, Counted)
    && Sum(s.workers, Granted) <= BUDGET
    && Sound(s.usage)
    && UsageAgrees(s.usage, s.workers)
  }

  ghost predicate UsageAgrees(m: Usage, ws: seq<Worker>) {
    forall u :: Held(m, u) == Sum(ws, SlotsOf(u))
  }

  lemma UsageAfter(s: State, w: nat, x: Worker, m: Usage)
    requires w < |s.workers| && UsageAgrees(s.usage, s.workers)
    requires forall u :: Held(m, u) == Held(s.usage, u) - SlotsOf(u)(s.workers[w]) + SlotsOf(u)(x)
    ensures UsageAgrees(m, s.workers[w := x])
  {
    forall u ensures Held(m, u) == Sum(s.workers[w := x], SlotsOf(u)) {
      SumUpdate(s.workers, w, x, SlotsOf(u));
    }
  }

  /** What one step changes: its worker, and the three counters by that worker's difference. */
  lemma BytesAfter(s: State, step: Step)
    requires Enabled(s, step)
    ensures var (s', w) := (Apply(s, step), step.w);
      && s'.workers == s.workers[w := s'.workers[w]]
      && s'.bytes - s.bytes == Contribution(s'.workers[w]) - Contribution(s.workers[w])
      && s'.inflight - s.inflight == Counted(s'.workers[w]) - Counted(s.workers[w])
      && (Granted(s'.workers[w]) > Granted(s.workers[w]) ==>
            Granted(s.workers[w]) == 0 && s.bytes + Granted(s'.workers[w]) <= BUDGET)
  {
  }

  lemma CountersKept(s: State, step: Step)
    requires Inv(s) && Enabled(s, step)
    ensures Apply(s, step).bytes == Sum(Apply(s, step).workers, Contribution)
    ensures Apply(s, step).inflight == Sum(Apply(s, step).workers, Counted)
    ensures Sum(Apply(s, step).workers, Granted) <= BUDGET
  {
    BytesAfter(s, step);
    var w, x := step.w, Apply(s, step).workers[step.w];
    SumUpdate(s.workers, w, x, Contribution);
    SumUpdate(s.workers, w, x, Counted);
    SumUpdate(s.workers, w, x, Granted);
    SumMonotone(s.workers, Granted, Contribution);
  }

  lemma UsageKept(s: State, step: Step)
    requires Inv(s) && Enabled(s, step)
    ensures Sound(Apply(s, step).usage)
    ensures UsageAgrees(Apply(s, step).usage, Apply(s, step).workers)
  {
    hide Sum, Contribution, Counted, Granted, Apply, Enabled, SlotsOf, Held;
    var w, s' := step.w, Apply(s, step);
    UsageStep(s, step);
    BytesAfter(s, step);
    UsageAfter(s, w, s'.workers[w], s'.usage);
  }

  /** The table changes by what the worker's own hold on it changes. */
  lemma UsageStep(s: State, step: Step)
    requires Inv(s) && Enabled(s, step)
    ensures step.w < |s.workers| == |Apply(s, step).workers| && Sound(Apply(s, step).usage)
    ensures forall u :: Held(Apply(s, step).usage, u) ==
                          Held(s.usage, u) - SlotsOf(u)(s.workers[step.w]) + SlotsOf(u)(Apply(s, step).workers[step.w])
  {
    hide Sum, Contribution, Counted, Granted, Released;
    var me := s.workers[step.w];
    if step.AcquireSlot? && MayAcquire(s.usage, me.user) {
      ReleaseUndoesAcquire(s.usage, me.user);
    }
    if step.ReleaseSlot? {
      SumUpdate(s.workers, step.w, me, SlotsOf(me.user));
      assert Held(s.usage, me.user) >= SlotsOf(me.user)(me) == 1;
      ReleaseEffect(s.usage, me.user);
    }
  }

  lemma StepKeepsInv(s: State, step: Step)
    requires Inv(s) && Enabled(s, step)
    ensures Inv(Apply(s, step))
  {
    hide Sum, Contribution, Counted, Granted, Sound, UsageAgrees, Acquired, Released, MayAcquire;
    CountersKept(s, step);
    UsageKept(s, step);
  }

  lemma {:induction false} RunKeepsInv(s: State, steps: seq<Step>)
    requires Inv(s) && Legal(s, steps)
    ensures Inv(Run(s, steps))
    decreases |steps|
  {
    if steps != [] {
      StepKeepsInv(s, steps[0]);
      RunKeepsInv(Apply(s, steps[0]), steps[1..]);
    }
  }

  lemma InitInv()
    ensures Inv(Init())
  {
    var ws := Init().workers;
    SumBound(ws, Contribution, 0);
    SumBound(ws, Counted, 0);
    SumBound(ws, Granted, 0);
    forall u ensures Sum(ws, SlotsOf(u)) == 0 {
      SumBound(ws, SlotsOf(u), 0);
    }
  }

  lemma ReachableInv(s: State)
    requires Reachable(s)
    ensures Inv(s)
  {
    var steps: seq<Step> :| Legal(Init(), steps) && s == Run(Init(), steps);
    InitInv();
    RunKeepsInv(Init(), steps);
  }

  // ---------------------------------------------------------------------------
  // The theorems

  /** However far the raw counter overshoots, it is exactly what workers have added and not
      taken back, and the admitted part stays within the budget. */
  lemma MemoryBudget(s: State)
    requires Reachable(s)
    ensures s.bytes == Sum(s.workers, Contribution)
    ensures Sum(s.workers, Granted) <= BUDGET
    ensures 0 <= s.bytes <= WORKERS * RESERVE_MULT * MAX_PLAINTEXT < 0x7FFF_FFFF_FFFF_FFFF
  {
    ReachableInv(s);
    SumBound(s.workers, Contribution, RESERVE_MULT * MAX_PLAINTEXT);
  }

  /** The buffer of a worker is as large as the file, which nothing ties to the announced size: its
      reservation covers it exactly when the file is at most three times that.  Where that is so for
      every worker with a buffer, the buffers together are within the budget; else they are only
      within the number of workers times the largest file. */
  lemma BuffersBehindReservations(s: State)
    requires Reachable(s)
    ensures forall i :: 0 <= i < |s.workers| && s.workers[i].pc == Admitted(true) ==>
              (Buffered(s.workers[i]) <= Granted(s.workers[i]) <==>
                 s.workers[i].size > 0 && s.workers[i].fileSize <= RESERVE_MULT * s.workers[i].size)
    ensures (forall i :: 0 <= i < |s.workers| ==> Buffered(s.workers[i]) <= Granted(s.workers[i])) ==>
              Sum(s.workers, Buffered) <= Sum(s.workers, Granted) <= BUDGET
    ensures Sum(s.workers, Buffered) <= WORKERS * MAX_PLAINTEXT
  {
    ReachableInv(s);
    SumBound(s.workers, Buffered, MAX_PLAINTEXT);
    if forall i :: 0 <= i < |s.workers| ==> Buffered(s.workers[i]) <= Granted(s.workers[i]) {
      SumPointwise(s.workers, Buffered, Granted);
    }
  }

  lemma {:induction false} SumPointwise(ws: seq<Worker>, f: Worker -> nat, g: Worker -> nat)
    requires forall i :: 0 <= i < |ws| ==> f(ws[i]) <= g(ws[i])
    ensures Sum(ws, f) <= Sum(ws, g)
  {
    if ws != [] {
      SumPointwise(ws[1..], f, g);
    }
  }

  lemma {:induction false} RunSnoc(s: State, steps: seq<Step>, step: Step)
    requires Legal(s, steps) && Enabled(Run(s, steps), step)
    ensures Legal(s, steps + [step]) && Run(s, steps + [step]) == Apply(Run(s, steps), step)
    decreases |steps|
  {
    if steps == [] {
      assert ([] + [step])[1..] == [];
      assert Legal(Apply(s, step), []);
    } else {
      assert (steps + [step])[1..] == steps[1..] + [step];
      RunSnoc(Apply(s, steps[0]), steps[1..], step);
    }
  }

  lemma ReachableStep(s: State, step: Step)
    requires Reachable(s) && Enabled(s, step)
    ensures Reachable(Apply(s, step))
  {
    hide Enabled, Apply;
    var steps: seq<Step> :| Legal(Init(), steps) && s == Run(Init(), steps);
    RunSnoc(Init(), steps, step);
  }

  /** The worker that holds a buffer of the largest size behind a reservation of nothing. */
  function Unpaid(user: nat): Worker {
    Worker(Admitted(true), user, 0, MAX_PLAINTEXT)
  }

  lemma OneMoreUnpaid(s: State, w: nat, user: nat)
    requires Reachable(s) && w < |s.workers| && s.workers[w].pc.Idle? && s.bytes == 0 && MayAcquire(s.usage, user)
    ensures Reachable(State(0, s.inflight + 1, Acquired(s.usage, user), s.workers[w := Unpaid(user)]))
  {
    hide Acquired, MayAcquire, Reachable;
    var s1 := Apply(s, Enter(w, user, 0, MAX_PLAINTEXT));
    ReachableStep(s, Enter(w, user, 0, MAX_PLAINTEXT));
    var s2 := Apply(s1, AcquireSlot(w));
    ReachableStep(s1, AcquireSlot(w));
    var s3 := Apply(s2, FetchAdd(w));
    ReachableStep(s2, FetchAdd(w));
    var s4 := Apply(s3, Decide(w));
    ReachableStep(s3, Decide(w));
    var s5 := Apply(s4, AllocateBuffer(w));
    ReachableStep(s4, AllocateBuffer(w));
    assert s5.workers == s.workers[w := Unpaid(user)];
  }

  /** That bound is met: with announced sizes of 0 all workers hold a buffer of the largest size at
      once, and the shared counter reads 0. */
  lemma {:induction false} UnpaidBuffers(k: nat) returns (s: State)
    requires k <= WORKERS
    ensures Reachable(s) && s.bytes == 0 && |s.workers| == WORKERS
    ensures forall i :: k <= i < WORKERS ==> s.workers[i].pc.Idle?
    ensures forall u :: u > k ==> u !in s.usage
    ensures |s.usage| <= k
    ensures Sum(s.workers, Buffered) == k * MAX_PLAINTEXT
  {
    hide Reachable, Sum;
    if k == 0 {
      s := Init();
      InitReachable();
      SumNone(s.workers, Buffered);
    } else {
      var before := UnpaidBuffers(k - 1);
      OneMoreUnpaid(before, k - 1, k);
      s := State(0, before.inflight + 1, Acquired(before.usage, k), before.workers[k - 1 := Unpaid(k)]);
      SumUpdate(before.workers, k - 1, Unpaid(k), Buffered);
      assert s.usage.Keys == before.usage.Keys + {k};
    }
  }

  lemma InitReachable()
    ensures Reachable(Init())
  {
    assert Legal(Init(), []) && Run(Init(), []) == Init();
  }

  lemma {:induction false} SumNone(ws: seq<Worker>, f: Worker -> nat)
    requires forall i :: 0 <= i < |ws| ==> f(ws[i]) == 0
    ensures Sum(ws, f) == 0
  {
    if ws != [] {
      SumNone(ws[1..], f);
    }
  }

  /** A worker that takes its steps with nobody between them, up to the decision: the scan is counted,
      its user has one more slot, and it is admitted exactly if its reservation fits in the budget
      beside what is in the counter, in which it then is. */
  lemma UndisturbedScan(s: State, w: nat, user: nat, size: nat, fileSize: nat) returns (s': State)
    requires Reachable(s) && w < |s.workers| && s.workers[w].pc.Idle? && size <= MAX_PLAINTEXT && MayAcquire(s.usage, user)
    ensures Reachable(s')
    ensures var fits := s.bytes + size * RESERVE_MULT <= BUDGET;
      && s'.workers == s.workers[w := Worker(if fits then Admitted(false) else Leaving(false, true), user, size, fileSize)]
      && s'.bytes == s.bytes + (if fits then size * RESERVE_MULT else 0)
      && s'.inflight == s.inflight + 1 && s'.usage == Acquired(s.usage, user)
  {
    hide Acquired, MayAcquire, Reachable;
    var s1 := Apply(s, Enter(w, user, size, fileSize));
    ReachableStep(s, Enter(w, user, size, fileSize));
    var s2 := Apply(s1, AcquireSlot(w));
    ReachableStep(s1, AcquireSlot(w));
    var s3 := Apply(s2, FetchAdd(w));
    ReachableStep(s2, FetchAdd(w));
    s' := Apply(s3, Decide(w));
    ReachableStep(s3, Decide(w));
  }

  /** A scan is shed only if its reservation and those in the counter at that instant exceed
      the budget together; an idle daemon admits any one scan. */
  lemma ShedOnlyOverBudget(s: State, w: nat)
    requires Reachable(s) && Enabled(s, FetchAdd(w))
    ensures var after := Apply(s, FetchAdd(w)).workers[w].pc.after;
      after == Sum(s.workers, Contribution) + s.workers[w].Reserve()
    ensures s.bytes == 0 ==> HoldsReservation(Apply(s, FetchAdd(w)).workers[w])
  {
    ReachableInv(s);
  }

  /** The decision goes by what the counter read at that instant, whatever it reads by now: the scan
      is shed, and its reservation taken back, exactly when that exceeds the budget. */
  lemma DecisionIsByTheRead(s: State, w: nat)
    requires Reachable(s) && Enabled(s, Decide(w))
    ensures var (s', after) := (Apply(s, Decide(w)), s.workers[w].pc.after);
      && (s'.workers[w].pc == Leaving(false, true) <==> after > BUDGET)
      && (s'.workers[w].pc == Admitted(false) <==> after <= BUDGET)
      && Granted(s'.workers[w]) == Granted(s.workers[w])
      && s'.bytes == Sum(s'.workers, Contribution)
      && s'.bytes == s.bytes - if after > BUDGET then s.workers[w].Reserve() else 0
  {
    ReachableInv(s);
    CountersKept(s, Decide(w));
  }

  /** Nothing leaks: with no scan in flight every shared count is back to zero. */
  lemma QuiescentMeansZero(s: State)
    requires Reachable(s)
    ensures s.inflight == 0 <==> forall i :: 0 <= i < |s.workers| ==> s.workers[i].pc.Idle?
    ensures s.inflight == 0 ==> s.bytes == 0 && s.usage == map[]
  {
    ReachableInv(s);
    SumPositive(s.workers, Counted);
    SumPositive(s.workers, Contribution);
    if s.inflight == 0 {
      forall u ensures u !in s.usage {
        SumPositive(s.workers, SlotsOf(u));
      }
      assert s.usage.Keys == {};
    }
  }

  ghost function Holders(ws: seq<Worker>): set<nat> {
    set i | 0 <= i < |ws| :: ws[i].user
  }

  lemma {:induction false} FewHolders(ws: seq<Worker>)
    ensures |Holders(ws)| <= |ws|
  {
    if ws == [] {
      assert Holders(ws) == {};
    } else {
      FewHolders(ws[1..]);
      assert Holders(ws) == Holders(ws[1..]) + {ws[0].user} by {
        assert forall i :: 0 <= i < |ws[1..]| ==> ws[1..][i] == ws[i + 1];
        assert forall i :: 1 <= i < |ws| ==> ws[i] == ws[1..][i - 1];
      }
      assert |Holders(ws[1..]) + {ws[0].user}| <= |Holders(ws[1..])| + 1;
    }
  }

  /** A user is refused a slot only while that same user has two scans in flight: the table
      itself never runs out, because it has more slots than there are workers. */
  lemma RefusedOnlyAtOwnLimit(s: State, w: nat)
    requires Reachable(s) && Enabled(s, AcquireSlot(w))
    ensures forall u :: Held(s.usage, u) == Sum(s.workers, SlotsOf(u)) <= MAX_PER_USER
    ensures |s.usage| <= WORKERS
    ensures Apply(s, AcquireSlot(w)).workers[w].pc.Slotted? <==>
              s.workers[w].user != 0 && Sum(s.workers, SlotsOf(s.workers[w].user)) < MAX_PER_USER
  {
    ReachableInv(s);
    forall u | u in s.usage ensures u in Holders(s.workers) {
      SumPositive(s.workers, SlotsOf(u));
    }
    FewHolders(s.workers);
    SubsetSize(s.usage.Keys, Holders(s.workers));
  }

  lemma SubsetSize(a: set<nat>, b: set<nat>)
    requires a <= b
    ensures |a| <= |b|
  {
    assert b == a + (b - a);
  }
}
