// The queue of admission.c run by any number of threads, as a transition system.
module QueueProtocol {
  // A step is one critical section.  Each condition variable has a waiting set (the
  // sleeping threads) and a woken set (threads a signal has released, which have not
  // yet taken the mutex again).  A signal wakes at least one sleeper if there is one;
  // a wakeup may also be spurious.

  import opened WorkQueue

  type Tid = nat

  datatype Op = Push(fd: int) | Pop
  datatype Side = Producers | Consumers
  datatype Phase = Running | Asleep | Woken
  datatype Thread = Outside | Inside(op: Op, phase: Phase)

  /** `accepted`, `delivered` and `frozen` are history: every entry let in, every entry
      handed out, and what had been let in when the shutdown flag was raised. */
  datatype State = State(
    queue: seq<int>, shutdown: bool, threads: map<Tid, Thread>,
    accepted: seq<int>, delivered: seq<int>, frozen: seq<int>)

  datatype Step =
    | CallPush(t: Tid, fd: int)
    | CallPop(t: Tid)
    | RunPush(t: Tid, wake: set<Tid>)
    | RunTryPush(t: Tid, fd: int, wake: set<Tid>)
    | RunPop(t: Tid, wake: set<Tid>)
    | RunShutdown(t: Tid)
    | Spurious(t: Tid)

  predicate IsIn(th: Thread, side: Side, phase: Phase) {
    th.Inside? && th.op.Push? == side.Producers? && th.phase == phase
  }

  ghost function Having(th: map<Tid, Thread>, side: Side, phase: Phase): set<Tid> {
    set t | t in th && IsIn(th[t], side, phase)
  }

  predicate CanRun(th: Thread, side: Side) {
    IsIn(th, side, Running) || IsIn(th, side, Woken)
  }

  function Wake(th: Thread): Thread {
    if th.Inside? && th.phase.Asleep? then th.(phase := Woken) else th
  }

  ghost function WakeSet(th: map<Tid, Thread>, wake: set<Tid>): map<Tid, Thread> {
    map t | t in th :: if t in wake then Wake(th[t]) else th[t]
  }

  /** pthread_cond_signal: some sleeper is released whenever there is one. */
  ghost predicate Signals(sleepers: set<Tid>, wake: set<Tid>) {
    wake <= sleepers && (sleepers != {} ==> wake != {})
  }

  ghost predicate Enabled(s: State, step: Step) {
    match step
    case CallPush(t, fd) => t in s.threads && s.threads[t].Outside?
    case CallPop(t) => t in s.threads && s.threads[t].Outside?
    case RunPush(t, wake) =>
      && t in s.threads && CanRun(s.threads[t], Producers)
      && (PushPass(s.queue, s.shutdown).PushAccepted? ==> Signals(Having(s.threads, Consumers, Asleep), wake))
    case RunTryPush(t, fd, wake) =>
      && t in s.threads && s.threads[t].Outside?
      && (PushPass(s.queue, s.shutdown).PushAccepted? ==> Signals(Having(s.threads, Consumers, Asleep), wake))
    case RunPop(t, wake) =>
      && t in s.threads && CanRun(s.threads[t], Consumers)
      && (PopPass(s.queue, s.shutdown).Popped? ==> Signals(Having(s.threads, Producers, Asleep), wake))
    case RunShutdown(t) => t in s.threads && s.threads[t].Outside?
    case Spurious(t) => t in Having(s.threads, Producers, Asleep) + Having(s.threads, Consumers, Asleep)
  }

  ghost function Accept(s: State, t: Tid, fd: int, wake: set<Tid>): State
    requires t in s.threads
  {
    s.(queue := s.queue + [fd], accepted := s.accepted + [fd],
       threads := WakeSet(s.threads, wake)[t := Outside])
  }

  ghost function Deliver(s: State, t: Tid, wake: set<Tid>): State
    requires t in s.threads && s.queue != []
  {
    s.(queue := s.queue[1..], delivered := s.delivered + [s.queue[0]],
       threads := WakeSet(s.threads, wake)[t := Outside])
  }

  ghost function Apply(s: State, step: Step): State
    requires Enabled(s, step)
  {
    match step
    case CallPush(t, fd) => s.(threads := s.threads[t := Inside(Push(fd), Running)])
    case CallPop(t) => s.(threads := s.threads[t := Inside(Pop, Running)])
    case RunPush(t, wake) =>
      (match PushPass(s.queue, s.shutdown)
        case PushMustWait => s.(threads := s.threads[t := s.threads[t].(phase := Asleep)])
        case PushRefused => s.(threads := s.threads[t := Outside])
        case PushAccepted => Accept(s, t, s.threads[t].op.fd, wake))
    case RunTryPush(t, fd, wake) =>
      if PushPass(s.queue, s.shutdown).PushAccepted? then Accept(s, t, fd, wake) else s
    case RunPop(t, wake) =>
      (match PopPass(s.queue, s.shutdown)
        case PopMustWait => s.(threads := s.threads[t := s.threads[t].(phase := Asleep)])
        case PopDrained => s.(threads := s.threads[t := Outside])
        case Popped(_) => Deliver(s, t, wake))
    case RunShutdown(t) =>
      s.(shutdown := true, frozen := if s.shutdown then s.frozen else s.accepted,
         threads := WakeSet(s.threads, s.threads.Keys))
    case Spurious(t) => s.(threads := WakeSet(s.threads, {t}))
  }

  function Init(threads: set<Tid>): State {
    State([], false, map t | t in threads :: Outside, [], [], [])
  }

  ghost predicate Legal(s: State, steps: seq<Step>)
    decreases |steps|
  {
    steps == [] || (Enabled(s, steps[0]) && Legal(Apply(s, steps[0]), steps[1..]))
  }

  /** The state after a whole run. */
  ghost function Run(s: State, steps: seq<Step>): State
    requires Legal(s, steps)
    decreases |steps|
  {
    if steps == [] then s else Run(Apply(s, steps[0]), steps[1..])
  }

  ghost predicate Reachable(s: State) {
    exists threads: set<Tid>, steps: seq<Step> ::
      Legal(Init(threads), steps) && s == Run(Init(threads), steps)
  }

  // ---------------------------------------------------------------------------
  // What every step keeps

  /** While one side has sleepers, at least `n` of its threads are already released. */
  ghost predicate Covered(th: map<Tid, Thread>, side: Side, n: int) {
    Having(th, side, Asleep) != {} ==> n <= |Having(th, side, Woken)|
  }

  ghost predicate Inv(s: State) {
    && |s.queue| <= CAPACITY
    && s.accepted == s.delivered + s.queue
    && Covered(s.threads, Consumers, |s.queue|)
    && Covered(s.threads, Producers, CAPACITY - |s.queue|)
    && (s.shutdown ==> Having(s.threads, Consumers, Asleep) == {} && Having(s.threads, Producers, Asleep) == {})
    && (s.shutdown ==> s.accepted == s.frozen)
  }

  lemma WakeEffect(th: map<Tid, Thread>, wake: set<Tid>, side: Side)
    ensures Having(WakeSet(th, wake), side, Asleep) == Having(th, side, Asleep) - wake
    ensures |Having(WakeSet(th, wake), side, Woken)|
         == |Having(th, side, Woken)| + |Having(th, side, Asleep) * wake|
  {
    var asleep, woken := Having(th, side, Asleep), Having(th, side, Woken);
    assert Having(WakeSet(th, wake), side, Woken) == woken + asleep * wake;
    assert woken !! asleep * wake;
  }

  /** Moving one thread changes each of the sets by that thread alone. */
  lemma MoveEffect(th: map<Tid, Thread>, t: Tid, x: Thread, side: Side, phase: Phase)
    requires t in th
    ensures Having(th[t := x], side, phase)
         == Having(th, side, phase) - {t} + (if IsIn(x, side, phase) then {t} else {})
    ensures |Having(th[t := x], side, phase)|
         == |Having(th, side, phase)| - (if IsIn(th[t], side, phase) then 1 else 0)
            + (if IsIn(x, side, phase) then 1 else 0)
  {
    var before, after := Having(th, side, phase), Having(th[t := x], side, phase);
    assert after == before - {t} + (if IsIn(x, side, phase) then {t} else {});
    assert t in before <==> IsIn(th[t], side, phase);
    assert |before - {t}| == |before| - (if t in before then 1 else 0);
  }

  /** One side of the queue after `wake` is released and thread `t`, awake, becomes `x`, not woken:
      who sleeps there, and how many are woken. */
  lemma SleepersAfter(th: map<Tid, Thread>, wake: set<Tid>, t: Tid, x: Thread, side: Side)
    requires t in th && !IsIn(th[t], side, Asleep)
    ensures Having(WakeSet(th, wake)[t := x], side, Asleep)
         == Having(th, side, Asleep) - wake + (if IsIn(x, side, Asleep) then {t} else {})
  {
  }

  lemma WokenAfter(th: map<Tid, Thread>, wake: set<Tid>, t: Tid, x: Thread, side: Side)
    requires t in th && !IsIn(th[t], side, Asleep) && !IsIn(x, side, Woken)
    ensures |Having(WakeSet(th, wake)[t := x], side, Woken)|
         == |Having(th, side, Woken)| + |Having(th, side, Asleep) * wake|
            - (if IsIn(th[t], side, Woken) then 1 else 0)
  {
    var mid := WakeSet(th, wake);
    WakeEffect(th, wake, side);
    MoveEffect(mid, t, x, side, Woken);
    assert IsIn(mid[t], side, Woken) == IsIn(th[t], side, Woken);
  }

  /** The signalled side: one more released thread, or nobody left asleep. */
  lemma CoverSignalled(th: map<Tid, Thread>, wake: set<Tid>, t: Tid, side: Side, n: int)
    requires t in th && !IsIn(th[t], side, Asleep) && !IsIn(th[t], side, Woken)
    requires Signals(Having(th, side, Asleep), wake) && Covered(th, side, n)
    ensures Covered(WakeSet(th, wake)[t := Outside], side, n + 1)
  {
    SleepersAfter(th, wake, t, Outside, side);
    WokenAfter(th, wake, t, Outside, side);
    assert Having(th, side, Asleep) * wake == wake;
  }

  /** The signaller's own side: it may have been one of the released threads. */
  lemma CoverSignaller(th: map<Tid, Thread>, wake: set<Tid>, t: Tid, side: Side, n: int)
    requires t in th && !IsIn(th[t], side, Asleep)
    requires wake !! Having(th, side, Asleep) && Covered(th, side, n)
    ensures Covered(WakeSet(th, wake)[t := Outside], side, n - 1)
  {
    SleepersAfter(th, wake, t, Outside, side);
    WokenAfter(th, wake, t, Outside, side);
  }

  lemma AcceptKeepsInv(s: State, t: Tid, fd: int, wake: set<Tid>)
    requires Inv(s) && t in s.threads && PushPass(s.queue, s.shutdown).PushAccepted?
    requires s.threads[t].Outside? || CanRun(s.threads[t], Producers)
    requires Signals(Having(s.threads, Consumers, Asleep), wake)
    ensures Inv(Accept(s, t, fd, wake))
  {
    CoverSignalled(s.threads, wake, t, Consumers, |s.queue|);
    CoverSignaller(s.threads, wake, t, Producers, CAPACITY - |s.queue|);
  }

  lemma DeliverKeepsInv(s: State, t: Tid, wake: set<Tid>)
    requires Inv(s) && t in s.threads && s.queue != []
    requires CanRun(s.threads[t], Consumers)
    requires Signals(Having(s.threads, Producers, Asleep), wake)
    ensures Inv(Deliver(s, t, wake))
  {
    CoverSignalled(s.threads, wake, t, Producers, CAPACITY - |s.queue|);
    CoverSignaller(s.threads, wake, t, Consumers, |s.queue|);
    assert s.queue == [s.queue[0]] + s.queue[1..];
    if s.shutdown {
      SleepersAfter(s.threads, wake, t, Outside, Producers);
      SleepersAfter(s.threads, wake, t, Outside, Consumers);
    }
  }

  lemma CoverMoved(th: map<Tid, Thread>, t: Tid, x: Thread, side: Side, n: int)
    requires t in th && !IsIn(th[t], side, Asleep) && !IsIn(x, side, Woken) && Covered(th, side, n)
    requires IsIn(x, side, Asleep) ==> n <= 0
    requires IsIn(th[t], side, Woken) ==> n <= 0 || Having(th, side, Asleep) == {}
    ensures Covered(th[t := x], side, n)
  {
    MoveEffect(th, t, x, side, Asleep);
    MoveEffect(th, t, x, side, Woken);
  }

  /** A step that touches one awake thread and not the queue: it calls, leaves or falls asleep. */
  lemma MoveKeepsInv(s: State, t: Tid, x: Thread)
    requires Inv(s) && t in s.threads && !(s.threads[t].Inside? && s.threads[t].phase.Asleep?)
    requires !(x.Inside? && x.phase.Woken?)
    requires x.Inside? && x.phase.Asleep? ==>
               !s.shutdown && (if x.op.Push? then |s.queue| == CAPACITY else s.queue == [])
    requires s.threads[t].Inside? && s.threads[t].phase.Woken? ==>
               s.shutdown || (x.Inside? && x.phase.Asleep? && x.op == s.threads[t].op)
    ensures Inv(s.(threads := s.threads[t := x]))
  {
    CoverMoved(s.threads, t, x, Consumers, |s.queue|);
    CoverMoved(s.threads, t, x, Producers, CAPACITY - |s.queue|);
    if s.shutdown {
      MoveEffect(s.threads, t, x, Consumers, Asleep);
      MoveEffect(s.threads, t, x, Producers, Asleep);
    }
  }

  lemma WakeKeepsInv(s: State, wake: set<Tid>)
    requires Inv(s)
    ensures Inv(s.(threads := WakeSet(s.threads, wake)))
  {
    WakeEffect(s.threads, wake, Consumers);
    WakeEffect(s.threads, wake, Producers);
  }

  lemma StepKeepsInv(s: State, step: Step)
    requires Inv(s) && Enabled(s, step)
    ensures Inv(Apply(s, step))
  {
    match step
    case CallPush(t, fd) => MoveKeepsInv(s, t, Inside(Push(fd), Running));
    case CallPop(t) => MoveKeepsInv(s, t, Inside(Pop, Running));
    case RunPush(t, wake) =>
      match PushPass(s.queue, s.shutdown) {
        case PushMustWait => MoveKeepsInv(s, t, s.threads[t].(phase := Asleep));
        case PushRefused => MoveKeepsInv(s, t, Outside);
        case PushAccepted => AcceptKeepsInv(s, t, s.threads[t].op.fd, wake);
      }
    case RunTryPush(t, fd, wake) =>
      if PushPass(s.queue, s.shutdown).PushAccepted? {
        AcceptKeepsInv(s, t, fd, wake);
      }
    case RunPop(t, wake) =>
      match PopPass(s.queue, s.shutdown) {
        case PopMustWait => MoveKeepsInv(s, t, s.threads[t].(phase := Asleep));
        case PopDrained => MoveKeepsInv(s, t, Outside);
        case Popped(fd) => DeliverKeepsInv(s, t, wake);
      }
    case RunShutdown(t) =>
      WakeKeepsInv(s, s.threads.Keys);
      WakeEffect(s.threads, s.threads.Keys, Producers);
      WakeEffect(s.threads, s.threads.Keys, Consumers);
    case Spurious(t) => WakeKeepsInv(s, {t});
  }

  lemma {:induction false} RunKeepsInv(s: State, steps: seq<Step>)
    requires Inv(s) && Legal(s, steps)
    ensures Inv(Run(s, steps))
    decreases |steps|
  {
    if steps != [] {
      StepKeepsInv(s, steps[0]);
      RunKeepsInv(Apply(s, steps[0]), steps[1..]);
    }
  }

  lemma ReachableInv(s: State)
    requires Reachable(s)
    ensures Inv(s)
  {
    var threads: set<Tid>, steps: seq<Step> :|
      Legal(Init(threads), steps) && s == Run(Init(threads), steps);
    assert Inv(Init(threads)) by {
      assert Having(Init(threads).threads, Consumers, Asleep) == {};
      assert Having(Init(threads).threads, Producers, Asleep) == {};
    }
    RunKeepsInv(Init(threads), steps);
  }

  // ---------------------------------------------------------------------------
  // The theorems

  /** No lost wakeup.  Entries never wait on sleeping consumers alone: for each of them a
      consumer is already released, and its next pass takes one.  Free room likewise. */
  lemma NoLostWakeup(s: State)
    requires Reachable(s)
    ensures Having(s.threads, Consumers, Asleep) != {} ==> |s.queue| <= |Having(s.threads, Consumers, Woken)|
    ensures Having(s.threads, Producers, Asleep) != {} ==> CAPACITY - |s.queue| <= |Having(s.threads, Producers, Woken)|
    ensures s.queue != [] && Having(s.threads, Consumers, Asleep) != {} ==>
              exists t, wake :: Enabled(s, RunPop(t, wake))
                             && Apply(s, RunPop(t, wake)).delivered == s.delivered + [s.queue[0]]
    ensures |s.queue| < CAPACITY && Having(s.threads, Producers, Asleep) != {} ==>
              exists t, wake :: Enabled(s, RunPush(t, wake))
                             && Apply(s, RunPush(t, wake)).accepted == s.accepted + [s.threads[t].op.fd]
  {
    ReachableInv(s);
    if s.queue != [] && Having(s.threads, Consumers, Asleep) != {} {
      var t :| t in Having(s.threads, Consumers, Woken);
      assert Enabled(s, RunPop(t, Having(s.threads, Producers, Asleep)));
    }
    if |s.queue| < CAPACITY && Having(s.threads, Producers, Asleep) != {} {
      var t :| t in Having(s.threads, Producers, Woken);
      assert Enabled(s, RunPush(t, Having(s.threads, Consumers, Asleep)));
    }
  }

  /** Once shutdown is raised no thread is asleep, none falls asleep again, nothing more is
      let in, and whoever is inside an operation leaves it at its next pass. */
  lemma ShutdownReleasesEveryone(s: State, step: Step)
    requires Reachable(s) && s.shutdown && Enabled(s, step)
    ensures Having(s.threads, Consumers, Asleep) == {} && Having(s.threads, Producers, Asleep) == {}
    ensures Apply(s, step).shutdown && Apply(s, step).accepted == s.accepted
    ensures step.RunPush? || step.RunPop? ==> Apply(s, step).threads[step.t] == Outside
    ensures Having(Apply(s, step).threads, Consumers, Asleep) == {} && Having(Apply(s, step).threads, Producers, Asleep) == {}
  {
    ReachableInv(s);
    StepKeepsInv(s, step);
  }

  /** First in, first out, nothing lost: what has been handed out is a prefix of what was let
      in, and a pop reports the end only when everything let in has been handed out. */
  lemma FifoDelivery(s: State)
    requires Reachable(s)
    ensures s.delivered <= s.accepted && s.accepted == s.delivered + s.queue
    ensures |s.accepted| - |s.delivered| <= CAPACITY
    ensures PopPass(s.queue, s.shutdown).PopDrained? ==> s.delivered == s.accepted == s.frozen
  {
    ReachableInv(s);
  }
}
