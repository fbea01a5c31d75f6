/** Condition variable built from two counters under a mutex (src/threads/condition.h, threaded case). */
module Condition {
  import opened Runs
  import opened Wrappers

  // ------------------------------------------------------------------------
  // The counters
  // ------------------------------------------------------------------------

  /** `c_waiting` and `c_signaled`. */
  datatype Counters = Counters(waiting: int, signaled: int)

  /** What a thread does after one locked stretch of a wait: return to the caller with the mutex held,
      give the mutex up and come back to test again, or give it up once and then return. */
  datatype Outcome = Return | Park | Yield

  /** `ww_condition_t`: the locked stretches of its functions. `Parked` are the threads that wait inside. */
  class Cond {
    var waiting: int
    var signaled: int
    ghost var Parked: set<Tid>

    function State(): Counters
      reads this
    {
      Counters(waiting, signaled)
    }

    ghost predicate Valid()
      reads this
    {
      waiting == |Parked| && 0 <= signaled
    }

    constructor ()
      ensures Valid() && Parked == {} && signaled == 0
    {
      waiting, signaled, Parked := 0, 0, {};
    }

    /** `ww_condition_wait` up to its first unlock: the thread parks when no wakeup is outstanding, and else
        leaves every wakeup to the parked ones. */
    method WaitEnter(ghost t: Tid) returns (o: Outcome)
      requires Valid() && t !in Parked
      modifies this
      ensures Valid() && signaled == old(signaled)
      ensures o == if old(signaled) == 0 then Park else Yield
      ensures Parked == if o.Park? then old(Parked) + {t} else old(Parked)
      ensures (State(), o) == EnterWait(old(State()))
    {
      waiting := waiting + 1;
      if signaled != 0 {
        waiting := waiting - 1;
        return Yield;
      }
      Parked := Parked + {t};
      return Park;
    }

    /** `ww_condition_wait` each time it has the mutex again: a parked thread leaves with one wakeup, or stays. */
    method WaitRetry(ghost t: Tid) returns (o: Outcome)
      requires Valid() && t in Parked
      modifies this
      ensures Valid() && o == if old(signaled) == 0 then Park else Return
      ensures Parked == if o.Return? then old(Parked) - {t} else old(Parked)
      ensures signaled == if o.Return? then old(signaled) - 1 else 0
      ensures (State(), o) == RetryWait(old(State()))
    {
      if signaled == 0 {
        return Park;
      }
      signaled := signaled - 1;
      waiting := waiting - 1;
      Parked := Parked - {t};
      return Return;
    }

    /** `ww_condition_timedwait` up to its first unlock, or to its end: it takes an outstanding wakeup, or parks. */
    method TimedEnter(ghost t: Tid) returns (o: Outcome)
      requires Valid() && t !in Parked
      modifies this
      ensures Valid() && o == if old(signaled) == 0 then Park else Return
      ensures Parked == if o.Park? then old(Parked) + {t} else old(Parked)
      ensures signaled == if o.Return? then old(signaled) - 1 else 0
      ensures (State(), o) == EnterTimed(old(State()))
    {
      waiting := waiting + 1;
      if signaled == 0 {
        Parked := Parked + {t};
        return Park;
      }
      if signaled != 0 {
        signaled := signaled - 1;
      }
      waiting := waiting - 1;
      return Return;
    }

    /** `ww_condition_timedwait` each time it has the mutex again: it leaves with a wakeup if there is one, and
        without one when its time is up. */
    method TimedRetry(ghost t: Tid, expired: bool) returns (o: Outcome)
      requires Valid() && t in Parked
      modifies this
      ensures Valid() && o == if old(signaled) == 0 && !expired then Park else Return
      ensures Parked == if o.Return? then old(Parked) - {t} else old(Parked)
      ensures signaled == if old(signaled) > 0 then old(signaled) - 1 else 0
      ensures (State(), o) == RetryTimed(old(State()), expired)
    {
      if signaled == 0 && !expired {
        return Park;
      }
      if signaled != 0 {
        signaled := signaled - 1;
      }
      waiting := waiting - 1;
      Parked := Parked - {t};
      return Return;
    }

    /** `ww_condition_signal`: one more wakeup, unless nobody is parked. */
    method Signal()
      requires Valid()
      modifies this
      ensures Valid() && Parked == old(Parked)
      ensures signaled == old(signaled) + if Parked == {} then 0 else 1
      ensures State() == SignalOne(old(State()))
    {
      if waiting != 0 {
        signaled := signaled + 1;
      }
    }

    /** `ww_condition_broadcast`: as many wakeups as there are parked threads, whatever there was before. */
    method Broadcast()
      requires Valid()
      modifies this
      ensures Valid() && Parked == old(Parked) && signaled == |Parked|
      ensures State() == SignalAll(old(State()))
    {
      signaled := waiting;
    }
  }

  function EnterWait(c: Counters): (Counters, Outcome) {
    if c.signaled != 0 then (c, Yield) else (c.(waiting := c.waiting + 1), Park)
  }

  function RetryWait(c: Counters): (Counters, Outcome) {
    if c.signaled == 0 then (c, Park) else (Counters(c.waiting - 1, c.signaled - 1), Return)
  }

  function EnterTimed(c: Counters): (Counters, Outcome) {
    if c.signaled == 0 then (c.(waiting := c.waiting + 1), Park) else (c.(signaled := c.signaled - 1), Return)
  }

  function RetryTimed(c: Counters, expired: bool): (Counters, Outcome) {
    if c.signaled == 0 && !expired then (c, Park)
    else (Counters(c.waiting - 1, if c.signaled != 0 then c.signaled - 1 else 0), Return)
  }

  function SignalOne(c: Counters): Counters {
    if c.waiting != 0 then c.(signaled := c.signaled + 1) else c
  }

  function SignalAll(c: Counters): Counters {
    c.(signaled := c.waiting)
  }

  // ------------------------------------------------------------------------
  // Any number of threads, interleaved at their lock operations
  // ------------------------------------------------------------------------

  /** Where a thread is: outside the wait functions, parked in one of them, or between the unlock and the
      lock of a wait that returns early. */
  datatype Pc = Outside | Parked | TimedParked | Yielding

  datatype State = State(c: Counters, holder: Option<Tid>, pc: map<Tid, Pc>)

  datatype Step =
    | Lock(t: Tid) | Unlock(t: Tid)
    | Wait(t: Tid) | Wake(t: Tid) | Resume(t: Tid)
    | TimedWait(t: Tid) | TimedWake(t: Tid, expired: bool)
    | Signal(t: Tid) | Broadcast(t: Tid)

  /** Calls are made with the mutex held; the other steps begin by taking the free mutex. */
  predicate Enabled(s: State, step: Step) {
    && step.t in s.pc
    && match step
       case Lock(t) => s.holder.None? && s.pc[t].Outside?
       case Wake(t) => s.holder.None? && s.pc[t].Parked?
       case Resume(t) => s.holder.None? && s.pc[t].Yielding?
       case TimedWake(t, _) => s.holder.None? && s.pc[t].TimedParked?
       case _ => s.holder == Some(step.t)
  }

  /** After a locked stretch of a wait: hold the mutex on return, else release it. */
  function Left(s: State, t: Tid, r: (Counters, Outcome), parked: Pc): State {
    match r.1
    case Return => State(r.0, Some(t), s.pc[t := Outside])
    case Park => State(r.0, None, s.pc[t := parked])
    case Yield => State(r.0, None, s.pc[t := Yielding])
  }

  function Next(s: State, step: Step): State {
    match step
    case Lock(t) => s.(holder := Some(t))
    case Unlock(_) => s.(holder := None)
    case Wait(t) => Left(s, t, EnterWait(s.c), Parked)
    case Wake(t) => Left(s, t, RetryWait(s.c), Parked)
    case Resume(t) => s.(holder := Some(t), pc := s.pc[t := Outside])
    case TimedWait(t) => Left(s, t, EnterTimed(s.c), TimedParked)
    case TimedWake(t, expired) => Left(s, t, RetryTimed(s.c, expired), TimedParked)
    case Signal(_) => s.(c := SignalOne(s.c))
    case Broadcast(_) => s.(c := SignalAll(s.c))
  }

  /** The runs and final states of this machine. */
  predicate IsRun(s: State, steps: seq<Step>) {
    Runs.IsRun(Enabled, Next, s, steps)
  }

  function After(s: State, steps: seq<Step>): State {
    Runs.After(Next, s, steps)
  }

  predicate Initial(s: State) {
    s.c == Counters(0, 0) && s.holder.None? && forall t :: t in s.pc ==> s.pc[t].Outside?
  }

  predicate InWait(s: State, t: Tid) {
    t in s.pc && (s.pc[t].Parked? || s.pc[t].TimedParked?)
  }

  function Waiters(s: State): set<Tid> {
    set t | t in s.pc && InWait(s, t)
  }

  // ------------------------------------------------------------------------
  // What every step keeps
  // ------------------------------------------------------------------------

  /** `c_waiting` counts the parked threads, and a thread inside a wait does not hold the mutex. */
  ghost predicate Inv(s: State) {
    && s.c.waiting == |Waiters(s)|
    && 0 <= s.c.signaled
    && (s.holder.Some? ==> s.holder.value in s.pc && s.pc[s.holder.value].Outside?)
  }

  lemma StepKeepsInv(s: State, step: Step)
    requires Inv(s) && Enabled(s, step)
    ensures Inv(Next(s, step))
  {
    var s' := Next(s, step);
    var t := step.t;
    if InWait(s', t) && !InWait(s, t) {
      assert Waiters(s') == Waiters(s) + {t};
    } else if !InWait(s', t) && InWait(s, t) {
      assert Waiters(s') == Waiters(s) - {t};
    } else {
      assert Waiters(s') == Waiters(s);
    }
  }

  /** Who holds the mutex after a step: its thread if and only if it is then outside the wait functions, or no one. An
      unlock only gives the mutex up. No step touches another thread. */
  lemma MutexExactly(s: State, step: Step)
    requires Inv(s) && Enabled(s, step)
    ensures var t, s' := step.t, Next(s, step);
      && t in s'.pc && (s'.holder == Some(t) || s'.holder == None)
      && (!step.Unlock? ==> (s'.holder == Some(t) <==> s'.pc[t].Outside?))
      && (step.Unlock? ==> s' == State(s.c, None, s.pc))
    ensures forall u :: u in s.pc && u != step.t ==> u in Next(s, step).pc && Next(s, step).pc[u] == s.pc[u]
  {
  }

  /** A thread comes out of a wait function only with the mutex, and only in these ways: from a wait with a wakeup, from
      a timed wait with one or with its time up, and from the wait that found wakeups for others, which changes none. */
  lemma LeavesExactly(s: State, step: Step)
    requires Inv(s) && Enabled(s, step) && !s.pc[step.t].Outside?
    ensures var t, s' := step.t, Next(s, step);
      && (s'.pc[t].Outside? <==> step.Resume? || s.c.signaled > 0 || (step.TimedWake? && step.expired))
      && (s'.pc[t].Outside? ==> s'.holder == Some(t))
      && (!s'.pc[t].Outside? ==> s' == s)
      && (step.Resume? ==> s'.c == s.c)
      && (!step.Resume? && s.c.signaled > 0 ==> s'.c == Counters(s.c.waiting - 1, s.c.signaled - 1))
      && (!step.Resume? && s.c.signaled == 0 && s'.pc[t].Outside? ==> s'.c == Counters(s.c.waiting - 1, 0))
  {
  }

  /** Where a call of a wait function leads: without wakeups both park, and give the mutex up; with wakeups a wait
      takes none and gives the mutex up once, and a timed wait takes one and returns with the mutex. */
  lemma EntersExactly(s: State, step: Step)
    requires Inv(s) && Enabled(s, step) && (step.Wait? || step.TimedWait?)
    ensures var t, s' := step.t, Next(s, step);
      if s.c.signaled == 0 then
        s' == State(Counters(s.c.waiting + 1, 0), None, s.pc[t := if step.Wait? then Parked else TimedParked])
      else if step.Wait? then s' == State(s.c, None, s.pc[t := Yielding])
      else s' == State(Counters(s.c.waiting, s.c.signaled - 1), Some(t), s.pc)
  {
  }

  lemma InvIsKept()
    ensures forall s, step :: Inv(s) && Enabled(s, step) ==> Inv(Next(s, step))
  {
    forall s, step | Inv(s) && Enabled(s, step) ensures Inv(Next(s, step)) {
      StepKeepsInv(s, step);
    }
  }

  /** In every run, with signals and timed waits, `c_waiting` is the number of parked threads. */
  lemma RunKeepsInv(s: State, steps: seq<Step>)
    requires Inv(s) && IsRun(s, steps)
    ensures Inv(After(s, steps))
  {
    InvIsKept();
    RunKeeps(Enabled, Next, Inv, s, steps);
  }

  lemma InitialInv(s: State)
    requires Initial(s)
    ensures Inv(s) && Waiters(s) == {}
  {
    assert Waiters(s) == {};
  }

  // ------------------------------------------------------------------------
  // Wait and broadcast
  // ------------------------------------------------------------------------

  /** In every run of waits and broadcasts, `c_signaled` is at every moment zero or equal to `c_waiting`, which
      counts the parked threads. */
  lemma OnlyBroadcasts(s: State, steps: seq<Step>)
    requires Initial(s) && IsRun(s, steps)
    requires forall i :: 0 <= i < |steps| ==> !steps[i].Signal? && !steps[i].TimedWait? && !steps[i].TimedWake?
    ensures forall i :: 0 <= i <= |steps| ==> var x := Before(Next, s, steps, i);
      (x.c.signaled == 0 || x.c.signaled == x.c.waiting) && x.c.waiting == |Waiters(x)|
  {
    var noneOrAll := (x: State) => x.c.signaled == 0 || x.c.signaled == x.c.waiting;
    var waits := (step: Step) => !step.Signal? && !step.TimedWait? && !step.TimedWake?;
    InitialInv(s);
    InvIsKept();
    AlwaysUnlessBad(Enabled, Next, Inv, waits, noneOrAll, (x, step) => false, s, steps);
    AlwaysUnlessBad(Enabled, Next, Inv, waits, Inv, (x, step) => false, s, steps);
    forall i | 0 <= i <= |steps| ensures noneOrAll(Before(Next, s, steps, i)) && Inv(Before(Next, s, steps, i)) {
    }
  }

  // ------------------------------------------------------------------------
  // A broadcast reaches every thread parked at it
  // ------------------------------------------------------------------------

  /** Enough signals for everyone who is parked. */
  predicate AllSignaled(s: State) {
    s.c.waiting <= s.c.signaled
  }

  lemma SomeoneWaits(s: State, t: Tid)
    requires Inv(s) && InWait(s, t)
    ensures 1 <= s.c.waiting
  {
    assert t in Waiters(s);
    assert |Waiters(s) - {t}| == |Waiters(s)| - 1;
  }

  /** A timed wait that takes a signal where there are just enough. */
  predicate Steals(s: State, step: Step) {
    step.TimedWait? && s.c.signaled == s.c.waiting
  }

  /** The steps that leave someone parked without a signal are exactly these: a wait when there are no signals,
      which needs no one to be parked yet, and a timed wait when there are just enough. */
  lemma AllSignaledExactly(s: State, step: Step)
    requires Inv(s) && AllSignaled(s) && Enabled(s, step)
    ensures AllSignaled(Next(s, step)) <==> !((step.Wait? && s.c.signaled == 0) || Steals(s, step))
  {
    if InWait(s, step.t) { SomeoneWaits(s, step.t); }
  }

  /** A retry of thread `t` inside a wait or a timed wait. */
  predicate Retries(step: Step, t: Tid) {
    (step.Wake? || step.TimedWake?) && step.t == t
  }

  lemma ParkedStep(s: State, step: Step, t: Tid)
    requires Inv(s) && InWait(s, t) && !Retries(step, t) && Enabled(s, step)
    ensures Inv(Next(s, step)) && InWait(Next(s, step), t)
    ensures AllSignaled(s) ==> (AllSignaled(Next(s, step)) <==> !Steals(s, step))
  {
    StepKeepsInv(s, step);
    SomeoneWaits(s, t);
    if AllSignaled(s) { AllSignaledExactly(s, step); }
  }

  /** Over a run in which the thread `t`, parked in a wait of either kind, does not retry yet, everyone who is
      parked has a signal at every moment if and only if no timed wait steals one: not the waits that arrive late,
      not the other wakeups, not further signals and broadcasts can do that. */
  lemma SignaledUnlessStolen(s: State, steps: seq<Step>, t: Tid)
    requires Inv(s) && InWait(s, t) && AllSignaled(s) && IsRun(s, steps)
    requires forall i :: 0 <= i < |steps| ==> !Retries(steps[i], t)
    ensures Always(Next, AllSignaled, s, steps) <==> Never(Next, Steals, s, steps)
    ensures Inv(After(s, steps)) && InWait(After(s, steps), t)
  {
    var inv, allowed := (x: State) => Inv(x) && InWait(x, t), (step: Step) => !Retries(step, t);
    forall x, step | inv(x) && allowed(step) && Enabled(x, step)
      ensures inv(Next(x, step)) && (AllSignaled(x) ==> (AllSignaled(Next(x, step)) <==> !Steals(x, step)))
    {
      ParkedStep(x, step, t);
    }
    AlwaysUnlessBad(Enabled, Next, inv, allowed, AllSignaled, Steals, s, steps);
    AlwaysUnlessBad(Enabled, Next, inv, allowed, inv, (x, step) => false, s, steps);
    AlwaysAtEnd(Next, inv, s, steps);
  }

  /** So a parked thread keeps its wakeup, as long as no timed wait steals. */
  lemma WakeupKept(s: State, steps: seq<Step>, t: Tid)
    requires Inv(s) && InWait(s, t) && AllSignaled(s) && IsRun(s, steps) && Never(Next, Steals, s, steps)
    requires forall i :: 0 <= i < |steps| ==> !Retries(steps[i], t)
    ensures Inv(After(s, steps)) && InWait(After(s, steps), t) && After(s, steps).c.signaled > 0
  {
    SignaledUnlessStolen(s, steps, t);
    AlwaysAtEnd(Next, AllSignaled, s, steps);
    SomeoneWaits(After(s, steps), t);
  }

  /** A thread parked at a broadcast, in a wait or a timed wait, returns with a signal at the first retry it makes
      after it. */
  lemma BroadcastWakes(s: State, b: Tid, steps: seq<Step>, t: Tid, retry: Step)
    requires Inv(s) && InWait(s, t)
    requires Enabled(s, Broadcast(b)) && IsRun(Next(s, Broadcast(b)), steps)
    requires Never(Next, Steals, Next(s, Broadcast(b)), steps)
    requires forall i :: 0 <= i < |steps| ==> !Retries(steps[i], t)
    requires Retries(retry, t) && Enabled(After(Next(s, Broadcast(b)), steps), retry)
    ensures var s' := After(Next(s, Broadcast(b)), steps);
      var s'' := Next(s', retry);
      s''.pc[t].Outside? && s''.holder == Some(t) && s''.c.signaled == s'.c.signaled - 1
  {
    StepKeepsInv(s, Broadcast(b));
    WakeupKept(Next(s, Broadcast(b)), steps, t);
  }

  /** Until the signals are used up, only threads parked at the broadcast are parked. */
  lemma {:induction false} NoLateArrival(s: State, steps: seq<Step>, parked: set<Tid>)
    requires Inv(s) && IsRun(s, steps) && Waiters(s) <= parked
    requires Always(Next, (x: State) => x.c.signaled > 0, s, steps)
    ensures Waiters(After(s, steps)) <= parked
    decreases |steps|
  {
    if steps != [] {
      var s' := Next(s, steps[0]);
      StepKeepsInv(s, steps[0]);
      AlwaysTail(Next, (x: State) => x.c.signaled > 0, s, steps);
      assert Waiters(s') <= Waiters(s);
      NoLateArrival(s', steps[1..], parked);
    }
  }

  // ------------------------------------------------------------------------
  // Where the promise fails
  // ------------------------------------------------------------------------

  /** No more signals than parked threads. */
  predicate Within(s: State) {
    s.c.signaled <= s.c.waiting
  }

  /** A signal where every parked thread already has one. */
  predicate Oversignals(s: State, step: Step) {
    step.Signal? && 0 < s.c.waiting == s.c.signaled
  }

  /** Of all steps only such a signal brings more signals than parked threads. */
  lemma StepWithin(s: State, step: Step)
    requires Inv(s) && Within(s) && Enabled(s, step)
    ensures Within(Next(s, step)) <==> !Oversignals(s, step)
  {
    if InWait(s, step.t) { SomeoneWaits(s, step.t); }
  }

  /** Over every run there are never more signals than parked threads if and only if no signal is given where
      every parked thread already has one. */
  lemma WithinUnlessOversignaled(s: State, steps: seq<Step>)
    requires Inv(s) && Within(s) && IsRun(s, steps)
    ensures Always(Next, Within, s, steps) <==> Never(Next, Oversignals, s, steps)
  {
    InvIsKept();
    forall x, step | Inv(x) && Within(x) && Enabled(x, step)
      ensures Within(Next(x, step)) <==> !Oversignals(x, step)
    {
      StepWithin(x, step);
    }
    AlwaysUnlessBad(Enabled, Next, Inv, _ => true, Within, Oversignals, s, steps);
  }

  /** A signal is left over with no one parked. */
  predicate Stale(s: State) {
    s.c.waiting == 0 && s.c.signaled > 0
  }

  /** So a run that keeps to this never leaves a stale signal. */
  lemma NoStaleSignal(s: State, steps: seq<Step>)
    requires Initial(s) && IsRun(s, steps) && Never(Next, Oversignals, s, steps)
    ensures Always(Next, (x: State) => !Stale(x), s, steps)
  {
    InitialInv(s);
    WithinUnlessOversignaled(s, steps);
    forall i | 0 <= i <= |steps| ensures !Stale(Before(Next, s, steps, i)) {
      assert Within(Before(Next, s, steps, i));
    }
  }

  /** Without a broadcast or a timed wait a surplus never goes away: at the end of the run there is none if and only
      if there was none at the start and no such signal was given. */
  lemma {:induction false} SurplusExactly(s: State, steps: seq<Step>)
    requires Inv(s) && IsRun(s, steps) && forall i :: 0 <= i < |steps| ==> !Clears(steps[i])
    ensures Within(After(s, steps)) <==> Within(s) && Never(Next, Oversignals, s, steps)
    decreases |steps|
  {
    if steps != [] {
      var s', rest := Next(s, steps[0]), steps[1..];
      StepKeepsInv(s, steps[0]);
      SurplusStep(s, steps[0]);
      NeverTail(Next, Oversignals, s, steps);
      assert forall i :: 0 <= i < |rest| ==> rest[i] == steps[i + 1];
      SurplusExactly(s', rest);
    }
  }

  lemma SurplusStep(s: State, step: Step)
    requires Inv(s) && Enabled(s, step) && !Clears(step)
    ensures Within(Next(s, step)) <==> Within(s) && !Oversignals(s, step)
  {
    if InWait(s, step.t) { SomeoneWaits(s, step.t); }
  }

  /** So such a run from the start ends with a stale signal exactly when no one is parked and a signal was given
      where every parked thread already had one. */
  lemma StaleExactly(s: State, steps: seq<Step>)
    requires Initial(s) && IsRun(s, steps) && forall i :: 0 <= i < |steps| ==> !Clears(steps[i])
    ensures var s' := After(s, steps); Stale(s') <==> s'.c.waiting == 0 && !Never(Next, Oversignals, s, steps)
  {
    InitialInv(s);
    SurplusExactly(s, steps);
  }

  /** More signals than parked threads become a stale signal: when all that are parked have woken, the surplus
      is left. Each wakeup takes one of both. */
  lemma WakeKeepsSurplus(s: State, t: Tid)
    requires Inv(s) && !Within(s) && Enabled(s, Wake(t))
    ensures var s' := Next(s, Wake(t));
      s'.c.signaled - s'.c.waiting == s.c.signaled - s.c.waiting && s'.c.waiting == s.c.waiting - 1
    ensures s.c.waiting == 1 ==> Stale(Next(s, Wake(t)))
  {
    SomeoneWaits(s, t);
  }

  predicate Clears(step: Step) {
    step.Broadcast? || step.TimedWait?
  }

  lemma StaleStep(s: State, step: Step)
    requires Inv(s) && Stale(s) && Enabled(s, step)
    ensures Next(s, step).c == s.c <==> !Clears(step)
  {
    assert InWait(s, step.t) ==> step.t in Waiters(s);
  }

  /** While a stale signal is left, no thread parks and every signal is dropped. It stays as it is if and only if
      the run has neither a broadcast nor a timed wait. */
  lemma StaleSignalSticks(s: State, steps: seq<Step>)
    requires Inv(s) && Stale(s) && IsRun(s, steps)
    ensures Always(Next, (x: State) => x.c == s.c, s, steps) <==> Never(Next, (x, step) => Clears(step), s, steps)
    ensures Never(Next, (x, step) => Clears(step), s, steps) ==> Waiters(After(s, steps)) == {}
  {
    var same, clears := (x: State) => x.c == s.c, (x: State, step: Step) => Clears(step);
    InvIsKept();
    forall x, step | Inv(x) && same(x) && Enabled(x, step) ensures same(Next(x, step)) <==> !clears(x, step) {
      StaleStep(x, step);
    }
    AlwaysUnlessBad(Enabled, Next, Inv, _ => true, same, clears, s, steps);
    if Always(Next, same, s, steps) {
      AlwaysAtEnd(Next, same, s, steps);
      RunKeepsInv(s, steps);
    }
  }

  // Two threads: thread 0 has parked, and thread 1 holds the mutex.

  const TWO_THREADS := State(Counters(0, 0), None, map[0 := Outside, 1 := Outside])
  const ONE_PARKED := State(Counters(1, 0), Some(1), map[0 := Parked, 1 := Outside])
  const PARKING := [Lock(0), Wait(0), Lock(1)]

  lemma OneStep(s: State, steps: seq<Step>)
    requires steps != [] && Enabled(s, steps[0])
    ensures IsRun(s, steps) == IsRun(Next(s, steps[0]), steps[1..])
    ensures After(s, steps) == After(Next(s, steps[0]), steps[1..])
  {
  }

  lemma ParkingRun()
    ensures Initial(TWO_THREADS) && IsRun(TWO_THREADS, PARKING) && After(TWO_THREADS, PARKING) == ONE_PARKED
  {
    var s0 := TWO_THREADS;
    var s1 := s0.(holder := Some(0));
    var s2 := State(Counters(1, 0), None, map[0 := Parked, 1 := Outside]);
    assert Next(s0, Lock(0)) == s1 && Next(s1, Wait(0)) == s2 && Next(s2, Lock(1)) == ONE_PARKED;
    OneStep(s2, [Lock(1)]);
    OneStep(s1, [Wait(0), Lock(1)]);
    OneStep(s0, [Lock(0), Wait(0), Lock(1)]);
  }

  /** Two signals for one waiting thread leave such a signal behind. */
  lemma StaleSignalReached()
    ensures var steps := PARKING + [Signal(1), Signal(1), Unlock(1), Wake(0)];
      IsRun(TWO_THREADS, steps) && After(TWO_THREADS, steps).c == Counters(0, 1)
  {
    var tail := [Signal(1), Signal(1), Unlock(1), Wake(0)];
    ParkingRun();
    RunAppend(Enabled, Next, TWO_THREADS, PARKING, tail);
    var s4 := ONE_PARKED.(c := Counters(1, 1));
    var s5 := ONE_PARKED.(c := Counters(1, 2));
    var s6 := s5.(holder := None);
    assert Next(ONE_PARKED, Signal(1)) == s4 && Next(s4, Signal(1)) == s5 && Next(s5, Unlock(1)) == s6;
    OneStep(s6, [Wake(0)]);
    OneStep(s5, [Unlock(1), Wake(0)]);
    OneStep(s4, [Signal(1), Unlock(1), Wake(0)]);
    OneStep(ONE_PARKED, tail);
  }

  /** A timed wait that arrives after a broadcast takes the wakeup of a thread parked at it. */
  lemma TimedWaitSteals()
    ensures var steps := PARKING + [Broadcast(1), TimedWait(1), Unlock(1), Wake(0)];
      IsRun(TWO_THREADS, steps) && After(TWO_THREADS, steps).pc == map[0 := Parked, 1 := Outside]
  {
    var tail := [Broadcast(1), TimedWait(1), Unlock(1), Wake(0)];
    ParkingRun();
    RunAppend(Enabled, Next, TWO_THREADS, PARKING, tail);
    var s4 := ONE_PARKED.(c := Counters(1, 1));
    var s6 := ONE_PARKED.(holder := None);
    assert Next(ONE_PARKED, Broadcast(1)) == s4 && Next(s4, TimedWait(1)) == ONE_PARKED;
    assert Next(ONE_PARKED, Unlock(1)) == s6;
    OneStep(s6, [Wake(0)]);
    OneStep(ONE_PARKED, [Unlock(1), Wake(0)]);
    OneStep(s4, [TimedWait(1), Unlock(1), Wake(0)]);
    OneStep(ONE_PARKED, tail);
  }
}
