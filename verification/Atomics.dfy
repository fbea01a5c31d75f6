/** Read-then-compare-and-set loops and the spinlock built on them (src/sys/atomic_impl.h), as steps of any
    number of threads on one shared word. */
module Atomics {
  import opened Runs

  // ------------------------------------------------------------------------
  // The word
  // ------------------------------------------------------------------------

  const TWO31 := 0x8000_0000
  const TWO32 := 0x1_0000_0000

  /** A 32-bit two's-complement word. */
  type int32 = x: int | -0x8000_0000 <= x < 0x8000_0000

  /** The word congruent to `x` modulo 2^32. */
  function Wrap32(x: int): (r: int32)
    ensures (r - x) % TWO32 == 0
  {
    var m := x % TWO32;
    if m < TWO31 then m else m - TWO32
  }

  /** Words that are congruent are equal. */
  lemma WrapUnique(x: int, y: int)
    requires (x - y) % TWO32 == 0
    ensures Wrap32(x) == Wrap32(y)
  {
    assert x % TWO32 == y % TWO32;
  }

  datatype Op = Add(delta: int) | Sub(delta: int) | Swap(newval: int32)

  /** The value an operation writes over `oldval`. */
  function NewValue(op: Op, oldval: int32): int32 {
    match op
    case Add(d) => Wrap32(oldval + d)
    case Sub(d) => Wrap32(oldval - d)
    case Swap(v) => v
  }

  /** What the operation returns: swap the old value, add and sub the new one. */
  function Returned(op: Op, oldval: int32): int32 {
    if op.Swap? then oldval else NewValue(op, oldval)
  }

  // ------------------------------------------------------------------------
  // Threads
  // ------------------------------------------------------------------------

  /** Inside an operation a thread is about to read, or has read and is about to compare and set. */
  datatype Pc = Idle | Reading(op: Op) | Read(op: Op, oldval: int32)

  /** One completed operation and what it returned. */
  datatype Event = Event(t: Tid, op: Op, result: int32)

  /** `done` is the history of completed operations; `seen[t]` says how long it was when `t` last read. */
  datatype State = State(word: int32, pc: map<Tid, Pc>, done: seq<Event>, seen: map<Tid, nat>)

  datatype Step = Call(t: Tid, op: Op) | Load(t: Tid) | CompareSet(t: Tid)

  predicate Enabled(s: State, step: Step) {
    && step.t in s.pc
    && match step
       case Call(t, _) => s.pc[t].Idle?
       case Load(t) => s.pc[t].Reading?
       case CompareSet(t) => s.pc[t].Read?
  }

  function Next(s: State, step: Step): State {
    if !Enabled(s, step) then s
    else match step
    case Call(t, op) => s.(pc := s.pc[t := Reading(op)])
    case Load(t) => s.(pc := s.pc[t := Read(s.pc[t].op, s.word)], seen := s.seen[t := |s.done|])
    case CompareSet(t) =>
      var Read(op, oldval) := s.pc[t];
      if s.word == oldval then
        State(NewValue(op, oldval), s.pc[t := Idle], s.done + [Event(t, op, Returned(op, oldval))], s.seen)
      else
        s.(pc := s.pc[t := Reading(op)])
  }

  /** The runs and final states of this machine. */
  predicate IsRun(s: State, steps: seq<Step>) {
    Runs.IsRun(Enabled, Next, s, steps)
  }

  function After(s: State, steps: seq<Step>): State {
    Runs.After(Next, s, steps)
  }

  // ------------------------------------------------------------------------
  // One linear order explains every run
  // ------------------------------------------------------------------------

  /** The word after a history, run one operation at a time from `init`. */
  function Replay(init: int32, done: seq<Event>): int32 {
    if done == [] then init else NewValue(done[|done| - 1].op, Replay(init, done[..|done| - 1]))
  }

  /** Every operation returned what it returns in that sequential run. */
  ghost predicate Explained(init: int32, done: seq<Event>) {
    forall i :: 0 <= i < |done| ==> done[i].result == Returned(done[i].op, Replay(init, done[..i]))
  }

  ghost predicate Inv(init: int32, s: State) {
    && s.word == Replay(init, s.done) && Explained(init, s.done)
    && forall t :: t in s.pc && s.pc[t].Read? ==> FreshRead(s, t)
  }

  /** Only other threads' operations completed since `t` read, and if none did, the word is what it read. */
  ghost predicate FreshRead(s: State, t: Tid)
    requires t in s.pc && s.pc[t].Read?
  {
    && t in s.seen && s.seen[t] <= |s.done|
    && (s.seen[t] == |s.done| ==> s.word == s.pc[t].oldval)
    && forall i :: s.seen[t] <= i < |s.done| ==> s.done[i].t != t
  }

  lemma FreshReadKept(s: State, step: Step, t: Tid)
    requires Enabled(s, step) && t in s.pc && Next(s, step).pc[t].Read?
    requires s.pc[t].Read? ==> FreshRead(s, t)
    ensures FreshRead(Next(s, step), t)
  {
  }

  lemma StepKeepsInv(init: int32, s: State, step: Step)
    requires Inv(init, s) && Enabled(s, step)
    ensures Inv(init, Next(s, step))
  {
    var s' := Next(s, step);
    forall t | t in s'.pc && s'.pc[t].Read? ensures FreshRead(s', t) {
      FreshReadKept(s, step, t);
    }
    if s'.done != s.done {
      var e := Event(step.t, s.pc[step.t].op, Returned(s.pc[step.t].op, s.word));
      ExplainedAppend(init, s.done, e);
    }
  }

  lemma ExplainedAppend(init: int32, done: seq<Event>, e: Event)
    requires Explained(init, done) && e.result == Returned(e.op, Replay(init, done))
    ensures Explained(init, done + [e])
    ensures Replay(init, done + [e]) == NewValue(e.op, Replay(init, done))
  {
    var all := done + [e];
    assert all[..|all| - 1] == done;
    forall i | 0 <= i < |all| ensures all[i].result == Returned(all[i].op, Replay(init, all[..i])) {
      if i < |done| {
        assert all[..i] == done[..i];
      } else {
        assert all[..i] == done;
      }
    }
  }

  lemma RunKeepsInv(init: int32, s: State, steps: seq<Step>)
    requires Inv(init, s) && IsRun(s, steps)
    ensures Inv(init, After(s, steps))
  {
    var inv := (x: State) => Inv(init, x);
    forall x, step | inv(x) && Enabled(x, step) ensures inv(Next(x, step)) {
      StepKeepsInv(init, x, step);
    }
    RunKeeps(Enabled, Next, inv, s, steps);
  }

  predicate Initial(s: State) {
    s.done == [] && forall t :: t in s.pc ==> s.pc[t].Idle?
  }

  /** A compare-and-set completes its operation exactly when the word still is what the thread read, so whenever no
      other operation completed since then; otherwise word and history stay and the thread reads again. */
  lemma CompletesExactly(s0: State, steps: seq<Step>, t: Tid)
    requires Initial(s0) && IsRun(s0, steps) && Enabled(After(s0, steps), CompareSet(t))
    ensures var s := After(s0, steps);
      var s' := Next(s, CompareSet(t));
      && (s.word == s.pc[t].oldval <==> s' == State(s'.word, s.pc[t := Idle], s'.done, s.seen))
      && (s.word == s.pc[t].oldval <==> exists r :: s'.done == s.done + [Event(t, s.pc[t].op, r)])
      && (s.word != s.pc[t].oldval <==> s' == s.(pc := s.pc[t := Reading(s.pc[t].op)]))
      && t in s.seen && (s.seen[t] == |s.done| ==> s.word == s.pc[t].oldval)
  {
    RunKeepsInv(s0.word, s0, steps);
    var s := After(s0, steps);
    var s' := Next(s, CompareSet(t));
    if s.word == s.pc[t].oldval {
      assert s'.done == s.done + [Event(t, s.pc[t].op, Returned(s.pc[t].op, s.word))];
    }
    assert s.pc[t := Idle][t] != s.pc[t := Reading(s.pc[t].op)][t];
  }

  /** A thread that nobody disturbs completes its operation in three steps: a swap writes its value and returns the
      old one, an add or a sub changes the word by its delta modulo 2^32 and returns the new one. */
  lemma Undisturbed(s: State, t: Tid, op: Op)
    requires t in s.pc && s.pc[t].Idle?
    ensures var steps := [Call(t, op), Load(t), CompareSet(t)];
      var s' := After(s, steps);
      && IsRun(s, steps) && |s'.done| == |s.done| + 1 && s'.done[..|s.done|] == s.done && s'.pc == s.pc
      && s'.done[|s.done|].t == t && s'.done[|s.done|].op == op
      && var result := s'.done[|s.done|].result;
         match op
         case Swap(v) => s'.word == v && result == s.word
         case Add(d) => s'.word == result && (result - s.word - d) % TWO32 == 0
         case Sub(d) => s'.word == result && (result - s.word + d) % TWO32 == 0
  {
    var s1 := s.(pc := s.pc[t := Reading(op)]);
    var s2 := s.(pc := s.pc[t := Read(op, s.word)], seen := s.seen[t := |s.done|]);
    assert Next(s, Call(t, op)) == s1 && Next(s1, Load(t)) == s2;
    OneStep(s2, [CompareSet(t)]);
    OneStep(s1, [Load(t), CompareSet(t)]);
    OneStep(s, [Call(t, op), Load(t), CompareSet(t)]);
  }

  // Two threads at a word that holds 0: one adds 1, and while it does the other swaps 5 in. The compare-and-set of the
  // first fails and its second one completes, on the value of the second thread.

  const TWO_THREADS := State(0, map[0 := Idle, 1 := Idle], [], map[])
  const BOTH_READ := State(0, map[0 := Read(Add(1), 0), 1 := Read(Swap(5), 0)], [], map[0 := 0, 1 := 0])
  const READING := [Call(0, Add(1)), Load(0), Call(1, Swap(5)), Load(1)]

  lemma ReadingRun()
    ensures Initial(TWO_THREADS) && IsRun(TWO_THREADS, READING) && After(TWO_THREADS, READING) == BOTH_READ
  {
    var s0 := TWO_THREADS;
    var s1 := s0.(pc := map[0 := Reading(Add(1)), 1 := Idle]);
    var s2 := s0.(pc := map[0 := Read(Add(1), 0), 1 := Idle], seen := map[0 := 0]);
    var s3 := s2.(pc := map[0 := Read(Add(1), 0), 1 := Reading(Swap(5))]);
    assert Next(s0, Call(0, Add(1))) == s1 && Next(s1, Load(0)) == s2 && Next(s2, Call(1, Swap(5))) == s3;
    assert Next(s3, Load(1)) == BOTH_READ;
    OneStep(s3, [Load(1)]);
    OneStep(s2, [Call(1, Swap(5)), Load(1)]);
    OneStep(s1, [Load(0), Call(1, Swap(5)), Load(1)]);
    OneStep(s0, READING);
  }

  lemma Interference()
    ensures var steps := READING + [CompareSet(1), CompareSet(0), Load(0), CompareSet(0)];
      && IsRun(TWO_THREADS, steps) && After(TWO_THREADS, steps).word == 6
      && After(TWO_THREADS, steps).done == [Event(1, Swap(5), 0), Event(0, Add(1), 6)]
  {
    var rest := [CompareSet(1), CompareSet(0), Load(0), CompareSet(0)];
    ReadingRun();
    RunAppend(Enabled, Next, TWO_THREADS, READING, rest);
    var s5 := State(5, map[0 := Read(Add(1), 0), 1 := Idle], [Event(1, Swap(5), 0)], BOTH_READ.seen);
    var s6 := s5.(pc := map[0 := Reading(Add(1)), 1 := Idle]);
    var s7 := s5.(pc := map[0 := Read(Add(1), 5), 1 := Idle], seen := map[0 := 1, 1 := 0]);
    assert Next(BOTH_READ, CompareSet(1)) == s5 && Next(s5, CompareSet(0)) == s6 && Next(s6, Load(0)) == s7;
    OneStep(s7, [CompareSet(0)]);
    OneStep(s6, [Load(0), CompareSet(0)]);
    OneStep(s5, [CompareSet(0), Load(0), CompareSet(0)]);
    OneStep(BOTH_READ, rest);
  }

  lemma OneStep(s: State, steps: seq<Step>)
    requires steps != [] && Enabled(s, steps[0])
    ensures IsRun(s, steps) == IsRun(Next(s, steps[0]), steps[1..])
    ensures After(s, steps) == After(Next(s, steps[0]), steps[1..])
  {
  }

  /** Linearizability: in every interleaving the completed operations, in the order of their successful
      compare-and-sets, are a sequential run that leaves the same word and returned the same values. */
  lemma Linearizable(s: State, steps: seq<Step>)
    requires Initial(s) && IsRun(s, steps)
    ensures var s' := After(s, steps); s'.word == Replay(s.word, s'.done) && Explained(s.word, s'.done)
  {
    RunKeepsInv(s.word, s, steps);
  }

  /** A compare-and-set fails only because another thread's operation completed since the load. */
  lemma FailureMeansProgress(s0: State, steps: seq<Step>, t: Tid)
    requires Initial(s0) && IsRun(s0, steps)
    requires var s := After(s0, steps); Enabled(s, CompareSet(t)) && s.word != s.pc[t].oldval
    ensures var s := After(s0, steps);
      t in s.seen && s.seen[t] < |s.done| && forall i :: s.seen[t] <= i < |s.done| ==> s.done[i].t != t
  {
    RunKeepsInv(s0.word, s0, steps);
  }

  function Delta(e: Event): int {
    match e.op
    case Add(d) => d
    case Sub(d) => -d
    case Swap(_) => 0
  }

  function TotalDelta(done: seq<Event>): int {
    if done == [] then 0 else TotalDelta(done[..|done| - 1]) + Delta(done[|done| - 1])
  }

  ghost predicate NoSwaps(done: seq<Event>) {
    forall i :: 0 <= i < |done| ==> !done[i].op.Swap?
  }

  /** `Replay` of a history put together from two. */
  lemma {:induction false} ReplayAppend(init: int32, a: seq<Event>, b: seq<Event>)
    ensures Replay(init, a + b) == Replay(Replay(init, a), b)
  {
    if b == [] {
      assert a + b == a;
    } else {
      assert (a + b)[..|a + b| - 1] == a + b[..|b| - 1];
      ReplayAppend(init, a, b[..|b| - 1]);
    }
  }

  lemma {:induction false} ReplaySums(init: int32, done: seq<Event>)
    requires NoSwaps(done)
    ensures Replay(init, done) == Wrap32(init + TotalDelta(done))
  {
    if done != [] {
      var front, e := done[..|done| - 1], done[|done| - 1];
      ReplaySums(init, front);
      var x := init + TotalDelta(front);
      WrapUnique(Wrap32(x) + Delta(e), x + Delta(e));
    } else {
      WrapUnique(init, init);
    }
  }

  /** Where the counting starts in a history: behind its last swap, or at its beginning. */
  ghost predicate StartsAt(done: seq<Event>, start: nat) {
    && start <= |done| && NoSwaps(done[start..])
    && (start > 0 ==> done[start - 1].op.Swap?)
  }

  /** The value it starts from: what that swap wrote, or the initial one. */
  function StartValue(init: int32, done: seq<Event>, start: nat): int32
    requires start <= |done| && (start > 0 ==> done[start - 1].op.Swap?)
  {
    if start == 0 then init else done[start - 1].op.newval
  }

  /** The value of the last swap, or the initial one, plus the deltas since then modulo 2^32. */
  lemma ReplayFrom(init: int32, done: seq<Event>, start: nat)
    requires StartsAt(done, start)
    ensures Replay(init, done) == Wrap32(StartValue(init, done, start) + TotalDelta(done[start..]))
  {
    var front := done[..start];
    assert done == front + done[start..];
    assert start > 0 ==> front[|front| - 1] == done[start - 1];
    ReplayAppend(init, front, done[start..]);
    ReplaySums(Replay(init, front), done[start..]);
  }

  lemma ResultIsTotal(init: int32, done: seq<Event>, i: nat, start: nat)
    requires start <= i < |done| && StartsAt(done[..i], start)
    requires done[i].result == Returned(done[i].op, Replay(init, done[..i]))
    ensures done[i].result == Wrap32(StartValue(init, done, start) + TotalDelta(done[start..i]) + Delta(done[i]))
  {
    assert done[..i][start..] == done[start..i];
    assert start > 0 ==> done[..i][start - 1] == done[start - 1];
    ReplayFrom(init, done[..i], start);
    var x := StartValue(init, done, start) + TotalDelta(done[start..i]);
    WrapUnique(Wrap32(x) + Delta(done[i]), x + Delta(done[i]));
  }

  /** Over every run the word is the value of the last swap, or the initial one, plus all deltas since then modulo
      2^32. */
  lemma RunningTotals(s: State, steps: seq<Step>, start: nat)
    requires Initial(s) && IsRun(s, steps) && StartsAt(After(s, steps).done, start)
    ensures var s' := After(s, steps);
      s'.word == Wrap32(StartValue(s.word, s'.done, start) + TotalDelta(s'.done[start..]))
  {
    Linearizable(s, steps);
    ReplayFrom(s.word, After(s, steps).done, start);
  }

  /** And every result is that total at its place in the order: a swap returns the one before it, an add or a sub the
      one with its own delta. */
  lemma ResultTotals(s: State, steps: seq<Step>, i: nat, start: nat)
    requires Initial(s) && IsRun(s, steps)
    requires start <= i < |After(s, steps).done| && StartsAt(After(s, steps).done[..i], start)
    ensures var done := After(s, steps).done;
      done[i].result == Wrap32(StartValue(s.word, done, start) + TotalDelta(done[start..i]) + Delta(done[i]))
  {
    Linearizable(s, steps);
    ResultIsTotal(s.word, After(s, steps).done, i, start);
  }

  /** Every history has exactly one such place. */
  lemma {:induction false} StartOf(done: seq<Event>) returns (start: nat)
    ensures StartsAt(done, start)
    ensures forall other: nat :: StartsAt(done, other) ==> other == start
  {
    if done == [] || done[|done| - 1].op.Swap? {
      start := |done|;
    } else {
      var front := done[..|done| - 1];
      start := StartOf(front);
      forall i | 0 <= i < |done| - start ensures !done[start..][i].op.Swap? {
        if i < |front| - start { assert done[start..][i] == front[start..][i]; }
      }
    }
  }
}

/** The spinlock: a compare-and-set to take it, a plain store to release it. */
module Spinlock {
  import opened Runs

  /** In `lock` a thread tries, then spins while the word reads locked, then tries again. */
  datatype Pc = Outside | Trying | Spinning | Holding

  datatype State = State(locked: bool, pc: map<Tid, Pc>)

  datatype Step =
    | CallLock(t: Tid)     // enter `ww_atomic_lock`
    | TryCas(t: Tid)       // its compare-and-set
    | Spin(t: Tid)         // one read of the inner loop
    | Trylock(t: Tid)      // all of `ww_atomic_trylock`
    | Unlock(t: Tid)       // `ww_atomic_unlock`, by the holder

  predicate Enabled(s: State, step: Step) {
    && step.t in s.pc
    && match step
       case CallLock(t) => s.pc[t].Outside?
       case TryCas(t) => s.pc[t].Trying?
       case Spin(t) => s.pc[t].Spinning?
       case Trylock(t) => s.pc[t].Outside?
       case Unlock(t) => s.pc[t].Holding?
  }

  function Next(s: State, step: Step): State {
    match step
    case CallLock(t) => s.(pc := s.pc[t := Trying])
    case TryCas(t) => if s.locked then s.(pc := s.pc[t := Spinning]) else State(true, s.pc[t := Holding])
    case Spin(t) => if s.locked then s else s.(pc := s.pc[t := Trying])
    case Trylock(t) => if s.locked then s else State(true, s.pc[t := Holding])
    case Unlock(t) => State(false, s.pc[t := Outside])
  }

  /** What `ww_atomic_trylock` returns: 0 when the lock was taken, 1 when it was not. */
  function TrylockResult(s: State): int {
    if s.locked then 1 else 0
  }

  function Holders(s: State): set<Tid> {
    set t | t in s.pc && s.pc[t].Holding?
  }

  ghost predicate Inv(s: State) {
    && (forall t, u :: t in Holders(s) && u in Holders(s) ==> t == u)
    && (s.locked <==> Holders(s) != {})
  }

  /** A step changes who holds the lock by its own thread only. */
  lemma HoldersAfter(s: State, step: Step)
    requires Enabled(s, step)
    ensures var s', t := Next(s, step), step.t;
      Holders(s') == if t in s'.pc && s'.pc[t].Holding? then Holders(s) + {t} else Holders(s) - {t}
  {
  }

  lemma StepKeepsInv(s: State, step: Step)
    requires Inv(s) && Enabled(s, step)
    ensures Inv(Next(s, step))
  {
    HoldersAfter(s, step);
    assert step.t in Holders(s) <==> s.pc[step.t].Holding?;
    assert !s.locked ==> Holders(s) == {};
  }

  /** The runs and final states of this machine. */
  predicate IsRun(s: State, steps: seq<Step>) {
    Runs.IsRun(Enabled, Next, s, steps)
  }

  function After(s: State, steps: seq<Step>): State {
    Runs.After(Next, s, steps)
  }

  predicate Initial(s: State) {
    !s.locked && forall t :: t in s.pc ==> s.pc[t].Outside?
  }

  lemma RunKeepsInv(s: State, steps: seq<Step>)
    requires Inv(s) && IsRun(s, steps)
    ensures Inv(After(s, steps))
  {
    forall x, step | Inv(x) && Enabled(x, step) ensures Inv(Next(x, step)) {
      StepKeepsInv(x, step);
    }
    RunKeeps(Enabled, Next, Inv, s, steps);
  }

  /** Exactly what every step does to the holder. A lock or a trylock takes the lock if and only if no one holds it,
      a trylock returns 0 exactly then, and otherwise it changes nothing. Only an unlock, by the holder, frees it. */
  lemma HolderExactly(s: State, step: Step)
    requires Inv(s) && Enabled(s, step)
    ensures var t, s' := step.t, Next(s, step);
      match step
      case TryCas(_) =>
        && (t in Holders(s') <==> Holders(s) == {})
        && Holders(s') == (if Holders(s) == {} then {t} else Holders(s))
        && (Holders(s) != {} ==> s'.pc == s.pc[t := Spinning])
      case Trylock(_) =>
        && (TrylockResult(s) == 0 <==> Holders(s) == {}) && (TrylockResult(s) != 0 <==> TrylockResult(s) == 1)
        && (t in Holders(s') <==> TrylockResult(s) == 0)
        && Holders(s') == (if Holders(s) == {} then {t} else Holders(s))
        && (Holders(s) != {} ==> s' == s)
      case Unlock(_) => Holders(s) == {t} && Holders(s') == {} && s'.pc[t].Outside?
      case CallLock(_) => Holders(s') == Holders(s) && s'.pc[t].Trying?
      case Spin(_) => Holders(s') == Holders(s) && (s'.pc[t].Trying? <==> Holders(s) == {})
    ensures forall u :: u in s.pc && u != step.t ==> u in Next(s, step).pc && Next(s, step).pc[u] == s.pc[u]
  {
    HoldersAfter(s, step);
    assert step.t in Holders(s) <==> s.pc[step.t].Holding?;
  }

  /** Until the holder unlocks, it stays the only one and every trylock returns 1: between two that return 0 lies
      an unlock of the first one's thread. */
  lemma {:induction false} HeldUntilUnlock(s: State, steps: seq<Step>, t: Tid)
    requires Inv(s) && IsRun(s, steps) && t in Holders(s)
    requires forall i :: 0 <= i < |steps| ==> steps[i] != Unlock(t)
    ensures Always(Next, (x: State) => Inv(x) && Holders(x) == {t} && TrylockResult(x) == 1, s, steps)
    decreases |steps|
  {
    var held := (x: State) => Inv(x) && Holders(x) == {t} && TrylockResult(x) == 1;
    assert Holders(s) == {t};
    if steps == [] {
      assert steps[..0] == [] && Before(Next, s, steps, 0) == s;
    } else {
      StepKeepsInv(s, steps[0]);
      HolderExactly(s, steps[0]);
      assert forall i :: 0 <= i < |steps[1..]| ==> steps[1..][i] == steps[i + 1];
      HeldUntilUnlock(Next(s, steps[0]), steps[1..], t);
      AlwaysTail(Next, held, s, steps);
    }
  }

  /** In every run the lock has at most one holder, and the word reads locked exactly when it has one; so a
      trylock returns 0 exactly when nobody held the lock. */
  lemma MutualExclusion(s: State, steps: seq<Step>)
    requires Initial(s) && IsRun(s, steps)
    ensures var s' := After(s, steps);
      && |Holders(s')| <= 1
      && (s'.locked <==> |Holders(s')| == 1)
      && (TrylockResult(s') == 0 <==> Holders(s') == {})
  {
    assert Holders(s) == {};
    RunKeepsInv(s, steps);
    var h := Holders(After(s, steps));
    if h != {} {
      var t :| t in h;
      assert h == {t};
    }
  }

  // Two threads: while one holds the lock the other tries, spins, and gets it after the unlock.

  const TWO_THREADS := State(false, map[0 := Outside, 1 := Outside])
  const ONE_SPINS := State(true, map[0 := Holding, 1 := Spinning])
  const SPINNING := [Trylock(0), CallLock(1), TryCas(1)]

  lemma SpinningRun()
    ensures Initial(TWO_THREADS) && IsRun(TWO_THREADS, SPINNING) && After(TWO_THREADS, SPINNING) == ONE_SPINS
  {
    var s1 := State(true, map[0 := Holding, 1 := Outside]);
    var s2 := State(true, map[0 := Holding, 1 := Trying]);
    assert Next(TWO_THREADS, Trylock(0)) == s1 && Next(s1, CallLock(1)) == s2 && Next(s2, TryCas(1)) == ONE_SPINS;
    OneStep(s2, [TryCas(1)]);
    OneStep(s1, [CallLock(1), TryCas(1)]);
    OneStep(TWO_THREADS, SPINNING);
  }

  lemma HandOver()
    ensures var steps := SPINNING + [Spin(1), Unlock(0), Spin(1), TryCas(1)];
      IsRun(TWO_THREADS, steps) && After(TWO_THREADS, steps) == State(true, map[0 := Outside, 1 := Holding])
  {
    var rest := [Spin(1), Unlock(0), Spin(1), TryCas(1)];
    SpinningRun();
    RunAppend(Enabled, Next, TWO_THREADS, SPINNING, rest);
    var s4 := State(false, map[0 := Outside, 1 := Spinning]);
    var s5 := State(false, map[0 := Outside, 1 := Trying]);
    assert Next(ONE_SPINS, Spin(1)) == ONE_SPINS && Next(ONE_SPINS, Unlock(0)) == s4 && Next(s4, Spin(1)) == s5;
    assert Next(s5, TryCas(1)) == State(true, map[0 := Outside, 1 := Holding]);
    OneStep(s5, [TryCas(1)]);
    OneStep(s4, [Spin(1), TryCas(1)]);
    OneStep(ONE_SPINS, [Unlock(0), Spin(1), TryCas(1)]);
    OneStep(ONE_SPINS, rest);
  }

  lemma OneStep(s: State, steps: seq<Step>)
    requires steps != [] && Enabled(s, steps[0])
    ensures IsRun(s, steps) == IsRun(Next(s, steps[0]), steps[1..])
    ensures After(s, steps) == After(Next(s, steps[0]), steps[1..])
  {
  }
}
