/** Progress of the spinlocks: calls do what they promise in a fixed number of the caller's own steps, and from
    every reachable state each waiting thread can be brought to hold its lock by unlock calls alone. */
module SpinlockProgress {
  import opened Bytes
  import L = LockDep
  import opened Spinlock

  /** No step of these is thread t's. */
  ghost predicate OthersOnly(steps: seq<Step>, t: nat) {
    forall i :: 0 <= i < |steps| ==> steps[i].thread != t
  }

  lemma ReachableInv(cls: Classes, threads: nat, steps: seq<Step>, s: State)
    requires Reaches(cls, Init(cls, threads), steps, s)
    ensures Inv(cls, s)
  {
    InitInv(cls, threads);
    RunsKeepInv(cls, Init(cls, threads), steps, s);
  }

  lemma {:induction false} ReachesAppend(cls: Classes, s: State, a: seq<Step>, m: State, b: seq<Step>, r: State)
    requires Reaches(cls, s, a, m) && Reaches(cls, m, b, r)
    ensures Reaches(cls, s, a + b, r)
    decreases |a|
  {
    hide Next, Shaped;
    if a == [] {
      assert a + b == b;
    } else {
      assert (a + b)[1..] == a[1..] + b;
      ReachesAppend(cls, Next(cls, s, a[0]), a[1..], m, b, r);
    }
  }

  lemma {:induction false} ReachesSplit(cls: Classes, s: State, a: seq<Step>, b: seq<Step>, r: State) returns (m: State)
    requires Inv(cls, s) && Reaches(cls, s, a + b, r)
    ensures Inv(cls, m) && Reaches(cls, s, a, m) && Reaches(cls, m, b, r)
    decreases |a|
  {
    hide Next, Shaped, Inv;
    if a == [] {
      assert a + b == b;
      m := s;
    } else {
      assert (a + b)[1..] == a[1..] + b;
      StepKeepsInv(cls, s, a[0]);
      m := ReachesSplit(cls, Next(cls, s, a[0]), a[1..], b, r);
    }
  }

  /** Other threads' steps leave a thread as it is. */
  lemma {:induction false} OthersLeave(cls: Classes, s: State, steps: seq<Step>, r: State, t: nat)
    requires Inv(cls, s) && Reaches(cls, s, steps, r) && OthersOnly(steps, t) && t < |s.threads|
    ensures Inv(cls, r) && |r.threads| == |s.threads| && r.threads[t] == s.threads[t]
    decreases |steps|
  {
    hide Inv, Shaped;
    if steps != [] {
      StepKeepsInv(cls, s, steps[0]);
      StepLeaves(cls, s, steps[0], t);
      OthersLeave(cls, Next(cls, s, steps[0]), steps[1..], r, t);
    }
  }

  lemma StepLeaves(cls: Classes, s: State, step: Step, t: nat)
    requires Shaped(cls, s) && step.thread < |s.threads| && step.thread != t < |s.threads|
    ensures |Next(cls, s, step).threads| == |s.threads| && Next(cls, s, step).threads[t] == s.threads[t]
  {
    hide Move;
  }

  /** One step, as a run. */
  lemma OneStep(cls: Classes, s: State, step: Step, r: State)
    requires Reaches(cls, s, [step], r)
    ensures Shaped(cls, s) && step.thread < |s.threads| && r == Next(cls, s, step)
  {
    hide Next, Shaped;
    assert [step][1..] == [];
  }

  lemma OneStepReaches(cls: Classes, s: State, step: Step)
    requires Shaped(cls, s) && step.thread < |s.threads|
    ensures Reaches(cls, s, [step], Next(cls, s, step))
  {
    hide Next, Shaped;
    assert [step][1..] == [];
  }

  // ----- Release -----

  /** The three own steps of an unlock call. */
  lemma UnlockCalled(cls: Classes, s: State, t: nat)
    requires Inv(cls, s) && t < |s.threads| && s.threads[t].pc == Running && s.threads[t].held != []
    ensures var th := s.threads[t]; var n := |th.held| - 1;
            Next(cls, s, Step(t, Unlock)) == State(s.locked, s.threads[t := th.(pc := Opening(th.held[n]))])
  {
    hide L.Before, L.After;
  }

  lemma LockOpened(cls: Classes, s: State, t: nat, c: Call)
    requires Inv(cls, s) && t < |s.threads| && s.threads[t].pc.Opening?
    ensures var th, l := s.threads[t], s.threads[t].pc.l;
            && l < |cls| && th.held != [] && th.held[|th.held| - 1] == l && l !in th.held[..|th.held| - 1]
            && var s' := Next(cls, s, Step(t, c));
               s' == State(s.locked[l := false],
                           s.threads[t := th.(pc := Opened(l), held := th.held[..|th.held| - 1])])
  {
    hide L.Before, L.After, L.Ascending, Lists;
    HeldOnce(cls, s.threads[t]);
  }

  lemma ClassPopped(cls: Classes, s: State, t: nat, c: Call)
    requires Inv(cls, s) && t < |s.threads| && s.threads[t].pc.Opened?
    ensures var th := s.threads[t];
            && th.dep.stack != []
            && Next(cls, s, Step(t, c)) ==
                 State(s.locked, s.threads[t := Thread(Running, th.held,
                                                       L.Held(th.dep.stack[..|th.dep.stack| - 1], th.dep.violations))])
  {
    hide L.Before, L.Ascending;
    var th := s.threads[t];
    assert ThreadOk(cls, th);
    OpenedMoves(cls, s.locked, th, c);
  }

  /** An unlock call takes its last lock out of the thread's hands and opens it with the thread's second step, and
      pops its class with the third, whatever the other threads do in between. */
  lemma ReleaseTakesPlace(cls: Classes, threads: nat, before: seq<Step>, s: State, t: nat, a: seq<Step>, c: Call,
                          s2: State, b: seq<Step>, d: Call, s3: State)
    requires Reaches(cls, Init(cls, threads), before, s)
    requires t < |s.threads| && s.threads[t].pc == Running && s.threads[t].held != []
    requires OthersOnly(a, t) && Reaches(cls, s, [Step(t, Unlock)] + a + [Step(t, c)], s2)
    requires OthersOnly(b, t) && Reaches(cls, s2, b + [Step(t, d)], s3)
    ensures var held, stack := s.threads[t].held, s.threads[t].dep.stack; var n := |held| - 1;
            && held[n] < |s2.locked| && !s2.locked[held[n]] && held[n] !in held[..n]
            && t < |s2.threads| && s2.threads[t].held == held[..n]
            && stack != [] && t < |s3.threads|
            && s3.threads[t] == Thread(Running, held[..n], L.Held(stack[..|stack| - 1], s.threads[t].dep.violations))
  {
    hide *;
    ReachableInv(cls, threads, before, s);
    var s0 := ReachesSplit(cls, s, [Step(t, Unlock)] + a, [Step(t, c)], s2);
    var s1 := ReachesSplit(cls, s, [Step(t, Unlock)], a, s0);
    OneStep(cls, s, Step(t, Unlock), s1);
    UnlockCalled(cls, s, t);
    OthersLeave(cls, s1, a, s0, t);
    OneStep(cls, s0, Step(t, c), s2);
    LockOpened(cls, s0, t, c);
    InvShape(cls, s0);
    StepKeepsInv(cls, s0, Step(t, c));
    var s4 := ReachesSplit(cls, s2, b, [Step(t, d)], s3);
    OthersLeave(cls, s2, b, s4, t);
    OneStep(cls, s4, Step(t, d), s3);
    ClassPopped(cls, s4, t, d);
  }

  lemma InvShape(cls: Classes, s: State)
    requires Inv(cls, s)
    ensures Shaped(cls, s) && |s.locked| == |cls|
  {
  }

  // ----- Acquisition -----

  /** The classes of the held locks lie below this lock's, and the checker has room for it. */
  ghost predicate MayLock(cls: Classes, held: seq<nat>, l: nat)
    requires l < |cls|
  {
    && cls[l] > 0 && |held| < 16
    && forall k :: 0 <= k < |held| ==> held[k] < |cls| && cls[held[k]] < cls[l]
  }

  /** A lock call puts its thread to the gate exactly when the lock's class is nonzero, above all classes held, and
      fewer than sixteen are held; otherwise the thread goes on with what it held. */
  lemma LockIsTried(cls: Classes, threads: nat, before: seq<Step>, s: State, t: nat, l: nat)
    requires Reaches(cls, Init(cls, threads), before, s)
    requires t < |s.threads| && s.threads[t].pc == Running && l < |cls|
    ensures Shaped(cls, s)
    ensures var th, s' := s.threads[t], Next(cls, s, Step(t, Lock(l)));
            && s'.locked == s.locked && s'.threads[t].held == th.held
            && (forall u :: 0 <= u < |s.threads| && u != t ==> s'.threads[u] == s.threads[u])
            && if MayLock(cls, th.held, l)
               then s'.threads[t].pc == Trying(l) && s'.threads[t].dep.stack == th.dep.stack + [cls[l]]
               else s'.threads[t].pc == Running && s'.threads[t].dep.stack == th.dep.stack
  {
    ReachableInv(cls, threads, before, s);
    var th := s.threads[t];
    assert ThreadOk(cls, th);
    L.StackAscends(th.dep, cls[l]);
    assert th.held + [] == th.held;
    hide L.Ascending, L.Accepts, LockedMeansHeld, Exclusive;
  }

  predicate Waits(s: State, t: nat)
    requires t < |s.threads|
  {
    s.threads[t].pc.Trying? || s.threads[t].pc.Spinning?
  }

  /** A thread at the gate of an open lock holds it after its own next step, or its next two if it was spinning. */
  lemma WaiterEnters(cls: Classes, threads: nat, before: seq<Step>, s: State, t: nat, c: Call, d: Call, r: State)
    requires Reaches(cls, Init(cls, threads), before, s)
    requires t < |s.threads| && Waits(s, t) && !Blocked(s, t)
    requires Reaches(cls, s, if s.threads[t].pc.Trying? then [Step(t, c)] else [Step(t, c), Step(t, d)], r)
    ensures var th, l := s.threads[t], s.threads[t].pc.l;
            && l < |s.locked| && r.locked == s.locked[l := true]
            && r.threads == s.threads[t := th.(pc := Running, held := th.held + [l])]
  {
    hide Inv, Blocked, Reaches, Next, Shaped;
    ReachableInv(cls, threads, before, s);
    InvShape(cls, s);
    if s.threads[t].pc.Trying? {
      OneStep(cls, s, Step(t, c), r);
      Enters(cls, s, t, c);
    } else {
      assert [Step(t, c)] + [Step(t, d)] == [Step(t, c), Step(t, d)];
      SpinEnds(cls, s, t, c);
      var m := ReachesSplit(cls, s, [Step(t, c)], [Step(t, d)], r);
      OneStep(cls, s, Step(t, c), m);
      OneStep(cls, m, Step(t, d), r);
      Enters(cls, m, t, d);
    }
  }

  lemma Enters(cls: Classes, s: State, t: nat, c: Call)
    requires Inv(cls, s) && t < |s.threads| && s.threads[t].pc.Trying? && !Blocked(s, t)
    ensures var th, l := s.threads[t], s.threads[t].pc.l;
            && l < |s.locked|
            && Next(cls, s, Step(t, c)) ==
                 State(s.locked[l := true], s.threads[t := th.(pc := Running, held := th.held + [l])])
  {
    hide L.Before, L.After, L.Ascending, Lists, LockedMeansHeld, Exclusive;
  }

  lemma SpinEnds(cls: Classes, s: State, t: nat, c: Call)
    requires Inv(cls, s) && t < |s.threads| && s.threads[t].pc.Spinning? && !Blocked(s, t)
    ensures var th, l, s' := s.threads[t], s.threads[t].pc.l, Next(cls, s, Step(t, c));
            l < |s.locked| && s' == State(s.locked, s.threads[t := th.(pc := Trying(l))]) && !Blocked(s', t)
  {
    hide L.Before, L.After, L.Ascending, Lists, LockedMeansHeld, Exclusive;
  }

  /** A thread at the gate of a taken lock changes nothing but its own place: it falls back to spinning and spins. */
  lemma BlockedSpins(cls: Classes, threads: nat, before: seq<Step>, s: State, t: nat, c: Call)
    requires Reaches(cls, Init(cls, threads), before, s) && t < |s.threads| && Blocked(s, t)
    ensures Shaped(cls, s)
    ensures var th := s.threads[t];
            Next(cls, s, Step(t, c)) == State(s.locked, s.threads[t := th.(pc := Spinning(th.pc.l))])
  {
    ReachableInv(cls, threads, before, s);
    hide L.Before, L.After, L.Ascending, Lists, LockedMeansHeld, Exclusive, ThreadOk;
    var th := s.threads[t];
    assert th.pc.Spinning? ==> th.(pc := Spinning(th.pc.l)) == th;
  }

  // ----- Every waiting thread can be served -----

  /** At least the steps that a thread calling only unlock has left, counting a lock it waits for as one to take
      and release. */
  function WorkOf(th: Thread): nat {
    var n := 4 * |th.held|;
    match th.pc
    case Running => n
    case Trying(_) => n + 5
    case Spinning(_) => n + 6
    case Opening(_) => if n == 0 then 0 else n - 1
    case Opened(_) => n + 1
  }

  function Work(threads: seq<Thread>): nat {
    if threads == [] then 0 else WorkOf(threads[|threads| - 1]) + Work(threads[..|threads| - 1])
  }

  lemma {:induction false} WorkUpdate(threads: seq<Thread>, t: nat, th: Thread)
    requires t < |threads|
    ensures Work(threads[t := th]) == Work(threads) - WorkOf(threads[t]) + WorkOf(th)
    decreases |threads|
  {
    hide WorkOf;
    var n := |threads| - 1;
    if t == n {
      assert threads[t := th][..n] == threads[..n];
    } else {
      assert threads[t := th][..n] == threads[..n][t := th];
      WorkUpdate(threads[..n], t, th);
    }
  }

  predicate Idle(th: Thread) {
    th.pc == Running && th.held == []
  }

  /** Every step of a thread that is neither idle nor blocked, if it calls unlock, leaves less to do. */
  lemma UsefulStep(cls: Classes, s: State, t: nat)
    requires Inv(cls, s) && t < |s.threads| && !Blocked(s, t) && !Idle(s.threads[t])
    ensures Shaped(cls, s) && Work(Next(cls, s, Step(t, Unlock)).threads) < Work(s.threads)
    ensures |Next(cls, s, Step(t, Unlock)).threads| == |s.threads|
  {
    hide Inv, Work, Next;
    InvShape(cls, s);
    var th := s.threads[t];
    match th.pc {
      case Running =>
        UnlockCalled(cls, s, t);
        WorkUpdate(s.threads, t, th.(pc := Opening(th.held[|th.held| - 1])));
      case Trying(l) =>
        Enters(cls, s, t, Unlock);
        WorkUpdate(s.threads, t, th.(pc := Running, held := th.held + [l]));
      case Spinning(l) =>
        SpinEnds(cls, s, t, Unlock);
        WorkUpdate(s.threads, t, th.(pc := Trying(l)));
      case Opening(l) =>
        LockOpened(cls, s, t, Unlock);
        WorkUpdate(s.threads, t, th.(pc := Opened(l), held := th.held[..|th.held| - 1]));
      case Opened(l) =>
        ClassPopped(cls, s, t, Unlock);
        var stack := th.dep.stack;
        WorkUpdate(s.threads, t, Thread(Running, th.held, L.Held(stack[..|stack| - 1], th.dep.violations)));
    }
  }

  /** From every reachable state with a waiting thread some continuation, in which threads call nothing but unlock,
      ends with that thread holding its lock. */
  lemma WaiterGetsItsLock(cls: Classes, threads: nat, before: seq<Step>, s: State, t: nat)
      returns (steps: seq<Step>, r: State)
    requires Reaches(cls, Init(cls, threads), before, s) && t < |s.threads| && Waits(s, t)
    ensures Reaches(cls, s, steps, r) && forall i :: 0 <= i < |steps| ==> steps[i].call == Unlock
    ensures t < |r.threads| && r.threads[t].pc == Running
    ensures r.threads[t].held == s.threads[t].held + [s.threads[t].pc.l]
    ensures |steps| <= Work(s.threads)
  {
    hide Inv, Work, Reaches, Init;
    ReachableInv(cls, threads, before, s);
    steps, r := Served(cls, s, t);
  }

  /** The thread to schedule: t itself if its lock is open, else the free end of its wait-for chain. */
  lemma FreeThread(cls: Classes, s: State, t: nat) returns (u: nat)
    requires Inv(cls, s) && t < |s.threads| && Waits(s, t)
    ensures u < |s.threads| && !Blocked(s, u) && !Idle(s.threads[u])
  {
    hide Inv, Blocked;
    u := t;
    if Blocked(s, t) {
      var l;
      u, l := ChainEnds(cls, s, t);
    }
  }

  /** Thread t's lock after a step of a free thread u: taken by t, or still waited for. */
  lemma StepServes(cls: Classes, s: State, u: nat, t: nat) returns (done: bool)
    requires Inv(cls, s) && u < |s.threads| && t < |s.threads| && Waits(s, t) && !Blocked(s, u)
    ensures Shaped(cls, s)
    ensures var th, th' := s.threads[t], Next(cls, s, Step(u, Unlock)).threads[t];
            if done then th'.pc == Running && th'.held == th.held + [th.pc.l]
            else (th'.pc.Trying? || th'.pc.Spinning?) && th'.pc.l == th.pc.l && th'.held == th.held
  {
    hide Inv, Next, Blocked;
    InvShape(cls, s);
    done := u == t && s.threads[t].pc.Trying?;
    if u != t {
      StepLeaves(cls, s, Step(u, Unlock), t);
    } else if done {
      Enters(cls, s, t, Unlock);
    } else {
      SpinEnds(cls, s, t, Unlock);
    }
  }

  lemma {:induction false} Served(cls: Classes, s: State, t: nat) returns (steps: seq<Step>, r: State)
    requires Inv(cls, s) && t < |s.threads| && Waits(s, t)
    ensures Reaches(cls, s, steps, r) && forall i :: 0 <= i < |steps| ==> steps[i].call == Unlock
    ensures t < |r.threads| && r.threads[t].pc == Running
    ensures r.threads[t].held == s.threads[t].held + [s.threads[t].pc.l]
    ensures |steps| <= Work(s.threads)
    decreases Work(s.threads)
  {
    hide Inv, Work, Reaches, Next, Shaped, Blocked, Idle;
    var u := FreeThread(cls, s, t);
    var step := Step(u, Unlock);
    UsefulStep(cls, s, u);
    StepKeepsInv(cls, s, step);
    OneStepReaches(cls, s, step);
    var s' := Next(cls, s, step);
    var done := StepServes(cls, s, u, t);
    if done {
      return [step], s';
    }
    var rest;
    rest, r := Served(cls, s', t);
    ReachesAppend(cls, s, [step], s', rest, r);
    steps := [step] + rest;
  }

  /** A run in which each step is an unlock call, or the rest of one, by a thread neither blocked nor idle, or the
      entry of a thread whose lock is open. */
  ghost predicate Drains(cls: Classes, s: State, steps: seq<Step>, r: State)
    decreases |steps|
  {
    if steps == [] then r == s
    else
      var u := steps[0].thread;
      && Shaped(cls, s) && steps[0].call == Unlock && u < |s.threads| && !Blocked(s, u) && !Idle(s.threads[u])
      && Drains(cls, Next(cls, s, steps[0]), steps[1..], r)
  }

  lemma {:induction false} DrainShrinks(cls: Classes, s: State, steps: seq<Step>, r: State)
    requires Inv(cls, s) && Drains(cls, s, steps, r)
    ensures Inv(cls, r) && |steps| + Work(r.threads) <= Work(s.threads)
    decreases |steps|
  {
    hide Inv, Work, Next, Blocked, Idle, Shaped;
    if steps != [] {
      assert steps[0] == Step(steps[0].thread, Unlock);
      UsefulStep(cls, s, steps[0].thread);
      StepKeepsInv(cls, s, steps[0]);
      DrainShrinks(cls, Next(cls, s, steps[0]), steps[1..], r);
    }
  }

  /** Unlock calls drain the locks under every schedule: such a run cannot exceed a bound fixed at its start, and
      where no thread can go on every lock is open, nobody waits, and every checker's stack is empty. */
  lemma UnlocksDrain(cls: Classes, threads: nat, before: seq<Step>, s: State, steps: seq<Step>, r: State)
    requires Reaches(cls, Init(cls, threads), before, s) && Drains(cls, s, steps, r)
    ensures |steps| <= Work(s.threads)
    ensures (forall u :: 0 <= u < |r.threads| && !Blocked(r, u) ==> Idle(r.threads[u])) ==>
              && (forall l :: 0 <= l < |r.locked| ==> !r.locked[l])
              && (forall u :: 0 <= u < |r.threads| ==> Idle(r.threads[u]) && r.threads[u].dep.stack == [])
  {
    hide Inv, Blocked, Idle, Work, Drains, Reaches, Init;
    ReachableInv(cls, threads, before, s);
    DrainShrinks(cls, s, steps, r);
    if forall u :: 0 <= u < |r.threads| && !Blocked(r, u) ==> Idle(r.threads[u]) {
      AllIdle(cls, r);
      NobodyHolds(cls, r);
    }
  }

  lemma AllIdle(cls: Classes, s: State)
    requires Inv(cls, s) && forall u :: 0 <= u < |s.threads| && !Blocked(s, u) ==> Idle(s.threads[u])
    ensures forall u :: 0 <= u < |s.threads| ==> Idle(s.threads[u]) && s.threads[u].dep.stack == []
  {
    hide Inv, Blocked, Idle, HeldBy;
    forall u | 0 <= u < |s.threads| ensures Idle(s.threads[u]) && s.threads[u].dep.stack == [] {
      if Blocked(s, u) {
        var v, l := ChainEnds(cls, s, u);
        HolderNotIdle(s, l, v);
        assert false;
      }
      IdleStack(cls, s, u);
    }
  }

  lemma HolderNotIdle(s: State, l: nat, v: nat)
    requires HeldBy(s, l, v)
    ensures v < |s.threads| && !Idle(s.threads[v])
  {
  }

  lemma IdleStack(cls: Classes, s: State, u: nat)
    requires Inv(cls, s) && u < |s.threads| && Idle(s.threads[u])
    ensures s.threads[u].dep.stack == []
  {
    hide L.Ascending, Exclusive, LockedMeansHeld;
    assert ThreadOk(cls, s.threads[u]);
  }

  lemma NobodyHolds(cls: Classes, s: State)
    requires Inv(cls, s) && forall u :: 0 <= u < |s.threads| ==> Idle(s.threads[u])
    ensures forall l :: 0 <= l < |s.locked| ==> !s.locked[l]
  {
    hide ThreadOk, Exclusive;
  }
}
