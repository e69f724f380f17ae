/** The owner-tracking mutex, one step per atomic access, any number of threads.  Thread t passes t + 1
    as its owner id, so ids are distinct and nonzero. */
module Mutex {

  datatype Rc = Ok | Busy | Perm | DeadLock

  /** Where a thread stands.  Won, In, Asking, Clearing and Opening are the states of the holder. */
  datatype Place =
    | Out                // does not hold the mutex, in no call
    | Refused            // lost the exchange, about to load the owner
    | Won                // won the exchange, about to store the owner
    | In                 // holds the mutex, in no call
    | Asking             // holds the mutex, lost the exchange against itself, about to load the owner
    | Clearing           // unlocking: found itself as owner, about to clear it
    | Opening            // unlocking: owner cleared, about to store locked = 0

  datatype State = State(locked: bool, owner: nat, place: seq<Place>)

  /** The next atomic access of a thread; the choice only matters between calls. */
  datatype Call = TryLock | Unlock

  datatype Step = Step(thread: nat, call: Call)

  datatype Answer = Pending | Done(call: Call, rc: Rc)

  function Id(t: nat): nat {
    t + 1
  }

  /** One atomic access by thread t: the new state and, when the call returns, its result. */
  function Next(s: State, step: Step): (r: (State, Answer))
    requires step.thread < |s.place|
    ensures |r.0.place| == |s.place|
  {
    var t := step.thread;
    match s.place[t]
    case Out =>
      if step.call.TryLock? then
        // compare-exchange locked 0 -> 1
        if !s.locked then (s.(locked := true, place := s.place[t := Won]), Pending)
        else (s.(place := s.place[t := Refused]), Pending)
      else
        // load owner
        if s.owner != Id(t) then (s, Done(Unlock, Perm)) else (s.(place := s.place[t := Clearing]), Pending)
    case In =>
      if step.call.TryLock? then
        if !s.locked then (s.(locked := true, place := s.place[t := Won]), Pending)
        else (s.(place := s.place[t := Asking]), Pending)
      else
        if s.owner != Id(t) then (s, Done(Unlock, Perm)) else (s.(place := s.place[t := Clearing]), Pending)
    case Refused =>
      (s.(place := s.place[t := Out]), Done(TryLock, if s.owner == Id(t) then DeadLock else Busy))
    case Asking =>
      (s.(place := s.place[t := In]), Done(TryLock, if s.owner == Id(t) then DeadLock else Busy))
    case Won =>
      (s.(owner := Id(t), place := s.place[t := In]), Done(TryLock, Ok))
    case Clearing =>
      (s.(owner := 0, place := s.place[t := Opening]), Pending)
    case Opening =>
      (s.(locked := false, place := s.place[t := Out]), Done(Unlock, Ok))
  }

  function Init(threads: nat): State {
    State(false, 0, seq(threads, _ => Out))
  }

  ghost predicate Legal(s: State, steps: seq<Step>) {
    forall i :: 0 <= i < |steps| ==> steps[i].thread < |s.place|
  }

  function Run(s: State, steps: seq<Step>): (r: State)
    requires Legal(s, steps)
    ensures |r.place| == |s.place|
    decreases |steps|
  {
    if steps == [] then s else Run(Next(s, steps[0]).0, steps[1..])
  }

  /** A run takes its steps one after the other. */
  lemma {:induction false} RunSnoc(s: State, steps: seq<Step>, step: Step)
    requires Legal(s, steps + [step])
    ensures Legal(s, steps) && step.thread < |s.place| && Run(s, steps + [step]) == Next(Run(s, steps), step).0
    decreases |steps|
  {
    var all := steps + [step];
    assert forall i :: 0 <= i < |steps| ==> steps[i] == all[i];
    assert all[|steps|] == step;
    if steps == [] {
      assert all[1..] == [];
    } else {
      assert all[1..] == steps[1..] + [step];
      RunSnoc(Next(s, steps[0]).0, steps[1..], step);
    }
  }

  /** Between the winning exchange and the store that opens the mutex again. */
  predicate Holds(p: Place) {
    p.Won? || p.In? || p.Asking? || p.Clearing? || p.Opening?
  }

  predicate OwnerIsSet(p: Place) {
    p.In? || p.Asking? || p.Clearing?
  }

  ghost predicate Inv(s: State) {
    && (forall t, u :: 0 <= t < |s.place| && 0 <= u < |s.place| && Holds(s.place[t]) && Holds(s.place[u]) ==> t == u)
    && (s.locked <==> exists t :: 0 <= t < |s.place| && Holds(s.place[t]))
    && (forall t :: 0 <= t < |s.place| ==> (s.owner == Id(t) <==> OwnerIsSet(s.place[t])))
    && s.owner <= |s.place|
  }

  lemma StepKeepsInv(s: State, step: Step)
    requires step.thread < |s.place| && Inv(s)
    ensures Inv(Next(s, step).0)
  {
    var t, s' := step.thread, Next(s, step).0;
    assert forall u :: 0 <= u < |s.place| && u != t ==> s'.place[u] == s.place[u];
    if s.locked {
      var h :| 0 <= h < |s.place| && Holds(s.place[h]);
      if h != t {
        assert Holds(s'.place[h]);
      }
    }
    if Holds(s'.place[t]) {
      assert s'.locked;
    }
  }

  /** Over every interleaving: at most one holder, and the mutex reads locked exactly while there is one. */
  lemma {:induction false} RunsKeepInv(s: State, steps: seq<Step>)
    requires Legal(s, steps) && Inv(s)
    ensures Inv(Run(s, steps))
    decreases |steps|
  {
    if steps != [] {
      StepKeepsInv(s, steps[0]);
      RunsKeepInv(Next(s, steps[0]).0, steps[1..]);
    }
  }

  lemma MutualExclusion(threads: nat, steps: seq<Step>, t: nat, u: nat)
    requires Legal(Init(threads), steps) && t < threads && u < threads
    ensures var s := Run(Init(threads), steps);
            && (Holds(s.place[t]) && Holds(s.place[u]) ==> t == u)
            && (s.locked <==> exists v :: 0 <= v < threads && Holds(s.place[v]))
  {
    RunsKeepInv(Init(threads), steps);
  }

  /** The answer of one access is right: EDEADLK goes to the holder and only to it, EBUSY and EPERM go to
      others only, and an unlock by anyone but the holder changes nothing. */
  ghost predicate AnswerIsRight(s: State, step: Step)
    requires step.thread < |s.place|
  {
    var p, (s', a) := s.place[step.thread], Next(s, step);
    && (a == Done(TryLock, DeadLock) ==> Holds(p) && s'.place[step.thread] == In)
    && (a == Done(TryLock, Busy) ==> !Holds(p))
    && (p.Asking? ==> a == Done(TryLock, DeadLock)) && (p.Refused? ==> a == Done(TryLock, Busy))
    && (a == Done(Unlock, Perm) <==> p.Out? && step.call.Unlock?) && (a == Done(Unlock, Perm) ==> s' == s)
    && (a == Done(TryLock, Ok) ==> s'.owner == Id(step.thread) && s'.place[step.thread] == In)
    && (a == Done(Unlock, Ok) ==> !s'.locked && s'.owner == 0 && forall u :: 0 <= u < |s.place| ==> !Holds(s'.place[u]))
  }

  lemma InvMakesAnswersRight(s: State, step: Step)
    requires step.thread < |s.place| && Inv(s)
    ensures AnswerIsRight(s, step)
  {
    StepKeepsInv(s, step);
    if s.owner != 0 {
      assert s.owner == Id(s.owner - 1);
    }
  }

  lemma AnswersAreRight(threads: nat, steps: seq<Step>, step: Step)
    requires Legal(Init(threads), steps) && step.thread < threads
    ensures AnswerIsRight(Run(Init(threads), steps), step)
  {
    RunsKeepInv(Init(threads), steps);
    InvMakesAnswersRight(Run(Init(threads), steps), step);
  }

  // ----- Whole calls -----

  /** No step of these is thread t's. */
  ghost predicate OthersOnly(steps: seq<Step>, t: nat) {
    forall i :: 0 <= i < |steps| ==> steps[i].thread != t
  }

  lemma {:induction false} OthersLeave(s: State, steps: seq<Step>, t: nat)
    requires Legal(s, steps) && Inv(s) && OthersOnly(steps, t) && t < |s.place|
    ensures Inv(Run(s, steps)) && Run(s, steps).place[t] == s.place[t]
    decreases |steps|
  {
    hide Inv;
    if steps != [] {
      StepKeepsInv(s, steps[0]);
      StepLeaves(s, steps[0], t);
      OthersLeave(Next(s, steps[0]).0, steps[1..], t);
    }
  }

  lemma StepLeaves(s: State, step: Step, t: nat)
    requires step.thread < |s.place| && step.thread != t < |s.place|
    ensures Next(s, step).0.place[t] == s.place[t]
  {
  }

  ghost predicate SomeoneHolds(s: State) {
    exists u :: 0 <= u < |s.place| && Holds(s.place[u])
  }

  /** A whole try-lock from any reachable state, with any steps of other threads between its two accesses: it answers
      Ok exactly when nobody held the mutex at its exchange, and then the caller owns it; EDEADLK when the caller
      itself held it; EBUSY when someone else did. */
  lemma TryLockAnswers(threads: nat, steps: seq<Step>, t: nat, mid: seq<Step>, c: Call)
    requires Legal(Init(threads), steps) && t < threads && Legal(Init(threads), mid) && OthersOnly(mid, t)
    requires Run(Init(threads), steps).place[t] in {Out, In}
    ensures var s := Run(Init(threads), steps);
            var s1 := Next(s, Step(t, TryLock));
            var s2 := Next(Run(s1.0, mid), Step(t, c));
            && s1.1 == Pending
            && s2.1 == Done(TryLock, if !SomeoneHolds(s) then Ok else if s.place[t] == In then DeadLock else Busy)
            && s2.0.place[t] == (if SomeoneHolds(s) then s.place[t] else In)
            && (!SomeoneHolds(s) ==> s2.0.locked && s2.0.owner == t + 1)
  {
    RunsKeepInv(Init(threads), steps);
    var s := Run(Init(threads), steps);
    var s1 := Next(s, Step(t, TryLock)).0;
    Exchange(s, t);
    StepKeepsInv(s, Step(t, TryLock));
    OthersLeave(s1, mid, t);
    TryLockEnds(Run(s1, mid), Step(t, c));
  }

  lemma Exchange(s: State, t: nat)
    requires Inv(s) && t < |s.place| && s.place[t] in {Out, In}
    ensures var r := Next(s, Step(t, TryLock));
            && r.1 == Pending
            && r.0.place[t] == if !SomeoneHolds(s) then Won else if s.place[t] == In then Asking else Refused
  {
    if s.place[t] == In {
      assert Holds(s.place[t]);
    }
  }

  lemma TryLockEnds(s: State, step: Step)
    requires Inv(s) && step.thread < |s.place| && s.place[step.thread] in {Won, Asking, Refused}
    ensures var p, r := s.place[step.thread], Next(s, step);
            && r.1 == Done(TryLock, if p == Won then Ok else if p == Asking then DeadLock else Busy)
            && r.0.place[step.thread] == (if p == Refused then Out else In)
            && (p == Won ==> r.0.locked && r.0.owner == step.thread + 1)
  {
    InvMakesAnswersRight(s, step);
    if s.place[step.thread] == Won {
      assert Holds(s.place[step.thread]);
    }
  }

  /** A whole unlock by the holder from any reachable state, with any steps of other threads between its three
      accesses: it answers Ok with the third, and then nobody holds the mutex. */
  lemma UnlockAnswers(threads: nat, steps: seq<Step>, t: nat, a: seq<Step>, b: seq<Step>, c: Call, d: Call)
    requires Legal(Init(threads), steps) && t < threads && Run(Init(threads), steps).place[t] == In
    requires Legal(Init(threads), a) && OthersOnly(a, t) && Legal(Init(threads), b) && OthersOnly(b, t)
    ensures var s1 := Next(Run(Init(threads), steps), Step(t, Unlock));
            var s2 := Next(Run(s1.0, a), Step(t, c));
            var s3 := Next(Run(s2.0, b), Step(t, d));
            && s1.1 == s2.1 == Pending && s3.1 == Done(Unlock, Ok)
            && s3.0.place[t] == Out && !s3.0.locked && s3.0.owner == 0 && !SomeoneHolds(s3.0)
  {
    RunsKeepInv(Init(threads), steps);
    var s := Run(Init(threads), steps);
    UnlockStarts(s, t);
    var s1 := Next(s, Step(t, Unlock)).0;
    StepKeepsInv(s, Step(t, Unlock));
    OthersLeave(s1, a, t);
    var m := Run(s1, a);
    var s2 := Next(m, Step(t, c)).0;
    StepKeepsInv(m, Step(t, c));
    OthersLeave(s2, b, t);
    InvMakesAnswersRight(Run(s2, b), Step(t, d));
  }

  /** The owner word names the thread inside. */
  lemma UnlockStarts(s: State, t: nat)
    requires Inv(s) && t < |s.place| && s.place[t] == In
    ensures Next(s, Step(t, Unlock)) == (s.(place := s.place[t := Clearing]), Pending)
  {
    assert OwnerIsSet(s.place[t]);
  }

  /** The same access named twice, at the end of a run. */
  lemma Twice(s: State, steps: seq<Step>, x: Step)
    requires Legal(s, steps + [x, x])
    ensures Legal(s, steps) && x.thread < |s.place|
    ensures Run(s, steps + [x, x]) == Next(Next(Run(s, steps), x).0, x).0
  {
    hide Next, Run;
    assert steps + [x] + [x] == steps + [x, x];
    RunSnoc(s, steps + [x], x);
    RunSnoc(s, steps, x);
  }

  /** A try-lock of a free mutex and one of a mutex that another thread is in, then that thread's unlock. */
  lemma TakeIt(s: State, t: nat)
    requires t < |s.place| && s.place[t] == Out && !s.locked
    ensures Next(Next(s, Step(t, TryLock)).0, Step(t, TryLock)).0 == State(true, t + 1, s.place[t := In])
  {
    assert s.place[t := Won][t := In] == s.place[t := In];
  }

  lemma MissIt(s: State, u: nat)
    requires u < |s.place| && s.place[u] == Out && s.locked
    ensures Next(Next(s, Step(u, TryLock)).0, Step(u, TryLock)).0 == s
  {
    assert s.place[u := Refused][u := Out] == s.place;
  }

  lemma LeaveIt(s: State, t: nat)
    requires t < |s.place| && s.place[t] == In && s.owner == t + 1
    ensures var x := Step(t, Unlock);
            Next(Next(Next(s, x).0, x).0, x).0 == State(false, 0, s.place[t := Out])
  {
    assert s.place[t := Clearing][t := Opening][t := Out] == s.place[t := Out];
  }

  /** A handover: one thread locks, another is refused, the first unlocks, and then the other owns the mutex. */
  lemma Handover(threads: nat, t: nat, u: nat)
    requires t < threads && u < threads && t != u
    ensures var s, x, y, z := Init(threads), Step(t, TryLock), Step(u, TryLock), Step(t, Unlock);
            var a, b := Run(s, [x, x]), Run(s, [x, x] + [y, y]);
            var c, d := Run(s, [x, x] + [y, y] + [z, z] + [z]), Run(s, [x, x] + [y, y] + [z, z] + [z] + [y, y]);
            && a == b == State(true, t + 1, s.place[t := In])
            && c == s && d == State(true, u + 1, s.place[u := In])
  {
    hide Next, Run;
    var s, x, y, z := Init(threads), Step(t, TryLock), Step(u, TryLock), Step(t, Unlock);
    assert [] + [x, x] == [x, x];
    Twice(s, [], x);
    StartsAt(s);
    TakeIt(s, t);
    Twice(s, [x, x], y);
    var a := Run(s, [x, x]);
    MissIt(a, u);
    Twice(s, [x, x] + [y, y], z);
    RunSnoc(s, [x, x] + [y, y] + [z, z], z);
    LeaveIt(a, t);
    assert a.place[t := Out] == s.place;
    Twice(s, [x, x] + [y, y] + [z, z] + [z], y);
    TakeIt(s, u);
  }

  lemma StartsAt(s: State)
    ensures Run(s, []) == s
  {
  }
}
