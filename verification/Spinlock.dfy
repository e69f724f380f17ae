/** Spinlocks taken under the lock-order checker: one step per atomic access, any number of threads and
    locks.  Each thread asks its checker first, spins until its exchange wins, and releases in LIFO order. */
module Spinlock {
  import opened Bytes
  import L = LockDep

  datatype Pc =
    | Running          // outside the lock code
    | Trying(l: nat)   // about to exchange locked
    | Spinning(l: nat) // about to load locked
    | Opening(l: nat)  // about to store locked = 0
    | Opened(l: nat)   // about to tell the checker

  datatype Thread = Thread(pc: Pc, held: seq<nat>, dep: L.Held)

  datatype State = State(locked: seq<bool>, threads: seq<Thread>)

  datatype Call = Lock(l: nat) | Unlock

  datatype Step = Step(thread: nat, call: Call)

  /** The class of each lock. */
  type Classes = seq<u32>

  /** What thread th does to the locks in one step; the call only matters while it is Running. */
  function Move(cls: Classes, locked: seq<bool>, th: Thread, call: Call): (r: (seq<bool>, Thread))
    requires |locked| == |cls| && (th.pc.Running? || th.pc.l < |cls|)
    ensures |r.0| == |locked|
  {
    match th.pc
    case Running =>
      (match call
       case Lock(l) =>
         if l >= |cls| then (locked, th)
         else
           var (rc, d) := L.Before(th.dep, cls[l]);
           (locked, th.(dep := d, pc := if rc == L.Ok then Trying(l) else Running))
       case Unlock =>
         (locked, if th.held == [] then th else th.(pc := Opening(th.held[|th.held| - 1]))))
    case Trying(l) =>
      if locked[l] then (locked, th.(pc := Spinning(l)))
      else (locked[l := true], th.(pc := Running, held := th.held + [l]))
    case Spinning(l) =>
      (locked, if locked[l] then th else th.(pc := Trying(l)))
    case Opening(l) =>
      (locked[l := false], th.(pc := Opened(l), held := if th.held == [] then [] else th.held[..|th.held| - 1]))
    case Opened(l) =>
      (locked, th.(pc := Running, dep := L.After(th.dep, cls[l]).1))
  }

  ghost predicate Shaped(cls: Classes, s: State) {
    |s.locked| == |cls| && forall t :: 0 <= t < |s.threads| ==> s.threads[t].pc.Running? || s.threads[t].pc.l < |cls|
  }

  function Next(cls: Classes, s: State, step: Step): (r: State)
    requires Shaped(cls, s) && step.thread < |s.threads|
    ensures |r.threads| == |s.threads|
  {
    var (locked, th) := Move(cls, s.locked, s.threads[step.thread], step.call);
    State(locked, s.threads[step.thread := th])
  }

  function Init(cls: Classes, threads: nat): State {
    State(seq(|cls|, _ => false), seq(threads, _ => Thread(Running, [], L.Held([], 0))))
  }

  // ----- The invariant -----

  /** The lock that the checker knows about but that the thread does not hold (yet, or any more). */
  function Pending(pc: Pc): seq<nat> {
    match pc
    case Trying(l) => [l]
    case Spinning(l) => [l]
    case Opened(l) => [l]
    case _ => []
  }

  /** The checker's stack lists the classes of these locks. */
  ghost predicate Lists(cls: Classes, stack: seq<u32>, locks: seq<nat>) {
    |stack| == |locks| && forall i :: 0 <= i < |locks| ==> locks[i] < |cls| && stack[i] == cls[locks[i]]
  }

  ghost predicate ThreadOk(cls: Classes, th: Thread) {
    && (th.pc.Running? || th.pc.l < |cls|)
    && Lists(cls, th.dep.stack, th.held + Pending(th.pc))
    && L.Ascending(th.dep.stack) && |th.dep.stack| <= L.MAX_HELD
    && (th.pc.Opening? ==> th.held != [] && th.held[|th.held| - 1] == th.pc.l)
  }

  ghost predicate HeldBy(s: State, l: nat, t: nat) {
    t < |s.threads| && l in s.threads[t].held
  }

  ghost predicate Exclusive(s: State) {
    forall l, t, u :: HeldBy(s, l, t) && HeldBy(s, l, u) ==> t == u
  }

  ghost predicate LockedMeansHeld(s: State) {
    forall l :: 0 <= l < |s.locked| ==> (s.locked[l] <==> exists t: nat :: HeldBy(s, l, t))
  }

  ghost predicate Inv(cls: Classes, s: State) {
    && Shaped(cls, s) && Exclusive(s) && LockedMeansHeld(s)
    && forall t :: 0 <= t < |s.threads| ==> ThreadOk(cls, s.threads[t])
  }

  lemma MoveKeepsThread(cls: Classes, locked: seq<bool>, th: Thread, call: Call)
    requires |locked| == |cls| && ThreadOk(cls, th)
    ensures ThreadOk(cls, Move(cls, locked, th, call).1)
  {
    hide ThreadOk, Move;
    match th.pc
    case Running => RunningMoves(cls, locked, th, call);
    case Opened(_) => OpenedMoves(cls, locked, th, call);
    case Trying(_) => TryingMoves(cls, locked, th, call);
    case Spinning(_) => SpinningMoves(cls, locked, th, call);
    case Opening(_) => OpeningMoves(cls, locked, th, call);
  }

  lemma TryingMoves(cls: Classes, locked: seq<bool>, th: Thread, call: Call)
    requires |locked| == |cls| && ThreadOk(cls, th) && th.pc.Trying?
    ensures ThreadOk(cls, Move(cls, locked, th, call).1)
  {
    hide L.Ascending, L.Before, L.After;
    assert th.held + [th.pc.l] + [] == th.held + [th.pc.l];
  }

  lemma SpinningMoves(cls: Classes, locked: seq<bool>, th: Thread, call: Call)
    requires |locked| == |cls| && ThreadOk(cls, th) && th.pc.Spinning?
    ensures ThreadOk(cls, Move(cls, locked, th, call).1)
  {
    hide L.Ascending, L.Before, L.After, Lists;
  }

  lemma OpeningMoves(cls: Classes, locked: seq<bool>, th: Thread, call: Call)
    requires |locked| == |cls| && ThreadOk(cls, th) && th.pc.Opening?
    ensures ThreadOk(cls, Move(cls, locked, th, call).1)
  {
    hide L.Ascending, L.Before, L.After, Lists;
    assert th.held + [] == th.held == th.held[..|th.held| - 1] + [th.pc.l];
  }

  lemma RunningMoves(cls: Classes, locked: seq<bool>, th: Thread, call: Call)
    requires |locked| == |cls| && ThreadOk(cls, th) && th.pc.Running?
    ensures ThreadOk(cls, Move(cls, locked, th, call).1)
  {
    hide L.Ascending, L.Accepts;
    assert th.held + [] == th.held;
    if call.Lock? && call.l < |cls| {
      L.StackAscends(th.dep, cls[call.l]);
    }
  }

  lemma OpenedMoves(cls: Classes, locked: seq<bool>, th: Thread, call: Call)
    requires |locked| == |cls| && ThreadOk(cls, th) && th.pc.Opened?
    ensures ThreadOk(cls, Move(cls, locked, th, call).1) && L.After(th.dep, cls[th.pc.l]).0 == L.Ok
  {
    var n, l := |th.dep.stack| - 1, th.pc.l;
    assert (th.held + [l])[n] == l && th.dep.stack[n] == cls[l] > 0;
    L.StackAscends(th.dep, cls[l]);
    hide L.Ascending, L.Accepts;
    assert th.held + [] == (th.held + [l])[..n];
  }

  /** A thread holds a lock at most once, so releasing the last one gives it up. */
  lemma HeldOnce(cls: Classes, th: Thread)
    requires ThreadOk(cls, th) && th.held != []
    ensures th.held[|th.held| - 1] !in th.held[..|th.held| - 1]
  {
    var n := |th.held| - 1;
    var all := th.held + Pending(th.pc);
    forall i | 0 <= i < n ensures th.held[i] != th.held[n] {
      assert all[i] == th.held[i] && all[n] == th.held[n];
      assert th.dep.stack[i] < th.dep.stack[n];
    }
  }

  predicate Takes(s: State, step: Step, l: nat)
    requires step.thread < |s.threads|
  {
    s.threads[step.thread].pc == Trying(l) && l < |s.locked| && !s.locked[l]
  }

  predicate Opens(s: State, step: Step, l: nat)
    requires step.thread < |s.threads|
  {
    s.threads[step.thread].pc == Opening(l)
  }

  /** Who holds what after a step. */
  lemma HeldAfter(cls: Classes, s: State, step: Step, l: nat, u: nat)
    requires Inv(cls, s) && step.thread < |s.threads|
    ensures HeldBy(Next(cls, s, step), l, u) <==>
              if u == step.thread && Takes(s, step, l) then true
              else HeldBy(s, l, u) && !(u == step.thread && Opens(s, step, l))
  {
    hide L.Ascending, Lists, L.Before, L.After;
    var th := s.threads[step.thread];
    if th.pc.Opening? {
      HeldOnce(cls, th);
      assert th.held == th.held[..|th.held| - 1] + [th.pc.l];
    }
  }

  /** What a step does to the lock words. */
  lemma LockedAfter(cls: Classes, s: State, step: Step, l: nat)
    requires Inv(cls, s) && step.thread < |s.threads| && l < |cls|
    ensures Next(cls, s, step).locked[l] <==> Takes(s, step, l) || (s.locked[l] && !Opens(s, step, l))
  {
    hide ThreadOk, L.Before, L.After;
  }

  lemma NextShaped(cls: Classes, s: State, step: Step)
    requires Inv(cls, s) && step.thread < |s.threads|
    ensures Shaped(cls, s) && Shaped(cls, Next(cls, s, step)) && |Next(cls, s, step).threads| == |s.threads|
    ensures forall t :: 0 <= t < |s.threads| ==> ThreadOk(cls, Next(cls, s, step).threads[t])
  {
    hide Lists, L.Ascending, Move, Exclusive, LockedMeansHeld;
    MoveKeepsThread(cls, s.locked, s.threads[step.thread], step.call);
  }

  lemma StepKeepsInv(cls: Classes, s: State, step: Step)
    requires Inv(cls, s) && step.thread < |s.threads|
    ensures Inv(cls, Next(cls, s, step))
  {
    hide *;
    NextShaped(cls, s, step);
    StaysExclusive(cls, s, step);
    StaysLocked(cls, s, step);
    InvFrom(cls, Next(cls, s, step));
  }

  lemma InvFrom(cls: Classes, s: State)
    requires Shaped(cls, s) && Exclusive(s) && LockedMeansHeld(s)
    requires forall t :: 0 <= t < |s.threads| ==> ThreadOk(cls, s.threads[t])
    ensures Inv(cls, s)
  {
  }

  lemma StaysExclusive(cls: Classes, s: State, step: Step)
    requires Inv(cls, s) && step.thread < |s.threads|
    ensures Exclusive(Next(cls, s, step))
  {
    hide Next, ThreadOk;
    var s' := Next(cls, s, step);
    forall l, t, u | HeldBy(s', l, t) && HeldBy(s', l, u) ensures t == u {
      HeldAfter(cls, s, step, l, t);
      HeldAfter(cls, s, step, l, u);
    }
  }

  lemma StaysLocked(cls: Classes, s: State, step: Step)
    requires Inv(cls, s) && step.thread < |s.threads|
    ensures LockedMeansHeld(Next(cls, s, step))
  {
    hide Next, ThreadOk, HeldBy;
    NextLocks(cls, s, step);
    var t, s' := step.thread, Next(cls, s, step);
    forall l | 0 <= l < |s'.locked| ensures s'.locked[l] <==> exists u: nat :: HeldBy(s', l, u) {
      LockedAfter(cls, s, step, l);
      forall u: nat
        ensures HeldBy(s', l, u) <==>
                  if u == t && Takes(s, step, l) then true else HeldBy(s, l, u) && !(u == t && Opens(s, step, l))
      {
        HeldAfter(cls, s, step, l, u);
      }
      if Takes(s, step, l) {
        assert HeldBy(s', l, t);
      } else if Opens(s, step, l) {
        OpenerHolds(cls, s, t, l);
      } else if s.locked[l] {
        var u: nat :| HeldBy(s, l, u);
        assert HeldBy(s', l, u);
      }
    }
  }

  lemma NextLocks(cls: Classes, s: State, step: Step)
    requires Shaped(cls, s) && step.thread < |s.threads|
    ensures |Next(cls, s, step).locked| == |s.locked|
  {
  }

  /** A lock is open once its only holder has opened it. */
  lemma OpenerHolds(cls: Classes, s: State, t: nat, l: nat)
    requires Inv(cls, s) && t < |s.threads| && s.threads[t].pc == Opening(l)
    ensures HeldBy(s, l, t) && forall u: nat :: HeldBy(s, l, u) ==> u == t
  {
    hide Lists, L.Ascending;
    assert ThreadOk(cls, s.threads[t]);
  }

  // ----- Runs -----

  /** Any interleaving: each step names the thread that moves. */
  ghost predicate Reaches(cls: Classes, s: State, steps: seq<Step>, r: State)
    decreases |steps|
  {
    if steps == [] then r == s
    else Shaped(cls, s) && steps[0].thread < |s.threads| && Reaches(cls, Next(cls, s, steps[0]), steps[1..], r)
  }

  lemma {:induction false} RunsKeepInv(cls: Classes, s: State, steps: seq<Step>, r: State)
    requires Inv(cls, s) && Reaches(cls, s, steps, r)
    ensures Inv(cls, r)
    decreases |steps|
  {
    hide Inv, Next;
    if steps != [] {
      StepKeepsInv(cls, s, steps[0]);
      RunsKeepInv(cls, Next(cls, s, steps[0]), steps[1..], r);
    }
  }

  lemma InitInv(cls: Classes, threads: nat)
    ensures Inv(cls, Init(cls, threads))
  {
    var s := Init(cls, threads);
    forall t | 0 <= t < threads ensures ThreadOk(cls, s.threads[t]) {
    }
    forall l, t: nat ensures !HeldBy(s, l, t) {
    }
  }

  /** Over every interleaving no lock is held by two threads, a lock word is set exactly while someone
      holds the lock, and every checker's stack is strictly ascending. */
  lemma MutualExclusion(cls: Classes, threads: nat, steps: seq<Step>, r: State)
    requires Reaches(cls, Init(cls, threads), steps, r)
    ensures Exclusive(r) && LockedMeansHeld(r)
    ensures forall t :: 0 <= t < |r.threads| ==> L.Ascending(r.threads[t].dep.stack)
  {
    InitInv(cls, threads);
    RunsKeepInv(cls, Init(cls, threads), steps, r);
  }

  // ----- No deadlock -----

  /** Thread t is at the gate of a lock that is taken. */
  predicate Blocked(s: State, t: nat)
    requires t < |s.threads|
  {
    var pc := s.threads[t].pc;
    (pc.Trying? || pc.Spinning?) && pc.l < |s.locked| && s.locked[pc.l]
  }

  /** The wait-for chain from a blocked thread climbs strictly through the classes, so it ends at a thread
      that holds a lock and is not itself blocked. */
  lemma {:induction false} ChainEnds(cls: Classes, s: State, t: nat) returns (u: nat, l: nat)
    requires Inv(cls, s) && t < |s.threads| && Blocked(s, t)
    ensures u < |s.threads| && !Blocked(s, u) && HeldBy(s, l, u) && l < |cls| && cls[l] >= cls[s.threads[t].pc.l]
    decreases 0x1_0000_0000 - cls[s.threads[t].pc.l] as int
  {
    l := s.threads[t].pc.l;
    u := HolderOf(s, l);
    if Blocked(s, u) {
      WaitsHigher(cls, s, u, l);
      u, l := ChainEnds(cls, s, u);
    }
  }

  lemma HolderOf(s: State, l: nat) returns (u: nat)
    requires LockedMeansHeld(s) && l < |s.locked| && s.locked[l]
    ensures HeldBy(s, l, u)
  {
    u :| HeldBy(s, l, u);
  }

  /** A thread waits only for classes above those it holds. */
  lemma WaitsHigher(cls: Classes, s: State, u: nat, l: nat)
    requires Inv(cls, s) && u < |s.threads| && HeldBy(s, l, u) && Blocked(s, u)
    ensures l < |cls| && cls[l] < cls[s.threads[u].pc.l]
  {
    var th := s.threads[u];
    assert ThreadOk(cls, th);
    var i :| 0 <= i < |th.held| && th.held[i] == l;
    var all := th.held + Pending(th.pc);
    assert all[i] == l && all[|th.held|] == th.pc.l;
    assert th.dep.stack[i] < th.dep.stack[|th.held|];
  }

  /** No interleaving deadlocks: while a thread waits, some thread that holds a lock is free to move. */
  lemma NeverDeadlocks(cls: Classes, threads: nat, steps: seq<Step>, r: State, t: nat)
    requires Reaches(cls, Init(cls, threads), steps, r) && t < |r.threads| && Blocked(r, t)
    ensures exists u: nat, l: nat :: u < |r.threads| && !Blocked(r, u) && HeldBy(r, l, u)
  {
    InitInv(cls, threads);
    RunsKeepInv(cls, Init(cls, threads), steps, r);
    var u, l := ChainEnds(cls, r, t);
  }
}
