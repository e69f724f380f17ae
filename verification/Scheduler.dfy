/** The cooperative scheduler: an intrusive FIFO of ready threads, a current thread and an idle thread that
    is never queued. */
module Scheduler {

  datatype Rc = Ok | Inval | WrongState | Corrupt

  datatype Phase = New | Ready | Running | Blocked | Zombie

  // ----- The queue as a value -----

  datatype Queue<T> = Queue(current: T, idle: T, ready: seq<T>)

  datatype Event<T> = Enqueue(t: T) | Yield | Block | Tick

  predicate Distinct<T(==)>(s: seq<T>) {
    forall i, j :: 0 <= i < j < |s| ==> s[i] != s[j]
  }

  ghost predicate Wf<T>(q: Queue<T>) {
    Distinct(q.ready) && q.current !in q.ready && q.idle !in q.ready
  }

  /** The next thread: the head of the queue, or idle. */
  function Picked<T>(q: Queue<T>): T {
    if q.ready == [] then q.idle else q.ready[0]
  }

  /** The processor moves on; the thread that had it goes to the back of the queue if it stays runnable. */
  function Switch<T(==)>(q: Queue<T>, runnable: bool): Queue<T> {
    var rest := if q.ready == [] then [] else q.ready[1..];
    if Picked(q) == q.current then q.(ready := rest)
    else Queue(Picked(q), q.idle, if runnable && q.current != q.idle then rest + [q.current] else rest)
  }

  /** A yield always succeeds; the idle thread may not block. */
  predicate Switches<T(==)>(q: Queue<T>, e: Event<T>) {
    e.Yield? || (e.Block? && q.current != q.idle)
  }

  function Step<T(==)>(q: Queue<T>, e: Event<T>): Queue<T> {
    if Switches(q, e) then Switch(q, e.Yield?)
    else if e.Enqueue? then q.(ready := q.ready + [e.t])
    else q
  }

  /** Only threads that are neither queued nor current nor idle are enqueued. */
  ghost predicate Legal<T>(q: Queue<T>, es: seq<Event<T>>)
    decreases |es|
  {
    es != [] ==>
      && (es[0].Enqueue? ==> es[0].t !in q.ready && es[0].t != q.current && es[0].t != q.idle)
      && Legal(Step(q, es[0]), es[1..])
  }

  function Run<T(==)>(q: Queue<T>, es: seq<Event<T>>): Queue<T>
    decreases |es|
  {
    if es == [] then q else Run(Step(q, es[0]), es[1..])
  }

  /** How many events of a run switch threads. */
  function Turns<T(==)>(q: Queue<T>, es: seq<Event<T>>): nat
    decreases |es|
  {
    if es == [] then 0 else (if Switches(q, es[0]) then 1 else 0) + Turns(Step(q, es[0]), es[1..])
  }

  lemma StepKeepsWf<T>(q: Queue<T>, e: Event<T>)
    requires Wf(q) && Legal(q, [e])
    ensures Wf(Step(q, e))
  {
  }

  /** A queued thread moves up by one place per switch and by nothing else. */
  lemma StepMovesUp<T>(q: Queue<T>, e: Event<T>, k: nat)
    requires Wf(q) && k < |q.ready|
    ensures var r := Step(q, e);
            if !Switches(q, e) then k < |r.ready| && r.ready[k] == q.ready[k] && r.current == q.current
            else if k == 0 then r.current == q.ready[0]
            else k - 1 < |r.ready| && r.ready[k - 1] == q.ready[k]
  {
  }

  /** Bounded waiting: over every run, the thread at index k is still waiting, k - n places from the head,
      after n <= k switches, and the next switch after k of them makes it current. */
  lemma {:induction false} WaitsExactly<T>(q: Queue<T>, es: seq<Event<T>>, e: Event<T>, k: nat)
    requires Wf(q) && Legal(q, es) && k < |q.ready| && Turns(q, es) <= k
    ensures var r, n := Run(q, es), Turns(q, es);
            && Wf(r) && k - n < |r.ready| && r.ready[k - n] == q.ready[k] && r.current != q.ready[k]
            && (n == k && Switches(r, e) ==> Step(r, e).current == q.ready[k])
    decreases |es|
  {
    if es == [] {
      StepMovesUp(q, e, k);
    } else {
      var q' := Step(q, es[0]);
      assert Legal(q, [es[0]]);
      StepKeepsWf(q, es[0]);
      StepMovesUp(q, es[0], k);
      WaitsExactly(q', es[1..], e, if Switches(q, es[0]) then k - 1 else k);
    }
  }

  lemma {:induction false} RunKeepsWf<T>(q: Queue<T>, es: seq<Event<T>>)
    requires Wf(q) && Legal(q, es)
    ensures Wf(Run(q, es))
    decreases |es|
  {
    if es != [] {
      assert Legal(q, [es[0]]);
      StepKeepsWf(q, es[0]);
      RunKeepsWf(Step(q, es[0]), es[1..]);
    }
  }

  /** The threads that the scheduler knows at this point. */
  function Known<T(==)>(q: Queue<T>): set<T> {
    {q.current, q.idle} + set t | t in q.ready
  }

  /** The threads that block during a run, and those that are enqueued. */
  function Gone<T(==)>(q: Queue<T>, es: seq<Event<T>>): set<T>
    decreases |es|
  {
    if es == [] then {}
    else (if es[0].Block? && q.current != q.idle then {q.current} else {}) + Gone(Step(q, es[0]), es[1..])
  }

  function Arrived<T(==)>(es: seq<Event<T>>): set<T>
    decreases |es|
  {
    if es == [] then {} else (if es[0].Enqueue? then {es[0].t} else {}) + Arrived(es[1..])
  }

  /** Conservation: over every run no thread gets lost and none appears from nowhere. */
  lemma {:induction false} NobodyIsLost<T>(q: Queue<T>, es: seq<Event<T>>)
    requires Wf(q) && Legal(q, es)
    ensures Known(Run(q, es)) + Gone(q, es) == Known(q) + Arrived(es)
    decreases |es|
  {
    if es != [] {
      assert Legal(q, [es[0]]);
      StepKeepsWf(q, es[0]);
      StepLosesNobody(q, es[0]);
      NobodyIsLost(Step(q, es[0]), es[1..]);
    }
  }

  /** A thread that is gone was current when a block event came. */
  lemma {:induction false} GoneHasBlocked<T>(q: Queue<T>, es: seq<Event<T>>, t: T) returns (i: nat)
    requires t in Gone(q, es)
    ensures i < |es| && es[i].Block? && Run(q, es[..i]).current == t && t != Run(q, es[..i]).idle
    decreases |es|
  {
    hide Step;
    if es[0].Block? && q.current != q.idle && t == q.current {
      i := 0;
    } else {
      i := GoneHasBlocked(Step(q, es[0]), es[1..], t);
      assert es[..i + 1][1..] == es[1..][..i];
      i := i + 1;
    }
  }

  lemma StepLosesNobody<T>(q: Queue<T>, e: Event<T>)
    requires Wf(q)
    ensures Known(Step(q, e)) + (if e.Block? && q.current != q.idle then {q.current} else {}) ==
              Known(q) + if e.Enqueue? then {e.t} else {}
  {
    assert forall t: T :: t in q.ready <==> q.ready != [] && (t == q.ready[0] || t in q.ready[1..]);
  }

  // ----- The intrusive list -----

  class Thread {
    var magicOk: bool
    var state: Phase
    var next: Thread?
    var switches: nat
    var ticks: nat

    /** mcsos_thread_prepare, past its stack checks. */
    constructor ()
      ensures magicOk && state == New && next == null
    {
      magicOk, state, next, switches, ticks := true, New, null, 0, 0;
    }
  }

  /** The thread at an index, null past the end. */
  function At(s: seq<Thread>, i: nat): Thread? {
    if i < |s| then s[i] else null
  }

  class Sched {
    var current: Thread
    var idle: Thread
    var readyHead: Thread?
    var readyTail: Thread?
    var runnableCount: nat
    var contextSwitches: nat
    var ticks: nat
    ghost var ready: seq<Thread>
    ghost var threads: set<Thread>

    ghost function Model(): Queue<Thread>
      reads this
    {
      Queue(current, idle, ready)
    }

    /** The links spell out `ready`, head to tail. */
    ghost predicate Links()
      reads this, threads`next
    {
      && (forall i :: 0 <= i < |ready| ==> ready[i] in threads)
      && (forall i :: 0 <= i < |ready| ==> ready[i].next == At(ready, i + 1))
      && readyHead == At(ready, 0)
      && readyTail == (if ready == [] then null else ready[|ready| - 1])
      && runnableCount == |ready|
    }

    /** Everything but the state of the current thread, which changes in the middle of a switch. */
    ghost predicate Linked()
      reads this, threads
    {
      && Links() && Closed() && Distinct(ready) && idle !in ready && idle in threads
      && (forall t :: t in threads ==> t.magicOk)
      && (forall i :: 0 <= i < |ready| ==> ready[i].state == Ready)
      && idle.state == Running
      && (forall t :: t in threads && t.state == Running ==> t == current || t == idle)
    }

    ghost predicate Valid()
      reads this, threads
    {
      Linked() && Wf(Model()) && current.state == Running
    }

    /** Every link leads to a known thread. */
    ghost predicate Closed()
      reads this, threads`next
    {
      && current in threads && (readyHead == null || readyHead in threads)
      && forall t :: t in threads ==> t.next == null || t.next in threads
    }

    /** The rest of the validation walk from cursor on, after `count` threads, the last of them `last`. */
    ghost function Walk(cursor: Thread?, last: Thread?, count: nat): Rc
      requires Closed() && (cursor == null || cursor in threads) && count <= runnableCount + 1
      reads this, threads
      decreases runnableCount + 2 - count
    {
      if cursor == null then if last == readyTail && count == runnableCount then Ok else Corrupt
      else if !cursor.magicOk || cursor.state != Ready || cursor == current then Corrupt
      else if count + 1 > runnableCount + 1 then Corrupt
      else Walk(cursor.next, cursor, count + 1)
    }

    /** What mcsos_sched_validate answers about any list of known threads. */
    ghost function Verdict(): Rc
      requires Closed()
      reads this, threads
    {
      if !current.magicOk then Inval else Walk(readyHead, null, 0)
    }

    /** The walk from cursor on sees exactly q[k..], all of it in order. */
    ghost predicate Sees(q: seq<Thread>, k: nat)
      reads this, threads, q
    {
      && (forall i :: 0 <= i < |q| ==> q[i] in threads)
      && forall i :: k <= i < |q| ==>
           q[i].magicOk && q[i].state == Ready && q[i] != current && q[i].next == At(q, i + 1)
    }

    /** The stores of an enqueue on a thread that is ready[k]: the list now ends there, or goes round in it. */
    ghost predicate CutAt(k: nat)
      reads this, threads
    {
      && k < |ready| && (forall i :: 0 <= i < |ready| ==> ready[i] in threads)
      && readyHead == ready[0] && readyTail == ready[k] && runnableCount == |ready| + 1
      && (forall i :: 0 <= i < k ==> ready[i].next == ready[i + 1])
      && ready[k].next == if k + 1 == |ready| then ready[k] else null
    }

    /** mcsos_scheduler_init: the boot thread runs and is the idle thread. */
    constructor (boot: Thread)
      modifies boot
      ensures Valid() && Model() == Queue(boot, boot, []) && threads == {boot}
    {
      current, idle, readyHead, readyTail := boot, boot, null, null;
      runnableCount, contextSwitches, ticks := 0, 0, 0;
      ready, threads := [], {boot};
      new;
      boot.magicOk, boot.state, boot.next, boot.switches, boot.ticks := true, Running, null, 0, 0;
    }

    /** mcsos_sched_enqueue.  A thread that is already queued is accepted as well, and then the list is
        broken: validation fails exactly in that case. */
    method Enqueue(thread: Thread) returns (rc: Rc)
      requires Linked()
      modifies this`readyHead, this`readyTail, this`runnableCount, this`ready, this`threads
      modifies threads`next, thread`state, thread`next
      ensures rc == if !thread.magicOk then Inval
                    else if old(thread.state) == Running || old(thread.state) == Zombie then WrongState else Ok
      ensures thread in old(ready) ==> rc == Ok
      ensures Closed() && (Verdict() == Ok <==> thread !in old(ready) && current !in ready)
      ensures thread !in old(ready) ==> Linked()
      ensures if rc == Ok && thread !in old(ready)
              then ready == old(ready) + [thread] && threads == old(threads) + {thread} && thread.state == Ready
              else ready == old(ready) && threads == old(threads) && thread.state == old(thread.state)
      ensures old(Valid()) && thread !in old(ready) ==>
                && Valid() && (rc == Ok ==> Legal(old(Model()), [Event.Enqueue(thread)]))
                && Model() == if rc == Ok then Step(old(Model()), Event.Enqueue(thread)) else old(Model())
    {
      hide *;
      IdleRuns(this);
      QueuedIsReady(this, thread);
      if !thread.magicOk {
        LinkedVerdict(this);
        return Inval;
      }
      if thread.state != New && thread.state != Ready && thread.state != Blocked {
        LinkedVerdict(this);
        return WrongState;
      }
      ghost var q := Model();
      ModelIs(this);
      if Valid() && thread !in ready {
        ValidFacts(this);
        LegalOne(q, thread);
        StepKeepsWf(q, Event.Enqueue(thread));
      }
      Append(thread);
      if thread !in q.ready {
        LinkedVerdict(this);
        if old(Valid()) {
          ValidAfter(this, q, thread);
        }
      }
      rc := Ok;
    }

    /** The stores of mcsos_sched_enqueue. */
    method Append(thread: Thread)
      requires Linked() && thread != idle && thread.magicOk
      modifies this`readyHead, this`readyTail, this`runnableCount, this`ready, this`threads
      modifies threads`next, thread`state, thread`next
      ensures threads == old(threads) + {thread} && thread.state == Ready
      ensures thread !in old(ready) ==> Linked() && ready == old(ready) + [thread]
      ensures thread in old(ready) ==> ready == old(ready) && Closed() && Verdict() == Corrupt
    {
      hide Links, Closed, Walk, Sees, CutAt;
      IdleRuns(this);
      QueuedIsReady(this, thread);
      thread.state := Ready;
      ghost var k := Link(thread);
      if thread in old(ready) {
        CutIsCorrupt(this, k);
      }
    }

    /** What the list stores make of `ready`. */
    method Link(thread: Thread) returns (ghost k: nat)
      requires Links() && Distinct(ready) && Closed()
      modifies this`readyHead, this`readyTail, this`runnableCount, this`ready, this`threads
      modifies threads`next, thread`next
      ensures Closed() && threads == old(threads) + {thread}
      ensures thread !in old(ready) ==> Links() && Distinct(ready) && ready == old(ready) + [thread]
      ensures thread in old(ready) ==> ready == old(ready) && CutAt(k)
    {
      hide Closed;
      TailKnown(this);
      Store(thread);
      threads := threads + {thread};
      k := 0;
      if thread !in ready {
        ghost var q := ready;
        ready := ready + [thread];
        assert forall i: nat :: At(ready, i) == if i == |q| then thread else At(q, i);
      } else {
        k :| 0 <= k < |ready| && ready[k] == thread;
      }
      ClosedFrom(this);
    }

    /** The list stores. */
    method Store(thread: Thread)
      requires Closed() && (readyTail == null || readyTail in threads)
      modifies this`readyHead, this`readyTail, this`runnableCount, threads`next, thread`next
      ensures readyTail == thread && runnableCount == old(runnableCount) + 1
      ensures readyHead == if old(readyTail) == null then thread else old(readyHead)
      ensures forall t :: t in threads || t == thread ==>
                t.next == if t == old(readyTail) then thread else if t == thread then null else old(t.next)
      ensures current in threads && (readyHead == null || readyHead in threads + {thread})
      ensures forall t :: t in threads + {thread} ==> t.next == null || t.next in threads + {thread}
    {
      thread.next := null;
      if readyTail == null {
        readyHead := thread;
        readyTail := thread;
      } else {
        readyTail.next := thread;
        readyTail := thread;
      }
      runnableCount := runnableCount + 1;
    }

    /** mcsos_sched_pick_next */
    method PickNext() returns (thread: Thread)
      requires Linked()
      modifies this`readyHead, this`readyTail, this`runnableCount, this`ready, threads`next
      ensures Linked() && thread == Picked(old(Model())) && thread in threads && thread !in ready && thread.magicOk
      ensures thread == idle || thread.state == Ready
      ensures ready == if old(ready) == [] then [] else old(ready)[1..]
    {
      if readyHead == null {
        return idle;
      }
      ghost var q := ready;
      thread := readyHead;
      assert thread == q[0] && thread.next == At(q, 1);
      readyHead := thread.next;
      if readyHead == null {
        readyTail := null;
      }
      thread.next := null;
      if runnableCount > 0 {
        runnableCount := runnableCount - 1;
      }
      ready := ready[1..];
      assert forall i: nat :: At(ready, i) == At(q, i + 1);
      assert forall i :: 0 <= i < |ready| ==> ready[i] == q[i + 1] && ready[i] != thread;
    }

    /** mcsos_sched_yield.  It is also entered with the current thread already marked BLOCKED. */
    method YieldTo() returns (rc: Rc)
      requires Linked() && current !in ready
      requires (current.state == Running || (current.state == Blocked && current != idle))
      modifies this, threads
      ensures Valid() && rc == Ok && threads == old(threads)
      ensures Model() == Switch(old(Model()), old(current.state) == Running)
      ensures contextSwitches == old(contextSwitches) + if current != old(current) then 1 else 0
      ensures forall t :: t in threads && t != current && t != old(current) ==> t.state == old(t.state)
      ensures current != old(current) ==> old(current).state == if old(current.state) == Blocked then Blocked
                                                             else if old(current) == idle then Running else Ready
    {
      hide *;
      ghost var q := Model();
      IdleRuns(this);
      ModelIs(this);
      WfIs(q);
      SwitchIs(q, current.state == Running);
      var oldThread := current;
      var nextThread := PickNext();
      ModelIs(this);
      if !nextThread.magicOk {
        assert false;
        return Corrupt;
      }
      if nextThread == oldThread {
        oldThread.state := Running;
        ModelIs(this);
        ValidFrom(this);
        return Ok;
      }
      if oldThread.state == Running && oldThread != idle {
        rc := Requeue();
        if rc != Ok {
          assert false;
          return;
        }
      }
      Dispatch(oldThread, nextThread);
      ModelIs(this);
      ValidFrom(this);
      rc := Ok;
    }

    /** The part of mcsos_sched_yield that sends the running thread to the back of the queue. */
    method Requeue() returns (rc: Rc)
      requires Linked() && current !in ready && current != idle && current.state == Running
      modifies this`readyHead, this`readyTail, this`runnableCount, this`ready, this`threads
      modifies threads`next, current`state, current`next
      ensures Linked() && rc == Ok && ready == old(ready) + [current] && threads == old(threads)
      ensures current.state == Ready
    {
      hide *;
      IdleRuns(this);
      MarkCurrent(Ready);
      rc := Enqueue(current);
    }

    /** The current thread stops running: the queue does not change. */
    method MarkCurrent(phase: Phase)
      requires Linked() && current !in ready && current != idle && phase != Running
      modifies current`state
      ensures Linked() && current.state == phase
    {
      current.state := phase;
    }

    /** mcsos_sched_tick */
    method Tick() returns (rc: Rc)
      requires Valid()
      modifies this`ticks, current`ticks
      ensures Valid() && rc == Ok && ticks == old(ticks) + 1 && current.ticks == old(current.ticks) + 1
      ensures Model() == Step(old(Model()), Event.Tick)
    {
      ticks := ticks + 1;
      current.ticks := current.ticks + 1;
      rc := Ok;
    }

    /** mcsos_thread_block_current */
    method BlockCurrent() returns (rc: Rc)
      requires Valid()
      modifies this, threads
      ensures Valid() && threads == old(threads)
      ensures rc == if old(current) == idle then WrongState else Ok
      ensures Model() == Step(old(Model()), Event.Block)
      ensures rc == Ok ==> old(current).state == Blocked && current != old(current)
    {
      hide Links, Linked, Distinct;
      IdleRuns(this);
      if current == idle {
        return WrongState;
      }
      MarkCurrent(Blocked);
      rc := YieldTo();
    }

    /** mcsos_sched_yield from a running thread. */
    method Yield() returns (rc: Rc)
      requires Valid()
      modifies this, threads
      ensures Valid() && rc == Ok && threads == old(threads) && Model() == Step(old(Model()), Event.Yield)
    {
      hide Links, Linked, Distinct;
      rc := YieldTo();
    }

    /** mcsos_thread_mark_ready: only a blocked thread is woken, so no thread is queued twice. */
    method MarkReady(thread: Thread) returns (rc: Rc)
      requires Valid()
      modifies this`readyHead, this`readyTail, this`runnableCount, this`ready
      modifies this`threads, threads`next, thread`state, thread`next
      ensures Valid() && threads == if rc == Ok then old(threads) + {thread} else old(threads)
      ensures rc == if !thread.magicOk then Inval else if old(thread.state) == Blocked then Ok else WrongState
      ensures Model() == if rc == Ok then Step(old(Model()), Event.Enqueue(thread)) else old(Model())
    {
      hide Links, Linked, Distinct;
      if !thread.magicOk {
        return Inval;
      }
      if thread.state != Blocked {
        return WrongState;
      }
      BlockedNotQueued(this, thread);
      rc := Enqueue(thread);
    }

    /** mcsos_sched_validate. */
    method Validate() returns (rc: Rc)
      requires Closed()
      ensures rc == Verdict()
    {
      if !current.magicOk {
        return Inval;
      }
      var count := 0;
      var cursor, last: Thread? := readyHead, null;
      while cursor != null
        invariant count <= runnableCount + 1 && (cursor == null || cursor in threads)
        invariant Walk(cursor, last, count) == Verdict()
        decreases runnableCount + 2 - count
      {
        if !cursor.magicOk || cursor.state != Ready {
          return Corrupt;
        }
        if cursor == current {
          return Corrupt;
        }
        last := cursor;
        cursor := cursor.next;
        count := count + 1;
        if count > runnableCount + 1 {
          return Corrupt;
        }
      }
      if last != readyTail {
        return Corrupt;
      }
      if count != runnableCount {
        return Corrupt;
      }
      rc := Ok;
    }

    /** The last stores of mcsos_sched_yield. */
    method Dispatch(oldThread: Thread, nextThread: Thread)
      requires Linked() && oldThread == current && nextThread in threads && nextThread !in ready
      requires nextThread != current
      requires current.state != Running || current == idle
      modifies this`current, this`contextSwitches, oldThread`switches, nextThread`switches, nextThread`state
      ensures Linked() && current == nextThread && current.state == Running
      ensures contextSwitches == old(contextSwitches) + 1
    {
      nextThread.state := Running;
      current := nextThread;
      oldThread.switches := oldThread.switches + 1;
      nextThread.switches := nextThread.switches + 1;
      contextSwitches := contextSwitches + 1;
    }
  }

  lemma BlockedNotQueued(s: Sched, t: Thread)
    requires s.Linked() && t.state == Blocked
    ensures t !in s.ready
  {
  }

  lemma IdleRuns(s: Sched)
    requires s.Linked()
    ensures s.idle.state == Running && s.current in s.threads && s.idle in s.threads && s.current.magicOk
    ensures s.idle !in s.ready
    ensures Distinct(s.ready)
  {
  }

  lemma QueuedIsReady(s: Sched, t: Thread)
    requires s.Linked()
    ensures t in s.ready ==> t.state == Ready && t.magicOk && t in s.threads
  {
  }

  lemma ModelIs(s: Sched)
    ensures s.Model() == Queue(s.current, s.idle, s.ready)
  {
  }

  lemma ClosedFrom(s: Sched)
    requires s.current in s.threads && (s.readyHead == null || s.readyHead in s.threads)
    requires forall t :: t in s.threads ==> t.next == null || t.next in s.threads
    ensures s.Closed()
  {
  }

  lemma TailKnown(s: Sched)
    requires s.Links()
    ensures s.readyTail == null || s.readyTail in s.threads
  {
  }

  lemma ValidFacts(s: Sched)
    requires s.Valid()
    ensures s.Linked() && Wf(s.Model()) && s.current.state == Running && s.current !in s.ready
  {
    hide Sched.Linked;
  }

  lemma LegalOne<T>(q: Queue<T>, t: T)
    requires t !in q.ready && t != q.current && t != q.idle
    ensures Legal(q, [Event.Enqueue(t)])
  {
    assert [Event.Enqueue(t)][1..] == [];
  }

  lemma WfIs<T>(q: Queue<T>)
    ensures Wf(q) <==> Distinct(q.ready) && q.current !in q.ready && q.idle !in q.ready
  {
    hide Distinct;
  }

  /** A switch, spelled out; it keeps the queue well-formed. */
  lemma SwitchIs<T>(q: Queue<T>, runnable: bool)
    requires Wf(q)
    ensures var rest := if q.ready == [] then [] else q.ready[1..];
            && Picked(q) == (if q.ready == [] then q.idle else q.ready[0])
            && Switch(q, runnable) ==
                 if Picked(q) == q.current then q.(ready := rest)
                 else Queue(Picked(q), q.idle, if runnable && q.current != q.idle then rest + [q.current] else rest)
    ensures Wf(Switch(q, runnable))
  {
  }

  lemma ValidFrom(s: Sched)
    requires s.Linked() && Wf(s.Model()) && s.current.state == Running
    ensures s.Valid()
  {
    hide Sched.Linked, Wf;
  }

  // ----- Validation -----

  /** The walk accepts a list that it sees whole and that ends where and when it should. */
  lemma {:induction false} WalkAccepts(s: Sched, q: seq<Thread>, k: nat)
    requires s.Closed() && k <= |q| == s.runnableCount && s.Sees(q, k)
    requires s.readyTail == if q == [] then null else q[|q| - 1]
    ensures s.Walk(At(q, k), if k == 0 then null else q[k - 1], k) == Ok
    decreases |q| - k
  {
    if k < |q| {
      WalkAccepts(s, q, k + 1);
    }
  }

  lemma {:induction false} WalkMeetsCurrent(s: Sched, k: nat, j: nat, last: Thread?)
    requires s.Linked() && k <= j < |s.ready| && s.ready[j] == s.current
    ensures s.Walk(s.ready[k], last, k) == Corrupt
    decreases j - k
  {
    if k < j {
      WalkMeetsCurrent(s, k + 1, j, s.ready[k]);
    }
  }

  /** A well-linked scheduler is accepted unless its current thread is queued. */
  lemma LinkedVerdict(s: Sched)
    requires s.Linked()
    ensures s.Closed() && (s.Verdict() == Ok <==> s.current !in s.ready)
  {
    if j :| 0 <= j < |s.ready| && s.ready[j] == s.current {
      WalkMeetsCurrent(s, 0, j, null);
    } else {
      assert forall t :: t in s.ready ==> t != s.current;
      WalkAccepts(s, s.ready, 0);
    }
  }

  lemma ValidVerdict(s: Sched)
    requires s.Valid()
    ensures s.Closed() && s.Verdict() == Ok
  {
    hide Sched.Linked;
    LinkedVerdict(s);
  }

  /** A thread that links to itself is never left. */
  lemma {:induction false} WalkLoops(s: Sched, t: Thread, last: Thread?, count: nat)
    requires s.Closed() && t in s.threads && t.next == t && count <= s.runnableCount + 1
    ensures s.Walk(t, last, count) == Corrupt
    decreases s.runnableCount + 2 - count
  {
    if count <= s.runnableCount {
      WalkLoops(s, t, t, count + 1);
    }
  }

  lemma {:induction false} WalkIsCut(s: Sched, k: nat, i: nat, last: Thread?)
    requires s.Closed() && s.CutAt(k) && i <= k
    ensures s.Walk(s.ready[i], last, i) == Corrupt
    decreases k - i
  {
    if i < k {
      WalkIsCut(s, k, i + 1, s.ready[i]);
    } else if k + 1 == |s.ready| {
      WalkLoops(s, s.ready[k], last, k);
    }
  }

  /** The list that enqueueing a queued thread leaves is never accepted. */
  lemma CutIsCorrupt(s: Sched, k: nat)
    requires s.Closed() && s.CutAt(k) && s.current.magicOk
    ensures s.Verdict() == Corrupt
  {
    WalkIsCut(s, k, 0, null);
  }

  lemma ValidAfter(s: Sched, q: Queue<Thread>, thread: Thread)
    requires s.Linked() && Wf(Step(q, Event.Enqueue(thread))) && s.current.state == Running
    requires s.ready == q.ready + [thread] && s.current == q.current && s.idle == q.idle
    ensures s.Valid() && s.Model() == Step(q, Event.Enqueue(thread))
  {
    hide Sched.Linked;
  }
}
