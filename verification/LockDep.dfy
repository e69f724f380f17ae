/** The lock-order checker of one thread: a bounded stack of held lock classes. */
module LockDep {
  import opened Bytes

  const MAX_HELD: nat := 16

  datatype Rc = Ok | Inval | Perm | DeadLock | Overflow

  /** Classes held, oldest first, and the number of violations seen. */
  datatype Held = Held(stack: seq<u32>, violations: u32)

  function Violation(h: Held): Held {
    h.(violations := (h.violations as int + 1) % 0x1_0000_0000)
  }

  predicate Accepts(stack: seq<u32>, c: u32) {
    c != 0 && |stack| < MAX_HELD && c !in stack && (stack != [] ==> c >= stack[|stack| - 1])
  }

  /** mcs_lockdep_before_acquire */
  function Before(h: Held, c: u32): (Rc, Held) {
    if c == 0 then (Inval, h)
    else if |h.stack| >= MAX_HELD then (Overflow, Violation(h))
    else if !Accepts(h.stack, c) then (DeadLock, Violation(h))
    else (Ok, h.(stack := h.stack + [c]))
  }

  /** mcs_lockdep_after_release */
  function After(h: Held, c: u32): (Rc, Held) {
    if c == 0 then (Inval, h)
    else if h.stack == [] then (Perm, Violation(h))
    else if h.stack[|h.stack| - 1] != c then (DeadLock, Violation(h))
    else (Ok, h.(stack := h.stack[..|h.stack| - 1]))
  }

  predicate Ascending(s: seq<u32>) {
    (forall i :: 0 <= i < |s| ==> s[i] > 0) && forall i, j :: 0 <= i < j < |s| ==> s[i] < s[j]
  }

  /** A stack built by accepted acquisitions and releases is strictly ascending and bounded, and then the
      checker accepts a class exactly when it is above everything held. */
  lemma StackAscends(h: Held, c: u32)
    requires Ascending(h.stack) && |h.stack| <= MAX_HELD
    ensures Ascending(Before(h, c).1.stack) && |Before(h, c).1.stack| <= MAX_HELD
    ensures Ascending(After(h, c).1.stack) && |After(h, c).1.stack| <= MAX_HELD
    ensures Before(h, c).0 == Ok <==> c > 0 && |h.stack| < MAX_HELD && forall i :: 0 <= i < |h.stack| ==> h.stack[i] < c
    ensures Before(h, c).0 == Ok ==> After(Before(h, c).1, c) == (Ok, h)
  {
    if Before(h, c).0 == Ok {
      assert (h.stack + [c])[..|h.stack|] == h.stack;
    } else if h.stack != [] && c > h.stack[|h.stack| - 1] {
      assert forall i :: 0 <= i < |h.stack| ==> h.stack[i] <= h.stack[|h.stack| - 1];
    }
  }

  /** Nothing but the count of violations has changed, and that only for a real class. */
  predicate Refused(h: Held, c: u32, r: Held) {
    r == Held(h.stack, if c == 0 then h.violations else (h.violations as int + 1) % 0x1_0000_0000)
  }

  /** An acquisition on a stack that the checker built is refused for one reason, and then leaves the stack alone. */
  lemma AcquireAnswers(h: Held, c: u32)
    requires Ascending(h.stack) && |h.stack| <= 16
    ensures var (rc, r) := Before(h, c);
            && (rc == Inval <==> c == 0) && (rc == Overflow <==> c != 0 && |h.stack| == 16)
            && (rc == DeadLock <==> c != 0 && |h.stack| < 16 && exists i :: 0 <= i < |h.stack| && h.stack[i] >= c)
            && (if rc == Ok then r == Held(h.stack + [c], h.violations) else Refused(h, c, r)) && rc != Perm
  {
    StackAscends(h, c);
  }

  /** A release is accepted exactly when it undoes an accepted acquisition; otherwise it leaves the stack alone. */
  lemma ReleaseAnswers(h: Held, c: u32)
    requires Ascending(h.stack) && |h.stack| <= 16
    ensures var (rc, r) := After(h, c);
            && (rc == Ok <==> Undoes(h, c)) && (rc == Ok ==> Before(r, c) == (Ok, h))
            && (rc == Inval <==> c == 0) && (rc == Perm <==> c != 0 && h.stack == []) && rc != Overflow
            && (rc != Ok ==> Refused(h, c, r))
  {
    hide Ascending, Undoes, Accepts;
    var r := After(h, c).1;
    if After(h, c).0 == Ok {
      assert h.stack == r.stack + [c];
      Popped(h.stack, r.stack, c);
      Witness(r, h, c);
    } else if Undoes(h, c) {
      LastIsTop(h, c);
    }
  }

  /** Some state from which the acquisition of c leads to h. */
  ghost predicate Undoes(h: Held, c: u32) {
    exists g: Held :: Before(g, c) == (Ok, h)
  }

  lemma Witness(g: Held, h: Held, c: u32)
    requires Before(g, c) == (Ok, h)
    ensures Undoes(h, c)
  {
  }

  lemma LastIsTop(h: Held, c: u32)
    requires Undoes(h, c)
    ensures c != 0 && h.stack != [] && h.stack[|h.stack| - 1] == c
  {
    var g: Held :| Before(g, c) == (Ok, h);
    assert h.stack == g.stack + [c];
  }

  lemma Popped(s: seq<u32>, r: seq<u32>, c: u32)
    requires Ascending(s) && |s| <= 16 && s == r + [c]
    ensures Accepts(r, c)
  {
    assert s[|r|] == c;
    forall i | 0 <= i < |r| ensures r[i] < c {
      assert s[i] < s[|r|];
    }
  }

  class State {
    const heldClass: array<u32>
    var depth: nat
    var violationCount: u32

    ghost predicate Valid()
      reads this, heldClass
    {
      && heldClass.Length == MAX_HELD && depth <= MAX_HELD
      && forall k :: depth <= k < MAX_HELD ==> heldClass[k] == 0
    }

    ghost function Model(): Held
      requires Valid()
      reads this, heldClass
    {
      Held(heldClass[..depth], violationCount)
    }

    /** mcs_lockdep_init */
    constructor ()
      ensures Valid() && fresh(heldClass) && Model() == Held([], 0)
    {
      heldClass := new u32[MAX_HELD](_ => 0);
      depth, violationCount := 0, 0;
    }

    method Violate()
      requires Valid()
      modifies this`violationCount
      ensures Valid() && Model() == Violation(old(Model()))
    {
      violationCount := (violationCount as int + 1) % 0x1_0000_0000;
    }

    /** mcs_lockdep_is_held */
    method IsHeld(c: u32) returns (held: bool)
      requires Valid()
      ensures held <==> c != 0 && c in Model().stack
    {
      if c == 0 {
        return false;
      }
      for i := 0 to depth
        invariant c !in heldClass[..i]
      {
        if heldClass[i] == c {
          return true;
        }
      }
      held := false;
    }

    method BeforeAcquire(c: u32) returns (rc: Rc)
      requires Valid()
      modifies this`depth, this`violationCount, heldClass
      ensures Valid() && (rc, Model()) == Before(old(Model()), c)
    {
      if c == 0 {
        return Inval;
      }
      if depth >= MAX_HELD {
        Violate();
        return Overflow;
      }
      for i := 0 to depth
        invariant c !in heldClass[..i]
      {
        if heldClass[i] == c {
          assert c in Model().stack;
          Violate();
          return DeadLock;
        }
      }
      if depth > 0 {
        var top := heldClass[depth - 1];
        if c < top {
          Violate();
          return DeadLock;
        }
      }
      ghost var was := heldClass[..depth];
      heldClass[depth] := c;
      depth := depth + 1;
      assert heldClass[..depth] == was + [c];
      rc := Ok;
    }

    method AfterRelease(c: u32) returns (rc: Rc)
      requires Valid()
      modifies this`depth, this`violationCount, heldClass
      ensures Valid() && (rc, Model()) == After(old(Model()), c)
    {
      if c == 0 {
        return Inval;
      }
      if depth == 0 {
        Violate();
        return Perm;
      }
      var index := depth - 1;
      if heldClass[index] != c {
        Violate();
        return DeadLock;
      }
      ghost var was := heldClass[..depth];
      heldClass[index] := 0;
      depth := depth - 1;
      assert heldClass[..depth] == was[..|was| - 1];
      rc := Ok;
    }
  }
}
