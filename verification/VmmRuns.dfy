/** An address space and the other users of its frame allocator: whole runs that mix maps and unmaps with
    allocations, frees and reservations by others. */
module VmmRuns {
  import opened Bytes
  import opened PageTable
  import opened Vmm
  import P = Pmm

  datatype Call = Map(v: u64, paddr: u64, flags: u64) | Unmap(v: u64) | Others(op: P.Op)

  /** The tables, the frames in use, and the frames that the other users hold. */
  datatype World = World(mem: Mem, frames: P.State)

  /** One call.  The other users free only what they hold. */
  function Next(root: u64, w: World, c: Call): (World, Rc) {
    if c.Map? then
      var r := MapEffect(w.mem, w.frames.used, root, c.v, c.paddr, c.flags);
      (World(r.0, P.State(r.1, w.frames.held)), r.2)
    else if c.Unmap? then
      var r := UnmapEffect(w.mem, root, c.v);
      (World(r.0, w.frames), r.1)
    else if c.op.Free? && c.op.addr / PAGE !in w.frames.held then (w, Inval)
    else (World(w.mem, P.Step(w.frames, c.op)), MapOk)
  }

  /** A run, and the codes it answers. */
  function RunCalls(root: u64, w: World, calls: seq<Call>): (World, seq<Rc>)
    decreases |calls|
  {
    if calls == [] then (w, [])
    else
      var r := Next(root, w, calls[0]);
      var rest := RunCalls(root, r.0, calls[1..]);
      (rest.0, [r.1] + rest.1)
  }

  /** A sound tree, and every held frame is in use, no table and not frame 0. */
  ghost predicate Shared(root: u64, w: World) {
    && (exists at :: Sound(w.mem, root, at, w.frames.used)) && |w.frames.used| * PAGE <= PHYS_LIMIT
    && forall f :: f in w.frames.held ==> 0 < f < |w.frames.used| && w.frames.used[f] && !TableAt(w.mem, f)
  }

  // ----- Map and unmap -----

  /** The descent keeps the tree and every walk, takes free frames only, and fails exactly when more tables
      are missing than frames are free. */
  lemma {:induction false} DescendSound(mem: Mem, root: u64, at: Places, used: seq<bool>, table: u64, v: u64,
                                        level: nat)
    returns (at': Places)
    requires Sound(mem, root, at, used) && |used| * PAGE <= PHYS_LIMIT
    requires level < LEVELS && table in at && at[table] == Path(v, level)
    ensures var w := Descend(mem, used, table, v, level);
            && Sound(w.mem, root, at', w.used) && Grown(mem, used, w.mem, w.used, root)
            && w.rc == (if Missing(mem, table, v, level) > P.CountFree(used) then NoMem else MapOk)
            && (w.rc == MapOk ==> w.table in at' && w.table in w.mem && at'[w.table] == Path(v, LEVELS - 1))
    decreases LEVELS - level
  {
    hide *;
    Tables(mem, root, at, used, table);
    GrownRefl(mem, used, root);
    P.CountFreeZero(used);
    DescendUnfold(mem, used, table, v, level);
    at' := at;
    if level == LEVELS - 1 {
      LastMissing(mem, table, v);
    } else {
      PathStep(v, level);
      var i := Index(v, level);
      if Present(mem[table][i]) {
        Child(mem, root, at, table, i);
        MissingStep(mem, table, v, level, mem, Addr(mem[table][i]));
        at' := DescendSound(mem, root, at, used, Addr(mem[table][i]), v, level + 1);
      } else {
        MissingHere(mem, table, v, level);
        var f := P.Lowest(used, 0);
        if f < |used| {
          InDevice(used, f);
          var n: u64 := f * PAGE;
          NewTable(mem, root, at, used, table, i, n);
          MissingStep(mem, table, v, level, AddTable(mem, table, i, n), n);
          at' := DescendSound(AddTable(mem, table, i, n), root, at[n := at[table] + [i]], used[f := true],
                              n, v, level + 1);
          var w := Descend(mem, used, table, v, level);
          GrownTrans(mem, used, AddTable(mem, table, i, n), used[f := true], w.mem, w.used, root);
        }
      }
    }
  }

  lemma Tables(mem: Mem, root: u64, at: Places, used: seq<bool>, table: u64)
    requires Sound(mem, root, at, used) && table in at
    ensures table in mem && LEVELS == 4 && PHYS_LIMIT < 0x1_0000_0000_0000_0000 && P.Lowest(used, 0) <= |used|
    ensures |at[table]| < LEVELS && Tree(mem, root, at)
  {
  }

  lemma InDevice(used: seq<bool>, f: nat)
    requires f < |used| && |used| * PAGE <= PHYS_LIMIT
    ensures 0 <= f * PAGE < PHYS_LIMIT < 0x1_0000_0000_0000_0000
  {
  }

  lemma LastMissing(mem: Mem, table: u64, v: u64)
    ensures Missing(mem, table, v, LEVELS - 1) == 0
  {
  }

  lemma DescendUnfold(mem: Mem, used: seq<bool>, table: u64, v: u64, level: nat)
    requires level < LEVELS && table in mem
    ensures level == LEVELS - 1 ==> Descend(mem, used, table, v, level) == Way(mem, used, MapOk, table)
    ensures level < LEVELS - 1 ==>
              var i, f := Index(v, level), P.Lowest(used, 0);
              var e := mem[table][i];
              Descend(mem, used, table, v, level) ==
                if Present(e) then
                  if IsHuge(e) then Way(mem, used, Exists, 0) else Descend(mem, used, Addr(e), v, level + 1)
                else if f == |used| || f * PAGE >= PHYS_LIMIT then Way(mem, used, NoMem, 0)
                else Descend(AddTable(mem, table, i, f * PAGE), used[f := true], f * PAGE, v, level + 1)
  {
    hide Present, IsHuge, Addr, P.Lowest, AddTable, Index;
  }

  lemma Child(mem: Mem, root: u64, at: Places, t: u64, i: nat)
    requires Tree(mem, root, at) && t in at && t in mem && |at[t]| < LEVELS - 1 && i < ENTRIES && Present(mem[t][i])
    ensures !IsHuge(mem[t][i]) && Addr(mem[t][i]) in at && at[Addr(mem[t][i])] == at[t] + [i]
  {
    hide HasParent, Present, IsHuge, Addr, Aligned;
    assert LinkOk(mem, at, t, i);
  }

  /** What vmm_map_page keeps, changes and answers. */
  lemma MapSound(mem: Mem, root: u64, at: Places, used: seq<bool>, v: u64, paddr: u64, flags: u64) returns (at': Places)
    requires Sound(mem, root, at, used) && |used| * PAGE <= PHYS_LIMIT
    ensures var r := MapEffect(mem, used, root, v, paddr, flags);
            && Sound(r.0, root, at', r.1) && FramesTaken(mem, used, r.0, r.1)
            && r.2 == MapCode(mem, root, P.CountFree(used), v, paddr)
            && View(r.0, root) == if r.2 == MapOk then Mapped(View(mem, root), v, paddr, flags) else View(mem, root)
  {
    hide *;
    at' := at;
    RootAt(mem, root, at, used, v);
    GrownRefl(mem, used, root);
    MapEffectIs(mem, used, root, v, paddr, flags);
    MapCodeIs(mem, root, P.CountFree(used), v, paddr);
    GrownView(mem, used, mem, used, root);
    if PageAddress(v) && Aligned(paddr) {
      at' := DescendSound(mem, root, at, used, root, v, 0);
      var w := Descend(mem, used, root, v, 0);
      GrownView(mem, used, w.mem, w.used, root);
      if w.rc == MapOk {
        Tables(w.mem, root, at', w.used, w.table);
        WalkLandsAt(w.mem, root, at', w.table, v);
        ViewAt(w.mem, root, v);
        LeafAt(w.mem, root, at', w.used, w.table, v, LeafEntry(paddr, flags));
        LeafMapped(View(mem, root), v, paddr, flags);
        if !Present(w.mem[w.table][Index(v, LEVELS - 1)]) {
          TakenKeys(mem, used, w.mem, SetEntry(w.mem, w.table, Index(v, LEVELS - 1), LeafEntry(paddr, flags)), w.used);
        }
      }
    }
  }

  lemma RootAt(mem: Mem, root: u64, at: Places, used: seq<bool>, v: u64)
    requires Sound(mem, root, at, used)
    ensures root in at && at[root] == Path(v, 0) && LEVELS == 4
  {
  }

  lemma {:induction false} LastTableSound(mem: Mem, root: u64, at: Places, table: u64, v: u64, level: nat)
    requires Tree(mem, root, at) && level < LEVELS && table in at && table in mem && at[table] == Path(v, level)
    ensures var pt := LastTableOf(mem, table, v, level);
            if pt.Some?
            then
              && pt.value in at && pt.value in mem && at[pt.value] == Path(v, LEVELS - 1)
              && WalkFrom(mem, table, v, level) == WalkFrom(mem, pt.value, v, LEVELS - 1)
            else WalkFrom(mem, table, v, level) == None
    decreases LEVELS - level
  {
    hide Present, IsHuge, Addr, HasParent, Path, Index, PageTable.Tree;
    if level < LEVELS - 1 {
      PathStep(v, level);
      var e := mem[table][Index(v, level)];
      if Present(e) {
        Child(mem, root, at, table, Index(v, level));
        SameTables(mem, root, at);
        LastTableSound(mem, root, at, Addr(e), v, level + 1);
      }
    }
  }

  lemma SameTables(mem: Mem, root: u64, at: Places)
    requires Tree(mem, root, at)
    ensures at.Keys == mem.Keys
  {
  }

  /** What vmm_unmap_page keeps, changes and answers. */
  lemma UnmapSound(mem: Mem, root: u64, at: Places, used: seq<bool>, v: u64)
    requires Sound(mem, root, at, used)
    ensures var r := UnmapEffect(mem, root, v);
            && Sound(r.0, root, at, used) && r.0.Keys == mem.Keys && r.1 == UnmapCode(mem, root, v)
            && View(r.0, root) == if r.1 == MapOk then View(mem, root) - {v} else View(mem, root)
  {
    hide *;
    RootAt(mem, root, at, used, v);
    Tables(mem, root, at, used, root);
    UnmapEffectIs(mem, root, v);
    UnmapCodeIs(mem, root, v);
    ViewAt(mem, root, v);
    if PageAddress(v) {
      LastTableSound(mem, root, at, root, v, 0);
      WalkIs(mem, root, v);
      var pt := LastTableOf(mem, root, v, 0);
      if pt.Some? {
        LastStep(mem, pt.value, v);
        ZeroEntry();
        LeafAt(mem, root, at, used, pt.value, v, 0);
      }
    }
  }

  /** What vmm_unmap_page answers. */
  ghost function UnmapCode(mem: Mem, root: u64, v: u64): Rc {
    if !PageAddress(v) then Inval else if v in View(mem, root) then MapOk else NotFound
  }

  lemma UnmapCodeIs(mem: Mem, root: u64, v: u64)
    ensures UnmapCode(mem, root, v) ==
              if !PageAddress(v) then Inval else if v in View(mem, root) then MapOk else NotFound
  {
    hide View, PageAddress;
  }

  lemma WalkIs(mem: Mem, root: u64, v: u64)
    ensures Walk(mem, root, v) == WalkFrom(mem, root, v, 0)
  {
  }

  // ----- The other users -----

  /** More frames in use never hurts a tree. */
  lemma MoreUsed(mem: Mem, root: u64, at: Places, used: seq<bool>, used': seq<bool>)
    requires Sound(mem, root, at, used) && |used'| == |used| && forall f :: 0 <= f < |used| && used[f] ==> used'[f]
    ensures Sound(mem, root, at, used')
  {
    hide PageTable.Tree;
  }

  /** Freeing a frame that holds no table leaves the tree sound. */
  lemma FreeKeepsSound(mem: Mem, root: u64, at: Places, used: seq<bool>, f: nat)
    requires Sound(mem, root, at, used) && 0 < f < |used| && !TableAt(mem, f)
    ensures Sound(mem, root, at, used[f := false])
  {
    hide PageTable.Tree, Aligned;
    TablesAligned(mem, root, at);
    forall t | t in mem ensures t as int / PAGE != f {
      PageOf(t);
    }
  }

  lemma TablesAligned(mem: Mem, root: u64, at: Places)
    requires Tree(mem, root, at)
    ensures forall t :: t in mem ==> Aligned(t) && t < PHYS_LIMIT
  {
  }

  lemma PageOf(t: u64)
    ensures Aligned(t) ==> t as int / PAGE * PAGE == t
  {
  }

  /** A call by another user keeps tables and held frames apart. */
  lemma OthersKeep(root: u64, w: World, op: P.Op)
    requires Shared(root, w) && (op.Free? ==> op.addr / PAGE in w.frames.held)
    ensures Shared(root, World(w.mem, P.Step(w.frames, op)))
  {
    hide PageTable.Tree, P.RangeUses, P.Lowest;
    var at :| Sound(w.mem, root, at, w.frames.used);
    match op {
      case Alloc =>
        if P.Lowest(w.frames.used, 0) < |w.frames.used| {
          AllocationAvoidsTables(w.mem, root, at, w.frames.used);
          assert Sound(w.mem, root, at, P.Step(w.frames, op).used);
        }
      case Free(addr) =>
        FreeKeepsSound(w.mem, root, at, w.frames.used, addr / PAGE);
        assert Sound(w.mem, root, at, P.Step(w.frames, op).used);
      case Reserve(base, length) =>
        MoreUsed(w.mem, root, at, w.frames.used, P.Step(w.frames, op).used);
    }
  }

  // ----- Runs -----

  /** What a call answers, from the view and the tables before it. */
  ghost function Answer(root: u64, w: World, c: Call): Rc {
    if c.Map? then MapCode(w.mem, root, P.CountFree(w.frames.used), c.v, c.paddr)
    else if c.Unmap? then UnmapCode(w.mem, root, c.v)
    else if c.op.Free? && c.op.addr / PAGE !in w.frames.held then Inval
    else MapOk
  }

  /** The view after one call that answered rc. */
  ghost function CallView(view: imap<u64, Mapping>, c: Call, rc: Rc): imap<u64, Mapping> {
    if rc != MapOk then view
    else if c.Map? then Mapped(view, c.v, c.paddr, c.flags)
    else if c.Unmap? then view - {c.v}
    else view
  }

  /** The view after calls that answered rcs. */
  ghost function ViewAfter(view: imap<u64, Mapping>, calls: seq<Call>, rcs: seq<Rc>): imap<u64, Mapping>
    requires |rcs| == |calls|
    decreases |calls|
  {
    if calls == [] then view else ViewAfter(CallView(view, calls[0], rcs[0]), calls[1..], rcs[1..])
  }

  /** One call keeps tables and held frames apart, answers right, and only the space's own calls change its
      view. */
  lemma NextKeeps(root: u64, w: World, c: Call)
    requires Shared(root, w)
    ensures var r := Next(root, w, c);
            Shared(root, r.0) && r.1 == Answer(root, w, c) && View(r.0.mem, root) == CallView(View(w.mem, root), c, r.1)
  {
    hide PageTable.Tree, View, MapCode, UnmapCode, Mapped, MapEffect, UnmapEffect, P.CountFree, P.Lowest, P.Step, Sound;
    var at :| Sound(w.mem, root, at, w.frames.used);
    if c.Map? {
      var at' := MapSound(w.mem, root, at, w.frames.used, c.v, c.paddr, c.flags);
    } else if c.Unmap? {
      UnmapSound(w.mem, root, at, w.frames.used, c.v);
    } else if !(c.op.Free? && c.op.addr / PAGE !in w.frames.held) {
      hide Shared;
      OthersKeep(root, w, c.op);
    }
  }

  /** Over every run that mixes maps and unmaps of this space with allocations, frees and reservations by others:
      the tree stays sound, no held frame is a table, and the view is what the space's own successful calls
      make of it. */
  lemma {:induction false} SharedRuns(root: u64, w: World, calls: seq<Call>)
    requires Shared(root, w)
    ensures var r := RunCalls(root, w, calls);
            && Shared(root, r.0) && |r.1| == |calls|
            && View(r.0.mem, root) == ViewAfter(View(w.mem, root), calls, r.1)
    decreases |calls|
  {
    hide Shared, Next, View, CallView;
    if calls != [] {
      NextKeeps(root, w, calls[0]);
      SharedRuns(root, Next(root, w, calls[0]).0, calls[1..]);
      var rest := RunCalls(root, Next(root, w, calls[0]).0, calls[1..]);
      assert ([Next(root, w, calls[0]).1] + rest.1)[1..] == rest.1;
    }
  }

  // ----- Conservation of frames -----

  /** Frame f is in use, but is neither a table of the space nor held by another user. */
  ghost predicate Unclaimed(w: World, f: nat) {
    f < |w.frames.used| && w.frames.used[f] && f !in w.frames.held && !TableAt(w.mem, f)
  }

  lemma NextAccounts(root: u64, w: World, c: Call)
    requires Shared(root, w) && !(c.Others? && c.op.Reserve?)
    ensures var r := Next(root, w, c).0;
            && |r.frames.used| == |w.frames.used|
            && forall f :: 0 <= f < |w.frames.used| ==> (Unclaimed(r, f) <==> Unclaimed(w, f))
  {
    hide PageTable.Tree, View, MapCode, UnmapCode, Mapped, MapEffect, UnmapEffect, P.CountFree, P.Lowest, Sound;
    hide TableAt;
    var at :| Sound(w.mem, root, at, w.frames.used);
    if c.Map? {
      hide P.Step;
      var at' := MapSound(w.mem, root, at, w.frames.used, c.v, c.paddr, c.flags);
      TakenAccounts(w, Next(root, w, c).0);
    } else if c.Unmap? {
      hide P.Step;
      UnmapSound(w.mem, root, at, w.frames.used, c.v);
      SameKeys(w.mem, UnmapEffect(w.mem, root, c.v).0);
    } else if c.op.Alloc? {
      AllocApart(root, w, at);
    }
  }

  lemma SameKeys(mem: Mem, mem': Mem)
    requires mem'.Keys == mem.Keys
    ensures forall f: nat :: TableAt(mem', f) == TableAt(mem, f)
  {
  }

  /** Frames taken as tables were free before. */
  lemma TakenAccounts(w: World, r: World)
    requires FramesTaken(w.mem, w.frames.used, r.mem, r.frames.used) && r.frames.held == w.frames.held
    ensures forall f :: 0 <= f < |w.frames.used| ==> (Unclaimed(r, f) <==> Unclaimed(w, f))
  {
    forall f | 0 <= f < |w.frames.used| ensures TableAt(w.mem, f) ==> TableAt(r.mem, f) {
    }
    hide TableAt;
  }

  lemma AllocApart(root: u64, w: World, at: Places)
    requires Shared(root, w) && Sound(w.mem, root, at, w.frames.used)
    ensures var f := P.Lowest(w.frames.used, 0); f < |w.frames.used| ==> !TableAt(w.mem, f)
  {
    hide PageTable.Tree, P.Lowest;
    if P.Lowest(w.frames.used, 0) < |w.frames.used| {
      AllocationAvoidsTables(w.mem, root, at, w.frames.used);
    }
  }

  /** Conservation: over a run without reservations every frame that is taken is a table or is held, and nothing else
      changes hands. */
  lemma {:induction false} RunsAccount(root: u64, w: World, calls: seq<Call>)
    requires Shared(root, w) && forall i :: 0 <= i < |calls| ==> !(calls[i].Others? && calls[i].op.Reserve?)
    ensures var r := RunCalls(root, w, calls).0;
            && |r.frames.used| == |w.frames.used|
            && forall f :: 0 <= f < |w.frames.used| ==> (Unclaimed(r, f) <==> Unclaimed(w, f))
    decreases |calls|
  {
    hide Shared, Next, Unclaimed;
    if calls != [] {
      NextKeeps(root, w, calls[0]);
      NextAccounts(root, w, calls[0]);
      RunsAccount(root, Next(root, w, calls[0]).0, calls[1..]);
    }
  }
}
