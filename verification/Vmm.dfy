/** The virtual memory manager over the frame allocator: map, query and unmap on a four-level tree. */
module Vmm {
  import opened Bytes
  import opened PageTable
  import P = Pmm

  datatype Rc = MapOk | Inval | NoMem | Exists | NotFound

  datatype Mapping = Mapping(paddr: u64, flags: u64)

  /** The partial map from pages to frames and flags that a page-table tree stands for. */
  ghost function View(mem: Mem, root: u64): imap<u64, Mapping> {
    imap v: u64 | PageAddress(v) && Walk(mem, root, v).Some? ::
      Mapping(Addr(Walk(mem, root, v).value), FlagBits(Walk(mem, root, v).value))
  }

  ghost predicate SameWalks(mem: Mem, mem': Mem, root: u64) {
    forall v :: Walk(mem', root, v) == Walk(mem, root, v)
  }

  lemma SameView(mem: Mem, mem': Mem, root: u64)
    requires SameWalks(mem, mem', root)
    ensures View(mem', root) == View(mem, root)
  {
    hide Walk, PageAddress, Addr, FlagBits;
  }

  /** A leaf written for v is an update of the view at v. */
  lemma LeafView(mem: Mem, root: u64, at: Places, t: u64, v: u64, e: u64)
    requires Tree(mem, root, at) && PageAddress(v) && t in at && at[t] == Path(v, LEVELS - 1)
    ensures var view := View(SetEntry(mem, t, Index(v, LEVELS - 1), e), root);
            view == if Present(e) then View(mem, root)[v := Mapping(Addr(e), FlagBits(e))] else View(mem, root) - {v}
  {
    LeafUpdate(mem, root, at, t, v, e);
    ViewUpdate(mem, SetEntry(mem, t, Index(v, LEVELS - 1), e), root, v, e);
    hide *;
  }

  lemma ViewUpdate(mem: Mem, mem': Mem, root: u64, v: u64, e: u64)
    requires PageAddress(v) && Walk(mem', root, v) == (if Present(e) then Some(e) else None)
    requires forall w :: PageAddress(w) && w != v ==> Walk(mem', root, w) == Walk(mem, root, w)
    ensures View(mem', root) == if Present(e) then View(mem, root)[v := Mapping(Addr(e), FlagBits(e))]
                                else View(mem, root) - {v}
  {
    hide Walk, PageAddress, Addr, FlagBits, Present;
  }

  /** How many tables are missing on v's path, from `table` at `level` down. */
  function Missing(mem: Mem, table: u64, v: u64, level: nat): (n: nat)
    requires level < LEVELS
    ensures n < LEVELS - level
    decreases LEVELS - level
  {
    if level == LEVELS - 1 || table !in mem then 0
    else
      var e := mem[table][Index(v, level)];
      if Present(e) then Missing(mem, Addr(e), v, level + 1) else LEVELS - 1 - level
  }

  /** Every table lives in a frame the allocator knows to be taken. */
  ghost predicate Backed(mem: Mem, used: seq<bool>) {
    forall t :: t in mem ==> t as int / PAGE < |used| && used[t as int / PAGE]
  }

  /** Between the two halves of the address space, or not at the start of a page. */
  predicate OffPage(v: u64) {
    0x8000_0000_0000 <= v < 0xFFFF_8000_0000_0000 || v as int % 4096 != 0
  }

  /** What vmm_map_page answers. */
  ghost function MapCode(mem: Mem, root: u64, free: nat, v: u64, paddr: u64): Rc {
    if !PageAddress(v) || !Aligned(paddr) then Inval
    else if Missing(mem, root, v, 0) > free then NoMem
    else if v in View(mem, root) then Exists
    else MapOk
  }

  /** The view with v mapped to paddr: the address loses its bits above 51, the flags keep the allowed bits. */
  ghost function Mapped(view: imap<u64, Mapping>, v: u64, paddr: u64, flags: u64): imap<u64, Mapping> {
    view[v := Mapping(paddr as int % PHYS_LIMIT, 1 + Allowed(flags))]
  }

  /** A tree of backed tables; frame 0 is never a table. */
  ghost predicate Sound(mem: Mem, root: u64, at: Places, used: seq<bool>) {
    Tree(mem, root, at) && Backed(mem, used) && |used| > 0 && used[0]
  }

  /** The tables have only grown: no walk has changed, and the frames taken are exactly the new tables. */
  ghost predicate Grown(mem: Mem, used: seq<bool>, mem': Mem, used': seq<bool>, root: u64) {
    SameWalks(mem, mem', root) && FramesTaken(mem, used, mem', used')
  }

  // ----- What the calls do to tables and frames -----

  /** Where a descent ended: the last-level table, or the code it stopped with. */
  datatype Way = Way(mem: Mem, used: seq<bool>, rc: Rc, table: u64)

  /** The table steps of vmm_map_page from `table` at `level` down: present links are followed, missing tables
      are taken from the lowest free frame. */
  function Descend(mem: Mem, used: seq<bool>, table: u64, v: u64, level: nat): Way
    requires level < LEVELS
    decreases LEVELS - level
  {
    if table !in mem then Way(mem, used, Inval, 0)
    else if level == LEVELS - 1 then Way(mem, used, MapOk, table)
    else
      var e := mem[table][Index(v, level)];
      if Present(e) then if IsHuge(e) then Way(mem, used, Exists, 0) else Descend(mem, used, Addr(e), v, level + 1)
      else
        var f := P.Lowest(used, 0);
        if f == |used| || f * PAGE >= PHYS_LIMIT then Way(mem, used, NoMem, 0)
        else Descend(AddTable(mem, table, Index(v, level), f * PAGE), used[f := true], f * PAGE, v, level + 1)
  }

  /** vmm_map_page as a function of the tables and the frames in use. */
  function MapEffect(mem: Mem, used: seq<bool>, root: u64, v: u64, paddr: u64, flags: u64): (Mem, seq<bool>, Rc) {
    if !PageAddress(v) || !Aligned(paddr) then (mem, used, Inval)
    else
      var w := Descend(mem, used, root, v, 0);
      if w.rc != MapOk || w.table !in w.mem then (w.mem, w.used, w.rc)
      else if Present(w.mem[w.table][Index(v, LEVELS - 1)]) then (w.mem, w.used, Exists)
      else (SetEntry(w.mem, w.table, Index(v, LEVELS - 1), LeafEntry(paddr, flags)), w.used, MapOk)
  }

  /** The last-level table of v, if every link to it is present. */
  function LastTableOf(mem: Mem, table: u64, v: u64, level: nat): Option<u64>
    requires level < LEVELS
    decreases LEVELS - level
  {
    if table !in mem then None
    else if level == LEVELS - 1 then Some(table)
    else
      var e := mem[table][Index(v, level)];
      if !Present(e) || IsHuge(e) then None else LastTableOf(mem, Addr(e), v, level + 1)
  }

  /** vmm_unmap_page as a function of the tables. */
  function UnmapEffect(mem: Mem, root: u64, v: u64): (Mem, Rc) {
    if !PageAddress(v) then (mem, Inval)
    else
      var pt := LastTableOf(mem, root, v, 0);
      if pt.None? || pt.value !in mem || !Present(mem[pt.value][Index(v, LEVELS - 1)]) then (mem, NotFound)
      else (SetEntry(mem, pt.value, Index(v, LEVELS - 1), 0), MapOk)
  }

  /** A present entry with the huge bit above the last level, wherever it comes from, ends every walk through it: a map
      answers Exists without touching a table or a frame, and query and unmap find no table below. */
  lemma HugeEntryStops(mem: Mem, used: seq<bool>, table: u64, v: u64, level: nat)
    requires level < 3 && table in mem && Present(mem[table][Index(v, level)]) && IsHuge(mem[table][Index(v, level)])
    ensures level < LEVELS && Descend(mem, used, table, v, level) == Way(mem, used, Exists, 0)
    ensures WalkFrom(mem, table, v, level) == None && LastTableOf(mem, table, v, level) == None
    ensures level == 0 && PageAddress(v) ==> UnmapEffect(mem, table, v) == (mem, NotFound)
    ensures level == 0 && PageAddress(v) ==>
              forall paddr, flags :: Aligned(paddr) ==>
                MapEffect(mem, used, table, v, paddr, flags) == (mem, used, Exists)
  {
    hide Present, IsHuge, PageAddress, Aligned, Index, LeafEntry, SetEntry, P.Lowest, AddTable;
  }

  /** One step of the descent. */
  ghost predicate Descends(mem: Mem, used: seq<bool>, table: u64, index: nat, rc: Rc, next: u64, mem': Mem,
                           used': seq<bool>)
  {
    && table in mem && index < ENTRIES
    && var e, f := mem[table][index], P.Lowest(used, 0);
       if Present(e) then rc == MapOk && !IsHuge(e) && next == Addr(e) && mem' == mem && used' == used
       else if f == |used| || f * PAGE >= PHYS_LIMIT then rc == NoMem && mem' == mem && used' == used
       else
         && rc == MapOk && next as int == f * PAGE
         && mem' == AddTable(mem, table, index, next) && used' == used[f := true]
  }

  class Space {
    const root: u64
    const pmm: P.Pmm
    var mem: Mem
    ghost var at: Places

    ghost predicate Valid()
      reads this, pmm, pmm.bitmap
    {
      pmm.Valid() && pmm.initialized && pmm.maxPhys <= PHYS_LIMIT && Sound(mem, root, at, pmm.Used())
    }

    /** vmm_space_init over a zeroed root table in a frame taken from the allocator. */
    constructor (rootPaddr: u64, frames: P.Pmm)
      requires frames.Valid() && frames.initialized && frames.maxPhys <= PHYS_LIMIT && frames.frameCount > 0
      requires frames.Used()[0]
      requires Aligned(rootPaddr) && 0 < rootPaddr < frames.maxPhys && frames.Used()[rootPaddr as int / PAGE]
      ensures Valid() && root == rootPaddr && pmm == frames && View(mem, root) == imap[]
    {
      root, pmm := rootPaddr, frames;
      mem, at := map[rootPaddr := ZeroPage()], map[rootPaddr := []];
      new;
      EmptyTree(rootPaddr);
    }

    /** get_or_alloc_next_table: follows a present link, or links a new frame. */
    method GetOrAllocNextTable(table: u64, index: nat) returns (rc: Rc, next: u64)
      requires Valid() && table in at && table in mem && |at[table]| < LEVELS - 1 && index < ENTRIES
      modifies this`mem, this`at, pmm`freeFrames, pmm`usedFrames, pmm`nextHint, pmm.bitmap
      ensures Valid() && Grown(old(mem), old(pmm.Used()), mem, pmm.Used(), root)
      ensures rc == if !Present(old(mem[table][index])) && old(pmm.freeFrames) == 0 then NoMem else MapOk
      ensures rc == MapOk ==> next in at && next in mem && at[next] == old(at[table]) + [index]
      ensures if Present(old(mem[table][index]))
              then next == Addr(old(mem[table][index])) && mem == old(mem) && pmm.freeFrames == old(pmm.freeFrames)
              else rc == MapOk ==> next !in old(mem) && mem == AddTable(old(mem), table, index, next)
                                   && pmm.freeFrames == old(pmm.freeFrames) - 1
      ensures Descends(old(mem), old(pmm.Used()), table, index, rc, next, mem, pmm.Used())
    {
      hide *;
      ValidParts(this);
      GrownRefl(mem, pmm.Used(), root);
      next := 0;
      var entry := mem[table][index];
      if Present(entry) {
        ChildOf(this, table, index);
        if IsHuge(entry) {
          assert false;
          rc := Exists;
          return;
        }
        Followed(mem, pmm.Used(), table, index);
        return MapOk, Addr(entry);
      }
      rc, next := AllocNextTable(table, index);
    }

    /** The allocating half of get_or_alloc_next_table. */
    method AllocNextTable(table: u64, index: nat) returns (rc: Rc, next: u64)
      requires Valid() && table in at && table in mem && |at[table]| < LEVELS - 1 && index < ENTRIES
      requires !Present(mem[table][index])
      modifies this`mem, this`at, pmm`freeFrames, pmm`usedFrames, pmm`nextHint, pmm.bitmap
      ensures Valid() && Grown(old(mem), old(pmm.Used()), mem, pmm.Used(), root)
      ensures rc == if old(pmm.freeFrames) == 0 then NoMem else MapOk
      ensures rc == MapOk ==> next in at && next in mem && at[next] == old(at[table]) + [index]
      ensures rc == MapOk ==> next !in old(mem) && mem == AddTable(old(mem), table, index, next)
                              && pmm.freeFrames == old(pmm.freeFrames) - 1
      ensures Descends(old(mem), old(pmm.Used()), table, index, rc, next, mem, pmm.Used())
    {
      hide PageTable.Tree, Sound, Grown, Present, IsHuge, Addr, Walk, LinkEntry, ZeroPage, P.CountFree, P.Lowest;
      hide P.Bits;
      ghost var used := pmm.Used();
      GrownRefl(mem, used, root);
      P.CountFreeZero(used);
      rc, next := NoMem, 0;
      var n := pmm.AllocFrame();
      if n == P.INVALID_FRAME {
        NoneTaken(mem, used, table, index);
        return;
      }
      NewTable(mem, root, at, used, table, index, n);
      Taken(mem, used, table, index, n);
      if !Aligned(n) {
        assert false;
        return;
      }
      at := at[n := at[table] + [index]];
      mem := mem[table := mem[table][index := LinkEntry(n)]][n := ZeroPage()];
      return MapOk, n;
    }

    /** One level of vmm_map_page: the frames still needed and the frames still free shrink together. */
    method NextTable(v: u64, table: u64, level: nat) returns (rc: Rc, next: u64)
      requires Valid() && level < LEVELS - 1 && table in at && at[table] == Path(v, level)
      modifies this`mem, this`at, pmm`freeFrames, pmm`usedFrames, pmm`nextHint, pmm.bitmap
      ensures Valid() && Grown(old(mem), old(pmm.Used()), mem, pmm.Used(), root)
      ensures rc == MapOk || (rc == NoMem && old(pmm.freeFrames) == 0 && old(Missing(mem, table, v, level)) > 0)
      ensures rc == MapOk ==> next in at && at[next] == Path(v, level + 1)
      ensures rc == MapOk ==>
                pmm.freeFrames - Missing(mem, next, v, level + 1) ==
                  old(pmm.freeFrames) - old(Missing(mem, table, v, level))
      ensures Descend(old(mem), old(pmm.Used()), table, v, level) ==
                if rc == MapOk then Descend(mem, pmm.Used(), next, v, level + 1) else Way(mem, pmm.Used(), rc, 0)
    {
      hide *;
      ValidParts(this);
      ghost var mem0 := mem;
      ghost var used0 := pmm.Used();
      PathStep(v, level);
      rc, next := GetOrAllocNextTable(table, Index(v, level));
      DescendStep(mem0, used0, table, v, level, rc, next, mem, pmm.Used());
      if rc == MapOk {
        MissingStep(mem0, table, v, level, mem, next);
      } else {
        MissingHere(mem0, table, v, level);
      }
    }

    /** The three table steps of vmm_map_page. */
    method LastTable(v: u64) returns (rc: Rc, pt: u64)
      requires Valid()
      modifies this`mem, this`at, pmm`freeFrames, pmm`usedFrames, pmm`nextHint, pmm.bitmap
      ensures Valid() && Grown(old(mem), old(pmm.Used()), mem, pmm.Used(), root)
      ensures rc == if old(Missing(mem, root, v, 0)) > old(pmm.freeFrames) then NoMem else MapOk
      ensures rc == MapOk ==> pt in at && at[pt] == Path(v, LEVELS - 1)
      ensures Descend(old(mem), old(pmm.Used()), root, v, 0) == Way(mem, pmm.Used(), rc, if rc == MapOk then pt else 0)
    {
      hide *;
      ValidParts(this);
      ghost var mem0, used0 := mem, pmm.Used();
      RootPlace(this, v);
      NoneMissing(v);
      pt := 0;
      var pdpt, pd;
      rc, pdpt := NextTable(v, root, 0);
      if rc != MapOk {
        return;
      }
      ghost var mem1, used1 := mem, pmm.Used();
      rc, pd := NextTable(v, pdpt, 1);
      GrownTrans(mem0, used0, mem1, used1, mem, pmm.Used(), root);
      if rc != MapOk {
        return;
      }
      ghost var mem2, used2 := mem, pmm.Used();
      rc, pt := NextTable(v, pd, 2);
      GrownTrans(mem0, used0, mem2, used2, mem, pmm.Used(), root);
      if rc == MapOk {
        DescendEnd(this, pt, v);
      }
    }

    /** vmm_map_page. */
    method MapPage(v: u64, paddr: u64, flags: u64) returns (rc: Rc)
      requires Valid()
      modifies this`mem, this`at, pmm`freeFrames, pmm`usedFrames, pmm`nextHint, pmm.bitmap
      ensures Valid() && FramesTaken(old(mem), old(pmm.Used()), mem, pmm.Used())
      ensures rc == MapCode(old(mem), root, old(pmm.freeFrames), v, paddr)
      ensures rc == Inval <==> OffPage(v) || paddr as int % 4096 != 0
      ensures View(mem, root) == if rc == MapOk then Mapped(old(View(mem, root)), v, paddr, flags)
                                 else old(View(mem, root))
      ensures (mem, pmm.Used(), rc) == MapEffect(old(mem), old(pmm.Used()), root, v, paddr, flags)
    {
      hide *;
      ValidParts(this);
      MapEffectIs(mem, pmm.Used(), root, v, paddr, flags);
      OffPageIs(v);
      AlignedIs(paddr);
      ghost var mem0, used0, free0 := mem, pmm.Used(), pmm.freeFrames;
      GrownRefl(mem, used0, root);
      PageAddressIs(v);
      if !Canonical(v) || !Aligned(v) || !Aligned(paddr) {
        GrownView(mem0, used0, mem, pmm.Used(), root);
        MapCodeIs(mem0, root, free0, v, paddr);
        return Inval;
      }
      var pt;
      rc, pt := LastTable(v);
      GrownView(mem0, used0, mem, pmm.Used(), root);
      MapCodeIs(mem0, root, free0, v, paddr);
      if rc != MapOk {
        return;
      }
      ValidParts(this);
      MappedIff(this, pt, v);
      if Present(mem[pt][Index(v, 3)]) {
        return Exists;
      }
      ghost var mem1 := mem;
      LeafStep(this, pt, v, LeafEntry(paddr, flags));
      LeafMapped(View(mem, root), v, paddr, flags);
      mem := SetEntry(mem, pt, Index(v, 3), LeafEntry(paddr, flags));
      TakenKeys(mem0, used0, mem1, mem, pmm.Used());
      ValidFrom(this);
    }

    /** The table steps that vmm_query_page and vmm_unmap_page share: the last-level table of v, if every
        link is present. */
    method FindTable(v: u64) returns (found: bool, pt: u64)
      requires Valid()
      ensures found ==> pt in at && pt in mem && at[pt] == Path(v, LEVELS - 1)
      ensures Walk(mem, root, v) == if found then WalkFrom(mem, pt, v, LEVELS - 1) else None
      ensures LastTableOf(mem, root, v, 0) == if found then Some(pt) else None
    {
      hide *;
      ValidParts(this);
      RootPlace(this, v);
      WalkStep(this, root, v, 0);
      pt := 0;
      var e := mem[root][Index(v, 0)];
      if !Present(e) || IsHuge(e) {
        return false, 0;
      }
      var pdpt := Addr(e);
      WalkStep(this, pdpt, v, 1);
      e := mem[pdpt][Index(v, 1)];
      if !Present(e) || IsHuge(e) {
        return false, 0;
      }
      var pd := Addr(e);
      WalkStep(this, pd, v, 2);
      e := mem[pd][Index(v, 2)];
      if !Present(e) || IsHuge(e) {
        return false, 0;
      }
      LastStep(mem, Addr(e), v);
      return true, Addr(e);
    }

    /** vmm_query_page. */
    method QueryPage(v: u64) returns (rc: Rc, out: Mapping)
      requires Valid()
      ensures rc == if !PageAddress(v) then Inval else if v in View(mem, root) then MapOk else NotFound
      ensures rc == Inval <==> OffPage(v)
      ensures rc == MapOk ==> out == View(mem, root)[v]
    {
      hide *;
      ValidParts(this);
      PageAddressIs(v);
      OffPageIs(v);
      rc, out := Inval, Mapping(0, 0);
      ViewAt(mem, root, v);
      if !Canonical(v) || !Aligned(v) {
        return;
      }
      var found, pt := FindTable(v);
      if !found {
        return NotFound, out;
      }
      LastStep(mem, pt, v);
      var e := mem[pt][Index(v, 3)];
      if !Present(e) {
        return NotFound, out;
      }
      return MapOk, Mapping(Addr(e), FlagBits(e));
    }

    /** vmm_unmap_page. */
    method UnmapPage(v: u64) returns (rc: Rc)
      requires Valid()
      modifies this`mem
      ensures Valid() && mem.Keys == old(mem.Keys)
      ensures rc == if !PageAddress(v) then Inval else if v in old(View(mem, root)) then MapOk else NotFound
      ensures rc == Inval <==> OffPage(v)
      ensures View(mem, root) == if rc == MapOk then old(View(mem, root)) - {v} else old(View(mem, root))
      ensures (mem, rc) == UnmapEffect(old(mem), root, v)
    {
      hide *;
      ValidParts(this);
      UnmapEffectIs(mem, root, v);
      PageAddressIs(v);
      OffPageIs(v);
      ViewAt(mem, root, v);
      if !Canonical(v) || !Aligned(v) {
        return Inval;
      }
      var found, pt := FindTable(v);
      if !found {
        return NotFound;
      }
      LastStep(mem, pt, v);
      if !Present(mem[pt][Index(v, 3)]) {
        return NotFound;
      }
      LeafStep(this, pt, v, 0);
      ZeroEntry();
      mem := SetEntry(mem, pt, Index(v, 3), 0);
      ValidFrom(this);
      rc := MapOk;
    }
  }

  lemma Followed(mem: Mem, used: seq<bool>, table: u64, index: nat)
    requires table in mem && index < ENTRIES && Present(mem[table][index]) && !IsHuge(mem[table][index])
    ensures Descends(mem, used, table, index, MapOk, Addr(mem[table][index]), mem, used)
  {
    hide Present, IsHuge, Addr, P.Lowest;
  }

  lemma Taken(mem: Mem, used: seq<bool>, table: u64, index: nat, n: u64)
    requires table in mem && index < ENTRIES && !Present(mem[table][index]) && P.Lowest(used, 0) < |used|
    requires n as int == P.Lowest(used, 0) * PAGE < PHYS_LIMIT
    ensures Descends(mem, used, table, index, MapOk, n, AddTable(mem, table, index, n), used[P.Lowest(used, 0) := true])
  {
    hide Present, IsHuge, Addr, P.Lowest, AddTable;
  }

  lemma NoneTaken(mem: Mem, used: seq<bool>, table: u64, index: nat)
    requires table in mem && index < ENTRIES && !Present(mem[table][index]) && P.Lowest(used, 0) == |used|
    ensures Descends(mem, used, table, index, NoMem, 0, mem, used)
  {
    hide Present, IsHuge, Addr, P.Lowest, AddTable;
  }

  lemma DescendStep(mem: Mem, used: seq<bool>, table: u64, v: u64, level: nat, rc: Rc, next: u64, mem': Mem,
                    used': seq<bool>)
    requires level < LEVELS - 1 && Descends(mem, used, table, Index(v, level), rc, next, mem', used')
    ensures Descend(mem, used, table, v, level) ==
              if rc == MapOk then Descend(mem', used', next, v, level + 1) else Way(mem', used', rc, 0)
  {
    hide Present, IsHuge, Addr, P.Lowest, AddTable, Index;
  }

  lemma DescendEnd(s: Space, pt: u64, v: u64)
    requires s.Valid() && pt in s.at
    ensures Descend(s.mem, s.pmm.Used(), pt, v, LEVELS - 1) == Way(s.mem, s.pmm.Used(), MapOk, pt) && LEVELS == 4
  {
  }

  lemma MapEffectIs(mem: Mem, used: seq<bool>, root: u64, v: u64, paddr: u64, flags: u64)
    ensures MapEffect(mem, used, root, v, paddr, flags) ==
              if !PageAddress(v) || !Aligned(paddr) then (mem, used, Inval)
              else
                var w := Descend(mem, used, root, v, 0);
                if w.rc != MapOk || w.table !in w.mem then (w.mem, w.used, w.rc)
                else if Present(w.mem[w.table][Index(v, 3)]) then (w.mem, w.used, Exists)
                else (SetEntry(w.mem, w.table, Index(v, 3), LeafEntry(paddr, flags)), w.used, MapOk)
    ensures LEVELS == 4
  {
    hide Present, Descend, PageAddress, Aligned, LeafEntry, SetEntry, Index;
  }

  lemma UnmapEffectIs(mem: Mem, root: u64, v: u64)
    ensures UnmapEffect(mem, root, v) ==
              if !PageAddress(v) then (mem, Inval)
              else
                var pt := LastTableOf(mem, root, v, 0);
                if pt.None? || pt.value !in mem || !Present(mem[pt.value][Index(v, 3)]) then (mem, NotFound)
                else (SetEntry(mem, pt.value, Index(v, 3), 0), MapOk)
    ensures LEVELS == 4
  {
    hide Present, LastTableOf, PageAddress, SetEntry, Index;
  }

  lemma GrownRefl(mem: Mem, used: seq<bool>, root: u64)
    ensures Grown(mem, used, mem, used, root)
  {
  }

  lemma GrownTrans(mem: Mem, used: seq<bool>, mem': Mem, used': seq<bool>, mem'': Mem, used'': seq<bool>, root: u64)
    requires Grown(mem, used, mem', used', root) && Grown(mem', used', mem'', used'', root)
    ensures Grown(mem, used, mem'', used'', root)
  {
    hide Walk;
  }

  lemma ValidParts(s: Space)
    requires s.Valid()
    ensures s.pmm.Valid() && s.pmm.initialized && s.pmm.maxPhys <= PHYS_LIMIT && s.mem.Keys == s.at.Keys
    ensures s.pmm.frameCount <= 8 * s.pmm.bitmap.Length && Sound(s.mem, s.root, s.at, s.pmm.Used()) && LEVELS == 4
  {
  }

  lemma ValidFrom(s: Space)
    requires s.pmm.Valid() && s.pmm.initialized && s.pmm.maxPhys <= PHYS_LIMIT
    requires s.pmm.frameCount <= 8 * s.pmm.bitmap.Length
    requires Sound(s.mem, s.root, s.at, s.pmm.Used())
    ensures s.Valid()
  {
  }

  lemma RootPlace(s: Space, v: u64)
    requires s.Valid()
    ensures s.root in s.at && s.at[s.root] == Path(v, 0) && Walk(s.mem, s.root, v) == WalkFrom(s.mem, s.root, v, 0)
  {
  }

  lemma OffPageIs(v: u64)
    ensures OffPage(v) <==> !PageAddress(v)
  {
    hide Canonical;
    CanonicalIff(v);
  }

  lemma AlignedIs(a: u64)
    ensures Aligned(a) <==> a as int % 4096 == 0
  {
  }

  lemma PageAddressIs(v: u64)
    ensures PageAddress(v) <==> Canonical(v) && Aligned(v)
  {
  }

  lemma GrownView(mem: Mem, used: seq<bool>, mem': Mem, used': seq<bool>, root: u64)
    requires Grown(mem, used, mem', used', root)
    ensures View(mem', root) == View(mem, root) && FramesTaken(mem, used, mem', used')
  {
    SameView(mem, mem', root);
  }

  lemma MapCodeIs(mem: Mem, root: u64, free: nat, v: u64, paddr: u64)
    ensures MapCode(mem, root, free, v, paddr) ==
              if !PageAddress(v) || !Aligned(paddr) then Inval
              else if Missing(mem, root, v, 0) > free then NoMem
              else if v in View(mem, root) then Exists
              else MapOk
  {
  }

  lemma ViewAt(mem: Mem, root: u64, v: u64)
    ensures v in View(mem, root) <==> PageAddress(v) && Walk(mem, root, v).Some?
    ensures v in View(mem, root) ==>
              View(mem, root)[v] == Mapping(Addr(Walk(mem, root, v).value), FlagBits(Walk(mem, root, v).value))
  {
  }

  /** A page is mapped exactly when the entry in its last-level table is present. */
  lemma MappedIff(s: Space, pt: u64, v: u64)
    requires s.Valid() && PageAddress(v) && pt in s.at && pt in s.mem && s.at[pt] == Path(v, LEVELS - 1)
    ensures v in View(s.mem, s.root) <==> Present(s.mem[pt][Index(v, LEVELS - 1)])
  {
    hide *;
    ValidParts(s);
    RootPlace(s, v);
    WalkLands(s, pt, v);
    ViewAt(s.mem, s.root, v);
  }

  lemma WalkLands(s: Space, pt: u64, v: u64)
    requires s.Valid() && pt in s.at && pt in s.mem && s.at[pt] == Path(v, LEVELS - 1)
    ensures var e := s.mem[pt][Index(v, LEVELS - 1)]; Walk(s.mem, s.root, v) == if Present(e) then Some(e) else None
  {
    hide PageTable.Tree, Walk;
    WalkLandsAt(s.mem, s.root, s.at, pt, v);
  }

  lemma WalkLandsAt(mem: Mem, root: u64, at: Places, pt: u64, v: u64)
    requires Tree(mem, root, at) && pt in at && pt in mem && at[pt] == Path(v, LEVELS - 1)
    ensures var e := mem[pt][Index(v, LEVELS - 1)]; Walk(mem, root, v) == if Present(e) then Some(e) else None
  {
    hide Present, IsHuge, Addr, HasParent, LinksOk, Apart, Bounded, AllLinked, WalkFrom;
    WalkReaches(mem, root, at, pt, Index(v, LEVELS - 1), root, v, 0);
  }

  /** Writing the last-level entry of v keeps the tree and changes the view at v alone. */
  lemma LeafStep(s: Space, pt: u64, v: u64, e: u64)
    requires s.Valid() && PageAddress(v) && pt in s.at && pt in s.mem && s.at[pt] == Path(v, LEVELS - 1)
    ensures var mem' := SetEntry(s.mem, pt, Index(v, LEVELS - 1), e);
            && mem'.Keys == s.mem.Keys && Sound(mem', s.root, s.at, s.pmm.Used())
            && View(mem', s.root) == if Present(e) then View(s.mem, s.root)[v := Mapping(Addr(e), FlagBits(e))]
                                     else View(s.mem, s.root) - {v}
  {
    hide PageTable.Tree, View, Path, Present, PageAddress, Addr, FlagBits, WalkFrom;
    LeafAt(s.mem, s.root, s.at, s.pmm.Used(), pt, v, e);
  }

  lemma LeafAt(mem: Mem, root: u64, at: Places, used: seq<bool>, pt: u64, v: u64, e: u64)
    requires Sound(mem, root, at, used) && PageAddress(v) && pt in at && pt in mem && at[pt] == Path(v, LEVELS - 1)
    ensures var mem' := SetEntry(mem, pt, Index(v, LEVELS - 1), e);
            && mem'.Keys == mem.Keys && Sound(mem', root, at, used)
            && View(mem', root) == if Present(e) then View(mem, root)[v := Mapping(Addr(e), FlagBits(e))]
                                   else View(mem, root) - {v}
  {
    hide PageTable.Tree, View, Path, Present, PageAddress, Addr, FlagBits, WalkFrom;
    LeafUpdate(mem, root, at, pt, v, e);
    LeafView(mem, root, at, pt, v, e);
  }

  lemma TakenKeys(mem: Mem, used: seq<bool>, mem': Mem, mem'': Mem, used': seq<bool>)
    requires FramesTaken(mem, used, mem', used') && mem''.Keys == mem'.Keys
    ensures FramesTaken(mem, used, mem'', used')
  {
  }

  lemma LeafMapped(view: imap<u64, Mapping>, v: u64, paddr: u64, flags: u64)
    requires Aligned(paddr)
    ensures var e := LeafEntry(paddr, flags);
            Present(e) && Mapped(view, v, paddr, flags) == view[v := Mapping(Addr(e), FlagBits(e))]
  {
    hide Allowed, LeafEntry, Addr, FlagBits, Present;
    LeafBits(paddr, flags);
  }

  lemma ZeroEntry()
    ensures !Present(0)
  {
  }

  /** One level of the walk. */
  lemma WalkStep(s: Space, t: u64, v: u64, level: nat)
    requires s.Valid() && level < LEVELS - 1 && t in s.at && t in s.mem && s.at[t] == Path(v, level)
    ensures var e := s.mem[t][Index(v, level)]; var next := Addr(e);
            && WalkFrom(s.mem, t, v, level) == (if !Present(e) || IsHuge(e) then None
                                                else WalkFrom(s.mem, next, v, level + 1))
            && LastTableOf(s.mem, t, v, level) == (if !Present(e) || IsHuge(e) then None
                                                   else LastTableOf(s.mem, next, v, level + 1))
            && (Present(e) && !IsHuge(e) ==> next in s.at && next in s.mem && s.at[next] == Path(v, level + 1))
  {
    hide Present, IsHuge, Addr, HasParent, Path;
    PathStep(v, level);
    if Present(s.mem[t][Index(v, level)]) {
      assert LinkOk(s.mem, s.at, t, Index(v, level));
    }
  }

  lemma LastStep(mem: Mem, pt: u64, v: u64)
    requires pt in mem
    ensures var e := mem[pt][Index(v, LEVELS - 1)];
            WalkFrom(mem, pt, v, LEVELS - 1) == if Present(e) then Some(e) else None
    ensures LastTableOf(mem, pt, v, LEVELS - 1) == Some(pt) && LEVELS == 4
  {
  }

  lemma NoneMissing(v: u64)
    ensures LEVELS == 4 && forall m: Mem, t: u64 {:trigger Missing(m, t, v, 3)} :: Missing(m, t, v, 3) == 0
  {
  }

  lemma MissingHere(mem: Mem, t: u64, v: u64, level: nat)
    requires level < LEVELS - 1 && t in mem && !Present(mem[t][Index(v, level)])
    ensures Missing(mem, t, v, level) == LEVELS - 1 - level
  {
  }

  lemma MissingStep(mem: Mem, t: u64, v: u64, level: nat, mem': Mem, next: u64)
    requires level < LEVELS - 1 && t in mem
    requires if Present(mem[t][Index(v, level)]) then mem' == mem && next == Addr(mem[t][Index(v, level)])
             else next !in mem && mem' == AddTable(mem, t, Index(v, level), next)
    ensures Missing(mem', next, v, level + 1) ==
              Missing(mem, t, v, level) - if Present(mem[t][Index(v, level)]) then 0 else 1
  {
    hide Index, Addr, LinkEntry;
  }

  /** The frames taken between two states are exactly the new tables, and they were free. */
  ghost predicate FramesTaken(mem: Mem, used: seq<bool>, mem': Mem, used': seq<bool>) {
    && |used'| == |used| && mem.Keys <= mem'.Keys
    && (forall f :: 0 <= f < |used| && TableAt(mem', f) && !TableAt(mem, f) ==> !used[f])
    && forall f :: 0 <= f < |used| ==> (used'[f] <==> used[f] || (TableAt(mem', f) && !TableAt(mem, f)))
  }

  ghost predicate TableAt(mem: Mem, f: nat) {
    f * PAGE < PHYS_LIMIT && f * PAGE in mem
  }

  lemma ChildOf(s: Space, t: u64, i: nat)
    requires s.Valid() && t in s.at && t in s.mem && |s.at[t]| < LEVELS - 1 && i < ENTRIES && Present(s.mem[t][i])
    ensures var next := Addr(s.mem[t][i]);
            !IsHuge(s.mem[t][i]) && next in s.at && next in s.mem && s.at[next] == s.at[t] + [i]
  {
    hide HasParent, Present, IsHuge, Addr, Aligned;
    assert LinkOk(s.mem, s.at, t, i);
  }

  /** The lowest free frame as a new table. */
  lemma NewTable(mem: Mem, root: u64, at: Places, used: seq<bool>, t: u64, i: nat, n: u64)
    requires Sound(mem, root, at, used) && |used| * PAGE <= PHYS_LIMIT
    requires t in at && |at[t]| < LEVELS - 1 && i < ENTRIES && t in mem && !Present(mem[t][i])
    requires P.Lowest(used, 0) < |used| && n as int == P.Lowest(used, 0) * PAGE
    ensures n !in mem && Aligned(n)
    ensures var used', mem' := used[P.Lowest(used, 0) := true], AddTable(mem, t, i, n);
            && Sound(mem', root, at[n := at[t] + [i]], used') && Grown(mem, used, mem', used', root)
            && P.CountFree(used') == P.CountFree(used) - 1
  {
    var f := P.Lowest(used, 0);
    FreshFrame(mem, used, n, f);
    hide PageTable.Tree, Present, Walk, AddTable, P.CountFree, P.Lowest, Backed, FramesTaken, Aligned;
    P.CountFreeUpdate(used, f, true);
    LinkKeeps(mem, root, at, t, i, n);
    TableTaken(mem, used, t, i, n, f);
  }

  /** Whoever allocates next gets a frame that is no table and not frame 0, and the tree stays sound. */
  lemma AllocationAvoidsTables(mem: Mem, root: u64, at: Places, used: seq<bool>)
    requires Sound(mem, root, at, used) && |used| * PAGE <= PHYS_LIMIT && P.Lowest(used, 0) < |used|
    ensures var f := P.Lowest(used, 0); f != 0 && f * PAGE !in mem && Sound(mem, root, at, used[f := true])
  {
    hide PageTable.Tree;
    FreshFrame(mem, used, P.Lowest(used, 0) * PAGE, P.Lowest(used, 0));
  }

  /** A frame that was free is no table. */
  lemma FreshFrame(mem: Mem, used: seq<bool>, n: u64, f: nat)
    requires Backed(mem, used) && n as int == f * PAGE && f < |used| && !used[f] && used[0]
    ensures n !in mem && 0 < n && Aligned(n)
  {
  }

  lemma TableTaken(mem: Mem, used: seq<bool>, t: u64, i: nat, n: u64, f: nat)
    requires Backed(mem, used) && t in mem && i < ENTRIES && n as int == f * PAGE < PHYS_LIMIT && f < |used| && !used[f]
    ensures Backed(AddTable(mem, t, i, n), used[f := true])
    ensures FramesTaken(mem, used, AddTable(mem, t, i, n), used[f := true])
  {
    hide LinkEntry;
    var mem' := AddTable(mem, t, i, n);
    assert mem'.Keys == mem.Keys + {n};
  }

  lemma EmptyTree(root: u64)
    requires Aligned(root) && 0 < root < PHYS_LIMIT
    ensures Tree(map[root := ZeroPage()], root, map[root := []])
    ensures View(map[root := ZeroPage()], root) == imap[]
  {
  }
}
