/** The kernel heap: block headers linked through `next`, first-fit allocation with splitting, and freeing
    with a coalescing pass over the whole list.  Every method is proved against Heap's layouts. */
module Kmem {
  import opened Bytes
  import opened Heap
  import opened KmemList

  // ----- The allocator -----

  class Kmem {
    var base: nat
    var total: nat
    var ready: bool
    var mem: Mem
    ghost var layout: Layout

    /** The list in memory is a well-formed layout that tiles the arena [base, base + total). */
    ghost predicate Valid()
      reads this
    {
      && |mem| == WORD64
      && (ready ==>
            && base > 0 && base % 16 == 8 && base + total <= WORD64 && Span(layout) == total && Wf(layout)
            && Chain(mem, base, layout, NULL))
    }

    constructor (memory: Mem)
      requires |memory| == WORD64
      ensures !ready && Valid() && mem == memory
    {
      base, total, ready, mem, layout := 0, 0, false, memory, [];
    }

    /** kmem_init over the bytes of a memory region. */
    method Init(addr: u64, bytes: u64) returns (rc: int)
      requires Valid() && addr as int + bytes as int <= WORD64
      modifies this
      ensures Valid()
      ensures rc == if old(ready) then -1
                    else if addr == 0 || bytes as int < HEADER + 16 then -2 else 0
      ensures rc == 0 ==>
                && ready && addr as int <= base < addr as int + 16 && base + total == addr as int + bytes as int
                && layout == [Blk(total - HEADER, true)] && SameOutside(old(mem), mem, base, base + HEADER)
      ensures rc != 0 ==>
                ready == old(ready) && base == old(base) && total == old(total) && mem == old(mem)
                && layout == old(layout)
    {
      hide *;
      Consts();
      if ready {
        return -1;
      }
      if addr == 0 || bytes as int < HEADER + 16 {
        return -2;
      }
      var alignedPayload := (addr as int + HEADER + 15) / 16 * 16;
      var first := alignedPayload - HEADER;
      var offset := first - addr as int;
      FirstHeader(addr);
      if bytes as int <= offset + HEADER {
        assert false;
        return -2;
      }
      Room(this);
      base, total := first, bytes as int - offset;
      mem := PutMagic(mem, base, MAGIC);
      mem := PutSize(mem, base, total - HEADER);
      mem := PutNext(mem, base, NULL);
      mem := PutFree(mem, base, true);
      FourStores(old(mem), base, total - HEADER, mem);
      ready := true;
      layout := [Blk(total - HEADER, true)];
      OneBlock(mem, base, total - HEADER);
      ValidFrom(this);
      rc := 0;
    }

    /** kmem_alloc.  The returned address is NULL exactly when no free block has the rounded size; a request
        whose needed space wraps past 2^32 leaves no list behind. */
    method Alloc(bytes: u64) returns (p: nat)
      requires Valid()
      modifies this`mem, this`layout
      ensures var l, a := old(layout), RoundUp(bytes);
              var i := FirstFit(l, a, 0);
              if !ready || bytes == 0 || i == |l| then p == NULL && layout == l && mem == old(mem)
              else p == At(l, base, i) + HEADER && Took(old(mem), mem, At(l, base, i), a)
      ensures Destroys(old(layout), bytes) && ready ==> layout == old(layout) && Broken(mem, base)
      ensures !(Destroys(old(layout), bytes) && ready) ==> Valid()
      ensures Valid() && p != NULL ==>
                && layout == Take(old(layout), FirstFit(old(layout), RoundUp(bytes), 0), RoundUp(bytes))
                && p % 16 == 0 && p !in Live(old(layout), base) && p in Live(layout, base)
                && Live(layout, base) == Live(old(layout), base)[p := Live(layout, base)[p]]
                && (bytes as int <= WORD32 - 64 ==> Live(layout, base)[p] >= bytes)
      ensures PayloadsKept(old(mem), mem, Live(old(layout), base))
      ensures ready ==>
                var s := Step(Whole(old(layout)), base, Op.Alloc(bytes));
                if s.Destroyed? then Broken(mem, base) else Valid() && layout == s.l
    {
      hide *;
      Consts();
      AllocIsStep(layout, base, bytes);
      KeptRefl(mem, Live(layout, base));
      DestroysIs(layout, bytes);
      p := NULL;
      if !ready || bytes == 0 {
        return;
      }
      var a := RoundUp(bytes);
      var curr: nat := base;
      ghost var i := 0;
      Start(this);
      while curr != NULL
        invariant i <= |layout| && curr == Here(layout, base, i)
        invariant FirstFit(layout, a, 0) == FirstFit(layout, a, i)
        invariant mem == old(mem) && layout == old(layout)
        decreases |layout| - i
      {
        AtBlock(this, i);
        FitStep(layout, a, i);
        if HeaderAt(mem, curr).magic != MAGIC {
          assert false;
          return;
        }
        if HeaderAt(mem, curr).isFree && HeaderAt(mem, curr).size >= a {
          InMemory(this, i);
          Facts(this);
          var needed := Needed(a);
          if HeaderAt(mem, curr).size as int >= needed as int + HEADER + 16 {
            Split(curr, needed);
          }
          mem := PutFree(mem, curr, false);
          StoresTake(old(mem), curr, a, mem);
          if Fits32(a) {
            Taking(old(mem), base, layout, i, bytes, mem);
            layout := Take(layout, i, a);
            ValidFrom(this);
          } else {
            Wrecking(old(mem), base, layout, i, bytes, mem);
            NotValid(this);
          }
          return curr + HEADER;
        }
        curr := HeaderAt(mem, curr).next;
        i := i + 1;
      }
      NoFit(this, a, i);
    }

    /** The block at curr cut at `needed` bytes. */
    method Split(curr: nat, needed: u64)
      requires |mem| == WORD64 && curr + needed as int + HEADER <= |mem| && needed <= HeaderAt(mem, curr).size
      modifies this`mem
      ensures mem == SplitStores(old(mem), curr, needed)
    {
      hide HeaderAt, PutMagic, PutSize, PutNext, PutFree;
      var next: nat := curr + needed as int;
      mem := PutMagic(mem, next, MAGIC);
      mem := PutSize(mem, next, Minus(HeaderAt(mem, curr).size, needed));
      mem := PutNext(mem, next, HeaderAt(mem, curr).next);
      mem := PutFree(mem, next, true);
      mem := PutSize(mem, curr, Minus(needed, HEADER));
      mem := PutNext(mem, curr, next);
    }

    /** kmem_calloc. */
    method Calloc(count: u64, bytes: u64) returns (p: nat)
      requires Valid()
      modifies this`mem, this`layout
      ensures var l, n: int := old(layout), count as int * bytes as int;
              if !ready || n == 0 || n >= WORD64 || FirstFit(l, RoundUp(n), 0) == |l|
              then p == NULL && layout == l && mem == old(mem)
              else
                var i := FirstFit(l, RoundUp(n), 0);
                && p == At(l, base, i) + HEADER
                && if CallocBreaks(l, base, i, n) then Broken(mem, base)
                   else
                     && Valid() && layout == Take(l, i, RoundUp(n)) && p % 16 == 0 && p !in Live(l, base)
                     && p in Live(layout, base) && Live(layout, base) == Live(l, base)[p := Live(layout, base)[p]]
                     && PayloadsKept(old(mem), mem, Live(l, base))
      ensures var n := count as int * bytes as int;
              p != NULL && n <= WORD32 - 64 ==>
                && Valid() && p in Live(layout, base) && Live(layout, base)[p] >= n
                && p + n <= |mem| && forall k :: p <= k < p + n ==> mem[k] == 0
      ensures ready ==>
                var s := Step(Whole(old(layout)), base, Op.Calloc(count, bytes));
                if s.Destroyed? then Broken(mem, base) else Valid() && layout == s.l
    {
      hide *;
      Consts();
      CallocIsStep(layout, base, count, bytes);
      Products(count, bytes);
      if count == 0 || bytes == 0 {
        return NULL;
      }
      if count as int > (WORD64 - 1) / bytes as int {
        return NULL;
      }
      var n: u64 := count as int * bytes as int;
      ghost var l := layout;
      if ready {
        Facts(this);
      }
      p := Alloc(n);
      if p != NULL {
        ghost var i, m1 := FirstFit(l, RoundUp(n), 0), mem;
        DestroysIs(l, n);
        BreaksIs(l, base, i, n);
        if Fits32(RoundUp(n)) {
          Facts(this);
        }
        TookIs(old(mem), mem, At(l, base, i), RoundUp(n));
        Memset(p, n);
        CallocOutcome(old(mem), m1, mem, base, l, i, n);
        if !CallocBreaks(l, base, i, n) {
          SameLength(m1, mem, p, n);
          ValidFrom(this);
          assert Live(layout, base) - {p} == Live(l, base);
          KeptBoth(old(mem), m1, mem, Live(l, base));
        }
      }
    }

    /** local_memset with value 0: n bytes from p on, addresses wrapping at the top. */
    method Memset(p: nat, n: u64)
      requires |mem| == WORD64 && p <= WORD64
      modifies this`mem
      ensures Zeroed(old(mem), mem, p, n)
    {
      var i: nat := 0;
      while i < n as int
        invariant 0 <= i <= n as int && Zeroed(old(mem), mem, p, i)
      {
        var k := if p + i < WORD64 then p + i else p + i - WORD64;
        mem := mem[k := 0];
        i := i + 1;
      }
    }

    /** kmem_free_checked.  An arena address that is no current block's payload is looked up like any other; when
        the bytes before it pass for the header of a used block, its flag word must meet no header. */
    method FreeChecked(ptr: u64) returns (rc: int)
      requires Valid()
      requires ready && base < ptr as int < base + total && !Known(layout, base, ptr) ==>
                 && HEADER <= ptr
                 && (LooksUsed(HeaderAt(mem, ptr as int - HEADER)) ==> Clear(layout, base, ptr as int - 16, 4))
      modifies this`mem, this`layout
      ensures Valid()
      ensures rc == if !ready then -1 else if ptr as int == NULL then 0
                    else if ptr as int <= base || ptr as int >= (base + total) % WORD64 then -3
                    else if ptr in Live(old(layout), base) then 0
                    else if Known(old(layout), base, ptr) then -2
                    else if HeaderAt(old(mem), ptr as int - HEADER).magic != MAGIC then -4
                    else if HeaderAt(old(mem), ptr as int - HEADER).isFree then -2 else 0
      ensures rc == 0 && ptr as int != NULL && ptr in Live(old(layout), base) ==>
                && layout == Release(old(layout), BlockOf(old(layout), base, ptr))
                && Live(layout, base) == Live(old(layout), base) - {ptr}
                && PayloadsKept(old(mem), mem, Live(layout, base))
      ensures rc == 0 && ptr as int != NULL && ptr !in Live(old(layout), base) ==>
                layout == old(layout) && SameOutside(old(mem), mem, ptr as int - 16, ptr as int - 12)
      ensures rc != 0 || ptr as int == NULL ==> layout == old(layout) && mem == old(mem)
      ensures ready ==>
                var s := Step(Whole(old(layout)), base, Op.Free(ptr));
                if s.Destroyed? then Broken(mem, base) else Valid() && layout == s.l
    {
      hide *;
      Consts();
      FreeIsStep(layout, base, ptr);
      if !ready {
        return -1;
      }
      Facts(this);
      if ptr as int == NULL {
        NoPayloadOutside(layout, base, ptr);
        return 0;
      }
      NoPayloadOutside(layout, base, ptr);
      if ptr as int <= base || ptr as int >= (base + total) % WORD64 {
        return -3;
      }
      ArenaEnd(base, total, ptr);
      LiveKnown(layout, base, ptr);
      Lookup(this, ptr);
      var block := ptr as int - HEADER;
      LooksIs(HeaderAt(mem, block));
      if HeaderAt(mem, block).magic != MAGIC {
        return -4;
      }
      if HeaderAt(mem, block).isFree {
        return -2;
      }
      if ptr in Live(layout, base) {
        Releasing(this, BlockOf(layout, base, ptr));
      } else {
        FlagWord(mem, block, true);
        ClearStores(mem, PutFree(mem, block, true), base, layout, ptr as int - 16, 4);
        SettledParts(layout);
      }
      mem := PutFree(mem, block, true);
      ghost var m1 := mem;
      if ptr in Live(layout, base) {
        ghost var i := BlockOf(layout, base, ptr);
        layout := layout[i := Blk(layout[i].size, true)];
      }
      CoalesceAll();
      ValidFrom(this);
      KeptAfter(old(mem), m1, mem, Live(layout, base));
      rc := 0;
    }

    /** kmem_get_stats. */
    method GetStats() returns (s: Stats)
      requires Valid()
      ensures s == if ready then Tally(layout, total) else Stats(0, 0, 0, 0, 0, 0)
      ensures ready ==> s.used + s.free + HEADER * s.blocks == s.total && s.blocks == |layout|
    {
      hide *;
      Consts();
      s := Stats(0, 0, 0, 0, 0, 0);
      if !ready {
        return;
      }
      Start(this);
      Facts(this);
      TallyConserves(layout, total);
      s := s.(total := total);
      var curr: nat := base;
      ghost var k := 0;
      TallyStart(layout, total);
      while curr != NULL
        invariant k <= |layout| && curr == Here(layout, base, k) && s == Tally(layout[..k], total)
        decreases |layout| - k
      {
        AtBlock(this, k);
        TallyStep(layout, total, k);
        if HeaderAt(mem, curr).magic != MAGIC {
          assert false;
          return;
        }
        s := s.(blocks := s.blocks + 1);
        if HeaderAt(mem, curr).isFree {
          s := s.(freeBlocks := s.freeBlocks + 1, free := s.free + HeaderAt(mem, curr).size as int);
          if HeaderAt(mem, curr).size as int > s.largest {
            s := s.(largest := HeaderAt(mem, curr).size);
          }
        } else {
          s := s.(used := s.used + HeaderAt(mem, curr).size as int);
        }
        curr := HeaderAt(mem, curr).next;
        k := k + 1;
      }
      HereIs(layout, base, k);
      assert layout[..k] == layout;
    }

    /** kmem_validate accepts every heap, except one that ends with the address space: there the end of the
        arena wraps to zero. */
    method Validate() returns (rc: int)
      requires Valid()
      ensures rc == if !ready then -1 else if base + total < WORD64 then 0 else -2
    {
      hide *;
      Consts();
      if !ready {
        return -1;
      }
      Start(this);
      Facts(this);
      var curr: nat := base;
      ghost var k := 0;
      while curr != NULL
        invariant k <= |layout| && curr == Here(layout, base, k)
        invariant k > 0 ==> base + total < WORD64
        decreases |layout| - k
      {
        AtBlock(this, k);
        InArena(layout, base, k);
        ArenaEnd(base, total, base);
        if curr < base || curr >= (base + total) % WORD64 {
          return -2;
        }
        if HeaderAt(mem, curr).magic != MAGIC {
          assert false;
          return -3;
        }
        curr := HeaderAt(mem, curr).next;
        k := k + 1;
      }
      HereIs(layout, base, k);
      rc := 0;
    }

    /** The loops of kmem_free_checked. */
    method CoalesceAll()
      requires base > 0 && layout != [] && Chain(mem, base, layout, NULL) && base + Span(layout) <= |mem| <= WORD64
      modifies this`mem, this`layout
      ensures Chain(mem, base, layout, NULL) && layout == Coalesce(old(layout)) && |mem| == |old(mem)|
      ensures Live(layout, base) == Live(old(layout), base) && PayloadsKept(old(mem), mem, Live(layout, base))
      ensures Settled(old(layout)) ==> layout == old(layout) && mem == old(mem)
    {
      hide *;
      Consts();
      var curr: nat := base;
      ghost var k := 0;
      ghost var live := Live(layout, base);
      HereStart(layout, base);
      KeptRefl(mem, live);
      while curr != NULL
        invariant k <= |layout| && curr == Here(layout, base, k) && Chain(mem, base, layout, NULL)
        invariant Coalesce(layout) == old(Coalesce(layout)) && Live(layout, base) == live
        invariant Span(layout) == old(Span(layout)) && |mem| == |old(mem)| && PayloadsKept(old(mem), mem, live)
        invariant forall j :: 0 <= j < k && j + 1 < |layout| ==> !(layout[j].free && layout[j + 1].free)
        invariant Settled(old(layout)) ==> layout == old(layout) && mem == old(mem)
        decreases |layout| - k
      {
        HereIs(layout, base, k);
        SettledAt(layout, k);
        ghost var before := mem;
        Absorb(curr, k);
        KeptBoth(old(mem), before, mem, live);
        BlockAt(mem, base, layout, k);
        curr := HeaderAt(mem, curr).next;
        k := k + 1;
      }
      HereIs(layout, base, k);
      SettledFrom(layout);
    }

    /** The inner loop: the block at curr absorbs its free right neighbours. */
    method Absorb(curr: nat, ghost k: nat)
      requires base > 0 && k < |layout| && curr == At(layout, base, k) && Chain(mem, base, layout, NULL)
      requires base + Span(layout) <= |mem| <= WORD64
      modifies this`mem, this`layout
      ensures Chain(mem, base, layout, NULL) && k < |layout| <= |old(layout)| && curr == At(layout, base, k)
      ensures layout[..k] == old(layout[..k]) && layout[k].free == old(layout[k].free) && |mem| == |old(mem)|
      ensures Coalesce(layout) == old(Coalesce(layout)) && Span(layout) == old(Span(layout))
      ensures Live(layout, base) == old(Live(layout, base)) && PayloadsKept(old(mem), mem, Live(layout, base))
      ensures k + 1 < |layout| ==> !(layout[k].free && layout[k + 1].free)
      ensures (k + 1 < |old(layout)| && old(layout[k].free && layout[k + 1].free))
              || (layout == old(layout) && mem == old(mem))
    {
      hide *;
      Consts();
      BlockAt(mem, base, layout, k);
      KeptRefl(mem, Live(layout, base));
      while HeaderAt(mem, curr).isFree && HeaderAt(mem, curr).next as int != NULL
            && HeaderAt(mem, HeaderAt(mem, curr).next).isFree
        invariant k < |layout| <= |old(layout)| && curr == At(layout, base, k) && Chain(mem, base, layout, NULL)
        invariant layout[..k] == old(layout[..k]) && layout[k].free == old(layout[k].free) && |mem| == |old(mem)|
        invariant Coalesce(layout) == old(Coalesce(layout)) && Span(layout) == old(Span(layout))
        invariant Live(layout, base) == old(Live(layout, base))
        invariant PayloadsKept(old(mem), mem, old(Live(layout, base)))
        invariant Reads(mem, base, layout, k) && curr + HEADER <= |mem|
        invariant HeaderAt(mem, curr).next as int == NULL || HeaderAt(mem, curr).next as int + HEADER <= |mem|
        invariant (k + 1 < |old(layout)| && old(layout[k].free && layout[k + 1].free))
                  || (layout == old(layout) && mem == old(mem))
        decreases |layout|
      {
        ReadsIs(mem, base, layout, k);
        MergeConverges(layout, k);
        MergeIs(layout, base, k);
        MergeLive(layout, base, k);
        ChainAbsorb(mem, base, layout, k);
        if HeaderAt(mem, HeaderAt(mem, curr).next).magic != MAGIC {
          assert false;
          return;
        }
        ghost var before := mem;
        var more := Plus(HEADER, HeaderAt(mem, HeaderAt(mem, curr).next).size);
        mem := PutSize(mem, curr, Plus(HeaderAt(mem, curr).size, more));
        mem := PutNext(mem, curr, HeaderAt(mem, HeaderAt(mem, curr).next).next);
        StoresAbsorb(before, curr, mem);
        HeaderStores(before, mem, base, layout, k);
        KeptBoth(old(mem), before, mem, Live(layout, base));
        layout := MergeAt(layout, k);
        BlockAt(mem, base, layout, k);
      }
      ReadsIs(mem, base, layout, k);
    }
  }

  lemma AllocIsStep(l: Layout, base: nat, bytes: u64)
    ensures var i := FirstFit(l, RoundUp(bytes), 0);
            Step(Whole(l), base, Op.Alloc(bytes)) ==
              if bytes == 0 || i == |l| then Whole(l)
              else if Destroys(l, bytes) then Destroyed
              else Whole(Take(l, i, RoundUp(bytes)))
  {
    hide FirstFit, RoundUp, Take, Fits32;
  }

  lemma CallocIsStep(l: Layout, base: nat, count: u64, bytes: u64)
    ensures var n := count as int * bytes as int;
            if n == 0 || n >= WORD64 then Step(Whole(l), base, Op.Calloc(count, bytes)) == Whole(l)
            else
              n > 0 &&
              var i := FirstFit(l, RoundUp(n), 0);
              Step(Whole(l), base, Op.Calloc(count, bytes)) ==
                if i == |l| then Whole(l)
                else if CallocBreaks(l, base, i, n) then Destroyed
                else (BreaksIs(l, base, i, n); Whole(Take(l, i, RoundUp(n))))
  {
    hide FirstFit, RoundUp, Take, Fits32, At;
    Products(count, bytes);
  }

  lemma FreeIsStep(l: Layout, base: nat, ptr: nat)
    ensures Step(Whole(l), base, Op.Free(ptr)) ==
              if ptr in Live(l, base) && base + Span(l) < WORD64 then Whole(Release(l, BlockOf(l, base, ptr)))
              else Whole(l)
  {
    hide Live, Span, Release;
  }

  /** ptr is the payload of a current block, live or free. */
  ghost predicate Known(l: Layout, base: nat, ptr: nat) {
    exists i :: 0 <= i < |l| && ptr == At(l, base, i) + HEADER
  }

  predicate LooksUsed(h: Header) {
    h.magic == MAGIC && !h.isFree
  }

  lemma LooksIs(h: Header)
    ensures LooksUsed(h) <==> h.magic == MAGIC && !h.isFree
  {
  }

  /** The end of the arena as the code computes it. */
  lemma ArenaEnd(base: nat, total: nat, ptr: nat)
    requires base + total <= WORD64
    ensures base + total < WORD64 ==> (base + total) % WORD64 == base + total
    ensures base + total == WORD64 ==> (base + total) % WORD64 == 0
  {
  }

  lemma Products(count: u64, bytes: u64)
    ensures var n := count as int * bytes as int;
            && n >= 0 && (n == 0 <==> count == 0 || bytes == 0)
            && (bytes > 0 ==> (count as int > (WORD64 - 1) / bytes as int <==> n >= WORD64))
  {
    if bytes > 0 {
      OverflowCheck(count, bytes);
    }
  }

  lemma OverflowCheck(count: u64, bytes: u64)
    requires bytes > 0
    ensures count as int > (WORD64 - 1) / bytes as int <==> count as int * bytes as int >= WORD64
  {
    var q := (WORD64 - 1) / bytes as int;
    if count as int > q {
      assert count as int * bytes as int >= (q + 1) * bytes as int;
    } else {
      assert count as int * bytes as int <= q * bytes as int;
    }
  }

  lemma SameLength(mem: Mem, mem': Mem, p: nat, n: nat)
    requires Zeroed(mem, mem', p, n)
    ensures |mem'| == |mem|
  {
  }

  lemma Room(s: Kmem)
    requires s.Valid()
    ensures |s.mem| == WORD64
  {
  }

  lemma Facts(s: Kmem)
    requires s.Valid() && s.ready
    ensures s.base > 0 && s.base % 16 == 8 && s.base + s.total <= WORD64 && Span(s.layout) == s.total && Wf(s.layout)
    ensures Chain(s.mem, s.base, s.layout, NULL) && s.layout != [] && |s.mem| == WORD64
  {
  }

  lemma ValidFrom(s: Kmem)
    requires s.base > 0 && s.base % 16 == 8 && s.base + s.total <= WORD64 && Span(s.layout) == s.total && Wf(s.layout)
    requires Chain(s.mem, s.base, s.layout, NULL) && |s.mem| == WORD64
    ensures s.Valid()
  {
  }

  lemma NotValid(s: Kmem)
    requires s.ready && s.layout != [] && Broken(s.mem, s.base)
    ensures !s.Valid()
  {
  }

  lemma DestroysIs(l: Layout, bytes: u64)
    ensures Destroys(l, bytes) <==> bytes != 0 && !Fits32(RoundUp(bytes)) && FirstFit(l, RoundUp(bytes), 0) < |l|
  {
  }

  lemma FourStores(mem: Mem, a: nat, size: u64, r: Mem)
    requires a + HEADER <= |mem|
    requires r == PutFree(PutNext(PutSize(PutMagic(mem, a, MAGIC), a, size), a, NULL), a, true)
    ensures |r| == |mem| && SameOutside(mem, r, a, a + HEADER) && HeaderAt(r, a) == Header(MAGIC, size, NULL, true)
  {
    hide HeaderAt, SameOutside, PutMagic, PutSize, PutNext, PutFree;
    var m1, m2 := PutMagic(mem, a, MAGIC), PutSize(PutMagic(mem, a, MAGIC), a, size);
    var m3 := PutNext(m2, a, NULL);
    SameOutsideBoth(mem, m1, m2, a, a + HEADER, a, a + HEADER);
    SameOutsideBoth(mem, m2, m3, a, a + HEADER, a, a + HEADER);
    SameOutsideBoth(mem, m3, r, a, a + HEADER, a, a + HEADER);
  }

  lemma OneBlock(mem: Mem, a: nat, size: u64)
    requires a > 0 && size > 0 && a + HEADER <= |mem| && HeaderAt(mem, a) == Header(MAGIC, size, NULL, true)
    ensures var l := [Blk(size, true)]; Chain(mem, a, l, NULL) && Wf(l) && Span(l) == HEADER + size as int
  {
    hide HeaderAt, Chain;
    ChainOne(mem, a, Blk(size, true), NULL);
    SpanOne(Blk(size, true));
  }

  lemma Start(s: Kmem)
    requires s.Valid() && s.ready
    ensures s.base == Here(s.layout, s.base, 0) && s.layout != []
  {
    AtNext(s.layout, s.base, 0);
  }

  lemma TallyStart(l: Layout, total: nat)
    ensures Tally(l[..0], total) == Stats(total, 0, 0, 0, 0, 0)
  {
  }

  lemma TallyStep(l: Layout, total: nat, k: nat)
    requires k < |l|
    ensures var s, b := Tally(l[..k], total), l[k];
            Tally(l[..k + 1], total) ==
              if b.free
              then s.(blocks := s.blocks + 1, freeBlocks := s.freeBlocks + 1, free := s.free + b.size,
                      largest := if b.size > s.largest then b.size else s.largest)
              else s.(blocks := s.blocks + 1, used := s.used + b.size)
  {
    assert l[..k + 1][..k] == l[..k];
  }

  lemma InArena(l: Layout, base: nat, k: nat)
    requires k < |l|
    ensures base <= At(l, base, k) < base + Span(l)
  {
    AtIncreases(l, base, k, |l|);
  }

  lemma HereStart(l: Layout, base: nat)
    requires l != []
    ensures Here(l, base, 0) == base
  {
    AtNext(l, base, 0);
  }

  lemma SettledFrom(l: Layout)
    requires forall j :: 0 <= j && j + 1 < |l| ==> !(l[j].free && l[j + 1].free)
    ensures Coalesce(l) == l
  {
    CoalesceSettled(l);
  }

  /** What the inner loop reads: block k and its right neighbour. */
  ghost predicate Reads(mem: Mem, base: nat, l: Layout, k: nat)
    requires k < |l|
  {
    var curr, next := At(l, base, k), Here(l, base, k + 1);
    && curr + HEADER <= |mem| && Describes(HeaderAt(mem, curr), l[k].size, next, l[k].free)
    && if k + 1 < |l|
       then next != NULL && next + HEADER <= |mem|
            && Describes(HeaderAt(mem, next), l[k + 1].size, Here(l, base, k + 2), l[k + 1].free)
       else next == NULL
  }

  lemma ReadsIs(mem: Mem, base: nat, l: Layout, k: nat)
    requires k < |l| && Reads(mem, base, l, k)
    ensures var curr, next := At(l, base, k), Here(l, base, k + 1);
            && curr + HEADER <= |mem| && HeaderAt(mem, curr).next as int == next
            && HeaderAt(mem, curr).isFree == l[k].free
            && (k + 1 < |l| ==>
                  && next != NULL && next + HEADER <= |mem| && HeaderAt(mem, next).magic == MAGIC
                  && HeaderAt(mem, next).isFree == l[k + 1].free)
            && (k + 1 == |l| ==> next == NULL)
  {
    hide HeaderAt;
  }

  lemma BlockAt(mem: Mem, base: nat, l: Layout, k: nat)
    requires base > 0 && Chain(mem, base, l, NULL) && k < |l|
    ensures Reads(mem, base, l, k)
    ensures var curr, next := At(l, base, k), Here(l, base, k + 1);
            && curr + HEADER <= |mem| && HeaderAt(mem, curr).next as int == next
            && (next == NULL || next + HEADER <= |mem|)
  {
    hide HeaderAt, Chain, At;
    ChainAt(mem, base, l, k);
    if k + 1 < |l| {
      ChainAt(mem, base, l, k + 1);
    }
  }

  lemma MergeIs(l: Layout, base: nat, k: nat)
    requires k + 1 < |l|
    ensures var m := MergeAt(l, k);
            |m| == |l| - 1 && m[..k] == l[..k] && m[k].free == l[k].free && At(m, base, k) == At(l, base, k)
  {
    assert MergeAt(l, k)[..k] == l[..k];
  }

  lemma MergeLive(l: Layout, base: nat, k: nat)
    requires k + 1 < |l| && l[k].free && l[k + 1].free
    ensures Live(MergeAt(l, k), base) == Live(l, base) && Span(MergeAt(l, k)) == Span(l)
  {
    hide *;
    MergeConverges(l, k);
    CoalesceLive(l, base);
    CoalesceLive(MergeAt(l, k), base);
  }

  lemma StoresAbsorb(mem: Mem, at: nat, r: Mem)
    requires at + HEADER <= |mem| && HeaderAt(mem, at).next as int + HEADER <= |mem|
    requires var next := HeaderAt(mem, at).next;
             var m1 := PutSize(mem, at, Plus(HeaderAt(mem, at).size, Plus(HEADER, HeaderAt(mem, next).size)));
             r == PutNext(m1, at, HeaderAt(m1, HeaderAt(m1, at).next).next)
    ensures r == AbsorbStores(mem, at) && |r| == |mem| && SameOutside(mem, r, at, at + HEADER)
  {
    hide HeaderAt, PutSize, PutNext, Plus, SameOutside;
  }

  /** Every live payload lies strictly inside the arena. */
  lemma NoPayloadOutside(l: Layout, base: nat, ptr: nat)
    requires Wf(l)
    ensures ptr in Live(l, base) ==> base < ptr < base + Span(l)
  {
    if ptr in Live(l, base) {
      var i := BlockOf(l, base, ptr);
      AtIncreases(l, base, i, i + 1);
      AtNext(l, base, i);
    }
  }

  lemma LiveKnown(l: Layout, base: nat, ptr: nat)
    ensures ptr in Live(l, base) ==> Known(l, base, ptr)
  {
    if ptr in Live(l, base) {
      var i := BlockOf(l, base, ptr);
    }
  }

  /** The header that kmem_free_checked reads. */
  lemma Lookup(s: Kmem, ptr: u64)
    requires s.Valid() && s.ready && s.base < ptr as int < s.base + s.total
    requires !Known(s.layout, s.base, ptr) ==> HEADER <= ptr
    ensures HEADER <= ptr && ptr as int <= |s.mem|
    ensures var h := HeaderAt(s.mem, ptr as int - HEADER);
            && (Known(s.layout, s.base, ptr) ==> h.magic == MAGIC && (h.isFree <==> ptr !in Live(s.layout, s.base)))
  {
    hide *;
    Consts();
    Facts(s);
    if Known(s.layout, s.base, ptr) {
      var i := TheBlock(s.layout, s.base, ptr);
      FindBlock(s, i);
    }
  }

  lemma TheBlock(l: Layout, base: nat, ptr: nat) returns (i: nat)
    requires Known(l, base, ptr)
    ensures i < |l| && ptr == At(l, base, i) + HEADER
  {
    i :| 0 <= i < |l| && ptr == At(l, base, i) + HEADER;
  }

  lemma FindBlock(s: Kmem, i: nat)
    requires s.Valid() && s.ready && i < |s.layout|
    ensures var l, at, ptr := s.layout, At(s.layout, s.base, i), At(s.layout, s.base, i) + HEADER;
            && at + HEADER <= |s.mem| && HeaderAt(s.mem, at).magic == MAGIC && HeaderAt(s.mem, at).isFree == l[i].free
            && (ptr in Live(l, s.base) <==> !l[i].free) && (ptr in Live(l, s.base) ==> BlockOf(l, s.base, ptr) == i)
  {
    hide Wf, Live, Span, Chain, At, HeaderAt;
    var l, ptr := s.layout, At(s.layout, s.base, i) + HEADER;
    ChainAt(s.mem, s.base, l, i);
    if !l[i].free {
      LiveHas(l, s.base, i);
    }
    if ptr in Live(l, s.base) {
      var j := BlockOf(l, s.base, ptr);
      if i < j {
        AtIncreases(l, s.base, i, j);
      } else if j < i {
        AtIncreases(l, s.base, j, i);
      }
    }
  }

  lemma Releasing(s: Kmem, i: nat)
    requires s.Valid() && s.ready && i < |s.layout| && !s.layout[i].free
    ensures var l, at := s.layout, At(s.layout, s.base, i);
            var freed := l[i := Blk(l[i].size, true)];
            && at + HEADER <= |s.mem| && |PutFree(s.mem, at, true)| == |s.mem|
            && Chain(PutFree(s.mem, at, true), s.base, freed, NULL)
            && Release(l, i) == Coalesce(freed) && Wf(Release(l, i)) && Span(Release(l, i)) == s.total == Span(freed)
            && Live(freed, s.base) == Live(l, s.base) - {at + HEADER}
            && PayloadsKept(s.mem, PutFree(s.mem, at, true), Live(freed, s.base))
  {
    hide *;
    Facts(s);
    var at := At(s.layout, s.base, i);
    FreedIs(s.layout, i);
    FreedLive(s.layout, s.base, i);
    ReleaseKeeps(s.layout, s.base, i);
    ChainFree(s.mem, s.base, s.layout, i);
    HeaderStores(s.mem, PutFree(s.mem, at, true), s.base, s.layout, i);
    FewerPayloads(s.mem, PutFree(s.mem, at, true), Live(s.layout, s.base), at + HEADER);
  }

  lemma SettledParts(l: Layout)
    requires Wf(l)
    ensures Settled(l)
  {
  }

  lemma SettledAt(l: Layout, k: nat)
    ensures Settled(l) && k + 1 < |l| ==> !(l[k].free && l[k + 1].free)
  {
  }

  lemma KeptAfter(m1: Mem, m2: Mem, m3: Mem, live: map<nat, nat>)
    ensures PayloadsKept(m1, m2, live) && PayloadsKept(m2, m3, live) ==> PayloadsKept(m1, m3, live)
  {
  }

  lemma FewerPayloads(mem: Mem, mem': Mem, live: map<nat, nat>, p: nat)
    requires PayloadsKept(mem, mem', live)
    ensures PayloadsKept(mem, mem', live - {p})
  {
  }

  lemma AtBlock(s: Kmem, i: nat)
    requires s.Valid() && s.ready && i <= |s.layout| && Here(s.layout, s.base, i) != NULL
    ensures var curr := Here(s.layout, s.base, i);
            && i < |s.layout| && curr == At(s.layout, s.base, i) && curr + HEADER <= |s.mem|
            && HeaderAt(s.mem, curr).magic == MAGIC && HeaderAt(s.mem, curr).size == s.layout[i].size
            && HeaderAt(s.mem, curr).next as int == Here(s.layout, s.base, i + 1)
            && HeaderAt(s.mem, curr).isFree == s.layout[i].free
  {
    hide HeaderAt;
    ChainAt(s.mem, s.base, s.layout, i);
  }

  /** The whole of block i lies in memory. */
  lemma InMemory(s: Kmem, i: nat)
    requires s.Valid() && s.ready && i < |s.layout|
    ensures At(s.layout, s.base, i) + HEADER + s.layout[i].size <= |s.mem| == WORD64
  {
    AtIncreases(s.layout, s.base, i, i + 1);
  }

  lemma FitStep(l: Layout, a: nat, i: nat)
    requires i < |l|
    ensures FirstFit(l, a, i) == if l[i].free && l[i].size >= a then i else FirstFit(l, a, i + 1)
  {
  }

  /** The walk ran off the list: nothing fits. */
  lemma NoFit(s: Kmem, a: nat, i: nat)
    requires s.Valid() && s.ready && i <= |s.layout| && Here(s.layout, s.base, i) == NULL
    ensures i == |s.layout| && FirstFit(s.layout, a, i) == |s.layout|
  {
  }

  lemma StoresTake(mem: Mem, at: nat, a: u64, r: Mem)
    requires at + HEADER <= |mem| <= WORD64 && at + HEADER + HeaderAt(mem, at).size as int <= |mem|
    requires var split := HeaderAt(mem, at).size as int >= Needed(a) as int + HEADER + 16;
             r == PutFree(if split then SplitStores(mem, at, Needed(a)) else mem, at, false)
    ensures r == TakeStores(mem, at, a) && Took(mem, r, at, a) && |r| == |mem|
    ensures SameOutside(mem, r, at, at + HEADER + HeaderAt(mem, at).size as int)
  {
    hide HeaderAt, Needed, PutFree, SplitStores, SameOutside;
  }

  /** What kmem_alloc leaves when the needed space does not wrap. */
  lemma Taking(mem: Mem, base: nat, l: Layout, i: nat, bytes: u64, r: Mem)
    requires base % 16 == 8 && Wf(l) && Chain(mem, base, l, NULL) && base + Span(l) <= |mem| == WORD64
    requires i < |l| && l[i].free && l[i].size >= RoundUp(bytes) && Fits32(RoundUp(bytes))
    requires Took(mem, r, At(l, base, i), RoundUp(bytes))
    requires SameOutside(mem, r, At(l, base, i), At(l, base, i) + HEADER + l[i].size)
    ensures var t, p := Take(l, i, RoundUp(bytes)), At(l, base, i) + HEADER;
            && Chain(r, base, t, NULL) && Wf(t) && Span(t) == Span(l) && p % 16 == 0
            && p !in Live(l, base) && p in Live(t, base) && Live(t, base) == Live(l, base)[p := Live(t, base)[p]]
            && (bytes as int <= WORD32 - 64 ==> Live(t, base)[p] >= bytes)
            && PayloadsKept(mem, r, Live(l, base))
  {
    hide *;
    var a := RoundUp(bytes);
    TookIs(mem, r, At(l, base, i), a);
    ChainTake(mem, base, l, i, a);
    TakeKeeps(l, i, a);
    LiveTake(l, base, i, a);
    WfGrid(l);
    PayloadAligned(l, base, i);
    FreeBlockStores(mem, r, base, l, i);
    if bytes as int <= WORD32 - 64 {
      RoundUpSmall(bytes);
    }
  }

  lemma TookIs(mem: Mem, r: Mem, at: nat, a: u64)
    requires Took(mem, r, at, a)
    ensures at + HEADER <= |mem| <= WORD64 && at + HEADER + HeaderAt(mem, at).size as int <= |mem|
    ensures r == TakeStores(mem, at, a)
  {
    hide HeaderAt, TakeStores;
  }

  /** What it leaves when the needed space wraps. */
  lemma Wrecking(mem: Mem, base: nat, l: Layout, i: nat, bytes: u64, r: Mem)
    requires base > 0 && Chain(mem, base, l, NULL) && base + Span(l) <= |mem| == WORD64
    requires i < |l| && l[i].free && l[i].size >= RoundUp(bytes) && !Fits32(RoundUp(bytes))
    requires Took(mem, r, At(l, base, i), RoundUp(bytes))
    requires SameOutside(mem, r, At(l, base, i), At(l, base, i) + HEADER + l[i].size)
    ensures Broken(r, base) && PayloadsKept(mem, r, Live(l, base))
  {
    hide *;
    TookIs(mem, r, At(l, base, i), RoundUp(bytes));
    WrappedSplitDestroys(mem, base, l, i, bytes);
    FreeBlockStores(mem, r, base, l, i);
  }

  lemma WfGrid(l: Layout)
    requires Wf(l)
    ensures Grid(l)
  {
  }

  lemma FirstHeader(addr: u64)
    requires addr > 0
    ensures var first := (addr as int + HEADER + 15) / 16 * 16 - HEADER;
            first % 16 == 8 && addr as int <= first < addr as int + 16
  {
  }
}
