/** The block list of the kernel heap in memory.  Memory is the whole address space, byte by byte, so
    headers that overlap are overlapping bytes; the stores of the allocator are functions on it, and what
    they do to the list is proved against Heap's layouts. */
module KmemList {
  import opened Bytes
  import opened Heap

  const MAGIC: u64 := 0x4d43_534f_5348_4541
  const NULL: nat := 0

  /** Memory from address zero. */
  type Mem = seq<byte>

  datatype Header = Header(magic: u64, size: u64, next: u64, isFree: bool)

  // ----- Header fields in memory -----

  function HeaderAt(mem: Mem, a: nat): Header
    requires a + HEADER <= |mem|
  {
    Header(LoadU64(mem, a), LoadU64(mem, a + 8), LoadU64(mem, a + 16), LoadU32(mem, a + 24) != 0)
  }

  /** The bytes outside [lo, hi) are the same. */
  ghost predicate SameOutside(mem: Mem, mem': Mem, lo: nat, hi: nat) {
    |mem'| == |mem| && forall i :: 0 <= i < |mem| && !(lo <= i < hi) ==> mem'[i] == mem[i]
  }

  ghost predicate SameInside(mem: Mem, mem': Mem, lo: nat, hi: nat) {
    |mem'| == |mem| && forall i :: lo <= i < hi && i < |mem| ==> mem'[i] == mem[i]
  }

  lemma HeaderSame(mem: Mem, mem': Mem, a: nat)
    requires a + HEADER <= |mem| && SameInside(mem, mem', a, a + HEADER)
    ensures HeaderAt(mem', a) == HeaderAt(mem, a)
  {
    hide LoadU32;
    SameWord(mem, mem', a);
    SameWord(mem, mem', a + 4);
    SameWord(mem, mem', a + 8);
    SameWord(mem, mem', a + 12);
    SameWord(mem, mem', a + 16);
    SameWord(mem, mem', a + 20);
    SameWord(mem, mem', a + 24);
  }

  lemma HeaderApart(mem: Mem, mem': Mem, lo: nat, hi: nat, a: nat)
    requires SameOutside(mem, mem', lo, hi) && a + HEADER <= |mem| && (a + HEADER <= lo || hi <= a)
    ensures HeaderAt(mem', a) == HeaderAt(mem, a)
  {
    hide HeaderAt;
    HeaderSame(mem, mem', a);
  }

  lemma SameOutsideBoth(m1: Mem, m2: Mem, m3: Mem, lo: nat, hi: nat, lo': nat, hi': nat)
    requires SameOutside(m1, m2, lo, hi) && SameOutside(m2, m3, lo', hi')
    ensures SameOutside(m1, m3, if lo < lo' then lo else lo', if hi > hi' then hi else hi')
  {
  }

  lemma WiderOutside(m: Mem, m': Mem, lo: nat, hi: nat, hi': nat)
    requires (SameOutside(m, m', lo, hi) || m' == m) && hi <= hi'
    ensures SameOutside(m, m', lo, hi')
  {
  }

  lemma SameWord(mem: Mem, mem': Mem, o: nat)
    requires o + 4 <= |mem| && SameInside(mem, mem', o, o + 4)
    ensures LoadU32(mem', o) == LoadU32(mem, o)
  {
    hide LoadU32;
    assert mem'[o..o + 4] == mem[o..o + 4];
    LoadU32Same(mem', mem, o);
  }

  function PutMagic(mem: Mem, a: nat, v: u64): (r: Mem)
    requires a + HEADER <= |mem|
    ensures |r| == |mem| && SameOutside(mem, r, a, a + HEADER) && HeaderAt(r, a) == HeaderAt(mem, a).(magic := v)
  {
    hide LoadU32;
    StoreU64(mem, a, v)
  }

  function PutSize(mem: Mem, a: nat, v: u64): (r: Mem)
    requires a + HEADER <= |mem|
    ensures |r| == |mem| && SameOutside(mem, r, a, a + HEADER) && HeaderAt(r, a) == HeaderAt(mem, a).(size := v)
  {
    hide LoadU32;
    StoreU64(mem, a + 8, v)
  }

  function PutNext(mem: Mem, a: nat, v: u64): (r: Mem)
    requires a + HEADER <= |mem|
    ensures |r| == |mem| && SameOutside(mem, r, a, a + HEADER) && HeaderAt(r, a) == HeaderAt(mem, a).(next := v)
  {
    hide LoadU32;
    StoreU64(mem, a + 16, v)
  }

  function PutFree(mem: Mem, a: nat, v: bool): (r: Mem)
    requires a + HEADER <= |mem|
    ensures |r| == |mem| && SameOutside(mem, r, a, a + HEADER) && HeaderAt(r, a) == HeaderAt(mem, a).(isFree := v)
  {
    hide LoadU32;
    StoreU32(mem, a + 24, if v then 1 else 0)
  }

  /** A header in memory, byte by byte: magic, size, next, the free flag as a word, and twelve bytes never written. */
  lemma HeaderBytes(mem: Mem, a: nat, size: u64, next: u64, free: bool)
    requires a + HEADER <= |mem|
    ensures var r := PutFree(PutNext(PutSize(PutMagic(mem, a, MAGIC), a, size), a, next), a, free);
            && |r| == |mem| && a + 40 <= |r|
            && r[a..a + 8] == [0x41, 0x45, 0x48, 0x53, 0x4F, 0x53, 0x43, 0x4D]
            && LoadU64(r, a + 8) == size && LoadU64(r, a + 16) == next
            && r[a + 24..a + 28] == [if free then 1 else 0, 0, 0, 0]
            && forall i :: 0 <= i < |mem| && !(a <= i < a + 28) ==> r[i] == mem[i]
  {
    hide LoadU32;
    var m1 := PutMagic(mem, a, MAGIC);
    var m2 := PutSize(m1, a, size);
    var m3 := PutNext(m2, a, next);
    var r := PutFree(m3, a, free);
    assert LoadU32(m1, a) == 0x5348_4541 && LoadU32(m1, a + 4) == 0x4D43_534F by { MagicWords(m1, a); }
    WordBytes(r, a, 0x41, 0x45, 0x48, 0x53);
    WordBytes(r, a + 4, 0x4F, 0x53, 0x43, 0x4D);
    WordBytes(r, a + 24, if free then 1 else 0, 0, 0, 0);
  }

  lemma MagicWords(mem: Mem, a: nat)
    requires a + 8 <= |mem| && LoadU64(mem, a) == MAGIC
    ensures LoadU32(mem, a) == 0x5348_4541 && LoadU32(mem, a + 4) == 0x4D43_534F
  {
    hide LoadU32;
  }

  // ----- The linked list -----

  /** The pointer to a list of blocks at address a, followed by `after`. */
  function Ptr(a: nat, l: Layout, after: nat): nat {
    if l == [] then after else a
  }

  predicate Describes(h: Header, size: nat, next: nat, free: bool) {
    h.magic == MAGIC && h.size == size && h.next == next && h.isFree == free
  }

  /** The headers at a, a + 40 + size, ... describe l and link it up to `after`. */
  ghost predicate Chain(mem: Mem, a: nat, l: Layout, after: nat)
    decreases |l|
  {
    l != [] ==>
      var rest := a + HEADER + l[0].size;
      && a + HEADER <= |mem| && Describes(HeaderAt(mem, a), l[0].size, Ptr(rest, l[1..], after), l[0].free)
      && Chain(mem, rest, l[1..], after)
  }

  lemma {:induction false} ChainAppend(mem: Mem, a: nat, x: Layout, y: Layout, after: nat)
    ensures Chain(mem, a, x + y, after) <==>
              Chain(mem, a, x, Ptr(a + Span(x), y, after)) && Chain(mem, a + Span(x), y, after)
    decreases |x|
  {
    hide HeaderAt;
    if x == [] {
      assert x + y == y;
    } else {
      assert (x + y)[1..] == x[1..] + y;
      ChainAppend(mem, a + HEADER + x[0].size, x[1..], y, after);
    }
  }

  lemma {:induction false} ChainFrame(mem: Mem, mem': Mem, a: nat, l: Layout, after: nat)
    requires Chain(mem, a, l, after) && SameInside(mem, mem', a, a + Span(l))
    ensures Chain(mem', a, l, after)
    decreases |l|
  {
    hide HeaderAt;
    if l != [] {
      HeaderSame(mem, mem', a);
      ChainFrame(mem, mem', a + HEADER + l[0].size, l[1..], after);
    }
  }

  /** Blocks replaced by others over the same bytes, everything outside those bytes as before. */
  lemma ChainReplace(mem: Mem, mem': Mem, base: nat, x: Layout, m: Layout, m': Layout, y: Layout)
    requires Chain(mem, base, x + m + y, NULL) && m != [] && m' != [] && Span(m) == Span(m')
    requires var at := base + Span(x);
             SameOutside(mem, mem', at, at + Span(m)) && Chain(mem', at, m', Ptr(at + Span(m), y, NULL))
    ensures Chain(mem', base, x + m' + y, NULL)
  {
    hide Span, Chain, HeaderAt;
    ChainAppend(mem, base, x + m, y, NULL);
    ChainAppend(mem, base, x, m, Ptr(base + Span(x + m), y, NULL));
    SpanAppend(x, m);
    SpanAppend(x, m');
    ChainFrame(mem, mem', base, x, base + Span(x));
    ChainFrame(mem, mem', base + Span(x + m), y, NULL);
    ChainAppend(mem', base, x + m', y, NULL);
    ChainAppend(mem', base, x, m', Ptr(base + Span(x + m'), y, NULL));
  }

  /** The address of block i, NULL past the end. */
  function Here(l: Layout, base: nat, i: nat): nat {
    if i < |l| then At(l, base, i) else NULL
  }

  /** What the walk reads at block i. */
  lemma ChainAt(mem: Mem, base: nat, l: Layout, i: nat)
    requires Chain(mem, base, l, NULL) && i < |l|
    ensures var a := At(l, base, i);
            && a + HEADER <= |mem|
            && Describes(HeaderAt(mem, a), l[i].size, Here(l, base, i + 1), l[i].free)
  {
    hide HeaderAt;
    var y := l[i + 1..];
    assert l == l[..i] + ([l[i]] + y);
    ChainAppend(mem, base, l[..i], [l[i]] + y, NULL);
    assert ([l[i]] + y)[1..] == y;
    AtNext(l, base, i);
  }

  /** The split of a layout around block i. */
  lemma Around(l: Layout, base: nat, i: nat)
    requires i < |l|
    ensures l == l[..i] + [l[i]] + l[i + 1..] && At(l, base, i) == base + Span(l[..i])
  {
  }

  lemma ChainOne(mem: Mem, at: nat, b: Blk, after: nat)
    requires at + HEADER <= |mem| && Describes(HeaderAt(mem, at), b.size, after, b.free)
    ensures Chain(mem, at, [b], after)
  {
    hide HeaderAt;
  }

  lemma ChainTwo(mem: Mem, at: nat, b: Blk, c: Blk, after: nat)
    requires at + HEADER <= |mem| && at + HEADER + b.size + HEADER <= |mem|
    requires Describes(HeaderAt(mem, at), b.size, at + HEADER + b.size, b.free)
    requires Describes(HeaderAt(mem, at + HEADER + b.size), c.size, after, c.free)
    ensures Chain(mem, at, [b, c], after)
  {
    hide HeaderAt;
    assert [b, c][1..] == [c];
    ChainOne(mem, at + HEADER + b.size, c, after);
  }

  /** One block's header rewritten, the block being replaced by b of the same extent. */
  lemma ChainSwap(mem: Mem, mem': Mem, base: nat, l: Layout, i: nat, b: Blk)
    requires Chain(mem, base, l, NULL) && i < |l| && b.size == l[i].size
    requires var at := At(l, base, i);
             && SameOutside(mem, mem', at, at + HEADER) && at + HEADER <= |mem'|
             && Describes(HeaderAt(mem', at), b.size, Here(l, base, i + 1), b.free)
    ensures Chain(mem', base, l[i := b], NULL)
  {
    hide Chain, At, Span, HeaderAt;
    var at, y := At(l, base, i), l[i + 1..];
    Around(l, base, i);
    SpanOne(l[i]);
    SpanOne(b);
    AtNext(l, base, i);
    assert Here(l, base, i + 1) == Ptr(at + Span([b]), y, NULL);
    ChainOne(mem', at, b, Ptr(at + Span([b]), y, NULL));
    ChainReplace(mem, mem', base, l[..i], [l[i]], [b], y);
    assert l[i := b] == l[..i] + [b] + y;
  }

  // ----- Splitting, as the code stores it -----

  /** Subtraction and addition of 64-bit words. */
  function Minus(a: u64, b: u64): (r: u64)
    ensures b <= a ==> r as int == a as int - b as int
    ensures b > a ==> r as int == a as int - b as int + WORD64
  {
    (a as int - b as int) % WORD64
  }

  function Plus(a: u64, b: u64): (r: u64)
    ensures a as int + b as int < WORD64 ==> r as int == a as int + b as int
    ensures a as int + b as int >= WORD64 ==> r as int == a as int + b as int - WORD64
  {
    (a as int + b as int) % WORD64
  }

  /** Magic and size of the rest block at at + needed; at is the block being split, whose header may overlap. */
  function RestHead(mem: Mem, at: nat, needed: u64): (r: Mem)
    requires at + needed as int + HEADER <= |mem|
    ensures |r| == |mem| && SameOutside(mem, r, at + needed as int, at + needed as int + HEADER)
    ensures HEADER <= needed <= HeaderAt(mem, at).size ==>
              && HeaderAt(r, at) == HeaderAt(mem, at)
              && HeaderAt(r, at + needed as int).magic == MAGIC
              && HeaderAt(r, at + needed as int).size as int == HeaderAt(mem, at).size as int - needed as int
  {
    hide HeaderAt, SameOutside, Minus, PutMagic, PutSize;
    var rest := at + needed as int;
    var m1 := PutMagic(mem, rest, MAGIC);
    var m2 := PutSize(m1, rest, Minus(HeaderAt(m1, at).size, needed));
    StoredTwice(mem, m1, m2, rest, at);
    m2
  }

  /** Two rounds of stores inside the header at `rest`, and what they leave of a header before it. */
  lemma StoredTwice(m1: Mem, m2: Mem, m3: Mem, rest: nat, at: nat)
    requires SameOutside(m1, m2, rest, rest + HEADER) && SameOutside(m2, m3, rest, rest + HEADER)
    requires at <= rest && rest + HEADER <= |m1|
    ensures SameOutside(m1, m3, rest, rest + HEADER)
    ensures at + HEADER <= rest ==> HeaderAt(m2, at) == HeaderAt(m1, at) && HeaderAt(m3, at) == HeaderAt(m1, at)
  {
    hide HeaderAt;
    if at + HEADER <= rest {
      HeaderApart(m1, m2, rest, rest + HEADER, at);
      HeaderApart(m2, m3, rest, rest + HEADER, at);
    }
  }

  /** The whole header of the rest block. */
  function RestStores(mem: Mem, at: nat, needed: u64): (r: Mem)
    requires at + needed as int + HEADER <= |mem|
    ensures |r| == |mem| && SameOutside(mem, r, at + needed as int, at + needed as int + HEADER)
    ensures HEADER <= needed <= HeaderAt(mem, at).size ==>
              HeaderAt(r, at + needed as int)
              == Header(MAGIC, HeaderAt(mem, at).size as int - needed as int, HeaderAt(mem, at).next, true)
  {
    hide HeaderAt, SameOutside, RestHead;
    var rest := at + needed as int;
    var m2 := RestHead(mem, at, needed);
    var m3 := PutNext(m2, rest, HeaderAt(m2, at).next);
    StoredTwice(mem, m2, m3, rest, at);
    var m4 := PutFree(m3, rest, true);
    StoredTwice(mem, m3, m4, rest, at);
    m4
  }

  /** The stores of the split, in order: the header of the rest block at at + needed, then size and next of
      the block being taken.  Sizes are 64-bit words. */
  function SplitStores(mem: Mem, at: nat, needed: u64): (r: Mem)
    requires at + needed as int + HEADER <= |mem| <= WORD64 && needed <= HeaderAt(mem, at).size
    ensures |r| == |mem| && SameOutside(mem, r, at, at + needed as int + HEADER)
    ensures HeaderAt(r, at).size == Minus(needed, HEADER) && HeaderAt(r, at).next == at + needed as int
    ensures needed >= HEADER ==>
              && HeaderAt(r, at + needed as int)
                 == Header(MAGIC, HeaderAt(mem, at).size as int - needed as int, HeaderAt(mem, at).next, true)
              && HeaderAt(r, at).isFree == HeaderAt(mem, at).isFree && HeaderAt(r, at).magic == HeaderAt(mem, at).magic
  {
    hide HeaderAt, SameOutside, Minus, RestStores, PutSize, PutNext;
    var rest := at + needed as int;
    var m1 := RestStores(mem, at, needed);
    var m2 := PutSize(m1, at, Minus(needed, HEADER));
    SameOutsideBoth(mem, m1, m2, rest, rest + HEADER, at, at + HEADER);
    var m3 := PutNext(m2, at, rest);
    SameOutsideBoth(mem, m2, m3, at, rest + HEADER, at, at + HEADER);
    assert needed >= HEADER ==> HeaderAt(m3, rest) == HeaderAt(m1, rest) && HeaderAt(m1, at) == HeaderAt(mem, at) by {
      if needed >= HEADER {
        HeaderApart(mem, m1, rest, rest + HEADER, at);
        HeaderApart(m1, m2, at, at + HEADER, rest);
        HeaderApart(m2, m3, at, at + HEADER, rest);
      }
    }
    m3
  }

  /** The stores of kmem_alloc on the block it takes. */
  function TakeStores(mem: Mem, at: nat, a: u64): (r: Mem)
    requires at + HEADER <= |mem| <= WORD64 && at + HEADER + HeaderAt(mem, at).size as int <= |mem|
    ensures |r| == |mem| && SameOutside(mem, r, at, at + HEADER + HeaderAt(mem, at).size as int)
  {
    hide HeaderAt, Needed, SameOutside;
    var needed, size := Needed(a), HeaderAt(mem, at).size;
    var hi := at + HEADER + size as int;
    var m := if size >= needed as int + HEADER + 16 then SplitStores(mem, at, needed) else mem;
    WiderOutside(mem, m, at, if m == mem then at + HEADER else at + needed as int + HEADER, hi);
    SameOutsideBoth(mem, m, PutFree(m, at, false), at, hi, at, at + HEADER);
    PutFree(m, at, false)
  }

  lemma TakeStoresAre(mem: Mem, at: nat, a: u64)
    requires at + HEADER <= |mem| <= WORD64 && at + HEADER + HeaderAt(mem, at).size as int <= |mem|
    ensures var split := HeaderAt(mem, at).size >= Needed(a) as int + HEADER + 16;
            TakeStores(mem, at, a) == PutFree(if split then SplitStores(mem, at, Needed(a)) else mem, at, false)
  {
    hide HeaderAt, Needed, SameOutside, PutFree, SplitStores;
  }

  /** m1 is what the stores of kmem_alloc make of mem when they take the block at `at`. */
  ghost predicate Took(mem: Mem, m1: Mem, at: nat, a: u64) {
    && at + HEADER <= |mem| <= WORD64 && at + HEADER + HeaderAt(mem, at).size as int <= |mem|
    && m1 == TakeStores(mem, at, a)
  }

  /** Where the needed space does not wrap, the stores take the block as the layout says. */
  lemma ChainTake(mem: Mem, base: nat, l: Layout, i: nat, a: u64)
    requires Chain(mem, base, l, NULL) && base + Span(l) <= |mem| <= WORD64
    requires i < |l| && l[i].free && l[i].size >= a && Fits32(a)
    ensures var at := At(l, base, i);
            && at + HEADER + l[i].size <= |mem| && HeaderAt(mem, at).size == l[i].size
            && Chain(TakeStores(mem, at, a), base, Take(l, i, a), NULL)
  {
    hide Chain, At, Take, Parts, Span, HeaderAt, Needed, TakeStores, Fits32;
    ChainAt(mem, base, l, i);
    AtIncreases(l, base, i, i + 1);
    var at, y := At(l, base, i), l[i + 1..];
    Around(l, base, i);
    PartsCover(l[i], a, at);
    SpanOne(l[i]);
    TakeIs(l, i, a);
    AtNext(l, base, i);
    TakenParts(mem, at, l[i], Here(l, base, i + 1), a);
    ChainReplace(mem, TakeStores(mem, at, a), base, l[..i], [l[i]], Parts(l[i], a), y);
  }

  lemma TakenParts(mem: Mem, at: nat, b: Blk, next: nat, a: u64)
    requires at + HEADER <= |mem| <= WORD64 && at + HEADER + b.size <= |mem| && b.free && b.size >= a && Fits32(a)
    requires Describes(HeaderAt(mem, at), b.size, next, true)
    ensures Chain(TakeStores(mem, at, a), at, Parts(b, a), next)
  {
    hide HeaderAt, Chain, Needed, SameOutside, TakeStores, PutFree, SplitStores, RestStores;
    TakeStoresAre(mem, at, a);
    NeededIs(a);
    var needed: u64 := a as int + 48;
    var r := TakeStores(mem, at, a);
    if b.size >= needed as int + HEADER + 16 {
      var m := SplitStores(mem, at, needed);
      HeaderApart(m, r, at, at + HEADER, at + needed as int);
      ChainTwo(r, at, Blk(needed as int - HEADER, false), Blk(b.size - needed as int, true), next);
    } else {
      ChainOne(r, at, Blk(b.size, false), next);
    }
  }

  /** A list that agrees with a chain up to block i still reaches that address. */
  lemma {:induction false} ReachesBlock(mem: Mem, mem': Mem, base: nat, l: Layout, i: nat, l': Layout)
    requires Chain(mem, base, l, NULL) && i < |l| && base > 0 && SameInside(mem, mem', base, At(l, base, i))
    requires l' != [] && Chain(mem', base, l', NULL)
    ensures exists rest :: rest != [] && Chain(mem', At(l, base, i), rest, NULL)
    decreases i
  {
    hide HeaderAt;
    AtNext(l, base, 0);
    if i > 0 {
      var next := base + HEADER + l[0].size;
      assert l[..i] == [l[0]] + l[1..][..i - 1];
      AtIncreases(l, base, 0, i);
      HeaderSame(mem, mem', base);
      ReachesBlock(mem, mem', next, l[1..], i - 1, l'[1..]);
    } else {
      assert At(l, base, i) == base;
    }
  }

  /** The list in memory describes no layout at all: every walk along it meets a header that is wrong. */
  ghost predicate Broken(mem: Mem, base: nat) {
    forall l :: l != [] ==> !Chain(mem, base, l, NULL)
  }

  /** Where it wraps, the taken block's header claims almost 2^64 bytes and points into itself: the list
      no longer describes any layout. */
  lemma WrappedSplitDestroys(mem: Mem, base: nat, l: Layout, i: nat, bytes: u64)
    requires Chain(mem, base, l, NULL) && 0 < base && base + Span(l) <= |mem| <= WORD64
    requires i < |l| && l[i].free && l[i].size >= RoundUp(bytes) && !Fits32(RoundUp(bytes))
    ensures var at := At(l, base, i);
            && at + HEADER + l[i].size <= |mem| && HeaderAt(mem, at).size == l[i].size
            && Broken(TakeStores(mem, at, RoundUp(bytes)), base)
  {
    hide Chain, At, Span, HeaderAt, RoundUp, Needed, Fits32, TakeStores, Broken;
    ChainAt(mem, base, l, i);
    AtIncreases(l, base, i, i + 1);
    var at, a := At(l, base, i), RoundUp(bytes);
    WrappedNeed(bytes);
    WrappedHeader(mem, at, a);
    StuckList(mem, TakeStores(mem, at, a), base, l, i, Needed(a));
  }

  /** On the concrete heap of one free block: a request of 0xFFFF_FFC1 bytes leaves a header that links to
      itself and claims all but 40 bytes of the address space. */
  lemma DestroyedHeader(mem: Mem, base: nat)
    requires Chain(mem, base, [Blk(0x1_0000_0100, true)], NULL) && base > 0
    requires base + HEADER + 0x1_0000_0100 <= |mem| <= WORD64
    ensures base + HEADER + HeaderAt(mem, base).size as int <= |mem|
    ensures var h := HeaderAt(TakeStores(mem, base, RoundUp(0xFFFF_FFC1)), base);
            h.next as int == base && h.size as int == WORD64 - HEADER
    ensures Broken(TakeStores(mem, base, RoundUp(0xFFFF_FFC1)), base)
  {
    hide Chain, Span, HeaderAt, TakeStores, Broken, RoundUp, Needed, SameInside;
    var l := [Blk(0x1_0000_0100, true)];
    RequestNeedsNothing();
    SpanOne(l[0]);
    AtNext(l, base, 0);
    ChainAt(mem, base, l, 0);
    WrappedHeader(mem, base, RoundUp(0xFFFF_FFC1));
    WrappedSplitDestroys(mem, base, l, 0, 0xFFFF_FFC1);
  }

  lemma WrappedHeader(mem: Mem, at: nat, a: u64)
    requires at + HEADER <= |mem| <= WORD64 && at + HEADER + HeaderAt(mem, at).size as int <= |mem|
    requires HeaderAt(mem, at).size >= a && a as int >= WORD32 - 48 && Needed(a) < HEADER
    ensures var r := TakeStores(mem, at, a);
            && HeaderAt(r, at).size == Minus(Needed(a), HEADER) && HeaderAt(r, at).next == at + Needed(a) as int
            && forall lo :: SameInside(mem, r, lo, at)
  {
    hide HeaderAt, Needed, PutFree, SplitStores, Minus, TakeStores;
    TakeStoresAre(mem, at, a);
  }

  /** A header that points into itself, behind headers that are as before: no walk gets past it. */
  lemma StuckList(mem: Mem, mem': Mem, base: nat, l: Layout, i: nat, needed: u64)
    requires Chain(mem, base, l, NULL) && base > 0 && i < |l| && |mem'| <= WORD64 && needed < HEADER
    requires var at := At(l, base, i);
             && SameInside(mem, mem', base, at) && at + HEADER <= |mem'|
             && HeaderAt(mem', at).size == Minus(needed, HEADER) && HeaderAt(mem', at).next == at + needed as int
    ensures Broken(mem', base)
  {
    hide Chain, At, HeaderAt, SameInside, Minus;
    var at := At(l, base, i);
    forall l': Layout | l' != [] ensures !Chain(mem', base, l', NULL) {
      if Chain(mem', base, l', NULL) {
        ReachesBlock(mem, mem', base, l, i, l');
        var rest :| rest != [] && Chain(mem', at, rest, NULL);
        SelfPointer(mem', at, rest, needed);
      }
    }
  }

  lemma WrappedNeed(bytes: u64)
    requires !Fits32(RoundUp(bytes))
    ensures Needed(RoundUp(bytes)) < HEADER && RoundUp(bytes) as int >= WORD32 - 48
  {
    NeededIs(RoundUp(bytes));
  }

  lemma SelfPointer(mem: Mem, at: nat, rest: Layout, needed: u64)
    requires at > 0 && rest != [] && needed < HEADER && at + HEADER <= |mem| <= WORD64
    requires HeaderAt(mem, at).size == Minus(needed, HEADER) && HeaderAt(mem, at).next == at + needed as int
    ensures !Chain(mem, at, rest, NULL)
  {
    hide HeaderAt;
  }

  // ----- Freeing, as the code stores it -----

  lemma ChainFree(mem: Mem, base: nat, l: Layout, i: nat)
    requires Chain(mem, base, l, NULL) && i < |l|
    ensures At(l, base, i) + HEADER <= |mem|
    ensures Chain(PutFree(mem, At(l, base, i), true), base, l[i := Blk(l[i].size, true)], NULL)
  {
    hide Chain, At, Span, HeaderAt, PutFree;
    ChainAt(mem, base, l, i);
    ChainSwap(mem, PutFree(mem, At(l, base, i), true), base, l, i, Blk(l[i].size, true));
  }

  /** The block at `at` absorbs its right neighbour. */
  function AbsorbStores(mem: Mem, at: nat): (r: Mem)
    requires at + HEADER <= |mem| && HeaderAt(mem, at).next as int + HEADER <= |mem|
    ensures |r| == |mem| && SameOutside(mem, r, at, at + HEADER)
  {
    hide HeaderAt, SameOutside;
    var next := HeaderAt(mem, at).next;
    var m1 := PutSize(mem, at, Plus(HeaderAt(mem, at).size, Plus(HEADER, HeaderAt(mem, next).size)));
    var m2 := PutNext(m1, at, HeaderAt(m1, HeaderAt(m1, at).next).next);
    SameOutsideBoth(mem, m1, m2, at, at + HEADER, at, at + HEADER);
    m2
  }

  lemma ChainAbsorb(mem: Mem, base: nat, l: Layout, k: nat)
    requires Chain(mem, base, l, NULL) && k + 1 < |l| && base + Span(l) <= |mem| <= WORD64
    ensures var at := At(l, base, k);
            && at + HEADER <= |mem| && HeaderAt(mem, at).next as int + HEADER <= |mem|
            && Chain(AbsorbStores(mem, at), base, MergeAt(l, k), NULL)
  {
    hide *;
    Consts();
    ChainAt(mem, base, l, k);
    ChainAt(mem, base, l, k + 1);
    DescribesIs(mem, At(l, base, k));
    DescribesIs(mem, At(l, base, k + 1));
    MergedAround(l, base, k);
    var at, y, b, m := At(l, base, k), l[k + 2..], Merged(l[k], l[k + 1]), [l[k], l[k + 1]];
    AbsorbedPart(mem, at, l[k], l[k + 1], Here(l, base, k + 2));
    WiderOutside(mem, AbsorbStores(mem, at), at, at + HEADER, at + Span(m));
    ChainReplace(mem, AbsorbStores(mem, at), base, l[..k], m, [b], y);
  }

  /** Two neighbours in the layout and what replaces them. */
  lemma MergedAround(l: Layout, base: nat, k: nat)
    requires k + 1 < |l|
    ensures var at, m, b, y := At(l, base, k), [l[k], l[k + 1]], [Merged(l[k], l[k + 1])], l[k + 2..];
            && l == l[..k] + m + y && MergeAt(l, k) == l[..k] + b + y
            && at == base + Span(l[..k]) && Span(m) == Span(b) >= HEADER
            && Here(l, base, k + 1) == At(l, base, k + 1) == at + HEADER + l[k].size
            && at + HEADER + l[k].size + HEADER + l[k + 1].size <= base + Span(l)
            && Here(l, base, k + 2) == Ptr(at + Span(m), y, NULL)
  {
    hide Span;
    SpanTwo(l[k], l[k + 1]);
    SpanOne(Merged(l[k], l[k + 1]));
    AtNext(l, base, k);
    AtNext(l, base, k + 1);
    AtIncreases(l, base, k + 1, k + 2);
    hide At;
    Around(l, base, k);
  }

  lemma AbsorbedPart(mem: Mem, at: nat, b: Blk, c: Blk, after: nat)
    requires at + HEADER + b.size + HEADER + c.size <= |mem| <= WORD64
    requires Describes(HeaderAt(mem, at), b.size, at + HEADER + b.size, b.free)
    requires Describes(HeaderAt(mem, at + HEADER + b.size), c.size, after, c.free)
    ensures Chain(AbsorbStores(mem, at), at, [Merged(b, c)], after)
  {
    hide HeaderAt, Chain, SameOutside, PutSize, PutNext, Plus;
    var next := at + HEADER + b.size;
    var m1 := PutSize(mem, at, Plus(HeaderAt(mem, at).size, Plus(HEADER, HeaderAt(mem, next).size)));
    HeaderApart(mem, m1, at, at + HEADER, next);
    ChainOne(AbsorbStores(mem, at), at, Merged(b, c), after);
  }

  lemma DescribesIs(mem: Mem, a: nat)
    requires a + HEADER <= |mem|
    ensures forall size, next, free :: Describes(HeaderAt(mem, a), size, next, free) ==>
              HeaderAt(mem, a).magic == MAGIC && HeaderAt(mem, a).size == size && HeaderAt(mem, a).next == next
              && HeaderAt(mem, a).isFree == free
  {
  }

  lemma Consts()
    ensures HEADER == 40 && NULL == 0 && WORD64 == 0x1_0000_0000_0000_0000
  {
  }

  lemma HereIs(l: Layout, base: nat, k: nat)
    requires base > 0
    ensures k < |l| ==> Here(l, base, k) == At(l, base, k) != NULL
    ensures Here(l, base, k) == NULL <==> k >= |l|
  {
  }

  lemma SpanTwo(b: Blk, c: Blk)
    ensures Span([b, c]) == HEADER + b.size + HEADER + c.size
  {
    assert [b, c][1..] == [c];
    SpanOne(c);
  }

  // ----- What the callers keep in their payloads -----

  /** No byte of a live payload changes. */
  ghost predicate PayloadsKept(mem: Mem, mem': Mem, live: map<nat, nat>) {
    |mem'| == |mem| && forall q, k :: q in live && q <= k < q + live[q] && k < |mem| ==> mem'[k] == mem[k]
  }

  lemma KeptRefl(mem: Mem, live: map<nat, nat>)
    ensures PayloadsKept(mem, mem, live)
  {
  }

  lemma KeptBoth(m1: Mem, m2: Mem, m3: Mem, live: map<nat, nat>)
    requires PayloadsKept(m1, m2, live) && PayloadsKept(m2, m3, live)
    ensures PayloadsKept(m1, m3, live)
  {
  }

  /** Stores inside a free block touch no payload. */
  lemma FreeBlockStores(mem: Mem, mem': Mem, base: nat, l: Layout, i: nat)
    requires i < |l| && l[i].free && SameOutside(mem, mem', At(l, base, i), At(l, base, i) + HEADER + l[i].size)
    ensures PayloadsKept(mem, mem', Live(l, base))
  {
    forall q, k | q in Live(l, base) && q <= k < q + Live(l, base)[q] && k < |mem| ensures mem'[k] == mem[k] {
      PayloadPlace(l, base, q, i);
    }
  }

  /** Stores inside a header touch no payload. */
  lemma HeaderStores(mem: Mem, mem': Mem, base: nat, l: Layout, i: nat)
    requires i < |l| && SameOutside(mem, mem', At(l, base, i), At(l, base, i) + HEADER)
    ensures PayloadsKept(mem, mem', Live(l, base))
  {
    forall q, k | q in Live(l, base) && q <= k < q + Live(l, base)[q] && k < |mem| ensures mem'[k] == mem[k] {
      PayloadPlace(l, base, q, i);
    }
  }

  /** A live payload lies inside its own block, so before or after any other block. */
  lemma PayloadPlace(l: Layout, base: nat, q: nat, i: nat)
    requires q in Live(l, base) && i < |l|
    ensures var at := At(l, base, i);
            || q + Live(l, base)[q] <= at
            || q >= at + HEADER + l[i].size
            || (!l[i].free && q == at + HEADER)
  {
    hide At, Live;
    var j := BlockOf(l, base, q);
    LiveSize(l, base, j);
    if j < i {
      AtIncreases(l, base, j, i);
    } else if i < j {
      AtIncreases(l, base, i, j);
    }
  }

  lemma {:induction false} LiveSize(l: Layout, base: nat, j: nat)
    requires j < |l| && !l[j].free
    ensures At(l, base, j) + HEADER in Live(l, base) && Live(l, base)[At(l, base, j) + HEADER] == l[j].size
  {
    var rest := base + HEADER + l[0].size;
    if j > 0 {
      LiveSize(l[1..], rest, j - 1);
      assert l[..j] == [l[0]] + l[1..][..j - 1];
      LiveRange(l[1..], rest, At(l[1..], rest, j - 1) + HEADER);
    }
  }

  /** Zeroing past the end of a payload destroys the list when a block follows: the walk that reaches it
      finds no magic number. */
  lemma ZeroedHeaderDestroys(mem: Mem, mem': Mem, base: nat, l: Layout, i: nat)
    requires Chain(mem, base, l, NULL) && base > 0 && i + 1 < |l|
    requires SameInside(mem, mem', base, At(l, base, i) + HEADER)
    requires At(l, base, i + 1) + HEADER <= |mem'| && forall k :: At(l, base, i + 1) <= k < At(l, base, i + 1) + 8 ==>
              mem'[k] == 0
    ensures Broken(mem', base)
  {
    hide Chain, At, HeaderAt;
    var at := At(l, base, i);
    ChainAt(mem, base, l, i);
    HeaderSame(mem, mem', at);
    NoMagic(mem', At(l, base, i + 1));
    AtNext(l, base, i);
    forall l': Layout | l' != [] ensures !Chain(mem', base, l', NULL) {
      if Chain(mem', base, l', NULL) {
        ReachesBlock(mem, mem', base, l, i, l');
        var rest :| rest != [] && Chain(mem', at, rest, NULL);
        DeadEnd(mem', at, rest, At(l, base, i + 1), l[i].size);
      }
    }
  }

  lemma DeadEnd(mem: Mem, at: nat, rest: Layout, next: nat, size: nat)
    requires rest != [] && at + HEADER <= |mem| && next > 0 && next == at + HEADER + size && next + HEADER <= |mem|
    requires HeaderAt(mem, at).next == next && HeaderAt(mem, at).size == size && HeaderAt(mem, next).magic != MAGIC
    ensures !Chain(mem, at, rest, NULL)
  {
    hide HeaderAt;
    if |rest| == 1 {
      assert rest[1..] == [];
    }
  }

  lemma NoMagic(mem: Mem, a: nat)
    requires a + HEADER <= |mem| && forall k :: a <= k < a + 8 ==> mem[k] == 0
    ensures HeaderAt(mem, a).magic == 0
  {
    hide LoadU32;
    ZeroWord(mem, a);
    ZeroWord(mem, a + 4);
  }

  lemma ZeroWord(mem: Mem, o: nat)
    requires o + 4 <= |mem| && forall k :: o <= k < o + 4 ==> mem[k] == 0
    ensures LoadU32(mem, o) == 0
  {
    Decode4(mem[o..o + 4]);
  }

  // ----- Stores inside a payload, and past its end -----

  /** A caller who writes inside its payload never disturbs the list nor another payload. */
  lemma PayloadStores(mem: Mem, mem': Mem, base: nat, l: Layout, i: nat)
    requires Chain(mem, base, l, NULL) && i < |l| && !l[i].free
    requires var p := At(l, base, i) + HEADER; SameOutside(mem, mem', p, p + l[i].size)
    ensures Chain(mem', base, l, NULL) && PayloadsKept(mem, mem', Live(l, base) - {At(l, base, i) + HEADER})
  {
    hide Chain, At, Span, HeaderAt, Live, PayloadsKept, SameOutside;
    var at := At(l, base, i);
    AreaStores(mem, mem', base, l, i);
    WiderBoth(mem, mem', at + HEADER, at + HEADER + l[i].size, at, at + HEADER + l[i].size);
    OtherPayloads(mem, mem', base, l, i);
  }

  /** Stores between two headers never disturb the list. */
  lemma AreaStores(mem: Mem, mem': Mem, base: nat, l: Layout, i: nat)
    requires Chain(mem, base, l, NULL) && i < |l|
    requires var p := At(l, base, i) + HEADER; SameOutside(mem, mem', p, p + l[i].size)
    ensures Chain(mem', base, l, NULL)
  {
    hide Chain, At, Span, HeaderAt, SameOutside;
    var at, y := At(l, base, i), l[i + 1..];
    ChainAt(mem, base, l, i);
    Around(l, base, i);
    SpanOne(l[i]);
    AtNext(l, base, i);
    HeaderApart(mem, mem', at + HEADER, at + HEADER + l[i].size, at);
    LengthKept(mem, mem', at + HEADER, at + HEADER + l[i].size);
    ChainOne(mem', at, l[i], Here(l, base, i + 1));
    WiderBoth(mem, mem', at + HEADER, at + HEADER + l[i].size, at, at + HEADER + l[i].size);
    ChainReplace(mem, mem', base, l[..i], [l[i]], [l[i]], y);
  }

  /** The n bytes from w on meet no header of the list. */
  ghost predicate Clear(l: Layout, base: nat, w: nat, n: nat) {
    || w + n <= base
    || exists i :: 0 <= i < |l| && At(l, base, i) + HEADER <= w && w + n <= At(l, base, i) + HEADER + l[i].size
  }

  lemma ClearStores(mem: Mem, mem': Mem, base: nat, l: Layout, w: nat, n: nat)
    requires Chain(mem, base, l, NULL) && Clear(l, base, w, n) && SameOutside(mem, mem', w, w + n)
    ensures Chain(mem', base, l, NULL)
  {
    hide Chain, At, Span, HeaderAt;
    if w + n <= base {
      ChainFrame(mem, mem', base, l, NULL);
    } else {
      var i :| 0 <= i < |l| && At(l, base, i) + HEADER <= w && w + n <= At(l, base, i) + HEADER + l[i].size;
      AreaStores(mem, mem', base, l, i);
    }
  }

  /** Marking a header free changes its flag word only. */
  lemma FlagWord(mem: Mem, a: nat, v: bool)
    requires a + HEADER <= |mem|
    ensures SameOutside(mem, PutFree(mem, a, v), a + 24, a + 28)
  {
    hide LoadU32;
  }

  lemma LengthKept(mem: Mem, mem': Mem, lo: nat, hi: nat)
    requires SameOutside(mem, mem', lo, hi)
    ensures |mem'| == |mem|
  {
  }

  lemma WiderBoth(m: Mem, m': Mem, lo: nat, hi: nat, lo': nat, hi': nat)
    requires SameOutside(m, m', lo, hi) && lo' <= lo && hi <= hi'
    ensures SameOutside(m, m', lo', hi')
  {
  }

  lemma OtherPayloads(mem: Mem, mem': Mem, base: nat, l: Layout, i: nat)
    requires i < |l| && SameOutside(mem, mem', At(l, base, i), At(l, base, i) + HEADER + l[i].size)
    ensures PayloadsKept(mem, mem', Live(l, base) - {At(l, base, i) + HEADER})
  {
    hide At, Live;
    var live := Live(l, base) - {At(l, base, i) + HEADER};
    forall q, k | q in live && q <= k < q + live[q] && k < |mem| ensures mem'[k] == mem[k] {
      PayloadPlace(l, base, q, i);
    }
  }

  /** Byte k is one of the n bytes from p on, counting past the top of the address space from zero again. */
  predicate Covers(p: nat, n: nat, k: nat) {
    p <= k < p + n || k + WORD64 < p + n
  }

  /** The n bytes from p on are zero, every other byte is as before. */
  ghost predicate Zeroed(mem: Mem, mem': Mem, p: nat, n: nat) {
    |mem'| == |mem| && forall k :: 0 <= k < |mem| ==> mem'[k] == if Covers(p, n, k) then 0 else mem[k]
  }

  /** Zeroing that reaches the first header from below breaks the list. */
  lemma ZeroedFromBelow(mem: Mem, mem': Mem, base: nat, p: nat, n: nat)
    requires Zeroed(mem, mem', p, n) && p + n > WORD64 + base && base + HEADER <= |mem|
    ensures Broken(mem', base)
  {
    hide HeaderAt;
    assert Covers(p, n, base);
    if HeaderAt(mem', base).magic == MAGIC {
      MagicByte(mem', base);
    }
  }

  lemma MagicByte(mem: Mem, a: nat)
    requires a + HEADER <= |mem| && HeaderAt(mem, a).magic == MAGIC
    ensures mem[a] == 0x41
  {
  }

  /** Zeroing up to the size of the payload. */
  lemma ZeroedInside(mem: Mem, mem': Mem, base: nat, l: Layout, i: nat, n: nat)
    requires Chain(mem, base, l, NULL) && i < |l| && !l[i].free && n <= l[i].size && base + Span(l) <= |mem| <= WORD64
    requires Zeroed(mem, mem', At(l, base, i) + HEADER, n)
    ensures Chain(mem', base, l, NULL) && PayloadsKept(mem, mem', Live(l, base) - {At(l, base, i) + HEADER})
    ensures At(l, base, i) + HEADER + n <= |mem'|
    ensures forall k :: At(l, base, i) + HEADER <= k < At(l, base, i) + HEADER + n ==> mem'[k] == 0
  {
    hide Chain, At, Span, Live, PayloadsKept;
    AtIncreases(l, base, i, i + 1);
    PayloadStores(mem, mem', base, l, i);
  }

  /** Zeroing past the end of the last block: the list survives unless the zeroing comes round to its start. */
  lemma ZeroedPastEnd(mem: Mem, mem': Mem, base: nat, l: Layout, i: nat, n: nat)
    requires Chain(mem, base, l, NULL) && i + 1 == |l| && !l[i].free && base + Span(l) <= |mem| == WORD64
    requires var p := At(l, base, i) + HEADER; Zeroed(mem, mem', p, n) && p + n <= WORD64 + base
    ensures Chain(mem', base, l, NULL) && PayloadsKept(mem, mem', Live(l, base) - {At(l, base, i) + HEADER})
  {
    hide Chain, At, Span, Live, HeaderAt, PayloadsKept;
    var at, p := At(l, base, i), At(l, base, i) + HEADER;
    ChainAt(mem, base, l, i);
    ZeroedBefore(mem, mem', base, p, n);
    Around(l, base, i);
    assert l == l[..i] + [l[i]];
    ChainAppend(mem, base, l[..i], [l[i]], NULL);
    NarrowInside(mem, mem', base, p, base, at);
    NarrowInside(mem, mem', base, p, at, p);
    ChainFrame(mem, mem', base, l[..i], at);
    HeaderSame(mem, mem', at);
    ChainOne(mem', at, l[i], NULL);
    ChainAppend(mem', base, l[..i], [l[i]], NULL);
    EarlierPayloads(mem, mem', base, l, i);
  }

  lemma ZeroedBefore(mem: Mem, mem': Mem, base: nat, p: nat, n: nat)
    requires Zeroed(mem, mem', p, n) && p + n <= WORD64 + base
    ensures SameInside(mem, mem', base, p)
  {
  }

  lemma NarrowInside(mem: Mem, mem': Mem, lo: nat, hi: nat, lo': nat, hi': nat)
    requires SameInside(mem, mem', lo, hi) && lo <= lo' && hi' <= hi
    ensures SameInside(mem, mem', lo', hi')
  {
  }

  lemma EarlierPayloads(mem: Mem, mem': Mem, base: nat, l: Layout, i: nat)
    requires i + 1 == |l| && SameInside(mem, mem', base, At(l, base, i) + HEADER)
    ensures PayloadsKept(mem, mem', Live(l, base) - {At(l, base, i) + HEADER})
  {
    hide At, Live;
    var live := Live(l, base) - {At(l, base, i) + HEADER};
    forall q, k | q in live && q <= k < q + live[q] && k < |mem| ensures mem'[k] == mem[k] {
      LiveRange(l, base, q);
      PayloadPlace(l, base, q, i);
      AtNext(l, base, i);
    }
  }

  lemma ZeroedTooFar(mem: Mem, mem': Mem, base: nat, l: Layout, i: nat, n: u64)
    requires Chain(mem, base, l, NULL) && base > 0 && base + Span(l) <= |mem| == WORD64
    requires i + 1 < |l| && n as int >= l[i].size + HEADER && Zeroed(mem, mem', At(l, base, i) + HEADER, n)
    ensures Broken(mem', base)
  {
    hide Chain, At, Span, HeaderAt, Broken;
    var p := At(l, base, i) + HEADER;
    ChainAt(mem, base, l, 0);
    AtNext(l, base, 0);
    AtNext(l, base, i);
    AtIncreases(l, base, i + 1, i + 2);
    if p + n as int > WORD64 + base {
      ZeroedFromBelow(mem, mem', base, p, n);
    } else {
      ZeroedBefore(mem, mem', base, p, n);
      ZeroedHeaderDestroys(mem, mem', base, l, i);
    }
  }

  /** The block taken exceeds its rounded size by less than 104 bytes. */
  lemma TakenSize(l: Layout, base: nat, i: nat, a: u64)
    requires i < |l| && l[i].size >= a && Fits32(a)
    ensures var t := Take(l, i, a);
            i < |t| && !t[i].free && t[i].size < a as int + 104 && At(t, base, i) == At(l, base, i)
  {
    hide Span, Fits32;
    TakeAt(l, i, a);
    assert Take(l, i, a)[..i] == l[..i];
  }

  /** The zeroing of kmem_calloc after an allocation of n bytes: exactly the broken cases. */
  lemma CallocOutcome(mem: Mem, m1: Mem, mem': Mem, base: nat, l: Layout, i: nat, n: u64)
    requires Chain(mem, base, l, NULL) && Wf(l) && base > 0 && base + Span(l) <= |mem| == WORD64
    requires i < |l| && l[i].free && l[i].size >= RoundUp(n) && Took(mem, m1, At(l, base, i), RoundUp(n))
    requires Zeroed(m1, mem', At(l, base, i) + HEADER, n)
    ensures CallocBreaks(l, base, i, n) ==> Broken(mem', base)
    ensures !CallocBreaks(l, base, i, n) ==>
              && Chain(mem', base, Take(l, i, RoundUp(n)), NULL)
              && PayloadsKept(m1, mem', Live(Take(l, i, RoundUp(n)), base) - {At(l, base, i) + HEADER})
    ensures n as int <= WORD32 - 64 ==>
              var p := At(l, base, i) + HEADER;
              !CallocBreaks(l, base, i, n) && p + n as int <= |mem'|
              && forall k :: p <= k < p + n as int ==> mem'[k] == 0
  {
    hide *;
    Consts();
    BreaksIs(l, base, i, n);
    var a := RoundUp(n);
    if Fits32(a) {
      TookFitting(mem, m1, base, l, i, a);
      TakenSize(l, base, i, a);
      CallocFitting(m1, mem', base, Take(l, i, a), i, n);
    } else {
      WrappedCalloc(mem, m1, mem', base, l, i, n);
    }
  }

  lemma BreaksIs(l: Layout, base: nat, i: nat, n: u64)
    requires i < |l| && l[i].size >= RoundUp(n)
    ensures CallocBreaks(l, base, i, n) <==>
              || !Fits32(RoundUp(n))
              || (n as int > WORD32 - 64
                  && (i + 1 < |Take(l, i, RoundUp(n))| || At(l, base, i) + HEADER + n as int > WORD64 + base))
    ensures n as int <= WORD32 - 64 ==> Fits32(RoundUp(n)) && n <= RoundUp(n) && WORD32 == 0x1_0000_0000
  {
    if n as int <= WORD32 - 64 {
      RoundUpSmall(n);
    }
  }

  lemma TookFitting(mem: Mem, m1: Mem, base: nat, l: Layout, i: nat, a: u64)
    requires Chain(mem, base, l, NULL) && Wf(l) && base + Span(l) <= |mem| == WORD64
    requires i < |l| && l[i].free && l[i].size >= a && Fits32(a) && Took(mem, m1, At(l, base, i), a)
    ensures Chain(m1, base, Take(l, i, a), NULL) && Span(Take(l, i, a)) == Span(l) && |m1| == WORD64
    ensures i < |Take(l, i, a)| && Take(l, i, a)[i].size >= a
  {
    hide Chain, At, Span, Wf, HeaderAt, TakeStores, Fits32, Take, Live;
    ChainTake(mem, base, l, i, a);
    TakeKeeps(l, i, a);
    LiveTake(l, base, i, a);
  }

  lemma CallocFitting(m1: Mem, mem': Mem, base: nat, t: Layout, i: nat, n: u64)
    requires Chain(m1, base, t, NULL) && base > 0 && base + Span(t) <= |m1| == WORD64
    requires i < |t| && !t[i].free && RoundUp(n) <= t[i].size < RoundUp(n) as int + 104 && Fits32(RoundUp(n))
    requires Zeroed(m1, mem', At(t, base, i) + HEADER, n)
    ensures var p := At(t, base, i) + HEADER;
            if n as int > WORD32 - 64 && (i + 1 < |t| || p + n as int > WORD64 + base) then Broken(mem', base)
            else Chain(mem', base, t, NULL) && PayloadsKept(m1, mem', Live(t, base) - {p})
    ensures n as int <= WORD32 - 64 ==>
              var p := At(t, base, i) + HEADER;
              && p + n as int <= |mem'|
              && forall k :: p <= k < p + n as int ==> mem'[k] == 0
  {
    hide Chain, At, Span, HeaderAt, Broken, Zeroed, PayloadsKept, Live, RoundUp, Fits32;
    if n as int <= WORD32 - 64 {
      RoundUpSmall(n);
      ZeroedInside(m1, mem', base, t, i, n);
    } else {
      RoundUpCut(n);
      if i + 1 < |t| {
        ZeroedTooFar(m1, mem', base, t, i, n);
      } else {
        ChainAt(m1, base, t, 0);
        AtNext(t, base, 0);
        if At(t, base, i) + HEADER + n as int > WORD64 + base {
          ZeroedFromBelow(m1, mem', base, At(t, base, i) + HEADER, n);
        } else {
          ZeroedPastEnd(m1, mem', base, t, i, n);
        }
      }
    }
  }

  lemma WrappedCalloc(mem: Mem, m1: Mem, mem': Mem, base: nat, l: Layout, i: nat, n: u64)
    requires Chain(mem, base, l, NULL) && base > 0 && base + Span(l) <= |mem| == WORD64
    requires i < |l| && l[i].free && l[i].size >= RoundUp(n) && Took(mem, m1, At(l, base, i), RoundUp(n))
    requires Zeroed(m1, mem', At(l, base, i) + HEADER, n) && !Fits32(RoundUp(n))
    ensures Broken(mem', base)
  {
    hide Chain, At, Span, HeaderAt, Broken, Zeroed, RoundUp, Fits32, TakeStores, Needed, SameInside;
    var at, p, a := At(l, base, i), At(l, base, i) + HEADER, RoundUp(n);
    ChainAt(mem, base, l, 0);
    AtNext(l, base, 0);
    if p + n as int > WORD64 + base {
      ZeroedFromBelow(m1, mem', base, p, n);
    } else {
      ChainAt(mem, base, l, i);
      AtIncreases(l, base, i, i + 1);
      WrappedNeed(n);
      WrappedHeader(mem, at, a);
      ZeroedBefore(m1, mem', base, p, n);
      NarrowInside(m1, mem', base, p, at, p);
      NarrowInside(m1, mem', base, p, base, at);
      HeaderSame(m1, mem', at);
      SameInsideBoth(mem, m1, mem', base, at);
      StuckList(mem, mem', base, l, i, Needed(a));
    }
  }

  lemma SameInsideBoth(m1: Mem, m2: Mem, m3: Mem, lo: nat, hi: nat)
    requires SameInside(m1, m2, lo, hi) && SameInside(m2, m3, lo, hi)
    ensures SameInside(m1, m3, lo, hi)
  {
  }
}
