/** The kernel heap as a layout: the sequence of its blocks from the base up.  First fit, splitting and
    coalescing are functions on layouts; addresses follow from the sizes. */
module Heap {
  import opened Bytes

  /** sizeof(struct kmem_header) on a 64-bit target. */
  const HEADER: nat := 40

  datatype Blk = Blk(size: nat, free: bool)

  type Layout = seq<Blk>

  // ----- Sizes -----

  /** (bytes + 15) & ~(16u - 1): the mask is a 32-bit word, so it also clears bits 32 and up. */
  function RoundUp(bytes: u64): (r: u64)
    ensures r % 16 == 0
  {
    (bytes as int + 15) % WORD64 % WORD32 / 16 * 16
  }

  /** The space for a payload of a bytes and its header, rounded with the same mask. */
  function Needed(a: u64): u64 {
    (a as int + HEADER + 15) % WORD64 % WORD32 / 16 * 16
  }

  /** Both roundings are right exactly for requests of at most 2^32 - 64 bytes. */
  lemma RoundingExactIff(bytes: u64)
    ensures bytes <= RoundUp(bytes) && Needed(RoundUp(bytes)) == RoundUp(bytes) + 48 <==> bytes as int <= WORD32 - 64
  {
    var a: int := RoundUp(bytes);
    NeededIs(a);
    if bytes as int <= WORD32 - 16 {
      assert (bytes as int + 15) % WORD64 % WORD32 == bytes as int + 15;
    }
  }

  lemma NeededIs(a: u64)
    requires a % 16 == 0 && a < WORD32
    ensures Needed(a) as int == if a as int + 48 < WORD32 then a as int + 48 else a as int + 48 - WORD32
  {
  }

  /** A request of 4 GiB and one byte is rounded to sixteen bytes. */
  lemma HugeRequestIsCut()
    ensures RoundUp(0x1_0000_0001) == 16
  {
  }

  /** A request just under 4 GiB asks for no space at all: the split would put the rest block's header on
      top of the block being taken. */
  lemma RequestNeedsNothing()
    ensures RoundUp(0xFFFF_FFC1) as int == WORD32 - 48 && Needed(RoundUp(0xFFFF_FFC1)) == 0
  {
  }

  /** The rounded size leaves room for a header below 4 GiB; then the needed space is 48 bytes more. */
  predicate Fits32(a: u64) {
    a % 16 == 0 && a as int + 48 < WORD32
  }

  // ----- Layouts -----

  /** The bytes that the blocks of l cover, headers included. */
  function Span(l: Layout): nat {
    if l == [] then 0 else HEADER + l[0].size + Span(l[1..])
  }

  /** The address of block i's header. */
  function At(l: Layout, base: nat, i: nat): (a: nat)
    requires i <= |l|
    ensures a >= base
  {
    base + Span(l[..i])
  }

  lemma {:induction false} SpanAppend(a: Layout, b: Layout)
    ensures Span(a + b) == Span(a) + Span(b)
  {
    if a == [] {
      assert a + b == b;
    } else {
      assert (a + b)[1..] == a[1..] + b;
      SpanAppend(a[1..], b);
    }
  }

  lemma AtNext(l: Layout, base: nat, i: nat)
    requires i < |l|
    ensures At(l, base, 0) == base && At(l, base, i + 1) == At(l, base, i) + HEADER + l[i].size
    ensures At(l, base, |l|) == base + Span(l)
  {
    hide Span;
    SpanStep(l, i);
    SpanOne(l[i]);
    SpanAll(l);
  }

  lemma SpanStep(l: Layout, i: nat)
    requires i < |l|
    ensures Span(l[..i + 1]) == Span(l[..i]) + HEADER + l[i].size
  {
    hide *;
    SpanAppend(l[..i], [l[i]]);
    SpanOne(l[i]);
    assert l[..i + 1] == l[..i] + [l[i]];
  }

  lemma SpanAll(l: Layout)
    ensures Span(l[..|l|]) == Span(l) && Span(l[..0]) == 0
  {
    assert l[..|l|] == l && l[..0] == [];
  }

  lemma SpanOne(b: Blk)
    ensures Span([b]) == HEADER + b.size && Span([]) == 0
  {
  }

  lemma {:induction false} AtIncreases(l: Layout, base: nat, i: nat, j: nat)
    requires i < j <= |l|
    ensures At(l, base, i) + HEADER + l[i].size <= At(l, base, j) <= base + Span(l)
    decreases j - i
  {
    AtNext(l, base, i);
    if i + 1 < j {
      AtIncreases(l, base, i + 1, j);
    }
    assert l == l[..j] + l[j..];
    SpanAppend(l[..j], l[j..]);
  }

  /** Blocks have room, and all but the last keep the grid: their headers and sizes are 8 mod 16. */
  ghost predicate Grid(l: Layout) {
    && (forall i :: 0 <= i < |l| ==> l[i].size > 0)
    && (forall i :: 0 <= i < |l| - 1 ==> l[i].size % 16 == 8)
  }

  /** No two neighbours are both free. */
  ghost predicate Settled(l: Layout) {
    forall i :: 0 <= i < |l| - 1 ==> !(l[i].free && l[i + 1].free)
  }

  ghost predicate Wf(l: Layout) {
    l != [] && Grid(l) && Settled(l)
  }

  lemma {:induction false} PayloadAligned(l: Layout, base: nat, i: nat)
    requires Grid(l) && i < |l| && base % 16 == 8
    ensures At(l, base, i) % 16 == 8 && (At(l, base, i) + HEADER) % 16 == 0
  {
    hide At;
    AtNext(l, base, i);
    if i > 0 {
      PayloadAligned(l, base, i - 1);
      AtNext(l, base, i - 1);
      GridStep(At(l, base, i - 1), l[i - 1].size);
    }
  }

  lemma GridStep(a: int, size: int)
    requires a % 16 == 8 && size % 16 == 8
    ensures (a + HEADER + size) % 16 == 8 && (a + HEADER + size + HEADER) % 16 == 0
  {
  }

  // ----- Live payloads -----

  /** The payloads handed out, by address, with their sizes: what the callers hold. */
  function Live(l: Layout, base: nat): map<nat, nat> {
    if l == [] then map[]
    else
      var rest := Live(l[1..], base + HEADER + l[0].size);
      if l[0].free then rest else rest[base + HEADER := l[0].size]
  }

  lemma {:induction false} LiveRange(l: Layout, base: nat, p: nat)
    requires p in Live(l, base)
    ensures base + HEADER <= p && p + Live(l, base)[p] <= base + Span(l)
  {
    var rest := base + HEADER + l[0].size;
    if p in Live(l[1..], rest) {
      LiveRange(l[1..], rest, p);
    }
  }

  lemma {:induction false} LiveAppend(a: Layout, b: Layout, base: nat)
    ensures Live(a + b, base) == Live(a, base) + Live(b, base + Span(a))
  {
    if a == [] {
      assert a + b == b;
    } else {
      assert (a + b)[1..] == a[1..] + b;
      var rest := base + HEADER + a[0].size;
      LiveAppend(a[1..], b, rest);
      if base + HEADER in Live(b, base + Span(a)) {
        LiveRange(b, base + Span(a), base + HEADER);
        assert false;
      }
    }
  }

  /** Live payloads never overlap, nor any header between them. */
  lemma {:induction false} PayloadsDisjoint(l: Layout, base: nat, p: nat, q: nat)
    requires p in Live(l, base) && q in Live(l, base) && p < q
    ensures p + Live(l, base)[p] + HEADER <= q
  {
    var rest := base + HEADER + l[0].size;
    if q in Live(l[1..], rest) {
      LiveRange(l[1..], rest, q);
    }
    if p != base + HEADER || l[0].free {
      LiveRange(l[1..], rest, p);
      PayloadsDisjoint(l[1..], rest, p, q);
    }
  }

  /** Block i replaced by blocks that cover the same bytes: the other payloads stay as they are. */
  lemma LiveMiddle(l: Layout, base: nat, i: nat, mid: Layout)
    requires i < |l| && Span(mid) == HEADER + l[i].size
    ensures Live(l[..i] + mid + l[i + 1..], base)
              == Live(l[..i], base) + Live(mid, At(l, base, i)) + Live(l[i + 1..], At(l, base, i + 1))
    ensures At(l, base, i) + HEADER !in Live(l[..i], base)
    ensures At(l, base, i) + HEADER !in Live(l[i + 1..], At(l, base, i + 1))
  {
    hide Span, Live;
    AtNext(l, base, i);
    LiveAppend(l[..i] + mid, l[i + 1..], base);
    LiveAppend(l[..i], mid, base);
    SpanAppend(l[..i], mid);
    var p := At(l, base, i) + HEADER;
    if p in Live(l[..i], base) {
      LiveRange(l[..i], base, p);
    }
    if p in Live(l[i + 1..], At(l, base, i + 1)) {
      LiveRange(l[i + 1..], At(l, base, i + 1), p);
    }
  }

  // ----- Allocation -----

  /** The first free block of at least a bytes; |l| if there is none. */
  function FirstFit(l: Layout, a: nat, i: nat): (r: nat)
    requires i <= |l|
    ensures i <= r <= |l| && (r < |l| ==> l[r].free && l[r].size >= a)
    ensures forall k :: i <= k < r ==> !(l[k].free && l[k].size >= a)
    decreases |l| - i
  {
    if i == |l| || (l[i].free && l[i].size >= a) then i else FirstFit(l, a, i + 1)
  }

  /** A free block taken for a payload of a bytes: split when the rest can hold a block of its own.  The
      space needed is Needed(a), which is a + 48 for the sizes allowed here. */
  function Parts(b: Blk, a: u64): (p: Layout)
    requires b.size >= a && Fits32(a)
    ensures p != [] && !p[0].free && p[0].size >= a && forall k :: 1 <= k < |p| ==> p[k].free
  {
    var needed := a as int + 48;
    if b.size >= needed + HEADER + 16 then [Blk(needed - HEADER, false), Blk(b.size - needed, true)]
    else [Blk(b.size, false)]
  }

  function Take(l: Layout, i: nat, a: u64): Layout
    requires i < |l| && l[i].size >= a && Fits32(a)
  {
    l[..i] + Parts(l[i], a) + l[i + 1..]
  }

  lemma PartsCover(b: Blk, a: u64, base: nat)
    requires b.size >= a && Fits32(a)
    ensures Span(Parts(b, a)) == HEADER + b.size && Live(Parts(b, a), base) == map[base + HEADER := Parts(b, a)[0].size]
  {
    var p := Parts(b, a);
    assert p[1..] == if |p| == 2 then [p[1]] else [];
    if |p| == 2 {
      SpanOne(p[1]);
      assert Live([p[1]], base + HEADER + p[0].size) == map[];
    } else {
      SpanOne(p[0]);
    }
  }

  /** A block is split exactly when the rest can hold sixteen bytes behind a header of its own; so a payload is at most
      103 bytes larger than asked for, and no rest is smaller than sixteen. */
  lemma SplitIff(l: Layout, i: nat, a: u64)
    requires i < |l| && l[i].size >= a && Fits32(a)
    ensures var t := Take(l, i, a);
            && (|t| == |l| + 1 <==> l[i].size >= a as int + 104) && (|t| == |l| || |t| == |l| + 1)
            && (|t| == |l| ==> t == l[i := Blk(l[i].size, false)])
            && (|t| == |l| + 1 ==>
                  && t[..i] == l[..i] && t[i + 2..] == l[i + 1..] && t[i] == Blk(a as int + 8, false)
                  && t[i + 1] == Blk(l[i].size - a as int - 48, true) && t[i + 1].size >= 16)
            && a <= t[i].size <= a as int + 103
  {
  }

  /** Taking a block keeps the layout well-formed and its span. */
  lemma TakeKeeps(l: Layout, i: nat, a: u64)
    requires Wf(l) && i < |l| && l[i].free && l[i].size >= a && Fits32(a)
    ensures Wf(Take(l, i, a)) && Span(Take(l, i, a)) == Span(l)
  {
    hide *;
    PartsCover(l[i], a, 0);
    SpanAround(l, i, Parts(l[i], a));
    TakeIs(l, i, a);
    TakeWf(l, i, a);
  }

  lemma TakeIs(l: Layout, i: nat, a: u64)
    requires i < |l| && l[i].size >= a && Fits32(a)
    ensures Take(l, i, a) == l[..i] + Parts(l[i], a) + l[i + 1..]
  {
  }

  lemma SpanAround(l: Layout, i: nat, mid: Layout)
    requires i < |l|
    ensures Span(l[..i] + mid + l[i + 1..]) == Span(l) - HEADER - l[i].size + Span(mid)
  {
    hide Span;
    assert l == l[..i] + [l[i]] + l[i + 1..];
    SpanOne(l[i]);
    SpanAppend(l[..i] + mid, l[i + 1..]);
    SpanAppend(l[..i], mid);
    SpanAppend(l[..i] + [l[i]], l[i + 1..]);
    SpanAppend(l[..i], [l[i]]);
  }

  lemma TakeWf(l: Layout, i: nat, a: u64)
    requires Wf(l) && i < |l| && l[i].free && l[i].size >= a && Fits32(a)
    ensures Wf(Take(l, i, a))
  {
    var t, p := Take(l, i, a), Parts(l[i], a);
    if |p| == 2 {
      SplitSizes(l[i].size, a);
    }
    TakeAt(l, i, a);
    hide Take;
  }

  lemma SplitSizes(size: nat, a: nat)
    requires a % 16 == 0
    ensures (a + 8) % 16 == 8 && (size % 16 == 8 && size >= a + 48 ==> (size - a - 48) % 16 == 8)
  {
  }

  lemma TakeAt(l: Layout, i: nat, a: u64)
    requires i < |l| && l[i].size >= a && Fits32(a)
    ensures var t, p := Take(l, i, a), Parts(l[i], a);
            && |t| == |l| + |p| - 1
            && forall k :: 0 <= k < |t| ==>
                 t[k] == if k < i then l[k] else if k < i + |p| then p[k - i] else l[k - |p| + 1]
  {
    hide Parts;
  }

  /** The payload handed out is new, and no other payload changes. */
  lemma LiveTake(l: Layout, base: nat, i: nat, a: u64)
    requires i < |l| && l[i].free && l[i].size >= a && Fits32(a)
    ensures var p := At(l, base, i) + HEADER; var t := Take(l, i, a);
            p !in Live(l, base) && |t| > i && t[i].size >= a && Live(t, base) == Live(l, base)[p := t[i].size]
  {
    hide *;
    TakeIs(l, i, a);
    TakeAt(l, i, a);
    PartsCover(l[i], a, At(l, base, i));
    SpanOne(l[i]);
    LiveFreeBlock(l[i], At(l, base, i));
    LiveMiddle(l, base, i, [l[i]]);
    LiveMiddle(l, base, i, Parts(l[i], a));
    assert l == l[..i] + [l[i]] + l[i + 1..];
  }

  lemma LiveFreeBlock(b: Blk, base: nat)
    ensures Live([b], base) == if b.free then map[] else map[base + HEADER := b.size]
  {
    assert Live([b][1..], base + HEADER + b.size) == map[];
  }

  // ----- Freeing -----

  /** Neighbouring free blocks merged, everywhere. */
  function Coalesce(l: Layout): Layout {
    if l == [] then []
    else
      Join(l[0], Coalesce(l[1..]))
  }

  /** A block in front of a coalesced layout. */
  function Join(b: Blk, rest: Layout): Layout {
    if rest != [] && b.free && rest[0].free then [Merged(b, rest[0])] + rest[1..] else [b] + rest
  }

  function Merged(a: Blk, b: Blk): Blk {
    Blk(a.size + HEADER + b.size, a.free)
  }

  /** One step of the coalescing loop: block k absorbs its right neighbour. */
  function MergeAt(l: Layout, k: nat): (r: Layout)
    requires k + 1 < |l|
    ensures |r| == |l| - 1
  {
    l[..k] + [Merged(l[k], l[k + 1])] + l[k + 2..]
  }

  /** Merging early or late makes no difference. */
  lemma {:induction false} MergeConverges(l: Layout, k: nat)
    requires k + 1 < |l| && l[k].free && l[k + 1].free
    ensures Coalesce(MergeAt(l, k)) == Coalesce(l)
  {
    var m := MergeAt(l, k);
    if k == 0 {
      assert m[1..] == l[1..][1..];
      assert m[0] == Merged(l[0], l[1]);
      var rest := Coalesce(l[1..][1..]);
    } else {
      assert m[1..] == MergeAt(l[1..], k - 1);
      assert m[0] == l[0];
      MergeConverges(l[1..], k - 1);
    }
  }

  lemma {:induction false} CoalesceSettled(l: Layout)
    requires Settled(l)
    ensures Coalesce(l) == l
  {
    if l != [] {
      CoalesceSettled(l[1..]);
    }
  }

  lemma {:induction false} CoalesceWf(l: Layout)
    requires Grid(l)
    ensures var c := Coalesce(l); Grid(c) && Settled(c) && (l != [] ==> c != [])
  {
    if l != [] {
      CoalesceWf(l[1..]);
      JoinWf(l[0], Coalesce(l[1..]));
    }
  }

  lemma JoinWf(b: Blk, rest: Layout)
    requires Grid(rest) && Settled(rest) && b.size > 0 && (rest != [] ==> b.size % 16 == 8)
    ensures var j := Join(b, rest); Grid(j) && Settled(j) && j != []
  {
    if rest != [] {
      MergedSize(b.size, rest[0].size);
      assert forall i :: 0 <= i < |rest| - 1 ==> rest[1..][i] == rest[i + 1];
    }
  }

  lemma MergedSize(a: nat, b: nat)
    ensures a % 16 == 8 && b % 16 == 8 ==> (a + HEADER + b) % 16 == 8
  {
  }

  lemma {:induction false} CoalesceLive(l: Layout, base: nat)
    ensures var c := Coalesce(l); Span(c) == Span(l) && Live(c, base) == Live(l, base)
  {
    if l != [] {
      CoalesceLive(l[1..], base + HEADER + l[0].size);
      var rest := Coalesce(l[1..]);
      if rest != [] && l[0].free && rest[0].free {
        assert Coalesce(l)[1..] == rest[1..];
      } else {
        assert Coalesce(l)[1..] == rest;
      }
    }
  }

  /** Block i given back. */
  function Release(l: Layout, i: nat): Layout
    requires i < |l|
  {
    Coalesce(l[i := Blk(l[i].size, true)])
  }

  /** Giving a payload back removes it and nothing else, and the layout stays well-formed. */
  lemma ReleaseKeeps(l: Layout, base: nat, i: nat)
    requires Wf(l) && i < |l| && !l[i].free
    ensures var p := At(l, base, i) + HEADER; var r := Release(l, i);
            p in Live(l, base) && Live(r, base) == Live(l, base) - {p} && Wf(r) && Span(r) == Span(l)
  {
    var freed := l[i := Blk(l[i].size, true)];
    hide *;
    FreedGrid(l, i);
    FreedIs(l, i);
    CoalesceWf(freed);
    CoalesceLive(freed, base);
    FreedLive(l, base, i);
    WfFrom(Release(l, i));
  }

  lemma FreedLive(l: Layout, base: nat, i: nat)
    requires i < |l| && !l[i].free
    ensures var p, freed := At(l, base, i) + HEADER, l[i := Blk(l[i].size, true)];
            p in Live(l, base) && Live(freed, base) == Live(l, base) - {p} && Span(freed) == Span(l) && freed != []
  {
    hide *;
    var b, at, x, y := Blk(l[i].size, true), At(l, base, i), l[..i], l[i + 1..];
    assert l == x + [l[i]] + y && l[i := b] == x + [b] + y;
    SpanOne(l[i]);
    SpanOne(b);
    SpanAround(l, i, [b]);
    LiveFreeBlock(l[i], at);
    LiveFreeBlock(b, at);
    LiveMiddle(l, base, i, [l[i]]);
    LiveMiddle(l, base, i, [b]);
    DropOne(Live(x, base), at + HEADER, l[i].size, Live(y, At(l, base, i + 1)));
  }

  lemma DropOne(before: map<nat, nat>, p: nat, size: nat, after: map<nat, nat>)
    requires p !in before && p !in after
    ensures before + map[p := size] + after - {p} == before + map[] + after
  {
  }

  lemma FreedGrid(l: Layout, i: nat)
    requires Wf(l) && i < |l|
    ensures Grid(l[i := Blk(l[i].size, true)])
  {
  }

  lemma FreedIs(l: Layout, i: nat)
    requires i < |l|
    ensures Release(l, i) == Coalesce(l[i := Blk(l[i].size, true)])
  {
  }

  lemma WfFrom(l: Layout)
    requires l != [] && Grid(l) && Settled(l)
    ensures Wf(l)
  {
  }

  /** When every payload has been given back, the heap is one free block of its full size again. */
  lemma AllFreed(l: Layout, base: nat)
    requires Wf(l) && Live(l, base) == map[]
    ensures l == [Blk(Span(l) - HEADER, true)]
  {
    if !l[0].free {
      LiveHas(l, base, 0);
    } else if |l| > 1 {
      LiveHas(l, base, 1);
    }
    SpanOne(l[0]);
    assert l == [l[0]];
  }

  lemma {:induction false} LiveHas(l: Layout, base: nat, i: nat)
    requires i < |l| && !l[i].free
    ensures At(l, base, i) + HEADER in Live(l, base)
  {
    if i > 0 {
      var rest := base + HEADER + l[0].size;
      LiveHas(l[1..], rest, i - 1);
      assert l[..i] == [l[0]] + l[1..][..i - 1];
    }
  }

  // ----- Statistics -----

  datatype Stats = Stats(total: nat, used: nat, free: nat, blocks: nat, freeBlocks: nat, largest: nat)

  /** The counters over the blocks of l. */
  function Tally(l: Layout, total: nat): Stats {
    if l == [] then Stats(total, 0, 0, 0, 0, 0)
    else
      var s, b := Tally(l[..|l| - 1], total), l[|l| - 1];
      if b.free
      then s.(blocks := s.blocks + 1, freeBlocks := s.freeBlocks + 1, free := s.free + b.size,
              largest := if b.size > s.largest then b.size else s.largest)
      else s.(blocks := s.blocks + 1, used := s.used + b.size)
  }

  /** Every byte is accounted for, and `largest` is the largest free block. */
  lemma {:induction false} TallyConserves(l: Layout, total: nat)
    ensures var s := Tally(l, total);
            && s.used + s.free + HEADER * s.blocks == Span(l) && s.blocks == |l| && s.total == total
            && (forall i :: 0 <= i < |l| && l[i].free ==> l[i].size <= s.largest)
            && (s.largest == 0 || exists i :: 0 <= i < |l| && l[i].free && l[i].size == s.largest)
  {
    if l != [] {
      var init, b := l[..|l| - 1], l[|l| - 1];
      TallyConserves(init, total);
      SpanStep(l, |l| - 1);
      SpanAll(l);
      var s := Tally(init, total);
      if !(b.free && b.size > s.largest) && s.largest != 0 {
        var i :| 0 <= i < |init| && init[i].free && init[i].size == s.largest;
        assert l[i] == init[i];
      }
    }
  }

  /** The free payload bytes, counted from the front. */
  function FreeBytes(l: Layout): nat {
    if l == [] then 0 else (if l[0].free then l[0].size else 0) + FreeBytes(l[1..])
  }

  lemma {:induction false} FreeBytesSnoc(l: Layout, b: Blk)
    ensures FreeBytes(l + [b]) == FreeBytes(l) + if b.free then b.size else 0
    decreases |l|
  {
    if l == [] {
      assert [b][1..] == [];
    } else {
      assert (l + [b])[1..] == l[1..] + [b];
      FreeBytesSnoc(l[1..], b);
    }
  }

  /** The counters of free blocks and free bytes are the number and the sum of the free blocks. */
  lemma {:induction false} TallyCounts(l: Layout, total: nat)
    ensures Tally(l, total).free == FreeBytes(l)
    ensures Tally(l, total).freeBlocks == |set i | 0 <= i < |l| && l[i].free|
    decreases |l|
  {
    var free := set i | 0 <= i < |l| && l[i].free;
    if l == [] {
      assert free == {};
    } else {
      var n := |l| - 1;
      TallyCounts(l[..n], total);
      assert l == l[..n] + [l[n]];
      FreeBytesSnoc(l[..n], l[n]);
      var before := set i | 0 <= i < n && l[..n][i].free;
      assert before == set i | 0 <= i < |l[..n]| && l[..n][i].free;
      assert free == if l[n].free then before + {n} else before;
    }
  }

  // ----- Runs -----

  datatype Op = Alloc(bytes: u64) | Calloc(count: u64, bytes: u64) | Free(p: nat)

  /** The heap after some operations: a layout, or a header list that no longer describes one. */
  datatype State = Whole(l: Layout) | Destroyed

  /** The block whose payload is p. */
  function BlockOf(l: Layout, base: nat, p: nat): (i: nat)
    requires p in Live(l, base)
    ensures i < |l| && !l[i].free && At(l, base, i) + HEADER == p
  {
    if !l[0].free && p == base + HEADER then 0
    else
      var i := BlockOf(l[1..], base + HEADER + l[0].size, p) + 1;
      assert l[..i] == [l[0]] + l[1..][..i - 1];
      i
  }

  /** A request that finds a block but whose needed space wraps past 2^32: the allocator writes the header
      of the rest block over the block it is taking. */
  predicate Destroys(l: Layout, bytes: u64) {
    bytes != 0 && !Fits32(RoundUp(bytes)) && FirstFit(l, RoundUp(bytes), 0) < |l|
  }

  /** The condition under which kmem_calloc leaves no list behind, for a product of n bytes served by block
      i: the split wraps, or the payload is too small for the n zero bytes and they run over the next
      header, or over the first one coming round from the top of the address space. */
  predicate CallocBreaks(l: Layout, base: nat, i: nat, n: u64)
    requires i < |l| && l[i].size >= RoundUp(n)
  {
    || !Fits32(RoundUp(n))
    || (n as int > WORD32 - 64
        && (i + 1 < |Take(l, i, RoundUp(n))| || At(l, base, i) + HEADER + n as int > WORD64 + base))
  }

  function Product(count: u64, bytes: u64): nat {
    count as int * bytes as int
  }

  /** The bytes that a call asks for; 0 when it is no allocation or the product overflows. */
  function Request(op: Op): u64 {
    match op
    case Alloc(bytes) => bytes
    case Calloc(count, bytes) => if Product(count, bytes) < WORD64 then Product(count, bytes) else 0
    case Free(_) => 0
  }

  /** The calls that leave no list behind. */
  predicate Harms(l: Layout, base: nat, op: Op) {
    var n := Request(op);
    var i := FirstFit(l, RoundUp(n), 0);
    n != 0 && i < |l| && (!Fits32(RoundUp(n)) || (op.Calloc? && CallocBreaks(l, base, i, n)))
  }

  /** One call.  An arena that ends with the address space refuses every free: its end wraps to zero. */
  function Step(s: State, base: nat, op: Op): State {
    if s.Destroyed? then s
    else if op.Free? then
      if op.p in Live(s.l, base) && base + Span(s.l) < WORD64 then Whole(Release(s.l, BlockOf(s.l, base, op.p))) else s
    else
      var n := Request(op);
      var i := FirstFit(s.l, RoundUp(n), 0);
      if n == 0 || i == |s.l| then s
      else if Harms(s.l, base, op) then Destroyed
      else Whole(Take(s.l, i, RoundUp(n)))
  }

  /** What may be freed: the payload of a current block, live or free, or an address outside the arena. */
  ghost predicate Freeable(l: Layout, base: nat, p: nat) {
    p <= base || p >= base + Span(l) || exists i :: 0 <= i < |l| && p == At(l, base, i) + HEADER
  }

  ghost predicate Legal(s: State, base: nat, ops: seq<Op>)
    decreases |ops|
  {
    ops == [] || s.Destroyed? ||
    ((ops[0].Free? ==> Freeable(s.l, base, ops[0].p)) && Legal(Step(s, base, ops[0]), base, ops[1..]))
  }

  function RunOps(s: State, base: nat, ops: seq<Op>): State
    decreases |ops|
  {
    if ops == [] then s else RunOps(Step(s, base, ops[0]), base, ops[1..])
  }

  /** No call of the run destroys the heap it meets. */
  ghost predicate Spared(s: State, base: nat, ops: seq<Op>)
    decreases |ops|
  {
    ops == [] ||
    (s.Whole? && !Harms(s.l, base, ops[0]) && Spared(Step(s, base, ops[0]), base, ops[1..]))
  }

  /** Over every run of alloc, calloc and free: the heap survives exactly when no call destroys it; then
      it is well-formed over the same bytes, and once nothing is live it is the one block it started as. */
  lemma {:induction false} RunsRestore(l: Layout, base: nat, ops: seq<Op>)
    requires Wf(l) && Legal(Whole(l), base, ops)
    ensures var r := RunOps(Whole(l), base, ops);
            && (r.Whole? <==> Spared(Whole(l), base, ops))
            && (r.Whole? ==> Wf(r.l) && Span(r.l) == Span(l))
            && (r.Whole? && Live(r.l, base) == map[] ==> r.l == [Blk(Span(l) - HEADER, true)])
    decreases |ops|
  {
    hide Wf, Span, Live, Take, Release, RoundUp, At, Fits32, FirstFit, Harms, Request, Step;
    if ops == [] {
      if Live(l, base) == map[] {
        AllFreed(l, base);
      }
    } else {
      StepKeeps(l, base, ops[0]);
      var s := Step(Whole(l), base, ops[0]);
      if s.Whole? {
        RunsRestore(s.l, base, ops[1..]);
      } else {
        StaysDestroyed(base, ops[1..]);
      }
    }
  }

  lemma {:induction false} StaysDestroyed(base: nat, ops: seq<Op>)
    ensures RunOps(Destroyed, base, ops) == Destroyed
    decreases |ops|
  {
    if ops != [] {
      StaysDestroyed(base, ops[1..]);
    }
  }

  /** A run whose requests are at most 2^32 - 64 bytes is always spared. */
  lemma {:induction false} SmallRequestsSpare(l: Layout, base: nat, ops: seq<Op>)
    requires Wf(l) && forall i :: 0 <= i < |ops| ==> Request(ops[i]) as int <= WORD32 - 64
    ensures Spared(Whole(l), base, ops)
    decreases |ops|
  {
    hide Wf, Step, Request, Harms;
    if ops != [] {
      StepKeeps(l, base, ops[0]);
      SmallIsHarmless(l, base, ops[0]);
      SmallRequestsSpare(Step(Whole(l), base, ops[0]).l, base, ops[1..]);
    }
  }

  lemma SmallIsHarmless(l: Layout, base: nat, op: Op)
    requires Request(op) as int <= WORD32 - 64
    ensures !Harms(l, base, op)
  {
    hide FirstFit, RoundUp, At, Take, Request;
    RoundUpSmall(Request(op));
  }

  lemma RoundUpSmall(bytes: u64)
    requires bytes as int <= WORD32 - 64
    ensures bytes <= RoundUp(bytes) && Fits32(RoundUp(bytes))
  {
  }

  /** One call: an allocation adds one new payload, changes nothing or destroys the heap; a free removes one
      payload. */
  lemma StepKeeps(l: Layout, base: nat, op: Op)
    requires Wf(l)
    ensures var s := Step(Whole(l), base, op);
            && (s.Destroyed? <==> Harms(l, base, op))
            && (s.Whole? ==> Wf(s.l) && Span(s.l) == Span(l))
            && (op.Free? && base + Span(l) < WORD64 ==> Live(s.l, base) == Live(l, base) - {op.p})
            && (!op.Free? && s.Whole? ==>
                  var n := Request(op);
                  var i := FirstFit(l, RoundUp(n), 0);
                  if n == 0 || i == |l| then Live(s.l, base) == Live(l, base)
                  else var p := At(l, base, i) + HEADER;
                       && p !in Live(l, base) && i < |s.l| && s.l[i].size >= RoundUp(n)
                       && (n as int <= WORD32 - 64 ==> s.l[i].size >= n)
                       && Live(s.l, base) == Live(l, base)[p := s.l[i].size])
  {
    hide Wf, Span, Live, Take, Release, RoundUp, At, Fits32, Request, CallocBreaks;
    if op.Free? {
      FreeRequestsNothing(op);
      if op.p in Live(l, base) && base + Span(l) < WORD64 {
        ReleaseKeeps(l, base, BlockOf(l, base, op.p));
      } else if base + Span(l) < WORD64 {
        assert Live(l, base) - {op.p} == Live(l, base);
      }
    } else {
      var n := Request(op);
      var a := RoundUp(n);
      var i := FirstFit(l, a, 0);
      if n != 0 && i < |l| && !Harms(l, base, op) {
        TakeKeeps(l, i, a);
        LiveTake(l, base, i, a);
        if n as int <= WORD32 - 64 {
          RoundUpSmall(n);
        }
      }
    }
  }

  lemma FreeRequestsNothing(op: Op)
    ensures op.Free? ==> Request(op) == 0
  {
  }

  /** The payload handed out has the size asked for exactly for requests of at most 2^32 - 64 bytes; a
      larger request that does not destroy the heap gets a block that is too small. */
  lemma PayloadEnoughIff(b: Blk, bytes: u64)
    requires b.size >= RoundUp(bytes) && Fits32(RoundUp(bytes)) && bytes != 0
    ensures Parts(b, RoundUp(bytes))[0].size >= bytes <==> bytes as int <= WORD32 - 64
  {
    if bytes as int <= WORD32 - 64 {
      RoundUpSmall(bytes);
    } else {
      RoundUpCut(bytes);
    }
  }

  lemma RoundUpCut(bytes: u64)
    requires bytes as int > WORD32 - 64 && Fits32(RoundUp(bytes))
    ensures RoundUp(bytes) as int + 200 < bytes
  {
    var x := (bytes as int + 15) % WORD64;
    assert bytes as int + 15 < WORD64 ==> x == bytes as int + 15;
    assert x >= WORD32 ==> x % WORD32 <= x - WORD32;
  }

  /** The failing request on a concrete heap. */
  lemma DestroyedRun(base: nat)
    ensures RunOps(Whole([Blk(0x1_0000_0100, true)]), base, [Alloc(0xFFFF_FFC1)]) == Destroyed
  {
    RequestNeedsNothing();
    var s := Whole([Blk(0x1_0000_0100, true)]);
    assert FirstFit(s.l, RoundUp(0xFFFF_FFC1), 0) == 0;
    assert Step(s, base, Alloc(0xFFFF_FFC1)) == Destroyed;
    assert [Alloc(0xFFFF_FFC1)][1..] == [];
  }

  /** A calloc can destroy a heap where the same request to alloc would not. */
  lemma DestroyedByZeroing(base: nat)
    ensures var s, n := Whole([Blk(0x1_0000_0100, true)]), 0x1_0000_0001;
            && !Destroys(s.l, n) && Step(s, base, Alloc(n)).Whole?
            && RunOps(s, base, [Calloc(1, n)]) == Destroyed
  {
    HugeRequestIsCut();
    var s, n: u64 := Whole([Blk(0x1_0000_0100, true)]), 0x1_0000_0001;
    assert FirstFit(s.l, RoundUp(n), 0) == 0;
    TakeAt(s.l, 0, 16);
    assert |Take(s.l, 0, 16)| == 2;
    assert Product(1, n) == n;
    assert Step(s, base, Calloc(1, n)) == Destroyed;
    assert [Calloc(1, n)][1..] == [];
  }
}
