/** The physical frame allocator: a bitmap (1 = used), two counters and a search hint. */
module Pmm {
  import opened Bytes

  const INVALID_FRAME: u64 := 0xFFFF_FFFF_FFFF_FFFF

  datatype RegionType = Usable | Other
  datatype Region = Region(base: u64, length: u64, kind: RegionType)

  // ----- 64-bit address arithmetic -----

  function AlignDown(v: u64): u64 {
    v as int / PAGE * PAGE
  }

  /** (value + 4095) & ~4095 on a 64-bit word: wraps to zero near the top. */
  function AlignUp(v: u64): u64 {
    (v as int + PAGE - 1) % WORD64 / PAGE * PAGE
  }

  predicate Overflows(base: u64, length: u64) {
    base as int + length as int >= WORD64
  }

  /** mark_range_free frees frame f. */
  predicate RangeFrees(base: u64, length: u64, maxPhys: u64, f: nat) {
    && length != 0 && !Overflows(base, length)
    && AlignUp(base) <= f * PAGE < Min(AlignDown(base as int + length as int), maxPhys)
  }

  /** mark_range_used takes frame f. */
  predicate RangeUses(base: u64, length: u64, maxPhys: u64, f: nat) {
    && length != 0 && !Overflows(base, length)
    && AlignDown(base) <= f * PAGE < Min(AlignUp(base as int + length as int), maxPhys)
  }

  /** The frames mark_range_free walks over: none, or first..last-1. */
  function FreedFrames(base: u64, length: u64, maxPhys: u64): (r: (nat, nat))
    requires maxPhys % PAGE == 0
    ensures r.0 <= r.1 && r.1 * PAGE <= maxPhys
  {
    if length == 0 || Overflows(base, length) then (0, 0)
    else
      var start, stop := AlignUp(base), Min(AlignDown(base as int + length as int), maxPhys);
      if stop <= start then (0, 0) else (start / PAGE, stop / PAGE)
  }

  function TakenFrames(base: u64, length: u64, maxPhys: u64): (r: (nat, nat))
    requires maxPhys % PAGE == 0
    ensures r.0 <= r.1 && r.1 * PAGE <= maxPhys
  {
    if length == 0 || Overflows(base, length) then (0, 0)
    else
      var start, stop := AlignDown(base), Min(AlignUp(base as int + length as int), maxPhys);
      if stop <= start then (0, 0) else (start / PAGE, stop / PAGE)
  }

  lemma FreedFramesAre(base: u64, length: u64, maxPhys: u64, f: nat)
    requires maxPhys % PAGE == 0
    ensures var r := FreedFrames(base, length, maxPhys); RangeFrees(base, length, maxPhys, f) <==> r.0 <= f < r.1
  {
  }

  lemma TakenFramesAre(base: u64, length: u64, maxPhys: u64, f: nat)
    requires maxPhys % PAGE == 0
    ensures var r := TakenFrames(base, length, maxPhys); RangeUses(base, length, maxPhys, f) <==> r.0 <= f < r.1
  {
  }

  // ----- The abstract allocator -----

  /** A bitmap as one flag per frame. */
  function Bits(bm: seq<byte>, n: nat): (u: seq<bool>)
    requires n <= 8 * |bm|
    ensures |u| == n && forall f :: 0 <= f < n ==> u[f] == TestBit(bm, f)
  {
    seq(n, f requires 0 <= f < n => TestBit(bm, f))
  }

  lemma BitsUpdate(bm: seq<byte>, n: nat, f: nat)
    requires n <= 8 * |bm| && f < n
    ensures Bits(SetBit(bm, f), n) == Bits(bm, n)[f := true]
    ensures Bits(ClearBit(bm, f), n) == Bits(bm, n)[f := false]
  {
    hide TestBit;
  }

  function Lowest(used: seq<bool>, i: nat): (r: nat)
    requires i <= |used|
    ensures i <= r <= |used| && (r < |used| ==> !used[r]) && forall k :: i <= k < r ==> used[k]
    decreases |used| - i
  {
    if i == |used| || !used[i] then i else Lowest(used, i + 1)
  }

  function CountFree(used: seq<bool>): nat
    decreases |used|
  {
    if used == [] then 0 else CountFree(used[..|used| - 1]) + if used[|used| - 1] then 0 else 1
  }

  lemma {:induction false} CountFreeUpdate(used: seq<bool>, f: nat, b: bool)
    requires f < |used|
    ensures CountFree(used[f := b]) == CountFree(used) + (if used[f] then 1 else 0) - (if b then 1 else 0)
    decreases |used|
  {
    var n := |used| - 1;
    if f < n {
      assert used[f := b][..n] == used[..n][f := b];
      CountFreeUpdate(used[..n], f, b);
    } else {
      assert used[f := b][..n] == used[..n];
    }
  }

  lemma {:induction false} CountFreeZero(used: seq<bool>)
    ensures CountFree(used) == 0 <==> forall f :: 0 <= f < |used| ==> used[f]
    ensures CountFree(used) <= |used|
    decreases |used|
  {
    if used != [] {
      CountFreeZero(used[..|used| - 1]);
    }
  }

  // ----- The allocator object -----

  class Pmm {
    var bitmap: array<byte>
    var maxPhys: u64
    var frameCount: nat
    var freeFrames: nat
    var usedFrames: nat
    var nextHint: nat
    var initialized: bool

    constructor ()
      ensures !initialized && fresh(bitmap) && frameCount == 0 && Valid() && Used() == []
    {
      bitmap := new byte[0];
      maxPhys, frameCount, freeFrames, usedFrames, nextHint, initialized := 0, 0, 0, 0, 0, false;
    }

    /** The bitmap as one flag per frame. */
    ghost function Used(): (u: seq<bool>)
      requires frameCount <= 8 * bitmap.Length
      reads this, bitmap
      ensures |u| == frameCount
    {
      Bits(bitmap[..], frameCount)
    }

    /** Counters equal the bit counts and no frame below the hint is free. */
    ghost predicate Valid()
      reads this, bitmap
    {
      && frameCount <= 8 * bitmap.Length && maxPhys == frameCount * PAGE
      && freeFrames == CountFree(Used()) && freeFrames + usedFrames == frameCount
      && nextHint <= frameCount && forall f :: 0 <= f < nextHint ==> Used()[f]
    }

    method MarkFrameFree(frame: nat)
      requires Valid()
      modifies this`freeFrames, this`usedFrames, this`nextHint, bitmap
      ensures Valid()
      ensures Used() == if frame < frameCount then old(Used())[frame := false] else old(Used())
    {
      hide TestBit, ByteClear, ClearBit, CountFree;
      if frame >= frameCount {
        return;
      }
      ghost var was := Used();
      if TestBit(bitmap[..], frame) {
        ClearedBitmap(bitmap[..], frame);
        BitsUpdate(bitmap[..], frameCount, frame);
        CountFreeUpdate(was, frame, false);
        CountFreeZero(was[frame := false]);
        bitmap[frame / 8] := ByteClear(bitmap[frame / 8], frame % 8);
        freeFrames := freeFrames + 1;
        if usedFrames > 0 {
          usedFrames := usedFrames - 1;
        }
        if frame < nextHint {
          nextHint := frame;
        }
        assert Used() == was[frame := false];
      } else {
        assert was[frame := false] == was;
      }
    }

    method MarkFrameUsed(frame: nat)
      requires Valid()
      modifies this`freeFrames, this`usedFrames, bitmap
      ensures Valid()
      ensures Used() == if frame < frameCount then old(Used())[frame := true] else old(Used())
    {
      hide TestBit, ByteSet, SetBit, CountFree;
      if frame >= frameCount {
        return;
      }
      ghost var was := Used();
      if !TestBit(bitmap[..], frame) {
        SetBitmap(bitmap[..], frame);
        BitsUpdate(bitmap[..], frameCount, frame);
        CountFreeUpdate(was, frame, true);
        bitmap[frame / 8] := ByteSet(bitmap[frame / 8], frame % 8);
        if freeFrames > 0 {
          freeFrames := freeFrames - 1;
        }
        usedFrames := usedFrames + 1;
        assert Used() == was[frame := true];
      } else {
        assert was[frame := true] == was;
      }
    }

    method MarkRangeFree(base: u64, length: u64)
      requires Valid()
      modifies this`freeFrames, this`usedFrames, this`nextHint, bitmap
      ensures Valid()
      ensures forall f :: 0 <= f < frameCount ==> Used()[f] == (old(Used()[f]) && !RangeFrees(base, length, maxPhys, f))
    {
      hide CountFree, Bits, RangeFrees;
      ghost var was, r := Used(), FreedFrames(base, length, maxPhys);
      forall f: nat ensures RangeFrees(base, length, maxPhys, f) <==> r.0 <= f < r.1 {
        FreedFramesAre(base, length, maxPhys, f);
      }
      if length == 0 || base as int + length as int >= WORD64 {
        return;
      }
      var start, stop := AlignUp(base), AlignDown(base as int + length as int);
      if stop <= start || start >= maxPhys {
        return;
      }
      if stop > maxPhys {
        stop := maxPhys;
      }
      FreeFrames(start / PAGE, stop / PAGE);
    }

    /** The loop of mark_range_free. */
    method FreeFrames(first: nat, last: nat)
      requires Valid() && first <= last <= frameCount
      modifies this`freeFrames, this`usedFrames, this`nextHint, bitmap
      ensures Valid() && forall f :: 0 <= f < frameCount ==> Used()[f] == (old(Used()[f]) && !(first <= f < last))
    {
      hide CountFree, Bits;
      ghost var was := Used();
      for f := first to last
        invariant Valid() && forall k :: 0 <= k < frameCount ==> Used()[k] == (was[k] && !(first <= k < f))
      {
        MarkFrameFree(f);
      }
    }

    method MarkRangeUsed(base: u64, length: u64)
      requires Valid()
      modifies this`freeFrames, this`usedFrames, bitmap
      ensures Valid()
      ensures forall f :: 0 <= f < frameCount ==> Used()[f] == (old(Used()[f]) || RangeUses(base, length, maxPhys, f))
    {
      hide CountFree, Bits, RangeUses;
      ghost var was, r := Used(), TakenFrames(base, length, maxPhys);
      forall f: nat ensures RangeUses(base, length, maxPhys, f) <==> r.0 <= f < r.1 {
        TakenFramesAre(base, length, maxPhys, f);
      }
      if length == 0 || base as int + length as int >= WORD64 {
        return;
      }
      var start, stop := AlignDown(base), AlignUp(base as int + length as int);
      if stop <= start || start >= maxPhys {
        return;
      }
      if stop > maxPhys {
        stop := maxPhys;
      }
      TakeFrames(start / PAGE, stop / PAGE);
    }

    /** The loop of mark_range_used. */
    method TakeFrames(first: nat, last: nat)
      requires Valid() && first <= last <= frameCount
      modifies this`freeFrames, this`usedFrames, bitmap
      ensures Valid() && forall f :: 0 <= f < frameCount ==> Used()[f] == (old(Used()[f]) || first <= f < last)
    {
      hide CountFree, Bits;
      ghost var was := Used();
      for f := first to last
        invariant Valid() && forall k :: 0 <= k < frameCount ==> Used()[k] == (was[k] || first <= k < f)
      {
        MarkFrameUsed(f);
      }
    }

    /** pmm_init_from_map: everything starts used, usable ranges are freed, then frame 0 and all other
        ranges are taken. */
    method InitFromMap(regions: seq<Region>, storage: array<byte>, maxPhysBytes: u64) returns (ok: bool)
      modifies this, storage
      ensures ok <==>
                && |regions| > 0 && maxPhysBytes != 0 && maxPhysBytes % PAGE == 0
                && (maxPhysBytes / PAGE + 7) / 8 <= storage.Length
      ensures !ok ==>
                && bitmap == old(bitmap) && initialized == old(initialized) && frameCount == old(frameCount)
                && storage[..] == old(storage[..])
      ensures ok ==>
                && initialized && Valid() && bitmap == storage && maxPhys == maxPhysBytes
                && frameCount == maxPhysBytes / PAGE
      ensures ok ==> forall f :: 0 <= f < frameCount ==> (!Used()[f] <==> FreeAtBoot(regions, maxPhysBytes, f))
    {
      hide CountFree, Bits, RangeUses, SomeUsableFrees, SomeOtherUses;
      if |regions| == 0 || maxPhysBytes == 0 || maxPhysBytes % PAGE != 0 {
        return false;
      }
      var count := maxPhysBytes / PAGE;
      var bytes := (count + 7) / 8;
      if storage.Length < bytes {
        return false;
      }
      assert count * PAGE == maxPhysBytes && count <= 8 * bytes;
      Reset(storage, count, bytes);
      Populate(regions);
      initialized := true;
      ok := true;
    }

    /** The two passes over the boot map with frame 0 in between. */
    method Populate(regions: seq<Region>)
      requires Valid() && !initialized && forall f :: 0 <= f < frameCount ==> Used()[f]
      modifies this`freeFrames, this`usedFrames, this`nextHint, bitmap
      ensures Valid() && forall f :: 0 <= f < frameCount ==> (!Used()[f] <==> FreeAtBoot(regions, maxPhys, f))
    {
      hide CountFree, Bits, RangeUses, SomeUsableFrees, SomeOtherUses;
      FreeUsable(regions);
      MarkRangeUsed(0, PAGE);
      TakeOthers(regions);
    }

    method Reset(storage: array<byte>, count: nat, bytes: nat)
      requires count <= 8 * bytes && bytes <= storage.Length && count * PAGE < WORD64
      modifies this, storage
      ensures bitmap == storage && frameCount == count && maxPhys == count * PAGE && Valid() && !initialized
      ensures forall f :: 0 <= f < count ==> Used()[f]
    {
      bitmap, maxPhys, frameCount := storage, count * PAGE, count;
      freeFrames, usedFrames, nextHint, initialized := 0, count, 0, false;
      for i := 0 to bytes
        invariant forall k :: 0 <= k < i ==> storage[k] == 0xff
        invariant bitmap == storage && frameCount == count && maxPhys == count * PAGE && freeFrames == 0
        invariant usedFrames == count
        invariant nextHint == 0 && !initialized
      {
        storage[i] := 0xff;
      }
      forall f | 0 <= f < count ensures Used()[f] {
        AllOnes(f % 8);
      }
      CountFreeZero(Used());
    }

    method FreeUsable(regions: seq<Region>)
      requires Valid() && !initialized && forall f :: 0 <= f < frameCount ==> Used()[f]
      modifies this`freeFrames, this`usedFrames, this`nextHint, bitmap
      ensures Valid()
      ensures forall f :: 0 <= f < frameCount ==> (!Used()[f] <==> SomeUsableFrees(regions, maxPhys, f))
    {
      hide CountFree, Bits, RangeFrees, RangeUses;
      for i := 0 to |regions|
        invariant Valid()
        invariant forall f :: 0 <= f < frameCount ==> (!Used()[f] <==> SomeUsableFrees(regions[..i], maxPhys, f))
      {
        assert regions[..i + 1] == regions[..i] + [regions[i]];
        forall f | 0 <= f < frameCount ensures SomeUsableFrees(regions[..i + 1], maxPhys, f) <==>
            SomeUsableFrees(regions[..i], maxPhys, f)
            || (regions[i].kind.Usable? && RangeFrees(regions[i].base, regions[i].length, maxPhys, f)) {
          UsableSnoc(regions[..i], regions[i], maxPhys, f);
        }
        if regions[i].kind.Usable? {
          MarkRangeFree(regions[i].base, regions[i].length);
        }
      }
      assert regions[..|regions|] == regions;
    }

    method TakeOthers(regions: seq<Region>)
      requires Valid()
      modifies this`freeFrames, this`usedFrames, bitmap
      ensures Valid()
      ensures forall f :: 0 <= f < frameCount ==> Used()[f] == (old(Used()[f]) || SomeOtherUses(regions, maxPhys, f))
    {
      hide CountFree, Bits, RangeFrees, RangeUses;
      ghost var was := Used();
      for i := 0 to |regions|
        invariant Valid()
        invariant forall f :: 0 <= f < frameCount ==> Used()[f] == (was[f] || SomeOtherUses(regions[..i], maxPhys, f))
      {
        assert regions[..i + 1] == regions[..i] + [regions[i]];
        forall f | 0 <= f < frameCount ensures SomeOtherUses(regions[..i + 1], maxPhys, f) <==>
            SomeOtherUses(regions[..i], maxPhys, f)
            || (regions[i].kind.Other? && RangeUses(regions[i].base, regions[i].length, maxPhys, f)) {
          OtherSnoc(regions[..i], regions[i], maxPhys, f);
        }
        if regions[i].kind.Other? {
          MarkRangeUsed(regions[i].base, regions[i].length);
        }
      }
      assert regions[..|regions|] == regions;
    }

    /** pmm_alloc_frame: the lowest free frame, whatever the hint; fails only when no frame is free. */
    method AllocFrame() returns (addr: u64)
      requires Valid()
      modifies this`freeFrames, this`usedFrames, this`nextHint, bitmap
      ensures Valid()
      ensures var f := old(Lowest(Used(), 0));
              if !initialized || f == frameCount then addr == INVALID_FRAME && Used() == old(Used())
              else addr == f * PAGE && Used() == old(Used())[f := true]
      ensures initialized ==> Used() == Step(State(old(Used()), {}), Alloc).used
    {
      hide CountFree, Lowest, TestBit;
      ghost var was := Used();
      CountFreeZero(was);
      LowestFromHint(was, nextHint);
      if !initialized || freeFrames == 0 {
        return INVALID_FRAME;
      }
      for frame := nextHint to frameCount
        invariant forall k :: nextHint <= k < frame ==> was[k]
      {
        if !TestBit(bitmap[..], frame) {
          LowestIs(was, frame);
          MarkFrameUsed(frame);
          nextHint := frame + 1;
          return frame * PAGE;
        }
      }
      // The source now wraps around to frame 0; with a true hint every frame is known to be used and a
      // free frame exists, so this point is not reached.
      assert false;
      addr := INVALID_FRAME;
    }

    /** pmm_free_frame. */
    method FreeFrame(addr: u64) returns (ok: bool)
      requires Valid()
      modifies this`freeFrames, this`usedFrames, this`nextHint, bitmap
      ensures Valid()
      ensures ok <==> initialized && addr % PAGE == 0 && addr != 0 && addr < maxPhys && old(Used())[addr / PAGE]
      ensures Used() == if ok then old(Used())[addr / PAGE := false] else old(Used())
      ensures initialized ==> Used() == Step(State(old(Used()), {}), Free(addr)).used
    {
      if !initialized || addr % PAGE != 0 || addr == 0 || addr >= maxPhys {
        return false;
      }
      var frame := addr / PAGE;
      if !TestBit(bitmap[..], frame) {
        return false;
      }
      MarkFrameFree(frame);
      ok := true;
    }

    /** pmm_reserve_range. */
    method ReserveRange(base: u64, length: u64) returns (ok: bool)
      requires Valid()
      modifies this`freeFrames, this`usedFrames, bitmap
      ensures Valid() && (ok <==> initialized && length != 0)
      ensures forall f :: 0 <= f < frameCount ==>
                Used()[f] == (old(Used()[f]) || (ok && RangeUses(base, length, maxPhys, f)))
      ensures initialized ==> Used() == Step(State(old(Used()), {}), Reserve(base, length)).used
    {
      hide CountFree, RangeUses, Step, Bits;
      ghost var was := Used();
      ReserveIs(was, base, length, maxPhys);
      if !initialized || length == 0 {
        return false;
      }
      MarkRangeUsed(base, length);
      ok := true;
    }
  }

  lemma AllOnes(k: nat)
    requires k < 8
    ensures ByteBit(0xff, k)
  {
    AllOnesBv(k);
  }

  lemma AllOnesBv(k: nat)
    requires k < 8
    ensures BvBit(0xff, k)
  {
  }

  lemma {:induction false} LowestFromHint(used: seq<bool>, hint: nat)
    requires hint <= |used| && forall k :: 0 <= k < hint ==> used[k]
    ensures Lowest(used, 0) == Lowest(used, hint)
  {
    hide Lowest;
  }

  lemma LowestIs(used: seq<bool>, f: nat)
    requires f < |used| && !used[f] && forall k :: 0 <= k < f ==> used[k]
    ensures Lowest(used, 0) == f
  {
    hide Lowest;
  }

  lemma ClearedBitmap(bm: seq<byte>, f: nat)
    requires f / 8 < |bm|
    ensures bm[f / 8 := ByteClear(bm[f / 8], f % 8)] == ClearBit(bm, f)
  {
  }

  lemma SetBitmap(bm: seq<byte>, f: nat)
    requires f / 8 < |bm|
    ensures bm[f / 8 := ByteSet(bm[f / 8], f % 8)] == SetBit(bm, f)
  {
  }

  // ----- What the boot map means -----

  predicate SomeUsableFrees(regions: seq<Region>, maxPhys: u64, f: nat) {
    exists i :: 0 <= i < |regions| && regions[i].kind.Usable?
      && RangeFrees(regions[i].base, regions[i].length, maxPhys, f)
  }

  predicate SomeOtherUses(regions: seq<Region>, maxPhys: u64, f: nat) {
    exists i :: 0 <= i < |regions| && regions[i].kind.Other?
      && RangeUses(regions[i].base, regions[i].length, maxPhys, f)
  }

  lemma UsableSnoc(rs: seq<Region>, r: Region, maxPhys: u64, f: nat)
    ensures SomeUsableFrees(rs + [r], maxPhys, f) <==>
              SomeUsableFrees(rs, maxPhys, f) || (r.kind.Usable? && RangeFrees(r.base, r.length, maxPhys, f))
  {
    hide RangeFrees;
    if SomeUsableFrees(rs, maxPhys, f) {
      var i :| 0 <= i < |rs| && rs[i].kind.Usable? && RangeFrees(rs[i].base, rs[i].length, maxPhys, f);
      assert (rs + [r])[i] == rs[i];
    }
    assert (rs + [r])[|rs|] == r;
  }

  lemma OtherSnoc(rs: seq<Region>, r: Region, maxPhys: u64, f: nat)
    ensures SomeOtherUses(rs + [r], maxPhys, f) <==>
              SomeOtherUses(rs, maxPhys, f) || (r.kind.Other? && RangeUses(r.base, r.length, maxPhys, f))
  {
    hide RangeUses;
    if SomeOtherUses(rs, maxPhys, f) {
      var i :| 0 <= i < |rs| && rs[i].kind.Other? && RangeUses(rs[i].base, rs[i].length, maxPhys, f);
      assert (rs + [r])[i] == rs[i];
    }
    assert (rs + [r])[|rs|] == r;
  }

  /** Frame f is free after initialisation. */
  predicate FreeAtBoot(regions: seq<Region>, maxPhys: u64, f: nat) {
    SomeUsableFrees(regions, maxPhys, f) && !RangeUses(0, PAGE, maxPhys, f) && !SomeOtherUses(regions, maxPhys, f)
  }

  /** Frame f lies wholly inside the region / touches it. */
  predicate Inside(r: Region, f: nat) {
    r.length > 0 && r.base <= f * PAGE && (f + 1) * PAGE <= r.base as int + r.length as int
  }

  predicate Touches(r: Region, f: nat) {
    r.length > 0 && r.base < (f + 1) * PAGE && f * PAGE < r.base as int + r.length as int
  }

  lemma AlignUpIs(v: u64)
    ensures v as int <= WORD64 - PAGE ==> v as int <= AlignUp(v) < v as int + PAGE && AlignUp(v) % PAGE == 0
    ensures v as int > WORD64 - PAGE ==> AlignUp(v) == 0
  {
  }

  /** A usable region frees exactly the frames inside it, for all frames, exactly under this condition:
      its base rounds up without wrapping, or its end overflows and it holds no frame anyway. */
  predicate UsableExact(r: Region, maxPhys: u64) {
    || r.length == 0
    || (!Overflows(r.base, r.length) && r.base as int <= WORD64 - PAGE)
    || (Overflows(r.base, r.length) && r.base as int > maxPhys as int - PAGE)
  }

  lemma UsableExactIff(r: Region, maxPhys: u64)
    requires maxPhys > 0 && maxPhys % PAGE == 0
    ensures UsableExact(r, maxPhys) <==>
              forall f: nat :: f * PAGE < maxPhys ==> RangeFrees(r.base, r.length, maxPhys, f) == Inside(r, f)
  {
    AlignUpIs(r.base);
    if UsableExact(r, maxPhys) {
      forall f: nat | f * PAGE < maxPhys ensures RangeFrees(r.base, r.length, maxPhys, f) == Inside(r, f) {
      }
    } else {
      var f: nat := if Overflows(r.base, r.length) then maxPhys / PAGE - 1 else 0;
      assert f * PAGE < maxPhys && RangeFrees(r.base, r.length, maxPhys, f) != Inside(r, f);
    }
  }

  /** A region of any other type takes exactly the frames it touches, for all frames, exactly when its
      rounded end does not wrap, or it lies above the managed memory. */
  predicate OtherExact(r: Region, maxPhys: u64) {
    r.length == 0 || r.base as int + r.length as int <= WORD64 - PAGE || r.base >= maxPhys
  }

  lemma OtherExactIff(r: Region, maxPhys: u64)
    requires maxPhys > 0 && maxPhys % PAGE == 0
    ensures OtherExact(r, maxPhys) <==>
              forall f: nat :: f * PAGE < maxPhys ==> RangeUses(r.base, r.length, maxPhys, f) == Touches(r, f)
  {
    if !Overflows(r.base, r.length) {
      AlignUpIs(r.base as int + r.length as int);
    }
    if OtherExact(r, maxPhys) {
      forall f: nat | f * PAGE < maxPhys ensures RangeUses(r.base, r.length, maxPhys, f) == Touches(r, f) {
      }
    } else {
      var f: nat := r.base as int / PAGE;
      assert f * PAGE < maxPhys && RangeUses(r.base, r.length, maxPhys, f) != Touches(r, f);
    }
  }

  /** The meaning of the boot map, whatever the order or overlap of the regions. */
  lemma BootMapMeaning(regions: seq<Region>, maxPhys: u64, f: nat)
    requires maxPhys > 0 && maxPhys % PAGE == 0 && f * PAGE < maxPhys
    requires forall i :: 0 <= i < |regions| ==> regions[i].base as int + regions[i].length as int <= WORD64 - PAGE
    ensures FreeAtBoot(regions, maxPhys, f) <==>
              && f != 0
              && (exists i :: 0 <= i < |regions| && regions[i].kind.Usable? && Inside(regions[i], f))
              && !(exists i :: 0 <= i < |regions| && regions[i].kind.Other? && Touches(regions[i], f))
  {
    var zero := Region(0, PAGE, Other);
    OtherExactIff(zero, maxPhys);
    assert RangeUses(0, PAGE, maxPhys, f) == Touches(zero, f) == (f == 0);
    forall i | 0 <= i < |regions|
      ensures RangeFrees(regions[i].base, regions[i].length, maxPhys, f) == Inside(regions[i], f)
      ensures RangeUses(regions[i].base, regions[i].length, maxPhys, f) == Touches(regions[i], f)
    {
      UsableExactIff(regions[i], maxPhys);
      OtherExactIff(regions[i], maxPhys);
    }
    hide RangeFrees, RangeUses, Inside, Touches;
  }

  /** Order independence: maps with the same set of regions boot to the same frames. */
  lemma BootOrderIrrelevant(r1: seq<Region>, r2: seq<Region>, maxPhys: u64, f: nat)
    requires forall r :: r in r1 <==> r in r2
    ensures FreeAtBoot(r1, maxPhys, f) == FreeAtBoot(r2, maxPhys, f)
  {
    SomeByMembership(r1, maxPhys, f);
    SomeByMembership(r2, maxPhys, f);
  }

  lemma SomeByMembership(rs: seq<Region>, maxPhys: u64, f: nat)
    ensures SomeUsableFrees(rs, maxPhys, f) <==>
              exists r :: r in rs && r.kind.Usable? && RangeFrees(r.base, r.length, maxPhys, f)
    ensures SomeOtherUses(rs, maxPhys, f) <==>
              exists r :: r in rs && r.kind.Other? && RangeUses(r.base, r.length, maxPhys, f)
  {
    hide RangeFrees, RangeUses;
  }

  /** The wrap at the top: one usable byte in the last page frees every frame of memory. */
  lemma WrappedUsableFreesAll(maxPhys: u64, f: nat)
    requires maxPhys > 0 && maxPhys % PAGE == 0 && f * PAGE < maxPhys
    ensures RangeFrees(WORD64 - PAGE + 1, 1, maxPhys, f)
    ensures !Inside(Region(WORD64 - PAGE + 1, 1, Usable), f)
  {
    AlignUpIs(WORD64 - PAGE + 1);
  }

  // ----- Runs of the allocator -----

  datatype Op = Alloc | Free(addr: u64) | Reserve(base: u64, length: u64)

  /** Abstract state: the bitmap and the frames the callers hold. */
  datatype State = State(used: seq<bool>, held: set<nat>)

  function Step(s: State, op: Op): (r: State)
    ensures |r.used| == |s.used|
  {
    match op
    case Alloc =>
      var f := Lowest(s.used, 0);
      if f == |s.used| then s else State(s.used[f := true], s.held + {f})
    case Free(addr) =>
      if addr % PAGE == 0 && addr != 0 && addr < |s.used| * PAGE && s.used[addr / PAGE]
      then State(s.used[addr / PAGE := false], s.held - {addr / PAGE}) else s
    case Reserve(base, length) =>
      State(seq(|s.used|, f requires 0 <= f < |s.used| =>
              s.used[f] || (|s.used| * PAGE < WORD64 && RangeUses(base, length, |s.used| * PAGE, f))), s.held)
  }

  function RunOps(s: State, ops: seq<Op>): (r: State)
    ensures |r.used| == |s.used|
    decreases |ops|
  {
    if ops == [] then s else RunOps(Step(s, ops[0]), ops[1..])
  }

  /** A run takes its operations one after the other. */
  lemma {:induction false} RunSnoc(s: State, ops: seq<Op>, op: Op)
    ensures RunOps(s, ops + [op]) == Step(RunOps(s, ops), op)
    decreases |ops|
  {
    hide Step;
    if ops == [] {
      assert ([] + [op])[1..] == [];
    } else {
      assert (ops + [op])[1..] == ops[1..] + [op];
      RunSnoc(Step(s, ops[0]), ops[1..], op);
    }
  }

  ghost predicate Safe(s: State) {
    && |s.used| > 0 && s.used[0] && 0 !in s.held
    && forall f :: f in s.held ==> f < |s.used| && s.used[f]
  }

  lemma StepIsSafe(s: State, op: Op)
    requires Safe(s)
    ensures Safe(Step(s, op))
    ensures op.Alloc? && Lowest(s.used, 0) < |s.used| ==> Lowest(s.used, 0) !in s.held && Lowest(s.used, 0) != 0
  {
    hide RangeUses;
  }

  /** Frames held at once are distinct and never frame 0: after any run the next allocation returns a
      frame nobody holds, and fails only when every frame is used. */
  lemma {:induction false} RunsAreSafe(s: State, ops: seq<Op>)
    requires Safe(s)
    ensures var t := RunOps(s, ops); var f := Lowest(t.used, 0);
            Safe(t) && (f < |t.used| ==> f !in t.held && f != 0)
            && (f == |t.used| ==> forall k :: 0 <= k < |t.used| ==> t.used[k])
    decreases |ops|
  {
    if ops == [] {
      StepIsSafe(s, Alloc);
    } else {
      StepIsSafe(s, ops[0]);
      RunsAreSafe(Step(s, ops[0]), ops[1..]);
    }
  }

  lemma ReserveIs(used: seq<bool>, base: u64, length: u64, maxPhys: u64)
    ensures var r := Step(State(used, {}), Reserve(base, length)).used;
            && |r| == |used|
            && (|used| * PAGE == maxPhys ==>
                  forall f :: 0 <= f < |used| ==> r[f] == (used[f] || RangeUses(base, length, maxPhys, f)))
    ensures length == 0 ==> Step(State(used, {}), Reserve(base, length)).used == used
  {
    var r := Step(State(used, {}), Reserve(base, length)).used;
    if length == 0 {
      assert r == used;
    }
  }

  /** Nobody reserves, and only frames that are held are freed. */
  predicate Borrows(s: State, ops: seq<Op>)
    decreases |ops|
  {
    ops == [] ||
    (&& !ops[0].Reserve? && (ops[0].Free? ==> ops[0].addr % PAGE == 0 && ops[0].addr / PAGE in s.held)
     && Borrows(Step(s, ops[0]), ops[1..]))
  }

  /** Conservation: the frames in use that nobody holds stay the same over such a run, so once every frame has been
      given back the bitmap is what it was. */
  lemma {:induction false} RunsConserve(s: State, ops: seq<Op>)
    requires Safe(s) && Borrows(s, ops)
    ensures var t := RunOps(s, ops);
            && Safe(t)
            && (forall f :: 0 <= f < |s.used| ==> (t.used[f] && f !in t.held <==> s.used[f] && f !in s.held))
            && (s.held == {} && t.held == {} ==> t.used == s.used)
    decreases |ops|
  {
    if ops != [] {
      StepIsSafe(s, ops[0]);
      StepConserves(s, ops[0]);
      RunsConserve(Step(s, ops[0]), ops[1..]);
    }
  }

  lemma StepConserves(s: State, op: Op)
    requires Safe(s) && !op.Reserve? && (op.Free? ==> op.addr % PAGE == 0 && op.addr / PAGE in s.held)
    ensures var t := Step(s, op);
            forall f :: 0 <= f < |s.used| ==> (t.used[f] && f !in t.held <==> s.used[f] && f !in s.held)
  {
  }
}
