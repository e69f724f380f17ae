/** Page-table entries bit by bit: which bit of an entry comes from which bit of the address and of the flags. */
module PageBits {
  import opened Bytes
  import opened PageTable

  /** a << j */
  function Shift(a: nat, j: nat): nat {
    if j == 0 then a else 2 * Shift(a, j - 1)
  }

  lemma Halve(a: nat, b: nat)
    ensures (2 * a + b) / 2 == a + b / 2 && (2 * a + b) % 2 == b % 2
  {
  }

  lemma {:induction false} BitBelow(a: nat, b: nat, j: nat, k: nat)
    requires k < j
    ensures Bit(Shift(a, j) + b, k) == Bit(b, k)
    decreases k
  {
    Halve(Shift(a, j - 1), b);
    if k > 0 {
      BitBelow(a, b / 2, j - 1, k - 1);
    }
  }

  lemma {:induction false} BitAbove(a: nat, b: nat, j: nat, k: nat)
    requires j <= k && b < Shift(1, j)
    ensures Bit(Shift(a, j) + b, k) == Bit(a, k - j)
    decreases j
  {
    if j > 0 {
      Halve(Shift(a, j - 1), b);
      BitAbove(a, b / 2, j - 1, k - 1);
    }
  }

  lemma {:induction false} BitOfZero(k: nat)
    ensures Bit(0, k) == 0
  {
    if k > 0 {
      BitOfZero(k - 1);
    }
  }

  lemma Shift4(a: nat, j: nat)
    ensures Shift(a, j + 4) == 16 * Shift(a, j)
  {
    assert Shift(a, j + 2) == 4 * Shift(a, j);
  }

  lemma Shifts(a: nat)
    ensures Shift(a, 12) == 0x1000 * a && Shift(a, 40) == 0x100_0000_0000 * a
  {
    hide Shift;
    assert Shift(a, 0) == a by { ShiftZero(a); }
    Shift4(a, 0);
    Shift4(a, 4);
    Shift4(a, 8);
    Shift4(a, 12);
    Shift4(a, 16);
    Shift4(a, 20);
    Shift4(a, 24);
    Shift4(a, 28);
    Shift4(a, 32);
    Shift4(a, 36);
  }

  lemma ShiftZero(a: nat)
    ensures Shift(a, 0) == a
  {
  }

  lemma Skip4(x: nat, k: nat)
    ensures Bit(x, k + 4) == Bit(x / 16, k)
  {
    assert Bit(x, k + 2) == Bit(x / 4, k);
    assert Bit(x, k + 4) == Bit(x / 4, k + 2);
  }

  lemma BitStep(x: nat, k: nat)
    ensures Bit(x, k) == if k == 0 then x % 2 else Bit(x / 2, k - 1)
  {
  }

  lemma FirstTwo(x: nat)
    ensures Bit(x, 0) == x % 2 && Bit(x, 1) == x / 2 % 2 && Bit(x, 2) == Bit(x / 4, 0) && Bit(x, 3) == Bit(x / 4, 1)
  {
    hide Bit;
    BitStep(x, 0);
    BitStep(x, 1);
    BitStep(x, 2);
    BitStep(x, 3);
    BitStep(x / 2, 0);
    BitStep(x / 2, 1);
    BitStep(x / 2, 2);
    Nested2(x);
  }

  lemma Nested2(x: nat)
    ensures x / 2 / 2 == x / 4
  {
  }

  lemma Nested4(x: nat)
    ensures x / 4 / 2 == x / 8
  {
  }

  /** The low five bits, spelled out. */
  lemma LowBitsAre(x: nat)
    ensures Bit(x, 0) == x % 2 && Bit(x, 1) == x / 2 % 2 && Bit(x, 2) == x / 4 % 2 && Bit(x, 3) == x / 8 % 2
    ensures Bit(x, 4) == x / 16 % 2
  {
    hide Bit;
    FirstTwo(x);
    FirstTwo(x / 4);
    Nested4(x);
    Skip4(x, 0);
    FirstTwo(x / 16);
  }

  lemma Skip12(x: nat, k: nat)
    ensures Bit(x, k + 12) == Bit(x / 0x1000, k)
  {
    hide Bit;
    Skip4(x, k + 8);
    Skip4(x / 16, k + 4);
    Skip4(x / 16 / 16, k);
    Nested(x);
  }

  lemma Nested(x: nat)
    ensures x / 16 / 16 / 16 == x / 0x1000
  {
  }

  /** Bits 7 and 8, as the masks 0x80 and 0x100 select them, and bit 63. */
  lemma HighBits(x: nat)
    ensures Bit(x, 7) == x / 128 % 2 && Bit(x, 8) == x / 256 % 2
  {
    hide Bit;
    Skip4(x, 3);
    Skip4(x, 4);
    LowBitsAre(x / 16);
    Nested8(x);
  }

  lemma Nested8(x: nat)
    ensures x / 16 / 8 == x / 128 && x / 16 / 16 == x / 256
  {
  }

  lemma TopBits(x: nat)
    ensures Bit(x, 63) == x / 0x8000_0000_0000_0000 % 2
  {
    hide Bit;
    Skip12(x, 51);
    Skip12(x / 0x1000, 39);
    Skip12(x / 0x1000 / 0x1000, 27);
    Skip12(x / 0x1000 / 0x1000 / 0x1000, 15);
    Skip12(x / 0x1000 / 0x1000 / 0x1000 / 0x1000, 3);
    Nested60(x);
    LowBitsAre(x / 0x1000_0000_0000_0000);
    Nested63(x);
  }

  lemma Nested60(x: nat)
    ensures x / 0x1000 / 0x1000 / 0x1000 / 0x1000 / 0x1000 == x / 0x1000_0000_0000_0000
  {
    assert x / 0x1000 / 0x1000 == x / 0x100_0000;
    assert x / 0x100_0000 / 0x1000 == x / 0x10_0000_0000;
    assert x / 0x10_0000_0000 / 0x1000 == x / 0x1_0000_0000_0000;
  }

  lemma Nested63(x: nat)
    ensures x / 0x1000_0000_0000_0000 / 8 == x / 0x8000_0000_0000_0000
  {
  }

  // ----- Entries -----

  /** An entry with these low twelve bits, frame number and top bit. */
  lemma EntryBits(lo: nat, mid: nat, top: nat, k: nat)
    requires lo < 0x1000 && mid < 0x100_0000_0000 && k < 64
    ensures Bit((top * 0x100_0000_0000 + mid) * 0x1000 + lo, k) ==
              if k < 12 then Bit(lo, k) else if k < 52 then Bit(mid, k - 12) else Bit(top, k - 52)
  {
    hide Bit, Shift;
    Shifts(1);
    Shifts(top);
    var up := top * 0x100_0000_0000 + mid;
    Shifts(up);
    if k < 12 {
      BitBelow(up, lo, 12, k);
    } else {
      BitAbove(up, lo, 12, k);
      if k < 52 {
        BitBelow(top, mid, 40, k - 12);
      } else {
        BitAbove(top, mid, 40, k - 12);
      }
    }
  }

  /** Where the parts of a word sit. */
  lemma Parts(x: u64)
    ensures var lo, mid, top := x as int % 0x1000, x as int / 0x1000 % 0x100_0000_0000, x as int / PHYS_LIMIT;
            && x as int == (top * 0x100_0000_0000 + mid) * 0x1000 + lo
            && Addr(x) as int == mid * 0x1000 && FlagBits(x) as int == top * 0x100_0000_0000 * 0x1000 + lo
  {
    var q: int := x as int / 0x1000;
    assert x as int == q * 0x1000 + x as int % 0x1000;
    assert q == q / 0x100_0000_0000 * 0x100_0000_0000 + q % 0x100_0000_0000;
    assert q / 0x100_0000_0000 == x as int / PHYS_LIMIT by { Frames(x as int); }
    assert q * 0x1000 % PHYS_LIMIT == q % 0x100_0000_0000 * 0x1000;
  }

  lemma Frames(x: int)
    ensures x / 0x1000 / 0x100_0000_0000 == x / 0x10_0000_0000_0000
  {
  }

  lemma PresentAndHuge(e: u64)
    ensures Present(e) <==> Bit(e, 0) == 1
    ensures IsHuge(e) <==> Bit(e, 7) == 1
  {
    hide Bit;
    LowBitsAre(e);
    HighBits(e);
  }

  /** The address field is bits 12 to 51, the flags are all the others; bit 0 is present and bit 7 is huge. */
  lemma FieldsAreBits(e: u64, k: nat)
    requires k < 64
    ensures Bit(Addr(e), k) == if 12 <= k < 52 then Bit(e, k) else 0
    ensures Bit(FlagBits(e), k) == if 12 <= k < 52 then 0 else Bit(e, k)
    ensures Present(e) <==> Bit(e, 0) == 1
    ensures IsHuge(e) <==> Bit(e, 7) == 1
  {
    hide *;
    PresentAndHuge(e);
    Limit();
    Parts(e);
    var lo, mid, top := e as int % 0x1000, e as int / 0x1000 % 0x100_0000_0000, e as int / PHYS_LIMIT;
    EntryBits(lo, mid, top, k);
    EntryBits(0, mid, 0, k);
    EntryBits(lo, 0, top, k);
    BitOfZero(k);
    if 12 <= k {
      BitOfZero(k - 12);
    }
    if 52 <= k {
      BitOfZero(k - 52);
    }
  }

  lemma Limit()
    ensures PHYS_LIMIT == 0x10_0000_0000_0000
  {
  }

  /** The entry that vmm_map_page stores: bit 0 is set, bits 1, 2, 3, 4, 8 and 63 are the caller's, bits 12 to 51 are
      the frame's, and every other bit is clear. */
  lemma LeafEntryBits(paddr: u64, flags: u64, k: nat)
    requires k < 64
    ensures Bit(LeafEntry(paddr, flags), k) ==
              if k == 0 then 1 else if k in {1, 2, 3, 4, 8, 63} then Bit(flags, k)
              else if 12 <= k < 52 then Bit(paddr, k) else 0
  {
    hide *;
    Limit();
    Parts(paddr);
    var lo, hi := 1 + AllowedLow(flags), Flag(flags, 0x8000_0000_0000_0000);
    var mid := paddr as int / 0x1000 % 0x100_0000_0000;
    LeafParts(paddr, flags);
    EntryBits(lo, mid, 2048 * hi, k);
    if k < 12 {
      LowFlags(flags, k);
    } else if k < 52 {
      EntryBits(paddr as int % 0x1000, mid, paddr as int / PHYS_LIMIT, k);
    } else {
      TopFlag(flags, k - 52);
    }
  }

  lemma LeafParts(paddr: u64, flags: u64)
    ensures LeafEntry(paddr, flags) as int ==
              Addr(paddr) as int + 1 + AllowedLow(flags) + 0x8000_0000_0000_0000 * Flag(flags, 0x8000_0000_0000_0000)
    ensures 1 + AllowedLow(flags) < 0x1000
  {
    hide Addr, AllowedLow, Flag;
  }

  lemma LowFlags(flags: u64, k: nat)
    requires k < 12
    ensures Bit(1 + AllowedLow(flags), k) ==
              if k == 0 then 1 else if k in {1, 2, 3, 4, 8} then Bit(flags, k) else 0
  {
    hide Bit;
    LowBitsAre(flags);
    HighBits(flags);
    var a, b, c, d, g := Bit(flags, 1), Bit(flags, 2), Bit(flags, 3), Bit(flags, 4), Bit(flags, 8);
    assert 1 + AllowedLow(flags) == 1 + 2 * a + 4 * b + 8 * c + 16 * d + 256 * g;
    LowByteBits(a, b, c, d, g, k);
  }

  lemma LowByteBits(a: int, b: int, c: int, d: int, g: int, k: nat)
    requires 0 <= a <= 1 && 0 <= b <= 1 && 0 <= c <= 1 && 0 <= d <= 1 && 0 <= g <= 1 && k < 12
    ensures Bit(1 + 2 * a + 4 * b + 8 * c + 16 * d + 256 * g, k) ==
              if k == 0 then 1 else if k == 1 then a else if k == 2 then b else if k == 3 then c
              else if k == 4 then d else if k == 8 then g else 0
  {
    hide Bit;
    var x, y := 1 + 2 * a + 4 * b + 8 * c + 16 * d + 256 * g, a + 2 * b + 4 * c + 8 * d + 128 * g;
    if k < 4 {
      Digit(x, y, 1, k);
      if k > 0 {
        Digit(y, b + 2 * c + 4 * d + 64 * g, a, k - 1);
      }
      if k > 1 {
        Digit(b + 2 * c + 4 * d + 64 * g, c + 2 * d + 32 * g, b, k - 2);
      }
      if k > 2 {
        Digit(c + 2 * d + 32 * g, d + 16 * g, c, k - 3);
      }
    } else {
      assert x / 16 == d + 16 * g;
      Skip4(x, k - 4);
      if k < 8 {
        LowBitsAre(d + 16 * g);
      } else {
        assert (d + 16 * g) / 16 == g;
        Skip4(d + 16 * g, k - 8);
        LowBitsAre(g);
      }
    }
  }

  lemma Digit(x: nat, y: nat, f: int, k: nat)
    requires x == 2 * y + f && 0 <= f <= 1
    ensures Bit(x, k) == if k == 0 then f else Bit(y, k - 1)
  {
  }

  lemma TopFlag(flags: u64, k: nat)
    requires k < 12
    ensures Bit(2048 * Flag(flags, 0x8000_0000_0000_0000), k) == if k == 11 then Bit(flags, 63) else 0
  {
    hide Bit, Shift;
    TopBits(flags);
    var hi := Flag(flags, 0x8000_0000_0000_0000);
    Eleven(hi);
    if k < 11 {
      BitBelow(hi, 0, 11, k);
      BitOfZero(k);
    } else {
      BitAbove(hi, 0, 11, 11);
      LowBitsAre(hi);
    }
  }

  lemma Eleven(a: nat)
    ensures Shift(a, 11) == 2048 * a && Shift(1, 11) == 2048
  {
    Shift4(a, 7);
    Shift4(a, 3);
    Shift4(1, 7);
    Shift4(1, 3);
    assert Shift(a, 1) == 2 * a && Shift(1, 1) == 2;
  }

  /** The entry that links a table: bits 0 and 1 are set and bits 12 to 51 are the table's. */
  lemma LinkEntryBits(table: u64, k: nat)
    requires k < 64
    ensures Bit(LinkEntry(table), k) == if k < 2 then 1 else if 12 <= k < 52 then Bit(table, k) else 0
  {
    hide *;
    Limit();
    Parts(table);
    LinkParts(table);
    var mid := table as int / 0x1000 % 0x100_0000_0000;
    EntryBits(3, mid, 0, k);
    if k < 12 {
      ThreeBits(k);
    } else if k < 52 {
      EntryBits(table as int % 0x1000, mid, table as int / PHYS_LIMIT, k);
    } else {
      BitOfZero(k - 52);
    }
  }

  lemma LinkParts(table: u64)
    ensures LinkEntry(table) as int == Addr(table) as int + 3
  {
    hide Addr;
  }

  lemma ThreeBits(k: nat)
    requires k < 12
    ensures Bit(3, k) == if k < 2 then 1 else 0
  {
    hide Bit;
    if k < 4 {
      LowBitsAre(3);
    } else {
      Skip4(3, k - 4);
      BitOfZero(k - 4);
    }
  }
}
