/** The journal's checksum: 32-bit FNV-1a over a buffer. */
module Checksum {
  import opened Bytes

  const FNV_BASIS: u32 := 2166136261
  const FNV_PRIME: int := 16777619

  function XorByte(a: byte, b: byte): byte {
    XorBv(a as bv8, b as bv8) as int
  }

  /** h ^= b, which touches only the low byte of h. */
  function Mix(h: u32, b: byte): (r: u32)
  {
    (h as int) - (h as int) % 0x100 + XorByte((h as int) % 0x100, b)
  }

  /** h *= 16777619 on a 32-bit word. */
  function Scale(h: u32): u32 {
    (h as int) * FNV_PRIME % WORD32
  }

  function Round(h: u32, b: byte): u32 {
    Scale(Mix(h, b))
  }

  function Fnv(s: seq<byte>): u32
    decreases |s|
  {
    if s == [] then FNV_BASIS else Round(Fnv(s[..|s| - 1]), s[|s| - 1])
  }

  /** m16_checksum. */
  method ComputeFnv(s: seq<byte>) returns (h: u32)
    ensures h == Fnv(s)
  {
    h := FNV_BASIS;
    for i := 0 to |s|
      invariant h == Fnv(s[..i])
    {
      assert s[..i + 1][..i] == s[..i];
      h := Round(h, s[i]);
    }
    assert s[..|s|] == s;
  }

  // ----- One round is a bijection of the running hash and of the byte -----

  function XorBv(x: bv8, y: bv8): bv8 {
    x ^ y
  }

  lemma XorBvCancels(x: bv8, y: bv8)
    ensures XorBv(XorBv(x, y), y) == x && XorBv(XorBv(x, y), x) == y
  {
  }

  lemma XorByteCancels(a: byte, b: byte)
    ensures XorByte(XorByte(a, b), b) == a && XorByte(XorByte(a, b), a) == b
  {
    XorBvCancels(a as bv8, b as bv8);
    BvRoundTrip(XorBv(a as bv8, b as bv8));
    ByteRoundTrip(a);
    ByteRoundTrip(b);
  }

  lemma ReplaceLowByte(h: u32, x: byte)
    ensures var m := (h as int) - (h as int) % 0x100 + x;
            0 <= m < WORD32 && m % 0x100 == x && m / 0x100 == (h as int) / 0x100
  {
  }

  lemma LowByte(h: u32, b: byte)
    ensures (Mix(h, b) as int) % 0x100 == XorByte((h as int) % 0x100, b)
    ensures (Mix(h, b) as int) / 0x100 == (h as int) / 0x100
  {
    ReplaceLowByte(h, XorByte((h as int) % 0x100, b));
  }

  lemma MixInjective(h1: u32, h2: u32, b: byte)
    requires Mix(h1, b) == Mix(h2, b)
    ensures h1 == h2
  {
    LowByte(h1, b);
    LowByte(h2, b);
    XorByteCancels((h1 as int) % 0x100, b);
    XorByteCancels((h2 as int) % 0x100, b);
  }

  lemma MixSeparates(h: u32, b1: byte, b2: byte)
    requires Mix(h, b1) == Mix(h, b2)
    ensures b1 == b2
  {
    XorByteCancels((h as int) % 0x100, b1);
    XorByteCancels((h as int) % 0x100, b2);
  }

  /** The FNV prime is odd; 0x359C449B is its inverse modulo 2^32. */
  lemma ScaleInverse(h: u32)
    ensures (Scale(h) as int) * 0x359C449B % WORD32 == h
  {
    var q := (h as int) * FNV_PRIME / WORD32;
    var k := FNV_PRIME * 0x359C449B / WORD32;
    assert FNV_PRIME * 0x359C449B == k * WORD32 + 1;
    assert (Scale(h) as int) * 0x359C449B == WORD32 * (h * k - q * 0x359C449B) + h;
  }

  /** A round keeps a difference in the hash and creates one from a difference in the byte. */
  lemma RoundDiffers(h1: u32, h2: u32, b1: byte, b2: byte)
    requires (h1 != h2 && b1 == b2) || (h1 == h2 && b1 != b2)
    ensures Round(h1, b1) != Round(h2, b2)
  {
    ScaleInverse(Mix(h1, b1));
    ScaleInverse(Mix(h2, b2));
    if Mix(h1, b1) == Mix(h2, b2) {
      if b1 == b2 {
        MixInjective(h1, h2, b1);
      } else {
        MixSeparates(h1, b1, b2);
      }
    }
  }

  /** Buffers that differ in exactly one byte have different checksums. */
  lemma {:induction false} OneByteChangesFnv(s: seq<byte>, t: seq<byte>, i: nat)
    requires |s| == |t| && i < |s| && s[i] != t[i]
    requires forall j :: 0 <= j < |s| && j != i ==> s[j] == t[j]
    ensures Fnv(s) != Fnv(t)
    decreases |s|
  {
    var n := |s| - 1;
    if i == n {
      assert s[..n] == t[..n];
    } else {
      OneByteChangesFnv(s[..n], t[..n], i);
    }
    RoundDiffers(Fnv(s[..n]), Fnv(t[..n]), s[n], t[n]);
  }

  // ----- What is computed, on literal numbers -----

  /** The exclusive or of two bytes, digit by digit. */
  lemma XorDigits(a: byte, b: byte, k: nat)
    requires k < 8
    ensures Bit(XorByte(a, b), k) == (Bit(a, k) + Bit(b, k)) % 2
  {
    hide Bit;
    var x, y := a as bv8, b as bv8;
    XorBit(x, y, k);
    ByteRoundTrip(a);
    ByteRoundTrip(b);
    BvBitIs(x, k);
    BvBitIs(y, k);
    BvBitIs(XorBv(x, y), k);
  }

  lemma XorBit(x: bv8, y: bv8, k: nat)
    requires k < 8
    ensures BvBit(XorBv(x, y), k) <==> BvBit(x, k) != BvBit(y, k)
  {
  }

  /** The offset basis, and one more byte: exclusive or into the low byte, then times 16777619 modulo 2^32. */
  lemma SumSteps(s: seq<byte>, b: byte)
    ensures Fnv([]) == 0x811C_9DC5
    ensures var h: int := Fnv(s);
            Fnv(s + [b]) as int == (h - h % 0x100 + XorByte(h % 0x100, b)) * 16777619 % 0x1_0000_0000
  {
    assert (s + [b])[..|s|] == s;
  }

  lemma Xors()
    ensures XorByte(0xC5, 0x61) == 0xA4 && XorByte(0xC5, 0x66) == 0xA3 && XorByte(0x99, 0x6F) == 0xF6
    ensures XorByte(0x42, 0x6F) == 0x2D && XorByte(0xD7, 0x62) == 0xB5 && XorByte(0xEF, 0x61) == 0x8E
    ensures XorByte(0x8A, 0x72) == 0xF8
  {
  }

  /** The standard vectors of FNV-1a: "a" and "foobar". */
  lemma KnownSums()
    ensures Fnv([0x61]) == 0xE40C_292C && Fnv([0x66, 0x6F, 0x6F, 0x62, 0x61, 0x72]) == 0xBF9C_F968
  {
    hide Fnv, XorByte;
    Xors();
    SumSteps([], 0);
    var f: seq<byte> := SumIs([], 0x66, 0x811C_9DC5, 0xE30C_2799);
    var fo := SumIs(f, 0x6F, 0xE30C_2799, 0x6222_E842);
    var foo := SumIs(fo, 0x6F, 0x6222_E842, 0xA9F3_7ED7);
    var foob := SumIs(foo, 0x62, 0xA9F3_7ED7, 0x3F50_76EF);
    var fooba := SumIs(foob, 0x61, 0x3F50_76EF, 0x39AA_A18A);
    var foobar := SumIs(fooba, 0x72, 0x39AA_A18A, 0xBF9C_F968);
    var a := SumIs([], 0x61, 0x811C_9DC5, 0xE40C_292C);
    assert a == [0x61];
    assert foobar == [0x66, 0x6F, 0x6F, 0x62, 0x61, 0x72];
  }

  lemma SumIs(s: seq<byte>, b: byte, h: u32, r: u32) returns (t: seq<byte>)
    requires Fnv(s) == h
    requires (h as int - h as int % 0x100 + XorByte(h as int % 0x100, b)) * 16777619 % 0x1_0000_0000 == r as int
    ensures t == s + [b] && Fnv(t) == r
  {
    SumSteps(s, b);
    t := s + [b];
  }
}
