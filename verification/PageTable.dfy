/** Four-level page tables as pure data: entry bits, index arithmetic, the walk, and the tree that the
    table frames form.  Flag bits are read off 64-bit words with division and remainder. */
module PageTable {
  import opened Bytes

  const ENTRIES: nat := 512
  const LEVELS: nat := 4
  const PHYS_LIMIT: int := 0x10_0000_0000_0000

  type Page = p: seq<u64> | |p| == ENTRIES witness seq(ENTRIES, _ => 0)

  /** The table frames of physical memory, by physical address. */
  type Mem = map<u64, Page>

  function ZeroPage(): (p: Page)
    ensures forall k :: 0 <= k < ENTRIES ==> p[k] == 0
  {
    seq(ENTRIES, _ => 0)
  }

  // ----- Entries -----

  /** (e >> k) & 1, for p = 2^k. */
  function Flag(e: u64, p: u64): (b: int)
    requires p > 0
    ensures 0 <= b <= 1
  {
    e as int / p as int % 2
  }

  const WRITABLE: u64 := 0x2
  const USER: u64 := 0x4
  const WRITE_THROUGH: u64 := 0x8
  const CACHE_DISABLE: u64 := 0x10
  const HUGE: u64 := 0x80
  const GLOBAL: u64 := 0x100
  const NO_EXECUTE: u64 := 0x8000_0000_0000_0000

  predicate Present(e: u64) {
    e % 2 == 1
  }

  predicate IsHuge(e: u64) {
    Flag(e, HUGE) == 1
  }

  /** e & 0x000FFFFFFFFFF000 */
  function Addr(e: u64): u64 {
    e as int / PAGE * PAGE % PHYS_LIMIT
  }

  /** e & ~0x000FFFFFFFFFF000 */
  function FlagBits(e: u64): u64 {
    e as int - Addr(e) as int
  }

  /** The low five of the flags a caller may set: bits 1, 2, 3, 4 and 8. */
  function AllowedLow(flags: u64): (r: int)
    ensures 0 <= r < PAGE - 1 && r % 2 == 0
  {
    2 * Flag(flags, WRITABLE) + 4 * Flag(flags, USER) + 8 * Flag(flags, WRITE_THROUGH) + 16 * Flag(flags, CACHE_DISABLE)
    + 256 * Flag(flags, GLOBAL)
  }

  /** flags & (WRITABLE | USER | WRITE_THROUGH | CACHE_DISABLE | GLOBAL | NO_EXECUTE) */
  function Allowed(flags: u64): (r: u64)
  {
    AllowedLow(flags) + 0x8000_0000_0000_0000 * Flag(flags, NO_EXECUTE)
  }

  function LinkEntry(table: u64): u64 {
    Addr(table) + 3
  }

  function LeafEntry(paddr: u64, flags: u64): u64 {
    Addr(paddr) + 1 + Allowed(flags)
  }

  predicate Aligned(a: u64) {
    a as int % PAGE == 0
  }

  lemma LinkBits(table: u64)
    requires Aligned(table) && table < PHYS_LIMIT
    ensures Present(LinkEntry(table)) && !IsHuge(LinkEntry(table)) && Addr(LinkEntry(table)) == table
  {
    DropLow(table as int, 3);
    LowBits(table as int / PAGE, 3);
  }

  lemma LowBits(q: int, lo: int)
    requires 0 <= lo < 128
    ensures (q * PAGE + lo) / 128 % 2 == 0
  {
    var k := 32 * q;
    assert q * PAGE + lo == 128 * k + lo;
    Quotient(k, lo);
    EvenPlus(16 * q, 0);
  }

  lemma Quotient(k: int, lo: int)
    requires 0 <= lo < 128
    ensures (128 * k + lo) / 128 == k
  {
  }

  /** The mapped frame comes back exactly when it lies below 2^52; higher address bits are dropped. */
  lemma LeafBits(paddr: u64, flags: u64)
    requires Aligned(paddr)
    ensures var e := LeafEntry(paddr, flags);
            Present(e) && FlagBits(e) == 1 + Allowed(flags) && Addr(e) == paddr as int % PHYS_LIMIT
    ensures Addr(LeafEntry(paddr, flags)) == paddr <==> paddr < PHYS_LIMIT
  {
    hide Flag, AllowedLow;
    var a, lo, hi := Addr(paddr), 1 + AllowedLow(flags), Flag(flags, NO_EXECUTE);
    LeafSplit(a, lo, hi);
    AlignedAddr(paddr);
    var e := LeafEntry(paddr, flags);
    assert e == a + lo + 0x8000_0000_0000_0000 * hi;
    assert Addr(e) == a && Present(e);
    hide Addr, Present;
  }

  lemma AlignedAddr(a: u64)
    requires Aligned(a)
    ensures Addr(a) == a as int % PHYS_LIMIT && Aligned(Addr(a)) && (Addr(a) == a <==> a < PHYS_LIMIT)
  {
  }

  lemma LeafSplit(a: int, lo: int, hi: int)
    requires 0 <= a < PHYS_LIMIT && a % PAGE == 0 && 0 <= lo < PAGE && 0 <= hi <= 1
    ensures (a + lo + 0x8000_0000_0000_0000 * hi) / PAGE * PAGE % PHYS_LIMIT == a
    ensures (a + lo + 0x8000_0000_0000_0000 * hi) % 2 == lo % 2
  {
    if hi == 0 {
      DropLow(a, lo);
    } else {
      TopBit(a);
      DropLow(a + 0x8000_0000_0000_0000, lo);
    }
  }

  lemma DropLow(x: int, lo: int)
    requires x % PAGE == 0 && 0 <= lo < PAGE
    ensures (x + lo) / PAGE * PAGE == x && (x + lo) % 2 == lo % 2
  {
    var q := x / PAGE;
    assert x == PAGE * q;
    PageQuotient(q, lo);
    EvenPlus(2048 * q, lo);
  }

  lemma PageQuotient(q: int, lo: int)
    requires 0 <= lo < PAGE
    ensures (PAGE * q + lo) / PAGE == q
  {
  }

  lemma EvenPlus(m: int, lo: int)
    ensures (2 * m + lo) % 2 == lo % 2
  {
  }

  /** Bit 63 is above the address mask and leaves the alignment alone. */
  lemma TopBit(a: int)
    requires 0 <= a < PHYS_LIMIT && a % PAGE == 0
    ensures (a + 0x8000_0000_0000_0000) % PHYS_LIMIT == a && (a + 0x8000_0000_0000_0000) % PAGE == 0
  {
    assert a + 0x8000_0000_0000_0000 == a + 0x800 * PHYS_LIMIT;
    assert 0x8000_0000_0000_0000 == 0x8_0000_0000_0000 * PAGE;
  }

  // ----- Virtual addresses -----

  predicate Canonical(v: u64) {
    if v as int / 0x8000_0000_0000 % 2 == 1 then v as int / 0x1_0000_0000_0000 == 0xFFFF
    else v as int / 0x1_0000_0000_0000 == 0
  }

  /** The index into the table of each level: bits 39.., 30.., 21.. and 12.. */
  function Index(v: u64, level: nat): (i: nat)
    requires level < LEVELS
    ensures i < ENTRIES
  {
    if level == 0 then v as int / 0x80_0000_0000 % 512
    else if level == 1 then v as int / 0x4000_0000 % 512
    else if level == 2 then v as int / 0x20_0000 % 512
    else v as int / 0x1000 % 512
  }

  predicate PageAddress(v: u64) {
    Canonical(v) && Aligned(v)
  }

  /** The four indices of a canonical page address. */
  function Path(v: u64, n: nat): (p: seq<nat>)
    requires n <= LEVELS
    ensures |p| == n && forall k :: 0 <= k < n ==> p[k] == Index(v, k)
  {
    seq(n, k requires 0 <= k < n => Index(v, k))
  }

  lemma Digits(v: u64)
    ensures v as int == 0x1_0000_0000_0000 * (v as int / 0x1_0000_0000_0000) + 0x80_0000_0000 * Index(v, 0)
                        + 0x4000_0000 * Index(v, 1) + 0x20_0000 * Index(v, 2) + 0x1000 * Index(v, 3) + v as int % PAGE
    ensures v as int / 0x8000_0000_0000 % 2 == Index(v, 0) / 256
  {
    var a: int := v as int / 0x1000;
    var b: int := a / 512;
    var c: int := b / 512;
    var d: int := c / 512;
    Quotients(v as int);
    IndexDigits(v, a, b, c, d);
  }

  /** Dividing by 2^21, 2^30, 2^39 and 2^48 is dividing by 2^12 and then by 512 again and again. */
  lemma Quotients(v: int)
    ensures v / 0x20_0000 == v / 0x1000 / 512
    ensures v / 0x4000_0000 == v / 0x1000 / 512 / 512
    ensures v / 0x80_0000_0000 == v / 0x1000 / 512 / 512 / 512
    ensures v / 0x1_0000_0000_0000 == v / 0x1000 / 512 / 512 / 512 / 512
    ensures v / 0x8000_0000_0000 == v / 0x1000 / 512 / 512 / 512 / 256
  {
    Quotient21(v);
    Quotient30(v);
    Quotient39(v);
    Quotient47(v);
    Quotient48(v);
  }

  lemma Quotient21(v: int)
    ensures v / 0x20_0000 == v / 0x1000 / 512
  {
  }

  lemma Quotient30(v: int)
    ensures v / 0x4000_0000 == v / 0x20_0000 / 512
  {
  }

  lemma Quotient39(v: int)
    ensures v / 0x80_0000_0000 == v / 0x4000_0000 / 512
  {
  }

  lemma Quotient47(v: int)
    ensures v / 0x8000_0000_0000 == v / 0x80_0000_0000 / 256
  {
  }

  lemma Quotient48(v: int)
    ensures v / 0x1_0000_0000_0000 == v / 0x80_0000_0000 / 512
  {
  }

  lemma IndexDigits(v: u64, a: int, b: int, c: int, d: int)
    requires a == v as int / 0x1000 && b == a / 512 == v as int / 0x20_0000 && c == b / 512 == v as int / 0x4000_0000
    requires d == c / 512 == v as int / 0x80_0000_0000
    requires d / 512 == v as int / 0x1_0000_0000_0000 && d / 256 == v as int / 0x8000_0000_0000
    ensures v as int == 0x1_0000_0000_0000 * (v as int / 0x1_0000_0000_0000) + 0x80_0000_0000 * Index(v, 0)
                        + 0x4000_0000 * Index(v, 1) + 0x20_0000 * Index(v, 2) + 0x1000 * Index(v, 3) + v as int % PAGE
    ensures v as int / 0x8000_0000_0000 % 2 == Index(v, 0) / 256
  {
    assert v as int == 0x1000 * a + v as int % PAGE;
    assert a == 512 * b + Index(v, 3) && b == 512 * c + Index(v, 2) && c == 512 * d + Index(v, 1);
    assert d == 512 * (d / 512) + Index(v, 0);
    TopHalf(d);
  }

  lemma TopHalf(d: int)
    ensures d / 256 % 2 == d % 512 / 256
  {
  }

  /** The indices and canonical form together are injective on page addresses. */
  lemma PathInjective(v: u64, w: u64)
    requires PageAddress(v) && PageAddress(w) && Path(v, LEVELS) == Path(w, LEVELS)
    ensures v == w
  {
    Digits(v);
    Digits(w);
    forall k | 0 <= k < LEVELS ensures Index(v, k) == Index(w, k) {
      assert Path(v, LEVELS)[k] == Path(w, LEVELS)[k];
    }
  }

  /** The canonical addresses are the lowest and the highest 2^47: 0xFFFF_8000_0000_0000 and up. */
  lemma CanonicalIff(v: u64)
    ensures Canonical(v) <==> v < 0x8000_0000_0000 || v >= 0xFFFF_8000_0000_0000
  {
    var q: int := v as int / 0x8000_0000_0000;
    Halves(v as int);
    assert v as int == 0x8000_0000_0000 * q + v as int % 0x8000_0000_0000;
  }

  lemma Halves(v: int)
    ensures v / 0x1_0000_0000_0000 == v / 0x8000_0000_0000 / 2
  {
  }

  predicate Indices(p: seq<nat>) {
    |p| == LEVELS && forall k :: 0 <= k < LEVELS ==> p[k] < ENTRIES
  }

  /** The page address with these four indices: bit 47 is repeated in the sixteen bits above it. */
  function AddressOf(p: seq<nat>): (v: u64)
    requires Indices(p)
  {
    (if p[0] >= 256 then 0xFFFF_0000_0000_0000 else 0)
    + 0x80_0000_0000 * p[0] + 0x4000_0000 * p[1] + 0x20_0000 * p[2] + 0x1000 * p[3]
  }

  lemma Step512(v: int, q: int, r: int)
    requires v == 512 * q + r && 0 <= r < 512
    ensures v / 512 == q && v % 512 == r
  {
  }

  lemma StepPage(v: int, q: int)
    requires v == 0x1000 * q
    ensures v / 0x1000 == q && v % PAGE == 0
  {
  }

  lemma DigitsBack(v: int, x: int, p1: nat, p2: nat, p3: nat)
    requires p1 < 512 && p2 < 512 && p3 < 512
    requires v == 0x80_0000_0000 * x + 0x4000_0000 * p1 + 0x20_0000 * p2 + 0x1000 * p3
    ensures v % PAGE == 0 && v / 0x1000 % 512 == p3 && v / 0x20_0000 % 512 == p2 && v / 0x4000_0000 % 512 == p1
    ensures v / 0x80_0000_0000 == x
  {
    var b: int := 512 * x + p1;
    var a: int := 512 * b + p2;
    StepPage(v, 512 * a + p3);
    Step512(512 * a + p3, a, p3);
    Step512(a, b, p2);
    Step512(b, x, p1);
    Quotient21(v);
    Quotient30(v);
    Quotient39(v);
  }

  /** Page addresses and sequences of four indices are in bijection. */
  lemma PathOnto(p: seq<nat>)
    requires Indices(p)
    ensures PageAddress(AddressOf(p)) && Path(AddressOf(p), LEVELS) == p
  {
    hide Canonical;
    var v := AddressOf(p);
    var top: int := if p[0] >= 256 then 0xFFFF else 0;
    DigitsBack(v as int, 512 * top + p[0], p[1], p[2], p[3]);
    Step512(512 * top + p[0], top, p[0]);
    CanonicalIff(v);
    forall k | 0 <= k < LEVELS ensures Index(v, k) == p[k] {
    }
  }

  lemma AddressBack(v: u64)
    requires PageAddress(v)
    ensures Indices(Path(v, LEVELS)) && AddressOf(Path(v, LEVELS)) == v
  {
    assert Indices(Path(v, LEVELS));
    PathOnto(Path(v, LEVELS));
    PathInjective(v, AddressOf(Path(v, LEVELS)));
  }

  // ----- The walk -----

  /** The last-level entry for v, starting in `table` at `level`. */
  function WalkFrom(mem: Mem, table: u64, v: u64, level: nat): Option<u64>
    requires level < LEVELS
    decreases LEVELS - level
  {
    if table !in mem then None
    else
      var e := mem[table][Index(v, level)];
      if !Present(e) then None
      else if level == LEVELS - 1 then Some(e)
      else if IsHuge(e) then None
      else WalkFrom(mem, Addr(e), v, level + 1)
  }

  function Walk(mem: Mem, root: u64, v: u64): Option<u64> {
    WalkFrom(mem, root, v, 0)
  }

  // ----- The tree of table frames -----

  /** at[t] is the sequence of indices that leads from the root to table t. */
  type Places = map<u64, seq<nat>>

  /** Entry i of table t, if it is a link, leads to the table placed below it. */
  ghost predicate LinkOk(mem: Mem, at: Places, t: u64, i: nat)
    requires t in mem && t in at && i < ENTRIES
  {
    Present(mem[t][i]) ==> !IsHuge(mem[t][i]) && Addr(mem[t][i]) in at && at[Addr(mem[t][i])] == at[t] + [i]
  }

  ghost predicate Linked(mem: Mem, at: Places, t: u64, p: u64, i: nat) {
    && t in at && p in mem && p in at && i < ENTRIES
    && at[t] == at[p] + [i] && Present(mem[p][i]) && Addr(mem[p][i]) == t
  }

  ghost predicate HasParent(mem: Mem, at: Places, t: u64) {
    exists p, i :: Linked(mem, at, t, p, i)
  }

  lemma ParentOf(mem: Mem, at: Places, t: u64) returns (p: u64, i: nat)
    requires HasParent(mem, at, t)
    ensures Linked(mem, at, t, p, i)
  {
    p, i :| Linked(mem, at, t, p, i);
  }

  lemma HasParentFrom(mem: Mem, at: Places, t: u64, p: u64, i: nat)
    requires Linked(mem, at, t, p, i)
    ensures HasParent(mem, at, t)
  {
  }

  ghost predicate Bounded(at: Places) {
    forall t :: t in at ==> |at[t]| < LEVELS && Aligned(t) && 0 < t < PHYS_LIMIT
  }

  ghost predicate LinksOk(mem: Mem, at: Places)
    requires at.Keys == mem.Keys
  {
    forall t, i :: t in at && |at[t]| < LEVELS - 1 && 0 <= i < ENTRIES ==> LinkOk(mem, at, t, i)
  }

  ghost predicate Apart(at: Places) {
    forall t, u :: t in at && u in at && at[t] == at[u] ==> t == u
  }

  ghost predicate AllLinked(mem: Mem, root: u64, at: Places) {
    forall t :: t in at && t != root ==> HasParent(mem, at, t)
  }

  ghost predicate Tree(mem: Mem, root: u64, at: Places) {
    && at.Keys == mem.Keys && root in at && at[root] == []
    && Bounded(at) && LinksOk(mem, at) && Apart(at) && AllLinked(mem, root, at)
  }

  /** Every table but the root is linked from exactly one entry. */
  lemma OneParent(mem: Mem, root: u64, at: Places, t: u64, p: u64, i: nat, q: u64, j: nat)
    requires Tree(mem, root, at)
    requires p in mem && i < ENTRIES && |at[p]| < LEVELS - 1 && Present(mem[p][i]) && Addr(mem[p][i]) == t
    requires q in mem && j < ENTRIES && |at[q]| < LEVELS - 1 && Present(mem[q][j]) && Addr(mem[q][j]) == t
    ensures p == q && i == j
  {
    hide HasParent, Present, IsHuge, Addr, Aligned;
    assert LinkOk(mem, at, p, i) && LinkOk(mem, at, q, j);
    assert at[p] == at[t][..|at[t]| - 1] == at[q];
    assert at[t][|at[t]| - 1] == i == j;
  }

  /** Nothing links back to the root. */
  lemma RootHasNoParent(mem: Mem, root: u64, at: Places, p: u64, i: nat)
    requires Tree(mem, root, at) && p in mem && i < ENTRIES && |at[p]| < LEVELS - 1 && Present(mem[p][i])
    ensures Addr(mem[p][i]) != root
  {
    hide HasParent, Present, IsHuge, Addr, Aligned;
    assert LinkOk(mem, at, p, i);
  }

  // ----- Changing one entry -----

  function SetEntry(mem: Mem, t: u64, i: nat, e: u64): Mem
    requires t in mem && i < ENTRIES
  {
    mem[t := mem[t][i := e]]
  }

  /** v's walk uses entry i of table t. */
  ghost predicate Uses(at: Places, t: u64, i: nat, v: u64)
    requires t in at && |at[t]| < LEVELS
  {
    Path(v, |at[t]|) == at[t] && Index(v, |at[t]|) == i
  }

  lemma PathStep(v: u64, n: nat)
    requires n < LEVELS
    ensures Path(v, n + 1) == Path(v, n) + [Index(v, n)]
  {
    hide Index;
  }

  /** A walk that does not use the changed entry is unchanged. */
  lemma {:induction false} WalkFrame(mem: Mem, root: u64, at: Places, t: u64, i: nat, e: u64, table: u64, v: u64,
                                     level: nat)
    requires Tree(mem, root, at) && t in at && i < ENTRIES && table in at && level < LEVELS
    requires at[table] == Path(v, level)
    requires !Uses(at, t, i, v)
    ensures WalkFrom(SetEntry(mem, t, i, e), table, v, level) == WalkFrom(mem, table, v, level)
    decreases LEVELS - level
  {
    hide HasParent, Present, IsHuge, Addr, Aligned, Index, Path;
    var f := mem[table][Index(v, level)];
    assert SetEntry(mem, t, i, e)[table][Index(v, level)] == f;
    if level < LEVELS - 1 && Present(f) {
      assert LinkOk(mem, at, table, Index(v, level));
      PathStep(v, level);
      WalkFrame(mem, root, at, t, i, e, Addr(f), v, level + 1);
    }
  }

  /** A walk that uses entry i of a last-level table reads just that entry. */
  lemma {:induction false} WalkReaches(mem: Mem, root: u64, at: Places, t: u64, i: nat, table: u64, v: u64, level: nat)
    requires Tree(mem, root, at) && t in at && |at[t]| == LEVELS - 1 && i < ENTRIES && Uses(at, t, i, v)
    requires table in at && level < LEVELS && at[table] == Path(v, level)
    ensures WalkFrom(mem, table, v, level) == if Present(mem[t][i]) then Some(mem[t][i]) else None
    decreases LEVELS - level
  {
    hide HasParent, Present, IsHuge, Addr, Aligned, Index, Path;
    if level == LEVELS - 1 {
      assert table == t;
    } else {
      var below := DescendToward(mem, root, at, t, table, v, level);
      PathStep(v, level);
      WalkReaches(mem, root, at, t, i, below, v, level + 1);
    }
  }

  /** On the path to t every link is present. */
  lemma DescendToward(mem: Mem, root: u64, at: Places, t: u64, table: u64, v: u64, level: nat) returns (below: u64)
    requires Tree(mem, root, at) && t in at && |at[t]| == LEVELS - 1 && Path(v, LEVELS - 1) == at[t]
    requires table in at && level < LEVELS - 1 && at[table] == Path(v, level)
    ensures var f := mem[table][Index(v, level)];
            Present(f) && !IsHuge(f) && Addr(f) == below && below in at && at[below] == Path(v, level + 1)
  {
    hide HasParent, Present, IsHuge, Addr, Aligned;
    below := Ancestor(mem, root, at, t, level + 1);
    assert at[t][..level + 1] == Path(v, level + 1);
    assert below != root;
    var p, i := ParentOf(mem, at, below);
    PathStep(v, level);
    assert at[p] == at[below][..level] == at[table];
    assert i == at[below][level] == Index(v, level);
    assert LinkOk(mem, at, p, i);
  }

  /** The table at depth n on the way to t. */
  lemma {:induction false} Ancestor(mem: Mem, root: u64, at: Places, t: u64, n: nat) returns (a: u64)
    requires Tree(mem, root, at) && t in at && n <= |at[t]|
    ensures a in at && at[a] == at[t][..n]
    decreases |at[t]|
  {
    hide HasParent, Present, IsHuge, Addr, Aligned;
    if n == |at[t]| {
      a := t;
      assert at[t][..n] == at[t];
    } else {
      assert t != root;
      var p, i := ParentOf(mem, at, t);
      a := Ancestor(mem, root, at, p, n);
      assert at[p][..n] == at[t][..n];
    }
  }

  // ----- Leaf updates: map and unmap -----

  /** Writing a last-level entry changes exactly the page that uses it. */
  lemma LeafUpdate(mem: Mem, root: u64, at: Places, t: u64, v: u64, e: u64)
    requires Tree(mem, root, at) && PageAddress(v) && t in at && at[t] == Path(v, LEVELS - 1)
    ensures var mem' := SetEntry(mem, t, Index(v, LEVELS - 1), e);
            && Tree(mem', root, at)
            && Walk(mem', root, v) == (if Present(e) then Some(e) else None)
            && forall w :: PageAddress(w) && w != v ==> Walk(mem', root, w) == Walk(mem, root, w)
  {
    var i := Index(v, LEVELS - 1);
    var mem' := SetEntry(mem, t, i, e);
    LeafKeepsTree(mem, root, at, t, i, e);
    RootPath(v);
    WalkReaches(mem', root, at, t, i, root, v, 0);
    forall w | PageAddress(w) && w != v ensures Walk(mem', root, w) == Walk(mem, root, w) {
      RootPath(w);
      if Uses(at, t, i, w) {
        PathStep(v, LEVELS - 1);
        PathStep(w, LEVELS - 1);
        PathInjective(v, w);
      }
      WalkFrame(mem, root, at, t, i, e, root, w, 0);
    }
  }

  lemma RootPath(v: u64)
    ensures Path(v, 0) == []
  {
  }

  lemma LeafKeepsTree(mem: Mem, root: u64, at: Places, t: u64, i: nat, e: u64)
    requires Tree(mem, root, at) && t in at && |at[t]| == LEVELS - 1 && i < ENTRIES
    ensures Tree(SetEntry(mem, t, i, e), root, at)
  {
    hide HasParent, Present, IsHuge, Addr, Aligned;
    var mem' := SetEntry(mem, t, i, e);
    forall u, k | u in at && |at[u]| < LEVELS - 1 && 0 <= k < ENTRIES ensures LinkOk(mem', at, u, k) {
      assert LinkOk(mem, at, u, k);
    }
    forall u | u in at && u != root ensures HasParent(mem', at, u) {
      var p, k := ParentOf(mem, at, u);
      HasParentFrom(mem', at, u, p, k);
    }
  }

  // ----- Linking a new table -----

  function AddTable(mem: Mem, t: u64, i: nat, n: u64): Mem
    requires t in mem && i < ENTRIES
  {
    SetEntry(mem, t, i, LinkEntry(n))[n := ZeroPage()]
  }

  /** Linking a zeroed new frame into an absent entry keeps the tree and every walk. */
  lemma LinkKeeps(mem: Mem, root: u64, at: Places, t: u64, i: nat, n: u64)
    requires Tree(mem, root, at) && t in at && |at[t]| < LEVELS - 1 && i < ENTRIES && !Present(mem[t][i])
    requires n !in mem && Aligned(n) && 0 < n < PHYS_LIMIT
    ensures Tree(AddTable(mem, t, i, n), root, at[n := at[t] + [i]])
    ensures forall v :: Walk(AddTable(mem, t, i, n), root, v) == Walk(mem, root, v)
  {
    LinkKeepsTree(mem, root, at, t, i, n);
    LinkBits(n);
    assert !Present(0);
    AddTableAdds(mem, t, i, n);
    hide HasParent, Present, IsHuge, Addr, Aligned, Index, Path, LinkEntry, AddTable, LinkOk, LinksOk, Apart;
    hide AllLinked, Bounded;
    forall v ensures Walk(AddTable(mem, t, i, n), root, v) == Walk(mem, root, v) {
      RootPath(v);
      LinkKeepsWalk(mem, root, at, t, i, n, AddTable(mem, t, i, n), root, v, 0);
    }
  }

  lemma LinkKeepsTree(mem: Mem, root: u64, at: Places, t: u64, i: nat, n: u64)
    requires Tree(mem, root, at) && t in at && |at[t]| < LEVELS - 1 && i < ENTRIES && !Present(mem[t][i])
    requires n !in mem && Aligned(n) && 0 < n < PHYS_LIMIT
    ensures Tree(AddTable(mem, t, i, n), root, at[n := at[t] + [i]])
  {
    AddTableAdds(mem, t, i, n);
    AddedTree(mem, root, at, t, i, n, AddTable(mem, t, i, n), at[n := at[t] + [i]]);
  }

  lemma AddedTree(mem: Mem, root: u64, at: Places, t: u64, i: nat, n: u64, mem': Mem, at': Places)
    requires Tree(mem, root, at) && t in at && |at[t]| < LEVELS - 1 && i < ENTRIES && !Present(mem[t][i])
    requires n !in mem && Aligned(n) && 0 < n < PHYS_LIMIT && LinkAdded(mem, t, i, n, mem')
    requires at' == at[n := at[t] + [i]]
    ensures Tree(mem', root, at')
  {
    LinkBits(n);
    FreshPlace(mem, root, at, t, i);
    PlacedApart(at, n, at[t] + [i]);
    assert !Present(0);
    LinkKeepsLinks(mem, root, at, t, i, n, mem');
    LinkKeepsParents(mem, root, at, t, i, n, mem', at');
    AddedBounded(mem, t, i, n, mem', at, at');
    hide *;
    TreeFrom(mem', root, at');
  }

  lemma TreeFrom(mem: Mem, root: u64, at: Places)
    requires at.Keys == mem.Keys && root in at && at[root] == []
    requires Bounded(at) && LinksOk(mem, at) && Apart(at) && AllLinked(mem, root, at)
    ensures Tree(mem, root, at)
  {
  }

  lemma AddedBounded(mem: Mem, t: u64, i: nat, n: u64, mem': Mem, at: Places, at': Places)
    requires at.Keys == mem.Keys && t in at && |at[t]| < LEVELS - 1 && i < ENTRIES && Bounded(at)
    requires Aligned(n) && 0 < n < PHYS_LIMIT && LinkAdded(mem, t, i, n, mem') && at' == at[n := at[t] + [i]]
    ensures Bounded(at') && at'.Keys == mem'.Keys
  {
    hide Aligned, LinkEntry;
  }

  lemma PlacedApart(at: Places, n: u64, place: seq<nat>)
    requires Apart(at) && forall u :: u in at ==> at[u] != place
    ensures Apart(at[n := place])
  {
  }

  lemma AddTableAdds(mem: Mem, t: u64, i: nat, n: u64)
    requires t in mem && i < ENTRIES && n !in mem
    ensures LinkAdded(mem, t, i, n, AddTable(mem, t, i, n))
  {
    hide LinkEntry;
  }

  lemma PlaceIsLinked(mem: Mem, root: u64, at: Places, t: u64, i: nat, u: u64)
    requires Tree(mem, root, at) && t in at && i < ENTRIES && u in at && at[u] == at[t] + [i]
    ensures Present(mem[t][i])
  {
    hide HasParent, Present, IsHuge, Addr, Aligned;
    assert u != root;
    var p, k := ParentOf(mem, at, u);
    assert at[p] == at[u][..|at[u]| - 1] == at[t];
    assert k == at[u][|at[u]| - 1] == i;
  }

  /** No table sits where an absent entry would lead. */
  lemma FreshPlace(mem: Mem, root: u64, at: Places, t: u64, i: nat)
    requires Tree(mem, root, at) && t in at && |at[t]| < LEVELS - 1 && i < ENTRIES && !Present(mem[t][i])
    ensures forall u :: u in at ==> at[u] != at[t] + [i]
  {
    hide Tree, Present;
    forall u | u in at ensures at[u] != at[t] + [i] {
      if at[u] == at[t] + [i] {
        PlaceIsLinked(mem, root, at, t, i, u);
      }
    }
  }

  /** The contents of mem' entry by entry: mem with the link added and n zeroed. */
  ghost predicate LinkAdded(mem: Mem, t: u64, i: nat, n: u64, mem': Mem)
    requires t in mem && i < ENTRIES
  {
    && mem'.Keys == mem.Keys + {n}
    && forall u, k :: u in mem' && 0 <= k < ENTRIES ==>
         mem'[u][k] == if u == n then 0 else if u == t && k == i then LinkEntry(n) else mem[u][k]
  }

  lemma LinkKeepsLinks(mem: Mem, root: u64, at: Places, t: u64, i: nat, n: u64, mem': Mem)
    requires Tree(mem, root, at) && t in at && i < ENTRIES && |at[t]| < LEVELS - 1 && n !in mem
    requires LinkAdded(mem, t, i, n, mem')
    requires Present(LinkEntry(n)) && !IsHuge(LinkEntry(n)) && Addr(LinkEntry(n)) == n && !Present(0)
    ensures LinksOk(mem', at[n := at[t] + [i]])
  {
    hide HasParent, Present, IsHuge, Addr, Aligned, LinkEntry;
    var at' := at[n := at[t] + [i]];
    forall u, k | u in at' && |at'[u]| < LEVELS - 1 && 0 <= k < ENTRIES ensures LinkOk(mem', at', u, k) {
      if u != n && !(u == t && k == i) {
        assert mem'[u][k] == mem[u][k];
        assert LinkOk(mem, at, u, k);
      }
    }
  }

  lemma LinkKeepsParents(mem: Mem, root: u64, at: Places, t: u64, i: nat, n: u64, mem': Mem, at': Places)
    requires Tree(mem, root, at) && t in at && i < ENTRIES && !Present(mem[t][i]) && n !in mem
    requires LinkAdded(mem, t, i, n, mem')
    requires Present(LinkEntry(n)) && Addr(LinkEntry(n)) == n && at' == at[n := at[t] + [i]]
    ensures AllLinked(mem', root, at')
  {
    hide HasParent, Present, IsHuge, Addr, Aligned, LinkEntry, LinkOk;
    forall u | u in at' && u != root ensures HasParent(mem', at', u) {
      if u == n {
        HasParentFrom(mem', at', n, t, i);
      } else {
        var p, k := ParentOf(mem, at, u);
        assert mem'[p][k] == mem[p][k];
        HasParentFrom(mem', at', u, p, k);
      }
    }
  }

  lemma {:induction false} LinkKeepsWalk(mem: Mem, root: u64, at: Places, t: u64, i: nat, n: u64, mem': Mem,
                                         table: u64, v: u64, level: nat)
    requires Tree(mem, root, at) && t in at && |at[t]| < LEVELS - 1 && i < ENTRIES && !Present(mem[t][i])
    requires n !in mem && LinkAdded(mem, t, i, n, mem')
    requires Present(LinkEntry(n)) && !IsHuge(LinkEntry(n)) && Addr(LinkEntry(n)) == n && !Present(0)
    requires table in at && level < LEVELS && at[table] == Path(v, level)
    ensures WalkFrom(mem', table, v, level) == WalkFrom(mem, table, v, level)
    decreases LEVELS - level
  {
    hide HasParent, Present, IsHuge, Addr, Aligned, Index, Path, LinkEntry, Apart, AllLinked, Bounded;
    var k := Index(v, level);
    var f := mem[table][k];
    assert mem'[table][k] == if table == t && k == i then LinkEntry(n) else f;
    if table == t && k == i {
      assert mem'[n][Index(v, level + 1)] == 0;
      assert WalkFrom(mem', n, v, level + 1) == None;
    } else if level < LEVELS - 1 && Present(f) {
      assert LinkOk(mem, at, table, k);
      PathStep(v, level);
      LinkKeepsWalk(mem, root, at, t, i, n, mem', Addr(f), v, level + 1);
    }
  }
}
