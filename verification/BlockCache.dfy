/** The write-back block cache over a table of block devices whose drivers may fail. */
module BlockCache {
  import opened Bytes

  datatype Status = Ok | Inval | Range | Io

  datatype Disk = Disk(blockSize: nat, blocks: seq<seq<byte>>)

  /** Devices stand for their addresses: a device is its index. */
  type Disks = seq<Disk>

  datatype Entry = Entry(dev: nat, lba: u64, valid: bool, dirty: bool, data: seq<byte>)

  predicate InRange(ds: Disks, dev: nat, lba: u64) {
    dev < |ds| && lba < |ds[dev].blocks|
  }

  function Stored(ds: Disks, dev: nat, lba: u64, data: seq<byte>): Disks
    requires InRange(ds, dev, lba)
  {
    ds[dev := ds[dev].(blocks := ds[dev].blocks[lba := data])]
  }

  // ----- What the cache stands for -----

  predicate Holds(e: Entry, dev: nat, lba: u64) {
    e.valid && e.dev == dev && e.lba == lba
  }

  /** The first entry from i on that holds the block; |es| if there is none. */
  function Find(es: seq<Entry>, dev: nat, lba: u64, i: nat): (r: nat)
    requires i <= |es|
    ensures i <= r <= |es| && (r < |es| ==> Holds(es[r], dev, lba))
    ensures forall k :: i <= k < r ==> !Holds(es[k], dev, lba)
    decreases |es| - i
  {
    if i == |es| || Holds(es[i], dev, lba) then i else Find(es, dev, lba, i + 1)
  }

  /** The contents of a block as a user of the cache sees it: the cached copy if there is one, else the device block. */
  function View(es: seq<Entry>, ds: Disks, dev: nat, lba: u64): Option<seq<byte>> {
    var i := Find(es, dev, lba, 0);
    if i < |es| then Some(es[i].data) else if InRange(ds, dev, lba) then Some(ds[dev].blocks[lba]) else None
  }

  ghost predicate SameView(es: seq<Entry>, ds: Disks, es': seq<Entry>, ds': Disks) {
    forall dev: nat, lba: u64 :: View(es', ds', dev, lba) == View(es, ds, dev, lba)
  }

  /** The view changes at one block only. */
  ghost predicate ViewWritten(es: seq<Entry>, ds: Disks, es': seq<Entry>, ds': Disks, dev: nat, lba: u64,
                              data: seq<byte>) {
    && View(es', ds', dev, lba) == Some(data)
    && forall d: nat, l: u64 :: (d, l) != (dev, lba) ==> View(es', ds', d, l) == View(es, ds, d, l)
  }

  // ----- The invariant -----

  /** No block is cached twice. */
  ghost predicate Unique(es: seq<Entry>) {
    forall i, j :: 0 <= i < |es| && 0 <= j < |es| && es[i].valid && Holds(es[j], es[i].dev, es[i].lba) ==> i == j
  }

  /** A valid entry holds a whole block of a device with the cache's block size, and a clean one equals the device. */
  ghost predicate EntryOk(e: Entry, ds: Disks, size: nat) {
    e.valid ==>
      && e.dev < |ds| && ds[e.dev].blockSize == size && |e.data| == size
      && (!e.dirty ==> InRange(ds, e.dev, e.lba) && ds[e.dev].blocks[e.lba] == e.data)
  }

  ghost predicate DisksOk(ds: Disks) {
    forall d, l :: 0 <= d < |ds| && 0 <= l < |ds[d].blocks| ==> |ds[d].blocks[l]| == ds[d].blockSize
  }

  ghost predicate Sound(es: seq<Entry>, ds: Disks, size: nat) {
    Unique(es) && DisksOk(ds) && forall i :: 0 <= i < |es| ==> EntryOk(es[i], ds, size)
  }

  /** The shape of the device table never changes. */
  ghost predicate SameShape(ds: Disks, ds': Disks) {
    |ds'| == |ds| && forall d :: 0 <= d < |ds| ==>
      ds'[d].blockSize == ds[d].blockSize && |ds'[d].blocks| == |ds[d].blocks|
  }

  lemma FindIs(es: seq<Entry>, i: nat)
    requires Unique(es) && i < |es| && es[i].valid
    ensures Find(es, es[i].dev, es[i].lba, 0) == i
  {
  }

  /** Replacing an entry that is clean or invalid by one for a block cached nowhere else. */
  lemma Replace(es: seq<Entry>, ds: Disks, size: nat, i: nat, e: Entry)
    requires Sound(es, ds, size) && i < |es| && !(es[i].valid && es[i].dirty)
    requires EntryOk(e, ds, size) && (e.valid ==> Find(es, e.dev, e.lba, 0) == |es|)
    ensures Sound(es[i := e], ds, size)
    ensures forall d: nat, l: u64 :: !Holds(e, d, l) ==> View(es[i := e], ds, d, l) == View(es, ds, d, l)
    ensures e.valid ==> View(es[i := e], ds, e.dev, e.lba) == Some(e.data)
  {
    var es' := es[i := e];
    assert Unique(es');
    forall d: nat, l: u64 | !Holds(e, d, l) ensures View(es', ds, d, l) == View(es, ds, d, l) {
      ReplaceView(es, ds, size, i, e, d, l);
    }
    if e.valid {
      FindIs(es', i);
    }
  }

  lemma ReplaceView(es: seq<Entry>, ds: Disks, size: nat, i: nat, e: Entry, d: nat, l: u64)
    requires Sound(es, ds, size) && i < |es| && Unique(es[i := e]) && !(es[i].valid && es[i].dirty) && !Holds(e, d, l)
    ensures View(es[i := e], ds, d, l) == View(es, ds, d, l)
  {
    var es' := es[i := e];
    var j := Find(es, d, l, 0);
    if j == |es| {
      assert Find(es', d, l, 0) == |es'|;
    } else if j == i {
      assert forall k :: 0 <= k < |es| && k != i ==> !Holds(es[k], d, l);
      assert Find(es', d, l, 0) == |es'|;
    } else {
      assert Holds(es'[j], d, l);
      FindIs(es', j);
    }
  }

  /** Writing a dirty entry back makes it clean and changes no view. */
  lemma WriteBack(es: seq<Entry>, ds: Disks, size: nat, i: nat)
    requires Sound(es, ds, size) && i < |es| && es[i].valid && es[i].dirty && InRange(ds, es[i].dev, es[i].lba)
    ensures var ds' := Stored(ds, es[i].dev, es[i].lba, es[i].data);
            Sound(es[i := es[i].(dirty := false)], ds', size) && SameView(es, ds, es[i := es[i].(dirty := false)], ds')
            && SameShape(ds, ds')
  {
    var e := es[i];
    TornWrite(es, ds, size, i, e.data);
    var ds', es' := Stored(ds, e.dev, e.lba, e.data), es[i := e.(dirty := false)];
    forall d: nat, l: u64 ensures View(es', ds', d, l) == View(es, ds', d, l) {
      var j := Find(es, d, l, 0);
      if j < |es| {
        FindIs(es', j);
      } else {
        assert Find(es', d, l, 0) == |es'|;
      }
    }
  }

  /** A failing write may leave anything in the device block; the dirty entry still stands for it. */
  lemma TornWrite(es: seq<Entry>, ds: Disks, size: nat, i: nat, junk: seq<byte>)
    requires Sound(es, ds, size) && i < |es| && es[i].valid && es[i].dirty && InRange(ds, es[i].dev, es[i].lba)
    requires |junk| == size
    ensures var ds' := Stored(ds, es[i].dev, es[i].lba, junk);
            Sound(es, ds', size) && SameView(es, ds, es, ds') && SameShape(ds, ds')
  {
    var ds' := Stored(ds, es[i].dev, es[i].lba, junk);
    FindIs(es, i);
    assert forall d, l :: 0 <= d < |ds| && 0 <= l < |ds[d].blocks| && (d, l) != (es[i].dev, es[i].lba as int) ==>
        ds'[d].blocks[l] == ds[d].blocks[l];
    forall k | 0 <= k < |es| ensures EntryOk(es[k], ds', size) {
      if es[k].valid && es[k].dev == es[i].dev && es[k].lba == es[i].lba {
        assert k == i;
      }
    }
  }

  /** Overwriting the cached copy. */
  lemma Overwrite(es: seq<Entry>, ds: Disks, size: nat, i: nat, data: seq<byte>)
    requires Sound(es, ds, size) && i < |es| && es[i].valid && |data| == size
    ensures var es' := es[i := es[i].(data := data, dirty := true)];
            Sound(es', ds, size) && ViewWritten(es, ds, es', ds, es[i].dev, es[i].lba, data)
  {
    var es' := es[i := es[i].(data := data, dirty := true)];
    assert Unique(es');
    FindIs(es', i);
    forall d: nat, l: u64 | (d, l) != (es[i].dev, es[i].lba) ensures View(es', ds, d, l) == View(es, ds, d, l) {
      var j := Find(es, d, l, 0);
      if j < |es| {
        FindIs(es', j);
      } else {
        assert Find(es', d, l, 0) == |es'|;
      }
    }
  }

  /** With nothing dirty the devices equal the view. */
  lemma CleanMeansEqual(es: seq<Entry>, ds: Disks, size: nat, dev: nat, lba: u64)
    requires Sound(es, ds, size) && forall i :: 0 <= i < |es| ==> !(es[i].valid && es[i].dirty)
    ensures View(es, ds, dev, lba) == if InRange(ds, dev, lba) then Some(ds[dev].blocks[lba]) else None
  {
    assert Find(es, dev, lba, 0) < |es| ==> EntryOk(es[Find(es, dev, lba, 0)], ds, size);
  }

  // ----- Devices -----

  /** The block layer over the registered devices.  A driver of a faulty system may fail any transfer. */
  class Devices {
    var disks: Disks
    const faulty: bool

    constructor (ds: Disks, mayFail: bool)
      ensures disks == ds && faulty == mayFail
    {
      disks, faulty := ds, mayFail;
    }

    /** mcsos_blk_read of one block. */
    method Read(dev: nat, lba: u64) returns (st: Status, data: seq<byte>)
      requires dev < |disks|
      ensures st == Range <==> lba >= |disks[dev].blocks|
      ensures st == Ok ==> data == disks[dev].blocks[lba]
      ensures st == Ok || st == Range || (st == Io && faulty)
    {
      data := [];
      if lba >= |disks[dev].blocks| {
        return Range, data;
      }
      var fails: bool := *;
      if faulty && fails {
        return Io, data;
      }
      return Ok, disks[dev].blocks[lba];
    }

    /** mcsos_blk_write of one block; a failing transfer may leave anything in the block. */
    method Write(dev: nat, lba: u64, data: seq<byte>) returns (st: Status, ghost left: seq<byte>)
      requires dev < |disks|
      modifies this`disks
      ensures st == Range <==> lba >= |old(disks)[dev].blocks|
      ensures st == Range ==> disks == old(disks)
      ensures st != Range ==> |left| == |data| && disks == Stored(old(disks), dev, lba, left)
      ensures st == Ok ==> left == data
      ensures st == Ok || st == Range || (st == Io && faulty)
    {
      left := data;
      if lba >= |disks[dev].blocks| {
        return Range, data;
      }
      var fails: bool := *;
      if faulty && fails {
        var junk: seq<byte> := *;
        if |junk| != |data| {
          junk := data;
        }
        disks := Stored(disks, dev, lba, junk);
        return Io, junk;
      }
      disks := Stored(disks, dev, lba, data);
      return Ok, data;
    }
  }

  // ----- The cache -----

  class Cache {
    const entries: array<Entry>
    const blockSize: nat
    const devs: Devices
    var clockHand: nat

    ghost predicate Valid()
      reads this, entries, devs
    {
      entries.Length > 0 && Sound(entries[..], devs.disks, blockSize)
    }

    /** mcsos_bcache_init */
    constructor (count: nat, size: nat, devices: Devices)
      requires count > 0 && size > 0 && DisksOk(devices.disks)
      ensures Valid() && fresh(entries) && entries.Length == count && blockSize == size && devs == devices
      ensures clockHand == 0 && forall k :: 0 <= k < count ==> !entries[k].valid && !entries[k].dirty
      ensures forall dev: nat, lba: u64 ::
                View(entries[..], devs.disks, dev, lba)
                == if InRange(devices.disks, dev, lba) then Some(devices.disks[dev].blocks[lba]) else None
    {
      entries := new Entry[count](_ => Entry(0, 0, false, false, []));
      blockSize, devs, clockHand := size, devices, 0;
    }

    /** mcsos_bcache_find */
    method Lookup(dev: nat, lba: u64) returns (i: nat)
      ensures i == Find(entries[..], dev, lba, 0)
    {
      for k := 0 to entries.Length
        invariant Find(entries[..], dev, lba, 0) == Find(entries[..], dev, lba, k)
      {
        if entries[k].valid && entries[k].dev == dev && entries[k].lba == lba {
          return k;
        }
      }
      i := entries.Length;
    }

    /** mcsos_bcache_flush_entry */
    method FlushEntry(i: nat) returns (st: Status)
      requires Valid() && i < entries.Length
      modifies entries, devs`disks
      ensures Valid() && SameView(old(entries[..]), old(devs.disks), entries[..], devs.disks)
      ensures SameShape(old(devs.disks), devs.disks)
      ensures var e := old(entries[i]);
              if st == Ok then entries[..] == old(entries[..])[i := e.(dirty := e.dirty && !e.valid)]
              else entries[..] == old(entries[..])
      ensures var e := old(entries[i]);
              && (st == Range <==> e.valid && e.dirty && !InRange(old(devs.disks), e.dev, e.lba))
              && (st == Ok || st == Range || (st == Io && devs.faulty && e.valid && e.dirty))
    {
      var e := entries[i];
      if !e.valid || !e.dirty {
        assert entries[..] == entries[..][i := e.(dirty := e.dirty && !e.valid)];
        return Ok;
      }
      ghost var es, ds := entries[..], devs.disks;
      assert EntryOk(e, ds, blockSize);
      ghost var left;
      st, left := devs.Write(e.dev, e.lba, e.data);
      if st != Ok {
        if st == Io {
          TornWrite(es, ds, blockSize, i, left);
        }
        return;
      }
      WriteBack(es, ds, blockSize, i);
      entries[i] := e.(dirty := false);
      assert entries[..] == es[i := e.(dirty := false)];
    }

    /** mcsos_bcache_select_victim: an invalid entry if there is one, else the entry under the hand, written
        back first.  The hand moves on even when the write-back fails. */
    method SelectVictim() returns (st: Status, i: nat)
      requires Valid()
      modifies entries, devs`disks, this`clockHand
      ensures Valid() && SameView(old(entries[..]), old(devs.disks), entries[..], devs.disks)
      ensures SameShape(old(devs.disks), devs.disks)
      ensures SameBlocks(old(entries[..]), entries[..])
      ensures st == Ok ==> i < entries.Length && !(entries[i].valid && entries[i].dirty)
      ensures HasSpare(old(entries[..])) ==>
                && st == Ok && !entries[i].valid && entries[..] == old(entries[..]) && devs.disks == old(devs.disks)
                && FirstFrom(entries[..], old(clockHand) % entries.Length, i)
      ensures st == Ok || (st == Range && Stuck(old(entries[..]), old(devs.disks))) || (st == Io && devs.faulty)
      ensures st == Ok ==> clockHand == i + 1
      ensures (forall k :: 0 <= k < entries.Length ==> old(entries[k]).valid) ==>
                var hand := old(clockHand) % entries.Length;
                && clockHand == hand + 1
                && forall k :: 0 <= k < entries.Length && k != hand ==> entries[k] == old(entries[k])
    {
      var start := clockHand % entries.Length;
      i := FindInvalid(start);
      if i < entries.Length {
        clockHand := i + 1;
        return Ok, i;
      }
      i := start;
      clockHand := i + 1;
      st := FlushEntry(i);
    }

    /** The first pass of the victim search: from the hand once around. */
    method FindInvalid(start: nat) returns (i: nat)
      requires start < entries.Length
      ensures i < entries.Length ==> !entries[i].valid && FirstFrom(entries[..], start, i)
      ensures i >= entries.Length ==> forall k :: 0 <= k < entries.Length ==> entries[k].valid
    {
      hide Slot;
      var n := entries.Length;
      for pass := 0 to n
        invariant forall q :: 0 <= q < pass ==> entries[Slot(start, q, n)].valid
      {
        i := Slot(start, pass, n);
        if !entries[i].valid {
          assert FirstFrom(entries[..], start, i);
          return;
        }
      }
      forall k | 0 <= k < n ensures entries[k].valid {
        Reached(start, k, n);
      }
      i := n;
    }

    /** mcsos_bcache_read */
    method ReadBlock(dev: nat, lba: u64) returns (st: Status, buffer: seq<byte>)
      requires Valid() && dev < |devs.disks|
      modifies entries, devs`disks, this`clockHand
      ensures Valid() && SameView(old(entries[..]), old(devs.disks), entries[..], devs.disks)
      ensures SameShape(old(devs.disks), devs.disks)
      ensures st == Inval <==> blockSize != old(devs.disks)[dev].blockSize
      ensures st == Ok ==> View(old(entries[..]), old(devs.disks), dev, lba) == Some(buffer)
      ensures st == Range ==>
                View(old(entries[..]), old(devs.disks), dev, lba) == None || Stuck(old(entries[..]), old(devs.disks))
      ensures st == Io ==> devs.faulty
      ensures st != Inval && Find(old(entries[..]), dev, lba, 0) < entries.Length ==>
                && st == Ok && clockHand == old(clockHand)
                && entries[..] == old(entries[..]) && devs.disks == old(devs.disks)
      ensures st == Ok ==> Find(entries[..], dev, lba, 0) < entries.Length
      ensures HasSpare(old(entries[..])) ==> devs.disks == old(devs.disks)
    {
      hide Sound, Find, View, SameView, SameShape, SameBlocks, Stuck;
      ghost var es0, ds0 := entries[..], devs.disks;
      Unchanged(es0, ds0);
      buffer := [];
      if blockSize != devs.disks[dev].blockSize {
        return Inval, buffer;
      }
      var i := Lookup(dev, lba);
      ViewAt(es0, ds0, dev, lba);
      if i == entries.Length {
        st, i := SelectVictim();
        if st != Ok {
          return;
        }
        SameBlocksFind(es0, entries[..], dev, lba);
        ghost var es, ds := entries[..], devs.disks;
        ShapeAt(ds0, ds, dev, lba);
        var data;
        st, data := devs.Read(dev, lba);
        if st != Ok {
          entries[i] := entries[i].(valid := false);
          assert entries[..] == es[i := es[i].(valid := false)];
          Invalidated(es0, ds0, es, ds, blockSize, i);
          return;
        }
        entries[i] := Entry(dev, lba, true, false, data);
        assert entries[..] == es[i := Entry(dev, lba, true, false, data)];
        Inserted(es0, ds0, es, ds, blockSize, i, dev, lba);
      }
      return Ok, entries[i].data;
    }

    /** mcsos_bcache_write */
    method WriteBlock(dev: nat, lba: u64, buffer: seq<byte>) returns (st: Status)
      requires Valid() && dev < |devs.disks| && |buffer| == blockSize
      modifies entries, devs`disks, this`clockHand
      ensures Valid() && SameShape(old(devs.disks), devs.disks)
      ensures st == Inval <==> blockSize != old(devs.disks)[dev].blockSize
      ensures if st == Ok then ViewWritten(old(entries[..]), old(devs.disks), entries[..], devs.disks, dev, lba, buffer)
              else SameView(old(entries[..]), old(devs.disks), entries[..], devs.disks)
      ensures st == Range ==> Stuck(old(entries[..]), old(devs.disks))
      ensures st == Io ==> devs.faulty
      ensures st != Inval && (Find(old(entries[..]), dev, lba, 0) < entries.Length || HasSpare(old(entries[..]))) ==>
                st == Ok && devs.disks == old(devs.disks)
      ensures st == Ok ==>
                var i := Find(entries[..], dev, lba, 0);
                i < entries.Length && entries[i].dirty && entries[i].data == buffer
      ensures st == Ok && !Stuck(old(entries[..]), old(devs.disks)) ==>
                (Stuck(entries[..], devs.disks) <==> !InRange(devs.disks, dev, lba))
    {
      hide Sound, Find, View, SameView, SameShape, SameBlocks, Stuck, ViewWritten;
      ghost var es0, ds0 := entries[..], devs.disks;
      Unchanged(es0, ds0);
      if blockSize != devs.disks[dev].blockSize {
        return Inval;
      }
      var i := Lookup(dev, lba);
      if i == entries.Length {
        st, i := SelectVictim();
        if st != Ok {
          return;
        }
        SameBlocksFind(es0, entries[..], dev, lba);
        ghost var es, ds := entries[..], devs.disks;
        ShapeAt(ds0, ds, dev, lba);
        entries[i] := entries[i].(dev := dev, lba := lba, valid := true, dirty := true, data := buffer);
        assert entries[..] == es[i := Entry(dev, lba, true, true, buffer)];
        Claimed(es0, ds0, es, ds, blockSize, i, dev, lba, buffer);
      } else {
        entries[i] := entries[i].(data := buffer, dirty := true);
        assert entries[..] == es0[i := es0[i].(data := buffer, dirty := true)];
        Overwritten(es0, ds0, blockSize, i, dev, lba, buffer);
      }
      st := Ok;
    }

    /** mcsos_bcache_flush_all */
    method FlushAll() returns (st: Status)
      requires Valid()
      modifies entries, devs`disks
      ensures Valid() && SameView(old(entries[..]), old(devs.disks), entries[..], devs.disks)
      ensures SameShape(old(devs.disks), devs.disks)
      ensures st == Ok ==> forall dev: nat, lba: u64 ::
                View(entries[..], devs.disks, dev, lba)
                == if InRange(devs.disks, dev, lba) then Some(devs.disks[dev].blocks[lba]) else None
      ensures Stuck(old(entries[..]), old(devs.disks)) ==> st != Ok
      ensures !Stuck(old(entries[..]), old(devs.disks)) && !devs.faulty ==> st == Ok
    {
      ghost var es0, ds0 := entries[..], devs.disks;
      for i := 0 to entries.Length
        invariant Valid() && SameView(es0, ds0, entries[..], devs.disks) && SameShape(ds0, devs.disks)
        invariant forall k :: 0 <= k < i ==> !(entries[k].valid && entries[k].dirty)
        invariant forall k :: i <= k < entries.Length ==> entries[k] == es0[k]
        invariant forall k :: 0 <= k < i ==> !(es0[k].valid && es0[k].dirty && !InRange(ds0, es0[k].dev, es0[k].lba))
      {
        st := FlushEntry(i);
        if st != Ok {
          return;
        }
      }
      forall dev: nat, lba: u64 ensures View(entries[..], devs.disks, dev, lba)
            == if InRange(devs.disks, dev, lba) then Some(devs.disks[dev].blocks[lba]) else None
      {
        CleanMeansEqual(entries[..], devs.disks, blockSize, dev, lba);
      }
      st := Ok;
    }
  }

  /** A dirty entry lies beyond the end of its device: it can never be written back. */
  ghost predicate Stuck(es: seq<Entry>, ds: Disks) {
    exists i :: 0 <= i < |es| && es[i].valid && es[i].dirty && !InRange(ds, es[i].dev, es[i].lba)
  }

  /** Some entry is not in use. */
  ghost predicate HasSpare(es: seq<Entry>) {
    exists k :: 0 <= k < |es| && !es[k].valid
  }

  /** The entries hold the same blocks as before. */
  ghost predicate SameBlocks(es: seq<Entry>, es': seq<Entry>) {
    |es'| == |es| && forall k :: 0 <= k < |es| ==> es'[k] == es[k].(dirty := es'[k].dirty)
  }

  lemma SameBlocksFind(es: seq<Entry>, es': seq<Entry>, dev: nat, lba: u64)
    requires SameBlocks(es, es') && Find(es, dev, lba, 0) == |es|
    ensures Find(es', dev, lba, 0) == |es'|
  {
  }

  lemma Unchanged(es: seq<Entry>, ds: Disks)
    ensures SameView(es, ds, es, ds) && SameShape(ds, ds)
  {
  }

  lemma ViewAt(es: seq<Entry>, ds: Disks, dev: nat, lba: u64)
    ensures var i := Find(es, dev, lba, 0);
            View(es, ds, dev, lba) ==
              if i < |es| then Some(es[i].data) else if InRange(ds, dev, lba) then Some(ds[dev].blocks[lba]) else None
  {
  }

  lemma ShapeAt(ds: Disks, ds': Disks, dev: nat, lba: u64)
    requires SameShape(ds, ds') && dev < |ds|
    ensures dev < |ds'| && ds'[dev].blockSize == ds[dev].blockSize
    ensures InRange(ds', dev, lba) <==> InRange(ds, dev, lba)
  {
  }

  /** Dropping the victim when the device read fails. */
  lemma Invalidated(es0: seq<Entry>, ds0: Disks, es: seq<Entry>, ds: Disks, size: nat, i: nat)
    requires Sound(es, ds, size) && i < |es| && !(es[i].valid && es[i].dirty) && SameView(es0, ds0, es, ds)
    ensures Sound(es[i := es[i].(valid := false)], ds, size)
    ensures SameView(es0, ds0, es[i := es[i].(valid := false)], ds)
  {
    hide Sound, View;
    Replace(es, ds, size, i, es[i].(valid := false));
  }

  /** The victim now holds the block as the device has it. */
  lemma Inserted(es0: seq<Entry>, ds0: Disks, es: seq<Entry>, ds: Disks, size: nat, i: nat, dev: nat, lba: u64)
    requires Sound(es, ds, size) && i < |es| && !(es[i].valid && es[i].dirty) && SameView(es0, ds0, es, ds)
    requires Find(es, dev, lba, 0) == |es| && InRange(ds, dev, lba) && ds[dev].blockSize == size
    ensures var data := ds[dev].blocks[lba];
            var es' := es[i := Entry(dev, lba, true, false, data)];
            && Sound(es', ds, size) && SameView(es0, ds0, es', ds) && Find(es', dev, lba, 0) == i
            && View(es0, ds0, dev, lba) == Some(data)
  {
    hide Unique, View, Find;
    var data := ds[dev].blocks[lba];
    var e := Entry(dev, lba, true, false, data);
    ViewAt(es, ds, dev, lba);
    hide DisksOk;
    Replace(es, ds, size, i, e);
    FindIs(es[i := e], i);
  }

  /** The victim now holds a new, dirty copy of the block. */
  lemma Claimed(es0: seq<Entry>, ds0: Disks, es: seq<Entry>, ds: Disks, size: nat, i: nat, dev: nat, lba: u64,
                data: seq<byte>)
    requires Sound(es, ds, size) && i < |es| && !(es[i].valid && es[i].dirty) && SameView(es0, ds0, es, ds)
    requires Find(es, dev, lba, 0) == |es| && dev < |ds| && ds[dev].blockSize == size == |data|
    requires SameShape(ds0, ds) && SameBlocks(es0, es) && Sound(es0, ds0, size)
    ensures var es' := es[i := Entry(dev, lba, true, true, data)];
            && Sound(es', ds, size) && ViewWritten(es0, ds0, es', ds, dev, lba, data) && Find(es', dev, lba, 0) == i
            && (!Stuck(es0, ds0) ==> (Stuck(es', ds) <==> !InRange(ds, dev, lba)))
  {
    hide Unique, View, Find, DisksOk, Stuck;
    var e := Entry(dev, lba, true, true, data);
    Replace(es, ds, size, i, e);
    FindIs(es[i := e], i);
    if !Stuck(es0, ds0) {
      StuckAfter(es0, ds0, es, ds, size, i, e);
    }
  }

  /** A clean entry lies within its device, so only the new one can be stuck. */
  lemma StuckAfter(es0: seq<Entry>, ds0: Disks, es: seq<Entry>, ds: Disks, size: nat, i: nat, e: Entry)
    requires Sound(es0, ds0, size) && SameShape(ds0, ds) && SameBlocks(es0, es) && i < |es| && e.valid && e.dirty
    requires !Stuck(es0, ds0)
    ensures Stuck(es[i := e], ds) <==> !InRange(ds, e.dev, e.lba)
  {
    hide Unique, DisksOk;
    assert es[i := e][i] == e;
    forall k | 0 <= k < |es| && es[k].valid ensures InRange(ds, es[k].dev, es[k].lba) {
      assert EntryOk(es0[k], ds0, size);
    }
  }

  /** The cached copy is replaced and dirty. */
  lemma Overwritten(es: seq<Entry>, ds: Disks, size: nat, i: nat, dev: nat, lba: u64, data: seq<byte>)
    requires Sound(es, ds, size) && i == Find(es, dev, lba, 0) < |es| && |data| == size
    ensures var es' := es[i := es[i].(data := data, dirty := true)];
            && Sound(es', ds, size) && ViewWritten(es, ds, es', ds, dev, lba, data) && Find(es', dev, lba, 0) == i
            && (!Stuck(es, ds) ==> (Stuck(es', ds) <==> !InRange(ds, dev, lba)))
  {
    hide Unique, View, Find, DisksOk, Stuck;
    Overwrite(es, ds, size, i, data);
    FindIs(es[i := es[i].(data := data, dirty := true)], i);
    if !Stuck(es, ds) {
      StuckAfter(es, ds, es, ds, size, i, es[i].(data := data, dirty := true));
    }
  }

  function Slot(start: nat, pass: nat, n: nat): (i: nat)
    requires n > 0
    ensures i < n
  {
    (start + pass) % n
  }

  /** No unused entry comes before i on the way round from start. */
  ghost predicate FirstFrom(es: seq<Entry>, start: nat, i: nat)
    requires es != []
  {
    exists q: nat :: i == Slot(start, q, |es|) && forall p: nat :: p < q ==> es[Slot(start, p, |es|)].valid
  }

  /** The scan from the hand passes every entry. */
  lemma Reached(start: nat, k: nat, n: nat)
    requires start < n && k < n
    ensures var q := if k >= start then k - start else k + n - start; 0 <= q < n && Slot(start, q, n) == k
  {
    WrapOnce(k, n);
  }

  lemma WrapOnce(k: nat, n: nat)
    requires k < n
    ensures (k + n) % n == k && k % n == k
  {
  }
}
