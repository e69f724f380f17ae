/** The block device of the host tests and its power-cut model: `fail_after` counts the writes
    that still reach the medium; once it is zero every write fails and the medium stays as it is.
    A file-system operation is a list of block writes, and a crash leaves a prefix of it. */
module Disk {
  import opened Bytes

  datatype Rc = Ok | Inval | Io | NoSpc | Exists | NoEnt | Corrupt | TooLong | IsDir | Range

  type Blocks = seq<Block>

  /** power is `fail_after`: negative when fault injection is off. */
  datatype Dev = Dev(disk: Blocks, power: int)

  datatype Outcome = Outcome(dev: Dev, rc: Rc)

  datatype Write = Write(lba: u32, data: Block)

  /** One block write: range check, then the power check, then the store. */
  function Put(d: Dev, lba: u32, data: Block): (r: Outcome)
    ensures |r.dev.disk| == |d.disk|
  {
    if lba >= |d.disk| then Outcome(d, Inval)
    else if d.power == 0 then Outcome(d, Io)
    else Outcome(Dev(d.disk[lba := data], if d.power > 0 then d.power - 1 else d.power), Ok)
  }

  /** A list of writes in order, stopping at the first one that fails. */
  function Run(d: Dev, ws: seq<Write>): (r: Outcome)
    ensures |r.dev.disk| == |d.disk|
    decreases |ws|
  {
    if ws == [] then Outcome(d, Ok)
    else
      var first := Put(d, ws[0].lba, ws[0].data);
      if first.rc != Ok then first else Run(first.dev, ws[1..])
  }

  predicate InRange(ws: seq<Write>, n: nat) {
    forall i :: 0 <= i < |ws| ==> ws[i].lba < n
  }

  /** The medium after all writes of ws. */
  function Apply(disk: Blocks, ws: seq<Write>): (r: Blocks)
    requires InRange(ws, |disk|)
    ensures |r| == |disk|
    decreases |ws|
  {
    if ws == [] then disk else Apply(disk[ws[0].lba := ws[0].data], ws[1..])
  }

  /** How many of n writes a device with this power lets through. */
  function Reach(power: int, n: nat): (k: nat)
    ensures k <= n
  {
    if 0 <= power < n then power else n
  }

  /** A run is a prefix of its writes: the crash model. */
  lemma {:induction false} RunIsPrefix(d: Dev, ws: seq<Write>)
    requires InRange(ws, |d.disk|)
    ensures var k := Reach(d.power, |ws|);
            Run(d, ws) == Outcome(Dev(Apply(d.disk, ws[..k]), if d.power < 0 then d.power else d.power - k),
                                  if k == |ws| then Ok else Io)
    decreases |ws|
  {
    var k := Reach(d.power, |ws|);
    if ws != [] && d.power != 0 {
      var d' := Put(d, ws[0].lba, ws[0].data).dev;
      RunIsPrefix(d', ws[1..]);
      assert ws[1..][..k - 1] == ws[..k][1..];
    }
  }

  lemma {:induction false} RunAppend(d: Dev, us: seq<Write>, vs: seq<Write>)
    ensures var r := Run(d, us); Run(d, us + vs) == if r.rc == Ok then Run(r.dev, vs) else r
    decreases |us|
  {
    if us == [] {
      assert us + vs == vs;
    } else {
      var first := Put(d, us[0].lba, us[0].data);
      assert (us + vs)[1..] == us[1..] + vs;
      if first.rc == Ok {
        RunAppend(first.dev, us[1..], vs);
      }
    }
  }

  lemma RunSnoc(d: Dev, ws: seq<Write>, w: Write)
    ensures var r := Run(d, ws); Run(d, ws + [w]) == if r.rc == Ok then Put(r.dev, w.lba, w.data) else r
  {
    RunAppend(d, ws, [w]);
    var r := Run(d, ws);
    if r.rc == Ok {
      assert Run(r.dev, [w]) == Put(r.dev, w.lba, w.data);
    }
  }

  /** A failed prefix decides the whole run. */
  lemma RunStops(d: Dev, ws: seq<Write>, k: nat)
    requires k <= |ws| && Run(d, ws[..k]).rc != Ok
    ensures Run(d, ws) == Run(d, ws[..k])
  {
    RunAppend(d, ws[..k], ws[k..]);
    assert ws[..k] + ws[k..] == ws;
  }

  /** Extending a run that is a prefix of ws by one write, as a loop does. */
  lemma RunStep(d: Dev, ws: seq<Write>, k: nat)
    requires k < |ws| && Run(d, ws[..k]).rc == Ok
    ensures var r := Put(Run(d, ws[..k]).dev, ws[k].lba, ws[k].data);
            Run(d, ws[..k + 1]) == r && (r.rc != Ok ==> Run(d, ws) == r)
  {
    RunSnoc(d, ws[..k], ws[k]);
    assert ws[..k] + [ws[k]] == ws[..k + 1];
    if Run(d, ws[..k + 1]).rc != Ok {
      RunStops(d, ws, k + 1);
    }
  }

  lemma RunPair(d: Dev, ws: seq<Write>)
    requires |ws| == 2
    ensures var r := Put(d, ws[0].lba, ws[0].data);
            Run(d, ws) == if r.rc == Ok then Put(r.dev, ws[1].lba, ws[1].data) else r
  {
    RunSnoc(d, [ws[0]], ws[1]);
    assert [ws[0]] + [ws[1]] == ws;
    assert Run(d, [ws[0]]) == Put(d, ws[0].lba, ws[0].data);
  }

  lemma {:induction false} ApplyAppend(disk: Blocks, us: seq<Write>, vs: seq<Write>)
    requires InRange(us, |disk|) && InRange(vs, |disk|)
    ensures InRange(us + vs, |disk|)
    ensures Apply(disk, us + vs) == Apply(Apply(disk, us), vs)
    decreases |us|
  {
    if us == [] {
      assert us + vs == vs;
    } else {
      ApplyAppend(disk[us[0].lba := us[0].data], us[1..], vs);
      assert (us + vs)[1..] == us[1..] + vs;
    }
  }

  lemma {:induction false} ApplyUntouched(disk: Blocks, ws: seq<Write>, l: nat)
    requires InRange(ws, |disk|) && l < |disk|
    requires forall i :: 0 <= i < |ws| ==> ws[i].lba != l
    ensures Apply(disk, ws)[l] == disk[l]
    decreases |ws|
  {
    if ws != [] {
      ApplyUntouched(disk[ws[0].lba := ws[0].data], ws[1..], l);
    }
  }

  /** The last write to a block decides its contents. */
  lemma {:induction false} ApplyLast(disk: Blocks, ws: seq<Write>, i: nat)
    requires InRange(ws, |disk|) && i < |ws|
    requires forall j :: i < j < |ws| ==> ws[j].lba != ws[i].lba
    ensures Apply(disk, ws)[ws[i].lba] == ws[i].data
    decreases |ws|
  {
    var rest := disk[ws[0].lba := ws[0].data];
    if i == 0 {
      ApplyUntouched(rest, ws[1..], ws[0].lba);
    } else {
      ApplyLast(rest, ws[1..], i - 1);
    }
  }

  /** A block that some write of ws targets does not depend on its old contents. */
  lemma {:induction false} ApplyForgets(d1: Blocks, d2: Blocks, ws: seq<Write>, l: nat)
    requires |d1| == |d2| && InRange(ws, |d1|) && l < |d1|
    requires d1[l] == d2[l] || exists i :: 0 <= i < |ws| && ws[i].lba == l
    ensures Apply(d1, ws)[l] == Apply(d2, ws)[l]
    decreases |ws|
  {
    if ws != [] {
      var e1, e2 := d1[ws[0].lba := ws[0].data], d2[ws[0].lba := ws[0].data];
      if e1[l] != e2[l] {
        var i :| 0 <= i < |ws| && ws[i].lba == l;
        assert i > 0;
        assert ws[1..][i - 1].lba == l;
      }
      ApplyForgets(e1, e2, ws[1..], l);
    }
  }

  /** The memory-backed device. */
  class BlockDev {
    const blocks: array<Block>
    var failAfter: int
    var writes: nat

    constructor (blockCount: nat)
      ensures blocks.Length == blockCount && failAfter == -1 && writes == 0 && fresh(blocks)
      ensures forall i :: 0 <= i < blockCount ==> blocks[i] == ZERO_BLOCK
    {
      blocks := new Block[blockCount](_ => ZERO_BLOCK);
      failAfter, writes := -1, 0;
    }

    function State(): (d: Dev)
      reads this, blocks
      ensures |d.disk| == blocks.Length
    {
      Dev(blocks[..], failAfter)
    }

    method ReadBlock(lba: u32) returns (rc: Rc, data: Block)
      ensures rc == if lba < blocks.Length then Ok else Inval
      ensures rc == Ok ==> data == State().disk[lba]
    {
      if lba >= blocks.Length {
        return Inval, ZERO_BLOCK;
      }
      return Ok, blocks[lba];
    }

    method WriteBlock(lba: u32, data: Block) returns (rc: Rc)
      modifies this, blocks
      ensures Outcome(State(), rc) == old(Put(State(), lba, data))
      ensures writes == old(writes) + if rc == Ok then 1 else 0
    {
      if lba >= blocks.Length {
        return Inval;
      }
      if failAfter == 0 {
        return Io;
      }
      if failAfter > 0 {
        failAfter := failAfter - 1;
      }
      blocks[lba] := data;
      writes := writes + 1;
      rc := Ok;
    }
  }
}
