/** The flash areas of an image swap (zb8_slot.c, zb8_flash.c): a run slot, a move slot that
    is the run slot shifted up by one sector, an upgrade slot, and the command log. */
module ZbFlash {
  import opened FlashBytes
  import opened ZbCtr

  type Sector = seq<byte>

  /** The step part (cmd2) and the sector part (cmd3) of a command. */
  datatype Step = Empty | Run2Mov | Upg2Run | Mov2Upg | Finalise | SwpEnd
  datatype Cmd = Cmd(step: Step, sector: nat)

  /** A log slot: erased, a complete command, or the remains of an interrupted write. */
  datatype LogSlot = Blank | Good(cmd: Cmd) | Torn

  /** All flash: the sectors the run and move slots share, the upgrade slot, the log. */
  datatype Chip = Chip(phys: seq<Sector>, upg: seq<Sector>, log: seq<LogSlot>)

  /** Where a slot's sector is found. */
  datatype Place = Phys(i: nat) | Upg(j: nat)

  datatype Slot = Run | Move | Upgrade

  /** Sector size, sectors per slot, and whether the upgrade slot is the move slot. */
  datatype Layout = Layout(size: nat, count: nat, inPlace: bool) {
    ghost predicate Valid() {
      size > 0 && size % BLOCK == 0 && count > 0
    }
  }

  function PlaceOf(l: Layout, slot: Slot, k: nat): Place {
    match slot
    case Run => Phys(k)
    case Move => Phys(k + 1)
    case Upgrade => if l.inPlace then Phys(k + 1) else Upg(k)
  }

  ghost predicate Shaped(l: Layout, c: Chip) {
    && |c.phys| == l.count + 1 && |c.upg| == l.count
    && (forall i :: 0 <= i < |c.phys| ==> |c.phys[i]| == l.size)
    && (forall i :: 0 <= i < |c.upg| ==> |c.upg[i]| == l.size)
  }

  predicate Has(c: Chip, p: Place) {
    match p case Phys(i) => i < |c.phys| case Upg(j) => j < |c.upg|
  }

  function At(c: Chip, p: Place): Sector
    requires Has(c, p)
  {
    match p case Phys(i) => c.phys[i] case Upg(j) => c.upg[j]
  }

  function With(c: Chip, p: Place, sec: Sector): Chip
    requires Has(c, p)
  {
    match p
    case Phys(i) => c.(phys := c.phys[i := sec])
    case Upg(j) => c.(upg := c.upg[j := sec])
  }

  /** `x` is `c` but for the sector at `p`. */
  ghost predicate DiffersAt(l: Layout, c: Chip, p: Place, x: Chip) {
    Has(c, p) && Has(x, p) && |At(x, p)| == l.size && x == With(c, p, At(x, p))
  }

  /** Every new state differs from `c` in the sector at `p` only. */
  ghost predicate OnlyAt(l: Layout, c: Chip, p: Place, before: seq<Chip>, after: seq<Chip>) {
    before <= after && forall i :: |before| <= i < |after| ==> DiffersAt(l, c, p, after[i])
  }

  lemma OnlyAtTrans(l: Layout, c: Chip, d: Chip, p: Place, t0: seq<Chip>, t1: seq<Chip>, t2: seq<Chip>)
    requires OnlyAt(l, c, p, t0, t1) && DiffersAt(l, c, p, d) && OnlyAt(l, d, p, t1, t2)
    ensures OnlyAt(l, c, p, t0, t2)
  {
    forall i | |t0| <= i < |t2| ensures DiffersAt(l, c, p, t2[i]) {
      if i < |t1| {
        assert t1[i] == t2[i];
      } else {
        DiffersTrans(l, c, d, p, t2[i]);
      }
    }
  }

  lemma DiffersTrans(l: Layout, c: Chip, d: Chip, p: Place, x: Chip)
    requires DiffersAt(l, c, p, d) && DiffersAt(l, d, p, x)
    ensures DiffersAt(l, c, p, x)
  {
  }

  // The command log

  /** Written slots first, erased ones behind them. */
  ghost predicate LogOk(log: seq<LogSlot>, used: nat) {
    && used <= |log|
    && (forall i :: 0 <= i < used ==> log[i] != Blank)
    && (forall i :: used <= i < |log| ==> log[i] == Blank)
  }

  /** The last completely written command. */
  ghost function LastCmd(log: seq<LogSlot>): LogSlot {
    if log == [] then Blank
    else match log[|log| - 1]
      case Good(cmd) => Good(cmd)
      case _ => LastCmd(log[..|log| - 1])
  }

  lemma {:induction false} LastCmdOfPrefix(log: seq<LogSlot>, n: nat)
    requires n <= |log| && forall i :: n <= i < |log| ==> !log[i].Good?
    ensures LastCmd(log) == LastCmd(log[..n])
  {
    if n < |log| {
      LastCmdOfPrefix(log[..|log| - 1], n);
      assert log[..|log| - 1][..n] == log[..n];
    } else {
      assert log[..n] == log;
    }
  }

  /** After an append the appended command is the last, after a torn append the old one
      still is; either way the log keeps its form. */
  lemma AppendCmd(log: seq<LogSlot>, used: nat, slot: LogSlot)
    requires LogOk(log, used) && used < |log|
    ensures LogOk(log[used := slot], if slot == Blank then used else used + 1)
    ensures LastCmd(log[used := slot]) == if slot.Good? then slot else LastCmd(log)
  {
    var next := log[used := slot];
    LastCmdOfPrefix(next, used + 1);
    assert next[..used + 1] == log[..used] + [slot];
    assert (log[..used] + [slot])[..used] == log[..used];
    LastCmdOfPrefix(log, used);
  }

  class Flash {
    const l: Layout
    var chip: Chip
    var trace: seq<Chip>
    /** The states that power cuts have left. */
    ghost var cuts: seq<Chip>

    ghost predicate Valid()
      reads this`chip
    {
      l.Valid() && Shaped(l, chip)
    }

    constructor (l: Layout, chip: Chip)
      requires l.Valid() && Shaped(l, chip)
      ensures Valid() && this.l == l && this.chip == chip && trace == [] && cuts == []
    {
      this.l, this.chip, trace, cuts := l, chip, [], [];
    }

    /** Power fails in state `k` of the trace. */
    method PowerCut(k: nat)
      requires l.Valid() && k < |trace| && Shaped(l, trace[k])
      modifies this
      ensures Valid() && chip == old(trace[k]) && trace == [] && cuts == old(cuts) + [chip]
    {
      chip, trace := trace[k], [];
      cuts := cuts + [chip];
    }

    /** zb_erase of one sector; beyond the slot it does nothing. An interrupted erase leaves
        anything in the sector. */
    method Erase(slot: Slot, k: nat) returns (ok: bool)
      requires Valid()
      modifies this`chip, this`trace
      ensures Valid() && ok == (k < l.count)
      ensures !ok ==> chip == old(chip) && trace == old(trace)
      ensures ok ==> Has(chip, PlaceOf(l, slot, k)) && chip == With(old(chip), PlaceOf(l, slot, k), Ones(l.size))
      ensures ok ==> OnlyAt(l, old(chip), PlaceOf(l, slot, k), old(trace), trace)
    {
      ok := k < l.count;
      if ok {
        var p := PlaceOf(l, slot, k);
        var torn: Sector := *;
        if |torn| != l.size {
          torn := At(chip, p);
        }
        var before := chip;
        chip := With(chip, p, Ones(l.size));
        trace := trace + [With(before, p, torn), chip];
      }
    }

    /** zb_write into an erased part of a sector. What an interrupted write leaves in the
        sector is arbitrary. */
    method Write(slot: Slot, k: nat, off: nat, data: seq<byte>)
      requires Valid() && k < l.count && off + |data| <= l.size
      requires var p := PlaceOf(l, slot, k);
        Has(chip, p) && forall i :: off <= i < off + |data| ==> At(chip, p)[i] == 0xff
      modifies this`chip, this`trace
      ensures Valid()
      ensures var p := PlaceOf(l, slot, k);
        && DiffersAt(l, old(chip), p, chip)
        && OnlyAt(l, old(chip), p, old(trace), trace)
        && forall i :: 0 <= i < l.size ==>
             At(chip, p)[i] == if off <= i < off + |data| then data[i - off] else At(old(chip), p)[i]
    {
      var p := PlaceOf(l, slot, k);
      var sec := At(chip, p);
      var torn: Sector := *;
      if |torn| != l.size {
        torn := sec;
      }
      var before := chip;
      chip := With(chip, p, sec[..off] + data + sec[off + |data|..]);
      trace := trace + [With(before, p, torn), chip];
    }

    /** zb_read of part of a sector. */
    method Read(slot: Slot, k: nat, off: nat, len: nat) returns (data: seq<byte>)
      requires Valid() && k < l.count && off + len <= l.size
      ensures Has(chip, PlaceOf(l, slot, k))
      ensures data == At(chip, PlaceOf(l, slot, k))[off..off + len]
    {
      data := At(chip, PlaceOf(l, slot, k))[off..off + len];
    }

    /** zb_erase of the whole log. */
    method EraseLog()
      requires Valid()
      modifies this`chip, this`trace
      ensures Valid() && |chip.log| == |old(chip).log| && LogOk(chip.log, 0)
      ensures chip == old(chip).(log := chip.log) && trace == old(trace) + [chip]
    {
      chip := chip.(log := seq(|chip.log|, _ => Blank));
      trace := trace + [chip];
    }

    /** zb_cmd_read: the last complete command, by a scan up to the first erased slot. */
    method CmdRead(ghost used: nat) returns (r: LogSlot)
      requires LogOk(chip.log, used)
      ensures r == LastCmd(chip.log) && r != Torn
    {
      r := Blank;
      var i := 0;
      assert chip.log[..0] == [];
      while i < |chip.log|
        invariant i <= used && r == LastCmd(chip.log[..i]) && r != Torn
      {
        if chip.log[i] == Blank {
          LastCmdOfPrefix(chip.log, i);
          return;
        }
        assert chip.log[..i + 1][..i] == chip.log[..i];
        if chip.log[i].Good? {
          r := chip.log[i];
        }
        i := i + 1;
      }
      assert chip.log[..i] == chip.log;
    }

    /** zb_cmd_write: appends at the first erased slot; `ok` is false when there is none. */
    method CmdWrite(cmd: Cmd, ghost used: nat) returns (ok: bool, ghost torn: LogSlot)
      requires Valid() && LogOk(chip.log, used)
      modifies this`chip, this`trace
      ensures Valid() && ok == (used < |old(chip).log|)
      ensures !ok ==> chip == old(chip) && trace == old(trace)
      ensures ok ==> chip == old(chip).(log := old(chip).log[used := Good(cmd)])
      ensures !torn.Good?
      ensures ok ==> trace == old(trace) + [old(chip).(log := old(chip).log[used := torn]), chip]
    {
      var i := 0;
      while i < |chip.log| && chip.log[i] != Blank
        invariant i <= used
      {
        i := i + 1;
      }
      if i >= |chip.log| {
        return false, Torn;
      }
      var partial: LogSlot := *;
      if partial.Good? {
        partial := Torn;
      }
      torn := partial;
      var before := chip;
      chip := chip.(log := chip.log[i := Good(cmd)]);
      trace := trace + [before.(log := before.log[i := partial]), chip];
      ok := true;
    }
  }
}
