/** Flash memory as the store sees it: sectors of byte cells that can be erased as a
    whole and programmed in aligned ranges, with every state a power cut may leave. */
module SfcbFlash {
  import opened FlashBytes

  /** The two 8-byte records the store writes, see sfcb.h. */
  datatype Record =
    | Start(secId: nat)
    | Ate(id: nat, off: nat, len: nat)

  /** One byte of flash. A completely written record is eight `Rec` cells; what an
      interrupted write leaves behind is never a `Rec` cell (ideal CRC). */
  datatype Cell = Raw(b: byte) | Rec(rec: Record, part: nat)

  type Sector = seq<Cell>
  type Memory = seq<Sector>

  /** Size of a record, of a sector start and of an allocation entry. */
  const REC: nat := 8

  predicate Blank(cells: seq<Cell>) {
    forall i :: 0 <= i < |cells| ==> cells[i] == Raw(0xff)
  }

  function RecordCells(r: Record): (cells: seq<Cell>)
    ensures |cells| == REC
    ensures forall i :: 0 <= i < REC ==> cells[i] == Rec(r, i)
  {
    seq(REC, i requires 0 <= i < REC => Rec(r, i))
  }

  function RawCells(data: seq<byte>): (cells: seq<Cell>)
    ensures |cells| == |data|
    ensures forall i :: 0 <= i < |data| ==> cells[i] == Raw(data[i])
  {
    seq(|data|, i requires 0 <= i < |data| => Raw(data[i]))
  }

  function CellBytes(cells: seq<Cell>): (data: seq<byte>)
    ensures |data| == |cells|
    ensures forall i :: 0 <= i < |data| ==> data[i] == match cells[i] case Raw(b) => b case Rec(_, _) => 0
  {
    seq(|cells|, i requires 0 <= i < |cells| => match cells[i] case Raw(b) => b case Rec(_, _) => 0)
  }

  /** What reading a record yields: a valid one, erased flash, or a CRC mismatch. */
  datatype Reading = Good(rec: Record) | Empty | Bad

  function ReadRecord(sec: Sector, off: nat): Reading
    requires off + REC <= |sec|
  {
    var cells := sec[off..off + REC];
    if Blank(cells) then Empty
    else if cells[0].Rec? && cells == RecordCells(cells[0].rec) then Good(cells[0].rec)
    else Bad
  }

  function Splice(sec: Sector, off: nat, cells: seq<Cell>): (r: Sector)
    requires off + |cells| <= |sec|
    ensures |r| == |sec|
    ensures forall i :: 0 <= i < |sec| ==> r[i] == if off <= i < off + |cells| then cells[i - off] else sec[i]
  {
    sec[..off] + cells + sec[off + |cells|..]
  }

  function Erased(size: nat): (r: Sector)
    ensures |r| == size && Blank(r)
  {
    seq(size, _ => Raw(0xff))
  }

  /** `after` may be found when a program of `before[off..off + len]` is cut short. */
  predicate Torn(before: Sector, after: Sector, off: nat, len: nat) {
    && |after| == |before|
    && forall i :: 0 <= i < |before| ==>
         if off <= i < off + len then after[i].Raw? else after[i] == before[i]
  }

  type Wbs = w: nat | w == 1 || w == 2 || w == 4 || w == 8 witness 8

  /** Multiples of the write block size. */
  predicate Aligned(w: Wbs, x: nat) {
    if w == 1 then true
    else if w == 2 then x % 2 == 0
    else if w == 4 then x % 4 == 0
    else x % 8 == 0
  }

  /** Write block size, sector size and sector count; see Kconfig and sfcb_config_init. */
  datatype Geometry = Geometry(wbs: Wbs, size: nat, count: nat) {
    ghost predicate Valid() {
      && 1024 <= size < 0x1_0000 && size % REC == 0
      && 2 <= count <= 0x8000
    }
  }

  ghost predicate Shaped(g: Geometry, m: Memory) {
    |m| == g.count && forall s :: 0 <= s < |m| ==> |m[s]| == g.size
  }

  /** Power failed in state `at` of the states passed until then. */
  datatype Failure = Failure(trace: seq<Memory>, at: nat)

  /** The flash driver. `trace` lists every state the flash went through, or might have
      been left in by a power cut. */
  class Device {
    const g: Geometry
    var mem: Memory
    var trace: seq<Memory>
    /** The power failures so far. */
    ghost var cuts: seq<Failure>

    ghost predicate Valid()
      reads this
    {
      g.Valid() && Shaped(g, mem) && (trace == [] || trace[|trace| - 1] == mem)
    }

    constructor (g: Geometry)
      requires g.Valid()
      ensures Valid() && this.g == g
      ensures forall s :: 0 <= s < g.count ==> Blank(mem[s])
    {
      this.g := g;
      mem := seq(g.count, _ => Erased(g.size));
      trace, cuts := [], [];
    }

    /** flash_write: only erased flash may be programmed, in whole write blocks. */
    method Program(s: nat, off: nat, cells: seq<Cell>) returns (ghost torn: Sector)
      requires Valid()
      requires s < g.count && off + |cells| <= g.size
      requires Aligned(g.wbs, off) && Aligned(g.wbs, |cells|)
      requires Blank(mem[s][off..off + |cells|])
      modifies this`mem, this`trace
      ensures Valid()
      ensures Torn(old(mem)[s], torn, off, |cells|)
      ensures mem == old(mem)[s := Splice(old(mem)[s], off, cells)]
      ensures trace == old(trace) + [old(mem)[s := torn], mem]
    {
      var partial: Sector := *;
      if !Torn(mem[s], partial, off, |cells|) {
        partial := Splice(mem[s], off, RawCells(seq(|cells|, _ => 0xff)));
      }
      torn := partial;
      var before := mem;
      mem := mem[s := Splice(mem[s], off, cells)];
      trace := trace + [before[s := partial], mem];
    }

    /** flash_erase of one sector. */
    method Erase(s: nat)
      requires Valid() && s < g.count
      modifies this`mem, this`trace
      ensures Valid()
      ensures mem == old(mem)[s := Erased(g.size)]
      ensures trace == old(trace) + [mem]
    {
      mem := mem[s := Erased(g.size)];
      trace := trace + [mem];
    }

    /** Starts a new trace. */
    method Forget()
      modifies this`trace
      ensures trace == []
    {
      trace := [];
    }

    /** Power fails in state `k` of the trace and comes back. */
    method PowerCut(k: nat)
      requires k < |trace| && Shaped(g, trace[k]) && g.Valid()
      modifies this
      ensures Valid() && mem == old(trace[k])
      ensures trace == [] && cuts == old(cuts) + [Failure(old(trace), k)]
    {
      cuts := cuts + [Failure(trace, k)];
      mem := trace[k];
      trace := [];
    }
  }
}
