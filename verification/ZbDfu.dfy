/** Receiving an image: the control point and packet state machine of nrf_dfu.c, feeding the
    block-buffered slot writer of zb8_dfu.c. */
module ZbDfu {
  import opened FlashBytes

  const U32: nat := 0x1_0000_0000
  /** sizeof(struct zb_fsl_hdr) */
  const HEADER: nat := 32
  /** sizeof(struct dfu_start_data) */
  const START_LEN: nat := 12

  datatype State = Idle | Bootloader | WaitStartPkt | Started | WaitInitPkt | Recv | RecvDone | Validate

  datatype Opcode = OpStart | OpInit | OpRecvImg | OpValidateImg | OpActivateImg | OpPktNotifReq | OpOther

  /** An upgrade slot: its place in flash, and its size and sector size. */
  datatype Area = Area(offset: nat, size: nat, sector: nat)

  /** The packet contents that decide something, as the code extracts them. */
  datatype Formats = Formats(
    magicOk: seq<byte> -> bool,       // FSL_MAGIC in an image header
    uploadOffset: seq<byte> -> nat,   // where the header wants the image
    startLen: seq<byte> -> nat,       // application_len of a start packet
    initOk: seq<byte> -> bool)        // init packet long enough, device matches

  /** Arithmetic on u32_t. */
  function Wrap(x: int): (r: nat)
    ensures r < U32
  {
    x % U32
  }

  /** An event at the service: a write to the control point or a packet. */
  datatype Event = ControlWrite(op: Opcode, len: nat) | PacketWrite(pkt: seq<byte>)

  /** The state machine of the service: `t` may follow `s`. Of the packets with image data only
      the last one leads to RecvDone. */
  ghost predicate Follows(f: Formats, s: State, ev: Event, t: State) {
    match ev
    case ControlWrite(OpStart, len) => t == if len == 2 then WaitStartPkt else s
    case ControlWrite(OpInit, _) => t == if s == Started then WaitInitPkt else Idle
    case ControlWrite(OpRecvImg, _) => t == if s == Started then Recv else Idle
    case ControlWrite(OpValidateImg, _) => t == if s == RecvDone then Validate else Idle
    case ControlWrite(OpActivateImg, _) => t == Idle
    case ControlWrite(_, _) => t == s
    case PacketWrite(pkt) =>
      match s
      case WaitStartPkt => t == if |pkt| == START_LEN then Started else Idle
      case WaitInitPkt => t == if f.initOk(pkt) then Started else Idle
      case Recv => t == Recv || t == RecvDone || t == Idle
      case _ => t == s
  }

  /** The slot at this offset, the last one if there are several; -1 if there is none. */
  function AreaOf(areas: seq<Area>, offset: nat): (a: int)
    ensures -1 <= a < |areas| && (a >= 0 ==> areas[a].offset == offset)
    ensures forall i :: a < i < |areas| ==> areas[i].offset != offset
    ensures a < 0 ==> forall i :: 0 <= i < |areas| ==> areas[i].offset != offset
  {
    if areas == [] then -1
    else if areas[|areas| - 1].offset == offset then |areas| - 1
    else AreaOf(areas[..|areas| - 1], offset)
  }

  /** The image has a header that asks for a slot, and fits it. */
  ghost predicate Takes(f: Formats, areas: seq<Area>, data: seq<byte>) {
    && |data| >= HEADER && f.magicOk(data[..HEADER])
    && var a := AreaOf(areas, f.uploadOffset(data[..HEADER]));
      a >= 0 && |data| <= areas[a].size
  }

  /** The state after a packet of image data: an image is done when as many bytes were received
      as announced. It is turned down for its header or its length only, and not before a buffer
      is full or all bytes are there. */
  ghost predicate Judged(f: Formats, areas: seq<Area>, bufSize: nat, data: seq<byte>, announced: nat, t: State) {
    if t == Idle then data != [] && !Takes(f, areas, data) && (|data| >= bufSize || Wrap(announced - |data|) == 0)
    else t == if Wrap(announced - |data|) == 0 then RecvDone else Recv
  }

  /** No part of such an image is turned down. */
  lemma TakesPart(f: Formats, areas: seq<Area>, part: seq<byte>, rest: seq<byte>)
    requires |part| >= HEADER && Takes(f, areas, part + rest)
    ensures Takes(f, areas, part)
  {
    HeaderKept(part, rest);
  }

  /** The first `n` bytes of the slot are those of `data`. */
  ghost predicate Holds(slot: seq<byte>, data: seq<byte>, n: nat) {
    n <= |slot| && n <= |data| && forall i :: 0 <= i < n ==> slot[i] == data[i]
  }

  /** The buffer holds `n` bytes of `data` from `at` on, and is erased behind them. */
  ghost predicate Buffers(buf: seq<byte>, data: seq<byte>, at: nat, n: nat) {
    && n <= |buf| && at + n == |data|
    && (forall i :: 0 <= i < n ==> buf[i] == data[at + i])
    && (forall i :: n <= i < |buf| ==> buf[i] == 0xff)
  }

  ghost predicate BlankFrom(slot: seq<byte>, lo: nat, hi: nat) {
    hi <= |slot| && forall i :: lo <= i < hi ==> slot[i] == 0xff
  }

  lemma ZeroMod(n: nat, k: nat)
    requires n > 0
    ensures (n * k) % n == 0
  {
    ModOf(k, 0, n);
    assert n * k == k * n + 0;
  }

  /** Sectors and buffers divide as they should. */
  lemma Blocks(wr: nat, buf: nat, sector: nat, erased: nat)
    requires buf > 0 && sector > 0 && sector % buf == 0 && erased % sector == 0 && wr % buf == 0
    requires wr <= erased < wr + sector
    ensures wr % sector == 0 <==> wr == erased
    ensures wr < erased ==> wr + buf <= erased
  {
    if wr < erased {
      NotASector(wr, sector, erased);
      var q, e := sector / buf, erased / sector;
      assert sector == buf * q && erased == sector * e && wr == buf * (wr / buf);
      assert erased == buf * (q * e) by {
        Assoc(buf, q, e);
      }
      Multiples(buf, wr / buf, q * e);
    }
  }

  lemma Assoc(a: nat, b: nat, c: nat)
    ensures (a * b) * c == a * (b * c)
  {
  }

  lemma NotASector(wr: nat, sector: nat, erased: nat)
    requires sector > 0 && erased % sector == 0 && wr < erased < wr + sector
    ensures wr % sector != 0
  {
    if wr % sector == 0 {
      assert erased == sector * (erased / sector) && wr == sector * (wr / sector);
      Multiples(sector, wr / sector, erased / sector);
      assert false;
    }
  }

  lemma NextMultiple(x: nat, n: nat)
    requires n > 0 && x % n == 0
    ensures (x + n) % n == 0
  {
    assert x + n == n * (x / n + 1);
    ZeroMod(n, x / n + 1);
  }

  // What is done to flash

  datatype FlashOp = EraseOp(area: nat, off: nat) | WriteOp(area: nat, off: nat)

  /** Writing `end` bytes of a slot, buffer by buffer: a sector is erased before its first
      buffer is written. */
  ghost function Flashed(area: nat, sector: nat, buf: nat, end: nat): seq<FlashOp>
    requires sector > 0 && buf > 0
  {
    if end < buf then []
    else
      var at := end - buf;
      Flashed(area, sector, buf, at) + (if at % sector == 0 then [EraseOp(area, at)] else []) + [WriteOp(area, at)]
  }

  /** That is all that was done for `n` bytes. */
  ghost predicate AllFlashed(ops: seq<FlashOp>, area: nat, sector: nat, buf: nat, end: nat, n: nat) {
    && sector > 0 && buf > 0 && sector % buf == 0 && end % buf == 0 && n <= end < n + buf
    && ops == Flashed(area, sector, buf, end)
  }

  lemma NextFlashed(area: nat, sector: nat, buf: nat, at: nat)
    requires sector > 0 && buf > 0
    ensures at % sector == 0 ==>
      Flashed(area, sector, buf, at + buf) == Flashed(area, sector, buf, at) + [EraseOp(area, at)] + [WriteOp(area, at)]
    ensures at % sector != 0 ==> Flashed(area, sector, buf, at + buf) == Flashed(area, sector, buf, at) + [WriteOp(area, at)]
  {
    assert Flashed(area, sector, buf, at) + [] == Flashed(area, sector, buf, at);
  }

  /** How often `op` is done. */
  ghost function Times(area: nat, sector: nat, buf: nat, end: nat, op: FlashOp): nat
    requires sector > 0 && buf > 0
  {
    if op.area == area && op.off < end && (if op.EraseOp? then op.off % sector == 0 else op.off % buf == 0) then 1 else 0
  }

  /** Every sector that is written is erased once, every buffer is written once, and nothing
      else is touched. */
  lemma {:induction false} ErasedOnce(area: nat, sector: nat, buf: nat, end: nat, op: FlashOp)
    requires sector > 0 && buf > 0 && sector % buf == 0 && end % buf == 0
    ensures multiset(Flashed(area, sector, buf, end))[op] == Times(area, sector, buf, end, op)
  {
    if end >= buf {
      hide Times, Flashed;
      var at := end - buf;
      EarlierMultiple(end, buf);
      ErasedOnce(area, sector, buf, at, op);
      TimesMore(area, sector, buf, at, op);
      LastFlashed(area, sector, buf, end);
      CountThree(Flashed(area, sector, buf, at), at % sector == 0, EraseOp(area, at), WriteOp(area, at), op);
    } else {
      NoTimes(area, sector, buf, end, op);
    }
  }

  lemma LastFlashed(area: nat, sector: nat, buf: nat, end: nat)
    requires sector > 0 && 0 < buf <= end
    ensures var at := end - buf;
      Flashed(area, sector, buf, end) ==
        Flashed(area, sector, buf, at) + (if at % sector == 0 then [EraseOp(area, at)] else []) + [WriteOp(area, at)]
  {
  }

  lemma NoTimes(area: nat, sector: nat, buf: nat, end: nat, op: FlashOp)
    requires sector > 0 && end < buf && end % buf == 0
    ensures Times(area, sector, buf, end, op) == 0
  {
    OnlyMultiple(0, buf, end);
  }

  lemma CountThree(front: seq<FlashOp>, both: bool, x: FlashOp, y: FlashOp, op: FlashOp)
    ensures multiset(front + (if both then [x] else []) + [y])[op] ==
      multiset(front)[op] + (if both && op == x then 1 else 0) + (if op == y then 1 else 0)
  {
  }

  lemma TimesMore(area: nat, sector: nat, buf: nat, at: nat, op: FlashOp)
    requires sector > 0 && buf > 0 && sector % buf == 0 && at % buf == 0
    ensures Times(area, sector, buf, at + buf, op) ==
      Times(area, sector, buf, at, op) + (if at % sector == 0 && op == EraseOp(area, at) then 1 else 0)
        + (if op == WriteOp(area, at) then 1 else 0)
  {
    if op.area == area && at <= op.off < at + buf {
      if op.EraseOp? && op.off % sector == 0 {
        MultipleOfBoth(op.off, sector, buf);
      }
      if op.off % buf == 0 {
        OnlyMultiple(at, buf, op.off);
      }
    }
  }

  /** The erase of a sector comes before all writes to it. */
  lemma {:induction false} ErasedFirst(area: nat, sector: nat, buf: nat, end: nat, i: nat, j: nat)
    requires sector > 0 && buf > 0 && sector % buf == 0 && end % buf == 0
    requires var ops := Flashed(area, sector, buf, end);
      && i < |ops| && j < |ops| && ops[i].EraseOp? && ops[j].WriteOp? && ops[i].off <= ops[j].off < ops[i].off + sector
    ensures i < j
  {
    var at := end - buf;
    var front := Flashed(area, sector, buf, at);
    EarlierMultiple(end, buf);
    if j < |front| {
      WritesBelow(area, sector, buf, at, j);
      if i < |front| {
        ErasedFirst(area, sector, buf, at, i, j);
      }
    }
  }

  lemma {:induction false} WritesBelow(area: nat, sector: nat, buf: nat, end: nat, j: nat)
    requires sector > 0 && buf > 0 && j < |Flashed(area, sector, buf, end)|
    ensures Flashed(area, sector, buf, end)[j].off < end
  {
    if j < |Flashed(area, sector, buf, end - buf)| {
      WritesBelow(area, sector, buf, end - buf, j);
    }
  }

  lemma EarlierMultiple(end: nat, buf: nat)
    requires buf > 0 && end % buf == 0 && end >= buf
    ensures (end - buf) % buf == 0
  {
    var q := end / buf;
    assert end - buf == (q - 1) * buf + 0;
    ModOf(q - 1, 0, buf);
  }

  lemma OnlyMultiple(at: nat, buf: nat, x: nat)
    requires buf > 0 && at % buf == 0 && at <= x < at + buf && x % buf == 0
    ensures x == at
  {
    var q := at / buf;
    assert x == q * buf + (x - at);
    ModOf(q, x - at, buf);
  }

  lemma MultipleOfBoth(x: nat, sector: nat, buf: nat)
    requires sector > 0 && buf > 0 && sector % buf == 0 && x % sector == 0
    ensures x % buf == 0
  {
    var q, r := x / sector, sector / buf;
    Assoc(q, r, buf);
    assert x == (q * r) * buf + 0;
    ModOf(q * r, 0, buf);
  }

  class Loader {
    const f: Formats
    const areas: seq<Area>
    const bufSize: nat // CONFIG_ZB_EIGHT_DFU_BLOCK_BUF_SIZE

    // nrf_dfu.c
    var state: State
    var expSize: nat
    var imgOffset: nat
    // zb8_dfu.c
    var area: nat
    var buf: seq<byte>
    var bufOff: nat
    var wrOff: nat
    // flash
    var slots: seq<seq<byte>>
    /** What was done to flash since the last start packet, and how far it was written. */
    var ops: seq<FlashOp>
    var flashed: nat

    /** Bytes received since the last start packet, and the length that packet announced. */
    ghost var received: seq<byte>
    ghost var announced: nat
    /** End of the sectors that were erased for the image being received. */
    ghost var erased: nat

    constructor (f: Formats, areas: seq<Area>, bufSize: nat, slots: seq<seq<byte>>)
      requires HEADER <= bufSize && 2 * bufSize < U32 && |slots| == |areas| && AreasOk(areas, bufSize)
      requires forall a :: 0 <= a < |areas| ==> |slots[a]| == areas[a].size
      ensures this.f == f && Valid() && state == Idle && received == [] && announced == 0
    {
      this.f, this.areas, this.bufSize, this.slots := f, areas, bufSize, slots;
      state, expSize, imgOffset := Idle, 0, 0;
      area, buf, bufOff, wrOff := 0, Ones(bufSize), 0, 0;
      received, announced, erased := [], 0, 0;
      ops, flashed := [], 0;
    }

    /** Slots are whole sectors, sectors whole buffers, and offsets stay within 32 bits. */
    static ghost predicate AreasOk(areas: seq<Area>, bufSize: nat) {
      forall a :: 0 <= a < |areas| ==>
        && areas[a].sector > 0 && bufSize > 0 && areas[a].sector % bufSize == 0
        && areas[a].size % areas[a].sector == 0 && areas[a].size + 2 * bufSize < U32
    }

    ghost predicate Static()
      reads this`slots, this`buf
    {
      && HEADER <= bufSize && 2 * bufSize < U32 && AreasOk(areas, bufSize)
      && |slots| == |areas| && (forall a :: 0 <= a < |areas| ==> |slots[a]| == areas[a].size)
      && |buf| == bufSize
    }

    /** The buffer holds the end of what was received, the slot everything before. */
    ghost predicate Writing(data: seq<byte>)
      reads this`slots, this`buf, this`bufOff, this`wrOff, this`area, this`erased, this`ops, this`flashed
    {
      && Static()
      && wrOff % bufSize == 0 && Buffers(buf, data, wrOff, bufOff)
      && (wrOff > 0 ==>
            && area < |areas| && Holds(slots[area], data, wrOff) && Wanted(data)
            && erased % areas[area].sector == 0 && wrOff <= erased < wrOff + areas[area].sector
            && BlankFrom(slots[area], wrOff, erased)
            && ops == Flashed(area, areas[area].sector, bufSize, wrOff))
      && flashed == wrOff && (wrOff == 0 ==> ops == [])
    }

    /** The upgrade slot starts with exactly these bytes. */
    ghost predicate Stored(data: seq<byte>)
      reads this`slots, this`area, this`ops, this`flashed
    {
      if data == [] then ops == []
      else
        && area < |slots| && Holds(slots[area], data, |data|) && Wanted(data)
        && AllFlashed(ops, area, areas[area].sector, bufSize, flashed, |data|)
    }

    /** The header of the image asks for this slot. */
    ghost predicate Wanted(data: seq<byte>)
      reads this`area
    {
      && |data| >= HEADER && area < |areas|
      && f.magicOk(data[..HEADER]) && area == AreaOf(areas, f.uploadOffset(data[..HEADER]))
    }

    ghost predicate Valid()
      reads this
    {
      && Static()
      && match state
         case Started => ops == [] && received == [] && expSize == announced && imgOffset == 0 && announced < U32
         case WaitInitPkt => ops == [] && received == [] && expSize == announced && imgOffset == 0 && announced < U32
         case Recv =>
           && announced < U32 && imgOffset == |received| < U32
           && expSize == Wrap(announced - |received|)
           && (if received == [] then ops == [] else Writing(received) && bufOff < bufSize)
         case RecvDone => |received| == announced && Stored(received)
         case Validate => |received| == announced && Stored(received)
         case _ => true
    }

    /** The slot a header asks for, searched from the last one down. */
    method FindArea(offset: nat) returns (found: bool, a: nat)
      ensures found <==> AreaOf(areas, offset) >= 0
      ensures found ==> a == AreaOf(areas, offset)
    {
      a := |areas|;
      assert areas[..a] == areas;
      while a > 0
        invariant a <= |areas| && AreaOf(areas, offset) == AreaOf(areas[..a], offset)
      {
        a := a - 1;
        assert areas[..a + 1][..a] == areas[..a];
        if areas[a].offset == offset {
          return true, a;
        }
      }
      found := false;
    }

    /** flush_flash_img_ctx: writes the buffer; the first one decides on the slot. */
    method Flush(ghost data: seq<byte>) returns (ok: bool)
      requires Writing(data) && bufOff > 0
      modifies this`area, this`buf, this`bufOff, this`wrOff, this`slots, this`erased, this`ops, this`flashed
      ensures Static() && (ok <==> Takes(f, areas, data))
      ensures ok ==> wrOff == |data| && bufOff == 0 && Stored(data)
      ensures ok && old(bufOff) == bufSize ==> Writing(data)
      ensures !ok ==> Writing(data)
    {
      if wrOff == 0 {
        HeaderIs(buf, data, bufOff);
        if bufOff < HEADER || !f.magicOk(buf[..HEADER]) {
          return false;
        }
        var found, a := FindArea(f.uploadOffset(buf[..HEADER]));
        if !found {
          return false;
        }
        area := a;
        erased := 0;
      }
      ok := FlushTo(data);
    }

    /** Erases the next sector when the last one is full, then writes the whole buffer. */
    method FlushTo(ghost data: seq<byte>) returns (ok: bool)
      requires Static() && area < |areas|
      requires wrOff % bufSize == 0 && Buffers(buf, data, wrOff, bufOff) && bufOff > 0
      requires Holds(slots[area], data, wrOff) && Wanted(data)
      requires erased % areas[area].sector == 0 && wrOff <= erased < wrOff + areas[area].sector
      requires BlankFrom(slots[area], wrOff, erased)
      requires ops == Flashed(area, areas[area].sector, bufSize, wrOff) && flashed == wrOff
      modifies this`buf, this`bufOff, this`wrOff, this`slots, this`erased, this`ops, this`flashed
      ensures Static() && (ok <==> |data| <= areas[area].size)
      ensures ok ==> wrOff == |data| && bufOff == 0 && Stored(data)
      ensures ok && old(bufOff) == bufSize ==> Writing(data)
      ensures !ok ==> Writing(data)
    {
      var s := areas[area].sector;
      Blocks(wrOff, bufSize, s, erased);
      SectorHoldsBuffer(bufSize, s);
      if wrOff < areas[area].size && wrOff % s == 0 {
        SectorsFit(s, areas[area].size, wrOff);
      }
      if wrOff % s == 0 {
        if wrOff + s > areas[area].size {
          return false;
        }
        NextMultiple(erased, s);
        EraseSector(s);
      }
      WriteBuffer(data);
      NextFlashed(area, s, bufSize, wrOff);
      NextMultiple(wrOff, bufSize);
      wrOff := wrOff + bufOff;
      bufOff := 0;
      buf := Ones(bufSize);
      ok := true;
      BufferFlushed(data);
    }

    /** The slot holds the data, and if the buffer was full, more can follow. */
    lemma BufferFlushed(data: seq<byte>)
      requires Static() && area < |areas| && Wanted(data)
      requires wrOff == |data| && 0 < wrOff <= flashed < wrOff + bufSize && bufOff == 0 && buf == Ones(bufSize)
      requires Holds(slots[area], data, |data|) && flashed % bufSize == 0
      requires ops == Flashed(area, areas[area].sector, bufSize, flashed)
      requires erased % areas[area].sector == 0 && flashed <= erased < flashed + areas[area].sector
      requires BlankFrom(slots[area], flashed, erased)
      ensures Stored(data)
      ensures flashed == wrOff ==> Writing(data)
    {
      hide Flashed, Wanted, Holds, BlankFrom;
    }

    method EraseSector(s: nat)
      requires Static() && area < |areas| && s == areas[area].sector && wrOff == erased && wrOff + s <= areas[area].size
      modifies this`slots, this`erased, this`ops, this`flashed
      ensures Static() && erased == wrOff + s && BlankFrom(slots[area], wrOff, erased)
      ensures forall i :: 0 <= i < wrOff ==> slots[area][i] == old(slots[area])[i]
      ensures ops == old(ops) + [EraseOp(area, wrOff)] && flashed == old(flashed)
    {
      var slot := slots[area];
      slots := slots[area := slot[..wrOff] + Ones(s) + slot[wrOff + s..]];
      ops := ops + [EraseOp(area, wrOff)];
      erased := wrOff + s;
    }

    /** zb_write of the whole buffer, into erased flash only. */
    method WriteBuffer(ghost data: seq<byte>)
      requires Static() && area < |areas| && wrOff + bufSize <= erased && BlankFrom(slots[area], wrOff, erased)
      requires Holds(slots[area], data, wrOff) && Buffers(buf, data, wrOff, bufOff)
      modifies this`slots, this`ops, this`flashed
      ensures ops == old(ops) + [WriteOp(area, wrOff)] && flashed == wrOff + bufSize
      ensures Static() && Holds(slots[area], data, wrOff + bufOff)
      ensures BlankFrom(slots[area], wrOff + bufSize, erased)
    {
      var slot := slots[area];
      slots := slots[area := slot[..wrOff] + buf + slot[wrOff + bufSize..]];
      ops, flashed := ops + [WriteOp(area, wrOff)], wrOff + bufSize;
      forall i | 0 <= i < wrOff + bufOff ensures slots[area][i] == data[i] {
        if i >= wrOff {
          assert buf[i - wrOff] == data[wrOff + (i - wrOff)];
        }
      }
    }

    /** init_flash_img_ctx */
    method StartImage()
      requires Static() && ops == []
      modifies this`buf, this`bufOff, this`wrOff, this`flashed
      ensures Writing([]) && bufOff == 0
    {
      bufOff, wrOff, buf, flashed := 0, 0, Ones(bufSize), 0;
    }

    /** zb_dfu_receive: a packet no longer than the buffer; offset 0 starts a new image. */
    method Receive(offset: nat, pkt: seq<byte>, ghost sofar: seq<byte>) returns (ok: bool, ghost data: seq<byte>)
      requires Static() && |pkt| <= bufSize && offset == |sofar|
      requires if sofar == [] then ops == [] else Writing(sofar) && bufOff < bufSize
      modifies this`area, this`buf, this`bufOff, this`wrOff, this`slots, this`erased, this`ops, this`flashed
      ensures Writing(data)
      ensures ok ==> data == sofar + pkt && bufOff < bufSize
      ensures ok && bufOff == 0 && data != [] ==> Takes(f, areas, data)
      ensures !ok ==> !Takes(f, areas, sofar + pkt) && |sofar + pkt| >= bufSize
    {
      hide Writing, Stored, Takes, Wanted, Static;
      if offset == 0 {
        StartImage();
      }
      BufferFits(sofar);
      var rest := pkt;
      data := sofar;
      if bufOff + |pkt| >= bufSize {
        var plen := bufSize - bufOff;
        data := Fill(pkt[..plen], sofar);
        rest := pkt[plen..];
        ok := Flush(data);
        assert data + rest == sofar + pkt;
        if !ok {
          if Takes(f, areas, data + rest) {
            TakesPart(f, areas, data, rest);
          }
          return;
        }
      }
      if |rest| > 0 {
        data := Fill(rest, data);
      } else {
        assert data == sofar + pkt;
      }
      BufferFits(data);
      ok := true;
    }

    lemma BufferFits(data: seq<byte>)
      requires Writing(data)
      ensures bufOff <= bufSize == |buf| && HEADER <= bufSize && wrOff + bufOff == |data|
      ensures bufOff == 0 && data != [] ==> Takes(f, areas, data)
    {
    }

    /** Appends to the buffer. */
    method Fill(part: seq<byte>, ghost data: seq<byte>) returns (ghost data2: seq<byte>)
      requires Writing(data) && bufOff + |part| <= bufSize
      modifies this`buf, this`bufOff
      ensures Writing(data + part) && data2 == data + part
      ensures bufOff == old(bufOff) + |part|
    {
      data2 := data + part;
      buf := buf[..bufOff] + part + buf[bufOff + |part|..];
      bufOff := bufOff + |part|;
      HeaderKept(data, part);
    }

    /** zb_dfu_receive_flush */
    method ReceiveFlush(ghost data: seq<byte>) returns (ok: bool)
      requires Writing(data)
      modifies this`area, this`buf, this`bufOff, this`wrOff, this`slots, this`erased, this`ops, this`flashed
      ensures Static()
      ensures ok ==> Stored(data)
      ensures ok <==> old(bufOff) == 0 || Takes(f, areas, data)
    {
      ok := true;
      if bufOff > 0 {
        ok := Flush(data);
      }
    }

    /** write_control; `activated` when it hands over to the swapper. */
    method Control(op: Opcode, len: nat) returns (activated: bool)
      requires Valid()
      modifies this`state, this`expSize, this`imgOffset
      ensures Valid()
      ensures slots == old(slots) && area == old(area) && received == old(received) && announced == old(announced)
      ensures Follows(f, old(state), ControlWrite(op, len), state)
      ensures activated <==> op == OpActivateImg && old(state) == Validate
      ensures activated ==> |received| == announced && Stored(received)
    {
      activated := false;
      match op
      case OpStart =>
        if len == 2 {
          expSize, imgOffset := 0, 0;
          state := WaitStartPkt;
        }
      case OpInit =>
        state := if state != Started then Idle else WaitInitPkt;
      case OpRecvImg =>
        state := if state != Started then Idle else Recv;
      case OpValidateImg =>
        state := if state != RecvDone then Idle else Validate;
      case OpActivateImg =>
        activated := state == Validate;
        state := Idle;
      case _ =>
    }

    /** write_packet; `accepted` is false in states that expect no packet. */
    method Packet(pkt: seq<byte>) returns (accepted: bool)
      requires Valid() && |pkt| <= bufSize
      modifies this
      ensures Valid()
      ensures Follows(f, old(state), PacketWrite(pkt), state)
      ensures accepted == (old(state) in {WaitStartPkt, WaitInitPkt, Recv})
      ensures old(state) == Recv ==> Judged(f, areas, bufSize, received, announced, state)
      ensures old(state) == WaitStartPkt ==> received == [] && announced == Wrap(f.startLen(pkt))
      ensures old(state) == Recv ==> received == old(received) + pkt && announced == old(announced)
      ensures old(state) !in {WaitStartPkt, Recv} ==> received == old(received) && announced == old(announced)
    {
      accepted := true;
      match state
      case WaitStartPkt =>
        received, announced, ops := [], Wrap(f.startLen(pkt)), [];
        state := if |pkt| != START_LEN then Idle else Started;
        expSize, imgOffset := Wrap(f.startLen(pkt)), 0;
      case WaitInitPkt =>
        state := if f.initOk(pkt) then Started else Idle;
      case Recv =>
        ReceivePacket(pkt);
      case _ =>
        accepted := false;
    }

    /** write_packet while an image is being received. */
    method ReceivePacket(pkt: seq<byte>)
      requires Valid() && state == Recv && |pkt| <= bufSize
      modifies this
      ensures Valid() && received == old(received) + pkt && announced == old(announced)
      ensures Judged(f, areas, bufSize, received, announced, state)
    {
      hide Writing, Stored, Wrap, Static, Valid, Takes;
      ghost var sofar := received;
      RecvStart();
      var ok; ghost var data;
      ok, data := Receive(imgOffset, pkt, sofar);
      received := sofar + pkt;
      FinishPacket(ok, |sofar|, |pkt|, data);
    }

    /** Counts an image packet, and writes the rest of the image behind the last one. */
    method FinishPacket(stored: bool, ghost before: nat, len: nat, ghost data: seq<byte>)
      requires state == Recv && announced < U32 && |received| == before + len
      requires expSize == Wrap(announced - before) && imgOffset == before < U32
      requires Writing(data)
      requires stored ==> data == received && bufOff < bufSize
      requires stored && bufOff == 0 && data != [] ==> Takes(f, areas, data)
      requires !stored ==> !Takes(f, areas, received) && |received| >= bufSize >= HEADER
      modifies this`state, this`expSize, this`imgOffset, this`area, this`buf, this`bufOff, this`wrOff, this`slots, this`erased, this`ops, this`flashed
      ensures Valid() && Judged(f, areas, bufSize, received, announced, state)
    {
      hide Writing, Stored, Wrap, Static, Valid, Takes;
      var ok := stored;
      WritingStatic(data);
      BufferFits(data);
      if ok {
        NoOverflow();
      }
      Countdown(announced, before, len);
      expSize := Wrap(expSize - len);
      imgOffset := Wrap(imgOffset + len);
      if expSize == 0 {
        var flushed := ReceiveFlush(data);
        ok := ok && flushed;
      }
      if !ok {
        state := Idle;
      } else if expSize == 0 {
        state := RecvDone;
      }
      PacketTaken();
    }

    lemma PacketTaken()
      requires Static()
      requires match state
               case Idle => true
               case Recv =>
                 && announced < U32 && imgOffset == |received| < U32 && expSize == Wrap(announced - |received|)
                 && Writing(received) && bufOff < bufSize
               case RecvDone => |received| == announced && Stored(received)
               case _ => false
      ensures Valid()
    {
      if state == Recv && received == [] {
        NothingDone();
      }
      hide Static, Writing, Stored, Wrap;
    }

    lemma NothingDone()
      requires Writing([])
      ensures ops == []
    {
    }

    /** Before the first bytes nothing is expected of the buffer. */
    lemma RecvStart()
      requires Valid() && state == Recv
      ensures Static() && if received == [] then ops == [] else Writing(received) && bufOff < bufSize
      ensures announced < U32 && imgOffset == |received| < U32 && expSize == Wrap(announced - |received|)
    {
    }

    lemma WritingStatic(data: seq<byte>)
      requires Writing(data)
      ensures Static()
    {
    }

    /** What fits a slot and a buffer is counted without wrap-around. */
    lemma NoOverflow()
      requires Writing(received)
      ensures |received| < U32
    {
    }
  }

  lemma Countdown(announced: nat, n: nat, more: nat)
    requires announced < U32
    ensures Wrap(Wrap(announced - n) - more) == Wrap(announced - (n + more))
    ensures n + more < U32 && Wrap(announced - (n + more)) == 0 ==> announced == n + more
    ensures n + more < U32 ==> Wrap(n + more) == n + more
  {
  }

  lemma HeaderIs(buf: seq<byte>, data: seq<byte>, n: nat)
    requires Buffers(buf, data, 0, n)
    ensures n >= HEADER ==> buf[..HEADER] == data[..HEADER]
  {
  }

  lemma HeaderKept(data: seq<byte>, part: seq<byte>)
    ensures |data| >= HEADER ==> (data + part)[..HEADER] == data[..HEADER]
  {
  }

  lemma SectorHoldsBuffer(buf: nat, sector: nat)
    requires buf > 0 && sector > 0 && sector % buf == 0
    ensures buf <= sector
  {
  }

  /** What the swapper is started on, and what was done to flash since the last start packet. */
  datatype Activation = Activation(area: nat, slot: seq<byte>, ops: seq<FlashOp>, end: nat)

  ghost function ReceivedMore(ev: Event, state: State, received: seq<byte>): seq<byte> {
    if ev.ControlWrite? then received
    else if state == WaitStartPkt then []
    else if state == Recv then received + ev.pkt
    else received
  }

  ghost function AnnouncedMore(f: Formats, ev: Event, state: State, announced: nat): nat {
    if ev.PacketWrite? && state == WaitStartPkt then Wrap(f.startLen(ev.pkt)) else announced
  }

  /** The bytes of the packets taken as image data since the last start packet. */
  ghost function Received(events: seq<Event>, states: seq<State>): seq<byte>
    requires |events| == |states|
  {
    if events == [] then []
    else
      var n := |events| - 1;
      ReceivedMore(events[n], states[n], Received(events[..n], states[..n]))
  }

  /** The length in the last start packet. */
  ghost function Announced(f: Formats, events: seq<Event>, states: seq<State>): nat
    requires |events| == |states|
  {
    if events == [] then 0
    else
      var n := |events| - 1;
      AnnouncedMore(f, events[n], states[n], Announced(f, events[..n], states[..n]))
  }

  /** The slot that the header asks for starts with exactly the announced number of bytes, as
      they were received, and nothing was done to flash but what these bytes need. */
  ghost predicate Complete(f: Formats, areas: seq<Area>, bufSize: nat, data: seq<byte>, announced: nat, a: Activation) {
    && |data| == announced
    && if data == [] then a.ops == []
       else
         && Holds(a.slot, data, |data|) && a.area < |areas| && |data| >= HEADER
         && f.magicOk(data[..HEADER]) && f.uploadOffset(data[..HEADER]) == areas[a.area].offset
         && (forall b :: a.area < b < |areas| ==> areas[b].offset != areas[a.area].offset)
         && |a.slot| == areas[a.area].size
         && AllFlashed(a.ops, a.area, areas[a.area].sector, bufSize, a.end, |data|)
  }

  /** When the swapper is started, every sector of the image was erased exactly once since the
      start packet, before anything was written to it. */
  lemma SectorsErasedOnce(f: Formats, areas: seq<Area>, bufSize: nat, data: seq<byte>, announced: nat, a: Activation, off: nat)
    requires Complete(f, areas, bufSize, data, announced, a) && off < |data|
    requires off % areas[a.area].sector == 0
    ensures multiset(a.ops)[EraseOp(a.area, off)] == 1
    ensures forall i, j |
      0 <= i < |a.ops| && 0 <= j < |a.ops| && a.ops[i] == EraseOp(a.area, off) &&
      a.ops[j].WriteOp? && off <= a.ops[j].off < off + areas[a.area].sector :: i < j
  {
    var sector := areas[a.area].sector;
    ErasedOnce(a.area, sector, bufSize, a.end, EraseOp(a.area, off));
    hide Flashed;
    forall i, j | 0 <= i < |a.ops| && 0 <= j < |a.ops| && a.ops[i] == EraseOp(a.area, off) &&
        a.ops[j].WriteOp? && off <= a.ops[j].off < off + sector
      ensures i < j
    {
      ErasedFirst(a.area, sector, bufSize, a.end, i, j);
    }
  }

  ghost predicate Activates(ev: Event, state: State) {
    ev.ControlWrite? && ev.op == OpActivateImg && state == Validate
  }

  /** What is to be shown of event `i`: it leads to the next state as the protocol has it, and
      the swapper is started on a complete image or not at all. */
  ghost predicate ServedAt(f: Formats, areas: seq<Area>, bufSize: nat, events: seq<Event>, states: seq<State>,
      answers: seq<Option<Activation>>, i: nat)
    requires i < |events| && i < |answers| && i + 1 < |states|
  {
    && Follows(f, states[i], events[i], states[i + 1])
    && (events[i].PacketWrite? && states[i] == Recv ==>
          Judged(f, areas, bufSize, Received(events[..i], states[..i]) + events[i].pkt, Announced(f, events[..i], states[..i]), states[i + 1]))
    && (answers[i].Some? <==> Activates(events[i], states[i]))
    && (answers[i].Some? ==>
          Complete(f, areas, bufSize, Received(events[..i], states[..i]), Announced(f, events[..i], states[..i]), answers[i].value))
  }

  /** For every sequence of events: `states` are those before each event and at the end. */
  method Serve(loader: Loader, events: seq<Event>) returns (answers: seq<Option<Activation>>, states: seq<State>)
    requires loader.Valid() && loader.state == Idle && loader.received == [] && loader.announced == 0
    requires forall i :: 0 <= i < |events| && events[i].PacketWrite? ==> |events[i].pkt| <= loader.bufSize
    modifies loader
    ensures loader.Valid()
    ensures |answers| == |events| && |states| == |events| + 1 && states[0] == Idle
    ensures forall i :: 0 <= i < |events| ==> ServedAt(loader.f, loader.areas, loader.bufSize, events, states, answers, i)
  {
    hide Received, Announced, Follows, Judged;
    answers, states := [], [Idle];
    NothingReceived(loader.f);
    for i := 0 to |events|
      invariant loader.Valid() && |answers| == i && |states| == i + 1
      invariant states[0] == Idle && states[i] == loader.state
      invariant loader.received == Received(events[..i], states[..i])
      invariant loader.announced == Announced(loader.f, events[..i], states[..i])
      invariant forall j :: 0 <= j < i ==> ServedAt(loader.f, loader.areas, loader.bufSize, events, states, answers, j)
    {
      var answer := ServeOne(loader, events[i]);
      OneServed(loader.f, loader.areas, loader.bufSize, events, states, answers, loader.state, answer);
      states, answers := states + [loader.state], answers + [answer];
    }
  }

  /** One event. */
  method ServeOne(loader: Loader, ev: Event) returns (answer: Option<Activation>)
    requires loader.Valid() && (ev.PacketWrite? ==> |ev.pkt| <= loader.bufSize)
    modifies loader
    ensures loader.Valid() && Follows(loader.f, old(loader.state), ev, loader.state)
    ensures loader.received == ReceivedMore(ev, old(loader.state), old(loader.received))
    ensures loader.announced == AnnouncedMore(loader.f, ev, old(loader.state), old(loader.announced))
    ensures ev.PacketWrite? && old(loader.state) == Recv ==>
      Judged(loader.f, loader.areas, loader.bufSize, old(loader.received) + ev.pkt, old(loader.announced), loader.state)
    ensures answer.Some? <==> Activates(ev, old(loader.state))
    ensures answer.Some? ==> Complete(loader.f, loader.areas, loader.bufSize, old(loader.received), old(loader.announced), answer.value)
  {
    answer := None;
    match ev
    case ControlWrite(op, len) =>
      var activated := loader.Control(op, len);
      if activated {
        answer := Some(Activation(loader.area,
          if loader.area < |loader.slots| then loader.slots[loader.area] else [], loader.ops, loader.flashed));
      }
    case PacketWrite(pkt) =>
      var _ := loader.Packet(pkt);
  }

  lemma NothingReceived(f: Formats)
    ensures Received([], []) == [] && Announced(f, [], []) == 0
  {
  }

  /** One event more: what was said of those before stays, and the sums go on. */
  lemma OneServed(f: Formats, areas: seq<Area>, bufSize: nat, events: seq<Event>, states: seq<State>, answers: seq<Option<Activation>>,
      next: State, answer: Option<Activation>)
    requires |answers| < |events| && |states| == |answers| + 1
    requires forall j :: 0 <= j < |answers| ==> ServedAt(f, areas, bufSize, events, states, answers, j)
    requires var i := |answers|;
      && Follows(f, states[i], events[i], next)
      && (events[i].PacketWrite? && states[i] == Recv ==>
            Judged(f, areas, bufSize, Received(events[..i], states[..i]) + events[i].pkt, Announced(f, events[..i], states[..i]), next))
      && (answer.Some? <==> Activates(events[i], states[i]))
      && (answer.Some? ==>
            Complete(f, areas, bufSize, Received(events[..i], states[..i]), Announced(f, events[..i], states[..i]), answer.value))
    ensures var i, s2, a2 := |answers|, states + [next], answers + [answer];
      && (forall j :: 0 <= j <= i ==> ServedAt(f, areas, bufSize, events, s2, a2, j))
      && Received(events[..i + 1], s2[..i + 1]) == ReceivedMore(events[i], states[i], Received(events[..i], states[..i]))
      && Announced(f, events[..i + 1], s2[..i + 1])
         == AnnouncedMore(f, events[i], states[i], Announced(f, events[..i], states[..i]))
  {
    var i, s2, a2 := |answers|, states + [next], answers + [answer];
    assert events[..i + 1][..i] == events[..i] && s2[..i + 1][..i] == states[..i];
    hide Follows, Complete, Received, Announced, Judged;
    forall j | 0 <= j <= i ensures ServedAt(f, areas, bufSize, events, s2, a2, j) {
      assert s2[..j] == states[..j];
      assert j < i ==> ServedAt(f, areas, bufSize, events, states, answers, j);
    }
  }
}
