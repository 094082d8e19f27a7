/** The store: sfcb.c, with the keep-newest compress routine of its README. */
module SfcbStore {
  import opened FlashBytes
  import opened SfcbLog
  import opened SfcbFlash
  import opened SfcbSector
  import opened SfcbRing
  import opened SfcbSteps
  import opened SfcbWalk
  import opened SfcbSerial
  import opened SfcbBuffer
  import opened SfcbCompress

  /** Results: 0 or the negated errno of the source. */
  datatype Status = Ok | NoAccess | NoSpace | NoMemory | Invalid

  /** Slot `i` of the sector has this ATE, of entry `e`. */
  ghost predicate EntryIn(g: Geometry, sec: Sector, i: nat, ate: Record, e: Entry)
    requires ate.Ate?
  {
    && REC * (i + 1) <= |sec| && Slot(sec, i) == Good(ate)
    && REC <= ate.off && ate.off + AlignUp(g.wbs, ate.len) <= g.size
    && e == Entry(ate.id, Payload(sec, ate.off, ate.len)) && |e.data| == ate.len
  }

  /** Since flash was as in `start`, only the range from `base` to `top` of the write sector
      was programmed, which was erased then; the logs are the same. */
  ghost predicate OpenedAs(start: Memory, m: Memory, wr: nat, base: nat, top: nat) {
    && OnlySector(start, m, wr) && wr < |m| && |m| > 1 && SameLogs(start, m, wr)
    && AgreeOutside(start[wr], m[wr], base, top) && BlankRange(start[wr], base, top)
  }

  /** A sector with data and ATE of one entry more. */
  ghost function WithEntry(sec: Sector, base: nat, ate: nat, id: nat, len: nat, data: seq<byte>): Sector
    requires base + |data| <= |sec| && ate + REC <= |sec|
  {
    Splice(Splice(sec, base, RawCells(data)), ate, RecordCells(Ate(id, base, len)))
  }

  /** sfcb_loc: a place in the store, for walking, reading or writing. */
  class Loc {
    var sector: nat
    var ateOff: nat
    var dataOff: nat
    var ate: Record       // the cached allocation entry
    var valid: bool       // its CRC matches
    var dcache: seq<byte> // bytes of a write block that is not full yet
    ghost var passed: nat       // slots of the sector at or above this location
    ghost var written: seq<byte> // data written here so far
    ghost var start: Memory      // flash when this was opened for writing

    constructor ()
      ensures fresh(this)
    {
      sector, ateOff, dataOff := 0, 0, 0;
      ate, valid := Ate(0, 0, 0), false;
      dcache := [];
      passed, written, start := 0, [], [];
    }

    /** Assignment of one location to another. */
    method Assign(from: Loc)
      modifies this
      ensures sector == old(from.sector) && ateOff == old(from.ateOff) && dataOff == old(from.dataOff)
      ensures ate == old(from.ate) && valid == old(from.valid) && dcache == old(from.dcache)
      ensures passed == old(from.passed)
    {
      sector, ateOff, dataOff := from.sector, from.ateOff, from.dataOff;
      ate, valid := from.ate, from.valid;
      dcache := from.dcache;
      passed := from.passed;
    }
  }

  class Store {
    const dev: Device
    var wrSector: nat
    var wrSectorId: nat
    var wrData: nat
    var wrAte: nat
    ghost var filled: nat
    ghost var history: seq<Entry>

    constructor (dev: Device)
      ensures this.dev == dev
    {
      this.dev := dev;
      wrSector, wrSectorId, wrData, wrAte := 0, 0, 0, 0;
    }

    /** The RAM state agrees with the flash. */
    ghost predicate Framed()
      reads this, dev
    {
      && dev.Valid()
      && wrSector < dev.g.count && wrSectorId < 0x1_0000
      && Ring(dev.g, dev.mem, wrSector, Id16(wrSectorId - 1), filled)
      && WriteAt(dev.g, dev.mem[wrSector], wrData, wrAte)
    }

    /** The flash holds the history. */
    ghost predicate Sound()
      reads this, dev
    {
      && Framed()
      && Image(dev.g, dev.mem, wrSector, Id16(wrSectorId - 1), filled, history)
    }

    /** No write is under way: everything up to the end of the next ATE slot is erased.
        Compress may have work left. */
    ghost predicate Idle()
      reads this, dev
    {
      && Sound()
      && BlankRange(dev.mem[wrSector], wrData, wrAte + REC)
      && Tight(dev.g.wbs, dev.mem[wrSector], wrData)
    }

    /** Nothing of the history depends on the sector that would be erased next. */
    ghost predicate Mounted()
      reads this, dev
    {
      Idle() && Clean(dev.mem, wrSector)
    }

    // Walking

    /** `loc` has passed `loc.passed` slots of its sector. */
    ghost predicate LocOk(loc: Loc)
      reads this, dev, loc
      requires Framed()
    {
      && loc.sector < dev.g.count
      && loc.passed <= Count(dev.mem[loc.sector], 0)
      && loc.ateOff + REC * loc.passed == dev.g.size
    }

    ghost function LocRest(loc: Loc): seq<Entry>
      reads this, dev, loc
      requires Framed() && LocOk(loc)
    {
      Rest(dev.mem, wrSector, loc.sector, loc.passed)
    }

    /** `loc` is at a valid ATE; its entry is `e`. */
    ghost predicate AtEntry(loc: Loc, e: Entry)
      reads this, dev, loc
      requires Framed()
    {
      && LocOk(loc)
      && loc.passed > 0 && loc.valid && loc.ate.Ate? && loc.dataOff <= loc.ate.len
      && EntryIn(dev.g, dev.mem[loc.sector], loc.passed - 1, loc.ate, e)
    }

    lemma EntryFacts(loc: Loc, e: Entry)
      requires Framed() && AtEntry(loc, e)
      ensures LocOk(loc) && loc.ate.Ate? && loc.ate.id == e.id && loc.ate.len == |e.data|
    {
    }

    lemma ReadPosition(loc: Loc, e: Entry)
      requires Framed() && AtEntry(loc, e)
      ensures loc.dataOff <= |e.data|
    {
    }

    lemma FramedBounds()
      requires Framed()
      ensures wrSector < |dev.mem| == dev.g.count && dev.g.count > 1
      ensures dev.trace == [] || dev.trace[|dev.trace| - 1] == dev.mem
    {
    }

    lemma SameEntry(a: Loc, b: Loc, e: Entry)
      requires Framed() && AtEntry(a, e)
      requires b.sector == a.sector && b.ateOff == a.ateOff && b.dataOff == a.dataOff
      requires b.ate == a.ate && b.valid == a.valid && b.passed == a.passed
      ensures AtEntry(b, e)
    {
    }

    /** sfcb_start_loc */
    method StartLoc(loc: Loc)
      requires Framed()
      modifies loc
      ensures Framed() && LocOk(loc)
      ensures LocRest(loc) == Log(dev.mem, wrSector)
      ensures loc.sector == Next(dev.g.count, wrSector) && loc.passed == 0
    {
      loc.sector := Next(dev.g.count, wrSector);
      loc.ateOff := dev.g.size;
      loc.passed := 0;
      RestStart(dev.mem, wrSector);
    }

    /** sfcb_next_in_sector: steps to the next slot; `more` is false for an erased slot
        and at the bottom of the sector. */
    method NextInSector(loc: Loc) returns (more: bool)
      requires dev.Valid() && loc.sector < dev.g.count
      requires loc.ateOff + REC * loc.passed == dev.g.size && REC <= loc.ateOff
      modifies loc
      ensures loc.sector == old(loc.sector) && loc.passed == old(loc.passed) + 1
      ensures loc.ateOff + REC * loc.passed == dev.g.size
      ensures more == !AtEnd(dev.mem[loc.sector], loc.passed - 1)
      ensures loc.valid == Slot(dev.mem[loc.sector], loc.passed - 1).Good?
      ensures loc.valid ==> Slot(dev.mem[loc.sector], loc.passed - 1) == Good(loc.ate)
    {
      loc.ateOff := loc.ateOff - REC;
      loc.passed := loc.passed + 1;
      var reading := ReadRecord(dev.mem[loc.sector], loc.ateOff);
      assert reading == Slot(dev.mem[loc.sector], loc.passed - 1);
      loc.valid := reading.Good?;
      if reading.Good? {
        loc.ate := reading.rec;
      }
      more := !(reading.Empty? || loc.ateOff == 0);
      SlotBottom(dev.g, loc.passed, loc.ateOff);
    }

    /** sfcb_next_loc: goes to the next valid entry, across torn ones and sector ends. */
    method NextLoc(loc: Loc) returns (found: bool)
      requires Framed() && LocOk(loc)
      modifies loc
      ensures Framed()
      ensures !found ==> old(LocRest(loc)) == []
      ensures found ==> old(LocRest(loc)) != [] && AtEntry(loc, old(LocRest(loc))[0])
      ensures found ==> LocRest(loc) == old(LocRest(loc))[1..] && loc.dataOff == 0
      ensures found && loc.sector == old(loc.sector) ==>
        EntriesFrom(dev.mem[loc.sector], old(loc.passed)) == [old(LocRest(loc))[0]] + EntriesFrom(dev.mem[loc.sector], loc.passed)
      ensures !found || loc.sector != old(loc.sector) ==>
        EntriesFrom(dev.mem[old(loc.sector)], old(loc.passed)) == []
    {
      hide EntriesFrom, Entries, LogFrom, ReadRecord, AtEnd, Slot, Count, Payload, Ring, WriteAt;
      ghost var rest, from := LocRest(loc), loc.sector;
      ghost var here := EntriesFrom(dev.mem[from], loc.passed);
      while true
        invariant LocOk(loc) && LocRest(loc) == rest
        invariant loc.sector == from ==> EntriesFrom(dev.mem[from], loc.passed) == here
        invariant loc.sector != from ==> here == [] && Behind(dev.g.count, wrSector, loc.sector) < Behind(dev.g.count, wrSector, from)
        decreases Behind(dev.g.count, wrSector, loc.sector), loc.ateOff
      {
        ghost var s, i := loc.sector, loc.passed;
        ghost var sec := dev.mem[s];
        RoomBelow(dev.g, dev.mem, wrSector, Id16(wrSectorId - 1), filled, s);
        WalkEnds(sec, i);
        var more := NextInSector(loc);
        if !more {
          if loc.sector == wrSector && loc.ateOff == wrAte {
            RestEnd(dev.mem, wrSector, i);
            return false;
          }
          EndIsWriteAte(dev.g, dev.mem[wrSector], wrData, wrAte, i, loc.ateOff, s == wrSector);
          RestSectorEnd(dev.mem, wrSector, s, i);
          loc.sector := Next(dev.g.count, loc.sector);
          loc.ateOff := dev.g.size;
          loc.passed := 0;
          continue;
        }
        RestStep(dev.mem, wrSector, s, i);
        if loc.valid {
          EntryOfSlot(dev.g, dev.mem, wrSector, Id16(wrSectorId - 1), filled, s, i);
          break;
        }
        NoEntryOfSlot(sec, i);
      }
      loc.dataOff := 0;
      return true;
    }

    // Reading

    /** sfcb_read_loc: the next `len` bytes of the entry, or what is left of it. */
    method ReadLoc(loc: Loc, len: nat, ghost e: Entry) returns (data: seq<byte>)
      requires Framed() && AtEntry(loc, e)
      modifies loc`dataOff
      ensures Framed() && AtEntry(loc, e)
      ensures |data| == (if old(loc.dataOff) + len > |e.data| then |e.data| - old(loc.dataOff) else len)
      ensures loc.dataOff == old(loc.dataOff) + |data|
      ensures data == e.data[old(loc.dataOff)..loc.dataOff]
      ensures LocRest(loc) == old(LocRest(loc))
    {
      hide Ring, WriteAt, Slot, Count, ReadRecord;
      var n := len;
      if loc.dataOff + n > loc.ate.len {
        n := loc.ate.len - loc.dataOff;
      }
      var off := loc.ate.off + loc.dataOff;
      data := CellBytes(dev.mem[loc.sector][off..off + n]);
      PayloadPart(dev.mem[loc.sector], loc.ate.off, loc.ate.len, loc.dataOff, n);
      loc.dataOff := loc.dataOff + n;
    }

    /** sfcb_setpos_loc: moves the read position within the entry. */
    method SetPos(loc: Loc, pos: nat, ghost e: Entry) returns (status: Status)
      requires Framed() && AtEntry(loc, e)
      modifies loc`dataOff
      ensures Framed() && AtEntry(loc, e)
      ensures status == (if old(IsWriteLoc(loc)) then NoAccess else if pos > |e.data| then Invalid else Ok)
      ensures loc.dataOff == if status == Ok then pos else old(loc.dataOff)
      ensures LocRest(loc) == old(LocRest(loc))
    {
      hide Ring, WriteAt, Slot, Count, ReadRecord, Payload;
      if loc.ateOff == wrAte && loc.sector == wrSector {
        return NoAccess;
      }
      if pos > loc.ate.len {
        return Invalid;
      }
      loc.dataOff := pos;
      return Ok;
    }

    /** A valid entry is never the location that is being written. */
    lemma EntryIsNotWriteLoc(loc: Loc, e: Entry)
      requires Framed() && AtEntry(loc, e)
      ensures !IsWriteLoc(loc)
    {
      hide Ring, Slot, Count, Payload;
    }

    /** Copies the location when its entry has the id. */
    method TakeIf(id: nat, walk: Loc, hit: Loc, ghost at: Entry) returns (matches: bool)
      requires Framed() && AtEntry(walk, at) && walk != hit
      modifies hit
      ensures Framed() && AtEntry(walk, at) && matches == (at.id == id)
      ensures if matches then AtEntry(hit, at) && hit.dataOff == walk.dataOff else unchanged(hit)
    {
      hide Ring, WriteAt, EntryIn, Count;
      EntryFacts(walk, at);
      matches := walk.ate.id == id;
      if matches {
        hit.Assign(walk);
        SameEntry(walk, hit, at);
      }
    }

    /** The walk of sfcb_read: leaves `hit` at the newest entry of `id`. */
    method FindNewest(id: nat, hit: Loc) returns (read: bool, ghost e: Entry)
      requires Framed()
      modifies hit
      ensures Framed()
      ensures read == Has(Log(dev.mem, wrSector), id)
      ensures read ==> AtEntry(hit, e) && hit.dataOff == 0 && e.data == Value(Log(dev.mem, wrSector), id)
    {
      hide EntriesFrom, Entries, LogFrom, ReadRecord, Slot, Count, Payload, Ring, WriteAt, Value, Log, Has, AtEntry, LocOk, LocRest;
      var walk := new Loc();
      StartLoc(walk);
      read, e := false, Entry(0, []);
      ghost var rest := Log(dev.mem, wrSector);
      ghost var seen: seq<Entry> := [];
      NothingSeen(id);
      var more := NextLoc(walk);
      if more {
        EntryFacts(walk, rest[0]);
      }
      while more
        invariant Framed() && fresh(walk)
        invariant Log(dev.mem, wrSector) == seen + rest
        invariant more ==> walk.dataOff == 0
        invariant more ==> rest != [] && AtEntry(walk, rest[0]) && LocOk(walk) && LocRest(walk) == rest[1..]
        invariant !more ==> rest == []
        invariant read == Has(seen, id)
        invariant read ==> AtEntry(hit, e) && hit.dataOff == 0 && e.data == Value(seen, id)
        decreases |rest|
      {
        ghost var at := rest[0];
        NewestSoFar(seen, at, id);
        var matches := TakeIf(id, walk, hit, at);
        if matches {
          read, e := true, at;
        }
        seen, rest := Shift(seen, rest);
        more := NextLoc(walk);
        if more {
          EntryFacts(walk, rest[0]);
        }
      }
      assert seen + rest == seen;
    }

    /** sfcb_read: the first `len` bytes of the newest entry of `id`. */
    method Read(id: nat, len: nat) returns (r: Option<seq<byte>>)
      requires Sound()
      ensures r.None? <==> !Has(Log(dev.mem, wrSector), id)
      ensures r.None? ==> Value(history, id) == []
      ensures r.Some? ==> var v := Value(history, id);
        r.value == if len <= |v| then v[..len] else v
    {
      hide EntriesFrom, Entries, LogFrom, ReadRecord, Slot, Count, Payload, Ring, WriteAt, Value, Log, Image, Has, LocOk;
      var loc := new Loc();
      HistoryValue(dev.g, dev.mem, wrSector, Id16(wrSectorId - 1), filled, history, id);
      var read; ghost var e;
      read, e := FindNewest(id, loc);
      if !read {
        return None;
      }
      var data := ReadLoc(loc, len, e);
      return Some(data);
    }

    // Writing

    /** Programs data in the free space of the write sector. */
    method ProgramData(off: nat, data: seq<byte>)
      requires Sound()
      requires wrData <= off && off + |data| <= wrAte
      requires Aligned(dev.g.wbs, off) && Aligned(dev.g.wbs, |data|)
      requires BlankRange(dev.mem[wrSector], off, off + |data|)
      modifies dev`mem, dev`trace
      ensures Sound()
      ensures dev.mem == old(dev.mem)[wrSector := Splice(old(dev.mem)[wrSector], off, RawCells(data))]
      ensures SameLogs(old(dev.mem), dev.mem, wrSector)
      ensures CrashSafe(dev.g, old(dev.trace), dev.trace, history)
    {
      hide EntriesFrom, Entries, ReadRecord, Slot, Count, Payload, Ring, WriteAt, Value, Log, Newer, Older, Recoverable;
      ghost var before := dev.mem;
      ghost var id := Id16(wrSectorId - 1);
      assert Blank(dev.mem[wrSector][off..off + |data|]) by {
        BlankSlice(dev.mem[wrSector], off, off + |data|);
      }
      InRing(dev.g, before, wrSector, id, filled);
      var torn := dev.Program(wrSector, off, RawCells(data));
      DataStep(dev.g, before, wrSector, id, filled, wrData, wrAte, torn);
      SameImage(dev.g, before, before[wrSector := torn], wrSector, id, filled, history);
      DataStep(dev.g, before, wrSector, id, filled, wrData, wrAte, dev.mem[wrSector]);
      SameImage(dev.g, before, dev.mem, wrSector, id, filled, history);
    }

    /** `loc` is the location being written; `loc.written` has been written to it. */
    ghost predicate Writing(loc: Loc)
      reads this, dev, loc
    {
      && Sound()
      && loc.sector == wrSector && loc.ateOff == wrAte
      && loc.ate.Ate? && loc.ate.off == wrData
      && loc.dataOff == |loc.written| <= loc.ate.len
      && wrData + AlignUp(dev.g.wbs, loc.ate.len) + REC <= wrAte
      && Buffered(dev.g.wbs, dev.mem[wrSector], wrData, wrAte + REC, loc.written, loc.dcache)
      && OpenedAs(loc.start, dev.mem, wrSector, wrData, wrAte + REC)
    }

    /** What every write into the free space keeps. */
    twostate predicate KeptLogs()
      reads this, dev
    {
      && OnlySector(old(dev.mem), dev.mem, wrSector)
      && |dev.mem| > 1 && wrSector < |dev.mem|
      && SameLogs(old(dev.mem), dev.mem, wrSector)
      && AgreeOutside(old(dev.mem)[wrSector], dev.mem[wrSector], wrData, wrAte)
      && CrashSafe(dev.g, old(dev.trace), dev.trace, history)
    }

    /** Programs the completed block of the cache. */
    method ProgramCache(at: nat, cache2: seq<byte>, ghost cache: seq<byte>, ghost written: seq<byte>, ghost more: seq<byte>, ghost len: nat)
      requires Sound()
      requires Buffered(dev.g.wbs, dev.mem[wrSector], wrData, wrAte + REC, written, cache)
      requires |written| + |more| <= len && wrData + AlignUp(dev.g.wbs, len) + REC <= wrAte
      requires var full := AlignDown(dev.g.wbs, |written|); var rem := |written| - full;
        && at == wrData + full && 0 < rem && more != []
        && rem + |more| == dev.g.wbs && cache2 == cache[..rem] + more
      modifies dev`mem, dev`trace
      ensures Sound() && KeptLogs()
      ensures Buffered(dev.g.wbs, dev.mem[wrSector], wrData, wrAte + REC, written + more, cache2)
      ensures AlignDown(dev.g.wbs, |written + more|) == |written + more|
    {
      hide EntriesFrom, Entries, ReadRecord, Slot, Count, Payload, Ring, Value, Log, Newer, Older, Recoverable, Clean, CopiesOnly,
        AlignUp, AlignDown, Aligned;
      FlushRoom(dev.g.wbs, wrData, |written|, len, wrAte);
      ghost var before := dev.mem[wrSector];
      ProgramData(at, cache2);
      FlushCache(dev.g.wbs, before, wrData, wrAte + REC, written, cache, more, cache2, dev.mem[wrSector]);
    }

    /** Programs whole blocks behind what is programmed already. */
    method ProgramBlocks(at: nat, blocks: seq<byte>, ghost cache: seq<byte>, ghost written: seq<byte>, ghost len: nat)
      requires Sound()
      requires Buffered(dev.g.wbs, dev.mem[wrSector], wrData, wrAte + REC, written, cache)
      requires AlignDown(dev.g.wbs, |written|) == |written| && Aligned(dev.g.wbs, |blocks|)
      requires at == wrData + |written| && |written| + |blocks| <= len
      requires wrData + AlignUp(dev.g.wbs, len) + REC <= wrAte
      modifies dev`mem, dev`trace
      ensures Sound() && KeptLogs()
      ensures Buffered(dev.g.wbs, dev.mem[wrSector], wrData, wrAte + REC, written + blocks, cache)
      ensures AlignDown(dev.g.wbs, |written + blocks|) == |written + blocks|
    {
      hide EntriesFrom, Entries, ReadRecord, Slot, Count, Payload, Ring, Value, Log, Newer, Older, Recoverable, Clean, CopiesOnly,
        AlignUp, AlignDown, Aligned;
      BlocksRoom(dev.g.wbs, wrData, |written|, |blocks|, len);
      ghost var before := dev.mem[wrSector];
      ProgramData(at, blocks);
      FlushBlocks(dev.g.wbs, before, wrData, wrAte + REC, written, cache, blocks, dev.mem[wrSector]);
    }

    /** sfcb_flash_write with a cache: whole blocks go to flash, the rest is kept. */
    method FlashWrite(off: nat, data: seq<byte>, cache: seq<byte>, ghost written: seq<byte>, ghost len: nat)
        returns (cache2: seq<byte>)
      requires Sound()
      requires Buffered(dev.g.wbs, dev.mem[wrSector], wrData, wrAte + REC, written, cache)
      requires off == wrData + |written| && |written| + |data| <= len
      requires wrData + AlignUp(dev.g.wbs, len) + REC <= wrAte
      modifies dev`mem, dev`trace
      ensures Sound() && KeptLogs()
      ensures Buffered(dev.g.wbs, dev.mem[wrSector], wrData, wrAte + REC, written + data, cache2)
    {
      hide Sound, Buffered, Log, Newer, Older, Recoverable, AlignUp, AlignDown, Aligned;
      var w := dev.g.wbs;
      cache2 := cache;
      Quiet();
      if |data| == 0 {
        assert written + data == written;
        return;
      }
      SoundAligned();
      AlignDownShift(w, wrData, |written|);
      CacheSize(w, dev.mem[wrSector], wrData, wrAte + REC, written, cache);
      var rem := off - AlignDown(w, off);
      var rest, at := data, off - rem;
      ghost var done := written;
      if rem > 0 {
        var cnt := w - rem;
        if cnt > |rest| {
          cnt := |rest|;
        }
        cache2 := cache[..rem] + rest[..cnt] + cache[rem + cnt..];
        if rem + |data| < w {
          assert rest[..cnt] == data;
          ghost var _ := FillCache(w, dev.mem[wrSector], wrData, wrAte + REC, written, cache, data);
          return;
        }
        done := JoinParts(written, data, cnt);
        assert cache2 == cache[..rem] + data[..cnt];
        ProgramCache(at, cache2, cache, written, data[..cnt], len);
        rest := rest[cnt..];
        at := at + w;
      }
      cache2 := FlashWriteAligned(at, rest, cache2, done, len);
    }

    /** The part of sfcb_flash_write behind the first, incomplete block. */
    method FlashWriteAligned(at: nat, data: seq<byte>, cache: seq<byte>, ghost written: seq<byte>, ghost len: nat)
        returns (cache2: seq<byte>)
      requires Sound()
      requires Buffered(dev.g.wbs, dev.mem[wrSector], wrData, wrAte + REC, written, cache)
      requires AlignDown(dev.g.wbs, |written|) == |written|
      requires at == wrData + |written| && |written| + |data| <= len
      requires wrData + AlignUp(dev.g.wbs, len) + REC <= wrAte
      modifies dev`mem, dev`trace
      ensures Sound() && KeptLogs()
      ensures Buffered(dev.g.wbs, dev.mem[wrSector], wrData, wrAte + REC, written + data, cache2)
    {
      hide Sound, Buffered, Log, Newer, Older, Recoverable, AlignUp, AlignDown, Aligned;
      var w := dev.g.wbs;
      cache2 := cache;
      Quiet();
      var rest := data;
      var cnt := AlignDown(w, |rest|);
      ghost var done := JoinParts(written, data, cnt);
      if cnt > 0 {
        ProgramBlocks(at, rest[..cnt], cache, written, len);
        rest := rest[cnt..];
      } else {
        assert written + data[..cnt] == written;
      }
      if |rest| > 0 {
        cache2 := rest + Ones(w - |rest|);
        RestartCache(w, dev.mem[wrSector], wrData, wrAte + REC, done, cache, rest, cache2);
      } else {
        assert done + rest == done;
      }
    }

    /** `loc` passes for the location that is being written. */
    ghost predicate IsWriteLoc(loc: Loc)
      reads this, loc
    {
      loc.sector == wrSector && loc.ateOff == wrAte
    }

    /** sfcb_init_loc: reserves space, always leaving an erased ATE slot below. */
    method InitLoc(loc: Loc, id: nat, len: nat) returns (status: Status)
      requires Idle()
      requires AlignUp(dev.g.wbs, len) + REC < 0x1_0000
      modifies loc
      ensures status == (if wrAte - wrData < AlignUp(dev.g.wbs, len) + REC then NoMemory else Ok)
      ensures status == Ok ==> Writing(loc) && loc.written == [] && loc.ate == Ate(id, wrData, len) && loc.start == dev.mem
      ensures Idle()
    {
      hide Image, Ring, Count, Slot, Buffered, AlignUp, Holds, LastEnd;
      var required := AlignUp(dev.g.wbs, len) + REC;
      if wrAte - wrData < required {
        return NoMemory;
      }
      loc.sector := wrSector;
      loc.dataOff := 0;
      loc.ateOff := wrAte;
      loc.dcache := Ones(dev.g.wbs);
      loc.written, loc.start := [], dev.mem;
      loc.ate, loc.valid := Ate(id, wrData, len), false;
      BufferedStart(dev.g.wbs, dev.mem[wrSector], wrData, wrAte + REC, loc.dcache);
      return Ok;
    }

    /** What sfcb_write_loc answers to `n` bytes: its space check is looser than the
        declared length. */
    ghost function WriteStatus(loc: Loc, n: nat): Status
      reads this, loc
    {
      if !IsWriteLoc(loc) then NoAccess
      else if loc.ate.Ate? && loc.dataOff + n > loc.ate.off + loc.ate.len then NoSpace
      else Ok
    }

    /** A caller that gets past the space check stays within the declared length. */
    ghost predicate MayWrite(loc: Loc, n: nat)
      reads this, dev, loc
    {
      IsWriteLoc(loc) ==>
        Writing(loc) && (WriteStatus(loc, n) == Ok ==> loc.dataOff + n <= loc.ate.len)
    }

    /** sfcb_write_loc */
    method WriteLoc(loc: Loc, data: seq<byte>) returns (status: Status)
      requires Sound() && MayWrite(loc, |data|)
      modifies dev`mem, dev`trace, loc
      ensures Sound() && KeptLogs()
      ensures status == old(WriteStatus(loc, |data|))
      ensures status == Ok ==> Writing(loc) && loc.ate == old(loc.ate) && loc.written == old(loc.written) + data
      ensures loc.start == old(loc.start)
      ensures status != Ok ==> dev.mem == old(dev.mem) && unchanged(loc)
    {
      hide Sound, Buffered, Log, Newer, Older, Recoverable, AlignUp, OpenedAs, SameLogs, OnlySector, AgreeOutside;
      Quiet();
      KeptNothing(dev.mem, wrSector, wrData, wrAte);
      CrashSafeNothing(dev.g, dev.trace, history);
      if loc.ateOff != wrAte || loc.sector != wrSector {
        return NoAccess;
      }
      if loc.dataOff + |data| > loc.ate.off + loc.ate.len {
        return NoSpace;
      }
      var cache := FlashWrite(wrData + loc.dataOff, data, loc.dcache, loc.written, loc.ate.len);
      OpenedMore(loc.start, old(dev.mem), dev.mem, wrSector, wrData, wrAte);
      loc.dcache := cache;
      loc.written := loc.written + data;
      loc.dataOff := loc.dataOff + |data|;
      return Ok;
    }

    /** The data of an entry of declared length `len` of which `written` was written. */
    ghost function Padded(written: seq<byte>, len: nat): seq<byte>
      requires |written| <= len
    {
      written + Ones(len - |written|)
    }

    /** sfcb_close_loc_no_unlock, first half: programs what is left in the cache. */
    method FlushRest(loc: Loc)
      requires Writing(loc)
      modifies dev`mem, dev`trace
      ensures Sound() && KeptLogs()
      ensures wrData + loc.ate.len <= |dev.mem[wrSector]|
      ensures Payload(dev.mem[wrSector], wrData, loc.ate.len) == Padded(loc.written, loc.ate.len)
      ensures BlankRange(dev.mem[wrSector], wrData + AlignUp(dev.g.wbs, loc.ate.len), wrAte + REC)
      ensures OpenedAs(loc.start, dev.mem, wrSector, wrData, wrAte + REC)
      ensures wrData + |loc.written| <= |loc.start[wrSector]|
      ensures dev.mem[wrSector] == Splice(loc.start[wrSector], wrData, RawCells(loc.written))
    {
      hide Sound, AlignUp, AlignDown, Payload, Buffered, BlankRange, OpenedAs, Splice, SameLogs, OnlySector, AgreeOutside, CrashSafe;
      Quiet();
      ghost var before := dev.mem[wrSector];
      OpenedSector(loc.start, dev.mem, wrSector, wrData, wrAte + REC);
      ProgramRest(loc);
      PayloadWritten(dev.g.wbs, before, wrData, wrAte + REC, loc.written, loc.dcache, dev.mem[wrSector], loc.ate.len);
      OpenedMore(loc.start, old(dev.mem), dev.mem, wrSector, wrData, wrAte);
      FlushedSector(dev.g.wbs, loc.start[wrSector], before, wrData, wrAte + REC, loc.written, loc.dcache, dev.mem[wrSector], loc.ate.len);
      OnesAre(loc.ate.len - |loc.written|);
    }

    /** Programs the block in the cache, if it is not full. */
    method ProgramRest(loc: Loc)
      requires Writing(loc)
      modifies dev`mem, dev`trace
      ensures Sound() && KeptLogs()
      ensures var full := AlignDown(dev.g.wbs, |loc.written|);
        if full == |loc.written| then dev.mem[wrSector] == old(dev.mem[wrSector])
        else
          && wrData + full + dev.g.wbs <= wrAte && |loc.dcache| == dev.g.wbs
          && wrData + full + dev.g.wbs <= |old(dev.mem[wrSector])|
          && dev.mem[wrSector] == Splice(old(dev.mem[wrSector]), wrData + full, RawCells(loc.dcache))
    {
      hide Sound, Log, Newer, Older, Recoverable, AlignUp, AlignDown, Aligned, Payload, Buffered, BlankRange, OpenedAs, Splice;
      Quiet();
      SoundAligned();
      CacheSize(dev.g.wbs, dev.mem[wrSector], wrData, wrAte + REC, loc.written, loc.dcache);
      OpenedSector(loc.start, dev.mem, wrSector, wrData, wrAte + REC);
      ghost var before := dev.mem[wrSector];
      var full := AlignDown(dev.g.wbs, loc.dataOff);
      if loc.dataOff != full {
        FlushRoom(dev.g.wbs, wrData, loc.dataOff, loc.ate.len, wrAte);
        PendingBlank(dev.g.wbs, before, wrData, wrAte + REC, loc.written, loc.dcache, full);
        ProgramData(wrData + full, loc.dcache);
      } else {
        CrashSafeNothing(dev.g, dev.trace, history);
      }
    }

    /** sfcb_close_loc_no_unlock, second half: the ATE commits the entry. A user entry
        extends the history, a copy made by compress does not. */
    method CommitAte(eid: nat, len: nat, ghost e: Entry, ghost copy: bool)
      requires Sound()
      requires wrData + AlignUp(dev.g.wbs, len) + REC <= wrAte
      requires BlankRange(dev.mem[wrSector], wrData + AlignUp(dev.g.wbs, len), wrAte + REC)
      requires e == Entry(eid, Payload(dev.mem[wrSector], wrData, len))
      requires if copy then CopiesOnly(dev.mem, wrSector) && SameView(Log(dev.mem, wrSector) + [e], Log(dev.mem, wrSector))
               else Clean(dev.mem, wrSector)
      modifies this`wrData, this`wrAte, this`history, dev`mem, dev`trace
      ensures Idle()
      ensures Committed(len, e, copy)
      ensures dev.mem == old(dev.mem)[wrSector := Splice(old(dev.mem)[wrSector], old(wrAte), RecordCells(Ate(eid, old(wrData), len)))]
    {
      hide EntriesFrom, Entries, ReadRecord, Slot, Count, Payload, Ring, Value, Log, Newer, Older, Recoverable, Image, AlignUp,
        Holds, Clean, CopiesOnly;
      ghost var id := Id16(wrSectorId - 1);
      ghost var before, h := dev.mem, history;
      ghost var sec, e2 := CommitStep(dev.g, before, wrSector, id, filled, wrData, wrAte, eid, len);
      AteAligned(dev.g, before[wrSector], wrData, wrAte);
      BlankSlice(before[wrSector], wrAte, wrAte + REC);
      var torn := dev.Program(wrSector, wrAte, RecordCells(Ate(eid, wrData, len)));
      TornStep(dev.g, before, wrSector, id, filled, wrData, wrAte, torn);
      SameImage(dev.g, before, before[wrSector := torn], wrSector, id, filled, h);
      if copy {
        CopyImage(dev.g, before, dev.mem, wrSector, id, filled, h, e);
      } else {
        CommitImage(dev.g, before, dev.mem, wrSector, id, filled, h, e);
        history := history + [e];
      }
      wrData := wrData + AlignUp(dev.g.wbs, len);
      wrAte := wrAte - REC;
      OneCommit(dev.g, old(dev.trace), before[wrSector := torn], dev.mem, h, history);
    }

    /** The state after an entry was committed. */
    twostate predicate Committed(len: nat, e: Entry, copy: bool)
      reads this, dev
    {
      && wrSector < |dev.mem| && |dev.mem| > 1
      && wrSector == old(wrSector) && wrSectorId == old(wrSectorId) && filled == old(filled)
      && wrData == old(wrData) + AlignUp(dev.g.wbs, len) && wrAte + REC == old(wrAte)
      && history == (if copy then old(history) else old(history) + [e])
      && OnlySector(old(dev.mem), dev.mem, wrSector)
      && Log(dev.mem, wrSector) == Log(old(dev.mem), wrSector) + [e]
      && Newer(dev.mem, wrSector) == Newer(old(dev.mem), wrSector) + [e]
      && (if copy then CopiesOnly(dev.mem, wrSector) else Clean(dev.mem, wrSector))
      && CrashSafeCommit(dev.g, old(dev.trace), dev.trace, old(history), history)
    }

    /** sfcb_close_loc_no_unlock */
    method CloseLocNoUnlock(loc: Loc, ghost e: Entry, ghost copy: bool)
      requires Writing(loc) && e == Entry(loc.ate.id, Padded(loc.written, loc.ate.len))
      requires if copy then CopiesOnly(dev.mem, wrSector) && SameView(Log(dev.mem, wrSector) + [e], Log(dev.mem, wrSector))
               else Clean(dev.mem, wrSector)
      modifies this`wrData, this`wrAte, this`history, dev`mem, dev`trace
      ensures Idle()
      ensures Committed(loc.ate.len, e, copy)
      ensures ClosedAs(loc, e, old(wrData), old(wrAte))
    {
      hide Sound, Buffered, SameView, Log, Newer, Older, Recoverable, AlignUp, Payload, BlankRange, Splice, AgreeOutside;
      Quiet();
      FlushRest(loc);
      ghost var flushed := dev.mem;
      ghost var h, mid := history, dev.trace;
      CommitAte(loc.ate.id, loc.ate.len, e, copy);
      CommitLast(dev.g, old(dev.trace), mid, dev.trace, h, history);
      OpenedSector(loc.start, flushed, wrSector, old(wrData), old(wrAte) + REC);
      ClosedMemory(loc.start, flushed, dev.mem, wrSector, Splice(loc.start[wrSector], old(wrData), RawCells(loc.written)), dev.mem[wrSector]);
    }

    /** Flash after closing: that at opening, with the data and the ATE in it, whatever was
        written when; and the log then, with the entry behind it. */
    ghost predicate ClosedAs(loc: Loc, e: Entry, base: nat, ate: nat)
      reads this, dev, loc
    {
      && wrSector < |dev.mem| && wrSector < |loc.start| && loc.ate.Ate?
      && base + |loc.written| <= |loc.start[wrSector]| && ate + REC <= |loc.start[wrSector]|
      && dev.mem == loc.start[wrSector := WithEntry(loc.start[wrSector], base, ate, loc.ate.id, loc.ate.len, loc.written)]
      && Log(dev.mem, wrSector) == Log(loc.start, wrSector) + [e]
    }

    /** sfcb_close_loc: the user's entry becomes part of the history. */
    method CloseLoc(loc: Loc) returns (status: Status)
      requires Idle() || Writing(loc)
      requires IsWriteLoc(loc) ==> Writing(loc) && Clean(dev.mem, wrSector)
      modifies this`wrData, this`wrAte, this`history, dev`mem, dev`trace
      ensures status == (if old(IsWriteLoc(loc)) then Ok else NoAccess)
      ensures status == Ok ==> Idle() && Committed(loc.ate.len, Entry(loc.ate.id, Padded(loc.written, loc.ate.len)), false)
      ensures status == Ok ==> ClosedAs(loc, Entry(loc.ate.id, Padded(loc.written, loc.ate.len)), old(wrData), old(wrAte))
      ensures status != Ok ==> Idle() && dev.mem == old(dev.mem) && dev.trace == old(dev.trace)
    {
      hide Sound, Image, Framed, Buffered, SameView, Log, Newer, Recoverable, Payload;
      if loc.ateOff != wrAte || loc.sector != wrSector {
        return NoAccess;
      }
      CloseLocNoUnlock(loc, Entry(loc.ate.id, Padded(loc.written, loc.ate.len)), false);
      return Ok;
    }

    /** sfcb_copy_loc: copies the entry at `loc` to the write sector. */
    method CopyLoc(loc: Loc, ghost e: Entry) returns (status: Status)
      requires Idle() && AtEntry(loc, e) && loc.sector != wrSector
      requires CopiesOnly(dev.mem, wrSector)
      requires SameView(Log(dev.mem, wrSector) + [e], Log(dev.mem, wrSector))
      modifies this`wrData, this`wrAte, this`history, dev`mem, dev`trace, loc`dataOff
      ensures Idle() && AtEntry(loc, e)
      ensures status == (if old(wrAte - wrData) < AlignUp(dev.g.wbs, |e.data|) + REC then NoMemory else Ok)
      ensures status == Ok ==> Committed(|e.data|, e, true)
      ensures status != Ok ==> dev.mem == old(dev.mem) && dev.trace == old(dev.trace)
      ensures status != Ok ==> wrData == old(wrData) && wrAte == old(wrAte) && history == old(history)
    {
      hide Image, Ring, Count, Slot, Buffered, SameView, Value, Log, Newer, Older, Recoverable, Payload, AlignUp, WriteAt,
        ReadRecord, BlankRange, Behind, CopiesOnly, EntryIn, ClosedAs, OpenedAs, AgreeOutside, CrashSafe, CrashSafeCommit;
      CopyLength(loc, e);
      Quiet();
      var newloc := new Loc();
      status := InitLoc(newloc, loc.ate.id, loc.ate.len);
      if status != Ok {
        return;
      }
      loc.dataOff := 0;
      var len := loc.ate.len;
      KeptNothing(dev.mem, wrSector, wrData, wrAte);
      CrashSafeNothing(dev.g, dev.trace, history);
      assert e.data[..0] == [];
      while len > 0
        invariant Writing(newloc) && fresh(newloc) && AtEntry(loc, e) && loc.ate == old(loc.ate)
        invariant newloc.ate == Ate(e.id, wrData, |e.data|)
        invariant loc.dataOff + len == |e.data| && newloc.written == e.data[..loc.dataOff]
        invariant KeptLogs()
        invariant wrData == old(wrData) && wrAte == old(wrAte) && history == old(history)
      {
        ghost var mem, trace := dev.mem, dev.trace;
        var n := CopyBlock(loc, newloc, e);
        KeptTwice(dev.g, old(dev.mem), mem, dev.mem, wrSector, old(dev.trace), trace, dev.trace, history, wrData, wrAte);
        len := len - n;
      }
      WholeOf(e.data, newloc.written);
      SameCopies(old(dev.mem), dev.mem, wrSector);
      ghost var h, mid := history, dev.trace;
      CloseLocNoUnlock(newloc, e, true);
      CommitLast(dev.g, old(dev.trace), mid, dev.trace, h, history);
    }

    /** One round of the loop of sfcb_copy_loc. */
    method CopyBlock(loc: Loc, newloc: Loc, ghost e: Entry) returns (n: nat)
      requires Writing(newloc) && AtEntry(loc, e) && loc != newloc && loc.sector != wrSector
      requires newloc.ate == Ate(e.id, wrData, |e.data|) && newloc.written == e.data[..loc.dataOff]
      requires loc.dataOff < |e.data|
      modifies dev`mem, dev`trace, newloc, loc`dataOff
      ensures Writing(newloc) && AtEntry(loc, e) && KeptLogs()
      ensures newloc.ate == old(newloc.ate) && newloc.written == e.data[..loc.dataOff]
      ensures 0 < n && loc.dataOff == old(loc.dataOff) + n
    {
      hide Image, Ring, Count, Slot, Buffered, Recoverable, Payload, WriteAt, EntryIn;
      ghost var at := loc.dataOff;
      var data := ReadLoc(loc, dev.g.wbs, e);
      PartOf(e.data, at, loc.dataOff);
      var ok := WriteLoc(newloc, data);
      n := |data|;
    }

    lemma CopyLength(loc: Loc, e: Entry)
      requires Framed() && AtEntry(loc, e)
      ensures loc.ate.Ate? && loc.ate.id == e.id && loc.ate.len == |e.data|
      ensures AlignUp(dev.g.wbs, loc.ate.len) + REC < 0x1_0000
    {
    }

    // Compressing: the routine of the README

    /** Is there no newer entry with the id of the one at `loc`? */
    method IsNewest(loc: Loc, walk: Loc, ghost e: Entry) returns (newest: bool)
      requires Framed() && AtEntry(loc, e) && loc != walk
      modifies walk
      ensures Framed() && AtEntry(loc, e)
      ensures newest == !Has(LocRest(loc), e.id)
    {
      hide Framed, AtEntry, LocOk, Has, LocRest;
      EntryFacts(loc, e);
      walk.Assign(loc);
      ghost var all := LocRest(loc);
      ghost var rest, seen := all, [];
      NothingSeen(e.id);
      assert LocRest(walk) == all by {
        SameRestLoc(loc, walk);
      }
      var more := NextLoc(walk);
      if more {
        EntryFacts(walk, rest[0]);
      }
      while more
        invariant Framed() && AtEntry(loc, e)
        invariant all == seen + rest && !Has(seen, e.id)
        invariant more ==> rest != [] && AtEntry(walk, rest[0]) && LocOk(walk) && LocRest(walk) == rest[1..]
        invariant !more ==> rest == []
        decreases |rest|
      {
        ghost var at := rest[0];
        EntryFacts(walk, at);
        NewestSoFar(seen, at, e.id);
        if walk.ate.id == loc.ate.id {
          HasConcat(seen, rest, e.id);
          HasFirst(rest, e.id);
          return false;
        }
        seen, rest := Shift(seen, rest);
        more := NextLoc(walk);
        if more {
          EntryFacts(walk, rest[0]);
        }
      }
      assert seen + rest == seen;
      return true;
    }

    lemma SameRestLoc(a: Loc, b: Loc)
      requires Framed() && LocOk(a)
      requires b.sector == a.sector && b.ateOff == a.ateOff && b.passed == a.passed
      ensures LocOk(b) && LocRest(b) == LocRest(a)
    {
    }

    /** Deals with one entry of the victim. */
    method CompressEntry(loc: Loc, walk: Loc, ghost e: Entry, ghost done: seq<Entry>, ghost todo: seq<Entry>, ghost plan: Plan)
        returns (status: Status)
      requires Idle() && loc != walk && AtEntry(loc, e)
      requires loc.sector == Next(dev.g.count, wrSector)
      requires EntriesFrom(dev.mem[loc.sector], loc.passed) == todo
      requires Settling(dev.mem, wrSector, done, [e] + todo)
      requires AsPlanned(dev.g.wbs, wrSector, plan, dev.mem, wrData, wrAte, [e] + todo)
      modifies this`wrData, this`wrAte, this`history, dev`mem, dev`trace, loc`dataOff, walk
      ensures Idle() && AtEntry(loc, e) && OnlySector(old(dev.mem), dev.mem, wrSector)
      ensures EntriesFrom(dev.mem[loc.sector], loc.passed) == todo
      ensures history == old(history) && CrashSafe(dev.g, old(dev.trace), dev.trace, history)
      ensures status == Ok ==> Settling(dev.mem, wrSector, done + [e], todo)
      ensures status == Ok ==> AsPlanned(dev.g.wbs, wrSector, plan, dev.mem, wrData, wrAte, todo)
      ensures old(Clean(dev.mem, wrSector)) ==>
        status == Ok && dev.mem == old(dev.mem) && wrData == old(wrData) && wrAte == old(wrAte)
      ensures old(Used(dev.g, done, wrData, wrAte)) ==> status == Ok && Used(dev.g, done + [e], wrData, wrAte)
      ensures status != Ok ==> CopiesOnly(dev.mem, wrSector)
    {
      hide EntriesFrom, Entries, LogFrom, Slot, Count, Payload, Ring, WriteAt, Has, Log, Newer, SameView, Recoverable, AlignUp,
        Settling, Used, BlankRange, AtEntry, Grown, AsPlanned;
      Quiet();
      ghost var before := dev.mem;
      ghost var data, ate := wrData, wrAte;
      ghost var copies := [];
      EntryFacts(loc, e);
      VictimRest(loc);
      UsedSkip2(dev.g, done, e, wrData, wrAte);
      var copy := IsNewest(loc, walk, e);
      if copy && loc.ate.len != 0 {
        if Clean(dev.mem, wrSector) {
          CleanNeedsNoCopy(dev.mem, wrSector, done, e, todo);
          assert false;
        }
        CopyKeepsView(dev.mem, wrSector, done, e, todo);
        VictimOk(dev.g, dev.mem, wrSector, Id16(wrSectorId - 1), filled);
        CopyFits2(dev.g, dev.mem, wrSector, done, e, todo, wrData, wrAte);
        status := CopyLoc(loc, e);
        if status != Ok {
          return;
        }
        SettlingCopy(before, dev.mem, wrSector, done, e, todo);
        copies := [e];
        GrownByOne(dev.g.wbs, wrSector, before, data, ate, dev.mem, wrData, wrAte, e);
      } else {
        NoData(e);
        GrownNot(dev.g.wbs, wrSector, dev.mem, wrData, wrAte);
        SettlingSkip(dev.mem, wrSector, done, e, todo);
        status := Ok;
      }
      PlanStep(dev.g.wbs, wrSector, plan, before, data, ate, dev.mem, wrData, wrAte, e, todo, copies);
    }

    /** At an entry of the victim, what follows is the rest of the victim and all newer entries. */
    lemma VictimRest(loc: Loc)
      requires Framed() && LocOk(loc) && loc.sector == Next(dev.g.count, wrSector)
      ensures LocRest(loc) == EntriesFrom(dev.mem[loc.sector], loc.passed) + Newer(dev.mem, wrSector)
    {
      hide EntriesFrom, LogFrom;
    }

    /** The walk over the victim goes on to its next entry, or leaves it. */
    method NextInVictim(loc: Loc, ghost todo: seq<Entry>) returns (more: bool, ghost e: Entry)
      requires Framed() && LocOk(loc) && loc.sector < |dev.mem| && todo == EntriesFrom(dev.mem[loc.sector], loc.passed)
      modifies loc
      ensures Framed() && (more ==> LocOk(loc) && loc.sector < |dev.mem|)
      ensures !more ==> todo == [] && old(LocRest(loc)) == []
      ensures more && loc.sector != old(loc.sector) ==> todo == []
      ensures more && loc.sector == old(loc.sector) ==>
        AtEntry(loc, e) && todo == [e] + EntriesFrom(dev.mem[loc.sector], loc.passed)
    {
      hide EntriesFrom, Ring, WriteAt, LocRest, AtEntry, Count;
      ghost var rest := LocRest(loc);
      e := Entry(0, []);
      more := NextLoc(loc);
      if more {
        e := rest[0];
        EntryFacts(loc, e);
      }
    }

    /** The compress routine: afterwards no value depends on the sector behind the write
        sector. It copies the live entries of that sector, in order, and nothing else; nothing
        at all when that is so already. It always succeeds in a fresh sector. */
    method Compress() returns (status: Status)
      requires Idle()
      modifies this`wrData, this`wrAte, this`history, dev`mem, dev`trace
      ensures Idle() && OnlySector(old(dev.mem), dev.mem, wrSector)
      ensures history == old(history) && CrashSafe(dev.g, old(dev.trace), dev.trace, history)
      ensures status == Ok ==> Clean(dev.mem, wrSector)
      ensures status != Ok ==> CopiesOnly(dev.mem, wrSector) && filled == dev.g.count
      ensures old(Clean(dev.mem, wrSector)) ==>
        status == Ok && dev.mem == old(dev.mem) && wrData == old(wrData) && wrAte == old(wrAte)
      ensures status == Ok ==>
        PlanDone(dev.g.wbs, wrSector, PlanOf(old(dev.mem), wrSector, old(wrData), old(wrAte)), dev.mem, wrData, wrAte)
      ensures old(wrData) == REC && old(wrAte) == dev.g.size - REC ==> status == Ok
    {
      hide EntriesFrom, Entries, LogFrom, Slot, Count, Payload, Ring, WriteAt, Has, Log, Newer, SameView, Recoverable, AlignUp,
        Settling, Used, BlankRange, AtEntry, Image, CopiesOnly, Clean, LocRest, Settled, AsPlanned, PlanDone, PlanOf,
        CrashSafe, LocOk, Tight, Behind, Idle, Framed;
      IdleFacts();
      ghost var plan := PlanOf(dev.mem, wrSector, wrData, wrAte);
      CrashSafeNothing(dev.g, dev.trace, history);
      PlanStart(dev.g.wbs, wrSector, dev.mem, wrData, wrAte);
      var loc := new Loc();
      var walk := new Loc();
      StartLoc(loc);
      var victim := Next(dev.g.count, wrSector);
      ghost var done: seq<Entry> := [];
      ghost var todo := EntriesFrom(dev.mem[victim], loc.passed);
      ghost var fresh0 := wrData == REC && wrAte == dev.g.size - REC;
      SettlingStart(dev.mem, wrSector);
      UsedStart(dev.g, wrData, wrAte);
      VictimEntries(dev.mem[victim]);
      var more; ghost var e;
      more, e := NextInVictim(loc, todo);
      if !more {
        EmptyIsClean(dev.mem, wrSector);
        return Ok;
      }
      while loc.sector == victim
        invariant Idle() && Framed() && wrSector < |dev.mem| && |dev.mem| > 1 && victim < |dev.mem|
        invariant fresh({loc, walk}) && loc != walk && LocOk(loc)
        invariant loc.sector == victim ==>
          AtEntry(loc, e) && todo == [e] + EntriesFrom(dev.mem[victim], loc.passed)
        invariant loc.sector != victim ==> todo == []
        invariant Settling(dev.mem, wrSector, done, todo)
        invariant OnlySector(old(dev.mem), dev.mem, wrSector)
        invariant history == old(history) && CrashSafe(dev.g, old(dev.trace), dev.trace, history)
        invariant old(Clean(dev.mem, wrSector)) ==>
          dev.mem == old(dev.mem) && wrData == old(wrData) && wrAte == old(wrAte)
        invariant fresh0 ==> Used(dev.g, done, wrData, wrAte)
        invariant AsPlanned(dev.g.wbs, wrSector, plan, dev.mem, wrData, wrAte, todo)
        decreases |todo|
      {
        ghost var mid := dev.trace;
        status := CompressEntry(loc, walk, e, done, EntriesFrom(dev.mem[victim], loc.passed), plan);
        IdleFacts();
        CrashSafeTrans(dev.g, old(dev.trace), mid, dev.trace, history);
        if status != Ok {
          VictimFilled(dev.g, dev.mem, wrSector, Id16(wrSectorId - 1), filled, done, e, todo[1..]);
          return;
        }
        done, todo := done + [e], EntriesFrom(dev.mem[victim], loc.passed);
        EntryFacts(loc, e);
        more, e := NextInVictim(loc, todo);
        if !more {
          break;
        }
      }
      SettlingEnd(dev.mem, wrSector, done);
      PlanEnd(dev.g.wbs, wrSector, plan, dev.mem, wrData, wrAte);
      return Ok;
    }

    // Rotating

    /** The sector after the write sector may be erased: whatever its first bytes are
        then, the history is still recovered. */
    ghost predicate MayErase(left: nat)
      reads this, dev
    {
      && dev.Valid() && wrSector < dev.g.count && wrSectorId < 0x1_0000 && left < dev.g.count
      && forall sec: Sector :: |sec| == dev.g.size && BlankRange(sec, REC, dev.g.size) && sec[0].Raw? ==>
           Image(dev.g, dev.mem[Next(dev.g.count, wrSector) := sec], wrSector, Id16(wrSectorId - 1), left, history)
    }

    /** sfcb_new_sector and sfcb_init_sector: erases the next sector and makes it the write
        sector. */
    method NewSector(ghost left: nat)
      requires MayErase(left)
      modifies this`wrSector, this`wrSectorId, this`wrData, this`wrAte, this`filled, dev`mem, dev`trace
      ensures Idle() && CopiesOnly(dev.mem, wrSector)
      ensures wrSector == Next(dev.g.count, old(wrSector)) && wrSectorId == Id16(old(wrSectorId) + 1)
      ensures wrData == REC && wrAte == dev.g.size - REC && filled == left + 1
      ensures CrashSafe(dev.g, old(dev.trace), dev.trace, history) && |old(dev.trace)| < |dev.trace|
      ensures Entries(dev.mem[wrSector]) == []
      ensures forall s :: 0 <= s < |dev.mem| && s != wrSector ==> s < |old(dev.mem)| && dev.mem[s] == old(dev.mem)[s]
    {
      hide Image, Ring, WriteAt, Recoverable, CopiesOnly, Id16, Entries, ReadRecord;
      ghost var id := Id16(wrSectorId - 1);
      ghost var before, wr := dev.mem, wrSector;
      wrSector := Next(dev.g.count, wrSector);
      dev.Erase(wrSector);
      ghost var erased := dev.mem;
      ErasedBlank(dev.g.size);
      ImageRecovers(dev.g, erased, wr, id, left, history);
      Id16Next(wrSectorId);
      StartAligned(dev.g);
      ghost var sec := StartStep(dev.g, erased, wr, id, left, history);
      BlankSlice(erased[wrSector], 0, REC);
      var torn := dev.Program(wrSector, 0, RecordCells(Start(wrSectorId)));
      TornStart(dev.g.size, erased[wrSector], torn);
      assert erased[wrSector := torn] == before[wrSector := torn];
      ImageRecovers(dev.g, erased[wrSector := torn], wr, id, left, history);
      assert dev.mem == erased[wrSector := sec];
      ImageIsRing(dev.g, dev.mem, wrSector, wrSectorId, left + 1, history);
      wrSectorId := Id16(wrSectorId + 1);
      wrAte := dev.g.size - REC;
      wrData := REC;
      filled := left + 1;
    }

    /** In a mounted store the next sector may be erased at any time. */
    lemma MountedMayErase() returns (left: nat)
      requires Mounted()
      ensures MayErase(left) && left == if filled == dev.g.count then filled - 1 else filled
    {
      hide Ring, WriteAt, Recoverable, Id16, Entries, ReadRecord, Clean, BlankRange;
      left := if filled == dev.g.count then filled - 1 else filled;
      RingFilled(dev.g, dev.mem, wrSector, Id16(wrSectorId - 1), filled);
      forall sec: Sector | |sec| == dev.g.size && BlankRange(sec, REC, dev.g.size) && sec[0].Raw?
        ensures Image(dev.g, dev.mem[Next(dev.g.count, wrSector) := sec], wrSector, Id16(wrSectorId - 1), left, history)
      {
        var l := EraseStep(dev.g, dev.mem, wrSector, Id16(wrSectorId - 1), filled, history, sec);
      }
    }

    /** One turn of the loop in sfcb_open_loc: a new sector, and compress. The new sector then
        holds the live entries of the one that is erased next, and nothing else. */
    method Rotate()
      requires Mounted()
      modifies this`wrSector, this`wrSectorId, this`wrData, this`wrAte, this`filled, this`history, dev`mem, dev`trace
      ensures Mounted() && history == old(history)
      ensures wrSector == Next(dev.g.count, old(wrSector)) && wrSectorId == Id16(old(wrSectorId) + 1)
      ensures filled == if old(filled) == dev.g.count then old(filled) else old(filled) + 1
      ensures Packed(dev.g, old(LiveAt(dev.mem, wrSector, 2)), wrData, wrAte)
      ensures Newer(dev.mem, wrSector) == old(Tail(dev.mem, wrSector, 3)) + old(LiveAt(dev.mem, wrSector, 2))
      ensures forall s :: 0 <= s < |dev.mem| && s != wrSector ==> s < |old(dev.mem)| && dev.mem[s] == old(dev.mem)[s]
      ensures CrashSafe(dev.g, old(dev.trace), dev.trace, history) && |old(dev.trace)| < |dev.trace|
    {
      hide Image, Ring, WriteAt, Recoverable, CopiesOnly, Clean, Id16, Entries, ReadRecord, BlankRange, Log, Newer, Tail, Live;
      ghost var left := MountedMayErase();
      ghost var before, wr := dev.mem, wrSector;
      NewSector(left);
      LogAfterErase(before, dev.mem, wr);
      ghost var mid := dev.trace;
      var status := Compress();
      CrashSafeTrans(dev.g, old(dev.trace), mid, dev.trace, history);
    }

    /** sfcb_open_loc: rotates until there is room, at most once round the ring. It succeeds if
        and only if there is room at once, or beside the live entries of some sector. */
    method OpenLoc(loc: Loc, id: nat, len: nat) returns (status: Status)
      requires Mounted()
      requires AlignUp(dev.g.wbs, len) + REC < 0x1_0000
      modifies this`wrSector, this`wrSectorId, this`wrData, this`wrAte, this`filled, this`history, dev`mem, dev`trace, loc
      ensures Mounted() && history == old(history)
      ensures CrashSafe(dev.g, old(dev.trace), dev.trace, history)
      ensures dev.mem == old(dev.mem) || |old(dev.trace)| < |dev.trace|
      ensures status == (if old(Takes(len)) then Ok else NoMemory)
      ensures status == Ok ==> Writing(loc) && loc.written == [] && loc.ate == Ate(id, wrData, len) && loc.start == dev.mem
      ensures old(HasRoom(len)) ==> dev.mem == old(dev.mem) && wrSector == old(wrSector)
      ensures status == NoMemory ==> wrSectorId == Id16(old(wrSectorId) + dev.g.count) && |old(dev.trace)| < |dev.trace|
    {
      hide Image, Framed, Recoverable, Clean, BlankRange, Buffered, Id16, Next, Rotated, LiveAt, FitsBeside, Tail, Newer,
        SomeTakes, Packed, CrashSafe, AlignUp;
      Quiet();
      IdAhead(wrSectorId, 0);
      var rotations := 0;
      ghost var m0, wr0 := dev.mem, wrSector;
      ghost var copies: seq<Entry> := [];
      RotatedNot(m0, wr0);
      CrashSafeNothing(dev.g, dev.trace, history);
      while true
        invariant Mounted() && history == old(history)
        invariant CrashSafe(dev.g, old(dev.trace), dev.trace, history)
        invariant |old(dev.trace)| <= |dev.trace| && (rotations > 0 ==> |old(dev.trace)| < |dev.trace|)
        invariant rotations < dev.g.count && wrSectorId == Id16(old(wrSectorId) + rotations)
        invariant rotations == 0 ==> dev.mem == m0 && wrSector == wr0 && wrData == old(wrData) && wrAte == old(wrAte)
        invariant Rotated(m0, wr0, dev.mem, wrSector, rotations, copies)
        invariant rotations > 0 ==> !old(HasRoom(len)) && Packed(dev.g, LiveAt(m0, wr0, rotations + 1), wrData, wrAte)
        invariant forall k :: 2 <= k <= rotations ==> !FitsBeside(dev.g, LiveAt(m0, wr0, k), len)
        decreases dev.g.count - rotations
      {
        status := InitLoc(loc, id, len);
        RoomIfPacked(m0, wr0, rotations + 1, len);
        if status != NoMemory {
          if rotations > 0 {
            ThisTakes(dev.g, m0, wr0, len, rotations + 1);
          }
          return;
        }
        ghost var mid, m1, wr1 := dev.trace, dev.mem, wrSector;
        FramedBounds();
        Rotate();
        FramedBounds();
        CrashSafeTrans(dev.g, old(dev.trace), mid, dev.trace, history);
        IdAhead(old(wrSectorId), rotations);
        if rotations + 1 == dev.g.count {
          NoneTakes(dev.g, m0, wr0, len);
          return NoMemory;
        }
        RotatedMore(m0, wr0, m1, wr1, rotations, copies, dev.mem, wrSector);
        copies := copies + LiveAt(m0, wr0, rotations + 2);
        rotations := rotations + 1;
      }
    }

    /** All entries in flash, oldest first. */
    ghost function InFlash(): seq<Entry>
      reads this, dev
      requires Framed()
    {
      Log(dev.mem, wrSector)
    }

    /** The newest entry in flash. */
    ghost predicate LogEndsWith(e: Entry)
      reads this, dev
    {
      wrSector < |dev.mem| && Log(dev.mem, wrSector) != [] && Log(dev.mem, wrSector)[|Log(dev.mem, wrSector)| - 1] == e
    }

    /** The write sector has room for an entry. */
    ghost predicate HasRoom(len: nat)
      reads this, dev
    {
      wrData + AlignUp(dev.g.wbs, len) + REC <= wrAte
    }

    /** Two sectors or more of the ring are not in use yet, and the entry fits a sector. */
    ghost predicate GrowsInto(len: nat)
      reads this, dev
    {
      filled + 1 < dev.g.count && AlignUp(dev.g.wbs, len) + 3 * REC <= dev.g.size
    }

    /** There is room at once, or some other sector than the one that is erased next would take
        the entry beside its live entries. */
    ghost predicate Takes(len: nat)
      reads this, dev
    {
      HasRoom(len) || SomeTakes(dev.g, dev.mem, wrSector, len)
    }

    lemma RoomIfPacked(m: Memory, wr: nat, k: nat, len: nat)
      requires wr < |m| && k <= |m|
      ensures Packed(dev.g, LiveAt(m, wr, k), wrData, wrAte) ==> HasRoom(len) == FitsBeside(dev.g, LiveAt(m, wr, k), len)
    {
      hide LiveAt, Space, AlignUp;
    }

    lemma RoomIsTaken(len: nat)
      requires Mounted() && (HasRoom(len) || GrowsInto(len))
      ensures Takes(len)
    {
      hide Image, Recoverable, Clean, BlankRange, WriteAt, SectorOk, Entries;
      if !HasRoom(len) {
        var s := Ahead(dev.g.count, wrSector, 2);
        assert Behind(dev.g.count, wrSector, s) == dev.g.count - 2;
        assert RingSector(dev.g, dev.mem[s], Behind(dev.g.count, wrSector, s), Id16(wrSectorId - 1), filled);
        assert LiveAt(dev.mem, wrSector, 2) == [];
        ThisTakes(dev.g, dev.mem, wrSector, len, 2);
      }
    }

    /** Every value that the history has fits into `room`, and a sector has space for that and
        an entry of `len` bytes besides. */
    ghost predicate HoldsBeside(room: seq<Entry>, len: nat)
      reads this, dev
    {
      && Space(dev.g.wbs, room) + AlignUp(dev.g.wbs, len) + REC * (|room| + 3) <= dev.g.size
      && forall id: nat :: Value(history, id) != [] ==> Placed(Entry(id, Value(history, id)), room)
    }

    /** As long as the values in the store and the new entry fit one sector, the entry is
        taken, whatever else is in flash. */
    lemma ValuesLeaveRoom(len: nat, room: seq<Entry>)
      requires Mounted() && HoldsBeside(room, len)
      ensures Takes(len)
    {
      hide Ring, Recoverable, BlankRange, WriteAt, SectorOk, Entries, Value, Has, Space, AlignUp, Live, LogFrom, Tail, Placed;
      var m, wr := dev.mem, wrSector;
      var todo, rest := Entries(m[Ahead(|m|, wr, 2)]), Tail(m, wr, 3);
      TailIsNewer(m, wr);
      TailSplits(m, wr, 2);
      LiveAreValues(todo, rest);
      var live := LiveAt(m, wr, 2);
      forall i | 0 <= i < |live| ensures Placed(live[i], room) {
        var e := live[i];
        assert e in live;
        assert Value(Newer(m, wr), e.id) == Value(Log(m, wr), e.id) == Value(history, e.id);
      }
      SpaceWithin(dev.g.wbs, live, room);
      ThisTakes(dev.g, m, wr, len, 2);
    }

    /** sfcb_write: the entry is in the history if and only if the call succeeds, and a
        power cut on the way leaves either history. */
    method Write(id: nat, data: seq<byte>) returns (status: Status)
      requires Mounted()
      requires AlignUp(dev.g.wbs, |data|) + REC < 0x1_0000
      modifies this`wrSector, this`wrSectorId, this`wrData, this`wrAte, this`filled, this`history, dev`mem, dev`trace
      ensures Mounted()
      ensures status == Ok || status == NoMemory
      ensures status == (if old(Takes(|data|)) then Ok else NoMemory)
      ensures status == Ok ==> history == old(history) + [Entry(id, data)]
      ensures status == Ok ==> LogEndsWith(Entry(id, data))
      ensures old(HasRoom(|data|)) ==> wrSector == old(wrSector) && Log(dev.mem, wrSector) == Log(old(dev.mem), wrSector) + [Entry(id, data)]
      ensures status == Ok ==> CrashSafeCommit(dev.g, old(dev.trace), dev.trace, old(history), history)
      ensures status != Ok ==> history == old(history) && CrashSafe(dev.g, old(dev.trace), dev.trace, history)
      ensures |old(dev.trace)| < |dev.trace|
    {
      hide Image, Framed, Recoverable, BlankRange, Buffered, SameView, Log, Newer, Older, SomeTakes, AlignUp, CrashSafe,
        CrashSafeCommit, OpenedAs, ClosedAs, LogEndsWith;
      if HasRoom(|data|) {
        RoomIsTaken(|data|);
      }
      var loc := new Loc();
      status := OpenLoc(loc, id, |data|);
      if status != Ok {
        return;
      }
      ghost var h, mid := history, dev.trace;
      var written := WriteLoc(loc, data);
      CrashSafeTrans(dev.g, old(dev.trace), mid, dev.trace, h);
      assert [] + data == data;
      PaddedWhole(data);
      status := CloseWritten(loc, old(dev.trace), Entry(id, data));
      Extends(dev.g, old(dev.trace), dev.trace, h, history);
    }

    lemma OpenIsWriteLoc(loc: Loc)
      requires Writing(loc)
      ensures IsWriteLoc(loc) && loc.ate.Ate? && |loc.written| <= loc.ate.len
      ensures wrSector < |dev.mem| && |dev.mem| > 1
    {
    }

    /** sfcb_close_loc of the entry that was written since the trace was `t0`. */
    method CloseWritten(loc: Loc, ghost t0: seq<Memory>, ghost e: Entry) returns (status: Status)
      requires Writing(loc) && wrSector < |dev.mem| && |dev.mem| > 1 && Clean(dev.mem, wrSector)
      requires loc.ate.Ate? && |loc.written| <= loc.ate.len && e == Entry(loc.ate.id, Padded(loc.written, loc.ate.len))
      requires CrashSafe(dev.g, t0, dev.trace, history)
      modifies this`wrData, this`wrAte, this`history, dev`mem, dev`trace
      ensures status == Ok && Mounted() && history == old(history) + [e]
      ensures wrData == old(wrData) + AlignUp(dev.g.wbs, loc.ate.len) && wrAte + REC == old(wrAte)
      ensures ClosedAs(loc, e, old(wrData), old(wrAte)) && LogEndsWith(e)
      ensures wrSector < |loc.start| && Log(dev.mem, wrSector) == Log(loc.start, wrSector) + [e]
      ensures CrashSafeCommit(dev.g, t0, dev.trace, old(history), history) && old(dev.trace) <= dev.trace
    {
      hide Image, Framed, Recoverable, BlankRange, Buffered, SameView, Log, Newer, Older, AlignUp, Padded, OpenedAs, WithEntry;
      ghost var h, mid := history, dev.trace;
      status := CloseLoc(loc);
      CommitLast(dev.g, t0, mid, dev.trace, h, history);
      Extends(dev.g, mid, dev.trace, h, history);
    }

    /** sfcb_write_loc, one of several for an entry. */
    method WritePart(loc: Loc, data: seq<byte>, ghost t0: seq<Memory>)
      requires Writing(loc) && Clean(dev.mem, wrSector)
      requires |loc.written| + |data| <= loc.ate.len
      requires CrashSafe(dev.g, t0, dev.trace, history)
      modifies dev`mem, dev`trace, loc
      ensures Writing(loc) && Clean(dev.mem, wrSector)
      ensures loc.ate == old(loc.ate) && loc.written == old(loc.written) + data && loc.start == old(loc.start)
      ensures CrashSafe(dev.g, t0, dev.trace, history)
    {
      hide Image, Framed, Recoverable, Buffered, SameView, Log, Newer, Older;
      ghost var t := dev.trace;
      var status := WriteLoc(loc, data);
      CrashSafeTrans(dev.g, t0, t, dev.trace, history);
    }

    // Mounting

    /** sfcb_fs_check: finds the newest sector by comparing ids across wrap-around. */
    method FsCheck(ghost wr: nat, ghost id: nat, ghost filled: nat) returns (status: Status)
      requires dev.Valid()
      modifies this`wrSector, this`wrSectorId
      ensures Ring(dev.g, dev.mem, wr, id, filled) ==> status == Ok && wrSector == wr && wrSectorId == id
      ensures (forall s :: 0 <= s < |dev.mem| ==> NoStart(dev.mem[s])) ==> status == NoAccess
    {
      hide Entries, SectorOk, ReadRecord, Id16, Scmp, Ring;
      ghost var ring := Ring(dev.g, dev.mem, wr, id, filled);
      var none := dev.g.count;
      wrSector, wrSectorId := none, 0;
      RingHasNewest(dev.g, dev.mem, wr, id, filled);
      for i := 0 to dev.g.count
        invariant wrSector == none ==> forall s :: 0 <= s < i && ring ==> filled <= Behind(dev.g.count, wr, s)
        invariant wrSector != none ==> wrSector < i && !NoStart(dev.mem[wrSector])
        invariant ring && wrSector != none ==> wrSectorId == Id16(id - Behind(dev.g.count, wr, wrSector))
        invariant ring && wrSector != none ==> Behind(dev.g.count, wr, wrSector) < filled
        invariant ring && wrSector != none ==>
          forall s :: 0 <= s < i ==> Behind(dev.g.count, wr, wrSector) <= Behind(dev.g.count, wr, s)
      {
        StartInRing(dev.g, dev.mem, wr, id, filled, i);
        match ReadRecord(dev.mem[i], 0)
        case Good(Start(secId)) =>
          if wrSector == none {
            wrSectorId := secId;
            wrSector := i;
          }
          CompareInRing(dev.g, dev.mem, wr, id, filled, i, wrSector, secId, wrSectorId);
          if Scmp(secId, wrSectorId) > 0 {
            wrSectorId := secId;
            wrSector := i;
          }
        case _ =>
      }
      if wrSector == none {
        return NoAccess;
      }
      return Ok;
    }

    /** The first part of sfcb_fs_init: rebuilds the write offsets from flash. */
    method RecoverOffsets()
      requires dev.Valid() && wrSector < dev.g.count && wrSectorId < 0x1_0000
      requires SectorOk(dev.g.wbs, dev.mem[wrSector])
      modifies this`wrSectorId, this`wrData, this`wrAte
      ensures wrSectorId == Id16(old(wrSectorId) + 1)
      ensures WriteAt(dev.g, dev.mem[wrSector], wrData, wrAte)
      ensures BlankRange(dev.mem[wrSector], wrData, wrAte + REC)
      ensures Tight(dev.g.wbs, dev.mem[wrSector], wrData)
    {
      hide EntriesFrom, Entries, ReadRecord, Space, Aligned, AlignUp;
      ghost var w, sec, n := dev.g.wbs, dev.mem[wrSector], Count(dev.mem[wrSector], 0);
      wrSectorId := Id16(wrSectorId + 1);
      wrAte := dev.g.size;
      wrData := REC;
      ghost var i: nat := 0;
      while wrAte > REC
        invariant i <= n && wrAte + REC * i == dev.g.size
        invariant wrData == LastEnd(w, sec, i) && wrSectorId == Id16(old(wrSectorId) + 1)
        decreases wrAte
      {
        wrAte := wrAte - REC;
        var reading := ReadRecord(dev.mem[wrSector], wrAte);
        SlotAt(w, sec, n, i, wrAte);
        if reading.Empty? {
          break;
        }
        if reading.Good? {
          wrData := reading.rec.off + AlignUp(dev.g.wbs, reading.rec.len);
        }
        i := i + 1;
      }
      AteAligned(dev.g, sec, wrData, wrAte);
      BlankSlot2(sec, n, wrAte);
      FindData();
    }

    /** The second part: data behind the last valid entry, from writes that were cut
        short, is skipped. */
    method FindData()
      requires dev.Valid() && wrSector < dev.g.count
      requires wrAte + REC <= dev.g.size && wrData <= wrAte
      requires WriteAt(dev.g, dev.mem[wrSector], wrData, wrAte)
      requires wrData == LastEnd(dev.g.wbs, dev.mem[wrSector], Count(dev.mem[wrSector], 0))
      requires Aligned(dev.g.wbs, wrAte)
      requires BlankRange(dev.mem[wrSector], wrAte, wrAte + REC)
      modifies this`wrData
      ensures WriteAt(dev.g, dev.mem[wrSector], wrData, wrAte)
      ensures BlankRange(dev.mem[wrSector], wrData, wrAte + REC)
      ensures Tight(dev.g.wbs, dev.mem[wrSector], wrData)
    {
      hide Entries, ReadRecord, Space, Aligned, Count, Holds, LastEnd;
      var w := dev.g.wbs;
      var dataOff := wrAte;
      while wrData < dataOff
        invariant wrData == old(wrData) <= dataOff <= wrAte && Aligned(w, dataOff)
        invariant BlankRange(dev.mem[wrSector], dataOff, wrAte + REC)
        decreases dataOff
      {
        AlignedBelow(w, wrData, dataOff);
        dataOff := dataOff - w;
        if !Blank(dev.mem[wrSector][dataOff..dataOff + w]) {
          dataOff := dataOff + w;
          NotBlank(dev.mem[wrSector], dataOff - w, dataOff);
          break;
        }
        BlankMore(dev.mem[wrSector], dataOff, dataOff + w, wrAte + REC);
      }
      if dataOff > wrData {
        wrData := dataOff;
      }
    }

    /** sfcb_fs_init behind the offsets: finishes an interrupted compress. When that runs
        out of space, the write sector is erased and compressed into again. */
    method FinishCompress()
      requires Idle()
      modifies this`wrSector, this`wrSectorId, this`wrData, this`wrAte, this`filled, this`history, dev`mem, dev`trace
      ensures Mounted() && history == old(history)
      ensures CrashSafe(dev.g, old(dev.trace), dev.trace, history)
      ensures old(Clean(dev.mem, wrSector)) ==> dev.mem == old(dev.mem)
      ensures old(Clean(dev.mem, wrSector)) ==>
        wrSector == old(wrSector) && wrSectorId == old(wrSectorId) && wrData == old(wrData) && wrAte == old(wrAte)
    {
      hide Image, Ring, WriteAt, Recoverable, CopiesOnly, Clean, Id16, Entries, ReadRecord, BlankRange;
      var status := Compress();
      if status != Ok {
        ghost var mid := dev.trace;
        ghost var wr, next := wrSector, wrSectorId;
        wrSector := Prev(dev.g.count, wrSector);
        wrSectorId := Id16(wrSectorId - 1);
        FallbackMayErase(wr, next);
        NewSector(dev.g.count - 1);
        CrashSafeTrans(dev.g, old(dev.trace), mid, dev.trace, history);
        mid := dev.trace;
        status := Compress();
        CrashSafeTrans(dev.g, old(dev.trace), mid, dev.trace, history);
      }
    }

    /** After a failed compress the write sector may be erased. */
    lemma FallbackMayErase(wr: nat, next: nat)
      requires dev.Valid() && wr < dev.g.count && next < 0x1_0000
      requires Image(dev.g, dev.mem, wr, Id16(next - 1), dev.g.count, history) && CopiesOnly(dev.mem, wr)
      requires wrSector == Prev(dev.g.count, wr) && wrSectorId == Id16(next - 1)
      ensures MayErase(dev.g.count - 1)
    {
      hide Ring, Recoverable, Entries, ReadRecord, BlankRange;
      forall sec: Sector | |sec| == dev.g.size && BlankRange(sec, REC, dev.g.size) && sec[0].Raw?
        ensures Image(dev.g, dev.mem[Next(dev.g.count, wrSector) := sec], wrSector, Id16(wrSectorId - 1), dev.g.count - 1, history)
      {
        FallbackStep(dev.g, dev.mem, wr, Id16(next - 1), history, sec);
      }
    }

    /** sfcb_mount: recovers the history from any flash state a power cut may leave. */
    method Mount(ghost h: seq<Entry>) returns (status: Status)
      requires dev.Valid()
      requires Recoverable(dev.g, dev.mem, h) || forall s :: 0 <= s < |dev.mem| ==> NoStart(dev.mem[s])
      modifies this`wrSector, this`wrSectorId, this`wrData, this`wrAte, this`filled, this`history, dev`mem, dev`trace
      ensures old(Recoverable(dev.g, dev.mem, h)) ==> status == Ok && Mounted() && history == h
      ensures old(Recoverable(dev.g, dev.mem, h)) ==> CrashSafe(dev.g, old(dev.trace), dev.trace, h)
      ensures forall wr: nat, id: nat, n: nat | old(Image(dev.g, dev.mem, wr, id, n, h) && Clean(dev.mem, wr)) ::
        dev.mem == old(dev.mem) && wrSector == wr && wrSectorId == Id16(id + 1)
      ensures !old(Recoverable(dev.g, dev.mem, h)) ==>
        status == NoAccess && dev.mem == old(dev.mem) && dev.trace == old(dev.trace)
    {
      hide Image, Ring, WriteAt, CopiesOnly, Clean, Id16, Entries, ReadRecord, BlankRange, SectorOk, NoStart;
      ghost var wr: nat, id: nat, n: nat := 0, 0, 0;
      if Recoverable(dev.g, dev.mem, h) {
        wr, id, n :| Image(dev.g, dev.mem, wr, id, n, h);
        ImageIsRing(dev.g, dev.mem, wr, id, n, h);
      }
      status := FsCheck(wr, id, n);
      if status != Ok {
        return;
      }
      RingSectorOk(dev.g, dev.mem, wr, id, n);
      Id16Next(id);
      RecoverOffsets();
      filled, history := n, h;
      ghost var before := dev.mem;
      forall wr2: nat, id2: nat, n2: nat | Image(dev.g, before, wr2, id2, n2, h)
        ensures wr2 == wr && id2 == id
      {
        ImageIsRing(dev.g, before, wr2, id2, n2, h);
        RingIsUnique(dev.g, before, wr, id, n, wr2, id2, n2);
      }
      FinishCompress();
    }

    /** Unmounting and mounting again restores the RAM state exactly and leaves the flash
        alone. */
    method Remount()
      requires Mounted()
      modifies this`wrSector, this`wrSectorId, this`wrData, this`wrAte, this`filled, this`history, dev`mem, dev`trace
      ensures Mounted() && history == old(history) && dev.mem == old(dev.mem)
      ensures wrSector == old(wrSector) && wrSectorId == old(wrSectorId)
      ensures wrData == old(wrData) && wrAte == old(wrAte)
    {
      hide Image, Ring, WriteAt, Recoverable, CopiesOnly, Clean, Id16, Entries, ReadRecord, BlankRange;
      ghost var id, n := Id16(wrSectorId - 1), filled;
      ImageRecovers(dev.g, dev.mem, wrSector, id, n, history);
      Id16Next(wrSectorId);
      var status := Mount(history);
      assert Image(dev.g, old(dev.mem), old(wrSector), id, n, old(history));
      OffsetsUnique(dev.g, dev.mem[wrSector], old(wrData), old(wrAte), wrData, wrAte);
    }

    /** sfcb_format, for an area whose sectors with an empty first ATE slot are erased:
        the formatted area holds the empty history. */
    method Format()
      requires dev.Valid()
      requires forall s :: 0 <= s < |dev.mem| && Slot(dev.mem[s], 0).Empty? ==> Blank(dev.mem[s])
      modifies this`wrSector, this`wrSectorId, this`wrData, this`wrAte, dev`mem, dev`trace
      ensures Recoverable(dev.g, dev.mem, [])
    {
      hide ReadRecord;
      var i := 0;
      while i < dev.g.count
        invariant i <= dev.g.count && dev.Valid()
        invariant forall s :: 0 <= s < i ==> Blank(dev.mem[s])
        invariant forall s :: i <= s < |dev.mem| && Slot(dev.mem[s], 0).Empty? ==> Blank(dev.mem[s])
      {
        var first := ReadRecord(dev.mem[i], dev.g.size - REC);
        assert first == Slot(dev.mem[i], 0);
        if i == 0 || !first.Empty? {
          dev.Erase(i);
        }
        i := i + 1;
      }
      wrSector, wrSectorId := 0, 0;
      StartAligned(dev.g);
      ghost var torn := dev.Program(0, 0, RecordCells(Start(0)));
      wrSectorId, wrAte, wrData := 1, dev.g.size - REC, REC;
      FormattedImage(dev.g, dev.mem);
    }

    lemma Quiet()
      requires Sound()
      ensures wrSector < |dev.mem| && |dev.mem| > 1 && |dev.mem| == dev.g.count && wrSectorId < 0x1_0000
    {
    }

    lemma IdleFacts()
      requires Idle()
      ensures Framed() && Sound()
      ensures wrSector < |dev.mem| && |dev.mem| > 1 && |dev.mem| == dev.g.count && dev.Valid()
      ensures Ring(dev.g, dev.mem, wrSector, Id16(wrSectorId - 1), filled)
    {
      hide Image, Ring, WriteAt, BlankRange, Tight;
    }

    lemma SoundAligned()
      requires Sound()
      ensures Aligned(dev.g.wbs, wrData)
    {
    }
  }

  lemma JoinParts(written: seq<byte>, data: seq<byte>, cnt: nat) returns (done: seq<byte>)
    requires cnt <= |data|
    ensures done == written + data[..cnt] && |done| == |written| + cnt
    ensures done + data[cnt..] == written + data
  {
    done := written + data[..cnt];
    assert data == data[..cnt] + data[cnt..];
  }

  lemma OnesAre(n: nat)
    ensures Ones(n) == seq(n, _ => 0xff)
  {
  }

  lemma PendingBlank(w: Wbs, sec: Sector, base: nat, top: nat, written: seq<byte>, cache: seq<byte>, full: nat)
    requires Buffered(w, sec, base, top, written, cache)
    requires full == AlignDown(w, |written|) && base + full + w <= top
    ensures BlankRange(sec, base + full, base + full + w)
  {
  }

  lemma CacheSize(w: Wbs, sec: Sector, base: nat, top: nat, written: seq<byte>, cache: seq<byte>)
    requires Buffered(w, sec, base, top, written, cache)
    ensures |cache| == w
  {
  }

  lemma AteAligned(g: Geometry, sec: Sector, data: nat, ate: nat)
    requires g.Valid() && WriteAt(g, sec, data, ate)
    ensures Aligned(g.wbs, ate) && Aligned(g.wbs, REC) && ate + REC <= g.size
  {
    hide Holds, LastEnd;
    SlotAligned(g, Count(sec, 0));
  }

  lemma SlotAligned(g: Geometry, n: nat)
    requires g.Valid() && REC * (n + 1) <= g.size
    ensures Aligned(g.wbs, SlotOff(g.size, n)) && Aligned(g.wbs, REC)
  {
    EightAligned(g.wbs, g.size / 8 - n - 1);
    EightAligned(g.wbs, 1);
  }

  lemma EightAligned(w: Wbs, k: nat)
    ensures Aligned(w, 8 * k)
  {
    if w == 2 {
      ModOf(4 * k, 0, 2);
    } else if w == 4 {
      ModOf(2 * k, 0, 4);
    } else if w == 8 {
      ModOf(k, 0, 8);
    }
  }

  lemma CommitLast(g: Geometry, a: seq<Memory>, b: seq<Memory>, c: seq<Memory>, h: seq<Entry>, h2: seq<Entry>)
    requires CrashSafe(g, a, b, h) && CrashSafeCommit(g, b, c, h, h2)
    ensures CrashSafeCommit(g, a, c, h, h2)
  {
    hide Recoverable;
    CrashSafeTrans(g, a, b, c[..|c| - 1], h);
  }

  lemma Extends(g: Geometry, a: seq<Memory>, b: seq<Memory>, h: seq<Entry>, h2: seq<Entry>)
    requires CrashSafeCommit(g, a, b, h, h2)
    ensures a <= b && |a| < |b|
  {
    hide Recoverable;
    assert a <= b[..|b| - 1];
  }

  lemma KeptNothing(m: Memory, wr: nat, lo: nat, hi: nat)
    requires |m| > 1 && wr < |m|
    ensures OnlySector(m, m, wr) && SameLogs(m, m, wr) && AgreeOutside(m[wr], m[wr], lo, hi)
  {
  }

  lemma CrashSafeNothing(g: Geometry, t: seq<Memory>, h: seq<Entry>)
    ensures CrashSafe(g, t, t, h)
  {
  }

  lemma OpenedMore(start: Memory, a: Memory, b: Memory, wr: nat, lo: nat, hi: nat)
    requires OpenedAs(start, a, wr, lo, hi + REC)
    requires OnlySector(a, b, wr) && SameLogs(a, b, wr) && AgreeOutside(a[wr], b[wr], lo, hi)
    ensures OpenedAs(start, b, wr, lo, hi + REC)
  {
    hide Log, Newer, Older;
  }

  lemma OpenedSector(start: Memory, m: Memory, wr: nat, lo: nat, hi: nat)
    requires OpenedAs(start, m, wr, lo, hi)
    ensures wr < |start| == |m| && |start[wr]| == |m[wr]| >= hi
    ensures AgreeOutside(start[wr], m[wr], lo, hi) && BlankRange(start[wr], lo, hi)
  {
    hide SameLogs;
  }

  lemma ClosedMemory(start: Memory, flushed: Memory, closed: Memory, wr: nat, sec: Sector, sec2: Sector)
    requires wr < |start| && OnlySector(start, flushed, wr) && flushed[wr] == sec
    requires closed == flushed[wr := sec2]
    ensures closed == start[wr := sec2]
  {
  }

  lemma KeptTwice(g: Geometry, a: Memory, b: Memory, c: Memory, wr: nat, ta: seq<Memory>, tb: seq<Memory>, tc: seq<Memory>, h: seq<Entry>,
                  lo: nat, hi: nat)
    requires |a| == |b| == |c| > 1 && wr < |a|
    requires OnlySector(a, b, wr) && SameLogs(a, b, wr) && CrashSafe(g, ta, tb, h)
    requires OnlySector(b, c, wr) && SameLogs(b, c, wr) && CrashSafe(g, tb, tc, h)
    requires AgreeOutside(a[wr], b[wr], lo, hi) && AgreeOutside(b[wr], c[wr], lo, hi)
    ensures OnlySector(a, c, wr) && SameLogs(a, c, wr) && CrashSafe(g, ta, tc, h)
    ensures AgreeOutside(a[wr], c[wr], lo, hi)
  {
    hide Log, Newer, Older, Recoverable;
    CrashSafeTrans(g, ta, tb, tc, h);
  }

  lemma PartOf(data: seq<byte>, at: nat, to: nat)
    requires at <= to <= |data|
    ensures data[..at] + data[at..to] == data[..to]
  {
  }

  lemma WholeOf(data: seq<byte>, written: seq<byte>)
    requires written == data[..|data|]
    ensures written == data && written + Ones(0) == data
  {
  }

  lemma PaddedWhole(data: seq<byte>)
    ensures data + Ones(0) == data
  {
  }

  lemma SameCopies(a: Memory, b: Memory, wr: nat)
    requires |a| == |b| > 1 && wr < |a| && SameLogs(a, b, wr) && CopiesOnly(a, wr)
    ensures CopiesOnly(b, wr)
  {
  }

  lemma HasFirst(log: seq<Entry>, id: nat)
    requires log != [] && log[0].id == id
    ensures Has(log, id)
  {
  }

  lemma NoData(e: Entry)
    ensures |e.data| == 0 <==> e.data == []
  {
  }

  lemma UsedSkip2(g: Geometry, done: seq<Entry>, e: Entry, data: nat, ate: nat)
    ensures Used(g, done, data, ate) ==> Used(g, done + [e], data, ate)
    ensures Used(g, done, data, ate) && REC <= ate ==>
      Used(g, done + [e], data + AlignUp(g.wbs, |e.data|), ate - REC)
  {
    hide Used;
    if Used(g, done, data, ate) {
      UsedSkip(g, done, e, data, ate);
      if REC <= ate {
        UsedCopy(g, done, e, data, ate);
      }
    }
  }

  lemma VictimOk(g: Geometry, m: Memory, wr: nat, id: nat, filled: nat)
    requires Ring(g, m, wr, id, filled)
    ensures var v := m[Next(|m|, wr)]; |v| == g.size && SectorOk(g.wbs, v)
  {
    hide Entries, SectorOk;
    var s := Next(|m|, wr);
    assert RingSector(g, m[s], Behind(g.count, wr, s), id, filled);
  }

  lemma CopyFits2(g: Geometry, m: Memory, wr: nat, done: seq<Entry>, e: Entry, todo: seq<Entry>, data: nat, ate: nat)
    requires |m| > 1 && wr < |m| && Settling(m, wr, done, [e] + todo)
    requires var v := m[Next(|m|, wr)]; |v| == g.size && SectorOk(g.wbs, v)
    ensures Used(g, done, data, ate) ==> data + AlignUp(g.wbs, |e.data|) + REC <= ate
  {
    hide SectorOk, Entries, Settled, Used;
    if Used(g, done, data, ate) {
      CopyFits(g, m[Next(|m|, wr)], done, e, todo, data, ate);
    }
  }

  lemma UsedStart(g: Geometry, data: nat, ate: nat)
    ensures data == REC && ate + REC == g.size ==> Used(g, [], data, ate)
  {
  }

  lemma VictimEntries(sec: Sector)
    ensures EntriesFrom(sec, 0) == Entries(sec)
  {
  }

  /** Only a sector that was written has entries. */
  lemma VictimFilled(g: Geometry, m: Memory, wr: nat, id: nat, filled: nat, done: seq<Entry>, e: Entry, todo: seq<Entry>)
    requires Ring(g, m, wr, id, filled) && |m| > 1
    requires exists m0: Memory :: |m0| == |m| && OnlySector(m0, m, wr) && Settling(m0, wr, done, [e] + todo)
    ensures filled == g.count
  {
    hide Entries, SectorOk, Settled, Newer;
    var v := Next(|m|, wr);
    var m0 :| |m0| == |m| && OnlySector(m0, m, wr) && Settling(m0, wr, done, [e] + todo);
    assert m0[v] == m[v];
    assert Entries(m[v])[|done|] == e;
    assert RingSector(g, m[v], Behind(g.count, wr, v), id, filled);
  }

  lemma ImageIsRing(g: Geometry, m: Memory, wr: nat, id: nat, filled: nat, h: seq<Entry>)
    requires Image(g, m, wr, id, filled, h)
    ensures g.Valid() && Ring(g, m, wr, id, filled)
  {
  }

  lemma RingFilled(g: Geometry, m: Memory, wr: nat, id: nat, filled: nat)
    requires Ring(g, m, wr, id, filled)
    ensures 0 < filled <= g.count
  {
  }

  /** One start in an otherwise erased area is a store without history. */
  lemma FormattedImage(g: Geometry, m: Memory)
    requires g.Valid() && Shaped(g, m)
    requires forall s :: 1 <= s < |m| ==> Blank(m[s])
    requires forall i :: 0 <= i < g.size ==> m[0][i] == if i < REC then Rec(Start(0), i) else Raw(0xff)
    ensures Recoverable(g, m, [])
  {
    hide Entries, SectorOk, ReadRecord, Id16;
    forall s | 0 <= s < |m| ensures RingSector(g, m[s], Behind(g.count, 0, s), 0, 1) && Entries(m[s]) == [] {
      FreshAt(g, m[s]);
      if s == 0 {
        assert m[0] == Splice(Erased(g.size), 0, RecordCells(Start(0)));
        IdZero();
      }
    }
    NoEntries(m, Next(|m|, 0), |m|);
    NoEntries(m, Next(|m|, Next(|m|, 0)), |m| - 1);
    assert Ring(g, m, 0, 0, 1);
    ImageRecovers(g, m, 0, 0, 1, []);
  }

  lemma IdZero()
    ensures Id16(0) == 0
  {
  }

  lemma {:induction false} NoEntries(m: Memory, s: nat, k: nat)
    requires s < |m| && forall t :: 0 <= t < |m| ==> Entries(m[t]) == []
    ensures LogFrom(m, s, k) == []
    decreases k
  {
    hide Entries;
    if k > 0 {
      NoEntries(m, Next(|m|, s), k - 1);
    }
  }

  lemma RingHasNewest(g: Geometry, m: Memory, wr: nat, id: nat, filled: nat)
    requires g.Valid() && Shaped(g, m)
    ensures Ring(g, m, wr, id, filled) ==> wr < g.count && 0 < filled <= g.count && id < 0x1_0000
    ensures Ring(g, m, wr, id, filled) ==> Behind(g.count, wr, wr) == 0 && Id16(id) == id
  {
    hide Entries, SectorOk, ReadRecord;
  }

  lemma StartInRing(g: Geometry, m: Memory, wr: nat, id: nat, filled: nat, i: nat)
    requires g.Valid() && Shaped(g, m) && i < g.count
    ensures Ring(g, m, wr, id, filled) ==> wr < g.count
    ensures Ring(g, m, wr, id, filled) && Behind(g.count, wr, i) < filled ==>
      ReadRecord(m[i], 0) == Good(Start(Id16(id - Behind(g.count, wr, i))))
    ensures Ring(g, m, wr, id, filled) && Behind(g.count, wr, i) >= filled ==> !ReadRecord(m[i], 0).Good?
  {
    hide Entries, SectorOk, ReadRecord, Id16;
    if Ring(g, m, wr, id, filled) {
      assert RingSector(g, m[i], Behind(g.count, wr, i), id, filled);
    }
  }

  /** In a ring the id comparison orders sectors by how far they lie behind. */
  lemma CompareInRing(g: Geometry, m: Memory, wr: nat, id: nat, filled: nat, i: nat, j: nat, iId: nat, jId: nat)
    requires g.Valid() && i < g.count && j < g.count
    ensures Ring(g, m, wr, id, filled) && iId == Id16(id - Behind(g.count, wr, i)) && jId == Id16(id - Behind(g.count, wr, j))
      ==> Scmp(iId, jId) == Behind(g.count, wr, j) - Behind(g.count, wr, i)
  {
    hide Entries, SectorOk, ReadRecord, Scmp, Id16;
    if Ring(g, m, wr, id, filled) {
      ScmpBehind(id, Behind(g.count, wr, i), Behind(g.count, wr, j));
    }
  }

  lemma RingSectorOk(g: Geometry, m: Memory, wr: nat, id: nat, filled: nat)
    requires Ring(g, m, wr, id, filled)
    ensures wr < |m| && id < 0x1_0000 && SectorOk(g.wbs, m[wr])
  {
    hide Entries, SectorOk, ReadRecord;
    assert RingSector(g, m[wr], Behind(g.count, wr, wr), id, filled);
  }

  /** Slot `i` is a written one as long as `i < n`, and the erased one at `n`. */
  lemma SlotAt(w: Wbs, sec: Sector, n: nat, i: nat, ate: nat)
    requires Holds(w, sec, n) && i <= n && ate + REC * (i + 1) == |sec|
    ensures ReadRecord(sec, ate).Empty? <==> i == n
    ensures i < n ==> LastEnd(w, sec, i + 1) == match ReadRecord(sec, ate)
      case Good(r) => (if r.Ate? then r.off + AlignUp(w, r.len) else 0)
      case _ => LastEnd(w, sec, i)
    ensures i < n && ReadRecord(sec, ate).Good? ==> ReadRecord(sec, ate).rec.Ate?
  {
    hide ReadRecord, Entries, AlignUp;
    assert Slot(sec, i) == ReadRecord(sec, ate);
    if i < n {
      assert SlotOk(w, sec, i, LastEnd(w, sec, n));
    }
  }

  lemma BlankSlot2(sec: Sector, n: nat, ate: nat)
    requires ate + REC * (n + 1) == |sec| && Slot(sec, n).Empty?
    ensures BlankRange(sec, ate, ate + REC)
  {
    var cells := sec[ate..ate + REC];
    forall i | ate <= i < ate + REC ensures sec[i] == Raw(0xff) {
      assert cells[i - ate] == sec[i];
    }
  }

  lemma AlignedBelow(w: Wbs, lo: nat, hi: nat)
    requires Aligned(w, lo) && Aligned(w, hi) && lo < hi
    ensures lo + w <= hi && Aligned(w, hi - w)
  {
    AlignedApart(w, lo, hi);
  }

  lemma NotBlank(sec: Sector, lo: nat, hi: nat)
    requires lo <= hi <= |sec| && !Blank(sec[lo..hi])
    ensures !BlankRange(sec, lo, hi)
  {
  }

  lemma BlankMore(sec: Sector, lo: nat, mid: nat, hi: nat)
    requires lo <= mid <= hi && mid <= |sec| && Blank(sec[lo..mid]) && BlankRange(sec, mid, hi)
    ensures BlankRange(sec, lo, hi)
  {
    forall i | lo <= i < hi ensures sec[i] == Raw(0xff) {
      if i < mid {
        assert sec[lo..mid][i - lo] == sec[i];
      }
    }
  }

  lemma ErasedBlank(size: nat)
    ensures BlankRange(Erased(size), 0, size)
  {
  }

  lemma IdAhead(id: nat, k: nat)
    requires id < 0x1_0000
    ensures Id16(Id16(id + k) + 1) == Id16(id + (k + 1)) && Id16(id) == id
  {
  }

  lemma Id16Next(x: nat)
    requires x < 0x1_0000
    ensures Id16(Id16(x - 1) + 1) == x && Id16(Id16(x + 1) - 1) == x
  {
  }

  lemma StartAligned(g: Geometry)
    requires g.Valid()
    ensures Aligned(g.wbs, 0) && Aligned(g.wbs, REC)
  {
  }

  lemma TornStart(size: nat, sec: Sector, torn: Sector)
    requires sec == Erased(size) && size > REC && Torn(sec, torn, 0, REC)
    ensures |torn| == size && BlankRange(torn, REC, size) && torn[0].Raw?
  {
  }

  lemma OneCommit(g: Geometry, before: seq<Memory>, torn: Memory, done: Memory, h: seq<Entry>, h2: seq<Entry>)
    requires Recoverable(g, torn, h) && Recoverable(g, done, h2)
    ensures CrashSafeCommit(g, before, before + [torn, done], h, h2)
  {
    hide Recoverable;
    var after := before + [torn, done];
    assert after[..|after| - 1] == before + [torn];
  }

  lemma FlushRoom(w: Wbs, base: nat, n: nat, len: nat, top: nat)
    requires AlignDown(w, n) < len && base + AlignUp(w, len) <= top && Aligned(w, base)
    ensures base + AlignDown(w, n) + w <= top
    ensures Aligned(w, base + AlignDown(w, n)) && Aligned(w, w)
  {
    BlockFits(w, AlignDown(w, n), len);
    AlignedSum(w, base, AlignDown(w, n));
    AlignedBlock(w);
  }

  lemma BlocksRoom(w: Wbs, base: nat, n: nat, more: nat, len: nat)
    requires AlignDown(w, n) == n && Aligned(w, base) && n + more <= len
    ensures Aligned(w, base + n) && Aligned(w, AlignDown(w, more))
    ensures n + AlignDown(w, more) <= AlignUp(w, len)
  {
    AlignedSum(w, base, n);
  }

  lemma InRing(g: Geometry, m: Memory, wr: nat, id: nat, filled: nat)
    requires Ring(g, m, wr, id, filled)
    ensures |m| == g.count && wr < g.count && 0 < filled <= g.count
    ensures forall s :: 0 <= s < |m| ==> |m[s]| == g.size
  {
    hide Entries, ReadRecord, SectorOk;
    forall s | 0 <= s < |m| ensures |m[s]| == g.size {
      assert RingSector(g, m[s], Behind(g.count, wr, s), id, filled);
    }
  }

  lemma NothingSeen(id: nat)
    ensures !Has([], id)
  {
  }

  lemma HistoryValue(g: Geometry, m: Memory, wr: nat, id: nat, filled: nat, h: seq<Entry>, eid: nat)
    requires Image(g, m, wr, id, filled, h)
    ensures wr < |m| && Value(Log(m, wr), eid) == Value(h, eid)
    ensures !Has(Log(m, wr), eid) ==> Value(h, eid) == []
  {
    hide Log, Ring;
    assert wr < |m| && SameView(Log(m, wr), h);
    if !Has(Log(m, wr), eid) {
      ValueAbsent(Log(m, wr), eid);
    }
  }

  /** Moves the first of `b` to the end of `a`. */
  lemma Shift(a: seq<Entry>, b: seq<Entry>) returns (a2: seq<Entry>, b2: seq<Entry>)
    requires b != []
    ensures a2 == a + [b[0]] && b2 == b[1..] && a2 + b2 == a + b && |b2| < |b|
  {
    a2, b2 := a + [b[0]], b[1..];
  }

  lemma BlankSlice(sec: Sector, lo: nat, hi: nat)
    requires lo <= hi && BlankRange(sec, lo, hi)
    ensures Blank(sec[lo..hi])
  {
  }

  lemma NewestSoFar(seen: seq<Entry>, e: Entry, id: nat)
    ensures Has(seen + [e], id) == (Has(seen, id) || e.id == id)
    ensures Value(seen + [e], id) == if e.id == id then e.data else Value(seen, id)
  {
    HasConcat(seen, [e], id);
    assert [e][0] == e;
    assert (seen + [e])[..|seen|] == seen;
  }

  lemma PayloadPart(sec: Sector, off: nat, len: nat, at: nat, n: nat)
    requires off + len <= |sec| && at + n <= len
    ensures CellBytes(sec[off + at..off + at + n]) == Payload(sec, off, len)[at..at + n]
  {
    var p := Payload(sec, off, len);
    var q := CellBytes(sec[off + at..off + at + n]);
    forall i | 0 <= i < n ensures q[i] == p[at + i] {
      assert sec[off..off + len][at + i] == sec[off + at..off + at + n][i];
    }
  }

  lemma SlotBottom(g: Geometry, passed: nat, ateOff: nat)
    requires g.Valid() && ateOff + REC * passed == g.size && passed > 0
    ensures ateOff == 0 <==> REC * (passed + 1) > g.size
  {
  }

  /** Behind the slots of a sector there is always one more, erased slot. */
  lemma RoomBelow(g: Geometry, m: Memory, wr: nat, id: nat, filled: nat, s: nat)
    requires Ring(g, m, wr, id, filled) && s < |m|
    ensures REC * (Count(m[s], 0) + 2) <= g.size && |m[s]| == g.size
  {
    hide Entries, ReadRecord;
    assert RingSector(g, m[s], Behind(g.count, wr, s), id, filled);
  }

  lemma EndIsWriteAte(g: Geometry, sec: Sector, data: nat, ate: nat, i: nat, off: nat, here: bool)
    requires WriteAt(g, sec, data, ate)
    requires here ==> i == Count(sec, 0) && off + REC * (i + 1) == g.size
    ensures here ==> off == ate
  {
  }

  lemma EntryOfSlot(g: Geometry, m: Memory, wr: nat, id: nat, filled: nat, s: nat, i: nat)
    requires Ring(g, m, wr, id, filled) && s < |m| && i < Count(m[s], 0)
    requires REC * (i + 1) <= |m[s]| && Slot(m[s], i).Good?
    ensures var r := Slot(m[s], i).rec;
      && r.Ate? && REC <= r.off && r.off + AlignUp(g.wbs, r.len) <= g.size
      && EntryAt(m[s], i) == [Entry(r.id, Payload(m[s], r.off, r.len))]
      && |Payload(m[s], r.off, r.len)| == r.len
  {
    hide ReadRecord, Entries, Space;
    var w, n := g.wbs, Count(m[s], 0);
    assert RingSector(g, m[s], Behind(g.count, wr, s), id, filled);
    assert SlotOk(w, m[s], i, LastEnd(w, m[s], n));
  }

  lemma NoEntryOfSlot(sec: Sector, i: nat)
    requires REC * (i + 1) <= |sec| && !Slot(sec, i).Good?
    ensures EntryAt(sec, i) == []
  {
  }
}
