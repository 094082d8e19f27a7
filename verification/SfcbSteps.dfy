/** What single flash operations do to the write sector and to the log, for the completed
    operation and for everything a power cut may make of it. */
module SfcbSteps {
  import opened FlashBytes
  import opened SfcbLog
  import opened SfcbFlash
  import opened SfcbSector
  import opened SfcbRing

  /** `ate` is the erased slot the next ATE goes to and `data` lies behind all data. */
  ghost predicate WriteAt(g: Geometry, sec: Sector, data: nat, ate: nat) {
    var n := Count(sec, 0);
    && |sec| == g.size
    && Holds(g.wbs, sec, n)
    && ate == SlotOff(|sec|, n)
    && LastEnd(g.wbs, sec, n) <= data <= ate
    && Aligned(g.wbs, data)
  }

  ghost predicate BlankRange(sec: Sector, lo: nat, hi: nat) {
    hi <= |sec| && forall i :: lo <= i < hi ==> sec[i] == Raw(0xff)
  }

  /** The last block in front of `data` is not erased, unless it holds a valid entry. */
  ghost predicate Tight(w: Wbs, sec: Sector, data: nat) {
    var n := Count(sec, 0);
    && REC * n <= |sec|
    && var end := LastEnd(w, sec, n);
      data > end ==> end + w <= data <= |sec| && !BlankRange(sec, data - w, data)
  }

  /** The write offsets are determined by the flash. */
  lemma OffsetsUnique(g: Geometry, sec: Sector, data: nat, ate: nat, data2: nat, ate2: nat)
    requires g.Valid()
    requires WriteAt(g, sec, data, ate) && Tight(g.wbs, sec, data) && BlankRange(sec, data, ate + REC)
    requires WriteAt(g, sec, data2, ate2) && Tight(g.wbs, sec, data2) && BlankRange(sec, data2, ate2 + REC)
    ensures data == data2 && ate == ate2
  {
    hide Holds, LastEnd, Count, Aligned;
    if data < data2 {
      NoGap(g.wbs, sec, data, data2, ate);
    } else if data2 < data {
      NoGap(g.wbs, sec, data2, data, ate);
    }
  }

  lemma NoGap(w: Wbs, sec: Sector, lo: nat, hi: nat, ate: nat)
    requires Aligned(w, lo) && Aligned(w, hi) && lo < hi <= ate
    requires BlankRange(sec, lo, ate)
    ensures w <= hi && BlankRange(sec, hi - w, hi)
  {
    AlignedApart(w, lo, hi);
  }

  lemma AlignedApart(w: Wbs, a: nat, b: nat)
    requires Aligned(w, a) && Aligned(w, b) && a < b
    ensures a + w <= b
  {
    if w == 2 {
      Multiples(2, a / 2, b / 2);
    } else if w == 4 {
      Multiples(4, a / 4, b / 4);
    } else if w == 8 {
      Multiples(8, a / 8, b / 8);
    }
  }

  /** All flash states added to `before` are ones from which `h` is recovered. */
  ghost predicate CrashSafe(g: Geometry, before: seq<Memory>, after: seq<Memory>, h: seq<Entry>) {
    && before <= after
    && forall i :: |before| <= i < |after| ==> Recoverable(g, after[i], h)
  }

  /** As `CrashSafe`, but from the last state it is `h2` that is recovered. */
  ghost predicate CrashSafeCommit(g: Geometry, before: seq<Memory>, after: seq<Memory>, h: seq<Entry>, h2: seq<Entry>) {
    && |before| < |after|
    && CrashSafe(g, before, after[..|after| - 1], h)
    && Recoverable(g, after[|after| - 1], h2)
  }

  lemma CrashSafeTrans(g: Geometry, a: seq<Memory>, b: seq<Memory>, c: seq<Memory>, h: seq<Entry>)
    requires CrashSafe(g, a, b, h) && CrashSafe(g, b, c, h)
    ensures CrashSafe(g, a, c, h)
  {
    hide Recoverable;
    forall i | |a| <= i < |c| ensures Recoverable(g, c[i], h) {
      if i < |b| {
        assert b[i] == c[i];
      }
    }
  }

  /** Only sector `s` differs. */
  ghost predicate OnlySector(a: Memory, b: Memory, s: nat) {
    |a| == |b| && forall t :: 0 <= t < |a| && t != s ==> a[t] == b[t]
  }

  /** The parts of an image that writing data must not touch. */
  ghost predicate SameLogs(a: Memory, b: Memory, wr: nat)
    requires |a| == |b| > 1 && wr < |a|
  {
    Log(b, wr) == Log(a, wr) && Newer(b, wr) == Newer(a, wr) && Older(b, wr) == Older(a, wr)
  }

  /** Data in the free space, however much of it got written, changes no log. */
  lemma DataStep(g: Geometry, m: Memory, wr: nat, id: nat, filled: nat, data: nat, ate: nat, sec: Sector)
    requires g.Valid() && Ring(g, m, wr, id, filled) && WriteAt(g, m[wr], data, ate)
    requires AgreeOutside(m[wr], sec, data, ate)
    ensures WriteAt(g, sec, data, ate) && Entries(sec) == Entries(m[wr])
    ensures Ring(g, m[wr := sec], wr, id, filled)
    ensures SameLogs(m, m[wr := sec], wr)
    ensures Count(sec, 0) == Count(m[wr], 0)
  {
    hide Entries, ReadRecord, Payload, AlignUp, Space;
    var n := Count(m[wr], 0);
    FreeSpaceIsFree(g.wbs, m[wr], sec, n, data);
    HoldsIsOk(g.wbs, sec, n);
    StartKept(g.wbs, m[wr], sec, n, data, ate);
    SameEntries(g, m, wr, sec, wr, id, filled);
    SameRest(m, m[wr := sec], wr);
  }

  lemma StartKept(w: Wbs, a: Sector, b: Sector, n: nat, lo: nat, hi: nat)
    requires Holds(w, a, n) && LastEnd(w, a, n) <= lo
    requires AgreeOutside(a, b, lo, hi)
    ensures ReadRecord(b, 0) == ReadRecord(a, 0)
  {
    hide ReadRecord, Payload, Entries;
    RecordUnchanged(a, b, lo, hi, 0);
  }

  lemma SameRest(a: Memory, b: Memory, wr: nat)
    requires |a| == |b| > 1 && wr < |a| && b == a[wr := b[wr]] && Entries(b[wr]) == Entries(a[wr])
    ensures SameLogs(a, b, wr)
  {
    hide Entries;
    OthersSame(a, b, wr);
    LogSplits(a, wr);
    LogSplits(b, wr);
    var n := Next(|a|, wr);
    assert Entries(a[n]) == Entries(b[n]);
    DropPrefix(Entries(a[n]), Newer(a, wr), Newer(b, wr));
  }

  /** An image stays one when its logs stay. */
  lemma SameImage(g: Geometry, a: Memory, b: Memory, wr: nat, id: nat, filled: nat, h: seq<Entry>)
    requires Image(g, a, wr, id, filled, h)
    requires Ring(g, b, wr, id, filled) && SameLogs(a, b, wr)
    ensures Image(g, b, wr, id, filled, h) && Recoverable(g, b, h)
  {
    hide Ring, Log, Newer, Older;
    ImageRecovers(g, b, wr, id, filled, h);
  }

  /** A complete ATE adds its entry at the end of every log but the older sectors'. */
  lemma CommitStep(g: Geometry, m: Memory, wr: nat, id: nat, filled: nat, data: nat, ate: nat, eid: nat, len: nat)
      returns (sec: Sector, e: Entry)
    requires g.Valid() && Ring(g, m, wr, id, filled) && WriteAt(g, m[wr], data, ate)
    requires data + AlignUp(g.wbs, len) + REC <= ate
    requires BlankRange(m[wr], ate - REC, ate)
    ensures sec == Splice(m[wr], ate, RecordCells(Ate(eid, data, len)))
    ensures e == Entry(eid, Payload(m[wr], data, len))
    ensures WriteAt(g, sec, data + AlignUp(g.wbs, len), ate - REC)
    ensures Tight(g.wbs, sec, data + AlignUp(g.wbs, len))
    ensures Entries(sec) == Entries(m[wr]) + [e] && Count(sec, 0) == Count(m[wr], 0) + 1
    ensures var b := m[wr := sec];
      && Ring(g, b, wr, id, filled)
      && Log(b, wr) == Log(m, wr) + [e] && Newer(b, wr) == Newer(m, wr) + [e] && Older(b, wr) == Older(m, wr)
  {
    hide Entries, ReadRecord, Payload, AlignUp, Space;
    var n := Count(m[wr], 0);
    e := Entry(eid, Payload(m[wr], data, len));
    sec := CommitSlot(g.wbs, m[wr], n, eid, data, len);
    HoldsIsOk(g.wbs, sec, n + 1);
    StartKept(g.wbs, m[wr], sec, n, ate, ate + REC);
    AppendEntry(g, m, sec, wr, id, filled, e);
    AlignedSum(g.wbs, data, AlignUp(g.wbs, len));
  }

  /** An interrupted ATE adds nothing. */
  lemma TornStep(g: Geometry, m: Memory, wr: nat, id: nat, filled: nat, data: nat, ate: nat, torn: Sector)
    requires g.Valid() && Ring(g, m, wr, id, filled) && WriteAt(g, m[wr], data, ate)
    requires data + REC <= ate
    requires BlankRange(m[wr], ate - REC, ate)
    requires Torn(m[wr], torn, ate, REC)
    ensures Ring(g, m[wr := torn], wr, id, filled)
    ensures SameLogs(m, m[wr := torn], wr)
  {
    hide Entries, ReadRecord, Payload, AlignUp, Space;
    var n := Count(m[wr], 0);
    TornSlot(g.wbs, m[wr], torn, n);
    StartKept(g.wbs, m[wr], torn, n, ate, ate + REC);
    SameEntries(g, m, wr, torn, wr, id, filled);
    SameRest(m, m[wr := torn], wr);
  }

  /** A user entry becomes part of the history the moment its ATE is complete. */
  lemma CommitImage(g: Geometry, a: Memory, b: Memory, wr: nat, id: nat, filled: nat, h: seq<Entry>, e: Entry)
    requires Image(g, a, wr, id, filled, h) && Clean(a, wr)
    requires Ring(g, b, wr, id, filled)
    requires Log(b, wr) == Log(a, wr) + [e] && Newer(b, wr) == Newer(a, wr) + [e]
    ensures Image(g, b, wr, id, filled, h + [e]) && Clean(b, wr) && Recoverable(g, b, h + [e])
  {
    hide RingSector, Log, Newer, Older, Value;
    SameViewAppend(Log(a, wr), h, e);
    SameViewAppend(Log(a, wr), Newer(a, wr), e);
    ImageRecovers(g, b, wr, id, filled, h + [e]);
  }

  /** A copy made by compress leaves the history alone. */
  lemma CopyImage(g: Geometry, a: Memory, b: Memory, wr: nat, id: nat, filled: nat, h: seq<Entry>, e: Entry)
    requires Image(g, a, wr, id, filled, h) && CopiesOnly(a, wr)
    requires Ring(g, b, wr, id, filled)
    requires Log(b, wr) == Log(a, wr) + [e] && Older(b, wr) == Older(a, wr)
    requires SameView(Log(a, wr) + [e], Log(a, wr))
    ensures Image(g, b, wr, id, filled, h) && CopiesOnly(b, wr) && Recoverable(g, b, h)
  {
    hide Ring, Log, Newer, Older, Value;
    ImageRecovers(g, b, wr, id, filled, h);
  }

  /** A sector that holds nothing but, perhaps, a start or what is left of one. */
  lemma FreshAt(g: Geometry, sec: Sector)
    requires g.Valid() && |sec| == g.size && BlankRange(sec, REC, g.size)
    ensures SectorOk(g.wbs, sec) && Entries(sec) == []
    ensures WriteAt(g, sec, REC, g.size - REC) && Tight(g.wbs, sec, REC)
    ensures sec[0].Raw? ==> NoStart(sec)
    ensures forall id :: sec == Splice(Erased(g.size), 0, RecordCells(Start(id))) ==> HasStart(sec, id)
  {
    assert Blank(sec[REC..]) by {
      forall i | 0 <= i < |sec| - REC ensures sec[REC..][i] == Raw(0xff) {}
    }
    FreshSector(g.wbs, sec);
    AlignedRec(g.wbs);
    HoldsIsOk(g.wbs, sec, 0);
    if sec[0].Raw? {
      NoStartIn(sec);
    }
    forall id | sec == Splice(Erased(g.size), 0, RecordCells(Start(id))) ensures HasStart(sec, id) {
      ReadWritten(sec, 0, Start(id));
    }
  }

  lemma AlignedRec(w: Wbs)
    ensures Aligned(w, REC)
  {
  }

  lemma NoStartIn(sec: Sector)
    requires |sec| >= REC && sec[0].Raw?
    ensures NoStart(sec)
  {
    assert sec[0..REC][0] == sec[0];
  }

  /** Rotation, first half: the next sector is erased, or has a torn start. */
  lemma EraseStep(g: Geometry, m: Memory, wr: nat, id: nat, filled: nat, h: seq<Entry>, sec: Sector) returns (left: nat)
    requires Image(g, m, wr, id, filled, h) && Clean(m, wr)
    requires |sec| == g.size && BlankRange(sec, REC, g.size) && sec[0].Raw?
    ensures left == (if filled == g.count then filled - 1 else filled)
    ensures var b := m[Next(g.count, wr) := sec];
      && Image(g, b, wr, id, left, h) && Clean(b, wr) && Recoverable(g, b, h)
  {
    hide Entries, ReadRecord, SectorOk;
    FreshAt(g, sec);
    left := EraseVictim(g, m, sec, wr, id, filled);
    ImageRecovers(g, m[Next(g.count, wr) := sec], wr, id, left, h);
  }

  /** Rotation, second half: the erased sector gets its start and is written from now on. */
  lemma StartStep(g: Geometry, m: Memory, wr: nat, id: nat, filled: nat, h: seq<Entry>) returns (sec: Sector)
    requires Image(g, m, wr, id, filled, h) && filled < g.count
    requires m[Next(g.count, wr)] == Erased(g.size)
    ensures sec == Splice(Erased(g.size), 0, RecordCells(Start(Id16(id + 1))))
    ensures BlankRange(sec, REC, g.size)
    ensures WriteAt(g, sec, REC, g.size - REC) && Tight(g.wbs, sec, REC) && Entries(sec) == []
    ensures var v := Next(g.count, wr); var b := m[v := sec];
      Image(g, b, v, Id16(id + 1), filled + 1, h) && CopiesOnly(b, v) && Recoverable(g, b, h)
  {
    hide Entries, ReadRecord, SectorOk;
    sec := Splice(Erased(g.size), 0, RecordCells(Start(Id16(id + 1))));
    FreshAt(g, sec);
    FreshAt(g, m[Next(g.count, wr)]);
    StartVictim(g, m, sec, wr, id, filled);
    ImageRecovers(g, m[Next(g.count, wr) := sec], Next(g.count, wr), Id16(id + 1), filled + 1, h);
  }

  /** The mount's fallback: erasing a write sector that holds only copies loses nothing. */
  lemma FallbackStep(g: Geometry, m: Memory, wr: nat, id: nat, h: seq<Entry>, sec: Sector)
    requires Image(g, m, wr, id, g.count, h) && CopiesOnly(m, wr)
    requires |sec| == g.size && BlankRange(sec, REC, g.size) && sec[0].Raw?
    ensures var b := m[wr := sec]; var p := Prev(g.count, wr);
      Image(g, b, p, Id16(id - 1), g.count - 1, h) && Clean(b, p) && Recoverable(g, b, h)
  {
    hide Entries, ReadRecord, SectorOk;
    FreshAt(g, sec);
    EraseCopies(g, m, sec, wr, id);
    ImageRecovers(g, m[wr := sec], Prev(g.count, wr), Id16(id - 1), g.count - 1, h);
  }
}
