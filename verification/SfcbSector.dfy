/** One sector of the store: a start record at the bottom, data growing up behind it and
    allocation entries (ATEs) growing down from the top, with an erased slot below them. */
module SfcbSector {
  import opened FlashBytes
  import opened SfcbLog
  import opened SfcbFlash

  function AlignDown(w: Wbs, len: nat): (r: nat)
    ensures r <= len < r + w && Aligned(w, r)
  {
    if w == 1 then len
    else if w == 2 then ModOf(len / 2, 0, 2); len - len % 2
    else if w == 4 then ModOf(len / 4, 0, 4); len - len % 4
    else ModOf(len / 8, 0, 8); len - len % 8
  }

  function AlignUp(w: Wbs, len: nat): (r: nat)
    ensures len <= r < len + w && Aligned(w, r)
  {
    AlignDown(w, len + w - 1)
  }

  lemma AlignUpMonotone(w: Wbs, a: nat, b: nat)
    requires a <= b
    ensures AlignUp(w, a) <= AlignUp(w, b)
  {
    hide AlignDown, AlignUp, Aligned;
    if AlignUp(w, b) < AlignUp(w, a) {
      AlignedGap(w, AlignUp(w, b), AlignUp(w, a));
    }
  }

  lemma AlignedGap(w: Wbs, a: nat, b: nat)
    requires Aligned(w, a) && Aligned(w, b) && a < b
    ensures a + w <= b
  {
  }

  lemma AlignedSum(w: Wbs, a: nat, b: nat)
    requires Aligned(w, a) && Aligned(w, b)
    ensures Aligned(w, a + b)
  {
    if w == 2 {
      ModSum(a, b, 2);
    } else if w == 4 {
      ModSum(a, b, 4);
    } else if w == 8 {
      ModSum(a, b, 8);
    }
  }

  /** Offset of ATE slot `i`, counted from the top of a sector of `size` bytes. */
  function SlotOff(size: nat, i: nat): (off: nat)
    requires REC * (i + 1) <= size
    ensures off + REC * (i + 1) == size
  {
    size - REC * (i + 1)
  }

  function Slot(sec: Sector, i: nat): Reading
    requires REC * (i + 1) <= |sec|
  {
    ReadRecord(sec, SlotOff(|sec|, i))
  }

  /** A walk over the slots stops at an erased slot or at the bottom of the sector. */
  predicate AtEnd(sec: Sector, i: nat) {
    REC * (i + 2) > |sec| || Slot(sec, i).Empty?
  }

  /** Number of slots a walk that has passed `i` of them sees in all. */
  ghost function Count(sec: Sector, i: nat): nat
    decreases |sec| - REC * i
  {
    if AtEnd(sec, i) then i else Count(sec, i + 1)
  }

  ghost function Payload(sec: Sector, off: nat, len: nat): seq<byte> {
    if off + len <= |sec| then CellBytes(sec[off..off + len]) else []
  }

  /** The entry in a slot, if its ATE is valid. */
  ghost function EntryAt(sec: Sector, i: nat): seq<Entry>
    requires REC * (i + 1) <= |sec|
  {
    match Slot(sec, i)
    case Good(Ate(id, off, len)) => [Entry(id, Payload(sec, off, len))]
    case _ => []
  }

  /** The valid entries in the slots from `i` on, oldest first. */
  ghost function EntriesFrom(sec: Sector, i: nat): seq<Entry>
    decreases |sec| - REC * i
  {
    if AtEnd(sec, i) then [] else EntryAt(sec, i) + EntriesFrom(sec, i + 1)
  }

  ghost function Entries(sec: Sector): seq<Entry> {
    EntriesFrom(sec, 0)
  }

  /** End of the data of the last valid one of the first `n` slots. */
  ghost function LastEnd(w: Wbs, sec: Sector, n: nat): nat
    requires REC * n <= |sec|
  {
    if n == 0 then REC
    else match Slot(sec, n - 1)
      case Good(Ate(_, off, len)) => off + AlignUp(w, len)
      case _ => LastEnd(w, sec, n - 1)
  }

  /** Data space that entries take up. */
  ghost function Space(w: Wbs, entries: seq<Entry>): nat
  {
    if entries == [] then 0
    else Space(w, entries[..|entries| - 1]) + AlignUp(w, |entries[|entries| - 1].data|)
  }

  ghost predicate SlotOk(w: Wbs, sec: Sector, i: nat, end: nat)
    requires REC * (i + 1) <= |sec|
  {
    match Slot(sec, i)
    case Empty => false
    case Bad => true
    case Good(Start(_)) => false
    case Good(Ate(_, off, len)) => REC <= off && Aligned(w, off) && off + AlignUp(w, len) <= end
  }

  /** The first `n` slots are written, slot `n` is erased, and everything fits below it. */
  ghost predicate Holds(w: Wbs, sec: Sector, n: nat) {
    && |sec| % REC == 0
    && REC * (n + 2) <= |sec|
    && Slot(sec, n).Empty?
    && Aligned(w, LastEnd(w, sec, n))
    && REC + Space(w, Entries(sec)) <= LastEnd(w, sec, n) <= SlotOff(|sec|, n)
    && forall i :: 0 <= i < n ==> SlotOk(w, sec, i, LastEnd(w, sec, n))
  }

  ghost predicate SectorOk(w: Wbs, sec: Sector) {
    Holds(w, sec, Count(sec, 0))
  }

  /** Id in the sector start, or a bad or empty start. */
  ghost predicate HasStart(sec: Sector, id: nat) {
    |sec| >= REC && ReadRecord(sec, 0) == Good(Start(id))
  }

  ghost predicate NoStart(sec: Sector) {
    |sec| >= REC && !ReadRecord(sec, 0).Good?
  }

  // Counting and walking

  lemma {:induction false} CountIs(sec: Sector, n: nat, i: nat)
    requires i <= n && REC * (n + 2) <= |sec|
    requires Slot(sec, n).Empty?
    requires forall j :: i <= j < n ==> !Slot(sec, j).Empty?
    ensures Count(sec, i) == n
    decreases n - i
  {
    if i < n {
      CountIs(sec, n, i + 1);
    }
  }

  lemma HoldsIsOk(w: Wbs, sec: Sector, n: nat)
    requires Holds(w, sec, n)
    ensures Count(sec, 0) == n && SectorOk(w, sec)
  {
    forall j | 0 <= j < n ensures !Slot(sec, j).Empty? {
      assert SlotOk(w, sec, j, LastEnd(w, sec, n));
    }
    CountIs(sec, n, 0);
  }

  lemma {:induction false} SpaceAppend(w: Wbs, a: seq<Entry>, e: Entry)
    ensures Space(w, a + [e]) == Space(w, a) + AlignUp(w, |e.data|)
  {
    assert (a + [e])[..|a|] == a;
  }

  lemma {:induction false} SpaceConcat(w: Wbs, a: seq<Entry>, b: seq<Entry>)
    ensures Space(w, a + b) == Space(w, a) + Space(w, b)
  {
    if b == [] {
      assert a + b == a;
    } else {
      SpaceConcat(w, a, b[..|b| - 1]);
      assert a + b == a + b[..|b| - 1] + [b[|b| - 1]];
      SpaceAppend(w, a + b[..|b| - 1], b[|b| - 1]);
    }
  }

  lemma {:induction false} EntriesFewerThanSlots(sec: Sector, n: nat, i: nat)
    requires i <= n && Count(sec, i) == n
    ensures |EntriesFrom(sec, i)| <= n - i
    decreases n - i
  {
    if !AtEnd(sec, i) {
      CountAtLeast(sec, i + 1);
      EntriesFewerThanSlots(sec, n, i + 1);
    }
  }

  lemma {:induction false} CountAtLeast(sec: Sector, i: nat)
    ensures Count(sec, i) >= i
    decreases |sec| - REC * i
  {
    if !AtEnd(sec, i) {
      CountAtLeast(sec, i + 1);
    }
  }

  // Frames: what later writes leave alone

  /** `a` and `b` agree below `lo` and from `hi` on. */
  ghost predicate AgreeOutside(a: Sector, b: Sector, lo: nat, hi: nat) {
    && |a| == |b|
    && forall k :: 0 <= k < |a| && !(lo <= k < hi) ==> a[k] == b[k]
  }

  lemma RecordUnchanged(a: Sector, b: Sector, lo: nat, hi: nat, off: nat)
    requires AgreeOutside(a, b, lo, hi)
    requires off + REC <= |a| && (hi <= off || off + REC <= lo)
    ensures ReadRecord(a, off) == ReadRecord(b, off)
  {
    assert a[off..off + REC] == b[off..off + REC];
  }

  lemma PayloadUnchanged(a: Sector, b: Sector, lo: nat, hi: nat, off: nat, len: nat)
    requires AgreeOutside(a, b, lo, hi)
    requires off + len <= |a| && off + len <= lo
    ensures Payload(a, off, len) == Payload(b, off, len)
  {
    assert a[off..off + len] == b[off..off + len];
  }

  /** A slot above the changed range, whose data lies below it, keeps its entry. */
  lemma SlotUnchanged(w: Wbs, a: Sector, b: Sector, lo: nat, hi: nat, i: nat)
    requires AgreeOutside(a, b, lo, hi)
    requires REC * (i + 1) <= |a| && hi <= SlotOff(|a|, i)
    requires lo <= |a| && SlotOk(w, a, i, lo)
    ensures Slot(a, i) == Slot(b, i) && EntryAt(a, i) == EntryAt(b, i)
  {
    RecordUnchanged(a, b, lo, hi, SlotOff(|a|, i));
    match Slot(a, i)
    case Good(Ate(id, off, len)) => PayloadUnchanged(a, b, lo, hi, off, len);
    case _ =>
  }

  lemma {:induction false} LastEndUnchanged(w: Wbs, a: Sector, b: Sector, n: nat)
    requires |a| == |b| && REC * n <= |a|
    requires forall i :: 0 <= i < n ==> Slot(a, i) == Slot(b, i)
    ensures LastEnd(w, a, n) == LastEnd(w, b, n)
  {
    if n > 0 {
      assert Slot(a, n - 1) == Slot(b, n - 1);
      LastEndUnchanged(w, a, b, n - 1);
    }
  }

  /** Slot `i` is written in both sectors, with the same contents. */
  ghost predicate SameSlot(a: Sector, b: Sector, i: nat)
    requires |a| == |b| && REC * (i + 1) <= |a|
  {
    !Slot(a, i).Empty? && Slot(a, i) == Slot(b, i) && EntryAt(a, i) == EntryAt(b, i)
  }

  lemma WalkStep(sec: Sector, i: nat)
    requires !AtEnd(sec, i)
    ensures EntriesFrom(sec, i) == EntryAt(sec, i) + EntriesFrom(sec, i + 1)
  {
  }

  lemma ConcatAssoc<T>(x: seq<T>, y: seq<T>, z: seq<T>)
    ensures x + (y + z) == (x + y) + z
  {
  }

  /** Walks agree as far as the slots do, up to the first erased slot `n` of `a`;
      the walk over `b` may go on from there. */
  lemma {:induction false} WalkUnchanged(a: Sector, b: Sector, n: nat, i: nat)
    requires i <= n && |a| == |b| && REC * (n + 2) <= |a|
    requires Slot(a, n).Empty?
    requires forall j :: i <= j < n ==> SameSlot(a, b, j)
    ensures EntriesFrom(b, i) == EntriesFrom(a, i) + EntriesFrom(b, n)
    decreases n - i
  {
    hide ReadRecord, Payload;
    if i < n {
      assert SameSlot(a, b, i);
      WalkUnchanged(a, b, n, i + 1);
      WalkStep(a, i);
      WalkStep(b, i);
      ConcatAssoc(EntryAt(a, i), EntriesFrom(a, i + 1), EntriesFrom(b, n));
    }
  }

  /** The written slots and their entries survive any change in [lo, hi) below them. */
  lemma SlotsStay(w: Wbs, a: Sector, b: Sector, n: nat, lo: nat, hi: nat)
    requires Holds(w, a, n)
    requires LastEnd(w, a, n) <= lo <= |a| && hi <= SlotOff(|a|, n) + REC
    requires AgreeOutside(a, b, lo, hi)
    ensures forall i :: 0 <= i < n ==> SameSlot(a, b, i) && SlotOk(w, b, i, LastEnd(w, a, n))
    ensures LastEnd(w, a, n) == LastEnd(w, b, n)
  {
    hide ReadRecord, Payload;
    forall i | 0 <= i < n
      ensures SameSlot(a, b, i) && SlotOk(w, b, i, LastEnd(w, a, n))
    {
      assert SlotOk(w, a, i, LastEnd(w, a, n));
      SlotUnchanged(w, a, b, lo, hi, i);
    }
    forall i | 0 <= i < n ensures Slot(a, i) == Slot(b, i) {
      assert SameSlot(a, b, i);
    }
    LastEndUnchanged(w, a, b, n);
  }

  /** Changes between the end of the data and the erased slot `n` are not seen. */
  lemma FreeSpaceIsFree(w: Wbs, a: Sector, b: Sector, n: nat, lo: nat)
    requires Holds(w, a, n)
    requires LastEnd(w, a, n) <= lo <= SlotOff(|a|, n)
    requires AgreeOutside(a, b, lo, SlotOff(|a|, n))
    ensures Holds(w, b, n) && Entries(b) == Entries(a) && LastEnd(w, b, n) == LastEnd(w, a, n)
    ensures forall i :: 0 <= i <= n ==> EntriesFrom(b, i) == EntriesFrom(a, i)
  {
    hide ReadRecord, Payload;
    var hi := SlotOff(|a|, n);
    SlotsStay(w, a, b, n, lo, hi);
    RecordUnchanged(a, b, lo, hi, hi);
    forall i | 0 <= i <= n ensures EntriesFrom(b, i) == EntriesFrom(a, i) {
      WalkUnchanged(a, b, n, i);
      assert EntriesFrom(b, n) == [];
    }
  }

  lemma ReadWritten(sec: Sector, off: nat, r: Record)
    requires off + REC <= |sec|
    requires forall i :: off <= i < off + REC ==> sec[i] == Rec(r, i - off)
    ensures ReadRecord(sec, off) == Good(r)
  {
    var cells := sec[off..off + REC];
    assert cells == RecordCells(r);
    assert cells[0] == Rec(r, 0);
  }

  /** Writing a complete ATE into the erased slot adds exactly its entry. */
  lemma CommitSlot(w: Wbs, a: Sector, n: nat, id: nat, off: nat, len: nat) returns (b: Sector)
    requires Holds(w, a, n)
    requires LastEnd(w, a, n) <= off && Aligned(w, off)
    requires off + AlignUp(w, len) + REC <= SlotOff(|a|, n)
    requires Blank(a[SlotOff(|a|, n) - REC..SlotOff(|a|, n)])
    ensures b == Splice(a, SlotOff(|a|, n), RecordCells(Ate(id, off, len)))
    ensures Holds(w, b, n + 1)
    ensures LastEnd(w, b, n + 1) == off + AlignUp(w, len)
    ensures Entries(b) == Entries(a) + [Entry(id, Payload(a, off, len))]
  {
    var hi := SlotOff(|a|, n);
    b := Splice(a, hi, RecordCells(Ate(id, off, len)));
    ReadWritten(b, hi, Ate(id, off, len));
    BlankSlot(a, n + 1);
    RecordUnchanged(a, b, hi, hi + REC, hi - REC);
    PayloadUnchanged(a, b, hi, hi + REC, off, len);
    SlotsStay(w, a, b, n, hi, hi + REC);
    AppendedSlot(w, a, b, n, Ate(id, off, len));
  }

  lemma BlankSlot(sec: Sector, i: nat)
    requires REC * (i + 1) <= |sec|
    requires Blank(sec[SlotOff(|sec|, i)..SlotOff(|sec|, i) + REC])
    ensures Slot(sec, i).Empty?
  {
  }

  lemma AppendedSlot(w: Wbs, a: Sector, b: Sector, n: nat, r: Record)
    requires Holds(w, a, n) && |a| == |b| && REC * (n + 3) <= |a|
    requires forall i :: 0 <= i < n ==> SameSlot(a, b, i) && SlotOk(w, b, i, LastEnd(w, a, n))
    requires LastEnd(w, a, n) == LastEnd(w, b, n)
    requires r.Ate? && Slot(b, n) == Good(r) && Slot(b, n + 1).Empty?
    requires Payload(a, r.off, r.len) == Payload(b, r.off, r.len)
    requires LastEnd(w, a, n) <= r.off && Aligned(w, r.off) && REC <= r.off
    requires r.off + AlignUp(w, r.len) <= SlotOff(|a|, n + 1)
    ensures Holds(w, b, n + 1)
    ensures LastEnd(w, b, n + 1) == r.off + AlignUp(w, r.len)
    ensures Entries(b) == Entries(a) + [Entry(r.id, Payload(a, r.off, r.len))]
  {
    hide EntriesFrom, Entries, Space, LastEnd, SlotOk;
    AppendedEntries(a, b, n, r);
    AppendedHolds(w, a, b, n, r);
  }

  lemma AppendedEntries(a: Sector, b: Sector, n: nat, r: Record)
    requires |a| == |b| && REC * (n + 3) <= |a| && Slot(a, n).Empty?
    requires forall i :: 0 <= i < n ==> SameSlot(a, b, i)
    requires r.Ate? && Slot(b, n) == Good(r) && Slot(b, n + 1).Empty?
    requires Payload(a, r.off, r.len) == Payload(b, r.off, r.len)
    ensures Entries(b) == Entries(a) + [Entry(r.id, Payload(a, r.off, r.len))]
  {
    hide ReadRecord, Payload, Slot, SameSlot;
    WalkUnchanged(a, b, n, 0);
    WalkStep(b, n);
    assert EntriesFrom(b, n + 1) == [];
  }

  lemma AppendedHolds(w: Wbs, a: Sector, b: Sector, n: nat, r: Record)
    requires Holds(w, a, n) && |a| == |b| && REC * (n + 3) <= |a|
    requires forall i :: 0 <= i < n ==> SlotOk(w, b, i, LastEnd(w, a, n))
    requires r.Ate? && Slot(b, n) == Good(r) && Slot(b, n + 1).Empty?
    requires LastEnd(w, a, n) <= r.off && Aligned(w, r.off) && REC <= r.off
    requires r.off + AlignUp(w, r.len) <= SlotOff(|a|, n + 1) && r.off + r.len <= |a|
    requires Entries(b) == Entries(a) + [Entry(r.id, Payload(a, r.off, r.len))]
    ensures Holds(w, b, n + 1)
    ensures LastEnd(w, b, n + 1) == r.off + AlignUp(w, r.len)
  {
    hide Payload, AlignUp, Aligned, Entries, ReadRecord, Slot;
    var end := LastEnd(w, b, n + 1);
    assert end == r.off + AlignUp(w, r.len);
    hide LastEnd;
    SpaceAppend(w, Entries(a), Entry(r.id, Payload(a, r.off, r.len)));
    PayloadLength(a, r.off, r.len);
    hide Space;
    AlignedSum(w, r.off, AlignUp(w, r.len));
    forall i | 0 <= i <= n ensures SlotOk(w, b, i, end) {
      if i < n {
        assert SlotOk(w, b, i, LastEnd(w, a, n));
      }
    }
  }

  lemma PayloadLength(sec: Sector, off: nat, len: nat)
    requires off + len <= |sec|
    ensures |Payload(sec, off, len)| == len
  {
  }

  /** Writing an ATE that a power cut interrupts adds nothing to the log. */
  lemma TornSlot(w: Wbs, a: Sector, b: Sector, n: nat)
    requires Holds(w, a, n)
    requires REC * (n + 3) <= |a| && LastEnd(w, a, n) + REC <= SlotOff(|a|, n)
    requires Blank(a[SlotOff(|a|, n) - REC..SlotOff(|a|, n)])
    requires Torn(a, b, SlotOff(|a|, n), REC)
    ensures SectorOk(w, b) && Entries(b) == Entries(a)
  {
    hide LastEnd, Space, AlignUp, Entries, EntriesFrom, SlotOk, SameSlot, Count, SectorOk, Payload;
    var hi := SlotOff(|a|, n);
    assert !Slot(b, n).Good? by {
      assert b[hi..hi + REC][0] == b[hi];
    }
    BlankSlot(a, n + 1);
    RecordUnchanged(a, b, hi, hi + REC, hi - REC);
    SlotsStay(w, a, b, n, hi, hi + REC);
    TornSlotSkipped(w, a, b, n);
  }

  lemma TornSlotSkipped(w: Wbs, a: Sector, b: Sector, n: nat)
    requires Holds(w, a, n) && |a| == |b| && REC * (n + 3) <= |a|
    requires LastEnd(w, a, n) + REC <= SlotOff(|a|, n)
    requires forall i :: 0 <= i < n ==> SameSlot(a, b, i) && SlotOk(w, b, i, LastEnd(w, a, n))
    requires LastEnd(w, a, n) == LastEnd(w, b, n)
    requires !Slot(b, n).Good? && Slot(b, n + 1).Empty?
    ensures SectorOk(w, b) && Entries(b) == Entries(a)
  {
    hide ReadRecord, Payload, AlignUp, Space;
    WalkUnchanged(a, b, n, 0);
    if Slot(b, n).Empty? {
      assert EntriesFrom(b, n) == [];
      assert Entries(b) == Entries(a);
      HoldsIsOk(w, b, n);
    } else {
      WalkStep(b, n);
      assert EntriesFrom(b, n + 1) == [];
      assert EntriesFrom(b, n) == [];
      assert Entries(b) == Entries(a);
      TornSlotHolds(w, a, b, n);
    }
  }

  lemma TornSlotHolds(w: Wbs, a: Sector, b: Sector, n: nat)
    requires Holds(w, a, n) && |a| == |b| && REC * (n + 3) <= |a|
    requires LastEnd(w, a, n) + REC <= SlotOff(|a|, n)
    requires forall i :: 0 <= i < n ==> SlotOk(w, b, i, LastEnd(w, a, n))
    requires LastEnd(w, a, n) == LastEnd(w, b, n)
    requires Slot(b, n).Bad? && Slot(b, n + 1).Empty? && Entries(a) == Entries(b)
    ensures SectorOk(w, b)
  {
    hide ReadRecord, Payload, AlignUp, Space, Entries, Count, SectorOk, LastEnd, SlotOk, Slot;
    BadIsSkipped(w, b, n);
    HoldsIsOk(w, b, n + 1);
  }

  lemma BadIsSkipped(w: Wbs, sec: Sector, n: nat)
    requires REC * (n + 1) <= |sec| && Slot(sec, n).Bad?
    ensures LastEnd(w, sec, n + 1) == LastEnd(w, sec, n) && SlotOk(w, sec, n, LastEnd(w, sec, n))
  {
    hide ReadRecord, AlignUp;
  }

  /** A sector without entries, whatever its first eight bytes are. */
  lemma FreshSector(w: Wbs, sec: Sector)
    requires |sec| % REC == 0 && |sec| >= 32
    requires Blank(sec[REC..])
    ensures Holds(w, sec, 0) && SectorOk(w, sec) && Entries(sec) == [] && LastEnd(w, sec, 0) == REC
  {
    var cells := sec[|sec| - REC..|sec|];
    assert Blank(cells) by {
      forall i | 0 <= i < |cells| ensures cells[i] == Raw(0xff) {
        assert cells[i] == sec[REC..][|sec| - REC - REC + i];
      }
    }
    assert Slot(sec, 0).Empty?;
    HoldsIsOk(w, sec, 0);
  }
}
