/** The ring of sectors: which one is written, in which order entries are found, and what
    makes a flash image one from which a mount recovers a given history. */
module SfcbRing {
  import opened SfcbLog
  import opened SfcbFlash
  import opened SfcbSector

  /** sfcb_next_sector and sfcb_prev_sector. */
  function Next(count: nat, s: nat): (r: nat)
    requires s < count
    ensures r < count
  {
    if s + 1 == count then 0 else s + 1
  }

  function Prev(count: nat, s: nat): (r: nat)
    requires s < count
    ensures r < count && Next(count, r) == s
  {
    if s == 0 then count - 1 else s - 1
  }

  /** How many sectors `s` lies behind the write sector `wr`. */
  function Behind(count: nat, wr: nat, s: nat): (d: nat)
    requires wr < count && s < count
    ensures d < count && (d == 0 <==> s == wr)
  {
    if s <= wr then wr - s else wr - s + count
  }

  function Id16(x: int): (r: nat)
    ensures r < 0x1_0000
  {
    x % 0x1_0000
  }

  lemma Id16Sub(x: int, k: nat)
    ensures Id16(Id16(x) - k) == Id16(x - k)
  {
  }

  /** Entries of `k` consecutive sectors from `s` on, round the ring. */
  ghost function LogFrom(m: Memory, s: nat, k: nat): seq<Entry>
    requires s < |m|
    decreases k
  {
    if k == 0 then [] else Entries(m[s]) + LogFrom(m, Next(|m|, s), k - 1)
  }

  /** All entries, oldest first, when `wr` is the write sector. */
  ghost function Log(m: Memory, wr: nat): seq<Entry>
    requires wr < |m|
  {
    LogFrom(m, Next(|m|, wr), |m|)
  }

  /** The entries outside the sector that would be erased next. */
  ghost function Newer(m: Memory, wr: nat): seq<Entry>
    requires wr < |m| && |m| > 1
  {
    LogFrom(m, Next(|m|, Next(|m|, wr)), |m| - 1)
  }

  /** The entries outside the write sector. */
  ghost function Older(m: Memory, wr: nat): seq<Entry>
    requires wr < |m| && |m| > 1
  {
    LogFrom(m, Next(|m|, wr), |m| - 1)
  }

  /** `filled` sectors, the newest of them `wr` with id `id`, carry consecutive ids going
      backwards round the ring; the others have no valid start and no entries. */
  ghost predicate RingSector(g: Geometry, sec: Sector, behind: nat, id: nat, filled: nat) {
    && |sec| == g.size
    && SectorOk(g.wbs, sec)
    && if behind < filled then HasStart(sec, Id16(id - behind)) else NoStart(sec) && Entries(sec) == []
  }

  ghost predicate Ring(g: Geometry, m: Memory, wr: nat, id: nat, filled: nat) {
    && |m| == g.count && wr < g.count
    && id < 0x1_0000 && 0 < filled <= g.count
    && forall s :: 0 <= s < |m| ==> RingSector(g, m[s], Behind(g.count, wr, s), id, filled)
  }

  /** No value depends on the sector after the write sector. */
  ghost predicate Clean(m: Memory, wr: nat)
    requires wr < |m| && |m| > 1
  {
    SameView(Log(m, wr), Newer(m, wr))
  }

  /** No value depends on the write sector: it only holds copies. */
  ghost predicate CopiesOnly(m: Memory, wr: nat)
    requires wr < |m| && |m| > 1
  {
    SameView(Log(m, wr), Older(m, wr))
  }

  /** A flash image in which a store of history `h` may be found. */
  ghost predicate Image(g: Geometry, m: Memory, wr: nat, id: nat, filled: nat, h: seq<Entry>) {
    && g.Valid()
    && Ring(g, m, wr, id, filled)
    && SameView(Log(m, wr), h)
    && (Clean(m, wr) || CopiesOnly(m, wr))
  }

  ghost predicate Recoverable(g: Geometry, m: Memory, h: seq<Entry>) {
    exists wr, id, filled :: Image(g, m, wr, id, filled, h)
  }

  lemma ImageRecovers(g: Geometry, m: Memory, wr: nat, id: nat, filled: nat, h: seq<Entry>)
    requires Image(g, m, wr, id, filled, h)
    ensures Recoverable(g, m, h)
  {
    hide Image;
    assert Image(g, m, wr, id, filled, h);
  }

  /** The flash determines which sector is the write sector. */
  lemma RingIsUnique(g: Geometry, m: Memory, wr: nat, id: nat, filled: nat, wr2: nat, id2: nat, filled2: nat)
    requires g.Valid() && Ring(g, m, wr, id, filled) && Ring(g, m, wr2, id2, filled2)
    ensures wr == wr2 && id == id2
  {
    hide Entries, SectorOk, ReadRecord, Id16, HasStart;
    var a, b := Behind(g.count, wr2, wr), Behind(g.count, wr, wr2);
    assert RingSector(g, m[wr], 0, id, filled) && RingSector(g, m[wr], a, id2, filled2);
    assert RingSector(g, m[wr2], b, id, filled) && RingSector(g, m[wr2], 0, id2, filled2);
    StartIsUnique(m[wr], Id16(id), Id16(id2 - a), a < filled2);
    StartIsUnique(m[wr2], Id16(id2), Id16(id - b), b < filled);
    IdsApart(id, id2, a, b);
  }

  lemma StartIsUnique(sec: Sector, id: nat, id2: nat, written: bool)
    requires HasStart(sec, id)
    requires if written then HasStart(sec, id2) else NoStart(sec)
    ensures written && id == id2
  {
    hide ReadRecord;
  }

  lemma IdsApart(id: nat, id2: nat, a: nat, b: nat)
    requires id < 0x1_0000 && id2 < 0x1_0000 && a + b < 0x1_0000
    requires Id16(id) == Id16(id2 - a) && Id16(id2) == Id16(id - b)
    ensures a == 0 && b == 0 && id == id2
  {
    assert id == id2 - a || id == id2 - a + 0x1_0000;
    assert id2 == id - b || id2 == id - b + 0x1_0000;
  }

  // Walking round the ring

  /** The sector `k` steps after `s`. */
  function Ahead(count: nat, s: nat, k: nat): (r: nat)
    requires s < count && k <= count
    ensures r < count
  {
    if s + k < count then s + k else s + k - count
  }

  lemma {:induction false} LogFromSame(a: Memory, b: Memory, s: nat, k: nat)
    requires |a| == |b| && s < |a| && k <= |a|
    requires forall j :: 0 <= j < k ==> Entries(a[Ahead(|a|, s, j)]) == Entries(b[Ahead(|a|, s, j)])
    ensures LogFrom(a, s, k) == LogFrom(b, s, k)
    decreases k
  {
    hide Entries;
    if k > 0 {
      assert Ahead(|a|, s, 0) == s;
      forall j | 0 <= j < k - 1
        ensures Entries(a[Ahead(|a|, Next(|a|, s), j)]) == Entries(b[Ahead(|a|, Next(|a|, s), j)])
      {
        assert Ahead(|a|, Next(|a|, s), j) == Ahead(|a|, s, j + 1);
      }
      LogFromSame(a, b, Next(|a|, s), k - 1);
    }
  }

  lemma {:induction false} LogFromLast(m: Memory, s: nat, k: nat)
    requires s < |m| && 0 < k <= |m|
    ensures LogFrom(m, s, k) == LogFrom(m, s, k - 1) + Entries(m[Ahead(|m|, s, k - 1)])
    decreases k
  {
    hide Entries;
    if k > 1 {
      assert Ahead(|m|, Next(|m|, s), k - 2) == Ahead(|m|, s, k - 1);
      LogFromLast(m, Next(|m|, s), k - 1);
      assert LogFrom(m, s, k) == Entries(m[s]) + LogFrom(m, Next(|m|, s), k - 1);
      assert LogFrom(m, s, k - 1) == Entries(m[s]) + LogFrom(m, Next(|m|, s), k - 2);
    } else {
      assert LogFrom(m, Next(|m|, s), 0) == [];
      assert Ahead(|m|, s, 0) == s;
    }
  }

  /** The log is the next victim's entries followed by the rest, and also the older
      sectors' entries followed by the write sector's. */
  lemma LogSplits(m: Memory, wr: nat)
    requires wr < |m| && |m| > 1
    ensures Log(m, wr) == Entries(m[Next(|m|, wr)]) + Newer(m, wr)
    ensures Log(m, wr) == Older(m, wr) + Entries(m[wr])
  {
    hide Entries;
    LogFromLast(m, Next(|m|, wr), |m|);
    assert Ahead(|m|, Next(|m|, wr), |m| - 1) == wr;
  }

  // What flash operations do to a ring

  /** Sectors whose start and entries are kept leave the log as it is. */
  lemma SameEntries(g: Geometry, a: Memory, s: nat, sec: Sector, wr: nat, id: nat, filled: nat)
    requires Ring(g, a, wr, id, filled) && s < |a| && |a| > 1
    requires |sec| == g.size && SectorOk(g.wbs, sec) && Entries(sec) == Entries(a[s])
    requires ReadRecord(sec, 0) == ReadRecord(a[s], 0)
    ensures Ring(g, a[s := sec], wr, id, filled)
    ensures Log(a[s := sec], wr) == Log(a, wr)
    ensures Clean(a[s := sec], wr) == Clean(a, wr) && CopiesOnly(a[s := sec], wr) == CopiesOnly(a, wr)
  {
    hide Entries, SectorOk, ReadRecord;
    var b := a[s := sec];
    var n := Next(|a|, wr);
    LogFromSame(a, b, n, |a|);
    LogFromSame(a, b, Next(|a|, n), |a| - 1);
    LogFromSame(a, b, n, |a| - 1);
    forall t | 0 <= t < |b| ensures RingSector(g, b[t], Behind(g.count, wr, t), id, filled) {
      assert RingSector(g, a[t], Behind(g.count, wr, t), id, filled);
    }
  }

  /** A new entry in the write sector goes to the end of the log. */
  lemma AppendEntry(g: Geometry, a: Memory, sec: Sector, wr: nat, id: nat, filled: nat, e: Entry)
    requires Ring(g, a, wr, id, filled) && |a| > 1
    requires |sec| == g.size && SectorOk(g.wbs, sec) && Entries(sec) == Entries(a[wr]) + [e]
    requires ReadRecord(sec, 0) == ReadRecord(a[wr], 0)
    ensures Ring(g, a[wr := sec], wr, id, filled)
    ensures Log(a[wr := sec], wr) == Log(a, wr) + [e]
    ensures Newer(a[wr := sec], wr) == Newer(a, wr) + [e]
    ensures Older(a[wr := sec], wr) == Older(a, wr)
  {
    hide Entries, SectorOk, ReadRecord;
    var b := a[wr := sec];
    var n := Next(|a|, wr);
    LogSplits(a, wr);
    LogSplits(b, wr);
    OthersSame(a, b, wr);
    assert Log(b, wr) == Older(a, wr) + Entries(a[wr]) + [e];
    assert Entries(b[n]) == Entries(a[n]);
    DropPrefix(Entries(a[n]), Newer(b, wr), Newer(a, wr) + [e]);
    forall t | 0 <= t < |b| ensures RingSector(g, b[t], Behind(g.count, wr, t), id, filled) {
      assert RingSector(g, a[t], Behind(g.count, wr, t), id, filled);
    }
  }

  lemma DropPrefix<T>(p: seq<T>, x: seq<T>, y: seq<T>)
    requires p + x == p + y
    ensures x == y
  {
    assert x == (p + x)[|p|..] && y == (p + y)[|p|..];
  }

  /** Changing one sector does not change what the others hold. */
  lemma OthersSame(a: Memory, b: Memory, s: nat)
    requires |a| == |b| > 1 && s < |a| && b == a[s := b[s]]
    ensures LogFrom(b, Next(|a|, s), |a| - 1) == LogFrom(a, Next(|a|, s), |a| - 1)
  {
    hide Entries;
    forall j | 0 <= j < |a| - 1 ensures Ahead(|a|, Next(|a|, s), j) != s {
    }
    LogFromSame(a, b, Next(|a|, s), |a| - 1);
  }

  /** Erasing the sector after the write sector, or leaving a torn start in it. */
  lemma EraseVictim(g: Geometry, a: Memory, sec: Sector, wr: nat, id: nat, filled: nat) returns (left: nat)
    requires Ring(g, a, wr, id, filled) && |a| > 1 && Clean(a, wr)
    requires |sec| == g.size && SectorOk(g.wbs, sec) && Entries(sec) == [] && NoStart(sec)
    ensures left == (if filled == g.count then filled - 1 else filled)
    ensures var b := a[Next(|a|, wr) := sec];
      && Ring(g, b, wr, id, left)
      && SameView(Log(b, wr), Log(a, wr))
      && Newer(b, wr) == Newer(a, wr)
      && Clean(b, wr)
  {
    hide Entries, SectorOk, ReadRecord;
    var v := Next(|a|, wr);
    var b := a[v := sec];
    left := if filled == g.count then filled - 1 else filled;
    OthersSame(a, b, v);
    LogSplits(b, wr);
    assert Log(b, wr) == Newer(a, wr);
    forall t | 0 <= t < |b| ensures RingSector(g, b[t], Behind(g.count, wr, t), id, left) {
      assert RingSector(g, a[t], Behind(g.count, wr, t), id, filled);
    }
  }

  /** Completing the start of the erased victim makes it the write sector. */
  lemma StartVictim(g: Geometry, a: Memory, sec: Sector, wr: nat, id: nat, filled: nat)
    requires Ring(g, a, wr, id, filled) && |a| > 1
    requires Entries(a[Next(|a|, wr)]) == [] && filled < g.count
    requires |sec| == g.size && SectorOk(g.wbs, sec) && Entries(sec) == [] && HasStart(sec, Id16(id + 1))
    ensures var b := a[Next(|a|, wr) := sec]; var v := Next(|a|, wr);
      && Ring(g, b, v, Id16(id + 1), filled + 1)
      && Log(b, v) == Newer(a, wr)
      && Log(b, v) == Log(a, wr)
      && CopiesOnly(b, v)
  {
    hide Entries, SectorOk, ReadRecord;
    var v := Next(|a|, wr);
    var b := a[v := sec];
    OthersSame(a, b, v);
    LogSplits(a, wr);
    LogSplits(b, v);
    assert Older(b, v) == Newer(a, wr);
    hide Id16;
    forall t | 0 <= t < |b| ensures RingSector(g, b[t], Behind(g.count, v, t), Id16(id + 1), filled + 1) {
      Id16Sub(id + 1, Behind(g.count, v, t));
      assert RingSector(g, a[t], Behind(g.count, wr, t), id, filled);
    }
  }

  /** Erasing a write sector that only holds copies, after a failed compress. */
  lemma EraseCopies(g: Geometry, a: Memory, sec: Sector, wr: nat, id: nat)
    requires g.Valid() && Ring(g, a, wr, id, g.count) && CopiesOnly(a, wr)
    requires |sec| == g.size && SectorOk(g.wbs, sec) && Entries(sec) == [] && NoStart(sec)
    ensures var b := a[wr := sec]; var p := Prev(|a|, wr);
      && Ring(g, b, p, Id16(id - 1), g.count - 1)
      && SameView(Log(b, p), Log(a, wr))
      && Log(b, p) == Newer(b, p)
      && Clean(b, p)
  {
    hide Entries, SectorOk, ReadRecord;
    var p := Prev(|a|, wr);
    var b := a[wr := sec];
    OthersSame(a, b, wr);
    LogSplits(b, p);
    assert Log(b, p) == Older(a, wr);
    hide Id16;
    forall t | 0 <= t < |b| ensures RingSector(g, b[t], Behind(g.count, p, t), Id16(id - 1), g.count - 1) {
      Id16Sub(id - 1, Behind(g.count, p, t));
      assert RingSector(g, a[t], Behind(g.count, wr, t), id, g.count);
    }
  }
}
