/** What is left of a walk over the entries from oldest to newest. */
module SfcbWalk {
  import opened SfcbLog
  import opened SfcbFlash
  import opened SfcbSector
  import opened SfcbRing

  /** The entries behind a location that has passed `i` slots of sector `s`. */
  ghost function Rest(m: Memory, wr: nat, s: nat, i: nat): seq<Entry>
    requires wr < |m| && s < |m|
  {
    EntriesFrom(m[s], i) + LogFrom(m, Next(|m|, s), Behind(|m|, wr, s))
  }

  lemma RestStart(m: Memory, wr: nat)
    requires wr < |m| && |m| > 1
    ensures Rest(m, wr, Next(|m|, wr), 0) == Log(m, wr)
  {
    hide EntriesFrom;
  }

  lemma RestSectorEnd(m: Memory, wr: nat, s: nat, i: nat)
    requires wr < |m| && s < |m| && |m| > 1 && s != wr && AtEnd(m[s], i)
    ensures Rest(m, wr, s, i) == Rest(m, wr, Next(|m|, s), 0)
    ensures EntriesFrom(m[s], i) == []
    ensures Behind(|m|, wr, s) == Behind(|m|, wr, Next(|m|, s)) + 1
  {
    hide AtEnd;
    assert EntriesFrom(m[s], i) == [];
  }

  lemma RestEnd(m: Memory, wr: nat, i: nat)
    requires wr < |m| && AtEnd(m[wr], i)
    ensures Rest(m, wr, wr, i) == []
    ensures EntriesFrom(m[wr], i) == []
  {
    hide AtEnd;
    assert EntriesFrom(m[wr], i) == [];
  }

  lemma RestStep(m: Memory, wr: nat, s: nat, i: nat)
    requires wr < |m| && s < |m| && !AtEnd(m[s], i)
    ensures Rest(m, wr, s, i) == EntryAt(m[s], i) + Rest(m, wr, s, i + 1)
    ensures EntriesFrom(m[s], i) == EntryAt(m[s], i) + EntriesFrom(m[s], i + 1)
  {
    hide Slot, EntryAt;
    assert EntriesFrom(m[s], i) == EntryAt(m[s], i) + EntriesFrom(m[s], i + 1);
  }

  /** A walk within a sector ends exactly behind the last written slot. */
  lemma {:induction false} WalkEnds(sec: Sector, i: nat)
    requires i <= Count(sec, 0)
    ensures AtEnd(sec, i) <==> i == Count(sec, 0)
  {
    hide AtEnd;
    CountFrom(sec, i);
    if !AtEnd(sec, i) {
      CountAtLeast(sec, i + 1);
    }
  }

  lemma {:induction false} CountFrom(sec: Sector, i: nat)
    requires i <= Count(sec, 0)
    ensures Count(sec, i) == Count(sec, 0)
  {
    if i > 0 {
      CountFrom(sec, i - 1);
    }
  }
}
