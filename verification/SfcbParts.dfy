/** Entries that are written and read in parts. */
module SfcbParts {
  import opened FlashBytes
  import opened SfcbLog
  import opened SfcbFlash
  import opened SfcbSector
  import opened SfcbRing
  import opened SfcbSteps
  import opened SfcbStore

  function Concat(parts: seq<seq<byte>>): (data: seq<byte>)
    ensures forall i :: 0 <= i < |parts| ==> |parts[i]| <= |data|
  {
    if parts == [] then [] else Concat(parts[..|parts| - 1]) + parts[|parts| - 1]
  }

  function Sum(lens: seq<nat>): nat {
    if lens == [] then 0 else Sum(lens[..|lens| - 1]) + lens[|lens| - 1]
  }

  lemma {:induction false} ConcatGrows(parts: seq<seq<byte>>, i: nat)
    requires i < |parts|
    ensures Concat(parts[..i + 1]) == Concat(parts[..i]) + parts[i]
    ensures |Concat(parts[..i + 1])| <= |Concat(parts)|
    decreases |parts|
  {
    assert parts[..i + 1][..i] == parts[..i];
    if i + 1 == |parts| {
      assert parts[..i + 1] == parts;
    } else {
      ConcatGrows(parts[..|parts| - 1], i);
      assert parts[..|parts| - 1][..i + 1] == parts[..i + 1];
    }
  }

  /** Flash is as it was in `start`, but for the data and the ATE of one more entry. */
  ghost predicate Holding(store: Store, start: Memory, id: nat, len: nat, data: seq<byte>)
    requires store.wrSector < |start|
    reads store, store.dev
  {
    var base, ate := store.wrData - AlignUp(store.dev.g.wbs, len), store.wrAte + REC;
    && 0 <= base && base + |data| <= |start[store.wrSector]| && ate + REC <= |start[store.wrSector]|
    && store.dev.mem == start[store.wrSector := WithEntry(start[store.wrSector], base, ate, id, len, data)]
  }

  /** sfcb_open_loc, any number of sfcb_write_loc and sfcb_close_loc: flash afterwards depends
      on the flash `start` at opening and on all the data, not on how it was split; so does the
      entry that is added, and a power cut adds it as a whole or not at all. The flash at
      opening is that of the call or, after rotations, one of the states passed since. */
  method WriteInParts(store: Store, id: nat, len: nat, parts: seq<seq<byte>>) returns (status: Status, ghost start: Memory)
    requires store.Mounted()
    requires AlignUp(store.dev.g.wbs, len) + REC < 0x1_0000 && |Concat(parts)| <= len
    modifies store, store.dev`mem, store.dev`trace
    ensures store.wrSector < |start|
    ensures |old(store.dev.trace)| <= |store.dev.trace|
    ensures start == old(store.dev.mem) || start in store.dev.trace[|old(store.dev.trace)|..]
    ensures old(store.HasRoom(len)) ==> start == old(store.dev.mem)
    ensures status == Ok ==> Holding(store, start, id, len, Concat(parts))
    ensures status == Ok ==>
      && store.wrSector < |store.dev.mem|
      && Log(store.dev.mem, store.wrSector) == Log(start, store.wrSector) + [Entry(id, Concat(parts) + Ones(len - |Concat(parts)|))]
    ensures store.Mounted()
    ensures status == Ok || status == NoMemory
    ensures status == (if old(store.Takes(len)) then Ok else NoMemory)
    ensures status == Ok ==>
      store.history == old(store.history) + [Entry(id, Concat(parts) + Ones(len - |Concat(parts)|))]
    ensures status == Ok ==>
      CrashSafeCommit(store.dev.g, old(store.dev.trace), store.dev.trace, old(store.history), store.history)
    ensures status != Ok ==> store.history == old(store.history)
    ensures status != Ok ==> CrashSafe(store.dev.g, old(store.dev.trace), store.dev.trace, store.history)
  {
    hide Image, store.Framed, Recoverable, BlankRange, store.Writing, SameView, Log, Newer, Older, Concat, AlignUp,
      WithEntry, store.Takes, CrashSafe, CrashSafeCommit, OpenedAs, Clean, store.LogEndsWith;
    var loc := new Loc();
    status := store.OpenLoc(loc, id, len);
    store.Quiet();
    start := store.dev.mem;
    store.FramedBounds();
    OpenedWithin(store.dev.g, store.history, old(store.dev.trace), old(store.dev.mem), store.dev.trace, start);
    if status != Ok {
      return;
    }
    ghost var h, t0 := store.history, store.dev.trace;
    store.OpenIsWriteLoc(loc);
    status := WriteAndClose(store, loc, id, len, parts);
    StillWithin(old(store.dev.trace), old(store.dev.mem), t0, store.dev.trace, start);
    CommitLast(store.dev.g, old(store.dev.trace), t0, store.dev.trace, h, store.history);
  }

  /** What comes behind sfcb_open_loc. */
  method WriteAndClose(store: Store, loc: Loc, id: nat, len: nat, parts: seq<seq<byte>>) returns (status: Status)
    requires store.Writing(loc) && store.wrSector < |store.dev.mem| && |store.dev.mem| > 1
    requires Clean(store.dev.mem, store.wrSector) && loc.written == [] && loc.ate == Ate(id, store.wrData, len)
    requires loc.start == store.dev.mem && |Concat(parts)| <= len
    modifies store`wrData, store`wrAte, store`history, store.dev`mem, store.dev`trace, loc
    ensures status == Ok && store.Mounted()
    ensures store.wrSector < |old(store.dev.mem)| && store.wrSector < |store.dev.mem|
    ensures Holding(store, old(store.dev.mem), id, len, Concat(parts))
    ensures var e := Entry(id, Concat(parts) + Ones(len - |Concat(parts)|));
      && Log(store.dev.mem, store.wrSector) == Log(old(store.dev.mem), store.wrSector) + [e]
      && store.history == old(store.history) + [e]
    ensures old(store.dev.trace) <= store.dev.trace
    ensures CrashSafeCommit(store.dev.g, old(store.dev.trace), store.dev.trace, old(store.history), store.history)
  {
    hide store.Writing, Log, Newer, Older, Concat, AlignUp, WithEntry, CrashSafe, CrashSafeCommit, Clean, store.LogEndsWith, store.Idle;
    ghost var t0, h := store.dev.trace, store.history;
    CrashSafeNothing(store.dev.g, t0, h);
    WriteAll(store, loc, parts, t0);
    store.OpenIsWriteLoc(loc);
    ghost var data := Concat(parts);
    status := store.CloseWritten(loc, t0, Entry(id, data + Ones(len - |data|)));
    Extends(store.dev.g, t0, store.dev.trace, h, store.history);
  }

  lemma OpenedWithin(g: Geometry, h: seq<Entry>, before: seq<Memory>, m0: Memory, now: seq<Memory>, m: Memory)
    requires CrashSafe(g, before, now, h) && (m == m0 || (|before| < |now| && now[|now| - 1] == m))
    ensures |before| <= |now| && (m == m0 || m in now[|before|..])
  {
    hide Recoverable;
    if m != m0 {
      assert now[|before|..][|now| - 1 - |before|] == m;
    }
  }

  lemma StillWithin(before: seq<Memory>, m0: Memory, now: seq<Memory>, later: seq<Memory>, m: Memory)
    requires |before| <= |now| && now <= later && (m == m0 || m in now[|before|..])
    ensures m == m0 || m in later[|before|..]
  {
    assert now[|before|..] == later[|before|..|now|];
  }

  /** The calls of sfcb_write_loc. */
  method WriteAll(store: Store, loc: Loc, parts: seq<seq<byte>>, ghost t0: seq<Memory>)
    requires store.Writing(loc) && store.wrSector < |store.dev.mem| && |store.dev.mem| > 1
    requires Clean(store.dev.mem, store.wrSector) && loc.written == [] && loc.ate.Ate? && |Concat(parts)| <= loc.ate.len
    requires CrashSafe(store.dev.g, t0, store.dev.trace, store.history)
    modifies store.dev`mem, store.dev`trace, loc
    ensures store.Writing(loc) && store.wrSector < |store.dev.mem| && |store.dev.mem| > 1
    ensures Clean(store.dev.mem, store.wrSector)
    ensures loc.ate == old(loc.ate) && loc.start == old(loc.start) && loc.written == Concat(parts)
    ensures CrashSafe(store.dev.g, t0, store.dev.trace, store.history)
  {
    hide store.Framed, store.Writing, Clean, CrashSafe, Concat;
    NoParts(parts);
    for i := 0 to |parts|
      invariant store.Writing(loc) && store.wrSector < |store.dev.mem| && |store.dev.mem| > 1
      invariant Clean(store.dev.mem, store.wrSector)
      invariant loc.start == old(loc.start) && loc.ate == old(loc.ate) && loc.written == Concat(parts[..i])
      invariant CrashSafe(store.dev.g, t0, store.dev.trace, store.history)
    {
      ConcatGrows(parts, i);
      store.WritePart(loc, parts[i], t0);
      store.OpenIsWriteLoc(loc);
    }
    assert parts[..|parts|] == parts;
  }

  lemma NoParts(parts: seq<seq<byte>>)
    ensures Concat(parts[..0]) == []
  {
  }

  /** Any number of sfcb_read_loc: together they return what one call for all the bytes would. */
  method ReadInParts(store: Store, loc: Loc, lens: seq<nat>, ghost e: Entry) returns (data: seq<byte>)
    requires store.Framed() && store.AtEntry(loc, e) && loc.dataOff == 0
    modifies loc
    ensures store.Framed() && store.AtEntry(loc, e)
    ensures data == if Sum(lens) <= |e.data| then e.data[..Sum(lens)] else e.data
  {
    hide store.Framed, store.AtEntry, Sum;
    data := [];
    store.ReadPosition(loc, e);
    NoLens(lens);
    for i := 0 to |lens|
      invariant store.Framed() && store.AtEntry(loc, e) && loc.dataOff == |data| <= |e.data|
      invariant data == e.data[..|data|]
      invariant |data| == if Sum(lens[..i]) <= |e.data| then Sum(lens[..i]) else |e.data|
    {
      var part := store.ReadLoc(loc, lens[i], e);
      SumGrows(lens, i);
      NextPart(e.data, |data|, part);
      data := data + part;
    }
    assert lens[..|lens|] == lens;
    assert e.data[..|e.data|] == e.data;
  }

  lemma NoLens(lens: seq<nat>)
    ensures Sum(lens[..0]) == 0
  {
  }

  lemma SumGrows(lens: seq<nat>, i: nat)
    requires i < |lens|
    ensures Sum(lens[..i + 1]) == Sum(lens[..i]) + lens[i]
  {
    assert lens[..i + 1][..i] == lens[..i];
  }

  lemma NextPart(all: seq<byte>, at: nat, part: seq<byte>)
    requires at + |part| <= |all| && part == all[at..at + |part|]
    ensures all[..at] + part == all[..at + |part|]
  {
  }
}
