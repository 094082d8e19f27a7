/** Why the keep-newest compress routine loses nothing and, in a fresh sector, never runs
    out of space. */
module SfcbCompress {
  import opened SfcbLog
  import opened SfcbFlash
  import opened SfcbSector
  import opened SfcbRing
  import opened SfcbSteps

  /** `done` entries of the victim are dealt with, the others are `todo`. */
  ghost predicate Settling(m: Memory, wr: nat, done: seq<Entry>, todo: seq<Entry>)
    requires wr < |m| && |m| > 1
  {
    && Entries(m[Next(|m|, wr)]) == done + todo
    && Settled(done, todo, Newer(m, wr))
  }

  lemma SettlingStart(m: Memory, wr: nat)
    requires wr < |m| && |m| > 1
    ensures Settling(m, wr, [], Entries(m[Next(|m|, wr)]))
  {
    hide Entries, Newer;
    SettledStart(Entries(m[Next(|m|, wr)]), Newer(m, wr));
  }

  lemma SettlingEnd(m: Memory, wr: nat, done: seq<Entry>)
    requires wr < |m| && |m| > 1 && Settling(m, wr, done, [])
    ensures Clean(m, wr) && Entries(m[Next(|m|, wr)]) == done
  {
    hide Entries, Newer, Log, SameView;
    assert done + [] == done;
    SettledEnd(done, Newer(m, wr));
    LogSplits(m, wr);
  }

  /** The log while entry `e` of the victim is looked at. */
  lemma SettlingLog(m: Memory, wr: nat, done: seq<Entry>, e: Entry, todo: seq<Entry>)
    requires wr < |m| && |m| > 1 && Settling(m, wr, done, [e] + todo)
    ensures Log(m, wr) == done + ([e] + todo) + Newer(m, wr)
  {
    hide Entries, Newer, Log, Settled;
    LogSplits(m, wr);
  }

  lemma SettlingSkip(m: Memory, wr: nat, done: seq<Entry>, e: Entry, todo: seq<Entry>)
    requires wr < |m| && |m| > 1 && Settling(m, wr, done, [e] + todo)
    requires Has(todo + Newer(m, wr), e.id) || e.data == []
    ensures Settling(m, wr, done + [e], todo)
  {
    hide Entries, Newer, Settled, Has;
    SettledSkip(done, e, todo, Newer(m, wr));
    assert done + ([e] + todo) == done + [e] + todo;
  }

  /** Copying keeps every value, before (`a`) as after (`b`). */
  lemma SettlingCopy(a: Memory, b: Memory, wr: nat, done: seq<Entry>, e: Entry, todo: seq<Entry>)
    requires |a| == |b| > 1 && wr < |a| && Settling(a, wr, done, [e] + todo)
    requires !Has(todo + Newer(a, wr), e.id)
    requires OnlySector(a, b, wr) && Newer(b, wr) == Newer(a, wr) + [e]
    ensures Settling(b, wr, done + [e], todo)
  {
    hide Entries, Newer, Settled, Has, SameView;
    SettledCopy(done, e, todo, Newer(a, wr));
    assert done + ([e] + todo) == done + [e] + todo;
  }

  lemma CopyKeepsView(m: Memory, wr: nat, done: seq<Entry>, e: Entry, todo: seq<Entry>)
    requires wr < |m| && |m| > 1 && Settling(m, wr, done, [e] + todo)
    requires !Has(todo + Newer(m, wr), e.id)
    ensures SameView(Log(m, wr) + [e], Log(m, wr))
  {
    hide Entries, Newer, Settled, Has, SameView, Log;
    SettlingLog(m, wr, done, e, todo);
    SettledCopy(done, e, todo, Newer(m, wr));
  }

  /** When nothing depends on the victim any more, nothing is copied. */
  lemma CleanNeedsNoCopy(m: Memory, wr: nat, done: seq<Entry>, e: Entry, todo: seq<Entry>)
    requires wr < |m| && |m| > 1 && Settling(m, wr, done, [e] + todo) && Clean(m, wr)
    requires !Has(todo + Newer(m, wr), e.id)
    ensures e.data == []
  {
    hide Entries, Newer, Settled, Has, Log, Value;
    SettlingLog(m, wr, done, e, todo);
    HasConcat(todo, Newer(m, wr), e.id);
    NewestInSuffix(done, e, todo, Newer(m, wr));
  }

  /** An empty log leaves nothing to compress. */
  lemma EmptyIsClean(m: Memory, wr: nat)
    requires wr < |m| && |m| > 1 && Log(m, wr) == []
    ensures Clean(m, wr)
  {
    hide Entries, LogFrom;
    LogSplits(m, wr);
    assert Newer(m, wr) == [];
  }

  /** At most the space of the victim's `done` entries is used up. */
  ghost predicate Used(g: Geometry, done: seq<Entry>, data: nat, ate: nat) {
    data <= REC + Space(g.wbs, done) && g.size <= ate + REC * (|done| + 1)
  }

  lemma UsedSkip(g: Geometry, done: seq<Entry>, e: Entry, data: nat, ate: nat)
    requires Used(g, done, data, ate)
    ensures Used(g, done + [e], data, ate)
  {
    SpaceAppend(g.wbs, done, e);
  }

  lemma UsedCopy(g: Geometry, done: seq<Entry>, e: Entry, data: nat, ate: nat)
    requires Used(g, done, data, ate) && REC <= ate
    ensures Used(g, done + [e], data + AlignUp(g.wbs, |e.data|), ate - REC)
  {
    SpaceAppend(g.wbs, done, e);
  }

  /** The entries of one sector fit into another. */
  lemma CopyFits(g: Geometry, victim: Sector, done: seq<Entry>, e: Entry, todo: seq<Entry>, data: nat, ate: nat)
    requires |victim| == g.size && SectorOk(g.wbs, victim)
    requires Entries(victim) == done + ([e] + todo)
    requires Used(g, done, data, ate)
    ensures data + AlignUp(g.wbs, |e.data|) + REC <= ate
  {
    hide Slot, SlotOk, LastEnd, EntriesFrom, AlignUp;
    var n := Count(victim, 0);
    EntriesFewerThanSlots(victim, n, 0);
    SpaceConcat(g.wbs, done, [e] + todo);
    SpaceConcat(g.wbs, [e], todo);
    SpaceAppend(g.wbs, [], e);
    assert [] + [e] == [e];
  }

  // What exactly is copied

  /** Flash `m` with its write offsets is `m0` with `copies` added to the write sector. */
  ghost predicate Grown(w: Wbs, wr: nat, m0: Memory, data0: nat, ate0: nat, m: Memory, data: nat, ate: nat, copies: seq<Entry>) {
    && |m0| == |m| > 1 && wr < |m|
    && Log(m, wr) == Log(m0, wr) + copies && Newer(m, wr) == Newer(m0, wr) + copies
    && data == data0 + Space(w, copies) && ate + REC * |copies| == ate0
  }

  lemma GrownNot(w: Wbs, wr: nat, m: Memory, data: nat, ate: nat)
    requires |m| > 1 && wr < |m|
    ensures Grown(w, wr, m, data, ate, m, data, ate, [])
  {
    hide Log, Newer;
  }

  lemma GrownByOne(w: Wbs, wr: nat, m0: Memory, data0: nat, ate0: nat, m: Memory, data: nat, ate: nat, e: Entry)
    requires |m0| == |m| > 1 && wr < |m|
    requires Log(m, wr) == Log(m0, wr) + [e] && Newer(m, wr) == Newer(m0, wr) + [e]
    requires data == data0 + AlignUp(w, |e.data|) && ate + REC == ate0
    ensures Grown(w, wr, m0, data0, ate0, m, data, ate, [e])
  {
    hide Log, Newer, AlignUp;
    SpaceAppend(w, [], e);
    assert [] + [e] == [e];
  }

  lemma GrownBehind(w: Wbs, wr: nat, m0: Memory, data0: nat, ate0: nat, m: Memory, data: nat, ate: nat, copies: seq<Entry>)
    requires Grown(w, wr, m0, data0, ate0, m, data, ate, copies)
    ensures |m0| == |m| > 1 && wr < |m| && Newer(m, wr) == Newer(m0, wr) + copies
  {
    hide Log, Newer, Space;
  }

  lemma GrownTwice(w: Wbs, wr: nat, a: Memory, dataA: nat, ateA: nat, b: Memory, dataB: nat, ateB: nat, c: Memory, dataC: nat, ateC: nat,
                   copies: seq<Entry>, more: seq<Entry>)
    requires Grown(w, wr, a, dataA, ateA, b, dataB, ateB, copies) && Grown(w, wr, b, dataB, ateB, c, dataC, ateC, more)
    ensures Grown(w, wr, a, dataA, ateA, c, dataC, ateC, copies + more)
  {
    hide Log, Newer, Space;
    SpaceConcat(w, copies, more);
  }

  /** A run of compress: flash and write offsets at its start, and what it is to copy. */
  datatype Plan = Plan(mem: Memory, data: nat, ate: nat, copies: seq<Entry>)

  ghost function PlanOf(m: Memory, wr: nat, data: nat, ate: nat): Plan
    requires wr < |m| && |m| > 1
  {
    Plan(m, data, ate, Live(Entries(m[Next(|m|, wr)]), Newer(m, wr)))
  }

  /** What was copied so far, and what is still to be copied of `todo`, are the plan. */
  ghost predicate AsPlanned(w: Wbs, wr: nat, plan: Plan, m: Memory, data: nat, ate: nat, todo: seq<Entry>) {
    exists copies ::
      Grown(w, wr, plan.mem, plan.data, plan.ate, m, data, ate, copies) && copies + Live(todo, Newer(m, wr)) == plan.copies
  }

  lemma PlanStart(w: Wbs, wr: nat, m: Memory, data: nat, ate: nat)
    requires |m| > 1 && wr < |m|
    ensures AsPlanned(w, wr, PlanOf(m, wr, data, ate), m, data, ate, Entries(m[Next(|m|, wr)]))
    ensures Log(m, wr) == [] ==> PlanDone(w, wr, PlanOf(m, wr, data, ate), m, data, ate)
  {
    hide Entries, Log, Newer;
    LogSplits(m, wr);
    GrownNot(w, wr, m, data, ate);
    var plan := PlanOf(m, wr, data, ate);
    assert [] + plan.copies == plan.copies;
  }

  /** One entry is dealt with: copied if it is live, and only then. */
  lemma PlanStep(w: Wbs, wr: nat, plan: Plan, m0: Memory, data0: nat, ate0: nat, m: Memory, data: nat, ate: nat,
                 e: Entry, todo: seq<Entry>, copies: seq<Entry>)
    requires AsPlanned(w, wr, plan, m0, data0, ate0, [e] + todo)
    requires Grown(w, wr, m0, data0, ate0, m, data, ate, copies)
    requires |m0| > 1 && wr < |m0| && copies == if e.data != [] && !Has(todo + Newer(m0, wr), e.id) then [e] else []
    ensures AsPlanned(w, wr, plan, m, data, ate, todo)
  {
    hide Log, Newer, Space, Has, Live, Grown;
    var before :| Grown(w, wr, plan.mem, plan.data, plan.ate, m0, data0, ate0, before)
      && before + Live([e] + todo, Newer(m0, wr)) == plan.copies;
    LiveStep(e, todo, Newer(m0, wr), copies);
    GrownBehind(w, wr, m0, data0, ate0, m, data, ate, copies);
    GrownTwice(w, wr, plan.mem, plan.data, plan.ate, m0, data0, ate0, m, data, ate, before, copies);
    assert before + (copies + Live(todo, Newer(m, wr))) == before + copies + Live(todo, Newer(m, wr));
  }

  ghost predicate PlanDone(w: Wbs, wr: nat, plan: Plan, m: Memory, data: nat, ate: nat) {
    Grown(w, wr, plan.mem, plan.data, plan.ate, m, data, ate, plan.copies)
  }

  lemma PlanEnd(w: Wbs, wr: nat, plan: Plan, m: Memory, data: nat, ate: nat)
    requires AsPlanned(w, wr, plan, m, data, ate, [])
    ensures PlanDone(w, wr, plan, m, data, ate)
  {
    hide Log, Newer, Space;
    var copies :| Grown(w, wr, plan.mem, plan.data, plan.ate, m, data, ate, copies) && copies + Live([], Newer(m, wr)) == plan.copies;
    assert copies + [] == copies;
  }

  // Round the ring

  /** The entries of the sector `k` steps after the write sector, and of all newer ones. */
  ghost function Tail(m: Memory, wr: nat, k: nat): seq<Entry>
    requires wr < |m|
  {
    if k > |m| then [] else LogFrom(m, Ahead(|m|, wr, k), |m| - k + 1)
  }

  /** What is copied of the sector `k` steps after the write sector when its turn comes. */
  ghost function LiveAt(m: Memory, wr: nat, k: nat): seq<Entry>
    requires wr < |m| && k <= |m|
  {
    Live(Entries(m[Ahead(|m|, wr, k)]), Tail(m, wr, k + 1))
  }

  lemma TailSplits(m: Memory, wr: nat, k: nat)
    requires wr < |m| && 0 < k <= |m|
    ensures Tail(m, wr, k) == Entries(m[Ahead(|m|, wr, k)]) + Tail(m, wr, k + 1)
  {
    hide Entries;
    var s := Ahead(|m|, wr, k);
    assert LogFrom(m, s, |m| - k + 1) == Entries(m[s]) + LogFrom(m, Next(|m|, s), |m| - k);
    if k < |m| {
      assert Next(|m|, s) == Ahead(|m|, wr, k + 1);
    }
  }

  lemma TailIsNewer(m: Memory, wr: nat)
    requires wr < |m| && |m| > 1
    ensures Newer(m, wr) == Tail(m, wr, 2)
  {
    assert Next(|m|, Next(|m|, wr)) == Ahead(|m|, wr, 2);
  }

  /** The next sector was emptied and is the write sector: the log is what was newer. */
  lemma LogAfterErase(a: Memory, b: Memory, wr: nat)
    requires |a| == |b| > 1 && wr < |a| && Entries(b[Next(|a|, wr)]) == []
    requires forall s :: 0 <= s < |a| && s != Next(|a|, wr) ==> b[s] == a[s]
    ensures var v := Next(|a|, wr);
      && Log(b, v) == Newer(a, wr) && Newer(b, v) == Tail(a, wr, 3)
      && Next(|a|, v) == Ahead(|a|, wr, 2) && b[Next(|a|, v)] == a[Next(|a|, v)]
  {
    hide Entries, LogFrom;
    var v := Next(|a|, wr);
    LogSplits(b, v);
    assert b == a[v := b[v]];
    OthersSame(a, b, v);
    TailIsNewer(a, wr);
    TailSplits(a, wr, 2);
    assert Log(b, v) == Newer(a, wr);
    DropPrefix(Entries(b[Next(|a|, v)]), Newer(b, v), Tail(a, wr, 3));
  }

  /** After `r` rotations: sectors that were not reached yet are as in `m0`, and what is newer
      than the next victim is what it was, with copies of other ids behind it. */
  ghost predicate Rotated(m0: Memory, wr0: nat, m: Memory, wr: nat, r: nat, copies: seq<Entry>) {
    && |m| == |m0| > 1 && wr0 < |m0| && r < |m0| && wr == Ahead(|m0|, wr0, r)
    && (forall k :: r < k <= |m0| ==> m[Ahead(|m0|, wr0, k)] == m0[Ahead(|m0|, wr0, k)])
    && Newer(m, wr) == Tail(m0, wr0, r + 2) + copies
    && NoneIn(copies, Tail(m0, wr0, r + 2))
  }

  lemma RotatedNot(m: Memory, wr: nat)
    requires wr < |m| && |m| > 1
    ensures Rotated(m, wr, m, wr, 0, [])
  {
    hide Entries, LogFrom;
    TailIsNewer(m, wr);
  }

  /** One more rotation: its copies are those of the sector at the start. */
  lemma RotatedMore(m0: Memory, wr0: nat, m: Memory, wr: nat, r: nat, copies: seq<Entry>, m2: Memory, wr2: nat)
    requires Rotated(m0, wr0, m, wr, r, copies) && r + 1 < |m0|
    requires |m2| == |m| && wr2 == Next(|m|, wr)
    requires forall s :: 0 <= s < |m| && s != wr2 ==> m2[s] == m[s]
    requires Newer(m2, wr2) == Tail(m, wr, 3) + LiveAt(m, wr, 2)
    ensures LiveAt(m, wr, 2) == LiveAt(m0, wr0, r + 2)
    ensures Rotated(m0, wr0, m2, wr2, r + 1, copies + LiveAt(m0, wr0, r + 2))
  {
    hide Entries, LogFrom, Has, Live, Tail, Newer;
    var s, beyond := Ahead(|m0|, wr0, r + 2), Tail(m0, wr0, r + 3);
    assert Ahead(|m|, wr, 2) == s && m[s] == m0[s];
    TailIsNewer(m, wr);
    TailSplits(m, wr, 2);
    TailSplits(m0, wr0, r + 2);
    assert Entries(m0[s]) + beyond + copies == Entries(m0[s]) + (beyond + copies);
    DropPrefix(Entries(m[s]), Tail(m, wr, 3), beyond + copies);
    forall i | 0 <= i < |copies| ensures !Has(Entries(m0[s]), copies[i].id) && !Has(beyond, copies[i].id) {
      HasConcat(Entries(m0[s]), beyond, copies[i].id);
    }
    LiveMore(Entries(m0[s]), beyond, copies);
    LiveIsNewest(Entries(m0[s]), beyond);
    assert beyond + copies + LiveAt(m0, wr0, r + 2) == beyond + (copies + LiveAt(m0, wr0, r + 2));
    forall k | r + 1 < k <= |m0| ensures m2[Ahead(|m0|, wr0, k)] == m0[Ahead(|m0|, wr0, k)] {
      assert Ahead(|m0|, wr0, k) != wr2;
    }
  }

  /** An entry of `len` bytes fits a sector that holds `entries` besides. */
  ghost predicate FitsBeside(g: Geometry, entries: seq<Entry>, len: nat) {
    Space(g.wbs, entries) + AlignUp(g.wbs, len) + REC * (|entries| + 3) <= g.size
  }

  /** Write offsets of a sector with these entries only. */
  ghost predicate Packed(g: Geometry, entries: seq<Entry>, data: nat, ate: nat) {
    data == REC + Space(g.wbs, entries) && ate + REC * (|entries| + 1) == g.size
  }

  /** Some sector other than the one that is erased next would take the entry beside its live
      entries. */
  ghost predicate SomeTakes(g: Geometry, m: Memory, wr: nat, len: nat) {
    wr < |m| && exists k :: 2 <= k <= |m| && FitsBeside(g, LiveAt(m, wr, k), len)
  }

  lemma ThisTakes(g: Geometry, m: Memory, wr: nat, len: nat, k: nat)
    requires wr < |m| && 2 <= k <= |m| && FitsBeside(g, LiveAt(m, wr, k), len)
    ensures SomeTakes(g, m, wr, len)
  {
  }

  lemma NoneTakes(g: Geometry, m: Memory, wr: nat, len: nat)
    requires wr < |m| && forall k :: 2 <= k <= |m| ==> !FitsBeside(g, LiveAt(m, wr, k), len)
    ensures !SomeTakes(g, m, wr, len)
  {
  }

  /** Each of the entries has its place in `room`: one of its id, with at least its length. */
  ghost predicate Covered(entries: seq<Entry>, room: seq<Entry>) {
    forall i :: 0 <= i < |entries| ==> Placed(entries[i], room)
  }

  ghost predicate Placed(e: Entry, room: seq<Entry>) {
    exists j: nat :: HasPlace(e, room, j)
  }

  ghost predicate HasPlace(e: Entry, room: seq<Entry>, j: nat) {
    j < |room| && room[j].id == e.id && |e.data| <= |room[j].data|
  }

  ghost predicate DistinctIds(entries: seq<Entry>) {
    forall i, j :: 0 <= i < j < |entries| ==> entries[i].id != entries[j].id
  }

  /** Entries of different ids do not take more space than the room they have. */
  lemma {:induction false} SpaceWithin(w: Wbs, entries: seq<Entry>, room: seq<Entry>)
    requires DistinctIds(entries) && Covered(entries, room)
    ensures |entries| <= |room| && Space(w, entries) <= Space(w, room)
  {
    hide Space, AlignUp;
    if entries != [] {
      var n := |entries| - 1;
      var e, front := entries[n], entries[..n];
      var j: nat :| HasPlace(e, room, j);
      var others := room[..j] + room[j + 1..];
      forall i | 0 <= i < n ensures Placed(front[i], others) {
        assert front[i] == entries[i] && Placed(entries[i], room);
        var k: nat :| HasPlace(entries[i], room, k);
        assert HasPlace(front[i], others, if k < j then k else k - 1);
      }
      SpaceWithin(w, front, others);
      assert entries == front + [e];
      SpaceAppend(w, front, e);
      WithoutOne(w, room, j);
      AlignUpMonotone(w, |e.data|, |room[j].data|);
    } else {
      EmptySpace(w);
    }
  }

  lemma EmptySpace(w: Wbs)
    ensures Space(w, []) == 0
  {
  }

  lemma WithoutOne(w: Wbs, room: seq<Entry>, j: nat)
    requires j < |room|
    ensures Space(w, room) == Space(w, room[..j] + room[j + 1..]) + AlignUp(w, |room[j].data|)
  {
    hide AlignUp;
    assert room == (room[..j] + [room[j]]) + room[j + 1..];
    SpaceConcat(w, room[..j] + [room[j]], room[j + 1..]);
    SpaceAppend(w, room[..j], room[j]);
    SpaceConcat(w, room[..j], room[j + 1..]);
  }

  /** Live entries are values of the log they are live in, of different ids. */
  lemma LiveAreValues(todo: seq<Entry>, rest: seq<Entry>)
    ensures DistinctIds(Live(todo, rest))
    ensures forall e :: e in Live(todo, rest) ==> e.data == Value(todo + rest, e.id) != []
  {
    hide Live, Value, Has;
    var live := Live(todo, rest);
    forall i, j | 0 <= i < j < |live| ensures live[i].id != live[j].id {
      LiveApart(todo, rest, i);
      assert live[i + 1..][j - i - 1] == live[j];
      HasSome(live[i + 1..], live[i].id);
    }
    forall e | e in live ensures e.data == Value(todo + rest, e.id) != [] {
      var i :| 0 <= i < |live| && live[i] == e;
      LiveIsNeeded(todo, rest, i);
    }
  }
}
