/** Whole runs of the store: any sequence of writes, each of which a power cut may end at
    any flash operation, with mounts in between that may be cut short themselves. */
module SfcbRun {
  import opened FlashBytes
  import opened SfcbLog
  import opened SfcbFlash
  import opened SfcbSector
  import opened SfcbRing
  import opened SfcbSteps
  import opened SfcbCompress
  import opened SfcbStore

  /** A write; if `cut` is given, power fails in that one of the states the flash goes
      through. The mounts that follow a cut are cut as `again` says, before one completes. */
  datatype Event = Event(id: nat, data: seq<byte>, cut: Option<nat>, again: seq<nat>)

  /** What the caller learns about a write. */
  datatype Answer = Done | Refused | PowerLost

  /** `h` is a history the caller can explain: every acknowledged write is in it, in order,
      no refused one is, and one that power was lost on is there completely or not at all. */
  ghost predicate Explains(events: seq<Event>, answers: seq<Answer>, h: seq<Entry>)
    requires |events| == |answers|
  {
    if events == [] then h == []
    else
      var n := |events| - 1;
      var e := Entry(events[n].id, events[n].data);
      var with := h != [] && h[|h| - 1] == e && Explains(events[..n], answers[..n], h[..|h| - 1]);
      var without := Explains(events[..n], answers[..n], h);
      match answers[n]
      case Done => with
      case Refused => without
      case PowerLost => with || without
  }

  lemma ExplainsMore(events: seq<Event>, answers: seq<Answer>, h: seq<Entry>, ev: Event, answer: Answer, h2: seq<Entry>)
    requires |events| == |answers| && Explains(events, answers, h)
    requires match answer
      case Done => h2 == h + [Entry(ev.id, ev.data)]
      case Refused => h2 == h
      case PowerLost => h2 == h || h2 == h + [Entry(ev.id, ev.data)]
    ensures Explains(events + [ev], answers + [answer], h2)
  {
    var e := Entry(ev.id, ev.data);
    assert (events + [ev])[..|events|] == events && (answers + [answer])[..|answers|] == answers;
    assert (h + [e])[..|h|] == h;
  }

  lemma RecoverableShape(g: Geometry, m: Memory, h: seq<Entry>)
    requires Recoverable(g, m, h)
    ensures g.Valid() && Shaped(g, m)
  {
    hide Entries, SectorOk, ReadRecord;
    var wr, id, n :| Image(g, m, wr, id, n, h);
    forall s | 0 <= s < |m| ensures |m[s]| == g.size {
      assert RingSector(g, m[s], Behind(g.count, wr, s), id, n);
    }
  }

  /** Power fails in state `k` of the trace. */
  method Cut(dev: Device, k: nat, ghost h: seq<Entry>)
    requires k < |dev.trace| && Recoverable(dev.g, dev.trace[k], h)
    modifies dev
    ensures dev.Valid() && Recoverable(dev.g, dev.mem, h) && dev.trace == []
    ensures dev.cuts == old(dev.cuts) + [Failure(old(dev.trace), k)]
  {
    RecoverableShape(dev.g, dev.trace[k], h);
    dev.PowerCut(k);
  }

  /** Mounts until a mount is not cut short. */
  method Recover(store: Store, again: seq<nat>, ghost h: seq<Entry>)
    requires store.dev.Valid() && Recoverable(store.dev.g, store.dev.mem, h) && store.dev.trace == []
    modifies store, store.dev
    ensures store.Mounted() && store.history == h
    ensures old(store.dev.cuts) <= store.dev.cuts && |store.dev.cuts| <= |old(store.dev.cuts)| + |again|
  {
    hide Recoverable, Image, Ring, Clean, WriteAt, NoStart;
    var i := 0;
    while i < |again|
      invariant i <= |again| && old(store.dev.cuts) <= store.dev.cuts && |store.dev.cuts| <= |old(store.dev.cuts)| + i
      invariant store.dev.Valid() && Recoverable(store.dev.g, store.dev.mem, h) && store.dev.trace == []
    {
      var status := store.Mount(h);
      if |store.dev.trace| > 0 {
        Cut(store.dev, again[i] % |store.dev.trace|, h);
      } else {
        MountedRecovers(store);
      }
      i := i + 1;
    }
    var status := store.Mount(h);
  }

  lemma MountedRecovers(store: Store)
    requires store.Mounted()
    ensures Recoverable(store.dev.g, store.dev.mem, store.history) && store.dev.Valid()
  {
    hide Recoverable, Ring, Clean, WriteAt;
    ImageRecovers(store.dev.g, store.dev.mem, store.wrSector, Id16(store.wrSectorId - 1), store.filled, store.history);
  }

  /** The failures from number `from` to `to` are those of the event: power failed in the state
      of the write that it asks for, and after that in mounts only, at most as often as it asks
      for. */
  ghost predicate FailsAsAsked(ev: Event, cuts: seq<Failure>, from: nat, to: nat) {
    if ev.cut.None? then from == to
    else
      && from < to <= |cuts| && to <= from + 1 + |ev.again|
      && cuts[from].trace != [] && cuts[from].at == ev.cut.value % |cuts[from].trace|
  }

  /** One event: without a cut the answer says whether the store takes the entry. With one,
      the entry is there if power failed in the last state of a write that takes it. */
  method Step(store: Store, ev: Event) returns (answer: Answer)
    requires store.Mounted()
    requires AlignUp(store.dev.g.wbs, |ev.data|) + REC < 0x1_0000
    modifies store, store.dev
    ensures store.Mounted()
    ensures ev.cut.None? ==> answer == if old(store.Takes(|ev.data|)) then Done else Refused
    ensures ev.cut.Some? ==> answer == PowerLost
    ensures old(store.dev.cuts) <= store.dev.cuts && FailsAsAsked(ev, store.dev.cuts, |old(store.dev.cuts)|, |store.dev.cuts|)
    ensures answer == Done ==> store.history == old(store.history) + [Entry(ev.id, ev.data)]
    ensures answer == Refused ==> store.history == old(store.history)
    ensures answer == PowerLost ==>
      var f := store.dev.cuts[|old(store.dev.cuts)|];
      store.history == if old(store.Takes(|ev.data|)) && f.at + 1 == |f.trace| then old(store.history) + [Entry(ev.id, ev.data)]
                       else old(store.history)
  {
    hide Recoverable, Image, Ring, Clean, WriteAt, NoStart, SomeTakes, AlignUp;
    ghost var h := store.history;
    var dev := store.dev;
    ghost var failures := dev.cuts;
    dev.Forget();
    var status := store.Write(ev.id, ev.data);
    if ev.cut.None? {
      return if status == Ok then Done else Refused;
    }
    var k := ev.cut.value % |dev.trace|;
    ghost var h2 := if status == Ok && k == |dev.trace| - 1 then store.history else h;
    assert Recoverable(dev.g, dev.trace[k], h2) by {
      if status == Ok && k < |dev.trace| - 1 {
        assert dev.trace[k] == dev.trace[..|dev.trace| - 1][k];
      }
    }
    Cut(dev, k, h2);
    Recover(store, ev.again, h2);
    assert dev.cuts[|failures|] == dev.cuts[..|failures| + 1][|failures|];
    return PowerLost;
  }

  /** All failures, those of event `i` from `marks[i]` on. */
  ghost predicate AllAsAsked(events: seq<Event>, first: nat, cuts: seq<Failure>, marks: seq<nat>) {
    && |marks| == |events| + 1 && marks[0] == first && marks[|events|] == |cuts|
    && forall i :: 0 <= i < |events| ==> FailedAt(events, cuts, marks, i)
  }

  ghost predicate FailedAt(events: seq<Event>, cuts: seq<Failure>, marks: seq<nat>, i: nat) {
    i < |events| && i + 1 < |marks| && FailsAsAsked(events[i], cuts, marks[i], marks[i + 1])
  }

  /** Everything written so far has a place in `room`, and a sector has space for that and an
      entry of `len` bytes besides. */
  ghost predicate RoomFor(g: Geometry, earlier: seq<Event>, room: seq<Entry>, len: nat) {
    && Space(g.wbs, room) + AlignUp(g.wbs, len) + 8 * (|room| + 3) <= g.size
    && forall j :: 0 <= j < |earlier| ==> Placed(Entry(earlier[j].id, earlier[j].data), room)
  }

  ghost function EntriesOf(events: seq<Event>): (entries: seq<Entry>)
    ensures |entries| == |events| && forall i :: 0 <= i < |events| ==> entries[i] == Entry(events[i].id, events[i].data)
  {
    seq(|events|, i requires 0 <= i < |events| => Entry(events[i].id, events[i].data))
  }

  /** All entries of a run fit one sector, with their ATEs. */
  ghost predicate OneSectorIsEnough(g: Geometry, events: seq<Event>) {
    Space(g.wbs, EntriesOf(events)) + 8 * (|events| + 2) <= g.size
  }

  /** From a formatted area: after any run the store is mounted and holds a history that
      explains every answer the caller got. Power fails as the events ask for. No write is
      refused as long as the ids in use, each with its longest entry, and the new entry fit one
      sector, however long the run is. */
  method Run(store: Store, events: seq<Event>) returns (answers: seq<Answer>, ghost marks: seq<nat>)
    requires store.dev.Valid() && store.dev.trace == []
    requires Recoverable(store.dev.g, store.dev.mem, [])
    requires forall i :: 0 <= i < |events| ==> AlignUp(store.dev.g.wbs, |events[i].data|) + REC < 0x1_0000
    modifies store, store.dev
    ensures store.Mounted()
    ensures |answers| == |events| && Explains(events, answers, store.history)
    ensures forall i :: 0 <= i < |events| ==> (answers[i] == PowerLost <==> events[i].cut.Some?)
    ensures AllAsAsked(events, |old(store.dev.cuts)|, store.dev.cuts, marks)
    ensures forall i, room: seq<Entry> ::
      0 <= i < |events| && RoomFor(store.dev.g, events[..i], room, |events[i].data|) ==> answers[i] != Refused
    ensures OneSectorIsEnough(store.dev.g, events) ==>
      forall i :: 0 <= i < |events| ==> answers[i] == if events[i].cut.None? then Done else PowerLost
  {
    hide Recoverable, Image, Ring, Clean, WriteAt, AlignUp, Explains, RoomFor, store.Takes, FailsAsAsked, AllAsAsked,
      OneSectorIsEnough, store.Mounted;
    Recover(store, [], []);
    answers, marks := [], [|store.dev.cuts|];
    ExplainsNothing();
    NoneAsked(store.dev.cuts);
    var i := 0;
    while i < |events|
      invariant i <= |events| && |answers| == i && store.Mounted()
      invariant Explains(events[..i], answers, store.history)
      invariant forall j :: 0 <= j < i ==> (answers[j] == PowerLost <==> events[j].cut.Some?)
      invariant AllAsAsked(events[..i], |old(store.dev.cuts)|, store.dev.cuts, marks) && old(store.dev.cuts) <= store.dev.cuts
      invariant forall j, room: seq<Entry> ::
        0 <= j < i && RoomFor(store.dev.g, events[..j], room, |events[j].data|) ==> answers[j] != Refused
    {
      ghost var h, cuts := store.history, store.dev.cuts;
      forall room: seq<Entry> | RoomFor(store.dev.g, events[..i], room, |events[i].data|)
        ensures store.Takes(|events[i].data|)
      {
        TakenByRoom(store, events[..i], answers, room, |events[i].data|);
      }
      var answer := Step(store, events[i]);
      ExplainsMore(events[..i], answers, h, events[i], answer, store.history);
      OneMoreAsked(events, i, |old(store.dev.cuts)|, cuts, store.dev.cuts, marks);
      assert events[..i] + [events[i]] == events[..i + 1];
      answers, marks := answers + [answer], marks + [|store.dev.cuts|];
      i := i + 1;
    }
    assert events[..i] == events;
    if OneSectorIsEnough(store.dev.g, events) {
      forall j | 0 <= j < |events| ensures answers[j] != Refused {
        EachHasRoom(store.dev.g, events, j);
      }
    }
  }

  lemma ExplainsNothing()
    ensures Explains([], [], [])
  {
  }

  lemma NoneAsked(cuts: seq<Failure>)
    ensures AllAsAsked([], |cuts|, cuts, [|cuts|])
  {
  }

  lemma OneMoreAsked(events: seq<Event>, i: nat, first: nat, cuts: seq<Failure>, more: seq<Failure>, marks: seq<nat>)
    requires i < |events| && AllAsAsked(events[..i], first, cuts, marks)
    requires cuts <= more && FailsAsAsked(events[i], more, |cuts|, |more|)
    ensures AllAsAsked(events[..i + 1], first, more, marks + [|more|])
  {
    var now, marks2 := events[..i + 1], marks + [|more|];
    forall j | 0 <= j <= i ensures FailedAt(now, more, marks2, j) {
      if j < i {
        assert FailedAt(events[..i], cuts, marks, j);
      }
    }
  }

  /** What the store holds was written before. */
  lemma TakenByRoom(store: Store, earlier: seq<Event>, answers: seq<Answer>, room: seq<Entry>, len: nat)
    requires store.Mounted() && |earlier| == |answers| && Explains(earlier, answers, store.history)
    requires RoomFor(store.dev.g, earlier, room, len)
    ensures store.Takes(len)
  {
    hide Recoverable, Image, Ring, Clean, WriteAt, AlignUp, Explains, store.Takes, Value, Space, Placed, Possible, store.Mounted;
    forall id: nat | Value(store.history, id) != [] ensures Placed(Entry(id, Value(store.history, id)), room) {
      ValueIsPossible(earlier, answers, store.history, id);
      PossibleIsWritten(earlier, answers, id, Value(store.history, id));
    }
    store.ValuesLeaveRoom(len, room);
  }

  lemma {:induction false} PossibleIsWritten(events: seq<Event>, answers: seq<Answer>, id: nat, v: seq<byte>)
    requires |events| == |answers| && v in Possible(events, answers, id) && v != []
    ensures exists j :: 0 <= j < |events| && events[j].id == id && events[j].data == v
  {
    if events != [] {
      var n := |events| - 1;
      if v in Possible(events[..n], answers[..n], id) {
        PossibleIsWritten(events[..n], answers[..n], id, v);
        var j :| 0 <= j < n && events[..n][j].id == id && events[..n][j].data == v;
        assert events[j].id == id && events[j].data == v;
      } else {
        assert events[n].id == id && events[n].data == v;
      }
    }
  }

  /** When all entries fit, each has room beside those before it. */
  lemma EachHasRoom(g: Geometry, events: seq<Event>, i: nat)
    requires i < |events| && OneSectorIsEnough(g, events)
    ensures RoomFor(g, events[..i], EntriesOf(events[..i]), |events[i].data|)
  {
    hide Space, AlignUp;
    var all, room, e := EntriesOf(events), EntriesOf(events[..i]), Entry(events[i].id, events[i].data);
    assert all == (room + [e]) + all[i + 1..];
    SpaceConcat(g.wbs, room + [e], all[i + 1..]);
    SpaceAppend(g.wbs, room, e);
    forall j | 0 <= j < i ensures Placed(Entry(events[..i][j].id, events[..i][j].data), room) {
      assert HasPlace(room[j], room, j);
    }
  }

  // What can be read

  /** The values that `id` may have after a run: that of the last acknowledged write, or of a
      write behind it on which power was lost. */
  ghost function Possible(events: seq<Event>, answers: seq<Answer>, id: nat): set<seq<byte>>
    requires |events| == |answers|
  {
    if events == [] then {[]}
    else
      var n := |events| - 1;
      var before := Possible(events[..n], answers[..n], id);
      if events[n].id != id || answers[n] == Refused then before
      else if answers[n] == Done then {events[n].data}
      else before + {events[n].data}
  }

  /** Every history that explains the answers gives each id one of its possible values. */
  lemma {:induction false} ValueIsPossible(events: seq<Event>, answers: seq<Answer>, h: seq<Entry>, id: nat)
    requires |events| == |answers| && Explains(events, answers, h)
    ensures Value(h, id) in Possible(events, answers, id)
  {
    if events != [] {
      var n := |events| - 1;
      if Explains(events[..n], answers[..n], h) && answers[n] != Done {
        ValueIsPossible(events[..n], answers[..n], h, id);
      } else {
        ValueIsPossible(events[..n], answers[..n], h[..|h| - 1], id);
      }
    }
  }

  /** Write `i` was acknowledged, and no later one of its id was. */
  ghost predicate LastDone(events: seq<Event>, answers: seq<Answer>, i: nat) {
    && i < |events| == |answers| && answers[i] == Done
    && forall j :: i < j < |events| && events[j].id == events[i].id ==> answers[j] != Done
  }

  /** `v` was being written to the id of write `i`, after it, when power was lost. */
  ghost predicate LostAfter(events: seq<Event>, answers: seq<Answer>, i: nat, v: seq<byte>)
    requires i < |events| == |answers|
  {
    exists j :: i < j < |events| && events[j].id == events[i].id && answers[j] == PowerLost && events[j].data == v
  }

  /** After its last acknowledged write, an id has the value of that write or of a later one on
      which power was lost. */
  lemma {:induction false} AcknowledgedIsRead(events: seq<Event>, answers: seq<Answer>, i: nat, v: seq<byte>)
    requires LastDone(events, answers, i)
    ensures v in Possible(events, answers, events[i].id) <==> v == events[i].data || LostAfter(events, answers, i, v)
  {
    var n := |events| - 1;
    if i < n {
      var ev, an := events[..n], answers[..n];
      assert forall j :: 0 <= j < n ==> ev[j] == events[j] && an[j] == answers[j];
      assert LastDone(ev, an, i);
      AcknowledgedIsRead(ev, an, i, v);
      if LostAfter(ev, an, i, v) {
        var j :| i < j < n && ev[j].id == ev[i].id && an[j] == PowerLost && ev[j].data == v;
        assert events[j].data == v;
      }
      if LostAfter(events, answers, i, v) {
        var j :| i < j < |events| && events[j].id == events[i].id && answers[j] == PowerLost && events[j].data == v;
        assert j < n ==> ev[j].data == v;
      }
    }
  }

  /** Never acknowledged, an id has no value, or one that was being written when power was lost. */
  lemma {:induction false} UnacknowledgedIsEmpty(events: seq<Event>, answers: seq<Answer>, id: nat, v: seq<byte>)
    requires |events| == |answers| && forall j :: 0 <= j < |events| && events[j].id == id ==> answers[j] != Done
    requires v in Possible(events, answers, id)
    ensures v == [] || exists j :: 0 <= j < |events| && events[j].id == id && answers[j] == PowerLost && events[j].data == v
  {
    if events != [] {
      var n := |events| - 1;
      var ev, an := events[..n], answers[..n];
      assert forall j :: 0 <= j < n ==> ev[j] == events[j] && an[j] == answers[j];
      if v in Possible(ev, an, id) {
        UnacknowledgedIsEmpty(ev, an, id, v);
        if v != [] {
          var j :| 0 <= j < n && ev[j].id == id && an[j] == PowerLost && ev[j].data == v;
          assert events[j].data == v;
        }
      }
    }
  }

  /** After any run, sfcb_read returns (the start of) the value of the last acknowledged write
      of the id, or of a later one on which power was lost; it finds nothing only if no value is
      possible as well. */
  method RunAndRead(store: Store, events: seq<Event>, id: nat, len: nat)
      returns (answers: seq<Answer>, r: Option<seq<byte>>, ghost v: seq<byte>)
    requires store.dev.Valid() && store.dev.trace == []
    requires Recoverable(store.dev.g, store.dev.mem, [])
    requires forall i :: 0 <= i < |events| ==> AlignUp(store.dev.g.wbs, |events[i].data|) + REC < 0x1_0000
    modifies store, store.dev
    ensures |answers| == |events| && v in Possible(events, answers, id)
    ensures forall i :: 0 <= i < |events| ==> (answers[i] == PowerLost <==> events[i].cut.Some?)
    ensures OneSectorIsEnough(store.dev.g, events) ==> forall i :: 0 <= i < |events| ==> answers[i] != Refused
    ensures forall i :: 0 <= i < |events| && LastDone(events, answers, i) && events[i].id == id ==>
      v == events[i].data || LostAfter(events, answers, i, v)
    ensures match r case Some(data) => data == (if len <= |v| then v[..len] else v) case None => v == []
  {
    hide Recoverable, Image, Ring, Clean, WriteAt, AlignUp, Explains, Possible, LostAfter, LastDone, OneSectorIsEnough, AllAsAsked, RoomFor;
    ghost var marks;
    answers, marks := Run(store, events);
    r := store.Read(id, len);
    v := Value(store.history, id);
    ValueIsPossible(events, answers, store.history, id);
    forall i | 0 <= i < |events| && LastDone(events, answers, i) && events[i].id == id
      ensures v == events[i].data || LostAfter(events, answers, i, v)
    {
      AcknowledgedIsRead(events, answers, i, v);
    }
  }
}
