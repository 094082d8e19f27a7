/** When the DFU service starts the swapper, said of the events alone: a start command and its
    packet, init packets that pass, image data of the announced length, validation, activation. */
module ZbSession {
  import opened FlashBytes
  import opened ZbDfu

  // A session, as the events have it

  predicate IsOp(ev: Event, op: Opcode) {
    ev.ControlWrite? && ev.op == op
  }

  /** A write to the control point that asks for nothing. */
  predicate Neutral(ev: Event) {
    ev.ControlWrite? && (ev.op == OpPktNotifReq || ev.op == OpOther || (ev.op == OpStart && ev.len != 2))
  }

  ghost predicate AllNeutral(events: seq<Event>, from: nat, to: nat) {
    to <= |events| && forall j :: from <= j < to ==> Neutral(events[j])
  }

  ghost predicate NoCommands(events: seq<Event>, from: nat, to: nat) {
    to <= |events| && forall j :: from <= j < to ==> events[j].PacketWrite? || Neutral(events[j])
  }

  /** START at `s`, and nothing since. */
  ghost predicate Opened(events: seq<Event>, s: nat, n: nat) {
    s < n <= |events| && events[s] == ControlWrite(OpStart, 2) && AllNeutral(events, s + 1, n)
  }

  /** The packet at `k` follows the INIT at `j`, and passes. */
  ghost predicate Checked(f: Formats, events: seq<Event>, j: nat, k: nat, n: nat) {
    j < k < n <= |events| && events[k].PacketWrite? && f.initOk(events[k].pkt) && AllNeutral(events, j + 1, k)
  }

  ghost predicate PreparesAt(f: Formats, events: seq<Event>, j: nat, n: nat) {
    j < |events| &&
    (events[j].PacketWrite? || Neutral(events[j]) || (IsOp(events[j], OpInit) && exists k: nat :: Checked(f, events, j, k, n)))
  }

  /** The start packet at `p`, and then no command but INIT, each followed by an init packet
      that passes. */
  ghost predicate Prepared(f: Formats, events: seq<Event>, s: nat, p: nat, n: nat) {
    && Opened(events, s, p) && p < n <= |events| && events[p].PacketWrite? && |events[p].pkt| == 12
    && forall j :: p < j < n ==> PreparesAt(f, events, j, n)
  }

  /** The same, and an INIT at `j` whose packet has not come yet. */
  ghost predicate InitPending(f: Formats, events: seq<Event>, s: nat, p: nat, j: nat, n: nat) {
    Prepared(f, events, s, p, j) && j < n <= |events| && IsOp(events[j], OpInit) && AllNeutral(events, j + 1, n)
  }

  /** The bytes of the packets among the events. */
  ghost function PacketBytes(events: seq<Event>, from: nat, to: nat): seq<byte>
    requires to <= |events|
  {
    if to <= from then []
    else PacketBytes(events, from, to - 1) + (if events[to - 1].PacketWrite? then events[to - 1].pkt else [])
  }

  /** The packets behind the RECV_IMG at `r` have as many bytes as the start packet says. */
  ghost predicate AllThere(f: Formats, events: seq<Event>, p: nat, r: nat, n: nat) {
    && p < n <= |events| && events[p].PacketWrite?
    && |PacketBytes(events, r + 1, n)| % 0x1_0000_0000 == f.startLen(events[p].pkt) % 0x1_0000_0000
  }

  /** RECV_IMG at `r`, and image data that is not complete. */
  ghost predicate Receiving(f: Formats, events: seq<Event>, s: nat, p: nat, r: nat, n: nat) {
    && Prepared(f, events, s, p, r) && r < n <= |events| && IsOp(events[r], OpRecvImg) && NoCommands(events, r + 1, n)
    && forall j :: r < j < n && events[j].PacketWrite? ==> !AllThere(f, events, p, r, j + 1)
  }

  /** The packet at `d` completes the image. */
  ghost predicate Completed(f: Formats, events: seq<Event>, s: nat, p: nat, r: nat, d: nat, n: nat) {
    && Receiving(f, events, s, p, r, d) && d < n <= |events| && events[d].PacketWrite? && AllThere(f, events, p, r, d + 1)
    && NoCommands(events, d + 1, n)
  }

  /** VALIDATE_IMG at `v`. */
  ghost predicate Validated(f: Formats, events: seq<Event>, s: nat, p: nat, r: nat, d: nat, v: nat, n: nat) {
    Completed(f, events, s, p, r, d, v) && v < n <= |events| && IsOp(events[v], OpValidateImg) && NoCommands(events, v + 1, n)
  }

  /** The image has a header that asks for a slot, the last one at that offset, and fits it. */
  ghost predicate ImageOk(f: Formats, areas: seq<Area>, data: seq<byte>) {
    data == [] || (|data| >= 32 && f.magicOk(data[..32]) && exists a: nat :: IsSlotFor(areas, a, f.uploadOffset(data[..32]), |data|))
  }

  ghost predicate IsSlotFor(areas: seq<Area>, a: nat, offset: nat, len: nat) {
    && a < |areas| && areas[a].offset == offset && len <= areas[a].size
    && forall b :: a < b < |areas| ==> areas[b].offset != offset
  }

  /** ACTIVATE_IMG at `i` ends a session whose image is accepted. */
  ghost predicate Session(f: Formats, areas: seq<Area>, events: seq<Event>, s: nat, p: nat, r: nat, d: nat, v: nat, i: nat) {
    && Validated(f, events, s, p, r, d, v, i) && i < |events| && IsOp(events[i], OpActivateImg)
    && ImageOk(f, areas, PacketBytes(events, r + 1, d + 1))
  }

  // What was served

  ghost predicate Served(f: Formats, areas: seq<Area>, bufSize: nat, events: seq<Event>, states: seq<State>,
      answers: seq<Option<Activation>>)
  {
    && |answers| == |events| && |states| == |events| + 1 && states[0] == Idle
    && forall i :: 0 <= i < |events| ==> ServedAt(f, areas, bufSize, events, states, answers, i)
  }

  /** The accounts of the service before event `n`. */
  ghost predicate Account(f: Formats, events: seq<Event>, states: seq<State>, n: nat, data: seq<byte>, announced: nat) {
    && n <= |events| && |states| == |events| + 1
    && Received(events[..n], states[..n]) == data && Announced(f, events[..n], states[..n]) == announced
  }

  /** The length that the packet at `p` announces. */
  ghost function LengthAt(f: Formats, events: seq<Event>, p: nat): nat {
    if p < |events| && events[p].PacketWrite? then Wrap(f.startLen(events[p].pkt)) else 0
  }

  lemma OneEvent(f: Formats, areas: seq<Area>, bufSize: nat, events: seq<Event>, states: seq<State>, answers: seq<Option<Activation>>,
      n: nat, data: seq<byte>, announced: nat)
    requires Served(f, areas, bufSize, events, states, answers) && n < |events| && Account(f, events, states, n, data, announced)
    ensures Follows(f, states[n], events[n], states[n + 1])
    ensures Account(f, events, states, n + 1, ReceivedMore(events[n], states[n], data), AnnouncedMore(f, events[n], states[n], announced))
    ensures events[n].PacketWrite? && states[n] == Recv ==> Judged(f, areas, bufSize, data + events[n].pkt, announced, states[n + 1])
  {
    hide Follows, Judged, Complete;
    assert ServedAt(f, areas, bufSize, events, states, answers, n);
    assert events[..n + 1][..n] == events[..n] && states[..n + 1][..n] == states[..n];
  }

  lemma SameLength(announced: nat, len: nat, n: nat)
    requires announced == Wrap(n)
    ensures Wrap(announced - len) == 0 <==> len % 0x1_0000_0000 == n % 0x1_0000_0000
  {
  }

  lemma MoreBytes(events: seq<Event>, from: nat, n: nat)
    requires from <= n < |events|
    ensures PacketBytes(events, from, n + 1) == PacketBytes(events, from, n) + if events[n].PacketWrite? then events[n].pkt else []
  {
  }

  lemma ImageIsTaken(f: Formats, areas: seq<Area>, data: seq<byte>)
    requires data != []
    ensures ImageOk(f, areas, data) <==> Takes(f, areas, data)
  {
    if |data| >= 32 {
      var offset := f.uploadOffset(data[..32]);
      var a := AreaOf(areas, offset);
      if Takes(f, areas, data) {
        assert IsSlotFor(areas, a, offset, |data|);
      }
      if b: nat :| IsSlotFor(areas, b, offset, |data|) {
        assert a == b;
      }
    }
  }

  // From states to events

  /** What must have come before event `n` for the service to be in its state. */
  ghost predicate Explained(f: Formats, events: seq<Event>, states: seq<State>, n: nat)
    requires n < |states|
  {
    match states[n]
    case WaitStartPkt => exists s: nat :: Opened(events, s, n)
    case Started => exists s: nat, p: nat ::
      Prepared(f, events, s, p, n) && Account(f, events, states, n, [], LengthAt(f, events, p))
    case WaitInitPkt => exists s: nat, p: nat, j: nat ::
      InitPending(f, events, s, p, j, n) && Account(f, events, states, n, [], LengthAt(f, events, p))
    case Recv => exists s: nat, p: nat, r: nat :: InReceiving(f, events, states, s, p, r, n)
    case RecvDone => exists s: nat, p: nat, r: nat, d: nat :: InCompleted(f, events, states, s, p, r, d, n)
    case Validate => exists s: nat, p: nat, r: nat, d: nat, v: nat :: InValidated(f, events, states, s, p, r, d, v, n)
    case _ => true
  }

  ghost predicate InReceiving(f: Formats, events: seq<Event>, states: seq<State>, s: nat, p: nat, r: nat, n: nat) {
    Receiving(f, events, s, p, r, n) && Account(f, events, states, n, PacketBytes(events, r + 1, n), LengthAt(f, events, p))
  }

  ghost predicate InCompleted(f: Formats, events: seq<Event>, states: seq<State>, s: nat, p: nat, r: nat, d: nat, n: nat) {
    && Completed(f, events, s, p, r, d, n)
    && Account(f, events, states, n, PacketBytes(events, r + 1, d + 1), LengthAt(f, events, p))
  }

  ghost predicate InValidated(f: Formats, events: seq<Event>, states: seq<State>, s: nat, p: nat, r: nat, d: nat, v: nat, n: nat) {
    && Validated(f, events, s, p, r, d, v, n)
    && Account(f, events, states, n, PacketBytes(events, r + 1, d + 1), LengthAt(f, events, p))
  }

  /** Every state of the service has such a past. */
  lemma {:induction false} StateIsExplained(f: Formats, areas: seq<Area>, bufSize: nat, events: seq<Event>, states: seq<State>,
      answers: seq<Option<Activation>>, n: nat)
    requires Served(f, areas, bufSize, events, states, answers) && n <= |events|
    ensures Explained(f, events, states, n)
  {
    hide Explained, Opened, Prepared, InitPending, Receiving, Completed, Validated, Judged;
    if n == 0 {
      IdleIsExplained(f, events, states, 0);
    } else {
      StateIsExplained(f, areas, bufSize, events, states, answers, n - 1);
      OneEvent(f, areas, bufSize, events, states, answers, n - 1,
        Received(events[..n - 1], states[..n - 1]), Announced(f, events[..n - 1], states[..n - 1]));
      if events[n - 1] == ControlWrite(OpStart, 2) {
        JustOpened(f, events, states, n - 1);
      } else {
        match states[n - 1]
        case WaitStartPkt => AfterOpened(f, areas, bufSize, events, states, answers, n - 1);
        case Started => AfterPrepared(f, areas, bufSize, events, states, answers, n - 1);
        case WaitInitPkt => AfterInit(f, areas, bufSize, events, states, answers, n - 1);
        case Recv => AfterReceiving(f, areas, bufSize, events, states, answers, n - 1);
        case RecvDone => AfterCompleted(f, areas, bufSize, events, states, answers, n - 1);
        case Validate => AfterValidated(f, areas, bufSize, events, states, answers, n - 1);
        case _ => IdleIsExplained(f, events, states, n);
      }
    }
  }

  lemma IdleIsExplained(f: Formats, events: seq<Event>, states: seq<State>, n: nat)
    requires n < |states| && (states[n] == Idle || states[n] == Bootloader)
    ensures Explained(f, events, states, n)
  {
  }

  lemma JustOpened(f: Formats, events: seq<Event>, states: seq<State>, n: nat)
    requires n < |events| && |states| == |events| + 1 && events[n] == ControlWrite(OpStart, 2) && states[n + 1] == WaitStartPkt
    ensures Explained(f, events, states, n + 1)
  {
    assert Opened(events, n, n + 1);
  }

  lemma AfterOpened(f: Formats, areas: seq<Area>, bufSize: nat, events: seq<Event>, states: seq<State>,
      answers: seq<Option<Activation>>, n: nat)
    requires Served(f, areas, bufSize, events, states, answers) && n < |events|
    requires states[n] == WaitStartPkt && Explained(f, events, states, n) && events[n] != ControlWrite(OpStart, 2)
    ensures Explained(f, events, states, n + 1)
  {
    hide ServedAt, Judged, Received, Announced;
    var s: nat :| Opened(events, s, n);
    OneEvent(f, areas, bufSize, events, states, answers, n,
      Received(events[..n], states[..n]), Announced(f, events[..n], states[..n]));
    hide Account;
    if events[n].PacketWrite? {
      assert |events[n].pkt| == 12 ==> Prepared(f, events, s, n, n + 1);
    } else {
      assert Neutral(events[n]) ==> Opened(events, s, n + 1);
    }
  }

  /** A check that was done stays done. */
  lemma PreparedMore(f: Formats, events: seq<Event>, s: nat, p: nat, n: nat)
    requires Prepared(f, events, s, p, n) && n < |events| && PreparesAt(f, events, n, n + 1)
    ensures Prepared(f, events, s, p, n + 1)
  {
    hide Opened;
    var m := n + 1;
    forall j | p < j < m ensures PreparesAt(f, events, j, m) {
      if j < n {
        ChecksStay(f, events, j, n, m);
      }
    }
  }

  lemma ChecksStay(f: Formats, events: seq<Event>, j: nat, n: nat, m: nat)
    requires PreparesAt(f, events, j, n) && n <= m <= |events|
    ensures PreparesAt(f, events, j, m)
  {
    if k: nat :| Checked(f, events, j, k, n) {
      assert Checked(f, events, j, k, m);
    }
  }

  lemma AfterPrepared(f: Formats, areas: seq<Area>, bufSize: nat, events: seq<Event>, states: seq<State>,
      answers: seq<Option<Activation>>, n: nat)
    requires Served(f, areas, bufSize, events, states, answers) && n < |events|
    requires states[n] == Started && Explained(f, events, states, n) && events[n] != ControlWrite(OpStart, 2)
    ensures Explained(f, events, states, n + 1)
  {
    hide Served, Judged, Received, Announced, Prepared;
    var s: nat, p: nat :| Prepared(f, events, s, p, n) && Account(f, events, states, n, [], LengthAt(f, events, p));
    OneEvent(f, areas, bufSize, events, states, answers, n, [], LengthAt(f, events, p));
    hide Account, LengthAt;
    if IsOp(events[n], OpInit) {
      assert InitPending(f, events, s, p, n, n + 1);
    } else if IsOp(events[n], OpRecvImg) {
      assert Receiving(f, events, s, p, n, n + 1);
      assert PacketBytes(events, n + 1, n + 1) == [];
      assert InReceiving(f, events, states, s, p, n, n + 1);
    } else if states[n + 1] == Started {
      PreparedMore(f, events, s, p, n);
    }
  }

  lemma AfterInit(f: Formats, areas: seq<Area>, bufSize: nat, events: seq<Event>, states: seq<State>,
      answers: seq<Option<Activation>>, n: nat)
    requires Served(f, areas, bufSize, events, states, answers) && n < |events|
    requires states[n] == WaitInitPkt && Explained(f, events, states, n) && events[n] != ControlWrite(OpStart, 2)
    ensures Explained(f, events, states, n + 1)
  {
    hide Served, Judged, Received, Announced, Prepared;
    var s: nat, p: nat, j: nat :| InitPending(f, events, s, p, j, n) && Account(f, events, states, n, [], LengthAt(f, events, p));
    OneEvent(f, areas, bufSize, events, states, answers, n, [], LengthAt(f, events, p));
    hide Account, LengthAt;
    if events[n].PacketWrite? {
      if f.initOk(events[n].pkt) {
        InitPassed(f, events, s, p, j, n);
      }
    } else if Neutral(events[n]) {
      assert InitPending(f, events, s, p, j, n + 1);
    }
  }

  lemma InitPassed(f: Formats, events: seq<Event>, s: nat, p: nat, j: nat, n: nat)
    requires InitPending(f, events, s, p, j, n) && n < |events| && events[n].PacketWrite? && f.initOk(events[n].pkt)
    ensures Prepared(f, events, s, p, n + 1)
  {
    hide Opened;
    var m := n + 1;
    assert Checked(f, events, j, n, m);
    forall i | p < i < m ensures PreparesAt(f, events, i, m) {
      if i < j {
        ChecksStay(f, events, i, j, m);
      }
    }
  }

  lemma AfterReceiving(f: Formats, areas: seq<Area>, bufSize: nat, events: seq<Event>, states: seq<State>,
      answers: seq<Option<Activation>>, n: nat)
    requires Served(f, areas, bufSize, events, states, answers) && n < |events|
    requires states[n] == Recv && Explained(f, events, states, n) && events[n] != ControlWrite(OpStart, 2)
    ensures Explained(f, events, states, n + 1)
  {
    hide Served, Received, Announced, Receiving, Takes;
    var s: nat, p: nat, r: nat :| InReceiving(f, events, states, s, p, r, n);
    var data := PacketBytes(events, r + 1, n);
    OneEvent(f, areas, bufSize, events, states, answers, n, data, LengthAt(f, events, p));
    ReceivingBounds(f, events, s, p, r, n);
    MoreBytes(events, r + 1, n);
    if events[n].PacketWrite? {
      SameLength(LengthAt(f, events, p), |data + events[n].pkt|, f.startLen(events[p].pkt));
      hide Account, PacketBytes, LengthAt;
      if states[n + 1] == RecvDone {
        assert Completed(f, events, s, p, r, n, n + 1);
        assert InCompleted(f, events, states, s, p, r, n, n + 1);
      } else if states[n + 1] == Recv {
        ReceivingMore(f, events, s, p, r, n);
        assert InReceiving(f, events, states, s, p, r, n + 1);
      }
    } else {
      assert data + [] == data;
      hide Account, PacketBytes, LengthAt;
      if Neutral(events[n]) {
        ReceivingMore(f, events, s, p, r, n);
        assert InReceiving(f, events, states, s, p, r, n + 1);
      }
    }
  }

  lemma ReceivingBounds(f: Formats, events: seq<Event>, s: nat, p: nat, r: nat, n: nat)
    requires Receiving(f, events, s, p, r, n)
    ensures s < p < r < n <= |events| && events[p].PacketWrite? && LengthAt(f, events, p) == Wrap(f.startLen(events[p].pkt))
  {
  }

  lemma ReceivingMore(f: Formats, events: seq<Event>, s: nat, p: nat, r: nat, n: nat)
    requires Receiving(f, events, s, p, r, n) && n < |events| && (events[n].PacketWrite? || Neutral(events[n]))
    requires events[n].PacketWrite? ==> !AllThere(f, events, p, r, n + 1)
    ensures Receiving(f, events, s, p, r, n + 1)
  {
    hide Prepared, AllThere;
  }

  lemma AfterCompleted(f: Formats, areas: seq<Area>, bufSize: nat, events: seq<Event>, states: seq<State>,
      answers: seq<Option<Activation>>, n: nat)
    requires Served(f, areas, bufSize, events, states, answers) && n < |events|
    requires states[n] == RecvDone && Explained(f, events, states, n) && events[n] != ControlWrite(OpStart, 2)
    ensures Explained(f, events, states, n + 1)
  {
    hide Served, Received, Announced, Receiving, Judged;
    var s: nat, p: nat, r: nat, d: nat :| InCompleted(f, events, states, s, p, r, d, n);
    OneEvent(f, areas, bufSize, events, states, answers, n, PacketBytes(events, r + 1, d + 1), LengthAt(f, events, p));
    hide Account, PacketBytes, LengthAt, AllThere;
    if IsOp(events[n], OpValidateImg) {
      assert Validated(f, events, s, p, r, d, n, n + 1);
      assert InValidated(f, events, states, s, p, r, d, n, n + 1);
    } else if states[n + 1] == RecvDone {
      assert Completed(f, events, s, p, r, d, n + 1);
      assert InCompleted(f, events, states, s, p, r, d, n + 1);
    }
  }

  lemma AfterValidated(f: Formats, areas: seq<Area>, bufSize: nat, events: seq<Event>, states: seq<State>,
      answers: seq<Option<Activation>>, n: nat)
    requires Served(f, areas, bufSize, events, states, answers) && n < |events|
    requires states[n] == Validate && Explained(f, events, states, n) && events[n] != ControlWrite(OpStart, 2)
    ensures Explained(f, events, states, n + 1)
  {
    hide Served, Received, Announced, Receiving, AllThere, Judged;
    var s: nat, p: nat, r: nat, d: nat, v: nat :| InValidated(f, events, states, s, p, r, d, v, n);
    OneEvent(f, areas, bufSize, events, states, answers, n, PacketBytes(events, r + 1, d + 1), LengthAt(f, events, p));
    hide Account, PacketBytes, LengthAt;
    if states[n + 1] == Validate {
      assert Validated(f, events, s, p, r, d, v, n + 1);
      assert InValidated(f, events, states, s, p, r, d, v, n + 1);
    }
  }


  // From events to states

  lemma {:induction false} OpenedState(f: Formats, areas: seq<Area>, bufSize: nat, events: seq<Event>, states: seq<State>,
      answers: seq<Option<Activation>>, s: nat, n: nat)
    requires Served(f, areas, bufSize, events, states, answers) && Opened(events, s, n)
    ensures states[n] == WaitStartPkt
  {
    hide Judged, Received, Announced, Complete;
    assert ServedAt(f, areas, bufSize, events, states, answers, n - 1);
    if s + 1 < n {
      OpenedState(f, areas, bufSize, events, states, answers, s, n - 1);
    }
  }

  lemma {:induction false} PreparedState(f: Formats, areas: seq<Area>, bufSize: nat, events: seq<Event>, states: seq<State>,
      answers: seq<Option<Activation>>, s: nat, p: nat, n: nat)
    requires Served(f, areas, bufSize, events, states, answers) && Prepared(f, events, s, p, n)
    ensures states[n] == Started && Account(f, events, states, n, [], LengthAt(f, events, p))
    decreases n, 1
  {
    hide Judged, Received, Announced, ServedAt, PreparesAt;
    var m := n - 1;
    if m == p {
      OpenedState(f, areas, bufSize, events, states, answers, s, p);
      OneEvent(f, areas, bufSize, events, states, answers, p,
        Received(events[..p], states[..p]), Announced(f, events[..p], states[..p]));
    } else {
      assert PreparesAt(f, events, m, n);
      if j: nat :| p < j < m && IsOp(events[j], OpInit) && AllNeutral(events, j + 1, m) && events[m].PacketWrite? {
        PreparedBefore(f, events, s, p, j, n);
        PendingState(f, areas, bufSize, events, states, answers, s, p, j, m);
        assert PreparesAt(f, events, j, n);
        PassedHere(f, events, j, m, n);
        OneEvent(f, areas, bufSize, events, states, answers, m, [], LengthAt(f, events, p));
      } else {
        LastIsNoCommand(f, events, m, n);
        PreparedWithout(f, events, s, p, n);
        PreparedState(f, areas, bufSize, events, states, answers, s, p, m);
        OneEvent(f, areas, bufSize, events, states, answers, m, [], LengthAt(f, events, p));
      }
    }
  }

  lemma {:induction false} PendingState(f: Formats, areas: seq<Area>, bufSize: nat, events: seq<Event>, states: seq<State>,
      answers: seq<Option<Activation>>, s: nat, p: nat, j: nat, n: nat)
    requires Served(f, areas, bufSize, events, states, answers) && InitPending(f, events, s, p, j, n)
    ensures states[n] == WaitInitPkt && Account(f, events, states, n, [], LengthAt(f, events, p))
    decreases n, 0
  {
    hide Judged, Received, Announced, ServedAt, Prepared;
    if n == j + 1 {
      PreparedState(f, areas, bufSize, events, states, answers, s, p, j);
    } else {
      PendingState(f, areas, bufSize, events, states, answers, s, p, j, n - 1);
    }
    OneEvent(f, areas, bufSize, events, states, answers, n - 1, [], LengthAt(f, events, p));
  }

  /** The check of an earlier INIT comes before this one. */
  lemma PreparedBefore(f: Formats, events: seq<Event>, s: nat, p: nat, j: nat, n: nat)
    requires Prepared(f, events, s, p, n) && p < j < n && IsOp(events[j], OpInit)
    ensures Prepared(f, events, s, p, j)
  {
    hide Opened;
    forall i | p < i < j ensures PreparesAt(f, events, i, j) {
      assert PreparesAt(f, events, i, n);
      if IsOp(events[i], OpInit) {
        var k: nat :| Checked(f, events, i, k, n);
        assert Checked(f, events, i, k, j);
      }
    }
  }

  lemma PassedHere(f: Formats, events: seq<Event>, j: nat, m: nat, n: nat)
    requires PreparesAt(f, events, j, n) && IsOp(events[j], OpInit) && j < m && m + 1 == n
    requires AllNeutral(events, j + 1, m) && m < |events| && events[m].PacketWrite?
    ensures f.initOk(events[m].pkt)
  {
    var k: nat :| Checked(f, events, j, k, n);
  }

  lemma LastIsNoCommand(f: Formats, events: seq<Event>, m: nat, n: nat)
    requires PreparesAt(f, events, m, n) && m + 1 == n
    ensures m < |events| && (events[m].PacketWrite? || Neutral(events[m]))
  {
  }

  /** No INIT was waiting for the last packet. */
  lemma PreparedWithout(f: Formats, events: seq<Event>, s: nat, p: nat, n: nat)
    requires Prepared(f, events, s, p, n) && p + 1 < n && (events[n - 1].PacketWrite? || Neutral(events[n - 1]))
    requires forall j: nat :: p < j < n - 1 && IsOp(events[j], OpInit) && AllNeutral(events, j + 1, n - 1) ==> !events[n - 1].PacketWrite?
    ensures Prepared(f, events, s, p, n - 1)
  {
    hide Opened;
    var m := n - 1;
    forall i | p < i < m ensures PreparesAt(f, events, i, m) {
      assert PreparesAt(f, events, i, n);
      if IsOp(events[i], OpInit) {
        var k: nat :| Checked(f, events, i, k, n);
        assert Checked(f, events, i, k, m);
      }
    }
  }

  /** While the image is received, no part of it is turned down. */
  lemma {:induction false} ReceivingState(f: Formats, areas: seq<Area>, bufSize: nat, events: seq<Event>, states: seq<State>,
      answers: seq<Option<Activation>>, s: nat, p: nat, r: nat, n: nat, image: seq<byte>)
    requires Served(f, areas, bufSize, events, states, answers) && bufSize >= 32
    requires Receiving(f, events, s, p, r, n) && ImageOk(f, areas, image) && PacketBytes(events, r + 1, n) <= image
    ensures states[n] == Recv && Account(f, events, states, n, PacketBytes(events, r + 1, n), LengthAt(f, events, p))
    decreases n
  {
    hide Judged, Received, Announced, ServedAt, Prepared, ImageOk, AllThere, PacketBytes, LengthAt;
    var m := n - 1;
    ReceivingBounds(f, events, s, p, r, n);
    if m == r {
      PreparedState(f, areas, bufSize, events, states, answers, s, p, r);
      OneEvent(f, areas, bufSize, events, states, answers, r, [], LengthAt(f, events, p));
      NoBytesYet(events, r + 1);
    } else {
      MoreBytes(events, r + 1, m);
      ReceivingState(f, areas, bufSize, events, states, answers, s, p, r, m, image);
      OneEvent(f, areas, bufSize, events, states, answers, m, PacketBytes(events, r + 1, m), LengthAt(f, events, p));
      if events[m].PacketWrite? {
        NotYet(f, areas, bufSize, events, p, r, n, states[n], image);
      } else {
        assert PacketBytes(events, r + 1, m) + [] == PacketBytes(events, r + 1, m);
      }
    }
  }

  lemma NoBytesYet(events: seq<Event>, n: nat)
    requires n <= |events|
    ensures PacketBytes(events, n, n) == []
  {
  }

  lemma NotYet(f: Formats, areas: seq<Area>, bufSize: nat, events: seq<Event>, p: nat, r: nat, n: nat, t: State, image: seq<byte>)
    requires p < n <= |events| && events[p].PacketWrite? && !AllThere(f, events, p, r, n) && bufSize >= 32
    requires Judged(f, areas, bufSize, PacketBytes(events, r + 1, n), LengthAt(f, events, p), t)
    requires ImageOk(f, areas, image) && PacketBytes(events, r + 1, n) <= image
    ensures t == Recv
  {
    hide PacketBytes, ImageOk, Takes;
    var data := PacketBytes(events, r + 1, n);
    SameLength(LengthAt(f, events, p), |data|, f.startLen(events[p].pkt));
    if t == Idle {
      PartIsTaken(f, areas, data, image);
    }
  }

  lemma PartIsTaken(f: Formats, areas: seq<Area>, data: seq<byte>, image: seq<byte>)
    requires ImageOk(f, areas, image) && data <= image && |data| >= 32
    ensures Takes(f, areas, data)
  {
    hide ImageOk, Takes;
    ImageIsTaken(f, areas, image);
    assert image == data + image[|data|..];
    TakesPart(f, areas, data, image[|data|..]);
  }

  lemma {:induction false} CompletedState(f: Formats, areas: seq<Area>, bufSize: nat, events: seq<Event>, states: seq<State>,
      answers: seq<Option<Activation>>, s: nat, p: nat, r: nat, d: nat, n: nat)
    requires Served(f, areas, bufSize, events, states, answers) && bufSize >= 32
    requires Completed(f, events, s, p, r, d, n) && ImageOk(f, areas, PacketBytes(events, r + 1, d + 1))
    ensures states[n] == RecvDone
    ensures Account(f, events, states, n, PacketBytes(events, r + 1, d + 1), LengthAt(f, events, p))
    decreases n
  {
    hide Judged, Received, Announced, ServedAt, Receiving, ImageOk, PacketBytes, AllThere, LengthAt;
    var image, m := PacketBytes(events, r + 1, d + 1), n - 1;
    ReceivingBounds(f, events, s, p, r, d);
    MoreBytes(events, r + 1, d);
    if m == d {
      ReceivingState(f, areas, bufSize, events, states, answers, s, p, r, d, image);
      OneEvent(f, areas, bufSize, events, states, answers, d, PacketBytes(events, r + 1, d), LengthAt(f, events, p));
      DoneNow(f, areas, bufSize, events, p, r, n, states[n]);
    } else {
      CompletedState(f, areas, bufSize, events, states, answers, s, p, r, d, m);
      OneEvent(f, areas, bufSize, events, states, answers, m, image, LengthAt(f, events, p));
    }
  }

  lemma DoneNow(f: Formats, areas: seq<Area>, bufSize: nat, events: seq<Event>, p: nat, r: nat, n: nat, t: State)
    requires p < n <= |events| && events[p].PacketWrite? && AllThere(f, events, p, r, n)
    requires Judged(f, areas, bufSize, PacketBytes(events, r + 1, n), LengthAt(f, events, p), t)
    requires ImageOk(f, areas, PacketBytes(events, r + 1, n))
    ensures t == RecvDone
  {
    hide PacketBytes, ImageOk, Takes;
    var data := PacketBytes(events, r + 1, n);
    SameLength(LengthAt(f, events, p), |data|, f.startLen(events[p].pkt));
    if data != [] {
      ImageIsTaken(f, areas, data);
    }
  }

  lemma {:induction false} ValidatedState(f: Formats, areas: seq<Area>, bufSize: nat, events: seq<Event>, states: seq<State>,
      answers: seq<Option<Activation>>, s: nat, p: nat, r: nat, d: nat, v: nat, n: nat)
    requires Served(f, areas, bufSize, events, states, answers) && bufSize >= 32
    requires Validated(f, events, s, p, r, d, v, n) && ImageOk(f, areas, PacketBytes(events, r + 1, d + 1))
    ensures states[n] == Validate
    ensures Account(f, events, states, n, PacketBytes(events, r + 1, d + 1), LengthAt(f, events, p))
    decreases n
  {
    hide Judged, Received, Announced, ServedAt, Receiving, ImageOk, PacketBytes, AllThere, LengthAt;
    var image, m := PacketBytes(events, r + 1, d + 1), n - 1;
    if m == v {
      CompletedState(f, areas, bufSize, events, states, answers, s, p, r, d, v);
    } else {
      ValidatedState(f, areas, bufSize, events, states, answers, s, p, r, d, v, m);
    }
    OneEvent(f, areas, bufSize, events, states, answers, m, image, LengthAt(f, events, p));
  }

  // When the swapper is started

  /** What is in the slot then: the image of the session. */
  ghost predicate HoldsImage(f: Formats, areas: seq<Area>, events: seq<Event>, p: nat, r: nat, d: nat, a: Activation)
    requires p < |events| && events[p].PacketWrite? && d < |events|
  {
    var image := PacketBytes(events, r + 1, d + 1);
    && |image| == f.startLen(events[p].pkt) % 0x1_0000_0000
    && (image != [] ==>
          && |image| >= 32 && IsSlotFor(areas, a.area, f.uploadOffset(image[..32]), |image|)
          && |image| <= |a.slot| == areas[a.area].size && a.slot[..|image|] == image)
  }

  /** The swapper is started if and only if the event ends a session whose image is accepted;
      the slot that the image asks for then starts with it. */
  lemma StartedAfterSession(f: Formats, areas: seq<Area>, bufSize: nat, events: seq<Event>, states: seq<State>,
      answers: seq<Option<Activation>>, i: nat)
    requires Served(f, areas, bufSize, events, states, answers) && bufSize >= 32 && i < |events|
    ensures answers[i].Some? <==>
      exists s: nat, p: nat, r: nat, d: nat, v: nat :: Session(f, areas, events, s, p, r, d, v, i)
    ensures forall s: nat, p: nat, r: nat, d: nat, v: nat :: Session(f, areas, events, s, p, r, d, v, i) ==>
      && answers[i].Some? && p < |events| && events[p].PacketWrite? && d < |events|
      && HoldsImage(f, areas, events, p, r, d, answers[i].value)
  {
    hide Session, Explained, Received, Announced, HoldsImage, ServedAt;
    StateIsExplained(f, areas, bufSize, events, states, answers, i);
    if answers[i].Some? {
      var s, p, r, d, v := SessionOf(f, areas, bufSize, events, states, answers, i);
    }
    forall s: nat, p: nat, r: nat, d: nat, v: nat | Session(f, areas, events, s, p, r, d, v, i)
      ensures answers[i].Some? && p < |events| && events[p].PacketWrite? && d < |events|
      ensures HoldsImage(f, areas, events, p, r, d, answers[i].value)
    {
      StartedAt(f, areas, bufSize, events, states, answers, s, p, r, d, v, i);
    }
  }

  lemma SessionOf(f: Formats, areas: seq<Area>, bufSize: nat, events: seq<Event>, states: seq<State>,
      answers: seq<Option<Activation>>, i: nat) returns (s: nat, p: nat, r: nat, d: nat, v: nat)
    requires Served(f, areas, bufSize, events, states, answers) && i < |events|
    requires answers[i].Some? && Explained(f, events, states, i)
    ensures Session(f, areas, events, s, p, r, d, v, i)
  {
    hide Received, Announced, PacketBytes, LengthAt, Judged, Follows, Complete, Receiving, AllThere, ImageOk;
    assert ServedAt(f, areas, bufSize, events, states, answers, i);
    s, p, r, d, v :| InValidated(f, events, states, s, p, r, d, v, i);
    CompleteIsOk(f, areas, bufSize, PacketBytes(events, r + 1, d + 1), LengthAt(f, events, p), answers[i].value);
  }

  lemma CompleteIsOk(f: Formats, areas: seq<Area>, bufSize: nat, data: seq<byte>, announced: nat, a: Activation)
    requires Complete(f, areas, bufSize, data, announced, a)
    ensures ImageOk(f, areas, data) && |data| == announced
    ensures data != [] ==>
      && |data| >= 32 && IsSlotFor(areas, a.area, f.uploadOffset(data[..32]), |data|)
      && |data| <= |a.slot| == areas[a.area].size && a.slot[..|data|] == data
  {
    hide AllFlashed;
    if data != [] {
      assert IsSlotFor(areas, a.area, f.uploadOffset(data[..32]), |data|);
    }
  }

  lemma StartedAt(f: Formats, areas: seq<Area>, bufSize: nat, events: seq<Event>, states: seq<State>,
      answers: seq<Option<Activation>>, s: nat, p: nat, r: nat, d: nat, v: nat, i: nat)
    requires Served(f, areas, bufSize, events, states, answers) && bufSize >= 32 && i < |events|
    requires Session(f, areas, events, s, p, r, d, v, i)
    ensures answers[i].Some? && p < |events| && events[p].PacketWrite? && d < |events|
    ensures HoldsImage(f, areas, events, p, r, d, answers[i].value)
  {
    hide Received, Announced, PacketBytes, Judged, Follows, Complete, AllThere, ImageOk, IsSlotFor, NoCommands;
    ValidatedState(f, areas, bufSize, events, states, answers, s, p, r, d, v, i);
    ReceivingBounds(f, events, s, p, r, d);
    assert ServedAt(f, areas, bufSize, events, states, answers, i);
    CompleteIsOk(f, areas, bufSize, PacketBytes(events, r + 1, d + 1), LengthAt(f, events, p), answers[i].value);
  }

  /** For every sequence of events. */
  method ServeSessions(loader: Loader, events: seq<Event>) returns (answers: seq<Option<Activation>>)
    requires loader.Valid() && loader.state == Idle && loader.received == [] && loader.announced == 0
    requires forall i :: 0 <= i < |events| && events[i].PacketWrite? ==> |events[i].pkt| <= loader.bufSize
    modifies loader
    ensures loader.Valid() && |answers| == |events|
    ensures forall i: nat :: i < |events| ==>
      (answers[i].Some? <==> exists s: nat, p: nat, r: nat, d: nat, v: nat :: Session(loader.f, loader.areas, events, s, p, r, d, v, i))
    ensures forall s: nat, p: nat, r: nat, d: nat, v: nat, i: nat :: Session(loader.f, loader.areas, events, s, p, r, d, v, i) ==>
      && i < |events| && p < |events| && events[p].PacketWrite? && d < |events|
      && answers[i].Some? && HoldsImage(loader.f, loader.areas, events, p, r, d, answers[i].value)
  {
    hide ServedAt, Session, HoldsImage, loader.Valid;
    var states;
    answers, states := Serve(loader, events);
    BigBuffer(loader);
    forall i: nat | i < |events|
      ensures answers[i].Some? <==>
        exists s: nat, p: nat, r: nat, d: nat, v: nat :: Session(loader.f, loader.areas, events, s, p, r, d, v, i)
    {
      StartedAfterSession(loader.f, loader.areas, loader.bufSize, events, states, answers, i);
    }
    forall s: nat, p: nat, r: nat, d: nat, v: nat, i: nat | Session(loader.f, loader.areas, events, s, p, r, d, v, i)
      ensures i < |events| && p < |events| && events[p].PacketWrite? && d < |events|
      ensures answers[i].Some? && HoldsImage(loader.f, loader.areas, events, p, r, d, answers[i].value)
    {
      InEvents(loader.f, loader.areas, events, s, p, r, d, v, i);
      StartedAt(loader.f, loader.areas, loader.bufSize, events, states, answers, s, p, r, d, v, i);
    }
  }

  lemma BigBuffer(loader: Loader)
    requires loader.Valid()
    ensures loader.bufSize >= 32
  {
  }

  lemma InEvents(f: Formats, areas: seq<Area>, events: seq<Event>, s: nat, p: nat, r: nat, d: nat, v: nat, i: nat)
    requires Session(f, areas, events, s, p, r, d, v, i)
    ensures i < |events|
  {
  }
}
