/** What the MQTT client keeps over every run: the log of its QoS 2 deliveries and the order of
    its QoS 2 publications, as properties of the queue's contents (mqtt.c, with sections 4.3.3
    and 4.4 of MQTT 3.1.1). */
module MqttProtocol {
  import opened Limbs
  import opened MqttPid
  import opened MqttCodec
  import opened MqttQueue

  // ------------------------------------------------------------------------ the log

  /** What the outside sees: a PUBLISH handed to the callback, and the end of a QoS 2 exchange
      (a PUBREL that released its PUBREC). */
  datatype Event = Delivered(qos: nat, id: PacketId) | Released(id: PacketId)

  /** The last event about the identifier is a QoS 2 delivery. */
  predicate Pending(log: seq<Event>, id: PacketId) {
    |log| > 0 &&
    (if log[|log| - 1] == Delivered(2, id) then true
     else if log[|log| - 1] == Released(id) then false
     else Pending(log[..|log| - 1], id))
  }

  /** Between two QoS 2 deliveries with one identifier there is always a release of it. */
  ghost predicate ExactlyOnce(log: seq<Event>) {
    forall i, j :: 0 <= i < j < |log| && log[i].Delivered? && log[i].qos == 2 && log[j] == log[i] ==>
      ReleasedBetween(log, i, j)
  }

  ghost predicate ReleasedBetween(log: seq<Event>, i: int, j: int)
    requires 0 <= i < j < |log| && log[i].Delivered?
  {
    exists k :: i < k < j && log[k] == Released(log[i].id)
  }

  lemma {:induction false} NotPendingReleased(log: seq<Event>, i: nat)
    requires i < |log| && log[i].Delivered? && log[i].qos == 2 && !Pending(log, log[i].id)
    ensures exists k :: i < k < |log| && log[k] == Released(log[i].id)
  {
    var n := |log| - 1;
    if log[n] != Released(log[i].id) {
      NotPendingReleased(log[..n], i);
      var k :| i < k < n && log[..n][k] == Released(log[..n][i].id);
      assert log[k] == Released(log[i].id);
    }
  }

  /** A delivery of an identifier that is not pending keeps the property. */
  lemma OnceMore(log: seq<Event>, e: Event)
    requires ExactlyOnce(log) && (e.Delivered? && e.qos == 2 ==> !Pending(log, e.id))
    ensures ExactlyOnce(log + [e])
  {
    var log' := log + [e];
    forall i, j | 0 <= i < j < |log'| && log'[i].Delivered? && log'[i].qos == 2 && log'[j] == log'[i]
      ensures ReleasedBetween(log', i, j)
    {
      if j < |log| {
        assert ReleasedBetween(log, i, j);
        var k :| i < k < j && log[k] == Released(log[i].id);
        assert log'[k] == Released(log'[i].id);
      } else {
        NotPendingReleased(log, i);
        var k :| i < k < |log| && log[k] == Released(log[i].id);
        assert log'[k] == Released(log'[i].id);
      }
    }
  }

  lemma PendingAfter(log: seq<Event>, e: Event, id: PacketId)
    ensures Pending(log + [e], id) == (e == Delivered(2, id) || (e != Released(id) && Pending(log, id)))
  {
    assert (log + [e])[..|log|] == log;
  }

  // --------------------------------------------- the PUBREC that guards an open exchange

  /** Message j is a PUBREC for the identifier whose exchange is still open. */
  predicate Guards(ms: seq<Message>, j: int, id: PacketId) {
    IsPubrec(ms, j, id) && !ms[j].state.Complete?
  }

  predicate IsPubrec(ms: seq<Message>, j: int, id: PacketId) {
    0 <= j < |ms| && ms[j].controlType == PUBREC && ms[j].packetId == id
  }

  ghost predicate Guarded(ms: seq<Message>, id: PacketId) {
    exists j :: Guards(ms, j, id)
  }

  /** The open exchanges are exactly those with an incomplete PUBREC in the queue. */
  ghost predicate Covered(log: seq<Event>, ms: seq<Message>) {
    forall id: PacketId :: Pending(log, id) <==> Guarded(ms, id)
  }

  /** No two queued PUBRECs carry the same identifier. */
  predicate UniquePubrecs(ms: seq<Message>) {
    forall i, j :: 0 <= i < j < |ms| && ms[i].controlType == PUBREC && ms[j].controlType == PUBREC ==>
      ms[i].packetId != ms[j].packetId
  }

  /** Everything the client keeps. */
  ghost predicate Safe(log: seq<Event>, ms: seq<Message>) {
    ExactlyOnce(log) && Covered(log, ms) && UniquePubrecs(ms) && Qos2Ordered(ms) && AllSendable(ms)
  }

  // -------------------------------------------------------------- QoS 2 publications

  predicate IsQos2(m: Message) {
    m.controlType == PUBLISH && |m.bytes| > 0 && m.bytes[0] / 2 % 4 == 2
  }

  /** Before a QoS 2 PUBLISH that awaits its acknowledgement, every other one is complete. */
  predicate Qos2Ordered(ms: seq<Message>) {
    forall i, j :: 0 <= i < j < |ms| && IsQos2(ms[i]) && IsQos2(ms[j]) && ms[j].state.Awaiting? ==>
      ms[i].state.Complete?
  }

  // -------------------------------------------------------------- progress of messages

  function Rank(s: State): nat {
    match s case Unsent => 0 case Awaiting => 1 case Complete => 2
  }

  /** Bytes up to the DUP flag of a PUBLISH. */
  predicate SameBytes(a: seq<Byte>, b: seq<Byte>) {
    |a| == |b| && (|a| > 0 ==> a[1..] == b[1..] && a[0] / 16 == b[0] / 16 && a[0] % 8 == b[0] % 8)
  }

  /** m' is m, at the same or a later stage. */
  predicate Advances(m: Message, m': Message) {
    && m'.controlType == m.controlType && m'.packetId == m.packetId && SameBytes(m.bytes, m'.bytes)
    && Rank(m.state) <= Rank(m'.state) && (m.state.Complete? ==> m' == m)
  }

  // ------------------------------------------------------------- the client's history

  /** All messages ever queued, each as it was last seen: the first `dropped` of them have left
      the queue and were complete, the others are the queue. */
  ghost predicate Record(history: seq<Message>, dropped: nat, ms: seq<Message>) {
    && dropped + |ms| == |history| && history[dropped..] == ms
    && forall i :: 0 <= i < dropped ==> history[i].state.Complete?
  }

  /** The messages of h are the first ones of h', at the same or a later stage. */
  predicate Later(h: seq<Message>, h': seq<Message>) {
    |h| <= |h'| && forall i :: 0 <= i < |h| ==> Advances(h[i], h'[i])
  }

  lemma SameAdvances(m: Message)
    ensures Advances(m, m)
  {
  }

  lemma LaterRefl(h: seq<Message>)
    ensures Later(h, h)
  {
    forall i | 0 <= i < |h|
      ensures Advances(h[i], h[i])
    {
      SameAdvances(h[i]);
    }
  }

  lemma AdvancesTrans(a: Message, b: Message, c: Message)
    requires Advances(a, b) && Advances(b, c)
    ensures Advances(a, c)
  {
  }

  lemma LaterTrans(a: seq<Message>, b: seq<Message>, c: seq<Message>)
    requires Later(a, b) && Later(b, c)
    ensures Later(a, c)
  {
    hide Advances;
    forall i | 0 <= i < |a|
      ensures Advances(a[i], c[i])
    {
      AdvancesTrans(a[i], b[i], c[i]);
    }
  }

  /** One message of the queue advances. */
  lemma RecordUpdate(history: seq<Message>, dropped: nat, ms: seq<Message>, i: nat, m: Message)
    requires Record(history, dropped, ms) && i < |ms| && Advances(ms[i], m)
    ensures Record(history[dropped + i := m], dropped, ms[i := m])
    ensures Later(history, history[dropped + i := m])
  {
    hide Advances;
    LaterRefl(history);
    assert history[dropped + i] == history[dropped..][i];
    assert history[dropped + i := m][dropped..] == history[dropped..][i := m];
  }

  lemma RecordAppend(history: seq<Message>, dropped: nat, ms: seq<Message>, m: Message)
    requires Record(history, dropped, ms)
    ensures Record(history + [m], dropped, ms + [m])
    ensures Later(history, history + [m])
  {
    hide Advances;
    LaterRefl(history);
    assert (history + [m])[dropped..] == history[dropped..] + [m];
  }

  lemma RecordCleaned(history: seq<Message>, dropped: nat, ms: seq<Message>)
    requires Record(history, dropped, ms)
    ensures Record(history, dropped + CompletePrefix(ms), Cleaned(ms))
  {
    var n := CompletePrefix(ms);
    assert history[dropped..][n..] == history[dropped + n..];
    forall i | dropped <= i < dropped + n
      ensures history[i].state.Complete?
    {
      assert history[i] == ms[i - dropped];
    }
  }

  /** Over the whole history: before a QoS 2 PUBLISH that awaits its acknowledgement every other
      one ever queued is complete, so at most one is in flight. */
  lemma HistoryOrdered(history: seq<Message>, dropped: nat, ms: seq<Message>)
    requires Record(history, dropped, ms) && Qos2Ordered(ms)
    ensures Qos2Ordered(history)
    ensures forall i, j :: 0 <= i < j < |history| && IsQos2(history[i]) && IsQos2(history[j]) ==>
      !(history[i].state.Awaiting? && history[j].state.Awaiting?)
  {
    hide IsQos2;
    forall i, j | 0 <= i < j < |history| && IsQos2(history[i]) && IsQos2(history[j]) && history[j].state.Awaiting?
      ensures history[i].state.Complete?
    {
      if dropped <= i {
        assert history[i] == ms[i - dropped] && history[j] == ms[j - dropped];
      }
    }
  }

  // ------------------------------------------------------- the queue's own operations

  /** Messages may be dropped from the front or added behind, as long as the incomplete PUBRECs
      stay. */
  lemma CoveredMoves(log: seq<Event>, ms: seq<Message>, ms': seq<Message>)
    requires Covered(log, ms)
    requires forall id: PacketId :: Guarded(ms, id) <==> Guarded(ms', id)
    ensures Covered(log, ms')
  {
    hide Guarded, Pending;
  }

  lemma CleanedSafe(log: seq<Event>, ms: seq<Message>)
    requires Safe(log, ms)
    ensures Safe(log, Cleaned(ms))
  {
    var n := CompletePrefix(ms);
    forall id: PacketId
      ensures Guarded(ms, id) <==> Guarded(Cleaned(ms), id)
    {
      if Guarded(ms, id) {
        var j :| Guards(ms, j, id);
        assert Guards(Cleaned(ms), j - n, id);
      }
      if Guarded(Cleaned(ms), id) {
        var j :| Guards(Cleaned(ms), j, id);
        assert Guards(ms, j + n, id);
      }
    }
    CoveredMoves(log, ms, Cleaned(ms));
  }

  /** A new message that is no PUBREC. */
  lemma AppendSafe(log: seq<Event>, ms: seq<Message>, m: Message)
    requires Safe(log, ms) && m.state.Unsent? && m.controlType != PUBREC && Sendable(m)
    ensures Safe(log, ms + [m])
  {
    forall id: PacketId
      ensures Guarded(ms, id) <==> Guarded(ms + [m], id)
    {
      if Guarded(ms, id) {
        var j :| Guards(ms, j, id);
        assert Guards(ms + [m], j, id);
      }
      if Guarded(ms + [m], id) {
        var j :| Guards(ms + [m], j, id);
        assert Guards(ms, j, id);
      }
    }
    CoveredMoves(log, ms, ms + [m]);
  }

  /** No PUBREC for the identifier is queued, in any state. */
  predicate NoPubrec(ms: seq<Message>, id: PacketId) {
    forall j :: 0 <= j < |ms| ==> !IsPubrec(ms, j, id)
  }

  /** A new PUBREC together with the delivery it acknowledges. */
  lemma DeliverSafe(log: seq<Event>, ms: seq<Message>, m: Message)
    requires Safe(log, ms) && NoPubrec(ms, m.packetId) && m.state.Unsent? && m.controlType == PUBREC
    ensures Safe(log + [Delivered(2, m.packetId)], ms + [m])
  {
    var e, ms' := Delivered(2, m.packetId), ms + [m];
    NoPubrecNotPending(log, ms, m.packetId);
    OnceMore(log, e);
    forall id: PacketId
      ensures Pending(log + [e], id) <==> Guarded(ms', id)
    {
      PendingAfter(log, e, id);
      if Guarded(ms, id) {
        var j :| Guards(ms, j, id);
        assert Guards(ms', j, id);
      }
      if id == m.packetId {
        assert Guards(ms', |ms|, id);
      } else if Guarded(ms', id) {
        var j :| Guards(ms', j, id);
        assert Guards(ms, j, id);
      }
    }
    forall i, j | 0 <= i < j < |ms'| && ms'[i].controlType == PUBREC && ms'[j].controlType == PUBREC
      ensures ms'[i].packetId != ms'[j].packetId
    {
      assert !IsPubrec(ms, i, m.packetId);
    }
  }

  lemma NoPubrecNotPending(log: seq<Event>, ms: seq<Message>, id: PacketId)
    requires Covered(log, ms) && NoPubrec(ms, id)
    ensures !Pending(log, id)
  {
    forall j
      ensures !Guards(ms, j, id)
    {
    }
    assert !Guarded(ms, id);
  }

  /** Completing a message that is no PUBREC. */
  lemma CompleteSafe(log: seq<Event>, ms: seq<Message>, i: nat)
    requires i < |ms| && Safe(log, ms) && ms[i].controlType != PUBREC
    ensures Safe(log, ms[i := ms[i].(state := Complete)])
  {
    var ms' := ms[i := ms[i].(state := Complete)];
    forall id: PacketId
      ensures Guarded(ms, id) <==> Guarded(ms', id)
    {
      if Guarded(ms, id) {
        var j :| Guards(ms, j, id);
        assert Guards(ms', j, id);
      }
      if Guarded(ms', id) {
        var j :| Guards(ms', j, id);
        assert Guards(ms, j, id);
      }
    }
    CoveredMoves(log, ms, ms');
  }

  /** A PUBREL that completes its PUBREC is a release. */
  lemma ReleaseSafe(log: seq<Event>, ms: seq<Message>, i: nat)
    requires i < |ms| && Safe(log, ms) && ms[i].controlType == PUBREC
    ensures Safe(log + [Released(ms[i].packetId)], ms[i := ms[i].(state := Complete)])
  {
    var e, ms' := Released(ms[i].packetId), ms[i := ms[i].(state := Complete)];
    OnceMore(log, e);
    forall id: PacketId
      ensures Pending(log + [e], id) <==> Guarded(ms', id)
    {
      PendingAfter(log, e, id);
      if Guarded(ms', id) {
        var j :| Guards(ms', j, id);
        OnePubrec(ms, i, j);
        assert Guards(ms, j, id);
      }
      if Guarded(ms, id) && id != ms[i].packetId {
        var j :| Guards(ms, j, id);
        assert Guards(ms', j, id);
      }
    }
  }

  lemma OnePubrec(ms: seq<Message>, i: nat, j: nat)
    requires UniquePubrecs(ms) && i < |ms| && j < |ms| && i != j
    requires ms[i].controlType == PUBREC && ms[j].controlType == PUBREC
    ensures ms[i].packetId != ms[j].packetId
  {
    if i < j {
      assert ms[i].packetId != ms[j].packetId;
    }
  }

  /** A delivery of lower quality of service. */
  lemma OtherDeliverySafe(log: seq<Event>, ms: seq<Message>, qos: nat, id: PacketId)
    requires Safe(log, ms) && qos != 2
    ensures Safe(log + [Delivered(qos, id)], ms)
  {
    var e := Delivered(qos, id);
    OnceMore(log, e);
    forall x: PacketId
      ensures Pending(log + [e], x) <==> Guarded(ms, x)
    {
      PendingAfter(log, e, x);
    }
  }

  lemma NothingSafe()
    ensures Safe([], [])
  {
    forall id: PacketId, j
      ensures !Guards([], j, id)
    {
    }
  }

  /** When the client hands over a QoS 2 PUBLISH: exactly if its exchange is not open and no
      completed PUBREC for the identifier waits in the queue. */
  lemma NoPubrecIff(log: seq<Event>, ms: seq<Message>, id: PacketId)
    requires Safe(log, ms)
    ensures NoPubrec(ms, id) <==>
      !Pending(log, id) && (forall j :: 0 <= j < |ms| ==> !(IsPubrec(ms, j, id) && ms[j].state.Complete?))
  {
    if NoPubrec(ms, id) {
      NoPubrecNotPending(log, ms, id);
    } else {
      var j :| 0 <= j < |ms| && IsPubrec(ms, j, id);
      if !ms[j].state.Complete? {
        assert Guards(ms, j, id);
      }
    }
  }

  // ------------------------------------------------------------------- the send pass

  /** The state in which sending leaves a message; the other types are refused. */
  predicate Sendable(m: Message) {
    SendableKind(m.controlType)
  }

  predicate SendableKind(kind: Nibble) {
    kind in {CONNECT, PUBLISH, PUBACK, PUBREC, PUBREL, PUBCOMP, SUBSCRIBE, UNSUBSCRIBE, PINGREQ, DISCONNECT}
  }

  predicate AllSendable(ms: seq<Message>) {
    forall i :: 0 <= i < |ms| ==> Sendable(ms[i])
  }

  function Qos(m: Message): nat {
    if |m.bytes| == 0 then 0 else m.bytes[0] / 2 % 4
  }

  function SentState(m: Message): State {
    if m.controlType in {PUBACK, PUBCOMP, DISCONNECT} || (m.controlType == PUBLISH && Qos(m) == 0) then Complete
    else Awaiting
  }

  function WithDup(octet: Byte): Byte {
    if octet / 8 % 2 == 0 then octet + 8 else octet
  }

  /** A message that has been sent completely, at the given time. */
  function Sent(m: Message, time: nat): Message {
    var resent := m.controlType == PUBLISH && Qos(m) == 1 && |m.bytes| > 0;
    var bytes := if resent then m.bytes[0 := WithDup(m.bytes[0])] else m.bytes;
    m.(state := SentState(m), timeSent := time, bytes := bytes)
  }

  lemma DupKeeps(octet: Byte)
    ensures WithDup(octet) / 16 == octet / 16 && WithDup(octet) % 8 == octet % 8
    ensures WithDup(octet) / 2 % 4 == octet / 2 % 4
  {
    var x: int := octet;
    if x / 8 % 2 == 0 {
      DupBits(x / 16, x % 8);
      assert x == 16 * (x / 16) + x % 8;
    }
  }

  lemma DupBits(a: int, c: int)
    requires 0 <= c < 8
    ensures (16 * a + c + 8) / 16 == a && (16 * a + c + 8) % 8 == c
    ensures (16 * a + c + 8) / 2 % 4 == c / 2 && (16 * a + c) / 2 % 4 == c / 2
  {
    DivModUnique(16 * a + c + 8, 16, a, c + 8);
    DivModUnique(16 * a + c + 8, 8, 2 * a + 1, c);
    DivModUnique(16 * a + c + 8, 2, 8 * a + 4 + c / 2, c % 2);
    DivModUnique(8 * a + 4 + c / 2, 4, 2 * a + 1, c / 2);
    DivModUnique(16 * a + c, 2, 8 * a + c / 2, c % 2);
    DivModUnique(8 * a + c / 2, 4, 2 * a, c / 2);
  }

  lemma SentAdvances(m: Message, time: nat)
    requires !m.state.Complete? && Sendable(m)
    ensures Advances(m, Sent(m, time)) && IsQos2(Sent(m, time)) == IsQos2(m)
    ensures m.state.Awaiting? && m.controlType == PUBREC ==> Sent(m, time).state.Awaiting?
  {
    if |m.bytes| > 0 { DupKeeps(m.bytes[0]); }
  }

  /** Message i may be sent: it is not complete, and if it is a QoS 2 PUBLISH then every earlier
      one is. */
  predicate MaySend(ms: seq<Message>, i: nat) {
    i < |ms| && !ms[i].state.Complete? && Sendable(ms[i])
    && (IsQos2(ms[i]) ==> forall j :: 0 <= j < i && IsQos2(ms[j]) ==> ms[j].state.Complete?)
  }

  lemma SendSafe(log: seq<Event>, ms: seq<Message>, i: nat, time: nat)
    requires Safe(log, ms) && MaySend(ms, i)
    ensures Safe(log, ms[i := Sent(ms[i], time)])
  {
    hide Sent, SentState, IsQos2, Advances;
    var ms' := ms[i := Sent(ms[i], time)];
    SentAdvances(ms[i], time);
    SentFacts(ms[i], time);
    SendCovered(log, ms, i, time);
    forall a, b | 0 <= a < b < |ms'| && IsQos2(ms'[a]) && IsQos2(ms'[b]) && ms'[b].state.Awaiting?
      ensures ms'[a].state.Complete?
    {
      if a != i {
        assert IsQos2(ms[a]);
      }
    }
  }

  lemma SentFacts(m: Message, time: nat)
    ensures Sent(m, time).controlType == m.controlType && Sent(m, time).packetId == m.packetId
    ensures m.controlType == PUBREC ==> Sent(m, time).state.Awaiting?
    ensures Sendable(Sent(m, time)) == Sendable(m)
  {
  }

  lemma SendCovered(log: seq<Event>, ms: seq<Message>, i: nat, time: nat)
    requires Covered(log, ms) && i < |ms| && !ms[i].state.Complete?
    ensures Covered(log, ms[i := Sent(ms[i], time)])
  {
    hide Sent;
    SentFacts(ms[i], time);
    var ms' := ms[i := Sent(ms[i], time)];
    forall id: PacketId, j
      ensures Guards(ms, j, id) <==> Guards(ms', j, id)
    {
    }
    GuardedAlike(ms, ms');
    CoveredMoves(log, ms, ms');
  }

  lemma GuardedAlike(ms: seq<Message>, ms': seq<Message>)
    requires forall id: PacketId, j :: Guards(ms, j, id) <==> Guards(ms', j, id)
    ensures forall id: PacketId :: Guarded(ms, id) <==> Guarded(ms', id)
  {
    hide Guards;
  }
}
