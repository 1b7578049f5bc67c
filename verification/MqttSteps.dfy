/** What each step of the MQTT client does to its queue and log, and what it keeps (mqtt.c). */
module MqttSteps {
  import opened Limbs
  import opened Memory
  import opened MqttPid
  import opened MqttCodec
  import opened MqttQueue
  import opened MqttRoom
  import opened MqttProtocol
  import opened MqttStream

  datatype ClientError =
    | ConnectNotCalled | SendBufferIsFull | SocketFailure | RecvBufferTooSmall | AckOfUnknown
    | ClientIdRefused | ConnectionRefused | SubscribeFailed | Reconnecting | Codec(codec: CodecError)

  datatype Status = Ok | Failed(error: ClientError)

  function Id(n: U16): PacketId {
    n as PacketId
  }

  function Num(p: PacketId): U16 {
    p as int
  }

  // ------------------------------------------------------------------ packet identifiers

  predicate Carries(ms: seq<Message>, id: PacketId) {
    exists i :: 0 <= i < |ms| && ms[i].packetId == id
  }

  /** Some nonzero identifier is not in the queue; without one the search would not end. */
  ghost predicate SomeIdFree(ms: seq<Message>) {
    exists id: PacketId :: id != 0 && !Carries(ms, id)
  }

  /** The identifier is the first of the states after `start` that is not in the queue. */
  ghost predicate IsNextFree(ms: seq<Message>, start: PacketId, id: PacketId) {
    exists k: nat :: 0 < k <= 65535 && id == Iter(k, start) && !Carries(ms, id) && AllCarried(ms, start, k)
  }

  ghost predicate AllCarried(ms: seq<Message>, start: PacketId, k: nat) {
    forall j: nat :: 0 < j < k ==> Carries(ms, Iter(j, start))
  }

  function IdsOf(ms: seq<Message>): (s: set<int>)
    ensures |s| <= |ms|
    ensures forall i :: 0 <= i < |ms| ==> Num(ms[i].packetId) in s
  {
    if |ms| == 0 then {}
    else
      var n := |ms| - 1;
      var s := IdsOf(ms[..n]);
      assert forall i :: 0 <= i < n ==> ms[i] == ms[..n][i];
      s + {Num(ms[n].packetId)}
  }

  /** Fewer than 65535 distinct identifiers in the queue leave one free. */
  lemma FewIds(ms: seq<Message>)
    requires |IdsOf(ms)| < 65535
    ensures SomeIdFree(ms)
  {
    hide Produced, IdsOf, Num, Iter;
    var p: PacketId := 1;
    ProducedSize(65535, p);
    var all, used := Produced(65535, p), IdsOf(ms);
    var x := SomeOutside(all, used);
    var k := ProducedMember(65535, p, x);
    IterNonZero(k, p);
    NumIs(Iter(k, p));
    assert !Carries(ms, Iter(k, p));
  }

  lemma SomeOutside(a: set<int>, b: set<int>) returns (x: int)
    requires |a| > |b|
    ensures x in a && x !in b
  {
    if forall y :: y in a ==> y in b {
      SubsetSize(a, b);
    }
    x :| x in a && x !in b;
  }

  lemma NumIs(p: PacketId)
    ensures Num(p) == (p as int)
  {
  }

  /** The identifier that the broker sends back is the one that was sent. */
  lemma IdNum(id: PacketId)
    ensures Id(Num(id)) == id
  {
  }

  // --------------------------------------------------------------------- acknowledgements

  /** The index that mqtt_mq_find stops at, or the length of the queue. */
  function FirstMatch(ms: seq<Message>, kind: Nibble, id: Wanted): (i: nat)
    ensures i <= |ms|
    ensures i < |ms| ==> Matches(ms[i], kind, id)
    ensures forall j :: 0 <= j < i ==> !Matches(ms[j], kind, id)
  {
    if |ms| == 0 || Matches(ms[0], kind, id) then 0 else 1 + FirstMatch(ms[1..], kind, id)
  }

  predicate Known(ms: seq<Message>, kind: Nibble, id: Wanted) {
    FirstMatch(ms, kind, id) < |ms|
  }

  /** The queue after the acknowledgement of a message. */
  function Acked(ms: seq<Message>, kind: Nibble, id: Wanted): seq<Message> {
    var i := FirstMatch(ms, kind, id);
    if i < |ms| then ms[i := ms[i].(state := Complete)] else ms
  }

  lemma FoundIsFirst(ms: seq<Message>, kind: Nibble, id: Wanted, r: int)
    requires -1 <= r < |ms| && (r >= 0 ==> Matches(ms[r], kind, id))
    requires forall j :: 0 <= j < (if r >= 0 then r else |ms|) ==> !Matches(ms[j], kind, id)
    ensures FirstMatch(ms, kind, id) == if r >= 0 then r else |ms|
  {
  }

  lemma UnknownKept(ms: seq<Message>, kind: Nibble, id: Wanted)
    ensures !Known(ms, kind, id) ==> Acked(ms, kind, id) == ms
  {
  }

  lemma NoneKnown(ms: seq<Message>, id: PacketId)
    ensures Known(ms, PUBREC, Exactly(id)) == !NoPubrec(ms, id)
  {
    hide FirstMatch;
    var i := FirstMatch(ms, PUBREC, Exactly(id));
    if i < |ms| {
      assert IsPubrec(ms, i, id);
    } else {
      forall j | 0 <= j < |ms|
        ensures !IsPubrec(ms, j, id)
      {
      }
    }
  }

  // -------------------------------------------------------------------- what a packet does

  /** An acknowledgement packet has been put into the queue, or could not be. */
  predicate Staged(before: Status, ms: seq<Message>, ms': seq<Message>, len: nat, kind: Nibble, n: U16, s: Status)
    requires PUBACK <= kind <= PUBCOMP
  {
    if before.Failed? then s == before && ms' == ms
    else TriedPacket(ms, ms', len, PackAck(kind, n), kind, Some(Id(n)), s)
  }

  /** A packet has been put into the queue, cleaned if need be, or does not fit even then. */
  predicate TriedPacket(ms: seq<Message>, ms': seq<Message>, len: nat, bytes: seq<Byte>, kind: Nibble,
                        id: Option<PacketId>, s: Status) {
    if |bytes| <= Room(Base(ms, len, |bytes|), len) then s == Ok && Queued(ms, ms', len, bytes, kind, id)
    else s == Failed(SendBufferIsFull) && ms' == Base(ms, len, |bytes|)
  }

  /** A PUBLISH from the broker. */
  predicate PublishAnswered(before: Status, ms: seq<Message>, log: seq<Event>, qos: nat, n: U16,
                            ms': seq<Message>, log': seq<Event>, len: nat, s: Status) {
    if qos == 1 then
      Staged(before, ms, ms', len, PUBACK, n, s) && log' == if s.Ok? then log + [Delivered(1, Id(n))] else log
    else if qos == 2 then
      if !NoPubrec(ms, Id(n)) then ms' == ms && log' == log && s == Ok
      else Staged(before, ms, ms', len, PUBREC, n, s) && log' == if s.Ok? then log + [Delivered(2, Id(n))] else log
    else ms' == ms && log' == log + [Delivered(qos, Id(n))] && s == Ok
  }

  /** An acknowledgement that asks for no answer. */
  predicate AckAnswered(ms: seq<Message>, kind: Nibble, id: Wanted, ms': seq<Message>, refusal: Status, s: Status) {
    ms' == Acked(ms, kind, id) && s == if Known(ms, kind, id) then refusal else Failed(AckOfUnknown)
  }

  /** Everything that the packets of the broker do to the queue and the log. */
  ghost predicate Answered(before: Status, ms: seq<Message>, log: seq<Event>, r: Response,
                           ms': seq<Message>, log': seq<Event>, len: nat, s: Status) {
    match r
    case Publish(_, qos, _, _, n, _) => PublishAnswered(before, ms, log, qos, n, ms', log', len, s)
    case BrokenPublish(qos) => exists n: U16 :: PublishAnswered(before, ms, log, qos, n, ms', log', len, s)
    case Connack(_, code) =>
      log' == log && AckAnswered(ms, CONNECT, Any, ms', ConnackStatus(code), s)
    case Suback(n, codes) =>
      log' == log && AckAnswered(ms, SUBSCRIBE, Exactly(Id(n)), ms', SubackStatus(codes), s)
    case Unsuback(n) =>
      log' == log && AckAnswered(ms, UNSUBSCRIBE, Exactly(Id(n)), ms', Ok, s)
    case Pingresp =>
      log' == log && AckAnswered(ms, PINGREQ, Any, ms', Ok, s)
    case Ack(kind, n) => AckPacketAnswered(before, ms, log, kind, n, ms', log', len, s)
  }

  lemma BrokenIsAnswered(before: Status, ms: seq<Message>, log: seq<Event>, qos: nat, n: U16,
                         ms': seq<Message>, log': seq<Event>, len: nat, s: Status)
    requires PublishAnswered(before, ms, log, qos, n, ms', log', len, s)
    ensures Answered(before, ms, log, BrokenPublish(qos), ms', log', len, s)
  {
  }

  predicate AckPacketAnswered(before: Status, ms: seq<Message>, log: seq<Event>, kind: Nibble, n: U16,
                              ms': seq<Message>, log': seq<Event>, len: nat, s: Status) {
    var id := Exactly(Id(n));
    if kind == PUBACK then log' == log && AckAnswered(ms, PUBLISH, id, ms', Ok, s)
    else if kind == PUBREC then
      log' == log
      && if Known(ms, PUBREL, id) then ms' == ms && s == Ok
         else if !Known(ms, PUBLISH, id) then ms' == ms && s == Failed(AckOfUnknown)
         else Staged(before, Acked(ms, PUBLISH, id), ms', len, PUBREL, n, s)
    else if kind == PUBREL then
      if !Known(ms, PUBREC, id) then ms' == ms && log' == log && s == Failed(AckOfUnknown)
      else log' == log + [Released(Id(n))] && Staged(before, Acked(ms, PUBREC, id), ms', len, PUBCOMP, n, s)
    else if kind == PUBCOMP then log' == log && AckAnswered(ms, PUBREL, id, ms', Ok, s)
    else true
  }

  function ConnackStatus(code: nat): Status {
    if code == 0 then Ok else if code == 2 then Failed(ClientIdRefused) else Failed(ConnectionRefused)
  }

  function SubackStatus(codes: seq<Byte>): Status {
    if |codes| > 0 && codes[0] == 128 then Failed(SubscribeFailed) else Ok
  }

  // ------------------------------------------------------------------------- the send pass

  /** What the environment does when the pass looks at a message: the time of the timeout check,
      the octets that the socket takes (negative for an error), the time after sending. */
  datatype Tick = Tick(now: nat, accepted: int, sent: nat)

  predicate TimedOut(m: Message, now: nat, timeout: nat) {
    m.state.Awaiting? && now > m.timeSent + timeout
  }

  /** Message i is sent or resent: it is unsent or has timed out, and no earlier QoS 2 PUBLISH is
      in the way of a QoS 2 PUBLISH. */
  predicate Due(ms: seq<Message>, i: nat, now: nat, timeout: nat)
    requires i < |ms|
  {
    && (ms[i].state.Unsent? || TimedOut(ms[i], now, timeout))
    && (IsQos2(ms[i]) ==> !Qos2Before(ms, i))
  }

  /** A QoS 2 PUBLISH before message i is not complete. */
  predicate Qos2Before(ms: seq<Message>, i: nat)
    requires i <= |ms|
  {
    exists j :: 0 <= j < i && IsQos2(ms[j]) && !ms[j].state.Complete?
  }

  /** send_offset, number_of_timeouts and time_of_last_send of the client */
  datatype Books = Books(offset: nat, timeouts: nat, lastSend: nat)

  /** The books when the pass comes to message i: the offset is cleared by every complete send and
      by every timeout, even of a message that is held back. */
  function BooksAt(ms: seq<Message>, env: seq<Tick>, timeout: nat, start: Books, i: nat): Books
    requires i <= |ms| <= |env|
  {
    if i == 0 then start
    else
      var b := BooksAt(ms, env, timeout, start, i - 1);
      var timed := TimedOut(ms[i - 1], env[i - 1].now, timeout);
      var due := Due(ms, i - 1, env[i - 1].now, timeout);
      Books(if due || timed then 0 else b.offset, b.timeouts + (if timed then 1 else 0),
            if due then env[i - 1].sent else b.lastSend)
  }

  /** The offset from which message i is sent: a timeout starts it anew. */
  function SendFrom(ms: seq<Message>, env: seq<Tick>, timeout: nat, start: Books, i: nat): nat
    requires i < |ms| <= |env|
  {
    if TimedOut(ms[i], env[i].now, timeout) then 0 else BooksAt(ms, env, timeout, start, i).offset
  }

  /** The socket takes the rest of message i. */
  predicate TakesAll(ms: seq<Message>, env: seq<Tick>, timeout: nat, start: Books, i: nat)
    requires i < |ms| <= |env|
  {
    env[i].accepted >= 0 && SendFrom(ms, env, timeout, start, i) + env[i].accepted >= |ms[i].bytes|
  }

  /** The pass has dealt with the first k messages: those due have been sent completely, the
      others are as they were. */
  ghost predicate Passed(ms: seq<Message>, env: seq<Tick>, timeout: nat, start: Books, k: nat, ms': seq<Message>)
    requires k <= |ms| <= |env|
  {
    && |ms'| == |ms|
    && (forall i :: 0 <= i < k ==> PassedOne(ms, env, timeout, start, i, ms'[i]))
    && (forall i :: k <= i < |ms| ==> ms'[i] == ms[i])
  }

  predicate PassedOne(ms: seq<Message>, env: seq<Tick>, timeout: nat, start: Books, i: nat, m: Message)
    requires i < |ms| <= |env|
  {
    if Due(ms, i, env[i].now, timeout)
    then TakesAll(ms, env, timeout, start, i) && m == Sent(ms[i], env[i].sent)
    else m == ms[i]
  }

  // -------------------------------------------------------------------- what is kept

  /** The invariant of log, history and queue. */
  ghost predicate Kept(log: seq<Event>, history: seq<Message>, dropped: nat, ms: seq<Message>) {
    Safe(log, ms) && Record(history, dropped, ms)
  }

  /** The history after a step that leaves the queue ms' and has dropped d' messages in all. */
  function Extended(history: seq<Message>, d': nat, ms': seq<Message>): seq<Message> {
    if d' <= |history| then history[..d'] + ms' else ms'
  }

  function DroppedBy(d: nat, ms: seq<Message>, len: nat, n: nat): nat {
    if n <= Room(ms, len) then d else d + CompletePrefix(ms)
  }

  lemma KeptCleaned(log: seq<Event>, h: seq<Message>, d: nat, ms: seq<Message>)
    requires Kept(log, h, d, ms)
    ensures Kept(log, h, d + CompletePrefix(ms), Cleaned(ms)) && Extended(h, d + CompletePrefix(ms), Cleaned(ms)) == h
    ensures Extended(h, d, ms) == h
  {
    hide Safe;
    CleanedSafe(log, ms);
    RecordCleaned(h, d, ms);
    RecordIs(h, d, ms);
    RecordIs(h, d + CompletePrefix(ms), Cleaned(ms));
  }

  lemma RecordIs(h: seq<Message>, d: nat, ms: seq<Message>)
    requires Record(h, d, ms)
    ensures d <= |h| && h == Extended(h, d, ms)
  {
  }

  lemma KeptBase(log: seq<Event>, h: seq<Message>, d: nat, ms: seq<Message>, len: nat, n: nat)
    requires Kept(log, h, d, ms)
    ensures Kept(log, h, DroppedBy(d, ms, len, n), Base(ms, len, n))
    ensures Extended(h, DroppedBy(d, ms, len, n), Base(ms, len, n)) == h
  {
    hide Kept, Extended, Cleaned;
    KeptCleaned(log, h, d, ms);
  }

  lemma QueuedIs(ms: seq<Message>, ms': seq<Message>, len: nat, bytes: seq<Byte>, kind: Nibble, id: Option<PacketId>)
    requires Queued(ms, ms', len, bytes, kind, id)
    ensures |ms'| > 0 && ms' == Base(ms, len, |bytes|) + [ms'[|ms'| - 1]]
  {
  }

  /** A new message that is no PUBREC. */
  lemma KeptQueued(log: seq<Event>, h: seq<Message>, d: nat, ms: seq<Message>,
                   ms': seq<Message>, len: nat, bytes: seq<Byte>, kind: Nibble, id: Option<PacketId>)
    requires Kept(log, h, d, ms) && Queued(ms, ms', len, bytes, kind, id)
    requires kind != PUBREC && SendableKind(kind)
    ensures var d' := DroppedBy(d, ms, len, |bytes|);
      Kept(log, Extended(h, d', ms'), d', ms') && Later(h, Extended(h, d', ms'))
  {
    hide Safe, Record, Base, Later, Extended;
    var d', base := DroppedBy(d, ms, len, |bytes|), Base(ms, len, |bytes|);
    var m := ms'[|base|];
    KeptBase(log, h, d, ms, len, |bytes|);
    QueuedIs(ms, ms', len, bytes, kind, id);
    AppendSafe(log, base, m);
    RecordAppend(h, d', base, m);
    RecordIs(h + [m], d', ms');
    RecordIs(h, d', base);
    ExtendedOnce(h, m, d', ms');
  }

  lemma ExtendedOnce(h: seq<Message>, m: Message, d: nat, ms: seq<Message>)
    requires d <= |h| && h + [m] == Extended(h + [m], d, ms)
    ensures h + [m] == Extended(h, d, ms)
  {
    assert (h + [m])[..d] == h[..d];
  }

  /** A new PUBREC with its delivery. */
  lemma KeptDelivered(log: seq<Event>, h: seq<Message>, d: nat, ms: seq<Message>,
                      ms': seq<Message>, len: nat, bytes: seq<Byte>, id: PacketId)
    requires Kept(log, h, d, ms) && Queued(ms, ms', len, bytes, PUBREC, Some(id)) && NoPubrec(ms, id)
    ensures var d' := DroppedBy(d, ms, len, |bytes|);
      Kept(log + [Delivered(2, id)], Extended(h, d', ms'), d', ms') && Later(h, Extended(h, d', ms'))
  {
    hide Safe, Record, Base, Later, Extended;
    var d', base := DroppedBy(d, ms, len, |bytes|), Base(ms, len, |bytes|);
    var m := ms'[|base|];
    KeptBase(log, h, d, ms, len, |bytes|);
    QueuedIs(ms, ms', len, bytes, PUBREC, Some(id));
    BaseNoPubrec(ms, len, |bytes|, id);
    DeliverSafe(log, base, m);
    RecordAppend(h, d', base, m);
    RecordIs(h + [m], d', ms');
    RecordIs(h, d', base);
    ExtendedOnce(h, m, d', ms');
  }

  lemma BaseNoPubrec(ms: seq<Message>, len: nat, n: nat, id: PacketId)
    requires NoPubrec(ms, id)
    ensures NoPubrec(Base(ms, len, n), id)
  {
    var k := CompletePrefix(ms);
    forall j | 0 <= j < |Cleaned(ms)|
      ensures !IsPubrec(Cleaned(ms), j, id)
    {
      assert !IsPubrec(ms, j + k, id);
    }
  }

  lemma KeptUpdate(log: seq<Event>, log': seq<Event>, h: seq<Message>, d: nat, ms: seq<Message>, i: nat, m: Message)
    requires Kept(log, h, d, ms) && i < |ms| && Advances(ms[i], m) && Safe(log', ms[i := m])
    ensures Kept(log', Extended(h, d, ms[i := m]), d, ms[i := m]) && Later(h, Extended(h, d, ms[i := m]))
  {
    hide Safe, Advances, Later;
    RecordUpdate(h, d, ms, i, m);
    RecordIs(h[d + i := m], d, ms[i := m]);
    assert h[d + i := m][..d] == h[..d];
  }

  lemma CompleteAdvances(m: Message)
    ensures Advances(m, m.(state := Complete))
  {
  }

  /** The acknowledgement of a message that is no PUBREC. */
  lemma KeptAcked(log: seq<Event>, h: seq<Message>, d: nat, ms: seq<Message>, kind: Nibble, id: Wanted)
    requires Kept(log, h, d, ms) && kind != PUBREC
    ensures var ms' := Acked(ms, kind, id);
      Kept(log, Extended(h, d, ms'), d, ms') && Later(h, Extended(h, d, ms'))
  {
    hide Safe, Record, Later, Extended, FirstMatch, Advances;
    var i := FirstMatch(ms, kind, id);
    if i < |ms| {
      CompleteSafe(log, ms, i);
      CompleteAdvances(ms[i]);
      KeptUpdate(log, log, h, d, ms, i, ms[i].(state := Complete));
    } else {
      RecordIs(h, d, ms);
      LaterRefl(h);
    }
  }

  /** The release of a QoS 2 exchange. */
  lemma KeptReleased(log: seq<Event>, h: seq<Message>, d: nat, ms: seq<Message>, id: PacketId)
    requires Kept(log, h, d, ms) && Known(ms, PUBREC, Exactly(id))
    ensures var ms' := Acked(ms, PUBREC, Exactly(id));
      Kept(log + [Released(id)], Extended(h, d, ms'), d, ms') && Later(h, Extended(h, d, ms'))
  {
    hide Safe, Record, Later, Extended, FirstMatch, Advances;
    var i := FirstMatch(ms, PUBREC, Exactly(id));
    ReleaseSafe(log, ms, i);
    CompleteAdvances(ms[i]);
    KeptUpdate(log, log + [Released(id)], h, d, ms, i, ms[i].(state := Complete));
  }

  /** Sending message i. */
  lemma KeptSent(log: seq<Event>, h: seq<Message>, d: nat, ms: seq<Message>, i: nat, time: nat)
    requires Kept(log, h, d, ms) && MaySend(ms, i)
    ensures var ms' := ms[i := Sent(ms[i], time)];
      Kept(log, Extended(h, d, ms'), d, ms') && Later(h, Extended(h, d, ms'))
  {
    hide Safe, Record, Later, Extended, Advances, Sent;
    SendSafe(log, ms, i, time);
    SentAdvances(ms[i], time);
    KeptUpdate(log, log, h, d, ms, i, Sent(ms[i], time));
  }

  lemma KeptOther(log: seq<Event>, h: seq<Message>, d: nat, ms: seq<Message>, qos: nat, id: PacketId)
    requires Kept(log, h, d, ms) && qos != 2
    ensures Kept(log + [Delivered(qos, id)], h, d, ms)
  {
    hide Safe, Record;
    OtherDeliverySafe(log, ms, qos, id);
  }

  /** An attempt to queue a packet that is no PUBREC. */
  lemma KeptTried(log: seq<Event>, h: seq<Message>, d: nat, ms: seq<Message>, ms': seq<Message>, len: nat,
                  bytes: seq<Byte>, kind: Nibble, id: Option<PacketId>, s: Status)
    requires Kept(log, h, d, ms) && TriedPacket(ms, ms', len, bytes, kind, id, s)
    requires s.Ok? ==> kind != PUBREC && SendableKind(kind)
    ensures var d' := DroppedBy(d, ms, len, |bytes|);
      Kept(log, Extended(h, d', ms'), d', ms') && Later(h, Extended(h, d', ms'))
  {
    hide Kept, Later, Extended, DroppedBy, Queued, Room, Base, SendableKind;
    if s.Ok? {
      KeptQueued(log, h, d, ms, ms', len, bytes, kind, id);
    } else {
      KeptBase(log, h, d, ms, len, |bytes|);
      LaterRefl(h);
    }
  }

  /** What MQTT_CLIENT_TRY_PACK does to the queue. */
  predicate Submitted(before: Status, ms: seq<Message>, ms': seq<Message>, len: nat, p: Packed, kind: Nibble,
                      id: Option<PacketId>, s: Status) {
    if before.Failed? then s == before && ms' == ms
    else
      match p
      case Packet(bytes) => TriedPacket(ms, ms', len, bytes, kind, id, s)
      case PackError(e) =>
        && ms' == BaseFor(ms, len, p)
        && s == if Answer(p, Room(ms', len)).NoRoom? then Failed(SendBufferIsFull) else Failed(Codec(e))
  }

  /** A request, whatever becomes of it. */
  lemma KeptSubmitted(log: seq<Event>, h: seq<Message>, d: nat, before: Status, ms: seq<Message>, ms': seq<Message>,
                      len: nat, p: Packed, kind: Nibble, id: Option<PacketId>, s: Status) returns (d': nat)
    requires Kept(log, h, d, ms) && Submitted(before, ms, ms', len, p, kind, id, s)
    requires kind != PUBREC && SendableKind(kind)
    ensures d <= d' && Kept(log, Extended(h, d', ms'), d', ms') && Later(h, Extended(h, d', ms'))
  {
    hide Kept, Later, Extended, Cleaned, TriedPacket, SendableKind;
    KeptCleaned(log, h, d, ms);
    LaterRefl(h);
    if before.Ok? && p.Packet? {
      KeptTried(log, h, d, ms, ms', len, p.bytes, kind, id, s);
      d' := DroppedBy(d, ms, len, |p.bytes|);
    } else if ms' == ms {
      d' := d;
    } else {
      d' := d + CompletePrefix(ms);
    }
  }

  lemma AcksSendable(kind: Nibble)
    requires PUBACK <= kind <= PUBCOMP
    ensures SendableKind(kind)
  {
  }

  /** An acknowledgement other than a PUBREC, whatever becomes of it. */
  lemma KeptStaged(log: seq<Event>, h: seq<Message>, d: nat, before: Status, ms: seq<Message>, ms': seq<Message>,
                   len: nat, kind: Nibble, n: U16, s: Status) returns (d': nat)
    requires Kept(log, h, d, ms) && PUBACK <= kind <= PUBCOMP && Staged(before, ms, ms', len, kind, n, s)
    requires kind != PUBREC
    ensures d <= d' && Kept(log, Extended(h, d', ms'), d', ms') && Later(h, Extended(h, d', ms'))
  {
    hide Kept, Later, Extended, TriedPacket, PackAck, SendableKind;
    AcksSendable(kind);
    d' := KeptSubmitted(log, h, d, before, ms, ms', len, Packet(PackAck(kind, n)), kind, Some(Id(n)), s);
  }

  /** A PUBREC and the delivery that follows if it could be queued. */
  lemma KeptPubrec(log: seq<Event>, h: seq<Message>, d: nat, before: Status, ms: seq<Message>, ms': seq<Message>,
                   len: nat, n: U16, s: Status) returns (d': nat)
    requires Kept(log, h, d, ms) && Staged(before, ms, ms', len, PUBREC, n, s) && NoPubrec(ms, Id(n))
    ensures d <= d' && Later(h, Extended(h, d', ms'))
    ensures Kept(if s.Ok? then log + [Delivered(2, Id(n))] else log, Extended(h, d', ms'), d', ms')
  {
    hide Kept, Later, Extended, PackAck, Cleaned, Room, Queued, NoPubrec, SendableKind;
    KeptCleaned(log, h, d, ms);
    LaterRefl(h);
    if before.Failed? {
      d' := d;
    } else {
      var bytes := PackAck(PUBREC, n);
      d' := DroppedBy(d, ms, len, |bytes|);
      if s.Ok? {
        KeptDelivered(log, h, d, ms, ms', len, bytes, Id(n));
      } else {
        KeptTried(log, h, d, ms, ms', len, bytes, PUBREC, Some(Id(n)), s);
      }
    }
  }

  /** The octets of the stream up to `consumed` are the packets handled, the rest is in the
      receive buffer. */
  ghost predicate Feeding(stream: seq<Byte>, handled: seq<Response>, consumed: nat, buffer: seq<Byte>) {
    && consumed + |buffer| == |stream| && stream[consumed..] == buffer
    && Reads(stream, handled, consumed)
  }

  lemma FeedMore(stream: seq<Byte>, handled: seq<Response>, consumed: nat, buffer: seq<Byte>, x: seq<Byte>)
    requires Feeding(stream, handled, consumed, buffer)
    ensures Feeding(stream + x, handled, consumed, buffer + x)
  {
    hide Reads;
    ReadsExtend(stream, handled, consumed, x);
    assert (stream + x)[consumed..] == stream[consumed..] + x;
  }

  lemma FeedTaken(stream: seq<Byte>, handled: seq<Response>, consumed: nat, buffer: seq<Byte>, r: Response, n: nat)
    requires Feeding(stream, handled, consumed, buffer) && ParseResponse(buffer) == Got(r, n)
    ensures 0 < n <= |buffer| && Feeding(stream, handled + [r], consumed + n, buffer[n..])
  {
    hide ParseResponse;
    ResponseStable(buffer, []);
    ReadsNext(stream, handled, consumed, r, n);
    assert stream[consumed..][n..] == stream[consumed + n..];
  }

  lemma FeedWaits(stream: seq<Byte>, handled: seq<Response>, consumed: nat, buffer: seq<Byte>)
    requires Feeding(stream, handled, consumed, buffer)
    ensures handled <= Packets(stream)
    ensures !ParseResponse(buffer).Got? ==> handled == Packets(stream) && buffer == Unread(stream)
  {
    hide ParseResponse;
    ReadsAll(stream, handled, consumed);
  }

  /** The errors of the receive pass itself: those of the decoder and of the buffer. */
  predicate ReceiveError(s: Status) {
    s.Failed? && (s.error.Codec? || s.error.RecvBufferTooSmall?)
  }

  lemma AnswersRaiseNone(ms: seq<Message>, log: seq<Event>, r: Response, ms': seq<Message>, log': seq<Event>, len: nat,
                         s: Status)
    requires Answered(Ok, ms, log, r, ms', log', len, s)
    requires r.Ack? ==> PUBACK <= r.kind <= PUBCOMP
    ensures !ReceiveError(s)
  {
    hide Room, Queued, Base, FirstMatch, NoPubrec, Acked, PackAck;
  }

  /** A decoder error comes from the octets in the buffer; the buffer counts as too small only
      when it is full without a packet. */
  predicate ErrorExplained(s: Status, buffer: seq<Byte>, capacity: nat) {
    ReceiveError(s) ==>
      if s.error.Codec? then ParseResponse(buffer) == Fail(s.error.codec)
      else |buffer| == capacity && ParseResponse(buffer).Wait?
  }

  lemma OkExplained(buffer: seq<Byte>, capacity: nat)
    ensures ErrorExplained(Ok, buffer, capacity)
  {
  }

  /** If every packet of the stream fits the buffer, it never counts as too small. */
  lemma FitNeverTooSmall(stream: seq<Byte>, handled: seq<Response>, consumed: nat, buffer: seq<Byte>, rest: seq<Byte>,
                         capacity: nat, s: Status)
    requires Feeding(stream, handled, consumed, buffer) && ErrorExplained(s, buffer, capacity)
    ensures AllFit(stream + rest, capacity) ==> s != Failed(RecvBufferTooSmall)
  {
    hide AllFit, ParseResponse;
    if AllFit(stream + rest, capacity) && |buffer| == capacity {
      NeverTooSmall(stream, handled, consumed, rest, capacity);
    }
  }

  // ------------------------------------------------------------------ turns of the send pass

  /** The loop goes on, stops for a partial send, or ends with a socket error. */
  datatype Turn = Next | Partial | Broken

  /** One message of the send pass, as a relation. */
  predicate TurnResult(ms: seq<Message>, i: nat, t: Tick, timeout: nat, inflight: bool, b: Books,
                       turn: Turn, inflight': bool, b': Books, ms': seq<Message>)
    requires i < |ms|
  {
    var m := ms[i];
    var timed := TimedOut(m, t.now, timeout);
    var from, timeouts := if timed then 0 else b.offset, b.timeouts + if timed then 1 else 0;
    && inflight' == (inflight || (IsQos2(m) && !m.state.Complete?))
    && if !((m.state.Unsent? || timed) && !(IsQos2(m) && inflight)) then
         turn.Next? && ms' == ms && b' == Books(from, timeouts, b.lastSend)
       else if t.accepted < 0 then
         turn.Broken? && ms' == ms && b' == Books(from, timeouts, b.lastSend)
       else if from + t.accepted < |m.bytes| then
         turn.Partial? && ms' == ms && b' == Books(from + t.accepted, timeouts, b.lastSend)
       else
         turn.Next? && ms' == ms[i := Sent(m, t.sent)] && b' == Books(0, timeouts, t.sent)
  }

  lemma DueMaySend(log: seq<Event>, h: seq<Message>, d: nat, ms: seq<Message>, i: nat, inflight: bool)
    requires Kept(log, h, d, ms) && i < |ms| && !ms[i].state.Complete?
    requires Qos2Before(ms, i) ==> inflight
    requires IsQos2(ms[i]) ==> !inflight
    ensures MaySend(ms, i)
  {
    hide IsQos2, SendableKind, Record, Covered, ExactlyOnce, UniquePubrecs, Qos2Ordered;
  }

  lemma FirstOctet(mq: MessageQueue, i: nat)
    requires mq.Valid() && i < mq.count
    ensures |mq.Contents()[i].bytes| > 0 && mq.slots[i].start < mq.mem.Length
    ensures mq.Contents()[i].bytes[0] == mq.mem[mq.slots[i].start]
  {
    assert mq.slots[..mq.count][i] == mq.slots[i];
  }

  lemma SentQos2(m: Message, time: nat)
    requires IsQos2(m) && !m.state.Complete?
    ensures IsQos2(Sent(m, time)) && !Sent(m, time).state.Complete?
  {
  }

  lemma SentNotQos2(m: Message, time: nat)
    requires !IsQos2(m)
    ensures !IsQos2(Sent(m, time))
  {
    if |m.bytes| > 0 {
      DupKeeps(m.bytes[0]);
    }
  }

  /** Sending leaves every QoS 2 PUBLISH in the way that was in the way. */
  lemma Qos2Same(ms: seq<Message>, env: seq<Tick>, timeout: nat, start: Books, k: nat, ms': seq<Message>)
    requires k <= |ms| <= |env| && Passed(ms, env, timeout, start, k, ms')
    ensures Qos2Before(ms', k) == Qos2Before(ms, k)
  {
    hide IsQos2, Sent, TakesAll;
    forall i | 0 <= i < k
      ensures (IsQos2(ms'[i]) && !ms'[i].state.Complete?) == (IsQos2(ms[i]) && !ms[i].state.Complete?)
    {
      assert PassedOne(ms, env, timeout, start, i, ms'[i]);
      if Due(ms, i, env[i].now, timeout) {
        if IsQos2(ms[i]) { SentQos2(ms[i], env[i].sent); } else { SentNotQos2(ms[i], env[i].sent); }
      }
    }
  }

  lemma Qos2Next(ms: seq<Message>, i: nat)
    requires i < |ms|
    ensures Qos2Before(ms, i + 1) == (Qos2Before(ms, i) || (IsQos2(ms[i]) && !ms[i].state.Complete?))
  {
    hide IsQos2;
    if Qos2Before(ms, i) {
      var j :| 0 <= j < i && IsQos2(ms[j]) && !ms[j].state.Complete?;
      assert Qos2Before(ms, i + 1);
    }
  }

  /** What a pass leaves: it has dealt with k messages; if these are not all, the socket did not
      take message k. */
  ghost predicate PassResult(ms: seq<Message>, env: seq<Tick>, timeout: nat, start: Books, k: nat,
                             end: Books, ms': seq<Message>, broken: bool)
    requires |ms| <= |env|
  {
    && k <= |ms| && Passed(ms, env, timeout, start, k, ms')
    && broken == (k < |ms| && env[k].accepted < 0)
    && var b := BooksAt(ms, env, timeout, start, k);
       if k == |ms| then end == b
       else
         && Due(ms, k, env[k].now, timeout) && !TakesAll(ms, env, timeout, start, k)
         && end == Books(SendFrom(ms, env, timeout, start, k) + (if broken then 0 else env[k].accepted),
                         b.timeouts + (if TimedOut(ms[k], env[k].now, timeout) then 1 else 0), b.lastSend)
  }

  lemma PassStart(ms: seq<Message>, env: seq<Tick>, timeout: nat, start: Books)
    requires |ms| <= |env|
    ensures Passed(ms, env, timeout, start, 0, ms) && BooksAt(ms, env, timeout, start, 0) == start && !Qos2Before(ms, 0)
  {
  }

  /** One turn takes the pass from message i to the next. */
  lemma PassNext(ms: seq<Message>, env: seq<Tick>, timeout: nat, start: Books, i: nat, cur: seq<Message>, b: Books,
                 turn: Turn, inflight': bool, b': Books, cur': seq<Message>)
    requires i < |ms| <= |env| && Passed(ms, env, timeout, start, i, cur) && b == BooksAt(ms, env, timeout, start, i)
    requires TurnResult(cur, i, env[i], timeout, Qos2Before(ms, i), b, turn, inflight', b', cur')
    ensures turn.Next? ==>
      && Passed(ms, env, timeout, start, i + 1, cur') && b' == BooksAt(ms, env, timeout, start, i + 1)
      && inflight' == Qos2Before(ms, i + 1)
    ensures !turn.Next? ==> PassResult(ms, env, timeout, start, i, b', cur', turn.Broken?)
  {
    hide IsQos2, Sent, Qos2Before;
    Qos2Next(ms, i);
    PassedKeeps(ms, env, timeout, start, i, cur, cur');
  }

  lemma PassedKeeps(ms: seq<Message>, env: seq<Tick>, timeout: nat, start: Books, i: nat, cur: seq<Message>,
                    cur': seq<Message>)
    requires i < |ms| <= |env| && Passed(ms, env, timeout, start, i, cur) && |cur'| == |cur|
    requires forall j :: 0 <= j < |ms| && j != i ==> cur'[j] == cur[j]
    ensures PassedOne(ms, env, timeout, start, i, cur'[i]) ==> Passed(ms, env, timeout, start, i + 1, cur')
    ensures cur' == cur ==> Passed(ms, env, timeout, start, i, cur')
  {
    hide PassedOne;
  }

  /** __mqtt_send as a whole: nothing in an error state other than a full send buffer; else a pass,
      and a ping if the last complete send is too long ago. */
  ghost predicate SendResult(before: Status, ms: seq<Message>, ms': seq<Message>, len: nat, env: seq<Tick>, now: nat,
                             timeout: nat, keepAlive: nat, start: Books, end: Books, k: nat, s: Status)
    requires |ms| <= |env|
  {
    if before.Failed? && before != Failed(SendBufferIsFull) then s == before && ms' == ms && end == start
    else if PassResult(ms, env, timeout, start, k, end, ms', true) then s == Failed(SocketFailure)
    else exists mid :: PassResult(ms, env, timeout, start, k, end, mid, false)
           && PingResult(before, mid, ms', len, now > end.lastSend + keepAlive * 3 / 4, s)
  }

  predicate PingResult(before: Status, ms: seq<Message>, ms': seq<Message>, len: nat, due: bool, s: Status) {
    if due then Submitted(before, ms, ms', len, PacketOf(Plain(PINGREQ, 0, [])), PINGREQ, None, s)
    else ms' == ms && s == Ok
  }

  lemma SendEnds(before: Status, ms: seq<Message>, mid: seq<Message>, ms': seq<Message>, len: nat, env: seq<Tick>,
                 now: nat, timeout: nat, keepAlive: nat, start: Books, end: Books, k: nat, s: Status)
    requires |ms| <= |env| && PassResult(ms, env, timeout, start, k, end, mid, false)
    requires PingResult(before, mid, ms', len, now > end.lastSend + keepAlive * 3 / 4, s)
    requires before.Ok? || before == Failed(SendBufferIsFull)
    ensures SendResult(before, ms, ms', len, env, now, timeout, keepAlive, start, end, k, s)
  {
    hide Passed, PingResult, Due, TakesAll;
  }

  /** mqtt_sync ends the error state in which mqtt_reconnect has left the client. */
  function Resumed(before: Status): Status {
    if before == Failed(Reconnecting) then Ok else before
  }

  // -------------------------------------------------------------- the offset of a pass

  /** Message j uses up or clears the offset. */
  predicate Touches(ms: seq<Message>, env: seq<Tick>, timeout: nat, j: nat)
    requires j < |ms| <= |env|
  {
    Due(ms, j, env[j].now, timeout) || TimedOut(ms[j], env[j].now, timeout)
  }

  /** The offset left by an earlier pass goes to the first message sent, unless a timeout clears it;
      every other message is sent from its first octet. */
  lemma {:induction false} OffsetGoesToFirst(ms: seq<Message>, env: seq<Tick>, timeout: nat, start: Books, i: nat)
    requires i < |ms| <= |env|
    ensures SendFrom(ms, env, timeout, start, i) ==
      if TimedOut(ms[i], env[i].now, timeout) || exists j :: 0 <= j < i && Touches(ms, env, timeout, j) then 0
      else start.offset
  {
    hide Due, TimedOut;
    if i > 0 {
      OffsetGoesToFirst(ms, env, timeout, start, i - 1);
      assert Touches(ms, env, timeout, i - 1) || !Touches(ms, env, timeout, i - 1);
    }
  }

  /** So message i is sent from within its octets exactly if the offset left over lies within them,
      or is cleared or used up before. */
  lemma OffsetWithin(ms: seq<Message>, env: seq<Tick>, timeout: nat, start: Books, i: nat)
    requires i < |ms| <= |env|
    ensures SendFrom(ms, env, timeout, start, i) <= |ms[i].bytes| <==>
      || TimedOut(ms[i], env[i].now, timeout) || (exists j :: 0 <= j < i && Touches(ms, env, timeout, j))
      || start.offset <= |ms[i].bytes|
  {
    hide SendFrom, TimedOut, Touches;
    OffsetGoesToFirst(ms, env, timeout, start, i);
  }

  // -------------------------------------------------------------- when a QoS 2 PUBLISH counts

  /** Given room, a QoS 2 PUBLISH is handed over exactly if its exchange is not open and no
      completed PUBREC for its identifier waits in the queue. */
  lemma DeliveredIff(log: seq<Event>, ms: seq<Message>, n: U16, ms': seq<Message>, log': seq<Event>, len: nat)
    requires Safe(log, ms) && PublishAnswered(Ok, ms, log, 2, n, ms', log', len, Ok)
    ensures log' == log + [Delivered(2, Id(n))] <==>
      !Pending(log, Id(n)) && (forall j :: 0 <= j < |ms| ==> !(IsPubrec(ms, j, Id(n)) && ms[j].state.Complete?))
  {
    hide Safe, NoPubrec, Staged;
    NoPubrecIff(log, ms, Id(n));
  }
}
