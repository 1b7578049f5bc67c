/** Two runs of the MQTT client from mqtt_init on: one ends where a new QoS 2 PUBLISH is taken for
    a duplicate, the other where the next message is sent from an offset behind its end. */
module MqttWitness {
  import opened Limbs
  import opened Memory
  import opened MqttPid
  import opened MqttCodec
  import opened MqttQueue
  import opened MqttRoom
  import opened MqttProtocol
  import opened MqttSteps
  import opened MqttClient
  import opened MqttRuns

  /** The send buffer of both runs */
  const SEND_SIZE := 2000

  /** A short queue of short messages */
  predicate Short(ms: seq<Message>) {
    |ms| <= 8 && forall i :: 0 <= i < |ms| ==> |ms[i].bytes| <= 128
  }

  lemma {:induction false} TotalShort(ms: seq<Message>)
    requires Short(ms)
    ensures TotalBytes(ms) <= 128 * |ms|
  {
    if |ms| > 0 {
      TotalShort(ms[..|ms| - 1]);
    }
  }

  predicate Fresh(m: Message, bytes: seq<Byte>, kind: Nibble, id: Option<PacketId>) {
    m.bytes == bytes && m.state.Unsent? && m.controlType == kind && (id.Some? ==> m.packetId == id.value)
  }

  /** A short packet finds room behind a short queue. */
  lemma Added(ms: seq<Message>, ms': seq<Message>, bytes: seq<Byte>, kind: Nibble, id: Option<PacketId>, s: Status)
    requires TriedPacket(ms, ms', SEND_SIZE, bytes, kind, id, s) && Short(ms) && |bytes| <= 128
    ensures s.Ok? && |ms'| == |ms| + 1 && ms'[..|ms|] == ms && Fresh(ms'[|ms|], bytes, kind, id)
    ensures |ms| < 8 ==> Short(ms')
  {
    TotalShort(ms);
    assert forall i :: 0 <= i < |ms| ==> ms'[i] == ms'[..|ms|][i];
  }

  /** The octets of a packet with a short body. */
  lemma ShortPlain(kind: Nibble, flags: Nibble, body: seq<Byte>)
    requires HeaderValid(FixedHeader(kind, flags, |body|)) && |body| < 100
    ensures PacketOf(Plain(kind, flags, body)).Packet? && |PacketOf(Plain(kind, flags, body)).bytes| == 2 + |body|
  {
  }

  lemma ShortPublish(topic: seq<Byte>, id: U16, message: seq<Byte>, flags: Byte)
    requires QosOf(flags) != 3 && |topic| == 1 && |message| <= 100
    ensures var p := PackPublish(topic, id, message, flags);
      p.Packet? && |p.bytes| == 5 + |message| + (if QosOf(flags) > 0 then 2 else 0)
      && p.bytes[0] == PUBLISH * 16 + PublishFlags(flags)
  {
  }

  function SentOnce(m: Message): Message {
    if m.state.Unsent? then Sent(m, 0) else m
  }

  predicate NoQos2(ms: seq<Message>) {
    forall i :: 0 <= i < |ms| ==> !IsQos2(ms[i])
  }

  predicate AllSentOnce(ms: seq<Message>, ms': seq<Message>) {
    |ms'| == |ms| && forall i :: 0 <= i < |ms| ==> ms'[i] == SentOnce(ms[i])
  }

  /** A send pass at time 0 over a socket that takes all. */
  lemma AllTaken(ms: seq<Message>, ms': seq<Message>, env: seq<Tick>, timeout: nat, keepAlive: nat, start: Books,
                 end: Books, k: nat, s: Status)
    requires Short(ms) && NoQos2(ms) && |ms| <= |env| && (forall i :: 0 <= i < |env| ==> env[i] == Tick(0, 128, 0))
    requires SendResult(Ok, ms, ms', SEND_SIZE, env, 0, timeout, keepAlive, start, end, k, s)
    ensures s.Ok? && AllSentOnce(ms, ms')
  {
    hide IsQos2, Sent;
    assert !PassResult(ms, env, timeout, start, k, end, ms', true);
    var mid :| PassResult(ms, env, timeout, start, k, end, mid, false)
      && PingResult(Ok, mid, ms', SEND_SIZE, 0 > end.lastSend + keepAlive * 3 / 4, s);
    assert k == |ms|;
    forall i | 0 <= i < |ms|
      ensures ms'[i] == SentOnce(ms[i])
    {
      assert PassedOne(ms, env, timeout, start, i, ms'[i]);
    }
  }

  /** One __mqtt_send at time 0 over a socket that takes all */
  method SendAll(c: Client)
    requires c.Valid() && c.error.Ok? && c.mq.mem.Length == SEND_SIZE
    requires Short(c.mq.Contents()) && NoQos2(c.mq.Contents())
    modifies c, c.mq, c.mq.mem, c.mq.slots
    ensures c.Valid() && c.error.Ok? && c.log == old(c.log)
    ensures AllSentOnce(old(c.mq.Contents()), c.mq.Contents())
  {
    hide Kept, Feeding, Later, IsQos2, Sent, SendResult, Short, NoQos2;
    ghost var ms, start := c.mq.Contents(), c.Accounts();
    ghost var k;
    var env, s := seq(c.mq.count, _ => Tick(0, 128, 0)), Ok;
    s, k := c.Send(env, 0);
    AllTaken(ms, c.mq.Contents(), env, c.responseTimeout, c.keepAlive, start, c.Accounts(), k, s);
  }

  // ------------------------------------------------- a closed exchange suppresses a message

  /** The contents of a CONNECT packet: protocol MQTT 3.1.1, clean session, 60 seconds, no name */
  const CONNECT_BODY: seq<Byte> := [0, 4, 77, 81, 84, 84, 4, 2, 0, 60, 0, 0]

  /** The CONNECT in front */
  predicate Connecting(ms: seq<Message>, state: State) {
    Short(ms) && |ms| >= 1 && ms[0].controlType == CONNECT && ms[0].state == state && |ms[0].bytes| == 14
  }

  /** A CONNECT and a SUBSCRIBE behind it */
  predicate Subscribing(ms: seq<Message>, connected: State, subscribed: State) {
    && Connecting(ms, connected) && |ms| >= 2 && NoQos2(ms)
    && ms[1].controlType == SUBSCRIBE && ms[1].state == subscribed
  }

  /** Behind them the PUBREC of a QoS 2 PUBLISH with identifier 7 */
  predicate Receiving(ms: seq<Message>, state: State) {
    && Subscribing(ms, Complete, Awaiting) && |ms| >= 3
    && ms[2].controlType == PUBREC && ms[2].packetId == 7 && ms[2].state == state
  }

  lemma ConnectAdded(ms': seq<Message>, s: Status)
    requires Submitted(Ok, [], ms', SEND_SIZE, PacketOf(Plain(CONNECT, 0, CONNECT_BODY)), CONNECT, None, s)
    ensures s.Ok? && Connecting(ms', Unsent) && Short(ms') && |ms'| == 1
  {
    hide PacketOf, TriedPacket;
    ShortPlain(CONNECT, 0, CONNECT_BODY);
    Added([], ms', PacketOf(Plain(CONNECT, 0, CONNECT_BODY)).bytes, CONNECT, None, s);
  }

  function SubscribeBody(id: PacketId, topic: seq<Byte>, maxQos: Byte): seq<Byte> {
    U16Bytes(Num(id)) + EncodeString(topic) + [maxQos]
  }

  lemma SubscribeAdded(ms: seq<Message>, ms': seq<Message>, id: PacketId, s: Status)
    requires Connecting(ms, Unsent) && |ms| == 1
    requires Submitted(Ok, ms, ms', SEND_SIZE, PacketOf(Plain(SUBSCRIBE, 2, SubscribeBody(id, [116], 0))), SUBSCRIBE,
                       Some(id), s)
    ensures s.Ok? && Subscribing(ms', Unsent, Unsent) && |ms'| == 2
  {
    hide PacketOf, TriedPacket;
    var body := SubscribeBody(id, [116], 0);
    ShortPlain(SUBSCRIBE, 2, body);
    Added(ms, ms', PacketOf(Plain(SUBSCRIBE, 2, body)).bytes, SUBSCRIBE, Some(id), s);
  }

  lemma SubscribeSent(ms: seq<Message>, ms': seq<Message>)
    requires Subscribing(ms, Unsent, Unsent) && AllSentOnce(ms, ms')
    ensures Subscribing(ms', Awaiting, Awaiting)
  {
    SentShort(ms, ms');
  }

  lemma SentShort(ms: seq<Message>, ms': seq<Message>)
    requires Short(ms) && NoQos2(ms) && AllSentOnce(ms, ms')
    ensures Short(ms') && NoQos2(ms')
  {
    hide IsQos2;
    forall i | 0 <= i < |ms|
      ensures !IsQos2(ms'[i]) && |ms'[i].bytes| <= 128
    {
      SentNotQos2(ms[i], 0);
    }
  }

  lemma Connected(ms: seq<Message>, ms': seq<Message>, s: Status)
    requires Subscribing(ms, Awaiting, Awaiting) && AckAnswered(ms, CONNECT, Any, ms', ConnackStatus(0), s)
    ensures s.Ok? && Subscribing(ms', Complete, Awaiting) && |ms'| == |ms|
  {
    hide FirstMatch;
    FoundIsFirst(ms, CONNECT, Any, 0);
  }

  /** mqtt_connect and mqtt_subscribe, their packets on the network, and the CONNACK; the SUBACK
      takes its time. */
  method StartSubscribing(c: Client)
    requires c.Valid() && c.error == Failed(ConnectNotCalled) && c.mq.mem.Length == SEND_SIZE
    requires c.mq.Contents() == [] && c.log == []
    modifies c, c.mq, c.mq.mem, c.mq.slots
    ensures c.Valid() && c.error.Ok? && c.log == []
    ensures Subscribing(c.mq.Contents(), Complete, Awaiting) && |c.mq.Contents()| == 2
  {
    hide Kept, Feeding, Later, PacketOf, Submitted, Carries, AckAnswered;
    var s := c.Connect(CONNECT_BODY, 60);
    ghost var ms := c.mq.Contents();
    ConnectAdded(ms, s);
    IdFree(c);
    ghost var id;
    s, id := c.Subscribe([116], 0);
    SubscribeAdded(ms, c.mq.Contents(), id, s);
    ms := c.mq.Contents();
    SendAll(c);
    SubscribeSent(ms, c.mq.Contents());
    ms := c.mq.Contents();
    s := c.HandleResponse(Connack(false, 0));
    Connected(ms, c.mq.Contents(), s);
  }

  lemma PubrecAdded(ms: seq<Message>, ms': seq<Message>, log': seq<Event>, s: Status)
    requires Subscribing(ms, Complete, Awaiting) && |ms| == 2
    requires PublishAnswered(Ok, ms, [], 2, 7, ms', log', SEND_SIZE, s)
    ensures s.Ok? && Receiving(ms', Unsent) && |ms'| == 3 && log' == [Delivered(2, 7)]
  {
    hide TriedPacket, PackAck;
    AckRoundTrip(PUBREC, 7, []);
    Added(ms, ms', PackAck(PUBREC, 7), PUBREC, Some(7), s);
  }

  lemma PubrecSent(ms: seq<Message>, ms': seq<Message>)
    requires Receiving(ms, Unsent) && AllSentOnce(ms, ms')
    ensures Receiving(ms', Awaiting)
  {
    SentShort(ms, ms');
  }

  lemma PubrelHandled(ms: seq<Message>, log: seq<Event>, ms': seq<Message>, log': seq<Event>, s: Status)
    requires Receiving(ms, Awaiting) && |ms| == 3 && AckPacketAnswered(Ok, ms, log, PUBREL, 7, ms', log', SEND_SIZE, s)
    ensures s.Ok? && Receiving(ms', Complete) && |ms'| == 4 && log' == log + [Released(7)]
  {
    hide FirstMatch, TriedPacket, PackAck;
    FoundIsFirst(ms, PUBREC, Exactly(7), 2);
    AckRoundTrip(PUBCOMP, 7, []);
    Added(Acked(ms, PUBREC, Exactly(7)), ms', PackAck(PUBCOMP, 7), PUBCOMP, Some(7), s);
  }

  /** A QoS 2 PUBLISH with identifier 7, the PUBREC on the network, and the PUBREL. */
  method StartReceiving(c: Client)
    requires c.Valid() && c.error.Ok? && c.log == [] && c.mq.mem.Length == SEND_SIZE
    requires Subscribing(c.mq.Contents(), Complete, Awaiting) && |c.mq.Contents()| == 2
    modifies c, c.mq, c.mq.mem, c.mq.slots
    ensures c.Valid() && c.error.Ok? && c.log == [Delivered(2, 7), Released(7)]
    ensures Receiving(c.mq.Contents(), Complete) && |c.mq.Contents()| == 4
  {
    hide Kept, Feeding, Later, PublishAnswered, AckPacketAnswered;
    ghost var ms := c.mq.Contents();
    var s := c.HandleResponse(Publish(false, 2, false, [116], 7, []));
    PubrecAdded(ms, c.mq.Contents(), c.log, s);
    ms := c.mq.Contents();
    SendAll(c);
    PubrecSent(ms, c.mq.Contents());
    ms := c.mq.Contents();
    s := c.HandleResponse(Ack(PUBREL, 7));
    PubrelHandled(ms, [Delivered(2, 7)], c.mq.Contents(), c.log, s);
  }

  /** The PUBREC in the queue makes the next PUBLISH a duplicate, and its exchange is over. */
  lemma Suppressed(ms: seq<Message>, log: seq<Event>, ms': seq<Message>, log': seq<Event>, s: Status)
    requires Receiving(ms, Complete) && log == [Delivered(2, 7), Released(7)]
    requires PublishAnswered(Ok, ms, log, 2, 7, ms', log', SEND_SIZE, s)
    ensures s.Ok? && log' == log && ms' == ms && !Pending(log, 7)
  {
    hide Staged;
    assert IsPubrec(ms, 2, 7);
  }

  /** An exchange that is over still suppresses a new message with its identifier while its PUBREC
      is kept behind a message not yet complete: the last PUBLISH counts as handled, but is not
      handed over, and no exchange with its identifier is open. */
  method ClosedExchangeSuppresses() returns (c: Client, s: Status, ghost before: seq<Event>)
    ensures c.Valid() && s.Ok? && c.log == before == [Delivered(2, 7), Released(7)] && !Pending(before, 7)
    ensures Receiving(c.mq.Contents(), Complete)
  {
    hide Kept, Feeding, Later, PublishAnswered, Receiving, Subscribing;
    c := new Client(SEND_SIZE, 100);
    StartSubscribing(c);
    StartReceiving(c);
    ghost var ms := c.mq.Contents();
    before := c.log;
    s := c.HandleResponse(Publish(false, 2, false, [116], 7, [1]));
    Suppressed(ms, before, c.mq.Contents(), c.log, s);
  }

  // ------------------------------------------- an offset that belongs to another message

  /** A queued PUBLISH: to the topic "t", with the identifier, of `size` octets in all */
  predicate IsPublish(m: Message, id: PacketId, state: State, qos2: bool, size: nat) {
    m.controlType == PUBLISH && m.packetId == id && m.state == state && IsQos2(m) == qos2 && |m.bytes| == size
  }

  lemma PublishAdded(ms: seq<Message>, ms': seq<Message>, id: PacketId, message: seq<Byte>, flags: Byte, s: Status)
    requires Short(ms) && |ms| < 8 && QosOf(flags) != 3 && |message| <= 100
    requires Submitted(Ok, ms, ms', SEND_SIZE, PackPublish([116], Num(id), message, flags), PUBLISH, Some(id), s)
    ensures s.Ok? && Short(ms') && |ms'| == |ms| + 1 && ms'[..|ms|] == ms
    ensures IsPublish(ms'[|ms|], id, Unsent, QosOf(flags) == 2, 5 + |message| + if QosOf(flags) > 0 then 2 else 0)
  {
    hide PackPublish, TriedPacket;
    var p := PackPublish([116], Num(id), message, flags);
    ShortPublish([116], Num(id), message, flags);
    Added(ms, ms', p.bytes, PUBLISH, Some(id), s);
    FirstQos(p.bytes[0], flags);
  }

  lemma FirstQos(octet: Byte, flags: Byte)
    requires octet == PUBLISH * 16 + PublishFlags(flags)
    ensures octet / 2 % 4 == QosOf(flags)
  {
    FlagsKeepQos(flags);
    DivModFacts(PublishFlags(flags), 8);
    DupBits(3, PublishFlags(flags) % 8);
  }

  /** A CONNECT, two QoS 2 messages of 7 octets and a QoS 0 message of 105 octets */
  predicate Publishing(ms: seq<Message>, connected: State, first: State, id: PacketId) {
    && Connecting(ms, connected) && |ms| >= 4
    && IsPublish(ms[1], id, first, true, 7)
    && IsPublish(ms[2], ms[2].packetId, Unsent, true, 7)
    && IsPublish(ms[3], ms[3].packetId, Unsent, false, 105)
  }

  const LONG_MESSAGE: seq<Byte> := seq(100, _ => 0)

  lemma Published(ms1: seq<Message>, ms2: seq<Message>, ms3: seq<Message>, ms4: seq<Message>,
                  id: PacketId, id2: PacketId, id3: PacketId)
    requires Connecting(ms1, Unsent) && |ms1| == 1 && Short(ms4)
    requires |ms2| == 2 && ms2[..1] == ms1 && IsPublish(ms2[1], id, Unsent, true, 7)
    requires |ms3| == 3 && ms3[..2] == ms2 && IsPublish(ms3[2], id2, Unsent, true, 7)
    requires |ms4| == 4 && ms4[..3] == ms3 && IsPublish(ms4[3], id3, Unsent, false, 105)
    ensures Publishing(ms4, Unsent, Unsent, id)
  {
    hide IsQos2;
    assert ms4[0] == ms4[..3][0] == ms3[..2][0] == ms2[..1][0];
    assert ms4[1] == ms4[..3][1] == ms3[..2][1] && ms4[2] == ms4[..3][2];
  }

  /** mqtt_publish of a short message to "t" */
  method PublishShort(c: Client, message: seq<Byte>, flags: Byte) returns (id: PacketId)
    requires c.Valid() && c.error.Ok? && c.mq.mem.Length == SEND_SIZE && Short(c.mq.Contents())
    requires |c.mq.Contents()| < 8 && QosOf(flags) != 3 && |message| <= 100
    modifies c`pidLfsr, c`error, c`history, c`dropped, c.mq`curr, c.mq`count, c.mq.mem, c.mq.slots
    ensures c.Valid() && c.error.Ok?
    ensures Short(c.mq.Contents()) && |c.mq.Contents()| == |old(c.mq.Contents())| + 1
    ensures c.mq.Contents()[..|old(c.mq.Contents())|] == old(c.mq.Contents())
    ensures IsPublish(c.mq.Contents()[|old(c.mq.Contents())|], id, Unsent, QosOf(flags) == 2,
                      5 + |message| + if QosOf(flags) > 0 then 2 else 0)
  {
    hide Kept, Feeding, Later, PackPublish, Submitted, Carries, IsPublish, Short;
    ghost var ms := c.mq.Contents();
    IdFree(c);
    ghost var x;
    var s;
    s, x := c.Publish([116], message, flags);
    id := c.pidLfsr;
    PublishAdded(ms, c.mq.Contents(), id, message, flags, s);
  }

  /** mqtt_connect and three times mqtt_publish */
  method StartPublishing(c: Client) returns (id: PacketId)
    requires c.Valid() && c.error == Failed(ConnectNotCalled) && c.mq.mem.Length == SEND_SIZE
    requires c.mq.Contents() == []
    modifies c`keepAlive, c`pidLfsr, c`error, c`history, c`dropped, c.mq`curr, c.mq`count, c.mq.mem, c.mq.slots
    ensures c.Valid() && c.error.Ok?
    ensures Publishing(c.mq.Contents(), Unsent, Unsent, id) && |c.mq.Contents()| == 4
  {
    hide Kept, Feeding, Later, PacketOf, Submitted, IsPublish, Publishing, Short, Connecting;
    var s := c.Connect(CONNECT_BODY, 60);
    ghost var ms1 := c.mq.Contents();
    ConnectAdded(ms1, s);
    id := PublishShort(c, [], 4);
    ghost var ms2 := c.mq.Contents();
    var id2 := PublishShort(c, [], 4);
    ghost var ms3 := c.mq.Contents();
    var id3 := PublishShort(c, LONG_MESSAGE, 0);
    Published(ms1, ms2, ms3, c.mq.Contents(), id, id2, id3);
  }

  lemma SentPublish(m: Message, id: PacketId, size: nat)
    requires IsPublish(m, id, Unsent, true, size)
    ensures IsPublish(Sent(m, 0), id, Awaiting, true, size)
  {
  }

  lemma SentConnect(m: Message)
    requires m.controlType == CONNECT
    ensures var m' := Sent(m, 0); m'.controlType == CONNECT && m'.state.Awaiting? && m'.bytes == m.bytes
  {
  }

  /** The send pass at time 0 over a socket that takes 100 octets of each message: the first QoS 2
      PUBLISH leaves, the second is held back, and 100 octets of the long message leave. */
  lemma LongSentInPart(ms: seq<Message>, ms': seq<Message>, env: seq<Tick>, timeout: nat, keepAlive: nat,
                       id: PacketId, start: Books, end: Books, k: nat, s: Status)
    requires Publishing(ms, Unsent, Unsent, id) && |ms| == 4 && env == seq(4, _ => Tick(0, 100, 0))
    requires SendResult(Ok, ms, ms', SEND_SIZE, env, 0, timeout, keepAlive, start, end, k, s) && start.offset == 0
    ensures s.Ok? && k == 3 && end.offset == 100 && Publishing(ms', Awaiting, Awaiting, id) && |ms'| == 4
  {
    hide Sent, TakesAll, Due, SendFrom;
    assert forall i :: 0 <= i < 4 ==> env[i] == Tick(0, 100, 0);
    assert !PassResult(ms, env, timeout, start, k, end, ms', true);
    var mid :| PassResult(ms, env, timeout, start, k, end, mid, false)
      && PingResult(Ok, mid, ms', SEND_SIZE, 0 > end.lastSend + keepAlive * 3 / 4, s);
    PassedWhole(ms, env, timeout, start, k, mid);
    LongHeld(ms, env, timeout, start);
    assert k == 3;
    SentPublish(ms[1], id, 7);
    SentConnect(ms[0]);
  }

  lemma PassedWhole(ms: seq<Message>, env: seq<Tick>, timeout: nat, start: Books, k: nat, ms': seq<Message>)
    requires k <= |ms| <= |env| && Passed(ms, env, timeout, start, k, ms')
    ensures forall i :: 0 <= i < k && Due(ms, i, env[i].now, timeout) ==>
      TakesAll(ms, env, timeout, start, i) && ms'[i] == Sent(ms[i], env[i].sent)
    ensures forall i :: 0 <= i < |ms| && (i >= k || !Due(ms, i, env[i].now, timeout)) ==> ms'[i] == ms[i]
  {
    hide Due, TakesAll, Sent;
    forall i | 0 <= i < k
      ensures if Due(ms, i, env[i].now, timeout)
        then TakesAll(ms, env, timeout, start, i) && ms'[i] == Sent(ms[i], env[i].sent)
        else ms'[i] == ms[i]
    {
      assert PassedOne(ms, env, timeout, start, i, ms'[i]);
    }
  }

  lemma LongHeld(ms: seq<Message>, env: seq<Tick>, timeout: nat, start: Books)
    requires |ms| == 4 && Publishing(ms, Unsent, Unsent, ms[1].packetId) && env == seq(4, _ => Tick(0, 100, 0))
    requires start.offset == 0
    ensures Due(ms, 0, 0, timeout) && TakesAll(ms, env, timeout, start, 0)
    ensures Due(ms, 1, 0, timeout) && TakesAll(ms, env, timeout, start, 1) && !Due(ms, 2, 0, timeout)
    ensures Due(ms, 3, 0, timeout) && !TakesAll(ms, env, timeout, start, 3)
    ensures SendFrom(ms, env, timeout, start, 3) == 0
  {
    assert IsQos2(ms[1]) && !ms[1].state.Complete?;
    assert Qos2Before(ms, 2) && !Qos2Before(ms, 1);
    assert BooksAt(ms, env, timeout, start, 1).offset == 0;
    assert BooksAt(ms, env, timeout, start, 2).offset == 0;
    assert BooksAt(ms, env, timeout, start, 3).offset == 0;
  }

  lemma LongConnected(ms: seq<Message>, ms': seq<Message>, id: PacketId, s: Status)
    requires Publishing(ms, Awaiting, Awaiting, id) && AckAnswered(ms, CONNECT, Any, ms', ConnackStatus(0), s)
    ensures s.Ok? && Publishing(ms', Complete, Awaiting, id) && |ms'| == |ms|
  {
    hide FirstMatch, IsPublish;
    FoundIsFirst(ms, CONNECT, Any, 0);
  }

  /** The PUBREC completes the first QoS 2 PUBLISH, and its PUBREL stands behind the others. */
  lemma FirstReceived(ms: seq<Message>, log: seq<Event>, ms': seq<Message>, log': seq<Event>, id: PacketId, s: Status)
    requires Publishing(ms, Complete, Awaiting, id) && |ms| == 4
    requires AckPacketAnswered(Ok, ms, log, PUBREC, Num(id), ms', log', SEND_SIZE, s)
    ensures s.Ok? && Publishing(ms', Complete, Complete, id) && |ms'| == 5 && ms'[4].controlType == PUBREL
  {
    hide FirstMatch, TriedPacket, PackAck, IsQos2;
    IdNum(id);
    assert !Known(ms, PUBREL, Exactly(id));
    FoundIsFirst(ms, PUBLISH, Exactly(id), 1);
    var acked := Acked(ms, PUBLISH, Exactly(id));
    CompletedQos2(ms[1]);
    AckRoundTrip(PUBREL, Num(id), []);
    Added(acked, ms', PackAck(PUBREL, Num(id)), PUBREL, Some(id), s);
    assert forall i :: 0 <= i < 4 ==> ms'[i] == ms'[..4][i] == acked[i];
  }

  lemma CompletedQos2(m: Message)
    ensures IsQos2(m.(state := Complete)) == IsQos2(m)
  {
  }

  /** Message 2 is due in every pass to come, and would be sent from octet 100 on, of 7. */
  ghost predicate DueBehindItsEnd(ms: seq<Message>, timeout: nat, start: Books) {
    && |ms| == 5 && |ms[2].bytes| == 7
    && forall env: seq<Tick> :: |env| >= 5 ==> BehindIn(ms, env, timeout, start)
  }

  predicate BehindIn(ms: seq<Message>, env: seq<Tick>, timeout: nat, start: Books)
    requires |ms| == 5 <= |env|
  {
    Due(ms, 2, env[2].now, timeout) && SendFrom(ms, env, timeout, start, 2) == 100
  }

  lemma SentFromBehind(ms: seq<Message>, timeout: nat, start: Books, id: PacketId)
    requires Publishing(ms, Complete, Complete, id) && |ms| == 5 && start.offset == 100
    ensures DueBehindItsEnd(ms, timeout, start)
  {
    hide IsQos2;
    forall env: seq<Tick> | |env| >= 5
      ensures BehindIn(ms, env, timeout, start)
    {
      assert BooksAt(ms, env, timeout, start, 1) == start;
      assert BooksAt(ms, env, timeout, start, 2) == start;
    }
  }

  /** One __mqtt_send of the four messages, and the CONNACK */
  method SendInPart(c: Client, id: PacketId) returns (ghost k: nat)
    requires c.Valid() && c.error.Ok? && c.mq.mem.Length == SEND_SIZE && c.sendOffset == 0
    requires Publishing(c.mq.Contents(), Unsent, Unsent, id) && |c.mq.Contents()| == 4
    modifies c, c.mq, c.mq.mem, c.mq.slots
    ensures c.Valid() && c.error.Ok? && k == 3 && c.sendOffset == 100
    ensures Publishing(c.mq.Contents(), Complete, Awaiting, id) && |c.mq.Contents()| == 4
  {
    hide Kept, Feeding, Later, Publishing, SendResult, AckAnswered;
    ghost var ms, start := c.mq.Contents(), c.Accounts();
    var env, s := seq(4, _ => Tick(0, 100, 0)), Ok;
    s, k := c.Send(env, 0);
    LongSentInPart(ms, c.mq.Contents(), env, c.responseTimeout, c.keepAlive, id, start, c.Accounts(), k, s);
    ms := c.mq.Contents();
    s := c.HandleResponse(Connack(false, 0));
    LongConnected(ms, c.mq.Contents(), id, s);
  }

  /** The offset need not belong to the first message to be sent, and it can lie behind that
      message's end, without any timeout: a long PUBLISH is sent in part (the pass stops at message
      3) behind a QoS 2 PUBLISH that is held back, and the PUBREC that arrives next frees that one. */
  method MisappliedOffset() returns (c: Client, id: PacketId, ghost k: nat)
    ensures c.Valid() && c.error.Ok? && k == 3 && Publishing(c.mq.Contents(), Complete, Complete, id)
    ensures DueBehindItsEnd(c.mq.Contents(), c.responseTimeout, c.Accounts())
  {
    hide Kept, Feeding, Later, Publishing, AckPacketAnswered, DueBehindItsEnd;
    c := new Client(SEND_SIZE, 100);
    id := StartPublishing(c);
    k := SendInPart(c, id);
    ghost var ms, log := c.mq.Contents(), c.log;
    var s := c.HandleResponse(Ack(PUBREC, Num(id)));
    FirstReceived(ms, log, c.mq.Contents(), c.log, id, s);
    SentFromBehind(c.mq.Contents(), c.responseTimeout, c.Accounts(), id);
  }
}
