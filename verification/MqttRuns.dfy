/** Runs of the MQTT client: any sequence of requests, send passes and receive passes after
    mqtt_init, without re-initialisation (sections 4.3 and 4.4 of MQTT 3.1.1). */
module MqttRuns {
  import opened Limbs
  import opened MqttPid
  import opened MqttCodec
  import opened MqttQueue
  import opened MqttProtocol
  import opened MqttStream
  import opened MqttSteps
  import opened MqttClient

  datatype Operation =
    | DoConnect(body: seq<Byte>, keepAlive: nat)
    | DoPublish(topic: seq<Byte>, message: seq<Byte>, flags: Byte)
    | DoSubscribe(filter: seq<Byte>, maxQos: Byte)
    | DoUnsubscribe(oldFilter: seq<Byte>)
    | DoPing
    | DoDisconnect
    | DoSend(env: seq<Tick>, now: nat)
    | DoReceive(net: seq<Byte>)
    | DoSync(input: seq<Byte>, ticks: seq<Tick>, time: nat)
    | DoReconnect

  /** Topics fit their length field; the environment answers for every message there can be. */
  predicate Possible(op: Operation, len: nat) {
    match op
    case DoPublish(topic, _, _) => |topic| < 0x1_0000
    case DoSubscribe(filter, _) => |filter| < 0x1_0000
    case DoUnsubscribe(filter) => |filter| < 0x1_0000
    case DoSend(env, _) => |env| >= len / DESCRIPTOR_SIZE
    case DoSync(_, ticks, _) => |ticks| >= len / DESCRIPTOR_SIZE
    case _ => true
  }

  /** What every reachable state satisfies: a QoS 2 PUBLISH is handed over at most once per
      exchange, the QoS 2 PUBLISHes ever queued are acknowledged in order and one at a time, and
      the packets handled are the first ones of the stream. */
  ghost predicate Invariants(c: Client)
    reads c
  {
    && ExactlyOnce(c.log)
    && Qos2Ordered(c.history)
    && (forall i, j :: 0 <= i < j < |c.history| && IsQos2(c.history[i]) && IsQos2(c.history[j]) ==>
          !(c.history[i].state.Awaiting? && c.history[j].state.Awaiting?))
    && (forall i :: 0 <= i < c.dropped && i < |c.history| ==> c.history[i].state.Complete?)
    && c.handled <= Packets(c.stream)
  }

  lemma ValidKeeps(c: Client)
    requires c.Valid()
    ensures Invariants(c)
  {
    hide IsQos2, Packets, Feeding, ParseResponse;
    HistoryOrdered(c.history, c.dropped, c.mq.Contents());
    FeedWaits(c.stream, c.handled, c.consumed, c.recvBuffer[..c.received]);
  }

  /** The send buffer is too small for 65535 messages, so an identifier is always free. */
  lemma IdFree(c: Client)
    requires c.Valid() && c.mq.mem.Length < 65535 * DESCRIPTOR_SIZE
    ensures SomeIdFree(c.mq.Contents())
  {
    FewIds(c.mq.Contents());
  }

  method Perform(c: Client, op: Operation)
    requires c.Valid() && c.mq.mem.Length < 65535 * DESCRIPTOR_SIZE && Possible(op, c.mq.mem.Length)
    modifies c, c.mq, c.mq.mem, c.mq.slots, c.recvBuffer
    ensures c.Valid() && c.Progressed()
  {
    hide Kept, Feeding, Later, Submitted, SendResult, ErrorExplained, Packets, Unread;
    IdFree(c);
    match op
    case DoConnect(body, keepAlive) => var s := c.Connect(body, keepAlive);
    case DoPublish(topic, message, flags) => ghost var id; var s; s, id := c.Publish(topic, message, flags);
    case DoSubscribe(filter, maxQos) => ghost var id; var s; s, id := c.Subscribe(filter, maxQos);
    case DoUnsubscribe(filter) => ghost var id; var s; s, id := c.Unsubscribe(filter);
    case DoPing => var s := c.Ping();
    case DoDisconnect => var s := c.Disconnect();
    case DoSend(env, now) => ghost var k; var s; s, k := c.Send(env, now);
    case DoReceive(net) => var s, rest := c.Recv(net);
    case DoSync(net, ticks, time) =>
      ghost var through, mid, k;
      var s, rest;
      s, rest, through, mid, k := c.Sync(net, ticks, time);
    case DoReconnect => var s := c.Reconnect();
  }

  /** From any reachable state on: the invariants hold, messages have only advanced, none has been
      forgotten before it was complete, and the log has only grown. */
  method Continue(c: Client, ops: seq<Operation>)
    requires c.Valid() && c.mq.mem.Length < 65535 * DESCRIPTOR_SIZE
    requires forall i :: 0 <= i < |ops| ==> Possible(ops[i], c.mq.mem.Length)
    modifies c, c.mq, c.mq.mem, c.mq.slots, c.recvBuffer
    ensures c.Valid() && c.Progressed() && Invariants(c)
  {
    hide Kept, Feeding, Later, Possible, Invariants;
    LaterRefl(c.history);
    var i := 0;
    while i < |ops|
      invariant 0 <= i <= |ops| && c.Valid() && c.Progressed()
    {
      ghost var h := c.history;
      Perform(c, ops[i]);
      LaterTrans(old(c.history), h, c.history);
      i := i + 1;
    }
    ValidKeeps(c);
  }

  /** Every run from a new client. */
  method Run(sendSize: nat, recvSize: nat, ops: seq<Operation>) returns (c: Client)
    requires sendSize < 65535 * DESCRIPTOR_SIZE
    requires forall i :: 0 <= i < |ops| ==> Possible(ops[i], sendSize)
    ensures c.Valid() && Invariants(c)
  {
    c := new Client(sendSize, recvSize);
    Continue(c, ops);
  }
}
