/** The MQTT client (mqtt.c): its requests and its send and receive passes over the queue and the
    receive buffer.  Time, the socket and the broker are nondeterministic. */
module MqttClient {
  import opened Limbs
  import opened Memory
  import opened MqttPid
  import opened MqttCodec
  import opened MqttQueue
  import opened MqttRoom
  import opened MqttProtocol
  import opened MqttStream
  import opened MqttSteps

  class Client {
    const mq: MessageQueue
    const recvBuffer: array<Byte>
    var received: nat
    var error: Status
    var pidLfsr: PacketId
    var sendOffset: nat
    var responseTimeout: nat
    var numberOfTimeouts: nat
    var timeOfLastSend: nat
    var keepAlive: nat

    /** deliveries and releases so far */
    ghost var log: seq<Event>
    /** every message ever queued, as last seen, and how many of them have left the queue */
    ghost var history: seq<Message>
    ghost var dropped: nat
    /** the octets received so far, the packets handled and the octets these took */
    ghost var stream: seq<Byte>
    ghost var handled: seq<Response>
    ghost var consumed: nat

    ghost predicate Shape()
      reads this, mq, mq.mem, mq.slots
    {
      mq.Valid() && received <= recvBuffer.Length && mq.mem != recvBuffer
    }

    ghost predicate Valid()
      reads this, mq, mq.mem, mq.slots, recvBuffer
    {
      && Shape() && Kept(log, history, dropped, mq.Contents())
      && Feeding(stream, handled, consumed, recvBuffer[..received])
    }

    /** Between two states: the log grows, messages advance, none is forgotten before it is
        complete. */
    twostate predicate Progressed()
      reads this
    {
      old(log) <= log && Later(old(history), history) && old(dropped) <= dropped
    }

    /** mqtt_init */
    constructor (sendSize: nat, recvSize: nat)
      ensures Valid() && error == Failed(ConnectNotCalled) && log == [] && history == [] && stream == []
      ensures mq.Contents() == [] && mq.mem.Length == sendSize && recvBuffer.Length == recvSize
      ensures responseTimeout == 30 && numberOfTimeouts == 0 && sendOffset == 0 && pidLfsr == 0 && received == 0
      ensures fresh(mq) && fresh(mq.mem) && fresh(mq.slots) && fresh(recvBuffer)
    {
      mq := new MessageQueue(sendSize);
      recvBuffer := new Byte[recvSize];
      received := 0;
      error := Failed(ConnectNotCalled);
      pidLfsr := 0;
      sendOffset := 0;
      responseTimeout := 30;
      numberOfTimeouts := 0;
      log, history, dropped := [], [], 0;
      stream, handled, consumed := [], [], 0;
      new;
      NothingSafe();
    }

    // -------------------------------------------------------------- packet identifiers

    method IdInQueue(id: PacketId) returns (found: bool)
      requires mq.Valid()
      ensures found == Carries(mq.Contents(), id)
    {
      ghost var ms := mq.Contents();
      var i := 0;
      while i < mq.count
        invariant 0 <= i <= mq.count
        invariant forall j :: 0 <= j < i ==> ms[j].packetId != id
      {
        assert ms[i] == MessageOf(mq.mem[..], mq.slots[..mq.count][i]);
        if mq.slots[i].packetId == id {
          return true;
        }
        i := i + 1;
      }
      return false;
    }

    /** __mqtt_next_pid: the first of the register's next states that no queued message carries. */
    method NextPid() returns (id: PacketId)
      requires mq.Valid() && SomeIdFree(mq.Contents())
      modifies this`pidLfsr
      ensures id != 0 && id == pidLfsr && !Carries(mq.Contents(), id)
      ensures IsNextFree(mq.Contents(), if old(pidLfsr) == 0 then 163 else old(pidLfsr), id)
    {
      hide Iter, Step, Carries;
      ghost var ms := mq.Contents();
      ghost var free: PacketId :| free != 0 && !Carries(ms, free);
      if pidLfsr == 0 {
        pidLfsr := 163;
      }
      ghost var start, k := pidLfsr, 0;
      IterStart(start);
      var taken := true;
      while taken
        invariant k <= 65535 && pidLfsr == Iter(k, start)
        invariant forall j: nat :: 0 < j < k ==> Carries(ms, Iter(j, start))
        invariant k > 0 ==> taken == Carries(ms, pidLfsr)
        invariant k == 0 ==> taken
        decreases 65535 - k, taken
      {
        FreeIdReached(k, start, free);
        pidLfsr := Step(pidLfsr);
        IterNext(k, start);
        k := k + 1;
        taken := IdInQueue(pidLfsr);
      }
      IterNonZero(k, start);
      return pidLfsr;
    }

    // --------------------------------------------------------------- queuing a request

    /** MQTT_CLIENT_TRY_PACK */
    method TryPack(q: Request, kind: Nibble, id: Option<PacketId>) returns (s: Status)
      requires Shape() && ValidRequest(q)
      modifies this`error, mq`curr, mq`count, mq.mem, mq.slots
      ensures Shape() && error == s && (s.Ok? ==> old(error).Ok?)
      ensures Submitted(old(error), old(mq.Contents()), mq.Contents(), mq.mem.Length, PacketOf(q), kind, id, s)
    {
      hide PacketOf, ValidRequest, Cleaned, Room, Queued, Base;
      BaseOfPacket(mq.Contents(), mq.mem.Length, PacketOf(q));
      if error.Failed? {
        return error;
      }
      var rv := Enqueue(mq, q, kind, id);
      if rv.PackFailed? {
        error := Failed(Codec(rv.error));
      } else if rv.NoRoom? {
        error := Failed(SendBufferIsFull);
      }
      return error;
    }

    /** A request of the application, or the ping: queued unless the client is in an error state,
        the packer refuses it or it does not fit. */
    method Submit(q: Request, kind: Nibble, id: Option<PacketId>) returns (s: Status)
      requires Valid() && ValidRequest(q) && kind != PUBREC && SendableKind(kind)
      modifies this`error, this`history, this`dropped, mq`curr, mq`count, mq.mem, mq.slots
      ensures Valid() && Progressed() && error == s && (s.Ok? ==> old(error).Ok?)
      ensures Submitted(old(error), old(mq.Contents()), mq.Contents(), mq.mem.Length, PacketOf(q), kind, id, s)
    {
      hide PacketOf, ValidRequest, SendableKind, Submitted, Feeding, Kept, Later, Extended;
      ghost var ms, before := mq.Contents(), error;
      s := TryPack(q, kind, id);
      dropped := KeptSubmitted(log, history, dropped, before, ms, mq.Contents(), mq.mem.Length, PacketOf(q), kind, id,
                               s);
      history := Extended(history, dropped, mq.Contents());
    }

    /** An acknowledgement that answers a packet of the broker. */
    method Stage(kind: Nibble, n: U16) returns (s: Status)
      requires Shape() && PUBACK <= kind <= PUBCOMP
      modifies this`error, mq`curr, mq`count, mq.mem, mq.slots
      ensures Shape() && error == s && (s.Ok? ==> old(error).Ok?)
      ensures Staged(old(error), old(mq.Contents()), mq.Contents(), mq.mem.Length, kind, n, s)
    {
      hide TriedPacket, PackAck;
      s := TryPack(AckOf(kind, n), kind, Some(Id(n)));
    }

    // --------------------------------------------------------------------- the requests

    /** mqtt_publish: a fresh identifier goes into the packet and its descriptor. */
    method Publish(topic: seq<Byte>, message: seq<Byte>, flags: Byte) returns (s: Status, ghost id: PacketId)
      requires Valid() && |topic| < 0x1_0000 && SomeIdFree(mq.Contents())
      modifies this`pidLfsr, this`error, this`history, this`dropped, mq`curr, mq`count, mq.mem, mq.slots
      ensures Valid() && Progressed() && error == s && id == pidLfsr != 0 && !Carries(old(mq.Contents()), id)
      ensures Submitted(old(error), old(mq.Contents()), mq.Contents(), mq.mem.Length,
                        PackPublish(topic, Num(id), message, flags), PUBLISH, Some(id), s)
    {
      hide Submitted, Kept, Feeding, Later, Carries, PackPublish, Num;
      var pid := NextPid();
      id := pid;
      s := Submit(PublishOf(topic, Num(pid), message, flags), PUBLISH, Some(pid));
    }

    /** mqtt_subscribe */
    method Subscribe(topic: seq<Byte>, maxQos: Byte) returns (s: Status, ghost id: PacketId)
      requires Valid() && |topic| < 0x1_0000 && SomeIdFree(mq.Contents())
      modifies this`pidLfsr, this`error, this`history, this`dropped, mq`curr, mq`count, mq.mem, mq.slots
      ensures Valid() && Progressed() && error == s && id == pidLfsr != 0 && !Carries(old(mq.Contents()), id)
      ensures Submitted(old(error), old(mq.Contents()), mq.Contents(), mq.mem.Length,
                        PacketOf(Plain(SUBSCRIBE, 2, U16Bytes(Num(id)) + EncodeString(topic) + [maxQos])),
                        SUBSCRIBE, Some(id), s)
    {
      hide Submitted, Kept, Feeding, Later, Carries, PacketOf, EncodeString, Num;
      var pid := NextPid();
      id := pid;
      s := Submit(Plain(SUBSCRIBE, 2, U16Bytes(Num(pid)) + EncodeString(topic) + [maxQos]), SUBSCRIBE, Some(pid));
    }

    /** mqtt_unsubscribe */
    method Unsubscribe(topic: seq<Byte>) returns (s: Status, ghost id: PacketId)
      requires Valid() && |topic| < 0x1_0000 && SomeIdFree(mq.Contents())
      modifies this`pidLfsr, this`error, this`history, this`dropped, mq`curr, mq`count, mq.mem, mq.slots
      ensures Valid() && Progressed() && error == s && id == pidLfsr != 0 && !Carries(old(mq.Contents()), id)
      ensures Submitted(old(error), old(mq.Contents()), mq.Contents(), mq.mem.Length,
                        PacketOf(Plain(UNSUBSCRIBE, 2, U16Bytes(Num(id)) + EncodeString(topic))),
                        UNSUBSCRIBE, Some(id), s)
    {
      hide Submitted, Kept, Feeding, Later, Carries, PacketOf, EncodeString, Num;
      var pid := NextPid();
      id := pid;
      s := Submit(Plain(UNSUBSCRIBE, 2, U16Bytes(Num(pid)) + EncodeString(topic)), UNSUBSCRIBE, Some(pid));
    }

    /** mqtt_connect, given the contents of the packet */
    method Connect(body: seq<Byte>, keepAlive: nat) returns (s: Status)
      requires Valid()
      modifies this`keepAlive, this`error, this`history, this`dropped, mq`curr, mq`count, mq.mem, mq.slots
      ensures Valid() && Progressed() && error == s && this.keepAlive == keepAlive
      ensures Submitted(if old(error) == Failed(ConnectNotCalled) then Ok else old(error),
                        old(mq.Contents()), mq.Contents(), mq.mem.Length, PacketOf(Plain(CONNECT, 0, body)),
                        CONNECT, None, s)
    {
      hide Submitted, Kept, Feeding, Later, PacketOf;
      this.keepAlive := keepAlive;
      if error == Failed(ConnectNotCalled) {
        error := Ok;
      }
      s := Submit(Plain(CONNECT, 0, body), CONNECT, None);
    }

    /** __mqtt_ping */
    method Ping() returns (s: Status)
      requires Valid()
      modifies this`error, this`history, this`dropped, mq`curr, mq`count, mq.mem, mq.slots
      ensures Valid() && Progressed() && error == s && (s.Ok? ==> old(error).Ok?)
      ensures Submitted(old(error), old(mq.Contents()), mq.Contents(), mq.mem.Length,
                        PacketOf(Plain(PINGREQ, 0, [])), PINGREQ, None, s)
    {
      hide Submitted, Kept, Feeding, Later, PacketOf;
      s := Submit(Plain(PINGREQ, 0, []), PINGREQ, None);
    }

    /** mqtt_disconnect */
    method Disconnect() returns (s: Status)
      requires Valid()
      modifies this`error, this`history, this`dropped, mq`curr, mq`count, mq.mem, mq.slots
      ensures Valid() && Progressed() && error == s
      ensures Submitted(old(error), old(mq.Contents()), mq.Contents(), mq.mem.Length,
                        PacketOf(Plain(DISCONNECT, 0, [])), DISCONNECT, None, s)
    {
      hide Submitted, Kept, Feeding, Later, PacketOf;
      s := Submit(Plain(DISCONNECT, 0, []), DISCONNECT, None);
    }

    // ------------------------------------------------------- the packets of the broker

    /** mqtt_mq_find and `msg->state = MQTT_QUEUED_COMPLETE` */
    method Acknowledge(kind: Nibble, id: Wanted) returns (found: bool)
      requires Shape()
      modifies mq.slots
      ensures Shape() && found == Known(old(mq.Contents()), kind, id)
      ensures mq.Contents() == Acked(old(mq.Contents()), kind, id)
    {
      hide FirstMatch;
      var i := mq.Find(kind, id);
      FoundIsFirst(mq.Contents(), kind, id, i);
      if i < 0 {
        return false;
      }
      SlotFields(mq, i);
      mq.Update(i, mq.slots[i].(state := Complete));
      return true;
    }

    /** CONNACK, PUBACK, PUBCOMP, SUBACK, UNSUBACK and PINGRESP */
    method HandleAck(kind: Nibble, id: Wanted, refusal: Status) returns (s: Status)
      requires Valid() && kind != PUBREC
      modifies this`error, this`history, mq.slots
      ensures Valid() && Progressed() && error == (if s.Failed? then s else old(error))
      ensures AckAnswered(old(mq.Contents()), kind, id, mq.Contents(), refusal, s)
    {
      hide Known, Acked, Kept, Feeding, Later, Extended;
      KeptAcked(log, history, dropped, mq.Contents(), kind, id);
      var found := Acknowledge(kind, id);
      history := Extended(history, dropped, mq.Contents());
      s := if found then refusal else Failed(AckOfUnknown);
      if s.Failed? {
        error := s;
      }
    }

    /** PUBREC: unless its PUBREL is queued, the PUBLISH is complete and a PUBREL follows. */
    method HandlePubrec(n: U16) returns (s: Status)
      requires Valid()
      modifies this`error, this`history, this`dropped, mq`curr, mq`count, mq.mem, mq.slots
      ensures Valid() && Progressed() && error == (if s.Failed? then s else old(error)) && log == old(log)
      ensures AckPacketAnswered(old(error), old(mq.Contents()), log, PUBREC, n, mq.Contents(), log, mq.mem.Length, s)
    {
      hide Known, Acked, Kept, Feeding, Later, Extended, Staged, Id;
      ghost var ms, h := mq.Contents(), history;
      LaterRefl(history);
      var known := IsKnown(PUBREL, Id(n));
      if known {
        return Ok;
      }
      KeptAcked(log, history, dropped, ms, PUBLISH, Exactly(Id(n)));
      var found := Acknowledge(PUBLISH, Exactly(Id(n)));
      history := Extended(history, dropped, mq.Contents());
      ghost var h' := history;
      if !found {
        UnknownKept(ms, PUBLISH, Exactly(Id(n)));
        error := Failed(AckOfUnknown);
        return error;
      }
      s := StageKept(PUBREL, n);
      LaterTrans(h, h', history);
    }

    /** An acknowledgement other than a PUBREC goes into the queue. */
    method StageKept(kind: Nibble, n: U16) returns (s: Status)
      requires Valid() && PUBACK <= kind <= PUBCOMP && kind != PUBREC
      modifies this`error, this`history, this`dropped, mq`curr, mq`count, mq.mem, mq.slots
      ensures Valid() && Progressed() && error == s && (s.Ok? ==> old(error).Ok?) && log == old(log)
      ensures Staged(old(error), old(mq.Contents()), mq.Contents(), mq.mem.Length, kind, n, s)
    {
      hide Staged, Kept, Feeding, Later, Extended;
      ghost var ms, before := mq.Contents(), error;
      s := Stage(kind, n);
      dropped := KeptStaged(log, history, dropped, before, ms, mq.Contents(), mq.mem.Length, kind, n, s);
      history := Extended(history, dropped, mq.Contents());
    }

    method IsKnown(kind: Nibble, id: PacketId) returns (known: bool)
      requires Shape()
      ensures known == Known(mq.Contents(), kind, Exactly(id))
    {
      hide FirstMatch;
      var i := mq.Find(kind, Exactly(id));
      FoundIsFirst(mq.Contents(), kind, Exactly(id), i);
      return i >= 0;
    }

    /** PUBREL: the PUBREC is complete, which ends the exchange, and a PUBCOMP follows. */
    method HandlePubrel(n: U16) returns (s: Status)
      requires Valid()
      modifies this`error, this`log, this`history, this`dropped, mq`curr, mq`count, mq.mem, mq.slots
      ensures Valid() && Progressed() && error == (if s.Failed? then s else old(error))
      ensures AckPacketAnswered(old(error), old(mq.Contents()), old(log), PUBREL, n, mq.Contents(), log, mq.mem.Length,
                                s)
    {
      hide Known, Acked, Kept, Feeding, Later, Extended, Staged, Id;
      ghost var ms, h := mq.Contents(), history;
      LaterRefl(history);
      var found := Acknowledge(PUBREC, Exactly(Id(n)));
      if !found {
        UnknownKept(ms, PUBREC, Exactly(Id(n)));
        error := Failed(AckOfUnknown);
        return error;
      }
      KeptReleased(log, history, dropped, ms, Id(n));
      log := log + [Released(Id(n))];
      history := Extended(history, dropped, mq.Contents());
      ghost var h' := history;
      s := StageKept(PUBCOMP, n);
      LaterTrans(h, h', history);
    }

    /** PUBLISH: the acknowledgement, then the callback; a QoS 2 PUBLISH with a queued PUBREC is a
        duplicate. */
    method HandlePublish(qos: nat, n: U16) returns (s: Status)
      requires Valid()
      modifies this`error, this`log, this`history, this`dropped, mq`curr, mq`count, mq.mem, mq.slots
      ensures Valid() && Progressed() && error == (if s.Failed? then s else old(error))
      ensures PublishAnswered(old(error), old(mq.Contents()), old(log), qos, n, mq.Contents(), log, mq.mem.Length, s)
    {
      hide Kept, Feeding, Later, Extended, Staged, Id, NoPubrec, Known;
      LaterRefl(history);
      s := Ok;
      if qos == 1 {
        s := StageKept(PUBACK, n);
        if s.Failed? {
          return s;
        }
      } else if qos == 2 {
        s := HandleQos2(n);
        return s;
      }
      KeptOther(log, history, dropped, mq.Contents(), qos, Id(n));
      log := log + [Delivered(qos, Id(n))];
    }

    method HandleQos2(n: U16) returns (s: Status)
      requires Valid()
      modifies this`error, this`log, this`history, this`dropped, mq`curr, mq`count, mq.mem, mq.slots
      ensures Valid() && Progressed() && error == (if s.Failed? then s else old(error))
      ensures PublishAnswered(old(error), old(mq.Contents()), old(log), 2, n, mq.Contents(), log, mq.mem.Length, s)
    {
      hide Kept, Feeding, Later, Extended, Staged, Id, NoPubrec, Known;
      LaterRefl(history);
      ghost var ms, before := mq.Contents(), error;
      var known := IsKnown(PUBREC, Id(n));
      NoneKnown(ms, Id(n));
      if known {
        return Ok;
      }
      s := Stage(PUBREC, n);
      dropped := KeptPubrec(log, history, dropped, before, ms, mq.Contents(), mq.mem.Length, n, s);
      history := Extended(history, dropped, mq.Contents());
      if s.Ok? {
        log := log + [Delivered(2, Id(n))];
      }
    }

    /** The switch over the packets of the broker. */
    method HandleResponse(r: Response) returns (s: Status)
      requires Valid()
      modifies this`error, this`log, this`history, this`dropped, mq`curr, mq`count, mq.mem, mq.slots
      ensures Valid() && Progressed() && error == (if s.Failed? then s else old(error))
      ensures Answered(old(error), old(mq.Contents()), old(log), r, mq.Contents(), log, mq.mem.Length, s)
    {
      hide Kept, Feeding, Later, Id, AckAnswered, PublishAnswered;
      match r
      case Connack(_, code) => s := HandleAck(CONNECT, Any, ConnackStatus(code));
      case Publish(_, qos, _, _, n, _) => s := HandlePublish(qos, n);
      case BrokenPublish(qos) =>
        var n: U16 := *;
        s := HandlePublish(qos, n);
        BrokenIsAnswered(old(error), old(mq.Contents()), old(log), qos, n, mq.Contents(), log, mq.mem.Length, s);
      case Ack(kind, n) =>
        if kind == PUBACK {
          s := HandleAck(PUBLISH, Exactly(Id(n)), Ok);
        } else if kind == PUBREC {
          s := HandlePubrec(n);
        } else if kind == PUBREL {
          s := HandlePubrel(n);
        } else {
          s := HandleAck(PUBREL, Exactly(Id(n)), Ok);
        }
      case Suback(n, codes) => s := HandleAck(SUBSCRIBE, Exactly(Id(n)), SubackStatus(codes));
      case Unsuback(n) => s := HandleAck(UNSUBSCRIBE, Exactly(Id(n)), Ok);
      case Pingresp => s := HandleAck(PINGREQ, Any, Ok);
    }

    // ------------------------------------------------------------------- the receive pass

    /** mqtt_pal_recvall: any number of the octets on their way, as far as there is room, or an
        error. */
    method RecvAll(net: seq<Byte>) returns (r: Option<nat>)
      requires Valid()
      modifies this`received, this`stream, recvBuffer
      ensures Valid()
      ensures r.Some? ==>
        r.value <= |net| && stream == old(stream) + net[..r.value] && received == old(received) + r.value
      ensures r.None? ==> stream == old(stream) && received == old(received)
    {
      hide Kept, Feeding;
      if * {
        return None;
      }
      var n: nat :| n <= |net| && received + n <= recvBuffer.Length;
      ghost var before := recvBuffer[..received];
      FeedMore(stream, handled, consumed, before, net[..n]);
      CopyInto(recvBuffer, received, net[..n]);
      assert recvBuffer[..received] == before;
      assert recvBuffer[..received + n] == before + recvBuffer[received..received + n];
      received := received + n;
      stream := stream + net[..n];
      return Some(n);
    }

    /** The memmove that removes a handled packet from the buffer. */
    method DropPacket(ghost r: Response, n: nat)
      requires Valid() && ParseResponse(recvBuffer[..received]) == Got(r, n)
      modifies this`received, this`handled, this`consumed, recvBuffer
      ensures Valid() && received < old(received) && handled == old(handled) + [r]
    {
      hide Kept, Feeding, ParseResponse;
      ghost var buffer := recvBuffer[..received];
      FeedTaken(stream, handled, consumed, buffer, r, n);
      MoveDown(recvBuffer, n, received - n);
      received := received - n;
      handled := handled + [r];
      consumed := consumed + n;
      assert recvBuffer[..received] == buffer[n..];
    }

    /** `client->error = e; return e` */
    method Fail(e: ClientError) returns (s: Status)
      modifies this`error
      ensures s == Failed(e) == error
    {
      error := Failed(e);
      return error;
    }

    /** One turn of the loop of __mqtt_recv; `more` tells whether a packet has been handled well. */
    method RecvStep(net: seq<Byte>) returns (s: Status, rest: seq<Byte>, more: bool)
      requires Valid()
      modifies this`received, this`stream, this`handled, this`consumed, recvBuffer
      modifies this`error, this`log, this`history, this`dropped, mq`curr, mq`count, mq.mem, mq.slots
      ensures Valid() && Progressed() && stream + rest == old(stream) + net && old(handled) <= handled
      ensures error == (if s.Failed? then s else old(error))
      ensures more ==> s.Ok? && |rest| + received < |net| + old(received)
      ensures !more && s.Ok? ==> ParseResponse(recvBuffer[..received]).Wait?
      ensures old(error).Ok? ==> ErrorExplained(s, recvBuffer[..received], recvBuffer.Length)
    {
      hide Kept, Feeding, Later, ParseResponse, Answered;
      rest, more := net, false;
      LaterRefl(history);
      ghost var before := stream;
      var rv := RecvAll(net);
      if rv.None? {
        s := Fail(SocketFailure);
        return s, rest, false;
      }
      assert before + net == before + net[..rv.value] + net[rv.value..];
      rest := net[rv.value..];
      var p := UnpackResponse(recvBuffer, received);
      match p
      case Fail(e) => s := Fail(Codec(e));
      case Wait =>
        s := Ok;
        if received == recvBuffer.Length {
          s := Fail(RecvBufferTooSmall);
        }
      case Got(r, n) =>
        s := Handle(r, n);
        more := s.Ok?;
    }

    /** The packet at the front of the buffer is answered and removed. */
    method Handle(r: Response, n: nat) returns (s: Status)
      requires Valid() && ParseResponse(recvBuffer[..received]) == Got(r, n)
      modifies this`received, this`handled, this`consumed, recvBuffer
      modifies this`error, this`log, this`history, this`dropped, mq`curr, mq`count, mq.mem, mq.slots
      ensures Valid() && Progressed() && received < old(received) && handled == old(handled) + [r]
      ensures error == (if s.Failed? then s else old(error)) && (old(error).Ok? ==> !ReceiveError(s))
      ensures Answered(old(error), old(mq.Contents()), old(log), r, mq.Contents(), log, mq.mem.Length, s)
    {
      hide Kept, Feeding, Later, ParseResponse, Answered, ReceiveError;
      ghost var before, ms, l := error, mq.Contents(), log;
      s := HandleResponse(r);
      if before.Ok? {
        AnswersRaiseNone(ms, l, r, mq.Contents(), log, mq.mem.Length, s);
      }
      DropPacket(r, n);
    }

    /** __mqtt_recv: `net` is what the socket delivers until it would block, in pieces of any
        size.  When the pass ends well, the packets handled since the start are those of the whole
        stream. */
    method Recv(net: seq<Byte>) returns (s: Status, rest: seq<Byte>)
      requires Valid()
      modifies this`received, this`stream, this`handled, this`consumed, recvBuffer
      modifies this`error, this`log, this`history, this`dropped, mq`curr, mq`count, mq.mem, mq.slots
      ensures Valid() && Progressed() && stream + rest == old(stream) + net
      ensures old(handled) <= handled <= Packets(stream)
      ensures s.Ok? ==> handled == Packets(stream) && recvBuffer[..received] == Unread(stream)
      ensures error == (if s.Failed? then s else old(error))
      ensures old(error).Ok? ==> ErrorExplained(s, recvBuffer[..received], recvBuffer.Length)
      ensures old(error).Ok? && AllFit(old(stream) + net, recvBuffer.Length) ==> s != Failed(RecvBufferTooSmall)
    {
      hide Kept, Feeding, Later, ParseResponse, Packets, Unread, ErrorExplained, AllFit;
      rest := net;
      var more := true;
      LaterRefl(history);
      OkExplained(recvBuffer[..received], recvBuffer.Length);
      s := Ok;
      while more
        invariant Valid() && Progressed() && stream + rest == old(stream) + net
        invariant old(handled) <= handled && error == (if s.Failed? then s else old(error))
        invariant more ==> s.Ok?
        invariant !more && s.Ok? ==> ParseResponse(recvBuffer[..received]).Wait?
        invariant old(error).Ok? ==> ErrorExplained(s, recvBuffer[..received], recvBuffer.Length)
        decreases more, |rest| + received
      {
        ghost var h := history;
        s, rest, more := RecvStep(rest);
        LaterTrans(old(history), h, history);
      }
      FeedWaits(stream, handled, consumed, recvBuffer[..received]);
      if old(error).Ok? {
        FitNeverTooSmall(stream, handled, consumed, recvBuffer[..received], rest, recvBuffer.Length, s);
      }
    }

    // ---------------------------------------------------------------------- the send pass

    ghost function Accounts(): Books
      reads this
    {
      Books(sendOffset, numberOfTimeouts, timeOfLastSend)
    }

    /** The bookkeeping after message i has been sent: time, state and DUP flag. */
    method MarkSent(i: nat, time: nat)
      requires Shape() && i < mq.count
      modifies mq.mem, mq.slots
      ensures Shape() && mq.Contents() == old(mq.Contents())[i := Sent(old(mq.Contents())[i], time)]
    {
      hide WithDup, Layout;
      ghost var m := mq.Contents()[i];
      SlotFields(mq, i);
      FirstOctet(mq, i);
      var d := mq.slots[i];
      var first := mq.mem[d.start];
      var qos := first / 2 % 4;
      var state := Awaiting;
      if d.controlType == PUBACK || d.controlType == PUBCOMP || d.controlType == DISCONNECT {
        state := Complete;
      } else if d.controlType == PUBLISH && qos == 0 {
        state := Complete;
      }
      mq.Update(i, d.(timeSent := time, state := state));
      if d.controlType == PUBLISH && qos == 1 {
        mq.SetFirstOctet(i, WithDup(first));
      }
    }

    /** Whether message i is to be sent; a timeout starts it anew. */
    method Inspect(i: nat, now: nat, inflight: bool) returns (resend: bool, inflight': bool)
      requires Shape() && i < mq.count
      modifies this`sendOffset, this`numberOfTimeouts
      ensures var m := mq.Contents()[i]; var timed := TimedOut(m, now, responseTimeout);
        && resend == ((m.state.Unsent? || timed) && !(IsQos2(m) && inflight))
        && inflight' == (inflight || (IsQos2(m) && !m.state.Complete?))
        && sendOffset == (if timed then 0 else old(sendOffset))
        && numberOfTimeouts == old(numberOfTimeouts) + (if timed then 1 else 0)
    {
      hide Layout, View;
      SlotFields(mq, i);
      FirstOctet(mq, i);
      var d := mq.slots[i];
      resend, inflight' := false, inflight;
      if d.state.Unsent? {
        resend := true;
      } else if d.state.Awaiting? {
        if now > d.timeSent + responseTimeout {
          resend := true;
          numberOfTimeouts := numberOfTimeouts + 1;
          sendOffset := 0;
        }
      }
      if d.controlType == PUBLISH && (d.state.Unsent? || d.state.Awaiting?) {
        if mq.mem[d.start] / 2 % 4 == 2 {
          if inflight {
            resend := false;
          }
          inflight' := true;
        }
      }
    }

    /** Message i has been sent completely. */
    method FinishSend(i: nat, time: nat)
      requires Valid() && MaySend(mq.Contents(), i)
      modifies this`history, this`timeOfLastSend, mq.mem, mq.slots
      ensures Valid() && Progressed() && timeOfLastSend == time
      ensures mq.Contents() == old(mq.Contents())[i := Sent(old(mq.Contents())[i], time)]
    {
      hide Kept, Feeding, Later, Extended, Sent;
      timeOfLastSend := time;
      KeptSent(log, history, dropped, mq.Contents(), i, time);
      MarkSent(i, time);
      history := Extended(history, dropped, mq.Contents());
    }

    /** One turn of the loop of __mqtt_send. */
    method SendTurn(i: nat, t: Tick, inflight: bool) returns (turn: Turn, inflight': bool)
      requires Valid() && i < mq.count && (Qos2Before(mq.Contents(), i) ==> inflight)
      modifies this`error, this`history, this`sendOffset, this`numberOfTimeouts, this`timeOfLastSend, mq.mem, mq.slots
      ensures Valid() && Progressed() && mq.count == old(mq.count)
      ensures TurnResult(old(mq.Contents()), i, t, responseTimeout, inflight, old(Accounts()),
                         turn, inflight', Accounts(), mq.Contents())
      ensures error == (if turn.Broken? then Failed(SocketFailure) else old(error))
    {
      hide Kept, Feeding, Later, Sent, Qos2Before, IsQos2;
      ghost var ms := mq.Contents();
      LaterRefl(history);
      SlotFields(mq, i);
      var resend;
      resend, inflight' := Inspect(i, t.now, inflight);
      turn := Next;
      if resend {
        if t.accepted < 0 {
          error := Failed(SocketFailure);
          return Broken, inflight';
        }
        sendOffset := sendOffset + t.accepted;
        if sendOffset < mq.slots[i].size {
          return Partial, inflight';
        }
        sendOffset := 0;
        DueMaySend(log, history, dropped, ms, i, inflight);
        FinishSend(i, t.sent);
      }
    }

    /** The loop of __mqtt_send over the queue. */
    method SendPass(env: seq<Tick>) returns (broken: bool, ghost k: nat)
      requires Valid() && |env| >= mq.count
      modifies this`error, this`history, this`sendOffset, this`numberOfTimeouts, this`timeOfLastSend, mq.mem, mq.slots
      ensures Valid() && Progressed()
      ensures PassResult(old(mq.Contents()), env, responseTimeout, old(Accounts()), k, Accounts(), mq.Contents(),
                         broken)
      ensures error == (if broken then Failed(SocketFailure) else old(error))
    {
      hide Kept, Feeding, Later, Passed, TurnResult, Qos2Before, TimedOut, Due, TakesAll;
      ghost var ms, start := mq.Contents(), Accounts();
      LaterRefl(history);
      PassStart(ms, env, responseTimeout, start);
      var inflight := false;
      var i := 0;
      k := 0;
      while i < mq.count
        invariant Valid() && Progressed() && 0 <= i <= mq.count == |ms| && k == i
        invariant Passed(ms, env, responseTimeout, start, i, mq.Contents())
        invariant Accounts() == BooksAt(ms, env, responseTimeout, start, i)
        invariant inflight == Qos2Before(ms, i) && error == old(error)
      {
        ghost var h, cur, b := history, mq.Contents(), Accounts();
        Qos2Same(ms, env, responseTimeout, start, i, cur);
        var turn;
        turn, inflight := SendTurn(i, env[i], inflight);
        LaterTrans(old(history), h, history);
        PassNext(ms, env, responseTimeout, start, i, cur, b, turn, inflight, Accounts(), mq.Contents());
        if turn.Broken? {
          return true, k;
        }
        if turn.Partial? {
          return false, k;
        }
        i := i + 1;
        k := i;
      }
      return false, k;
    }

    /** The keep-alive check at the end of __mqtt_send. */
    method KeepAlive(now: nat) returns (s: Status)
      requires Valid()
      modifies this`error, this`history, this`dropped, mq`curr, mq`count, mq.mem, mq.slots
      ensures Valid() && Progressed() && error == if s.Failed? then s else old(error)
      ensures PingResult(old(error), old(mq.Contents()), mq.Contents(), mq.mem.Length,
                         now > timeOfLastSend + keepAlive * 3 / 4, s)
    {
      hide Kept, Feeding, Later, Submitted, PacketOf;
      LaterRefl(history);
      s := Ok;
      if now > timeOfLastSend + keepAlive * 3 / 4 {
        s := Ping();
      }
    }

    /** __mqtt_send, with `now` the time of the keep-alive check: the pass over the queue, then a
        ping if nothing has been sent for three quarters of the keep-alive time. */
    method Send(env: seq<Tick>, now: nat) returns (s: Status, ghost k: nat)
      requires Valid() && |env| >= mq.count
      modifies this`error, this`history, this`dropped, this`sendOffset, this`numberOfTimeouts, this`timeOfLastSend
      modifies mq`curr, mq`count, mq.mem, mq.slots
      ensures Valid() && Progressed()
      ensures SendResult(old(error), old(mq.Contents()), mq.Contents(), mq.mem.Length, env, now, responseTimeout,
                         keepAlive,
                         old(Accounts()), Accounts(), k, s)
      ensures error == if s.Failed? then s else old(error)
    {
      hide Kept, Feeding, Later, PassResult, PingResult;
      LaterRefl(history);
      k := 0;
      if error.Failed? && error != Failed(SendBufferIsFull) {
        return error, k;
      }
      ghost var ms, start, before := mq.Contents(), Accounts(), error;
      var broken;
      broken, k := SendPass(env);
      if broken {
        return error, k;
      }
      ghost var h, mid := history, mq.Contents();
      s := KeepAlive(now);
      LaterTrans(old(history), h, history);
      SendEnds(before, ms, mid, mq.Contents(), mq.mem.Length, env, now, responseTimeout, keepAlive, start, Accounts(),
               k, s);
    }

    // ------------------------------------------------------------------------ mqtt_sync

    /** mqtt_reconnect: the next mqtt_sync still sends the DISCONNECT. */
    method Reconnect() returns (s: Status)
      requires Valid()
      modifies this`error, this`history, this`dropped, mq`curr, mq`count, mq.mem, mq.slots
      ensures Valid() && Progressed() && error == if s.Ok? then Failed(Reconnecting) else s
      ensures Submitted(old(error), old(mq.Contents()), mq.Contents(), mq.mem.Length,
                        PacketOf(Plain(DISCONNECT, 0, [])), DISCONNECT, None, s)
    {
      hide Submitted, Kept, Feeding, Later, PacketOf;
      s := Disconnect();
      if s.Ok? {
        error := Failed(Reconnecting);
      }
    }

    /** mqtt_sync without callbacks: a receive pass, then, if it ended well (`through`), a send pass over
        the queue `mid` that it left. */
    method Sync(net: seq<Byte>, env: seq<Tick>, now: nat)
      returns (s: Status, rest: seq<Byte>, ghost through: bool, ghost mid: seq<Message>, ghost k: nat)
      requires Valid() && |env| >= mq.slots.Length
      modifies this`received, this`stream, this`handled, this`consumed, recvBuffer
      modifies this`error, this`log, this`history, this`dropped
      modifies this`sendOffset, this`numberOfTimeouts, this`timeOfLastSend
      modifies mq`curr, mq`count, mq.mem, mq.slots
      ensures Valid() && Progressed() && stream + rest == old(stream) + net
      ensures old(handled) <= handled <= Packets(stream)
      ensures through ==> handled == Packets(stream) && recvBuffer[..received] == Unread(stream)
      ensures if through then
          && |mid| <= |env|
          && SendResult(Resumed(old(error)), mid, mq.Contents(), mq.mem.Length, env, now, responseTimeout, keepAlive,
                        old(Accounts()), Accounts(), k, s)
        else s.Failed? && mq.Contents() == mid && Accounts() == old(Accounts())
      ensures error == if s.Failed? then s else Resumed(old(error))
    {
      hide Kept, Feeding, Later, Packets, Unread, SendResult, ErrorExplained;
      LaterRefl(history);
      if error == Failed(Reconnecting) {
        error := Ok;
      }
      s, rest := Recv(net);
      through, mid, k := s.Ok?, mq.Contents(), 0;
      if s.Ok? {
        ghost var h := history;
        s, k := Send(env, now);
        LaterTrans(old(history), h, history);
      }
    }
  }
}
