/** What a send pass and the packets of the broker do to the queue of the MQTT client, message by
    message and octet by octet (mqtt.c, __mqtt_send and __mqtt_recv). */
module MqttEffects {
  import opened Limbs
  import opened Memory
  import opened MqttPid
  import opened MqttCodec
  import opened MqttQueue
  import opened MqttRoom
  import opened MqttOctets
  import opened MqttProtocol
  import opened MqttSteps

  // -------------------------------------------------------------------- the send pass

  /** The message is a PUBLISH with quality of service 1. */
  predicate AtLeastOnce(m: Message) {
    m.controlType == 3 && |m.bytes| > 0 && m.bytes[0] / 2 % 4 == 1
  }

  /** A message that has been sent whole: the time is noted; a PUBLISH of quality of service 1 carries
      the DUP flag from now on, and nothing else in it has changed; all other octets are as they were.
      What expects no answer is complete, what expects one awaits it. */
  predicate SentWhole(m: Message, time: nat, m': Message) {
    && m'.controlType == m.controlType && m'.packetId == m.packetId && m'.timeSent == time
    && (if AtLeastOnce(m) then
          && |m'.bytes| == |m.bytes| && m'.bytes[1..] == m.bytes[1..]
          && m'.bytes[0] / 8 % 2 == 1
          && m'.bytes[0] / 16 == m.bytes[0] / 16 && m'.bytes[0] % 8 == m.bytes[0] % 8
        else m'.bytes == m.bytes)
    && (m.controlType in {4, 7, 14} ==> m'.state == Complete)
    && (m.controlType in {1, 5, 6, 8, 10, 12} ==> m'.state == Awaiting)
    && (m.controlType == 3 && |m.bytes| > 0 ==>
          m'.state == if m.bytes[0] / 2 % 4 == 0 then Complete else Awaiting)
  }

  lemma SentIsWhole(m: Message, time: nat)
    ensures SentWhole(m, time, Sent(m, time))
  {
    if |m.bytes| > 0 {
      DupKeeps(m.bytes[0]);
      DupSet(m.bytes[0]);
    }
  }

  lemma DupSet(octet: Byte)
    ensures WithDup(octet) / 8 % 2 == 1
  {
    var x: int := octet;
    DivModFacts(x, 8);
    DivModFacts(x / 8, 2);
    if x / 8 % 2 == 0 {
      DivModUnique(x + 8, 8, x / 8 + 1, x % 8);
      DivModUnique(x / 8 + 1, 2, x / 8 / 2, 1);
    }
  }

  /** A QoS 2 PUBLISH before message i is not complete. */
  ghost predicate Blocked(ms: seq<Message>, i: nat)
    requires i <= |ms|
  {
    exists j :: 0 <= j < i && ms[j].controlType == 3 && |ms[j].bytes| > 0 && ms[j].bytes[0] / 2 % 4 == 2
                && ms[j].state != Complete
  }

  /** Message i is to be sent: it has not been, or its answer is overdue; and it is no QoS 2 PUBLISH
      behind one that is not complete. */
  ghost predicate ToSend(ms: seq<Message>, i: nat, now: nat, timeout: nat)
    requires i < |ms|
  {
    && (ms[i].state == Unsent || (ms[i].state == Awaiting && now > ms[i].timeSent + timeout))
    && !(ms[i].controlType == 3 && |ms[i].bytes| > 0 && ms[i].bytes[0] / 2 % 4 == 2 && Blocked(ms, i))
  }

  lemma DueIsToSend(ms: seq<Message>, i: nat, now: nat, timeout: nat)
    requires i < |ms|
    ensures Due(ms, i, now, timeout) <==> ToSend(ms, i, now, timeout)
  {
    forall j | 0 <= j < i
      ensures (IsQos2(ms[j]) && !ms[j].state.Complete?) <==>
        (ms[j].controlType == 3 && |ms[j].bytes| > 0 && ms[j].bytes[0] / 2 % 4 == 2 && ms[j].state != Complete)
    {
    }
    assert Qos2Before(ms, i) <==> Blocked(ms, i);
  }

  /** The queue that a pass leaves: of the first k messages, those to be sent have been sent whole; all
      others are as they were. */
  lemma PassLeaves(ms: seq<Message>, env: seq<Tick>, timeout: nat, start: Books, k: nat, end: Books,
                   ms': seq<Message>, broken: bool)
    requires |ms| <= |env| && PassResult(ms, env, timeout, start, k, end, ms', broken)
    ensures k <= |ms| == |ms'|
    ensures forall i :: 0 <= i < k && ToSend(ms, i, env[i].now, timeout) ==> SentWhole(ms[i], env[i].sent, ms'[i])
    ensures forall i :: 0 <= i < |ms| && (i >= k || !ToSend(ms, i, env[i].now, timeout)) ==> ms'[i] == ms[i]
    ensures k < |ms| ==> ToSend(ms, k, env[k].now, timeout)
  {
    hide Due, ToSend, TakesAll, Sent, SentWhole;
    forall i | 0 <= i < |ms|
      ensures i < k && ToSend(ms, i, env[i].now, timeout) ==> SentWhole(ms[i], env[i].sent, ms'[i])
      ensures i >= k || !ToSend(ms, i, env[i].now, timeout) ==> ms'[i] == ms[i]
    {
      DueIsToSend(ms, i, env[i].now, timeout);
      if i < k {
        assert PassedOne(ms, env, timeout, start, i, ms'[i]);
        SentIsWhole(ms[i], env[i].sent);
      }
    }
    if k < |ms| {
      DueIsToSend(ms, k, env[k].now, timeout);
    }
  }

  // -------------------------------------------------------------------- queuing a packet

  /** An attempt to queue a packet of these octets: refused in an error state; else it stands behind
      the queue, cleaned if there was no room, or there is none even then. */
  predicate MessageQueued(before: Status, ms: seq<Message>, len: nat, bytes: seq<Byte>, kind: nat,
                          id: Option<PacketId>, ms': seq<Message>, s: Status) {
    var base := if |bytes| <= Room(ms, len) then ms else Cleaned(ms);
    if before != Ok then s == before && ms' == ms
    else if |bytes| <= Room(base, len) then
      && s == Ok && |ms'| == |base| + 1 && ms'[..|base|] == base
      && ms'[|base|].bytes == bytes && ms'[|base|].state == Unsent && ms'[|base|].controlType == kind
      && (id.Some? ==> ms'[|base|].packetId == id.value)
    else s == Failed(SendBufferIsFull) && ms' == base
  }

  /** MQTT_CLIENT_TRY_PACK: a packet is queued; what the packer refuses becomes the error of the client,
      but a packet that is too long counts as a lack of room while there is no room at all. */
  lemma SubmitEffect(before: Status, ms: seq<Message>, ms': seq<Message>, len: nat, p: Packed, kind: Nibble,
                     id: Option<PacketId>, s: Status)
    requires Submitted(before, ms, ms', len, p, kind, id, s)
    ensures p.Packet? ==> MessageQueued(before, ms, len, p.bytes, kind, id, ms', s)
    ensures p.PackError? && before != Ok ==> s == before && ms' == ms
    ensures p.PackError? && before == Ok ==>
      if p.error == InvalidRemainingLength && Room(ms, len) == 0 then
        && ms' == Cleaned(ms)
        && s == if Room(ms', len) == 0 then Failed(SendBufferIsFull) else Failed(Codec(p.error))
      else ms' == ms && s == Failed(Codec(p.error))
  {
    hide Room, Cleaned;
  }

  /** __mqtt_send: nothing in an error state other than a full send buffer. Else a pass, which ends with
      a socket error or is followed by a ping exactly if the last complete send is more than three
      quarters of the keep-alive time ago. */
  lemma SendEffect(before: Status, ms: seq<Message>, ms': seq<Message>, len: nat, env: seq<Tick>, now: nat,
                   timeout: nat, keepAlive: nat, start: Books, end: Books, k: nat, s: Status)
    requires |ms| <= |env| && SendResult(before, ms, ms', len, env, now, timeout, keepAlive, start, end, k, s)
    ensures before != Ok && before != Failed(SendBufferIsFull) ==> s == before && ms' == ms && end == start
    ensures before == Ok || before == Failed(SendBufferIsFull) ==>
      if s == Failed(SocketFailure) then PassResult(ms, env, timeout, start, k, end, ms', true)
      else exists mid :: PassResult(ms, env, timeout, start, k, end, mid, false) &&
             if 4 * (now - end.lastSend) > 3 * keepAlive
             then MessageQueued(before, mid, len, [0xC0, 0], 12, None, ms', s)
             else ms' == mid && s == Ok
  {
    hide PassResult, Submitted, MessageQueued, PacketOf;
    if (before == Ok || before == Failed(SendBufferIsFull)) && !PassResult(ms, env, timeout, start, k, end, ms', true) {
      var due := now > end.lastSend + keepAlive * 3 / 4;
      var mid :| PassResult(ms, env, timeout, start, k, end, mid, false) && PingResult(before, mid, ms', len, due, s);
      assert due <==> 4 * (now - end.lastSend) > 3 * keepAlive;
      PingIs(before, mid, ms', len, s);
    }
  }

  lemma PingIs(before: Status, ms: seq<Message>, ms': seq<Message>, len: nat, s: Status)
    requires before == Ok || before == Failed(SendBufferIsFull)
    ensures Submitted(before, ms, ms', len, PacketOf(Plain(PINGREQ, 0, [])), PINGREQ, None, s)
      ==> MessageQueued(before, ms, len, [0xC0, 0], 12, None, ms', s)
    ensures MessageQueued(before, ms, len, [0xC0, 0], 12, None, ms', s) ==> s != Failed(SocketFailure)
  {
    hide Room, Cleaned, PacketOf, Submitted;
    PlainSent(12, []);
    ShortLength(0);
    assert [0xC0] + [0] + [] == [0xC0, 0];
    if Submitted(before, ms, ms', len, Packet([0xC0, 0]), PINGREQ, None, s) {
      SubmitEffect(before, ms, ms', len, Packet([0xC0, 0]), PINGREQ, None, s);
    }
  }

  // ------------------------------------------------------------- the packets of the broker

  /** The first message of the type with the identifier is completed. */
  ghost predicate CompletesById(ms: seq<Message>, kind: nat, n: U16, ms': seq<Message>) {
    exists i :: 0 <= i < |ms| && ms[i].controlType == kind && ms[i].packetId == Id(n)
      && (forall j :: 0 <= j < i ==> !(ms[j].controlType == kind && ms[j].packetId == Id(n)))
      && ms' == ms[i := ms[i].(state := Complete)]
  }

  predicate NoneWithId(ms: seq<Message>, kind: nat, n: U16) {
    forall i :: 0 <= i < |ms| ==> !(ms[i].controlType == kind && ms[i].packetId == Id(n))
  }

  /** The first message of the type that is not complete is completed. */
  ghost predicate CompletesFirst(ms: seq<Message>, kind: nat, ms': seq<Message>) {
    exists i :: 0 <= i < |ms| && ms[i].controlType == kind && ms[i].state != Complete
      && (forall j :: 0 <= j < i ==> !(ms[j].controlType == kind && ms[j].state != Complete))
      && ms' == ms[i := ms[i].(state := Complete)]
  }

  predicate NoneWaiting(ms: seq<Message>, kind: nat) {
    forall i :: 0 <= i < |ms| ==> !(ms[i].controlType == kind && ms[i].state != Complete)
  }

  lemma AckedById(ms: seq<Message>, kind: Nibble, n: U16)
    ensures if Known(ms, kind, Exactly(Id(n))) then CompletesById(ms, kind, n, Acked(ms, kind, Exactly(Id(n))))
            else NoneWithId(ms, kind, n) && Acked(ms, kind, Exactly(Id(n))) == ms
  {
    hide FirstMatch, Id;
    forall i | 0 <= i < |ms|
      ensures Matches(ms[i], kind, Exactly(Id(n))) <==> ms[i].controlType == kind && ms[i].packetId == Id(n)
    {
    }
    var i := FirstMatch(ms, kind, Exactly(Id(n)));
    assert forall j :: 0 <= j < i ==> !Matches(ms[j], kind, Exactly(Id(n)));
  }

  lemma AckedFirst(ms: seq<Message>, kind: Nibble)
    ensures if Known(ms, kind, Any) then CompletesFirst(ms, kind, Acked(ms, kind, Any))
            else NoneWaiting(ms, kind) && Acked(ms, kind, Any) == ms
  {
    hide FirstMatch;
    forall i | 0 <= i < |ms|
      ensures Matches(ms[i], kind, Any) <==> ms[i].controlType == kind && ms[i].state != Complete
    {
    }
    var i := FirstMatch(ms, kind, Any);
    assert forall j :: 0 <= j < i ==> !Matches(ms[j], kind, Any);
  }

  /** CONNACK and PINGRESP */
  lemma ConnackEffect(before: Status, ms: seq<Message>, log: seq<Event>, session: bool, code: nat,
                      ms': seq<Message>, log': seq<Event>, len: nat, s: Status)
    requires Answered(before, ms, log, Connack(session, code), ms', log', len, s)
    ensures log' == log
    ensures if NoneWaiting(ms, 1) then ms' == ms && s == Failed(AckOfUnknown)
            else CompletesFirst(ms, 1, ms') && s == if code == 0 then Ok
                                                    else if code == 2 then Failed(ClientIdRefused)
                                                    else Failed(ConnectionRefused)
  {
    hide Known, Acked, FirstMatch;
    AckedFirst(ms, 1);
    CompletesOne(ms, 1, ms');
  }

  lemma CompletesOne(ms: seq<Message>, kind: nat, ms': seq<Message>)
    ensures CompletesFirst(ms, kind, ms') ==> !NoneWaiting(ms, kind)
  {
  }

  lemma CompletesSome(ms: seq<Message>, kind: nat, n: U16, ms': seq<Message>)
    ensures CompletesById(ms, kind, n, ms') ==> !NoneWithId(ms, kind, n)
  {
  }

  lemma PingrespEffect(before: Status, ms: seq<Message>, log: seq<Event>, ms': seq<Message>, log': seq<Event>,
                       len: nat, s: Status)
    requires Answered(before, ms, log, Pingresp, ms', log', len, s)
    ensures log' == log
    ensures if NoneWaiting(ms, 12) then ms' == ms && s == Failed(AckOfUnknown)
            else CompletesFirst(ms, 12, ms') && s == Ok
  {
    hide Known, Acked, FirstMatch;
    AckedFirst(ms, 12);
    CompletesOne(ms, 12, ms');
  }

  /** SUBACK: the subscription has failed exactly if the first code is 0x80. */
  lemma SubackEffect(before: Status, ms: seq<Message>, log: seq<Event>, n: U16, codes: seq<Byte>,
                     ms': seq<Message>, log': seq<Event>, len: nat, s: Status)
    requires Answered(before, ms, log, Suback(n, codes), ms', log', len, s) && |codes| > 0
    ensures log' == log
    ensures if NoneWithId(ms, 8, n) then ms' == ms && s == Failed(AckOfUnknown)
            else CompletesById(ms, 8, n, ms') && s == if codes[0] == 0x80 then Failed(SubscribeFailed) else Ok
  {
    hide Known, Acked, FirstMatch, Id;
    AckedById(ms, 8, n);
    CompletesSome(ms, 8, n, ms');
  }

  lemma UnsubackEffect(before: Status, ms: seq<Message>, log: seq<Event>, n: U16,
                       ms': seq<Message>, log': seq<Event>, len: nat, s: Status)
    requires Answered(before, ms, log, Unsuback(n), ms', log', len, s)
    ensures log' == log
    ensures if NoneWithId(ms, 10, n) then ms' == ms && s == Failed(AckOfUnknown)
            else CompletesById(ms, 10, n, ms') && s == Ok
  {
    hide Known, Acked, FirstMatch, Id;
    AckedById(ms, 10, n);
    CompletesSome(ms, 10, n, ms');
  }

  /** PUBACK completes a PUBLISH, PUBCOMP a PUBREL. */
  lemma PubackEffect(before: Status, ms: seq<Message>, log: seq<Event>, kind: Nibble, n: U16,
                     ms': seq<Message>, log': seq<Event>, len: nat, s: Status)
    requires kind in {4, 7} && Answered(before, ms, log, Ack(kind, n), ms', log', len, s)
    ensures log' == log
    ensures var done := if kind == 4 then 3 else 6;
      if NoneWithId(ms, done, n) then ms' == ms && s == Failed(AckOfUnknown)
      else CompletesById(ms, done, n, ms') && s == Ok
  {
    hide Known, Acked, FirstMatch, Id;
    var done := if kind == 4 then 3 else 6;
    AckedById(ms, done, n);
    CompletesSome(ms, done, n, ms');
  }

  /** An answer of four octets is queued. */
  predicate AnswerQueued(before: Status, ms: seq<Message>, len: nat, first: Byte, n: U16, ms': seq<Message>,
                         s: Status) {
    MessageQueued(before, ms, len, [first, 2, n / 256, n % 256], first / 16, Some(Id(n)), ms', s)
  }

  lemma StagedIs(before: Status, ms: seq<Message>, ms': seq<Message>, len: nat, kind: Nibble, n: U16, s: Status)
    requires 4 <= kind <= 7 && Staged(before, ms, ms', len, kind, n, s)
    ensures AnswerQueued(before, ms, len, if kind == 6 then 0x62 else 16 * kind, n, ms', s)
  {
    hide Room, Cleaned, PackAck, Id;
    AckSent(kind, n);
  }

  /** PUBLISH: by its quality of service it is answered with a PUBACK or a PUBREC, and handed over unless
      that was refused or, for quality of service 2, a PUBREC with its identifier is in the queue. */
  lemma PublishEffect(before: Status, ms: seq<Message>, log: seq<Event>, r: Response, ms': seq<Message>,
                      log': seq<Event>, len: nat, s: Status)
    requires r.Publish? && Answered(before, ms, log, r, ms', log', len, s)
    ensures log' == if s != Ok || (r.qos == 2 && !NoneWithId(ms, 5, r.id)) then log
                    else log + [Delivered(r.qos, Id(r.id))]
    ensures r.qos == 1 ==> AnswerQueued(before, ms, len, 0x40, r.id, ms', s)
    ensures r.qos == 2 && NoneWithId(ms, 5, r.id) ==> AnswerQueued(before, ms, len, 0x50, r.id, ms', s)
    ensures r.qos != 1 && !(r.qos == 2 && NoneWithId(ms, 5, r.id)) ==> ms' == ms && s == Ok
  {
    hide Staged, AnswerQueued, Id;
    forall i | 0 <= i < |ms|
      ensures IsPubrec(ms, i, Id(r.id)) <==> ms[i].controlType == 5 && ms[i].packetId == Id(r.id)
    {
    }
    assert NoPubrec(ms, Id(r.id)) <==> NoneWithId(ms, 5, r.id);
    if r.qos == 1 {
      StagedIs(before, ms, ms', len, 4, r.id, s);
    } else if r.qos == 2 && NoneWithId(ms, 5, r.id) {
      StagedIs(before, ms, ms', len, 5, r.id, s);
    }
  }

  /** PUBREC: unless a PUBREL with its identifier is in the queue, the PUBLISH is completed and a PUBREL
      follows. */
  lemma PubrecEffect(before: Status, ms: seq<Message>, log: seq<Event>, n: U16, ms': seq<Message>, log': seq<Event>,
                     len: nat, s: Status)
    requires Answered(before, ms, log, Ack(5, n), ms', log', len, s)
    ensures log' == log
    ensures !NoneWithId(ms, 6, n) ==> ms' == ms && s == Ok
    ensures NoneWithId(ms, 6, n) && NoneWithId(ms, 3, n) ==> ms' == ms && s == Failed(AckOfUnknown)
    ensures NoneWithId(ms, 6, n) && !NoneWithId(ms, 3, n) ==>
      exists mid :: CompletesById(ms, 3, n, mid) && AnswerQueued(before, mid, len, 0x62, n, ms', s)
  {
    hide Known, Acked, FirstMatch, Staged, AnswerQueued, Id;
    AckedById(ms, 6, n);
    AckedById(ms, 3, n);
    var mid := Acked(ms, 3, Exactly(Id(n)));
    CompletesSome(ms, 6, n, Acked(ms, 6, Exactly(Id(n))));
    CompletesSome(ms, 3, n, mid);
    if NoneWithId(ms, 6, n) && !NoneWithId(ms, 3, n) {
      StagedIs(before, mid, ms', len, 6, n, s);
    }
  }

  /** PUBREL: the PUBREC is completed, which releases the identifier, and a PUBCOMP follows. */
  lemma PubrelEffect(before: Status, ms: seq<Message>, log: seq<Event>, n: U16, ms': seq<Message>, log': seq<Event>,
                     len: nat, s: Status)
    requires Answered(before, ms, log, Ack(6, n), ms', log', len, s)
    ensures NoneWithId(ms, 5, n) ==> ms' == ms && log' == log && s == Failed(AckOfUnknown)
    ensures !NoneWithId(ms, 5, n) ==> log' == log + [Released(Id(n))]
    ensures !NoneWithId(ms, 5, n) ==>
      exists mid :: CompletesById(ms, 5, n, mid) && AnswerQueued(before, mid, len, 0x70, n, ms', s)
  {
    hide Known, Acked, FirstMatch, Staged, AnswerQueued, Id;
    AckedById(ms, 5, n);
    var mid := Acked(ms, 5, Exactly(Id(n)));
    CompletesSome(ms, 5, n, mid);
    if !NoneWithId(ms, 5, n) {
      StagedIs(before, mid, ms', len, 7, n, s);
    }
  }
}
