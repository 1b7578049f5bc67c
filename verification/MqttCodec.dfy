/** Serialisation and parsing of MQTT control packets (mqtt.c: fixed header, PUBLISH, PUBxxx and
    the responses), as functions on octet strings and as methods on the client's buffers. */
module MqttCodec {
  import opened Limbs
  import opened Memory

  // -------------------------------------------------------------------- packet types

  const CONNECT := 1
  const CONNACK := 2
  const PUBLISH := 3
  const PUBACK := 4
  const PUBREC := 5
  const PUBREL := 6
  const PUBCOMP := 7
  const SUBSCRIBE := 8
  const SUBACK := 9
  const UNSUBSCRIBE := 10
  const UNSUBACK := 11
  const PINGREQ := 12
  const PINGRESP := 13
  const DISCONNECT := 14

  const MAX_REMAINING := 0x1000_0000

  type Nibble = x: int | 0 <= x < 16
  type U16 = x: int | 0 <= x < 0x1_0000

  datatype CodecError =
    | ForbiddenType | InvalidFlags | InvalidRemainingLength | MalformedResponse
    | ConnackForbiddenFlags | ConnackForbiddenCode | InvalidControlType | PublishForbiddenQos

  datatype FixedHeader = FixedHeader(controlType: Nibble, flags: Nibble, remaining: nat)

  /** A parser's answer: more bytes are needed, the input is wrong, or a value and its length. */
  datatype Parsed<T> = Wait | Fail(error: CodecError) | Got(value: T, used: nat)

  /** A packer's answer: a protocol error or the packet. */
  datatype Packed = PackError(error: CodecError) | Packet(bytes: seq<Byte>)

  // -------------------------------------------------------------------- fixed header

  /** The flags that a type must carry: 2 for PUBREL, SUBSCRIBE and UNSUBSCRIBE, anything for
      PUBLISH, else 0. */
  function RequiredFlags(t: Nibble): Nibble {
    if t == PUBREL || t == SUBSCRIBE || t == UNSUBSCRIBE then 2 else 0
  }

  predicate HeaderValid(h: FixedHeader) {
    CONNECT <= h.controlType <= DISCONNECT && (h.controlType == PUBLISH || h.flags == RequiredFlags(h.controlType))
  }

  /** mqtt_fixed_header_rule_violation */
  function RuleViolation(h: FixedHeader): (e: CodecError)
    requires !HeaderValid(h)
  {
    if CONNECT <= h.controlType <= DISCONNECT then InvalidFlags else ForbiddenType
  }

  /** The remaining length in groups of seven bits, lowest first, with continuation bits. */
  function EncodeLength(n: nat): (s: seq<Byte>)
    ensures |s| >= 1
  {
    if n < 128 then [n] else [n % 128 + 128] + EncodeLength(n / 128)
  }

  function EncodeHeader(h: FixedHeader): (s: seq<Byte>)
    ensures |s| >= 2
  {
    [h.controlType * 16 + h.flags] + EncodeLength(h.remaining)
  }

  /** The length field from its k-th byte on; at most four bytes are read. */
  function ParseLength(s: seq<Byte>, k: nat): (r: Parsed<nat>)
    requires k <= 4
    decreases 4 - k
  {
    if k == 4 then Fail(InvalidRemainingLength)
    else if |s| == 0 then Wait
    else if s[0] < 128 then Got(s[0], 1)
    else
      match ParseLength(s[1..], k + 1)
      case Got(n, used) => Got(s[0] - 128 + 128 * n, used + 1)
      case r => r
  }

  /** mqtt_unpack_fixed_header */
  function ParseHeader(s: seq<Byte>): (r: Parsed<FixedHeader>) {
    if |s| == 0 then Wait
    else
      match ParseLength(s[1..], 0)
      case Wait => Wait
      case Fail(e) => Fail(e)
      case Got(n, used) =>
        var h := FixedHeader(s[0] / 16, s[0] % 16, n);
        if !HeaderValid(h) then Fail(RuleViolation(h))
        else if |s| - 1 - used < n then Wait
        else Got(h, 1 + used)
  }

  lemma {:induction false} LengthRoundTrip(n: nat, rest: seq<Byte>, k: nat)
    requires k < 4 && n < Pow2(7 * (4 - k))
    ensures ParseLength(EncodeLength(n) + rest, k) == Got(n, |EncodeLength(n)|)
    decreases 4 - k
  {
    var s := EncodeLength(n) + rest;
    if n < 128 {
      assert s == [n] + rest;
    } else {
      SevenBits(n, k);
      LengthRoundTrip(n / 128, rest, k + 1);
      assert s[1..] == EncodeLength(n / 128) + rest;
    }
  }

  lemma SevenBits(n: nat, k: nat)
    requires k < 4 && 128 <= n < Pow2(7 * (4 - k))
    ensures k < 3 && n / 128 < Pow2(7 * (4 - (k + 1)))
  {
    hide Pow2;
    Pow2Of7();
    if k == 3 {
      assert false;
    }
    Pow2Add(7, 7 * (4 - (k + 1)));
  }

  lemma Pow2Of7()
    ensures Pow2(7) == 128 && Pow2(28) == MAX_REMAINING
  {
    Pow2Of32();
    Pow2Add(7, 1);
    assert Pow2(1) == 2;
    Pow2Add(28, 4);
    assert Pow2(4) == 16;
  }

  /** Parsing undoes mqtt_pack_fixed_header. */
  lemma HeaderRoundTrip(h: FixedHeader, rest: seq<Byte>)
    requires HeaderValid(h) && h.remaining < MAX_REMAINING && h.remaining <= |rest|
    ensures ParseHeader(EncodeHeader(h) + rest) == Got(h, |EncodeHeader(h)|)
  {
    hide Pow2;
    Pow2Of7();
    var s := EncodeHeader(h) + rest;
    LengthRoundTrip(h.remaining, rest, 0);
    assert s[1..] == EncodeLength(h.remaining) + rest;
    var x: int, y: int := h.controlType, h.flags;
    assert (x * 16 + y) / 16 == x && (x * 16 + y) % 16 == y;
  }

  // ------------------------------------------------------- more input changes no verdict

  lemma {:induction false} LengthStable(s: seq<Byte>, x: seq<Byte>, k: nat)
    requires k <= 4 && !ParseLength(s, k).Wait?
    ensures ParseLength(s + x, k) == ParseLength(s, k)
    ensures ParseLength(s, k).Got? ==> ParseLength(s, k).used <= |s|
    decreases 4 - k
  {
    if k < 4 && |s| > 0 {
      assert (s + x)[0] == s[0];
      if s[0] >= 128 {
        LengthStable(s[1..], x, k + 1);
        assert (s + x)[1..] == s[1..] + x;
      }
    }
  }

  lemma HeaderStable(s: seq<Byte>, x: seq<Byte>)
    requires !ParseHeader(s).Wait?
    ensures ParseHeader(s + x) == ParseHeader(s)
    ensures ParseHeader(s).Got? ==> ParseHeader(s).used + ParseHeader(s).value.remaining <= |s|
  {
    LengthStable(s[1..], x, 0);
    assert (s + x)[1..] == s[1..] + x;
    assert (s + x)[0] == s[0];
  }

  // ------------------------------------------------------------------------ responses

  datatype Response =
    | Connack(sessionPresent: bool, code: nat)
    | Publish(dup: bool, qos: nat, retain: bool, topic: seq<Byte>, id: U16, message: seq<Byte>)
    | BrokenPublish(brokenQos: nat)
    | Ack(kind: Nibble, ackId: U16)
    | Suback(subId: U16, codes: seq<Byte>)
    | Unsuback(unsubId: U16)
    | Pingresp

  function U16Of(s: seq<Byte>): U16
    requires |s| >= 2
  {
    var hi: int := s[0];
    hi * 256 + s[1]
  }

  function U16Bytes(n: U16): (s: seq<Byte>)
    ensures |s| == 2
  {
    [n / 256, n % 256]
  }

  lemma U16RoundTrip(n: U16, rest: seq<Byte>)
    ensures U16Of(U16Bytes(n) + rest) == n
  {
  }

  /** mqtt_unpack_publish_response on the body of a packet; the identifier is 0 where the packet
      has none.  A topic that does not fit the body makes the C code read past the packet: then
      only the quality of service and the length of the packet are determined. */
  function ParsePublish(h: FixedHeader, body: seq<Byte>): (r: Parsed<Response>)
    requires |body| == h.remaining
  {
    var qos := h.flags / 2 % 4;
    if |body| < 4 then Fail(MalformedResponse)
    else
      var topicSize := U16Of(body);
      var idSize := if qos > 0 then 2 else 0;
      if 2 + topicSize + idSize > |body| then Got(BrokenPublish(qos), |body|)
      else
        var rest := body[2 + topicSize..];
        Got(Publish(h.flags >= 8, qos, h.flags % 2 == 1, body[2..2 + topicSize],
                    if qos > 0 then U16Of(rest) else 0, rest[idSize..]), |body|)
  }

  /** The body of a response of any type. */
  function ParseBody(h: FixedHeader, body: seq<Byte>): (r: Parsed<Response>)
    requires |body| == h.remaining
    ensures r.Got? ==> r.used == (if h.controlType == PINGRESP then 0 else |body|)
    ensures !r.Wait? && (r.Got? && r.value.Ack? ==> PUBACK <= r.value.kind <= PUBCOMP)
  {
    if h.controlType == CONNACK then
      if |body| != 2 then Fail(MalformedResponse)
      else if body[0] > 1 then Fail(ConnackForbiddenFlags)
      else if body[1] > 5 then Fail(ConnackForbiddenCode)
      else Got(Connack(body[0] == 1, body[1]), 2)
    else if h.controlType == PUBLISH then ParsePublish(h, body)
    else if PUBACK <= h.controlType <= PUBCOMP then
      if |body| != 2 then Fail(MalformedResponse) else Got(Ack(h.controlType, U16Of(body)), 2)
    else if h.controlType == SUBACK then
      if |body| < 3 then Fail(MalformedResponse) else Got(Suback(U16Of(body), body[2..]), |body|)
    else if h.controlType == UNSUBACK then
      if |body| != 2 then Fail(MalformedResponse) else Got(Unsuback(U16Of(body)), 2)
    else if h.controlType == PINGRESP then Got(Pingresp, 0)
    else Fail(InvalidControlType)
  }

  /** mqtt_unpack_response */
  function ParseResponse(s: seq<Byte>): (r: Parsed<Response>)
    ensures r.Got? && r.value.Ack? ==> PUBACK <= r.value.kind <= PUBCOMP
  {
    match ParseHeader(s)
    case Wait => Wait
    case Fail(e) => Fail(e)
    case Got(h, used) =>
      HeaderStable(s, []);
      match ParseBody(h, s[used..used + h.remaining])
      case Got(r, n) => Got(r, used + n)
      case r => r
  }

  /** More input changes no verdict, so the client may parse as soon as bytes arrive. */
  lemma ResponseStable(s: seq<Byte>, x: seq<Byte>)
    requires !ParseResponse(s).Wait?
    ensures ParseResponse(s + x) == ParseResponse(s)
    ensures ParseResponse(s).Got? ==> 0 < ParseResponse(s).used <= |s|
  {
    hide ParseHeader, ParseBody;
    HeaderStable(s, x);
    HeaderStable(s, []);
    HeaderUsed(s);
    var r := ParseHeader(s);
    if r.Got? {
      var n := r.used;
      assert (s + x)[n..n + r.value.remaining] == s[n..n + r.value.remaining];
    }
  }

  lemma HeaderUsed(s: seq<Byte>)
    ensures ParseHeader(s).Got? ==> ParseHeader(s).used > 0
  {
  }

  /** Every proper prefix of a packet that parses makes the client wait for more. */
  lemma ProperPrefixWaits(s: seq<Byte>, n: nat)
    requires ParseResponse(s).Got? && ParseHeader(s).Got?
    requires n < |s| && |s| == ParseHeader(s).used + ParseHeader(s).value.remaining
    ensures ParseResponse(s[..n]).Wait?
  {
    hide ParseHeader, ParseBody;
    var p := s[..n];
    assert s == p + s[n..];
    if !ParseResponse(p).Wait? {
      HeaderStable(p, s[n..]);
      HeaderStable(p, []);
    }
  }

  // --------------------------------------------------------------------------- packers

  /** __mqtt_pack_str: the length is cut to 16 bits, and as many bytes are copied. */
  function EncodeString(t: seq<Byte>): seq<Byte> {
    U16Bytes(|t| % 0x1_0000) + t[..|t| % 0x1_0000]
  }

  function QosOf(flags: Byte): nat {
    flags / 2 % 4
  }

  /** The flags of an outgoing PUBLISH: the DUP flag is cleared without quality of service. */
  function PublishFlags(flags: Byte): Nibble {
    if QosOf(flags) == 0 then flags % 8 else flags % 16
  }

  /** mqtt_pack_publish_request, given room */
  function PackPublish(topic: seq<Byte>, id: U16, message: seq<Byte>, flags: Byte): Packed {
    var remaining := 2 + |topic| + (if QosOf(flags) > 0 then 2 else 0) + |message|;
    if QosOf(flags) == 3 then PackError(PublishForbiddenQos)
    else if remaining >= MAX_REMAINING then PackError(InvalidRemainingLength)
    else Packet(EncodeHeader(FixedHeader(PUBLISH, PublishFlags(flags), remaining))
                + EncodeString(topic) + (if QosOf(flags) > 0 then U16Bytes(id) else []) + message)
  }

  /** mqtt_pack_pubxxx_request, given room */
  function PackAck(kind: Nibble, id: U16): seq<Byte> {
    EncodeHeader(FixedHeader(kind, if kind == PUBREL then 2 else 0, 2)) + U16Bytes(id)
  }

  lemma AckRoundTrip(kind: Nibble, id: U16, rest: seq<Byte>)
    requires PUBACK <= kind <= PUBCOMP
    ensures ParseResponse(PackAck(kind, id) + rest) == Got(Ack(kind, id), |PackAck(kind, id)|)
    ensures ParseHeader(PackAck(kind, id)).Got? && |PackAck(kind, id)| == 4
  {
    hide ParseHeader;
    var h := FixedHeader(kind, if kind == PUBREL then 2 else 0, 2);
    var e := EncodeHeader(h);
    HeaderRoundTrip(h, U16Bytes(id) + rest);
    HeaderRoundTrip(h, U16Bytes(id));
    assert PackAck(kind, id) + rest == e + (U16Bytes(id) + rest);
    assert (PackAck(kind, id) + rest)[|e|..|e| + 2] == U16Bytes(id);
    U16RoundTrip(id, []);
    assert U16Bytes(id) + [] == U16Bytes(id);
  }

  /** The body of a PUBLISH. */
  function PublishBody(topic: seq<Byte>, qos: nat, id: U16, message: seq<Byte>): seq<Byte> {
    U16Bytes(|topic| % 0x1_0000) + topic + (if qos > 0 then U16Bytes(id) else []) + message
  }

  lemma BodyRoundTrip(flags: Nibble, topic: seq<Byte>, id: U16, message: seq<Byte>)
    requires |topic| < 0x1_0000 && flags / 2 % 4 != 3
    requires 4 <= |PublishBody(topic, flags / 2 % 4, id, message)|
    ensures var body := PublishBody(topic, flags / 2 % 4, id, message);
      ParsePublish(FixedHeader(PUBLISH, flags, |body|), body)
        == Got(Publish(flags >= 8, flags / 2 % 4, flags % 2 == 1, topic, if flags / 2 % 4 > 0 then id else 0, message),
               |body|)
  {
    hide U16Bytes, U16Of;
    var qos := flags / 2 % 4;
    var ids := if qos > 0 then U16Bytes(id) else [];
    var body := PublishBody(topic, qos, id, message);
    var n := |topic|;
    assert body == U16Bytes(n) + (topic + ids + message);
    U16RoundTrip(n, topic + ids + message);
    assert body[2..2 + n] == topic;
    var rest := body[2 + n..];
    assert rest == ids + message;
    if qos > 0 {
      U16RoundTrip(id, message);
    }
    assert rest[|ids|..] == message;
  }

  lemma PacketParts(topic: seq<Byte>, id: U16, message: seq<Byte>, flags: Byte)
    requires PackPublish(topic, id, message, flags).Packet? && |topic| < 0x1_0000
    ensures var body := PublishBody(topic, QosOf(flags), id, message);
      && |body| == 2 + |topic| + (if QosOf(flags) > 0 then 2 else 0) + |message| < MAX_REMAINING
      && PackPublish(topic, id, message, flags).bytes == EncodeHeader(FixedHeader(PUBLISH, PublishFlags(flags),
                                                                                  |body|)) + body
  {
    hide EncodeHeader, U16Bytes;
    var n := |topic|;
    assert n % 0x1_0000 == n && topic[..n] == topic;
    var e := EncodeHeader(FixedHeader(PUBLISH, PublishFlags(flags), |PublishBody(topic, QosOf(flags), id, message)|));
    var ids := if QosOf(flags) > 0 then U16Bytes(id) else [];
    assert e + (U16Bytes(n) + topic) + ids + message == e + (U16Bytes(n) + topic + ids + message);
  }

  /** Parsing undoes mqtt_pack_publish_request, for every topic whose length fits 16 bits and
      every remaining length of at least four. */
  lemma PublishRoundTrip(topic: seq<Byte>, id: U16, message: seq<Byte>, flags: Byte, rest: seq<Byte>)
    requires PackPublish(topic, id, message, flags).Packet? && |topic| < 0x1_0000
    requires 2 + |topic| + (if QosOf(flags) > 0 then 2 else 0) + |message| >= 4
    ensures var p := PackPublish(topic, id, message, flags).bytes; var f := PublishFlags(flags);
      ParseResponse(p + rest)
        == Got(Publish(f >= 8, QosOf(flags), f % 2 == 1, topic, if QosOf(flags) > 0 then id else 0, message), |p|)
    ensures var p := PackPublish(topic, id, message, flags).bytes;
      ParseHeader(p).Got? && |p| == ParseHeader(p).used + ParseHeader(p).value.remaining
  {
    hide ParseHeader, ParsePublish;
    var p, f := PackPublish(topic, id, message, flags).bytes, PublishFlags(flags);
    var body := PublishBody(topic, QosOf(flags), id, message);
    FlagsKeepQos(flags);
    PacketParts(topic, id, message, flags);
    var h := FixedHeader(PUBLISH, f, |body|);
    var e := EncodeHeader(h);
    HeaderRoundTrip(h, body + rest);
    assert e + (body + rest) == p + rest;
    assert (p + rest)[|e|..|e| + |body|] == body;
    BodyRoundTrip(f, topic, id, message);
    HeaderRoundTrip(h, body);
  }

  lemma FlagsKeepQos(flags: Byte)
    ensures PublishFlags(flags) / 2 % 4 == QosOf(flags)
  {
    QosBits(flags);
  }

  lemma QosBits(x: int)
    requires 0 <= x < 256
    ensures x % 8 / 2 % 4 == x / 2 % 4 && x % 16 / 2 % 4 == x / 2 % 4
  {
    DivModFacts(x, 16);
    var y := x % 16;
    DivModFacts(y, 8);
    QosOfDigits(x / 16, y / 8, y % 8);
  }

  lemma QosOfDigits(a: nat, b: nat, c: nat)
    requires b < 2 && c < 8
    ensures var x := 16 * a + 8 * b + c;
      x % 8 / 2 % 4 == x / 2 % 4 == x % 16 / 2 % 4
  {
    var x := 16 * a + 8 * b + c;
    DivModUnique(x, 8, 2 * a + b, c);
    DivModUnique(x, 16, a, 8 * b + c);
    DivModUnique(x, 2, 8 * a + 4 * b + c / 2, c % 2);
    DivModUnique(8 * a + 4 * b + c / 2, 4, 2 * a + b, c / 2);
    DivModUnique(8 * b + c, 2, 4 * b + c / 2, c % 2);
    DivModUnique(4 * b + c / 2, 4, b, c / 2);
  }

  /** The PUBLISH packets of this packer that its own parser refuses: those with a remaining
      length below four. */
  lemma ShortPublishRefused(topic: seq<Byte>, id: U16, message: seq<Byte>, flags: Byte)
    requires PackPublish(topic, id, message, flags).Packet? && |topic| < 0x1_0000
    requires 2 + |topic| + (if QosOf(flags) > 0 then 2 else 0) + |message| < 4
    ensures ParseResponse(PackPublish(topic, id, message, flags).bytes) == Fail(MalformedResponse)
  {
    hide ParseHeader, EncodeHeader;
    var p, f := PackPublish(topic, id, message, flags).bytes, PublishFlags(flags);
    var body := PublishBody(topic, QosOf(flags), id, message);
    PacketParts(topic, id, message, flags);
    var h := FixedHeader(PUBLISH, f, |body|);
    HeaderRoundTrip(h, body);
    assert p[|EncodeHeader(h)|..|EncodeHeader(h)| + |body|] == body;
  }

  // ------------------------------------------------------------ parsing from the buffer

  /** The value of the length field from its first k bytes and the parse of the others. */
  function Resume(acc: nat, k: nat, r: Parsed<nat>): Parsed<nat> {
    match r
    case Got(n, used) => Got(acc + Pow2(7 * k) * n, used + k)
    case e => e
  }

  lemma ResumeStart(r: Parsed<nat>)
    ensures Resume(0, 0, r) == r
  {
    assert Pow2(0) == 1;
  }

  lemma ResumeStep(s: seq<Byte>, k: nat, acc: nat)
    requires k < 4 && |s| > 0
    ensures s[0] >= 128 ==>
      Resume(acc, k, ParseLength(s, k)) == Resume(acc + s[0] % 128 * Pow2(7 * k), k + 1, ParseLength(s[1..], k + 1))
    ensures s[0] < 128 ==>
      Resume(acc, k, ParseLength(s, k)) == Got(acc + s[0] % 128 * Pow2(7 * k), k + 1)
  {
    hide Pow2;
    Pow2Of7();
    Pow2Add(7 * k, 7);
    var r, d: int := ParseLength(s[1..], k + 1), s[0];
    if d >= 128 && r.Got? {
      GroupStep(Pow2(7 * k), d, r.value);
    }
    if d < 128 {
      LowDigit(Pow2(7 * k), d);
    }
  }

  lemma GroupStep(P: int, d: int, n: int)
    requires 128 <= d < 256
    ensures P * (d - 128 + 128 * n) == d % 128 * P + (P * 128) * n
  {
    assert d % 128 == d - 128;
    assert P * (128 * n) == (P * 128) * n;
  }

  lemma LowDigit(P: int, d: int)
    requires 0 <= d < 128
    ensures P * d == d % 128 * P
  {
  }

  /** mqtt_unpack_fixed_header on the bufsz octets of the buffer from off. */
  method UnpackHeader(buf: array<Byte>, off: nat, bufsz: nat) returns (r: Parsed<FixedHeader>)
    requires off + bufsz <= buf.Length
    ensures r == ParseHeader(buf[off..off + bufsz])
  {
    hide Pow2, ParseLength, Resume;
    if bufsz == 0 {
      return Wait;
    }
    ghost var s := buf[off..off + bufsz];
    var controlType, flags := buf[off] / 16, buf[off] % 16;
    var remaining: nat, k: nat := 0, 0;
    ResumeStart(ParseLength(s[1..], 0));
    assert s[1..][0..] == s[1..];
    while true
      invariant 0 <= k <= 4 && k < bufsz
      invariant ParseLength(s[1..], 0) == Resume(remaining, k, ParseLength(s[1..][k..], k))
      decreases 4 - k
    {
      ghost var t := s[1..][k..];
      LengthEnds(t, k);
      ResumeEnds(remaining, k, ParseLength(t, k));
      if k == 4 {
        return Fail(InvalidRemainingLength);
      }
      if bufsz - 1 - k == 0 {
        return Wait;
      }
      ResumeStep(t, k, remaining);
      assert t[0] == buf[off + 1 + k] && t[1..] == s[1..][k + 1..];
      remaining := remaining + buf[off + 1 + k] % 128 * Pow2(7 * k);
      k := k + 1;
      if buf[off + k] < 128 {
        break;
      }
    }
    var h := FixedHeader(controlType, flags, remaining);
    if !HeaderValid(h) {
      return Fail(RuleViolation(h));
    }
    if bufsz - 1 - k < remaining {
      return Wait;
    }
    return Got(h, 1 + k);
  }

  lemma LengthEnds(t: seq<Byte>, k: nat)
    requires k <= 4
    ensures k == 4 ==> ParseLength(t, k) == Fail(InvalidRemainingLength)
    ensures k < 4 && |t| == 0 ==> ParseLength(t, k) == Wait
  {
  }

  lemma ResumeEnds(acc: nat, k: nat, r: Parsed<nat>)
    ensures !r.Got? ==> Resume(acc, k, r) == r
  {
  }

  /** mqtt_unpack_response on the first bufsz octets of the buffer. */
  method UnpackResponse(buf: array<Byte>, bufsz: nat) returns (r: Parsed<Response>)
    requires bufsz <= buf.Length
    ensures r == ParseResponse(buf[..bufsz])
  {
    hide ParseHeader, ParseBody;
    var rv := UnpackHeader(buf, 0, bufsz);
    assert buf[0..0 + bufsz] == buf[..bufsz];
    match rv
    case Wait => r := Wait;
    case Fail(e) => r := Fail(e);
    case Got(h, used) =>
      HeaderStable(buf[..bufsz], []);
      assert buf[used..used + h.remaining] == buf[..bufsz][used..used + h.remaining];
      r := ParseBody(h, buf[used..used + h.remaining]);
      if r.Got? {
        r := Got(r.value, used + r.used);
      }
  }

  // ------------------------------------------------------------- packing into the buffer

  /** The return value of a packer: negative, zero, or the number of bytes written. */
  datatype PackResult = PackFailed(error: CodecError) | NoRoom | Bytes(n: nat)

  /** mqtt_pack_fixed_header: room is checked byte by byte, then for the rest of the packet. */
  method PackHeaderInto(buf: array<Byte>, off: nat, bufsz: nat, h: FixedHeader) returns (rv: PackResult)
    requires off + bufsz <= buf.Length
    modifies buf
    ensures !HeaderValid(h) ==> rv == PackFailed(RuleViolation(h))
    ensures HeaderValid(h) && bufsz == 0 ==> rv == NoRoom
    ensures HeaderValid(h) && bufsz > 0 && h.remaining >= MAX_REMAINING ==> rv == PackFailed(InvalidRemainingLength)
    ensures HeaderValid(h) && bufsz > 0 && h.remaining < MAX_REMAINING ==>
      rv == if |EncodeHeader(h)| + h.remaining <= bufsz then Bytes(|EncodeHeader(h)|) else NoRoom
    ensures rv.Bytes? ==> rv.n <= bufsz && buf[off..off + rv.n] == EncodeHeader(h)
    ensures KeptOutside(buf, off, off + bufsz)
  {
    if !HeaderValid(h) {
      return PackFailed(RuleViolation(h));
    }
    if bufsz == 0 {
      return NoRoom;
    }
    var first: int := h.controlType;
    buf[off] := first * 16 + h.flags;
    if h.remaining >= MAX_REMAINING {
      return PackFailed(InvalidRemainingLength);
    }
    var k := PackLengthInto(buf, off + 1, bufsz - 1, h.remaining);
    if k == 0 || bufsz - 1 - k < h.remaining {
      return NoRoom;
    }
    assert buf[off..off + 1 + k] == [buf[off]] + buf[off + 1..off + 1 + k];
    return Bytes(1 + k);
  }

  /** The do-while loop of mqtt_pack_fixed_header: the number of length bytes, 0 without room. */
  method PackLengthInto(buf: array<Byte>, off: nat, room: nat, n: nat) returns (k: nat)
    requires off + room <= buf.Length
    modifies buf
    ensures k == if |EncodeLength(n)| <= room then |EncodeLength(n)| else 0
    ensures k > 0 ==> buf[off..off + k] == EncodeLength(n)
    ensures KeptOutside(buf, off, off + room)
  {
    var remaining: nat := n;
    k := 0;
    while true
      invariant k <= room && EncodeLength(n) == buf[off..off + k] + EncodeLength(remaining)
      invariant KeptOutside(buf, off, off + room)
      decreases remaining
    {
      ghost var written := buf[off..off + k];
      if room - k == 0 {
        LengthAtLeast(n, written, remaining);
        return 0;
      }
      var octet: Byte := if remaining > 127 then remaining % 128 + 128 else remaining % 128;
      buf[off + k] := octet;
      k := k + 1;
      assert buf[off..off + k] == written + [octet];
      ghost var before := remaining;
      remaining := remaining / 128;
      if octet < 128 {
        assert EncodeLength(before) == [octet];
        break;
      }
      assert EncodeLength(before) == [octet] + EncodeLength(remaining);
    }
  }

  lemma LengthAtLeast(n: nat, written: seq<Byte>, rest: nat)
    requires EncodeLength(n) == written + EncodeLength(rest)
    ensures |EncodeLength(n)| >= |written| + 1
  {
  }

  /** mqtt_pack_pubxxx_request */
  method PackAckInto(buf: array<Byte>, off: nat, bufsz: nat, kind: Nibble, id: U16) returns (rv: PackResult)
    requires off + bufsz <= buf.Length && PUBACK <= kind <= PUBCOMP
    modifies buf
    ensures rv == if |PackAck(kind, id)| <= bufsz then Bytes(|PackAck(kind, id)|) else NoRoom
    ensures rv.Bytes? ==> buf[off..off + rv.n] == PackAck(kind, id)
    ensures KeptOutside(buf, off, off + bufsz)
  {
    hide EncodeHeader;
    rv := PackHeaderInto(buf, off, bufsz, FixedHeader(kind, if kind == PUBREL then 2 else 0, 2));
    if rv.Bytes? {
      ghost var e := buf[off..off + rv.n];
      CopyInto(buf, off + rv.n, U16Bytes(id));
      assert buf[off..off + rv.n] == e;
      assert buf[off..off + rv.n + 2] == e + buf[off + rv.n..off + rv.n + 2];
      rv := Bytes(rv.n + 2);
    }
  }

  /** mqtt_pack_publish_request for a topic of less than 2^16 octets: the packet of PackPublish
      if it fits, else no room. */
  method PackPublishInto(buf: array<Byte>, off: nat, bufsz: nat,
                         topic: seq<Byte>, id: U16, message: seq<Byte>, flags: Byte) returns (rv: PackResult)
    requires off + bufsz <= buf.Length && |topic| < 0x1_0000
    modifies buf
    ensures var p := PackPublish(topic, id, message, flags);
      && (p.Packet? && bufsz > 0 ==> rv == if |p.bytes| <= bufsz then Bytes(|p.bytes|) else NoRoom)
      && (p.PackError? && (bufsz > 0 || p.error.PublishForbiddenQos?) ==> rv == PackFailed(p.error))
      && (bufsz == 0 && QosOf(flags) != 3 ==> rv == NoRoom)
      && (rv.Bytes? ==> p.Packet? && buf[off..off + rv.n] == p.bytes)
    ensures KeptOutside(buf, off, off + bufsz)
  {
    hide EncodeHeader;
    var qos := QosOf(flags);
    var remaining := 2 + |topic| + (if qos > 0 then 2 else 0) + |message|;
    if qos == 3 {
      return PackFailed(PublishForbiddenQos);
    }
    var h := FixedHeader(PUBLISH, PublishFlags(flags), remaining);
    rv := PackHeaderInto(buf, off, bufsz, h);
    if rv.Bytes? {
      assert topic[..|topic| % 0x1_0000] == topic;
      var ids := if qos > 0 then U16Bytes(id) else [];
      AppendBody(buf, off, rv.n, EncodeString(topic), ids, message);
      rv := Bytes(rv.n + remaining);
    }
  }

  /** The body goes behind the n octets of the header. */
  method AppendBody(buf: array<Byte>, off: nat, n: nat, topic: seq<Byte>, ids: seq<Byte>, message: seq<Byte>)
    requires off + n + |topic| + |ids| + |message| <= buf.Length
    modifies buf
    ensures var total := n + |topic| + |ids| + |message|;
      buf[off..off + total] == old(buf[off..off + n]) + topic + ids + message && KeptOutside(buf, off + n, off + total)
  {
    ghost var e := buf[off..off + n];
    ghost var body := topic + ids + message;
    CopyBody(buf, off + n, topic, ids, message);
    assert buf[off..off + n] == e;
    assert buf[off..off + n + |body|] == e + buf[off + n..off + n + |body|];
    assert e + (topic + ids + message) == e + topic + ids + message;
  }

  /** Topic, identifier and payload, one after the other. */
  method CopyBody(buf: array<Byte>, off: nat, topic: seq<Byte>, ids: seq<Byte>, message: seq<Byte>)
    requires off + |topic| + |ids| + |message| <= buf.Length
    modifies buf
    ensures var n := |topic| + |ids| + |message|;
      buf[off..off + n] == topic + ids + message && KeptOutside(buf, off, off + n)
  {
    CopyInto(buf, off, topic);
    CopyInto(buf, off + |topic|, ids);
    assert buf[off..off + |topic|] == topic;
    assert buf[off..off + |topic| + |ids|] == topic + ids;
    CopyInto(buf, off + |topic| + |ids|, message);
    assert buf[off..off + |topic| + |ids|] == topic + ids;
    assert buf[off..off + |topic| + |ids| + |message|] == topic + ids + message;
  }
}
