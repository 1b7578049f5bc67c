/** The MQTT packets octet by octet (sections 2 and 3 of MQTT 3.1.1): what every packet of the broker
    is decoded to, and what every packet of the client is. */
module MqttOctets {
  import opened Limbs
  import opened MpnStr
  import opened MqttCodec
  import opened MqttRoom
  import opened MqttStream

  // ------------------------------------------------------------------------ numbers

  /** A 16-bit field is its two octets in base 256, most significant first. */
  lemma FieldOctets(x: Byte, y: Byte, rest: seq<Byte>)
    ensures U16Of([x, y] + rest) == BE([x, y], 256)
    ensures U16Bytes(BE([x, y], 256)) == [x, y]
  {
    assert [x, y][..1] == [x] && [x][..0] == [];
    assert BE([], 256) == 0 && BE([x], 256) == x && BE([x, y], 256) == BE([x], 256) * 256 + y;
    var a: int := x;
    DivModUnique(a * 256 + y, 256, x, y);
  }

  /** The low seven bits of each octet */
  function Groups(s: seq<Byte>): (r: seq<Byte>)
    ensures |r| == |s| && forall i :: 0 <= i < |s| ==> r[i] == s[i] % 128
  {
    if |s| == 0 then [] else [s[0] % 128] + Groups(s[1..])
  }

  /** The length field (section 2.2.3): groups of seven bits, lowest first; every octet but the last
      has its top bit set, and the last is not zero unless it is the only one. */
  lemma {:induction false} LengthOctets(n: nat)
    ensures var s := EncodeLength(n);
      && LE(Groups(s), 128) == n && s[|s| - 1] < 128 && (|s| > 1 ==> s[|s| - 1] > 0)
      && forall i :: 0 <= i < |s| - 1 ==> s[i] >= 128
  {
    var s := EncodeLength(n);
    if n < 128 {
      assert Groups(s) == [n];
    } else {
      LengthOctets(n / 128);
      var t := EncodeLength(n / 128);
      assert s[1..] == t;
      assert Groups(s)[1..] == Groups(t);
      if |t| == 1 {
        assert t[0] == n / 128;
      }
    }
  }

  /** A length field ends with its first octet below 128. */
  lemma {:induction false} LengthField(s: seq<Byte>, m: nat, k: nat)
    requires k + m < 4 && m < |s| && s[m] < 128 && forall i :: 0 <= i < m ==> s[i] >= 128
    ensures ParseLength(s, k) == Got(LE(Groups(s[..m + 1]), 128), m + 1)
    decreases m
  {
    var t := s[..m + 1];
    if m == 0 {
      assert Groups(t) == [s[0]] && Groups(t)[1..] == [];
    } else {
      LengthField(s[1..], m - 1, k + 1);
      assert t[1..] == s[1..][..m];
      assert Groups(t) == [s[0] % 128] + Groups(t[1..]);
      assert Groups(t)[1..] == Groups(t[1..]);
    }
  }

  /** A length field that has not ended */
  lemma {:induction false} LengthOpen(s: seq<Byte>, k: nat)
    requires k + |s| < 4 && forall i :: 0 <= i < |s| ==> s[i] >= 128
    ensures ParseLength(s, k) == Wait
    decreases |s|
  {
    if |s| > 0 {
      LengthOpen(s[1..], k + 1);
    }
  }

  /** The length a packet must have at least: type, length field and body; while the length field has
      not ended, one octet more than there are. */
  lemma LeastSizeIs(s: seq<Byte>, m: nat)
    requires m < 4 && m < |s| && forall i :: 1 <= i <= m ==> s[i] >= 128
    ensures m + 1 < |s| && s[m + 1] < 128 ==> LeastSize(s) == m + 2 + LE(Groups(s[1..m + 2]), 128)
    ensures m + 1 == |s| ==> LeastSize(s) == |s| + 1
  {
    hide ParseLength;
    if m + 1 < |s| && s[m + 1] < 128 {
      LengthField(s[1..], m, 0);
      assert s[1..][..m + 1] == s[1..m + 2];
    } else if m + 1 == |s| {
      LengthOpen(s[1..], 0);
    }
  }

  // ---------------------------------------------------------------- packets of the broker

  /** A complete packet is decoded from its first octet and its body, whatever follows. */
  lemma BodyDecoded(first: Byte, body: seq<Byte>, rest: seq<Byte>)
    requires |body| < MAX_REMAINING
    ensures var h := FixedHeader(first / 16, first % 16, |body|); var n := 1 + |EncodeLength(|body|)|;
      ParseResponse([first] + EncodeLength(|body|) + body + rest) ==
        if !HeaderValid(h) then Fail(RuleViolation(h))
        else
          match ParseBody(h, body)
          case Got(r, used) => Got(r, n + used)
          case Fail(e) => Fail(e)
          case Wait => Wait
  {
    hide Pow2, HeaderValid, ParseBody;
    Pow2Of7();
    var l := EncodeLength(|body|);
    var s := [first] + l + body + rest;
    LengthRoundTrip(|body|, body + rest, 0);
    assert s[1..] == l + (body + rest);
    assert s[1 + |l|..1 + |l| + |body|] == body;
  }

  lemma ShortLength(n: nat)
    requires n < 128
    ensures EncodeLength(n) == [n]
  {
  }

  /** SUBACK */
  lemma SubackDecoded(id: U16, codes: seq<Byte>, rest: seq<Byte>)
    requires 1 <= |codes| && 2 + |codes| < 0x1000_0000
    ensures var p := [0x90] + EncodeLength(2 + |codes|) + ([id / 256, id % 256] + codes);
      ParseResponse(p + rest) == Got(Suback(id, codes), |p|)
  {
    hide EncodeLength, ParseResponse;
    BodyDecoded(0x90, [id / 256, id % 256] + codes, rest);
  }

  /** UNSUBACK */
  lemma UnsubackDecoded(id: U16, rest: seq<Byte>)
    ensures ParseResponse([0xB0, 2, id / 256, id % 256] + rest) == Got(Unsuback(id), 4)
  {
    hide EncodeLength, ParseResponse;
    ShortLength(2);
    BodyDecoded(0xB0, [id / 256, id % 256], rest);
    assert [0xB0] + [2] + [id / 256, id % 256] + rest == [0xB0, 2, id / 256, id % 256] + rest;
  }

  /** CONNACK: the session flag must be 0 or 1 and the code at most 5. */
  lemma ConnackDecoded(flags: Byte, code: Byte, rest: seq<Byte>)
    ensures ParseResponse([0x20, 2, flags, code] + rest) ==
      if flags > 1 then Fail(ConnackForbiddenFlags)
      else if code > 5 then Fail(ConnackForbiddenCode)
      else Got(Connack(flags == 1, code), 4)
  {
    hide EncodeLength, ParseResponse;
    ShortLength(2);
    BodyDecoded(0x20, [flags, code], rest);
    assert [0x20] + [2] + [flags, code] + rest == [0x20, 2, flags, code] + rest;
  }

  /** PUBACK, PUBREC, PUBREL and PUBCOMP */
  lemma AckDecoded(kind: Nibble, id: U16, rest: seq<Byte>)
    requires 4 <= kind <= 7
    ensures var first := if kind == 6 then 0x62 else 16 * kind;
      ParseResponse([first, 2, id / 256, id % 256] + rest) == Got(Ack(kind, id), 4)
  {
    hide EncodeLength, ParseResponse;
    ShortLength(2);
    var first := if kind == 6 then 0x62 else 16 * kind;
    BodyDecoded(first, [id / 256, id % 256], rest);
    assert [first] + [2] + [id / 256, id % 256] + rest == [first, 2, id / 256, id % 256] + rest;
  }

  /** PINGRESP; a body, which it must not have, would be left in the buffer. */
  lemma PingrespDecoded(body: seq<Byte>, rest: seq<Byte>)
    requires |body| < 0x1000_0000
    ensures ParseResponse([0xD0] + EncodeLength(|body|) + body + rest) == Got(Pingresp, 1 + |EncodeLength(|body|)|)
  {
    hide EncodeLength, ParseResponse;
    BodyDecoded(0xD0, body, rest);
  }

  /** PUBLISH with any flags, for a topic that fits the body */
  lemma PublishDecoded(flags: Nibble, topic: seq<Byte>, id: U16, message: seq<Byte>, rest: seq<Byte>)
    requires |topic| < 0x1_0000
    requires 4 <= 2 + |topic| + (if flags / 2 % 4 > 0 then 2 else 0) + |message| < 0x1000_0000
    ensures var qos := flags / 2 % 4;
      var ids := if qos > 0 then [id / 256, id % 256] else [];
      var body := [|topic| / 256, |topic| % 256] + topic + ids + message;
      var p := [0x30 + flags] + EncodeLength(|body|) + body;
      ParseResponse(p + rest)
        == Got(Publish(flags >= 8, qos, flags % 2 == 1, topic, if qos > 0 then id else 0, message), |p|)
  {
    hide EncodeLength, ParseResponse, ParsePublish;
    var ids := if flags / 2 % 4 > 0 then [id / 256, id % 256] else [];
    var body := [|topic| / 256, |topic| % 256] + topic + ids + message;
    PublishBodyDecoded(flags, topic, id, message);
    BodyDecoded(0x30 + flags, body, rest);
  }

  lemma PublishBodyDecoded(flags: Nibble, topic: seq<Byte>, id: U16, message: seq<Byte>)
    requires |topic| < 0x1_0000 && 4 <= 2 + |topic| + (if flags / 2 % 4 > 0 then 2 else 0) + |message|
    ensures var qos := flags / 2 % 4;
      var ids := if qos > 0 then [id / 256, id % 256] else [];
      var body := [|topic| / 256, |topic| % 256] + topic + ids + message;
      ParsePublish(FixedHeader(3, flags, |body|), body)
        == Got(Publish(flags >= 8, qos, flags % 2 == 1, topic, if qos > 0 then id else 0, message), |body|)
  {
    var ids := if flags / 2 % 4 > 0 then [id / 256, id % 256] else [];
    var body := [|topic| / 256, |topic| % 256] + topic + ids + message;
    assert body[2 + |topic|..] == ids + message && body[2..2 + |topic|] == topic;
    assert (ids + message)[|ids|..] == message;
  }

  /** PUBLISH with a topic that does not fit the body */
  lemma PublishBroken(flags: Nibble, size: U16, body: seq<Byte>, rest: seq<Byte>)
    requires 4 <= 2 + |body| < 0x1000_0000 && size + (if flags / 2 % 4 > 0 then 2 else 0) > |body|
    ensures var p := [0x30 + flags] + EncodeLength(2 + |body|) + ([size / 256, size % 256] + body);
      ParseResponse(p + rest) == Got(BrokenPublish(flags / 2 % 4), |p|)
  {
    hide EncodeLength, ParseResponse;
    BodyDecoded(0x30 + flags, [size / 256, size % 256] + body, rest);
  }

  /** Every other complete packet is refused: a type that does not exist, wrong flags, a type that the
      broker does not send, or a body of the wrong length. */
  lemma RefusedPackets(first: Byte, body: seq<Byte>, rest: seq<Byte>)
    requires |body| < 0x1000_0000
    ensures var kind, flags, n := first / 16, first % 16, |body|;
      var r := ParseResponse([first] + EncodeLength(n) + body + rest);
      && (kind == 0 || kind == 15 ==> r == Fail(ForbiddenType))
      && (1 <= kind <= 14 && kind != 3 && flags != (if kind in {6, 8, 10} then 2 else 0) ==> r == Fail(InvalidFlags))
      && (kind in {1, 8, 10, 12, 14} && flags == (if kind in {8, 10} then 2 else 0) ==> r == Fail(InvalidControlType))
      && (kind in {2, 4, 5, 7, 11} && flags == 0 && n != 2 ==> r == Fail(MalformedResponse))
      && (first == 0x62 && n != 2 ==> r == Fail(MalformedResponse))
      && (first == 0x90 && n < 3 ==> r == Fail(MalformedResponse))
      && (kind == 3 && n < 4 ==> r == Fail(MalformedResponse))
  {
    hide EncodeLength, ParseResponse, ParsePublish;
    BodyDecoded(first, body, rest);
    if |body| < 4 {
      PublishTooShort(FixedHeader(first / 16, first % 16, |body|), body);
    }
  }

  lemma PublishTooShort(h: FixedHeader, body: seq<Byte>)
    requires h.remaining == |body| < 4
    ensures ParsePublish(h, body) == Fail(MalformedResponse)
  {
  }

  /** A length field of more than four octets is refused. */
  lemma LongLengthRefused(s: seq<Byte>)
    requires |s| >= 5 && forall i :: 1 <= i < 5 ==> s[i] >= 128
    ensures ParseResponse(s) == Fail(InvalidRemainingLength)
  {
    hide ParseBody;
    assert s[1..][1..] == s[2..] && s[2..][1..] == s[3..] && s[3..][1..] == s[4..];
    assert s[4..][0] >= 128 && s[3..][0] >= 128 && s[2..][0] >= 128 && s[1..][0] >= 128;
    assert ParseLength(s[4..], 3) == Fail(InvalidRemainingLength);
    assert ParseLength(s[3..], 2) == Fail(InvalidRemainingLength);
    assert ParseLength(s[2..], 1) == Fail(InvalidRemainingLength);
  }

  // ---------------------------------------------------------------- packets of the client

  /** PUBACK, PUBREC, PUBREL and PUBCOMP */
  lemma AckSent(kind: Nibble, id: U16)
    requires 4 <= kind <= 7
    ensures PackAck(kind, id) == [if kind == 6 then 0x62 else 16 * kind, 2, id / 256, id % 256]
  {
  }

  /** PUBLISH: without quality of service, the DUP flag is clear and there is no identifier. */
  lemma PublishSent(topic: seq<Byte>, id: U16, message: seq<Byte>, flags: Byte)
    requires |topic| < 0x1_0000
    ensures var qos := flags / 2 % 4;
      var first := 0x30 + if qos == 0 then flags % 8 else flags % 16;
      var ids := if qos > 0 then [id / 256, id % 256] else [];
      var body := [|topic| / 256, |topic| % 256] + topic + ids + message;
      PackPublish(topic, id, message, flags) ==
        if qos == 3 then PackError(PublishForbiddenQos)
        else if |body| >= 0x1000_0000 then PackError(InvalidRemainingLength)
        else Packet([first] + EncodeLength(|body|) + body)
  {
    hide EncodeLength;
    var qos := flags / 2 % 4;
    if qos != 3 && PackPublish(topic, id, message, flags).Packet? {
      PacketParts(topic, id, message, flags);
    }
  }

  /** CONNECT, PINGREQ and DISCONNECT around the given contents */
  lemma PlainSent(kind: Nibble, body: seq<Byte>)
    requires kind in {1, 12, 14} && |body| < 0x1000_0000
    ensures PacketOf(Plain(kind, 0, body)) == Packet([16 * kind] + EncodeLength(|body|) + body)
  {
    hide EncodeLength;
  }

  /** SUBSCRIBE and UNSUBSCRIBE with one topic filter: `tail` is the requested quality of service, or
      nothing. */
  lemma SubscribeSent(kind: Nibble, id: U16, filter: seq<Byte>, tail: seq<Byte>)
    requires kind in {8, 10} && |filter| < 0x1_0000 && |tail| <= 1
    ensures var body := [id / 256, id % 256, |filter| / 256, |filter| % 256] + filter + tail;
      PacketOf(Plain(kind, 2, U16Bytes(id) + EncodeString(filter) + tail))
        == Packet([16 * kind + 2] + EncodeLength(|body|) + body)
  {
    hide EncodeLength;
    var n := |filter|;
    assert n % 0x1_0000 == n && filter[..n] == filter;
    assert U16Bytes(id) + EncodeString(filter) + tail
        == [id / 256, id % 256, |filter| / 256, |filter| % 256] + filter + tail;
  }
}
