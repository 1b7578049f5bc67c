/** The packets in a stream of octets from the broker, however the stream is cut (mqtt.c,
    __mqtt_recv; section 2.2.3 of MQTT 3.1.1). */
module MqttStream {
  import opened Limbs
  import opened MqttCodec

  /** The packets at the front of the stream, until one is incomplete or wrong. */
  function Packets(s: seq<Byte>): seq<Response>
    decreases |s|
  {
    match ParseResponse(s)
    case Got(r, n) => (ResponseStable(s, []); [r] + Packets(s[n..]))
    case _ => []
  }

  /** What Packets leaves unread. */
  function Unread(s: seq<Byte>): seq<Byte>
    decreases |s|
  {
    match ParseResponse(s)
    case Got(_, n) => (ResponseStable(s, []); Unread(s[n..]))
    case _ => s
  }

  /** A client that decodes as far as it can and keeps the rest sees the same packets. */
  lemma {:induction false} PacketsExtend(s: seq<Byte>, x: seq<Byte>)
    ensures Packets(s + x) == Packets(s) + Packets(Unread(s) + x)
    ensures Unread(s + x) == Unread(Unread(s) + x)
    decreases |s|
  {
    hide ParseResponse;
    var p := ParseResponse(s);
    if p.Got? {
      ResponseStable(s, []);
      ResponseStable(s, x);
      assert (s + x)[p.used..] == s[p.used..] + x;
      PacketsExtend(s[p.used..], x);
    }
  }

  function Joined(chunks: seq<seq<Byte>>): seq<Byte> {
    if chunks == [] then [] else chunks[0] + Joined(chunks[1..])
  }

  /** Decoding chunk by chunk, from the unread octets in the buffer on. */
  function ChunkPackets(unread: seq<Byte>, chunks: seq<seq<Byte>>): seq<Response>
    decreases |chunks|
  {
    if chunks == [] then []
    else Packets(unread + chunks[0]) + ChunkPackets(Unread(unread + chunks[0]), chunks[1..])
  }

  /** Any chunking of a stream gives the same packets. */
  lemma {:induction false} AnyChunking(unread: seq<Byte>, chunks: seq<seq<Byte>>)
    requires Packets(unread) == []
    ensures ChunkPackets(unread, chunks) == Packets(unread + Joined(chunks))
    decreases |chunks|
  {
    hide Packets, Unread;
    if chunks == [] {
      assert unread + [] == unread;
    } else {
      var s, x := unread + chunks[0], Joined(chunks[1..]);
      UnreadEmpty(s);
      AnyChunking(Unread(s), chunks[1..]);
      PacketsExtend(s, x);
      assert unread + Joined(chunks) == s + x;
    }
  }

  lemma {:induction false} UnreadEmpty(s: seq<Byte>)
    ensures Packets(Unread(s)) == []
    decreases |s|
  {
    hide ParseResponse;
    var p := ParseResponse(s);
    if p.Got? {
      ResponseStable(s, []);
      UnreadEmpty(s[p.used..]);
    }
  }

  // ------------------------------------------------------------------ one by one

  /** The packets hs lie at the front of the stream and take n octets. */
  ghost predicate Reads(s: seq<Byte>, hs: seq<Response>, n: nat)
    decreases |hs|
  {
    if hs == [] then n == 0
    else
      var p := ParseResponse(s);
      p.Got? && p.value == hs[0] && p.used <= n <= |s| && Reads(s[p.used..], hs[1..], n - p.used)
  }

  /** More input changes nothing. */
  lemma {:induction false} ReadsExtend(s: seq<Byte>, hs: seq<Response>, n: nat, x: seq<Byte>)
    requires Reads(s, hs, n)
    ensures Reads(s + x, hs, n) && n <= |s|
    decreases |hs|
  {
    hide ParseResponse;
    if hs != [] {
      var p := ParseResponse(s);
      ResponseStable(s, x);
      assert (s + x)[p.used..] == s[p.used..] + x;
      ReadsExtend(s[p.used..], hs[1..], n - p.used, x);
    }
  }

  /** The next packet. */
  lemma {:induction false} ReadsNext(s: seq<Byte>, hs: seq<Response>, n: nat, r: Response, used: nat)
    requires Reads(s, hs, n) && n <= |s| && ParseResponse(s[n..]) == Got(r, used)
    ensures Reads(s, hs + [r], n + used) && n + used <= |s|
    decreases |hs|
  {
    hide ParseResponse;
    if hs == [] {
      assert s[0..] == s && hs + [r] == [r];
      ResponseStable(s, []);
      assert Reads(s[used..], [], 0);
    } else {
      var p := ParseResponse(s);
      assert s[p.used..][n - p.used..] == s[n..];
      ReadsNext(s[p.used..], hs[1..], n - p.used, r, used);
      assert (hs + [r])[1..] == hs[1..] + [r];
    }
  }

  /** When no further packet is ready, all packets have been read. */
  lemma {:induction false} ReadsAll(s: seq<Byte>, hs: seq<Response>, n: nat)
    requires Reads(s, hs, n) && n <= |s|
    ensures hs <= Packets(s)
    ensures !ParseResponse(s[n..]).Got? ==> hs == Packets(s) && s[n..] == Unread(s)
    decreases |hs|
  {
    hide ParseResponse;
    if hs == [] {
      assert s[0..] == s;
    } else {
      var p := ParseResponse(s);
      assert s[p.used..][n - p.used..] == s[n..];
      ReadsAll(s[p.used..], hs[1..], n - p.used);
      assert hs == [hs[0]] + hs[1..];
    }
  }

  // ------------------------------------------------------------- packets and the buffer

  lemma {:induction false} LengthPrefix(s: seq<Byte>, k: nat, n: nat)
    requires k <= 4 && ParseLength(s, k).Got? && ParseLength(s, k).used <= n <= |s|
    ensures ParseLength(s[..n], k) == ParseLength(s, k)
    decreases 4 - k
  {
    assert n > 0 ==> s[..n][0] == s[0];
    if s[0] >= 128 {
      assert s[..n][1..] == s[1..][..n - 1];
      LengthPrefix(s[1..], k + 1, n - 1);
    }
  }

  /** A buffer that is full without a packet is smaller than the packet that arrives. */
  lemma FullBufferTooSmall(buf: seq<Byte>, x: seq<Byte>)
    requires ParseResponse(buf).Wait? && ParseHeader(buf + x).Got?
    ensures |buf| < ParseHeader(buf + x).used + ParseHeader(buf + x).value.remaining
  {
    hide ParseBody;
    var s, n := buf + x, |buf|;
    var h := ParseHeader(s);
    if n >= h.used + h.value.remaining {
      LengthUsed(s[1..], 0);
      assert s[1..][..n - 1] == buf[1..];
      LengthPrefix(s[1..], 0, n - 1);
      HeaderSame(buf, s);
    }
  }

  lemma HeaderSame(a: seq<Byte>, b: seq<Byte>)
    requires |a| > 0 && |b| > 0 && a[0] == b[0] && ParseLength(a[1..], 0) == ParseLength(b[1..], 0)
    requires ParseHeader(b).Got?
    ensures ParseHeader(a) == ParseHeader(b) || |a| < ParseHeader(b).used + ParseHeader(b).value.remaining
  {
  }

  lemma LengthUsed(s: seq<Byte>, k: nat)
    requires k <= 4
    ensures ParseLength(s, k).Got? ==> ParseLength(s, k).used > 0
  {
  }

  /** The least length that the packet at the front can have: what its header announces, or more
      than the octets there are while the length field is incomplete. */
  function LeastSize(s: seq<Byte>): nat {
    if |s| > 0 && ParseLength(s[1..], 0).Got?
    then 1 + ParseLength(s[1..], 0).used + ParseLength(s[1..], 0).value
    else |s| + 1
  }

  /** Every packet of the stream, also one that has not arrived completely, fits the buffer. */
  ghost predicate AllFit(s: seq<Byte>, capacity: nat)
    decreases |s|
  {
    LeastSize(s) <= capacity &&
    match ParseResponse(s)
    case Got(_, n) => (ResponseStable(s, []); AllFit(s[n..], capacity))
    case _ => true
  }

  /** The buffer is full without a packet: then the packet that arrives is longer. */
  lemma FullBufferLeast(buf: seq<Byte>, x: seq<Byte>)
    requires ParseResponse(buf).Wait?
    ensures |buf| < LeastSize(buf + x)
  {
    hide ParseBody;
    var s := buf + x;
    if |buf| > 0 && ParseLength(s[1..], 0).Got? {
      LengthUsed(s[1..], 0);
      var r := ParseLength(s[1..], 0);
      if 1 + r.used <= |buf| {
        assert s[1..][..|buf| - 1] == buf[1..];
        LengthPrefix(s[1..], 0, |buf| - 1);
      }
    }
  }

  /** After the packets read, the rest of the stream fits as well. */
  lemma {:induction false} RestFits(s: seq<Byte>, hs: seq<Response>, n: nat, capacity: nat)
    requires Reads(s, hs, n) && n <= |s| && AllFit(s, capacity)
    ensures AllFit(s[n..], capacity)
    decreases |hs|
  {
    hide ParseResponse;
    if hs == [] {
      assert s[0..] == s;
    } else {
      var p := ParseResponse(s);
      assert s[p.used..][n - p.used..] == s[n..];
      RestFits(s[p.used..], hs[1..], n - p.used, capacity);
    }
  }

  /** So a receiver whose packets all fit never waits with a full buffer. */
  lemma NeverTooSmall(stream: seq<Byte>, hs: seq<Response>, n: nat, rest: seq<Byte>, capacity: nat)
    requires Reads(stream, hs, n) && n <= |stream| && AllFit(stream + rest, capacity)
    requires |stream| - n == capacity
    ensures !ParseResponse(stream[n..]).Wait?
  {
    hide ParseResponse, LeastSize;
    ReadsExtend(stream, hs, n, rest);
    RestFits(stream + rest, hs, n, capacity);
    assert (stream + rest)[n..] == stream[n..] + rest;
    if ParseResponse(stream[n..]).Wait? {
      FullBufferLeast(stream[n..], rest);
    }
  }
}
