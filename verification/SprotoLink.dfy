/** Two SUPLA ends and the connection between them: packets appended at one end, drained in any
    pieces, fed in any chunks and popped at the other end (supla-common/proto.c). */
module SprotoLink {
  import opened Limbs
  import opened Sproto

  /** sproto_sdp_init and sproto_set_data: the structure carries the packet. */
  method Compose(proto: Proto, sdp: array<Byte>, callId: U32, data: seq<Byte>) returns (r: Result)
    requires proto.Valid() && sdp.Length == SDP_SIZE && sdp != proto.input.buffer && sdp != proto.output.buffer
    modifies proto`nextRrId, sdp
    ensures proto.Valid() && r == if |data| > MAX_DATA_SIZE then False else True
    ensures proto.nextRrId == if old(proto.nextRrId) == 0xFFFF_FFFF then 1 else old(proto.nextRrId) + 1
    ensures r.True? ==>
      sdp[..HEADER_SIZE + |data|] == Encode(Packet(proto.version, proto.nextRrId, callId, data))
  {
    hide U32Bytes, Encode;
    proto.InitSdp(sdp);
    ghost var head, before := sdp[..HEADER_SIZE], sdp[..];
    r := SetData(sdp, data, callId);
    if r.True? {
      HeadKept(before, sdp[..], head);
      Composed(sdp[..], head, proto.version, proto.nextRrId, callId, data);
    }
  }

  lemma HeadKept(before: seq<Byte>, s: seq<Byte>, head: seq<Byte>)
    requires |before| == |s| == SDP_SIZE && head == before[..HEADER_SIZE] && s[..10] == before[..10]
    ensures s[..10] == head[..10]
  {
  }

  lemma Composed(s: seq<Byte>, head: seq<Byte>, version: Byte, rrId: U32, callId: U32, data: seq<Byte>)
    requires |data| <= MAX_DATA_SIZE && |s| == SDP_SIZE && |head| == HEADER_SIZE
    requires head == Encode(Packet(version, rrId, 0, [])) && s[..10] == head[..10]
    requires s[10..14] == U32Bytes(callId) && s[14..18] == U32Bytes(|data|) && s[18..18 + |data|] == data
    ensures s[..HEADER_SIZE + |data|] == Encode(Packet(version, rrId, callId, data))
  {
    hide U32Bytes;
    EncodeFields(Packet(version, rrId, 0, []));
    EncodeFields(Packet(version, rrId, callId, data));
    assert head[..10] == TAG + [version] + U32Bytes(rrId);
    assert s[..HEADER_SIZE + |data|] == s[..10] + s[10..14] + s[14..18] + s[18..18 + |data|];
    assert TAG + [version] + U32Bytes(rrId) + U32Bytes(callId) + U32Bytes(|data|) + data
        == Encode(Packet(version, rrId, callId, data));
  }

  // ------------------------------------------------------------------------ the connection

  /** What is on its way from the packets appended to the packets popped. */
  ghost predicate InTransit(received: seq<Byte>, wire: seq<Byte>, waiting: seq<Byte>, ps: seq<Packet>) {
    AllWellFormed(ps) && received + wire + waiting == Stream(ps)
  }

  lemma TransitAppend(received: seq<Byte>, wire: seq<Byte>, waiting: seq<Byte>, ps: seq<Packet>, p: Packet)
    requires InTransit(received, wire, waiting, ps) && WellFormed(p)
    ensures InTransit(received, wire, waiting + Encode(p) + TAG, ps + [p])
  {
    hide Encode;
    StreamAppend(ps, p);
    assert received + wire + (waiting + Encode(p) + TAG) == received + wire + waiting + Frame(p);
  }

  /** What the reader finds at the front of the stream. */
  lemma TransitExamine(received: seq<Byte>, wire: seq<Byte>, waiting: seq<Byte>, ps: seq<Packet>)
    requires InTransit(received, wire, waiting, ps)
    ensures Examine(received).Wait? || Examine(received).Ready?
    ensures Examine(received).Ready? ==>
      var n := Examine(received).n;
      && |ps| > 0 && n == |Encode(ps[0])| && received[..n] == Encode(ps[0])
      && InTransit(received[n + TAG_SIZE..], wire, waiting, ps[1..])
    ensures Examine(received).Wait? && wire == [] && waiting == [] ==> ps == []
  {
    hide Encode, Examine;
    if |ps| == 0 {
      assert |received| == 0;
      ExamineEmpty();
    } else {
      var p, later := ps[0], Stream(ps[1..]);
      assert received <= Frame(p) + later;
      ExamineStream(p, received, later);
      if |received| >= |Frame(p)| {
        var k := |Frame(p)|;
        assert received[k..] + wire + waiting == (received + wire + waiting)[k..];
        assert (Frame(p) + later)[k..] == later;
      }
    }
  }

  /** The next packet sent, and no other, has been popped into the structure. */
  ghost predicate PoppedNext(before: seq<Packet>, sent: seq<Packet>, got: seq<Packet>, sdp: seq<Byte>) {
    var k := |before|;
    && k < |sent| && got == before + [sent[k]]
    && |sent[k].data| <= MAX_DATA_SIZE && Encode(sent[k]) <= sdp
  }

  lemma TransitMove(received: seq<Byte>, wire: seq<Byte>, data: seq<Byte>, waiting: seq<Byte>, ps: seq<Packet>)
    requires InTransit(received, wire, data + waiting, ps)
    ensures InTransit(received, wire + data, waiting, ps)
  {
    assert received + wire + (data + waiting) == received + (wire + data) + waiting;
  }

  lemma TransitFeed(received: seq<Byte>, wire: seq<Byte>, n: nat, waiting: seq<Byte>, ps: seq<Packet>)
    requires InTransit(received, wire, waiting, ps) && n <= |wire|
    ensures InTransit(received + wire[..n], wire[n..], waiting, ps)
  {
    assert received + wire + waiting == (received + wire[..n]) + wire[n..] + waiting;
  }

  lemma ExamineEmpty()
    ensures Examine([]) == Wait
  {
  }

  datatype Move = Call(callId: U32, data: seq<Byte>) | Drain(n: nat) | Feed(m: nat) | Pop

  class Link {
    const near: Proto
    const far: Proto
    var wire: seq<Byte>

    /** the packets appended and the packets popped */
    ghost var sent: seq<Packet>
    ghost var got: seq<Packet>
    /** an append has failed in the middle of a packet, or arriving octets did not fit */
    ghost var broken: bool

    ghost predicate Valid()
      reads this, near, far, near.input, near.output, far.input, far.output
      reads near.input.buffer, near.output.buffer, far.input.buffer, far.output.buffer
    {
      && near != far && {near.input, near.output} !! {far.input, far.output}
      && {near.input.buffer, near.output.buffer} !! {far.input.buffer, far.output.buffer}
      && near.Valid() && far.Valid() && PROTO_VERSION_MIN <= near.version <= PROTO_VERSION
      && (!broken ==> got <= sent)
      && (!broken ==> InTransit(far.input.Contents(), wire, near.output.Contents(), sent[|got|..]))
    }

    constructor ()
      ensures Valid() && sent == [] && got == [] && !broken && fresh(near) && fresh(far)
      ensures fresh(near.input) && fresh(near.output) && fresh(far.input) && fresh(far.output)
      ensures fresh(near.input.buffer) && fresh(near.output.buffer)
      ensures fresh(far.input.buffer) && fresh(far.output.buffer)
    {
      near := new Proto();
      far := new Proto();
      wire := [];
      sent, got, broken := [], [], false;
    }

    /** A call of the near end: the packet is appended, or refused as a whole, or, if just its
        closing tag does not fit, torn. */
    method Send(callId: U32, data: seq<Byte>) returns (r: Result)
      requires Valid()
      modifies this`sent, this`broken, near`nextRrId, near.output, near.output.buffer
      ensures Valid() && (near.output.buffer == old(near.output.buffer) || fresh(near.output.buffer))
      ensures got == old(got) && wire == old(wire)
      ensures var n := old(near.output.dataSize) + HEADER_SIZE + |data|;
        r.True? <==> |data| <= MAX_DATA_SIZE && n + TAG_SIZE < BUFFER_MAX_SIZE
      ensures sent == if r.True? then old(sent) + [Packet(near.version, near.nextRrId, callId, data)] else old(sent)
      ensures var n := old(near.output.dataSize) + HEADER_SIZE + |data|;
        r.BufferOverflow? <==> |data| <= MAX_DATA_SIZE && n < BUFFER_MAX_SIZE <= n + TAG_SIZE
      ensures broken == (old(broken) || r.BufferOverflow?)
    {
      hide Encode, InTransit, Examine, TotalSize;
      var sdp := new Byte[SDP_SIZE];
      r := Compose(near, sdp, callId, data);
      if r.True? {
        ghost var p := Packet(near.version, near.nextRrId, callId, data);
        ghost var waiting, ps := near.output.Contents(), sent[if broken then 0 else |got|..];
        StructureIs(p, sdp[..]);
        r := near.OutAppend(sdp);
        if r.True? {
          sent := sent + [p];
          if !broken {
            TransitAppend(far.input.Contents(), wire, waiting, ps, p);
            assert sent[|got|..] == ps + [p];
          }
        } else {
          broken := broken || r.BufferOverflow?;
        }
      }
    }

    /** sproto_pop_out_data: up to n octets go on their way. */
    method Transmit(n: nat)
      requires Valid()
      modifies this`wire, near.output, near.output.buffer
      ensures Valid() && (near.output.buffer == old(near.output.buffer) || fresh(near.output.buffer))
      ensures wire + near.output.Contents() == old(wire + near.output.Contents())
      ensures |wire| == |old(wire)| + (if n < old(near.output.dataSize) then n else old(near.output.dataSize))
    {
      hide Examine, InTransit;
      ghost var w := wire;
      var data := near.PopOut(n);
      wire := wire + data;
      if !broken {
        TransitMove(far.input.Contents(), w, data, near.output.Contents(), sent[|got|..]);
      }
      assert w + (data + near.output.Contents()) == (w + data) + near.output.Contents();
    }

    /** sproto_in_buffer_append of the next n octets */
    method Deliver(n: nat) returns (r: Result)
      requires Valid() && n <= |wire| && n <= 0x1_0000_0000 - BUFFER_MAX_SIZE
      modifies this`wire, this`broken, far.input, far.input.buffer
      ensures Valid() && (far.input.buffer == old(far.input.buffer) || fresh(far.input.buffer))
      ensures wire == old(wire)[n..] && (r.BufferOverflow? <==> old(far.input.dataSize) + n >= BUFFER_MAX_SIZE)
      ensures broken == (old(broken) || r.BufferOverflow?)
    {
      hide Examine, InTransit;
      if !broken {
        TransitFeed(far.input.Contents(), wire, n, near.output.Contents(), sent[|got|..]);
      }
      r := far.InAppend(wire[..n]);
      broken := broken || !r.True?;
      wire := wire[n..];
    }

    /** sproto_pop_in_sdp: on an unbroken link never an error; the packets come back in order, each
        once, and all of them if nothing is on its way any more. */
    method Receive(sdp: array<Byte>) returns (r: Result)
      requires Valid() && sdp.Length == SDP_SIZE
      requires sdp !in {near.input.buffer, near.output.buffer, far.input.buffer, far.output.buffer}
      modifies this`got, far`beginTag, far.input, far.input.buffer, sdp
      ensures Valid() && (far.input.buffer == old(far.input.buffer) || fresh(far.input.buffer))
      ensures !broken ==> r.True? || r.False?
      ensures !broken && r.True? ==> PoppedNext(old(got), sent, got, sdp[..])
      ensures !broken && r.False? ==> got == old(got)
      ensures !broken && r.False? && wire == [] && near.output.dataSize == 0 ==> got == sent
    {
      hide Encode, Examine, InTransit;
      ghost var received, ps := far.input.Contents(), sent[if broken then 0 else |got|..];
      if !broken {
        TransitExamine(received, wire, near.output.Contents(), ps);
        TransitLimits(received, wire, near.output.Contents(), ps);
      }
      r := far.PopIn(sdp);
      if !broken && r.True? {
        assert ps[1..] == sent[|got| + 1..];
        got := got + [ps[0]];
      }
    }

    /** The buffers are the ones they were, or new ones. */
    twostate predicate Buffers()
      reads near.input, near.output, far.input, far.output
    {
      && (near.input.buffer == old(near.input.buffer) || fresh(near.input.buffer))
      && (near.output.buffer == old(near.output.buffer) || fresh(near.output.buffer))
      && (far.input.buffer == old(far.input.buffer) || fresh(far.input.buffer))
      && (far.output.buffer == old(far.output.buffer) || fresh(far.output.buffer))
    }

    /** One move; `error` tells whether a pop has ended with one, `failed` whether an append has torn a
        packet or arriving octets have not fitted. */
    method Step(move: Move) returns (error: bool, failed: bool)
      requires Valid() && (move.Feed? ==> move.m <= 0x1_0000_0000 - BUFFER_MAX_SIZE)
      modifies this, near, far, near.input, near.output, far.input, far.output
      modifies near.input.buffer, near.output.buffer, far.input.buffer, far.output.buffer
      ensures Valid() && Buffers() && broken == (old(broken) || failed) && (!broken ==> !error)
    {
      hide InTransit, PoppedNext, Examine;
      error, failed := false, false;
      match move
      case Call(callId, data) =>
        var r := Send(callId, data);
        failed := r.BufferOverflow?;
      case Drain(n) => Transmit(n);
      case Feed(m) =>
        var r := Deliver(if m <= |wire| then m else |wire|);
        failed := r.BufferOverflow?;
      case Pop =>
        var sdp := new Byte[SDP_SIZE];
        var r := Receive(sdp);
        error := !r.True? && !r.False?;
    }

    /** Any sequence of moves; `errors` counts the pops that end with an error, `failed` tells whether
        an append has torn a packet or arriving octets have not fitted.  While none has, the packets
        come back in order, each once, and all of them once nothing is on its way any more. */
    method Run(moves: seq<Move>) returns (errors: nat, failed: bool)
      requires Valid()
      requires forall i :: 0 <= i < |moves| && moves[i].Feed? ==> moves[i].m <= 0x1_0000_0000 - BUFFER_MAX_SIZE
      modifies this, near, far, near.input, near.output, far.input, far.output
      modifies near.input.buffer, near.output.buffer, far.input.buffer, far.output.buffer
      ensures Valid() && broken == (old(broken) || failed)
      ensures !broken ==> errors == 0 && got <= sent && AllWellFormed(sent[|got|..])
      ensures !broken ==> far.input.Contents() + wire + near.output.Contents() == Stream(sent[|got|..])
      ensures !broken && far.input.Contents() == wire == near.output.Contents() == [] ==> got == sent
    {
      hide InTransit, Examine;
      errors, failed := 0, false;
      var i := 0;
      while i < |moves|
        invariant Valid() && Buffers() && 0 <= i <= |moves|
        invariant broken == (old(broken) || failed) && (!broken ==> errors == 0)
        decreases |moves| - i
      {
        var error, bad := Step(moves[i]);
        errors, failed := errors + (if error then 1 else 0), failed || bad;
        i := i + 1;
      }
      if !broken {
        TransitEnds(far.input.Contents(), wire, near.output.Contents(), sent[|got|..]);
      }
    }
  }

  /** The packets on their way are the octets on their way. */
  lemma TransitEnds(received: seq<Byte>, wire: seq<Byte>, waiting: seq<Byte>, ps: seq<Packet>)
    requires InTransit(received, wire, waiting, ps)
    ensures AllWellFormed(ps) && received + wire + waiting == Stream(ps)
    ensures received == wire == waiting == [] ==> ps == []
  {
    hide Encode;
    if |ps| > 0 {
      assert |Stream(ps)| >= TAG_SIZE;
    }
  }

  /** A packet that lost its closing tag, with another one behind it, arrives all the same: the
      opening tag of the next one closes it.  It is that next packet which is lost, with an error,
      as soon as five of its remaining octets have arrived. */
  lemma TornPacket(p: Packet, next: Packet, later: seq<Byte>, s: seq<Byte>)
    requires WellFormed(p) && WellFormed(next) && s <= Encode(p) + Frame(next) + later
    ensures var n := |Encode(p)|;
      if |s| < n + TAG_SIZE then Examine(s) == Wait
      else
        && Examine(s) == Ready(n) && s[..n] == Encode(p)
        && Examine(s[n + TAG_SIZE..]) == if |s| < n + 2 * TAG_SIZE then Wait else BadData
  {
    hide Encode, Examine;
    var n, rest := |Encode(p)|, Frame(next)[TAG_SIZE..] + later;
    EncodeFields(next);
    assert Frame(next)[..TAG_SIZE] == Encode(next)[..TAG_SIZE] == TAG;
    assert Encode(p) + Frame(next) + later == Frame(p) + rest;
    ExamineStream(p, s, rest);
    if |s| >= n + TAG_SIZE {
      var t := s[n + TAG_SIZE..];
      assert t <= rest;
      if |t| > 0 {
        assert t[0] == Frame(next)[TAG_SIZE] == Encode(next)[TAG_SIZE] == next.version;
      }
      NoTag(t);
    }
  }

  lemma NoTag(t: seq<Byte>)
    requires |t| > 0 ==> t[0] <= PROTO_VERSION
    ensures Examine(t) == if |t| < TAG_SIZE then Wait else BadData
  {
    if |t| >= TAG_SIZE {
      assert t[..TAG_SIZE][0] != TAG[0];
    }
  }

  lemma StructureIs(p: Packet, s: seq<Byte>)
    requires |p.data| <= MAX_DATA_SIZE && |s| == SDP_SIZE && s[..HEADER_SIZE + |p.data|] == Encode(p)
    ensures TotalSize(s) == HEADER_SIZE + |p.data|
  {
    hide Encode;
    var n := HEADER_SIZE + |p.data|;
    DecodeEncode(p, s[n..]);
    assert s == Encode(p) + s[n..];
  }

  lemma TransitLimits(received: seq<Byte>, wire: seq<Byte>, waiting: seq<Byte>, ps: seq<Packet>)
    requires InTransit(received, wire, waiting, ps)
    ensures |ps| > 0 ==> |ps[0].data| <= MAX_DATA_SIZE
  {
  }
}
