/** Runs of one end of a SUPLA connection: remote calls, rounds of srpc_iterate and packets taken
    by the application, in any order and over any pieces (supla-common/srpc.c). */
module SrpcRuns {
  import opened Limbs
  import opened Sproto
  import opened SprotoLink
  import opened Srpc

  /** Each structure holds its packet. */
  predicate Hold(q: seq<Sdp>, ps: seq<Packet>) {
    |q| == |ps| && forall i :: 0 <= i < |q| ==> |ps[i].data| <= MAX_DATA_SIZE && Encode(ps[i]) <= q[i]
  }

  lemma HoldNext(q: seq<Sdp>, ps: seq<Packet>, q': seq<Sdp>, p: Packet)
    requires Hold(q, ps) && Queued(q, q', p)
    ensures Hold(q', ps + [p])
  {
    hide Encode;
    assert forall i :: 0 <= i < |q| ==> q'[i] == q'[..|q|][i];
  }

  lemma HoldLength(q: seq<Sdp>, ps: seq<Packet>)
    requires Hold(q, ps)
    ensures |q| == |ps|
  {
  }

  lemma HoldRest(q: seq<Sdp>, ps: seq<Packet>)
    requires Hold(q, ps) && |q| > 0
    ensures |ps| == |q| && Hold(q[1..], ps[1..]) && |ps[0].data| <= MAX_DATA_SIZE && Encode(ps[0]) <= q[0]
  {
    hide Encode;
  }

  lemma HoldWithout(q: seq<Sdp>, ps: seq<Packet>, k: nat)
    requires Hold(q, ps) && k < |q|
    ensures |ps| == |q| && Hold(Without(q, k), ps[..k] + ps[k + 1..])
  {
    hide Encode;
  }

  // ------------------------------------------------------------------------ the way out

  /** The calls accepted; the marks of those that have left the queue, true if the frame was
      appended whole; whether a frame was torn; and the octets written. */
  datatype Outward = Outward(calls: seq<Packet>, marks: seq<bool>, torn: bool, written: seq<Byte>)

  /** The packets marked true */
  function Chosen(ps: seq<Packet>, marks: seq<bool>): (r: seq<Packet>)
    requires |ps| == |marks|
    ensures forall i :: 0 <= i < |r| ==> r[i] in ps
  {
    if |ps| == 0 then []
    else
      var n := |ps| - 1;
      Chosen(ps[..n], marks[..n]) + if marks[n] then [ps[n]] else []
  }

  lemma {:induction false} AllChosen(ps: seq<Packet>, marks: seq<bool>)
    requires |ps| == |marks| && forall i :: 0 <= i < |marks| ==> marks[i]
    ensures Chosen(ps, marks) == ps
  {
    if |ps| > 0 {
      AllChosen(ps[..|ps| - 1], marks[..|ps| - 1]);
    }
  }

  lemma ChosenNext(calls: seq<Packet>, marks: seq<bool>, mark: bool)
    requires AllWellFormed(calls) && |marks| < |calls|
    ensures var k := |marks|;
      Chosen(calls[..k + 1], marks + [mark]) == Chosen(calls[..k], marks) + if mark then [calls[k]] else []
    ensures AllWellFormed(Chosen(calls[..|marks|], marks))
  {
    var k := |marks|;
    assert calls[..k + 1][..k] == calls[..k] && (marks + [mark])[..k] == marks;
  }

  /** The calls that have not left the queue are in it.  Unless a frame was torn, the octets written
      and those in the buffer are the frames appended, in the order of the calls. */
  ghost predicate Out(o: Outward, s: seq<Byte>, q: seq<Sdp>) {
    && AllWellFormed(o.calls) && |o.marks| <= |o.calls| && Hold(q, o.calls[|o.marks|..])
    && (!o.torn ==> o.written + s == Stream(Chosen(o.calls[..|o.marks|], o.marks)))
  }

  lemma OutCall(o: Outward, s: seq<Byte>, q: seq<Sdp>, q': seq<Sdp>, p: Packet)
    requires Out(o, s, q) && Queued(q, q', p) && WellFormed(p)
    ensures Out(o.(calls := o.calls + [p]), s, q')
  {
    hide Hold, Queued;
    var k := |o.marks|;
    HoldNext(q, o.calls[k..], q', p);
    assert (o.calls + [p])[k..] == o.calls[k..] + [p] && (o.calls + [p])[..k] == o.calls[..k];
  }

  /** The writing half of a round: the first packet of the queue gets its mark. */
  function AfterWrite(o: Outward, s: seq<Byte>, q: seq<Sdp>, more: seq<Byte>): Outward {
    if |q| == 0 then o.(written := o.written + more)
    else
      var r := OutResult(s, q[0]);
      Outward(o.calls, o.marks + [r.True?], o.torn || r.BufferOverflow?, o.written + more)
  }

  /** What becomes of a packet at the front of the queue when n octets are in the buffer */
  function FrameResult(n: nat, p: Packet): Result {
    var size := 18 + |p.data|;
    if n + size >= 2048 then False
    else if n + size + 5 >= 2048 then BufferOverflow
    else True
  }

  lemma OutRound(o: Outward, s: seq<Byte>, q: seq<Sdp>, s': seq<Byte>, q': seq<Sdp>, more: seq<Byte>)
    requires Out(o, s, q) && WriteResult(s, q, s', q', more)
    ensures Out(AfterWrite(o, s, q, more), s', q')
    ensures |q| > 0 ==> OutResult(s, q[0]) == FrameResult(|s|, o.calls[|o.marks|])
  {
    hide Encode, OutResult, FrameResult, Added, Chosen, Hold, Stream;
    var k := |o.marks|;
    HoldLength(q, o.calls[k..]);
    if |q| > 0 {
      HoldRest(q, o.calls[k..]);
      var p := o.calls[k];
      assert o.calls[k..][1..] == o.calls[k + 1..];
      HeldIs(s, q[0], p);
      ChosenNext(o.calls, o.marks, OutResult(s, q[0]).True?);
      if !o.torn {
        OutOctets(o.written, s, more, s', Chosen(o.calls[..k], o.marks), q[0], p);
      }
    } else {
      assert o.written + more + s' == o.written + (more + s');
      assert s + [] == s;
    }
  }

  lemma OutOctets(written: seq<Byte>, s: seq<Byte>, more: seq<Byte>, s': seq<Byte>, done: seq<Packet>, x: Sdp,
                  p: Packet)
    requires AllWellFormed(done) && WellFormed(p) && Encode(p) <= x
    requires written + s == Stream(done) && more + s' == s + Added(s, x)
    ensures !OutResult(s, x).BufferOverflow? ==>
      written + more + s' == Stream(done + if OutResult(s, x).True? then [p] else [])
  {
    hide Encode, OutResult, Stream;
    HeldIs(s, x, p);
    StreamAppend(done, p);
    assert written + more + s' == written + (more + s');
    assert written + (s + Added(s, x)) == (written + s) + Added(s, x);
    assert done + [] == done;
    if OutResult(s, x).False? {
      assert Added(s, x) == [];
    }
  }

  lemma HeldIs(s: seq<Byte>, x: Sdp, p: Packet)
    requires |p.data| <= MAX_DATA_SIZE && Encode(p) <= x
    ensures OutResult(s, x) == FrameResult(|s|, p)
    ensures OutResult(s, x).True? ==> Added(s, x) == Frame(p)
    ensures !OutResult(s, x).DataTooLarge?
  {
    hide Encode, TotalSize;
    EncodeFields(p);
    assert x[..|Encode(p)|] == Encode(p);
    StructureIs(p, x);
  }

  // ------------------------------------------------------------------------- the way in

  /** How many of the peer's packets have arrived; those the application has taken and those in the
      queue; whether an arrival has been missed; and the octets still to come. */
  datatype Inward = Inward(arrived: nat, taken: seq<Packet>, open: seq<Packet>, missed: bool, coming: seq<Byte>)

  /** Unless an arrival has been missed: each packet that has arrived has been taken or is in the
      queue, and the octets in the buffer and those to come are the frames of the others. */
  ghost predicate In(peer: seq<Packet>, i: Inward, s: seq<Byte>, q: seq<Sdp>) {
    !i.missed ==>
      && AllWellFormed(peer) && i.arrived <= |peer| && InTransit(s, i.coming, [], peer[i.arrived..])
      && Hold(q, i.open) && multiset(i.taken) + multiset(i.open) == multiset(peer[..i.arrived])
  }

  /** What data_read delivers are the next octets, up to 256, or an error. */
  predicate Comes(read: Read, i: Inward) {
    read.Octets? ==> |read.data| <= SRPC_BUFFER_SIZE && read.data <= i.coming
  }

  /** The octets in the buffer when the reader looks at them */
  function Buffered(read: Read, s: seq<Byte>): seq<Byte> {
    s + if read.Octets? then read.data else []
  }

  /** A round that loses something: octets that do not fit the buffer, or a packet that finds the
      queue full. */
  predicate Misses(read: Read, s: seq<Byte>, q: seq<Sdp>) {
    && read != Octets([])
    && ((read.Octets? && |s| + |read.data| >= BUFFER_MAX_SIZE)
        || (Examine(Buffered(read, s)).Ready? && |q| >= SRPC_QUEUE_SIZE))
  }

  /** The reading half of a round */
  function AfterRead(peer: seq<Packet>, i: Inward, read: Read, s: seq<Byte>, q: seq<Sdp>, round: Round): Inward
    requires Comes(read, i)
  {
    Inward(i.arrived + if round.Arrived? then 1 else 0, i.taken,
           if round.Arrived? && i.arrived < |peer| then i.open + [peer[i.arrived]] else i.open,
           i.missed || Misses(read, s, q), if read.Octets? then i.coming[|read.data|..] else i.coming)
  }

  lemma InRound(peer: seq<Packet>, i: Inward, s: seq<Byte>, q: seq<Sdp>, read: Read, before: Sdp,
                s': seq<Byte>, q': seq<Sdp>, round: Round)
    requires In(peer, i, s, q) && ReadResult(read, s, q, before, s', q', round) && Comes(read, i)
    ensures var i' := AfterRead(peer, i, read, s, q, round);
      In(peer, i', s', q') && (!i'.missed ==> (round.Ended? <==> read == Octets([])) && i'.arrived <= |peer|)
  {
    hide InTransit, Hold, TakeResult, ReadResult, Misses, Buffered;
    if !i.missed && !Misses(read, s, q) {
      var t, ps := Buffered(read, s), peer[i.arrived..];
      var rest := if read.Octets? then i.coming[|read.data|..] else i.coming;
      Fed(read, s, i, ps);
      ReadCases(read, s, q, before, s', q', round);
      if read != Octets([]) {
        Taken(t, rest, ps, q, i.open, before, s', q', round);
        if round.Arrived? {
          OneMore(peer, i.arrived, i.taken, i.open);
        }
      }
    }
  }

  /** A round that misses nothing ends the input or looks at what is buffered. */
  lemma ReadCases(read: Read, s: seq<Byte>, q: seq<Sdp>, before: Sdp, s': seq<Byte>, q': seq<Sdp>, round: Round)
    requires ReadResult(read, s, q, before, s', q', round) && !Misses(read, s, q)
    ensures if read == Octets([]) then s' == s == Buffered(read, s) && q' == q && round.Ended?
            else TakeResult(Buffered(read, s), q, before, s', q', round) && Roomy(Buffered(read, s), q)
  {
    hide Examine, TakeResult;
  }

  /** There is room for the packet at the front, if there is one. */
  predicate Roomy(t: seq<Byte>, q: seq<Sdp>) {
    Examine(t).Ready? ==> |q| < SRPC_QUEUE_SIZE
  }

  lemma OneMore(peer: seq<Packet>, n: nat, taken: seq<Packet>, open: seq<Packet>)
    requires n < |peer| && multiset(taken) + multiset(open) == multiset(peer[..n])
    ensures multiset(taken) + multiset(open + [peer[n]]) == multiset(peer[..n + 1])
    ensures peer[n..][0] == peer[n] && peer[n..][1..] == peer[n + 1..]
  {
    assert peer[..n + 1] == peer[..n] + [peer[n]];
  }

  /** The octets that have been read come from those on their way. */
  lemma Fed(read: Read, s: seq<Byte>, i: Inward, ps: seq<Packet>)
    requires InTransit(s, i.coming, [], ps) && Comes(read, i)
    ensures InTransit(Buffered(read, s), if read.Octets? then i.coming[|read.data|..] else i.coming, [], ps)
  {
    hide InTransit;
    if read.Octets? {
      TransitFeed(s, i.coming, |read.data|, [], ps);
      assert i.coming[..|read.data|] == read.data;
    } else {
      assert Buffered(read, s) == s;
    }
  }

  /** With room in the queue, a round waits or the next packet under way arrives. */
  lemma Taken(t: seq<Byte>, rest: seq<Byte>, ps: seq<Packet>, q: seq<Sdp>, open: seq<Packet>, before: Sdp,
              s': seq<Byte>, q': seq<Sdp>, round: Round)
    requires InTransit(t, rest, [], ps) && Hold(q, open) && TakeResult(t, q, before, s', q', round)
    requires Roomy(t, q)
    ensures !round.Ended?
    ensures round.Arrived? ==> |ps| > 0 && InTransit(s', rest, [], ps[1..]) && Hold(q', open + [ps[0]])
    ensures round.Quiet? ==> InTransit(s', rest, [], ps) && Hold(q', open)
  {
    hide Encode, Examine, InTransit, Hold;
    TransitExamine(t, rest, [], ps);
    if round.Arrived? {
      TransitLimits(t, rest, [], ps);
      HoldNext(q, open, q', ps[0]);
    }
  }

  /** The application takes the packet at position k of the queue. */
  function AfterTake(i: Inward, k: nat): Inward {
    if k < |i.open| then i.(taken := i.taken + [i.open[k]], open := i.open[..k] + i.open[k + 1..]) else i
  }

  lemma InTaken(peer: seq<Packet>, i: Inward, s: seq<Byte>, q: seq<Sdp>, k: nat)
    requires In(peer, i, s, q) && k < |q|
    ensures In(peer, AfterTake(i, k), s, Without(q, k)) && (!i.missed ==> k < |i.open|)
  {
    hide Encode, InTransit, Hold, Without;
    if !i.missed {
      HoldWithout(q, i.open, k);
      assert i.open == i.open[..k] + [i.open[k]] + i.open[k + 1..];
    }
  }

  /** Packet k of the queue is the first with the identifier, or the first of all. */
  predicate FirstWith(open: seq<Packet>, k: nat, rrId: U32) {
    && k < |open| && (if rrId == 0 then k == 0 else open[k].rrId == rrId)
    && forall j :: 0 <= j < k ==> open[j].rrId != rrId
  }

  lemma FirstTaken(peer: seq<Packet>, i: Inward, s: seq<Byte>, q: seq<Sdp>, k: nat, rrId: U32)
    requires In(peer, i, s, q) && !i.missed && k == FirstFor(q, rrId)
    ensures k < |q| ==> FirstWith(i.open, k, rrId)
    ensures k == |q| ==> forall p :: p in i.open ==> rrId != 0 && p.rrId != rrId
  {
    hide Encode, FirstFor, RrId, InTransit;
    FirstAny(q);
    forall j | 0 <= j < |q|
      ensures RrId(q[j]) == i.open[j].rrId
    {
      HeldRrId(q[j], i.open[j]);
    }
    assert forall j :: 0 <= j < k ==> RrId(q[j]) == i.open[j].rrId;
  }

  lemma FirstAny(q: seq<Sdp>)
    ensures FirstFor(q, 0) == 0
  {
  }

  lemma HeldRrId(x: Sdp, p: Packet)
    requires |p.data| <= MAX_DATA_SIZE && Encode(p) <= x
    ensures RrId(x) == p.rrId
  {
    hide Encode, U32Of;
    EncodeFields(p);
    assert x[6..10] == Encode(p)[6..10];
    U32RoundTrip(p.rrId);
  }

  lemma Begin(peer: seq<Packet>)
    requires AllWellFormed(peer)
    ensures Out(Outward([], [], false, []), [], []) && In(peer, Inward(0, [], [], false, Stream(peer)), [], [])
  {
    hide Encode;
    assert peer[0..] == peer && peer[..0] == [];
    assert [] + Stream(peer) + [] == Stream(peer);
  }

  // ------------------------------------------------------------------------------ runs

  /** One end of a connection to a peer that sends the given packets. */
  class Session {
    const e: Endpoint
    ghost const peer: seq<Packet>
    ghost var outward: Outward
    ghost var inward: Inward

    ghost predicate Valid()
      reads this, e, e.proto, e.proto.input, e.proto.output, e.proto.input.buffer, e.proto.output.buffer, e.sdp
      reads e.inQueue, e.inQueue.item, e.outQueue, e.outQueue.item
      reads e.inQueue.Blocks(), e.outQueue.Blocks()
    {
      && e.Valid() && this !in e.Footprint()
      && Out(outward, e.View().output, e.View().outQueue)
      && In(peer, inward, e.View().input, e.View().inQueue)
    }

    constructor (ghost peer: seq<Packet>)
      requires AllWellFormed(peer)
      ensures Valid() && this.peer == peer && fresh(e) && fresh(e.Footprint())
      ensures outward == Outward([], [], false, []) && inward == Inward(0, [], [], false, Stream(peer))
    {
      hide Out, In, Endpoint.Valid, Endpoint.View, Queue.Blocks;
      Begin(peer);
      e := new Endpoint();
      this.peer := peer;
      outward := Outward([], [], false, []);
      inward := Inward(0, [], [], false, Stream(peer));
    }

    /** srpc_async__call */
    method Call(callId: U32, data: seq<Byte>) returns (rrId: U32)
      requires Valid()
      modifies this`outward, e.Footprint()
      ensures Valid() && e.Grown()
      ensures rrId != 0 <==> |data| <= MAX_DATA_SIZE && |old(e.View()).outQueue| < SRPC_QUEUE_SIZE
      ensures outward == if rrId == 0 then old(outward)
        else old(outward).(calls := old(outward).calls + [Packet(e.proto.version, rrId, callId, data)])
    {
      hide Out, In, Queued, Endpoint.View;
      ghost var v := e.View();
      rrId := e.AsyncCall(callId, data);
      if rrId != 0 {
        ghost var p := Packet(e.proto.version, rrId, callId, data);
        OutCall(outward, v.output, v.outQueue, e.View().outQueue, p);
        outward := outward.(calls := outward.calls + [p]);
      }
    }

    /** The reading half of a round */
    method ReadHalf(read: Read) returns (round: Round)
      requires Valid() && Comes(read, inward)
      modifies this`inward, e.Footprint()
      ensures Valid() && e.Grown()
      ensures inward == AfterRead(peer, old(inward), read, old(e.View()).input, old(e.View()).inQueue, round)
      ensures !inward.missed ==> (round.Ended? <==> read == Octets([])) && inward.arrived <= |peer|
      ensures e.View().output == old(e.View()).output && e.View().outQueue == old(e.View()).outQueue
    {
      hide Out, In, ReadResult, AfterRead, Endpoint.Valid, Endpoint.View, Endpoint.Counters;
      ghost var v := e.View();
      round := e.ReadRound(read);
      InRound(peer, inward, v.input, v.inQueue, read, v.sdp, e.View().input, e.View().inQueue, round);
      inward := AfterRead(peer, inward, read, v.input, v.inQueue, round);
    }

    /** The writing half of a round */
    method WriteHalf() returns (more: seq<Byte>)
      requires Valid()
      modifies this`outward, e.Footprint()
      ensures Valid() && e.Grown()
      ensures outward == AfterWrite(old(outward), old(e.View()).output, old(e.View()).outQueue, more)
      ensures WriteResult(old(e.View()).output, old(e.View()).outQueue, e.View().output, e.View().outQueue, more)
    {
      hide Out, In, WriteResult, AfterWrite, Endpoint.Valid, Endpoint.View, Endpoint.Counters;
      ghost var v := e.View();
      more := e.WriteRound();
      OutRound(outward, v.output, v.outQueue, e.View().output, e.View().outQueue, more);
      outward := AfterWrite(outward, v.output, v.outQueue, more);
    }

    /** srpc_iterate */
    method Round(read: Read) returns (round: Round, more: seq<Byte>)
      requires Valid() && Comes(read, inward)
      modifies this`outward, this`inward, e.Footprint()
      ensures Valid() && e.Grown()
      ensures inward == AfterRead(peer, old(inward), read, old(e.View()).input, old(e.View()).inQueue, round)
      ensures !inward.missed ==> (round.Ended? <==> read == Octets([])) && inward.arrived <= |peer|
      ensures if round.Ended? then outward == old(outward) && more == []
              else outward == AfterWrite(old(outward), old(e.View()).output, old(e.View()).outQueue, more)
    {
      hide Out, In, AfterRead, WriteResult, AfterWrite, Endpoint.Valid, Endpoint.View, Endpoint.Counters;
      more := [];
      round := ReadHalf(read);
      if !round.Ended? {
        more := WriteHalf();
      }
    }

    /** srpc_getdata, up to the decoding of the packet: the first one, or the first with the identifier */
    method Collect(rrId: U32) returns (r: Result, ghost k: nat)
      requires Valid()
      modifies this`inward, e.Footprint()
      ensures Valid() && e.Grown()
      ensures r == if k < |old(e.View()).inQueue| then True else False
      ensures inward == if r.True? then AfterTake(old(inward), k) else old(inward)
      ensures !inward.missed && r.True? ==> FirstWith(old(inward).open, k, rrId)
      ensures !inward.missed && r.False? ==> forall p :: p in inward.open ==> rrId != 0 && p.rrId != rrId
    {
      hide Out, In, FirstFor, FirstWith, Without, Endpoint.Valid, Endpoint.View, Endpoint.Counters;
      ghost var v := e.View();
      r := e.PopIn(rrId);
      k := FirstFor(v.inQueue, rrId);
      if !inward.missed {
        FirstTaken(peer, inward, v.input, v.inQueue, k, rrId);
      }
      if r.True? {
        InTaken(peer, inward, v.input, v.inQueue, k);
        inward := AfterTake(inward, k);
      }
    }
  }

  /** What happens at one end: a call of the application; a round that finds n octets, or an error if
      n is negative; or the application takes a packet. */
  datatype Move = Request(callId: U32, data: seq<Byte>) | Iterate(n: int) | Fetch(rrId: U32)

  /** What every reachable state satisfies.  As long as no frame has been torn: the octets written
      and those in the buffer are the frames of the calls, in order, without those that found the
      buffer full.  As long as no arrival has been missed: the octets read are the frames of the
      packets that have arrived and the octets in the buffer, and each of these packets has been
      taken by the application once or is in the queue. */
  ghost predicate Conserved(s: Session)
    requires s.Valid()
    reads s, s.e, s.e.proto, s.e.proto.input, s.e.proto.output, s.e.proto.input.buffer, s.e.proto.output.buffer, s.e.sdp
    reads s.e.inQueue, s.e.inQueue.item, s.e.outQueue, s.e.outQueue.item
    reads s.e.inQueue.Blocks(), s.e.outQueue.Blocks()
  {
    var o, i, v := s.outward, s.inward, s.e.View();
    && AllWellFormed(o.calls) && |o.marks| <= |o.calls| && Hold(v.outQueue, o.calls[|o.marks|..])
    && (!o.torn ==> o.written + v.output == Stream(Chosen(o.calls[..|o.marks|], o.marks)))
    && (!o.torn && (forall k :: 0 <= k < |o.marks| ==> o.marks[k]) ==>
         o.written + v.output == Stream(o.calls[..|o.marks|]))
    && (!i.missed ==>
         && AllWellFormed(s.peer) && i.arrived <= |s.peer| && Hold(v.inQueue, i.open)
         && Stream(s.peer) == Stream(s.peer[..i.arrived]) + v.input + i.coming
         && multiset(i.taken) + multiset(i.open) == multiset(s.peer[..i.arrived]))
  }

  lemma {:induction false} StreamSplit(ps: seq<Packet>, k: nat)
    requires AllWellFormed(ps) && k <= |ps|
    ensures Stream(ps) == Stream(ps[..k]) + Stream(ps[k..])
  {
    hide Encode;
    if k == 0 {
      assert ps[0..] == ps;
    } else {
      StreamSplit(ps[1..], k - 1);
      assert ps[..k][1..] == ps[1..][..k - 1] && ps[1..][k - 1..] == ps[k..];
      var a, b, c := Frame(ps[0]), Stream(ps[1..][..k - 1]), Stream(ps[k..]);
      assert a + (b + c) == a + b + c;
    }
  }

  lemma ValidConserves(s: Session)
    requires s.Valid()
    ensures Conserved(s)
  {
    hide Encode, Endpoint.Valid, Endpoint.View, Endpoint.Footprint;
    var o, i, v := s.outward, s.inward, s.e.View();
    if forall k :: 0 <= k < |o.marks| ==> o.marks[k] {
      AllChosen(o.calls[..|o.marks|], o.marks);
    }
    if !i.missed {
      StreamSplit(s.peer, i.arrived);
      assert v.input + i.coming + [] == v.input + i.coming;
      assert Stream(s.peer[..i.arrived]) + (v.input + i.coming) == Stream(s.peer[..i.arrived]) + v.input + i.coming;
    }
  }

  /** Any calls, rounds and packets taken, in any order; `net` is what the peer sends. */
  method Run(s: Session, net: seq<Byte>, moves: seq<Move>) returns (rest: seq<Byte>)
    requires s.Valid() && net == s.inward.coming
    modifies s, s.e.Footprint()
    ensures s.Valid() && Conserved(s) && rest == s.inward.coming
    ensures old(s.outward.calls) <= s.outward.calls && old(s.outward.marks) <= s.outward.marks
    ensures old(s.outward.written) <= s.outward.written && old(s.inward.taken) <= s.inward.taken
    ensures old(s.inward.arrived) <= s.inward.arrived
  {
    hide Out, In, Misses, WriteResult, OutResult, FirstWith, Conserved;
    hide Endpoint.Valid, Endpoint.View, Endpoint.Footprint;
    rest := net;
    var j := 0;
    while j < |moves|
      invariant 0 <= j <= |moves| && s.Valid() && s.e.Grown() && rest == s.inward.coming
      invariant old(s.outward.calls) <= s.outward.calls && old(s.outward.marks) <= s.outward.marks
      invariant old(s.outward.written) <= s.outward.written && old(s.inward.taken) <= s.inward.taken
      invariant old(s.inward.arrived) <= s.inward.arrived
    {
      match moves[j] {
        case Request(callId, data) => var rrId := s.Call(callId, data);
        case Fetch(rrId) =>
          ghost var k;
          var r;
          r, k := s.Collect(rrId);
        case Iterate(n) =>
          var read := Broken;
          if n >= 0 {
            var m := if n <= |rest| then n else |rest|;
            m := if m <= SRPC_BUFFER_SIZE then m else SRPC_BUFFER_SIZE;
            read := Octets(rest[..m]);
            rest := rest[m..];
          }
          var round, more := s.Round(read);
      }
      j := j + 1;
    }
    ValidConserves(s);
  }
}
