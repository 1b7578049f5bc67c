/** The packet queues of the SUPLA remote calls and one round of srpc_iterate
    (supla-common/srpc.c) with the constants of the ESP8266. */
module Srpc {
  import opened Limbs
  import opened Memory
  import opened Sproto
  import opened SprotoLink

  const SRPC_QUEUE_SIZE := 2
  const SRPC_QUEUE_MIN_ALLOC_COUNT := 2
  const SRPC_BUFFER_SIZE := 256

  type Sdp = s: seq<Byte> | |s| == SDP_SIZE witness seq(SDP_SIZE, _ => 0)

  /** rr_id of a structure */
  function RrId(s: Sdp): U32 {
    U32Of(s[6..10])
  }

  /** The packet that srpc_queue_pop takes: the first one, or the first with the identifier. */
  function FirstFor(q: seq<Sdp>, rrId: U32): (k: nat)
    ensures k <= |q|
    ensures k < |q| ==> rrId == 0 || RrId(q[k]) == rrId
    ensures forall j :: 0 <= j < k ==> rrId != 0 && RrId(q[j]) != rrId
  {
    if |q| == 0 || rrId == 0 || RrId(q[0]) == rrId then 0 else 1 + FirstFor(q[1..], rrId)
  }

  function Without(q: seq<Sdp>, k: nat): seq<Sdp>
    requires k < |q|
  {
    q[..k] + q[k + 1..]
  }

  // ----------------------------------------------------------------------------- the queue

  /** Tsrpc_Queue: the packets are the first item_count blocks; the pointers behind them are null
      or blocks kept for reuse.  No two pointers share a block. */
  class Queue {
    const item: array<array?<Byte>>
    var itemCount: nat
    var allocCount: nat

    ghost predicate Valid()
      reads this, item
    {
      && item.Length == SRPC_QUEUE_SIZE && itemCount <= SRPC_QUEUE_SIZE
      && allocCount <= SRPC_QUEUE_MIN_ALLOC_COUNT + itemCount
      && (forall i :: 0 <= i < itemCount ==> item[i] != null)
      && Separate(item[..])
    }

    ghost function Blocks(): set<array<Byte>>
      reads this, item
    {
      BlocksOf(item[..])
    }

    ghost function Contents(): (q: seq<Sdp>)
      requires Valid()
      reads this, item, Blocks()
      ensures |q| == itemCount && forall i :: 0 <= i < itemCount ==> q[i] == item[i][..]
    {
      First(itemCount)
    }

    ghost function First(n: nat): (q: seq<Sdp>)
      requires Valid() && n <= itemCount
      reads this, item, Blocks()
      ensures |q| == n && forall i :: 0 <= i < n ==> q[i] == item[i][..]
    {
      if n == 0 then [] else First(n - 1) + [item[n - 1][..]]
    }

    constructor ()
      ensures Valid() && Contents() == [] && fresh(item) && Blocks() == {}
    {
      item := new array?<Byte>[SRPC_QUEUE_SIZE](_ => null);
      itemCount := 0;
      allocCount := 0;
    }

    /** srpc_queue_push, with a block from the pool if there is one */
    method Push(sdp: array<Byte>) returns (r: Result)
      requires Valid() && sdp.Length == SDP_SIZE && sdp !in Blocks()
      modifies this, item, Blocks()
      ensures Valid() && fresh(Blocks() - old(Blocks()))
      ensures r == if |old(Contents())| < 2 then True else False
      ensures Contents() == if r.True? then old(Contents()) + [sdp[..]] else old(Contents())
      ensures r.False? ==> Blocks() == old(Blocks())
      ensures r.True? ==>
        itemCount > 0 && item[itemCount - 1] != null && Blocks() == old(Blocks()) + {item[itemCount - 1]}
      ensures r.True? && old(item[itemCount]) != null ==> Blocks() == old(Blocks())
      ensures allocCount == old(allocCount) + if r.True? then 1 else 0
    {
      if itemCount >= SRPC_QUEUE_SIZE {
        return False;
      }
      if item[itemCount] == null {
        NewBlock();
      }
      Fill(sdp);
      return True;
    }

    /** malloc of the block behind the packets */
    method NewBlock()
      requires Valid() && itemCount < SRPC_QUEUE_SIZE && item[itemCount] == null
      modifies item
      ensures Valid() && item[itemCount] != null && fresh(item[itemCount])
      ensures Contents() == old(Contents()) && Blocks() == old(Blocks()) + {item[itemCount]}
    {
      ghost var q, items := Contents(), item[..];
      var block := new Byte[SDP_SIZE];
      item[itemCount] := block;
      BlocksSet(items, itemCount, block);
      forall i | 0 <= i < itemCount
        ensures Contents()[i] == q[i]
      {
      }
      assert Contents() == q;
    }

    /** The packet is copied into its block. */
    method Fill(sdp: array<Byte>)
      requires Valid() && sdp.Length == SDP_SIZE && itemCount < SRPC_QUEUE_SIZE
      requires item[itemCount] != null && item[itemCount] != sdp
      modifies this, item[itemCount]
      ensures Valid() && Contents() == old(Contents()) + [sdp[..]] && Blocks() == old(Blocks())
      ensures allocCount == old(allocCount) + 1
    {
      ghost var q, n, items := Contents(), itemCount, item[..];
      allocCount := allocCount + 1;
      CopyOut(sdp, item[itemCount], SDP_SIZE);
      assert item[n][..SDP_SIZE] == item[n][..] && sdp[..SDP_SIZE] == sdp[..];
      itemCount := itemCount + 1;
      forall i | 0 <= i < n
        ensures Contents()[i] == q[i]
      {
        assert items[i] != items[n];
      }
      assert Contents() == q + [sdp[..]];
    }

    /** srpc_queue_pop: the order of the other packets stays; the block goes back to the pool or is
        given up. */
    method Pop(sdp: array<Byte>, rrId: U32) returns (r: Result)
      requires Valid() && sdp.Length == SDP_SIZE && sdp !in Blocks()
      modifies this, item, sdp
      ensures Valid()
      ensures var q := old(Contents()); var k := FirstFor(q, rrId);
        if k < |q| then
          && r == True && sdp[..] == q[k] && Contents() == Without(q, k)
          && Blocks() == Remaining(old(item[..]), k, old(allocCount))
        else r == False && Contents() == q && sdp[..] == old(sdp[..]) && Blocks() == old(Blocks())
      ensures r.True? ==> Released(old(allocCount), allocCount, item[itemCount])
      ensures r.False? ==> allocCount == old(allocCount)
    {
      ghost var q := Contents();
      var a := 0;
      while a < itemCount
        invariant 0 <= a <= itemCount
        invariant forall j :: 0 <= j < a ==> rrId != 0 && RrId(q[j]) != rrId
      {
        assert item[a][..] == q[a] && item[a][6..10] == q[a][6..10];
        if rrId == 0 || U32Of(item[a][6..10]) == rrId {
          FirstIs(q, rrId, a);
          CopyOut(item[a], sdp, SDP_SIZE);
          Remove(a);
          return True;
        }
        a := a + 1;
      }
      FirstIs(q, rrId, a);
      return False;
    }

    /** The block of packet a leaves the queue and ends up behind the others. */
    method Remove(a: nat)
      requires Valid() && a < itemCount
      modifies this, item
      ensures Valid() && Contents() == Without(old(Contents()), a)
      ensures Blocks() == Remaining(old(item[..]), a, old(allocCount))
      ensures Released(old(allocCount), allocCount, item[itemCount])
    {
      ghost var q, s := Contents(), item[..];
      if allocCount > SRPC_QUEUE_MIN_ALLOC_COUNT {
        allocCount := allocCount - 1;
        item[a] := null;
      }
      var spare := item[a];
      var b := a;
      while b < itemCount - 1
        modifies item
        invariant a <= b <= itemCount - 1
        invariant forall j :: 0 <= j < item.Length && j != a && !(a <= j < b) ==> item[j] == s[j]
        invariant forall j :: a <= j < b ==> item[j] == s[j + 1]
      {
        item[b] := item[b + 1];
        b := b + 1;
      }
      itemCount := itemCount - 1;
      item[itemCount] := spare;
      BlocksRotated(s, a, itemCount, spare, item[..]);
    }
  }

  ghost function BlocksOf(s: seq<array?<Byte>>): set<array<Byte>> {
    set i | 0 <= i < |s| && s[i] != null :: s[i]
  }

  /** The blocks left when packet k is taken: its own is given up while more than two are counted. */
  ghost function Remaining(s: seq<array?<Byte>>, k: nat, allocCount: nat): set<array<Byte>> {
    if allocCount > SRPC_QUEUE_MIN_ALLOC_COUNT && k < |s| && s[k] != null then BlocksOf(s) - {s[k]} else BlocksOf(s)
  }

  lemma BlocksSet(s: seq<array?<Byte>>, n: nat, block: array<Byte>)
    requires n < |s| && s[n] == null
    ensures BlocksOf(s[n := block]) == BlocksOf(s) + {block}
  {
    forall x | x in BlocksOf(s)
      ensures x in BlocksOf(s[n := block])
    {
      var i :| 0 <= i < |s| && s[i] == x;
      assert s[n := block][i] == x;
    }
    assert s[n := block][n] == block;
  }

  /** Entry a moves behind entry n, or is given up. */
  lemma BlocksRotated(s: seq<array?<Byte>>, a: nat, n: nat, spare: array?<Byte>, s': seq<array?<Byte>>)
    requires a <= n < |s| == |s'| && Separate(s) && s[a] != null && (spare == null || spare == s[a])
    requires forall j :: 0 <= j < |s| && !(a <= j <= n) ==> s'[j] == s[j]
    requires forall j :: a <= j < n ==> s'[j] == s[j + 1]
    requires s'[n] == spare
    ensures BlocksOf(s') == if spare == null then BlocksOf(s) - {s[a]} else BlocksOf(s)
  {
    forall x | x in BlocksOf(s) && x != s[a]
      ensures x in BlocksOf(s')
    {
      var i :| 0 <= i < |s| && s[i] == x;
      assert s'[if a < i <= n then i - 1 else i] == x;
    }
    forall x | x in BlocksOf(s')
      ensures x in BlocksOf(s) && (spare == null ==> x != s[a])
    {
      var i :| 0 <= i < |s'| && s'[i] == x;
      assert i != n ==> s[if a <= i < n then i + 1 else i] == x;
    }
    if spare != null {
      assert s'[n] == s[a];
    }
  }

  /** A block is given up while more than two are counted; otherwise it stays behind the packets. */
  predicate Released(before: nat, after: nat, spare: array?<Byte>) {
    if before > 2 then after == before - 1 && spare == null
    else after == before && spare != null
  }

  ghost predicate Separate(s: seq<array?<Byte>>) {
    && (forall i :: 0 <= i < |s| && s[i] != null ==> s[i].Length == SDP_SIZE)
    && (forall i, j :: 0 <= i < j < |s| && s[i] != null ==> s[i] != s[j])
  }

  lemma FirstIs(q: seq<Sdp>, rrId: U32, a: nat)
    requires a <= |q| && (a < |q| ==> rrId == 0 || RrId(q[a]) == rrId)
    requires forall j :: 0 <= j < a ==> rrId != 0 && RrId(q[j]) != rrId
    ensures FirstFor(q, rrId) == a
  {
    hide FirstFor;
    var k := FirstFor(q, rrId);
    var ids := (if k < |q| then RrId(q[k]) else 0, if a < |q| then RrId(q[a]) else 0);
  }

  // ------------------------------------------------------------------------ srpc_iterate

  /** What the application's data_read delivers: an error or up to 256 octets. */
  datatype Read = Broken | Octets(data: seq<Byte>)

  /** What a round reports: that it has ended, that a call has arrived, or that nothing has. */
  datatype Round = Ended | Arrived | Quiet

  datatype Snapshot = Snapshot(input: seq<Byte>, output: seq<Byte>, inQueue: seq<Sdp>, outQueue: seq<Sdp>, sdp: Sdp)

  class Endpoint {
    const proto: Proto
    const sdp: array<Byte>
    const inQueue: Queue
    const outQueue: Queue

    ghost predicate Valid()
      reads this, proto, proto.input, proto.output, proto.input.buffer, proto.output.buffer
      reads inQueue, inQueue.item, outQueue, outQueue.item
    {
      && PROTO_VERSION_MIN <= proto.version <= PROTO_VERSION
      && proto.Valid() && inQueue.Valid() && outQueue.Valid() && sdp.Length == SDP_SIZE
      && inQueue != outQueue && inQueue.item != outQueue.item
      && sdp != proto.input.buffer && sdp != proto.output.buffer
      && sdp !in inQueue.Blocks() && sdp !in outQueue.Blocks() && inQueue.Blocks() !! outQueue.Blocks()
      && {proto.input.buffer, proto.output.buffer} !! inQueue.Blocks()
      && {proto.input.buffer, proto.output.buffer} !! outQueue.Blocks()
    }

    /** What the buffers, the queues and the working packet hold */
    ghost function View(): Snapshot
      requires Valid()
      reads this, proto, proto.input, proto.output, proto.input.buffer, proto.output.buffer, sdp
      reads inQueue, inQueue.item, inQueue.Blocks(), outQueue, outQueue.item, outQueue.Blocks()
    {
      Snapshot(proto.input.Contents(), proto.output.Contents(), inQueue.Contents(), outQueue.Contents(), sdp[..])
    }

    /** The counter of the identifiers, and the version */
    ghost function Counters(): (U32, Byte)
      reads this, proto
    {
      (proto.nextRrId, proto.version)
    }

    /** All that calls and rounds may change */
    ghost function Footprint(): set<object>
      reads this, proto, proto.input, proto.output, inQueue, inQueue.item, outQueue, outQueue.item
    {
      {proto, proto.input, proto.output, proto.input.buffer, proto.output.buffer, sdp}
      + {inQueue, inQueue.item, outQueue, outQueue.item} + inQueue.Blocks() + outQueue.Blocks()
    }

    /** Nothing but new objects has been added. */
    twostate predicate Grown()
      reads this, proto, proto.input, proto.output, inQueue, inQueue.item, outQueue, outQueue.item
    {
      forall x :: x in Footprint() && x !in old(Footprint()) ==> fresh(x)
    }

    /** srpc_init */
    constructor ()
      ensures Valid() && proto.version == PROTO_VERSION
      ensures View().input == View().output == [] && View().inQueue == View().outQueue == []
      ensures fresh(Footprint())
    {
      proto := new Proto();
      sdp := new Byte[SDP_SIZE](_ => 0);
      inQueue := new Queue();
      outQueue := new Queue();
    }

    /** srpc_async__call for a call that the peer's version allows: a packet with a new identifier
        goes to the end of the queue. */
    method AsyncCall(callId: U32, data: seq<Byte>) returns (rrId: U32)
      requires Valid()
      modifies Footprint()
      ensures Valid() && Grown() && proto.version == old(proto.version)
      ensures rrId != 0 ==> rrId == proto.nextRrId
      ensures proto.nextRrId == if old(proto.nextRrId) == 0xFFFF_FFFF then 1 else old(proto.nextRrId) + 1
      ensures rrId != 0 <==> |data| <= MAX_DATA_SIZE && |old(View()).outQueue| < SRPC_QUEUE_SIZE
      ensures rrId == 0 ==> View().outQueue == old(View()).outQueue
      ensures rrId != 0 ==> Queued(old(View()).outQueue, View().outQueue, Packet(proto.version, rrId, callId, data))
      ensures View() == old(View()).(outQueue := View().outQueue, sdp := View().sdp)
    {
      hide Encode, Queued, Queue.Contents, Queue.Valid, ByteBuffer.Valid, ByteBuffer.Contents;
      var r := Compose(proto, sdp, callId, data);
      if r.True? {
        r := PushOut(Packet(proto.version, proto.nextRrId, callId, data));
        if r.True? {
          return proto.nextRrId;
        }
      }
      return 0;
    }

    /** srpc_out_queue_push of the packet in sdp */
    method PushOut(ghost p: Packet) returns (r: Result)
      requires Valid() && |p.data| <= MAX_DATA_SIZE && Encode(p) <= sdp[..]
      modifies outQueue, outQueue.item, outQueue.Blocks()
      ensures Valid() && fresh(outQueue.Blocks() - old(outQueue.Blocks()))
      ensures r == if |old(View()).outQueue| < SRPC_QUEUE_SIZE then True else False
      ensures if r.True? then Queued(old(View()).outQueue, View().outQueue,
                                     p) else View().outQueue == old(View()).outQueue
      ensures View() == old(View()).(outQueue := View().outQueue)
    {
      hide Encode, Queue.Contents, Queue.Valid, ByteBuffer.Valid, ByteBuffer.Contents;
      r := outQueue.Push(sdp);
    }

    /** The first half of srpc_iterate, up to the callback: octets are read and appended, and at most
        one packet goes from the input buffer to the queue. */
    method ReadRound(read: Read) returns (round: Round)
      requires Valid() && (read.Octets? ==> |read.data| <= SRPC_BUFFER_SIZE)
      modifies Footprint()
      ensures Valid() && Grown() && Counters() == old(Counters())
      ensures ReadResult(read, old(View()).input, old(View()).inQueue, old(View()).sdp, View().input, View().inQueue,
                         round)
      ensures View().output == old(View()).output && View().outQueue == old(View()).outQueue
    {
      hide Examine, TakeResult, Endpoint.Valid, Endpoint.View, Endpoint.Footprint, Endpoint.Counters;
      ghost var s := View().input;
      assert s + [] == s;
      if read.Octets? {
        if read.data == [] {
          return Ended;
        }
        var r := AppendIn(read.data);
        if !r.True? {
          return Ended;
        }
      }
      round := Take();
    }

    /** sproto_pop_in_sdp and srpc_in_queue_push */
    method Take() returns (round: Round)
      requires Valid()
      modifies Footprint()
      ensures Valid() && Grown() && Counters() == old(Counters())
      ensures TakeResult(old(View()).input, old(View()).inQueue, old(View()).sdp, View().input, View().inQueue, round)
      ensures View().output == old(View()).output && View().outQueue == old(View()).outQueue
    {
      hide Examine, Endpoint.Valid, Endpoint.View, Endpoint.Footprint, Endpoint.Counters;
      var r := PopSdp();
      if r.True? {
        r := PushIn();
        return if r.True? then Arrived else Ended;
      }
      return if r.False? then Quiet else Ended;
    }

    /** sproto_in_buffer_append */
    method AppendIn(data: seq<Byte>) returns (r: Result)
      requires Valid() && |data| <= SRPC_BUFFER_SIZE
      modifies Footprint()
      ensures Valid() && Grown() && Counters() == old(Counters())
      ensures var s := old(View()).input; var fits := |s| + |data| < BUFFER_MAX_SIZE;
        r == (if fits then True else BufferOverflow) && View() == old(View()).(input := if fits then s + data else s)
    {
      hide Queue.Contents;
      r := proto.InAppend(data);
    }

    /** sproto_pop_in_sdp */
    method PopSdp() returns (r: Result)
      requires Valid()
      modifies Footprint()
      ensures Valid() && Grown() && Counters() == old(Counters())
      ensures var v := old(View()); PopResult(v.input, v.sdp, View().input, View().sdp, r)
      ensures View() == old(View()).(input := View().input, sdp := View().sdp)
    {
      hide Examine, Queue.Contents, ByteBuffer.Valid, ByteBuffer.Contents;
      r := proto.PopIn(sdp);
      if r.True? {
        ghost var n := Examine(old(proto.input.Contents())).n;
        assert sdp[..] == sdp[..n] + sdp[n..];
      }
    }

    /** srpc_in_queue_push of the packet in sdp */
    method PushIn() returns (r: Result)
      requires Valid()
      modifies Footprint()
      ensures Valid() && Grown() && Counters() == old(Counters())
      ensures var v := old(View()); var fits := |v.inQueue| < SRPC_QUEUE_SIZE;
        r == (if fits then True else False) && View() == v.(inQueue := if fits then v.inQueue + [v.sdp] else v.inQueue)
    {
      hide Queue.Contents, ByteBuffer.Valid, ByteBuffer.Contents;
      r := inQueue.Push(sdp);
    }

    /** srpc_in_queue_pop, with which srpc_getdata takes a packet: the first one, or the first with the
        identifier */
    method PopIn(rrId: U32) returns (r: Result)
      requires Valid()
      modifies Footprint()
      ensures Valid() && Grown() && Counters() == old(Counters())
      ensures View() == old(View()).(inQueue := View().inQueue, sdp := View().sdp)
      ensures var q := old(View()).inQueue; var k := FirstFor(q, rrId);
        if k < |q| then r == True && View().sdp == q[k] && View().inQueue == Without(q, k)
        else r == False && View().inQueue == q
    {
      hide FirstFor, Without, Queue.Contents;
      r := inQueue.Pop(sdp, rrId);
    }

    /** The second half: at most one packet goes from the queue to the output buffer, up to 256 octets
        from there to data_write. */
    method WriteRound() returns (written: seq<Byte>)
      requires Valid()
      modifies Footprint()
      ensures Valid() && Grown() && Counters() == old(Counters())
      ensures WriteResult(old(View()).output, old(View()).outQueue, View().output, View().outQueue, written)
      ensures View().input == old(View()).input && View().inQueue == old(View()).inQueue
    {
      hide OutResult, Added, Endpoint.Valid, Endpoint.View, Endpoint.Footprint, Endpoint.Counters;
      ghost var s := View().output;
      assert s + [] == s;
      var r := PopOut();
      if r.True? {
        r := AppendOut();
        if !r.True? && !r.False? {
          assert [] + View().output == View().output;
          return [];
        }
      }
      written := Flush();
    }

    /** srpc_out_queue_pop for any packet: the first one */
    method PopOut() returns (r: Result)
      requires Valid()
      modifies Footprint()
      ensures Valid() && Grown() && Counters() == old(Counters())
      ensures var q := old(View()).outQueue;
        if |q| == 0 then r == False && View() == old(View())
        else r == True && View() == old(View()).(outQueue := q[1..], sdp := q[0])
    {
      hide FirstFor, Queue.Contents;
      ghost var q := outQueue.Contents();
      FirstIs(q, 0, 0);
      r := outQueue.Pop(sdp, 0);
      if r.True? {
        assert Without(q, 0) == q[1..];
      }
    }

    /** sproto_out_buffer_append of the packet in sdp */
    method AppendOut() returns (r: Result)
      requires Valid()
      modifies Footprint()
      ensures Valid() && Grown() && Counters() == old(Counters())
      ensures var v := old(View());
        r == OutResult(v.output, v.sdp) && View() == v.(output := v.output + Added(v.output, v.sdp))
    {
      hide TotalSize, Queue.Contents, ByteBuffer.Valid, ByteBuffer.Contents;
      ghost var s := proto.output.Contents();
      assert s + [] == s;
      r := proto.OutAppend(sdp);
    }

    /** sproto_pop_out_data into the buffer of the round */
    method Flush() returns (data: seq<Byte>)
      requires Valid()
      modifies Footprint()
      ensures Valid() && Grown() && Counters() == old(Counters())
      ensures var s := old(View()).output;
        && s == data + View().output && |data| == (if |s| < SRPC_BUFFER_SIZE then |s| else SRPC_BUFFER_SIZE)
        && View() == old(View()).(output := View().output)
    {
      hide Queue.Contents;
      data := proto.PopOut(SRPC_BUFFER_SIZE);
    }
  }

  ghost predicate Queued(q: seq<Sdp>, q': seq<Sdp>, p: Packet) {
    && |q'| == |q| + 1 && q'[..|q|] == q && |p.data| <= MAX_DATA_SIZE && Encode(p) <= q'[|q|]
  }

  /** The reading half of a round, as a relation. */
  predicate ReadResult(read: Read, s: seq<Byte>, q: seq<Sdp>, before: seq<Byte>, s': seq<Byte>, q': seq<Sdp>,
                       round: Round) {
    if read == Octets([]) then s' == s && q' == q && round == Ended
    else if read.Octets? && |s| + |read.data| >= BUFFER_MAX_SIZE then s' == s && q' == q && round == Ended
    else TakeResult(s + if read.Octets? then read.data else [], q, before, s', q', round)
  }

  /** sproto_pop_in_sdp, as a relation: the octets in the buffer and the working packet. */
  predicate PopResult(s: seq<Byte>, before: Sdp, s': seq<Byte>, after: Sdp, r: Result) {
    match Examine(s)
    case Wait => r == False && s' == s && after == before
    case BadData => r == DataError && s' == [] && after == before
    case BadVersion => r == VersionError && s' == [] && after == before[5 := s[5]]
    case Ready(n) => r == True && s' == s[n + TAG_SIZE..] && after == s[..n] + before[n..]
  }

  /** What becomes of the octets t in the input buffer: at most one packet goes to the queue, where
      it is lost if the queue is full. */
  predicate TakeResult(t: seq<Byte>, q: seq<Sdp>, before: seq<Byte>, s': seq<Byte>, q': seq<Sdp>, round: Round) {
    match Examine(t)
    case Wait => s' == t && q' == q && round == Quiet
    case BadData => s' == [] && q' == q && round == Ended
    case BadVersion => s' == [] && q' == q && round == Ended
    case Ready(n) =>
      && s' == t[n + TAG_SIZE..]
      && if |q| < SRPC_QUEUE_SIZE
         then round == Arrived && |before| == SDP_SIZE && q' == q + [t[..n] + before[n..]]
         else round == Ended && q' == q
  }

  /** What sproto_out_buffer_append answers for a packet behind the octets s: too much data in it,
      no room, room for all but the closing tag, or done. */
  function OutResult(s: seq<Byte>, p: Sdp): (r: Result)
    ensures r in {DataTooLarge, False, BufferOverflow, True}
  {
    var n := TotalSize(p);
    if n > SDP_SIZE then DataTooLarge
    else if |s| + n >= BUFFER_MAX_SIZE then False
    else if |s| + n + TAG_SIZE >= BUFFER_MAX_SIZE then BufferOverflow
    else True
  }

  /** The octets that it adds. */
  function Added(s: seq<Byte>, p: Sdp): seq<Byte> {
    match OutResult(s, p)
    case BufferOverflow => p[..TotalSize(p)]
    case True => p[..TotalSize(p)] + TAG
    case _ => []
  }

  /** The writing half of a round: the first packet leaves the queue in any case and its octets are
      appended as far as they fit.  The front of the buffer is written, up to 256 octets, unless the
      packet was malformed or lost its closing tag. */
  predicate WriteResult(s: seq<Byte>, q: seq<Sdp>, s': seq<Byte>, q': seq<Sdp>, written: seq<Byte>) {
    var t := s + if |q| == 0 then [] else Added(s, q[0]);
    && q' == (if |q| == 0 then [] else q[1..])
    && written + s' == t
    && |written| == if |q| > 0 && OutResult(s, q[0]) in {DataTooLarge, BufferOverflow} then 0
                    else if |t| < 256 then |t| else 256
  }

  /** A packet that fits leaves as its frame, behind everything queued before it. */
  lemma WriteFrame(s: seq<Byte>, q: seq<Sdp>, s': seq<Byte>, q': seq<Sdp>, written: seq<Byte>, p: Packet)
    requires WriteResult(s, q, s', q', written) && |q| > 0 && WellFormed(p) && Encode(p) <= q[0]
    requires |s| + |Frame(p)| < BUFFER_MAX_SIZE
    ensures OutResult(s, q[0]).True? && written + s' == s + Frame(p) && q' == q[1..]
    ensures |written| == if |s| + |Frame(p)| < SRPC_BUFFER_SIZE then |s| + |Frame(p)| else SRPC_BUFFER_SIZE
  {
    hide Encode;
    EncodeFields(p);
    assert q[0][..|Encode(p)|] == Encode(p);
    StructureIs(p, q[0]);
  }

  /** On a stream of frames a round waits until the first frame is complete, then hands over exactly
      its packet and keeps the rest. */
  lemma ReadFrame(t: seq<Byte>, q: seq<Sdp>, before: Sdp, s': seq<Byte>, q': seq<Sdp>, round: Round, p: Packet,
                  later: seq<Byte>)
    requires TakeResult(t, q, before, s', q', round) && WellFormed(p) && t <= Frame(p) + later && |q| < SRPC_QUEUE_SIZE
    ensures |t| < |Frame(p)| ==> round == Quiet && s' == t && q' == q
    ensures |t| >= |Frame(p)| ==> round == Arrived && Queued(q, q', p) && s' == t[|Frame(p)|..]
  {
    hide Encode, Examine;
    ExamineStream(p, t, later);
  }
}
