/** Queuing an outgoing packet (mqtt.c, MQTT_CLIENT_TRY_PACK): what fits, when the queue is
    cleaned first, and when the attempt fails. */
module MqttRoom {
  import opened Limbs
  import opened Memory
  import opened MqttPid
  import opened MqttCodec
  import opened MqttQueue

  // ---------------------------------------------------------------------- room in the queue

  function TotalBytes(ms: seq<Message>): nat {
    if |ms| == 0 then 0 else TotalBytes(ms[..|ms| - 1]) + |ms[|ms| - 1].bytes|
  }

  /** The room for one more packet in a queue of `len` octets. */
  function Room(ms: seq<Message>, len: nat): nat {
    var used := TotalBytes(ms) + DESCRIPTOR_SIZE * (|ms| + 1);
    if used >= len then 0 else len - used
  }

  lemma {:induction false} CurrIsTotal(mem: seq<Byte>, ds: seq<Descriptor>, curr: nat)
    requires Layout(ds, curr) && curr <= |mem|
    ensures TotalBytes(View(mem, ds, curr)) == curr
  {
    var n := |ds|;
    if n > 0 {
      var d := ds[n - 1];
      InitLayout(ds, curr);
      CurrIsTotal(mem, ds[..n - 1], d.start);
      assert View(mem, ds, curr)[..n - 1] == View(mem, ds[..n - 1], d.start);
    }
  }

  lemma InitLayout(ds: seq<Descriptor>, curr: nat)
    requires Layout(ds, curr) && |ds| > 0
    ensures Layout(ds[..|ds| - 1], ds[|ds| - 1].start)
  {
  }

  lemma CurrSzIsRoom(mq: MessageQueue)
    requires mq.Valid()
    ensures mq.CurrSz() == Room(mq.Contents(), mq.mem.Length)
  {
    CurrIsTotal(mq.mem[..], mq.slots[..mq.count], mq.curr);
  }

  // ------------------------------------------------------------------------------ requests

  /** What the client packs: the four acknowledgements, a PUBLISH, or a packet of another type
      with the given contents. */
  datatype Request =
    | AckOf(kind: Nibble, ackId: U16)
    | PublishOf(topic: seq<Byte>, id: U16, message: seq<Byte>, flags: Byte)
    | Plain(plainKind: Nibble, plainFlags: Nibble, body: seq<Byte>)

  predicate ValidRequest(q: Request) {
    && (q.AckOf? ==> PUBACK <= q.kind <= PUBCOMP)
    && (q.PublishOf? ==> |q.topic| < 0x1_0000)
  }

  function PacketOf(q: Request): Packed {
    match q
    case AckOf(kind, id) => Packet(PackAck(kind, id))
    case PublishOf(topic, id, message, flags) => PackPublish(topic, id, message, flags)
    case Plain(kind, flags, body) =>
      var h := FixedHeader(kind, flags, |body|);
      if !HeaderValid(h) then PackError(RuleViolation(h))
      else if |body| >= MAX_REMAINING then PackError(InvalidRemainingLength)
      else Packet(EncodeHeader(h) + body)
  }

  lemma PacketNotEmpty(q: Request)
    ensures PacketOf(q).Packet? ==> |PacketOf(q).bytes| > 0
  {
  }

  lemma PublishError(q: Request)
    ensures q.PublishOf? && PacketOf(q).Packet? ==> QosOf(q.flags) != 3
    ensures q.PublishOf? && QosOf(q.flags) == 3 ==> PacketOf(q) == PackError(PublishForbiddenQos)
    ensures q.PublishOf? && QosOf(q.flags) != 3 && PacketOf(q).PackError? ==>
      PacketOf(q).error == InvalidRemainingLength
  {
  }

  /** What a packer answers for the given room.  Only the length is looked at after the room. */
  function Answer(p: Packed, room: nat): PackResult {
    match p
    case Packet(bytes) => if |bytes| <= room then Bytes(|bytes|) else NoRoom
    case PackError(e) => if e == InvalidRemainingLength && room == 0 then NoRoom else PackFailed(e)
  }

  /** A packet that fits is written; nothing else in the buffer changes. */
  method PackInto(buf: array<Byte>, off: nat, bufsz: nat, q: Request) returns (rv: PackResult)
    requires off + bufsz <= buf.Length && ValidRequest(q)
    modifies buf
    ensures rv == Answer(PacketOf(q), bufsz)
    ensures rv.Bytes? ==> 0 < rv.n <= bufsz && buf[off..off + rv.n] == PacketOf(q).bytes
    ensures KeptOutside(buf, off, off + bufsz)
  {
    hide EncodeHeader, PackPublish, PackAck;
    PacketNotEmpty(q);
    PublishError(q);
    match q
    case AckOf(kind, id) => rv := PackAckInto(buf, off, bufsz, kind, id);
    case PublishOf(topic, id, message, flags) => rv := PackPublishInto(buf, off, bufsz, topic, id, message, flags);
    case Plain(kind, flags, body) => rv := PackPlainInto(buf, off, bufsz, FixedHeader(kind, flags, |body|), body);
  }

  method PackPlainInto(buf: array<Byte>, off: nat, bufsz: nat, h: FixedHeader, body: seq<Byte>) returns (rv: PackResult)
    requires off + bufsz <= buf.Length && h.remaining == |body|
    modifies buf
    ensures !HeaderValid(h) ==> rv == PackFailed(RuleViolation(h))
    ensures HeaderValid(h) && |body| >= MAX_REMAINING ==>
      rv == if bufsz == 0 then NoRoom else PackFailed(InvalidRemainingLength)
    ensures HeaderValid(h) && |body| < MAX_REMAINING ==>
      rv == if |EncodeHeader(h) + body| <= bufsz then Bytes(|EncodeHeader(h) + body|) else NoRoom
    ensures rv.Bytes? ==> rv.n <= bufsz && buf[off..off + rv.n] == EncodeHeader(h) + body
    ensures KeptOutside(buf, off, off + bufsz)
  {
    hide EncodeHeader;
    rv := PackHeaderInto(buf, off, bufsz, h);
    if rv.Bytes? {
      ghost var e := buf[off..off + rv.n];
      CopyInto(buf, off + rv.n, body);
      assert buf[off..off + rv.n] == e;
      assert buf[off..off + rv.n + |body|] == e + buf[off + rv.n..off + rv.n + |body|];
      rv := Bytes(rv.n + |body|);
    }
  }

  /** The pack call of the macro: behind the last message, into the free room. */
  method PackBehind(mq: MessageQueue, q: Request) returns (rv: PackResult)
    requires mq.Valid() && ValidRequest(q)
    modifies mq.mem
    ensures mq.Valid() && mq.Contents() == old(mq.Contents())
    ensures rv == Answer(PacketOf(q), mq.CurrSz())
    ensures rv.Bytes? ==>
      0 < rv.n <= mq.CurrSz() && mq.curr + rv.n <= mq.mem.Length && mq.mem[mq.curr..mq.curr + rv.n] == PacketOf(q).bytes
  {
    hide PacketOf, ValidRequest, View, Layout;
    ghost var m := mq.mem[..];
    rv := PackInto(mq.mem, mq.curr, mq.CurrSz(), q);
    assert mq.mem[..][..mq.curr] == m[..mq.curr];
    ViewKept(m, mq.mem[..], mq.slots[..mq.count], mq.curr);
  }

  // --------------------------------------------------------------------- what the queue holds

  /** The queue that a packet of n octets is appended to: cleaned only if there is no room. */
  function Base(ms: seq<Message>, len: nat, n: nat): seq<Message> {
    if n <= Room(ms, len) then ms else Cleaned(ms)
  }

  /** The packet stands behind the queue, unsent, with the type and the identifier. */
  predicate Queued(ms: seq<Message>, ms': seq<Message>, len: nat, bytes: seq<Byte>, kind: Nibble,
                   id: Option<PacketId>) {
    var base := Base(ms, len, |bytes|);
    && |ms'| == |base| + 1 && ms'[..|base|] == base
    && ms'[|base|].bytes == bytes && ms'[|base|].state.Unsent? && ms'[|base|].controlType == kind
    && (id.Some? ==> ms'[|base|].packetId == id.value)
  }

  /** Behind the queue's last message: register the packet and note its type and identifier. */
  method RegisterAs(mq: MessageQueue, n: nat, kind: Nibble, id: Option<PacketId>)
    requires mq.Valid() && 0 < n <= mq.CurrSz() && mq.curr + n <= mq.mem.Length
    modifies mq`curr, mq`count, mq.slots
    ensures mq.Valid()
    ensures |mq.Contents()| == |old(mq.Contents())| + 1 && mq.Contents()[..|old(mq.Contents())|] == old(mq.Contents())
    ensures var m := mq.Contents()[|old(mq.Contents())|];
      && m.bytes == old(mq.mem[mq.curr..mq.curr + n]) && m.state.Unsent? && m.controlType == kind
      && (id.Some? ==> m.packetId == id.value)
  {
    hide View, Layout;
    ghost var before, packet := mq.Contents(), mq.mem[mq.curr..mq.curr + n];
    mq.Register(n);
    ghost var ms := mq.Contents();
    var i := mq.count - 1;
    var d := mq.slots[i].(controlType := kind);
    SlotFields(mq, i);
    if id.Some? {
      d := d.(packetId := id.value);
    }
    mq.Update(i, d);
    assert ms[..i] == before;
    assert mq.Contents()[..i] == ms[..i];
  }

  lemma SlotFields(mq: MessageQueue, i: nat)
    requires mq.Valid() && i < mq.count
    ensures var d, m := mq.slots[i], mq.Contents()[i];
      && d.state == m.state && d.timeSent == m.timeSent && d.controlType == m.controlType
      && d.packetId == m.packetId && d.size == |m.bytes|
  {
    assert mq.slots[..mq.count][i] == mq.slots[i];
  }

  /** The two attempts of the macro: the packet stands behind the messages, or there is no room
      even in the cleaned queue, or the packer refuses it. */
  method PackOrClean(mq: MessageQueue, q: Request) returns (rv: PackResult)
    requires mq.Valid() && ValidRequest(q)
    modifies mq`curr, mq`count, mq.mem, mq.slots
    ensures mq.Valid()
    ensures mq.Contents() == BaseFor(old(mq.Contents()), mq.mem.Length, PacketOf(q))
    ensures rv == Answer(PacketOf(q), Room(mq.Contents(), mq.mem.Length))
    ensures rv.Bytes? ==>
      0 < rv.n <= mq.CurrSz() && mq.curr + rv.n <= mq.mem.Length && mq.mem[mq.curr..mq.curr + rv.n] == PacketOf(q).bytes
  {
    hide PacketOf, ValidRequest, Cleaned, Room, View, Layout;
    CurrSzIsRoom(mq);
    rv := PackBehind(mq, q);
    if rv.NoRoom? {
      mq.Clean();
      CurrSzIsRoom(mq);
      rv := PackBehind(mq, q);
    }
  }

  /** The macro without the client's error state. */
  method Enqueue(mq: MessageQueue, q: Request, kind: Nibble, id: Option<PacketId>) returns (rv: PackResult)
    requires mq.Valid() && ValidRequest(q)
    modifies mq`curr, mq`count, mq.mem, mq.slots
    ensures mq.Valid()
    ensures Enqueued(old(mq.Contents()), mq.Contents(), mq.mem.Length, PacketOf(q), kind, id, rv)
  {
    hide PacketOf, ValidRequest, Cleaned, Room, View, Layout;
    ghost var ms := mq.Contents();
    rv := PackOrClean(mq, q);
    if rv.Bytes? {
      BaseOfPacket(ms, mq.mem.Length, PacketOf(q));
      RegisterAs(mq, rv.n, kind, id);
    }
  }

  /** The queue after both attempts: cleaned exactly if the first one found no room. */
  function BaseFor(ms: seq<Message>, len: nat, p: Packed): seq<Message> {
    if Answer(p, Room(ms, len)).NoRoom? then Cleaned(ms) else ms
  }

  lemma BaseOfPacket(ms: seq<Message>, len: nat, p: Packed)
    ensures p.Packet? ==> BaseFor(ms, len, p) == Base(ms, len, |p.bytes|)
  {
  }

  /** The outcome for every packet: it has been put into the queue, cleaned if need be, it does not
      fit even then, or the packer refuses it. */
  predicate Enqueued(ms: seq<Message>, ms': seq<Message>, len: nat, p: Packed, kind: Nibble,
                     id: Option<PacketId>, rv: PackResult) {
    var base := BaseFor(ms, len, p);
    && rv == Answer(p, Room(base, len))
    && if rv.Bytes? then p.Packet? && Queued(ms, ms', len, p.bytes, kind, id) else ms' == base
  }
}
