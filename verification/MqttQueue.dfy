/** The message queue of the MQTT client (mqtt.c, MESSAGE QUEUE): packed messages grow from the
    start of a buffer, their descriptors from its end. */
module MqttQueue {
  import opened Limbs
  import opened Memory
  import opened MqttPid
  import opened MqttCodec

  /** sizeof (struct mqtt_queued_message) on the target */
  const DESCRIPTOR_SIZE := 32

  datatype State = Unsent | Awaiting | Complete

  datatype Descriptor = Descriptor(start: nat, size: nat, state: State, timeSent: nat, controlType: Nibble,
                                   packetId: PacketId)

  /** What a queued message means: its bytes and its descriptor without the address. */
  datatype Message = Message(bytes: seq<Byte>, state: State, timeSent: nat, controlType: Nibble, packetId: PacketId)

  /** The messages lie one behind the other from 0 to curr, none of them empty. */
  predicate Layout(ds: seq<Descriptor>, curr: nat) {
    Contiguous(ds, curr) && Separated(ds, curr)
  }

  predicate Contiguous(ds: seq<Descriptor>, curr: nat) {
    && (|ds| == 0 ==> curr == 0)
    && (|ds| > 0 ==> ds[0].start == 0 && ds[|ds| - 1].start + ds[|ds| - 1].size == curr)
    && (forall i, j :: 0 <= i < |ds| && j == i + 1 < |ds| ==> ds[j].start == ds[i].start + ds[i].size)
  }

  predicate Separated(ds: seq<Descriptor>, curr: nat) {
    && (forall i :: 0 <= i < |ds| ==> ds[i].size > 0 && ds[i].start + ds[i].size <= curr)
    && (forall i, j :: 0 <= i < j < |ds| ==> ds[i].start + ds[i].size <= ds[j].start)
  }

  function MessageOf(mem: seq<Byte>, d: Descriptor): Message
    requires d.start + d.size <= |mem|
  {
    Message(mem[d.start..d.start + d.size], d.state, d.timeSent, d.controlType, d.packetId)
  }

  function View(mem: seq<Byte>, ds: seq<Descriptor>, curr: nat): (ms: seq<Message>)
    requires Layout(ds, curr) && curr <= |mem|
    ensures |ms| == |ds|
  {
    seq(|ds|, i requires 0 <= i < |ds| => MessageOf(mem, ds[i]))
  }

  /** The length of the longest prefix of complete messages. */
  function CompletePrefix(ms: seq<Message>): (n: nat)
    ensures n <= |ms|
    ensures forall i :: 0 <= i < n ==> ms[i].state.Complete?
    ensures n < |ms| ==> !ms[n].state.Complete?
  {
    if |ms| > 0 && ms[0].state.Complete? then 1 + CompletePrefix(ms[1..]) else 0
  }

  /** What mqtt_mq_clean leaves. */
  function Cleaned(ms: seq<Message>): seq<Message> {
    ms[CompletePrefix(ms)..]
  }

  lemma {:induction false} PrefixIs(ms: seq<Message>, h: nat)
    requires h <= |ms| && (forall i :: 0 <= i < h ==> ms[i].state.Complete?)
    requires h < |ms| ==> !ms[h].state.Complete?
    ensures CompletePrefix(ms) == h
  {
    if h > 0 {
      PrefixIs(ms[1..], h - 1);
    }
  }

  predicate Matches(m: Message, controlType: Nibble, id: Wanted) {
    m.controlType == controlType &&
    match id
    case Any => !m.state.Complete?
    case Exactly(p) => m.packetId == p
  }

  /** The packet_id argument of mqtt_mq_find: a null pointer or an identifier. */
  datatype Wanted = Any | Exactly(id: PacketId)

  // ----------------------------------------------------------- layouts under the operations

  lemma LayoutAppend(ds: seq<Descriptor>, curr: nat, d: Descriptor)
    requires Layout(ds, curr) && d.start == curr && d.size > 0
    ensures Layout(ds + [d], curr + d.size)
  {
  }

  lemma ViewAppend(mem: seq<Byte>, ds: seq<Descriptor>, curr: nat, d: Descriptor)
    requires Layout(ds, curr) && d.start == curr && d.size > 0 && curr + d.size <= |mem|
    ensures Layout(ds + [d], curr + d.size)
    ensures View(mem, ds + [d], curr + d.size) == View(mem, ds, curr) + [MessageOf(mem, d)]
  {
    LayoutAppend(ds, curr, d);
  }

  /** Bytes beyond curr are no part of any message. */
  lemma ViewKept(mem: seq<Byte>, mem': seq<Byte>, ds: seq<Descriptor>, curr: nat)
    requires Layout(ds, curr) && curr <= |mem| && curr <= |mem'| && mem[..curr] == mem'[..curr]
    ensures View(mem, ds, curr) == View(mem', ds, curr)
  {
    forall i | 0 <= i < |ds|
      ensures MessageOf(mem, ds[i]) == MessageOf(mem', ds[i])
    {
      var d := ds[i];
      assert mem[d.start..d.start + d.size] == mem[..curr][d.start..d.start + d.size];
      assert mem'[d.start..d.start + d.size] == mem'[..curr][d.start..d.start + d.size];
    }
  }

  function Moved(ds: seq<Descriptor>, h: nat): (r: seq<Descriptor>)
    requires h < |ds| && forall i :: h <= i < |ds| ==> ds[h].start <= ds[i].start
    ensures |r| == |ds| - h
  {
    seq(|ds| - h, i requires 0 <= i < |ds| - h => ds[h + i].(start := ds[h + i].start - ds[h].start))
  }

  lemma MovedMessage(mem: seq<Byte>, mem': seq<Byte>, d: Descriptor, r: nat, curr: nat)
    requires r <= d.start && d.start + d.size <= curr <= |mem| && |mem'| == |mem|
    requires mem'[..curr - r] == mem[r..curr]
    ensures MessageOf(mem', d.(start := d.start - r)) == MessageOf(mem, d)
  {
    var a, b := d.start - r, d.start - r + d.size;
    SliceOfSlice(mem', 0, curr - r, a, b);
    SliceOfSlice(mem, r, curr, a, b);
    assert mem'[..curr - r] == mem'[0..curr - r];
    assert r + a == d.start && r + b == d.start + d.size;
  }

  /** Moving the messages from the h-th one on to the front. */
  lemma ViewMoved(mem: seq<Byte>, ds: seq<Descriptor>, curr: nat, h: nat, mem': seq<Byte>)
    requires Layout(ds, curr) && curr <= |mem| && h < |ds|
    requires |mem'| == |mem| && mem'[..curr - ds[h].start] == mem[ds[h].start..curr]
    ensures forall i :: h <= i < |ds| ==> ds[h].start <= ds[i].start
    ensures Layout(Moved(ds, h), curr - ds[h].start)
    ensures View(mem', Moved(ds, h), curr - ds[h].start) == View(mem, ds, curr)[h..]
  {
    MovedLayout(ds, curr, h);
    hide Layout, Contiguous, Separated, MessageOf, View, Moved;
    forall i | 0 <= i < |ds| - h
      ensures MessageFits(mem', Moved(ds, h)[i]) && MessageOf(mem', Moved(ds, h)[i]) == View(mem, ds, curr)[h..][i]
    {
      MovedOne(mem, ds, curr, h, mem', i);
    }
    ViewPointwise(mem', Moved(ds, h), curr - ds[h].start, View(mem, ds, curr)[h..]);
  }

  lemma MovedOne(mem: seq<Byte>, ds: seq<Descriptor>, curr: nat, h: nat, mem': seq<Byte>, i: nat)
    requires Layout(ds, curr) && curr <= |mem| && h + i < |ds|
    requires ds[h].start <= curr && |mem'| == |mem| && mem'[..curr - ds[h].start] == mem[ds[h].start..curr]
    requires forall i :: h <= i < |ds| ==> ds[h].start <= ds[i].start
    ensures MessageFits(mem', Moved(ds, h)[i]) && MessageOf(mem', Moved(ds, h)[i]) == View(mem, ds, curr)[h + i]
  {
    hide Layout, Contiguous, Separated, MessageOf, View, Moved;
    LayoutFits(ds, curr, h + i);
    MovedAt(ds, h, i);
    ViewAt(mem, ds, curr, h + i);
    MovedMessage(mem, mem', ds[h + i], ds[h].start, curr);
  }

  lemma ViewPointwise(mem: seq<Byte>, ds: seq<Descriptor>, curr: nat, ms: seq<Message>)
    requires Layout(ds, curr) && curr <= |mem| && |ms| == |ds|
    requires forall i :: 0 <= i < |ds| ==> MessageFits(mem, ds[i]) && MessageOf(mem, ds[i]) == ms[i]
    ensures View(mem, ds, curr) == ms
  {
  }

  predicate MessageFits(mem: seq<Byte>, d: Descriptor) {
    d.start + d.size <= |mem|
  }

  lemma MovedAt(ds: seq<Descriptor>, h: nat, i: nat)
    requires h + i < |ds| && forall i :: h <= i < |ds| ==> ds[h].start <= ds[i].start
    ensures Moved(ds, h)[i] == ds[h + i].(start := ds[h + i].start - ds[h].start)
  {
  }

  lemma ViewAt(mem: seq<Byte>, ds: seq<Descriptor>, curr: nat, i: nat)
    requires Layout(ds, curr) && curr <= |mem| && i < |ds|
    ensures MessageFits(mem, ds[i]) && View(mem, ds, curr)[i] == MessageOf(mem, ds[i])
  {
  }

  lemma LayoutFits(ds: seq<Descriptor>, curr: nat, i: nat)
    requires Layout(ds, curr) && i < |ds|
    ensures ds[i].start + ds[i].size <= curr
  {
  }

  lemma MovedLayout(ds: seq<Descriptor>, curr: nat, h: nat)
    requires Layout(ds, curr) && h < |ds|
    ensures ds[h].start <= curr
    ensures forall i :: h <= i < |ds| ==> ds[h].start <= ds[i].start
    ensures Layout(Moved(ds, h), curr - ds[h].start)
  {
    StartsGrow(ds, curr, h);
    MovedContiguous(ds, curr, h);
    MovedSeparated(ds, curr, h);
  }

  lemma StartsGrow(ds: seq<Descriptor>, curr: nat, h: nat)
    requires Separated(ds, curr) && h < |ds|
    ensures forall i :: h <= i < |ds| ==> ds[h].start <= ds[i].start
    ensures ds[h].start <= curr
  {
  }

  lemma MovedContiguous(ds: seq<Descriptor>, curr: nat, h: nat)
    requires Contiguous(ds, curr) && h < |ds| && ds[h].start <= curr
    requires forall i :: h <= i < |ds| ==> ds[h].start <= ds[i].start
    ensures Contiguous(Moved(ds, h), curr - ds[h].start)
  {
    var ds' := Moved(ds, h);
    forall i, j | 0 <= i < |ds'| && j == i + 1 < |ds'|
      ensures ds'[j].start == ds'[i].start + ds'[i].size
    {
      var a, b := h + i, h + j;
      assert ds[b].start == ds[a].start + ds[a].size;
    }
  }

  lemma MovedSeparated(ds: seq<Descriptor>, curr: nat, h: nat)
    requires Separated(ds, curr) && h < |ds| && ds[h].start <= curr
    requires forall i :: h <= i < |ds| ==> ds[h].start <= ds[i].start
    ensures Separated(Moved(ds, h), curr - ds[h].start)
  {
    var ds' := Moved(ds, h);
    forall i, j | 0 <= i < j < |ds'|
      ensures ds'[i].start + ds'[i].size <= ds'[j].start
    {
      var a, b := h + i, h + j;
      assert ds[a].start + ds[a].size <= ds[b].start;
    }
  }

  // --------------------------------------------------------------------------- the queue

  class MessageQueue {
    const mem: array<Byte>
    var curr: nat
    const slots: array<Descriptor>
    var count: nat

    /** Messages fill mem[..curr]; descriptors fill the last 32 * count bytes, slot i being the
        i-th from the end; the two parts do not meet. */
    ghost predicate Valid()
      reads this, mem, slots
    {
      && count <= slots.Length == mem.Length / DESCRIPTOR_SIZE
      && curr + DESCRIPTOR_SIZE * count <= mem.Length
      && Layout(slots[..count], curr)
    }

    ghost function Contents(): (ms: seq<Message>)
      requires Valid()
      reads this, mem, slots
      ensures |ms| == count
    {
      View(mem[..], slots[..count], curr)
    }

    /** mqtt_mq_currsz: the room left for a message and its descriptor. */
    function CurrSz(): (n: nat)
      reads this, mem
      ensures n > 0 ==> curr + n + 32 * (count + 1) == mem.Length
      ensures n == 0 <==> curr + 32 * (count + 1) >= mem.Length
    {
      if curr + DESCRIPTOR_SIZE * (count + 1) >= mem.Length then 0
      else mem.Length - DESCRIPTOR_SIZE * (count + 1) - curr
    }

    /** mqtt_mq_init */
    constructor (bufsz: nat)
      ensures Valid() && Contents() == [] && mem.Length == bufsz && fresh(mem) && fresh(slots)
    {
      mem := new Byte[bufsz];
      slots := new Descriptor[bufsz / DESCRIPTOR_SIZE](_ => Descriptor(0, 0, Unsent, 0, 0, 0));
      curr := 0;
      count := 0;
      new;
      assert slots[..0] == [];
    }

    /** mqtt_mq_register: the nbytes octets at curr become a message; time, type and identifier
        of its descriptor keep whatever the memory held. */
    method Register(nbytes: nat)
      requires Valid() && 0 < nbytes <= CurrSz()
      modifies this`curr, this`count, slots
      ensures Valid() && count == old(count) + 1
      ensures Contents()[..old(count)] == old(Contents())
      ensures Contents()[old(count)].bytes == mem[old(curr)..old(curr) + nbytes]
      ensures Contents()[old(count)].state == Unsent
    {
      hide Contiguous, Separated;
      ghost var ds := slots[..count];
      var time: nat, controlType: Nibble, id: PacketId := *, *, *;
      var d := Descriptor(curr, nbytes, Unsent, time, controlType, id);
      SlotFree();
      slots[count] := d;
      ViewAppend(mem[..], ds, curr, d);
      curr := curr + nbytes;
      count := count + 1;
      assert slots[..count] == ds + [d];
    }

    lemma SlotFree()
      requires CurrSz() > 0 && slots.Length == mem.Length / DESCRIPTOR_SIZE
      ensures count < slots.Length
    {
    }

    /** Writing the fields of a descriptor other than address and size. */
    method Update(i: nat, d: Descriptor)
      requires Valid() && i < count && d.start == slots[i].start && d.size == slots[i].size
      modifies slots
      ensures Valid()
      ensures Contents() == old(Contents())[i := Message(old(Contents())[i].bytes, d.state, d.timeSent, d.controlType,
                                                         d.packetId)]
    {
      ghost var ds := slots[..count];
      slots[i] := d;
      assert slots[..count] == ds[i := d];
      UpdateView(mem[..], ds, curr, i, d);
    }

    /** `msg->start[0] |= MQTT_PUBLISH_DUP` */
    method SetFirstOctet(i: nat, octet: Byte)
      requires Valid() && i < count
      modifies mem
      ensures Valid()
      ensures Contents() == old(Contents())[i := old(Contents())[i].(bytes := old(Contents())[i].bytes[0 := octet])]
    {
      ghost var m, ds := mem[..], slots[..count];
      mem[slots[i].start] := octet;
      FirstOctetView(m, ds, curr, i, octet);
      assert mem[..] == m[slots[i].start := octet];
    }

    /** mqtt_mq_find: the first message of the type with the identifier, in any state, or the
        first one not complete if no identifier is given; -1 stands for the null pointer. */
    method Find(controlType: Nibble, id: Wanted) returns (r: int)
      requires Valid()
      ensures -1 <= r < count
      ensures r >= 0 ==> Matches(Contents()[r], controlType, id)
      ensures forall j :: 0 <= j < (if r >= 0 then r else count) ==> !Matches(Contents()[j], controlType, id)
    {
      ghost var ms := Contents();
      var i := 0;
      while i < count
        invariant 0 <= i <= count
        invariant forall j :: 0 <= j < i ==> !Matches(ms[j], controlType, id)
      {
        assert ms[i] == MessageOf(mem[..], slots[..count][i]);
        if slots[i].controlType == controlType {
          if (id.Any? && !slots[i].state.Complete?) || (id.Exactly? && id.id == slots[i].packetId) {
            return i;
          }
        }
        i := i + 1;
      }
      return -1;
    }

    /** mqtt_mq_clean: drops exactly the longest prefix of complete messages. */
    method Clean()
      requires Valid()
      modifies this`curr, this`count, mem, slots
      ensures Valid() && Contents() == Cleaned(old(Contents()))
      ensures curr <= old(curr)
    {
      ghost var ms := Contents();
      var h := 0;
      while h < count && slots[h].state.Complete?
        invariant 0 <= h <= count
        invariant forall j :: 0 <= j < h ==> ms[j].state.Complete?
      {
        assert ms[h] == MessageOf(mem[..], slots[..count][h]);
        h := h + 1;
      }
      if h < count {
        assert ms[h] == MessageOf(mem[..], slots[..count][h]);
      }
      PrefixIs(ms, h);
      if h == count {
        curr := 0;
        count := 0;
        assert slots[..0] == [];
      } else if h > 0 {
        MoveToFront(h);
      }
    }

    /** The two memmoves and the adjustment of the addresses. */
    method MoveToFront(h: nat)
      requires Valid() && 0 < h < count
      modifies this`curr, this`count, mem, slots
      ensures Valid() && Contents() == old(Contents())[h..] && curr <= old(curr)
    {
      hide Contiguous, Separated, MessageOf;
      ghost var m, ds, n0 := mem[..], slots[..count], curr;
      MovedLayout(ds, curr, h);
      var removing := slots[h].start;
      MoveDown(mem, removing, curr - removing);
      curr := curr - removing;
      MoveSlots(h, removing);
      count := count - h;
      assert slots[..count] == Moved(ds, h);
      ViewMoved(m, ds, n0, h, mem[..]);
    }

    /** The descriptors from slot h on move to slot 0, their addresses by `removing`. */
    method MoveSlots(h: nat, removing: nat)
      requires 0 < h < count <= slots.Length
      requires forall i :: h <= i < count ==> removing <= slots[i].start
      modifies slots
      ensures forall i :: 0 <= i < count - h ==>
        slots[i] == old(slots[h + i]).(start := old(slots[h + i].start) - removing)
    {
      CopySlots(h, count - h);
      LowerStarts(count - h, removing);
    }

    /** memmove of n descriptors from slot h to slot 0 */
    method CopySlots(h: nat, n: nat)
      requires h + n <= slots.Length
      modifies slots
      ensures forall j :: 0 <= j < n ==> slots[j] == old(slots[h + j])
    {
      ghost var s := slots[..];
      var i := 0;
      while i < n
        invariant 0 <= i <= n
        invariant forall j :: 0 <= j < i ==> slots[j] == s[h + j]
        invariant forall j :: i <= j < slots.Length ==> slots[j] == s[j]
      {
        slots[i] := slots[h + i];
        i := i + 1;
      }
    }

    /** `start -= removing` for the first n descriptors */
    method LowerStarts(n: nat, removing: nat)
      requires n <= slots.Length
      requires forall i :: 0 <= i < n ==> removing <= slots[i].start
      modifies slots
      ensures forall j :: 0 <= j < n ==> slots[j] == old(slots[j]).(start := old(slots[j].start) - removing)
    {
      ghost var s := slots[..];
      var i := 0;
      while i < n
        invariant 0 <= i <= n
        invariant forall j :: 0 <= j < i ==> slots[j] == s[j].(start := s[j].start - removing)
        invariant forall j :: i <= j < n ==> slots[j] == s[j]
      {
        slots[i] := slots[i].(start := slots[i].start - removing);
        i := i + 1;
      }
    }
  }

  lemma UpdateView(m: seq<Byte>, ds: seq<Descriptor>, curr: nat, i: nat, d: Descriptor)
    requires Layout(ds, curr) && curr <= |m| && i < |ds| && d.start == ds[i].start && d.size == ds[i].size
    ensures Layout(ds[i := d], curr)
    ensures var ms := View(m, ds, curr);
      View(m, ds[i := d], curr) == ms[i := Message(ms[i].bytes, d.state, d.timeSent, d.controlType, d.packetId)]
  {
  }

  lemma FirstOctetView(m: seq<Byte>, ds: seq<Descriptor>, curr: nat, i: nat, octet: Byte)
    requires Layout(ds, curr) && curr <= |m| && i < |ds|
    ensures var ms := View(m, ds, curr);
      View(m[ds[i].start := octet], ds, curr) == ms[i := ms[i].(bytes := ms[i].bytes[0 := octet])]
  {
    var m' := m[ds[i].start := octet];
    var ms := View(m, ds, curr);
    forall j | 0 <= j < |ds|
      ensures MessageOf(m', ds[j]) == if j == i then ms[i].(bytes := ms[i].bytes[0 := octet]) else ms[j]
    {
      var d := ds[j];
      if j != i {
        if j < i { assert d.start + d.size <= ds[i].start; } else { assert ds[i].start + ds[i].size <= d.start; }
        assert m'[d.start..d.start + d.size] == m[d.start..d.start + d.size];
      } else {
        assert m'[d.start..d.start + d.size] == m[d.start..d.start + d.size][0 := octet];
      }
    }
  }
}
