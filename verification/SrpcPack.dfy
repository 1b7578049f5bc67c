/** Packs with captions of variable length (supla-common/srpc.c, srpc_set_pack and srpc_getpack):
    a header with a count, then items that are stored with their full caption field and sent with
    just the octets of the caption. */
module SrpcPack {
  import opened Limbs
  import opened Memory
  import opened MpnStr
  import opened Sproto

  /** The structures of a kind of pack: the sizes of its header, of an item without its caption and
      of the caption field, the largest count, and the width of the caption size, which stands
      right before the caption. */
  datatype Layout = Layout(header: nat, itemHeader: nat, captionMax: nat, maxCount: nat, width: nat) {
    predicate Valid() {
      && header >= 4 && (width == 2 || width == 4) && itemHeader >= width
      && maxCount < 0x8000_0000 && PackSize() < 0x8000_0000
    }

    /** item_sizeof */
    function ItemSize(): nat {
      itemHeader + captionMax
    }

    /** pack_sizeof */
    function PackSize(): (n: nat)
      ensures n >= header
    {
      MulMonoLeft(ItemSize(), 0, maxCount);
      header + ItemSize() * maxCount
    }
  }

  // -------------------------------------------------------------------- fields

  /** CaptionSize, lowest octet first */
  function CaptionSize(L: Layout, item: seq<Byte>): nat
    requires L.Valid() && |item| >= L.itemHeader
  {
    var f := item[L.itemHeader - L.width..L.itemHeader];
    if L.width == 4 then U32Of(f)
    else
      var lo: int, hi: int := f[0], f[1];
      lo + 0x100 * hi
  }

  function CountOf(s: seq<Byte>): U32
    requires |s| >= 4
  {
    U32Of(s[..4])
  }

  function WithCount(s: seq<Byte>, n: U32): (r: seq<Byte>)
    requires |s| >= 4
    ensures |r| == |s|
  {
    U32Bytes(n) + s[4..]
  }

  lemma CountRoundTrip(s: seq<Byte>, n: U32)
    requires |s| >= 4
    ensures CountOf(WithCount(s, n)) == n
  {
    U32RoundTrip(n);
    assert WithCount(s, n)[..4] == U32Bytes(n);
  }

  // --------------------------------------------------------------------- entries

  /** What is sent of an item: everything up to the end of its caption. */
  predicate IsEntry(L: Layout, e: seq<Byte>)
    requires L.Valid()
  {
    |e| >= L.itemHeader && CaptionSize(L, e) <= L.captionMax && |e| == L.itemHeader + CaptionSize(L, e)
  }

  ghost predicate AllEntries(L: Layout, es: seq<seq<Byte>>)
    requires L.Valid()
  {
    forall i :: 0 <= i < |es| ==> IsEntry(L, es[i])
  }

  function Zeros(n: nat): (z: seq<Byte>)
    ensures |z| == n && forall i :: 0 <= i < n ==> z[i] == 0
  {
    seq(n, _ => 0)
  }

  /** An entry in the memory of an item: the rest of the caption field is zero. */
  function Padded(L: Layout, e: seq<Byte>): (r: seq<Byte>)
    requires |e| <= L.ItemSize()
    ensures |r| == L.ItemSize()
  {
    e + Zeros(L.ItemSize() - |e|)
  }

  function Joined(es: seq<seq<Byte>>): seq<Byte> {
    if |es| == 0 then [] else Joined(es[..|es| - 1]) + es[|es| - 1]
  }

  function Slots(L: Layout, es: seq<seq<Byte>>): seq<Byte>
    requires forall i :: 0 <= i < |es| ==> |es[i]| <= L.ItemSize()
  {
    if |es| == 0 then [] else Slots(L, es[..|es| - 1]) + Padded(L, es[|es| - 1])
  }

  /** Item a in the memory of a pack. */
  function ItemAt(L: Layout, pack: seq<Byte>, a: nat): (r: seq<Byte>)
    requires L.Valid() && a < L.maxCount && |pack| >= L.PackSize()
    ensures |r| == L.ItemSize()
  {
    ItemInside(L, a);
    pack[L.header + L.ItemSize() * a..L.header + L.ItemSize() * a + L.ItemSize()]
  }

  lemma ItemInside(L: Layout, a: nat)
    requires a < L.maxCount
    ensures 0 <= L.ItemSize() * a && L.header + L.ItemSize() * a + L.ItemSize() <= L.PackSize()
  {
    MulMonoLeft(L.ItemSize(), a + 1, L.maxCount);
  }

  lemma MulMonoLeft(k: nat, a: nat, b: nat)
    requires a <= b
    ensures k * a <= k * b && 0 <= k * a
  {
  }

  /** Item a as an entry, if its caption is within the limit. */
  function KeptEntry(L: Layout, pack: seq<Byte>, a: nat): (es: seq<seq<Byte>>)
    requires L.Valid() && a < L.maxCount && |pack| >= L.PackSize()
    ensures |es| <= 1 && forall i :: 0 <= i < |es| ==> IsEntry(L, es[i])
  {
    var item := ItemAt(L, pack, a);
    var size := CaptionSize(L, item);
    if size <= L.captionMax then
      var e := item[..L.itemHeader + size];
      SameCaption(L, item, e);
      [e]
    else []
  }

  /** The entries of the first k items whose captions are within the limit, in order. */
  function Kept(L: Layout, pack: seq<Byte>, k: nat): (es: seq<seq<Byte>>)
    requires L.Valid() && k <= L.maxCount && |pack| >= L.PackSize()
    ensures |es| <= k && forall i :: 0 <= i < |es| ==> IsEntry(L, es[i])
  {
    if k == 0 then []
    else
      Kept(L, pack, k - 1) + KeptEntry(L, pack, k - 1)
  }

  lemma SameCaption(L: Layout, a: seq<Byte>, b: seq<Byte>)
    requires L.Valid() && |a| >= L.itemHeader && |b| >= L.itemHeader && a[..L.itemHeader] == b[..L.itemHeader]
    ensures CaptionSize(L, a) == CaptionSize(L, b)
  {
    var i, n := L.itemHeader - L.width, L.itemHeader;
    assert a[i..n] == a[..n][i..n] && b[i..n] == b[..n][i..n];
  }

  /** What srpc_set_pack sends. */
  function Built(L: Layout, pack: seq<Byte>, count: nat): seq<Byte>
    requires L.Valid() && count <= L.maxCount && |pack| >= L.PackSize()
  {
    var es := Kept(L, pack, count);
    WithCount(pack[..L.header], |es|) + Joined(es)
  }

  // --------------------------------------------------------------------- decoding

  /** The next k entries from the offset on, if all of them are there. */
  function Parse(L: Layout, data: seq<Byte>, off: nat, k: nat): (r: Option<seq<seq<Byte>>>)
    requires L.Valid() && off <= |data|
    ensures r.Some? ==> |r.value| == k && AllEntries(L, r.value)
    decreases k
  {
    if k == 0 then Some([])
    else if |data| - off < L.itemHeader then None
    else
      var size := CaptionSize(L, data[off..]);
      if size > L.captionMax || |data| - off < L.itemHeader + size then None
      else
        var e := data[off..off + (L.itemHeader + size)];
        SameCaption(L, data[off..], e);
        match Parse(L, data, off + (L.itemHeader + size), k - 1)
        case None => None
        case Some(es) => Some([e] + es)
  }

  /** What srpc_getpack makes of the data of a packet: nothing, or the memory of a pack. */
  function Unpacked(L: Layout, data: seq<Byte>): Option<seq<Byte>>
    requires L.Valid()
  {
    if |data| < L.header || |data| > L.PackSize() then None
    else
      var count := CountOf(data);
      if count >= 0x8000_0000 || count > L.maxCount then None
      else
        match Parse(L, data, L.header, count)
        case None => None
        case Some(es) => Some(WithCount(data[..L.header], count) + Slots(L, es))
  }

  lemma {:induction false} ParseJoined(L: Layout, head: seq<Byte>, es: seq<seq<Byte>>, rest: seq<Byte>)
    requires L.Valid() && AllEntries(L, es)
    ensures Parse(L, head + JoinedFront(es) + rest, |head|, |es|) == Some(es)
    decreases |es|
  {
    hide CaptionSize;
    if |es| > 0 {
      var e, tail := es[0], es[1..];
      var data := head + JoinedFront(es) + rest;
      ParseJoined(L, head + e, tail, rest);
      assert data == head + (e + (JoinedFront(tail) + rest));
      assert data == (head + e) + JoinedFront(tail) + rest;
      assert data[|head|..] == e + (JoinedFront(tail) + rest);
      SameCaption(L, data[|head|..], e);
      assert data[|head|..|head| + |e|] == e;
      assert [e] + tail == es;
    } else {
      assert es == [];
    }
  }

  function JoinedFront(es: seq<seq<Byte>>): seq<Byte> {
    if |es| == 0 then [] else es[0] + JoinedFront(es[1..])
  }

  lemma {:induction false} JoinedSame(es: seq<seq<Byte>>)
    ensures Joined(es) == JoinedFront(es)
    decreases |es|
  {
    if |es| > 0 {
      JoinedFirst(es);
      JoinedSame(es[1..]);
    }
  }

  lemma {:induction false} JoinedFirst(es: seq<seq<Byte>>)
    requires |es| > 0
    ensures Joined(es) == es[0] + Joined(es[1..])
    decreases |es|
  {
    var n := |es| - 1;
    if n == 0 {
      assert es[..0] == [] && es[1..] == [];
    } else {
      JoinedFirst(es[..n]);
      assert es[..n][1..] == es[1..][..n - 1];
      assert es[0] + Joined(es[1..n]) + es[n] == es[0] + (Joined(es[1..n]) + es[n]);
      assert es[1..][..n - 1] == es[1..n] && es[1..][n - 1] == es[n];
    }
  }

  lemma {:induction false} JoinedSize(L: Layout, es: seq<seq<Byte>>)
    requires L.Valid() && AllEntries(L, es)
    ensures |Joined(es)| <= L.ItemSize() * |es|
    decreases |es|
  {
    hide CaptionSize;
    if |es| > 0 {
      JoinedSize(L, es[..|es| - 1]);
      MulNext(L.ItemSize(), |es|);
      assert IsEntry(L, es[|es| - 1]);
    }
  }

  lemma MulNext(k: nat, n: nat)
    requires n > 0
    ensures k * n == k * (n - 1) + k
  {
  }

  /** srpc_getpack undoes srpc_set_pack: for every pack, what arrives is its header with the number
      of items kept, and exactly the items whose captions are within the limit, in order, the
      caption fields filled up with zeros. */
  lemma RoundTrip(L: Layout, pack: seq<Byte>, count: nat)
    requires L.Valid() && count <= L.maxCount && |pack| >= L.PackSize()
    ensures var es := Kept(L, pack, count);
      Unpacked(L, Built(L, pack, count)) == Some(WithCount(pack[..L.header], |es|) + Slots(L, es))
  {
    hide CaptionSize, Kept, Joined, JoinedFront, Parse, Slots;
    var es := Kept(L, pack, count);
    var head := WithCount(pack[..L.header], |es|);
    var data := head + Joined(es);
    CountRoundTrip(pack[..L.header], |es|);
    assert data[..4] == head[..4];
    JoinedSame(es);
    ParseJoined(L, head, es, []);
    assert head + JoinedFront(es) + [] == data;
    JoinedSize(L, es);
    MulMonoLeft(L.ItemSize(), |es|, L.maxCount);
    assert data[..L.header] == head;
    assert WithCount(head, |es|) == head;
  }

  // ------------------------------------------------------- what is sent, octet by octet

  function ItemStart(L: Layout, a: nat): (n: nat)
    ensures n >= L.header
  {
    MulMonoLeft(L.ItemSize(), 0, a);
    L.header + L.ItemSize() * a
  }

  /** The caption size of item a: the octets right before its caption, lowest first. */
  function CaptionAt(L: Layout, pack: seq<Byte>, a: nat): nat
    requires L.Valid() && a < L.maxCount && |pack| >= L.PackSize()
  {
    ItemInside(L, a);
    LE(pack[ItemStart(L, a) + L.itemHeader - L.width..ItemStart(L, a) + L.itemHeader], 256)
  }

  /** How many of the first k items have captions within the limit */
  function FittingBefore(L: Layout, pack: seq<Byte>, k: nat): nat
    requires L.Valid() && k <= L.maxCount && |pack| >= L.PackSize()
  {
    |set a: nat | a < L.maxCount && CaptionAt(L, pack, a) <= L.captionMax && a < k|
  }

  /** Where item k stands in what is sent: behind the header and the items before it, each up to the
      end of its caption, without those whose captions are too long. */
  function EntryOffset(L: Layout, pack: seq<Byte>, k: nat): nat
    requires L.Valid() && k <= L.maxCount && |pack| >= L.PackSize()
  {
    if k == 0 then L.header
    else
      var size := CaptionAt(L, pack, k - 1);
      EntryOffset(L, pack, k - 1) + if size > L.captionMax then 0 else L.itemHeader + size
  }

  /** The octets of item a up to the end of its caption */
  function ItemOctets(L: Layout, pack: seq<Byte>, a: nat): seq<Byte>
    requires L.Valid() && a < L.maxCount && |pack| >= L.PackSize() && CaptionAt(L, pack, a) <= L.captionMax
  {
    ItemInside(L, a);
    pack[ItemStart(L, a)..ItemStart(L, a) + L.itemHeader + CaptionAt(L, pack, a)]
  }

  /** The header is sent with the number of the items that follow; these are the ones whose captions
      are within the limit, in order, and nothing else. */
  ghost predicate Sends(L: Layout, pack: seq<Byte>, count: nat, buffer: seq<Byte>)
    requires L.Valid() && count <= L.maxCount && |pack| >= L.PackSize()
  {
    && |buffer| == EntryOffset(L, pack, count) >= L.header
    && LE(buffer[..4], 256) == FittingBefore(L, pack, count) && buffer[4..L.header] == pack[4..L.header]
    && forall a: nat :: a < count && CaptionAt(L, pack, a) <= L.captionMax ==> SendsItem(L, pack, a, buffer)
  }

  predicate SendsItem(L: Layout, pack: seq<Byte>, a: nat, buffer: seq<Byte>)
    requires L.Valid() && a < L.maxCount && |pack| >= L.PackSize() && CaptionAt(L, pack, a) <= L.captionMax
  {
    var i, e := EntryOffset(L, pack, a), ItemOctets(L, pack, a);
    i + |e| <= |buffer| && buffer[i..i + |e|] == e
  }

  /** The memory of the pack that arrives: the header with the number of items; the next item whose
      caption is within the limit stands at the next place, with zeros behind its caption. */
  ghost predicate Arrives(L: Layout, pack: seq<Byte>, count: nat, p: seq<Byte>)
    requires L.Valid() && count <= L.maxCount && |pack| >= L.PackSize()
  {
    && |p| == ItemStart(L, FittingBefore(L, pack, count))
    && LE(p[..4], 256) == FittingBefore(L, pack, count) && p[4..L.header] == pack[4..L.header]
    && forall a: nat :: a < count && CaptionAt(L, pack, a) <= L.captionMax ==> ArrivesItem(L, pack, a, p)
  }

  predicate ArrivesItem(L: Layout, pack: seq<Byte>, a: nat, p: seq<Byte>)
    requires L.Valid() && a < L.maxCount && |pack| >= L.PackSize() && CaptionAt(L, pack, a) <= L.captionMax
  {
    HoldsItem(L, p, FittingBefore(L, pack, a), ItemOctets(L, pack, a))
  }

  /** Item j in the memory of a pack: its octets, then zeros. */
  predicate HoldsItem(L: Layout, p: seq<Byte>, j: nat, e: seq<Byte>) {
    var i := ItemStart(L, j);
    && i + L.ItemSize() <= |p| && |e| <= L.ItemSize() && p[i..i + |e|] == e
    && forall k :: i + |e| <= k < i + L.ItemSize() ==> p[k] == 0
  }

  lemma U32IsLE(s: seq<Byte>)
    requires |s| == 4
    ensures U32Of(s) == LE(s, 256)
  {
    assert LE(s[3..][1..], 256) == 0;
    assert s[1..][1..] == s[2..] && s[2..][1..] == s[3..];
    assert LE(s[3..], 256) == s[3];
    assert LE(s[2..], 256) == s[2] + 256 * LE(s[3..], 256);
    assert LE(s[1..], 256) == s[1] + 256 * LE(s[2..], 256);
  }

  lemma U16IsLE(s: seq<Byte>)
    requires |s| == 2
    ensures var lo: int, hi: int := s[0], s[1];
      LE(s, 256) == lo + 256 * hi
  {
    assert LE(s[1..][1..], 256) == 0;
    assert LE(s[1..], 256) == s[1];
  }

  lemma CaptionIs(L: Layout, pack: seq<Byte>, a: nat)
    requires L.Valid() && a < L.maxCount && |pack| >= L.PackSize()
    ensures CaptionSize(L, ItemAt(L, pack, a)) == CaptionAt(L, pack, a)
  {
    hide U32Of, LE;
    ItemInside(L, a);
    var item, at := ItemAt(L, pack, a), ItemStart(L, a);
    var f := pack[at + L.itemHeader - L.width..at + L.itemHeader];
    SliceOfSlice(pack, at, at + L.ItemSize(), L.itemHeader - L.width, L.itemHeader);
    if L.width == 4 { U32IsLE(f); } else { U16IsLE(f); }
  }

  lemma CountIs(head: seq<Byte>, n: U32)
    requires |head| >= 4
    ensures LE(WithCount(head, n)[..4], 256) == n && WithCount(head, n)[4..] == head[4..]
  {
    hide U32Bytes, U32Of, LE;
    CountRoundTrip(head, n);
    U32IsLE(WithCount(head, n)[..4]);
  }

  /** The entries kept of the first k items, one more than of the first k - 1 if the last one fits. */
  lemma KeptNext(L: Layout, pack: seq<Byte>, a: nat)
    requires L.Valid() && a < L.maxCount && |pack| >= L.PackSize()
    ensures Kept(L, pack, a + 1) == Kept(L, pack, a) +
      if CaptionAt(L, pack, a) <= L.captionMax then [ItemOctets(L, pack, a)] else []
  {
    hide CaptionSize, CaptionAt;
    CaptionIs(L, pack, a);
    ItemInside(L, a);
    if CaptionAt(L, pack, a) <= L.captionMax {
      assert ItemAt(L, pack, a)[..L.itemHeader + CaptionAt(L, pack, a)] == ItemOctets(L, pack, a);
    }
  }

  lemma FittingNext(L: Layout, pack: seq<Byte>, a: nat)
    requires L.Valid() && a < L.maxCount && |pack| >= L.PackSize()
    ensures FittingBefore(L, pack, a + 1) ==
      FittingBefore(L, pack, a) + if CaptionAt(L, pack, a) <= L.captionMax then 1 else 0
  {
    hide CaptionAt;
    var s := set b: nat | b < L.maxCount && CaptionAt(L, pack, b) <= L.captionMax && b < a;
    var s' := set b: nat | b < L.maxCount && CaptionAt(L, pack, b) <= L.captionMax && b < a + 1;
    if CaptionAt(L, pack, a) <= L.captionMax {
      assert s' == s + {a};
    } else {
      assert s' == s;
    }
  }

  /** Number and offsets of the entries */
  lemma {:induction false} KeptPlaces(L: Layout, pack: seq<Byte>, k: nat)
    requires L.Valid() && k <= L.maxCount && |pack| >= L.PackSize()
    ensures |Kept(L, pack, k)| == FittingBefore(L, pack, k)
    ensures L.header + |Joined(Kept(L, pack, k))| == EntryOffset(L, pack, k)
  {
    hide CaptionAt, Kept, FittingBefore, EntryOffset;
    if k == 0 {
      PlacesStart(L, pack);
    } else {
      KeptPlaces(L, pack, k - 1);
      KeptNext(L, pack, k - 1);
      FittingNext(L, pack, k - 1);
      OffsetNext(L, pack, k - 1);
      JoinedGrows(Kept(L, pack, k - 1), Kept(L, pack, k));
    }
  }

  lemma PlacesStart(L: Layout, pack: seq<Byte>)
    requires L.Valid() && |pack| >= L.PackSize()
    ensures Kept(L, pack, 0) == [] && FittingBefore(L, pack, 0) == 0 && EntryOffset(L, pack, 0) == L.header
    ensures Joined([]) == []
  {
    hide CaptionAt;
    assert (set a: nat | a < L.maxCount && CaptionAt(L, pack, a) <= L.captionMax && a < 0) == {};
  }

  lemma OffsetNext(L: Layout, pack: seq<Byte>, a: nat)
    requires L.Valid() && a < L.maxCount && |pack| >= L.PackSize()
    ensures EntryOffset(L, pack, a + 1) == EntryOffset(L, pack, a) +
      if CaptionAt(L, pack, a) <= L.captionMax then |ItemOctets(L, pack, a)| else 0
  {
    hide CaptionAt;
    ItemInside(L, a);
  }

  lemma JoinedGrows(es: seq<seq<Byte>>, fs: seq<seq<Byte>>)
    requires es <= fs && |fs| <= |es| + 1
    ensures |Joined(fs)| == |Joined(es)| + if |fs| > |es| then |fs[|es|]| else 0
  {
    if |fs| > |es| {
      assert fs[..|es|] == es;
    } else {
      assert fs == es;
    }
  }

  lemma {:induction false} KeptPrefix(L: Layout, pack: seq<Byte>, a: nat, k: nat)
    requires L.Valid() && a <= k <= L.maxCount && |pack| >= L.PackSize()
    ensures Kept(L, pack, a) <= Kept(L, pack, k)
    decreases k
  {
    if a < k {
      KeptPrefix(L, pack, a, k - 1);
    }
  }

  lemma {:induction false} JoinedPrefix(es: seq<seq<Byte>>, fs: seq<seq<Byte>>)
    requires es <= fs
    ensures Joined(es) <= Joined(fs)
    decreases |fs|
  {
    if |es| == |fs| {
      assert es == fs;
    } else {
      JoinedPrefix(es, fs[..|fs| - 1]);
    }
  }

  lemma {:induction false} SlotsPrefix(L: Layout, es: seq<seq<Byte>>, fs: seq<seq<Byte>>)
    requires es <= fs && forall i :: 0 <= i < |fs| ==> |fs[i]| <= L.ItemSize()
    ensures Slots(L, es) <= Slots(L, fs)
    decreases |fs|
  {
    if |es| == |fs| {
      assert es == fs;
    } else {
      SlotsPrefix(L, es, fs[..|fs| - 1]);
    }
  }

  /** The buffer is what the items say. */
  lemma BuiltSends(L: Layout, pack: seq<Byte>, count: nat)
    requires L.Valid() && count <= L.maxCount && |pack| >= L.PackSize()
    ensures Sends(L, pack, count, Built(L, pack, count))
  {
    hide CaptionAt, CaptionSize, Kept, Joined, WithCount, LE, ItemOctets, EntryOffset;
    var es := Kept(L, pack, count);
    var head := WithCount(pack[..L.header], |es|);
    var buffer := Built(L, pack, count);
    KeptPlaces(L, pack, count);
    CountIs(pack[..L.header], |es|);
    assert buffer[..4] == head[..4] && buffer[4..L.header] == head[4..];
    assert pack[..L.header][4..] == pack[4..L.header];
    forall a: nat | a < count && CaptionAt(L, pack, a) <= L.captionMax
      ensures SendsItem(L, pack, a, buffer)
    {
      EntryPlaced(L, pack, a, count);
      var i, e := |Joined(Kept(L, pack, a))|, ItemOctets(L, pack, a);
      KeptPlaces(L, pack, a);
      assert buffer[L.header..] == Joined(es);
      assert buffer[L.header + i..L.header + i + |e|] == buffer[L.header..][i..i + |e|];
    }
  }

  lemma EntryPlaced(L: Layout, pack: seq<Byte>, a: nat, count: nat)
    requires L.Valid() && a < count <= L.maxCount && |pack| >= L.PackSize() && CaptionAt(L, pack, a) <= L.captionMax
    ensures var i, e := |Joined(Kept(L, pack, a))|, ItemOctets(L, pack, a);
      var t := Joined(Kept(L, pack, count)); i + |e| <= |t| && t[i..i + |e|] == e
  {
    hide CaptionAt, CaptionSize, Kept, Joined, ItemOctets;
    var e := ItemOctets(L, pack, a);
    KeptNext(L, pack, a);
    JoinedMore(Kept(L, pack, a), [e]);
    JoinedOne(e);
    KeptPrefix(L, pack, a + 1, count);
    JoinedPrefix(Kept(L, pack, a + 1), Kept(L, pack, count));
  }

  /** srpc_getpack undoes srpc_set_pack, octet by octet. */
  lemma PackArrives(L: Layout, pack: seq<Byte>, count: nat)
    requires L.Valid() && count <= L.maxCount && |pack| >= L.PackSize()
    ensures Unpacked(L, Built(L, pack, count)).Some?
    ensures Arrives(L, pack, count, Unpacked(L, Built(L, pack, count)).value)
  {
    hide CaptionAt, CaptionSize, Kept, Slots, Built, Unpacked, WithCount, LE, FittingBefore;
    var es := Kept(L, pack, count);
    var head := WithCount(pack[..L.header], |es|);
    var p := head + Slots(L, es);
    RoundTrip(L, pack, count);
    KeptPlaces(L, pack, count);
    SlotsSize(L, es);
    CountIs(pack[..L.header], |es|);
    assert p[..4] == head[..4] && p[4..L.header] == head[4..];
    assert pack[..L.header][4..] == pack[4..L.header];
    forall a: nat | a < count && CaptionAt(L, pack, a) <= L.captionMax
      ensures ArrivesItem(L, pack, a, p)
    {
      SlotPlaced(L, pack, a, count);
      InsideSlot(L, p, head, Slots(L, es), FittingBefore(L, pack, a), ItemOctets(L, pack, a));
    }
  }

  lemma SlotPlaced(L: Layout, pack: seq<Byte>, a: nat, count: nat)
    requires L.Valid() && a < count <= L.maxCount && |pack| >= L.PackSize() && CaptionAt(L, pack, a) <= L.captionMax
    ensures |ItemOctets(L, pack, a)| <= L.ItemSize()
    ensures var i, t := L.ItemSize() * FittingBefore(L, pack, a), Slots(L, Kept(L, pack, count));
      0 <= i && i + L.ItemSize() <= |t| && t[i..i + L.ItemSize()] == Padded(L, ItemOctets(L, pack, a))
  {
    hide CaptionAt, CaptionSize, Kept, Slots, Padded, FittingBefore;
    ItemInside(L, a);
    var es, e := Kept(L, pack, a), ItemOctets(L, pack, a);
    KeptNext(L, pack, a);
    KeptPlaces(L, pack, a);
    SlotsSize(L, es);
    SlotsMore(L, es, e);
    KeptPrefix(L, pack, a + 1, count);
    SlotsPrefix(L, Kept(L, pack, a + 1), Kept(L, pack, count));
  }

  lemma InsideSlot(L: Layout, p: seq<Byte>, head: seq<Byte>, t: seq<Byte>, n: nat, e: seq<Byte>)
    requires p == head + t && |head| == L.header && |e| <= L.ItemSize()
    requires 0 <= L.ItemSize() * n && L.ItemSize() * n + L.ItemSize() <= |t|
    requires t[L.ItemSize() * n..L.ItemSize() * n + L.ItemSize()] == Padded(L, e)
    ensures HoldsItem(L, p, n, e)
  {
    hide Zeros;
    var i, k := ItemStart(L, n), L.ItemSize();
    var q := Padded(L, e);
    assert p[i..i + k] == q by {
      assert p[|head|..] == t;
      assert p[i..i + k] == t[i - L.header..i - L.header + k];
    }
    SliceOfSlice(p, i, i + k, 0, |e|);
    assert q[0..|e|] == e;
    forall j | i + |e| <= j < i + k
      ensures p[j] == 0
    {
      assert p[j] == p[i..i + k][j - i] == q[j - i];
      ZeroBehind(L, e, j - i);
    }
  }

  lemma ZeroBehind(L: Layout, e: seq<Byte>, j: nat)
    requires |e| <= j < L.ItemSize()
    ensures Padded(L, e)[j] == 0
  {
  }

  lemma {:induction false} ParseSound(L: Layout, data: seq<Byte>, off: nat, k: nat)
    requires L.Valid() && off <= |data|
    ensures var r := Parse(L, data, off, k); r.Some? ==> JoinedFront(r.value) <= data[off..]
    decreases k
  {
    hide CaptionSize;
    var r := Parse(L, data, off, k);
    if k > 0 && r.Some? {
      var e := r.value[0];
      assert e == data[off..off + |e|];
      ParseSound(L, data, off + |e|, k - 1);
      assert r.value[1..] == Parse(L, data, off + |e|, k - 1).value;
      assert data[off..] == e + data[off + |e|..];
    }
  }

  /** The data of a packet is accepted exactly if its size is possible and the counted items stand
      behind the header, each with a caption within the limit. */
  lemma AcceptedIff(L: Layout, data: seq<Byte>)
    requires L.Valid()
    ensures Unpacked(L, data).Some? <==>
      && L.header <= |data| <= L.PackSize() && LE(data[..4], 256) <= L.maxCount
      && exists es: seq<seq<Byte>> ::
           |es| == LE(data[..4], 256) && AllEntries(L, es) && JoinedFront(es) <= data[L.header..]
  {
    hide CaptionSize, Parse, Slots, U32Of, LE, IsEntry, JoinedFront;
    if |data| >= L.header {
      U32IsLE(data[..4]);
      var count := CountOf(data);
      ParseSound(L, data, L.header, count);
      if es: seq<seq<Byte>> :| |es| == count && AllEntries(L, es) && JoinedFront(es) <= data[L.header..] {
        var front, rest := data[..L.header], data[L.header..][|JoinedFront(es)|..];
        assert data == front + JoinedFront(es) + rest;
        ParseJoined(L, front, es, rest);
      }
    }
  }

  /** What an accepted packet becomes: its header, and each item at its place with zeros behind its
      caption. */
  lemma AcceptedHolds(L: Layout, data: seq<Byte>, es: seq<seq<Byte>>)
    requires L.Valid() && L.header <= |data| <= L.PackSize() && |es| == LE(data[..4], 256) <= L.maxCount
    requires AllEntries(L, es) && JoinedFront(es) <= data[L.header..]
    ensures Unpacked(L, data).Some?
    ensures var p := Unpacked(L, data).value;
      && |p| == ItemStart(L, |es|) && p[..L.header] == data[..L.header]
      && forall j: nat :: j < |es| ==> HoldsItem(L, p, j, es[j])
  {
    hide CaptionSize, Slots, Unpacked, LE, IsEntry, JoinedFront, HoldsItem;
    AcceptedValue(L, data, es);
    EntriesFit(L, es);
    SlotsSize(L, es);
    var p := Unpacked(L, data).value;
    forall j: nat | j < |es|
      ensures HoldsItem(L, p, j, es[j])
    {
      SlotAt(L, es, j);
      InsideSlot(L, p, data[..L.header], Slots(L, es), j, es[j]);
    }
  }

  lemma AcceptedValue(L: Layout, data: seq<Byte>, es: seq<seq<Byte>>)
    requires L.Valid() && L.header <= |data| <= L.PackSize() && |es| == LE(data[..4], 256) <= L.maxCount
    requires AllEntries(L, es) && JoinedFront(es) <= data[L.header..]
    ensures forall i :: 0 <= i < |es| ==> |es[i]| <= L.ItemSize()
    ensures Unpacked(L, data) == Some(data[..L.header] + Slots(L, es))
  {
    hide CaptionSize, Parse, Slots, U32Of, LE, IsEntry, JoinedFront, U32Bytes, WithCount;
    U32IsLE(data[..4]);
    var front, rest := data[..L.header], data[L.header..][|JoinedFront(es)|..];
    assert data == front + JoinedFront(es) + rest;
    ParseJoined(L, front, es, rest);
    EntriesFit(L, es);
    assert data[..4] == front[..4];
    CountBack(front, |es|);
  }

  lemma EntriesFit(L: Layout, es: seq<seq<Byte>>)
    requires L.Valid() && AllEntries(L, es)
    ensures forall i :: 0 <= i < |es| ==> |es[i]| <= L.ItemSize()
  {
    hide CaptionSize;
    forall i | 0 <= i < |es|
      ensures |es[i]| <= L.ItemSize()
    {
      assert IsEntry(L, es[i]);
    }
  }

  lemma CountBack(head: seq<Byte>, n: U32)
    requires |head| >= 4 && CountOf(head) == n
    ensures WithCount(head, n) == head
  {
    BytesOf(head[..4]);
  }

  lemma BytesOf(s: seq<Byte>)
    requires |s| == 4
    ensures U32Bytes(U32Of(s)) == s
  {
    var a: int, b: int, c: int, d: int := s[0], s[1], s[2], s[3];
    var n := U32Of(s);
    DivModUnique(n, 256, b + 256 * c + 0x1_0000 * d, a);
    DivModUnique(n, 0x1_0000, c + 256 * d, a + 256 * b);
    DivModUnique(n, 0x100_0000, d, a + 256 * b + 0x1_0000 * c);
    DivModUnique(b + 256 * c + 0x1_0000 * d, 256, c + 256 * d, b);
    DivModUnique(c + 256 * d, 256, d, c);
  }

  lemma SlotAt(L: Layout, es: seq<seq<Byte>>, j: nat)
    requires j < |es| && forall i :: 0 <= i < |es| ==> |es[i]| <= L.ItemSize()
    ensures 0 <= L.ItemSize() * j && L.ItemSize() * j + L.ItemSize() <= |Slots(L, es)|
    ensures Slots(L, es)[L.ItemSize() * j..L.ItemSize() * j + L.ItemSize()] == Padded(L, es[j])
  {
    hide Padded;
    SlotsSize(L, es[..j]);
    assert es[..j + 1][..j] == es[..j];
    SlotsPrefix(L, es[..j + 1], es);
  }

  /** An entry is as long as its own caption size says, and the caption is within the limit. */
  lemma EntryIs(L: Layout, e: seq<Byte>)
    requires L.Valid()
    ensures IsEntry(L, e) <==>
      |e| >= L.itemHeader && var size := LE(e[L.itemHeader - L.width..L.itemHeader], 256);
        size <= L.captionMax && |e| == L.itemHeader + size
  {
    hide U32Of, LE;
    if |e| >= L.itemHeader {
      var f := e[L.itemHeader - L.width..L.itemHeader];
      if L.width == 4 { U32IsLE(f); } else { U16IsLE(f); }
    }
  }

  // ----------------------------------------------------------------------- the two loops

  /** realloc of a buffer to n octets */
  method Regrow(a: array<Byte>, n: nat) returns (b: array<Byte>)
    requires a.Length <= n
    ensures fresh(b) && b.Length == n && b[..a.Length] == a[..]
  {
    b := new Byte[n];
    CopyOut(a, b, a.Length);
  }

  /** One turn of the loop: the item is sent if its caption is within the limit. */
  method AppendItem(L: Layout, buffer: array<Byte>, pack: array<Byte>, a: nat) returns (longer: array<Byte>, kept: bool)
    requires L.Valid() && a < L.maxCount && pack.Length == L.PackSize() && buffer.Length >= L.header
    ensures longer == buffer || fresh(longer)
    ensures longer[..] == buffer[..] + Joined(KeptEntry(L, pack[..], a)) && kept == (KeptEntry(L, pack[..], a) != [])
  {
    hide CaptionSize;
    ItemInside(L, a);
    var at := L.header + L.ItemSize() * a;
    ghost var item := ItemAt(L, pack[..], a);
    assert pack[at..at + L.ItemSize()] == item;
    var size := CaptionSize(L, pack[at..at + L.ItemSize()]);
    longer, kept := buffer, size <= L.captionMax;
    if kept {
      var n := L.itemHeader + size;
      longer := Regrow(buffer, buffer.Length + n);
      CopyInto(longer, buffer.Length, pack[at..at + n]);
      assert pack[at..at + n] == item[..n];
      assert longer[..] == buffer[..] + item[..n];
      JoinedOne(item[..n]);
    }
  }

  lemma JoinedOne(e: seq<Byte>)
    ensures Joined([e]) == e
  {
    assert [e][..0] == [];
  }

  /** The buffer of srpc_set_pack; the null pointer stands for a count that is refused. */
  method SetPack(L: Layout, pack: array<Byte>, count: int) returns (buffer: array?<Byte>)
    requires L.Valid() && pack.Length == L.PackSize()
    ensures buffer == null <==> count < 1 || count > L.maxCount
    ensures buffer != null ==> fresh(buffer) && buffer[..] == Built(L, pack[..], count)
    ensures buffer != null ==> Sends(L, pack[..], count, buffer[..])
  {
    hide Built, Sends;
    if count < 1 || count > L.maxCount {
      return null;
    }
    buffer := BuildPack(L, pack, count);
    BuiltSends(L, pack[..], count);
  }

  /** The loop of srpc_set_pack, with one realloc for every item that is sent. */
  method BuildPack(L: Layout, pack: array<Byte>, count: nat) returns (buffer: array<Byte>)
    requires L.Valid() && count <= L.maxCount && pack.Length == L.PackSize()
    ensures fresh(buffer) && buffer[..] == Built(L, pack[..], count)
  {
    hide CaptionSize, Joined, KeptEntry;
    ghost var p := pack[..];
    buffer := new Byte[L.header];
    CopyOut(pack, buffer, L.header);
    var a, n := 0, 0;
    JoinedNone();
    while a < count
      invariant 0 <= a <= count && fresh(buffer) && n == |Kept(L, p, a)|
      invariant buffer[..] == p[..L.header] + Joined(Kept(L, p, a))
    {
      ghost var es, more := Kept(L, p, a), KeptEntry(L, p, a);
      var kept;
      buffer, kept := AppendItem(L, buffer, pack, a);
      JoinedMore(es, more);
      n := n + if kept then 1 else 0;
      a := a + 1;
    }
    PutCount(buffer, p[..L.header], Joined(Kept(L, p, count)), n);
  }

  /** set_pack_count */
  method PutCount(buffer: array<Byte>, ghost head: seq<Byte>, ghost rest: seq<Byte>, n: U32)
    requires |head| >= 4 && buffer[..] == head + rest
    modifies buffer
    ensures buffer[..] == WithCount(head, n) + rest
  {
    hide U32Bytes;
    CopyInto(buffer, 0, U32Bytes(n));
    assert buffer[..] == U32Bytes(n) + (head + rest)[4..];
  }

  lemma JoinedNone()
    ensures Joined([]) == []
  {
  }

  lemma JoinedMore(es: seq<seq<Byte>>, more: seq<seq<Byte>>)
    requires |more| <= 1
    ensures Joined(es + more) == Joined(es) + Joined(more)
  {
    if |more| == 1 {
      assert (es + more)[..|es|] == es && more[..0] == [];
    } else {
      assert es + more == es;
    }
  }

  // ------------------------------------------------------------------- the decoding loop

  function Prefixed(es: seq<seq<Byte>>, r: Option<seq<seq<Byte>>>): Option<seq<seq<Byte>>> {
    match r
    case None => None
    case Some(more) => Some(es + more)
  }

  /** The entry at the offset, if the loop accepts it. */
  function EntryAt(L: Layout, data: seq<Byte>, off: nat): (r: Option<seq<Byte>>)
    requires L.Valid() && off <= |data|
    ensures r.Some? ==> IsEntry(L, r.value) && off + |r.value| <= |data|
  {
    if |data| - off < L.itemHeader then None
    else
      var size := CaptionSize(L, data[off..]);
      if size > L.captionMax || |data| - off < L.itemHeader + size then None
      else
        var e := data[off..off + (L.itemHeader + size)];
        SameCaption(L, data[off..], e);
        Some(e)
  }

  lemma ParseStep(L: Layout, data: seq<Byte>, off: nat, k: nat, es: seq<seq<Byte>>)
    requires L.Valid() && off <= |data| && k > 0
    ensures var e := EntryAt(L, data, off);
      Prefixed(es, Parse(L, data, off, k)) ==
        if e.None? then None else Prefixed(es + [e.value], Parse(L, data, off + |e.value|, k - 1))
  {
    hide CaptionSize;
    var e := EntryAt(L, data, off);
    if e.Some? {
      var r := Parse(L, data, off + |e.value|, k - 1);
      if r.Some? {
        assert es + ([e.value] + r.value) == es + [e.value] + r.value;
      }
    }
  }

  lemma PrefixedNone(r: Option<seq<seq<Byte>>>)
    ensures Prefixed([], r) == r
  {
    if r.Some? {
      assert [] + r.value == r.value;
    }
  }

  /** memcpy of an entry into a zeroed item */
  method PlaceItem(L: Layout, p: array<Byte>, ghost front: seq<Byte>, at: nat, e: seq<Byte>)
    requires at == |front| && at + L.ItemSize() <= p.Length && |e| <= L.ItemSize()
    requires p[..] == front + Zeros(p.Length - at)
    modifies p
    ensures p[..] == front + Padded(L, e) + Zeros(p.Length - at - L.ItemSize())
  {
    CopyInto(p, at, e);
    assert p[..] == front + e + Zeros(p.Length - at - |e|);
    ZerosSplit(p.Length - at - |e|, L.ItemSize() - |e|);
    assert front + e + (Zeros(L.ItemSize() - |e|) + Zeros(p.Length - at - L.ItemSize()))
        == front + (e + Zeros(L.ItemSize() - |e|)) + Zeros(p.Length - at - L.ItemSize());
  }

  lemma ZerosSplit(n: nat, k: nat)
    requires k <= n
    ensures Zeros(n) == Zeros(k) + Zeros(n - k)
  {
  }

  lemma SlotsMore(L: Layout, es: seq<seq<Byte>>, e: seq<Byte>)
    requires |e| <= L.ItemSize() && forall i :: 0 <= i < |es| ==> |es[i]| <= L.ItemSize()
    ensures Slots(L, es + [e]) == Slots(L, es) + Padded(L, e)
  {
    assert (es + [e])[..|es|] == es;
  }

  lemma {:induction false} SlotsSize(L: Layout, es: seq<seq<Byte>>)
    requires forall i :: 0 <= i < |es| ==> |es[i]| <= L.ItemSize()
    ensures |Slots(L, es)| == L.ItemSize() * |es|
    decreases |es|
  {
    if |es| > 0 {
      SlotsSize(L, es[..|es| - 1]);
      MulNext(L.ItemSize(), |es|);
    }
  }

  /** The memory of a pack while it is filled: its count, the items placed, zeros. */
  ghost predicate Filled(L: Layout, p: seq<Byte>, head: seq<Byte>, es: seq<seq<Byte>>)
    requires L.Valid() && AllEntries(L, es)
  {
    |head| >= 4 && |es| < 0x8000_0000 && |head| + L.ItemSize() * |es| <= |p|
    && p == WithCount(head, |es|) + Slots(L, es) + Zeros(|p| - |head| - L.ItemSize() * |es|)
  }

  /** One accepted item: its octets and the count, which is one more. */
  method FillItem(L: Layout, p: array<Byte>, at: nat, e: seq<Byte>, ghost head: seq<Byte>, ghost es: seq<seq<Byte>>)
    requires L.Valid() && AllEntries(L, es) && IsEntry(L, e) && Filled(L, p[..], head, es) && |es| + 1 < 0x8000_0000
    requires at == |head| + L.ItemSize() * |es| && at + L.ItemSize() <= p.Length
    modifies p
    ensures Filled(L, p[..], head, es + [e])
  {
    hide CaptionSize, Slots, Padded, Zeros, WithCount;
    ghost var front, rest := WithCount(head, |es|) + Slots(L, es), Zeros(p.Length - at - L.ItemSize());
    SlotsSize(L, es);
    SlotsMore(L, es, e);
    MulNext(L.ItemSize(), |es| + 1);
    PlaceItem(L, p, front, at, e);
    CountRoundTrip(head, |es|);
    assert p[..4] == front[..4] == WithCount(head, |es|)[..4];
    var n := U32Of(p[..4]);
    PutCount(p, WithCount(head, |es|), Slots(L, es + [e]) + rest, n + 1);
    CountTwice(head, |es|, |es| + 1);
  }

  lemma CountTwice(s: seq<Byte>, m: U32, n: U32)
    requires |s| >= 4
    ensures WithCount(WithCount(s, m), n) == WithCount(s, n)
  {
  }

  /** `pack_get_count`, the loop and the result of srpc_getpack; the null pointer stands for a pack
      that is refused. */
  method GetPack(L: Layout, data: array<Byte>, dataSize: nat) returns (pack: array?<Byte>)
    requires L.Valid() && dataSize <= data.Length
    ensures pack == null <==> Unpacked(L, data[..dataSize]) == None
    ensures pack != null ==> fresh(pack) && Unpacked(L, data[..dataSize]) == Some(pack[..])
  {
    hide CaptionSize, Parse, Slots, U32Of;
    if dataSize < L.header || dataSize > L.PackSize() {
      return null;
    }
    ghost var d := data[..dataSize];
    var count := U32Of(data[..4]);
    assert data[..4] == d[..4];
    if count >= 0x8000_0000 || count > L.maxCount {
      return null;
    }
    assert d[..L.header] == data[..L.header];
    var got;
    ghost var es;
    pack, got, es := TakeItems(L, data, dataSize, count);
    if got != count {
      return null;
    }
    FilledWhole(L, pack[..], d[..L.header], es);
  }

  lemma FilledWhole(L: Layout, p: seq<Byte>, head: seq<Byte>, es: seq<seq<Byte>>)
    requires L.Valid() && AllEntries(L, es) && Filled(L, p, head, es) && |p| == |head| + L.ItemSize() * |es|
    ensures p == WithCount(head, |es|) + Slots(L, es)
  {
    assert Zeros(0) == [];
  }

  /** malloc and memset of the pack, its header with count 0 */
  method NewPack(L: Layout, data: array<Byte>, count: nat) returns (p: array<Byte>)
    requires L.Valid() && L.header <= data.Length
    ensures fresh(p) && p.Length == L.header + L.ItemSize() * count && Filled(L, p[..], data[..L.header], [])
  {
    hide U32Bytes;
    MulMonoLeft(L.ItemSize(), 0, count);
    p := new Byte[L.header + L.ItemSize() * count](_ => 0);
    CopyOut(data, p, L.header);
    ghost var head := data[..L.header];
    assert p[..] == head + Zeros(p.Length - L.header);
    PutCount(p, head, Zeros(p.Length - L.header), 0);
    assert L.ItemSize() * 0 == 0;
  }

  /** The tests on the item at the offset. */
  method Accept(L: Layout, data: array<Byte>, dataSize: nat, offset: nat) returns (e: Option<seq<Byte>>)
    requires L.Valid() && offset <= dataSize <= data.Length
    ensures e == EntryAt(L, data[..dataSize], offset)
  {
    hide CaptionSize;
    ghost var d := data[..dataSize];
    if dataSize - offset < L.itemHeader {
      return None;
    }
    assert data[offset..dataSize] == d[offset..];
    var n := L.itemHeader + CaptionSize(L, data[offset..dataSize]);
    if n - L.itemHeader > L.captionMax || dataSize - offset < n {
      return None;
    }
    TakenSlice(data[..], dataSize, offset, n);
    return Some(data[offset..offset + n]);
  }

  lemma TakenSlice(s: seq<Byte>, k: nat, off: nat, n: nat)
    requires off + n <= k <= |s|
    ensures s[off..off + n] == s[..k][off..off + n]
  {
  }

  lemma ItemsInside(L: Layout, a: nat, count: nat)
    requires a < count
    ensures L.ItemSize() * a + L.ItemSize() <= L.ItemSize() * count
  {
    MulMonoLeft(L.ItemSize(), a + 1, count);
    MulNext(L.ItemSize(), a + 1);
  }

  lemma ParseNone(L: Layout, data: seq<Byte>, off: nat, es: seq<seq<Byte>>)
    requires L.Valid() && off <= |data|
    ensures Prefixed(es, Parse(L, data, off, 0)) == Some(es)
  {
    assert es + [] == es;
  }

  lemma EntryNeedsHeader(L: Layout, data: seq<Byte>, off: nat)
    requires L.Valid() && off <= |data|
    ensures |data| - off < L.itemHeader ==> EntryAt(L, data, off) == None
  {
  }

  /** The memory of the pack and the loop over the items. */
  method TakeItems(L: Layout, data: array<Byte>, dataSize: nat, count: nat) returns (p: array<Byte>, got: nat,
                                                                                     ghost es: seq<seq<Byte>>)
    requires L.Valid() && L.header <= dataSize <= data.Length && count <= L.maxCount
    ensures fresh(p) && p.Length == L.header + L.ItemSize() * count && AllEntries(L, es)
    ensures Filled(L, p[..], data[..L.header], es) && got == |es| <= count
    ensures Parse(L, data[..dataSize], L.header, count) == if got == count then Some(es) else None
  {
    hide CaptionSize, Parse, Prefixed, EntryAt, Filled, IsEntry;
    ghost var d, head := data[..dataSize], data[..L.header];
    p := NewPack(L, data, count);
    es := [];
    got := 0;
    var offset, a := L.header, 0;
    PrefixedNone(Parse(L, d, L.header, count));
    while a < count
      invariant 0 <= a <= count && L.header <= offset <= dataSize && got == |es| <= a && AllEntries(L, es)
      invariant fresh(p) && p.Length == L.header + L.ItemSize() * count && Filled(L, p[..], head, es)
      invariant got == a ==> Parse(L, d, L.header, count) == Prefixed(es, Parse(L, d, offset, count - a))
      invariant got < a ==> Parse(L, d, L.header, count) == None && dataSize - offset < L.itemHeader
    {
      if got == a {
        ParseStep(L, d, offset, count - a, es);
      }
      EntryNeedsHeader(L, d, offset);
      var e := Accept(L, data, dataSize, offset);
      if e.Some? {
        ItemsInside(L, a, count);
        var at := L.header + L.ItemSize() * a;
        FillItem(L, p, at, e.value, head, es);
        es := es + [e.value];
        offset := offset + |e.value|;
        got := got + 1;
      } else if dataSize - offset >= L.itemHeader {
        return;
      }
      a := a + 1;
    }
    ParseNone(L, d, offset, es);
  }
}
