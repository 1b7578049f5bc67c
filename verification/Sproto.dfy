/** The SUPLA framing layer (supla-common/proto.c) with the constants of the ESP8266: byte buffers
    that grow and shrink, packets delimited by a tag, and their reassembly from any chunks. */
module Sproto {
  import opened Limbs
  import opened Memory

  const TAG: seq<Byte> := [83, 85, 80, 76, 65]
  const TAG_SIZE := 5
  const HEADER_SIZE := 18
  const MAX_DATA_SIZE := 1536
  /** sizeof (TSuplaDataPacket), a packed structure */
  const SDP_SIZE := 1554
  const BUFFER_MIN_SIZE := 512
  const BUFFER_MAX_SIZE := 2048
  const PROTO_VERSION := 23
  const PROTO_VERSION_MIN := 1

  type U32 = x: int | 0 <= x < 0x1_0000_0000

  datatype Result = True | False | VersionError | DataError | BufferOverflow | DataTooLarge

  // --------------------------------------------------------------------------- packets

  /** A 32-bit field in memory, lowest octet first. */
  function U32Of(s: seq<Byte>): U32
    requires |s| == 4
  {
    var a: int, b: int, c: int, d: int := s[0], s[1], s[2], s[3];
    a + 0x100 * b + 0x1_0000 * c + 0x100_0000 * d
  }

  function U32Bytes(n: U32): (s: seq<Byte>)
    ensures |s| == 4
  {
    [n % 256, n / 0x100 % 256, n / 0x1_0000 % 256, n / 0x100_0000]
  }

  lemma U32RoundTrip(n: U32)
    ensures U32Of(U32Bytes(n)) == n
  {
  }

  datatype Packet = Packet(version: Byte, rrId: U32, callId: U32, data: seq<Byte>)

  /** The octets of a packet up to the end of its data. */
  function Encode(p: Packet): seq<Byte>
    requires |p.data| <= MAX_DATA_SIZE
  {
    TAG + [p.version] + U32Bytes(p.rrId) + U32Bytes(p.callId) + U32Bytes(|p.data|) + p.data
  }

  function Frame(p: Packet): seq<Byte>
    requires |p.data| <= MAX_DATA_SIZE
  {
    Encode(p) + TAG
  }

  predicate WellFormed(p: Packet) {
    |p.data| <= MAX_DATA_SIZE && PROTO_VERSION_MIN <= p.version <= PROTO_VERSION
  }

  ghost predicate AllWellFormed(ps: seq<Packet>) {
    forall i :: 0 <= i < |ps| ==> WellFormed(ps[i])
  }

  /** The stream of octets that carries the packets. */
  function Stream(ps: seq<Packet>): seq<Byte>
    requires forall i :: 0 <= i < |ps| ==> |ps[i].data| <= MAX_DATA_SIZE
  {
    if |ps| == 0 then [] else Frame(ps[0]) + Stream(ps[1..])
  }

  lemma {:induction false} StreamAppend(ps: seq<Packet>, p: Packet)
    requires AllWellFormed(ps) && WellFormed(p)
    ensures AllWellFormed(ps + [p]) && Stream(ps + [p]) == Stream(ps) + Frame(p)
  {
    if |ps| == 0 {
      assert ps + [p] == [p] && Stream([p]) == Frame(p) + Stream([]);
    } else {
      StreamAppend(ps[1..], p);
      assert (ps + [p])[1..] == ps[1..] + [p];
      assert Frame(ps[0]) + (Stream(ps[1..]) + Frame(p)) == Frame(ps[0]) + Stream(ps[1..]) + Frame(p);
    }
  }

  // ---------------------------------------------------------------- reading the input buffer

  /** data_size in the octets of a packet */
  function DataSize(s: seq<Byte>): U32
    requires |s| >= HEADER_SIZE
  {
    U32Of(s[14..18])
  }

  /** header_size + data_size in 32 bits */
  function TotalSize(s: seq<Byte>): U32
    requires |s| >= HEADER_SIZE
  {
    (HEADER_SIZE + DataSize(s)) % 0x1_0000_0000
  }

  /** The verdict of sproto_pop_in_sdp on the contents of the buffer: wait, an error, or a packet
      of n octets with its closing tag. */
  datatype Verdict = Wait | BadData | BadVersion | Ready(n: nat)

  function Examine(s: seq<Byte>): (v: Verdict)
    ensures v.Ready? ==> v.n + TAG_SIZE <= |s| && v.n <= SDP_SIZE
    ensures v.BadVersion? ==> |s| > 5
  {
    if |s| < TAG_SIZE then Wait
    else if s[..TAG_SIZE] != TAG then BadData
    else if |s| < TAG_SIZE + HEADER_SIZE then Wait
    else if s[5] > PROTO_VERSION || s[5] < PROTO_VERSION_MIN then BadVersion
    else
      var n := TotalSize(s);
      if n > SDP_SIZE then BadData
      else if n + TAG_SIZE > |s| then Wait
      else if s[n..n + TAG_SIZE] != TAG then BadData
      else Ready(n)
  }

  lemma EncodeFields(p: Packet)
    requires |p.data| <= MAX_DATA_SIZE
    ensures var e := Encode(p);
      && |e| == HEADER_SIZE + |p.data| && e[..5] == TAG && e[5] == p.version
      && e[6..10] == U32Bytes(p.rrId) && e[10..14] == U32Bytes(p.callId) && e[14..18] == U32Bytes(|p.data|)
      && e[18..] == p.data
  {
  }

  /** The fields of a structure determine the packet. */
  function Decode(s: seq<Byte>): Packet
    requires |s| >= HEADER_SIZE && HEADER_SIZE + DataSize(s) <= |s|
  {
    Packet(s[5], U32Of(s[6..10]), U32Of(s[10..14]), s[18..18 + DataSize(s)])
  }

  lemma DecodeEncode(p: Packet, rest: seq<Byte>)
    requires |p.data| <= MAX_DATA_SIZE
    ensures |Encode(p) + rest| >= HEADER_SIZE && DataSize(Encode(p) + rest) == |p.data|
    ensures TotalSize(Encode(p) + rest) == |Encode(p)| && |Encode(p)| == HEADER_SIZE + |p.data|
    ensures Decode(Encode(p) + rest) == p
  {
    EncodeFields(p);
    U32RoundTrip(p.rrId);
    U32RoundTrip(p.callId);
    U32RoundTrip(|p.data|);
    FieldsOf(Encode(p), rest);
  }

  lemma FieldsOf(e: seq<Byte>, rest: seq<Byte>)
    requires |e| >= HEADER_SIZE
    ensures var s := e + rest;
      s[..5] == e[..5] && s[5] == e[5] && s[6..10] == e[6..10] && s[10..14] == e[10..14] && s[14..18] == e[14..18]
      && s[18..|e|] == e[18..]
  {
  }

  /** On a stream of packets the reader waits exactly until the first frame is complete, then takes
      it; it never reports an error. */
  lemma ExamineStream(p: Packet, s: seq<Byte>, later: seq<Byte>)
    requires WellFormed(p) && s <= Frame(p) + later
    ensures Examine(s) == if |s| < |Frame(p)| then Wait else Ready(|Encode(p)|)
    ensures |s| >= |Frame(p)| ==> s[..|Encode(p)|] == Encode(p)
  {
    hide Encode, DataSize, TotalSize;
    var f := Frame(p);
    EncodeFields(p);
    if |s| >= TAG_SIZE {
      assert s[..TAG_SIZE] == (f + later)[..TAG_SIZE] == Encode(p)[..TAG_SIZE];
    }
    if |s| >= TAG_SIZE + HEADER_SIZE {
      StreamFields(p, s, later);
    }
    if |s| >= |f| {
      assert s[..|f|] == f;
      assert s[..|Encode(p)|] == f[..|Encode(p)|];
      assert s[|Encode(p)|..|f|] == f[|Encode(p)|..];
    }
  }

  lemma StreamFields(p: Packet, s: seq<Byte>, later: seq<Byte>)
    requires |p.data| <= MAX_DATA_SIZE && s <= Frame(p) + later && |s| >= TAG_SIZE + HEADER_SIZE
    ensures s[5] == p.version && TotalSize(s) == |Encode(p)|
  {
    hide Encode;
    var e := Encode(p);
    EncodeFields(p);
    U32RoundTrip(|p.data|);
    assert Frame(p) + later == e + (TAG + later);
    assert s[14..18] == (e + (TAG + later))[14..18] == e[14..18];
  }

  // ---------------------------------------------------------------------------- buffers

  function Max(a: nat, b: nat): nat {
    if a < b then b else a
  }

  /** size, data_size and buffer of TSuplaProtoInBuffer and TSuplaProtoOutBuffer; the size is the
      length of the array. */
  class ByteBuffer {
    var buffer: array<Byte>
    var dataSize: nat

    ghost predicate Valid()
      reads this, buffer
    {
      dataSize <= buffer.Length && CapacityOk()
    }

    /** Nothing has been allocated yet, or the capacity is within its limits. */
    predicate CapacityOk()
      reads this
    {
      buffer.Length == 0 || BUFFER_MIN_SIZE <= buffer.Length < BUFFER_MAX_SIZE
    }

    ghost function Contents(): seq<Byte>
      requires Valid()
      reads this, buffer
    {
      buffer[..dataSize]
    }

    constructor ()
      ensures Valid() && Contents() == [] && buffer.Length == 0 && fresh(buffer)
    {
      buffer := new Byte[0];
      dataSize := 0;
    }

    /** realloc: a new array with the octets of the old one, as far as they fit. */
    method Resize(size: nat)
      requires dataSize <= size && dataSize <= buffer.Length
      modifies this`buffer
      ensures buffer.Length == size && buffer[..dataSize] == old(buffer[..dataSize]) && fresh(buffer)
    {
      var a, b := buffer, new Byte[size];
      var i := 0;
      while i < dataSize
        invariant 0 <= i <= dataSize && buffer == a && b[..i] == a[..i]
      {
        b[i] := a[i];
        i := i + 1;
      }
      buffer := b;
    }

    /** sproto_buffer_append: all of the data or, if the buffer would reach its limit, none. */
    method Append(data: seq<Byte>) returns (r: Result)
      requires Valid() && |data| <= 0x1_0000_0000 - BUFFER_MAX_SIZE
      modifies this, buffer
      ensures Valid() && (buffer == old(buffer) || fresh(buffer))
      ensures r == if old(dataSize) + |data| < 2048 then True else BufferOverflow
      ensures Contents() == if r.True? then old(Contents()) + data else old(Contents())
      ensures r.True? ==> buffer.Length == Max(Max(old(buffer.Length), 512), old(dataSize) + |data|)
      ensures !r.True? ==> buffer.Length == old(buffer.Length)
    {
      var size := buffer.Length;
      if size < BUFFER_MIN_SIZE {
        size := BUFFER_MIN_SIZE;
      }
      if |data| > size - dataSize {
        size := size + (|data| - (size - dataSize));
      }
      if size >= BUFFER_MAX_SIZE {
        return BufferOverflow;
      }
      if size != buffer.Length {
        Resize(size);
      }
      ghost var before := buffer[..dataSize];
      CopyInto(buffer, dataSize, data);
      assert buffer[..dataSize] == before;
      assert buffer[..dataSize + |data|] == before + data;
      dataSize := dataSize + |data|;
      return True;
    }

    /** The shift loop and the shrinking of sproto_pop_out_data and sproto_shrink_in_buffer. */
    method Drop(n: nat)
      requires Valid() && n <= dataSize
      modifies this, buffer
      ensures Valid() && Contents() == old(Contents())[n..] && (buffer == old(buffer) || fresh(buffer))
      ensures buffer.Length == if dataSize < old(buffer.Length) then Max(dataSize,
                                                                         BUFFER_MIN_SIZE) else old(buffer.Length)
    {
      ghost var s := buffer[..dataSize];
      ShiftDown(n);
      dataSize := dataSize - n;
      assert buffer[..dataSize] == s[n..];
      if dataSize < buffer.Length {
        var size := if dataSize < BUFFER_MIN_SIZE then BUFFER_MIN_SIZE else dataSize;
        if size != buffer.Length {
          Resize(size);
        }
      }
    }

    method ShiftDown(n: nat)
      requires n <= dataSize <= buffer.Length
      modifies buffer
      ensures buffer[..dataSize - n] == old(buffer[n..dataSize])
    {
      ghost var s := buffer[..];
      var a, b := n, 0;
      while a < dataSize
        invariant n <= a <= dataSize && b == a - n && buffer[..b] == s[n..a]
        invariant forall j :: b <= j < buffer.Length ==> buffer[j] == s[j]
      {
        buffer[b] := buffer[a];
        b := b + 1;
        a := a + 1;
      }
    }
  }

  lemma HeaderAlike(b: seq<Byte>, s: seq<Byte>)
    requires s <= b && |s| >= TAG_SIZE + HEADER_SIZE
    ensures b[..TAG_SIZE] == s[..TAG_SIZE] && b[5] == s[5] && TotalSize(b[..HEADER_SIZE]) == TotalSize(s)
  {
    assert b[..HEADER_SIZE][14..18] == s[14..18];
  }

  // ---------------------------------------------------------------------- TSuplaProtoData

  class Proto {
    var nextRrId: U32
    var version: Byte
    var beginTag: bool
    const input: ByteBuffer
    const output: ByteBuffer

    ghost predicate Valid()
      reads this, input, output, input.buffer, output.buffer
    {
      && input != output && input.buffer != output.buffer && input.Valid() && output.Valid()
      && (beginTag ==> input.dataSize >= TAG_SIZE && input.buffer[..TAG_SIZE] == TAG)
    }

    /** sproto_init */
    constructor ()
      ensures Valid() && input.Contents() == [] && output.Contents() == [] && !beginTag
      ensures fresh(input) && fresh(output) && fresh(input.buffer) && fresh(output.buffer)
      ensures nextRrId == 0 && version == PROTO_VERSION
    {
      nextRrId := 0;
      version := PROTO_VERSION;
      beginTag := false;
      input := new ByteBuffer();
      output := new ByteBuffer();
    }

    /** sproto_in_buffer_append */
    method InAppend(data: seq<Byte>) returns (r: Result)
      requires Valid() && |data| <= 0x1_0000_0000 - BUFFER_MAX_SIZE
      modifies input, input.buffer
      ensures Valid() && (input.buffer == old(input.buffer) || fresh(input.buffer))
      ensures r == if old(input.dataSize) + |data| < BUFFER_MAX_SIZE then True else BufferOverflow
      ensures input.Contents() == if r.True? then old(input.Contents()) + data else old(input.Contents())
    {
      ghost var s := input.Contents();
      r := input.Append(data);
      if beginTag {
        assert input.Contents()[..TAG_SIZE] == s[..TAG_SIZE];
      }
    }

    /** sproto_shrink_in_buffer */
    method ShrinkIn(size: nat)
      requires Valid()
      modifies this`beginTag, input, input.buffer
      ensures Valid() && !beginTag && (input.buffer == old(input.buffer) || fresh(input.buffer))
      ensures var n := if size > old(input.dataSize) then old(input.dataSize) else size;
        input.Contents() == old(input.Contents())[n..]
    {
      beginTag := false;
      input.Drop(if size > input.dataSize then input.dataSize else size);
    }

    /** sproto_pop_in_sdp */
    method PopIn(sdp: array<Byte>) returns (r: Result)
      requires Valid() && sdp.Length == SDP_SIZE && sdp != input.buffer && sdp != output.buffer
      modifies this`beginTag, input, input.buffer, sdp
      ensures Valid() && (input.buffer == old(input.buffer) || fresh(input.buffer))
      ensures var s := old(input.Contents());
        match Examine(s)
        case Wait => r == False && input.Contents() == s && sdp[..] == old(sdp[..])
        case BadData => r == DataError && input.Contents() == [] && sdp[..] == old(sdp[..])
        case BadVersion => r == VersionError && input.Contents() == [] && sdp[..] == old(sdp[..])[5 := s[5]]
        case Ready(n) =>
          r == True && input.Contents() == s[n + TAG_SIZE..] && sdp[..n] == s[..n] && sdp[n..] == old(sdp[n..])
    {
      ghost var s := input.Contents();
      var b := input.buffer;
      if !beginTag && input.dataSize >= TAG_SIZE {
        assert b[..TAG_SIZE] == s[..TAG_SIZE];
        if b[..TAG_SIZE] == TAG {
          beginTag := true;
        } else {
          ShrinkIn(input.dataSize);
          return DataError;
        }
      }
      if beginTag {
        assert b[..TAG_SIZE] == s[..TAG_SIZE];
        if input.dataSize - TAG_SIZE >= HEADER_SIZE {
          r := PopFrame(sdp);
          return r;
        }
      }
      return False;
    }

    /** The part of sproto_pop_in_sdp behind the opening tag and the header. */
    method PopFrame(sdp: array<Byte>) returns (r: Result)
      requires Valid() && sdp.Length == SDP_SIZE && sdp != input.buffer && sdp != output.buffer
      requires beginTag && input.dataSize >= TAG_SIZE + HEADER_SIZE
      modifies this`beginTag, input, input.buffer, sdp
      ensures Valid() && (input.buffer == old(input.buffer) || fresh(input.buffer))
      ensures var s := old(input.Contents());
        match Examine(s)
        case Wait => r == False && input.Contents() == s && sdp[..] == old(sdp[..])
        case BadData => r == DataError && input.Contents() == [] && sdp[..] == old(sdp[..])
        case BadVersion => r == VersionError && input.Contents() == [] && sdp[..] == old(sdp[..])[5 := s[5]]
        case Ready(n) =>
          r == True && input.Contents() == s[n + TAG_SIZE..] && sdp[..n] == s[..n] && sdp[n..] == old(sdp[n..])
    {
      hide TotalSize;
      ghost var s := input.Contents();
      var b := input.buffer;
      HeaderAlike(b[..], s);
      if b[5] > PROTO_VERSION || b[5] < PROTO_VERSION_MIN {
        sdp[5] := b[5];
        ShrinkIn(input.dataSize);
        return VersionError;
      }
      var n := TotalSize(b[..HEADER_SIZE]);
      if n > SDP_SIZE {
        ShrinkIn(input.dataSize);
        return DataError;
      }
      if n + TAG_SIZE > input.dataSize {
        return False;
      }
      assert b[n..n + TAG_SIZE] == s[n..n + TAG_SIZE];
      if n >= b.Length || b[n..n + TAG_SIZE] != TAG {
        ShrinkIn(input.dataSize);
        return DataError;
      }
      CopyOut(b, sdp, n);
      assert b[..n] == s[..n];
      ShrinkIn(n + TAG_SIZE);
      return True;
    }

    /** sproto_out_buffer_append: the packet and its closing tag.  If only the packet fits, it stays
        behind without its tag. */
    method OutAppend(sdp: array<Byte>) returns (r: Result)
      requires Valid() && sdp.Length == SDP_SIZE && sdp != output.buffer
      modifies output, output.buffer
      ensures Valid() && (output.buffer == old(output.buffer) || fresh(output.buffer))
      ensures var s, n := old(output.Contents()), TotalSize(sdp[..]);
        if n > SDP_SIZE then r == DataTooLarge && output.Contents() == s
        else if |s| + n >= BUFFER_MAX_SIZE then r == False && output.Contents() == s
        else if |s| + n + TAG_SIZE >= BUFFER_MAX_SIZE then r == BufferOverflow && output.Contents() == s + sdp[..n]
        else r == True && output.Contents() == s + sdp[..n] + TAG
    {
      hide U32Of;
      var n := TotalSize(sdp[..]);
      if n > SDP_SIZE {
        return DataTooLarge;
      }
      r := output.Append(sdp[..n]);
      if r.True? {
        r := output.Append(TAG);
        return r;
      }
      return False;
    }

    /** sproto_pop_out_data: at most n octets, from the front */
    method PopOut(n: nat) returns (data: seq<Byte>)
      requires Valid()
      modifies output, output.buffer
      ensures Valid() && (output.buffer == old(output.buffer) || fresh(output.buffer))
      ensures |data| == (if n < old(output.dataSize) then n else old(output.dataSize))
      ensures old(output.Contents()) == data + output.Contents()
    {
      if output.dataSize == 0 || n == 0 {
        return [];
      }
      var k := if output.dataSize < n then output.dataSize else n;
      data := output.buffer[..k];
      output.Drop(k);
    }

    /** sproto_sdp_init: a new identifier, never 0 */
    method InitSdp(sdp: array<Byte>)
      requires Valid() && sdp.Length == SDP_SIZE
      modifies this`nextRrId, sdp
      ensures nextRrId == (if old(nextRrId) == 0xFFFF_FFFF then 1 else old(nextRrId) + 1)
      ensures sdp[..HEADER_SIZE] == Encode(Packet(version, nextRrId, 0, []))
      ensures forall i :: HEADER_SIZE <= i < SDP_SIZE ==> sdp[i] == 0
    {
      forall i | 0 <= i < SDP_SIZE {
        sdp[i] := 0;
      }
      nextRrId := (nextRrId + 1) % 0x1_0000_0000;
      if nextRrId == 0 {
        nextRrId := nextRrId + 1;
      }
      CopyInto(sdp, 0, TAG);
      CopyInto(sdp, 6, U32Bytes(nextRrId));
      sdp[5] := version;
      HeaderIs(sdp[..HEADER_SIZE], version, nextRrId);
    }
  }

  lemma HeaderIs(s: seq<Byte>, version: Byte, rrId: U32)
    requires |s| == HEADER_SIZE && s[..5] == TAG && s[5] == version && s[6..10] == U32Bytes(rrId)
    requires forall i :: 10 <= i < HEADER_SIZE ==> s[i] == 0
    ensures s == Encode(Packet(version, rrId, 0, []))
  {
    hide U32Bytes;
    assert U32Bytes(0) == [0, 0, 0, 0] by { ZeroBytes(); }
    var e := Encode(Packet(version, rrId, 0, []));
    EncodeFields(Packet(version, rrId, 0, []));
    assert s == s[..5] + [s[5]] + s[6..10] + s[10..14] + s[14..18];
    assert s[10..14] == [0, 0, 0, 0] && s[14..18] == [0, 0, 0, 0];
  }

  lemma ZeroBytes()
    ensures U32Bytes(0) == [0, 0, 0, 0]
  {
  }

  /** sproto_set_data */
  method SetData(sdp: array<Byte>, data: seq<Byte>, callId: U32) returns (r: Result)
    requires sdp.Length == SDP_SIZE
    modifies sdp
    ensures r == if |data| > MAX_DATA_SIZE then False else True
    ensures r.False? ==> sdp[..] == old(sdp[..])
    ensures r.True? ==>
      && sdp[..10] == old(sdp[..10]) && sdp[10..14] == U32Bytes(callId) && sdp[14..18] == U32Bytes(|data|)
      && sdp[18..18 + |data|] == data && sdp[18 + |data|..] == old(sdp[18 + |data|..])
  {
    hide U32Bytes;
    if |data| > MAX_DATA_SIZE {
      return False;
    }
    ghost var s := sdp[..];
    CopyInto(sdp, HEADER_SIZE, data);
    CopyInto(sdp, 14, U32Bytes(|data|));
    CopyInto(sdp, 10, U32Bytes(callId));
    assert sdp[..10] == s[..10];
    assert sdp[18 + |data|..] == s[18 + |data|..];
    return True;
  }
}
