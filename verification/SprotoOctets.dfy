/** The frames of the SUPLA protocol octet by octet, and what the reader makes of any octets
    (supla-common/proto.h and proto.c). */
module SprotoOctets {
  import opened Limbs
  import opened MpnStr
  import opened Sproto
  import opened SrpcPack

  /** The five octets at the offset are the letters of the tag. */
  predicate TagAt(s: seq<Byte>, i: nat) {
    i + 5 <= |s| && forall j :: 0 <= j < 5 ==> s[i + j] as int == "SUPLA"[j] as int
  }

  lemma TagIs(s: seq<Byte>, i: nat)
    requires i + 5 <= |s|
    ensures TagAt(s, i) <==> s[i..i + 5] == TAG
  {
    var t := s[i..i + 5];
    assert t[0] == s[i] && t[1] == s[i + 1] && t[2] == s[i + 2] && t[3] == s[i + 3] && t[4] == s[i + 4];
    if TagAt(s, i) {
      assert s[i + 0] as int == "SUPLA"[0] as int;
      assert s[i + 1] as int == "SUPLA"[1] as int && s[i + 2] as int == "SUPLA"[2] as int;
      assert s[i + 3] as int == "SUPLA"[3] as int && s[i + 4] as int == "SUPLA"[4] as int;
      assert t == TAG;
    }
  }

  /** Where the fields of a packet stand: tag, version, request, call and size, lowest octet first, then
      the data and the closing tag. */
  lemma FrameOctets(p: Packet)
    requires |p.data| <= MAX_DATA_SIZE
    ensures var s, n := Frame(p), |p.data|;
      && |s| == 23 + n && TagAt(s, 0) && s[5] == p.version
      && LE(s[6..10], 256) == p.rrId && LE(s[10..14], 256) == p.callId && LE(s[14..18], 256) == n
      && s[18..18 + n] == p.data && TagAt(s, 18 + n)
  {
    hide Encode, U32Bytes, U32Of, LE;
    var s, n, e := Frame(p), |p.data|, Encode(p);
    EncodeFields(p);
    FieldsOf(e, TAG);
    U32RoundTrip(p.rrId);
    U32RoundTrip(p.callId);
    U32RoundTrip(n);
    U32IsLE(s[6..10]);
    U32IsLE(s[10..14]);
    U32IsLE(s[14..18]);
    assert s[0..0 + 5] == s[..5];
    TagIs(s, 0);
    TagIs(s, 18 + n);
  }

  /** The length of the packet without its closing tag, in 32 bits */
  function PacketSize(s: seq<Byte>): nat
    requires |s| >= 18
  {
    (18 + LE(s[14..18], 256)) % 0x1_0000_0000
  }

  /** A packet is handed over exactly if it stands between two tags, with a version from 1 to 23 and at
      most 1536 octets of data. */
  lemma HandedOverIff(s: seq<Byte>, n: nat)
    ensures Examine(s) == Ready(n) <==>
      && |s| >= 23 && TagAt(s, 0) && 1 <= s[5] <= 23 && n == PacketSize(s) <= 1554 && TagAt(s, n)
  {
    hide U32Of, LE;
    ExamineParts(s);
  }

  /** A version is refused exactly if it stands in a header behind a tag and is not from 1 to 23. */
  lemma VersionRefusedIff(s: seq<Byte>)
    ensures Examine(s).BadVersion? <==> |s| >= 23 && TagAt(s, 0) && !(1 <= s[5] <= 23)
  {
    hide U32Of, LE;
    ExamineParts(s);
  }

  /** The octets are refused exactly if they do not start with a tag, the packet is too long, or its end
      is there without the closing tag. */
  lemma DataRefusedIff(s: seq<Byte>)
    ensures Examine(s).BadData? <==>
      || (|s| >= 5 && !TagAt(s, 0))
      || (|s| >= 23 && TagAt(s, 0) && 1 <= s[5] <= 23 &&
          (PacketSize(s) > 1554 || (PacketSize(s) + 5 <= |s| && !TagAt(s, PacketSize(s)))))
  {
    hide U32Of, LE;
    ExamineParts(s);
  }

  lemma ExamineParts(s: seq<Byte>)
    ensures |s| >= 18 ==> TotalSize(s) == PacketSize(s)
    ensures |s| >= 5 ==> (TagAt(s, 0) <==> s[..TAG_SIZE] == TAG)
    ensures |s| >= 18 && PacketSize(s) + 5 <= |s| ==>
      (TagAt(s, PacketSize(s)) <==> s[PacketSize(s)..PacketSize(s) + TAG_SIZE] == TAG)
  {
    hide U32Of, LE;
    if |s| >= 5 {
      assert s[0..0 + 5] == s[..5];
      TagIs(s, 0);
    }
    if |s| >= 18 {
      U32IsLE(s[14..18]);
      if PacketSize(s) + 5 <= |s| {
        TagIs(s, PacketSize(s));
      }
    }
  }
}
