/** RSASSA-PKCS1-v1_5 verification with SHA-256 (pkcs1.c, pkcs1-rsa-sha256.c, rsa-verify.c,
    rsa-sha256-verify.c, rsa.c) against sections 8.2.2 and 9.2 of RFC 3447. */
module Rsa {
  import opened Limbs
  import opened Memory
  import opened MpzBase
  import opened MpnStr
  import opened Octets
  import opened Gcd
  import MpzGcd
  import MpzPowm
  import MpzRoot

  const SHA256_DIGEST_SIZE := 32
  const RSA_MINIMUM_N_OCTETS := 12

  /** The octets in front of the digest. */
  const SHA256_PREFIX: seq<Byte> :=
    [0x30, 49, 0x30, 13, 0x06, 9, 0x60, 0x86, 0x48, 0x01, 0x65, 0x03, 0x04, 0x02, 0x01, 0x05, 0, 0x04, 32]

  // ------------------------------------------------------- DER (ITU-T X.690, section 8 and 10)

  /** A nonnegative number in base 256, without leading zeros */
  function BigEndian(n: nat): (s: seq<Byte>) {
    if n == 0 then [] else BigEndian(n / 256) + [n % 256]
  }

  /** The length octets: one for lengths below 128, else their number and the length in base 256;
      nothing is longer than 126 octets can say. */
  function DerLength(n: nat): seq<Byte> {
    var s := BigEndian(n);
    if n < 128 then [n] else if |s| <= 126 then [128 + |s|] + s else []
  }

  function Der(tag: Byte, contents: seq<Byte>): seq<Byte> {
    [tag] + DerLength(|contents|) + contents
  }

  /** An arc of an object identifier in base 128, the top bit set in all octets but the last */
  function Arc(n: nat): seq<Byte> {
    if n < 128 then [n] else ArcFront(n / 128) + [n % 128]
  }

  function ArcFront(n: nat): seq<Byte> {
    if n < 128 then [n + 128] else ArcFront(n / 128) + [n % 128 + 128]
  }

  function Arcs(ns: seq<nat>): seq<Byte> {
    if |ns| == 0 then [] else Arc(ns[0]) + Arcs(ns[1..])
  }

  /** An object identifier; the first two arcs share a number. */
  function ObjectIdentifier(ns: seq<nat>): seq<Byte>
    requires |ns| >= 2
  {
    Der(0x06, Arc(40 * ns[0] + ns[1]) + Arcs(ns[2..]))
  }

  function Null(): seq<Byte> {
    Der(0x05, [])
  }

  function OctetString(s: seq<Byte>): seq<Byte> {
    Der(0x04, s)
  }

  function Sequence(s: seq<Byte>): seq<Byte> {
    Der(0x30, s)
  }

  /** id-sha256: joint-iso-itu-t(2) country(16) us(840) organization(1) gov(101) csor(3)
      nistAlgorithm(4) hashAlgs(2) sha256(1) (appendix B.1 of RFC 3447) */
  const ID_SHA256: seq<nat> := [2, 16, 840, 1, 101, 3, 4, 2, 1]

  /** DigestInfo: the identifier of the hash function with its empty parameters, and the digest
      (section 9.2 of RFC 3447). */
  function DigestInfo(digest: seq<Byte>): seq<Byte> {
    Sequence(Sequence(ObjectIdentifier(ID_SHA256) + Null()) + OctetString(digest))
  }

  lemma ArcThen(n: nat, arc: seq<Byte>, ns: seq<nat>, rest: seq<Byte>)
    requires Arc(n) == arc && Arcs(ns) == rest
    ensures Arcs([n] + ns) == arc + rest
  {
    hide Arc;
    assert ([n] + ns)[1..] == ns;
  }

  lemma ArcsTail()
    ensures Arcs([4, 2, 1]) == [4, 2, 1]
  {
    ArcThen(1, [1], [], []);
    ArcThen(2, [2], [1], [1]);
    ArcThen(4, [4], [2, 1], [2, 1]);
    assert [2] + [1] == [2, 1] && [4] + [2, 1] == [4, 2, 1];
  }

  lemma ArcsMiddle()
    ensures Arcs([1, 101, 3, 4, 2, 1]) == [1, 101, 3, 4, 2, 1]
  {
    ArcsTail();
    ArcThen(3, [3], [4, 2, 1], [4, 2, 1]);
    ArcThen(101, [101], [3, 4, 2, 1], [3, 4, 2, 1]);
    ArcThen(1, [1], [101, 3, 4, 2, 1], [101, 3, 4, 2, 1]);
    assert [3] + [4, 2, 1] == [3, 4, 2, 1] && [101] + [3, 4, 2, 1] == [101, 3, 4, 2, 1];
    assert [1] + [101, 3, 4, 2, 1] == [1, 101, 3, 4, 2, 1];
  }

  lemma ArcsOfId()
    ensures Arc(40 * ID_SHA256[0] + ID_SHA256[1]) == [0x60]
    ensures Arcs(ID_SHA256[2..]) == [0x86, 0x48, 0x01, 0x65, 0x03, 0x04, 0x02, 0x01]
  {
    hide Arcs;
    ArcsMiddle();
    assert ArcFront(6) == [0x86] && Arc(840) == [0x86, 0x48];
    ArcThen(840, [0x86, 0x48], [1, 101, 3, 4, 2, 1], [1, 101, 3, 4, 2, 1]);
    assert ID_SHA256[2..] == [840] + [1, 101, 3, 4, 2, 1];
  }

  lemma ShortDer(tag: Byte, s: seq<Byte>)
    requires |s| < 128
    ensures Der(tag, s) == [tag, |s|] + s
  {
    hide BigEndian;
    assert [tag] + [|s|] + s == [tag, |s|] + s;
  }

  /** The identifier of the algorithm */
  lemma AlgorithmIs()
    ensures Sequence(ObjectIdentifier(ID_SHA256) + Null())
         == [0x30, 13, 0x06, 9, 0x60, 0x86, 0x48, 0x01, 0x65, 0x03, 0x04, 0x02, 0x01, 0x05, 0]
  {
    hide Arcs, Arc, Der;
    ArcsOfId();
    var arcs := [0x60, 0x86, 0x48, 0x01, 0x65, 0x03, 0x04, 0x02, 0x01];
    assert Arc(40 * ID_SHA256[0] + ID_SHA256[1]) + Arcs(ID_SHA256[2..]) == arcs;
    ShortDer(0x06, arcs);
    ShortDer(0x05, []);
    ShortDer(0x30, [0x06, 9] + arcs + [0x05, 0]);
    assert [0x06, 9] + arcs + ([0x05, 0] + []) == [0x06, 9] + arcs + [0x05, 0];
  }

  /** The octets in front of the digest make it a DigestInfo. */
  lemma PrefixIs(digest: seq<Byte>)
    requires |digest| == SHA256_DIGEST_SIZE
    ensures SHA256_PREFIX + digest == DigestInfo(digest)
  {
    hide ObjectIdentifier, Der;
    AlgorithmIs();
    var algorithm := Sequence(ObjectIdentifier(ID_SHA256) + Null());
    ShortDer(0x04, digest);
    ShortDer(0x30, algorithm + ([0x04, 32] + digest));
    assert SHA256_PREFIX == [0x30, 49] + algorithm + [0x04, 32];
    assert SHA256_PREFIX + digest == [0x30, 49] + (algorithm + ([0x04, 32] + digest));
  }

  // ---------------------------------------------------------- the encoding of the standard

  function Repeat(x: Byte, n: nat): (s: seq<Byte>)
    ensures |s| == n && forall i :: 0 <= i < n ==> s[i] == x
  {
    seq(n, _ => x)
  }

  /** EMSA-PKCS1-v1_5 for a DigestInfo T: 00 01 PS 00 T, where PS is octets FF; nothing if fewer than
      eight of them fit. */
  datatype Encoded = EncodedMessage(octets: seq<Byte>) | TooShort

  function EmsaPkcs1(t: seq<Byte>, emLen: nat): (r: Encoded)
    ensures r.EncodedMessage? ==> |r.octets| == emLen
  {
    if emLen < |t| + 11 then TooShort
    else EncodedMessage([0, 1] + Repeat(0xff, emLen - |t| - 3) + [0] + t)
  }

  /** I2OSP: the octet string of the given length, most significant octet first. */
  function I2OSP(x: nat, len: nat): (s: seq<Byte>)
    ensures |s| == len
  {
    if len == 0 then [] else I2OSP(x / 256, len - 1) + [x % 256]
  }

  lemma {:induction false} I2OSPValue(x: nat, len: nat)
    requires x < PowNat(BYTE_BASE, len)
    ensures Unsigned(I2OSP(x, len)) == x
  {
    hide PowNat;
    PowNatNext(BYTE_BASE, 0);
    if len > 0 {
      PowNatNext(BYTE_BASE, len - 1);
      I2OSPValue(x / 256, len - 1);
      BESnoc(I2OSP(x / 256, len - 1), x % 256, BYTE_BASE);
    } else {
      EmptyBE(BYTE_BASE);
    }
  }

  // ----------------------------------------------------------------------------- pkcs1.c

  /** _pkcs1_signature_prefix: everything but the digest; the offset of the digest is returned,
      or -1 for the null pointer. */
  method SignaturePrefix(keySize: nat, buffer: array<Byte>, id: seq<Byte>, digestSize: nat) returns (p: int)
    requires keySize <= buffer.Length
    modifies buffer
    ensures p == -1 <==> keySize < 11 + |id| + digestSize
    ensures p != -1 ==> p == keySize - digestSize && p >= |id| + 11
    ensures p != -1 ==> buffer[..p] == [0, 1] + Repeat(0xff, p - |id| - 3) + [0] + id
  {
    if keySize < 11 + |id| + digestSize {
      return -1;
    }
    var j := keySize - digestSize - |id|;
    CopyInto(buffer, j, id);
    assert buffer[j..j + |id|] == id;
    buffer[0] := 0;
    buffer[1] := 1;
    buffer[j - 1] := 0;
    assert buffer[j..j + |id|] == id;
    Memset(buffer, 2, 0xff, j - 3);
    assert buffer[j..j + |id|] == id;
    p := j + |id|;
    PrefixLayout(buffer[..p], j, id);
  }

  lemma PrefixLayout(s: seq<Byte>, j: nat, id: seq<Byte>)
    requires j >= 11 && |s| == j + |id| && s[j..] == id && s[0] == 0 && s[1] == 1 && s[j - 1] == 0
    requires forall i :: 2 <= i < j - 1 ==> s[i] == 0xff
    ensures s == [0, 1] + Repeat(0xff, j - 3) + [0] + id
  {
    var r := [0, 1] + Repeat(0xff, j - 3) + [0];
    assert s[..j] == r;
    assert s == s[..j] + s[j..];
  }

  method Memset(buffer: array<Byte>, at: nat, c: Byte, n: nat)
    requires at + n <= buffer.Length
    modifies buffer
    ensures forall i :: at <= i < at + n ==> buffer[i] == c
    ensures forall i :: 0 <= i < buffer.Length && !(at <= i < at + n) ==> buffer[i] == old(buffer[i])
  {
    var i := 0;
    while i < n
      invariant 0 <= i <= n
      invariant forall k :: at <= k < at + i ==> buffer[k] == c
      invariant forall k :: 0 <= k < buffer.Length && !(at <= k < at + i) ==> buffer[k] == old(buffer[k])
    {
      buffer[at + i] := c;
      i := i + 1;
    }
  }

  // ------------------------------------------------------------------ pkcs1-rsa-sha256.c

  /** The encoded message that the standard prescribes for a SHA-256 digest. */
  function EM(digest: seq<Byte>, keySize: nat): (r: Encoded)
    ensures r.EncodedMessage? ==> |r.octets| == keySize
  {
    EmsaPkcs1(DigestInfo(digest), keySize)
  }

  /** pkcs1_rsa_sha256_encode_digest */
  method EncodeDigest(m: Mpz, keySize: nat, digest: seq<Byte>) returns (ok: bool)
    requires m.Valid() && |digest| == SHA256_DIGEST_SIZE
    modifies m, m.d
    ensures m.Valid() && (m.d == old(m.d) || fresh(m.d))
    ensures ok == EM(digest, keySize).EncodedMessage?
    ensures ok ==> m.Value() == Unsigned(EM(digest, keySize).octets)
  {
    hide Val, Mpz.Value, Mpz.Mag, BE, DigestInfo;
    PrefixIs(digest);
    var em := new Byte[keySize];
    var p := SignaturePrefix(keySize, em, SHA256_PREFIX, SHA256_DIGEST_SIZE);
    if p == -1 {
      return false;
    }
    ghost var head := em[..p];
    CopyInto(em, p, digest);
    assert em[..p] == head;
    assert em[..keySize] == head + digest;
    EncodedLayout(digest, keySize, head);
    FromOctets(m, keySize, em);
    ok := true;
  }

  lemma EncodedLayout(digest: seq<Byte>, keySize: nat, head: seq<Byte>)
    requires |digest| == SHA256_DIGEST_SIZE && keySize >= 11 + |SHA256_PREFIX| + |digest|
    requires head == [0, 1] + Repeat(0xff, keySize - |digest| - |SHA256_PREFIX| - 3) + [0] + SHA256_PREFIX
    ensures EM(digest, keySize).EncodedMessage? && EM(digest, keySize).octets == head + digest
  {
    hide DigestInfo;
    PrefixIs(digest);
    var ps := [0, 1] + Repeat(0xff, keySize - |digest| - |SHA256_PREFIX| - 3) + [0];
    assert ps + (SHA256_PREFIX + digest) == ps + SHA256_PREFIX + digest;
  }

  // ------------------------------------------------------------------------ rsa-verify.c

  class RsaPublicKey {
    var size: nat
    var n: Mpz
    var e: Mpz

    ghost predicate Valid()
      reads this, n, e, n.d, e.d
    {
      n.Valid() && e.Valid() && n != e && n.d != e.d
    }

    constructor (modulus: Mpz, exponent: Mpz)
      requires modulus.Valid() && exponent.Valid() && modulus != exponent && modulus.d != exponent.d
      ensures Valid() && n == modulus && e == exponent && size == 0
    {
      size := 0;
      n := modulus;
      e := exponent;
    }

    /** rsa_public_key_prepare, with _rsa_check_size: the octet length of an odd modulus of at
        least twelve octets, and 0 for any other modulus. */
    method Prepare() returns (ok: bool)
      requires Valid()
      modifies this`size
      ensures Valid() && ok == (size > 0)
      ensures size > 0 ==> OctetLength(Abs(n.Value()), size) && n.Value() % 2 == 1 && size >= RSA_MINIMUM_N_OCTETS
      ensures n.Value() % 2 == 1 && Abs(n.Value()) >= PowNat(BYTE_BASE, RSA_MINIMUM_N_OCTETS - 1) ==> ok
    {
      hide Val, Mpz.Value, Mpz.Mag, PowNat, Pow2;
      MpzGcd.OddPMeansOdd(n);
      size := 0;
      if MpzGcd.OddP(n) {
        var bits := MpzRoot.SizeInBase2(n);
        var k := (bits + 7) / 8;
        LengthOfBits(Abs(n.Value()), bits, k);
        if k >= RSA_MINIMUM_N_OCTETS {
          size := k;
        }
      }
      ok := size > 0;
    }
  }

  /** x has exactly k octets. */
  predicate OctetLength(x: nat, k: nat) {
    k > 0 && PowNat(BYTE_BASE, k - 1) <= x < PowNat(BYTE_BASE, k)
  }

  lemma LengthOfBits(x: nat, bits: nat, k: nat)
    requires BitLength(x, bits) && x > 0 && k == (bits + 7) / 8
    ensures OctetLength(x, k)
    ensures x >= PowNat(BYTE_BASE, RSA_MINIMUM_N_OCTETS - 1) ==> k >= RSA_MINIMUM_N_OCTETS
  {
    hide Pow2, PowNat;
    BaseIsPow2();
    PowNatOfPow2(8, k);
    PowNatOfPow2(8, k - 1);
    Pow2Mono(8 * (k - 1), bits - 1);
    Pow2Mono(bits, 8 * k);
    if k < RSA_MINIMUM_N_OCTETS { PowNatMono(BYTE_BASE, k, RSA_MINIMUM_N_OCTETS - 1); }
  }

  /** With a negative exponent the inverse c of the base takes its place. */
  ghost predicate InversePowerIs(m: int, s: int, e: nat, n: int, res: bool) {
    n > 0 && exists c: int :: MpzGcd.InverseMod(c, s, n) && res == (Pow(c, e) % n == m)
  }

  /** _rsa_verify: s is in range and s^e mod n is m.  `stopped` marks the runs in which
      mpz_powm stops the program: a negative exponent, and s has no inverse. */
  method Verify(key: RsaPublicKey, m: Mpz, s: Mpz) returns (res: bool, stopped: bool)
    requires key.Valid() && m.Valid() && s.Valid()
    requires Separate(key.n, s) && Separate(key.e, s) && Separate(key.n, m) && Separate(key.e, m) && Separate(m, s)
    ensures !(0 < s.Value() < key.n.Value()) ==> !res && !stopped
    ensures 0 < s.Value() < key.n.Value() && key.e.Value() > 0 ==>
      !stopped && res == (Pow(s.Value(), key.e.Value()) % key.n.Value() == m.Value())
    ensures 0 < s.Value() < key.n.Value() && key.e.Value() == 0 ==> !stopped && res == (m.Value() == 1)
    ensures 0 < s.Value() < key.n.Value() && key.e.Value() < 0 ==> stopped == !IsGcd(1, s.Value(), key.n.Value())
    ensures 0 < s.Value() < key.n.Value() && key.e.Value() < 0 && !stopped ==>
      InversePowerIs(m.Value(), s.Value(), Abs(key.e.Value()), key.n.Value(), res)
  {
    hide Val, Mpz.Value, Mpz.Mag, Pow, MpzPowm.PowerMod, InversePowerIs, IsGcd;
    stopped := false;
    MpzGcd.SizeSign(s);
    var c := Cmp(s, key.n);
    if Sgn(s) <= 0 || c >= 0 {
      return false, false;
    }
    var m1 := new Mpz.Init();
    ghost var inv;
    var ok;
    ok, inv := MpzPowm.Powm(m1, s, key.e, key.n);
    if !ok {
      return false, true;
    }
    PowerModCases(m1.Value(), s.Value(), inv, key.e.Value(), key.n.Value());
    var d := Cmp(m, m1);
    res := d == 0;
    if key.e.Value() < 0 {
      InverseCase(m1.Value(), s.Value(), inv, key.e.Value(), key.n.Value(), m.Value(), res);
    }
  }

  lemma InverseCase(r: int, b: int, c: int, e: int, n: int, m: int, res: bool)
    requires MpzPowm.PowerMod(r, b, c, e, n) && n > 0 && e < 0 && res == (r == m)
    ensures InversePowerIs(m, b, Abs(e), n, res)
  {
    assert MpzGcd.InverseMod(c, b, n);
  }

  lemma PowerModCases(r: int, b: int, c: int, e: int, m: int)
    requires MpzPowm.PowerMod(r, b, c, e, m) && m > 0
    ensures e == 0 ==> r == 1
    ensures e > 0 ==> r == Pow(b, e) % m
  {
  }

  // ----------------------------------------------------------------- rsa-sha256-verify.c

  /** Section 8.2.2 of RFC 3447 for an octet length k of the modulus: RSAVP1 gives a
      representative, its octets are the encoded message of the digest. */
  predicate Accepts(n: nat, e: nat, k: nat, digest: seq<Byte>, s: int) {
    && 0 < s < n
    && EM(digest, k).EncodedMessage?
    && I2OSP(Rem(Pow(s, e), n), k) == EM(digest, k).octets
  }

  /** Comparing representatives is comparing octet strings. */
  lemma SameOctets(x: nat, k: nat, em: seq<Byte>)
    requires x < PowNat(BYTE_BASE, k) && |em| == k
    ensures x == Unsigned(em) <==> I2OSP(x, k) == em
  {
    hide BE, PowNat;
    I2OSPValue(x, k);
    if x == Unsigned(em) {
      UnsignedInjective(I2OSP(x, k), em);
    }
  }

  /** An encoded message is more than 1, so the exponent 0 verifies nothing. */
  lemma NotOne(digest: seq<Byte>, k: nat)
    requires EM(digest, k).EncodedMessage?
    ensures Unsigned(EM(digest, k).octets) != 1
  {
    hide BE;
    var em := EM(digest, k).octets;
    if Unsigned(em) == 1 {
      PowNatMono(BYTE_BASE, 1, k);
      assert PowNat(BYTE_BASE, 1) == BYTE_BASE * PowNat(BYTE_BASE, 0);
      I2OSPValue(1, k);
      UnsignedInjective(em, I2OSP(1, k));
      I2OSPOne(k, 1);
    }
  }

  lemma {:induction false} I2OSPOne(k: nat, i: nat)
    requires i < k - 1
    ensures I2OSP(1, k)[i] == 0
  {
    I2OSPZero(k - 1, i);
  }

  /** rsa_sha256_verify_digest: with an exponent of at least one and the octet length of the
      modulus as key size, the signature is accepted exactly when the standard accepts it. */
  method VerifyDigest(key: RsaPublicKey, digest: seq<Byte>, s: Mpz) returns (res: bool, stopped: bool)
    requires key.Valid() && s.Valid() && Separate(key.n, s) && Separate(key.e, s)
    requires |digest| == SHA256_DIGEST_SIZE
    ensures !(0 < s.Value() < key.n.Value()) ==> !res && !stopped
    ensures stopped == (0 < s.Value() < key.n.Value() && key.e.Value() < 0 &&
                        EM(digest, key.size).EncodedMessage? && !IsGcd(1, s.Value(), key.n.Value()))
    ensures key.e.Value() == 0 || !EM(digest, key.size).EncodedMessage? ==> !res
    ensures key.e.Value() < 0 && 0 < s.Value() < key.n.Value() && EM(digest, key.size).EncodedMessage? && !stopped ==>
      InversePowerIs(Unsigned(EM(digest, key.size).octets), s.Value(), Abs(key.e.Value()), key.n.Value(), res)
    ensures key.e.Value() >= 1 && 0 < s.Value() < key.n.Value() ==>
      (!stopped && res == (EM(digest, key.size).EncodedMessage?
        && Pow(s.Value(), key.e.Value()) % key.n.Value() == Unsigned(EM(digest, key.size).octets)))
    ensures key.e.Value() >= 1 && key.n.Value() > 0 && OctetLength(key.n.Value(), key.size) ==>
      !stopped && res == Accepts(key.n.Value(), key.e.Value(), key.size, digest, s.Value())
  {
    hide Val, Mpz.Value, Mpz.Mag, BE, PowNat, Pow, EM, IsGcd, InversePowerIs;
    var m := new Mpz.Init();
    ghost var n, e, x := key.n.Value(), key.e.Value(), s.Value();
    var ok := EncodeDigest(m, key.size, digest);
    res, stopped := false, false;
    if ok {
      NotOne(digest, key.size);
      res, stopped := Verify(key, m, s);
      if 0 < x < n && e >= 1 && OctetLength(n, key.size) {
        SameOctets(Rem(Pow(x, e), n), key.size, EM(digest, key.size).octets);
      }
    }
  }

  /** The key sizes that can accept anything: those with room for eight padding octets, which stand
      behind the first two octets and in front of a zero. */
  lemma KeySizeBound(digest: seq<Byte>, k: nat)
    requires |digest| == SHA256_DIGEST_SIZE
    ensures EM(digest, k).EncodedMessage? <==> k >= 62
    ensures k >= 62 ==>
      var em, pad := EM(digest, k).octets, k - 54;
      pad >= 8 && em[..2] == [0, 1] && em[2..2 + pad] == Repeat(0xff, pad) && em[2 + pad] == 0
      && em[3 + pad..] == DigestInfo(digest)
  {
    hide DigestInfo;
    PrefixIs(digest);
  }

  /** The standard admits the signature representative 0 as well, but accepts it for no digest. */
  lemma ZeroNotAccepted(n: nat, e: nat, k: nat, digest: seq<Byte>)
    requires n > 1 && e >= 1 && |digest| == SHA256_DIGEST_SIZE && k >= 62
    ensures Pow(0, e) % n == 0
    ensures I2OSP(0, k) != EM(digest, k).octets
  {
    assert Pow(0, e) == 0 * Pow(0, e - 1);
    I2OSPZero(k, 1);
  }

  lemma {:induction false} I2OSPZero(k: nat, i: nat)
    requires i < k
    ensures I2OSP(0, k)[i] == 0
  {
    if i < k - 1 {
      I2OSPZero(k - 1, i);
    }
  }
}
