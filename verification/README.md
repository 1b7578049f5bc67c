# Verified model of the ESP8266 firmware's numerical and protocol core

This project models, in Dafny, four parts of the SUPLA firmware for the ESP8266 and proves what
they are for:

- **The bignum kernel** (`src/nettle/mini-gmp.c`) with limbs of 32 bits: schoolbook arithmetic on
  limb arrays, division by a precomputed inverse, signed numbers with their aliasing rules,
  two's-complement logic, gcd, extended gcd and inverses, modular exponentiation, integer roots and
  radix conversion. Modules `Limbs`, `Bits`, `Mpn`, `Invert`, `MpnDiv`, `MpzBase`, `MpzDiv`,
  `MpzShift`, `MpzBits`, `MpzLogic`, `Gcd`, `MpzGcd`, `MpzPowm`, `MpzRoot`, `MpnStr`.
- **RSA verification and SHA-256 compression** (`src/nettle`): octet strings, the PKCS #1
  encoding, `rsa_sha256_verify_digest` against RFC 3447, and the compression function against
  FIPS 180-4. Modules `Octets`, `Rsa`, `Sha256`.
- **The MQTT 3.1.1 client** (`src/user/mqtt.c`): packet identifiers from a shift register, packet
  encoding and decoding, the message queue that packs octets and descriptors into one buffer, and
  the client with its send and receive passes. Modules `Memory`, `MqttPid`, `MqttCodec`,
  `MqttQueue`, `MqttRoom`, `MqttOctets`, `MqttProtocol`, `MqttStream`, `MqttSteps`, `MqttEffects`,
  `MqttClient`, `MqttRuns`, `MqttWitness`.
- **The SUPLA framing and call layer** (`supla-common/proto.c`, `supla-common/srpc.c`): growing and
  shrinking buffers, tag-delimited frames, packet queues with recycled blocks, packs with captions
  of variable length. Modules `Sproto`, `SprotoLink`, `SprotoOctets`, `SrpcPack`,
  `Srpc`, `SrpcRuns`.

Code that works in place is modelled in place: limb vectors, octet buffers and descriptors are
arrays, numbers, queues, buffers and clients are objects. Each method is proved against a
specification on values (`Val`, `Value`, `Contents`, the parsers and relations), and the promises of
the program are proved about these.

How the environment enters: the socket, the broker and the clock are nondeterministic or parameters
(`Tick`, `net`, `Read`); allocation always succeeds; where the C code stops the program
(`gmp_die`), the method returns false. `mpn_invert_limb` is `mpn_invert_3by2` with a zero low limb,
as `src/nettle/include/nettle/mini-gmp.h` defines it.

## What the proofs found

Where the code does something other than its documentation or the standard suggests, the model
follows the code:

- `mpz_powm` returns 1 for the exponent 0 without reducing, so modulo 1 it returns 1
  (`MpzPowm.Powm`, `MpzPowm.ReducedIff`); with exponent 0, `_rsa_verify` compares with 1
  (`Rsa.Verify`), which no encoded message is (`Rsa.VerifyDigest`).
- `mpn_set_str_other` needs a nonzero first chunk when there are several (`MpnStr.SetStrOther`).
- A QoS 2 PUBLISH is suppressed as a duplicate while a PUBREC for its identifier is in the queue in
  any state, also after the exchange has ended. The delivery happens if and only if the exchange is
  not open and no completed PUBREC for it waits behind an incomplete message
  (`MqttSteps.DeliveredIff`); `MqttWitness.ClosedExchangeSuppresses` is a run of the client in which
  a new message is lost this way.
- The decoder refuses PUBLISH packets with a remaining length below four that the packer produces
  (`MqttCodec.ShortPublishRefused`).
- A partly sent message leaves an offset that goes to the first message the next pass sends, which
  can be another one even without a timeout (`MqttSteps.OffsetGoesToFirst`). It can lie behind the end
  of that message, where `msg->size - client->send_offset` wraps around; `MqttSteps.OffsetWithin` says
  exactly when not, and `MqttWitness.MisappliedOffset` is a run of the client that gets there.
- `sproto_out_buffer_append` leaves a packet without its closing tag when only the tag does not fit
  (`Sproto.Proto.OutAppend`); the exact sizes are in `SprotoLink.Link.Send`. That packet still arrives,
  but the next one is lost (`SprotoLink.TornPacket`). `srpc_iterate` takes a
  packet from its queue even if the output buffer cannot take it (`Srpc.Endpoint.WriteRound`).

## Model

| member | source | states |
|---|---|---|
| Limbs.NormalizedUnique | src/nettle/mini-gmp.c:370-376 | two normalised limb vectors of the same value are the same vector, so a value determines what every normalising routine leaves |
| Bits.AndMask | src/nettle/mini-gmp.c:1165-1178 | masking with 2^k - 1 is the remainder by 2^k |
| Bits.PowerOfTwoTest | src/nettle/mini-gmp.c:890-918 | for x > 0, x & (x - 1) is zero exactly for powers of two |
| Bits.LowestBit | src/nettle/mini-gmp.c:86-91 | x & -x in n bits is the lowest set bit |
| Mpn.Cmp | src/nettle/mini-gmp.c:350-359 | the sign of the difference of the values |
| Mpn.NormalizedSize | src/nettle/mini-gmp.c:370-376 | the largest prefix whose top limb is nonzero; the value is kept |
| Mpn.Add1 | src/nettle/mini-gmp.c:389-406 | result plus carry limb equals the sum of the values; nothing outside the result changes, also when it is the operand |
| Mpn.AddN | src/nettle/mini-gmp.c:408-425 | sum of two vectors of n limbs, carries found by comparing wrapped sums; operands may be the result |
| Mpn.Add | src/nettle/mini-gmp.c:427-438 | sum of vectors of different lengths |
| Mpn.Sub1 | src/nettle/mini-gmp.c:440-459 | difference with borrow |
| Mpn.SubN | src/nettle/mini-gmp.c:461-477 | difference of two vectors of n limbs with borrow |
| Mpn.Sub | src/nettle/mini-gmp.c:479-490 | difference of vectors of different lengths |
| Mpn.UmulPpmm | src/nettle/mini-gmp.c:109-132 | the two-limb product of two limbs from four half-limb products with wrapped sums |
| Mpn.Mul1 | src/nettle/mini-gmp.c:492-513 | product by one limb, with the limb carried out |
| Mpn.AddMul1 | src/nettle/mini-gmp.c:515-539 | r + u*v, with the limb carried out |
| Mpn.SubMul1 | src/nettle/mini-gmp.c:541-565 | r - u*v, with the limb borrowed |
| Mpn.Mul | src/nettle/mini-gmp.c:567-589 | the product of the values in un + vn limbs; the top limb is returned |
| Mpn.LShift | src/nettle/mini-gmp.c:603-632 | product by 2^cnt, in place upwards; the bits shifted out are returned |
| Mpn.RShift | src/nettle/mini-gmp.c:634-660 | quotient by 2^cnt, in place downwards; the remainder is returned at the top of a limb |
| Invert.UdivQr3by2 | src/nettle/mini-gmp.c:153-178 | with the 3/2 inverse: exact quotient limb and two-limb remainder for every numerator whose top two limbs are below the divisor |
| Invert.UdivQrnndPreinv | src/nettle/mini-gmp.c:134-151 | with the 2/1 inverse: exact quotient and remainder for every numerator whose top limb is below the divisor |
| Invert.CandidateBounds | src/nettle/mini-gmp.c:153-178 | the candidate quotient q1 + 1 is at most one too large or small, and the low digit decides in which direction it is corrected |
| Invert.NotCube | src/nettle/mini-gmp.c:775-778 | no divisor with a nonzero low limb divides B^3, so the tie in the last correction cannot occur |
| Invert.Invert3by2 | src/nettle/mini-gmp.c:704-781 | for normalised u1: floor((B^3 - 1) / (u1*B + u0)) - B; for u0 = 0 also the 2/1 inverse of u1 |
| MpnDiv.Clz | src/nettle/mini-gmp.c:74-84 | the number of leading zero bits |
| MpnDiv.Ctz | src/nettle/mini-gmp.c:86-91 | the number of trailing zero bits |
| MpnDiv.Div1Invert | src/nettle/mini-gmp.c:793-803 | shift count, normalised divisor and its inverse |
| MpnDiv.Div2Invert | src/nettle/mini-gmp.c:805-822 | the same for two limbs |
| MpnDiv.DivInvert | src/nettle/mini-gmp.c:824-853 | the same for the top limbs of any divisor |
| MpnDiv.DivQr1Preinv | src/nettle/mini-gmp.c:857-888 | quotient (optional) and remainder by a limb, with normalisation |
| MpnDiv.DivQr1 | src/nettle/mini-gmp.c:890-918 | quotient (optional) and remainder by any nonzero limb, with the shortcut for powers of two |
| MpnDiv.DivQr2Preinv | src/nettle/mini-gmp.c:920-969 | quotient (optional) and remainder by two limbs, with normalisation |
| MpnDiv.EstimateStep | src/nettle/mini-gmp.c:1022-1036 | the quotient limb estimated from the three top limbs is exact or one too large, and the borrow tells which |
| MpnDiv.MaxStep | src/nettle/mini-gmp.c:1014-1019 | when both top limbs equal the divisor's, B - 1 is the exact quotient limb |
| MpnDiv.DivStep | src/nettle/mini-gmp.c:1010-1042 | one iteration of the schoolbook loop leaves an exact quotient limb and a partial remainder below the divisor |
| MpnDiv.DivQrPi1 | src/nettle/mini-gmp.c:984-1045 | n = q*d + r and r < d for a normalised divisor of more than two limbs |
| MpnDiv.DivQrPreinv | src/nettle/mini-gmp.c:1047-1079 | the three cases with shifting: n = q*d + r and r < d |
| MpnDiv.DivQr | src/nettle/mini-gmp.c:1081-1100 | for every numerator of nn limbs and divisor of dn <= nn limbs with nonzero top limb: exactly the q and r with n = q*d + r, 0 <= r < d |
| MpzBase.Cmp | src/nettle/mini-gmp.c:1758-1770 | the sign of the difference of two signed numbers |
| MpzBase.CmpAbsUi | src/nettle/mini-gmp.c:1772-1784 | the sign of |u| - v |
| MpzBase.AbsAdd | src/nettle/mini-gmp.c:1898-1918 | limbs and size of |a| + |b|, with r possibly an operand |
| MpzBase.AbsSub | src/nettle/mini-gmp.c:1920-1943 | limbs and signed size of |a| - |b| |
| MpzBase.Add | src/nettle/mini-gmp.c:1945-1956 | r = a + b for all signs and aliases |
| MpzBase.Sub | src/nettle/mini-gmp.c:1958-1969 | r = a - b for all signs and aliases |
| MpzBase.AddUi | src/nettle/mini-gmp.c:1871-1878 | r = a + b |
| MpzBase.MulUi | src/nettle/mini-gmp.c:1985-2008 | r = u * v |
| MpzBase.MulTo | src/nettle/mini-gmp.c:2010-2046 | r = u * v for all signs, r possibly an operand |
| MpzDiv.DivQr | src/nettle/mini-gmp.c:2128-2238 | quotient and remainder (each optional) in floor, ceiling or truncating mode for all signs; stops exactly for a zero divisor |
| MpzDiv.DividesUnique | src/nettle/mini-gmp.c:2128-2238 | numerator, divisor and rounding mode determine quotient and remainder |
| MpzDiv.Divexact | src/nettle/mini-gmp.c:2478-2482 | the quotient of a multiple |
| MpzShift.Mul2Exp | src/nettle/mini-gmp.c:2048-2081 | r = u * 2^bits |
| MpzShift.DivQ2Exp | src/nettle/mini-gmp.c:2300-2353 | the quotient by 2^bits in the requested rounding mode |
| MpzShift.DivQUi | src/nettle/mini-gmp.c:2508-2562 | quotient and signed remainder (each optional) by a limb in the requested rounding mode, and the magnitude of the remainder |
| MpzShift.MakeOdd | src/nettle/mini-gmp.c:2720-2731 | the number is 2^shift times the odd number left |
| MpzBits.TstBit | src/nettle/mini-gmp.c:3478-3509 | bit i of the infinite two's complement of any integer |
| MpzBits.SetBit | src/nettle/mini-gmp.c:3573-3583 | 2^i is added exactly if bit i was clear |
| MpzBits.ClrBit | src/nettle/mini-gmp.c:3585-3595 | 2^i is subtracted exactly if bit i was set |
| MpzBits.AddClearBit | src/nettle/mini-gmp.c:3573-3583 | adding 2^i to a number whose bit i is clear sets that bit and changes no other |
| MpzLogic.And | src/nettle/mini-gmp.c:3613-3683 | for all signed u, v: every bit of the normalised result is the and of the operands' two's-complement bits |
| MpzLogic.Ior | src/nettle/mini-gmp.c:3685-3756 | the same with or |
| MpzLogic.XorTo | src/nettle/mini-gmp.c:3758-3825 | the same with exclusive or |
| MpzLogic.BitsDetermine | src/nettle/mini-gmp.c:3613-3825 | an integer is determined by its bits, so the three contracts determine their results |
| MpzLogic.LogicBits | src/nettle/mini-gmp.c:3642-3683 | the bits of the result limbs, complemented and carried like the operands, are the operator applied to the operands' bits |
| Gcd.BezoutGcd | src/nettle/mini-gmp.c:2852-2862 | a common divisor that is an integer combination is the greatest one |
| Gcd.HalveEven | src/nettle/mini-gmp.c:2940-2950 | one factor of two can always be taken off both cofactors |
| Gcd.CombinesSub | src/nettle/mini-gmp.c:2897-2911 | the two linear invariants survive a subtraction when the columns of cofactors are added |
| Gcd.CombinesScale | src/nettle/mini-gmp.c:2908-2922 | moving a factor to the cofactors multiplies the determinant |
| MpzGcd.GcdStep | src/nettle/mini-gmp.c:2890-2923 | one iteration keeps u = t0*tu + t1*tv, v = s0*tu + s1*tv and the determinant 2^power, and shrinks tu + tv |
| MpzGcd.GcdReduce | src/nettle/mini-gmp.c:2890-2924 | the loop ends with equal odd numbers and keeps the invariants |
| MpzGcd.HalvePower | src/nettle/mini-gmp.c:2940-2950 | cofactors of 2^power * g become cofactors of g, and stay small |
| MpzGcd.AdjustCofactors | src/nettle/mini-gmp.c:2952-2958 | the cofactors are replaced by the smaller representatives |
| MpzGcd.GcdExt | src/nettle/mini-gmp.c:2796-2976 | for all integers: g is the greatest common divisor and S*u + T*v = g, with s = S and t = T where wanted; for nonzero operands |S|*g <= |v| and |T|*g <= |u|, and one of the two is at most half of that |
| MpzGcd.Invert | src/nettle/mini-gmp.c:3014-3044 | succeeds exactly when |m| > 1 and gcd(u, m) = 1; then 0 < r < |m| and r*u = 1 mod |m|; else r is unchanged |
| MpzGcd.InverseExists | src/nettle/mini-gmp.c:3014-3044 | if any inverse modulo m exists then 1 is the gcd, so no invertible u is refused |
| MpzGcd.Gcd11 | src/nettle/mini-gmp.c:2654-2695 | the gcd of two limbs, not both zero |
| MpzGcd.GcdTo | src/nettle/mini-gmp.c:2733-2794 | the gcd of any two integers |
| MpzPowm.ReduceBase | src/nettle/mini-gmp.c:3123-3145 | the base is congruent to b modulo the shifted modulus and not negative; for negative b it is M - (|b| mod M), possibly M itself |
| MpzPowm.PowmLoop | src/nettle/mini-gmp.c:3148-3167 | modulo the shifted modulus the accumulator is the base to the power of the exponent bits read |
| MpzPowm.SameInverse | src/nettle/mini-gmp.c:3107-3109 | the inverse of the normalised top limbs serves the modulus and its shifted form |
| MpzPowm.ReducedIff | src/nettle/mini-gmp.c:3095-3099 | for e >= 0 the result is the reduced power exactly unless e = 0 and |m| = 1 |
| MpzPowm.Powm | src/nettle/mini-gmp.c:3079-3182 | stops exactly for m = 0 or a negative exponent with a non-invertible base; else r = 1 for e = 0, and r = b^e mod |m| with 0 <= r < |m| for e >= 1 (for e < 0 the inverse of b takes its place) |
| MpzRoot.PowUi | src/nettle/mini-gmp.c:3049-3068 | r = b^e |
| MpzRoot.SizeInBase2 | src/nettle/mini-gmp.c:3988-4011 | the number of bits of |u|, and 1 for zero |
| MpzRoot.Tangent | src/nettle/mini-gmp.c:3236-3243 | the z-th power lies above its tangents: a Newton step never falls below the root |
| MpzRoot.NewtonAbove | src/nettle/mini-gmp.c:3236-3243 | with both truncations, a Newton step from any s > 0 gives x with (x + 1)^z > a |
| MpzRoot.NewtonStops | src/nettle/mini-gmp.c:3236-3243 | where the iteration stops descending, s^z <= a |
| MpzRoot.RootRem | src/nettle/mini-gmp.c:3194-3256 | stops exactly for z = 0 or a negative y with even z; else terminates with x the z-th root of y truncated toward zero and r = y - x^z |
| MpzRoot.RootUnique | src/nettle/mini-gmp.c:3194-3256 | the bounds determine the root |
| MpzRoot.SquareRoot | src/nettle/mini-gmp.c:3222-3228 | for z = 2: x^2 <= y < (x + 1)^2 |
| MpnStr.GetBaseInfo | src/nettle/mini-gmp.c:1129-1142 | the largest power of the base that fits a limb |
| MpnStr.GetStrBits | src/nettle/mini-gmp.c:1154-1181 | the digits of the value in base 2^bits, without leading zeros |
| MpnStr.LimbGetStr | src/nettle/mini-gmp.c:1185-1204 | the digits of a limb from the least significant end |
| MpnStr.GetStrOther | src/nettle/mini-gmp.c:1206-1248 | the digits of the value in any other base |
| MpnStr.GetStr | src/nettle/mini-gmp.c:1250-1268 | for every base 2..256 and normalised nonzero vector: its digits, most significant first, no leading zero |
| MpnStr.SetStrBits | src/nettle/mini-gmp.c:1270-1299 | the normalised limbs of a digit string in base 2^bits |
| MpnStr.SetStrOther | src/nettle/mini-gmp.c:1301-1335 | the limbs of a digit string whose first chunk is not zero |
| MpnStr.SetStr | src/nettle/mini-gmp.c:1337-1355 | the normalised limbs of a digit string; outside powers of two its first chunk is not zero, unless it is the only one |
| MpnStr.LeadingDigit | src/nettle/mini-gmp.c:1310-1327 | a nonzero leading digit makes the first chunk nonzero, so every digit string without a leading zero can be read |
| MpnStr.RoundTrip | src/nettle/mini-gmp.c:1250-1355 | reading the digits of a vector back gives the same limbs, in every base and on both paths |
| MpnStr.DigitsDetermined | src/nettle/mini-gmp.c:1250-1355 | a digit string without leading zero is the only one with its value, so writing undoes reading too |
| Octets.FromOctets | src/nettle/mini-gmp.c:4216-4282 | with size 1 and most significant first: the unsigned value of the octets |
| Octets.ToOctets | src/nettle/bignum.c:78-101 | the low octets of the magnitude, most significant first, each xored with the sign octet |
| Octets.Com | src/nettle/mini-gmp.c:3606-3611 | -u - 1 |
| Octets.SizeInBase256U | src/nettle/bignum.c:72-76 | the least number of octets for |x|, and 1 for zero |
| Octets.SizeInBase256S | src/nettle/bignum.c:52-70 | the least number of octets for x in two's complement |
| Octets.GetStr256 | src/nettle/bignum.c:103-129 | x modulo 256^length as octets |
| Octets.SetStr256S | src/nettle/bignum.c:152-173 | the two's-complement value of the octets |
| Octets.SignedRoundTrip | src/nettle/bignum.c:103-173 | reading what was written gives every number that fits in two's complement |
| Octets.OctetRoundTrip | src/nettle/bignum.c:103-142 | writing what was read gives every octet string back |
| Octets.TwosComplementInjective | src/nettle/bignum.c:152-173 | two's complement of a length covers exactly the numbers that fit, each once |
| Octets.SignedOctetsDenote | src/nettle/bignum.c:103-129 | the octets written for a number that fits denote it |
| Rsa.SignaturePrefix | src/nettle/pkcs1.c:45-68 | fails exactly for key sizes below 11 + id + digest; else 00 01 FF..FF 00 id surround the free digest field |
| Rsa.PrefixIs | src/nettle/pkcs1-rsa-sha256.c:43-62 | in front of every digest of 32 octets, the prefix makes the DER encoding of SEQUENCE { SEQUENCE { OID 2.16.840.1.101.3.4.2.1, NULL }, OCTET STRING } (section 9.2 and appendix B.1 of RFC 3447) |
| Rsa.EncodeDigest | src/nettle/pkcs1-rsa-sha256.c:90-114 | m is the unsigned value of the encoded message of section 9.2 of RFC 3447 for the DigestInfo of SHA-256 |
| Rsa.Verify | src/nettle/rsa-verify.c:40-62 | true exactly if 0 < s < n and s^e mod n = m, for e > 0; compares with 1 for e = 0; for e < 0 the power of the inverse, and stops exactly if there is none |
| Rsa.RsaPublicKey.Prepare | src/nettle/rsa.c:58-84 | the octet length of an odd modulus of at least twelve octets, else 0 |
| Rsa.VerifyDigest | src/nettle/rsa-sha256-verify.c:59-75 | with e >= 1 and key size the octet length of n: accepts s exactly if 0 < s < n and s^e mod n as octets is the encoded message of the DigestInfo of the digest (sections 8.2.2 and 9.2 of RFC 3447); with e = 0 accepts nothing; stops exactly for e < 0 and s without inverse |
| Rsa.KeySizeBound | src/nettle/pkcs1.c:54-65 | a message can be encoded exactly for key sizes of 62 octets and more, and then has key size - 54, at least eight, padding octets |
| Rsa.ZeroNotAccepted | src/nettle/rsa-verify.c:49-51 | the refused s = 0 is accepted by the standard for no digest |
| Sha256.ChoiceIsCh | src/nettle/sha256-compress.c:62-63 | the rewritten Choice is Ch of FIPS 180-4 |
| Sha256.MajorityIsMaj | src/nettle/sha256-compress.c:64-65 | the rewritten Majority is Maj |
| Sha256.RotateOtherWay | src/nettle/sha256-compress.c:67-71 | rotating left by 32 - n is rotating right by n |
| Sha256.RoundStep | src/nettle/sha256-compress.c:107-111 | the two registers that a ROUND changes, against one round of the standard |
| Sha256.Expand | src/nettle/sha256-compress.c:84-85 | slot t mod 16 of the circular buffer becomes word t of the schedule |
| Sha256.EightExpanded | src/nettle/sha256-compress.c:154-161 | eight renamed rounds with expansion are eight rounds of the standard |
| Sha256.AllRounds | src/nettle/sha256-compress.c:136-170 | all 64 rounds |
| Sha256.SigmaBits | src/nettle/sha256-compress.c:67-71 | every bit of the four sigma functions of FIPS 180-4, from the bits of the word |
| Sha256.ChoiceBits | src/nettle/sha256-compress.c:62-65 | every bit of Ch and Maj |
| Sha256.CompressedIs | src/nettle/sha256-compress.c:114-186 | 64 words of schedule and 65 vectors of working variables exist that satisfy section 6.2.2 of FIPS 180-4 index by index |
| Sha256.Compress | src/nettle/sha256-compress.c:113-186 | for every state, block and constant table, state[i] becomes state[i] plus working variable i after the 64 rounds of section 6.2.2 of FIPS 180-4, whose schedule starts with the big-endian words of the block |
| MqttPid.FullCycle | src/user/mqtt.c:88-92 | 65535 steps of the register return to the start, from every state |
| MqttPid.NoShortCycle | src/user/mqtt.c:88-92 | no fewer steps do, from any nonzero state |
| MqttPid.OneCycle | src/user/mqtt.c:88-92 | all nonzero 16-bit words form one cycle: 65535 steps produce each exactly once |
| MqttPid.FreeIdReached | src/user/mqtt.c:86-103 | while some nonzero identifier is free, the search reaches it within 65535 steps |
| MqttCodec.UnpackHeader | src/user/mqtt.c:983-1039 | the parse of the octets in the buffer: wait, error, or header and its length |
| MqttCodec.UnpackResponse | src/user/mqtt.c:1696-1735 | the parse of a response, for all types, flags and lengths |
| MqttCodec.PackHeaderInto | src/user/mqtt.c:1041-1093 | the encoded header, no room, or an error; nothing outside the given part of the buffer changes |
| MqttCodec.PackAckInto | src/user/mqtt.c:1378-1411 | the packet if it fits, else no room |
| MqttCodec.PackPublishInto | src/user/mqtt.c:1264-1332 | the packet if it fits, no room, or the error of a forbidden quality of service or length |
| MqttCodec.HeaderRoundTrip | src/user/mqtt.c:983-1093 | decoding undoes encoding for every valid header below 2^28 (section 2.2.3 of MQTT 3.1.1) |
| MqttCodec.AckRoundTrip | src/user/mqtt.c:1378-1435 | decoding undoes encoding for the four acknowledgements |
| MqttCodec.PublishRoundTrip | src/user/mqtt.c:1264-1375 | decoding undoes encoding for every PUBLISH with remaining length at least 4 |
| MqttCodec.ShortPublishRefused | src/user/mqtt.c:1348-1351 | the remaining PUBLISH packets, with remaining length 2 or 3, are refused by the decoder |
| MqttCodec.ResponseStable | src/user/mqtt.c:1696-1735 | more input changes no verdict |
| MqttCodec.ProperPrefixWaits | src/user/mqtt.c:1696-1735 | every proper prefix of a packet that decodes makes the client wait |
| MqttOctets.FieldOctets | src/user/mqtt.c:1354-1360 | a 16-bit field is its two octets in base 256, most significant first, both ways |
| MqttOctets.LengthOctets | src/user/mqtt.c:1041-1093 | the length field in base 128, lowest group first, with exactly the needed continuation bits |
| MqttOctets.LeastSizeIs | src/user/mqtt.c:1000-1036 | the least length of the packet at the front: header and announced body, or more than there is while the length field is open |
| MqttOctets.SubackDecoded | src/user/mqtt.c:1441-1461 | the octets 0x90, length, identifier and codes decode to that identifier and those codes, whatever follows |
| MqttOctets.UnsubackDecoded | src/user/mqtt.c:1530-1543 | the octets 0xB0, 2 and identifier decode to that identifier |
| MqttOctets.ConnackDecoded | src/user/mqtt.c:1218-1243 | the octets 0x20, 2, flag and code decode to flag and code, or are refused for a flag above 1 or a code above 5 |
| MqttOctets.AckDecoded | src/user/mqtt.c:1413-1438 | the octets of the four acknowledgements decode to kind and identifier |
| MqttOctets.PingrespDecoded | src/user/mqtt.c:1696-1735 | the octet 0xD0 and a length decode to a PINGRESP; a body would be left in the buffer |
| MqttOctets.PublishDecoded | src/user/mqtt.c:1334-1375 | the octets of a PUBLISH with any flags decode to flags, topic, identifier and message |
| MqttOctets.PublishBroken | src/user/mqtt.c:1334-1375 | a topic that does not fit the packet leaves only quality of service and length determined |
| MqttOctets.RefusedPackets | src/user/mqtt.c:957-978 | all other complete packets are refused, with the error for a type, flags or length that must not be |
| MqttOctets.LongLengthRefused | src/user/mqtt.c:983-1039 | a length field of more than four octets is refused |
| MqttOctets.AckSent | src/user/mqtt.c:1378-1411 | the four octets of an acknowledgement |
| MqttOctets.PublishSent | src/user/mqtt.c:1264-1332 | the octets of a PUBLISH: flags, length, topic, identifier where there is one, message |
| MqttOctets.PlainSent | src/user/mqtt.c:1246-1262 | the octets of PINGREQ and DISCONNECT, and of CONNECT around its contents |
| MqttOctets.SubscribeSent | src/user/mqtt.c:1464-1604 | the octets of SUBSCRIBE and UNSUBSCRIBE with one topic filter |
| MqttQueue.MessageQueue.constructor | src/user/mqtt.c:1607-1617 | an empty valid queue |
| MqttQueue.MessageQueue.Register | src/user/mqtt.c:1619-1632 | the octets at curr become the last message, unsent; the others stay; the two regions stay disjoint |
| MqttQueue.MessageQueue.Clean | src/user/mqtt.c:1634-1678 | drops exactly the longest complete prefix; order, octets, state and identifiers of the rest stay |
| MqttQueue.MessageQueue.Find | src/user/mqtt.c:1680-1692 | the first message of the type with the identifier in any state, or the first incomplete one |
| MqttQueue.MessageQueue.CurrSz | src/user/mqtt.h:1087 | the room between the messages and one more descriptor, and zero exactly if there is none |
| MqttQueue.ViewMoved | src/user/mqtt.c:1652-1674 | moving octets and descriptors to the front keeps the layout and the messages |
| MqttQueue.MessageQueue.SetFirstOctet | src/user/mqtt.c:604-605 | only the first octet of that message changes |
| MqttRoom.CurrSzIsRoom | src/user/mqtt.h:1087 | the room depends only on the number and lengths of the messages |
| MqttRoom.Enqueue | src/user/mqtt.c:200-224 | in all cases, also for a packet the packer refuses: the answer, whether the queue is cleaned, and the message queued |
| MqttProtocol.DeliverSafe | src/user/mqtt.c:748-763 | a delivery together with its new PUBREC keeps every property of log and queue |
| MqttProtocol.ReleaseSafe | src/user/mqtt.c:799-817 | a PUBREL that completes its PUBREC ends exactly that exchange |
| MqttProtocol.CleanedSafe | src/user/mqtt.c:1634-1678 | a PUBREC of an open exchange survives cleaning |
| MqttProtocol.SendSafe | src/user/mqtt.c:516-623 | sending a message that may be sent keeps every property |
| MqttProtocol.HistoryOrdered | src/user/mqtt.c:531-547 | over all messages ever queued: before a QoS 2 PUBLISH in flight every other one is complete, so at most one is in flight |
| MqttProtocol.NoPubrecIff | src/user/mqtt.c:748-752 | no PUBREC is found exactly if the exchange is not open and no completed PUBREC waits in the queue |
| MqttSteps.DeliveredIff | src/user/mqtt.c:748-763 | given room, a QoS 2 PUBLISH is handed over if and only if its exchange is not open and no completed PUBREC for its identifier waits in the queue |
| MqttSteps.OffsetGoesToFirst | src/user/mqtt.c:524-566 | the offset left by an earlier pass goes to the first message sent, unless a timeout clears it; every other message is sent whole |
| MqttSteps.OffsetWithin | src/user/mqtt.c:549-568 | a message is sent from within its octets if and only if the offset left over is not behind its end, or a timeout or an earlier message clears it |
| MqttSteps.FewIds | src/user/mqtt.c:94-101 | fewer than 65535 distinct identifiers in the queue leave one free |
| MqttStream.AnyChunking | src/user/mqtt.c:649-683 | decoding greedily chunk by chunk yields the packets of the whole stream, for any chunking |
| MqttStream.FullBufferTooSmall | src/user/mqtt.c:672-678 | a full buffer without a packet is shorter than the packet that arrives |
| MqttStream.NeverTooSmall | src/user/mqtt.c:672-678 | a receive buffer that every packet of the stream fits is never found full without a packet |
| MqttEffects.PassLeaves | src/user/mqtt.c:514-623 | the queue a send pass leaves: each message that was to be sent has been sent whole, is complete or awaits its answer as its kind requires, and has the DUP flag set if it is a PUBLISH of quality of service 1; no other octet and no other message changes |
| MqttEffects.SubmitEffect | src/user/mqtt.c:200-222 | what becomes of any packet and of any refusal of the packer: its octets, type and identifier stand behind the queue, cleaned only if there was no room, or the exact error |
| MqttEffects.SendEffect | src/user/mqtt.c:508-637 | nothing in an error state other than a full buffer; else a pass, behind which a PINGREQ of two octets is queued exactly if the last complete send is more than three quarters of the keep-alive time ago |
| MqttEffects.PublishEffect | src/user/mqtt.c:739-763 | the octets of the PUBACK or PUBREC queued for a PUBLISH, and exactly when it is handed over |
| MqttEffects.PubrecEffect | src/user/mqtt.c:776-798 | the PUBLISH completed by a PUBREC, and the octets of the PUBREL queued |
| MqttEffects.PubrelEffect | src/user/mqtt.c:799-817 | the PUBREC completed by a PUBREL, the release, and the octets of the PUBCOMP queued |
| MqttEffects.PubackEffect | src/user/mqtt.c:764-775 | a PUBACK completes the first PUBLISH with its identifier, a PUBCOMP the first PUBREL |
| MqttEffects.ConnackEffect | src/user/mqtt.c:716-738 | a CONNACK completes the first waiting CONNECT; the answer is Ok exactly for code 0 |
| MqttEffects.SubackEffect | src/user/mqtt.c:830-847 | a SUBACK completes the first SUBSCRIBE with its identifier; the answer is Ok exactly for a first code other than 0x80 |
| MqttEffects.UnsubackEffect | src/user/mqtt.c:848-860 | an UNSUBACK completes the first UNSUBSCRIBE with its identifier |
| MqttEffects.PingrespEffect | src/user/mqtt.c:860-870 | a PINGRESP completes the first waiting PINGREQ |
| MqttClient.Client.constructor | src/user/mqtt.c:107-144 | a valid client without messages, waiting for connect |
| MqttClient.Client.NextPid | src/user/mqtt.c:79-105 | terminates while some nonzero identifier is free; the result is the first of the register's next states that no queued message carries, and not 0 |
| MqttClient.Client.TryPack | src/user/mqtt.c:200-224 | queue, error state and result in all cases: earlier error, refused packet, room, room after cleaning, no room |
| MqttClient.Client.Publish | src/user/mqtt.c:264-296 | a PUBLISH with a fresh identifier in packet and descriptor, or the error |
| MqttClient.Client.Subscribe | src/user/mqtt.c:382-410 | a SUBSCRIBE with a fresh identifier, or the error |
| MqttClient.Client.Unsubscribe | src/user/mqtt.c:412-437 | an UNSUBSCRIBE with a fresh identifier, or the error |
| MqttClient.Client.Connect | src/user/mqtt.c:226-262 | clears only the initial error state, then queues the packet |
| MqttClient.Client.Ping | src/user/mqtt.c:447-465 | queues a PINGREQ |
| MqttClient.Client.Disconnect | src/user/mqtt.c:479-498 | queues a DISCONNECT |
| MqttClient.Client.HandlePublish | src/user/mqtt.c:739-763 | PUBACK or PUBREC is queued before the callback; a failure or a duplicate prevents it |
| MqttClient.Client.HandlePubrec | src/user/mqtt.c:776-798 | a PUBREC whose PUBREL is queued changes nothing; else the PUBLISH is completed and a PUBREL queued |
| MqttClient.Client.HandlePubrel | src/user/mqtt.c:799-817 | the PUBREC is completed, the exchange ends and a PUBCOMP is queued |
| MqttClient.Client.HandleAck | src/user/mqtt.c:764-775 | the first matching message is completed; without one the acknowledgement is unknown |
| MqttClient.Client.HandleResponse | src/user/mqtt.c:715-876 | the exact effect on queue, log and error state of every packet of the broker, and all invariants |
| MqttClient.Client.Recv | src/user/mqtt.c:642-891 | for any pieces in which the socket delivers: when the pass ends well, the packets handled are those of the whole stream and the rest is in the buffer; decoder errors are explained by the buffer, and the too-small error needs a packet that does not fit the buffer; the pass terminates |
| MqttClient.Client.SendTurn | src/user/mqtt.c:516-623 | the exact effect of one message of the pass |
| MqttClient.Client.SendPass | src/user/mqtt.c:514-623 | the messages dealt with were due and sent whole, or not due and untouched; where the pass stops, the socket did not take the message |
| MqttClient.Client.Send | src/user/mqtt.c:500-640 | the whole pass with error states, offset, timeout count, time of the last send, and the ping of the keep-alive check |
| MqttClient.Client.Reconnect | src/user/mqtt.c:467-477 | queues a DISCONNECT; the error state then lets the next synchronisation send it |
| MqttClient.Client.Sync | src/user/mqtt.c:37-77 | a receive pass and, if it ended well, a send pass with its exact result |
| MqttRuns.ValidKeeps | src/user/mqtt.c:37-77 | the client invariant implies the properties of every reachable state |
| MqttRuns.Continue | src/user/mqtt.c:37-77 | from any reachable state, any sequence of requests, send and receive passes keeps the invariants; messages only advance from unsent over awaiting to complete, and leave the queue only when complete |
| MqttRuns.Run | src/user/mqtt.c:37-144 | in every run from a new client: a QoS 2 PUBLISH is handed over at most once between releases of its identifier, QoS 2 publications are in flight one at a time and in order, the packets handled are a prefix of the stream |
| MqttWitness.ClosedExchangeSuppresses | src/user/mqtt.c:739-817 | a run from mqtt_init (connect, subscribe, send, then CONNACK, QoS 2 PUBLISH 7, PUBREL 7 and PUBLISH 7 of the broker) in which the last PUBLISH is not handed over although no exchange with its identifier is open |
| MqttWitness.MisappliedOffset | src/user/mqtt.c:524-568 | a run from mqtt_init without any timeout after which the next message to be sent, of 7 octets, would be sent from octet 100 on: the octets sent of a long PUBLISH behind it |
| Sproto.ByteBuffer.Append | supla-common/proto.c:112-150 | all of the data or none; fails exactly if 2048 octets would be reached; the new capacity, 0 or within [512, 2048) |
| Sproto.ByteBuffer.Drop | supla-common/proto.c:195-215 | exactly the first n octets go; the capacity shrinks to the data, but not below 512 |
| Sproto.Proto.InAppend | supla-common/proto.c:152-157 | append to the input buffer, keeping the tag flag true to the contents |
| Sproto.Proto.ShrinkIn | supla-common/proto.c:238-271 | the first octets go and the tag flag is cleared |
| Sproto.Proto.PopIn | supla-common/proto.c:273-327 | wait, data error, version error or a packet, exactly as the contents of the buffer say, with what stays in the buffer and in the structure |
| Sproto.Proto.OutAppend | supla-common/proto.c:160-178 | the packet with its tag, nothing, or the packet without its tag, with the exact conditions |
| Sproto.Proto.PopOut | supla-common/proto.c:180-220 | at most n octets from the front; the rest stays |
| Sproto.Proto.InitSdp | supla-common/proto.c:342-354 | a zeroed structure with tag, version and a new nonzero identifier |
| Sproto.SetData | supla-common/proto.c:366-377 | data, size and call, or nothing for more than 1536 octets |
| Sproto.DecodeEncode | supla-common/proto.c:160-178 | the fields of an encoded packet are those of the packet, whatever follows |
| Sproto.ExamineStream | supla-common/proto.c:273-327 | on a stream of well-formed frames the reader waits exactly until the first is complete, then takes it, and reports no error |
| SprotoOctets.FrameOctets | supla-common/proto.h:629-636 | where tag, version, request, call, size, data and closing tag of a frame stand, numbers lowest octet first |
| SprotoOctets.HandedOverIff | supla-common/proto.c:273-327 | a packet is handed over exactly if it stands between two tags, with a version from 1 to 23 and within the size limit |
| SprotoOctets.VersionRefusedIff | supla-common/proto.c:291-299 | a version is refused exactly if it is outside 1 to 23 in a header behind a tag |
| SprotoOctets.DataRefusedIff | supla-common/proto.c:273-327 | octets are refused exactly without an opening tag, beyond the size limit or without the closing tag at the end |
| SprotoLink.Compose | supla-common/proto.c:342-377 | the structure carries the packet with the next identifier |
| SprotoLink.TransitExamine | supla-common/proto.c:273-327 | what the reader finds is the next packet under way, and nothing is under way if it waits on a drained link |
| SprotoLink.Link.Send | supla-common/proto.c:160-178 | exactly when a packet is appended, refused or torn |
| SprotoLink.Link.Receive | supla-common/proto.c:273-327 | on an unbroken link no error; the next packet sent, each once and in order; all of them once nothing is under way |
| SprotoLink.TornPacket | supla-common/proto.c:160-178 | a packet without its closing tag still arrives, closed by the opening tag of the next one; that next one is lost with a data error |
| SprotoLink.Link.Run | supla-common/proto.c:112-327 | any sequence of appends, drains in any pieces, chunks of any size and pops; exactly if an append failed, nothing is promised; else no error result, the octets under way are the frames of the packets not yet popped, and all have been popped once there are none |
| SrpcPack.SetPack | supla-common/srpc.c:2462-2511 | nothing for a count below 1 or above the maximum; else the buffer holds the header with the number of items within the caption limit, and for each such item its octets up to the end of its caption, behind those of the items before it, and nothing else |
| SrpcPack.GetPack | supla-common/srpc.c:426-484 | the pack in memory, zero-filled, or nothing, for any data |
| SrpcPack.BuiltSends | supla-common/srpc.c:2462-2511 | number, order, places and octets of the items sent, stated over the items of the pack |
| SrpcPack.PackArrives | supla-common/srpc.c:426-484 | what the other end makes of a pack that is sent: the header with the number of items, and at the next place each item within the caption limit, zeros behind its caption |
| SrpcPack.AcceptedIff | supla-common/srpc.c:426-484 | any data is accepted exactly if its size is possible and the counted items stand behind the header |
| SrpcPack.AcceptedHolds | supla-common/srpc.c:426-484 | the header and the items of accepted data, each at its place with zeros behind its caption |
| SrpcPack.RoundTrip | supla-common/srpc.c:426-484 | for every pack and count: decoding the built buffer yields exactly the items whose caption size is within the limit, in order, with header and caption octets and zero-filled tails, and the count kept |
| Srpc.Queue.Push | supla-common/srpc.c:181-202 | appended exactly if there are fewer than two packets; a block of the pool is used again, and blocks are never shared |
| Srpc.Queue.Pop | supla-common/srpc.c:204-231 | the first packet, or the first with the identifier; the order of the others stays; its own block, and no other, is given up exactly while more than two are counted |
| Srpc.FirstFor | supla-common/srpc.c:204-209 | the first match is characterised by its index |
| Srpc.Endpoint.AsyncCall | supla-common/srpc.c:1782-1826 | a call is queued exactly if its data and the queue allow it; the packet carries the identifier returned |
| Srpc.Endpoint.ReadRound | supla-common/srpc.c:318-379 | at most one packet goes from input to queue; exactly when octets or a packet are lost |
| Srpc.Endpoint.WriteRound | supla-common/srpc.c:381-395 | the first queued packet leaves the queue; octets written and octets left are those before plus its frame, if it fits; how many are written, and none after a malformed or torn packet |
| Srpc.WriteFrame | supla-common/srpc.c:381-395 | a packet that fits leaves as its frame |
| Srpc.ReadFrame | supla-common/srpc.c:335-363 | on a stream of frames a round waits or hands over exactly the first packet |
| Srpc.Endpoint.PopIn | supla-common/srpc.c:757-763 | the application takes the first packet, or the first with the identifier |
| SrpcRuns.OutRound | supla-common/srpc.c:381-395 | a round keeps the account of the way out: without torn frames the octets written and those in the buffer are the frames of the calls that left the queue with room in the buffer, in order |
| SrpcRuns.InRound | supla-common/srpc.c:318-379 | a round keeps the account of the way in: unless octets or a packet found no room, the next packet of the peer arrives, once and in order, and only the end of the input ends the round |
| SrpcRuns.Session.Call | supla-common/srpc.c:1782-1822 | the call joins the calls made exactly if it is accepted, and the accounts are kept |
| SrpcRuns.Session.Round | supla-common/srpc.c:309-413 | exactly which round marks a call as appended or lost, tears a frame or misses an arrival |
| SrpcRuns.Session.Collect | supla-common/srpc.c:757-763 | the packet taken is the first with the identifier, and an arrived packet is taken at most once |
| SrpcRuns.ValidConserves | supla-common/srpc.c:309-413 | the accounts imply conservation on both ways |
| SrpcRuns.Run | supla-common/srpc.c:309-413 | every run of calls, rounds and packets taken, over octets in any pieces: the octets written are the frames of the calls, the packets taken and those in the queue are those of the peer that have arrived, unless a frame was torn or an arrival missed |

## Left out

- MpnStr.SetStrOther: excludes a zero first chunk followed by others, for which the C code multiplies a vector of no limbs against the assertion of `mpn_mul_1`.
- MpnStr.SetStr: passes the condition of `MpnStr.SetStrOther` on to its callers.
- MqttWitness.MisappliedOffset: what the socket is given from behind the message's end is arbitrary in the model; whole-message output over several passes is not claimed, because it fails.
- SprotoLink.Link.Run: claims nothing after a failed append; `SprotoLink.TornPacket` says what the reader does with the next two packets.
- SrpcRuns.Run: claims nothing about the octets behind a torn frame, nor about the packets behind a missed arrival.
- SrpcPack.GetPack: the caller's reset of data_size after a pack has been taken is not part of the result.
- MqttClient.Client.Connect: the contents of the CONNECT packet are a parameter; the checks and flags of `mqtt_pack_connection_request` are not modelled.
- MqttClient.Client.Publish: topics are shorter than 2^16 octets, because the C code cuts longer ones inconsistently.
- MqttClient.Client.Subscribe: topic filters are shorter than 2^16 octets, for the same reason.
- MqttClient.Client.Unsubscribe: topic filters are shorter than 2^16 octets, for the same reason.
- MqttCodec.PackPublishInto: topics are shorter than 2^16 octets, for the same reason.
- MqttClient.Client.Sync: the reconnect and inspector callbacks are not part of it.
- MqttQueue.MessageQueue.Register: descriptors are kept in an array of their own, so that they do not overlap the octets is the inequality between the two lengths that `Valid` states.
- MqttClient.Client.NextPid: requires a free nonzero identifier, because the search does not end without one.
- MqttClient.Client.HandleResponse: a PUBLISH whose topic does not fit its packet makes the C code read beyond the packet; its identifier is left arbitrary.
- Sockets, TLS, threads, locks, event handles, logging and memory exhaustion.
- The MQTT mutex, the inspector and reconnect callbacks re-initialisation, the averaging of response times, and wrap-around of the 32-bit clock.
- Requests made by the MQTT publish callback while a packet is handled.
- Floating point (`mpz_set_d`, `mpz_get_d`, `mpz_cmp_d`), primality testing, factorials and binomials, population counts and scans.
- The text handling of `mpz_set_str` and `mpz_get_str`; radix conversion is modelled on limb vectors.
- Octets.FromOctets: of `mpz_import` only single octets, most significant first; other word sizes and byte orders are not modelled, nor is `mpz_export`.
- SHA-256 streaming and padding, whose macros are not part of this model.
- Srpc.Endpoint.AsyncCall: the version argument and the refusal of calls that the peer's version does not allow are not part of it.
- The table of size checks in `srpc_getdata`, the many `srpc_*_async_*` wrappers, the version table of calls, `sproto_set_version` and the callbacks of `srpc_iterate`.
- Sproto.ByteBuffer.Append: excludes data within 2048 octets of 2^32, for which the size would wrap around in 32 bits.
- Sproto.Proto.InAppend: excludes the same lengths.
- ESP8266 drivers, GPIO timing, flash access, HTML templates and the configuration page.
