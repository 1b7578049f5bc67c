/** The mpn layer: in-place operations on limb arrays (mini-gmp.c, MPN interface).

    A C pointer `rp + k` becomes an array and an offset.  Operands may overlap in
    the ways the loops tolerate; see `Streams`. */
module Mpn {
  import opened Limbs
  import opened Bits

  /** A loop that writes r[ro..] upwards may read a[ao..] upwards as it goes. */
  predicate Streams(rp: array<Limb>, ro: nat, ap: array<Limb>, ao: nat, n: nat) {
    rp == ap ==> ro <= ao || ao + n <= ro
  }

  /** A loop that writes r[ro..] downwards may read a[ao..] downwards as it goes. */
  predicate StreamsDown(rp: array<Limb>, ro: nat, ap: array<Limb>, ao: nat, n: nat) {
    rp == ap ==> ro >= ao || ro + n <= ao
  }

  /** Nothing outside r[lo..hi] has changed. */
  twostate predicate Kept(rp: array<Limb>, lo: int, hi: int)
    reads rp
  {
    forall j :: 0 <= j < rp.Length && (j < lo || j >= hi) ==> rp[j] == old(rp[j])
  }

  // ---------------------------------------------------- arithmetic of one step

  /** Every loop below extends a result R by one limb r and passes a carry on. */
  lemma CarryStep(R: seq<Limb>, i: nat, v: int, x: int, c: int, r: Limb, c': int)
    requires i == |R|
    requires Val(R) + Shift(c, i) == v
    requires x + c == r + B * c'
    ensures Val(R + [r]) + Shift(c', i + 1) == v + Shift(x, i)
  {
    ValSnoc(R, r);
    ShiftAdd(x, c, i);
    ShiftAdd(r, B * c', i);
    ShiftNext(c', i);
  }

  lemma BorrowStep(R: seq<Limb>, i: nat, v: int, x: int, c: int, r: Limb, c': int)
    requires i == |R|
    requires Val(R) - Shift(c, i) == v
    requires x - c == r - B * c'
    ensures Val(R + [r]) - Shift(c', i + 1) == v + Shift(x, i)
  {
    ShiftAdd(0, c, i);
    ShiftAdd(0, c', i + 1);
    ShiftZero(i);
    ShiftZero(i + 1);
    CarryStep(R, i, v, x, -c, r, -c');
  }

  /** The carry chain of an addition, one limb further. */
  lemma AddChain(R: seq<Limb>, a: seq<Limb>, b: seq<Limb>, i: nat, c: int, r: Limb, c': int)
    requires i == |R| && i < |a| == |b|
    requires Val(R) + Shift(c, i) == Val(a[..i]) + Val(b[..i])
    requires a[i] + b[i] + c == r + B * c'
    ensures Val(R + [r]) + Shift(c', i + 1) == Val(a[..i + 1]) + Val(b[..i + 1])
  {
    ValPrefixNext(a, i);
    ValPrefixNext(b, i);
    var x: int, y: int := a[i], b[i];
    ShiftAdd(x, y, i);
    CarryStep(R, i, Val(a[..i]) + Val(b[..i]), x + y, c, r, c');
  }

  /** The borrow chain of a subtraction, one limb further. */
  lemma SubChain(R: seq<Limb>, a: seq<Limb>, b: seq<Limb>, i: nat, c: int, r: Limb, c': int)
    requires i == |R| && i < |a| == |b|
    requires Val(R) - Shift(c, i) == Val(a[..i]) - Val(b[..i])
    requires a[i] - b[i] - c == r - B * c'
    ensures Val(R + [r]) - Shift(c', i + 1) == Val(a[..i + 1]) - Val(b[..i + 1])
  {
    ValPrefixNext(a, i);
    ValPrefixNext(b, i);
    var x: int, y: int := a[i], b[i];
    ShiftAdd(x, y, i);
    BorrowStep(R, i, Val(a[..i]) - Val(b[..i]), x - y, c, r, c');
  }

  // ------------------------------------------------------------ copying, zero

  method CopyI(rp: array<Limb>, ro: nat, ap: array<Limb>, ao: nat, n: nat)
    requires ro + n <= rp.Length && ao + n <= ap.Length && Streams(rp, ro, ap, ao, n)
    modifies rp
    ensures rp[ro..ro + n] == old(ap[ao..ao + n])
    ensures Kept(rp, ro, ro + n)
  {
    ghost var a := ap[ao..ao + n];
    var i := 0;
    while i < n
      invariant 0 <= i <= n
      invariant forall j :: 0 <= j < i ==> rp[ro + j] == a[j]
      invariant forall j :: i <= j < n ==> ap[ao + j] == a[j]
      invariant Kept(rp, ro, ro + n)
    {
      rp[ro + i] := ap[ao + i];
      i := i + 1;
    }
  }

  method CopyD(rp: array<Limb>, ro: nat, ap: array<Limb>, ao: nat, n: nat)
    requires ro + n <= rp.Length && ao + n <= ap.Length && StreamsDown(rp, ro, ap, ao, n)
    modifies rp
    ensures rp[ro..ro + n] == old(ap[ao..ao + n])
    ensures Kept(rp, ro, ro + n)
  {
    ghost var a := ap[ao..ao + n];
    var i := n;
    while i > 0
      invariant 0 <= i <= n
      invariant forall j :: i <= j < n ==> rp[ro + j] == a[j]
      invariant forall j :: 0 <= j < i ==> ap[ao + j] == a[j]
      invariant Kept(rp, ro, ro + n)
    {
      i := i - 1;
      rp[ro + i] := ap[ao + i];
    }
  }

  method Zero(rp: array<Limb>, ro: nat, n: nat)
    requires ro + n <= rp.Length
    modifies rp
    ensures forall j :: ro <= j < ro + n ==> rp[j] == 0
    ensures Kept(rp, ro, ro + n)
  {
    var i := 0;
    while i < n
      invariant i <= n
      invariant forall j :: ro <= j < ro + i ==> rp[j] == 0
      invariant Kept(rp, ro, ro + n)
    {
      rp[ro + i] := 0;
      i := i + 1;
    }
  }

  // ------------------------------------------------------------- comparisons

  function Sign(x: int): int {
    if x > 0 then 1 else if x < 0 then -1 else 0
  }

  lemma CmpStep(s: seq<Limb>, t: seq<Limb>, i: nat)
    requires i < |s| == |t| && s[i] != t[i] && s[i + 1..] == t[i + 1..]
    ensures Sign(Val(s) - Val(t)) == if s[i] > t[i] then 1 else -1
  {
    if s[i] > t[i] {
      LessAt(t, s, i);
    } else {
      LessAt(s, t, i);
    }
  }

  lemma LessAt(s: seq<Limb>, t: seq<Limb>, i: nat)
    requires i < |s| == |t| && s[i] < t[i] && s[i + 1..] == t[i + 1..]
    ensures Val(s) < Val(t)
  {
    ValSplit(s, i + 1);
    ValSplit(t, i + 1);
    hide *;
    ValPrefixNext(s, i);
    ValPrefixNext(t, i);
    ValBound(s[..i]);
    var x: int, y: int := s[i], t[i];
    ShiftMono(x + 1, y, i);
    ShiftAdd(x, 1, i);
    ShiftOne(i);
    assert Val(s[..i + 1]) < Val(t[..i + 1]);
  }

  /** mpn_cmp: the sign of the difference, found at the highest differing limb. */
  method Cmp(ap: array<Limb>, ao: nat, bp: array<Limb>, bo: nat, n: nat) returns (c: int)
    requires ao + n <= ap.Length && bo + n <= bp.Length
    ensures c == Sign(Val(ap[ao..ao + n]) - Val(bp[bo..bo + n]))
  {
    ghost var a, b := ap[ao..ao + n], bp[bo..bo + n];
    var i := n;
    while i > 0
      invariant 0 <= i <= n
      invariant a[i..] == b[i..]
    {
      i := i - 1;
      if ap[ao + i] != bp[bo + i] {
        CmpStep(a, b, i);
        return if ap[ao + i] > bp[bo + i] then 1 else -1;
      }
      assert a[i..] == [a[i]] + a[i + 1..];
      assert b[i..] == [b[i]] + b[i + 1..];
    }
    assert a[0..] == a && b[0..] == b;
    return 0;
  }

  /** mpn_normalized_size */
  method NormalizedSize(xp: array<Limb>, n: nat) returns (m: nat)
    requires n <= xp.Length
    ensures m <= n && Normalized(xp[..m]) && Val(xp[..m]) == Val(xp[..n])
    ensures forall j :: m <= j < n ==> xp[j] == 0
  {
    m := n;
    while m > 0 && xp[m - 1] == 0
      invariant 0 <= m <= n
      invariant forall j :: m <= j < n ==> xp[j] == 0
    {
      m := m - 1;
    }
    ValTrim(xp[..n], m);
    assert xp[..n][..m] == xp[..m];
  }

  // ------------------------------------------------------ addition, subtraction

  /** mpn_add_1 */
  method Add1(rp: array<Limb>, ro: nat, ap: array<Limb>, ao: nat, n: nat, b: Limb) returns (cy: Limb)
    requires n > 0 && ro + n <= rp.Length && ao + n <= ap.Length && Streams(rp, ro, ap, ao, n)
    modifies rp
    ensures Val(rp[ro..ro + n]) + Shift(cy, n) == old(Val(ap[ao..ao + n])) + b
    ensures cy <= 1
    ensures Kept(rp, ro, ro + n)
  {
    hide Val, Shift;
    EmptyValues();
    ghost var a := ap[ao..ao + n];
    cy := b;
    var i := 0;
    while i < n
      invariant 0 <= i <= n
      invariant i > 0 ==> cy <= 1
      invariant Val(rp[ro..ro + i]) + Shift(cy, i) == Val(a[..i]) + b
      invariant forall j :: i <= j < n ==> ap[ao + j] == a[j]
      invariant Kept(rp, ro, ro + n)
    {
      var x := ap[ao + i];
      var r := (x + cy) % B;
      ghost var cy0 := cy;
      cy := Bool(r < cy);
      assert x + cy0 == r + B * cy;
      ghost var before := rp[ro..ro + i];
      rp[ro + i] := r;
      assert rp[ro..ro + i + 1] == before + [r];
      ValPrefixNext(a, i);
      CarryStep(before, i, Val(a[..i]) + b, x, cy0, r, cy);
      i := i + 1;
    }
    assert a[..n] == a;
  }

  /** The body of the mpn_add_n loop: wrapped sums, carries found by comparison. */
  method AddLimbs(a: Limb, b: Limb, cy: Limb) returns (r: Limb, cy': Limb)
    requires cy <= 1
    ensures a + b + cy == r + B * cy' && cy' <= 1
  {
    r := (a + cy) % B;
    cy' := Bool(r < cy);
    r := (r + b) % B;
    cy' := cy' + Bool(r < b);
  }

  /** mpn_add_n */
  method AddN(rp: array<Limb>, ro: nat, ap: array<Limb>, ao: nat, bp: array<Limb>, bo: nat, n: nat)
    returns (cy: Limb)
    requires ro + n <= rp.Length && ao + n <= ap.Length && bo + n <= bp.Length
    requires Streams(rp, ro, ap, ao, n) && Streams(rp, ro, bp, bo, n)
    modifies rp
    ensures Val(rp[ro..ro + n]) + Shift(cy, n) == old(Val(ap[ao..ao + n])) + old(Val(bp[bo..bo + n]))
    ensures cy <= 1
    ensures Kept(rp, ro, ro + n)
  {
    hide Val, Shift;
    EmptyValues();
    ghost var a, b := ap[ao..ao + n], bp[bo..bo + n];
    cy := 0;
    var i := 0;
    while i < n
      invariant 0 <= i <= n && cy <= 1
      invariant Val(rp[ro..ro + i]) + Shift(cy, i) == Val(a[..i]) + Val(b[..i])
      invariant forall j :: i <= j < n ==> ap[ao + j] == a[j]
      invariant forall j :: i <= j < n ==> bp[bo + j] == b[j]
      invariant Kept(rp, ro, ro + n)
    {
      ghost var cy0 := cy;
      var r;
      r, cy := AddLimbs(ap[ao + i], bp[bo + i], cy);
      ghost var before := rp[ro..ro + i];
      rp[ro + i] := r;
      assert rp[ro..ro + i + 1] == before + [r];
      AddChain(before, a, b, i, cy0, r, cy);
      i := i + 1;
    }
    assert a[..n] == a && b[..n] == b;
  }

  /** mpn_sub_1 */
  method Sub1(rp: array<Limb>, ro: nat, ap: array<Limb>, ao: nat, n: nat, b: Limb) returns (cy: Limb)
    requires n > 0 && ro + n <= rp.Length && ao + n <= ap.Length && Streams(rp, ro, ap, ao, n)
    modifies rp
    ensures Val(rp[ro..ro + n]) - Shift(cy, n) == old(Val(ap[ao..ao + n])) - b
    ensures cy <= 1
    ensures Kept(rp, ro, ro + n)
  {
    hide Val, Shift;
    EmptyValues();
    ghost var a := ap[ao..ao + n];
    cy := b;
    var i := 0;
    while i < n
      invariant 0 <= i <= n
      invariant i > 0 ==> cy <= 1
      invariant Val(rp[ro..ro + i]) - Shift(cy, i) == Val(a[..i]) - b
      invariant forall j :: i <= j < n ==> ap[ao + j] == a[j]
      invariant Kept(rp, ro, ro + n)
    {
      var x := ap[ao + i];
      ghost var cy0 := cy;
      var r := (x - cy) % B;
      cy := Bool(x < cy);
      assert x - cy0 == r - B * cy;
      ghost var before := rp[ro..ro + i];
      rp[ro + i] := r;
      assert rp[ro..ro + i + 1] == before + [r];
      ValPrefixNext(a, i);
      BorrowStep(before, i, Val(a[..i]) - b, x, cy0, r, cy);
      i := i + 1;
    }
    assert a[..n] == a;
  }

  /** The body of the mpn_sub_n loop. */
  method SubLimbs(a: Limb, b: Limb, cy: Limb) returns (r: Limb, cy': Limb)
    requires cy <= 1
    ensures a - b - cy == r - B * cy' && cy' <= 1
  {
    var b' := (b + cy) % B;
    cy' := Bool(b' < cy);
    cy' := cy' + Bool(a < b');
    r := (a - b') % B;
  }

  /** mpn_sub_n */
  method SubN(rp: array<Limb>, ro: nat, ap: array<Limb>, ao: nat, bp: array<Limb>, bo: nat, n: nat)
    returns (cy: Limb)
    requires ro + n <= rp.Length && ao + n <= ap.Length && bo + n <= bp.Length
    requires Streams(rp, ro, ap, ao, n) && Streams(rp, ro, bp, bo, n)
    modifies rp
    ensures Val(rp[ro..ro + n]) - Shift(cy, n) == old(Val(ap[ao..ao + n])) - old(Val(bp[bo..bo + n]))
    ensures cy <= 1
    ensures Kept(rp, ro, ro + n)
  {
    hide Val, Shift;
    EmptyValues();
    ghost var a, b := ap[ao..ao + n], bp[bo..bo + n];
    cy := 0;
    var i := 0;
    while i < n
      invariant 0 <= i <= n && cy <= 1
      invariant Val(rp[ro..ro + i]) - Shift(cy, i) == Val(a[..i]) - Val(b[..i])
      invariant forall j :: i <= j < n ==> ap[ao + j] == a[j]
      invariant forall j :: i <= j < n ==> bp[bo + j] == b[j]
      invariant Kept(rp, ro, ro + n)
    {
      ghost var cy0 := cy;
      var r;
      r, cy := SubLimbs(ap[ao + i], bp[bo + i], cy);
      ghost var before := rp[ro..ro + i];
      rp[ro + i] := r;
      assert rp[ro..ro + i + 1] == before + [r];
      SubChain(before, a, b, i, cy0, r, cy);
      i := i + 1;
    }
    assert a[..n] == a && b[..n] == b;
  }

  /** A carry out of the low limbs goes into the high ones. */
  lemma CarryJoin(low: seq<Limb>, high: seq<Limb>, a: seq<Limb>, n: nat, m: nat, b: int, c: int, c': int)
    requires |low| == n && |high| == m && |a| == n + m
    requires Val(low) + Shift(c, n) == Val(a[..n]) + b
    requires Val(high) + Shift(c', m) == Val(a[n..]) + c
    ensures Val(low + high) + Shift(c', n + m) == Val(a) + b
  {
    var h: int, k: int := Val(high), Val(a[n..]);
    ValAppend(low, high);
    ValSplit(a, n);
    ShiftAdd(h, Shift(c', m), n);
    ShiftAdd(k, c, n);
    ShiftShift(c', m, n);
    assert Shift(h + Shift(c', m), n) == Shift(k + c, n);
  }

  lemma BorrowJoin(low: seq<Limb>, high: seq<Limb>, a: seq<Limb>, n: nat, m: nat, b: int, c: int, c': int)
    requires |low| == n && |high| == m && |a| == n + m
    requires Val(low) - Shift(c, n) == Val(a[..n]) - b
    requires Val(high) - Shift(c', m) == Val(a[n..]) - c
    ensures Val(low + high) - Shift(c', n + m) == Val(a) - b
  {
    var h: int, k: int := Val(high), Val(a[n..]);
    ValAppend(low, high);
    ValSplit(a, n);
    ShiftAdd(h, Shift(c', m), n);
    ShiftAdd(k, c, n);
    ShiftShift(c', m, n);
    assert Shift(h - Shift(c', m), n) == Shift(k - c, n);
  }

  lemma SliceJoin(s: seq<Limb>, lo: nat, n: nat, m: nat)
    requires n <= m && lo + m <= |s|
    ensures s[lo..lo + m] == s[lo..lo + n] + s[lo + n..lo + m]
  {
  }

  /** mpn_add: operands of different lengths. */
  method Add(rp: array<Limb>, ro: nat, ap: array<Limb>, ao: nat, an: nat, bp: array<Limb>, bo: nat, bn: nat)
    returns (cy: Limb)
    requires an >= bn && ro + an <= rp.Length && ao + an <= ap.Length && bo + bn <= bp.Length
    requires rp == ap ==> ro == ao
    requires rp == bp ==> ro == bo
    modifies rp
    ensures Val(rp[ro..ro + an]) + Shift(cy, an) == old(Val(ap[ao..ao + an])) + old(Val(bp[bo..bo + bn]))
    ensures cy <= 1
    ensures Kept(rp, ro, ro + an)
  {
    hide Val, Shift;
    ghost var a := ap[ao..ao + an];
    assert a[..bn] == ap[ao..ao + bn];
    cy := AddN(rp, ro, ap, ao, bp, bo, bn);
    ghost var low, c := rp[ro..ro + bn], cy;
    if an > bn {
      assert ap[ao + bn..ao + an] == a[bn..];
      cy := Add1(rp, ro + bn, ap, ao + bn, an - bn, cy);
      ghost var high := rp[ro + bn..ro + an];
      assert rp[ro..ro + bn] == low;
      SliceJoin(rp[..], ro, bn, an);
      CarryJoin(low, high, a, bn, an - bn, old(Val(bp[bo..bo + bn])), c, cy);
    } else {
      assert a[..bn] == a;
    }
  }

  /** mpn_sub: operands of different lengths. */
  method Sub(rp: array<Limb>, ro: nat, ap: array<Limb>, ao: nat, an: nat, bp: array<Limb>, bo: nat, bn: nat)
    returns (cy: Limb)
    requires an >= bn && ro + an <= rp.Length && ao + an <= ap.Length && bo + bn <= bp.Length
    requires rp == ap ==> ro == ao
    requires rp == bp ==> ro == bo
    modifies rp
    ensures Val(rp[ro..ro + an]) - Shift(cy, an) == old(Val(ap[ao..ao + an])) - old(Val(bp[bo..bo + bn]))
    ensures cy <= 1
    ensures Kept(rp, ro, ro + an)
  {
    hide Val, Shift;
    ghost var a := ap[ao..ao + an];
    assert a[..bn] == ap[ao..ao + bn];
    cy := SubN(rp, ro, ap, ao, bp, bo, bn);
    ghost var low, c := rp[ro..ro + bn], cy;
    if an > bn {
      assert ap[ao + bn..ao + an] == a[bn..];
      cy := Sub1(rp, ro + bn, ap, ao + bn, an - bn, cy);
      ghost var high := rp[ro + bn..ro + an];
      assert rp[ro..ro + bn] == low;
      SliceJoin(rp[..], ro, bn, an);
      BorrowJoin(low, high, a, bn, an - bn, old(Val(bp[bo..bo + bn])), c, cy);
    } else {
      assert a[..bn] == a;
    }
  }

  // -------------------------------------------------------------- multiplication

  lemma HalfProducts(ul: nat, uh: nat, vl: nat, vh: nat)
    requires ul < HALF && uh < HALF && vl < HALF && vh < HALF
    ensures (uh * HALF + ul) * (vh * HALF + vl) == uh * vh * B + (ul * vh + uh * vl) * HALF + ul * vl
    ensures ul * vl <= (HALF - 1) * (HALF - 1) && ul * vh <= (HALF - 1) * (HALF - 1)
    ensures uh * vl <= (HALF - 1) * (HALF - 1) && uh * vh <= (HALF - 1) * (HALF - 1)
    ensures 0 <= ul * vl && 0 <= ul * vh && 0 <= uh * vl && 0 <= uh * vh
  {
    ProductBound(ul, vl);
    ProductBound(ul, vh);
    ProductBound(uh, vl);
    ProductBound(uh, vh);
    assert (uh * HALF + ul) * (vh * HALF + vl)
        == uh * (vh * HALF) * HALF + uh * vl * HALF + ul * (vh * HALF) + ul * vl;
  }

  lemma ProductBound(x: nat, y: nat)
    requires x < HALF && y < HALF
    ensures 0 <= x * y <= (HALF - 1) * (HALF - 1)
  {
    MulNonNeg(x, y);
    MulMono(x, HALF - 1, y);
    MulMono(y, HALF - 1, HALF - 1);
  }

  lemma LimbProductBound(x: Limb, y: Limb)
    ensures 0 <= x * y <= (B - 1) * (B - 1)
  {
    MulNonNeg(x, y);
    MulMono(x, B - 1, y);
    MulMono(y, B - 1, B - 1);
  }

  /** gmp_umul_ppmm: the two-limb product of two limbs, from four half-limb products. */
  method UmulPpmm(u: Limb, v: Limb) returns (w1: Limb, w0: Limb)
    ensures w1 * B + w0 == u * v
  {
    var ul, uh := u % HALF, u / HALF;
    var vl, vh := v % HALF, v / HALF;
    HalfProducts(ul, uh, vl, vh);
    LimbProductBound(u, v);
    w1, w0 := JoinProducts(ul * vl, ul * vh, uh * vl, uh * vh, u * v);
  }

  /** The second half of gmp_umul_ppmm: adding up the half-limb products. */
  method JoinProducts(p0: Limb, p1: Limb, p2: Limb, p3: Limb, ghost uv: int) returns (w1: Limb, w0: Limb)
    requires p1 <= 0xFFFE_0001 && p2 <= 0xFFFE_0001
    requires uv == p3 * B + (p1 + p2) * HALF + p0 && uv < B * B
    ensures w1 * B + w0 == uv
  {
    var x1, x3 := (p1 + p0 / HALF) % B, p3;
    assert x1 == p1 + p0 / HALF;
    ghost var t := x1 + p2;
    x1 := (x1 + p2) % B;
    ghost var c := if x1 < p2 then 1 else 0;
    assert t == x1 + c * B;
    ghost var h, l := x1 / HALF, x1 % HALF;
    assert uv == (p3 + c * HALF + h) * B + l * HALF + p0 % HALF;
    if x1 < p2 {
      x3 := (x3 + HALF) % B;
    }
    w1 := (x3 + x1 / HALF) % B;
    DivModUnique(x1 * HALF, B, h, l * HALF);
    w0 := (x1 * HALF % B + p0 % HALF) % B;
  }

  lemma MulPrefixNext(a: seq<Limb>, i: nat, v: int)
    requires i < |a|
    ensures Val(a[..i + 1]) * v == Val(a[..i]) * v + Shift(a[i] * v, i)
  {
    ValPrefixNext(a, i);
    ShiftTimes(v, a[i], i);
    assert (Val(a[..i]) + Shift(a[i], i)) * v == Val(a[..i]) * v + Shift(a[i], i) * v;
  }

  /** A limb product plus a carry still fits two limbs, with the low sum wrapped. */
  method MulLimbs(u: Limb, v: Limb, cl: Limb) returns (lpl: Limb, cl': Limb)
    ensures u * v + cl == lpl + B * cl'
  {
    var hpl;
    hpl, lpl := UmulPpmm(u, v);
    LimbProductBound(u, v);
    HighProduct(u * v, hpl, lpl);
    WrapSum(lpl, cl);
    lpl := (lpl + cl) % B;
    WrapSum(Bool(lpl < cl), hpl);
    cl' := (Bool(lpl < cl) + hpl) % B;
  }

  lemma HighProduct(x: int, h: Limb, l: Limb)
    requires x == h * B + l && x <= (B - 1) * (B - 1)
    ensures h <= B - 2
  {
  }

  /** mpn_mul_1 */
  method Mul1(rp: array<Limb>, ro: nat, up: array<Limb>, uo: nat, n: nat, vl: Limb) returns (cl: Limb)
    requires n >= 1 && ro + n <= rp.Length && uo + n <= up.Length && Streams(rp, ro, up, uo, n)
    modifies rp
    ensures Val(rp[ro..ro + n]) + Shift(cl, n) == old(Val(up[uo..uo + n])) * vl
    ensures Kept(rp, ro, ro + n)
  {
    hide Val, Shift;
    EmptyValues();
    ghost var a := up[uo..uo + n];
    cl := 0;
    var i := 0;
    while i < n
      invariant 0 <= i <= n
      invariant Val(rp[ro..ro + i]) + Shift(cl, i) == Val(a[..i]) * vl
      invariant forall j :: i <= j < n ==> up[uo + j] == a[j]
      invariant Kept(rp, ro, ro + n)
    {
      ghost var cl0 := cl;
      var lpl;
      lpl, cl := MulLimbs(up[uo + i], vl, cl);
      ghost var before := rp[ro..ro + i];
      rp[ro + i] := lpl;
      assert rp[ro..ro + i + 1] == before + [lpl];
      MulPrefixNext(a, i, vl);
      CarryStep(before, i, Val(a[..i]) * vl, a[i] * vl, cl0, lpl, cl);
      i := i + 1;
    }
    assert a[..n] == a;
  }

  lemma AddMulChain(R: seq<Limb>, a: seq<Limb>, r: seq<Limb>, i: nat, v: Limb, c: int, x: Limb, c': int)
    requires i == |R| && i < |a| == |r|
    requires Val(R) + Shift(c, i) == Val(r[..i]) + Val(a[..i]) * v
    requires r[i] + a[i] * v + c == x + B * c'
    ensures Val(R + [x]) + Shift(c', i + 1) == Val(r[..i + 1]) + Val(a[..i + 1]) * v
  {
    hide *;
    MulPrefixNext(a, i, v);
    ValPrefixNext(r, i);
    var y: int := r[i];
    var z := a[i] * v;
    ShiftAdd(y, z, i);
    CarryStep(R, i, Val(r[..i]) + Val(a[..i]) * v, y + z, c, x, c');
  }

  /** mpn_addmul_1: r += u * v, returning the limb carried out. */
  method AddMul1(rp: array<Limb>, ro: nat, up: array<Limb>, uo: nat, n: nat, vl: Limb) returns (cl: Limb)
    requires n >= 1 && ro + n <= rp.Length && uo + n <= up.Length && Streams(rp, ro, up, uo, n)
    modifies rp
    ensures Val(rp[ro..ro + n]) + Shift(cl, n) == old(Val(rp[ro..ro + n])) + old(Val(up[uo..uo + n])) * vl
    ensures Kept(rp, ro, ro + n)
  {
    hide Val, Shift;
    EmptyValues();
    ghost var a, r := up[uo..uo + n], rp[ro..ro + n];
    cl := 0;
    var i := 0;
    while i < n
      invariant 0 <= i <= n
      invariant Val(rp[ro..ro + i]) + Shift(cl, i) == Val(r[..i]) + Val(a[..i]) * vl
      invariant forall j :: i <= j < n ==> rp[ro + j] == r[j] && up[uo + j] == a[j]
      invariant Kept(rp, ro, ro + n)
    {
      ghost var cl0 := cl;
      var lpl;
      lpl, cl := MulLimbs(up[uo + i], vl, cl);
      var rl := rp[ro + i];
      LimbProductBound(up[uo + i], vl);
      lpl := (rl + lpl) % B;
      cl := cl + Bool(lpl < rl);
      ghost var before := rp[ro..ro + i];
      rp[ro + i] := lpl;
      assert rp[ro..ro + i + 1] == before + [lpl];
      AddMulChain(before, a, r, i, vl, cl0, lpl, cl);
      i := i + 1;
    }
    assert a[..n] == a && r[..n] == r;
  }

  lemma SubMulChain(R: seq<Limb>, a: seq<Limb>, r: seq<Limb>, i: nat, v: Limb, c: int, x: Limb, c': int)
    requires i == |R| && i < |a| == |r|
    requires Val(R) - Shift(c, i) == Val(r[..i]) - Val(a[..i]) * v
    requires r[i] - a[i] * v - c == x - B * c'
    ensures Val(R + [x]) - Shift(c', i + 1) == Val(r[..i + 1]) - Val(a[..i + 1]) * v
  {
    hide *;
    MulPrefixNext(a, i, v);
    ValPrefixNext(r, i);
    var y: int := r[i];
    var z := a[i] * v;
    ShiftAdd(y, z, i);
    BorrowStep(R, i, Val(r[..i]) - Val(a[..i]) * v, y - z, c, x, c');
  }

  /** mpn_submul_1: r -= u * v, returning the limb borrowed. */
  method SubMul1(rp: array<Limb>, ro: nat, up: array<Limb>, uo: nat, n: nat, vl: Limb) returns (cl: Limb)
    requires n >= 1 && ro + n <= rp.Length && uo + n <= up.Length && Streams(rp, ro, up, uo, n)
    modifies rp
    ensures Val(rp[ro..ro + n]) - Shift(cl, n) == old(Val(rp[ro..ro + n])) - old(Val(up[uo..uo + n])) * vl
    ensures Kept(rp, ro, ro + n)
  {
    hide Val, Shift;
    EmptyValues();
    ghost var a, r := up[uo..uo + n], rp[ro..ro + n];
    cl := 0;
    var i := 0;
    while i < n
      invariant 0 <= i <= n
      invariant Val(rp[ro..ro + i]) - Shift(cl, i) == Val(r[..i]) - Val(a[..i]) * vl
      invariant forall j :: i <= j < n ==> rp[ro + j] == r[j] && up[uo + j] == a[j]
      invariant Kept(rp, ro, ro + n)
    {
      ghost var cl0 := cl;
      var lpl;
      lpl, cl := MulLimbs(up[uo + i], vl, cl);
      var rl := rp[ro + i];
      LimbProductBound(up[uo + i], vl);
      lpl := (rl - lpl) % B;
      cl := cl + Bool(lpl > rl);
      ghost var before := rp[ro..ro + i];
      rp[ro + i] := lpl;
      assert rp[ro..ro + i + 1] == before + [lpl];
      SubMulChain(before, a, r, i, vl, cl0, lpl, cl);
      i := i + 1;
    }
    assert a[..n] == a && r[..n] == r;
  }

  /** One row of schoolbook multiplication: low limbs stay, a partial product is added above them. */
  lemma MulRow(low: seq<Limb>, mid: seq<Limb>, mid': seq<Limb>, cl: Limb, u: nat, v: seq<Limb>, j: nat)
    requires j < |v| && |low| == j && |mid| == |mid'|
    requires Val(low + mid) == u * Val(v[..j])
    requires Val(mid') + Shift(cl, |mid|) == Val(mid) + u * v[j]
    ensures Val(low + (mid' + [cl])) == u * Val(v[..j + 1])
  {
    hide *;
    var x: int, y: int, z: int := Val(mid), u * v[j], v[j];
    ValAppend(low, mid);
    ValAppend(low, mid' + [cl]);
    ValSnoc(mid', cl);
    assert Shift(Val(mid' + [cl]), j) == Shift(x + y, j);
    ShiftAdd(x, y, j);
    ShiftTimes(u, z, j);
    ValPrefixNext(v, j);
    assert u * (Val(v[..j]) + Shift(z, j)) == u * Val(v[..j]) + u * Shift(z, j);
  }

  /** mpn_mul: schoolbook multiplication into un + vn limbs. */
  method Mul(rp: array<Limb>, up: array<Limb>, un: nat, vp: array<Limb>, vn: nat) returns (top: Limb)
    requires un >= vn >= 1 && un + vn <= rp.Length && un <= up.Length && vn <= vp.Length
    requires rp != up && rp != vp
    modifies rp
    ensures Val(rp[..un + vn]) == Val(up[..un]) * Val(vp[..vn])
    ensures top == rp[un + vn - 1]
    ensures Kept(rp, 0, un + vn)
  {
    hide Val, Shift;
    ghost var u, v := up[..un], vp[..vn];
    assert up[0..0 + un] == u;
    var cl := Mul1(rp, 0, up, 0, un, vp[0]);
    ghost var first := rp[0..0 + un];
    rp[un] := cl;
    assert rp[..un + 1] == first + [cl];
    ValSnoc(first, cl);
    assert v[..1] == [v[0]];
    ValSingle(v[0]);
    var j := 1;
    while j < vn
      invariant 1 <= j <= vn
      invariant Val(rp[..un + j]) == Val(u) * Val(v[..j])
      invariant Kept(rp, 0, un + vn)
    {
      ghost var low, mid := rp[..j], rp[j..j + un];
      assert rp[..un + j] == low + mid;
      assert up[0..0 + un] == u;
      cl := AddMul1(rp, j, up, 0, un, vp[j]);
      ghost var mid' := rp[j..j + un];
      rp[un + j] := cl;
      assert rp[..un + j + 1] == low + (mid' + [cl]);
      MulRow(low, mid, mid', cl, Val(u), v, j);
      j := j + 1;
    }
    assert v[..vn] == v;
    return rp[un + vn - 1];
  }

  // ---------------------------------------------------------------------- shifts

  /** mpn_lshift: shift left by 1..31 bits; the bits shifted out are returned. */
  method LShift(rp: array<Limb>, ro: nat, up: array<Limb>, uo: nat, n: nat, cnt: nat) returns (retval: Limb)
    requires n >= 1 && 1 <= cnt < LIMB_BITS
    requires ro + n <= rp.Length && uo + n <= up.Length && StreamsDown(rp, ro, up, uo, n)
    modifies rp
    ensures Val(rp[ro..ro + n]) + Shift(retval, n) == old(Val(up[uo..uo + n])) * Pow2(cnt)
    ensures retval < Pow2(cnt)
    ensures Kept(rp, ro, ro + n)
  {
    hide Val, Shift, Shl, Shr, LimbOr;
    ghost var a := up[uo..uo + n];
    var tnc := LIMB_BITS - cnt;
    var i := n - 1;
    var low := up[uo + i];
    retval := Shr(low, tnc);
    ShlShr(low, cnt);
    var high := Shl(low, cnt);
    ghost var done: seq<Limb> := [];
    LShiftStart(a, cnt);
    while i > 0
      invariant 0 <= i < n
      invariant high == Shl(a[i], cnt)
      invariant done == rp[ro + i + 1..ro + n]
      invariant Val([high] + done) + Shift(retval, n - i) == Val(a[i..]) * Pow2(cnt)
      invariant forall j :: 0 <= j < i ==> up[uo + j] == a[j]
      invariant Kept(rp, ro, ro + n)
    {
      i := i - 1;
      low := up[uo + i];
      LShiftStep(a, i, cnt, done, retval, n);
      rp[ro + i + 1] := LimbOr(high, Shr(low, tnc));
      done := [LimbOr(high, Shr(low, tnc))] + done;
      high := Shl(low, cnt);
      assert done == rp[ro + i + 1..ro + n];
    }
    rp[ro] := high;
    assert rp[ro..ro + n] == [high] + done;
    assert a[0..] == a;
  }

  lemma LShiftStart(a: seq<Limb>, cnt: nat)
    requires |a| > 0 && 1 <= cnt < LIMB_BITS
    ensures var x := a[|a| - 1];
      Val([Shl(x, cnt)] + []) + Shift(Shr(x, LIMB_BITS - cnt), 1) == Val(a[|a| - 1..]) * Pow2(cnt)
  {
    var x := a[|a| - 1];
    ShlShr(x, cnt);
    assert a[|a| - 1..] == [x];
    ValSingle(x);
    assert [Shl(x, cnt)] + [] == [Shl(x, cnt)];
    ValSingle(Shl(x, cnt));
  }

  lemma LShiftStep(a: seq<Limb>, i: nat, cnt: nat, done: seq<Limb>, retval: Limb, n: nat)
    requires i + 1 < |a| == n && 1 <= cnt < LIMB_BITS
    requires Val([Shl(a[i + 1], cnt)] + done) + Shift(retval, n - (i + 1)) == Val(a[i + 1..]) * Pow2(cnt)
    ensures var high, low := Shl(a[i + 1], cnt), a[i];
      var mid := LimbOr(high, Shr(low, LIMB_BITS - cnt));
      Val([Shl(low, cnt)] + ([mid] + done)) + Shift(retval, n - i) == Val(a[i..]) * Pow2(cnt)
  {
    hide Val, Shift, Pow2, Shl, Shr, LimbOr;
    var high, low := Shl(a[i + 1], cnt), a[i];
    var s := Shr(low, LIMB_BITS - cnt);
    ShlShr(low, cnt);
    ShlShr(a[i + 1], cnt);
    LimbOrDisjoint(high, s, cnt);
    var mid := LimbOr(high, s);
    ValCons(high, done);
    ValCons(mid, done);
    ValCons(Shl(low, cnt), [mid] + done);
    assert a[i..] == [low] + a[i + 1..];
    ValCons(low, a[i + 1..]);
    MulOut(low, Val(a[i + 1..]), Pow2(cnt));
    ShiftUnfold(retval, n - i);
  }

  lemma MulOut(x: int, v: int, p: int)
    ensures (x + B * v) * p == x * p + B * (v * p)
  {
    assert B * v * p == B * (v * p);
  }

  lemma ShiftUnfold(x: int, n: nat)
    requires n > 0
    ensures Shift(x, n) == B * Shift(x, n - 1)
  {
  }

  lemma ValCons(x: Limb, s: seq<Limb>)
    ensures Val([x] + s) == x + B * Val(s)
  {
    assert ([x] + s)[1..] == s;
  }

  /** mpn_rshift: shift right by 1..31 bits; the bits shifted out are returned at the top of a limb. */
  method RShift(rp: array<Limb>, ro: nat, up: array<Limb>, uo: nat, n: nat, cnt: nat) returns (retval: Limb)
    requires n >= 1 && 1 <= cnt < LIMB_BITS
    requires ro + n <= rp.Length && uo + n <= up.Length && Streams(rp, ro, up, uo, n)
    modifies rp
    ensures Val(rp[ro..ro + n]) == old(Val(up[uo..uo + n])) / Pow2(cnt)
    ensures retval == old(Val(up[uo..uo + n])) % Pow2(cnt) * Pow2(LIMB_BITS - cnt)
    ensures Kept(rp, ro, ro + n)
  {
    hide Val, Shift, Shl, Shr, LimbOr;
    EmptyValues();
    ghost var a := up[uo..uo + n];
    var tnc := LIMB_BITS - cnt;
    var high := up[uo];
    retval := Shl(high, tnc);
    var low := Shr(high, cnt);
    RShiftStart(a, cnt);
    var i := 1;
    ghost var done: seq<Limb> := [];
    while i < n
      invariant 1 <= i <= n
      invariant low == Shr(a[i - 1], cnt)
      invariant done == rp[ro..ro + i - 1]
      invariant B * Val(done + [low]) + retval == Val(a[..i]) * Pow2(tnc)
      invariant forall j :: i <= j < n ==> up[uo + j] == a[j]
      invariant Kept(rp, ro, ro + n)
    {
      high := up[uo + i];
      RShiftStep(a, i, cnt, done, retval);
      rp[ro + i - 1] := LimbOr(low, Shl(high, tnc));
      done := done + [LimbOr(low, Shl(high, tnc))];
      low := Shr(high, cnt);
      assert done == rp[ro..ro + i];
      i := i + 1;
    }
    rp[ro + n - 1] := low;
    assert rp[ro..ro + n] == done + [low];
    assert a[..n] == a;
    RShiftEnd(Val(rp[ro..ro + n]), retval, Val(a), cnt, a[0]);
  }

  lemma RShiftStart(a: seq<Limb>, cnt: nat)
    requires |a| > 0 && 1 <= cnt < LIMB_BITS
    ensures B * Val([] + [Shr(a[0], cnt)]) + Shl(a[0], LIMB_BITS - cnt) == Val(a[..1]) * Pow2(LIMB_BITS - cnt)
    ensures Shl(a[0], LIMB_BITS - cnt) % Pow2(LIMB_BITS - cnt) == 0
  {
    assert a[..1] == [a[0]];
    ValSingle(a[0]);
    ShlShr(a[0], LIMB_BITS - cnt);
    assert [] + [Shr(a[0], cnt)] == [Shr(a[0], cnt)];
    ValSingle(Shr(a[0], cnt));
  }

  lemma RShiftStep(a: seq<Limb>, i: nat, cnt: nat, done: seq<Limb>, retval: Limb)
    requires 1 <= i < |a| && 1 <= cnt < LIMB_BITS && |done| == i - 1
    requires B * Val(done + [Shr(a[i - 1], cnt)]) + retval == Val(a[..i]) * Pow2(LIMB_BITS - cnt)
    ensures var low, high := Shr(a[i - 1], cnt), a[i];
      var mid := LimbOr(low, Shl(high, LIMB_BITS - cnt));
      B * Val(done + [mid] + [Shr(high, cnt)]) + retval == Val(a[..i + 1]) * Pow2(LIMB_BITS - cnt)
  {
    hide Val, Shift, Pow2, Shl, Shr, LimbOr;
    var tnc := LIMB_BITS - cnt;
    var low, high := Shr(a[i - 1], cnt), a[i];
    var s := Shl(high, tnc);
    ShlShr(a[i - 1], tnc);
    ShlShr(high, tnc);
    LimbOrCommutes(low, s);
    LimbOrDisjoint(s, low, tnc);
    var mid := LimbOr(low, s);
    RShiftSum(done, low, s, mid, Shr(high, cnt), i);
    ValPrefixNext(a, i);
    var P: int, x: int, q: int, y: int := Pow2(tnc), high, Shr(high, cnt), s;
    ShiftTimes(P, x, i);
    assert P * x == y + B * q;
    Distribute(Val(a[..i]), Shift(x, i), P);
  }

  lemma LimbOrCommutes(x: Limb, y: Limb)
    ensures LimbOr(x, y) == LimbOr(y, x)
  {
    OrCommutes(x, y);
  }

  lemma RShiftSum(done: seq<Limb>, low: Limb, s: Limb, mid: Limb, q: Limb, i: nat)
    requires |done| == i - 1 && mid == low + s
    ensures B * Val(done + [mid] + [q]) == B * Val(done + [low]) + Shift(s + B * q, i)
  {
    ValSnoc(done, low);
    ValSnoc(done, mid);
    ValSnoc(done + [mid], q);
    var l: int, t: int, k: int := low, s, q;
    ShiftAdd(l, t, i - 1);
    ShiftAdd(t, B * k, i);
    ShiftNext(k, i);
  }

  /** r*B + ret == a * 2^(32-cnt) says that r and ret are a's quotient and remainder by 2^cnt. */
  lemma RShiftEnd(r: nat, ret: Limb, a: nat, cnt: nat, x: Limb)
    requires 1 <= cnt < LIMB_BITS
    requires B * r + ret == a * Pow2(LIMB_BITS - cnt)
    requires ret == Shl(x, LIMB_BITS - cnt)
    ensures r == a / Pow2(cnt) && ret == a % Pow2(cnt) * Pow2(LIMB_BITS - cnt)
  {
    hide Val, Shift, Pow2, Shl, Shr, LimbOr;
    var P, Q := Pow2(cnt), Pow2(LIMB_BITS - cnt);
    Pow2Of32();
    Pow2Add(cnt, LIMB_BITS - cnt);
    ShlShr(x, LIMB_BITS - cnt);
    var t := ret / Q;
    DivModFacts(ret, Q);
    RegroupProduct(r, P, t, Q, a);
    MulCancel(r * P + t, a, Q);
    assert t < P by {
      if t >= P { MulMono(P, t, Q); }
    }
    DivModUnique(a, P, r, t);
  }

  lemma RegroupProduct(r: int, P: int, t: int, Q: int, a: int)
    requires r * (P * Q) + t * Q == a * Q
    ensures (r * P + t) * Q == a * Q
  {
    assert r * (P * Q) == (r * P) * Q;
  }

  lemma MulCancel(x: int, y: int, k: nat)
    requires k > 0 && x * k == y * k
    ensures x == y
  {
    if x < y {
      MulStrict(x, y, k);
    } else if y < x {
      MulStrict(y, x, k);
    }
  }
}
