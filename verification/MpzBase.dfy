/** Signed integers as heap objects (mini-gmp.c, MPZ interface).

    An Mpz owns its limb array; no two of them share one.  Results may be written to
    one of the operands, as in the C code. */
module MpzBase {
  import opened Limbs
  import opened Bits
  import opened Mpn

  /** __mpz_struct: |size| limbs of d are in use and the sign of size is that of the number;
      the allocated length is d.Length. */
  class Mpz {
    var size: int
    var d: array<Limb>

    ghost predicate Valid()
      reads this, d
    {
      d.Length >= 1 && Abs(size) <= d.Length && (size != 0 ==> d[Abs(size) - 1] != 0)
    }

    ghost function Mag(): nat
      reads this, d
      requires Abs(size) <= d.Length
    {
      Val(d[..Abs(size)])
    }

    ghost function Value(): int
      reads this, d
      requires Abs(size) <= d.Length
    {
      Signed(Mag(), size < 0)
    }

    /** mpz_init */
    constructor Init()
      ensures Valid() && Value() == 0 && size == 0 && fresh(d)
    {
      size := 0;
      d := new Limb[1];
      new;
      EmptyValues();
    }

    /** mpz_init2 */
    constructor Init2(bits: nat)
      ensures Valid() && Value() == 0 && size == 0 && fresh(d)
      ensures d.Length == 1 + (if bits != 0 then bits - 1 else 0) / LIMB_BITS
    {
      size := 0;
      d := new Limb[1 + (if bits != 0 then bits - 1 else 0) / LIMB_BITS];
      new;
      EmptyValues();
    }

    /** The size determines the sign and the order of magnitude. */
    lemma SizeFacts()
      requires Valid()
      ensures size > 0 <==> Value() > 0
      ensures size < 0 <==> Value() < 0
      ensures size == 0 <==> Value() == 0
      ensures Mag() == Abs(Value()) < PowB(Abs(size))
      ensures size != 0 ==> Mag() >= PowB(Abs(size) - 1)
    {
      hide Val, PowB;
      EmptyValues();
      ValBound(d[..Abs(size)]);
      if size != 0 {
        ValLower(d[..Abs(size)]);
      }
    }
  }

  /** Distinct numbers own distinct limb arrays. */
  predicate Separate(x: Mpz, y: Mpz)
    reads x, y
  {
    x != y ==> x.d != y.d
  }

  /** MPZ_REALLOC: make room for n limbs, keeping the number. */
  method Grow(r: Mpz, n: nat)
    requires Abs(r.size) <= r.d.Length && r.d.Length >= 1
    modifies r`d
    ensures r.d.Length >= n && r.d.Length >= old(r.d.Length)
    ensures r.d[..old(r.d.Length)] == old(r.d[..])
    ensures if n > old(r.d.Length) then fresh(r.d) else r.d == old(r.d)
  {
    if n > r.d.Length {
      var tp := new Limb[n];
      CopyI(tp, 0, r.d, 0, r.d.Length);
      assert tp[0..r.d.Length] == tp[..r.d.Length] && r.d[0..r.d.Length] == r.d[..];
      r.d := tp;
    }
  }

  /** Keeping the value across Grow. */
  twostate lemma GrowKeeps(r: Mpz)
    requires old(r.Valid()) && r.size == old(r.size) && r.d.Length >= old(r.d.Length)
    requires r.d[..old(r.d.Length)] == old(r.d[..])
    ensures r.Valid() && r.Value() == old(r.Value()) && r.Mag() == old(r.Mag())
    ensures r.d[..Abs(r.size)] == old(r.d[..Abs(r.size)])
  {
    var n := Abs(r.size);
    assert r.d[..n] == r.d[..old(r.d.Length)][..n];
    assert old(r.d[..n]) == old(r.d[..])[..n];
    if r.size != 0 {
      assert r.d[n - 1] == r.d[..n][n - 1];
      assert old(r.d[n - 1]) == old(r.d[..n])[n - 1];
    }
  }

  // --------------------------------------------------------------- assignment, signs

  /** mpz_set_ui */
  method SetUi(r: Mpz, x: Limb)
    requires r.d.Length >= 1
    modifies r, r.d
    ensures r.Valid() && r.Value() == x && r.d == old(r.d)
  {
    if x > 0 {
      r.size := 1;
      r.d[0] := x;
      assert r.d[..1] == [x];
      ValSingle(x);
    } else {
      r.size := 0;
      EmptyValues();
    }
  }

  /** mpz_set_si, for the 32-bit long of the target */
  method SetSi(r: Mpz, x: int)
    requires r.d.Length >= 1 && -HIGHBIT <= x < HIGHBIT
    modifies r, r.d
    ensures r.Valid() && r.Value() == x && r.d == old(r.d)
  {
    if x >= 0 {
      SetUi(r, x);
    } else {
      r.size := -1;
      r.d[0] := -x;
      assert r.d[..1] == [-x];
      ValSingle(-x);
    }
  }

  /** mpz_set */
  method Set(r: Mpz, x: Mpz)
    requires r.Valid() && x.Valid() && Separate(r, x)
    modifies r, r.d
    ensures r.Valid() && r.Value() == old(x.Value()) && r.size == old(x.size)
    ensures r.d == old(r.d) || fresh(r.d)
  {
    if r != x {
      var n := Abs(x.size);
      Grow(r, n);
      CopyI(r.d, 0, x.d, 0, n);
      r.size := x.size;
      assert r.d[0..n] == r.d[..n] && x.d[0..n] == x.d[..n];
      if n > 0 {
        assert r.d[n - 1] == r.d[..n][n - 1] == x.d[..n][n - 1];
      }
    }
  }

  /** mpz_swap */
  method Swap(u: Mpz, v: Mpz)
    modifies u`size, u`d, v`size, v`d
    ensures u.size == old(v.size) && u.d == old(v.d)
    ensures v.size == old(u.size) && v.d == old(u.d)
  {
    u.size, v.size := v.size, u.size;
    u.d, v.d := v.d, u.d;
  }

  /** mpz_neg */
  method Neg(r: Mpz, u: Mpz)
    requires r.Valid() && u.Valid() && Separate(r, u)
    modifies r, r.d
    ensures r.Valid() && r.Value() == -old(u.Value())
    ensures r.d == old(r.d) || fresh(r.d)
  {
    u.SizeFacts();
    Set(r, u);
    r.size := -r.size;
    EmptyValues();
  }

  /** mpz_abs */
  method AbsTo(r: Mpz, u: Mpz)
    requires r.Valid() && u.Valid() && Separate(r, u)
    modifies r, r.d
    ensures r.Valid() && r.Value() == Abs(old(u.Value())) && r.size == Abs(old(u.size))
    ensures r.d == old(r.d) || fresh(r.d)
  {
    u.SizeFacts();
    Set(r, u);
    r.size := Abs(r.size);
  }

  // ------------------------------------------------------------------- comparisons

  /** mpz_sgn */
  function Sgn(u: Mpz): int
    reads u
  {
    Sign(u.size)
  }

  /** mpn_cmp4 on the magnitudes */
  method Cmp4(a: Mpz, b: Mpz) returns (c: int)
    requires a.Valid() && b.Valid()
    ensures c == Sign(a.Mag() - b.Mag())
  {
    var an, bn := Abs(a.size), Abs(b.size);
    a.SizeFacts();
    b.SizeFacts();
    if an != bn {
      if an < bn {
        PowBMono(an, bn - 1);
      } else {
        PowBMono(bn, an - 1);
      }
      return if an < bn then -1 else 1;
    } else {
      assert a.d[0..0 + an] == a.d[..an] && b.d[0..0 + an] == b.d[..an];
      c := Mpn.Cmp(a.d, 0, b.d, 0, an);
    }
  }

  /** mpz_cmp */
  method Cmp(a: Mpz, b: Mpz) returns (c: int)
    requires a.Valid() && b.Valid()
    ensures c == Sign(a.Value() - b.Value())
  {
    a.SizeFacts();
    b.SizeFacts();
    var n := Abs(a.size);
    if a.size != b.size {
      SizeOrder(a, b);
      return if a.size < b.size then -1 else 1;
    }
    assert a.d[0..0 + n] == a.d[..n] && b.d[0..0 + n] == b.d[..n];
    if a.size >= 0 {
      c := Mpn.Cmp(a.d, 0, b.d, 0, n);
    } else {
      c := Mpn.Cmp(b.d, 0, a.d, 0, n);
    }
  }

  lemma SizeOrder(a: Mpz, b: Mpz)
    requires a.Valid() && b.Valid() && a.size != b.size
    ensures a.size < b.size <==> a.Value() < b.Value()
    ensures a.Value() != b.Value()
  {
    hide Val, PowB;
    a.SizeFacts();
    b.SizeFacts();
    if a.size >= 0 && b.size >= 0 {
      if a.size < b.size { PowBMono(a.size, b.size - 1); } else { PowBMono(b.size, a.size - 1); }
    } else if a.size < 0 && b.size < 0 {
      if a.size < b.size { PowBMono(-b.size, -a.size - 1); } else { PowBMono(-a.size, -b.size - 1); }
    }
  }

  /** mpz_cmpabs_ui */
  method CmpAbsUi(u: Mpz, v: Limb) returns (c: int)
    requires u.Valid()
    ensures c == Sign(Abs(u.Value()) - v)
  {
    u.SizeFacts();
    var un := Abs(u.size);
    if un > 1 {
      PowBMono(1, un - 1);
      return 1;
    }
    var ul := if un == 1 then u.d[0] else 0;
    if un == 1 {
      assert u.d[..1] == [u.d[0]];
      ValSingle(u.d[0]);
    }
    return Bool(ul > v) - Bool(ul < v);
  }

  /** mpz_cmp_ui */
  method CmpUi(u: Mpz, v: Limb) returns (c: int)
    requires u.Valid()
    ensures c == Sign(u.Value() - v)
  {
    u.SizeFacts();
    if u.size > 1 {
      PowBMono(1, u.size - 1);
      return 1;
    } else if u.size < 0 {
      return -1;
    } else {
      var ul := if u.size > 0 then u.d[0] else 0;
      if u.size > 0 {
        assert u.d[..1] == [u.d[0]];
        ValSingle(u.d[0]);
      }
      return Bool(ul > v) - Bool(ul < v);
    }
  }

  // ------------------------------------------------------------ addition, subtraction

  /** The low n limbs of r are a normalised magnitude m; the size field is not yet set. */
  ghost predicate Holds(r: Mpz, n: nat, m: int)
    reads r, r.d
  {
    n <= r.d.Length && r.d.Length >= 1 && Normalized(r.d[..n]) && Val(r.d[..n]) == m
  }

  /** Storing the size turns the limbs into a number. */
  lemma Stored(r: Mpz, n: nat, m: nat)
    requires Abs(r.size) == n && Holds(r, n, m)
    ensures r.Valid() && r.Value() == Signed(m, r.size < 0)
  {
    if n > 0 {
      assert r.d[..n][n - 1] == r.d[n - 1];
    }
  }

  /** mpz_abs_add: the limbs of |a| + |b|; returns their number, which the caller stores. */
  method AbsAdd(r: Mpz, a: Mpz, b: Mpz) returns (rn: nat)
    requires r.Valid() && a.Valid() && b.Valid()
    requires Separate(r, a) && Separate(r, b) && Separate(a, b)
    modifies r`d, r.d
    ensures Holds(r, rn, old(a.Mag()) + old(b.Mag()))
    ensures r.d == old(r.d) || fresh(r.d)
  {
    hide Val, Shift, PowB;
    a.SizeFacts();
    b.SizeFacts();
    var x, y := a, b;
    if Abs(x.size) < Abs(y.size) {
      x, y := y, x;
    }
    rn := AbsAddOrdered(r, x, y);
  }

  /** mpz_abs_add after its operands have been ordered by size. */
  method AbsAddOrdered(r: Mpz, a: Mpz, b: Mpz) returns (rn: nat)
    requires r.Valid() && a.Valid() && b.Valid() && Abs(b.size) <= Abs(a.size)
    requires Separate(r, a) && Separate(r, b) && Separate(a, b)
    modifies r`d, r.d
    ensures Holds(r, rn, old(a.Mag()) + old(b.Mag()))
    ensures r.d == old(r.d) || fresh(r.d)
  {
    hide Val, Shift, PowB;
    a.SizeFacts();
    ghost var ma, mb := a.Mag(), b.Mag();
    var an, bn := Abs(a.size), Abs(b.size);
    Grow(r, an + 1);
    if r == a { GrowKeeps(r); }
    if r == b { GrowKeeps(r); }
    assert Val(a.d[..an]) == ma && Val(b.d[..bn]) == mb;
    rn := AddInto(r.d, a.d, an, b.d, bn);
  }

  /** The limbs of a sum and its carry, as mpz_abs_add leaves them. */
  method AddInto(rp: array<Limb>, ap: array<Limb>, an: nat, bp: array<Limb>, bn: nat) returns (rn: nat)
    requires bn <= an <= ap.Length && bn <= bp.Length && an < rp.Length
    requires an > 0 ==> Val(ap[..an]) >= PowB(an - 1)
    modifies rp
    ensures rn <= rp.Length && Normalized(rp[..rn])
    ensures Val(rp[..rn]) == old(Val(ap[..an])) + old(Val(bp[..bn]))
  {
    hide Val, Shift, PowB;
    assert ap[0..0 + an] == ap[..an] && bp[0..0 + bn] == bp[..bn];
    ghost var m := Val(ap[..an]) + Val(bp[..bn]);
    var cy := Mpn.Add(rp, 0, ap, 0, an, bp, 0, bn);
    ghost var low := rp[0..0 + an];
    rp[an] := cy;
    rn := an + cy;
    SumNormalized(low, cy, m);
    assert rp[..rn] == if cy == 0 then low else low + [cy];
  }

  lemma SumNormalized(low: seq<Limb>, cy: Limb, m: nat)
    requires cy <= 1 && Val(low) + Shift(cy, |low|) == m && (|low| > 0 ==> m >= PowB(|low| - 1))
    ensures cy == 0 ==> Normalized(low) && Val(low) == m
    ensures cy == 1 ==> Normalized(low + [cy]) && Val(low + [cy]) == m
  {
    hide Val, Shift, PowB;
    ShiftZero(|low|);
    ValSnoc(low, cy);
    if cy == 0 && |low| > 0 {
      TopLimbNonZero(low);
    }
  }

  /** mpz_abs_sub: the limbs of | |a| - |b| |; returns their number, negated if |a| < |b|. */
  method AbsSub(r: Mpz, a: Mpz, b: Mpz) returns (rn: int)
    requires r.Valid() && a.Valid() && b.Valid()
    requires Separate(r, a) && Separate(r, b) && Separate(a, b)
    modifies r`d, r.d
    ensures Holds(r, Abs(rn), Abs(old(a.Mag()) - old(b.Mag())))
    ensures rn > 0 ==> old(a.Mag()) > old(b.Mag())
    ensures rn < 0 ==> old(a.Mag()) < old(b.Mag())
    ensures rn == 0 ==> old(a.Mag()) == old(b.Mag())
    ensures r.d == old(r.d) || fresh(r.d)
  {
    hide Val, Shift, PowB;
    EmptyValues();
    var cmp := Cmp4(a, b);
    if cmp > 0 {
      rn := AbsSubOrdered(r, a, b);
    } else if cmp < 0 {
      rn := AbsSubOrdered(r, b, a);
      rn := -rn;
    } else {
      rn := 0;
      assert r.d[..0] == [];
    }
  }

  /** mpz_abs_sub once |a| > |b| is known. */
  method AbsSubOrdered(r: Mpz, a: Mpz, b: Mpz) returns (rn: nat)
    requires r.Valid() && a.Valid() && b.Valid() && a.Mag() > b.Mag()
    requires Separate(r, a) && Separate(r, b) && Separate(a, b)
    modifies r`d, r.d
    ensures Holds(r, rn, old(a.Mag()) - old(b.Mag())) && rn > 0
    ensures r.d == old(r.d) || fresh(r.d)
  {
    hide Val, Shift, PowB;
    EmptyValues();
    a.SizeFacts();
    b.SizeFacts();
    ghost var ma, mb := a.Mag(), b.Mag();
    var an, bn := Abs(a.size), Abs(b.size);
    if an < bn { PowBMono(an, bn - 1); }
    Grow(r, an);
    if r == a { GrowKeeps(r); }
    if r == b { GrowKeeps(r); }
    assert Val(a.d[..an]) == ma && Val(b.d[..bn]) == mb;
    rn := SubInto(r.d, a.d, an, b.d, bn);
  }

  /** The limbs of a difference that needs no borrow. */
  method SubInto(rp: array<Limb>, ap: array<Limb>, an: nat, bp: array<Limb>, bn: nat) returns (rn: nat)
    requires bn <= an <= ap.Length && bn <= bp.Length && an <= rp.Length
    requires Val(ap[..an]) > Val(bp[..bn])
    modifies rp
    ensures 0 < rn <= rp.Length && Normalized(rp[..rn])
    ensures Val(rp[..rn]) == old(Val(ap[..an])) - old(Val(bp[..bn]))
  {
    hide Val, Shift, PowB;
    EmptyValues();
    assert ap[0..0 + an] == ap[..an] && bp[0..0 + bn] == bp[..bn];
    ghost var m := Val(ap[..an]) - Val(bp[..bn]);
    var cy := Mpn.Sub(rp, 0, ap, 0, an, bp, 0, bn);
    assert rp[0..0 + an] == rp[..an];
    NoBorrow(rp[..an], cy, m);
    rn := NormalizedSize(rp, an);
  }

  lemma NoBorrow(s: seq<Limb>, cy: Limb, m: nat)
    requires Val(s) - Shift(cy, |s|) == m
    ensures cy == 0 && Val(s) == m
  {
    hide Val, Shift, PowB;
    ValBound(s);
    ShiftOne(|s|);
    ShiftZero(|s|);
    if cy >= 1 { ShiftMono(1, cy, |s|); }
  }

  /** mpz_add */
  method Add(r: Mpz, a: Mpz, b: Mpz)
    requires r.Valid() && a.Valid() && b.Valid()
    requires Separate(r, a) && Separate(r, b) && Separate(a, b)
    modifies r, r.d
    ensures r.Valid() && r.Value() == old(a.Value()) + old(b.Value())
    ensures r.d == old(r.d) || fresh(r.d)
  {
    hide Val;
    EmptyValues();
    a.SizeFacts();
    b.SizeFacts();
    var rn: int;
    if (a.size >= 0) == (b.size >= 0) {
      rn := AbsAdd(r, a, b);
    } else {
      rn := AbsSub(r, a, b);
    }
    ghost var m := Val(r.d[..Abs(rn)]);
    r.size := if a.size >= 0 then rn else -rn;
    Stored(r, Abs(rn), m);
  }

  /** mpz_sub */
  method Sub(r: Mpz, a: Mpz, b: Mpz)
    requires r.Valid() && a.Valid() && b.Valid()
    requires Separate(r, a) && Separate(r, b) && Separate(a, b)
    modifies r, r.d
    ensures r.Valid() && r.Value() == old(a.Value()) - old(b.Value())
    ensures r.d == old(r.d) || fresh(r.d)
  {
    hide Val;
    EmptyValues();
    a.SizeFacts();
    b.SizeFacts();
    var rn: int;
    if (a.size >= 0) == (b.size >= 0) {
      rn := AbsSub(r, a, b);
    } else {
      rn := AbsAdd(r, a, b);
    }
    ghost var m := Val(r.d[..Abs(rn)]);
    r.size := if a.size >= 0 then rn else -rn;
    Stored(r, Abs(rn), m);
  }

  /** mpz_abs_add_ui */
  method AbsAddUi(r: Mpz, a: Mpz, b: Limb) returns (rn: nat)
    requires r.Valid() && a.Valid() && Separate(r, a)
    modifies r`d, r.d
    ensures Holds(r, rn, old(a.Mag()) + b)
    ensures r.d == old(r.d) || fresh(r.d)
  {
    hide Val, Shift, PowB;
    EmptyValues();
    a.SizeFacts();
    ghost var m := a.Mag() + b;
    var an := Abs(a.size);
    if an == 0 {
      r.d[0] := b;
      assert r.d[..0] == [] && r.d[..1] == [b];
      ValSingle(b);
      return if b > 0 then 1 else 0;
    }
    Grow(r, an + 1);
    if r == a { GrowKeeps(r); }
    assert a.d[0..0 + an] == a.d[..an];
    var cy := Add1(r.d, 0, a.d, 0, an, b);
    ghost var low := r.d[0..0 + an];
    r.d[an] := cy;
    rn := an + cy;
    SumNormalized(low, cy, m);
    assert r.d[..rn] == if cy == 0 then low else low + [cy];
  }

  /** mpz_abs_sub_ui: -1 is returned (with one limb) when b exceeds |a|. */
  method AbsSubUi(r: Mpz, a: Mpz, b: Limb) returns (rn: int)
    requires r.Valid() && a.Valid() && Separate(r, a)
    modifies r`d, r.d
    ensures Holds(r, Abs(rn), Abs(old(a.Mag()) - b))
    ensures rn >= 0 ==> old(a.Mag()) >= b
    ensures rn < 0 ==> old(a.Mag()) < b
    ensures r.d == old(r.d) || fresh(r.d)
  {
    hide Val, Shift, PowB;
    EmptyValues();
    a.SizeFacts();
    ghost var ma := a.Mag();
    var an := Abs(a.size);
    Grow(r, an);
    if r == a { GrowKeeps(r); }
    if an == 0 {
      r.d[0] := b;
      assert r.d[..0] == [] && r.d[..1] == [b];
      ValSingle(b);
      return if b > 0 then -1 else 0;
    }
    if an == 1 {
      assert a.d[..1] == [a.d[0]];
      ValSingle(a.d[0]);
    } else {
      PowBMono(1, an - 1);
      PowB1();
    }
    if an == 1 && a.d[0] < b {
      r.d[0] := b - a.d[0];
      assert r.d[..1] == [r.d[0]];
      ValSingle(r.d[0]);
      return -1;
    }
    assert Val(a.d[..an]) == ma;
    rn := Sub1Into(r.d, a.d, an, b);
  }

  method Sub1Into(rp: array<Limb>, ap: array<Limb>, an: nat, b: Limb) returns (rn: nat)
    requires 0 < an <= ap.Length && an <= rp.Length && Val(ap[..an]) >= b
    modifies rp
    ensures rn <= rp.Length && Normalized(rp[..rn]) && Val(rp[..rn]) == old(Val(ap[..an])) - b
  {
    hide Val, Shift, PowB;
    ghost var m := Val(ap[..an]);
    assert ap[0..0 + an] == ap[..an];
    var cy := Sub1(rp, 0, ap, 0, an, b);
    assert rp[0..0 + an] == rp[..an];
    NoBorrow(rp[..an], cy, m - b);
    rn := NormalizedSize(rp, an);
  }

  lemma PowB1()
    ensures PowB(1) == B
  {
    assert PowB(0) == 1;
  }

  /** mpz_add_ui */
  method AddUi(r: Mpz, a: Mpz, b: Limb)
    requires r.Valid() && a.Valid() && Separate(r, a)
    modifies r, r.d
    ensures r.Valid() && r.Value() == old(a.Value()) + b
    ensures r.d == old(r.d) || fresh(r.d)
  {
    hide Val;
    EmptyValues();
    a.SizeFacts();
    var rn: int;
    if a.size >= 0 {
      rn := AbsAddUi(r, a, b);
    } else {
      rn := AbsSubUi(r, a, b);
      rn := -rn;
    }
    ghost var m := Val(r.d[..Abs(rn)]);
    r.size := rn;
    Stored(r, Abs(rn), m);
  }

  /** mpz_sub_ui */
  method SubUi(r: Mpz, a: Mpz, b: Limb)
    requires r.Valid() && a.Valid() && Separate(r, a)
    modifies r, r.d
    ensures r.Valid() && r.Value() == old(a.Value()) - b
    ensures r.d == old(r.d) || fresh(r.d)
  {
    hide Val;
    EmptyValues();
    a.SizeFacts();
    var rn: int;
    if a.size < 0 {
      rn := AbsAddUi(r, a, b);
      rn := -rn;
    } else {
      rn := AbsSubUi(r, a, b);
    }
    ghost var m := Val(r.d[..Abs(rn)]);
    r.size := rn;
    Stored(r, Abs(rn), m);
  }

  // ------------------------------------------------------------------ multiplication

  /** mpz_mul_ui */
  method MulUi(r: Mpz, u: Mpz, v: Limb)
    requires r.Valid() && u.Valid() && Separate(r, u)
    modifies r, r.d
    ensures r.Valid() && r.Value() == old(u.Value()) * v
    ensures r.d == old(r.d) || fresh(r.d)
  {
    hide Val, Shift, PowB;
    EmptyValues();
    u.SizeFacts();
    var us := u.size;
    if us == 0 || v == 0 {
      r.size := 0;
      assert r.d[..0] == [];
      return;
    }
    ghost var m := u.Mag();
    var un := Abs(us);
    Grow(r, un + 1);
    if r == u { GrowKeeps(r); }
    assert Val(u.d[..un]) == m;
    un := Mul1Into(r.d, u.d, un, v);
    r.size := Signed(un, us < 0);
    Stored(r, un, m * v);
    SignedProduct(m, v, us < 0);
  }

  /** The limbs of a product by one limb and its carry, as mpz_mul_ui leaves them. */
  method Mul1Into(rp: array<Limb>, up: array<Limb>, un: nat, v: Limb) returns (rn: nat)
    requires 0 < un <= up.Length && un < rp.Length && v > 0 && Val(up[..un]) >= PowB(un - 1)
    modifies rp
    ensures 0 < rn <= rp.Length && Normalized(rp[..rn]) && Val(rp[..rn]) == old(Val(up[..un])) * v
  {
    hide Val, Shift, PowB;
    ghost var m := Val(up[..un]);
    assert up[0..0 + un] == up[..un];
    var cy := Mul1(rp, 0, up, 0, un, v);
    ghost var low := rp[0..0 + un];
    rp[un] := cy;
    ProductNormalized(low, cy, m, v);
    rn := un + Bool(cy > 0);
    assert rp[..rn] == if cy == 0 then low else low + [cy];
  }

  lemma SignedProduct(m: nat, v: nat, neg: bool)
    ensures Signed(m, neg) * v == Signed(m * v, neg)
  {
  }

  lemma ProductNormalized(low: seq<Limb>, cy: Limb, m: nat, v: Limb)
    requires |low| > 0 && v > 0 && m >= PowB(|low| - 1) && Val(low) + Shift(cy, |low|) == m * v
    ensures cy == 0 ==> Normalized(low) && Val(low) == m * v
    ensures cy > 0 ==> Normalized(low + [cy]) && Val(low + [cy]) == m * v
  {
    hide Val, Shift, PowB;
    ShiftZero(|low|);
    ValSnoc(low, cy);
    MulMono(1, v, m);
    if cy == 0 {
      TopLimbNonZero(low);
    }
  }

  /** mpz_mul: the product is formed in a temporary and swapped in, so r may be u or v. */
  method MulTo(r: Mpz, u: Mpz, v: Mpz)
    requires r.Valid() && u.Valid() && v.Valid()
    modifies r
    ensures r.Valid() && r.Value() == old(u.Value()) * old(v.Value())
    ensures r.d == old(r.d) || fresh(r.d)
  {
    hide Val, Shift, PowB;
    EmptyValues();
    u.SizeFacts();
    v.SizeFacts();
    if u.size == 0 || v.size == 0 {
      r.size := 0;
      assert r.d[..0] == [];
      return;
    }
    var neg := (u.size < 0) != (v.size < 0);
    var un, vn := Abs(u.size), Abs(v.size);
    ghost var mu, mv := u.Mag(), v.Mag();
    ghost var nu, nv := u.size < 0, v.size < 0;
    var t := new Mpz.Init2((un + vn) * LIMB_BITS);
    var rn := MulInto(t.d, u.d, un, v.d, vn);
    t.size := Signed(rn, neg);
    Stored(t, rn, mu * mv);
    ProductSign(mu, mv, nu, nv);
    Swap(r, t);
  }

  /** The limbs of a product, longer operand first, as mpz_mul leaves them. */
  method MulInto(tp: array<Limb>, up: array<Limb>, un: nat, vp: array<Limb>, vn: nat) returns (rn: nat)
    requires 0 < un <= up.Length && 0 < vn <= vp.Length && un + vn <= tp.Length && tp != up && tp != vp
    requires Val(up[..un]) >= PowB(un - 1) && Val(vp[..vn]) >= PowB(vn - 1)
    modifies tp
    ensures 0 < rn <= tp.Length && Normalized(tp[..rn])
    ensures Val(tp[..rn]) == Val(up[..un]) * Val(vp[..vn])
  {
    hide Val, Shift, PowB;
    var top;
    if un >= vn {
      top := Mul(tp, up, un, vp, vn);
    } else {
      top := Mul(tp, vp, vn, up, un);
    }
    rn := un + vn;
    ghost var s := tp[..rn];
    ProductSize(s, un, vn, Val(up[..un]), Val(vp[..vn]));
    rn := rn - Bool(tp[rn - 1] == 0);
    assert tp[..rn] == s[..rn];
    assert s[..un + vn] == s;
  }

  lemma ProductSign(x: nat, y: nat, nx: bool, ny: bool)
    ensures Signed(x, nx) * Signed(y, ny) == Signed(x * y, nx != ny)
  {
  }

  lemma ProductSize(s: seq<Limb>, un: nat, vn: nat, mu: nat, mv: nat)
    requires un > 0 && vn > 0 && |s| == un + vn && Val(s) == mu * mv
    requires mu >= PowB(un - 1) && mv >= PowB(vn - 1)
    ensures s[|s| - 1] == 0 ==> Normalized(s[..|s| - 1]) && Val(s[..|s| - 1]) == mu * mv
    ensures s[|s| - 1] != 0 ==> Normalized(s)
  {
    hide Val, Shift, PowB;
    var n := |s| - 1;
    if s[n] == 0 {
      ValTrim(s, n);
      PowBAdd(un - 1, vn - 1);
      MulMono(PowB(un - 1), mu, PowB(vn - 1));
      MulMono(PowB(vn - 1), mv, mu);
      TopLimbNonZero(s[..n]);
    }
  }
}
