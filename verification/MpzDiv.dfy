/** Division of signed integers with the three rounding modes, and shifts by bit counts
    (mini-gmp.c, MPZ division). */
module MpzDiv {
  import opened Limbs
  import opened Bits
  import opened MpzBase
  import Mpn
  import MpnDiv

  datatype Rounding = Floor | Ceil | Trunc

  /** q and r are the quotient and remainder of n by d in the given mode. */
  predicate Divides(mode: Rounding, n: int, d: int, q: int, r: int) {
    n == q * d + r && Abs(r) < Abs(d) &&
    match mode
    case Floor => r == 0 || (r > 0) == (d > 0)
    case Ceil => r == 0 || (r > 0) == (d < 0)
    case Trunc => r == 0 || (r > 0) == (n > 0)
  }

  /** The mode determines quotient and remainder. */
  lemma DividesUnique(mode: Rounding, n: int, d: int, q: int, r: int, q': int, r': int)
    requires Divides(mode, n, d, q, r) && Divides(mode, n, d, q', r')
    ensures q == q' && r == r'
  {
    assert (q - q') * d == r' - r;
    if q != q' {
      assert Abs(r' - r) < Abs(d) by { if mode.Trunc? && n == 0 { TruncZero(d, q, r); TruncZero(d, q', r'); } }
      ProductAtLeast(q - q', d);
    }
  }

  lemma TruncZero(d: int, q: int, r: int)
    requires Divides(Trunc, 0, d, q, r)
    ensures r <= 0
  {
  }

  lemma ProductAtLeast(k: int, d: int)
    requires k != 0
    ensures Abs(k * d) >= Abs(d)
  {
    if k > 0 {
      MulMono(1, k, Abs(d));
    } else {
      MulMono(1, -k, Abs(d));
    }
    assert k * d == -((-k) * d) && k * d == -(k * (-d)) && k * d == (-k) * (-d);
  }

  // -------------------------------------------------- signs of the truncated division

  /** Dividing magnitudes and attaching signs truncates. */
  lemma TruncatedSigns(mn: nat, md: nat, nn: bool, nd: bool)
    requires md > 0
    ensures Divides(Trunc, Signed(mn, nn), Signed(md, nd), Signed(Quo(mn, md), nn != nd), Signed(Rem(mn, md), nn))
  {
    DivModFacts(mn, md);
    ProductSign(Quo(mn, md), md, nn != nd, nd);
  }

  lemma FloorAdjust(n: int, d: int, q: int, r: int)
    requires Divides(Trunc, n, d, q, r) && (n < 0) != (d < 0) && r != 0
    ensures Divides(Floor, n, d, q - 1, r + d) && r + d != 0
  {
    assert (q - 1) * d == q * d - d;
  }

  lemma CeilAdjust(n: int, d: int, q: int, r: int)
    requires Divides(Trunc, n, d, q, r) && (n < 0) == (d < 0) && r != 0
    ensures Divides(Ceil, n, d, q + 1, r - d) && r - d != 0
  {
    assert (q + 1) * d == q * d + d;
  }

  lemma NoAdjust(mode: Rounding, n: int, d: int, q: int, r: int)
    requires Divides(Trunc, n, d, q, r)
    requires mode.Floor? ==> (n < 0) == (d < 0) || r == 0
    requires mode.Ceil? ==> (n < 0) != (d < 0) || r == 0
    ensures Divides(mode, n, d, q, r)
  {
  }

  /** A numerator with fewer limbs than the divisor. */
  lemma SmallNumerator(mode: Rounding, n: int, d: int)
    requires n != 0 && Abs(n) < Abs(d)
    ensures var (q, r) := SmallQuotient(mode, n, d); Divides(mode, n, d, q, r) && r != 0
  {
  }

  function SmallQuotient(mode: Rounding, n: int, d: int): (int, int) {
    if mode.Ceil? && (n < 0) == (d < 0) then (1, n - d)
    else if mode.Floor? && (n < 0) != (d < 0) then (-1, n + d)
    else (0, n)
  }

  lemma QuotientSize(s: seq<Limb>, n: nat, d: nat, nn: nat, dn: nat)
    requires 0 < dn <= nn && |s| == nn - dn + 1
    requires n >= PowB(nn - 1) && 0 < d < PowB(dn) && Val(s) == n / d
    ensures s[|s| - 1] == 0 ==> Normalized(s[..|s| - 1]) && Val(s[..|s| - 1]) == n / d
    ensures s[|s| - 1] != 0 ==> Normalized(s)
  {
    hide Val, PowB;
    if s[|s| - 1] == 0 {
      var k := |s| - 1;
      ValTrim(s, k);
      if k > 0 {
        PowBAdd(k - 1, dn);
        MulMono(d, PowB(dn), PowB(k - 1));
        DivAtLeast(n, d, PowB(k - 1));
        TopLimbNonZero(s[..k]);
      }
    }
  }

  // ----------------------------------------------------------------------- mpz_div_qr

  /** The frame of an output that may be absent. */
  function Footprint(x: Mpz?): set<object>
    reads x
  {
    if x == null then {} else var y: Mpz := x; {y, y.d}
  }

  ghost predicate Output(x: Mpz?, n: Mpz, d: Mpz)
    reads x, n, d, if x == null then {} else {x.d}
  {
    x != null ==> x.Valid() && Separate(x, n) && Separate(x, d)
  }

  ghost predicate Apart(x: Mpz?, y: Mpz?)
    reads x, y
  {
    x != null && y != null ==> x != y && x.d != y.d
  }

  /** mpz_div_qr: quotient and remainder, each optional, in any rounding mode; the result
      tells whether the truncated remainder is nonzero.  Outputs may be the operands.  False where
      the C code stops the program. */
  method DivQr(q: Mpz?, r: Mpz?, n: Mpz, d: Mpz, mode: Rounding)
    returns (ok: bool, inexact: bool, ghost Q: int, ghost R: int)
    requires n.Valid() && d.Valid() && Separate(n, d)
    requires Output(q, n, d) && Output(r, n, d) && Apart(q, r)
    modifies Footprint(q), Footprint(r)
    ensures ok <==> old(d.Value()) != 0
    ensures ok ==> Divides(mode, old(n.Value()), old(d.Value()), Q, R) && inexact == (R != 0)
    ensures q != null ==> q.Valid() && (ok ==> q.Value() == Q) && (q.d == old(q.d) || fresh(q.d))
    ensures r != null ==> r.Valid() && (ok ==> r.Value() == R) && (r.d == old(r.d) || fresh(r.d))
    ensures Apart(q, r)
  {
    hide Divides, Mpz.Value, Mpz.Mag;
    SizeOfZero(d);
    ok := d.size != 0;
    inexact, Q, R := false, 0, 0;
    if ok {
      inexact, Q, R := DivNonZero(q, r, n, d, mode);
    }
  }

  lemma SizeOfZero(x: Mpz)
    requires x.Valid()
    ensures x.size == 0 <==> x.Value() == 0
  {
    x.SizeFacts();
  }

  /** The division by a nonzero number */
  method DivNonZero(q: Mpz?, r: Mpz?, n: Mpz, d: Mpz, mode: Rounding)
    returns (inexact: bool, ghost Q: int, ghost R: int)
    requires n.Valid() && d.Valid() && Separate(n, d) && d.size != 0
    requires Output(q, n, d) && Output(r, n, d) && Apart(q, r)
    modifies Footprint(q), Footprint(r)
    ensures Divides(mode, old(n.Value()), old(d.Value()), Q, R)
    ensures inexact == (R != 0)
    ensures q != null ==> q.Valid() && q.Value() == Q && (q.d == old(q.d) || fresh(q.d))
    ensures r != null ==> r.Valid() && r.Value() == R && (r.d == old(r.d) || fresh(r.d))
    ensures Apart(q, r)
  {
    hide Val;
    EmptyValues();
    n.SizeFacts();
    d.SizeFacts();
    if n.size == 0 {
      if q != null { SetZero(q); }
      if r != null { SetZero(r); }
      return false, 0, 0;
    }
    if Abs(n.size) < Abs(d.size) {
      Q, R := DivSmall(q, r, n, d, mode);
      return true, Q, R;
    }
    var tq, tr;
    tq, tr, inexact, Q, R := DivLarge(q != null, r != null, n, d, mode);
    if q != null {
      Swap(q, tq);
    }
    if r != null {
      Swap(r, tr);
    }
  }

  /** mpz_tdiv_qr with both results */
  method TdivQr(q: Mpz, r: Mpz, n: Mpz, d: Mpz) returns (ghost Q: int, ghost R: int)
    requires n.Valid() && d.Valid() && Separate(n, d) && d.Value() != 0
    requires Output(q, n, d) && Output(r, n, d) && Apart(q, r)
    modifies q, q.d, r, r.d
    ensures Divides(Trunc, old(n.Value()), old(d.Value()), Q, R)
    ensures q.Valid() && q.Value() == Q && (q.d == old(q.d) || fresh(q.d))
    ensures r.Valid() && r.Value() == R && (r.d == old(r.d) || fresh(r.d))
    ensures q.d != r.d
  {
    d.SizeFacts();
    var ok, inexact;
    ok, inexact, Q, R := DivQr(q, r, n, d, Trunc);
  }

  /** mpz_tdiv_q */
  method TdivQ(q: Mpz, n: Mpz, d: Mpz)
    requires n.Valid() && d.Valid() && Separate(n, d) && d.Value() != 0 && Output(q, n, d)
    modifies q, q.d
    ensures q.Valid() && (q.d == old(q.d) || fresh(q.d))
    ensures Divides(Trunc, old(n.Value()), old(d.Value()), q.Value(), old(n.Value()) - q.Value() * old(d.Value()))
  {
    d.SizeFacts();
    ghost var Q, R;
    var ok, inexact;
    ok, inexact, Q, R := DivQr(q, null, n, d, Trunc);
  }

  /** mpz_divexact */
  method Divexact(q: Mpz, n: Mpz, d: Mpz, ghost k: int)
    requires n.Valid() && d.Valid() && Separate(n, d) && d.Value() != 0 && Output(q, n, d)
    requires n.Value() == k * d.Value()
    modifies q, q.d
    ensures q.Valid() && q.Value() == k && (q.d == old(q.d) || fresh(q.d))
  {
    hide Mpz.Value, Mpz.Mag;
    ghost var x, y := n.Value(), d.Value();
    TdivQ(q, n, d);
    DividesUnique(Trunc, x, y, q.Value(), x - q.Value() * y, k, 0);
  }

  method SetZero(x: Mpz)
    requires x.d.Length >= 1
    modifies x`size
    ensures x.Valid() && x.Value() == 0
  {
    x.size := 0;
    EmptyValues();
  }

  /** The case of a divisor with more limbs than the numerator. */
  method DivSmall(q: Mpz?, r: Mpz?, n: Mpz, d: Mpz, mode: Rounding)
    returns (ghost Q: int, ghost R: int)
    requires n.Valid() && d.Valid() && Separate(n, d) && 0 < Abs(n.size) < Abs(d.size)
    requires Output(q, n, d) && Output(r, n, d) && Apart(q, r)
    modifies Footprint(q), Footprint(r)
    ensures Divides(mode, old(n.Value()), old(d.Value()), Q, R) && R != 0
    ensures q != null ==> q.Valid() && q.Value() == Q && (q.d == old(q.d) || fresh(q.d))
    ensures r != null ==> r.Valid() && r.Value() == R && (r.d == old(r.d) || fresh(r.d))
    ensures Apart(q, r)
  {
    hide Val, PowB;
    n.SizeFacts();
    d.SizeFacts();
    PowBMono(Abs(n.size), Abs(d.size) - 1);
    SmallNumerator(mode, n.Value(), d.Value());
    Q, R := SmallQuotient(mode, n.Value(), d.Value()).0, SmallQuotient(mode, n.Value(), d.Value()).1;
    var sameSign := (n.size < 0) == (d.size < 0);
    if mode.Ceil? && sameSign {
      if r != null { Sub(r, n, d); }
      if q != null { SetUi(q, 1); }
    } else if mode.Floor? && !sameSign {
      if r != null { Add(r, n, d); }
      if q != null { SetSi(q, -1); }
    } else {
      if r != null { Set(r, n); }
      if q != null { SetZero(q); }
    }
  }

  /** The general case: magnitudes are divided in temporaries, then rounded. */
  method DivLarge(withQ: bool, withR: bool, n: Mpz, d: Mpz, mode: Rounding)
    returns (tq: Mpz?, tr: Mpz, inexact: bool, ghost Q: int, ghost R: int)
    requires n.Valid() && d.Valid() && Separate(n, d) && 0 < Abs(d.size) <= Abs(n.size)
    ensures Divides(mode, n.Value(), d.Value(), Q, R)
    ensures inexact == (R != 0)
    ensures tr.Valid() && fresh(tr) && fresh(tr.d) && (withR ==> tr.Value() == R)
    ensures withQ ==> tq != null && tq.Valid() && fresh(tq) && fresh(tq.d) && tq.Value() == Q
    ensures Apart(tq, tr)
  {
    hide Val, Divides, Quo, Rem;
    n.SizeFacts();
    d.SizeFacts();
    tq, tr := DivTrunc(withQ, n, d);
    TruncatedSigns(n.Mag(), d.Mag(), n.size < 0, d.size < 0);
    ghost var q, r := Signed(Quo(n.Mag(), d.Mag()), (n.size < 0) != (d.size < 0)), tr.Value();
    tr.SizeFacts();
    inexact := tr.size != 0;
    Q, R := RoundTemporaries(tq, tr, withR, n.size < 0, d, mode, inexact, n.Value(), q, r);
  }

  /** The temporaries are moved from truncation to the requested mode. */
  method RoundTemporaries(tq: Mpz?, tr: Mpz, withR: bool, nneg: bool, d: Mpz, mode: Rounding, inexact: bool,
                          ghost nv: int, ghost q: int, ghost r: int)
    returns (ghost Q: int, ghost R: int)
    requires d.Valid() && d.size != 0 && tr.Valid() && tr.Value() == r && inexact == (r != 0)
    requires tr != d && tr.d != d.d && Apart(tq, tr)
    requires tq != null ==> tq.Valid() && tq.Value() == q && tq != d && tq.d != d.d
    requires nneg == (nv < 0) && Divides(Trunc, nv, d.Value(), q, r)
    modifies tr, tr.d, Footprint(tq)
    ensures Divides(mode, nv, old(d.Value()), Q, R) && inexact == (R != 0)
    ensures tr.Valid() && (withR ==> tr.Value() == R) && (tr.d == old(tr.d) || fresh(tr.d))
    ensures tq != null ==> tq.Valid() && tq.Value() == Q && (tq.d == old(tq.d) || fresh(tq.d))
    ensures Apart(tq, tr)
  {
    hide Val, Divides;
    d.SizeFacts();
    ghost var dv := d.Value();
    Q, R := q, r;
    var sameSign := nneg == (d.size < 0);
    if mode.Floor? && !sameSign && inexact {
      FloorAdjust(nv, dv, q, r);
      Q, R := q - 1, r + dv;
      if tq != null { SubUi(tq, tq, 1); }
      if withR { Add(tr, tr, d); }
    } else if mode.Ceil? && sameSign && inexact {
      CeilAdjust(nv, dv, q, r);
      Q, R := q + 1, r - dv;
      if tq != null { AddUi(tq, tq, 1); }
      if withR { Sub(tr, tr, d); }
    } else {
      NoAdjust(mode, nv, dv, q, r);
    }
  }

  /** Truncating division of the magnitudes, with the signs attached. */
  method DivTrunc(withQ: bool, n: Mpz, d: Mpz) returns (tq: Mpz?, tr: Mpz)
    requires n.Valid() && d.Valid() && Separate(n, d) && 0 < Abs(d.size) <= Abs(n.size)
    ensures tr.Valid() && fresh(tr) && fresh(tr.d)
    ensures d.Mag() > 0 && tr.Value() == Signed(Rem(n.Mag(), d.Mag()), n.size < 0)
    ensures withQ ==> tq != null && tq.Valid() && fresh(tq) && fresh(tq.d)
    ensures withQ ==> tq.Value() == Signed(Quo(n.Mag(), d.Mag()), (n.size < 0) != (d.size < 0))
    ensures !withQ ==> tq == null
    ensures Apart(tq, tr)
  {
    hide Val, PowB, Quo, Rem;
    n.SizeFacts();
    d.SizeFacts();
    tr := new Mpz.Init();
    Set(tr, n);
    tq := null;
    if withQ {
      tq := new Mpz.Init2((Abs(n.size) - Abs(d.size) + 1) * LIMB_BITS);
    }
    DivTruncInto(tq, tr, d);
  }

  /** tr is replaced by its remainder, and tq (if present) takes the quotient. */
  method DivTruncInto(tq: Mpz?, tr: Mpz, d: Mpz)
    requires tr.Valid() && d.Valid() && tr != d && tr.d != d.d && 0 < Abs(d.size) <= Abs(tr.size)
    requires tq != null ==> tq.d.Length >= Abs(tr.size) - Abs(d.size) + 1 && tq != d && tq.d != d.d
    requires Apart(tq, tr)
    modifies tr, tr.d, Footprint(tq)
    ensures tr.Valid() && tr.d == old(tr.d)
    ensures old(d.Mag()) > 0 && tr.Value() == Signed(Rem(old(tr.Mag()), old(d.Mag())), old(tr.size) < 0)
    ensures tq != null ==> tq.Valid() && tq.d == old(tq.d)
    ensures tq != null ==>
      tq.Value() == Signed(Quo(old(tr.Mag()), old(d.Mag())), (old(tr.size) < 0) != (old(d.size) < 0))
  {
    hide Val, PowB, Quo, Rem;
    tr.SizeFacts();
    d.SizeFacts();
    var nn, dn, nneg := Abs(tr.size), Abs(d.size), tr.size < 0;
    ghost var mn, md := tr.Mag(), d.Mag();
    var qp: array?<Limb> := null;
    if tq != null {
      qp := tq.d;
    }
    MpnDiv.DivQr(qp, tr.d, nn, d.d, dn);
    if tq != null {
      StoreQuotient(tq, nn, dn, nneg != (d.size < 0), mn, md);
    }
    StoreRemainder(tr, dn, nneg, Rem(mn, md));
  }

  method StoreRemainder(tr: Mpz, dn: nat, neg: bool, ghost m: nat)
    requires 0 < dn <= tr.d.Length && Val(tr.d[..dn]) == m
    modifies tr`size
    ensures tr.Valid() && tr.Value() == Signed(m, neg)
  {
    hide Val;
    EmptyValues();
    var rn := Mpn.NormalizedSize(tr.d, dn);
    tr.size := Signed(rn, neg);
    Stored(tr, rn, m);
  }

  method StoreQuotient(tq: Mpz, nn: nat, dn: nat, neg: bool, ghost mn: nat, ghost md: nat)
    requires 0 < dn <= nn && nn - dn + 1 <= tq.d.Length
    requires mn >= PowB(nn - 1) && 0 < md < PowB(dn) && Val(tq.d[..nn - dn + 1]) == mn / md
    modifies tq`size
    ensures tq.Valid() && tq.Value() == Signed(Quo(mn, md), neg)
  {
    hide Val, PowB;
    EmptyValues();
    var qn := nn - dn + 1;
    QuotientSize(tq.d[..qn], mn, md, nn, dn);
    qn := qn - Bool(tq.d[qn - 1] == 0);
    assert tq.d[..nn - dn + 1][..qn] == tq.d[..qn];
    tq.size := Signed(qn, neg);
    Stored(tq, qn, Quo(mn, md));
  }
}
