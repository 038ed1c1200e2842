/** Inverses modulo m: what an inverse is, when there is one, and the extended Euclidean loop. */
module InverseMod {
  import opened Wrappers
  import opened Modular

  predicate IsInverse(a: int, x: int, m: int)
    requires m > 0
  {
    1 <= x <= m && (a * x - 1) % m == 0
  }

  lemma InverseUnique(a: int, x: int, y: int, m: int)
    requires m > 0 && IsInverse(a, x, m) && IsInverse(a, y, m)
    ensures x == y
  {
    // x == x*(a*y) == (a*x)*y == y modulo m
    assert Cong(a * x, 1, m) && Cong(a * y, 1, m);
    CongRefl(x, m);
    CongRefl(y, m);
    CongMul(a * x, 1, y, y, m);
    CongMul(a * y, 1, x, x, m);
    assert (a * x) * y == (a * y) * x;
    CongSym((a * y) * x, 1 * x, m);
    CongTrans(x, (a * y) * x, y, m);
    CloseCong(x, y, m);
  }

  lemma CloseCong(x: int, y: int, m: int)
    requires m > 0 && Cong(x, y, m) && -m < x - y < m
    ensures x == y
  {
    if x > y { ModUnique(x - y, 0, x - y, m); } else if x < y { ModUnique(x - y, -1, x - y + m, m); }
  }

  /** The number in 1..m that inverts a modulo m, if there is one. */
  function ModInverse(a: int, m: int): (r: Option<int>)
    requires m > 0
    ensures r.Some? ==> IsInverse(a, r.value, m)
    ensures r.None? ==> forall x :: !IsInverse(a, x, m)
  {
    if exists x :: 1 <= x <= m && IsInverse(a, x, m) then
      assert forall x, y | IsInverse(a, x, m) && IsInverse(a, y, m) :: x == y by {
        forall x, y | IsInverse(a, x, m) && IsInverse(a, y, m) ensures x == y {
          InverseUnique(a, x, y, m);
        }
      }
      var x :| 1 <= x <= m && IsInverse(a, x, m);
      Some(x)
    else
      None
  }

  lemma BezoutCong(m: int, c: int, s: int, t: int)
    requires m > 0 && s * m + t * c == 1
    ensures Cong(c * t, 1, m)
  {
    assert c * t - 1 == m * (-s);
    CongFrom(c * t, 1, -s, m);
  }

  /** A Bezout coefficient of a's residue inverts a. */
  lemma BezoutInverse(a: int, m: int)
    requires m > 0 && Gcd(m, a % m) == 1
    ensures ModInverse(a, m).Some?
  {
    hide Gcd, ModInverse, IsInverse;
    var s, t := Bezout(m, a % m);
    ResidueInverse(a, m, s, t);
    HasInverse(a, if t % m == 0 then m else t % m, m);
  }

  lemma HasInverse(a: int, x: int, m: int)
    requires m > 0 && IsInverse(a, x, m)
    ensures ModInverse(a, m).Some?
  {
    hide IsInverse, ModInverse;
  }

  lemma ResidueInverse(a: int, m: int, s: int, t: int)
    requires m > 0 && s * m + t * (a % m) == 1
    ensures IsInverse(a, if t % m == 0 then m else t % m, m)
  {
    hide Cong;
    var c, x := a % m, if t % m == 0 then m else t % m;
    BezoutCong(m, c, s, t);
    InRange(t, m);
    CongMod(a, m);
    CongMul(a, c, x, t, m);
    CongTrans(a * x, c * t, 1, m);
  }

  /** The number of 1..m that is congruent to t. */
  lemma InRange(t: int, m: int)
    requires m > 0
    ensures Cong(if t % m == 0 then m else t % m, t, m)
  {
    CongMod(t, m);
    if t % m == 0 {
      CongFrom(m, 0, 1, m);
      CongTrans(m, t % m, t, m);
    }
  }

  /** A common factor of a and m divides a*x - m*k, so it cannot be that this is one. */
  lemma InverseCoprime(a: int, x: int, m: int)
    requires m > 0 && IsInverse(a, x, m)
    ensures Gcd(m, a % m) == 1
  {
    var k := CongWitness(a * x, 1, m);
    assert m * (-k) == -(m * k);
    CommonFactor(a, a / m, a % m, m, -k, x);
  }

  lemma CommonFactor(a: int, q: int, r: nat, m: nat, k: int, x: int)
    requires m > 0 && a == m * q + r && m * k + a * x == 1
    ensures Gcd(m, r) == 1
  {
    GcdDivides(m, r);
    DividesSum(Gcd(m, r), m, q, r);
    NoFactor(Gcd(m, r), m, k, a, x);
  }

  lemma NoFactor(g: int, m: int, k: int, a: int, x: int)
    requires g > 0 && Divides(g, m) && Divides(g, a) && m * k + a * x == 1
    ensures g == 1
  {
    assert Divides(g, a * x) by { ModSmall(0, g); DividesSum(g, a, x, 0); }
    DividesSum(g, m, k, a * x);
    if g > 1 { ModSmall(1, g); }
  }

  /** There is an inverse exactly when a and m have no common factor. */
  lemma InverseExists(a: int, m: int)
    requires m > 0
    ensures ModInverse(a, m).Some? <==> Gcd(m, a % m) == 1
  {
    if Gcd(m, a % m) == 1 { BezoutInverse(a, m); }
    if ModInverse(a, m).Some? { InverseCoprime(a, ModInverse(a, m).value, m); }
  }

  /** Modulo a prime, exactly the numbers it does not divide have inverses. */
  lemma PrimeInverse(a: int, p: int)
    requires IsPrime(p)
    ensures ModInverse(a, p).Some? <==> !Cong(a, 0, p)
    ensures ModInverse(a, p).Some? ==> Cong(a * ModInverse(a, p).value, 1, p) && ModInverse(a, p).value < p
  {
    InverseExists(a, p);
    CongEqual(a, 0, p);
    ModSmall(0, p);
    ModSmall(a % p, p);
    if a % p != 0 {
      PrimeCoprime(p, a % p);
      var x := ModInverse(a, p).value;
      if x == p {
        CongFrom(a * p, 0, a, p);
        CongSym(a * p, 0, p);
        CongTrans(0, a * p, 1, p);
        assert false by { ModSmall(1, p); CongEqual(0, 1, p); }
      }
    } else {
      assert Gcd(p, 0) == p;
    }
  }

  /** Inverses depend on the residue only. */
  lemma InverseCong(a: int, b: int, m: int)
    requires m > 0 && Cong(a, b, m)
    ensures ModInverse(a, m) == ModInverse(b, m)
  {
    CongEqual(a, b, m);
    InverseExists(a, m);
    InverseExists(b, m);
    if ModInverse(a, m).Some? {
      var x, y := ModInverse(a, m).value, ModInverse(b, m).value;
      CongRefl(y, m);
      CongMul(a, b, y, y, m);
      CongTrans(a * y, b * y, 1, m);
      InverseUnique(a, x, y, m);
    }
  }

  /** The extended Euclidean loop; None is the failed assertion that the gcd is one. */
  method InverseMod(a: int, m: int) returns (r: Option<int>)
    requires m > 0
    ensures r == ModInverse(a, m)
    ensures r.Some? <==> Gcd(m, a % m) == 1
    ensures r.Some? && m >= 2 ==> 1 <= r.value < m
  {
    var a' := a;
    if a < 0 || m <= a { a' := a % m; }
    ModSmall(a % m, m);
    if 0 <= a < m { ModSmall(a, m); }
    var c, d := a', m;
    var uc, vc, ud, vd := 1, 0, 0, 1;
    while c != 0
      invariant 0 <= c < d <= m
      invariant Gcd(d, c) == Gcd(m, a')
      invariant a' * uc + m * vc == c && a' * ud + m * vd == d
      // the coefficients alternate in sign and their sizes stay tied to m
      invariant (uc > 0 && ud <= 0 && uc * d - ud * c == m) || (uc < 0 && ud > 0 && ud * c - uc * d == m)
      invariant -uc <= ud <= uc || uc <= ud <= -uc
      invariant m == 1 ==> ud == 0
      decreases c
    {
      var q := d / c;
      EuclidStep(a', m, c, d, q, uc, vc, ud, vd);
      c, d := d % c, c;
      uc, vc, ud, vd := ud - q * uc, vd - q * vc, uc, vc;
    }
    InverseExists(a, m);
    if d != 1 {
      return None;
    }
    r := Some(if ud > 0 then ud else ud + m);
    EuclidResult(a, a', m, ud, vd);
  }

  lemma EuclidStep(a: int, m: int, c: int, d: int, q: int, uc: int, vc: int, ud: int, vd: int)
    requires 0 < c < d && q == d / c
    requires a * uc + m * vc == c && a * ud + m * vd == d
    ensures q >= 1
    ensures a * (ud - q * uc) + m * (vd - q * vc) == d % c
    ensures uc * (d % c) - (ud - q * uc) * c == uc * d - ud * c
    ensures if uc >= 0 then q * uc >= uc else q * uc <= uc
  {
    var e := d % c;
    assert d == c * q + e;
    QuotientAtLeastOne(c, d, q, e);
    CombineRows(a, m, c, d, q, uc, vc, ud, vd);
    Determinant(c, q, e, uc, ud);
    Grows(q, uc);
  }

  lemma QuotientAtLeastOne(c: int, d: int, q: int, e: int)
    requires 0 <= e < c < d && d == c * q + e
    ensures q >= 1
  {
    assert q <= 0 ==> c * q <= 0;
  }

  lemma Grows(q: int, u: int)
    requires q >= 1
    ensures if u >= 0 then q * u >= u else q * u <= u
  {
  }

  lemma CombineRows(a: int, m: int, c: int, d: int, q: int, uc: int, vc: int, ud: int, vd: int)
    requires a * uc + m * vc == c && a * ud + m * vd == d
    ensures a * (ud - q * uc) + m * (vd - q * vc) == d - c * q
  {
    assert c * q == (a * uc) * q + (m * vc) * q;
  }

  lemma Determinant(c: int, q: int, e: int, uc: int, ud: int)
    ensures uc * e - (ud - q * uc) * c == uc * (c * q + e) - ud * c
  {
  }

  /** When the loop ends with gcd one, its coefficient, moved into 1..m, is the inverse. */
  lemma EuclidResult(a: int, a': int, m: int, ud: int, vd: int)
    requires m > 0 && a' == a % m && -m <= ud <= m && a' * ud + m * vd == 1
    requires m == 1 ==> ud == 0
    ensures var x := if ud > 0 then ud else ud + m;
            ModInverse(a, m) == Some(x) && (m >= 2 ==> x < m)
  {
    var x := if ud > 0 then ud else ud + m;
    var k := if ud > 0 then -vd else a' - vd;
    assert a' * x - 1 == m * k;
    CongFrom(a' * x, 1, k, m);
    CongMod(a, m);
    CongRefl(x, m);
    CongMul(a, a', x, x, m);
    CongTrans(a * x, a' * x, 1, m);
    NotMultiple(a, x, m);
    assert IsInverse(a, x, m);
    InverseUnique(a, x, ModInverse(a, m).value, m);
  }

  /** Neither 0 nor m inverts anything modulo m, unless m is 1. */
  lemma NotMultiple(a: int, x: int, m: int)
    requires m > 0 && Cong(a * x, 1, m)
    ensures m >= 2 ==> x != 0 && x != m
  {
    if m >= 2 && (x == 0 || x == m) {
      CongFrom(a * x, 0, if x == 0 then 0 else a, m);
      CongEqual(a * x, 0, m);
      CongEqual(a * x, 1, m);
      ModSmall(0, m);
      ModSmall(1, m);
    }
  }
}
