/** Points of y^2 = x^3 + ax + b over the integers modulo p, with the chord-and-tangent operations. */
module Curve {
  import opened Wrappers
  import opened Modular
  import opened InverseMod

  datatype Curve = Curve(p: int, a: int, b: int)

  /** A point; order 0 stands for a point constructed without an order. */
  datatype Point = Infinity | Affine(x: int, y: int, order: nat)

  /** Zero exactly on the curve's points. */
  function Defect(c: Curve, x: int, y: int): int {
    y * y - (x * x * x + c.a * x + c.b)
  }

  predicate ContainsPoint(c: Curve, x: int, y: int)
    requires c.p > 0
  {
    Defect(c, x, y) % c.p == 0
  }

  /** The constructor; None is its failed assertion that the point is on the curve. */
  function MakePoint(c: Curve, x: int, y: int, order: nat): Option<Point>
    requires c.p > 0
  {
    if ContainsPoint(c, x, y) then Some(Affine(x, y, order)) else None
  }

  /** The third point of the line of slope l through (x1, y1), reflected; x2 is the other crossing. */
  function FromSlope(c: Curve, x1: int, y1: int, x2: int, l: int): Option<Point>
    requires c.p > 0
  {
    var x3 := (l * l - x1 - x2) % c.p;
    var y3 := (l * (x1 - x3) - y1) % c.p;
    MakePoint(c, x3, y3, 0)
  }

  function Double(c: Curve, P: Point): Option<Point>
    requires c.p > 0
  {
    if P.Infinity? then Some(Infinity)
    else
      var inv :- ModInverse(2 * P.y, c.p);
      FromSlope(c, P.x, P.y, P.x, ((3 * P.x * P.x + c.a) * inv) % c.p)
  }

  function Add(c: Curve, P: Point, Q: Point): Option<Point>
    requires c.p > 0
  {
    if Q.Infinity? then Some(P)
    else if P.Infinity? then Some(Q)
    else if P.x == Q.x then
      if (P.y + Q.y) % c.p == 0 then Some(Infinity) else Double(c, P)
    else
      var inv :- ModInverse(Q.x - P.x, c.p);
      FromSlope(c, P.x, P.y, Q.x, ((Q.y - P.y) * inv) % c.p)
  }

  /** A point as the program handles it: on the curve, x reduced, y reduced up to its sign. */
  ghost predicate Valid(c: Curve, P: Point) {
    c.p > 0 && (P.Affine? ==> 0 <= P.x < c.p && -c.p < P.y < c.p && ContainsPoint(c, P.x, P.y))
  }

  // ----- the line through two points meets the curve again -----

  lemma ZeroComb(a: int, u: int, b: int, v: int, p: int)
    requires p > 0 && Cong(a, 0, p) && Cong(b, 0, p)
    ensures Cong(a * u + b * v, 0, p)
  {
    CongZeroMul(a, u, p);
    CongZeroMul(b, v, p);
    CongAdd(a * u, 0, b * v, 0, p);
  }

  /** The quotient of the cubic minus the squared line by x - x1, at x. */
  function Quotient(c: Curve, x1: int, y1: int, l: int, x: int): int {
    x * x + x * x1 + x1 * x1 + c.a - l * (2 * y1 + l * (x - x1))
  }

  lemma QuotientIdentity(c: Curve, x1: int, y1: int, l: int, x: int)
    ensures var w := y1 + l * (x - x1);
            Defect(c, x, w) == Defect(c, x1, y1) - (x - x1) * Quotient(c, x1, y1, l, x)
  {
    var d, t := x - x1, l * (x - x1);
    var s, z := x * x + x * x1 + x1 * x1, l * (2 * y1 + t);
    SquareDifference(y1, t, d, l);
    CubeDifference(x, x1);
    assert c.a * x - c.a * x1 == d * c.a;
    ThreeTerms(d, s, c.a, z);
  }

  lemma SquareDifference(y: int, t: int, d: int, l: int)
    requires t == l * d
    ensures (y + t) * (y + t) - y * y == d * (l * (2 * y + t))
  {
    assert (y + t) * (y + t) - y * y == t * (2 * y + t);
    assert (l * d) * (2 * y + t) == d * (l * (2 * y + t));
  }

  lemma CubeDifference(x: int, z: int)
    ensures (x - z) * (x * x + x * z + z * z) == x * x * x - z * z * z
  {
  }

  lemma ThreeTerms(d: int, s: int, a: int, z: int)
    ensures d * (s + a - z) == d * s + d * a - d * z
  {
  }

  lemma QuotientStep(c: Curve, x1: int, y1: int, l: int, x2: int, x: int)
    ensures Quotient(c, x1, y1, l, x) == Quotient(c, x1, y1, l, x2) + (x - x2) * (x + x2 + x1 - l * l)
  {
    assert l * (2 * y1 + l * (x - x1)) - l * (2 * y1 + l * (x2 - x1)) == (x - x2) * (l * l);
    assert x * x + x * x1 - x2 * x2 - x2 * x1 == (x - x2) * (x + x2 + x1);
  }

  /** Moving y by a multiple of p does not leave the curve, and neither does negating it. */
  lemma DefectCong(c: Curve, x: int, y: int, y': int)
    requires c.p > 0 && (Cong(y, y', c.p) || Cong(y, -y', c.p))
    ensures Cong(Defect(c, x, y), Defect(c, x, y'), c.p)
  {
    var z := if Cong(y, y', c.p) then y' else -y';
    CongMul(y, z, y, z, c.p);
    assert z * z == y' * y';
    var k := x * x * x + c.a * x + c.b;
    CongRefl(k, c.p);
    CongAdd(y * y, y' * y', k, k, c.p);
  }

  /** If the quotient vanishes at x2, the point built from the slope is on the curve. */
  lemma ThirdPoint(c: Curve, x1: int, y1: int, x2: int, l: int)
    requires c.p > 0 && ContainsPoint(c, x1, y1) && Cong(Quotient(c, x1, y1, l, x2), 0, c.p)
    ensures FromSlope(c, x1, y1, x2, l).Some?
    ensures Valid(c, FromSlope(c, x1, y1, x2, l).value)
  {
    var p := c.p;
    var x3 := (l * l - x1 - x2) % p;
    var t := l * (x1 - x3) - y1;
    var y3 := t % p;
    CongMod(l * l - x1 - x2, p);
    var d := x3 + x2 + x1 - l * l;
    assert Cong(d, 0, p);
    QuotientStep(c, x1, y1, l, x2, x3);
    var q2, q3 := Quotient(c, x1, y1, l, x2), Quotient(c, x1, y1, l, x3);
    ZeroComb(q2, 1, d, x3 - x2, p);
    assert Cong(q3, 0, p) by { assert d * (x3 - x2) == (x3 - x2) * d; }
    QuotientIdentity(c, x1, y1, l, x3);
    var w := y1 + l * (x3 - x1);
    assert w == -t by { assert l * (x3 - x1) == -(l * (x1 - x3)); }
    ZeroComb(Defect(c, x1, y1), 1, q3, -(x3 - x1), p);
    assert Cong(Defect(c, x3, w), 0, p) by { assert q3 * -(x3 - x1) == -((x3 - x1) * q3); }
    CongMod(t, p);
    DefectCong(c, x3, y3, w);
    CongTrans(Defect(c, x3, y3), Defect(c, x3, w), 0, p);
  }

  /** l is num / den modulo p. */
  lemma SlopeTimes(num: int, den: int, inv: int, p: int)
    requires p > 0 && Cong(den * inv, 1, p)
    ensures Cong(((num * inv) % p) * den, num, p)
  {
    var l := (num * inv) % p;
    CongMod(num * inv, p);
    CongRefl(den, p);
    CongMul(l, num * inv, den, den, p);
    CongRefl(num, p);
    CongMul(num, num, den * inv, 1, p);
    assert (num * inv) * den == num * (den * inv);
    CongTrans(l * den, (num * inv) * den, num, p);
  }

  // ----- closure and failure -----

  /** Points with the same x are equal or opposite, so the same-x branch of addition is exhaustive. */
  lemma SameX(c: Curve, x: int, y1: int, y2: int)
    requires IsPrime(c.p) && ContainsPoint(c, x, y1) && ContainsPoint(c, x, y2)
    ensures Cong(y1, y2, c.p) || Cong(y1 + y2, 0, c.p)
  {
    CongAdd(Defect(c, x, y1), 0, Defect(c, x, y2), 0, c.p);
    assert Defect(c, x, y1) - Defect(c, x, y2) == (y1 - y2) * (y1 + y2);
    PrimeDividesProduct(c.p, y1 - y2, y1 + y2);
  }

  /** Doubling aborts exactly at the points with 2y = 0; elsewhere it stays on the curve. */
  lemma DoubleCloses(c: Curve, P: Point)
    requires IsPrime(c.p) && Valid(c, P)
    ensures Double(c, P).None? <==> P.Affine? && Cong(2 * P.y, 0, c.p)
    ensures Double(c, P).Some? ==> Valid(c, Double(c, P).value)
  {
    hide ModInverse, FromSlope, Cong;
    if P.Affine? {
      PrimeInverse(2 * P.y, c.p);
      if !Cong(2 * P.y, 0, c.p) { TangentCloses(c, P.x, P.y, ModInverse(2 * P.y, c.p).value); }
    }
  }

  lemma TangentCloses(c: Curve, x: int, y: int, inv: int)
    requires IsPrime(c.p) && ContainsPoint(c, x, y) && 0 <= x < c.p && Cong(2 * y * inv, 1, c.p)
    ensures var l := ((3 * x * x + c.a) * inv) % c.p;
            FromSlope(c, x, y, x, l).Some? && Valid(c, FromSlope(c, x, y, x, l).value)
  {
    var num := 3 * x * x + c.a;
    var l := (num * inv) % c.p;
    SlopeTimes(num, 2 * y, inv, c.p);
    CongSym(l * (2 * y), num, c.p);
    TangentQuotient(c, x, y, l, num);
    ThirdPoint(c, x, y, x, l);
  }

  lemma TangentQuotient(c: Curve, x: int, y: int, l: int, num: int)
    requires num == 3 * x * x + c.a
    ensures Quotient(c, x, y, l, x) == num - l * (2 * y)
  {
  }

  /** The chord through two points with different x has a vanishing quotient at the second. */
  lemma ChordQuotient(c: Curve, x1: int, y1: int, x2: int, y2: int, l: int)
    requires IsPrime(c.p) && ContainsPoint(c, x1, y1) && ContainsPoint(c, x2, y2)
    requires !Cong(x2 - x1, 0, c.p) && Cong(l * (x2 - x1), y2 - y1, c.p)
    ensures Cong(Quotient(c, x1, y1, l, x2), 0, c.p)
  {
    var p := c.p;
    var w := y1 + l * (x2 - x1);
    QuotientIdentity(c, x1, y1, l, x2);
    CongRefl(y1, p);
    CongAdd(y1, y1, l * (x2 - x1), y2 - y1, p);
    DefectCong(c, x2, w, y2);
    CongTrans(Defect(c, x2, w), Defect(c, x2, y2), 0, p);
    CongAdd(Defect(c, x1, y1), 0, Defect(c, x2, w), 0, p);
    PrimeDividesProduct(p, x2 - x1, Quotient(c, x1, y1, l, x2));
  }

  /** Addition of valid points never aborts and gives a valid point. */
  lemma AddCloses(c: Curve, P: Point, Q: Point)
    requires IsPrime(c.p) && Valid(c, P) && Valid(c, Q)
    ensures Add(c, P, Q).Some? && Valid(c, Add(c, P, Q).value)
  {
    if P.Affine? && Q.Affine? {
      var p := c.p;
      if P.x == Q.x {
        if !Cong(P.y + Q.y, 0, p) {
          SameX(c, P.x, P.y, Q.y);
          CongRefl(P.y, p);
          CongAdd(P.y, P.y, P.y, Q.y, p);
          if Cong(2 * P.y, 0, p) {
            CongSym(P.y + P.y, P.y + Q.y, p);
            CongTrans(P.y + Q.y, 2 * P.y, 0, p);
          }
          DoubleCloses(c, P);
        }
      } else {
        assert !Cong(Q.x - P.x, 0, p) by {
          CongEqual(Q.x, P.x, p);
          ModSmall(Q.x, p);
          ModSmall(P.x, p);
        }
        PrimeInverse(Q.x - P.x, p);
        var inv := ModInverse(Q.x - P.x, p).value;
        var l := ((Q.y - P.y) * inv) % p;
        SlopeTimes(Q.y - P.y, Q.x - P.x, inv, p);
        ChordQuotient(c, P.x, P.y, Q.x, Q.y, l);
        ThirdPoint(c, P.x, P.y, Q.x, l);
      }
    }
  }

  // ----- what addition means -----

  /** The curve's cubic at x minus the square of the line of slope l through (x1, y1): zero where the line meets the curve. */
  function Meets(c: Curve, x1: int, y1: int, l: int, x: int): int {
    -Defect(c, x, y1 + l * (x - x1))
  }

  /** The line meets the curve at the three x, each as often as it is among them, and the third crossing's y is that of R
      reflected. */
  ghost predicate ThirdCrossing(c: Curve, x1: int, y1: int, x2: int, l: int, R: Point)
    requires c.p > 0
  {
    && R.Affine? && Cong(-R.y, y1 + l * (R.x - x1), c.p)
    && forall x :: Cong(Meets(c, x1, y1, l, x), (x - x1) * (x - x2) * (x - R.x), c.p)
  }

  lemma SlopeCrosses(c: Curve, x1: int, y1: int, x2: int, l: int)
    requires c.p > 0 && ContainsPoint(c, x1, y1) && Cong(Quotient(c, x1, y1, l, x2), 0, c.p)
    ensures FromSlope(c, x1, y1, x2, l).Some? && ThirdCrossing(c, x1, y1, x2, l, FromSlope(c, x1, y1, x2, l).value)
  {
    ThirdPoint(c, x1, y1, x2, l);
    hide Meets, Quotient, Defect, Cong;
    var p, R := c.p, FromSlope(c, x1, y1, x2, l).value;
    ReflectedY(x1, y1, l, R.x, R.y, p) by { CongMod(l * (x1 - R.x) - y1, p); }
    forall x ensures Cong(Meets(c, x1, y1, l, x), (x - x1) * (x - x2) * (x - R.x), p) {
      CongMod(l * l - x1 - x2, p);
      CrossingAt(c, x1, y1, x2, l, R.x, x);
    }
  }

  lemma ReflectedY(x1: int, y1: int, l: int, x3: int, y3: int, p: int)
    requires p > 0 && Cong(y3, l * (x1 - x3) - y1, p)
    ensures Cong(-y3, y1 + l * (x3 - x1), p)
  {
    var t := l * (x1 - x3) - y1;
    CongRefl(0, p);
    CongAdd(0, 0, y3, t, p);
    assert 0 - t == y1 + l * (x3 - x1) by { assert l * (x3 - x1) == -(l * (x1 - x3)); }
  }

  lemma CrossingAt(c: Curve, x1: int, y1: int, x2: int, l: int, x3: int, x: int)
    requires c.p > 0 && ContainsPoint(c, x1, y1) && Cong(Quotient(c, x1, y1, l, x2), 0, c.p) && Cong(x3, l * l - x1 - x2, c.p)
    ensures Cong(Meets(c, x1, y1, l, x), (x - x1) * (x - x2) * (x - x3), c.p)
  {
    var p, d1, q2 := c.p, Defect(c, x1, y1), Quotient(c, x1, y1, l, x2);
    QuotientIdentity(c, x1, y1, l, x);
    QuotientStep(c, x1, y1, l, x2, x);
    var a, b, e := x - x1, x - x2, x + x2 + x1 - l * l;
    hide Defect, Quotient;
    CongRefl(x, p);
    CongAdd(x, x, x3, l * l - x1 - x2, p);
    CongSym(x - x3, e, p);
    CongRefl(a * b, p);
    CongMul(a * b, a * b, e, x - x3, p);
    CongZeroMul(q2, a, p);
    CongAdd(a * q2, 0, d1, 0, p);
    CongAdd((a * b) * e, (a * b) * (x - x3), a * q2 - d1, 0, p);
    CrossingAlgebra(a, b, e, q2, d1);
  }

  lemma CrossingAlgebra(a: int, b: int, e: int, q: int, d: int)
    ensures (a * b) * e + (a * q - d) == -(d - a * (q + b * e))
  {
    assert a * (q + b * e) == a * q + (a * b) * e by { assert a * (b * e) == (a * b) * e; }
  }

  /** The sum of two points that do not cancel is the third crossing of the chord through them, or of the tangent where
      they are the same, reflected. */
  lemma AddMeetsLine(c: Curve, P: Point, Q: Point) returns (l: int)
    requires IsPrime(c.p) && Valid(c, P) && Valid(c, Q) && P.Affine? && Q.Affine?
    requires P.x == Q.x ==> (P.y + Q.y) % c.p != 0
    ensures if P.x == Q.x then Cong(l * (2 * P.y), 3 * P.x * P.x + c.a, c.p) else Cong(l * (Q.x - P.x), Q.y - P.y, c.p)
    ensures Add(c, P, Q).Some? && ThirdCrossing(c, P.x, P.y, Q.x, l, Add(c, P, Q).value)
  {
    hide ThirdCrossing, FromSlope, ModInverse, ContainsPoint, Quotient;
    if P.x == Q.x {
      AddCloses(c, P, Q);
      l := TangentMeets(c, P);
    } else {
      l := ChordMeets(c, P, Q);
    }
  }

  lemma TangentMeets(c: Curve, P: Point) returns (l: int)
    requires IsPrime(c.p) && Valid(c, P) && P.Affine? && Double(c, P).Some?
    ensures Cong(l * (2 * P.y), 3 * P.x * P.x + c.a, c.p)
    ensures ThirdCrossing(c, P.x, P.y, P.x, l, Double(c, P).value)
  {
    hide ThirdCrossing, FromSlope, ModInverse;
    var num, inv := 3 * P.x * P.x + c.a, ModInverse(2 * P.y, c.p).value;
    l := (num * inv) % c.p;
    PrimeInverse(2 * P.y, c.p);
    SlopeTimes(num, 2 * P.y, inv, c.p);
    CongSym(l * (2 * P.y), num, c.p);
    TangentQuotient(c, P.x, P.y, l, num);
    SlopeCrosses(c, P.x, P.y, P.x, l);
  }

  lemma ChordMeets(c: Curve, P: Point, Q: Point) returns (l: int)
    requires IsPrime(c.p) && Valid(c, P) && Valid(c, Q) && P.Affine? && Q.Affine? && P.x != Q.x
    ensures Cong(l * (Q.x - P.x), Q.y - P.y, c.p)
    ensures Add(c, P, Q).Some? && ThirdCrossing(c, P.x, P.y, Q.x, l, Add(c, P, Q).value)
  {
    hide ThirdCrossing, FromSlope, ModInverse, Quotient;
    var p, dx, dy := c.p, Q.x - P.x, Q.y - P.y;
    assert !Cong(dx, 0, p) by {
      CongEqual(Q.x, P.x, p);
      ModSmall(Q.x, p);
      ModSmall(P.x, p);
    }
    PrimeInverse(dx, p);
    var inv := ModInverse(dx, p).value;
    l := (dy * inv) % p;
    SlopeTimes(dy, dx, inv, p);
    ChordQuotient(c, P.x, P.y, Q.x, Q.y, l);
    SlopeCrosses(c, P.x, P.y, Q.x, l);
  }
}
