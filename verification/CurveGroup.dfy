/** The curve's points as a group: every law except associativity is proved. */
module CurveGroup {
  import opened Modular
  import opened InverseMod
  import opened Curve
  import opened AbelianGroup

  /** The point with y reduced into 0..p-1 and no order attached. */
  function Norm(c: Curve, P: Point): Point
    requires c.p > 0
  {
    if P.Infinity? then Infinity else Affine(P.x, P.y % c.p, 0)
  }

  predicate Reduced(c: Curve, P: Point) {
    c.p > 0 &&
    (P.Affine? ==> 0 <= P.x < c.p && 0 <= P.y < c.p && P.order == 0 && ContainsPoint(c, P.x, P.y))
  }

  function Plus(c: Curve, P: Point, Q: Point): Point {
    if c.p > 0 && Add(c, P, Q).Some? then Norm(c, Add(c, P, Q).value) else Infinity
  }

  /** The point the program builds by negating the y coordinate. */
  function Negate(P: Point): Point {
    if P.Infinity? then Infinity else P.(y := -P.y)
  }

  function Opposite(c: Curve, P: Point): Point {
    if c.p > 0 then Norm(c, Negate(P)) else Infinity
  }

  function GroupOf(c: Curve): Group<Point> {
    Group(P => Reduced(c, P), Infinity, (P, Q) => Plus(c, P, Q), P => Opposite(c, P))
  }

  ghost predicate AssociativeAt(c: Curve, P: Point, Q: Point, R: Point) {
    Reduced(c, P) && Reduced(c, Q) && Reduced(c, R) ==>
      Plus(c, Plus(c, P, Q), R) == Plus(c, P, Plus(c, Q, R))
  }

  ghost predicate Associative(c: Curve) {
    forall P, Q, R :: AssociativeAt(c, P, Q, R)
  }

  lemma NormReduced(c: Curve, P: Point)
    requires Valid(c, P)
    ensures Reduced(c, Norm(c, P)) && Valid(c, Norm(c, P)) && Norm(c, Norm(c, P)) == Norm(c, P)
  {
    if P.Affine? {
      CongMod(P.y, c.p);
      DefectCong(c, P.x, P.y % c.p, P.y);
      CongTrans(Defect(c, P.x, P.y % c.p), Defect(c, P.x, P.y), 0, c.p);
      ModSmall(P.y % c.p, c.p);
    }
  }

  lemma ReducedNorm(c: Curve, P: Point)
    requires Reduced(c, P)
    ensures Valid(c, P) && Norm(c, P) == P
  {
    if P.Affine? { ModSmall(P.y, c.p); }
  }

  lemma NegateValid(c: Curve, P: Point)
    requires Valid(c, P)
    ensures Valid(c, Negate(P))
  {
    if P.Affine? {
      CongRefl(-P.y, c.p);
      DefectCong(c, P.x, -P.y, P.y);
      CongTrans(Defect(c, P.x, -P.y), Defect(c, P.x, P.y), 0, c.p);
    }
  }

  // ----- the operations only see y modulo p -----

  lemma FromSlopeCong(c: Curve, x1: int, y1: int, y1': int, x2: int, l: int)
    requires c.p > 0 && Cong(y1, y1', c.p)
    ensures FromSlope(c, x1, y1, x2, l) == FromSlope(c, x1, y1', x2, l)
  {
    var x3 := (l * l - x1 - x2) % c.p;
    var t := l * (x1 - x3);
    CongRefl(t, c.p);
    CongAdd(t, t, y1, y1', c.p);
    CongEqual(t - y1, t - y1', c.p);
  }

  lemma DoubleCong(c: Curve, P: Point, P': Point)
    requires c.p > 0 && P.Affine? && P'.Affine? && P.x == P'.x && Cong(P.y, P'.y, c.p)
    ensures Double(c, P) == Double(c, P')
  {
    CongAdd(P.y, P'.y, P.y, P'.y, c.p);
    InverseCong(2 * P.y, 2 * P'.y, c.p);
    var inv := ModInverse(2 * P.y, c.p);
    if inv.Some? {
      FromSlopeCong(c, P.x, P.y, P'.y, P.x, ((3 * P.x * P.x + c.a) * inv.value) % c.p);
    }
  }

  /** Addition commutes with reduction. */
  lemma AddNorm(c: Curve, P: Point, Q: Point)
    requires IsPrime(c.p) && Valid(c, P) && Valid(c, Q)
    ensures Add(c, P, Q).Some? && Norm(c, Add(c, P, Q).value) == Plus(c, Norm(c, P), Norm(c, Q))
  {
    AddCloses(c, P, Q);
    NormReduced(c, P);
    NormReduced(c, Q);
    var p := c.p;
    if P.Affine? && Q.Affine? {
      var P', Q' := Norm(c, P), Norm(c, Q);
      CongMod(P.y, p);
      CongMod(Q.y, p);
      if P.x == Q.x {
        CongAdd(P.y, P'.y, Q.y, Q'.y, p);
        CongEqual(P.y + Q.y, P'.y + Q'.y, p);
        DoubleCong(c, P, P');
      } else {
        PrimeInverse(Q.x - P.x, p);
        var inv := ModInverse(Q.x - P.x, p);
        if inv.Some? {
          CongAdd(Q.y, Q'.y, P.y, P'.y, p);
          CongRefl(inv.value, p);
          CongMul(Q.y - P.y, Q'.y - P'.y, inv.value, inv.value, p);
          CongEqual((Q.y - P.y) * inv.value, (Q'.y - P'.y) * inv.value, p);
          FromSlopeCong(c, P.x, P.y, P'.y, Q.x, ((Q.y - P.y) * inv.value) % p);
        }
      }
    }
  }

  /** Where doubling does not abort it is addition of the point to itself. */
  lemma DoubleNorm(c: Curve, P: Point)
    requires IsPrime(c.p) && Valid(c, P) && Double(c, P).Some?
    ensures Norm(c, Double(c, P).value) == Plus(c, Norm(c, P), Norm(c, P))
  {
    AddNorm(c, P, P);
    DoubleCloses(c, P);
  }

  // ----- the group laws -----

  lemma {:induction false} PlusCommutes(c: Curve, P: Point, Q: Point)
    requires IsPrime(c.p) && Reduced(c, P) && Reduced(c, Q)
    ensures Plus(c, P, Q) == Plus(c, Q, P)
  {
    if P.Affine? && Q.Affine? {
      if P.x == Q.x {
        SameX(c, P.x, P.y, Q.y);
        CongEqual(P.y, Q.y, c.p);
        ModSmall(P.y, c.p);
        ModSmall(Q.y, c.p);
      } else {
        ChordCommutes(c, P, Q);
      }
    }
  }

  /** Both orders of the two points give the same slope. */
  lemma SameSlope(dx: int, dy: int, i: int, j: int, p: int)
    requires IsPrime(p) && Cong(dx * i, 1, p) && Cong(-dx * j, 1, p) && !Cong(dx, 0, p)
    ensures (dy * i) % p == (-dy * j) % p
  {
    var l, l' := (dy * i) % p, (-dy * j) % p;
    SlopeTimes(dy, dx, i, p);
    SlopeTimes(-dy, -dx, j, p);
    CongAdd(l * dx, dy, l' * -dx, -dy, p);
    assert l * dx + l' * -dx == (l - l') * dx;
    PrimeDividesProduct(p, l - l', dx);
    CongEqual(l, l', p);
    ModSmall(l, p);
    ModSmall(l', p);
  }

  /** The third point does not depend on which crossing the line is written from. */
  lemma FromSlopeSwap(c: Curve, x1: int, y1: int, x2: int, y2: int, l: int)
    requires c.p > 0 && Cong(l * (x2 - x1), y2 - y1, c.p)
    ensures FromSlope(c, x1, y1, x2, l) == FromSlope(c, x2, y2, x1, l)
  {
    var x3 := (l * l - x1 - x2) % c.p;
    assert l * l - x1 - x2 == l * l - x2 - x1;
    assert l * (x1 - x3) - y1 - (l * (x2 - x3) - y2) == y2 - y1 - l * (x2 - x1);
    CongSym(l * (x2 - x1), y2 - y1, c.p);
    CongEqual(l * (x1 - x3) - y1, l * (x2 - x3) - y2, c.p);
  }

  lemma ChordCommutes(c: Curve, P: Point, Q: Point)
    requires IsPrime(c.p) && Reduced(c, P) && Reduced(c, Q) && P.Affine? && Q.Affine? && P.x != Q.x
    ensures Add(c, P, Q) == Add(c, Q, P)
  {
    var dx, dy := Q.x - P.x, Q.y - P.y;
    assert !Cong(dx, 0, c.p) && !Cong(-dx, 0, c.p) by {
      CongEqual(Q.x, P.x, c.p);
      CongEqual(P.x, Q.x, c.p);
      ModSmall(Q.x, c.p);
      ModSmall(P.x, c.p);
    }
    PrimeInverse(dx, c.p);
    PrimeInverse(-dx, c.p);
    var i, j := ModInverse(dx, c.p).value, ModInverse(-dx, c.p).value;
    SameSlope(dx, dy, i, j, c.p);
    SlopeTimes(dy, dx, i, c.p);
    FromSlopeSwap(c, P.x, P.y, Q.x, Q.y, (dy * i) % c.p);
    assert Q.x - P.x == dx && P.x - Q.x == -dx && P.y - Q.y == -dy;
  }

  lemma OppositeCancels(c: Curve, P: Point)
    requires IsPrime(c.p) && Reduced(c, P)
    ensures Reduced(c, Opposite(c, P)) && Plus(c, P, Opposite(c, P)) == Infinity
  {
    ReducedNorm(c, P);
    NegateValid(c, P);
    NormReduced(c, Negate(P));
    if P.Affine? {
      AddNorm(c, P, Negate(P));
      ModSmall(0, c.p);
    }
  }

  /** Given associativity, the curve's reduced points are an abelian group under the program's addition. */
  lemma CurveIsGroup(c: Curve)
    requires IsPrime(c.p) && Associative(c)
    ensures IsAbelian(GroupOf(c))
  {
    var g := GroupOf(c);
    forall P, Q, R
      ensures LawsAt(g, P, Q, R)
    {
      assert AssociativeAt(c, P, Q, R);
      if Reduced(c, P) {
        OppositeCancels(c, P);
        ReducedNorm(c, P);
        if Reduced(c, Q) {
          PlusCloses(c, P, Q);
          PlusCommutes(c, P, Q);
        }
      }
    }
  }

  lemma PlusCloses(c: Curve, P: Point, Q: Point)
    requires IsPrime(c.p) && Reduced(c, P) && Reduced(c, Q)
    ensures Reduced(c, Plus(c, P, Q))
  {
    ReducedNorm(c, P);
    ReducedNorm(c, Q);
    AddCloses(c, P, Q);
    NormReduced(c, Add(c, P, Q).value);
  }
}
