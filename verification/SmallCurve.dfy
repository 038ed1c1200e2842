/** Two curves small enough to list their points. On the first every hypothesis of the signature theorems holds outright,
    and its signatures show each of their outcomes; on the second a point of order four cannot be multiplied by four. */
module SmallCurve {
  import opened Wrappers
  import opened Modular
  import opened InverseMod
  import opened Points = Curve
  import opened CurveGroup
  import opened ScalarMul
  import opened Ecdsa
  import opened Acceptance
  import opened Bytes
  import opened Base58
  import opened MessageSigning

  const SMALL := Points.Curve(11, 2, 7)
  const GENERATOR := Affine(6, 2, 7)

  /** The multiples of (6, 2). */
  function Pt(k: nat): Point
    requires k < 7
  {
    match k
    case 0 => Infinity
    case 1 => Affine(6, 2, 0)
    case 2 => Affine(10, 9, 0)
    case 3 => Affine(7, 10, 0)
    case 4 => Affine(7, 1, 0)
    case 5 => Affine(10, 2, 0)
    case 6 => Affine(6, 9, 0)
  }

  lemma Primes()
    ensures IsPrime(11) && IsPrime(7)
  {
  }

  // ----- the points -----

  function Square(y: nat): nat
    requires y < 11
  {
    match y
    case 0 => 0 case 1 => 1 case 2 => 4 case 3 => 9 case 4 => 5 case 5 => 3
    case 6 => 3 case 7 => 5 case 8 => 9 case 9 => 4 case 10 => 1
  }

  function Cubic(x: nat): nat
    requires x < 11
  {
    match x
    case 0 => 7 case 1 => 10 case 2 => 8 case 3 => 7 case 4 => 2 case 5 => 10
    case 6 => 4 case 7 => 1 case 8 => 7 case 9 => 6 case 10 => 4
  }

  lemma SquareIs(y: nat)
    requires y < 11
    ensures (y * y) % 11 == Square(y)
  {
    match y { case 0 => case 1 => case 2 => case 3 => case 4 => case 5 => case 6 => case 7 => case 8 => case 9 => case 10 => }
  }

  lemma CubicIs(x: nat)
    requires x < 11
    ensures (x * x * x + 2 * x + 7) % 11 == Cubic(x)
  {
    hide Cubic;
    if x < 4 { FirstCubics(x); } else if x < 8 { MiddleCubics(x); } else { LastCubics(x); }
  }

  lemma FirstCubics(x: nat)
    requires x < 4
    ensures (x * x * x + 2 * x + 7) % 11 == Cubic(x)
  {
    match x { case 0 => case 1 => case 2 => case 3 => }
  }

  lemma MiddleCubics(x: nat)
    requires 4 <= x < 8
    ensures (x * x * x + 2 * x + 7) % 11 == Cubic(x)
  {
    match x { case 4 => case 5 => case 6 => case 7 => }
  }

  lemma LastCubics(x: nat)
    requires 8 <= x < 11
    ensures (x * x * x + 2 * x + 7) % 11 == Cubic(x)
  {
    match x { case 8 => case 9 => case 10 => }
  }

  lemma OnCurve(x: nat, y: nat)
    requires x < 11 && y < 11
    ensures ContainsPoint(SMALL, x, y) <==> Square(y) == Cubic(x)
  {
    hide Square, Cubic;
    SquareIs(y);
    CubicIs(x);
    CongEqual(y * y, x * x * x + 2 * x + 7, 11);
  }

  lemma Solutions(x: nat, y: nat) returns (k: nat)
    requires x < 11 && y < 11 && Square(y) == Cubic(x)
    ensures 0 < k < 7 && Pt(k) == Affine(x, y, 0)
  {
    if x == 6 {
      k := if y == 2 then 1 else 6;
    } else if x == 10 {
      k := if y == 2 then 5 else 2;
    } else {
      k := if y == 1 then 4 else 3;
    }
  }

  lemma PtReduced(k: nat)
    requires k < 7
    ensures Reduced(SMALL, Pt(k))
  {
    hide ContainsPoint;
    if k > 0 { OnCurve(Pt(k).x, Pt(k).y); }
  }

  /** There are no other points. */
  lemma PtAll(P: Point) returns (k: nat)
    requires Reduced(SMALL, P)
    ensures k < 7 && P == Pt(k)
  {
    hide ContainsPoint, Pt;
    if P.Infinity? {
      assert Pt(0) == Infinity by { PtZero(); }
      k := 0;
    } else {
      OnCurve(P.x, P.y);
      k := Solutions(P.x, P.y);
    }
  }

  lemma PtZero()
    ensures Pt(0) == Infinity
  {
  }

  // ----- the addition table -----

  /** Counting round the seven points. */
  function Wrap(k: nat): (r: nat)
    requires k < 14
    ensures r < 7
  {
    if k < 7 then k else k - 7
  }

  /** (x3, y3) is where the chord of slope l leads, inv inverting the distance of the two x modulo 11; the other numbers
      are the quotients. */
  predicate IsChord(x1: int, y1: int, x2: int, y2: int, inv: int, l: int, x3: int, y3: int, a: int, b: int, c: int, d: int) {
    && x1 != x2 && 1 <= inv < 11 && (x2 - x1) * inv == 11 * a + 1 && (y2 - y1) * inv == 11 * b + l
    && l * l - x1 - x2 == 11 * c + x3 && l * (x1 - x3) - y1 == 11 * d + y3
    && 0 <= l < 11 && 0 <= x3 < 11 && 0 <= y3 < 11
  }

  /** (x3, y3) is where the tangent of slope l leads, inv inverting twice the y. */
  predicate IsTangent(x: int, y: int, inv: int, l: int, x3: int, y3: int, a: int, b: int, c: int, d: int) {
    && 1 <= inv < 11 && 2 * y * inv == 11 * a + 1 && (3 * x * x + 2) * inv == 11 * b + l
    && l * l - x - x == 11 * c + x3 && l * (x - x3) - y == 11 * d + y3
    && 0 <= l < 11 && 0 <= x3 < 11 && 0 <= y3 < 11
  }

  lemma Slope(x1: int, y1: int, x2: int, l: int, x3: int, y3: int, k: nat, c: int, d: int)
    requires 0 < k < 7 && Pt(k) == Affine(x3, y3, 0) && 0 <= x3 < 11 && 0 <= y3 < 11
    requires l * l - x1 - x2 == 11 * c + x3 && l * (x1 - x3) - y1 == 11 * d + y3
    ensures FromSlope(SMALL, x1, y1, x2, l) == Some(Pt(k)) && Norm(SMALL, Pt(k)) == Pt(k)
  {
    hide ContainsPoint, Pt;
    PtReduced(k);
    ModUnique(l * l - x1 - x2, c, x3, 11);
    ModUnique(l * (x1 - x3) - y1, d, y3, 11);
    ModSmall(y3, 11);
  }

  /** A sum of points with different x. */
  lemma ChordSum(x1: int, y1: int, x2: int, y2: int, inv: int, l: int, x3: int, y3: int, k: nat, a: int, b: int, c: int, d: int)
    requires 0 < k < 7 && Pt(k) == Affine(x3, y3, 0) && IsChord(x1, y1, x2, y2, inv, l, x3, y3, a, b, c, d)
    ensures Plus(SMALL, Affine(x1, y1, 0), Affine(x2, y2, 0)) == Pt(k)
  {
    hide ModInverse, IsInverse, Pt, FromSlope, Norm;
    Slope(x1, y1, x2, l, x3, y3, k, c, d);
    ModUnique((x2 - x1) * inv, a, 1, 11);
    ModUnique((y2 - y1) * inv, b, l, 11);
    InverseIs(x2 - x1, inv);
  }

  /** A sum of a point with itself. */
  lemma TangentSum(x: int, y: int, inv: int, l: int, x3: int, y3: int, k: nat, a: int, b: int, c: int, d: int)
    requires 0 < k < 7 && Pt(k) == Affine(x3, y3, 0) && IsTangent(x, y, inv, l, x3, y3, a, b, c, d)
    ensures Plus(SMALL, Affine(x, y, 0), Affine(x, y, 0)) == Pt(k)
  {
    hide ModInverse, IsInverse, Pt, FromSlope, Norm;
    Slope(x, y, x, l, x3, y3, k, c, d);
    ModUnique(2 * y * inv, a, 1, 11);
    ModUnique((3 * x * x + 2) * inv, b, l, 11);
    InverseIs(2 * y, inv);
    NotZero(y, inv, a);
  }

  lemma NotZero(y: int, inv: int, a: int)
    requires 2 * y * inv == 11 * a + 1
    ensures (y + y) % 11 != 0
  {
    if (y + y) % 11 == 0 {
      var q := (y + y) / 11;
      ModUnique(2 * y * inv, a, 1, 11);
      ModUnique(2 * y * inv, q * inv, 0, 11);
      assert false;
    }
  }

  lemma InverseIs(a: int, inv: int)
    requires 1 <= inv < 11 && (a * inv) % 11 == 1
    ensures ModInverse(a, 11) == Some(inv)
  {
    hide ModInverse;
    CongEqual(a * inv, 1, 11);
    HasInverse(a, inv, 11);
    InverseUnique(a, inv, ModInverse(a, 11).value, 11);
  }

  lemma Opposites(i: nat)
    requires 0 < i < 7
    ensures Plus(SMALL, Pt(i), Pt(7 - i)) == Pt(0)
  {
    hide Double, FromSlope, ModInverse, IsInverse;
  }

  // The sums of the i-th point with the j-th, for i up to j.

  lemma Sum11()
    ensures Plus(SMALL, Pt(1), Pt(1)) == Pt(2)
  {
    hide Plus;
    assert IsTangent(6, 2, 3, 0, 10, 9, 1, 30, -2, -1);
    hide IsTangent;
    TangentSum(6, 2, 3, 0, 10, 9, 2, 1, 30, -2, -1);
  }

  lemma Sum12()
    ensures Plus(SMALL, Pt(1), Pt(2)) == Pt(3)
  {
    hide Plus;
    assert IsChord(6, 2, 10, 9, 3, 10, 7, 10, 1, 1, 7, -2);
    hide IsChord;
    ChordSum(6, 2, 10, 9, 3, 10, 7, 10, 3, 1, 1, 7, -2);
  }

  lemma Sum13()
    ensures Plus(SMALL, Pt(1), Pt(3)) == Pt(4)
  {
    hide Plus;
    assert IsChord(6, 2, 7, 10, 1, 8, 7, 1, 0, 0, 4, -1);
    hide IsChord;
    ChordSum(6, 2, 7, 10, 1, 8, 7, 1, 4, 0, 0, 4, -1);
  }

  lemma Sum14()
    ensures Plus(SMALL, Pt(1), Pt(4)) == Pt(5)
  {
    hide Plus;
    assert IsChord(6, 2, 7, 1, 1, 10, 10, 2, 0, -1, 7, -4);
    hide IsChord;
    ChordSum(6, 2, 7, 1, 1, 10, 10, 2, 5, 0, -1, 7, -4);
  }

  lemma Sum15()
    ensures Plus(SMALL, Pt(1), Pt(5)) == Pt(6)
  {
    hide Plus;
    assert IsChord(6, 2, 10, 2, 3, 0, 6, 9, 1, 0, -2, -1);
    hide IsChord;
    ChordSum(6, 2, 10, 2, 3, 0, 6, 9, 6, 1, 0, -2, -1);
  }

  lemma Sum22()
    ensures Plus(SMALL, Pt(2), Pt(2)) == Pt(4)
  {
    hide Plus;
    assert IsTangent(10, 9, 8, 7, 7, 1, 13, 219, 2, 1);
    hide IsTangent;
    TangentSum(10, 9, 8, 7, 7, 1, 4, 13, 219, 2, 1);
  }

  lemma Numbers23()
    ensures IsChord(10, 9, 7, 10, 7, 7, 10, 2, -2, 0, 2, -1)
  {
  }

  lemma Sum23()
    ensures Plus(SMALL, Pt(2), Pt(3)) == Pt(5)
  {
    hide Plus, IsChord;
    Numbers23();
    ChordSum(10, 9, 7, 10, 7, 7, 10, 2, 5, -2, 0, 2, -1);
  }

  lemma Sum24()
    ensures Plus(SMALL, Pt(2), Pt(4)) == Pt(6)
  {
    hide Plus;
    assert IsChord(10, 9, 7, 1, 7, 10, 6, 9, -2, -6, 7, 2);
    hide IsChord;
    ChordSum(10, 9, 7, 1, 7, 10, 6, 9, 6, -2, -6, 7, 2);
  }

  lemma Sum26()
    ensures Plus(SMALL, Pt(2), Pt(6)) == Pt(1)
  {
    hide Plus;
    assert IsChord(10, 9, 6, 9, 8, 0, 6, 2, -3, 0, -2, -1);
    hide IsChord;
    ChordSum(10, 9, 6, 9, 8, 0, 6, 2, 1, -3, 0, -2, -1);
  }

  lemma Sum33()
    ensures Plus(SMALL, Pt(3), Pt(3)) == Pt(6)
  {
    hide Plus;
    assert IsTangent(7, 10, 5, 8, 6, 9, 9, 67, 4, -1);
    hide IsTangent;
    TangentSum(7, 10, 5, 8, 6, 9, 6, 9, 67, 4, -1);
  }

  lemma Sum35()
    ensures Plus(SMALL, Pt(3), Pt(5)) == Pt(1)
  {
    hide Plus;
    assert IsChord(7, 10, 10, 2, 4, 1, 6, 2, 1, -3, -2, -1);
    hide IsChord;
    ChordSum(7, 10, 10, 2, 4, 1, 6, 2, 1, 1, -3, -2, -1);
  }

  lemma Sum36()
    ensures Plus(SMALL, Pt(3), Pt(6)) == Pt(2)
  {
    hide Plus;
    assert IsChord(7, 10, 6, 9, 10, 1, 10, 9, -1, -1, -2, -2);
    hide IsChord;
    ChordSum(7, 10, 6, 9, 10, 1, 10, 9, 2, -1, -1, -2, -2);
  }

  lemma Sum44()
    ensures Plus(SMALL, Pt(4), Pt(4)) == Pt(1)
  {
    hide Plus;
    assert IsTangent(7, 1, 6, 3, 6, 2, 1, 81, -1, 0);
    hide IsTangent;
    TangentSum(7, 1, 6, 3, 6, 2, 1, 1, 81, -1, 0);
  }

  lemma Numbers45()
    ensures IsChord(7, 1, 10, 2, 4, 4, 10, 9, 1, 0, -1, -2)
  {
  }

  lemma Sum45()
    ensures Plus(SMALL, Pt(4), Pt(5)) == Pt(2)
  {
    hide Plus, IsChord;
    Numbers45();
    ChordSum(7, 1, 10, 2, 4, 4, 10, 9, 2, 1, 0, -1, -2);
  }

  lemma Sum46()
    ensures Plus(SMALL, Pt(4), Pt(6)) == Pt(3)
  {
    hide Plus;
    assert IsChord(7, 1, 6, 9, 10, 3, 7, 10, -1, 7, -1, -1);
    hide IsChord;
    ChordSum(7, 1, 6, 9, 10, 3, 7, 10, 3, -1, 7, -1, -1);
  }

  lemma Numbers55()
    ensures IsTangent(10, 2, 3, 4, 7, 10, 1, 82, -1, 0)
  {
  }

  lemma Sum55()
    ensures Plus(SMALL, Pt(5), Pt(5)) == Pt(3)
  {
    hide Plus, IsTangent;
    Numbers55();
    TangentSum(10, 2, 3, 4, 7, 10, 3, 1, 82, -1, 0);
  }

  lemma Sum56()
    ensures Plus(SMALL, Pt(5), Pt(6)) == Pt(4)
  {
    hide Plus;
    assert IsChord(10, 2, 6, 9, 8, 1, 7, 1, -3, 5, -2, 0);
    hide IsChord;
    ChordSum(10, 2, 6, 9, 8, 1, 7, 1, 4, -3, 5, -2, 0);
  }

  lemma Sum66()
    ensures Plus(SMALL, Pt(6), Pt(6)) == Pt(5)
  {
    hide Plus;
    assert IsTangent(6, 9, 8, 0, 10, 2, 13, 80, -2, -1);
    hide IsTangent;
    TangentSum(6, 9, 8, 0, 10, 2, 5, 13, 80, -2, -1);
  }

  lemma Row1(j: nat)
    requires 1 <= j < 7
    ensures Plus(SMALL, Pt(1), Pt(j)) == Pt(Wrap(1 + j))
  {
    hide Plus, Pt;
    match j {
      case 1 => Sum11();
      case 2 => Sum12();
      case 3 => Sum13();
      case 4 => Sum14();
      case 5 => Sum15();
      case 6 => Opposites(1);
    }
  }

  lemma Row2(j: nat)
    requires 2 <= j < 7
    ensures Plus(SMALL, Pt(2), Pt(j)) == Pt(Wrap(2 + j))
  {
    hide Plus, Pt;
    match j {
      case 2 => Sum22();
      case 3 => Sum23();
      case 4 => Sum24();
      case 5 => Opposites(2);
      case 6 => Sum26();
    }
  }

  lemma Row3(j: nat)
    requires 3 <= j < 7
    ensures Plus(SMALL, Pt(3), Pt(j)) == Pt(Wrap(3 + j))
  {
    hide Plus, Pt;
    match j {
      case 3 => Sum33();
      case 4 => Opposites(3);
      case 5 => Sum35();
      case 6 => Sum36();
    }
  }

  lemma Row4(j: nat)
    requires 4 <= j < 7
    ensures Plus(SMALL, Pt(4), Pt(j)) == Pt(Wrap(4 + j))
  {
    hide Plus, Pt;
    match j {
      case 4 => Sum44();
      case 5 => Sum45();
      case 6 => Sum46();
    }
  }

  lemma Row5(j: nat)
    requires 5 <= j < 7
    ensures Plus(SMALL, Pt(5), Pt(j)) == Pt(Wrap(5 + j))
  {
    hide Plus, Pt;
    match j {
      case 5 => Sum55();
      case 6 => Sum56();
    }
  }

  lemma Row6(j: nat)
    requires 6 <= j < 7
    ensures Plus(SMALL, Pt(6), Pt(j)) == Pt(Wrap(6 + j))
  {
    hide Plus, Pt;
    match j {
      case 6 => Sum66();
    }
  }

  lemma Table(i: nat, j: nat)
    requires i < 7 && j < 7
    ensures Plus(SMALL, Pt(i), Pt(j)) == Pt(Wrap(i + j))
  {
    hide Plus, Pt;
    PtReduced(i);
    PtReduced(j);
    if i == 0 || j == 0 {
      PtZero();
      WithInfinity(Pt(i));
      WithInfinity(Pt(j));
    } else if i <= j {
      TableUp(i, j);
    } else {
      Primes();
      PlusCommutes(SMALL, Pt(i), Pt(j));
      TableUp(j, i);
    }
  }

  lemma TableUp(i: nat, j: nat)
    requires 0 < i <= j < 7
    ensures Plus(SMALL, Pt(i), Pt(j)) == Pt(Wrap(i + j))
  {
    hide Plus, Pt;
    match i {
      case 1 => Row1(j);
      case 2 => Row2(j);
      case 3 => Row3(j);
      case 4 => Row4(j);
      case 5 => Row5(j);
      case 6 => Row6(j);
    }
  }

  lemma WithInfinity(P: Point)
    requires Reduced(SMALL, P)
    ensures Plus(SMALL, P, Infinity) == P && Plus(SMALL, Infinity, P) == P
  {
    ReducedNorm(SMALL, P);
  }

  lemma AnyThree(P: Point, Q: Point, R: Point)
    ensures AssociativeAt(SMALL, P, Q, R)
  {
    hide Reduced, Plus, Pt;
    if Reduced(SMALL, P) && Reduced(SMALL, Q) && Reduced(SMALL, R) {
      var i := PtAll(P);
      var j := PtAll(Q);
      var k := PtAll(R);
      Table(i, j);
      Table(j, k);
      Table(Wrap(i + j), k);
      Table(i, Wrap(j + k));
    }
  }

  lemma SmallAssociative()
    ensures Associative(SMALL)
  {
    hide AssociativeAt;
    forall P, Q, R ensures AssociativeAt(SMALL, P, Q, R) { AnyThree(P, Q, R); }
  }

  // ----- the domain -----

  lemma SmallGround()
    ensures Ground(SMALL, GENERATOR)
  {
    hide IsPrime, Associative, ContainsPoint;
    Primes();
    SmallAssociative();
    OnCurve(6, 2);
  }

  lemma {:induction false} SmallMultiple(k: nat)
    requires Ground(SMALL, GENERATOR) && k <= 7
    ensures Multiple(SMALL, GENERATOR, k) == Pt(Wrap(k))
  {
    hide Ground, Multiple, Pt, Plus;
    if k == 0 {
      MultipleZero(SMALL, GENERATOR);
      PtZero();
    } else {
      SmallMultiple(k - 1);
      MultipleSum(SMALL, GENERATOR, k - 1, 1);
      MultipleOne(SMALL, GENERATOR);
      GeneratorNorm();
      Table(k - 1, 1);
    }
  }

  lemma GeneratorNorm()
    ensures Norm(SMALL, GENERATOR) == Pt(1)
  {
  }

  /** The domain asked for by the signature theorems, where signing can succeed. */
  lemma DomainExists()
    ensures Domain(SMALL, GENERATOR) && SMALL.p % 4 == 3 && GENERATOR.y >= 0
  {
    hide Ground, Multiple, Pt, IsPrime;
    Primes();
    SmallGround();
    SmallMultiple(7);
    PtZero();
  }

  // ----- signatures -----

  /** Multiplication finds the listed points. */
  lemma SmallMul(k: nat)
    requires 0 < k < 7
    ensures Mul(SMALL, GENERATOR, k).Some? && Mul(SMALL, GENERATOR, k).value.Affine?
    ensures Mul(SMALL, GENERATOR, k).value.x == Pt(k).x && Norm(SMALL, Mul(SMALL, GENERATOR, k).value) == Pt(k)
  {
    hide Ground, Multiple, Mul;
    DomainExists();
    MulIsMultiple(SMALL, GENERATOR, 7, k);
    SmallMultiple(k);
  }

  /** The secret 1 signs with the number k, whose inverse modulo 7 is given. */
  lemma SmallSign(hash: int, k: nat, inv: int)
    requires 0 < k < 7 && 1 <= inv < 7 && (k * inv) % 7 == 1 && (inv * (hash + Pt(k).x % 7)) % 7 != 0
    ensures Sign(SMALL, GENERATOR, 1, hash, k) == Some(Signature(Pt(k).x, (inv * (hash + Pt(k).x % 7)) % 7))
  {
    hide Mul, ModInverse;
    SmallMul(k);
    ModSmall(k, 7);
    CongEqual(k * inv, 1, 7);
    HasInverse(k, inv, 7);
    InverseUnique(k, inv, ModInverse(k, 7).value, 7);
  }

  lemma SmallKey()
    requires Domain(SMALL, GENERATOR)
    ensures IsKey(SMALL, GENERATOR, 1, GENERATOR)
  {
    GeneratorIsKey(SMALL, GENERATOR);
  }

  lemma SmallCase(k: nat)
    requires 0 < k < 7
    ensures RightCase(SMALL, GENERATOR, k, Pt(k).y % 2)
  {
    hide Mul;
    SmallMul(k);
    ModSmall(k, 7);
  }

  /** With k = 1 the signature has r = 6 and verifies. */
  lemma ReducedSignature()
    ensures Sign(SMALL, GENERATOR, 1, 0, 1) == Some(Signature(6, 6))
    ensures Verify(SMALL, GENERATOR, GENERATOR, 0, Signature(6, 6)) == Some(true)
  {
    hide Sign, Verify, IsKey, Domain;
    SmallSign(0, 1, 1);
    DomainExists();
    SmallKey();
    SignedVerifies(SMALL, GENERATOR, 1, GENERATOR, 0, 1);
  }

  /** With k = 2 it has r = 10, above the order: it does not verify, yet its key is recovered. */
  lemma UnreducedSignature()
    ensures Sign(SMALL, GENERATOR, 1, 0, 2) == Some(Signature(10, 5))
    ensures Verify(SMALL, GENERATOR, GENERATOR, 0, Signature(10, 5)) == Some(false)
    ensures Domain(SMALL, GENERATOR) && Recover(SMALL, GENERATOR, 1, Signature(10, 5), 0).Some?
    ensures IsKey(SMALL, GENERATOR, 1, Recover(SMALL, GENERATOR, 1, Signature(10, 5), 0).value)
  {
    hide Sign, Verify, Recover, IsKey, Domain, RightCase;
    SmallSign(0, 2, 4);
    DomainExists();
    SmallKey();
    SignedVerifies(SMALL, GENERATOR, 1, GENERATOR, 0, 2);
    SmallCase(2);
    RecoverFindsKey(SMALL, GENERATOR, 1, 0, 2, 1);
  }

  /** With k = 3 it has r = 7, the order itself: its key is not recovered. */
  lemma UnrecoverableSignature()
    ensures Sign(SMALL, GENERATOR, 1, 1, 3) == Some(Signature(7, 5))
    ensures Recover(SMALL, GENERATOR, 0, Signature(7, 5), 1).None?
  {
    hide Sign, Recover, IsKey, Domain, RightCase;
    SmallSign(1, 3, 5);
    DomainExists();
    SmallCase(3);
    RecoverFindsKey(SMALL, GENERATOR, 1, 1, 3, 0);
  }

  /** Every point is a multiple of the generator. */
  lemma SmallCyclic()
    ensures Domain(SMALL, GENERATOR) && Cyclic(SMALL, GENERATOR)
  {
    hide Domain, Multiple, Reduced, Pt;
    DomainExists();
    SmallGround();
    forall P | Reduced(SMALL, P) ensures exists k: nat :: k < 7 && Multiple(SMALL, GENERATOR, k) == P {
      var k := PtAll(P);
      SmallMultiple(k);
    }
  }

  /** A pair in range that is no signature is rejected: the only k of its equation is 4, whose point has x = 7. */
  lemma RejectedSignature()
    ensures Verify(SMALL, GENERATOR, GENERATOR, 0, Signature(6, 5)) == Some(false)
  {
    hide Verify, IsKey, Domain, Multiple, SignedWith;
    DomainExists();
    SmallKey();
    SmallGround();
    SmallMultiple(4);
    CongEqual(5 * 4, 0 + 1 * 6, 7);
    OnlySolution(SMALL, GENERATOR, 1, 0, Signature(6, 5), 4);
    VerifyExact(SMALL, GENERATOR, 1, GENERATOR, 0, Signature(6, 5));
    var v := Verify(SMALL, GENERATOR, GENERATOR, 0, Signature(6, 5));
    assert v != Some(true) && v != None;
    assert !v.value;
  }

  // ----- a case that wraps around the field -----

  const TINY := Points.Curve(3, 2, 1)

  lemma TimesOneIsSame(P: Point)
    requires P.Affine? && P.order == 7 && ContainsPoint(TINY, P.x, -P.y)
    ensures Mul(TINY, P, 1) == Some(P)
  {
    assert LeftmostBit(3) == 2;
    ModSmall(1, 7);
  }

  /** With r = 1 the third case stands for x = 8 modulo 3: the key recovered does not accept the signature. */
  lemma WrappedCase()
    ensures Recover(TINY, Affine(0, 1, 7), 2, Signature(1, 1), 0) == Some(Affine(2, 2, 7))
    ensures Verify(TINY, Affine(0, 1, 7), Affine(2, 2, 7), 0, Signature(1, 1)) == Some(false)
  {
    hide ModInverse, MulPositive, LiftY;
    TimesOneIsSame(Affine(2, 2, 7));
    HasInverse(1, 1, 7);
    InverseUnique(1, 1, ModInverse(1, 7).value, 7);
    TinyLift();
  }

  lemma TinyLift()
    ensures LiftY(TINY, 2, 2) == 2 && ContainsPoint(TINY, 2, 2)
  {
    assert Pow(2, 3) == 8 by { assert Pow(2, 3) == 2 * Pow(2, 2) && Pow(2, 2) == 2 * Pow(2, 1) && Pow(2, 1) == 2 * Pow(2, 0); }
    assert Pow(1, 1) == 1;
  }

  // ----- a signed message -----

  function SomeHashes(): Hashes {
    Hashes(_ => seq(20, _ => 0), _ => seq(4, _ => 0))
  }

  /** The number one in 32 bytes. */
  function SecretOne(): (s: seq<byte>)
    ensures |s| == 32
  {
    seq(31, _ => 0) + [1]
  }

  lemma {:induction false} ZeroBytes(n: nat)
    ensures Value(seq(n, _ => 0), 256) == 0
  {
    if n > 0 {
      ZeroBytes(n - 1);
      assert seq(n, _ => 0)[..n - 1] == seq(n - 1, _ => 0);
    }
  }

  lemma SecretValue()
    ensures Value(SecretOne()[..32], 256) == 1
  {
    var s, z := SecretOne(), seq(31, _ => 0);
    assert s[..32] == s && s[..31] == z;
    ZeroBytes(31);
  }

  lemma {:induction false} PowAtLeast(n: nat)
    requires n > 0
    ensures Pow(256, n) >= 256
  {
    if n > 1 { PowAtLeast(n - 1); }
  }

  lemma SmallKeyAccepted()
    ensures Mul(SMALL, GENERATOR, 1) == Some(GENERATOR) && KeyAccepted(SMALL, GENERATOR, GENERATOR)
  {
    OrderCheckIsVacuous(SMALL, 6, 2, 7);
    assert LeftmostBit(3) == 2;
  }

  /** A message is signed on this curve, and read back under the signer's address. */
  lemma SignedMessage()
    ensures ValidHashes(SomeHashes())
    ensures var s := SignMessage(SMALL, GENERATOR, SomeHashes(), SecretOne(), 0, 1);
            s.Some? && FirstCase(SMALL, GENERATOR, SomeHashes(), s.value, 0, 0).Some?
  {
    hide Sign, Verify, Mul, KeyAccepted, Address, Serialize, Value, FirstCase, Domain, Pow;
    SmallKeyAccepted();
    SecretValue();
    ReducedSignature();
    DomainExists();
    PowAtLeast(32);
    SigningSucceeds(SMALL, GENERATOR, SomeHashes(), SecretOne(), 0, 1);
  }

  // ----- a point of order four -----

  const FOUR := Points.Curve(3, 1, 0)

  /** On y^2 = x^3 + x modulo 3 the point (2, 1) doubles to (0, 0), which doubles to infinity; multiplying by 4 raises. */
  lemma FourRaises()
    ensures Add(FOUR, Affine(2, 1, 0), Affine(2, 1, 0)) == Some(Affine(0, 0, 0))
    ensures Add(FOUR, Affine(0, 0, 0), Affine(0, 0, 0)) == Some(Infinity)
    ensures Mul(FOUR, Affine(2, 1, 0), 4).None?
  {
    hide ModInverse, LeftmostBit, Double, IsInverse, MulLoop;
    FourInverses();
    FourTop();
    FourDoubles();
    FourPasses();
  }

  lemma FourPasses()
    requires Double(FOUR, Affine(2, 1, 0)) == Some(Affine(0, 0, 0)) && Double(FOUR, Affine(0, 0, 0)).None?
    ensures MulLoop(FOUR, Affine(2, 1, 0), Affine(2, -1, 0), 4, 4, Affine(2, 1, 0)).None?
  {
    hide Double, Add;
  }

  lemma FourTop()
    ensures LeftmostBit(12) == 8
  {
    assert LeftmostBit(3) == 2 && LeftmostBit(6) == 4;
  }

  lemma FourInverses()
    ensures ModInverse(2, 3) == Some(2) && ModInverse(0, 3).None?
  {
    hide ModInverse;
    CongEqual(2 * 2, 1, 3);
    HasInverse(2, 2, 3);
    InverseUnique(2, 2, ModInverse(2, 3).value, 3);
    NoInverse(3);
  }

  lemma NoInverse(m: int)
    requires m >= 2
    ensures ModInverse(0, m).None?
  {
    hide ModInverse;
    CongEqual(0, 1, m);
    ModSmall(0, m);
    ModSmall(1, m);
    forall x ensures !IsInverse(0, x, m) { assert 0 * x == 0; }
  }

  lemma FourDoubles()
    requires ModInverse(2, 3) == Some(2) && ModInverse(0, 3).None?
    ensures Double(FOUR, Affine(2, 1, 0)) == Some(Affine(0, 0, 0)) && Double(FOUR, Affine(0, 0, 0)).None?
  {
    hide ModInverse, IsInverse, FromSlope;
    QuarterSlopes();
  }

  /** Its four points, as multiples of (2, 1). */
  function Quarter(k: nat): Point
    requires k < 4
  {
    match k
    case 0 => Infinity
    case 1 => Affine(2, 1, 0)
    case 2 => Affine(0, 0, 0)
    case 3 => Affine(2, 2, 0)
  }

  lemma ThreeIsPrime()
    ensures IsPrime(3)
  {
  }

  lemma QuarterOnCurve(x: nat, y: nat)
    requires x < 3 && y < 3
    ensures ContainsPoint(FOUR, x, y) <==> (x == 0 && y == 0) || (x == 2 && y != 0)
  {
    hide Defect;
    QuarterDefect(x, y);
    if x == 0 { QuarterColumn(0, y); } else if x == 1 { QuarterColumn(2, y); } else { QuarterColumn(10, y); }
  }

  lemma QuarterDefect(x: nat, y: nat)
    requires x < 3
    ensures Defect(FOUR, x, y) == y * y - (if x == 0 then 0 else if x == 1 then 2 else 10)
  {
  }

  lemma QuarterColumn(k: int, y: nat)
    requires (k == 0 || k == 2 || k == 10) && y < 3
    ensures (y * y - k) % 3 == 0 <==> (k == 0 && y == 0) || (k == 10 && y != 0)
  {
    if y == 0 { assert y * y == 0; } else if y == 1 { assert y * y == 1; } else { assert y * y == 4; }
  }

  lemma QuarterAll(P: Point) returns (k: nat)
    requires Reduced(FOUR, P)
    ensures k < 4 && P == Quarter(k)
  {
    hide ContainsPoint;
    if P.Infinity? { return 0; }
    QuarterOnCurve(P.x, P.y);
    k := if P.x == 0 then 2 else if P.y == 1 then 1 else 3;
  }

  lemma QuarterReduced(k: nat)
    requires k < 4
    ensures Reduced(FOUR, Quarter(k))
  {
    hide ContainsPoint;
    if k > 0 { QuarterOnCurve(Quarter(k).x, Quarter(k).y); }
  }

  lemma FourInverse(a: int, inv: int)
    requires (inv == 1 || inv == 2) && (a * inv) % 3 == 1
    ensures ModInverse(a, 3) == Some(inv)
  {
    hide ModInverse;
    CongEqual(a * inv, 1, 3);
    HasInverse(a, inv, 3);
    InverseUnique(a, inv, ModInverse(a, 3).value, 3);
  }

  lemma QuarterDoubles()
    ensures Plus(FOUR, Quarter(1), Quarter(1)) == Quarter(2) && Plus(FOUR, Quarter(3), Quarter(3)) == Quarter(2)
  {
    hide ModInverse, IsInverse, FromSlope;
    FourInverse(2, 2);
    FourInverse(4, 1);
    QuarterSlopes();
  }

  lemma QuarterChords()
    ensures Plus(FOUR, Quarter(1), Quarter(2)) == Quarter(3) && Plus(FOUR, Quarter(2), Quarter(3)) == Quarter(1)
  {
    hide ModInverse, IsInverse, FromSlope;
    FourInverse(-2, 1);
    FourInverse(2, 2);
    QuarterSlopes();
  }

  lemma QuarterOpposites()
    ensures Plus(FOUR, Quarter(1), Quarter(3)) == Infinity && Plus(FOUR, Quarter(2), Quarter(2)) == Infinity
  {
    hide Double, FromSlope, ModInverse, IsInverse;
  }

  lemma QuarterSlopes()
    ensures FromSlope(FOUR, 2, 1, 2, 2) == Some(Affine(0, 0, 0)) && FromSlope(FOUR, 2, 2, 2, 1) == Some(Affine(0, 0, 0))
    ensures FromSlope(FOUR, 2, 1, 0, 2) == Some(Affine(2, 2, 0)) && FromSlope(FOUR, 0, 0, 2, 1) == Some(Affine(2, 1, 0))
  {
    hide ContainsPoint;
    QuarterOnCurve(0, 0);
    QuarterOnCurve(2, 1);
    QuarterOnCurve(2, 2);
  }

  lemma QuarterTable(i: nat, j: nat)
    requires i < 4 && j < 4
    ensures Plus(FOUR, Quarter(i), Quarter(j)) == Quarter(Wrap4(i + j))
  {
    hide Plus, Quarter;
    QuarterReduced(i);
    QuarterReduced(j);
    if i == 0 || j == 0 {
      QuarterZero();
      FourWithInfinity(Quarter(i));
      FourWithInfinity(Quarter(j));
    } else if i <= j {
      QuarterUp(i, j);
    } else {
      ThreeIsPrime();
      PlusCommutes(FOUR, Quarter(i), Quarter(j));
      QuarterUp(j, i);
    }
  }

  function Wrap4(k: nat): (r: nat)
    requires k < 8
    ensures r < 4
  {
    if k < 4 then k else k - 4
  }

  lemma QuarterZero()
    ensures Quarter(0) == Infinity
  {
  }

  lemma QuarterUp(i: nat, j: nat)
    requires 0 < i <= j < 4
    ensures Plus(FOUR, Quarter(i), Quarter(j)) == Quarter(Wrap4(i + j))
  {
    hide Plus, Quarter;
    QuarterZero();
    if i + j == 4 {
      QuarterOpposites();
    } else if i == j {
      QuarterDoubles();
    } else {
      QuarterChords();
    }
  }

  lemma FourWithInfinity(P: Point)
    requires Reduced(FOUR, P)
    ensures Plus(FOUR, P, Infinity) == P && Plus(FOUR, Infinity, P) == P
  {
    ReducedNorm(FOUR, P);
  }

  lemma FourAssociative()
    ensures Associative(FOUR)
  {
    hide Reduced, Plus, Quarter;
    forall P, Q, R ensures AssociativeAt(FOUR, P, Q, R) {
      if Reduced(FOUR, P) && Reduced(FOUR, Q) && Reduced(FOUR, R) {
        var i := QuarterAll(P);
        var j := QuarterAll(Q);
        var k := QuarterAll(R);
        QuarterTable(i, j);
        QuarterTable(j, k);
        QuarterTable(Wrap4(i + j), k);
        QuarterTable(i, Wrap4(j + k));
      }
    }
  }

  lemma {:induction false} QuarterMultiple(k: nat)
    requires Ground(FOUR, Quarter(1)) && k <= 4
    ensures Multiple(FOUR, Quarter(1), k) == Quarter(if k < 4 then k else 0)
  {
    hide Ground, Multiple, Plus, Norm;
    if k == 0 {
      MultipleZero(FOUR, Quarter(1));
    } else {
      QuarterMultiple(k - 1);
      MultipleSum(FOUR, Quarter(1), k - 1, 1);
      MultipleOne(FOUR, Quarter(1));
      QuarterNorm();
      QuarterTable(k - 1, 1);
    }
  }

  lemma QuarterNorm()
    ensures Norm(FOUR, Quarter(1)) == Quarter(1)
  {
  }

  /** The point (2, 1) has order four in a group, so that the theorems about even orders apply to it. */
  lemma OrderFourExists()
    ensures Ground(FOUR, Affine(2, 1, 0)) && HasOrder(FOUR, Affine(2, 1, 0), 4)
    ensures Mul(FOUR, Affine(2, 1, 0), 3).None? && Mul(FOUR, Affine(2, 1, 0), 2).Some?
  {
    hide Associative, IsPrime, Multiple, Mul, ContainsPoint;
    ThreeIsPrime();
    FourAssociative();
    QuarterOnCurve(2, 1);
    assert Quarter(1) == Affine(2, 1, 0);
    QuarterMultiple(1);
    QuarterMultiple(2);
    QuarterMultiple(3);
    QuarterMultiple(4);
    MulAbortsAtOrderFour(FOUR, Quarter(1), 3);
    MulAbortsAtOrderFour(FOUR, Quarter(1), 2);
  }
}
