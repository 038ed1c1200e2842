/** Multiples of a point, computed from the bits of 3e and e read together. */
module ScalarMul {
  import opened Wrappers
  import opened Modular
  import opened Curve
  import opened AbelianGroup
  import opened CurveGroup

  /** The largest power of two that is at most x. */
  function LeftmostBit(x: nat): (r: nat)
    requires x > 0
    ensures r <= x < 2 * r && IsPowerOfTwo(r)
  {
    if x == 1 then 1 else 2 * LeftmostBit(x / 2)
  }

  predicate IsPowerOfTwo(i: nat) {
    i == 1 || (i >= 2 && i % 2 == 0 && IsPowerOfTwo(i / 2))
  }

  /** The loop's remaining passes: bit i of 3e and of e decide whether P or its opposite N is added. */
  function MulLoop(c: Curve, P: Point, N: Point, e: nat, i: nat, result: Point): Option<Point>
    requires c.p > 0
    decreases i
  {
    if i <= 1 then Some(result)
    else
      var up, down := (3 * e / i) % 2 == 1, (e / i) % 2 == 1;
      var doubled :- Double(c, result);
      var added :- if up && !down then Add(c, doubled, P) else Some(doubled);
      var next :- if !up && down then Add(c, added, N) else Some(added);
      MulLoop(c, P, N, e, i / 2, next)
  }

  /** The multiplier the program works with: reduced when the point carries an order. */
  function Multiplier(P: Point, e: int): int {
    if P.Affine? && P.order != 0 then e % P.order else e
  }

  /** k * P for a positive k, from the highest bit of 3k down. */
  function MulPositive(c: Curve, P: Point, k: nat): Option<Point>
    requires c.p > 0 && P.Affine? && k > 0
  {
    var N :- MakePoint(c, P.x, -P.y, P.order);
    MulLoop(c, P, N, k, LeftmostBit(3 * k) / 2, P)
  }

  /** e * P; None when an assertion of the program fails on the way. */
  function Mul(c: Curve, P: Point, e: int): Option<Point>
    requires c.p > 0
  {
    var k := Multiplier(P, e);
    if k == 0 || P.Infinity? then Some(Infinity)
    else if k < 0 then None
    else MulPositive(c, P, k)
  }

  method Multiply(c: Curve, P: Point, e: int) returns (r: Option<Point>)
    requires c.p > 0
    ensures r == Mul(c, P, e)
  {
    hide MulLoop, LeftmostBit;
    var k := Multiplier(P, e);
    if k == 0 || P.Infinity? { return Some(Infinity); }
    if k < 0 { return None; }
    var N := MakePoint(c, P.x, -P.y, P.order);
    if N.None? { return None; }
    var bit := HighestBit(3 * k);
    r := RunPasses(c, P, N.value, k, bit / 2);
  }

  /** The passes of the loop, from bit i down. */
  method RunPasses(c: Curve, P: Point, N: Point, e: nat, start: nat) returns (r: Option<Point>)
    requires c.p > 0
    ensures r == MulLoop(c, P, N, e, start, P)
  {
    hide Add, Double;
    var i, result := start, P;
    while i > 1
      invariant i >= 0 && MulLoop(c, P, N, e, i, result) == MulLoop(c, P, N, e, start, P)
    {
      var up, down := (3 * e / i) % 2 == 1, (e / i) % 2 == 1;
      var next := Double(c, result);
      if next.None? { return None; }
      if up && !down {
        next := Add(c, next.value, P);
        if next.None? { return None; }
      }
      if !up && down {
        next := Add(c, next.value, N);
        if next.None? { return None; }
      }
      result := next.value;
      i := i / 2;
    }
    return Some(result);
  }

  method HighestBit(x: nat) returns (r: nat)
    requires x > 0
    ensures r == LeftmostBit(x)
  {
    hide LeftmostBit;
    var bit := 1;
    ghost var goal := LeftmostBit(x);
    while bit <= x
      invariant 1 <= bit <= 2 * goal && IsPowerOfTwo(bit)
      decreases x + 1 - bit
    {
      if bit > goal { PowersApart(bit, goal); }
      bit := 2 * bit;
    }
    PowersApart(bit, goal);
    r := bit / 2;
  }

  /** Of two powers of two, the larger is at least twice the smaller. */
  lemma {:induction false} PowersApart(a: nat, b: nat)
    requires IsPowerOfTwo(a) && IsPowerOfTwo(b)
    ensures a > b ==> a >= 2 * b
    ensures b > a ==> b >= 2 * a
  {
    if a > 1 && b > 1 {
      PowersApart(a / 2, b / 2);
    }
  }

  // ----- the e-fold sum -----

  /** How many copies of the point the loop has collected when bit i comes next. */
  function Collected(e: nat, i: nat): int
    requires i > 0
  {
    3 * e / (2 * i) - e / (2 * i)
  }

  lemma Halve(x: nat, i: nat)
    requires i > 0
    ensures x / i == 2 * (x / (2 * i)) + (x / i) % 2
  {
    var q := x / i;
    var r := x % i + i * (q % 2);
    assert x == i * q + x % i && q == 2 * (q / 2) + q % 2;
    assert x == (2 * i) * (q / 2) + r by {
      assert i * q == i * (2 * (q / 2)) + i * (q % 2);
    }
    ModUnique(x, q / 2, r, 2 * i);
  }

  lemma CollectedStep(e: nat, i: nat)
    requires i > 1 && i % 2 == 0
    ensures Collected(e, i / 2) == 2 * Collected(e, i) + (3 * e / i) % 2 - (e / i) % 2
  {
    Halve(3 * e, i);
    Halve(e, i);
    assert 2 * (i / 2) == i;
  }

  lemma CollectedEnds(e: nat)
    requires e > 0
    ensures var top := LeftmostBit(3 * e) / 2; top >= 1 && IsPowerOfTwo(top) && Collected(e, top) == 1
    ensures Collected(e, 1) == e
  {
    var high := LeftmostBit(3 * e);
    PowersApart(2, high);
    assert 2 * (high / 2) == high;
    ModUnique(3 * e, 1, 3 * e - high, high);
    ModUnique(e, 0, e, high);
  }

  lemma CollectedPositive(e: nat, i: nat)
    requires i > 0
    ensures Collected(e, i) >= 0
  {
    var q := e / (2 * i);
    assert e == (2 * i) * q + e % (2 * i);
    assert 3 * e == (2 * i) * q + (2 * e + e % (2 * i));
    var t := 3 * e / (2 * i);
    assert t <= q - 1 ==> (2 * i) * t <= (2 * i) * (q - 1);
    assert (2 * i) * (q - 1) == (2 * i) * q - 2 * i;
  }

  /** Where the program's addition is that of a group: a prime field, an associative addition, a point of the curve. */
  ghost predicate Ground(c: Curve, P: Point) {
    IsPrime(c.p) && Associative(c) && Valid(c, P)
  }

  /** k copies of P. */
  ghost function Multiple(c: Curve, P: Point, k: nat): (r: Point)
    requires Ground(c, P)
    ensures Reduced(c, r)
  {
    CurveIsGroup(c);
    NormReduced(c, P);
    var g := GroupOf(c);
    var r := Times(g, k, Norm(c, P));
    assert g.has(r);
    r
  }

  /** r is a valid point, namely k copies of P. */
  ghost predicate IsMultiple(c: Curve, P: Point, k: int, r: Option<Point>)
    requires Ground(c, P)
  {
    r.Some? && Valid(c, r.value) && k >= 0 && Norm(c, r.value) == Multiple(c, P, k)
  }

  /** A point that is its own opposite without being infinity: the points that doubling raises at. */
  ghost predicate OwnOpposite(c: Curve, Q: Point)
    requires c.p > 0
  {
    Q.Affine? && Cong(2 * Q.y, 0, c.p)
  }

  /** Doubling k copies raises exactly when they are their own opposite, and otherwise gives 2k copies. */
  lemma MultipleDoublesExactly(c: Curve, P: Point, k: nat, R: Point)
    requires Ground(c, P) && IsMultiple(c, P, k, Some(R))
    ensures Double(c, R).None? <==> OwnOpposite(c, Multiple(c, P, k))
    ensures Double(c, R).Some? ==> IsMultiple(c, P, 2 * k, Double(c, R))
  {
    hide Double, Plus, Add;
    DoubleCloses(c, R);
    SameOpposite(c, R);
    if Double(c, R).Some? {
      DoubleNorm(c, R);
      MultipleSum(c, P, k, k);
    }
  }

  lemma SameOpposite(c: Curve, R: Point)
    requires c.p > 0
    ensures OwnOpposite(c, R) <==> OwnOpposite(c, Norm(c, R))
  {
    if R.Infinity? { return; }
    var y := R.y % c.p;
    CongMod(R.y, c.p);
    CongAdd(R.y, y, R.y, y, c.p);
    CongEqual(2 * R.y, 2 * y, c.p);
    CongEqual(2 * R.y, 0, c.p);
    CongEqual(2 * y, 0, c.p);
  }

  lemma MultipleSum(c: Curve, P: Point, j: nat, k: nat)
    requires Ground(c, P)
    ensures Multiple(c, P, j + k) == Plus(c, Multiple(c, P, j), Multiple(c, P, k))
  {
    hide Plus;
    CurveIsGroup(c);
    NormReduced(c, P);
    TimesAdd(GroupOf(c), j, k, Norm(c, P));
  }

  lemma MultipleAdds(c: Curve, P: Point, k: nat, R: Point)
    requires Ground(c, P) && IsMultiple(c, P, k, Some(R))
    ensures IsMultiple(c, P, k + 1, Add(c, R, P))
    ensures k > 0 ==> IsMultiple(c, P, k - 1, Add(c, R, Negate(P)))
  {
    hide Add, Plus, Double;
    CurveIsGroup(c);
    NormReduced(c, P);
    var g, x := GroupOf(c), Norm(c, P);
    AddNorm(c, R, P);
    AddCloses(c, R, P);
    NegateValid(c, P);
    AddNorm(c, R, Negate(P));
    AddCloses(c, R, Negate(P));
    if k > 0 {
      NegateNorm(c, P);
      TimesPred(g, k, x);
    }
  }

  lemma NegateNorm(c: Curve, P: Point)
    requires Valid(c, P)
    ensures Norm(c, Negate(P)) == Opposite(c, Norm(c, P))
  {
    if P.Affine? {
      CongMod(P.y, c.p);
      CongRefl(0, c.p);
      CongAdd(0, 0, P.y, P.y % c.p, c.p);
      CongEqual(-P.y, -(P.y % c.p), c.p);
    }
  }

  // ----- when the loop raises, and what it returns otherwise -----

  /** The pass for bit i doubles a point that is its own opposite. */
  ghost predicate RaisesAt(c: Curve, P: Point, e: nat, i: nat)
    requires Ground(c, P) && i > 0
  {
    CollectedPositive(e, i);
    OwnOpposite(c, Multiple(c, P, Collected(e, i)))
  }

  /** Some pass from bit i down raises. */
  ghost predicate Blocked(c: Curve, P: Point, e: nat, i: nat)
    requires Ground(c, P)
  {
    exists j: nat :: 1 < j <= i && IsPowerOfTwo(j) && RaisesAt(c, P, e, j)
  }

  lemma BlockedStep(c: Curve, P: Point, e: nat, i: nat)
    requires Ground(c, P) && IsPowerOfTwo(i) && i > 1
    ensures Blocked(c, P, e, i) <==> RaisesAt(c, P, e, i) || Blocked(c, P, e, i / 2)
  {
    hide RaisesAt, Ground;
    if j: nat :| 1 < j <= i && IsPowerOfTwo(j) && RaisesAt(c, P, e, j) {
      PowersApart(i, j);
    }
  }

  /** What one pass of the loop leaves, when it does not raise. */
  function PassResult(c: Curve, P: Point, e: nat, i: nat, R: Point): Option<Point>
    requires c.p > 0 && i > 1
  {
    var up, down := (3 * e / i) % 2 == 1, (e / i) % 2 == 1;
    var D :- Double(c, R);
    if up && !down then Add(c, D, P) else if !up && down then Add(c, D, Negate(P)) else Some(D)
  }

  lemma PassUnfolds(c: Curve, P: Point, e: nat, i: nat, R: Point)
    requires c.p > 0 && i > 1
    ensures var next := PassResult(c, P, e, i, R);
            MulLoop(c, P, Negate(P), e, i, R) ==
            if next.None? then None else MulLoop(c, P, Negate(P), e, i / 2, next.value)
  {
    hide Double, Add;
  }

  /** One pass raises exactly when its doubling does, and otherwise collects the copies for the next bit. */
  lemma PassExact(c: Curve, P: Point, e: nat, i: nat, R: Point)
    requires Ground(c, P) && i > 1 && i % 2 == 0 && IsMultiple(c, P, Collected(e, i), Some(R))
    ensures PassResult(c, P, e, i, R).None? <==> RaisesAt(c, P, e, i)
    ensures PassResult(c, P, e, i, R).Some? ==> IsMultiple(c, P, Collected(e, i / 2), PassResult(c, P, e, i, R))
  {
    hide Double, Add, Plus, Norm, Multiple, Valid, OwnOpposite, Collected;
    var k := Collected(e, i);
    MultipleDoublesExactly(c, P, k, R);
    CollectedStep(e, i);
    CollectedPositive(e, i / 2);
    if Double(c, R).Some? { MultipleAdds(c, P, 2 * k, Double(c, R).value); }
  }

  /** The loop raises exactly when one of its passes meets a point that is its own opposite. Otherwise it keeps the
      accumulated point at the collected number of copies, up to the last bit. */
  lemma {:induction false} MulLoopCollects(c: Curve, P: Point, e: nat, i: nat, R: Point)
    requires Ground(c, P) && IsPowerOfTwo(i) && IsMultiple(c, P, Collected(e, i), Some(R))
    ensures var r := MulLoop(c, P, Negate(P), e, i, R);
            && (r.None? <==> Blocked(c, P, e, i))
            && (r.Some? ==> IsMultiple(c, P, Collected(e, 1), r))
    decreases i
  {
    hide IsMultiple, PassResult, RaisesAt, Collected, IsPrime, Associative;
    if i > 1 {
      hide MulLoop, Blocked;
      BlockedStep(c, P, e, i);
      PassUnfolds(c, P, e, i, R);
      PassExact(c, P, e, i, R);
      if PassResult(c, P, e, i, R).Some? { MulLoopCollects(c, P, e, i / 2, PassResult(c, P, e, i, R).value); }
    }
  }

  lemma MultipleZero(c: Curve, P: Point)
    requires Ground(c, P)
    ensures Multiple(c, P, 0) == Infinity
  {
    CurveIsGroup(c);
    NormReduced(c, P);
  }

  lemma MultipleOne(c: Curve, P: Point)
    requires Ground(c, P)
    ensures Multiple(c, P, 1) == Norm(c, P)
  {
    CurveIsGroup(c);
    NormReduced(c, P);
    TimesOne(GroupOf(c), Norm(c, P));
  }

  lemma NegateMakes(c: Curve, P: Point)
    requires Valid(c, P) && P.Affine?
    ensures MakePoint(c, P.x, -P.y, P.order) == Some(Negate(P))
  {
    NegateValid(c, P);
  }

  /** Some bit of e makes the loop raise; the bits above the first pass collect nothing. */
  ghost predicate SomePassRaises(c: Curve, P: Point, e: nat)
    requires Ground(c, P)
  {
    exists i: nat :: i > 1 && IsPowerOfTwo(i) && RaisesAt(c, P, e, i)
  }

  lemma HighBitsCollectNothing(e: nat, i: nat)
    requires i > 0 && 3 * e < 2 * i
    ensures Collected(e, i) == 0
  {
    ModUnique(3 * e, 0, 3 * e, 2 * i);
    ModUnique(e, 0, e, 2 * i);
  }

  lemma PassesFromTop(c: Curve, P: Point, e: nat)
    requires Ground(c, P) && e > 0
    ensures SomePassRaises(c, P, e) <==> Blocked(c, P, e, LeftmostBit(3 * e) / 2)
  {
    hide Multiple, Collected, Ground, LeftmostBit;
    var top := LeftmostBit(3 * e) / 2;
    CollectedEnds(e);
    MultipleZero(c, P);
    forall i: nat | i > 1 && IsPowerOfTwo(i) && RaisesAt(c, P, e, i) ensures i <= top {
      if i > top {
        PowersApart(i, top);
        HighBitsCollectNothing(e, i);
        assert false;
      }
    }
  }

  lemma MulPositiveExact(c: Curve, P: Point, k: nat)
    requires Ground(c, P) && P.Affine? && k > 0
    ensures MulPositive(c, P, k).None? <==> SomePassRaises(c, P, k)
    ensures MulPositive(c, P, k).Some? ==> IsMultiple(c, P, k, MulPositive(c, P, k))
  {
    hide MulLoop, Collected, LeftmostBit, Multiple, SomePassRaises, Blocked;
    var top := LeftmostBit(3 * k) / 2;
    CollectedEnds(k);
    MultipleOne(c, P);
    NegateMakes(c, P);
    PassesFromTop(c, P, k);
    MulLoopCollects(c, P, k, top, P);
  }

  /** Multiplication raises exactly for a negative multiplier, or when a pass doubles a point that is its own
      opposite; whatever it returns is the sum of that many copies. */
  lemma MulExact(c: Curve, P: Point, e: int)
    requires Ground(c, P)
    ensures var k := Multiplier(P, e);
            Mul(c, P, e).None? <==> P.Affine? && (k < 0 || (k > 0 && SomePassRaises(c, P, k)))
    ensures Mul(c, P, e).Some? ==>
              if P.Infinity? then Mul(c, P, e) == Some(Infinity) else IsMultiple(c, P, Multiplier(P, e), Mul(c, P, e))
  {
    hide MulPositive, SomePassRaises, Multiple;
    MultipleZero(c, P);
    if P.Affine? && Multiplier(P, e) > 0 { MulPositiveExact(c, P, Multiplier(P, e)); }
  }

  // ----- in terms of the point's order -----

  /** m is the least positive number of copies that cancel. */
  ghost predicate HasOrder(c: Curve, P: Point, m: nat)
    requires Ground(c, P)
  {
    && m > 0 && Multiple(c, P, m) == Infinity
    && forall j: nat | 0 < j < m :: Multiple(c, P, j) != Infinity
  }

  lemma VanishingMultiples(c: Curve, P: Point, m: nat, k: nat)
    requires Ground(c, P) && HasOrder(c, P, m)
    ensures Multiple(c, P, k) == Infinity <==> k % m == 0
  {
    CurveIsGroup(c);
    NormReduced(c, P);
    TimesMod(GroupOf(c), k, m, Norm(c, P));
    assert Multiple(c, P, k) == Multiple(c, P, k % m);
    MultipleZero(c, P);
  }

  lemma OppositeByDoubling(c: Curve, Q: Point)
    requires IsPrime(c.p) && Reduced(c, Q)
    ensures OwnOpposite(c, Q) <==> Q != Infinity && Plus(c, Q, Q) == Infinity
  {
    hide Double;
    ReducedNorm(c, Q);
    CongEqual(2 * (if Q.Affine? then Q.y else 0), 0, c.p);
    ModSmall(0, c.p);
    DoubleCloses(c, Q);
    DoubleAffine(c, Q);
  }

  lemma DoubleAffine(c: Curve, Q: Point)
    requires c.p > 0
    ensures Q.Affine? && Double(c, Q).Some? ==> Double(c, Q).value.Affine?
  {
  }

  lemma HalfOf(k: nat, m: nat)
    requires m > 0
    ensures k % m != 0 && (2 * k) % m == 0 <==> m % 2 == 0 && k % m == m / 2
  {
    var q, r := k / m, k % m;
    assert k == m * q + r;
    assert 2 * k == m * (2 * q) + 2 * r;
    if 2 * r < m {
      ModUnique(2 * k, 2 * q, 2 * r, m);
    } else {
      assert 2 * k == m * (2 * q + 1) + (2 * r - m) by { assert m * (2 * q + 1) == m * (2 * q) + m; }
      ModUnique(2 * k, 2 * q + 1, 2 * r - m, m);
    }
  }

  /** The copies that are their own opposite are those halfway round. */
  lemma HalfwayRound(c: Curve, P: Point, m: nat, k: nat)
    requires Ground(c, P) && HasOrder(c, P, m)
    ensures OwnOpposite(c, Multiple(c, P, k)) <==> m % 2 == 0 && k % m == m / 2
  {
    hide Plus, Multiple, HasOrder, OwnOpposite;
    assert m > 0 by { OrderPositive(c, P, m); }
    OppositeByDoubling(c, Multiple(c, P, k));
    MultipleSum(c, P, k, k);
    VanishingMultiples(c, P, m, k);
    VanishingMultiples(c, P, m, 2 * k);
    HalfOf(k, m);
  }

  lemma OrderPositive(c: Curve, P: Point, m: nat)
    requires Ground(c, P) && HasOrder(c, P, m)
    ensures m > 0
  {
  }

  /** Some bit i > 1 of k comes when the copies collected are halfway round an order m. */
  ghost predicate PassesHalfway(k: nat, m: nat) {
    m > 0 && m % 2 == 0 && exists i: nat :: i > 1 && IsPowerOfTwo(i) && Collected(k, i) % m == m / 2
  }

  /** The condition a caller can compute: for a point of order m, multiplication raises exactly for a negative
      multiplier, or when m is even and the copies collected before some bit are m / 2 modulo m. */
  lemma MulRaisesByOrder(c: Curve, P: Point, m: nat, e: int)
    requires Ground(c, P) && P.Affine? && HasOrder(c, P, m)
    ensures var k := Multiplier(P, e);
            Mul(c, P, e).None? <==> k < 0 || (k > 0 && PassesHalfway(k, m))
  {
    hide Mul, Ground, Collected, OwnOpposite, Multiple, HasOrder;
    var k := Multiplier(P, e);
    OrderPositive(c, P, m);
    MulExact(c, P, e);
    if k > 0 {
      forall i: nat | i > 1 ensures RaisesAt(c, P, k, i) <==> m % 2 == 0 && Collected(k, i) % m == m / 2 {
        CollectedPositive(k, i);
        HalfwayRound(c, P, m, Collected(k, i));
      }
    }
  }

  // ----- odd orders -----

  /** A point cancelled by n copies of itself, n odd, and with no other order attached. */
  ghost predicate Setting(c: Curve, P: Point, n: nat) {
    && Ground(c, P) && n % 2 == 1 && Multiple(c, P, n) == Infinity
    && (P.Affine? && P.order != 0 ==> P.order == n)
  }

  /** No multiple of such a point is its own opposite. */
  lemma OddNeverOpposite(c: Curve, P: Point, n: nat, k: nat)
    requires Setting(c, P, n)
    ensures !OwnOpposite(c, Multiple(c, P, k))
  {
    hide Plus, OwnOpposite;
    CurveIsGroup(c);
    NormReduced(c, P);
    OppositeByDoubling(c, Multiple(c, P, k));
    if Plus(c, Multiple(c, P, k), Multiple(c, P, k)) == Infinity { OddMultiples(GroupOf(c), n, k, Norm(c, P)); }
  }

  lemma MultipleDoubles(c: Curve, P: Point, n: nat, k: nat, R: Point)
    requires Setting(c, P, n) && IsMultiple(c, P, k, Some(R))
    ensures IsMultiple(c, P, 2 * k, Double(c, R))
  {
    hide Double, OwnOpposite;
    OddNeverOpposite(c, P, n, k);
    MultipleDoublesExactly(c, P, k, R);
  }

  /** Only the multiplier modulo the order matters. */
  lemma MultipleReduces(c: Curve, P: Point, n: nat, e: nat)
    requires Setting(c, P, n)
    ensures Multiplier(P, e) >= 0 && Multiple(c, P, Multiplier(P, e)) == Multiple(c, P, e)
    ensures P.Infinity? ==> Multiple(c, P, e) == Infinity
  {
    CurveIsGroup(c);
    NormReduced(c, P);
    if P.Infinity? {
      TimesZero(GroupOf(c), e);
    } else if P.order != 0 {
      TimesMod(GroupOf(c), e, n, Norm(c, P));
    }
  }

  /** Then multiplication never raises and gives the e-fold sum, whether or not e is reduced by the order. */
  lemma MulIsMultiple(c: Curve, P: Point, n: nat, e: nat)
    requires Setting(c, P, n)
    ensures IsMultiple(c, P, e, Mul(c, P, e))
  {
    hide Mul, Multiple, OwnOpposite;
    MultipleReduces(c, P, n, e);
    MulExact(c, P, e);
    if P.Affine? && Multiplier(P, e) > 0 { OddNeverRaises(c, P, n, Multiplier(P, e)); }
    if P.Infinity? { MultipleZero(c, P); }
  }

  lemma OddNeverRaises(c: Curve, P: Point, n: nat, k: nat)
    requires Setting(c, P, n)
    ensures !SomePassRaises(c, P, k)
  {
    hide Multiple, OwnOpposite, Collected, Ground;
    forall i: nat | i > 1 ensures !RaisesAt(c, P, k, i) {
      CollectedPositive(k, i);
      OddNeverOpposite(c, P, n, Collected(k, i));
    }
  }

  // ----- small even orders -----

  /** At a point with y = 0 the loop's first doubling aborts: 2 * P fails although it should be infinity. */
  lemma MulAbortsAtTwoTorsion(c: Curve, P: Point, e: int)
    requires IsPrime(c.p) && Valid(c, P) && P.Affine? && P.order == 0 && Cong(2 * P.y, 0, c.p)
    ensures Add(c, P, P) == Some(Infinity)
    ensures Mul(c, P, e).None? <==> e < 0 || e >= 2
  {
    DoubleCloses(c, P);
    NegateValid(c, P);
    if e == 1 {
      assert LeftmostBit(3) == 2;
    } else if e >= 2 {
      PowersApart(4, LeftmostBit(3 * e)) by { assert IsPowerOfTwo(2) && IsPowerOfTwo(4); }
    }
  }

  /** The second pass always doubles two copies. */
  lemma SecondPass(e: nat)
    requires e >= 3
    ensures var i := LeftmostBit(3 * e) / 4; i > 1 && IsPowerOfTwo(i) && Collected(e, i) == 2
  {
    hide LeftmostBit;
    var high := LeftmostBit(3 * e);
    assert IsPowerOfTwo(2) && IsPowerOfTwo(4);
    PowersApart(4, high);
    var half := high / 2;
    assert high == 2 * half && IsPowerOfTwo(half);
    assert half == 2 * (half / 2) && IsPowerOfTwo(half / 2);
    assert high / 4 == half / 2;
    if 2 * e < high {
      ModUnique(3 * e, 2, 3 * e - high, half);
      ModUnique(e, 0, e, half);
    } else {
      ModUnique(3 * e, 3, 3 * e - 3 * half, half);
      ModUnique(e, 1, e - half, half);
    }
  }

  /** A point of order four has no multiples from three copies on. */
  lemma MulAbortsAtOrderFour(c: Curve, P: Point, e: int)
    requires Ground(c, P) && P.Affine? && P.order == 0 && HasOrder(c, P, 4)
    ensures Mul(c, P, e).None? <==> e < 0 || e >= 3
  {
    hide Mul, Ground, HasOrder, LeftmostBit, IsPowerOfTwo, Collected;
    MulRaisesByOrder(c, P, 4, e);
    if e >= 3 { SecondPass(e); }
    if e == 1 || e == 2 { FewCopies(e); }
  }

  lemma FewCopies(e: nat)
    requires e <= 2
    ensures !PassesHalfway(e, 4)
  {
    forall i: nat | i > 1 && IsPowerOfTwo(i) ensures 0 <= Collected(e, i) < 2 {
      if i >= 4 || e < 2 { HighBitsCollectNothing(e, i); } else { assert i == 2; }
    }
    assert 4 / 2 == 2;
  }

  /** The constructor's assertion order * self == INFINITY reduces order modulo itself, so it never fails. */
  lemma OrderCheckIsVacuous(c: Curve, x: int, y: int, order: nat)
    requires c.p > 0 && order > 0
    ensures Mul(c, Affine(x, y, order), order) == Some(Infinity)
  {
    ModUnique(order, 1, 0, order);
  }
}
