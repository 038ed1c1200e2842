/** Exactly which signatures are made, accepted and recovered from, in terms of the equation s*k = hash + d*r that relates
    a signature to the secret d and the ephemeral number k. */
module Acceptance {
  import opened Wrappers
  import opened Modular
  import opened InverseMod
  import opened Curve
  import opened AbelianGroup
  import opened CurveGroup
  import opened ScalarMul
  import opened Ecdsa

  /** k is an ephemeral number with which the secret d makes the signature of the hash. */
  ghost predicate SignedWith(c: Curve, G: Point, d: int, hash: int, sig: Signature, k: nat)
    requires Domain(c, G)
  {
    && 0 < k < G.order && Cong(sig.s * k, hash + d * sig.r, G.order)
    && Multiple(c, G, k).Affine? && Multiple(c, G, k).x % G.order == sig.r
  }

  predicate PairInRange(G: Point, sig: Signature)
    requires G.Affine?
  {
    0 < sig.r < G.order && 0 < sig.s < G.order
  }

  // ----- counts of the generator -----

  lemma DomainOrder(c: Curve, G: Point)
    requires Domain(c, G)
    ensures c.p >= 2 && G.Affine? && G.order >= 3 && Ground(c, G)
  {
    hide Multiple, Associative;
  }

  lemma DomainPrime(c: Curve, G: Point)
    requires Domain(c, G)
    ensures G.Affine? && IsPrime(G.order)
  {
  }

  /** Only multiples of the order vanish. */
  lemma CountVanishes(c: Curve, G: Point, k: nat)
    requires Domain(c, G)
    ensures Multiple(c, G, k) == Infinity <==> k % G.order == 0
  {
    hide Add, Double, Plus, Mul;
    if Multiple(c, G, k) == Infinity { ExactOrder(c, G, G.order, k); }
    if k % G.order == 0 {
      CurveIsGroup(c);
      NormReduced(c, G);
      TimesMod(GroupOf(c), k, G.order, Norm(c, G));
      MultipleZero(c, G);
    }
  }

  /** A key has one count modulo the order. */
  lemma CountUnique(c: Curve, G: Point, j: nat, k: nat)
    requires Domain(c, G) && Multiple(c, G, j) == Multiple(c, G, k)
    ensures Cong(j, k, G.order)
  {
    hide Add, Double, Plus, Mul, Multiple, Domain;
    DomainOrder(c, G);
    if j >= k {
      CountDifference(c, G, k, j - k);
    } else {
      CountDifference(c, G, j, k - j);
      CongSym(k, j, G.order);
    }
  }

  lemma CountDifference(c: Curve, G: Point, k: nat, m: nat)
    requires Domain(c, G) && Multiple(c, G, k + m) == Multiple(c, G, k)
    ensures Cong(k + m, k, G.order)
  {
    hide Add, Double, Plus, Mul;
    CurveIsGroup(c);
    NormReduced(c, G);
    var g := GroupOf(c);
    var x, y := Multiple(c, G, k), Multiple(c, G, m);
    MultipleSum(c, G, k, m);
    MultipleSum(c, G, m, k);
    assert m + k == k + m;
    assert LawsAt(g, y, x, g.neg(x)) && LawsAt(g, x, g.neg(x), y);
    assert y == Infinity;
    CountVanishes(c, G, m);
  }

  // ----- signing -----

  /** Signing raises exactly when k is a multiple of the order, or its point has x = 0, or s would be zero; otherwise the
      two numbers satisfy the equation, r being the whole x. */
  lemma SignExact(c: Curve, G: Point, d: int, hash: int, randomK: int)
    requires Domain(c, G)
    ensures var R := Multiple(c, G, randomK % G.order);
            Sign(c, G, d, hash, randomK).None? <==> R.Infinity? || R.x == 0 || Cong(hash + d * R.x, 0, G.order)
    ensures Multiple(c, G, randomK % G.order).Infinity? <==> randomK % G.order == 0
    ensures Sign(c, G, d, hash, randomK).Some? ==>
              var sig, k := Sign(c, G, d, hash, randomK).value, randomK % G.order;
              sig.r == Multiple(c, G, k).x && 0 < sig.s < G.order && Cong(sig.s * k, hash + d * sig.r, G.order)
  {
    hide Add, Double, Plus, Mul, Multiple, ModInverse, Associative;
    var n, k := G.order, randomK % G.order;
    DomainOrder(c, G);
    CountVanishes(c, G, k);
    ModSmall(k, n);
    MulIsMultiple(c, G, n, k);
    if k != 0 {
      PrimeInvertible(k, n);
      var inv, x := ModInverse(k, n).value, Multiple(c, G, k).x;
      var s := (inv * (hash + (d * x) % n)) % n;
      SignEquation(n, k, inv, hash, d * x, s);
      FactorZero(n, s, k, hash + d * x);
    }
  }

  /** The product of s and an invertible k vanishes exactly when s does. */
  lemma FactorZero(n: int, s: int, k: int, t: int)
    requires IsPrime(n) && 0 <= s < n && 0 < k < n && Cong(s * k, t, n)
    ensures s == 0 <==> Cong(t, 0, n)
  {
    hide IsPrime;
    PrimePositive(n);
    CongSym(s * k, t, n);
    CongEqual(s, 0, n);
    CongEqual(k, 0, n);
    ModSmall(s, n);
    ModSmall(k, n);
    ModSmall(0, n);
    if s == 0 { assert s * k == 0; }
    if Cong(t, 0, n) {
      CongTrans(s * k, t, 0, n);
      PrimeDividesProduct(n, s, k);
    }
  }

  // ----- verifying -----

  /** The verifier's point is k copies of the generator, for the k of the equation. */
  lemma VerifyCombines(c: Curve, G: Point, d: nat, Q: Point, hash: int, sig: Signature) returns (k: nat, X: Point)
    requires Domain(c, G) && IsKey(c, G, d, Q) && PairInRange(G, sig)
    ensures k < G.order && Cong(sig.s * k, hash + d * sig.r, G.order) && Norm(c, X) == Multiple(c, G, k)
    ensures Verify(c, G, Q, hash, sig) == if X.Infinity? then None else Some(X.x % G.order == sig.r)
  {
    hide Domain, IsPrime, IsKey, Add, Mul, Multiple, ModInverse, Verify, Cong;
    DomainOrder(c, G);
    DomainPrime(c, G);
    var n := G.order;
    ModSmall(sig.s, n);
    PrimeInvertible(sig.s, n);
    var w := ModInverse(sig.s, n).value;
    var u1, u2 := (hash * w) % n, (sig.r * w) % n;
    X := SumOfKeys(c, G, d, Q, u1, u2);
    k := (u1 + u2 * d) % n;
    CombinationSolves(n, sig.s, w, hash, sig.r, d, u1, u2);
    VerifySteps(c, G, Q, hash, sig, w, X);
  }

  lemma SumOfKeys(c: Curve, G: Point, d: nat, Q: Point, u1: nat, u2: nat) returns (X: Point)
    requires Domain(c, G) && IsKey(c, G, d, Q)
    ensures Mul(c, G, u1).Some? && Mul(c, Q, u2).Some? && Add(c, Mul(c, G, u1).value, Mul(c, Q, u2).value) == Some(X)
    ensures Norm(c, X) == Multiple(c, G, (u1 + u2 * d) % G.order)
  {
    hide Domain, IsKey, Add, Mul, Multiple, Cong;
    DomainOrder(c, G);
    GeneratorIsKey(c, G);
    KeyMul(c, G, 1, G, u1);
    KeyMul(c, G, d, Q, u2);
    var A, B := Mul(c, G, u1).value, Mul(c, Q, u2).value;
    var j := u1 + u2 * d;
    KeyAdd(c, G, u1, A, u2 * d, B);
    X := Add(c, A, B).value;
    CongMod(j, G.order);
    KeyCong(c, G, j, X, j % G.order);
    KeyNorm(c, G, j % G.order, X);
  }

  lemma KeyNorm(c: Curve, G: Point, k: nat, X: Point)
    requires Domain(c, G) && IsKey(c, G, k, X)
    ensures Norm(c, X) == Multiple(c, G, k)
  {
    hide Multiple;
  }

  /** Verification of a pair in range, step by step. */
  lemma VerifySteps(c: Curve, G: Point, Q: Point, hash: int, sig: Signature, w: int, X: Point)
    requires c.p > 0 && G.Affine? && G.order > 0 && PairInRange(G, sig) && ModInverse(sig.s, G.order) == Some(w)
    requires var A, B := Mul(c, G, (hash * w) % G.order), Mul(c, Q, (sig.r * w) % G.order);
             A.Some? && B.Some? && Add(c, A.value, B.value) == Some(X)
    ensures Verify(c, G, Q, hash, sig) == if X.Infinity? then None else Some(X.x % G.order == sig.r)
  {
    hide Mul, Add, ModInverse;
  }

  /** The combination of u1 and u2 solves the equation for k. */
  lemma CombinationSolves(n: int, s: int, w: int, hash: int, r: int, d: int, u1: int, u2: int)
    requires n > 0 && Cong(s * w, 1, n) && u1 == (hash * w) % n && u2 == (r * w) % n
    ensures Cong(s * ((u1 + u2 * d) % n), hash + d * r, n)
  {
    hide Cong;
    var t, k := hash + d * r, (u1 + u2 * d) % n;
    CongRefl(t, n);
    CongMul(s * w, 1, t, t, n);
    assert s * (w * t) == (s * w) * t;
    VerifyEquation(n, w * t, s, w, hash, r, d, u1, u2);
    CongMod(u1 + u2 * d, n);
    CongTrans(k, u1 + u2 * d, w * t, n);
    CongRefl(s, n);
    CongMul(s, s, k, w * t, n);
    CongTrans(s * k, s * (w * t), t, n);
  }

  /** The equation has one solution for k. */
  lemma SolutionUnique(n: int, s: int, t: int, j: int, k: int)
    requires IsPrime(n) && 0 < s < n && Cong(s * j, t, n) && Cong(s * k, t, n) && 0 <= j < n && 0 <= k < n
    ensures j == k
  {
    hide IsPrime;
    PrimePositive(n);
    CongAdd(s * j, t, s * k, t, n);
    assert s * j - s * k == s * (j - k);
    PrimeDividesProduct(n, s, j - k);
    CongEqual(s, 0, n);
    ModSmall(s, n);
    ModSmall(0, n);
    assert Cong(j, k, n);
    CloseCong(j, k, n);
  }

  /** Verification accepts exactly the pairs in range that some ephemeral number satisfies the equation with, its point
      having r as its x modulo the order. It raises exactly for the pairs in range whose equation asks for k = 0. */
  lemma VerifyExact(c: Curve, G: Point, d: nat, Q: Point, hash: int, sig: Signature)
    requires Domain(c, G) && IsKey(c, G, d, Q)
    ensures Verify(c, G, Q, hash, sig) == Some(true) <==>
              PairInRange(G, sig) && exists k: nat :: SignedWith(c, G, d, hash, sig, k)
    ensures Verify(c, G, Q, hash, sig) == None <==> PairInRange(G, sig) && Cong(hash + d * sig.r, 0, G.order)
  {
    hide Domain, IsKey, Multiple, Cong;
    DomainOrder(c, G);
    if PairInRange(G, sig) {
      var k, X := VerifyCombines(c, G, d, Q, hash, sig);
      hide Verify;
      KeyIsZero(c, G, d, hash, sig, k);
      if X.Affine? {
        OnlySolution(c, G, d, hash, sig, k);
      } else {
        NoSolution(c, G, d, hash, sig);
      }
    }
  }

  lemma NoSolution(c: Curve, G: Point, d: nat, hash: int, sig: Signature)
    requires Domain(c, G) && PairInRange(G, sig) && Cong(hash + d * sig.r, 0, G.order)
    ensures !exists j: nat :: SignedWith(c, G, d, hash, sig, j)
  {
    hide Domain, Multiple, Cong, IsPrime;
    DomainPrime(c, G);
    forall j: nat | SignedWith(c, G, d, hash, sig, j) ensures false {
      SolvesZero(G.order, sig.s, j, hash + d * sig.r);
    }
  }

  /** The equation asks for a k whose copies vanish exactly when it asks for zero. */
  lemma KeyIsZero(c: Curve, G: Point, d: nat, hash: int, sig: Signature, k: nat)
    requires Domain(c, G) && PairInRange(G, sig) && k < G.order && Cong(sig.s * k, hash + d * sig.r, G.order)
    ensures Multiple(c, G, k).Infinity? <==> k == 0
    ensures k == 0 <==> Cong(hash + d * sig.r, 0, G.order)
  {
    hide Domain, Multiple, Cong, IsPrime;
    DomainPrime(c, G);
    CountVanishes(c, G, k);
    ModSmall(k, G.order);
    SolvesZero(G.order, sig.s, k, hash + d * sig.r);
  }

  lemma SolvesZero(n: int, s: int, k: int, t: int)
    requires IsPrime(n) && 0 < s < n && 0 <= k < n && Cong(s * k, t, n)
    ensures k == 0 <==> Cong(t, 0, n)
  {
    assert k * s == s * k;
    FactorZero(n, k, s, t);
  }

  // ----- recovering -----

  /** Every point of the curve is a multiple of the generator. */
  ghost predicate Cyclic(c: Curve, G: Point)
    requires Domain(c, G)
  {
    forall P | Reduced(c, P) :: exists k: nat :: k < G.order && Multiple(c, G, k) == P
  }

  /** The x that a recovery case stands for. */
  function CaseX(c: Curve, G: Point, recid: nat, r: int): (x: int)
    requires c.p > 0 && G.Affine?
    ensures 0 <= x < c.p
  {
    (r + (recid / 2) * G.order) % c.p
  }

  /** The point with this x whose y has the parity of the case. */
  predicate IsLift(c: Curve, x: int, recid: nat, R: Point) {
    Reduced(c, R) && R.Affine? && R.x == x && (R.y - recid) % 2 == 0
  }

  /** A point with the case's x and parity is what the program lifts x to. */
  lemma LiftFound(c: Curve, G: Point, x: int, recid: nat, R: Point)
    requires Domain(c, G) && Cyclic(c, G) && c.p % 4 == 3 && IsLift(c, x, recid, R)
    ensures MakePoint(c, x, LiftY(c, x, recid), G.order) == Some(R.(order := G.order))
  {
    CurvePointY(c, G, R);
    hide LiftY, Cyclic;
    LiftYFindsPoint(c, R, recid);
  }

  /** What the program lifts x to is such a point, if the constructor accepts it. */
  lemma LiftIsPoint(c: Curve, G: Point, x: int, recid: nat) returns (R: Point)
    requires Domain(c, G) && Cyclic(c, G) && c.p % 4 == 3 && 0 <= x < c.p
    requires MakePoint(c, x, LiftY(c, x, recid), G.order).Some?
    ensures IsLift(c, x, recid, R)
  {
    hide LiftY, Cyclic, Domain, ContainsPoint;
    DomainOrder(c, G);
    var y := LiftY(c, x, recid);
    LiftYRange(c, x, recid);
    LiftOnCurve(c, x, y);
    R := Affine(x, y % c.p, 0);
    CurvePointY(c, G, R);
    ModSmall(y, c.p);
  }

  /** No point of the curve has y = 0. */
  lemma CurvePointY(c: Curve, G: Point, P: Point)
    requires Domain(c, G) && Cyclic(c, G) && Reduced(c, P) && P.Affine?
    ensures P.y != 0
  {
    hide Multiple, Associative;
    var k: nat :| k < G.order && Multiple(c, G, k) == P;
    ReducedNorm(c, P);
    KeyNotTwoTorsion(c, G, k, P);
    if P.y == 0 { ModSmall(0, c.p); }
  }

  lemma LiftYRange(c: Curve, x: int, recid: nat)
    requires c.p % 4 == 3 && c.p > 0
    ensures 0 <= LiftY(c, x, recid) <= c.p && (LiftY(c, x, recid) - recid) % 2 == 0
  {
    hide SqrtMod, Pow;
    var y2 := (Pow(x, 3) % c.p + c.a * x + c.b) % c.p;
    SqrtRange(y2, c.p);
    ParityRange(SqrtMod(y2, c.p), c.p, recid);
  }

  lemma ParityRange(t: int, p: int, recid: int)
    requires p % 4 == 3 && 0 <= t < p
    ensures var y := if (t - recid) % 2 == 0 then t else p - t; 0 <= y <= p && (y - recid) % 2 == 0
  {
  }

  lemma LiftOnCurve(c: Curve, x: int, y: int)
    requires c.p > 0 && 0 <= x < c.p && 0 <= y <= c.p && ContainsPoint(c, x, y)
    ensures Reduced(c, Affine(x, y % c.p, 0)) && (y == c.p ==> y % c.p == 0)
  {
    CongMod(y, c.p);
    DefectCong(c, x, y % c.p, y);
    CongTrans(Defect(c, x, y % c.p), Defect(c, x, y), 0, c.p);
    if y == c.p { ModUnique(y, 1, 0, c.p); }
  }

  /** Multiplying a point that carries the order only depends on the multiplier modulo it. */
  lemma MulReduced(c: Curve, R: Point, e: int)
    requires c.p > 0 && R.Affine? && R.order > 0
    ensures Mul(c, R, e) == Mul(c, R, e % R.order)
  {
    hide MulPositive;
    ModSmall(e % R.order, R.order);
  }

  lemma InvertibleExactly(r: int, n: int)
    requires IsPrime(n)
    ensures n > 0 && (ModInverse(r, n).Some? <==> r % n != 0)
    ensures ModInverse(r, n).Some? ==> ModInverse(r, n).value < n
  {
    hide ModInverse;
    PrimeInverse(r, n);
    CongEqual(r, 0, n);
    ModSmall(0, n);
  }

  /** What a recovery that does not raise has found on its way. */
  lemma RecoverNeeds(c: Curve, G: Point, recid: nat, sig: Signature, hash: int)
    requires c.p > 0 && G.Affine? && Recover(c, G, recid, sig, hash).Some?
    ensures G.order > 0 && ModInverse(sig.r, G.order).Some?
    ensures var x := CaseX(c, G, recid, sig.r); MakePoint(c, x, LiftY(c, x, recid), G.order).Some?
  {
    hide LiftY, MakePoint, ModInverse, Mul, Add;
  }

  lemma LiftCount(c: Curve, G: Point, x: int, recid: nat, R: Point) returns (k: nat)
    requires Domain(c, G) && Cyclic(c, G) && IsLift(c, x, recid, R)
    ensures 0 < k < G.order && Multiple(c, G, k) == R
  {
    hide Multiple;
    k :| k < G.order && Multiple(c, G, k) == R;
    MultipleZero(c, G);
  }

  /** Recovery raises exactly when r is a multiple of the order or no point has the case's x. */
  lemma RecoverExact(c: Curve, G: Point, recid: nat, sig: Signature, hash: int)
    requires Domain(c, G) && Cyclic(c, G) && c.p % 4 == 3
    ensures Recover(c, G, recid, sig, hash).Some? <==>
              sig.r % G.order != 0 && exists R :: IsLift(c, CaseX(c, G, recid, sig.r), recid, R)
  {
    hide LiftY, Domain, Cyclic, MakePoint, ModInverse, IsLift, CaseX, Recover, IsPrime, IsKey;
    DomainOrder(c, G);
    DomainPrime(c, G);
    InvertibleExactly(sig.r, G.order);
    var x := CaseX(c, G, recid, sig.r);
    if R :| IsLift(c, x, recid, R) {
      if sig.r % G.order != 0 {
        var k := LiftCount(c, G, x, recid, R);
        var d := RecoverGives(c, G, recid, sig, hash, k, R);
      }
    }
    if Recover(c, G, recid, sig, hash).Some? {
      RecoverNeeds(c, G, recid, sig, hash);
      var R := LiftIsPoint(c, G, x, recid);
    }
  }

  /** Recovery from the lifted point, step by step. */
  lemma RecoverSteps(c: Curve, G: Point, recid: nat, sig: Signature, hash: int, R: Point, i: int)
    requires c.p > 0 && G.Affine? && G.order > 0 && ModInverse(sig.r, G.order) == Some(i) && R.Affine? && R.order == G.order
    requires var x := CaseX(c, G, recid, sig.r); MakePoint(c, x, LiftY(c, x, recid), G.order) == Some(R)
    requires Mul(c, R, sig.s % G.order).Some? && Mul(c, G, (-hash) % G.order).Some?
    requires var A, B := Mul(c, R, sig.s % G.order).value, Mul(c, G, (-hash) % G.order).value;
             Add(c, A, B).Some? && Mul(c, Add(c, A, B).value, i).Some?
    ensures var A, B := Mul(c, R, sig.s % G.order).value, Mul(c, G, (-hash) % G.order).value;
            Recover(c, G, recid, sig, hash) == Mul(c, Add(c, A, B).value, i)
  {
    hide LiftY, MakePoint, ModInverse, Mul, Add;
    MulReduced(c, R, sig.s);
  }

  /** Recovery from k copies of the generator: the steps, and a secret that satisfies the equation. */
  lemma RecoverFrom(c: Curve, G: Point, recid: nat, sig: Signature, hash: int, k: nat, R: Point) returns (d: nat, i: nat)
    requires Domain(c, G) && Cyclic(c, G) && c.p % 4 == 3 && sig.r % G.order != 0
    requires IsLift(c, CaseX(c, G, recid, sig.r), recid, R) && Multiple(c, G, k) == R
    ensures i < G.order && IsKey(c, G, k, R.(order := G.order))
    ensures var A, B := Mul(c, R.(order := G.order), sig.s % G.order), Mul(c, G, (-hash) % G.order);
            A.Some? && B.Some? && Add(c, A.value, B.value).Some? &&
            Recover(c, G, recid, sig, hash) == Mul(c, Add(c, A.value, B.value).value, i)
    ensures Recover(c, G, recid, sig, hash).Some? && IsKey(c, G, d, Recover(c, G, recid, sig, hash).value)
    ensures d < G.order && Cong(sig.s * k, hash + d * sig.r, G.order)
  {
    hide LiftY, Domain, Cyclic, MakePoint, ModInverse, CaseX, Recover, IsPrime, IsKey, Mul, Add, Multiple;
    DomainOrder(c, G);
    DomainPrime(c, G);
    var n, x := G.order, CaseX(c, G, recid, sig.r);
    InvertibleExactly(sig.r, n);
    i := ModInverse(sig.r, n).value;
    LiftFound(c, G, x, recid, R);
    LiftIsKey(c, G, k, R);
    var R' := R.(order := n);
    d := SecretSolves(n, k, sig.s, hash, sig.r, i);
    RecoverCombines(c, G, k, R', Signature(sig.r, sig.s % n), hash, d, i);
    RecoverSteps(c, G, recid, sig, hash, R', i);
  }

  /** The recovered key is that of a secret that satisfies the equation. */
  lemma RecoverGives(c: Curve, G: Point, recid: nat, sig: Signature, hash: int, k: nat, R: Point) returns (d: nat)
    requires Domain(c, G) && Cyclic(c, G) && c.p % 4 == 3 && sig.r % G.order != 0
    requires IsLift(c, CaseX(c, G, recid, sig.r), recid, R) && Multiple(c, G, k) == R
    ensures Recover(c, G, recid, sig, hash).Some? && IsKey(c, G, d, Recover(c, G, recid, sig, hash).value)
    ensures d < G.order && Cong(sig.s * k, hash + d * sig.r, G.order)
  {
    hide *;
    var i;
    d, i := RecoverFrom(c, G, recid, sig, hash, k, R);
  }

  lemma LiftIsKey(c: Curve, G: Point, k: nat, R: Point)
    requires Domain(c, G) && R.Affine? && Reduced(c, R) && Multiple(c, G, k) == R
    ensures IsKey(c, G, k, R.(order := G.order))
  {
    hide Multiple;
    ReducedNorm(c, R);
  }

  /** The equation has a solution for d when r is invertible. */
  lemma SecretSolves(n: int, k: int, s: int, hash: int, r: int, i: int) returns (d: nat)
    requires n > 0 && Cong(r * i, 1, n)
    ensures d < n && Cong((s % n) * k, hash + d * r, n) && Cong(s * k, hash + d * r, n)
  {
    hide Cong;
    var t := s * k - hash;
    d := (i * t) % n;
    CongMod(i * t, n);
    CongRefl(r, n);
    CongMul(d, i * t, r, r, n);
    CongRefl(t, n);
    CongMul(r * i, 1, t, t, n);
    assert (i * t) * r == (r * i) * t;
    CongTrans(d * r, (r * i) * t, t, n);
    CongRefl(hash, n);
    CongAdd(hash, hash, d * r, t, n);
    CongSym(hash + d * r, s * k, n);
    CongMod(s, n);
    CongRefl(k, n);
    CongMul(s % n, s, k, k, n);
    CongTrans((s % n) * k, s * k, hash + d * r, n);
  }

  // ----- verifying against recovering -----

  /** A recovered key accepts the signature exactly when the case's x is r modulo the order, which fails only where the
      x wraps around the field. */
  lemma RecoveredVerifies(c: Curve, G: Point, recid: nat, sig: Signature, hash: int)
    requires Domain(c, G) && Cyclic(c, G) && c.p % 4 == 3 && PairInRange(G, sig)
    requires Recover(c, G, recid, sig, hash).Some?
    ensures Verify(c, G, Recover(c, G, recid, sig, hash).value, hash, sig) ==
            Some(CaseX(c, G, recid, sig.r) % G.order == sig.r)
  {
    hide Domain, Cyclic, CaseX, Recover, Verify, IsPrime, IsKey, Multiple, Reduced, SignedWith, Cong;
    DomainOrder(c, G);
    var n, x := G.order, CaseX(c, G, recid, sig.r);
    ModSmall(sig.r, n);
    RecoverExact(c, G, recid, sig, hash);
    var R :| IsLift(c, x, recid, R);
    var k := LiftCount(c, G, x, recid, R);
    var d := RecoverGives(c, G, recid, sig, hash, k, R);
    var v := Verify(c, G, Recover(c, G, recid, sig, hash).value, hash, sig);
    VerifyExact(c, G, d, Recover(c, G, recid, sig, hash).value, hash, sig);
    OnlySolution(c, G, d, hash, sig, k);
    assert v.Some? && (v == Some(true) <==> x % n == sig.r);
    if v.value { assert v == Some(true); } else { assert v == Some(false); }
  }

  /** With a nonzero k that satisfies the equation, acceptance is a question about its point alone. */
  lemma OnlySolution(c: Curve, G: Point, d: nat, hash: int, sig: Signature, k: nat)
    requires Domain(c, G) && PairInRange(G, sig) && 0 < k < G.order && Cong(sig.s * k, hash + d * sig.r, G.order)
    requires Multiple(c, G, k).Affine?
    ensures !Cong(hash + d * sig.r, 0, G.order)
    ensures (exists j: nat :: SignedWith(c, G, d, hash, sig, j)) <==> Multiple(c, G, k).x % G.order == sig.r
  {
    hide Multiple;
    DomainPrime(c, G);
    SolvesZero(G.order, sig.s, k, hash + d * sig.r);
    forall j: nat | SignedWith(c, G, d, hash, sig, j) ensures j == k {
      SolutionUnique(G.order, sig.s, hash + d * sig.r, j, k);
    }
    if Multiple(c, G, k).x % G.order == sig.r { assert SignedWith(c, G, d, hash, sig, k); }
  }

  /** Whatever a key accepts, some case recovers the key from it. */
  lemma VerifiedRecovered(c: Curve, G: Point, d: nat, Q: Point, hash: int, sig: Signature) returns (recid: nat)
    requires Domain(c, G) && Cyclic(c, G) && c.p % 4 == 3 && IsKey(c, G, d, Q)
    requires Verify(c, G, Q, hash, sig) == Some(true)
    ensures recid / 2 <= (c.p - 1) / G.order && Recover(c, G, recid, sig, hash).Some?
    ensures IsKey(c, G, d, Recover(c, G, recid, sig, hash).value)
  {
    hide Cyclic, CaseX, Recover, Verify, IsPrime, IsKey, Multiple, Associative;
    DomainOrder(c, G);
    DomainPrime(c, G);
    var n := G.order;
    VerifyExact(c, G, d, Q, hash, sig);
    var k: nat :| SignedWith(c, G, d, hash, sig, k);
    var R := Multiple(c, G, k);
    recid := CaseOf(c, G, R, sig.r);
    ModSmall(sig.r, n);
    var d' := RecoverGives(c, G, recid, sig, hash, k, R);
    SecretUnique(n, sig.r, hash, sig.s * k, d', d);
    KeyCong(c, G, d', Recover(c, G, recid, sig, hash).value, d);
  }

  /** The case of a point: twice how often the order goes into its x, and the parity of its y. */
  lemma CaseOf(c: Curve, G: Point, R: Point, r: int) returns (recid: nat)
    requires c.p > 0 && G.Affine? && G.order > 0 && Reduced(c, R) && R.Affine? && R.x % G.order == r
    ensures IsLift(c, CaseX(c, G, recid, r), recid, R) && recid / 2 <= (c.p - 1) / G.order
  {
    hide ContainsPoint;
    var q := R.x / G.order;
    QuotientMonotone(R.x, c.p - 1, G.order);
    recid := 2 * q + R.y % 2;
    assert recid / 2 == q && recid % 2 == R.y % 2;
    assert r + q * G.order == R.x;
    ModSmall(R.x, c.p);
  }

  lemma QuotientMonotone(a: nat, b: nat, n: nat)
    requires a <= b && n > 0
    ensures 0 <= a / n <= b / n
  {
    var i, j := a / n, b / n;
    assert a == n * i + a % n && b == n * j + b % n;
    Below(i, j, n);
  }

  lemma Below(i: int, j: int, n: int)
    requires n > 0 && n * i < n * j + n
    ensures i <= j
  {
    assert i >= j + 1 ==> n * i >= n * (j + 1);
  }

  lemma SecretUnique(n: int, r: int, hash: int, t: int, d: int, e: int)
    requires IsPrime(n) && r % n != 0 && Cong(t, hash + d * r, n) && Cong(t, hash + e * r, n)
    ensures Cong(d, e, n)
  {
    hide IsPrime, Cong;
    PrimePositive(n);
    CongSym(t, hash + d * r, n);
    CongTrans(hash + d * r, t, hash + e * r, n);
    CongRefl(hash, n);
    CongAdd(hash + d * r, hash + e * r, hash, hash, n);
    SameFactor(n, r, d, e);
  }

  lemma SameFactor(n: int, r: int, d: int, e: int)
    requires IsPrime(n) && r % n != 0 && Cong(d * r, e * r, n)
    ensures Cong(d, e, n)
  {
    hide IsPrime;
    assert d * r - e * r == (d - e) * r;
    PrimeDividesProduct(n, d - e, r);
  }
}
