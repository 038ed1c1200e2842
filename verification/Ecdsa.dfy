/** ECDSA over the curve: signing, verifying, and recovering the public key from a signature. */
module Ecdsa {
  import opened Wrappers
  import opened Modular
  import opened InverseMod
  import opened Curve
  import opened AbelianGroup
  import opened CurveGroup
  import opened ScalarMul

  datatype Signature = Signature(r: int, s: int)

  /** Signs the hash with the secret multiplier; None when the program raises. */
  function Sign(c: Curve, G: Point, secret: int, hash: int, randomK: int): Option<Signature>
    requires c.p > 0
  {
    if G.Infinity? || G.order == 0 then None
    else
      var n := G.order;
      var k := randomK % n;
      var p1 :- Mul(c, G, k);
      if p1.Infinity? || p1.x == 0 then None
      else
        var inv :- ModInverse(k, n);
        var s := (inv * (hash + (secret * p1.x) % n)) % n;
        if s == 0 then None else Some(Signature(p1.x, s))
  }

  /** Checks a signature under the public key Q; None when the program raises. */
  function Verify(c: Curve, G: Point, Q: Point, hash: int, sig: Signature): Option<bool>
    requires c.p > 0
  {
    if G.Infinity? || G.order == 0 then None
    else
      var n := G.order;
      if sig.r < 1 || sig.r > n - 1 || sig.s < 1 || sig.s > n - 1 then Some(false)
      else
        var w :- ModInverse(sig.s, n);
        var A :- Mul(c, G, (hash * w) % n);
        var B :- Mul(c, Q, (sig.r * w) % n);
        var xy :- Add(c, A, B);
        if xy.Infinity? then None else Some(xy.x % n == sig.r)
  }

  function SqrtMod(a: int, p: int): int
    requires p > 0
  {
    Pow(a, (p + 1) / 4) % p
  }

  /** The y of the curve point with this x whose parity is that of recid. */
  function LiftY(c: Curve, x: int, recid: int): int
    requires c.p > 0
  {
    var y2 := (Pow(x, 3) % c.p + c.a * x + c.b) % c.p;
    var root := SqrtMod(y2, c.p);
    if (root - recid) % 2 == 0 then root else c.p - root
  }

  /** The public key for which (r, s) would sign the hash, the ephemeral point being chosen by recid. */
  function Recover(c: Curve, G: Point, recid: nat, sig: Signature, hash: int): Option<Point>
    requires c.p > 0
  {
    if G.Infinity? || G.order == 0 then None
    else
      var n := G.order;
      var x := (sig.r + (recid / 2) * n) % c.p;
      var R :- MakePoint(c, x, LiftY(c, x, recid), n);
      var inv :- ModInverse(sig.r, n);
      var A :- Mul(c, R, sig.s);
      var B :- Mul(c, G, (-hash) % n);
      var C :- Add(c, A, B);
      Mul(c, C, inv)
  }

  /** The domain parameters: a prime field, an associative addition, and a generator of odd prime order. */
  ghost predicate Domain(c: Curve, G: Point) {
    G.Affine? && IsPrime(G.order) && Setting(c, G, G.order)
  }

  /** A point whose reduced form is k copies of the generator and whose order field is absent or right. */
  ghost predicate IsKey(c: Curve, G: Point, k: int, Q: Point)
    requires Domain(c, G)
  {
    IsMultiple(c, G, k, Some(Q)) && (Q.Affine? ==> Q.order == 0 || Q.order == G.order)
  }

  // ----- order fields -----

  lemma AddOrder(c: Curve, P: Point, Q: Point)
    requires c.p > 0
    ensures var r := Add(c, P, Q);
            r.Some? && r.value.Affine? ==>
              r.value.order == 0 || (P.Affine? && r.value.order == P.order) || (Q.Affine? && r.value.order == Q.order)
  {
  }

  lemma {:induction false} MulLoopOrder(c: Curve, P: Point, N: Point, e: nat, i: nat, R: Point)
    requires c.p > 0 && P.Affine? && N.Affine? && N.order == P.order
    requires R.Affine? ==> R.order == 0 || R.order == P.order
    ensures var r := MulLoop(c, P, N, e, i, R);
            r.Some? && r.value.Affine? ==> r.value.order == 0 || r.value.order == P.order
    decreases i
  {
    if i > 1 && Double(c, R).Some? {
      var D := Double(c, R).value;
      DoubleOrder(c, R);
      AddOrder(c, D, P);
      AddOrder(c, D, N);
      hide Double, Add;
      var up, down := (3 * e / i) % 2 == 1, (e / i) % 2 == 1;
      var next := if up && !down then Add(c, D, P) else if !up && down then Add(c, D, N) else Some(D);
      if next.Some? { MulLoopOrder(c, P, N, e, i / 2, next.value); }
    }
  }

  lemma DoubleOrder(c: Curve, P: Point)
    requires c.p > 0 && Double(c, P).Some?
    ensures Double(c, P).value.Affine? ==> Double(c, P).value.order == 0
  {
  }

  lemma MulOrder(c: Curve, P: Point, e: int)
    requires c.p > 0
    ensures var r := Mul(c, P, e);
            r.Some? && r.value.Affine? ==> P.Affine? && (r.value.order == 0 || r.value.order == P.order)
  {
    var k := Multiplier(P, e);
    if P.Affine? && k > 0 && MakePoint(c, P.x, -P.y, P.order).Some? {
      MulLoopOrder(c, P, Negate(P), k, LeftmostBit(3 * k) / 2, P);
    }
  }

  // ----- multiples of the generator -----

  lemma KeySetting(c: Curve, G: Point, k: nat, Q: Point)
    requires Domain(c, G) && IsKey(c, G, k, Q)
    ensures Setting(c, Q, G.order)
  {
    hide Add, Double, Plus;
    CurveIsGroup(c);
    NormReduced(c, G);
    NormReduced(c, Q);
    var g, x, n := GroupOf(c), Norm(c, G), G.order;
    TimesMul(g, n, k, x);
    TimesMul(g, k, n, x);
    assert n * k == k * n;
    TimesZero(g, k);
  }

  /** Multiplying a key multiplies its count. */
  lemma KeyMul(c: Curve, G: Point, k: nat, Q: Point, e: nat)
    requires Domain(c, G) && IsKey(c, G, k, Q)
    ensures Mul(c, Q, e).Some? && IsKey(c, G, e * k, Mul(c, Q, e).value)
  {
    hide Add, Double, Plus, Mul;
    KeySetting(c, G, k, Q);
    MulIsMultiple(c, Q, G.order, e);
    MulOrder(c, Q, e);
    CurveIsGroup(c);
    NormReduced(c, G);
    TimesMul(GroupOf(c), e, k, Norm(c, G));
  }

  lemma KeyAdd(c: Curve, G: Point, j: nat, P: Point, k: nat, Q: Point)
    requires Domain(c, G) && IsKey(c, G, j, P) && IsKey(c, G, k, Q)
    ensures Add(c, P, Q).Some? && IsKey(c, G, j + k, Add(c, P, Q).value)
  {
    AddOrder(c, P, Q);
    hide Add, Double, Plus;
    AddCloses(c, P, Q);
    AddNorm(c, P, Q);
    CurveIsGroup(c);
    NormReduced(c, G);
    TimesAdd(GroupOf(c), j, k, Norm(c, G));
  }

  /** Keys with counts congruent modulo the order are the same point. */
  lemma KeyCong(c: Curve, G: Point, j: nat, P: Point, k: nat)
    requires Domain(c, G) && IsKey(c, G, j, P) && Cong(j, k, G.order)
    ensures IsKey(c, G, k, P)
  {
    hide Add, Double, Plus;
    CurveIsGroup(c);
    NormReduced(c, G);
    TimesCong(GroupOf(c), j, k, G.order, Norm(c, G));
  }

  lemma GeneratorIsKey(c: Curve, G: Point)
    requires Domain(c, G)
    ensures IsKey(c, G, 1, G)
  {
    MultipleOne(c, G);
  }

  /** A multiple of a point of prime order n vanishes only when the count is a multiple of n. */
  lemma ExactOrder(c: Curve, P: Point, n: nat, m: nat)
    requires IsPrime(n) && Setting(c, P, n) && P.Affine? && Multiple(c, P, m) == Infinity
    ensures m % n == 0
  {
    hide Add, Double, Plus, IsPrime, IsAbelian, ModInverse, Times, Reduced, Valid, Associative;
    if m % n != 0 {
      CurveIsGroup(c);
      NormReduced(c, P);
      PrimeInvertible(m, n);
      InvertibleMultiple(GroupOf(c), n, m, ModInverse(m, n).value, Norm(c, P));
      assert false;
    }
  }

  lemma PrimeInvertible(m: nat, n: nat)
    requires IsPrime(n) && m % n != 0
    ensures ModInverse(m, n).Some? && Cong(m * ModInverse(m, n).value, 1, n)
  {
    PrimeInverse(m, n);
    CongEqual(m, 0, n);
    ModSmall(0, n);
  }

  // ----- the congruences behind signing -----

  /** s*k is congruent to hash + secret*r. */
  lemma SignEquation(n: int, k: int, inv: int, hash: int, dr: int, s: int)
    requires n > 0 && Cong(k * inv, 1, n) && s == (inv * (hash + dr % n)) % n
    ensures Cong(s * k, hash + dr, n)
  {
    var t := hash + dr % n;
    CongMod(inv * t, n);
    CongRefl(k, n);
    CongMul(s, inv * t, k, k, n);
    CongRefl(t, n);
    CongMul(k * inv, 1, t, t, n);
    assert (inv * t) * k == (k * inv) * t;
    CongTrans(s * k, (k * inv) * t, t, n);
    CongMod(dr, n);
    CongRefl(hash, n);
    CongAdd(hash, hash, dr % n, dr, n);
    CongTrans(s * k, t, hash + dr, n);
  }

  /** With w the inverse of s, the verifier's combination is the signer's k. */
  lemma VerifyEquation(n: int, k: int, s: int, w: int, hash: int, r: int, d: int, u1: int, u2: int)
    requires n > 0 && Cong(s * k, hash + d * r, n) && Cong(s * w, 1, n)
    requires u1 == (hash * w) % n && u2 == (r * w) % n
    ensures Cong(u1 + u2 * d, k, n)
  {
    CongMod(hash * w, n);
    CongMod(r * w, n);
    CongRefl(d, n);
    CongMul(u2, r * w, d, d, n);
    CongAdd(u1, hash * w, u2 * d, (r * w) * d, n);
    CongRefl(w, n);
    CongMul(s * k, hash + d * r, w, w, n);
    assert (hash + d * r) * w == hash * w + (r * w) * d;
    CongSym((s * k) * w, (hash + d * r) * w, n);
    CongRefl(k, n);
    CongMul(s * w, 1, k, k, n);
    assert (s * k) * w == (s * w) * k;
    CongTrans((hash + d * r) * w, (s * w) * k, k, n);
    CongTrans(u1 + u2 * d, (hash + d * r) * w, k, n);
  }

  /** With i the inverse of r, the recovered combination is the secret. */
  lemma RecoverEquation(n: int, k: int, s: int, hash: int, r: int, d: int, i: int)
    requires n > 0 && Cong(s * k, hash + d * r, n) && Cong(r * i, 1, n)
    ensures Cong(i * (s * k + (-hash) % n), d, n)
  {
    CongMod(-hash, n);
    CongAdd(s * k, hash + d * r, (-hash) % n, -hash, n);
    var t := s * k + (-hash) % n;
    CongRefl(i, n);
    CongMul(i, i, t, d * r, n);
    CongRefl(d, n);
    CongMul(d, d, r * i, 1, n);
    assert i * (d * r) == d * (r * i);
    CongTrans(i * t, d * (r * i), d, n);
  }

  // ----- signatures verify -----

  /** What a successful signing establishes. */
  lemma SignFacts(c: Curve, G: Point, secret: nat, hash: int, randomK: int)
    returns (k: nat, R: Point)
    requires Domain(c, G) && Sign(c, G, secret, hash, randomK).Some?
    ensures IsKey(c, G, k, R) && R.Affine? && Mul(c, G, randomK % G.order) == Some(R)
    ensures var sig := Sign(c, G, secret, hash, randomK).value;
            sig.r == R.x && sig.r > 0 && 0 < sig.s < G.order &&
            Cong(sig.s * k, hash + secret * sig.r, G.order)
  {
    hide Add, Double, Plus, Mul, Pow;
    var n := G.order;
    k := randomK % n;
    GeneratorIsKey(c, G);
    KeyMul(c, G, 1, G, k);
    R := Mul(c, G, k).value;
    var sig := Sign(c, G, secret, hash, randomK).value;
    SignEquation(n, k, ModInverse(k, n).value, hash, secret * R.x, sig.s);
  }

  /** A signature made by Sign is accepted by Verify under the matching key exactly when r is below the
      group order: Sign takes the x coordinate without reducing it. */
  lemma SignedVerifies(c: Curve, G: Point, secret: nat, Q: Point, hash: int, randomK: int)
    requires Domain(c, G) && IsKey(c, G, secret, Q) && Sign(c, G, secret, hash, randomK).Some?
    ensures var sig := Sign(c, G, secret, hash, randomK).value;
            Verify(c, G, Q, hash, sig) == Some(sig.r < G.order)
  {
    hide Add, Double, Plus, Mul, Pow, Sign;
    var n, sig := G.order, Sign(c, G, secret, hash, randomK).value;
    var k, R := SignFacts(c, G, secret, hash, randomK);
    if sig.r < n {
      PrimeInverse(sig.s, n);
      CongEqual(sig.s, 0, n);
      ModSmall(sig.s, n);
      ModSmall(0, n);
      var w := ModInverse(sig.s, n).value;
      var u1, u2 := (hash * w) % n, (sig.r * w) % n;
      GeneratorIsKey(c, G);
      KeyMul(c, G, 1, G, u1);
      KeyMul(c, G, secret, Q, u2);
      var A, B := Mul(c, G, u1).value, Mul(c, Q, u2).value;
      KeyAdd(c, G, u1, A, u2 * secret, B);
      VerifyEquation(n, k, sig.s, w, hash, sig.r, secret, u1, u2);
      var X := Add(c, A, B).value;
      KeyCong(c, G, u1 + u2 * secret, X, k);
      assert Norm(c, X) == Norm(c, R);
      ModSmall(sig.r, n);
    }
  }

  // ----- square roots and recovery -----

  /** For a prime p = 3 mod 4, SqrtMod gives a square root exactly of the squares. */
  lemma SqrtModCorrect(a: int, p: int)
    requires IsPrime(p) && p % 4 == 3
    ensures var t := SqrtMod(a, p); Cong(t * t, a, p) <==> exists y: nat :: Cong(a, y * y, p)
  {
    var t := SqrtMod(a, p);
    if Cong(t * t, a, p) {
      CongSym(t * t, a, p);
    }
    if y: nat :| Cong(a, y * y, p) {
      SqrtOfSquare(a, y, p);
    }
  }

  lemma SqrtOfSquare(a: int, y: nat, p: int)
    requires IsPrime(p) && p % 4 == 3 && Cong(a, y * y, p)
    ensures Cong(SqrtMod(a, p) * SqrtMod(a, p), a, p)
  {
    hide Cong, Pow, IsPrime;
    PrimePositive(p);
    var q := (p + 1) / 4;
    var t := SqrtMod(a, p);
    CongMod(Pow(a, q), p);
    PowCong(a, y * y, q, p);
    CongTrans(t, Pow(a, q), Pow(y * y, q), p);
    PowSquare(y, q);
    var z := Pow(y, 2 * q);
    CongMul(t, z, t, z, p);
    FourthPower(y, q, p);
    CongTrans(t * t, z * z, y * y, p);
    CongSym(a, y * y, p);
    CongTrans(t * t, y * y, a, p);
  }

  lemma FourthPower(y: nat, q: nat, p: int)
    requires IsPrime(p) && 4 * q == p + 1
    ensures Cong(Pow(y, 2 * q) * Pow(y, 2 * q), y * y, p)
  {
    assert Pow(y, p + 1) == y * Pow(y, p);
    hide Cong, Pow;
    PowAdd(y, 2 * q, 2 * q);
    Fermat(y, p);
    CongRefl(y, p);
    CongMul(y, y, Pow(y, p), y, p);
  }

  /** The two roots of a nonzero square have opposite parity, so recid's parity selects the wanted one. */
  lemma LiftYFindsPoint(c: Curve, R: Point, recid: int)
    requires IsPrime(c.p) && c.p % 4 == 3 && Reduced(c, R) && R.Affine? && R.y != 0 && (R.y - recid) % 2 == 0
    ensures LiftY(c, R.x, recid) == R.y
  {
    hide SqrtMod, Pow, IsPrime, ContainsPoint, Cong, Defect;
    var p, y := c.p, R.y;
    var y2 := (Pow(R.x, 3) % p + c.a * R.x + c.b) % p;
    PrimePositive(p);
    CurveEquation(c, R.x, y);
    SqrtOfSquare(y2, y, p);
    SquareRoots(SqrtMod(y2, p), y, y2, p);
    SqrtRange(y2, p);
    RootChoice(SqrtMod(y2, p), y, p);
    ParityChoice(SqrtMod(y2, p), y, p, recid);
  }

  lemma SqrtRange(a: int, p: int)
    requires p > 0
    ensures 0 <= SqrtMod(a, p) < p
  {
    hide Pow;
  }

  lemma ParityChoice(t: int, y: int, p: int, recid: int)
    requires p % 4 == 3 && (y - recid) % 2 == 0 && (t == y || t == p - y)
    ensures y == if (t - recid) % 2 == 0 then t else p - t
  {
  }

  lemma PrimePositive(p: int)
    requires IsPrime(p)
    ensures p >= 2
  {
  }

  lemma SquareRoots(t: int, y: int, a: int, p: int)
    requires IsPrime(p) && Cong(t * t, a, p) && Cong(a, y * y, p)
    ensures Cong(t - y, 0, p) || Cong(t + y, 0, p)
  {
    CongTrans(t * t, a, y * y, p);
    assert t * t - y * y == (t - y) * (t + y);
    PrimeDividesProduct(p, t - y, t + y);
  }

  /** The right-hand side as the program computes it is congruent to y squared. */
  lemma CurveEquation(c: Curve, x: int, y: int)
    requires c.p > 0 && ContainsPoint(c, x, y)
    ensures Cong((Pow(x, 3) % c.p + c.a * x + c.b) % c.p, y * y, c.p)
  {
    var p, cube, rest := c.p, Pow(x, 3), c.a * x + c.b;
    assert cube == x * x * x by {
      assert Pow(x, 3) == x * Pow(x, 2) && Pow(x, 2) == x * Pow(x, 1) && Pow(x, 1) == x * Pow(x, 0);
    }
    CongMod(cube, p);
    CongMod(cube % p + rest, p);
    CongRefl(rest, p);
    CongAdd(cube % p, cube, rest, rest, p);
    CongTrans((cube % p + rest) % p, cube % p + rest, cube + rest, p);
    CongSym(y * y, cube + rest, p);
    CongTrans((cube % p + rest) % p, cube + rest, y * y, p);
    assert cube % p + c.a * x + c.b == cube % p + rest;
  }

  lemma RootChoice(t: int, y: int, p: int)
    requires p > 0 && 0 <= t < p && 0 < y < p && (Cong(t - y, 0, p) || Cong(t + y, 0, p))
    ensures t == y || t == p - y
  {
    if Cong(t - y, 0, p) { NearZero(t - y, p); } else { NearZero(t + y - p, p); }
  }

  lemma NearZero(d: int, p: int)
    requires p > 0 && -p < d < p && (Cong(d, 0, p) || Cong(d + p, 0, p))
    ensures d == 0
  {
    if d > 0 {
      ModUnique(d, 0, d, p);
      ModUnique(d + p, 1, d, p);
    } else if d < 0 {
      ModUnique(d, -1, d + p, p);
      ModUnique(d + p, 0, d + p, p);
    }
  }

  /** No multiple of the generator has y = 0. */
  lemma KeyNotTwoTorsion(c: Curve, G: Point, k: nat, R: Point)
    requires Domain(c, G) && IsKey(c, G, k, R) && R.Affine?
    ensures R.y % c.p != 0
  {
    MultipleDoubles(c, G, G.order, k, R);
    DoubleCloses(c, R);
    if R.y % c.p == 0 {
      CongZeroMul(R.y, 2, c.p);
    }
  }

  /** recid is the parity of y in the reduced form of the ephemeral point. */
  ghost predicate RightCase(c: Curve, G: Point, randomK: int, recid: nat)
    requires c.p > 0 && G.Affine? && G.order != 0
  {
    var R := Mul(c, G, randomK % G.order);
    recid < 2 && R.Some? && R.value.Affine? && (Norm(c, R.value).y - recid) % 2 == 0
  }

  /** Under the right case, recovery rebuilds the ephemeral point. */
  lemma RecoverLifts(c: Curve, G: Point, secret: nat, hash: int, randomK: int, recid: nat)
    returns (k: nat, R: Point)
    requires Domain(c, G) && c.p % 4 == 3 && Sign(c, G, secret, hash, randomK).Some? && RightCase(c, G, randomK, recid)
    ensures IsKey(c, G, k, R) && R.Affine? && R.y >= 0 && R.order == G.order
    ensures var sig, n := Sign(c, G, secret, hash, randomK).value, G.order;
            var x := (sig.r + (recid / 2) * n) % c.p;
            0 < sig.r && 0 < sig.s < n && Cong(sig.s * k, hash + secret * sig.r, n) &&
            sig.r < c.p && MakePoint(c, x, LiftY(c, x, recid), n) == Some(R)
  {
    hide Add, Double, Plus, Mul, Pow, Sign, LiftY;
    var R0: Point;
    k, R0 := SignFacts(c, G, secret, hash, randomK);
    NormReduced(c, R0);
    KeyNotTwoTorsion(c, G, k, R0);
    LiftYFindsPoint(c, Norm(c, R0), recid);
    assert recid / 2 == 0;
    ModSmall(R0.x, c.p);
    R := Norm(c, R0).(order := G.order);
  }

  /** Under the right case, recovery computes the signer's public key, exactly when r is not a multiple of the
      group order. */
  lemma RecoverFindsKey(c: Curve, G: Point, secret: nat, hash: int, randomK: int, recid: nat)
    requires Domain(c, G) && c.p % 4 == 3 && Sign(c, G, secret, hash, randomK).Some? && RightCase(c, G, randomK, recid)
    ensures var sig := Sign(c, G, secret, hash, randomK).value;
            var Q := Recover(c, G, recid, sig, hash);
            (Q.Some? <==> sig.r % G.order != 0) && (Q.Some? ==> IsKey(c, G, secret, Q.value))
  {
    hide Add, Double, Plus, Mul, Pow, Sign, LiftY;
    var n, sig := G.order, Sign(c, G, secret, hash, randomK).value;
    var k, R := RecoverLifts(c, G, secret, hash, randomK, recid);
    PrimeInverse(sig.r, n);
    CongEqual(sig.r, 0, n);
    ModSmall(0, n);
    if sig.r % n != 0 {
      RecoverCombines(c, G, k, R, sig, hash, secret, ModInverse(sig.r, n).value);
    }
  }

  /** i * (s*R - hash*G) is the key when R is k copies of the generator. */
  lemma RecoverCombines(c: Curve, G: Point, k: nat, R: Point, sig: Signature, hash: int, secret: nat, i: nat)
    requires Domain(c, G) && IsKey(c, G, k, R) && sig.s >= 0
    requires Cong(sig.s * k, hash + secret * sig.r, G.order) && Cong(sig.r * i, 1, G.order)
    ensures var A, B := Mul(c, R, sig.s), Mul(c, G, (-hash) % G.order);
            A.Some? && B.Some? && var C := Add(c, A.value, B.value);
            C.Some? && Mul(c, C.value, i).Some? && IsKey(c, G, secret, Mul(c, C.value, i).value)
  {
    hide Add, Double, Plus, Mul;
    var n := G.order;
    var m := (-hash) % n;
    KeyMul(c, G, k, R, sig.s);
    GeneratorIsKey(c, G);
    KeyMul(c, G, 1, G, m);
    var A, B := Mul(c, R, sig.s).value, Mul(c, G, m).value;
    KeyAdd(c, G, sig.s * k, A, m, B);
    var C := Add(c, A, B).value;
    KeyMul(c, G, sig.s * k + m, C, i);
    RecoverEquation(n, k, sig.s, hash, sig.r, secret, i);
    KeyCong(c, G, i * (sig.s * k + m), Mul(c, C, i).value, secret);
  }
}
