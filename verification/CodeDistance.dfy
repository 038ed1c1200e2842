/** How far apart the codewords of a block are, and so how many damaged bytes can be noticed or repaired. */
module CodeDistance {
  import opened Wrappers
  import opened Octets
  import opened Gf256
  import opened Polynomial
  import opened Evaluation
  import opened ReedSolomon

  /** The number of nonzero places. */
  function Weight(p: seq<Octet>): nat {
    if p == [] then 0 else Weight(p[..|p| - 1]) + (if p[|p| - 1] == ZERO then 0 else 1)
  }

  /** The number of places where two sequences differ. */
  function Distance(p: seq<Octet>, q: seq<Octet>): nat
    requires |p| == |q|
  {
    if p == [] then 0
    else Distance(p[..|p| - 1], q[..|q| - 1]) + (if p[|p| - 1] == q[|q| - 1] then 0 else 1)
  }

  /** Every coefficient times its power of Alpha(1), raised by lift, plus c. */
  ghost function Shifted(p: seq<Octet>, c: Octet, lift: nat): (r: seq<Octet>)
    ensures |r| == |p|
  {
    seq(|p|, j requires 0 <= j < |p| => Mul(p[j], Xor(Alpha(|p| - 1 - j + lift), c)))
  }

  lemma {:induction false} EvalShifted(p: seq<Octet>, c: Octet, lift: nat, x: Octet)
    ensures Eval(Shifted(p, c, lift), x) == Xor(Mul(Alpha(lift), Eval(p, Mul(Alpha(1), x))), Mul(c, Eval(p, x)))
    decreases |p|
  {
    hide Mul, Xor, Alpha, Twice;
    if p == [] {
      MulNonZero(Alpha(lift), ZERO);
      MulNonZero(c, ZERO);
      XorLaws(ZERO, ZERO, ZERO);
    } else {
      var n := |p| - 1;
      var front, d := p[..n], p[n];
      EvalShifted(front, c, lift + 1, x);
      assert Shifted(p, c, lift)[..n] == Shifted(front, c, lift + 1);
      AlphaAdd(lift, 1);
      ShiftedLast(Alpha(lift), Alpha(1), c, d, x, Eval(front, Mul(Alpha(1), x)), Eval(front, x));
    }
  }

  lemma ShiftedLast(a: Octet, b: Octet, c: Octet, d: Octet, x: Octet, e: Octet, f: Octet)
    ensures Xor(Mul(Xor(Mul(Mul(a, b), e), Mul(c, f)), x), Mul(d, Xor(a, c))) ==
            Xor(Mul(a, Xor(Mul(e, Mul(b, x)), d)), Mul(c, Xor(Mul(f, x), d)))
  {
    hide Mul, Xor;
    MulDistributes(x, Mul(Mul(a, b), e), Mul(c, f));
    MulDistributes(d, a, c);
    MulDistributes(a, Mul(e, Mul(b, x)), d);
    MulDistributes(c, Mul(f, x), d);
    MulCommutes(d, a);
    MulCommutes(d, c);
    MulAssociates(c, f, x);
    MulAssociates(Mul(a, b), e, x);
    MulAssociates(a, b, Mul(e, x));
    MoveFactor(b, e, x);
    FourSum(Mul(a, Mul(e, Mul(b, x))), Mul(c, Mul(f, x)), Mul(a, d), Mul(c, d));
  }

  lemma {:induction false} WeightDrops(p: seq<Octet>, q: seq<Octet>, m: nat)
    requires |p| == |q| && m < |p| && p[m] != ZERO && q[m] == ZERO
    requires forall j | 0 <= j < |p| && j != m :: p[j] == ZERO <==> q[j] == ZERO
    ensures Weight(p) == Weight(q) + 1
    decreases |p|
  {
    var n := |p| - 1;
    if m < n { WeightDrops(p[..n], q[..n], m); } else { SameWeight(p[..n], q[..n]); }
  }

  lemma {:induction false} SameWeight(p: seq<Octet>, q: seq<Octet>)
    requires |p| == |q| && forall j | 0 <= j < |p| :: p[j] == ZERO <==> q[j] == ZERO
    ensures Weight(p) == Weight(q)
    decreases |p|
  {
    if p != [] { SameWeight(p[..|p| - 1], q[..|p| - 1]); }
  }

  lemma {:induction false} NonZeroPlace(p: seq<Octet>) returns (m: nat)
    requires Weight(p) > 0
    ensures m < |p| && p[m] != ZERO
    decreases |p|
  {
    var n := |p| - 1;
    if p[n] != ZERO { return n; }
    m := NonZeroPlace(p[..n]);
  }

  lemma {:induction false} LightValue(p: seq<Octet>, x: Octet)
    requires x != ZERO && Weight(p) <= 1
    ensures Eval(p, x) == ZERO <==> Weight(p) == 0
    decreases |p|
  {
    hide Mul, Xor;
    if p != [] {
      var n := |p| - 1;
      var e := Eval(p[..n], x);
      LightValue(p[..n], x);
      MulNonZero(e, x);
      XorLaws(Mul(e, x), ZERO, ZERO);
      XorLaws(p[n], ZERO, ZERO);
      XorLaws(ZERO, p[n], ZERO);
    }
  }

  /** A codeword with no more nonzero places than correction bytes has none. */
  lemma {:induction false} LightCodeword(p: seq<Octet>, ecCount: nat)
    requires |p| <= 255 && Weight(p) <= ecCount && IsCodeword(p, ecCount)
    ensures Weight(p) == 0
    decreases ecCount
  {
    hide Mul, Xor, Alpha, Eval, Weight;
    if Weight(p) > 0 {
      var m := NonZeroPlace(p);
      var c := Alpha(|p| - 1 - m);
      var q := Shifted(p, c, 0);
      ShiftedPlaces(p, m);
      WeightDrops(p, q, m);
      ShiftedCodeword(p, c, ecCount);
      LightCodeword(q, ecCount - 1);
      AlphaNonZero(0);
      LightValue(p, Alpha(0));
    }
  }

  lemma ShiftedPlaces(p: seq<Octet>, m: nat)
    requires m < |p| <= 255
    ensures forall j | 0 <= j < |p| :: Shifted(p, Alpha(|p| - 1 - m), 0)[j] == ZERO <==> p[j] == ZERO || j == m
  {
    hide Mul, Xor, Alpha;
    var c := Alpha(|p| - 1 - m);
    forall j | 0 <= j < |p| ensures Shifted(p, c, 0)[j] == ZERO <==> p[j] == ZERO || j == m {
      var a := Alpha(|p| - 1 - j);
      MulNonZero(p[j], Xor(a, c));
      XorLaws(a, c, ZERO);
      if a == c { AlphaInjective(|p| - 1 - j, |p| - 1 - m); }
    }
  }

  lemma ShiftedCodeword(p: seq<Octet>, c: Octet, ecCount: nat)
    requires ecCount > 0 && IsCodeword(p, ecCount)
    ensures IsCodeword(Shifted(p, c, 0), ecCount - 1)
  {
    hide Mul, Xor, Alpha, Eval, Shifted;
    forall i: nat | i < ecCount - 1 ensures Eval(Shifted(p, c, 0), Alpha(i)) == ZERO {
      EvalShifted(p, c, 0, Alpha(i));
      AlphaAdd(1, i);
      MulNonZero(Alpha(0), ZERO);
      MulNonZero(c, ZERO);
      XorLaws(ZERO, ZERO, ZERO);
    }
  }

  lemma {:induction false} DistanceIsWeight(p: seq<Octet>, q: seq<Octet>)
    requires |p| == |q|
    ensures Distance(p, q) == Weight(XorSeq(p, q))
    decreases |p|
  {
    hide Xor;
    if p != [] {
      var n := |p| - 1;
      DistanceIsWeight(p[..n], q[..n]);
      assert XorSeq(p, q)[..n] == XorSeq(p[..n], q[..n]);
      XorLaws(p[n], q[n], ZERO);
    }
  }

  lemma {:induction false} DistanceZero(p: seq<Octet>, q: seq<Octet>)
    requires |p| == |q|
    ensures Distance(p, q) == 0 <==> p == q
    decreases |p|
  {
    if p != [] {
      var n := |p| - 1;
      DistanceZero(p[..n], q[..n]);
      assert p == p[..n] + [p[n]] && q == q[..n] + [q[n]];
    }
  }

  lemma {:induction false} DistanceTriangle(p: seq<Octet>, q: seq<Octet>, w: seq<Octet>)
    requires |p| == |q| == |w|
    ensures Distance(p, q) <= Distance(p, w) + Distance(w, q)
    decreases |p|
  {
    if p != [] {
      var n := |p| - 1;
      DistanceTriangle(p[..n], q[..n], w[..n]);
    }
  }

  /** Two different codewords differ in more places than there are correction bytes. */
  lemma CodewordsFarApart(p: seq<Octet>, q: seq<Octet>, ecCount: nat)
    requires |p| == |q| <= 255 && p != q && IsCodeword(p, ecCount) && IsCodeword(q, ecCount)
    ensures Distance(p, q) > ecCount
  {
    hide Eval, Xor, Alpha, Weight, Distance;
    DistanceIsWeight(p, q);
    DistanceZero(p, q);
    if Distance(p, q) <= ecCount {
      forall i: nat | i < ecCount ensures Eval(XorSeq(p, q), Alpha(i)) == ZERO {
        EvalXor(p, q, Alpha(i));
        XorLaws(ZERO, ZERO, ZERO);
      }
      LightCodeword(XorSeq(p, q), ecCount);
    }
  }

  /** A damaged block is within half the correction bytes of at most one codeword. */
  lemma UniqueRepair(p: seq<Octet>, q: seq<Octet>, received: seq<Octet>, ecCount: nat)
    requires |p| == |q| == |received| <= 255 && IsCodeword(p, ecCount) && IsCodeword(q, ecCount)
    requires 2 * Distance(p, received) <= ecCount && 2 * Distance(received, q) <= ecCount
    ensures p == q
  {
    hide Distance;
    DistanceTriangle(p, q, received);
    if p != q { CodewordsFarApart(p, q, ecCount); }
  }

  lemma {:induction false} FullWeight(p: seq<Octet>)
    requires !HasZero(p)
    ensures Weight(p) == |p| && Distance(Zeros(|p|), p) == |p|
    decreases |p|
  {
    if p != [] {
      var n := |p| - 1;
      assert p[n] in p && Zeros(|p|)[..n] == Zeros(n);
      FullWeight(p[..n]);
    }
  }

  /** The bound is met: the generator and the zero block are codewords that differ in just one place more. */
  lemma DistanceIsReached(ecCount: nat)
    requires ecCount <= 254
    ensures IsCodeword(Zeros(ecCount + 1), ecCount) && IsCodeword(Generator(ecCount), ecCount)
    ensures Distance(Zeros(ecCount + 1), Generator(ecCount)) == ecCount + 1
  {
    hide Eval, Alpha, Generator, Distance;
    forall i: nat | i < ecCount ensures Eval(Generator(ecCount), Alpha(i)) == ZERO { GeneratorRoots(ecCount, i); }
    forall i: nat | i < ecCount ensures Eval(Zeros(ecCount + 1), Alpha(i)) == ZERO { EvalZeros(ecCount + 1, Alpha(i)); }
    GeneratorZeros(ecCount);
    FullWeight(Generator(ecCount));
  }

  /** The correction bytes are the only ones that complete the data to a codeword. */
  lemma CorrectionUnique(data: seq<Octet>, ec: seq<Octet>)
    requires data != [] && |data| + |ec| <= 255 && IsCodeword(data + ec, |ec|)
    ensures Correction(data, |ec|) == Some(ec)
  {
    hide Eval, Alpha, Distance, Correction;
    BlockIsCodeword(data, |ec|);
    var own := Correction(data, |ec|).value;
    TailDistance(data, own, ec);
    if own != ec {
      assert (data + own)[|data|..] == own && (data + ec)[|data|..] == ec;
      CodewordsFarApart(data + own, data + ec, |ec|);
    }
  }

  lemma {:induction false} TailDistance(data: seq<Octet>, p: seq<Octet>, q: seq<Octet>)
    requires |p| == |q|
    ensures Distance(data + p, data + q) <= |p|
    decreases |p|
  {
    if p == [] {
      assert data + p == data && data + q == data;
      DistanceZero(data, data);
    } else {
      var n := |p| - 1;
      TailDistance(data, p[..n], q[..n]);
      assert (data + p)[..|data| + n] == data + p[..n] && (data + q)[..|data| + n] == data + q[..n];
    }
  }
}
