/** Error correction blocks: the generator polynomial, and codewords that vanish at its roots. */
module ReedSolomon {
  import opened Wrappers
  import opened Octets
  import opened Sequences
  import opened Gf256
  import opened Polynomial
  import opened Evaluation

  // ----- the generator polynomial -----

  /** The product of the factors x + Alpha(i) for i below n. */
  ghost function Generator(n: nat): (g: seq<Octet>)
    ensures |g| == n + 1
  {
    if n == 0 then [ONE] else Product(Generator(n - 1), [ONE, Alpha(n - 1)])
  }

  lemma EvalLinear(r: Octet, x: Octet)
    ensures Eval([ONE, r], x) == Xor(x, r)
  {
    hide Mul, Xor;
    EvalSnoc([], ONE, x);
    EvalSnoc([ONE], r, x);
    assert [] + [ONE] == [ONE] && [ONE] + [r] == [ONE, r];
    MulZero(x);
    XorLaws(ZERO, ONE, ZERO);
    XorLaws(ONE, ZERO, ZERO);
    MulOne(x);
  }

  /** The generator vanishes at the first n powers of the primitive element. */
  lemma {:induction false} GeneratorRoots(n: nat, i: nat)
    requires i < n
    ensures Eval(Generator(n), Alpha(i)) == ZERO
  {
    hide Mul, Xor, Eval;
    var a, b := Eval(Generator(n - 1), Alpha(i)), Xor(Alpha(i), Alpha(n - 1));
    EvalProduct(Generator(n - 1), [ONE, Alpha(n - 1)], Alpha(i));
    EvalLinear(Alpha(n - 1), Alpha(i));
    MulNonZero(a, b);
    if i < n - 1 { GeneratorRoots(n - 1, i); } else { XorLaws(Alpha(i), ZERO, ZERO); }
  }

  ghost function At(p: seq<Octet>, j: int): Octet {
    if 0 <= j < |p| then p[j] else ZERO
  }

  ghost function Coefficient(k: nat, j: int): Octet {
    At(Generator(k), j)
  }

  lemma {:induction false} ProductLinear(a: seq<Octet>, r: Octet, j: int)
    ensures At(Product(a, [ONE, r]), j) == Xor(At(a, j), Mul(r, At(a, j - 1)))
    decreases |a|
  {
    hide Mul, Xor, Product;
    MulNonZero(r, ZERO);
    XorLaws(ZERO, ZERO, ZERO);
    if a == [] {
      ProductEmpty([ONE, r]);
    } else {
      var n := |a| - 1;
      ProductLinear(a[..n], r, j);
      ProductStep(a, [ONE, r], n);
      assert a[..n + 1] == a;
      MulCommutes(a[n], ONE);
      MulOne(a[n]);
      MulCommutes(a[n], r);
      var before, row := Product(a[..n], [ONE, r]), Scale(a[n], [ONE, r]);
      var sum := XorSeq(before + [ZERO], Zeros(n) + row);
      var c, d := At(before, j), Mul(r, At(a, j - 1));
      XorLaws(c, ZERO, ZERO);
      if j == n {
        assert sum[j] == Xor(c, a[n]);
        XorLaws(ZERO, d, ZERO);
        XorLaws(d, ZERO, ZERO);
        XorLaws(d, a[n], ZERO);
      } else if 0 <= j <= n + 1 {
        assert sum[j] == Xor((before + [ZERO])[j], (Zeros(n) + row)[j]);
      }
    }
  }

  lemma LeftSide(a: Octet, b: Octet, q: Octet, j: Octet, p: Octet)
    requires Mul(a, Xor(p, ONE)) == Mul(b, Xor(q, j))
    ensures Mul(Xor(a, Mul(q, b)), Xor(p, ONE)) == Xor(Mul(b, j), Mul(Mul(q, b), p))
  {
    hide Mul, Xor;
    var qb := Mul(q, b);
    MulDistributes(Xor(p, ONE), a, qb);
    MulDistributes(qb, p, ONE);
    MulCommutes(qb, ONE);
    MulOne(qb);
    MulDistributes(b, q, j);
    MulCommutes(b, q);
    CancelLeft(qb, Mul(b, j), Mul(qb, p));
  }

  lemma CancelLeft(x: Octet, y: Octet, z: Octet)
    ensures Xor(Xor(x, y), Xor(z, x)) == Xor(y, z)
  {
    XorBits();
  }

  lemma RightSide(b: Octet, c: Octet, q: Octet, j: Octet, p: Octet, s: Octet, a: Octet)
    requires Mul(b, Xor(p, a)) == Mul(c, Xor(s, j)) && s == Mul(a, q)
    ensures Mul(Xor(b, Mul(q, c)), Xor(s, j)) == Xor(Mul(b, j), Mul(Mul(q, b), p))
  {
    hide Mul, Xor;
    var qb := Mul(q, b);
    MulDistributes(Xor(s, j), b, Mul(q, c));
    MulAssociates(q, c, Xor(s, j));
    MulAssociates(q, b, Xor(p, a));
    MulDistributes(qb, p, a);
    MulDistributes(b, s, j);
    MulCommutes(a, q);
    MulCommutes(b, q);
    MulAssociates(b, q, a);
    CancelLeft(Mul(b, s), Mul(b, j), Mul(qb, p));
  }

  /** Neighbouring coefficients of the generator, related as the coefficients of a Gaussian binomial are. */
  lemma {:induction false} NeighbourCoefficients(k: nat, j: nat)
    requires j > 0
    ensures Mul(Coefficient(k, j), Xor(Alpha(j), ONE)) == Mul(Coefficient(k, j - 1), Xor(Alpha(k), Alpha(j - 1)))
    decreases k, 0
  {
    hide Mul, Xor, Product, Twice;
    if k == 0 {
      MulZero(Xor(Alpha(j), ONE));
      MulZero(Xor(Alpha(k), Alpha(j - 1)));
      XorLaws(ONE, ZERO, ZERO);
      MulNonZero(ONE, ZERO);
    } else {
      var h := k - 1;
      var a, b, c := Coefficient(h, j), Coefficient(h, j - 1), Coefficient(h, j - 2);
      var q := Alpha(h);
      ProductLinear(Generator(h), q, j);
      ProductLinear(Generator(h), q, j - 1);
      NeighbourCoefficients(h, j);
      LeftSide(a, b, q, Alpha(j - 1), Alpha(j));
      LowerNeighbours(h, j);
      AlphaAdd(1, h);
      RightSide(b, c, q, Alpha(j - 1), Alpha(j), Alpha(k), Alpha(1));
    }
  }

  /** The relation one place lower, times the primitive element. */
  lemma {:induction false} LowerNeighbours(h: nat, j: nat)
    requires j > 0
    ensures Mul(Coefficient(h, j - 1), Xor(Alpha(j), Alpha(1))) ==
            Mul(Coefficient(h, j - 2), Xor(Alpha(h + 1), Alpha(j - 1)))
    decreases h, 1
  {
    hide Mul, Xor, Coefficient, Twice, Alpha;
    var b, c := Coefficient(h, j - 1), Coefficient(h, j - 2);
    if j == 1 {
      OutsideIsZero(h);
      XorLaws(Alpha(1), ZERO, ZERO);
      MulNonZero(b, ZERO);
      MulZero(Xor(Alpha(h + 1), Alpha(0)));
    } else {
      NeighbourCoefficients(h, j - 1);
      AlphaZero();
      AlphaAdd(1, j - 1);
      AlphaAdd(1, 0);
      AlphaAdd(1, h);
      AlphaAdd(1, j - 2);
      MulDistributes(Alpha(1), Alpha(j - 1), ONE);
      MulDistributes(Alpha(1), Alpha(h), Alpha(j - 2));
      MoveFactor(b, Alpha(1), Xor(Alpha(j - 1), ONE));
      MoveFactor(c, Alpha(1), Xor(Alpha(h), Alpha(j - 2)));
    }
  }

  lemma OutsideIsZero(k: nat)
    ensures Coefficient(k, -1) == ZERO
  {
  }

  lemma MoveFactor(a: Octet, b: Octet, c: Octet)
    ensures Mul(a, Mul(b, c)) == Mul(b, Mul(a, c))
  {
    hide Mul;
    MulAssociates(a, b, c);
    MulCommutes(a, b);
    MulAssociates(b, a, c);
  }

  lemma {:induction false} LeadingCoefficient(k: nat)
    ensures Coefficient(k, 0) == ONE
  {
    hide Mul, Xor, Product;
    if k > 0 {
      LeadingCoefficient(k - 1);
      ProductLinear(Generator(k - 1), Alpha(k - 1), 0);
      MulNonZero(Alpha(k - 1), ZERO);
      XorLaws(ONE, ZERO, ZERO);
    }
  }

  /** Below degree 255 no coefficient of the generator is zero. */
  lemma {:induction false} CoefficientNonZero(k: nat, j: nat)
    requires j <= k <= 254
    ensures Coefficient(k, j) != ZERO
    decreases j
  {
    hide Mul, Xor, Coefficient, Alpha;
    if j == 0 {
      LeadingCoefficient(k);
    } else {
      CoefficientNonZero(k, j - 1);
      NeighbourCoefficients(k, j);
      MulNonZero(Coefficient(k, j), Xor(Alpha(j), ONE));
      MulNonZero(Coefficient(k, j - 1), Xor(Alpha(k), Alpha(j - 1)));
      XorLaws(Alpha(k), Alpha(j - 1), ZERO);
      if Alpha(k) == Alpha(j - 1) { AlphaInjective(k, j - 1); }
    }
  }

  /** Exactly up to degree 254 the generator has no zero coefficient. */
  lemma GeneratorZeros(k: nat)
    requires k <= 255
    ensures HasZero(Generator(k)) <==> k == 255
  {
    hide Mul, Xor, Generator, Alpha;
    if k == 255 {
      NeighbourCoefficients(k, 1);
      KnownPowers();
      AlphaZero();
      NotOne(1);
      XorLaws(ONE, ZERO, ZERO);
      XorLaws(Alpha(1), ONE, ZERO);
      MulNonZero(Coefficient(k, 0), ZERO);
      MulNonZero(Coefficient(k, 1), Xor(Alpha(1), ONE));
      assert Generator(k)[1] in Generator(k);
    } else if HasZero(Generator(k)) {
      var j :| 0 <= j < k + 1 && Generator(k)[j] == ZERO;
      CoefficientNonZero(k, j);
    }
  }

  lemma GeneratorStep(k: nat)
    requires k <= 254
    ensures Multiplied(Generator(k), [ONE, Alpha(k)]) == Some(Generator(k + 1))
  {
    hide Mul, Product, Alpha;
    GeneratorZeros(k);
    AlphaNonZero(k);
    LeadingCoefficient(k + 1);
    assert Generator(k + 1) == Product(Generator(k), [ONE, Alpha(k)]);
    assert Generator(k + 1)[0] == ONE;
    assert Generator(k + 1)[0..] + Zeros(0) == Generator(k + 1);
  }

  /** The generator is built for every degree up to 255; from 256 on a zero coefficient raises. */
  method ErrorCorrectPolynomial(errorCorrectLength: nat) returns (r: Option<seq<Octet>>)
    ensures r == if errorCorrectLength <= 255 then Some(Generator(errorCorrectLength)) else None
  {
    hide Mul, Product, Generator, Multiplied;
    r := Make([ONE], 0);
    assert r == Some(Generator(0)) by { ConstantOne(); }
    for i := 0 to errorCorrectLength
      invariant i <= 255 && r == Some(Generator(i))
    {
      var factor := Make([ONE, Gexp(i)], 0);
      assert factor == Some([ONE, Alpha(i)]) by { GexpIsAlpha(i, 0, i); assert [ONE, Alpha(i)] + Zeros(0) == [ONE, Alpha(i)]; }
      r := Multiply(r.value, factor.value);
      if i == 255 {
        assert r.None? by { GeneratorZeros(255); TooMany(Generator(255), Alpha(255)); }
        return;
      }
      GeneratorStep(i);
    }
  }

  lemma ConstantOne()
    ensures MakePoly([ONE], 0) == Some([ONE]) && Generator(0) == [ONE]
  {
    assert [ONE] + Zeros(0) == [ONE];
  }

  lemma TooMany(g: seq<Octet>, c: Octet)
    requires HasZero(g)
    ensures Multiplied(g, [ONE, c]).None?
  {
  }

  // ----- one block -----

  /** The error correction bytes of a block as the program computes them; None where it raises. */
  ghost function Correction(data: seq<Octet>, ecCount: nat): Option<seq<Octet>> {
    if ecCount > 255 then None
    else
      var raw :- MakePoly(data, ecCount);
      var rest :- Mod(raw, Generator(ecCount));
      ModDefined(raw, Generator(ecCount));
      Some(Zeros(ecCount - |rest|) + rest)
  }

  method CorrectBlock(data: seq<Octet>, ecCount: nat) returns (r: Option<seq<Octet>>)
    ensures r == Correction(data, ecCount)
  {
    hide Generator, Mod;
    var rs := ErrorCorrectPolynomial(ecCount);
    if rs.None? { return None; }
    var raw := Make(data, |rs.value| - 1);
    if raw.None? { return None; }
    var rest := Remainder(raw.value, rs.value);
    if rest.None? { return None; }
    ModDefined(raw.value, rs.value);
    var ec := new Octet[|rs.value| - 1](_ => ZERO);
    for i := 0 to ec.Length
      invariant forall k | 0 <= k < i :: ec[k] == (Zeros(ecCount - |rest.value|) + rest.value)[k]
    {
      var index := i + |rest.value| - ec.Length;
      ec[i] := if index >= 0 then rest.value[index] else ZERO;
    }
    assert ec[..] == Zeros(ecCount - |rest.value|) + rest.value;
    return Some(ec[..]);
  }

  ghost predicate IsCodeword(block: seq<Octet>, ecCount: nat) {
    forall i: nat | i < ecCount :: Eval(block, Alpha(i)) == ZERO
  }

  ghost predicate AllZero(p: seq<Octet>) {
    forall c | c in p :: c == ZERO
  }

  /** The data followed by its correction bytes vanishes at every root of the generator; the computation raises
      exactly for an empty block, 256 or more correction bytes, or 255 of them for data that is not all zero. */
  lemma BlockIsCodeword(data: seq<Octet>, ecCount: nat)
    ensures Correction(data, ecCount).None? <==> data == [] || ecCount >= 256 || (ecCount == 255 && !AllZero(data))
    ensures Correction(data, ecCount).Some? ==>
              |Correction(data, ecCount).value| == ecCount && IsCodeword(data + Correction(data, ecCount).value, ecCount)
  {
    hide Generator, Mod, Eval, Mul, Xor;
    if data != [] && ecCount <= 255 {
      var raw, g := MakePoly(data, ecCount).value, Generator(ecCount);
      ModDefined(raw, g);
      GeneratorZeros(ecCount);
      StrippedEmpty(data);
      if Mod(raw, g).Some? {
        forall i: nat | i < ecCount ensures Eval(data + Correction(data, ecCount).value, Alpha(i)) == ZERO {
          GeneratorRoots(ecCount, i);
          CodewordAt(data, ecCount, Alpha(i));
        }
      }
    }
  }

  lemma StrippedEmpty(p: seq<Octet>)
    ensures Leading(p, ZERO) == |p| <==> AllZero(p)
  {
    if Leading(p, ZERO) < |p| { assert p[Leading(p, ZERO)] in p; }
  }

  lemma CodewordAt(data: seq<Octet>, ecCount: nat, x: Octet)
    requires Correction(data, ecCount).Some? && Eval(Generator(ecCount), x) == ZERO
    ensures Eval(data + Correction(data, ecCount).value, x) == ZERO
  {
    hide Generator, Mod, Eval, Mul, Xor;
    var raw, g := MakePoly(data, ecCount).value, Generator(ecCount);
    var rest, ec := Mod(raw, g).value, Correction(data, ecCount).value;
    ModDefined(raw, g);
    ModKeeps(raw, g, x);
    EvalLeadingZeros(ecCount - |rest|, rest, x);
    var kept := data[Leading(data, ZERO)..];
    EvalConcat(kept, Zeros(ecCount), x);
    EvalZeros(ecCount, x);
    StripKeeps(data, x);
    EvalConcat(data, ec, x);
    var v := Mul(Eval(data, x), Power(x, ecCount));
    XorLaws(v, ZERO, ZERO);
  }
}
