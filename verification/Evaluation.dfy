/** Polynomials evaluated: values of sums and products, and what the remainder keeps. */
module Evaluation {
  import opened Octets
  import opened Sequences
  import opened Gf256
  import opened Polynomial

  // ----- evaluation -----

  ghost function Eval(p: seq<Octet>, x: Octet): Octet {
    if p == [] then ZERO else Xor(Mul(Eval(p[..|p| - 1], x), x), p[|p| - 1])
  }

  ghost function Power(x: Octet, n: nat): Octet {
    if n == 0 then ONE else Mul(Power(x, n - 1), x)
  }

  lemma EvalSnoc(p: seq<Octet>, c: Octet, x: Octet)
    ensures Eval(p + [c], x) == Xor(Mul(Eval(p, x), x), c)
  {
    assert (p + [c])[..|p|] == p;
  }

  lemma {:induction false} EvalConcat(p: seq<Octet>, q: seq<Octet>, x: Octet)
    ensures Eval(p + q, x) == Xor(Mul(Eval(p, x), Power(x, |q|)), Eval(q, x))
    decreases |q|
  {
    hide Mul, Xor;
    if q == [] {
      assert p + q == p;
      MulCommutes(Eval(p, x), ONE);
      MulOne(Eval(p, x));
      XorLaws(Eval(p, x), ZERO, ZERO);
    } else {
      var t, c := q[..|q| - 1], q[|q| - 1];
      EvalConcat(p, t, x);
      assert p + q == (p + t) + [c];
      EvalSnoc(p + t, c, x);
      var a, b := Mul(Eval(p, x), Power(x, |t|)), Eval(t, x);
      MulDistributes(x, a, b);
      MulAssociates(Eval(p, x), Power(x, |t|), x);
      XorLaws(Mul(a, x), Mul(b, x), c);
    }
  }

  lemma {:induction false} EvalZeros(n: nat, x: Octet)
    ensures Eval(Zeros(n), x) == ZERO
  {
    hide Mul, Xor;
    if n > 0 {
      EvalZeros(n - 1, x);
      assert Zeros(n)[..n - 1] == Zeros(n - 1);
      MulZero(x);
      XorLaws(ZERO, ZERO, ZERO);
    }
  }

  /** Leading zeros do not change the value. */
  lemma EvalLeadingZeros(n: nat, p: seq<Octet>, x: Octet)
    ensures Eval(Zeros(n) + p, x) == Eval(p, x)
  {
    hide Mul, Xor, Eval;
    EvalConcat(Zeros(n), p, x);
    EvalZeros(n, x);
    MulZero(Power(x, |p|));
    XorLaws(Eval(p, x), ZERO, ZERO);
    XorLaws(ZERO, Eval(p, x), ZERO);
  }

  lemma {:induction false} EvalXor(p: seq<Octet>, q: seq<Octet>, x: Octet)
    requires |p| == |q|
    ensures Eval(XorSeq(p, q), x) == Xor(Eval(p, x), Eval(q, x))
    decreases |p|
  {
    hide Mul, Xor;
    if p == [] {
      XorLaws(ZERO, ZERO, ZERO);
    } else {
      var n := |p| - 1;
      var p', q' := p[..n], q[..n];
      EvalXor(p', q', x);
      assert XorSeq(p, q)[..n] == XorSeq(p', q');
      var a, b := Eval(p', x), Eval(q', x);
      MulDistributes(x, a, b);
      FourSum(Mul(a, x), Mul(b, x), p[n], q[n]);
    }
  }

  lemma FourSum(a: Octet, b: Octet, c: Octet, d: Octet)
    ensures Xor(Xor(a, b), Xor(c, d)) == Xor(Xor(a, c), Xor(b, d))
  {
    XorBits();
  }

  lemma {:induction false} EvalScale(c: Octet, p: seq<Octet>, x: Octet)
    ensures Eval(Scale(c, p), x) == Mul(c, Eval(p, x))
    decreases |p|
  {
    hide Mul, Xor;
    if p == [] {
      MulCommutes(c, ZERO);
      MulZero(c);
    } else {
      var n := |p| - 1;
      EvalScale(c, p[..n], x);
      assert Scale(c, p)[..n] == Scale(c, p[..n]);
      MulAssociates(c, Eval(p[..n], x), x);
      MulDistributes(c, Mul(Eval(p[..n], x), x), p[n]);
    }
  }

  /** The product's value is the product of the values. */
  lemma {:induction false} EvalProduct(a: seq<Octet>, b: seq<Octet>, x: Octet)
    requires b != []
    ensures Eval(Product(a, b), x) == Mul(Eval(a, x), Eval(b, x))
    decreases |a|
  {
    hide Mul, Xor;
    if a == [] {
      EvalZeros(|b| - 1, x);
      MulZero(Eval(b, x));
    } else {
      var n := |a| - 1;
      var r, s := Product(a[..n], b), Scale(a[n], b);
      assert a[..n + 1] == a;
      ProductStep(a, b, n);
      EvalProduct(a[..n], b, x);
      ProductRow(a[..n], a[n], b, r, s, x);
    }
  }

  lemma ProductRow(a: seq<Octet>, c: Octet, b: seq<Octet>, r: seq<Octet>, s: seq<Octet>, x: Octet)
    requires b != [] && |r| == |a| + |b| - 1 && s == Scale(c, b) && Eval(r, x) == Mul(Eval(a, x), Eval(b, x))
    ensures Eval(XorSeq(r + [ZERO], Zeros(|a|) + s), x) == Mul(Xor(Mul(Eval(a, x), x), c), Eval(b, x))
  {
    hide Mul, Xor, Eval;
    EvalXor(r + [ZERO], Zeros(|a|) + s, x);
    EvalLeadingZeros(|a|, s, x);
    EvalScale(c, b, x);
    EvalSnoc(r, ZERO, x);
    var u, v := Eval(a, x), Eval(b, x);
    XorLaws(Mul(Mul(u, v), x), ZERO, ZERO);
    MulAssociates(u, v, x);
    MulCommutes(v, x);
    MulAssociates(u, x, v);
    MulDistributes(v, Mul(u, x), c);
  }

  // ----- the remainder keeps values at the divisor's roots -----

  lemma StripKeeps(p: seq<Octet>, x: Octet)
    ensures Eval(p[Leading(p, ZERO)..], x) == Eval(p, x)
  {
    hide Eval;
    var k := Leading(p, ZERO);
    assert p == Zeros(k) + p[k..];
    EvalLeadingZeros(k, p[k..], x);
  }

  lemma ReducedKeeps(p: seq<Octet>, e: seq<Octet>, x: Octet)
    requires e != [] && |p| >= |e| && p[0] != ZERO && e[0] != ZERO && Eval(e, x) == ZERO
    ensures Eval(Reduced(p, e), x) == Eval(p, x)
  {
    hide Mul, Xor, Eval, Ratio;
    var c, z := Ratio(p[0], e[0]), Zeros(|p| - |e|);
    EvalXor(p, Scale(c, e) + z, x);
    EvalConcat(Scale(c, e), z, x);
    EvalScale(c, e, x);
    MulCommutes(c, ZERO);
    MulZero(c);
    MulZero(Power(x, |z|));
    EvalZeros(|z|, x);
    XorLaws(ZERO, ZERO, ZERO);
    XorLaws(Eval(p, x), ZERO, ZERO);
  }

  lemma {:induction false} ModKeeps(p: seq<Octet>, e: seq<Octet>, x: Octet)
    requires Mod(p, e).Some? && Eval(e, x) == ZERO
    ensures Eval(Mod(p, e).value, x) == Eval(p, x)
    decreases |p|
  {
    hide Eval, Reduced;
    if |p| >= |e| {
      assert e[0] in e;
      ReducedLeads(p, e);
      var num := Reduced(p, e);
      var next := MakePoly(num, 0).value;
      assert next == num[Leading(num, ZERO)..];
      ReducedKeeps(p, e, x);
      StripKeeps(num, x);
      ModKeeps(next, e, x);
    }
  }
}
