/** Polynomials over the field, leading coefficient first: the program's constructor, product and remainder. */
module Polynomial {
  import opened Wrappers
  import opened Octets
  import opened Sequences
  import opened Gf256

  function Zeros(n: nat): (r: seq<Octet>)
    ensures |r| == n && forall i | 0 <= i < n :: r[i] == ZERO
  {
    Repeat(ZERO, n)
  }

  ghost predicate HasZero(p: seq<Octet>) {
    ZERO in p
  }

  /** The coefficients without leading zeros, times a power of the variable; None when there are none given. */
  function MakePoly(num: seq<Octet>, shift: nat): Option<seq<Octet>> {
    if num == [] then None else Some(num[Leading(num, ZERO)..] + Zeros(shift))
  }

  ghost function XorSeq(p: seq<Octet>, q: seq<Octet>): (r: seq<Octet>)
    requires |p| == |q|
    ensures |r| == |p| && forall i | 0 <= i < |p| :: r[i] == Xor(p[i], q[i])
  {
    seq(|p|, i requires 0 <= i < |p| => Xor(p[i], q[i]))
  }

  ghost function Scale(c: Octet, p: seq<Octet>): (r: seq<Octet>)
    ensures |r| == |p| && forall i | 0 <= i < |p| :: r[i] == Mul(c, p[i])
  {
    seq(|p|, i requires 0 <= i < |p| => Mul(c, p[i]))
  }

  /** The product, one coefficient of a at a time. */
  ghost function Product(a: seq<Octet>, b: seq<Octet>): (r: seq<Octet>)
    requires b != []
    ensures |r| == |a| + |b| - 1
  {
    if a == [] then Zeros(|b| - 1)
    else
      var n := |a| - 1;
      XorSeq(Product(a[..n], b) + [ZERO], Zeros(n) + Scale(a[n], b))
  }

  /** The product as the program computes it; None where a logarithm of zero or an empty list raises. */
  ghost function Multiplied(a: seq<Octet>, b: seq<Octet>): Option<seq<Octet>> {
    if |a| + |b| <= 1 then None
    else if a == [] || b == [] then MakePoly(Zeros(|a| + |b| - 1), 0)
    else if HasZero(a) || HasZero(b) then None
    else MakePoly(Product(a, b), 0)
  }

  method Make(num: seq<Octet>, shift: nat) returns (r: Option<seq<Octet>>)
    ensures r == MakePoly(num, shift)
  {
    if |num| == 0 { return None; }
    var offset := 0;
    while offset < |num| && num[offset] == ZERO
      invariant offset <= Leading(num, ZERO)
    {
      offset := offset + 1;
    }
    var own := new Octet[|num| - offset + shift](_ => ZERO);
    for i := 0 to |num| - offset
      invariant forall k | 0 <= k < own.Length :: own[k] == if k < i then num[k + offset] else ZERO
    {
      own[i] := num[i + offset];
    }
    assert own[..] == num[offset..] + Zeros(shift);
    return Some(own[..]);
  }

  /** Adds one row of the product at position i; false when a logarithm of zero raises. */
  method AddRow(num: array<Octet>, c: Octet, b: seq<Octet>, i: nat) returns (ok: bool)
    requires i + |b| <= num.Length
    modifies num
    ensures ok <==> b == [] || (c != ZERO && !HasZero(b))
    ensures ok ==> forall k | 0 <= k < num.Length ::
              num[k] == if i <= k < i + |b| then Xor(old(num[k]), Mul(c, b[k - i])) else old(num[k])
  {
    hide Mul, Xor, BitXor, Glog, Gexp;
    for j := 0 to |b|
      invariant forall k | 0 <= k < num.Length ::
                  num[k] == if i <= k < i + j then Xor(old(num[k]), Mul(c, b[k - i])) else old(num[k])
      invariant j > 0 ==> c != ZERO
      invariant forall k | 0 <= k < j :: b[k] != ZERO
    {
      var la, lb := Glog(c), Glog(b[j]);
      if la.None? || lb.None? { return false; }
      TableProduct(c, b[j]);
      XorBit(num[i + j], Gexp(la.value + lb.value));
      num[i + j] := BitXor(num[i + j], Gexp(la.value + lb.value));
    }
    return true;
  }

  method Multiply(a: seq<Octet>, b: seq<Octet>) returns (r: Option<seq<Octet>>)
    ensures r == Multiplied(a, b)
  {
    hide Mul, Xor, Product;
    if |a| + |b| <= 1 { return None; }
    var num := new Octet[|a| + |b| - 1](_ => ZERO);
    if b != [] { ProductEmpty(b); }
    for i := 0 to |a|
      invariant b != [] ==> num[..i + |b| - 1] == Product(a[..i], b)
      invariant forall k | 0 <= k < num.Length && (b == [] || k >= i + |b| - 1) :: num[k] == ZERO
      invariant b != [] ==> (forall k | 0 <= k < i :: a[k] != ZERO) && (i > 0 ==> !HasZero(b))
    {
      ghost var before := num[..];
      var ok := AddRow(num, a[i], b, i);
      if !ok { return None; }
      if b != [] { RowDone(before, num[..], a, b, i); }
    }
    assert a[..|a|] == a && num[..|a| + |b| - 1] == num[..];
    if a == [] || b == [] { assert num[..] == Zeros(|a| + |b| - 1); }
    r := Make(num[..], 0);
  }

  lemma ProductEmpty(b: seq<Octet>)
    requires b != []
    ensures Product([], b) == Zeros(|b| - 1)
  {
  }

  lemma ProductStep(a: seq<Octet>, b: seq<Octet>, i: nat)
    requires b != [] && i < |a|
    ensures Product(a[..i + 1], b) == XorSeq(Product(a[..i], b) + [ZERO], Zeros(i) + Scale(a[i], b))
  {
    var row := a[..i + 1];
    assert row[..i] == a[..i] && row[i] == a[i];
  }

  lemma RowDone(before: seq<Octet>, after: seq<Octet>, a: seq<Octet>, b: seq<Octet>, i: nat)
    requires b != [] && i < |a| && |before| == |after| == |a| + |b| - 1
    requires before[..i + |b| - 1] == Product(a[..i], b)
    requires forall k | i + |b| - 1 <= k < |before| :: before[k] == ZERO
    requires forall k | 0 <= k < |after| ::
               after[k] == if i <= k < i + |b| then Xor(before[k], Mul(a[i], b[k - i])) else before[k]
    ensures after[..i + |b|] == Product(a[..i + 1], b)
    ensures forall k | i + |b| <= k < |after| :: after[k] == ZERO
  {
    hide Mul, Xor, Product;
    ProductStep(a, b, i);
    var p, q := Product(a[..i], b) + [ZERO], Zeros(i) + Scale(a[i], b);
    assert p == before[..i + |b|];
    forall k | 0 <= k < i + |b| ensures after[k] == Xor(p[k], q[k]) {
      XorLaws(before[k], ZERO, ZERO);
    }
    assert after[..i + |b|] == XorSeq(p, q);
  }

  // ----- the remainder -----

  /** p minus the multiple of e that cancels its leading coefficient. */
  ghost function Reduced(p: seq<Octet>, e: seq<Octet>): (r: seq<Octet>)
    requires e != [] && |p| >= |e| && p[0] != ZERO && e[0] != ZERO
    ensures |r| == |p|
  {
    XorSeq(p, Scale(Ratio(p[0], e[0]), e) + Zeros(|p| - |e|))
  }

  /** The quotient of two nonzero elements. */
  function Ratio(a: Octet, b: Octet): Octet
    requires a != ZERO && b != ZERO
  {
    Gexp(Glog(a).value as int - Glog(b).value)
  }

  /** Any exponent sum with the quotient's logarithms is a product with the quotient. */
  lemma RatioProduct(a: Octet, b: Octet, c: Octet)
    requires a != ZERO && b != ZERO && c != ZERO
    ensures Gexp(Glog(c).value + (Glog(a).value as int - Glog(b).value)) == Mul(Ratio(a, b), c)
    ensures Mul(Ratio(a, b), b) == a
  {
    hide Alpha, Mul, Gexp, Glog;
    var i: int, j: int, k: int := Glog(a).value, Glog(b).value, Glog(c).value;
    GexpIsAlpha(i - j, 1, i - j + 255);
    GexpIsAlpha(k + (i - j), 1, k + (i - j) + 255);
    AlphaAdd(i - j + 255, k);
    AlphaAdd(i - j + 255, j);
    KnownPowers();
    AlphaPeriod(255, 1, i);
  }

  lemma ReducedLeads(p: seq<Octet>, e: seq<Octet>)
    requires e != [] && |p| >= |e| && p[0] != ZERO && e[0] != ZERO
    ensures Reduced(p, e)[0] == ZERO && Leading(Reduced(p, e), ZERO) > 0
  {
    hide Mul, Xor, Gexp, Glog;
    RatioProduct(p[0], e[0], e[0]);
    XorLaws(p[0], p[0], p[0]);
  }

  /** The remainder as the program computes it; None where it raises. */
  ghost function Mod(p: seq<Octet>, e: seq<Octet>): Option<seq<Octet>>
    decreases |p|
  {
    if |p| < |e| then Some(p)
    else if e == [] || p[0] == ZERO || HasZero(e) then None
    else
      assert e[0] in e;
      ReducedLeads(p, e);
      var next :- MakePoly(Reduced(p, e), 0);
      Mod(next, e)
  }

  /** One division step on a copy of the coefficients; None when a logarithm of zero raises. */
  method Subtract(p: seq<Octet>, e: seq<Octet>) returns (r: Option<seq<Octet>>)
    requires e != [] && |p| >= |e|
    ensures r.None? <==> p[0] == ZERO || HasZero(e)
    ensures r.Some? ==> (assert e[0] in e; r.value == Reduced(p, e))
  {
    hide Mul, Xor, BitXor, Gexp, Glog, Ratio, Reduced;
    var lp, le := Glog(p[0]), Glog(e[0]);
    assert e[0] in e;
    if lp.None? || le.None? { return None; }
    var ratio: int := lp.value as int - le.value;
    var num := new Octet[|p|];
    for i := 0 to |p|
      invariant forall k | 0 <= k < i :: num[k] == p[k]
    {
      num[i] := p[i];
    }
    ghost var c := Ratio(p[0], e[0]);
    for i := 0 to |e|
      invariant forall k | 0 <= k < i :: e[k] != ZERO
      invariant forall k | 0 <= k < |p| :: num[k] == if k < i then Xor(p[k], Mul(c, e[k])) else p[k]
    {
      var l := Glog(e[i]);
      if l.None? { return None; }
      RatioProduct(p[0], e[0], e[i]);
      XorBit(num[i], Gexp(l.value + ratio));
      num[i] := BitXor(num[i], Gexp(l.value + ratio));
    }
    ReducedIs(p, e, num[..]);
    return Some(num[..]);
  }

  lemma ReducedIs(p: seq<Octet>, e: seq<Octet>, num: seq<Octet>)
    requires e != [] && |num| == |p| >= |e| && p[0] != ZERO && e[0] != ZERO
    requires var c := Ratio(p[0], e[0]);
             forall k | 0 <= k < |p| :: num[k] == if k < |e| then Xor(p[k], Mul(c, e[k])) else p[k]
    ensures num == Reduced(p, e)
  {
    hide Mul, Xor, Ratio;
    forall k | 0 <= k < |p| ensures num[k] == Reduced(p, e)[k] { XorLaws(p[k], ZERO, ZERO); }
  }

  method Remainder(p: seq<Octet>, e: seq<Octet>) returns (r: Option<seq<Octet>>)
    ensures r == Mod(p, e)
    decreases |p|
  {
    hide Reduced;
    if |p| < |e| { return Some(p); }
    if e == [] { return None; }
    var num := Subtract(p, e);
    if num.None? { return None; }
    assert e[0] in e;
    ReducedLeads(p, e);
    var next := Make(num.value, 0);
    r := Remainder(next.value, e);
  }

  /** The remainder is shorter than the divisor, and taking it raises exactly when a division step meets a zero
      coefficient of the divisor or a zero in front. */
  lemma {:induction false} ModDefined(p: seq<Octet>, e: seq<Octet>)
    ensures Mod(p, e).None? <==> |p| >= |e| && (e == [] || p[0] == ZERO || HasZero(e))
    ensures Mod(p, e).Some? ==> |Mod(p, e).value| < |e|
    decreases |p|
  {
    if |p| >= |e| && e != [] && p[0] != ZERO && !HasZero(e) {
      assert e[0] in e;
      ReducedLeads(p, e);
      hide Reduced, Leading;
      var next := MakePoly(Reduced(p, e), 0).value;
      ModDefined(next, e);
      assert next != [] ==> next[0] != ZERO;
    }
  }
}
