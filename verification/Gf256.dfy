/** The field of 256 elements modulo x^8 + x^4 + x^3 + x^2 + 1, its logarithm tables, and products through them. */
module Gf256 {
  import opened Wrappers
  import opened Octets
  import Modular

  // ----- powers of the generator -----

  /** Multiplication by x modulo 0x11D. */
  function Twice(a: Octet): Octet {
    Octet(a.b6, a.b5, a.b4, a.b3 != a.b7, a.b2 != a.b7, a.b1 != a.b7, a.b0, a.b7)
  }

  function Alpha(i: nat): Octet {
    if i == 0 then ONE else Twice(Alpha(i - 1))
  }

  lemma TwiceLinear(a: Octet, b: Octet)
    ensures Twice(Xor(a, b)) == Xor(Twice(a), Twice(b))
  {
    XorBits();
  }

  lemma TwiceInjective(a: Octet, b: Octet)
    requires Twice(a) == Twice(b)
    ensures a == b
  {
  }

  /** The recurrence by which the exponent table is filled. */
  lemma Recurrence(i: nat)
    requires i >= 8
    ensures Alpha(i) == Xor(Xor(Xor(Alpha(i - 4), Alpha(i - 5)), Alpha(i - 6)), Alpha(i - 8))
  {
    var a := Alpha(i - 8);
    assert Alpha(i - 7) == Twice(a) && Alpha(i - 6) == Twice(Alpha(i - 7)) && Alpha(i - 5) == Twice(Alpha(i - 6));
    assert Alpha(i - 4) == Twice(Alpha(i - 5)) && Alpha(i - 3) == Twice(Alpha(i - 4));
    assert Alpha(i - 2) == Twice(Alpha(i - 3)) && Alpha(i - 1) == Twice(Alpha(i - 2));
    TwiceEight(a);
    RightSum(Alpha(i - 4), Alpha(i - 5), Alpha(i - 6), a);
  }

  lemma RecurrenceBits(i: nat)
    requires i >= 8
    ensures Alpha(i) == BitXor(BitXor(BitXor(Alpha(i - 4), Alpha(i - 5)), Alpha(i - 6)), Alpha(i - 8))
  {
    hide Alpha, BitXor;
    Recurrence(i);
    XorBits();
  }

  lemma RightSum(a: Octet, b: Octet, c: Octet, d: Octet)
    ensures Xor(Xor(Xor(a, b), c), d) == Xor(a, Xor(b, Xor(c, d)))
  {
    hide Xor;
    XorLaws(Xor(a, b), c, d);
    XorLaws(a, b, Xor(c, d));
  }

  lemma TwiceEight(a: Octet)
    ensures var b := Twice(Twice(a)); var c := Twice(Twice(b));
            Twice(Twice(Twice(Twice(c)))) == Xor(c, Xor(Twice(b), Xor(b, a)))
  {
    hide Twice, Xor, Shift4;
    var b := Twice(Twice(a));
    var c := Twice(Twice(b));
    FourTimes(a);
    FourTimes(c);
    EightTimes(a);
  }

  /** Four doublings, bit by bit. */
  function Shift4(a: Octet): Octet {
    var p, q := a.b7 != a.b6, a.b5 != a.b4;
    Octet(a.b3 != a.b7, a.b2 != p, a.b1 != (p != a.b5), a.b0 != (a.b6 != q), a.b7 != q, a.b6 != a.b4, a.b5, a.b4)
  }

  lemma FourTimes(a: Octet)
    ensures Twice(Twice(Twice(Twice(a)))) == Shift4(a)
  {
  }

  lemma EightTimes(a: Octet)
    ensures var b := Twice(Twice(a)); Shift4(Shift4(a)) == Xor(Shift4(a), Xor(Twice(b), Xor(b, a)))
  {
    XorBits();
  }

  // ----- the field product -----

  function Select(bit: bool, a: Octet): Octet {
    if bit then a else ZERO
  }

  /** The bits of a byte, least significant first. */
  function LowFirst(a: Octet): seq<bool> {
    [a.b0, a.b1, a.b2, a.b3, a.b4, a.b5, a.b6, a.b7]
  }

  /** b times each of the bits, the doublings taken modulo 0x11D. */
  ghost function MulBits(bits: seq<bool>, b: Octet): Octet {
    if bits == [] then ZERO else Xor(Select(bits[0], b), MulBits(bits[1..], Twice(b)))
  }

  /** The product of polynomials over the two-element field, reduced modulo 0x11D. */
  ghost function Mul(a: Octet, b: Octet): Octet {
    MulBits(LowFirst(a), b)
  }

  lemma MulBitsStep(s: seq<bool>, i: nat, b: Octet)
    requires i < |s|
    ensures MulBits(s[i..], b) == Xor(Select(s[i], b), MulBits(s[i + 1..], Twice(b)))
  {
    assert s[i..][1..] == s[i + 1..];
  }

  /** The terms of four bits. */
  lemma MulFourBits(s: seq<bool>, i: nat, b: Octet)
    requires i + 4 <= |s|
    ensures var b1 := Twice(b); var b2 := Twice(b1); var b3 := Twice(b2);
            MulBits(s[i..], b) == Xor(Select(s[i], b), Xor(Select(s[i + 1], b1), Xor(Select(s[i + 2], b2),
                                  Xor(Select(s[i + 3], b3), MulBits(s[i + 4..], Twice(b3))))))
  {
    hide MulBits, Xor, Select, Twice;
    var b1 := Twice(b);
    var b2 := Twice(b1);
    MulBitsStep(s, i, b);
    MulBitsStep(s, i + 1, b1);
    MulBitsStep(s, i + 2, b2);
    MulBitsStep(s, i + 3, Twice(b2));
  }

  lemma MulWrittenOut(a: Octet, b: Octet)
    ensures Mul(a, b) == WrittenOut(a, b)
  {
    hide MulBits, Xor, Select, Twice;
    var s := LowFirst(a);
    var b4 := Twice(Twice(Twice(Twice(b))));
    var b7 := Twice(Twice(Twice(b4)));
    assert s[0..] == s;
    MulFourBits(s, 0, b);
    MulFourBits(s, 4, b4);
    NoMoreBits(s[8..], Twice(b7));
    XorLaws(Select(s[7], b7), ZERO, ZERO);
  }

  lemma NoMoreBits(s: seq<bool>, b: Octet)
    requires s == []
    ensures MulBits(s, b) == ZERO
  {
  }

  /** The product as the sum of eight selected doublings. */
  ghost function WrittenOut(a: Octet, b: Octet): Octet {
    var b1 := Twice(b);
    var b2 := Twice(b1);
    var b3 := Twice(b2);
    var b4 := Twice(b3);
    var b5 := Twice(b4);
    var b6 := Twice(b5);
    Sum(a, b, b1, b2, b3, b4, b5, b6, Twice(b6))
  }

  /** The sum of the values that the bits of a select. */
  ghost function Sum(a: Octet, b: Octet, b1: Octet, b2: Octet, b3: Octet, b4: Octet, b5: Octet, b6: Octet, b7: Octet): Octet {
    Sum8(Select(a.b0, b), Select(a.b1, b1), Select(a.b2, b2), Select(a.b3, b3),
         Select(a.b4, b4), Select(a.b5, b5), Select(a.b6, b6), Select(a.b7, b7))
  }

  ghost function Sum8(s0: Octet, s1: Octet, s2: Octet, s3: Octet, s4: Octet, s5: Octet, s6: Octet, s7: Octet): Octet {
    Xor(s0, Xor(s1, Xor(s2, Xor(s3, Xor(s4, Xor(s5, Xor(s6, s7)))))))
  }

  lemma TwiceSum(s0: Octet, s1: Octet, s2: Octet, s3: Octet, s4: Octet, s5: Octet, s6: Octet, s7: Octet)
    ensures Twice(Sum8(s0, s1, s2, s3, s4, s5, s6, s7)) ==
            Sum8(Twice(s0), Twice(s1), Twice(s2), Twice(s3), Twice(s4), Twice(s5), Twice(s6), Twice(s7))
  {
    hide Twice, Xor;
    TwiceLinear(s6, s7);
    TwiceLinear(s5, Xor(s6, s7));
    TwiceLinear(s4, Xor(s5, Xor(s6, s7)));
    TwiceLinear(s3, Xor(s4, Xor(s5, Xor(s6, s7))));
    TwiceLinear(s2, Xor(s3, Xor(s4, Xor(s5, Xor(s6, s7)))));
    TwiceLinear(s1, Xor(s2, Xor(s3, Xor(s4, Xor(s5, Xor(s6, s7))))));
    TwiceLinear(s0, Xor(s1, Xor(s2, Xor(s3, Xor(s4, Xor(s5, Xor(s6, s7)))))));
  }

  lemma TwiceSelect(bit: bool, a: Octet)
    ensures Twice(Select(bit, a)) == Select(bit, Twice(a))
  {
  }

  lemma SelectXor(p: bool, q: bool, a: Octet)
    ensures Select(p != q, a) == Xor(Select(p, a), Select(q, a))
  {
    XorBits();
  }

  lemma SelectSum(p: bool, a: Octet, b: Octet, c: Octet, d: Octet)
    ensures Select(p, Xor(a, Xor(b, Xor(c, d)))) == Xor(Select(p, a), Xor(Select(p, b), Xor(Select(p, c), Select(p, d))))
  {
    XorBits();
  }

  lemma Absorb(t: Octet, q: Octet, v: Octet, rest: Octet)
    ensures Xor(t, Xor(v, Xor(q, rest))) == Xor(Xor(Xor(t, q), v), rest)
  {
    hide Xor;
    XorLaws(v, q, rest);
    XorLaws(q, v, rest);
    XorLaws(t, q, v);
    XorLaws(t, Xor(q, v), rest);
  }

  /** Spreading the four summands of the last term over the others. */
  lemma Spread(t0: Octet, t1: Octet, t2: Octet, t3: Octet, t4: Octet, t5: Octet, t6: Octet, p: Octet, p2: Octet, p3: Octet, p4: Octet)
    ensures Sum8(t0, t1, t2, t3, t4, t5, t6, Xor(p4, Xor(p3, Xor(p2, p)))) ==
            Sum8(p, t0, Xor(t1, p2), Xor(t2, p3), Xor(t3, p4), t4, t5, t6)
  {
    hide Xor;
    var q := Xor(p4, Xor(p3, Xor(p2, p)));
    var v := Xor(t4, Xor(t5, t6));
    XorLaws(t5, t6, q);
    XorLaws(t4, Xor(t5, t6), q);
    Absorb(t3, p4, v, Xor(p3, Xor(p2, p)));
    var v3 := Xor(Xor(t3, p4), v);
    Absorb(t2, p3, v3, Xor(p2, p));
    var v2 := Xor(Xor(t2, p3), v3);
    Absorb(t1, p2, v2, p);
    var v1 := Xor(Xor(t1, p2), v2);
    XorLaws(t0, v1, p);
    XorLaws(Xor(t0, v1), p, p);
  }

  lemma TwiceOfSum(a: Octet, b: Octet, b1: Octet, b2: Octet, b3: Octet, b4: Octet, b5: Octet, b6: Octet, b7: Octet)
    ensures Twice(Sum(a, b, b1, b2, b3, b4, b5, b6, b7)) ==
            Sum(a, Twice(b), Twice(b1), Twice(b2), Twice(b3), Twice(b4), Twice(b5), Twice(b6), Twice(b7))
  {
    hide Twice, Xor, Select, Sum8;
    TwiceSum(Select(a.b0, b), Select(a.b1, b1), Select(a.b2, b2), Select(a.b3, b3),
             Select(a.b4, b4), Select(a.b5, b5), Select(a.b6, b6), Select(a.b7, b7));
    TwiceSelect(a.b0, b);
    TwiceSelect(a.b1, b1);
    TwiceSelect(a.b2, b2);
    TwiceSelect(a.b3, b3);
    TwiceSelect(a.b4, b4);
    TwiceSelect(a.b5, b5);
    TwiceSelect(a.b6, b6);
    TwiceSelect(a.b7, b7);
  }

  /** Moving every bit of a up one place, with the overflowing bit folded back in. */
  lemma SumOfTwice(a: Octet, b: Octet, b1: Octet, b2: Octet, b3: Octet, b4: Octet, b5: Octet, b6: Octet, b7: Octet)
    ensures Sum(Twice(a), b, b1, b2, b3, b4, b5, b6, b7) ==
            Sum(a, b1, b2, b3, b4, b5, b6, b7, Xor(b4, Xor(b3, Xor(b2, b))))
  {
    TwiceBits(a);
    hide Twice, Xor, Select, Sum8;
    SelectXor(a.b1, a.b7, b2);
    SelectXor(a.b2, a.b7, b3);
    SelectXor(a.b3, a.b7, b4);
    SelectSum(a.b7, b4, b3, b2, b);
    Spread(Select(a.b0, b1), Select(a.b1, b2), Select(a.b2, b3), Select(a.b3, b4), Select(a.b4, b5), Select(a.b5, b6),
           Select(a.b6, b7), Select(a.b7, b), Select(a.b7, b2), Select(a.b7, b3), Select(a.b7, b4));
  }

  lemma TwiceBits(a: Octet)
    ensures var c := Twice(a);
            && c.b7 == a.b6 && c.b6 == a.b5 && c.b5 == a.b4 && c.b4 == (a.b3 != a.b7) && c.b3 == (a.b2 != a.b7)
            && c.b2 == (a.b1 != a.b7) && c.b1 == a.b0 && c.b0 == a.b7
  {
  }

  lemma MulTwice(a: Octet, b: Octet)
    ensures Mul(Twice(a), b) == Twice(Mul(a, b))
  {
    hide Twice, Xor, Select, Sum8;
    var b1 := Twice(b);
    var b2 := Twice(b1);
    var b3 := Twice(b2);
    var b4 := Twice(b3);
    var b5 := Twice(b4);
    var b6 := Twice(b5);
    var b7 := Twice(b6);
    MulWrittenOut(Twice(a), b);
    MulWrittenOut(a, b);
    hide Mul;
    TwiceEight(b);
    TwiceOfSum(a, b, b1, b2, b3, b4, b5, b6, b7);
    SumOfTwice(a, b, b1, b2, b3, b4, b5, b6, b7);
  }

  lemma MulOne(b: Octet)
    ensures Mul(ONE, b) == b
  {
    hide Twice, Mul;
    XorBits();
    MulWrittenOut(ONE, b);
  }

  lemma MulZero(b: Octet)
    ensures Mul(ZERO, b) == ZERO
  {
    hide Twice, Mul;
    XorBits();
    MulWrittenOut(ZERO, b);
  }

  /** Powers of the generator multiply by adding exponents. */
  lemma {:induction false} AlphaAdd(i: nat, j: nat)
    ensures Mul(Alpha(i), Alpha(j)) == Alpha(i + j)
  {
    hide Mul, Twice;
    if i == 0 {
      MulOne(Alpha(j));
    } else {
      AlphaAdd(i - 1, j);
      MulTwice(Alpha(i - 1), Alpha(j));
    }
  }

  // ----- the generator has order 255 -----

  const A15 := Octet(false, false, true, false, false, true, true, false)
  const A25 := Octet(false, false, false, false, false, false, true, true)
  const A30 := Octet(false, true, true, false, false, false, false, false)
  const A60 := Octet(true, false, true, true, true, false, false, true)
  const A85 := Octet(true, true, false, true, false, true, true, false)
  const A170 := Octet(true, true, false, true, false, true, true, true)

  lemma Alpha25()
    ensures Alpha(15) == A15 && Alpha(25) == A25
  {
    assert Alpha(5) == Octet(false, false, true, false, false, false, false, false);
    assert Alpha(10) == Octet(false, true, true, true, false, true, false, false);
  }

  lemma Products()
    ensures Mul(A15, A15) == A30 && Mul(A30, A30) == A60
  {
    hide Mul;
    XorBits();
    MulWrittenOut(A15, A15);
    MulWrittenOut(A30, A30);
  }

  lemma MoreProducts()
    ensures Mul(A60, A25) == A85 && Mul(A85, A85) == A170
  {
    hide Mul;
    XorBits();
    MulWrittenOut(A60, A25);
    MulWrittenOut(A85, A85);
  }

  lemma LastProducts()
    ensures Mul(A170, A85) == ONE && Twice(Mul(A25, A25)) != ONE
  {
    hide Mul;
    XorBits();
    MulWrittenOut(A170, A85);
    MulWrittenOut(A25, A25);
  }

  lemma KnownPowers()
    ensures forall i: nat | i == 15 || i == 51 || i == 85 :: Alpha(i) != ONE
    ensures forall i: nat | i == 255 :: Alpha(i) == ONE
  {
    Alpha25();
    Products();
    MoreProducts();
    LastProducts();
    hide Mul, Twice;
    AlphaAdd(15, 15);
    AlphaAdd(30, 30);
    AlphaAdd(60, 25);
    AlphaAdd(85, 85);
    AlphaAdd(170, 85);
    AlphaAdd(25, 25);
    assert Alpha(51) == Twice(Alpha(50));
  }

  lemma {:induction false} AlphaPeriod(d: nat, q: nat, r: nat)
    requires Alpha(d) == ONE
    ensures Alpha(d * q + r) == Alpha(r)
    decreases q
  {
    hide Mul, Twice;
    if q > 0 {
      assert d * q + r == d + (d * (q - 1) + r);
      AlphaAdd(d, d * (q - 1) + r);
      MulOne(Alpha(d * (q - 1) + r));
      AlphaPeriod(d, q - 1, r);
    } else {
      assert d * q == 0;
    }
  }

  lemma {:induction false} OneGcd(a: nat, b: nat)
    requires Alpha(a) == ONE && Alpha(b) == ONE
    ensures Alpha(Modular.Gcd(a, b)) == ONE
    decreases b
  {
    hide Alpha;
    if b > 0 {
      AlphaPeriod(b, a / b, a % b);
      assert b * (a / b) + a % b == a;
      OneGcd(b, a % b);
    }
  }

  lemma SmallPrimes()
    ensures Modular.IsPrime(3) && Modular.IsPrime(5) && Modular.IsPrime(17)
  {
  }

  /** A proper divisor of 255 = 3 * 5 * 17 divides 85, 51 or 15. */
  lemma ProperDivisor(g: nat, q: nat)
    requires g * q == 255 && g < 255
    ensures q % 3 == 0 || q % 5 == 0 || q % 17 == 0
  {
    SmallPrimes();
    var p := g * q;
    assert Modular.Cong(p, 0, 3) && Modular.Cong(p, 0, 5) && Modular.Cong(p, 0, 17);
    Modular.PrimeDividesProduct(3, g, q);
    Modular.PrimeDividesProduct(5, g, q);
    Modular.PrimeDividesProduct(17, g, q);
  }

  lemma Cofactor(g: nat, q: nat, k: nat, c: nat)
    requires g * q == k * c && k > 0 && q % k == 0
    ensures g * (q / k) == c
  {
    var m := q / k;
    assert q == k * m;
    assert k * (g * m) == k * c by { assert g * (k * m) == k * (g * m); }
  }

  lemma NoProperPeriod(g: nat, q: nat)
    requires g * q == 255 && g < 255
    ensures Alpha(g) != ONE
  {
    hide Alpha;
    KnownPowers();
    ProperDivisor(g, q);
    AlphaZero();
    if Alpha(g) == ONE {
      if q % 3 == 0 {
        Cofactor(g, q, 3, 85);
        AlphaPeriod(g, q / 3, 0);
      } else if q % 5 == 0 {
        Cofactor(g, q, 5, 51);
        AlphaPeriod(g, q / 5, 0);
      } else {
        Cofactor(g, q, 17, 15);
        AlphaPeriod(g, q / 17, 0);
      }
    }
  }

  lemma AlphaZero()
    ensures Alpha(0) == ONE
  {
  }

  lemma GcdBelow(i: nat)
    requires 0 < i < 255
    ensures var g := Modular.Gcd(255, i); 0 < g < 255 && g * (255 / g) == 255
  {
    hide Modular.Gcd;
    var g := Modular.Gcd(255, i);
    Modular.GcdDivides(255, i);
    if g > i { Modular.ModSmall(i, g); }
  }

  /** No power of the generator below the 255th is one. */
  lemma NotOne(i: nat)
    requires 0 < i < 255
    ensures Alpha(i) != ONE
  {
    hide Alpha, Modular.Gcd;
    KnownPowers();
    if Alpha(i) == ONE {
      OneGcd(255, i);
      GcdBelow(i);
      NoProperPeriod(Modular.Gcd(255, i), 255 / Modular.Gcd(255, i));
    }
  }

  lemma {:induction false} AlphaCancel(i: nat, j: nat, k: nat)
    requires Alpha(i + k) == Alpha(j + k)
    ensures Alpha(i) == Alpha(j)
    decreases k
  {
    if k > 0 {
      TwiceInjective(Alpha(i + k - 1), Alpha(j + k - 1));
      AlphaCancel(i, j, k - 1);
    }
  }

  lemma AlphaInjective(i: nat, j: nat)
    requires i < 255 && j < 255 && Alpha(i) == Alpha(j)
    ensures i == j
  {
    var lo, hi := if i < j then i else j, if i < j then j else i;
    AlphaCancel(hi - lo, 0, lo);
    if hi > lo { NotOne(hi - lo); }
  }

  lemma {:induction false} AlphaNonZero(i: nat)
    ensures Alpha(i) != ZERO
  {
    if i > 0 {
      AlphaNonZero(i - 1);
      if Alpha(i) == ZERO { TwiceInjective(Alpha(i - 1), ZERO); }
    }
  }

  // ----- every nonzero element is a power -----

  ghost function Powers(n: nat): set<int> {
    set i | 0 <= i < n :: ToInt(Alpha(i))
  }

  lemma {:induction false} PowersSize(n: nat)
    requires n <= 255
    ensures |Powers(n)| == n
  {
    hide ToInt, Alpha;
    if n == 0 {
      assert Powers(0) == {};
    } else {
      PowersSize(n - 1);
      var x := ToInt(Alpha(n - 1));
      assert Powers(n) == Powers(n - 1) + {x};
      forall i | 0 <= i < n - 1 ensures ToInt(Alpha(i)) != x {
        if ToInt(Alpha(i)) == x {
          ToIntInjective(Alpha(i), Alpha(n - 1));
          AlphaInjective(i, n - 1);
        }
      }
    }
  }

  ghost function Upto(n: nat): set<int> {
    if n == 0 then {} else Upto(n - 1) + {n}
  }

  lemma {:induction false} UptoSize(n: nat)
    ensures |Upto(n)| == n && forall x :: x in Upto(n) <==> 1 <= x <= n
  {
    if n > 0 { UptoSize(n - 1); }
  }

  lemma SubsetOfSameSize(a: set<int>, b: set<int>)
    requires a <= b && |a| == |b|
    ensures a == b
  {
    var rest := b - a;
    assert rest !! a && b == rest + a;
    assert |rest| == 0;
  }

  lemma IsPower(a: Octet)
    requires a != ZERO
    ensures exists i :: 0 <= i < 255 && Alpha(i) == a
  {
    hide ToInt, Alpha;
    var all := Upto(255);
    hide Upto;
    UptoSize(255);
    forall i | 0 <= i < 255 ensures ToInt(Alpha(i)) in all {
      AlphaNonZero(i);
      NonZeroInt(Alpha(i));
    }
    PowersSize(255);
    assert Powers(255) <= all;
    SubsetOfSameSize(Powers(255), all);
    NonZeroInt(a);
    assert ToInt(a) in Powers(255);
    var i :| 0 <= i < 255 && ToInt(Alpha(i)) == ToInt(a);
    ToIntInjective(Alpha(i), a);
  }

  lemma NonZeroInt(a: Octet)
    requires a != ZERO
    ensures 1 <= ToInt(a) <= 255
  {
  }

  // ----- logarithms and exponents -----

  /** The exponent of a nonzero element; None is the exception for zero. */
  function Glog(a: Octet): (r: Option<nat>)
    ensures r.None? <==> a == ZERO
    ensures r.Some? ==> r.value < 255 && Alpha(r.value) == a
  {
    if a == ZERO then None
    else
      assert exists i :: 0 <= i < 255 && Alpha(i) == a by { IsPower(a); }
      assert forall i, j | 0 <= i < 255 && 0 <= j < 255 && Alpha(i) == a && Alpha(j) == a :: i == j by {
        forall i, j | 0 <= i < 255 && 0 <= j < 255 && Alpha(i) == a && Alpha(j) == a ensures i == j {
          AlphaInjective(i, j);
        }
      }
      var i :| 0 <= i < 255 && Alpha(i) == a;
      Some(i)
  }

  /** The power for any exponent, brought into 0..255 by multiples of 255 first. */
  function Gexp(n: int): Octet
    decreases if n < 0 then 256 - n else n
  {
    if n < 0 then Gexp(n + 255) else if n >= 256 then Gexp(n - 255) else Alpha(n)
  }

  lemma {:induction false} GexpIsAlpha(n: int, k: int, i: nat)
    requires n + 255 * k == i
    ensures Gexp(n) == Alpha(i)
    decreases if n < 0 then 256 - n else n
  {
    hide Alpha;
    KnownPowers();
    if n < 0 {
      GexpIsAlpha(n + 255, k - 1, i);
    } else if n >= 256 {
      GexpIsAlpha(n - 255, k + 1, i);
    } else if k >= 0 {
      AlphaPeriod(255, k, n);
    } else {
      AlphaPeriod(255, -k, i);
    }
  }

  /** Adding logarithms multiplies in the field. */
  lemma TableProduct(a: Octet, b: Octet)
    requires a != ZERO && b != ZERO
    ensures Gexp(Glog(a).value + Glog(b).value) == Mul(a, b)
  {
    hide Alpha, Mul, Gexp, Glog;
    var i, j := Glog(a).value, Glog(b).value;
    GexpIsAlpha(i + j, 0, i + j);
    AlphaAdd(i, j);
  }

  // ----- field laws -----

  lemma MulNonZero(a: Octet, b: Octet)
    ensures Mul(a, b) == ZERO <==> a == ZERO || b == ZERO
  {
    hide Mul, Alpha, Twice, Gexp;
    MulZero(b);
    if a != ZERO {
      if b == ZERO { MulZeroRight(Glog(a).value); } else {
        AlphaAdd(Glog(a).value, Glog(b).value);
        AlphaNonZero(Glog(a).value + Glog(b).value);
      }
    }
  }

  lemma TwiceZero()
    ensures Twice(ZERO) == ZERO
  {
  }

  lemma {:induction false} MulZeroRight(i: nat)
    ensures Mul(Alpha(i), ZERO) == ZERO
  {
    hide Mul, Twice;
    if i == 0 { MulOne(ZERO); } else {
      MulZeroRight(i - 1);
      MulTwice(Alpha(i - 1), ZERO);
      TwiceZero();
    }
  }

  lemma MulCommutes(a: Octet, b: Octet)
    ensures Mul(a, b) == Mul(b, a)
  {
    hide Mul, Alpha, Twice;
    MulNonZero(a, b);
    MulNonZero(b, a);
    if a != ZERO && b != ZERO {
      AlphaAdd(Glog(a).value, Glog(b).value);
      AlphaAdd(Glog(b).value, Glog(a).value);
    }
  }

  lemma MulAssociates(a: Octet, b: Octet, c: Octet)
    ensures Mul(Mul(a, b), c) == Mul(a, Mul(b, c))
  {
    hide Mul, Alpha, Twice;
    MulNonZero(a, b);
    MulNonZero(b, c);
    MulNonZero(Mul(a, b), c);
    MulNonZero(a, Mul(b, c));
    if a != ZERO && b != ZERO && c != ZERO {
      var i, j, k := Glog(a).value, Glog(b).value, Glog(c).value;
      AlphaAdd(i, j);
      AlphaAdd(i + j, k);
      AlphaAdd(j, k);
      AlphaAdd(i, j + k);
    }
  }

  lemma {:induction false} MulDistributesAlpha(i: nat, b: Octet, c: Octet)
    ensures Mul(Alpha(i), Xor(b, c)) == Xor(Mul(Alpha(i), b), Mul(Alpha(i), c))
  {
    hide Mul, Twice, Xor;
    if i == 0 {
      MulOne(b);
      MulOne(c);
      MulOne(Xor(b, c));
    } else {
      MulDistributesAlpha(i - 1, b, c);
      MulTwice(Alpha(i - 1), b);
      MulTwice(Alpha(i - 1), c);
      MulTwice(Alpha(i - 1), Xor(b, c));
      TwiceLinear(Mul(Alpha(i - 1), b), Mul(Alpha(i - 1), c));
    }
  }

  lemma MulDistributes(a: Octet, b: Octet, c: Octet)
    ensures Mul(a, Xor(b, c)) == Xor(Mul(a, b), Mul(a, c))
    ensures Mul(Xor(b, c), a) == Xor(Mul(b, a), Mul(c, a))
  {
    hide Mul, Alpha, Twice, Xor;
    if a == ZERO {
      MulZero(b);
      MulZero(c);
      MulZero(Xor(b, c));
      XorLaws(ZERO, ZERO, ZERO);
    } else {
      MulDistributesAlpha(Glog(a).value, b, c);
    }
    MulCommutes(a, b);
    MulCommutes(a, c);
    MulCommutes(a, Xor(b, c));
  }

  // ----- the tables -----

  /** 1 << i. */
  function OneShifted(i: nat): Octet
    requires i < 8
  {
    Octet(i == 7, i == 6, i == 5, i == 4, i == 3, i == 2, i == 1, i == 0)
  }

  lemma LowPowers(i: nat)
    requires i < 8
    ensures Alpha(i) == OneShifted(i)
  {
    assert Alpha(4) == OneShifted(4);
  }

  /** Filling the exponent table by its recurrence and the logarithm table from it gives the powers and the
      logarithms of the field. */
  method BuildTables() returns (exp: array<Octet>, log: array<int>)
    ensures exp.Length == 256 && log.Length == 256
    ensures forall i | 0 <= i < 256 :: exp[i] == Alpha(i)
    ensures forall a | a != ZERO :: log[ToInt(a)] == Glog(a).value
  {
    hide Alpha, ToInt, Glog, Xor, BitXor;
    exp := new Octet[256](x => FromInt(if x < 0 then 0 else x));
    log := new int[256](x => x);
    for i := 0 to 8
      invariant forall k | 0 <= k < i :: exp[k] == Alpha(k)
    {
      LowPowers(i);
      exp[i] := OneShifted(i);
    }
    for i := 8 to 256
      invariant forall k | 0 <= k < i :: exp[k] == Alpha(k)
    {
      RecurrenceBits(i);
      exp[i] := BitXor(BitXor(BitXor(exp[i - 4], exp[i - 5]), exp[i - 6]), exp[i - 8]);
    }
    for i := 0 to 255
      invariant forall k | 0 <= k < 256 :: exp[k] == Alpha(k)
      invariant forall k | 0 <= k < i :: log[ToInt(Alpha(k))] == k
    {
      forall k | 0 <= k < i ensures ToInt(Alpha(k)) != ToInt(Alpha(i)) {
        if ToInt(Alpha(k)) == ToInt(Alpha(i)) {
          ToIntInjective(Alpha(k), Alpha(i));
          AlphaInjective(k, i);
        }
      }
      log[ToInt(exp[i])] := i;
    }
  }
}
