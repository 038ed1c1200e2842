/** Arithmetic modulo m: congruences, greatest common divisors, primes and Fermat's little theorem. */
module Modular {

  // ----- congruence -----

  ghost predicate Cong(a: int, b: int, m: int)
    requires m > 0
  {
    (a - b) % m == 0
  }

  lemma ModUnique(x: int, q: int, r: int, m: int)
    requires m > 0 && x == m * q + r && 0 <= r < m
    ensures x % m == r && x / m == q
  {
    var d := x / m - q;
    assert d >= 1 ==> m * d >= m;
    assert d <= -1 ==> m * d <= -m;
    assert m * d == r - x % m;
  }

  /** Being congruent is differing by a multiple. */
  lemma CongFrom(a: int, b: int, k: int, m: int)
    requires m > 0 && a - b == m * k
    ensures Cong(a, b, m)
  {
    ModUnique(a - b, k, 0, m);
  }

  lemma CongWitness(a: int, b: int, m: int) returns (k: int)
    requires m > 0 && Cong(a, b, m)
    ensures a - b == m * k
  {
    k := (a - b) / m;
  }

  lemma CongRefl(a: int, m: int)
    requires m > 0
    ensures Cong(a, a, m)
  {
    CongFrom(a, a, 0, m);
  }

  lemma CongMod(a: int, m: int)
    requires m > 0
    ensures Cong(a % m, a, m) && Cong(a, a % m, m)
  {
    assert a == m * (a / m) + a % m;
    assert m * (-(a / m)) == -(m * (a / m));
    CongFrom(a % m, a, -(a / m), m);
    CongFrom(a, a % m, a / m, m);
  }

  lemma CongSym(a: int, b: int, m: int)
    requires m > 0 && Cong(a, b, m)
    ensures Cong(b, a, m)
  {
    var k := (a - b) / m;
    assert a - b == m * k;
    assert m * (-k) == -(m * k);
    CongFrom(b, a, -k, m);
  }

  lemma CongTrans(a: int, b: int, c: int, m: int)
    requires m > 0 && Cong(a, b, m) && Cong(b, c, m)
    ensures Cong(a, c, m)
  {
    var k, l := (a - b) / m, (b - c) / m;
    assert a - c == m * k + m * l == m * (k + l);
    CongFrom(a, c, k + l, m);
  }

  lemma CongAdd(a: int, b: int, c: int, d: int, m: int)
    requires m > 0 && Cong(a, b, m) && Cong(c, d, m)
    ensures Cong(a + c, b + d, m) && Cong(a - c, b - d, m)
  {
    var k, l := (a - b) / m, (c - d) / m;
    assert a + c - (b + d) == m * k + m * l == m * (k + l);
    CongFrom(a + c, b + d, k + l, m);
    assert a - c - (b - d) == m * k - m * l == m * (k - l);
    CongFrom(a - c, b - d, k - l, m);
  }

  lemma CongMul(a: int, b: int, c: int, d: int, m: int)
    requires m > 0 && Cong(a, b, m) && Cong(c, d, m)
    ensures Cong(a * c, b * d, m)
  {
    var k, l := (a - b) / m, (c - d) / m;
    assert a == b + m * k && c == d + m * l;
    calc {
      a * c - b * d;
      (a - b) * c + b * (c - d);
      (m * k) * c + b * (m * l);
      m * (k * c) + m * (b * l);
      m * (k * c + b * l);
    }
    CongFrom(a * c, b * d, k * c + b * l, m);
  }

  /** Congruent residues are equal. */
  lemma CongEqual(a: int, b: int, m: int)
    requires m > 0
    ensures Cong(a, b, m) <==> a % m == b % m
  {
    if Cong(a, b, m) {
      var k := (a - b) / m;
      assert a == m * (k + b / m) + b % m by {
        assert b == m * (b / m) + b % m;
        assert m * (k + b / m) == m * k + m * (b / m);
      }
      ModUnique(a, k + b / m, b % m, m);
    } else if a % m == b % m {
      assert a - b == m * (a / m) - m * (b / m) == m * (a / m - b / m);
      CongFrom(a, b, a / m - b / m, m);
    }
  }

  lemma ModSmall(a: int, m: int)
    requires 0 <= a < m
    ensures a % m == a
  {
    ModUnique(a, 0, a, m);
  }

  /** A product with a factor congruent to zero is congruent to zero. */
  lemma CongZeroMul(a: int, b: int, m: int)
    requires m > 0 && Cong(a, 0, m)
    ensures Cong(a * b, 0, m) && Cong(b * a, 0, m)
  {
    CongRefl(b, m);
    CongMul(a, 0, b, b, m);
  }

  // ----- greatest common divisor -----

  predicate Divides(d: int, n: int)
    requires d != 0
  {
    n % d == 0
  }

  function Gcd(a: nat, b: nat): (g: nat)
    decreases b
  {
    if b == 0 then a else Gcd(b, a % b)
  }

  lemma {:induction false} Bezout(a: nat, b: nat) returns (s: int, t: int)
    ensures s * a + t * b == Gcd(a, b)
    decreases b
  {
    if b == 0 {
      s, t := 1, 0;
    } else {
      var s', t' := Bezout(b, a % b);
      s, t := t', s' - t' * (a / b);
      BezoutStep(a, b, a / b, a % b, s', t');
    }
  }

  lemma BezoutStep(a: int, b: int, q: int, r: int, s: int, t: int)
    requires a == b * q + r
    ensures t * a + (s - t * q) * b == s * b + t * r
  {
    assert t * (b * q) == (t * q) * b;
  }

  /** The gcd divides both of its arguments. */
  lemma {:induction false} GcdDivides(a: nat, b: nat)
    requires a > 0 || b > 0
    ensures Gcd(a, b) > 0 && Divides(Gcd(a, b), a) && Divides(Gcd(a, b), b)
    decreases b
  {
    if b == 0 {
      ModUnique(a, 1, 0, a);
      ModUnique(0, 0, 0, a);
    } else {
      GcdDivides(b, a % b);
      assert Gcd(a, b) == Gcd(b, a % b);
      hide Gcd, Divides;
      DividesSum(Gcd(a, b), b, a / b, a % b);
      assert a == b * (a / b) + a % b;
    }
  }

  lemma DividesSum(g: int, b: int, q: int, r: int)
    requires g > 0 && Divides(g, b) && Divides(g, r)
    ensures Divides(g, b * q + r)
  {
    var k, l := b / g, r / g;
    assert b * q + r == g * (k * q + l) by {
      assert b == g * k && r == g * l;
      assert (g * k) * q == g * (k * q);
    }
    ModUnique(b * q + r, k * q + l, 0, g);
  }

  // ----- primes -----

  ghost predicate IsPrime(p: int) {
    2 <= p && forall d :: 2 <= d < p ==> !Divides(d, p)
  }

  /** A prime has no common factor with a number it does not divide. */
  lemma PrimeCoprime(p: int, a: nat)
    requires IsPrime(p) && a % p != 0
    ensures Gcd(p, a) == 1
  {
    var g := Gcd(p, a);
    assert 2 <= g < p ==> !Divides(g, p);
    assert g > p ==> p % g == p by {
      if g > p { ModSmall(p, g); }
    }
    GcdDivides(p, a);
  }

  /** Euclid's lemma. */
  lemma PrimeDividesProduct(p: int, a: int, b: int)
    requires IsPrime(p) && Cong(a * b, 0, p)
    ensures Cong(a, 0, p) || Cong(b, 0, p)
  {
    if !Cong(a, 0, p) {
      var a' := a % p;
      CongEqual(a, 0, p);
      ModSmall(0, p);
      ModSmall(a', p);
      PrimeCoprime(p, a');
      var s, t := Bezout(p, a');
      // b == (s*p + t*a') * b, and both summands vanish modulo p
      hide Cong, Gcd;
      CongMod(a, p);
      CongRefl(b, p);
      CongMul(a', a, b, b, p);
      CongTrans(a' * b, a * b, 0, p);
      BothVanish(p, s, t, a', b);
    }
  }

  lemma BothVanish(p: int, s: int, t: int, a: int, b: int)
    requires p > 0 && s * p + t * a == 1 && Cong(a * b, 0, p)
    ensures Cong(b, 0, p)
  {
    CongFrom(s * p, 0, s, p);
    CongZeroMul(s * p, b, p);
    CongZeroMul(a * b, t, p);
    CongAdd((s * p) * b, 0, (a * b) * t, 0, p);
    Factored(s * p, t, a, b);
  }

  lemma Factored(u: int, t: int, a: int, b: int)
    requires u + t * a == 1
    ensures u * b + (a * b) * t == b
  {
    assert (a * b) * t == (t * a) * b;
    assert u * b + (t * a) * b == (u + t * a) * b;
  }

  // ----- powers and Fermat's little theorem -----

  function Pow(a: int, n: nat): (r: int)
    ensures a > 0 ==> r > 0
  {
    if n == 0 then 1 else a * Pow(a, n - 1)
  }

  lemma {:induction false} PowAdd(a: int, m: nat, n: nat)
    ensures Pow(a, m + n) == Pow(a, m) * Pow(a, n)
    decreases m
  {
    if m > 0 {
      PowAdd(a, m - 1, n);
      Regroup(a, Pow(a, m - 1), Pow(a, n));
    }
  }

  lemma Regroup(a: int, b: int, c: int)
    ensures a * (b * c) == (a * b) * c
  {
  }

  lemma {:induction false} PowSquare(a: int, n: nat)
    ensures Pow(a * a, n) == Pow(a, 2 * n)
  {
    if n > 0 {
      PowSquare(a, n - 1);
      assert Pow(a, 2 * n) == a * Pow(a, 2 * n - 1) == a * (a * Pow(a, 2 * n - 2));
      Regroup(a, a, Pow(a, 2 * n - 2));
    }
  }

  lemma {:induction false} PowCong(a: int, b: int, n: nat, m: int)
    requires m > 0 && Cong(a, b, m)
    ensures Cong(Pow(a, n), Pow(b, n), m)
  {
    if n == 0 {
      CongRefl(1, m);
    } else {
      PowCong(a, b, n - 1, m);
      CongMul(a, b, Pow(a, n - 1), Pow(b, n - 1), m);
    }
  }

  function Choose(n: nat, k: nat): nat {
    if k == 0 then 1 else if n == 0 then 0 else Choose(n - 1, k) + Choose(n - 1, k - 1)
  }

  lemma {:induction false} ChooseAbove(n: nat, k: nat)
    requires k > n
    ensures Choose(n, k) == 0
  {
    if n > 0 {
      ChooseAbove(n - 1, k);
      ChooseAbove(n - 1, k - 1);
    }
  }

  lemma {:induction false} ChooseDiagonal(n: nat)
    ensures Choose(n, n) == 1
  {
    if n > 0 {
      ChooseDiagonal(n - 1);
      ChooseAbove(n - 1, n);
    }
  }

  /** Absorption: k * C(n, k) == n * C(n-1, k-1). */
  lemma {:induction false} ChooseAbsorb(n: nat, k: nat)
    requires n > 0 && k > 0
    ensures k * Choose(n, k) == n * Choose(n - 1, k - 1)
  {
    if n == 1 {
      if k > 1 {
        ChooseAbove(1, k);
        ChooseAbove(0, k - 1);
      }
    } else {
      ChooseAbsorb(n - 1, k);
      if k > 1 {
        ChooseAbsorb(n - 1, k - 1);
        AbsorbAlgebra(n, k, Choose(n - 1, k), Choose(n - 2, k - 1), Choose(n - 2, k - 2));
      }
    }
  }

  lemma AbsorbAlgebra(n: int, k: int, x: int, u: int, v: int)
    requires k * x == (n - 1) * u && (k - 1) * (u + v) == (n - 1) * v
    ensures k * (x + (u + v)) == n * (u + v)
  {
    calc {
      k * (x + (u + v));
      k * x + (k - 1) * (u + v) + (u + v);
      (n - 1) * u + (n - 1) * v + (u + v);
      n * (u + v);
    }
  }

  /** The terms of (a+1)^n up to a^k. */
  function BinomialSum(a: int, n: nat, k: nat): int {
    Choose(n, k) * Pow(a, k) + if k == 0 then 0 else BinomialSum(a, n, k - 1)
  }

  lemma {:induction false} BinomialStep(a: int, n: nat, k: nat)
    requires k > 0
    ensures BinomialSum(a, n + 1, k) == BinomialSum(a, n, k) + a * BinomialSum(a, n, k - 1)
  {
    if k > 1 {
      BinomialStep(a, n, k - 1);
    }
    var below := if k == 1 then 0 else BinomialSum(a, n, k - 2);
    var lower := BinomialSum(a, n, k - 1);
    assert BinomialSum(a, n + 1, k - 1) == lower + a * below;
    StepAlgebra(a, Choose(n, k), Choose(n, k - 1), Pow(a, k - 1), lower, below);
  }

  lemma StepAlgebra(a: int, c: int, c': int, w: int, lower: int, below: int)
    requires lower == c' * w + below
    ensures (c + c') * (a * w) + (lower + a * below) == (c * (a * w) + lower) + a * lower
  {
    assert a * lower == a * (c' * w) + a * below;
  }

  lemma {:induction false} Binomial(a: int, n: nat)
    ensures Pow(a + 1, n) == BinomialSum(a, n, n)
  {
    if n > 0 {
      Binomial(a, n - 1);
      BinomialStep(a, n - 1, n);
      ChooseAbove(n - 1, n);
      var s := BinomialSum(a, n - 1, n - 1);
      assert BinomialSum(a, n - 1, n) == s;
      assert (a + 1) * s == s + a * s;
    }
  }

  /** All inner binomial coefficients of a prime row vanish modulo the prime. */
  lemma {:induction false} PrimeRow(a: int, p: int, k: nat)
    requires IsPrime(p) && k < p
    ensures Cong(BinomialSum(a, p, k), 1, p)
  {
    if k == 0 {
      assert BinomialSum(a, p, 0) == 1;
      CongRefl(1, p);
    } else {
      PrimeRow(a, p, k - 1);
      ChooseAbsorb(p, k);
      CongFrom(k * Choose(p, k), 0, Choose(p - 1, k - 1), p);
      PrimeDividesProduct(p, k, Choose(p, k));
      CongEqual(k, 0, p);
      ModSmall(k, p);
      ModSmall(0, p);
      CongZeroMul(Choose(p, k), Pow(a, k), p);
      CongAdd(Choose(p, k) * Pow(a, k), 0, BinomialSum(a, p, k - 1), 1, p);
    }
  }

  /** Fermat's little theorem: a^p is congruent to a modulo the prime p. */
  lemma {:induction false} Fermat(a: nat, p: int)
    requires IsPrime(p)
    ensures Cong(Pow(a, p), a, p)
  {
    if a == 0 {
      CongRefl(0, p);
    } else {
      var b := a - 1;
      Fermat(b, p);
      Binomial(b, p);
      PrimeRow(b, p, p - 1);
      ChooseDiagonal(p);
      CongAdd(Pow(b, p), b, BinomialSum(b, p, p - 1), 1, p);
    }
  }
}
