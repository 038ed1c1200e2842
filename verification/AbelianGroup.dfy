/** Abelian groups and n-fold sums in them. */
module AbelianGroup {
  import opened Modular

  datatype Group<!T> = Group(has: T -> bool, zero: T, add: (T, T) -> T, neg: T -> T)

  ghost predicate LawsAt<T(!new)>(g: Group<T>, x: T, y: T, z: T) {
    && g.has(g.zero)
    && (g.has(x) ==> g.has(g.neg(x)) && g.add(x, g.neg(x)) == g.zero && g.add(x, g.zero) == x)
    && (g.has(x) && g.has(y) ==> g.has(g.add(x, y)) && g.add(x, y) == g.add(y, x))
    && (g.has(x) && g.has(y) && g.has(z) ==> g.add(g.add(x, y), z) == g.add(x, g.add(y, z)))
  }

  ghost predicate IsAbelian<T(!new)>(g: Group<T>) {
    forall x, y, z :: LawsAt(g, x, y, z)
  }

  /** The n-fold sum of x. */
  ghost function Times<T(!new)>(g: Group<T>, n: nat, x: T): (r: T)
    requires IsAbelian(g) && g.has(x)
    ensures g.has(r)
  {
    assert LawsAt(g, if n == 0 then x else Times(g, n - 1, x), x, x);
    if n == 0 then g.zero else g.add(Times(g, n - 1, x), x)
  }

  lemma {:induction false} TimesAdd<T(!new)>(g: Group<T>, m: nat, n: nat, x: T)
    requires IsAbelian(g) && g.has(x)
    ensures Times(g, m + n, x) == g.add(Times(g, m, x), Times(g, n, x))
  {
    var t := Times(g, m, x);
    if n == 0 {
      assert LawsAt(g, t, t, t);
    } else {
      TimesAdd(g, m, n - 1, x);
      assert LawsAt(g, t, Times(g, n - 1, x), x);
    }
  }

  lemma TimesOne<T(!new)>(g: Group<T>, x: T)
    requires IsAbelian(g) && g.has(x)
    ensures Times(g, 1, x) == x
  {
    assert Times(g, 0, x) == g.zero;
    assert LawsAt(g, x, g.zero, x);
  }

  /** Subtracting x once takes one off the count. */
  lemma TimesPred<T(!new)>(g: Group<T>, n: nat, x: T)
    requires IsAbelian(g) && g.has(x) && n > 0
    ensures g.has(g.neg(x)) && g.add(Times(g, n, x), g.neg(x)) == Times(g, n - 1, x)
  {
    var t := Times(g, n - 1, x);
    assert LawsAt(g, x, x, x);
    assert LawsAt(g, t, x, g.neg(x));
  }

  lemma {:induction false} TimesZero<T(!new)>(g: Group<T>, n: nat)
    requires IsAbelian(g) && g.has(g.zero)
    ensures Times(g, n, g.zero) == g.zero
  {
    if n > 0 {
      TimesZero(g, n - 1);
      assert LawsAt(g, g.zero, g.zero, g.zero);
    }
  }

  lemma {:induction false} TimesMul<T(!new)>(g: Group<T>, m: nat, n: nat, x: T)
    requires IsAbelian(g) && g.has(x)
    ensures Times(g, m, Times(g, n, x)) == Times(g, m * n, x)
  {
    if m == 0 {
      assert 0 * n == 0;
    } else {
      TimesMul(g, m - 1, n, x);
      TimesAdd(g, (m - 1) * n, n, x);
      assert (m - 1) * n + n == m * n;
    }
  }

  lemma TimesMod<T(!new)>(g: Group<T>, a: nat, n: nat, x: T)
    requires IsAbelian(g) && g.has(x) && n > 0 && Times(g, n, x) == g.zero
    ensures Times(g, a, x) == Times(g, a % n, x)
  {
    var q, r := a / n, a % n;
    assert a == q * n + r;
    TimesAdd(g, q * n, r, x);
    TimesMul(g, q, n, x);
    TimesZero(g, q);
    assert LawsAt(g, Times(g, r, x), g.zero, x);
  }

  /** If n copies of x cancel, only the count modulo n matters. */
  lemma TimesCong<T(!new)>(g: Group<T>, a: nat, b: nat, n: nat, x: T)
    requires IsAbelian(g) && g.has(x) && n > 0 && Times(g, n, x) == g.zero && Cong(a, b, n)
    ensures Times(g, a, x) == Times(g, b, x)
  {
    TimesMod(g, a, n, x);
    TimesMod(g, b, n, x);
    CongEqual(a, b, n);
  }

  /** In odd order nothing but zero is its own opposite. */
  lemma OddOrder<T(!new)>(g: Group<T>, n: nat, x: T)
    requires IsAbelian(g) && g.has(x) && n % 2 == 1 && Times(g, n, x) == g.zero && g.add(x, x) == g.zero
    ensures x == g.zero
  {
    var h := n / 2;
    assert n == h * 2 + 1;
    TimesOne(g, x);
    TimesAdd(g, 1, 1, x);
    TimesMul(g, h, 2, x);
    TimesZero(g, h);
    TimesAdd(g, h * 2, 1, x);
    assert LawsAt(g, x, g.zero, x);
  }

  /** The same holds of every multiple of x. */
  lemma OddMultiples<T(!new)>(g: Group<T>, n: nat, k: nat, x: T)
    requires IsAbelian(g) && g.has(x) && n % 2 == 1 && Times(g, n, x) == g.zero
    requires g.add(Times(g, k, x), Times(g, k, x)) == g.zero
    ensures Times(g, k, x) == g.zero
  {
    TimesMul(g, n, k, x);
    TimesMul(g, k, n, x);
    assert n * k == k * n;
    TimesZero(g, k);
    OddOrder(g, n, Times(g, k, x));
  }

  /** If n copies of x and m copies of x both cancel, m invertible modulo n, then x is zero. */
  lemma InvertibleMultiple<T(!new)>(g: Group<T>, n: nat, m: nat, i: nat, x: T)
    requires IsAbelian(g) && g.has(x) && n > 0 && Times(g, n, x) == g.zero && Times(g, m, x) == g.zero
    requires Cong(m * i, 1, n)
    ensures x == g.zero
  {
    hide LawsAt, IsAbelian;
    assert i * m == m * i;
    TimesMul(g, i, m, x);
    TimesZero(g, i);
    TimesCong(g, m * i, 1, n, x);
    TimesOne(g, x);
  }
}
