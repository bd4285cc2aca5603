/** Powers and congruences, up to Fermat's little theorem for every prime. */
module ModArith {

  function Pow(b: int, e: nat): int {
    if e == 0 then 1 else b * Pow(b, e - 1)
  }

  function ModPow(b: int, e: nat, n: nat): nat
    requires n > 0
  {
    Pow(b, e) % n
  }

  ghost predicate Prime(p: nat) {
    p > 1 && forall d :: 1 < d < p ==> p % d != 0
  }

  lemma MulBounds(d: int, n: nat)
    ensures d >= 1 ==> d * n >= n
    ensures d <= -1 ==> d * n <= -(n as int)
  {}

  lemma MulNonNegative(m: nat, n: nat)
    ensures m * n >= 0
  {}

  lemma MulMonotone(m: int, n: int, b: nat)
    requires m <= n
    ensures m * b <= n * b
  {}

  lemma Distribute(a: int, x: int, y: int, w: int)
    ensures (x + y) * (a * w) == a * (x * w) + y * (a * w)
  {
    assert x * (a * w) == a * (x * w);
  }

  lemma DivModUnique(a: int, q: int, r: int, n: nat)
    requires n > 0 && a == q * n + r && 0 <= r < n
    ensures a % n == r && a / n == q
  {
    var d := q - a / n;
    assert d * n == a % n - r;
    MulBounds(d, n);
  }

  lemma ModAddMultiple(a: int, k: int, n: nat)
    requires n > 0
    ensures (a + k * n) % n == a % n
  {
    DivModUnique(a + k * n, a / n + k, a % n, n);
  }

  lemma MultipleVanishes(x: int, k: int, n: nat)
    requires n > 0 && x == k * n
    ensures x % n == 0
  {
    DivModUnique(x, k, 0, n);
  }

  lemma ModMul(a: int, b: int, n: nat)
    requires n > 0
    ensures (a * b) % n == ((a % n) * (b % n)) % n
    ensures (a * b) % n == ((a % n) * b) % n
    ensures (a * b) % n == (a * (b % n)) % n
  {
    ModMulLeft(a, b, n);
    ModMulLeft(b, a, n);
    ModMulLeft(a, b % n, n);
    assert a * b == b * a && (b % n) * a == a * (b % n);
  }

  lemma ModMulLeft(a: int, b: int, n: nat)
    requires n > 0
    ensures (a * b) % n == ((a % n) * b) % n
  {
    var q := a / n;
    assert a == q * n + a % n;
    assert a * b == (a % n) * b + (q * b) * n by {
      assert (q * n) * b == (q * b) * n;
    }
    ModAddMultiple((a % n) * b, q * b, n);
  }

  lemma ModAddLeft(a: int, b: int, n: nat)
    requires n > 0
    ensures (a + b) % n == ((a % n) + b) % n
  {
    var q, m := a / n, a % n;
    assert a + b == (m + b) + q * n;
    ModAddMultiple(m + b, q, n);
  }

  lemma PowAdd(b: int, d: nat, e: nat)
    ensures Pow(b, d + e) == Pow(b, d) * Pow(b, e)
  {
    if d > 0 {
      PowAdd(b, d - 1, e);
      assert Pow(b, d) * Pow(b, e) == b * (Pow(b, d - 1) * Pow(b, e));
    }
  }

  lemma {:induction false} PowMul(b: int, d: nat, e: nat)
    ensures d * e >= 0 && Pow(b, d * e) == Pow(Pow(b, d), e)
  {
    if e > 0 {
      PowMul(b, d, e - 1);
      assert d * e == d + d * (e - 1);
      PowAdd(b, d, d * (e - 1));
    }
  }

  lemma {:induction false} PowMod(b: int, e: nat, n: nat)
    requires n > 0
    ensures Pow(b % n, e) % n == Pow(b, e) % n
  {
    if e > 0 {
      PowMod(b, e - 1, n);
      ModMul(b, Pow(b, e - 1), n);
      ModMul(b % n, Pow(b % n, e - 1), n);
      ModMul(b % n, Pow(b, e - 1), n);
    }
  }

  lemma {:induction false} PowOne(e: nat)
    ensures Pow(1, e) == 1
  {
    if e > 0 { PowOne(e - 1); }
  }

  lemma {:induction false} PowNonNegative(b: nat, e: nat)
    ensures Pow(b, e) >= 0
  {
    if e > 0 { PowNonNegative(b, e - 1); }
  }

  // ----- Euclid's lemma -----

  /** If p divides a*b, it divides what is left of p after taking off a, times b. */
  lemma RemainderTimes(p: nat, a: nat, b: int, q: int, r: int, k: int)
    requires p == q * a + r && a * b == k * p
    ensures r * b == (b - q * k) * p
  {
    assert (q * a) * b == q * (a * b);
    assert q * (k * p) == (q * k) * p;
    assert r * b == (p - q * a) * b;
  }

  lemma {:induction false} EuclidBelow(p: nat, a: nat, b: int)
    requires Prime(p) && 0 < a < p && (a * b) % p == 0
    ensures b % p == 0
    decreases a
  {
    if a > 1 {
      var q, r, k := p / a, p % a, (a * b) / p;
      RemainderTimes(p, a, b, q, r, k);
      MultipleVanishes(r * b, b - q * k, p);
      assert 0 < r < a;
      EuclidBelow(p, r, b);
    }
  }

  /** A prime that divides a product divides one of the factors. */
  lemma Euclid(p: nat, a: int, b: int)
    requires Prime(p) && (a * b) % p == 0
    ensures a % p == 0 || b % p == 0
  {
    if a % p != 0 {
      ModMul(a, b, p);
      EuclidBelow(p, a % p, b);
    }
  }

  lemma {:induction false} PrimePower(p: nat, a: int, e: nat)
    requires Prime(p) && a % p != 0
    ensures Pow(a, e) % p != 0
  {
    if e == 0 {
      DivModUnique(1, 0, 1, p);
    } else {
      PrimePower(p, a, e - 1);
      if Pow(a, e) % p == 0 { Euclid(p, a, Pow(a, e - 1)); }
    }
  }

  // ----- Fermat's little theorem, through the binomial expansion of (a + 1)^p -----

  function Choose(n: nat, k: nat): nat {
    if k == 0 then 1 else if n == 0 then 0 else Choose(n - 1, k - 1) + Choose(n - 1, k)
  }

  /** The first m + 1 terms of the expansion of (a + 1)^n. */
  function Terms(a: nat, n: nat, m: nat): int {
    if m == 0 then 1 else Terms(a, n, m - 1) + Choose(n, m) * Pow(a, m)
  }

  lemma {:induction false} ChooseAbove(n: nat, k: nat)
    requires k > n
    ensures Choose(n, k) == 0
  {
    if n > 0 {
      ChooseAbove(n - 1, k - 1);
      ChooseAbove(n - 1, k);
    }
  }

  lemma {:induction false} ChooseDiagonal(n: nat)
    ensures Choose(n, n) == 1
  {
    if n > 0 {
      ChooseDiagonal(n - 1);
      ChooseAbove(n - 1, n);
    }
  }

  lemma MulAdd(a: int, s: int, t: int)
    ensures a * (s + t) == a * s + a * t
  {}

  lemma AbsorptionStep(n: int, k: int, u: int, v: int, y: int)
    requires (k - 1) * (u + v) == (n - 1) * u && k * y == (n - 1) * v
    ensures k * (u + v + y) == n * (u + v)
  {
    var x := u + v;
    MulAdd(k, x, y);
    MulAdd(n - 1, u, v);
    assert k * x == (k - 1) * x + x;
    assert n * x == (n - 1) * x + x;
  }

  lemma {:induction false} Absorption(n: nat, k: nat)
    requires n > 0 && k > 0
    ensures k * Choose(n, k) == n * Choose(n - 1, k - 1)
  {
    if n == 1 {
      if k > 1 { ChooseAbove(1, k); ChooseAbove(0, k - 1); }
    } else {
      Absorption(n - 1, k);
      if k > 1 {
        Absorption(n - 1, k - 1);
        AbsorptionStep(n, k, Choose(n - 2, k - 2), Choose(n - 2, k - 1), Choose(n - 1, k));
      }
    }
  }

  lemma {:induction false} TermsPascal(a: nat, n: nat, m: nat)
    ensures Terms(a, n + 1, m) == Terms(a, n, m) + (if m == 0 then 0 else a * Terms(a, n, m - 1))
  {
    if m > 0 {
      TermsPascal(a, n, m - 1);
      var x, y, w := Choose(n, m - 1), Choose(n, m), Pow(a, m - 1);
      Distribute(a, x, y, w);
      LastTerm(a, n, m - 1);
    }
  }

  lemma LastTerm(a: nat, n: nat, m: nat)
    ensures a * Terms(a, n, m) ==
            (if m == 0 then 0 else a * Terms(a, n, m - 1)) + a * (Choose(n, m) * Pow(a, m))
  {
    if m > 0 {
      var s, t := Terms(a, n, m - 1), Choose(n, m) * Pow(a, m);
      MulAdd(a, s, t);
    }
  }

  lemma {:induction false} Binomial(a: nat, n: nat)
    ensures Pow(a + 1, n) == Terms(a, n, n)
  {
    if n > 0 {
      Binomial(a, n - 1);
      TermsPascal(a, n - 1, n);
      ChooseAbove(n - 1, n);
      var t := Terms(a, n - 1, n - 1);
      assert Terms(a, n - 1, n) == t;
      assert (a + 1) * t == a * t + t;
    }
  }

  lemma SmallCofactor(p: nat, m: nat, c: int, d: int)
    requires Prime(p) && 0 < m < p && m * c == p * d
    ensures c % p == 0
  {
    MultipleVanishes(m * c, d, p);
    Euclid(p, m, c);
    DivModUnique(m, 0, m, p);
  }

  /** p divides every inner binomial coefficient. */
  lemma InnerCoefficient(p: nat, m: nat)
    requires Prime(p) && 0 < m < p
    ensures Choose(p, m) % p == 0
  {
    Absorption(p, m);
    SmallCofactor(p, m, Choose(p, m), Choose(p - 1, m - 1));
  }

  lemma AddVanishing(s: int, c: int, w: int, n: nat)
    requires n > 0 && c % n == 0
    ensures (s + c * w) % n == s % n
  {
    var k := c / n;
    assert c == k * n;
    assert c * w == (k * w) * n;
    ModAddMultiple(s, k * w, n);
  }

  lemma {:induction false} InnerTermsVanish(p: nat, a: nat, m: nat)
    requires Prime(p) && m < p
    ensures Terms(a, p, m) % p == 1
  {
    if m == 0 {
      DivModUnique(1, 0, 1, p);
    } else {
      InnerTermsVanish(p, a, m - 1);
      InnerCoefficient(p, m);
      AddVanishing(Terms(a, p, m - 1), Choose(p, m), Pow(a, m), p);
    }
  }

  lemma {:induction false} FermatAdditive(p: nat, a: nat)
    requires Prime(p)
    ensures Pow(a, p) % p == a % p
  {
    if a == 0 {
      assert Pow(0, p) == 0 * Pow(0, p - 1) == 0;
    } else {
      FermatAdditive(p, a - 1);
      Binomial(a - 1, p);
      InnerTermsVanish(p, a - 1, p - 1);
      ChooseDiagonal(p);
      var t, w := Terms(a - 1, p, p - 1), Pow(a - 1, p);
      assert Pow(a, p) == t + w;
      ModAddLeft(t, w, p);
      ModAddLeft(w, 1, p);
      ModAddLeft(a - 1, 1, p);
    }
  }

  lemma CongruentDifference(x: int, y: int, n: nat)
    requires n > 0 && x % n == y % n
    ensures (x - y) % n == 0
  {
    var q := x / n - y / n;
    assert x - y == 0 + q * n;
    ModAddMultiple(0, q, n);
  }

  /** a^(p-1) is 1 modulo a prime p that does not divide a. */
  lemma Fermat(p: nat, a: nat)
    requires Prime(p) && a % p != 0
    ensures Pow(a, p - 1) % p == 1
  {
    FermatAdditive(p, a);
    var w := Pow(a, p - 1);
    CongruentDifference(a * w, a, p);
    assert a * (w - 1) == a * w - a;
    Euclid(p, a, w - 1);
    var k := (w - 1) / p;
    assert w - 1 == k * p;
    DivModUnique(w, k, 1, p);
  }

  /** Reducing an exponent modulo p - 1 does not change the power modulo p. */
  lemma ReduceExponent(p: nat, h: nat, e: nat)
    requires Prime(p) && h % p != 0
    ensures Pow(h, e % (p - 1)) % p == Pow(h, e) % p
  {
    var q, r := e / (p - 1), e % (p - 1);
    assert e == (p - 1) * q + r;
    PowMul(h, p - 1, q);
    PowAdd(h, (p - 1) * q, r);
    Fermat(p, h);
    var f := Pow(h, p - 1);
    PowMod(f, q, p);
    PowOne(q);
    DivModUnique(1, 0, 1, p);
    ModMul(Pow(f, q), Pow(h, r), p);
  }
}
