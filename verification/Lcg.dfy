/** The linear congruential generator of openbsd-compat/res_random.c runs through
    all RU_M residues before it repeats. */
module Lcg {
  import opened Modular

  const RU_M: nat := 31104   // 2^7 * 3^5

  // What res_initid guarantees about the multiplier and the increment.
  predicate GoodLcg(a: nat, b: nat) {
    a % 12 == 1 && b % 2 != 0 && b % 3 != 0
  }

  function Step(a: nat, b: nat, x: nat): (r: nat)
    ensures r < RU_M
  {
    (a * x + b) % RU_M
  }

  function Iterate(a: nat, b: nat, x: nat, n: nat): (r: nat)
    ensures n > 0 || x < RU_M ==> r < RU_M
  {
    if n == 0 then x else Step(a, b, Iterate(a, b, x, n - 1))
  }

  // 1 + a + ... + a^(n-1)
  function Geometric(a: nat, n: nat): nat {
    if n == 0 then 0 else Geometric(a, n - 1) + Pow(a, n - 1)
  }

  lemma {:induction false} IterateSplit(a: nat, b: nat, x: nat, m: nat, n: nat)
    ensures Iterate(a, b, x, m + n) == Iterate(a, b, Iterate(a, b, x, m), n)
  {
    if n > 0 {
      IterateSplit(a, b, x, m, n - 1);
      assert m + n - 1 == m + (n - 1);
    }
  }

  // n steps of the generator are one affine map modulo RU_M.
  lemma {:induction false} ClosedForm(a: nat, b: nat, x: nat, n: nat)
    ensures Iterate(a, b, x, n) % RU_M == Affine(a, b, x, n) % RU_M
  {
    if n > 0 {
      ClosedForm(a, b, x, n - 1);
      var z := Affine(a, b, x, n - 1);
      StepCong(a, b, Iterate(a, b, x, n - 1), z);
      AffineStep(a, b, x, n);
    }
  }

  ghost function Affine(a: nat, b: nat, x: nat, n: nat): (r: nat)
    ensures n == 0 ==> r == x
  {
    assert b * 0 == 0;
    Pow(a, n) * x + b * Geometric(a, n)
  }

  lemma {:induction false} StepCong(a: nat, b: nat, y: nat, z: nat)
    requires y % RU_M == z % RU_M
    ensures Step(a, b, y) % RU_M == (z * a + b) % RU_M
  {
    AffineCong(a, b, y, z, RU_M);
    Reduced(a * y + b);
  }

  lemma {:induction false} AffineCong(a: nat, b: nat, y: nat, z: nat, n: nat)
    requires 0 < n && y % n == z % n
    ensures (a * y + b) % n == (z * a + b) % n
  {
    CongMul(y, z, a, n);
    CongAdd(y * a, z * a, b, n);
    assert y * a == a * y;
  }

  lemma {:induction false} Reduced(x: nat)
    ensures (x % RU_M) % RU_M == x % RU_M
  {
  }

  lemma {:induction false} AffineStep(a: nat, b: nat, x: nat, n: nat)
    requires n > 0
    ensures Affine(a, b, x, n) == Affine(a, b, x, n - 1) * a + b
  {
    GeometricHorner(a, n - 1);
    AffineAlgebra(a, b, x, Pow(a, n - 1), Geometric(a, n - 1), Pow(a, n), Geometric(a, n));
  }

  lemma {:induction false} AffineAlgebra(a: nat, b: nat, x: nat, p: nat, g: nat, p': nat, g': nat)
    requires p' == a * p && g' == a * g + 1
    ensures p' * x + b * g' == (p * x + b * g) * a + b
  {
    assert (p * x + b * g) * a == (p * x) * a + (b * g) * a;
    assert (p * x) * a == (a * p) * x;
    assert (b * g) * a == b * (a * g);
    assert b * (a * g + 1) == b * (a * g) + b;
  }

  lemma {:induction false} GeometricHorner(a: nat, n: nat)
    ensures Geometric(a, n + 1) == a * Geometric(a, n) + 1
  {
    if n > 0 {
      GeometricHorner(a, n - 1);
      MulAdd(a, Geometric(a, n - 1), Pow(a, n - 1));
    }
  }

  // (a - 1) * (1 + ... + a^(n-1)) = a^n - 1
  lemma {:induction false} GeometricTelescopes(a: nat, n: nat)
    ensures (a - 1) * Geometric(a, n) == Pow(a, n) - 1
  {
    if n > 0 {
      GeometricTelescopes(a, n - 1);
      var g, p := Geometric(a, n - 1), Pow(a, n - 1);
      MulAdd(a - 1, g, p);
      MulAdd(p, a, -1);
    }
  }

  lemma {:induction false} GeometricAdd(a: nat, m: nat, n: nat)
    ensures Geometric(a, m + n) == Geometric(a, m) + Pow(a, m) * Geometric(a, n)
  {
    if n > 0 {
      GeometricAdd(a, m, n - 1);
      PowAdd(a, m, n - 1);
      MulAdd(Pow(a, m), Geometric(a, n - 1), Pow(a, n - 1));
      assert m + n - 1 == m + (n - 1);
    } else {
      assert Pow(a, m) * 0 == 0;
    }
  }

  // If a is 1 modulo m, so is every power, and the sum of n of them is n.
  lemma {:induction false} UnitBase(a: nat, n: nat, m: nat)
    requires 1 < m && a % m == 1
    ensures Pow(a, n) % m == 1
    ensures Geometric(a, n) % m == n % m
  {
    ModUnique(1, m, 0, 1);
    PowCong(a, 1, n, m);
    PowOne(n);
    if n > 0 {
      UnitBase(a, n - 1, m);
      CongAdd(Geometric(a, n - 1), n - 1, Pow(a, n - 1), m);
      CongAdd(Pow(a, n - 1), 1, n - 1, m);
    }
  }

  // The two prime factors of RU_M, with what the multiplier satisfies for each.
  predicate GoodPrime(p: nat, a: nat) {
    (p == 2 && a % 4 == 1) || (p == 3 && a % 3 == 1)
  }

  // Summing p*e powers multiplies the sum of e powers by p and a number prime to p.
  lemma {:induction false} ScaledSum(p: nat, a: nat, e: nat) returns (u: nat)
    requires GoodPrime(p, a)
    ensures Geometric(a, p * e) == p * (Geometric(a, e) * u)
    ensures u % p != 0
  {
    var g, w := Geometric(a, e), Pow(a, e);
    GeometricAdd(a, e, e);
    if p == 2 {
      UnitBase(a, e, 4);
      u := SumOfTwo(g, w);
      assert p * e == e + e;
    } else {
      UnitBase(a, e, 3);
      GeometricAdd(a, e, e + e);
      u := SumOfThree(g, w);
      assert p * e == e + (e + e);
    }
  }

  lemma {:induction false} SumOfTwo(g: nat, w: nat) returns (u: nat)
    requires w % 4 == 1
    ensures g + w * g == 2 * (g * u)
    ensures u % 2 != 0
  {
    u := (1 + w) / 2;
    assert g + w * g == g * (1 + w);
    assert g * (2 * u) == 2 * (g * u);
  }

  lemma {:induction false} SumOfThree(g: nat, w: nat) returns (u: nat)
    requires w % 3 == 1
    ensures g + w * (g + w * g) == 3 * (g * u)
    ensures u % 3 != 0
  {
    var t := w / 3;
    var tt := t * t;
    assert w * w == 9 * tt + 6 * t + 1;
    assert w * (w * g) == (w * w) * g;
    assert w * (g + w * g) == w * g + (w * w) * g;
    assert g + w * g + (w * w) * g == (1 + w + w * w) * g;
    assert 1 + w + w * w == 3 * (1 + 3 * t + 3 * tt);
    u := 1 + 3 * t + 3 * tt;
    assert (3 * u) * g == 3 * (g * u);
  }

  lemma {:induction false} ScaleMod(p: nat, g: nat, m: nat)
    requires 0 < p && 0 < m
    ensures 0 < p * m
    ensures (p * g) % (p * m) == 0 <==> g % m == 0
  {
    MulMono(p, 1, m);
    var q, r := g / m, g % m;
    assert p * g == (p * m) * q + p * r by {
      assert g == m * q + r;
      assert p * (m * q + r) == p * (m * q) + p * r;
      assert p * (m * q) == (p * m) * q;
    }
    MulMono(p, 0, r);
    MulMono(p, r + 1, m);
    assert p * (r + 1) == p * r + p;
    ModUnique(p * g, p * m, q, p * r);
    if r > 0 { MulMono(p, 1, r); }
  }

  // Cancelling a factor prime to p from a divisibility by p^k.
  lemma {:induction false} Cancel(p: nat, x: nat, c: nat, k: nat)
    requires p == 2 || p == 3
    requires c % p != 0
    requires (x * c) % Pow(p, k) == 0
    ensures x % Pow(p, k) == 0
  {
    if k > 0 {
      var m := Pow(p, k - 1);
      MultipleMod(p, m);
      DivisorTrans(p, p * m, x * c);
      PrimeDivides(p, x, c);
      var h := x / p;
      assert x * c == p * (h * c) by { assert x == p * h; assert (p * h) * c == p * (h * c); }
      ScaleMod(p, h * c, m);
      Cancel(p, h, c, k - 1);
      ScaleMod(p, h, m);
    } else {
      ModUnique(x, 1, x, 0);
    }
  }

  // The sum of d powers is no more divisible by p than d itself.
  lemma {:induction false} Lift(p: nat, a: nat, d: nat, k: nat)
    requires GoodPrime(p, a)
    requires Geometric(a, d) % Pow(p, k) == 0
    ensures d % Pow(p, k) == 0
  {
    if k > 0 {
      var m := Pow(p, k - 1);
      MultipleMod(p, m);
      UnitBase(a, d, p);
      DivisorTrans(p, p * m, Geometric(a, d));
      var e := d / p;
      assert d == p * e;
      var u := ScaledSum(p, a, e);
      ScaleMod(p, Geometric(a, e) * u, m);
      Cancel(p, Geometric(a, e), u, k - 1);
      Lift(p, a, e, k - 1);
      ScaleMod(p, e, m);
    } else {
      ModUnique(d, 1, d, 0);
    }
  }

  // If d further steps bring the generator back to x, then d is a multiple of RU_M.
  lemma {:induction false} ReturnTime(a: nat, b: nat, x: nat, d: nat)
    requires GoodLcg(a, b)
    requires Iterate(a, b, x, d) % RU_M == x % RU_M
    ensures d % RU_M == 0
  {
    hide Pow, Geometric, Iterate;
    var s := Geometric(a, d);
    var c := Fixpoint(a, b, x, d);
    SmallPowers();
    CancelUnit(s, c, s * c);
    Lift(2, a, d, 7);
    Lift(3, a, d, 5);
    CoprimeFactors(d);
  }

  lemma {:induction false} CancelUnit(s: nat, c: nat, m: nat)
    requires m == s * c && m % RU_M == 0 && c % 2 != 0 && c % 3 != 0
    ensures s % Pow(2, 7) == 0 && s % Pow(3, 5) == 0
  {
    hide Pow;
    SmallPowers();
    DivisorTrans(128, RU_M, m);
    DivisorTrans(243, RU_M, m);
    Cancel(2, s, c, 7);
    Cancel(3, s, c, 5);
  }

  lemma {:induction false} CoprimeFactors(d: nat)
    requires d % 128 == 0 && d % 243 == 0
    ensures d % RU_M == 0
  {
    var p, q := d / 128, d / 243;
    assert d == 128 * p && d == 243 * q;
    assert d == RU_M * (131 * q - 69 * p);   // 131 * 128 - 69 * 243 = 1
  }

  // A return after d steps makes RU_M divide the sum of d powers times a unit.
  lemma {:induction false} Fixpoint(a: nat, b: nat, x: nat, d: nat) returns (c: nat)
    requires GoodLcg(a, b)
    requires Iterate(a, b, x, d) % RU_M == x % RU_M
    ensures (Geometric(a, d) * c) % RU_M == 0
    ensures c % 2 != 0 && c % 3 != 0
  {
    ClosedForm(a, b, x, d);
    var y := Affine(a, b, x, d);
    CongDiff(y, x, RU_M);
    GeometricTelescopes(a, d);
    c := AffineFixpoint(a, b, x, Pow(a, d), Geometric(a, d));
    assert y - x == Geometric(a, d) * c;
  }

  lemma {:induction false} SmallPowers()
    ensures Pow(2, 7) == 128 && Pow(3, 5) == 243
  {
    assert Pow(2, 3) == 8;
    assert Pow(2, 6) == 64;
    assert Pow(3, 3) == 27;
  }

  lemma {:induction false} AffineFixpoint(a: nat, b: nat, x: nat, w: nat, s: nat) returns (c: nat)
    requires GoodLcg(a, b)
    requires (a - 1) * s == w - 1
    ensures w * x + b * s - x == s * c
    ensures c % 2 != 0 && c % 3 != 0
  {
    var q := a / 12;
    c := 12 * (q * x) + b;
    assert (a - 1) * x == 12 * (q * x) by { assert a - 1 == 12 * q; }
    assert w * x - x == (w - 1) * x;
    assert ((a - 1) * s) * x == s * ((a - 1) * x);
    assert s * ((a - 1) * x + b) == s * ((a - 1) * x) + s * b;
  }

  // Full period: RU_M consecutive values of the generator are pairwise different.
  lemma {:induction false} FullPeriod(a: nat, b: nat, x: nat, i: nat, j: nat)
    requires GoodLcg(a, b)
    requires i < j < i + RU_M
    ensures Iterate(a, b, x, i) % RU_M != Iterate(a, b, x, j) % RU_M
  {
    hide Iterate;
    if Iterate(a, b, x, i) % RU_M == Iterate(a, b, x, j) % RU_M {
      IterateSplit(a, b, x, i, j - i);
      ReturnTime(a, b, Iterate(a, b, x, i), j - i);
      assert false;
    }
  }
}
