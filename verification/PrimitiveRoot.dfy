/** RU_GEN generates the multiplicative group modulo RU_N, and so does every
    RU_GEN^j that res_initid of openbsd-compat/res_random.c can choose. */
module PrimitiveRoot {
  import opened Modular

  const RU_N: nat := 32749
  const RU_GEN: nat := 2
  const ORDER: nat := 32748   // RU_N - 1 = 2*2*3*2729

  // res_initid's test against the table of prime factors of RU_N - 1.
  predicate PrimeToOrder(j: nat) {
    j % 2 != 0 && j % 3 != 0 && j % 2729 != 0
  }

  // 2^e is r modulo RU_N. The quantifier keeps large exponents from being unfolded.
  ghost predicate PowerIs(e: nat, r: nat) {
    forall k: nat :: k == e ==> Pow(2, k) % RU_N == r
  }

  // One step of square-and-multiply: append a binary digit to the exponent.
  lemma {:induction false} Link(e: nat, r: nat, e': nat, r': nat)
    requires PowerIs(e, r)
    requires (e' == 2 * e && r' == (r * r) % RU_N) || (e' == 2 * e + 1 && r' == (2 * (r * r)) % RU_N)
    ensures PowerIs(e', r')
  {
    forall k: nat | k == e' ensures Pow(2, k) % RU_N == r' {
      var p := Pow(2, e);
      PowAdd(2, e, e);
      ModFactor(p, p, RU_N);
      ModFactor(p, r, RU_N);
      if e' == 2 * e + 1 { CongMul(p * p, r * r, 2, RU_N); }
    }
  }

  lemma {:induction false} KnownPowers()
    ensures PowerIs(32748, 1)
    ensures PowerIs(16374, 32748)
    ensures PowerIs(10916, 4354)
    ensures PowerIs(12, 4096)
  {
    assert PowerIs(1, 2);
    Link(1, 2, 3, 8);
    Link(3, 8, 7, 128);
    Link(7, 128, 15, 19);
    Link(15, 19, 31, 722);
    Link(31, 722, 63, 27349);
    Link(63, 27349, 127, 26780);
    Link(127, 26780, 255, 28847);
    Link(255, 28847, 511, 27387);
    Link(511, 27387, 1023, 27593);
    Link(1023, 27593, 2046, 24897);
    Link(2046, 24897, 4093, 7823);
    Link(4093, 7823, 8187, 15645);
    Link(8187, 15645, 16374, 32748);
    Link(16374, 32748, 32748, 1);
    Link(1, 2, 2, 4);
    Link(2, 4, 5, 32);
    Link(5, 32, 10, 1024);
    Link(10, 1024, 21, 1216);
    Link(21, 1216, 42, 4951);
    Link(42, 4951, 85, 32298);
    Link(85, 32298, 170, 6907);
    Link(170, 6907, 341, 15461);
    Link(341, 15461, 682, 7570);
    Link(682, 7570, 1364, 26899);
    Link(1364, 26899, 2729, 32339);
    Link(2729, 32339, 5458, 4355);
    Link(5458, 4355, 10916, 4354);
    Link(1, 2, 3, 8);
    Link(3, 8, 6, 64);
    Link(6, 64, 12, 4096);
  }

  ghost predicate IsOne(b: nat, n: nat, k: nat)
    requires 0 < n
  {
    Pow(b, k) % n == 1
  }

  lemma {:induction false} OneAdd(b: nat, n: nat, k: nat, m: nat)
    requires 1 < n && IsOne(b, n, k)
    ensures Pow(b, k + m) % n == Pow(b, m) % n
  {
    PowAdd(b, k, m);
    ModUnique(1, n, 0, 1);
    CongMul(Pow(b, k), 1, Pow(b, m), n);
  }

  lemma {:induction false} OneMultiple(b: nat, n: nat, k: nat, m: nat)
    requires 1 < n && IsOne(b, n, k)
    ensures IsOne(b, n, k * m)
  {
    PowMul(b, k, m);
    ModUnique(1, n, 0, 1);
    PowCong(Pow(b, k), 1, m, n);
    PowOne(m);
  }

  lemma {:induction false} SameShift(b: nat, n: nat, x: nat, y: nat, c: nat)
    requires 0 < n && Pow(b, x) % n == Pow(b, y) % n
    ensures Pow(b, x + c) % n == Pow(b, y + c) % n
  {
    PowAdd(b, x, c);
    PowAdd(b, y, c);
    CongMul(Pow(b, x), Pow(b, y), Pow(b, c), n);
  }

  // Equal powers have exponents that differ by an exponent of 1, once some
  // positive exponent of 1 is known.
  lemma {:induction false} OneDifference(b: nat, n: nat, o: nat, x: nat, y: nat)
    requires 1 < n && 0 < o && IsOne(b, n, o)
    requires y <= x && Pow(b, x) % n == Pow(b, y) % n
    ensures IsOne(b, n, x - y)
  {
    OneMultiple(b, n, o, y);
    MulMono(y, 1, o);
    OneShift(b, n, o * y, x, y);
  }

  lemma {:induction false} OneShift(b: nat, n: nat, m: nat, x: nat, y: nat)
    requires 1 < n && IsOne(b, n, m)
    requires y <= x && y <= m && Pow(b, x) % n == Pow(b, y) % n
    ensures IsOne(b, n, x - y)
  {
    SameShift(b, n, x, y, m - y);
    OneAdd(b, n, m, x - y);
    assert y + (m - y) == m && x + (m - y) == m + (x - y);
  }

  // The exponents of 1 are closed under the greatest common divisor.
  lemma {:induction false} OneGcd(b: nat, n: nat, o: nat, k: nat) returns (g: nat)
    requires 1 < n && 0 < o && IsOne(b, n, o) && IsOne(b, n, k)
    ensures 0 < g && o % g == 0 && k % g == 0 && IsOne(b, n, g)
  {
    var u, v;
    g, u, v := Bezout(o, k);
    var s: nat, t: nat := if u < 0 then -u else 0, if v < 0 then -v else 0;
    OneCombination(b, n, o, k, s, t);
    OneCombination(b, n, o, k, s + u, t + v);
    OneAdd(b, n, o * s + k * t, g);
    assert o * (s + u) + k * (t + v) == o * s + k * t + g by {
      assert o * (s + u) == o * s + o * u;
      assert k * (t + v) == k * t + k * v;
    }
  }

  lemma {:induction false} OneCombination(b: nat, n: nat, o: nat, k: nat, s: nat, t: nat)
    requires 1 < n && IsOne(b, n, o) && IsOne(b, n, k)
    ensures IsOne(b, n, o * s + k * t)
  {
    OneMultiple(b, n, o, s);
    OneMultiple(b, n, k, t);
    OneAdd(b, n, o * s, k * t);
  }

  lemma {:induction false} OneOrder(k: nat)
    requires k == ORDER
    ensures IsOne(RU_GEN, RU_N, k)
  {
    KnownPowers();
  }

  lemma {:induction false} NoFactor(x: nat)
    requires 2 <= x <= 52
    ensures 2729 % x != 0
  {
  }

  lemma {:induction false} PrimeFactor2729(q: nat, h: nat)
    requires q * h == 2729
    ensures q == 1 || q == 2729
  {
    if 2 <= q <= 52 {
      MultipleMod(q, h);
      NoFactor(q);
      assert false;
    }
    if 2 <= h <= 52 {
      assert h * q == 2729;
      MultipleMod(h, q);
      NoFactor(h);
      assert false;
    }
    if q > 52 && h > 52 {
      MulMono(q, 53, h);
      assert false;
    }
  }

  // Every divisor of RU_N - 1 above 1 is a multiple of one of its prime factors.
  lemma {:induction false} FactorOfOrder(q: nat, g: nat)
    requires q * g == ORDER && PrimeToOrder(q)
    ensures q == 1
  {
    assert g * q == ORDER;
    PrimeDivides(2, g, q);
    var g1 := g / 2;
    assert g1 * q == 16374 by { assert g == 2 * g1; assert (2 * g1) * q == 2 * (g1 * q); }
    PrimeDivides(2, g1, q);
    var g2 := g1 / 2;
    assert g2 * q == 8187 by { assert g1 == 2 * g2; assert (2 * g2) * q == 2 * (g2 * q); }
    PrimeDivides(3, g2, q);
    var g3 := g2 / 3;
    assert g3 * q == 2729 by { assert g2 == 3 * g3; assert (3 * g3) * q == 3 * (g3 * q); }
    assert q * g3 == 2729;
    PrimeFactor2729(q, g3);
  }

  lemma {:induction false} NotOne(p: nat, k: nat)
    requires p == 2 || p == 3 || p == 2729
    requires p * k == ORDER
    ensures !IsOne(RU_GEN, RU_N, k)
  {
    KnownPowers();
    assert PowerIs(k, if p == 2 then 32748 else if p == 3 then 4354 else 4096);
  }

  lemma {:induction false} SmallerExponent(g: nat, q: nat, p: nat)
    requires p == 2 || p == 3 || p == 2729
    requires q * g == ORDER && q % p == 0
    ensures !IsOne(RU_GEN, RU_N, g)
  {
    var k := g * (q / p);
    assert p * k == ORDER by {
      assert q == p * (q / p);
      assert p * (g * (q / p)) == (p * (q / p)) * g;
    }
    NotOne(p, k);
    if IsOne(RU_GEN, RU_N, g) { OneMultiple(RU_GEN, RU_N, g, q / p); }
  }

  // 2 has order exactly RU_N - 1.
  lemma {:induction false} OrderDivides(k: nat)
    requires IsOne(RU_GEN, RU_N, k)
    ensures k % ORDER == 0
  {
    var n := ORDER;
    OneOrder(n);
    var g := OneGcd(RU_GEN, RU_N, n, k);
    var q := n / g;
    assert q * g == n;
    if q % 2 == 0 { SmallerExponent(g, q, 2); }
    else if q % 3 == 0 { SmallerExponent(g, q, 3); }
    else if q % 2729 == 0 { SmallerExponent(g, q, 2729); }
    else { FactorOfOrder(q, g); assert g == n; }
  }

  // A multiplier prime to RU_N - 1 can be cancelled modulo RU_N - 1.
  lemma {:induction false} CancelCoprime(j: nat, d: nat)
    requires PrimeToOrder(j) && (j * d) % ORDER == 0
    ensures d % ORDER == 0
  {
    var g, u, v := Bezout(ORDER, j);
    assert PrimeToOrder(g) by {
      if g % 2 == 0 { DivisorTrans(2, g, j); }
      if g % 3 == 0 { DivisorTrans(3, g, j); }
      if g % 2729 == 0 { DivisorTrans(2729, g, j); }
    }
    assert g * (ORDER / g) == ORDER;
    FactorOfOrder(g, ORDER / g);
    assert d == ORDER * (u * d) + (j * d) * v by {
      assert d == (ORDER * u + j * v) * d;
      assert (ORDER * u) * d == ORDER * (u * d);
      assert (j * v) * d == (j * d) * v;
    }
    DivisorMul(ORDER, j * d, v);
    MultipleMod(ORDER, u * d);
    DivisorAdd(ORDER, ORDER * (u * d), (j * d) * v);
  }

  // Fewer than RU_N - 1 consecutive powers of the chosen generator never repeat.
  lemma {:induction false} GeneratorInjective(j: nat, g: nat, e: nat, f: nat)
    requires PrimeToOrder(j) && g == Pow(RU_GEN, j) % RU_N
    requires e < f < e + ORDER
    ensures Pow(g, e) % RU_N != Pow(g, f) % RU_N
  {
    if Pow(g, e) % RU_N == Pow(g, f) % RU_N {
      RepeatAfter(j, g, e, f - e);
      assert false;
    }
  }

  lemma {:induction false} RepeatAfter(j: nat, g: nat, e: nat, d: nat)
    requires PrimeToOrder(j) && g == Pow(RU_GEN, j) % RU_N
    requires Pow(g, e) % RU_N == Pow(g, e + d) % RU_N
    ensures d % ORDER == 0
  {
    PowerOfPower(j, g, e);
    PowerOfPower(j, g, e + d);
    assert j * (e + d) == j * e + j * d;
    SameExponent(j * e + j * d, j * e, j * d);
    CancelCoprime(j, d);
  }

  lemma {:induction false} PowerOfPower(j: nat, g: nat, e: nat)
    requires g == Pow(RU_GEN, j) % RU_N
    ensures Pow(g, e) % RU_N == Pow(RU_GEN, j * e) % RU_N
  {
    ModUnique(g, RU_N, 0, g);
    PowCong(g, Pow(RU_GEN, j), e, RU_N);
    PowMul(RU_GEN, j, e);
  }

  lemma {:induction false} SameExponent(x: nat, y: nat, d: nat)
    requires x == y + d
    requires Pow(RU_GEN, x) % RU_N == Pow(RU_GEN, y) % RU_N
    ensures d % ORDER == 0
  {
    OneOrder(ORDER);
    OneDifference(RU_GEN, RU_N, ORDER, x, y);
    OrderDivides(d);
  }
}
