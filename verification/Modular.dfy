/** Powers, divisibility and congruences: the arithmetic that the transaction-id
    generator of openbsd-compat/res_random.c rests on. Dafny's % agrees with C's
    on the non-negative operands the generator uses. */
module Modular {

  function Pow(b: nat, e: nat): (r: nat)
    ensures 0 < b ==> 0 < r
  {
    if e == 0 then 1
    else
      var p := Pow(b, e - 1);
      assert 0 < b ==> 0 < b * p by { if 0 < b { MulMono(b, 1, p); } }
      b * p
  }

  // Division is determined by the quotient-remainder equation.
  lemma {:induction false} ModUnique(x: int, d: int, q: int, r: int)
    requires 0 <= r < d
    requires x == d * q + r
    ensures x % d == r && x / d == q
  {
    var k, s := x / d, x % d;
    assert x == d * k + s;
    assert d * (q - k) == s - r;
    if q - k >= 1 {
      assert d * (q - k) >= d * 1 by { MulMono(d, 1, q - k); }
    } else if q - k <= -1 {
      assert d * (q - k) <= d * -1 by { MulMono(d, q - k, -1); }
    }
  }

  lemma {:induction false} MulMono(d: int, a: int, b: int)
    requires 0 <= d && a <= b
    ensures d * a <= d * b
  {
    assert d * b - d * a == d * (b - a);
  }

  lemma {:induction false} MulAssoc(x: int, y: int, z: int)
    ensures x * (y * z) == (x * y) * z
  {
  }

  lemma {:induction false} MulAdd(x: int, y: int, z: int)
    ensures x * (y + z) == x * y + x * z
  {
  }

  lemma {:induction false} MultipleMod(d: int, q: int)
    requires 0 < d
    ensures (d * q) % d == 0 && (d * q) / d == q
  {
    ModUnique(d * q, d, q, 0);
  }

  lemma {:induction false} CongMul(a: int, b: int, c: int, n: int)
    requires 0 < n && a % n == b % n
    ensures (a * c) % n == (b * c) % n
  {
    var r, qa, qb := a % n, a / n, b / n;
    var q, s := (r * c) / n, (r * c) % n;
    assert a * c == n * (qa * c + q) + s by {
      assert a == n * qa + r;
      assert (n * qa + r) * c == n * (qa * c) + r * c;
      assert n * (qa * c + q) == n * (qa * c) + n * q;
    }
    ModUnique(a * c, n, qa * c + q, s);
    assert b * c == n * (qb * c + q) + s by {
      assert b == n * qb + r;
      assert (n * qb + r) * c == n * (qb * c) + r * c;
      assert n * (qb * c + q) == n * (qb * c) + n * q;
    }
    ModUnique(b * c, n, qb * c + q, s);
  }

  // The step the square-and-multiply loop takes: reduce a factor first.
  lemma {:induction false} ModFactor(a: int, c: int, n: int)
    requires 0 < n
    ensures ((a % n) * c) % n == (a * c) % n
    ensures (c * (a % n)) % n == (c * a) % n
  {
    ModUnique(a % n, n, 0, a % n);
    CongMul(a % n, a, c, n);
  }

  lemma {:induction false} CongAdd(a: int, b: int, c: int, n: int)
    requires 0 < n && a % n == b % n
    ensures (a + c) % n == (b + c) % n
  {
    var r, q, s := a % n, (a % n + c) / n, (a % n + c) % n;
    assert a + c == n * (a / n + q) + s by {
      assert n * (a / n + q) == n * (a / n) + n * q;
    }
    ModUnique(a + c, n, a / n + q, s);
    assert b + c == n * (b / n + q) + s by {
      assert n * (b / n + q) == n * (b / n) + n * q;
    }
    ModUnique(b + c, n, b / n + q, s);
  }

  // Congruent numbers differ by a multiple, and conversely.
  lemma {:induction false} CongDiff(a: int, b: int, n: int)
    requires 0 < n
    ensures a % n == b % n <==> (a - b) % n == 0
  {
    if a % n == b % n {
      CongAdd(a, b, -b, n);
      ModUnique(0, n, 0, 0);
    }
    if (a - b) % n == 0 {
      ModUnique(0, n, 0, 0);
      CongAdd(a - b, 0, b, n);
    }
  }

  lemma {:induction false} DivisorMul(d: int, x: int, c: int)
    requires 0 < d && x % d == 0
    ensures (x * c) % d == 0 && (c * x) % d == 0
  {
    ModUnique(0, d, 0, 0);
    CongMul(x, 0, c, d);
  }

  lemma {:induction false} DivisorAdd(d: int, x: int, y: int)
    requires 0 < d && x % d == 0 && y % d == 0
    ensures (x + y) % d == 0 && (x - y) % d == 0
  {
    ModUnique(0, d, 0, 0);
    CongAdd(x, 0, y, d);
    CongDiff(x, y, d);
  }

  lemma {:induction false} DivisorTrans(d: int, e: int, x: int)
    requires 0 < d && 0 < e && e % d == 0 && x % e == 0
    ensures x % d == 0
  {
    assert x == e * (x / e);
    DivisorMul(d, e, x / e);
  }

  lemma {:induction false} PowAdd(b: nat, m: nat, n: nat)
    ensures Pow(b, m + n) == Pow(b, m) * Pow(b, n)
  {
    if m > 0 {
      PowAdd(b, m - 1, n);
      MulAssoc(b, Pow(b, m - 1), Pow(b, n));
      assert m + n - 1 == (m - 1) + n;
    }
  }

  lemma {:induction false} PowMul(b: nat, m: nat, n: nat)
    ensures Pow(Pow(b, m), n) == Pow(b, m * n)
  {
    if n > 0 {
      PowMul(b, m, n - 1);
      PowAdd(b, m, m * (n - 1));
      assert m + m * (n - 1) == m * n;
    } else {
      assert m * n == 0;
    }
  }

  lemma {:induction false} PowSquare(b: nat, e: nat)
    ensures Pow(b * b, e) == Pow(b, 2 * e)
  {
    assert Pow(b, 2) == b * b by { assert Pow(b, 1) == b * 1; }
    PowMul(b, 2, e);
  }

  // Powers of congruent bases are congruent.
  lemma {:induction false} PowCong(a: nat, b: nat, e: nat, n: nat)
    requires 0 < n && a % n == b % n
    ensures Pow(a, e) % n == Pow(b, e) % n
  {
    if e > 0 {
      PowCong(a, b, e - 1, n);
      CongMul(Pow(a, e - 1), Pow(b, e - 1), a, n);
      CongMul(a, b, Pow(b, e - 1), n);
      assert Pow(a, e) == Pow(a, e - 1) * a;
      assert Pow(b, e) == b * Pow(b, e - 1);
      assert Pow(b, e - 1) * a == a * Pow(b, e - 1);
    }
  }

  lemma {:induction false} PowOne(e: nat)
    ensures Pow(1, e) == 1
  {
    if e > 0 { PowOne(e - 1); }
  }

  // Euclid's lemma for the primes 2 and 3.
  lemma {:induction false} PrimeDivides(p: nat, x: nat, c: nat)
    requires p == 2 || p == 3
    requires c % p != 0 && (x * c) % p == 0
    ensures x % p == 0
  {
    var r, s := x % p, c % p;
    ModFactor(x, c, p);
    ModFactor(c, r, p);
    assert (r * s) % p == 0;
    assert r == 1 ==> r * s == s;
    assert r == 2 ==> r * s == 2 * s;
  }

  // Extended Euclid: the greatest common divisor is an integer combination.
  lemma {:induction false} Bezout(x: nat, y: nat) returns (g: nat, u: int, v: int)
    requires 0 < x
    ensures 0 < g && x % g == 0 && y % g == 0
    ensures g == x * u + y * v
    decreases y
  {
    if y == 0 {
      g, u, v := x, 1, 0;
      ModUnique(x, x, 1, 0);
      ModUnique(0, x, 0, 0);
    } else {
      var g', u', v' := Bezout(y, x % y);
      g, u, v := g', v', u' - (x / y) * v';
      var q := x / y;
      assert x == y * q + x % y;
      DivisorMul(g, y, q);
      DivisorAdd(g, y * q, x % y);
      calc {
        y * u' + (x % y) * v';
        y * u' + (x - y * q) * v';
        { assert (x - y * q) * v' == x * v' - y * (q * v'); }
        y * u' + x * v' - y * (q * v');
        { assert y * (u' - q * v') == y * u' - y * (q * v'); }
        x * v' + y * (u' - q * v');
      }
    }
  }

  lemma {:induction false} Quotients(y: int, n: int)
    requires 1 < n
    ensures y / n == (y - 1) / n + if y % n == 0 then 1 else 0
  {
    var q, r := y / n, y % n;
    if r == 0 {
      assert n * (q - 1) == n * q - n;
      ModUnique(y - 1, n, q - 1, n - 1);
    } else {
      ModUnique(y - 1, n, q, r - 1);
    }
  }
}
