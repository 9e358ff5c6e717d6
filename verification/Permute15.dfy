/** permute15 of openbsd-compat/res_random.c: an 11-round unbalanced Luby-Rackoff
    network on 15 bits. Bit patterns are naturals: >>, & and << are division,
    remainder and multiplication by powers of two. */
module Permute15 {

  import opened Common
  import Modular

  const RU_ROUNDS: nat := 11

  // The lookup tables for the odd rounds (7 bits in) and the even rounds (8 bits in).
  datatype Prf = Prf(prf7: seq<nat>, prf8: seq<nat>)

  predicate ValidPrf(p: Prf) {
    && |p.prf7| == (RU_ROUNDS / 2) * 128
    && |p.prf8| == ((RU_ROUNDS + 1) / 2) * 256
    && (forall k :: 0 <= k < |p.prf7| ==> p.prf7[k] < 256)
    && (forall k :: 0 <= k < |p.prf8| ==> p.prf8[k] < 256)
  }

  // Bitwise exclusive or.
  function Xor(a: nat, b: nat): nat {
    if a == 0 && b == 0 then 0 else 2 * Xor(a / 2, b / 2) + (a + b) % 2
  }

  lemma {:induction false} XorCancels(a: nat, b: nat)
    ensures Xor(a, Xor(a, b)) == b
  {
    hide Xor;
    if a == 0 {
      XorZero(b);
      XorZero(Xor(a, b));
    } else {
      XorCancels(a / 2, b / 2);
      XorDigits(a, b);
      XorDigits(a, Xor(a, b));
      SameDigit(a, b, Xor(a, b));
    }
  }

  lemma {:induction false} XorCommutes(a: nat, b: nat)
    ensures Xor(a, b) == Xor(b, a)
  {
    if a != 0 || b != 0 {
      XorCommutes(a / 2, b / 2);
    }
  }

  lemma {:induction false} SameDigit(a: nat, b: nat, x: nat)
    requires x % 2 == (a + b) % 2
    ensures (a + x) % 2 == b % 2
  {
  }

  // The lowest digit and the rest are combined independently.
  lemma {:induction false} XorDigits(a: nat, b: nat)
    ensures Xor(a, b) % 2 == (a + b) % 2 && Xor(a, b) / 2 == Xor(a / 2, b / 2)
  {
    XorUnfold(a, b);
    hide Xor;
    Digits(Xor(a / 2, b / 2), (a + b) % 2);
  }

  lemma {:induction false} XorUnfold(a: nat, b: nat)
    ensures Xor(a, b) == 2 * Xor(a / 2, b / 2) + (a + b) % 2
  {
    if a == 0 && b == 0 {
      assert Xor(0, 0) == 0;
    }
  }

  lemma {:induction false} Digits(q: nat, r: nat)
    requires r < 2
    ensures (2 * q + r) % 2 == r && (2 * q + r) / 2 == q
  {
  }

  lemma {:induction false} XorZero(b: nat)
    ensures Xor(0, b) == b
  {
    if b != 0 { XorZero(b / 2); }
  }

  // Exclusive or does not leave the 2^k range of its operands.
  lemma {:induction false} XorRange(a: nat, b: nat, k: nat)
    requires a < Bit(k) && b < Bit(k)
    ensures Xor(a, b) < Bit(k)
  {
    if k > 0 && (a != 0 || b != 0) { XorRange(a / 2, b / 2, k - 1); }
  }

  function Bit(k: nat): nat {
    if k == 0 then 1 else 2 * Bit(k - 1)
  }

  lemma {:induction false} Widths()
    ensures Bit(7) == 128 && Bit(8) == 256 && Bit(15) == 32768
  {
    assert Bit(3) == 8;
    assert Bit(6) == 64;
    assert Bit(9) == 512;
    assert Bit(12) == 4096;
  }

  // The halves before round i: an even round has a 7-bit left half, an odd one an 8-bit left half.
  predicate InRange(i: nat, left: nat, right: nat) {
    if i % 2 == 0 then left < 128 && right < 256 else left < 256 && right < 128
  }

  // The round function: a table entry chosen by the round and the right half.
  function RoundKey(p: Prf, i: nat, right: nat): (t: nat)
    requires ValidPrf(p) && i < RU_ROUNDS
    requires if i % 2 == 0 then right < 256 else right < 128
    ensures if i % 2 == 0 then t < 128 else t < 256
  {
    if i % 2 == 0 then p.prf8[i * 128 + right] % 128 else p.prf7[(i - 1) * 64 + right]
  }

  lemma {:induction false} RoundRange(p: Prf, i: nat, left: nat, right: nat)
    requires ValidPrf(p) && i < RU_ROUNDS && InRange(i, left, right)
    ensures InRange(i + 1, right, Xor(RoundKey(p, i, right), left))
  {
    hide Xor, ValidPrf;
    Widths();
    XorRange(RoundKey(p, i, right), left, if i % 2 == 0 then 7 else 8);
  }

  // The halves after the first n rounds.
  function Forward(p: Prf, n: nat, left: nat, right: nat): (r: (nat, nat))
    requires ValidPrf(p) && n <= RU_ROUNDS && InRange(0, left, right)
    ensures InRange(n, r.0, r.1)
  {
    if n == 0 then (left, right)
    else
      var (l, r) := Forward(p, n - 1, left, right);
      RoundRange(p, n - 1, l, r);
      (r, Xor(RoundKey(p, n - 1, r), l))
  }

  // Undoing the last n of n rounds.
  function Backward(p: Prf, n: nat, left: nat, right: nat): (r: (nat, nat))
    requires ValidPrf(p) && n <= RU_ROUNDS && InRange(n, left, right)
    ensures InRange(0, r.0, r.1)
  {
    if n == 0 then (left, right)
    else
      var l := Xor(RoundKey(p, n - 1, left), right);
      UnroundRange(p, n - 1, left, right);
      Backward(p, n - 1, l, left)
  }

  lemma {:induction false} UnroundRange(p: Prf, i: nat, left: nat, right: nat)
    requires ValidPrf(p) && i < RU_ROUNDS && InRange(i + 1, left, right)
    ensures InRange(i, Xor(RoundKey(p, i, left), right), left)
  {
    hide Xor, ValidPrf;
    Widths();
    XorRange(RoundKey(p, i, left), right, if i % 2 == 0 then 7 else 8);
  }

  lemma {:induction false} BackwardForward(p: Prf, n: nat, left: nat, right: nat)
    requires ValidPrf(p) && n <= RU_ROUNDS && InRange(0, left, right)
    ensures var (l, r) := Forward(p, n, left, right); Backward(p, n, l, r) == (left, right)
  {
    hide Xor, RoundKey, ValidPrf;
    if n > 0 {
      BackwardForward(p, n - 1, left, right);
      var (l, r) := Forward(p, n - 1, left, right);
      XorCancels(RoundKey(p, n - 1, r), l);
    }
  }

  lemma {:induction false} ForwardBackward(p: Prf, n: nat, left: nat, right: nat)
    requires ValidPrf(p) && n <= RU_ROUNDS && InRange(n, left, right)
    ensures var (l, r) := Backward(p, n, left, right); Forward(p, n, l, r) == (left, right)
  {
    hide Xor, ValidPrf;
    if n > 0 {
      var l := Xor(RoundKey(p, n - 1, left), right);
      UnroundRange(p, n - 1, left, right);
      ForwardBackward(p, n - 1, l, left);
      XorCancels(RoundKey(p, n - 1, left), right);
    }
  }

  ghost predicate ValidKey(prf: Option<Prf>) {
    prf.Some? ==> ValidPrf(prf.value)
  }

  // What permute15 computes; without tables it is the identity.
  function Permuted(prf: Option<Prf>, x: nat): (r: nat)
    requires ValidKey(prf)
    ensures x < 32768 ==> r < 32768
  {
    match prf
    case None => x
    case Some(p) =>
      var (l, r) := Forward(p, RU_ROUNDS, (x / 256) % 128, x % 256);
      r * 256 + l
  }

  function Unpermuted(prf: Option<Prf>, y: nat): (r: nat)
    requires ValidKey(prf) && y < 32768
    ensures r < 32768
  {
    match prf
    case None => y
    case Some(p) =>
      var (l, r) := Backward(p, RU_ROUNDS, y % 256, y / 256);
      l * 256 + r
  }

  /*** The rounds, seen through tables that tell them apart ***/

  lemma {:induction false} XorAssoc(a: nat, b: nat, c: nat)
    ensures Xor(Xor(a, b), c) == Xor(a, Xor(b, c))
  {
    hide Xor;
    if a == 0 {
      XorZero(b);
      XorZero(Xor(b, c));
    } else {
      XorAssoc(a / 2, b / 2, c / 2);
      XorDigits(a, b);
      XorDigits(b, c);
      XorDigits(Xor(a, b), c);
      XorDigits(a, Xor(b, c));
      SameSum(a, b, c, Xor(a, b), Xor(b, c));
    }
  }

  lemma {:induction false} SameSum(a: nat, b: nat, c: nat, x: nat, y: nat)
    requires x % 2 == (a + b) % 2 && y % 2 == (b + c) % 2
    ensures (x + c) % 2 == (a + y) % 2
  {
  }

  // The key of a round does not depend on the halves.
  ghost predicate KeyIs(p: Prf, i: nat, key: nat)
    requires ValidPrf(p) && i < RU_ROUNDS
  {
    forall r: nat :: r < (if i % 2 == 0 then 256 else 128) ==> RoundKey(p, i, r) == key
  }

  // Two rounds with such keys.
  lemma {:induction false} TwoRounds(p: Prf, m: nat, left: nat, right: nat, e: nat, o: nat, ke: nat, ko: nat)
    requires ValidPrf(p) && 2 * m + 2 <= RU_ROUNDS && InRange(0, left, right)
    requires Forward(p, 2 * m, left, right) == (Xor(e, left), Xor(o, right))
    requires KeyIs(p, 2 * m, ke) && KeyIs(p, 2 * m + 1, ko)
    ensures Forward(p, 2 * m + 2, left, right) == (Xor(Xor(ke, e), left), Xor(Xor(ko, o), right))
  {
    hide Xor, RoundKey, ValidPrf;
    XorAssoc(ke, e, left);
    XorAssoc(ko, o, right);
    assert Forward(p, 2 * m + 1, left, right) == (Xor(o, right), Xor(ke, Xor(e, left)));
  }

  // Tables that hold the number of the part they are used for.
  ghost predicate PartTables(p: Prf) {
    (forall k :: 0 <= k < |p.prf8| ==> p.prf8[k] == k / 256) && forall k :: 0 <= k < |p.prf7| ==> p.prf7[k] == k / 128
  }

  // There are 11 rounds, and each has its own part of the tables: with these, even rounds
  // change the left half by 0 to 5, odd ones the right half by 0 to 4, and these add up to 1
  // and 4.
  lemma {:induction false} RoundsAddUp(p: Prf, x: nat)
    requires ValidPrf(p) && x < 32768
    requires PartTables(p)
    ensures Permuted(Some(p), x) == Xor(1, x / 256) * 256 + Xor(4, x % 256)
  {
    hide Forward, Xor, ValidPrf, PartTables;
    var l, r := (x / 256) % 128, x % 256;
    assert Forward(p, 11, l, r) == (Xor(4, r), Xor(1, l)) by { ElevenRounds(p, l, r); }
  }

  lemma {:induction false} ElevenRounds(p: Prf, l: nat, r: nat)
    requires ValidPrf(p) && InRange(0, l, r)
    requires PartTables(p)
    ensures Forward(p, 11, l, r) == (Xor(4, r), Xor(1, l))
  {
    hide Forward, KeyIs, Xor, ValidPrf, PartTables;
    PartKey(p, 0);
    PartKey(p, 1);
    PartKey(p, 2);
    PartKey(p, 3);
    PartKey(p, 4);
    PartKey(p, 5);
    PartKey(p, 6);
    PartKey(p, 7);
    PartKey(p, 8);
    PartKey(p, 9);
    PartKey(p, 10);
    XorZero(l);
    XorZero(r);
    SmallXors();
    FirstHalves(p, l, r);
    TwoRounds(p, 0, l, r, 0, 0, 0, 0);
    TwoRounds(p, 1, l, r, 0, 0, 1, 1);
    TwoRounds(p, 2, l, r, 1, 1, 2, 2);
    TwoRounds(p, 3, l, r, 3, 3, 3, 3);
    TwoRounds(p, 4, l, r, 0, 0, 4, 4);
    LastRound(p, l, r);
  }

  lemma {:induction false} FirstHalves(p: Prf, l: nat, r: nat)
    requires ValidPrf(p) && InRange(0, l, r)
    ensures Forward(p, 0, l, r) == (l, r)
  {
  }

  lemma {:induction false} LastRound(p: Prf, l: nat, r: nat)
    requires ValidPrf(p) && InRange(0, l, r) && Forward(p, 10, l, r) == (Xor(4, l), Xor(4, r))
    requires KeyIs(p, 10, 5)
    ensures Forward(p, 11, l, r) == (Xor(4, r), Xor(1, l))
  {
    hide Xor, RoundKey, ValidPrf;
    SmallXors();
    XorAssoc(5, 4, l);
  }

  lemma {:induction false} SmallXors()
    ensures Xor(0, 0) == 0 && Xor(1, 0) == 1 && Xor(2, 1) == 3 && Xor(3, 3) == 0 && Xor(4, 0) == 4 && Xor(5, 4) == 1
  {
    assert Xor(1, 1) == 0 && Xor(2, 2) == 0;
  }

  lemma {:induction false} PartKey(p: Prf, i: nat)
    requires ValidPrf(p) && i < RU_ROUNDS
    requires PartTables(p)
    ensures KeyIs(p, i, i / 2)
  {
    hide ValidPrf, PartTables, RoundKey;
    forall r: nat | r < (if i % 2 == 0 then 256 else 128)
      ensures RoundKey(p, i, r) == i / 2
    {
      if i % 2 == 0 {
        EvenKey(p, i / 2, r);
      } else {
        OddKey(p, i / 2, r);
      }
    }
  }

  lemma {:induction false} EvenKey(p: Prf, m: nat, r: nat)
    requires ValidPrf(p) && PartTables(p) && m <= 5 && r < 256
    ensures RoundKey(p, 2 * m, r) == m
  {
    var k := 2 * m * 128 + r;
    Modular.ModUnique(k, 256, m, r);
    assert p.prf8[k] == m;
  }

  lemma {:induction false} OddKey(p: Prf, m: nat, r: nat)
    requires ValidPrf(p) && PartTables(p) && m <= 4 && r < 128
    ensures RoundKey(p, 2 * m + 1, r) == m
  {
    var k := 2 * m * 64 + r;
    Modular.ModUnique(k, 128, m, r);
    assert p.prf7[k] == m;
  }

  // permute15 is a bijection on 15-bit numbers, whatever the tables hold.
  lemma {:induction false} PermuteBijective(prf: Option<Prf>, x: nat)
    requires ValidKey(prf) && x < 32768
    ensures Unpermuted(prf, Permuted(prf, x)) == x
    ensures Permuted(prf, Unpermuted(prf, x)) == x
  {
    if prf.Some? {
      UnpermutePermuted(prf.value, RU_ROUNDS, x);
      PermuteUnpermuted(prf.value, RU_ROUNDS, x);
    }
  }

  lemma {:induction false} UnpermutePermuted(p: Prf, n: nat, x: nat)
    requires ValidPrf(p) && n == RU_ROUNDS && x < 32768
    ensures Unpermuted(Some(p), Permuted(Some(p), x)) == x
  {
    hide Forward, Backward, ValidPrf;
    var hi, lo := x / 256, x % 256;
    BackwardForward(p, n, hi, lo);
    var (l, r) := Forward(p, n, hi, lo);
    assert (r * 256 + l) / 256 == r && (r * 256 + l) % 256 == l;
  }

  lemma {:induction false} PermuteUnpermuted(p: Prf, n: nat, y: nat)
    requires ValidPrf(p) && n == RU_ROUNDS && y < 32768
    ensures Permuted(Some(p), Unpermuted(Some(p), y)) == y
  {
    hide Forward, Backward, ValidPrf;
    var hi, lo := y / 256, y % 256;
    ForwardBackward(p, n, lo, hi);
    var (l, r) := Backward(p, n, lo, hi);
    assert (l * 256 + r) / 256 == l && (l * 256 + r) % 256 == r;
  }

  method Permute(prf: Option<Prf>, x: nat) returns (r: nat)
    requires ValidKey(prf)
    ensures r == Permuted(prf, x)
  {
    if prf.None? { return x; }
    var p := prf.value;
    var left: nat, right: nat := (x / 256) % 128, x % 256;
    ghost var l0, r0 := left, right;
    for i := 0 to RU_ROUNDS
      invariant InRange(i, left, right)
      invariant (left, right) == Forward(p, i, l0, r0)
    {
      var tmp := if i % 2 == 0 then p.prf8[i * 128 + right] % 128 else p.prf7[(i - 1) * 64 + right];
      RoundRange(p, i, left, right);
      tmp := Xor(tmp, left);
      left := right;
      right := tmp;
    }
    return right * 256 + left;
  }
}
