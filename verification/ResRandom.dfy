/** The DNS transaction-id generator of openbsd-compat/res_random.c: its state, its
    reseeding, and the theorem that ids do not repeat within an epoch or between
    neighbouring epochs. The clock, the process id and the random source are inputs. */
module ResRandom {
  import opened Common
  import opened Modular
  import opened Lcg
  import opened PrimitiveRoot
  import opened Permute15

  const RU_OUT: int := 180
  const RU_MAX: nat := 30000
  const RU_AGEN: nat := 7
  const MSB: nat := 0x8000

  // Everything res_initid draws from arc4random, malloc and the clock.
  datatype Entropy = Entropy(x: nat, seedWord: nat, lcgWord: nat, j: nat, mallocOk: bool, prf: Prf, now: int)

  predicate ValidEntropy(e: Entropy) {
    && e.x < RU_M && e.j < RU_N
    && e.seedWord < 0x1_0000_0000 && e.lcgWord < 0x1_0000_0000
    && ValidPrf(e.prf)
  }

  // The static ru_* variables.
  datatype Gen = Gen(x: nat, seed: nat, seed2: nat, a: nat, b: nat, g: nat, counter: nat, msb: nat,
                     prf: Option<Prf>, reseed: int, pid: int)

  const ZERO := Gen(0, 0, 0, 0, 0, 0, 0, 0, None, 0, 0)

  // A call's inputs: the clock, getpid() and what a reseed would draw.
  datatype Input = Input(now: int, pid: int, entropy: Entropy)

  predicate ValidInput(i: Input) {
    i.pid > 0 && ValidEntropy(i.entropy)
  }

  /*** The pieces of res_initid ***/

  // Largest factor whose square fits a C int.
  const ROOT_INT_MAX: nat := 46340
  const INT_MAX: nat := 0x7fff_ffff

  // pmod, with the bounds under which its int products do not overflow.
  method PMod(gen: nat, exp: nat, mod: nat) returns (s: nat)
    requires gen <= ROOT_INT_MAX && 1 < mod <= ROOT_INT_MAX + 1
    ensures s == Pow(gen, exp) % mod
  {
    s := 1;
    var t, u := gen, exp;
    ModUnique(1, mod, 0, 1);
    while u > 0
      invariant 0 <= u && 0 <= t <= ROOT_INT_MAX && s < mod
      invariant (s * Pow(t, u)) % mod == Pow(gen, exp) % mod
    {
      SquareMultiply(s, t, u, mod);
      if u % 2 == 1 {
        MulMono(t, s, ROOT_INT_MAX);
        MulMono(ROOT_INT_MAX, t, ROOT_INT_MAX);
        assert s * t <= INT_MAX;
        s := (s * t) % mod;
      }
      u := u / 2;
      MulMono(t, t, ROOT_INT_MAX);
      MulMono(ROOT_INT_MAX, t, ROOT_INT_MAX);
      assert t * t <= INT_MAX;
      t := (t * t) % mod;
    }
    ModUnique(s, mod, 0, s);
  }

  // One iteration of pmod preserves s * t^u modulo mod.
  lemma {:induction false} SquareMultiply(s: nat, t: nat, u: nat, mod: nat)
    requires 0 < mod && 0 < u
    ensures var s' := if u % 2 == 1 then (s * t) % mod else s;
            (s' * Pow((t * t) % mod, u / 2)) % mod == (s * Pow(t, u)) % mod
  {
    var s' := if u % 2 == 1 then (s * t) % mod else s;
    var v, w := Pow((t * t) % mod, u / 2), Pow(t, 2 * (u / 2));
    assert v % mod == w % mod by {
      ModUnique((t * t) % mod, mod, 0, (t * t) % mod);
      PowCong((t * t) % mod, t * t, u / 2, mod);
      PowSquare(t, u / 2);
    }
    CongMul(v, w, s', mod);
    assert v * s' == s' * v && w * s' == s' * w;
    if u % 2 == 1 {
      assert Pow(t, u) == t * w;
      OddDigit(s, t, w, mod);
    }
  }

  lemma {:induction false} OddDigit(s: nat, t: nat, w: nat, mod: nat)
    requires 0 < mod
    ensures (((s * t) % mod) * w) % mod == (s * (t * w)) % mod
  {
    ModFactor(s * t, w, mod);
    MulAssoc(s, t, w);
  }

  // The even exponent and the odd increment that a random word gives.
  function EvenHigh(w: nat): (n: nat)
    requires w < 0x1_0000_0000
    ensures n == 2 * (w / 65536 / 2) < 65536
  {
    ((w / 65536) / 2) * 2
  }

  function OddLow(w: nat): (n: nat)
    ensures n % 2 == 1 && n < 65536
  {
    ((w % 65536) / 2) * 2 + 1
  }

  function SeedHigh(w: nat): (n: nat)
    ensures n < 32768
  {
    (w / 65536) % 32768
  }

  function SeedLow(w: nat): (n: nat)
    ensures n < 32768
  {
    w % 32768
  }

  // The loop that makes the increment prime to 3; ru_b is 16 bits wide.
  function Increment(w: nat): (b: nat)
    ensures b % 2 != 0 && b % 3 != 0 && b < 65536
  {
    var b := OddLow(w);
    if b % 3 == 0 then (b + 2) % 65536 else b
  }

  method SkipMultiplesOfThree(w: nat) returns (b: nat)
    ensures b == Increment(w)
  {
    var b0 := OddLow(w);
    b := b0;
    while b % 3 == 0
      invariant b == b0 || (b0 % 3 == 0 && b == (b0 + 2) % 65536)
      decreases b % 3 == 0
    {
      b := (b + 2) % 65536;
    }
  }

  // The upward search for an exponent prime to RU_N - 1, wrapping at RU_N.
  function Search(j: nat): (r: nat)
    requires j < RU_N
    ensures PrimeToOrder(r) && r < RU_N
    decreases if j <= 1 then 1 - j else RU_N + 1 - j
  {
    if PrimeToOrder(j) then j else Search((j + 1) % RU_N)
  }

  method FindExponent(j0: nat) returns (j: nat)
    requires j0 < RU_N
    ensures j == Search(j0)
  {
    j := j0;
    while !PrimeToOrder(j)
      invariant j < RU_N && Search(j) == Search(j0)
      decreases if j <= 1 then 1 - j else RU_N + 1 - j
    {
      j := (j + 1) % RU_N;
    }
  }

  function InitGen(s: Gen, e: Entropy): Gen
    requires ValidEntropy(e)
  {
    s.(x := e.x,
       seed := SeedHigh(e.seedWord),
       seed2 := SeedLow(e.seedWord),
       b := Increment(e.lcgWord),
       a := Pow(RU_AGEN, EvenHigh(e.lcgWord)) % RU_M,
       g := Pow(RU_GEN, Search(e.j)) % RU_N,
       counter := 0,
       prf := if s.prf.Some? || e.mallocOk then Some(e.prf) else None,
       reseed := e.now + RU_OUT,
       msb := if s.msb == MSB then 0 else MSB)
  }

  predicate Reseeds(s: Gen, i: Input) {
    s.counter >= RU_MAX || i.now > s.reseed || i.pid != s.pid
  }

  // The state a call works on: reseeded if need be.
  function Ready(s: Gen, i: Input): Gen
    requires ValidInput(i)
  {
    if Reseeds(s, i) then InitGen(s, i.entropy).(pid := i.pid) else s
  }

  function Next(s: Gen, i: Input): Gen
    requires ValidInput(i)
  {
    var r := Ready(s, i);
    r.(x := Step(r.a, r.b, r.x), counter := r.counter + 1)
  }

  // The id a call returns, read off the state it leaves behind.
  function Id(s: Gen): nat
    requires ValidKey(s.prf)
  {
    Permuted(s.prf, Xor(s.seed, Pow(s.g, s.seed2 + s.x) % RU_N)) + s.msb
  }

  ghost predicate IsGenerator(g: nat) {
    exists j: nat :: PrimeToOrder(j) && g == Pow(RU_GEN, j) % RU_N
  }

  // What holds of every seeded state.
  ghost predicate Seeded(s: Gen) {
    && s.x < RU_M && s.seed < 32768 && s.seed2 < 32768
    && s.a < RU_M && s.b < 65536 && GoodLcg(s.a, s.b)
    && IsGenerator(s.g) && s.g < RU_N
    && s.counter <= RU_MAX
    && (s.msb == 0 || s.msb == MSB)
    && ValidKey(s.prf)
    && s.pid > 0
  }

  ghost predicate Valid(s: Gen) {
    s == ZERO || Seeded(s)
  }

  lemma {:induction false} MultiplierIsOneModTwelve(k: nat)
    ensures (Pow(RU_AGEN, k * 2) % RU_M) % 12 == 1
  {
    PowSquare(RU_AGEN, k);
    UnitBase(RU_AGEN * RU_AGEN, k, 12);
    assert k * 2 == 2 * k;
    ReduceTwice(Pow(RU_AGEN, k * 2));
  }

  // 12 divides RU_M, so reducing modulo RU_M first does no harm.
  lemma {:induction false} ReduceTwice(p: nat)
    ensures (p % RU_M) % 12 == p % 12
  {
  }

  lemma {:induction false} InitSeeds(s: Gen, e: Entropy, pid: int)
    requires Valid(s) && ValidEntropy(e) && pid > 0
    ensures Seeded(InitGen(s, e).(pid := pid))
    ensures InitGen(s, e).msb != s.msb
  {
    MultiplierIsOneModTwelve((e.lcgWord / 65536) / 2);
    assert PrimeToOrder(Search(e.j));
  }

  lemma {:induction false} NextValid(s: Gen, i: Input)
    requires Valid(s) && ValidInput(i)
    ensures Seeded(Next(s, i))
    ensures Reseeds(s, i) ==> Next(s, i).msb != s.msb
  {
    if Reseeds(s, i) { InitSeeds(s, i.entropy, i.pid); }
  }

  /*** The static variables and the two functions that update them ***/

  // A call reseeds after 30000 calls, when the time is up, and in another process, and only then.
  lemma {:induction false} WhenReseeded(s: Gen, i: Input)
    requires Valid(s) && ValidInput(i)
    ensures var t := Next(s, i);
            if s.counter >= 30000 || i.now > s.reseed || i.pid != s.pid
            then t.counter == 1 && t.reseed == i.entropy.now + 180 && t.pid == i.pid && t.msb != s.msb
            else t.counter == s.counter + 1 && t.reseed == s.reseed && t.pid == s.pid && t.msb == s.msb
  {
    hide Pow, Search, Increment, Step;
  }

  class IdGenerator {
    var x: nat
    var seed: nat
    var seed2: nat
    var a: nat
    var b: nat
    var g: nat
    var counter: nat
    var msb: nat
    var prf: Option<Prf>
    var reseed: int
    var pid: int

    function State(): Gen
      reads this
    {
      Gen(x, seed, seed2, a, b, g, counter, msb, prf, reseed, pid)
    }

    constructor ()
      ensures State() == ZERO
    {
      x, seed, seed2, a, b, g, counter, msb, prf, reseed, pid := 0, 0, 0, 0, 0, 0, 0, 0, None, 0, 0;
    }

    method InitId(e: Entropy)
      requires Valid(State()) && ValidEntropy(e)
      modifies this
      ensures State() == InitGen(old(State()), e)
    {
      hide Pow, Search, Valid, ValidPrf, EvenHigh, OddLow, SeedHigh, SeedLow, PrimeToOrder, Increment;
      x := e.x;
      seed := SeedHigh(e.seedWord);
      seed2 := SeedLow(e.seedWord);
      a := PMod(RU_AGEN, EvenHigh(e.lcgWord), RU_M);
      b := SkipMultiplesOfThree(e.lcgWord);
      var j := FindExponent(e.j);
      g := PMod(RU_GEN, j, RU_N);
      counter := 0;
      if prf.Some? || e.mallocOk {
        prf := Some(e.prf);
      }
      reseed := e.now + RU_OUT;
      msb := if msb == MSB then 0 else MSB;
    }

    method RandomId(i: Input) returns (r: nat)
      requires Valid(State()) && ValidInput(i)
      modifies this
      ensures Seeded(State())
      ensures State() == Next(old(State()), i)
      ensures r == Id(State())
      ensures if old(counter) >= 30000 || i.now > old(reseed) || i.pid != old(pid)
              then counter == 1 && reseed == i.entropy.now + 180 && pid == i.pid && msb != old(msb)
              else counter == old(counter) + 1 && reseed == old(reseed) && pid == old(pid) && msb == old(msb)
    {
      hide Pow, Xor, InitGen, ValidPrf, IsGenerator, Permuted;
      ghost var s := State();
      NextValid(s, i);
      WhenReseeded(s, i);
      if counter >= RU_MAX || i.now > reseed || i.pid != pid {
        InitId(i.entropy);
        InitSeeds(s, i.entropy, i.pid);
        pid := i.pid;
      }
      assert State() == Ready(s, i) && Seeded(State());
      assert a * x + b <= INT_MAX by {
        MulMono(a, x, RU_M);
        MulMono(RU_M, a, RU_M);
      }
      x := (a * x + b) % RU_M;
      counter := counter + 1;
      assert seed2 + x < 65536;   // pmod's exponent is 16 bits wide
      var v := PMod(g, seed2 + x, RU_N);
      r := Permute(prf, Xor(seed, v));
      r := r + msb;
    }
  }

  /*** Whole runs ***/

  ghost predicate ValidRun(run: seq<Input>) {
    forall k :: 0 <= k < |run| ==> ValidInput(run[k])
  }

  // The state after the first n calls of a process that starts at load time.
  ghost function After(run: seq<Input>, n: nat): Gen
    requires ValidRun(run) && n <= |run|
  {
    if n == 0 then ZERO else Next(After(run, n - 1), run[n - 1])
  }

  lemma {:induction false} AfterIsSeeded(run: seq<Input>, n: nat)
    requires ValidRun(run) && n <= |run|
    ensures Valid(After(run, n)) && (n > 0 ==> Seeded(After(run, n)))
  {
    hide Next, Seeded;
    if n > 0 {
      AfterIsSeeded(run, n - 1);
      NextValid(After(run, n - 1), run[n - 1]);
    }
  }

  // The id returned by call k, counting from 0.
  ghost function Returned(run: seq<Input>, k: nat): nat
    requires ValidRun(run) && k < |run|
  {
    AfterIsSeeded(run, k + 1);
    Id(After(run, k + 1))
  }

  // How many reseeds have happened up to and including call k.
  ghost function Epoch(run: seq<Input>, k: nat): (n: nat)
    requires ValidRun(run) && k < |run|
    ensures n > 0
  {
    if k == 0 then 1
    else Epoch(run, k - 1) + if Reseeds(After(run, k), run[k]) then 1 else 0
  }

  // The first call always reseeds, so that counting from 1 is right.
  lemma {:induction false} FirstCallReseeds(run: seq<Input>)
    requires ValidRun(run) && |run| > 0
    ensures Reseeds(After(run, 0), run[0])
  {
    assert ValidInput(run[0]);
  }

  lemma {:induction false} EpochMonotone(run: seq<Input>, i: nat, j: nat)
    requires ValidRun(run) && i <= j < |run|
    ensures Epoch(run, i) <= Epoch(run, j)
  {
    hide Next, Seeded;
    if i < j { EpochMonotone(run, i, j - 1); }
  }

  // Within an epoch only the generator's position and the counter move.
  lemma {:induction false} SameEpochState(run: seq<Input>, i: nat, j: nat)
    requires ValidRun(run) && i <= j < |run| && Epoch(run, i) == Epoch(run, j)
    ensures After(run, j + 1) == Advance(After(run, i + 1), j - i)
  {
    hide Next, Seeded;
    if i < j {
      EpochMonotone(run, i, j - 1);
      CallStep(run, j);
      SameEpochState(run, i, j - 1);
      AdvanceOnce(After(run, i + 1), j - i - 1);
    }
  }

  // A state after d further calls without a reseed.
  ghost function Advance(s: Gen, d: nat): Gen {
    s.(x := Iterate(s.a, s.b, s.x, d), counter := s.counter + d)
  }

  lemma {:induction false} AdvanceOnce(s: Gen, d: nat)
    ensures Advance(Advance(s, d), 1) == Advance(s, d + 1)
  {
    assert Iterate(s.a, s.b, Iterate(s.a, s.b, s.x, d), 1) == Iterate(s.a, s.b, s.x, d + 1);
  }

  // Call j either reseeds and starts an epoch, or takes one generator step.
  lemma {:induction false} CallStep(run: seq<Input>, j: nat)
    requires ValidRun(run) && 0 < j < |run|
    ensures var s, t := After(run, j), After(run, j + 1);
            if Epoch(run, j) == Epoch(run, j - 1)
            then t == Advance(s, 1)
            else Epoch(run, j) == Epoch(run, j - 1) + 1 && t.msb != s.msb
  {
    hide Next, Seeded, Reseeds, Advance;
    AfterIsSeeded(run, j);
    NextValid(After(run, j), run[j]);
    NextWithoutReseed(After(run, j), run[j]);
  }

  lemma {:induction false} NextWithoutReseed(s: Gen, i: Input)
    requires ValidInput(i)
    ensures !Reseeds(s, i) ==> Next(s, i) == Advance(s, 1)
  {
    hide InitGen;
    assert Iterate(s.a, s.b, s.x, 0) == s.x;
  }

  /*** When an epoch ends ***/

  // Call i starts an epoch.
  ghost predicate Starts(run: seq<Input>, i: nat)
    requires ValidRun(run) && i < |run|
  {
    i == 0 || Epoch(run, i - 1) < Epoch(run, i)
  }

  lemma {:induction false} StartState(run: seq<Input>, i: nat)
    requires ValidRun(run) && i < |run| && Starts(run, i)
    ensures var s := After(run, i + 1);
            s.counter == 1 && s.pid == run[i].pid && s.reseed == run[i].entropy.now + 180
  {
    hide Pow, Search, Increment, Step;
    if i == 0 {
      FirstCallReseeds(run);
    }
    assert Reseeds(After(run, i), run[i]);
  }

  // An epoch goes on exactly for fewer than 30000 calls, 180 seconds, and within one process.
  lemma {:induction false} EpochGoesOn(run: seq<Input>, i: nat, j: nat)
    requires ValidRun(run) && i < j < |run| && Starts(run, i) && Epoch(run, i) == Epoch(run, j - 1)
    ensures Epoch(run, j) == Epoch(run, i) <==> j - i < 30000 && run[j].now <= run[i].entropy.now + 180 && run[j].pid == run[i].pid
  {
    hide After, Iterate;
    StartState(run, i);
    SameEpochState(run, i, j - 1);
  }

  // So all of its calls come from one process, within 180 seconds, and a fork reseeds.
  lemma {:induction false} EpochCalls(run: seq<Input>, i: nat, j: nat)
    requires ValidRun(run) && i < j < |run| && Starts(run, i) && Epoch(run, i) == Epoch(run, j)
    ensures j - i < 30000 && run[j].now <= run[i].entropy.now + 180 && run[j].pid == run[i].pid
  {
    hide Reseeds, After;
    EpochMonotone(run, i, j - 1);
    EpochMonotone(run, j - 1, j);
    EpochGoesOn(run, i, j);
  }

  /*** What a reseed can choose ***/

  // Every start, both seeds, every multiplier 7^2k, every increment prime to 6, every
  // generator and every table are possible outcomes of res_initid.
  lemma {:induction false} EveryChoice(s: Gen, x: nat, seed: nat, seed2: nat, k: nat, b: nat, j: nat, prf: Prf, now: int)
    returns (e: Entropy)
    requires x < RU_M && seed < 32768 && seed2 < 32768 && k < 32768 && ValidPrf(prf)
    requires b < 65536 && b % 2 == 1 && b % 3 != 0 && PrimeToOrder(j) && j < RU_N
    requires s.msb == 0 || s.msb == 0x8000
    ensures ValidEntropy(e)
    ensures InitGen(s, e) == s.(x := x, seed := seed, seed2 := seed2, a := Pow(7, 2 * k) % 31104, b := b, g := Pow(2, j) % 32749,
                                counter := 0, prf := Some(prf), reseed := now + 180, msb := 0x8000 - s.msb)
  {
    hide Pow, ValidPrf, PrimeToOrder, Step;
    e := Entropy(x, seed * 65536 + seed2, 2 * k * 65536 + (b - 1), j, true, prf, now);
    ModUnique(e.seedWord, 65536, seed, seed2);
    ModUnique(e.lcgWord, 65536, 2 * k, b - 1);
    ModUnique(b - 1, 2, (b - 1) / 2, 0);
    ModUnique(2 * k, 2, k, 0);
    ModUnique(e.seedWord, 32768, 2 * seed, seed2);
    ModUnique(seed, 32768, 0, seed);
  }

  // Each part of the state that is drawn matters for the id.
  lemma {:induction false} SeedMatters(s: Gen, seed: nat)
    requires Seeded(s) && seed < 32768 && seed != s.seed
    ensures Id(s.(seed := seed)) != Id(s)
  {
    hide Pow, Permuted, Xor, IsGenerator;
    var v := Pow(s.g, s.seed2 + s.x) % RU_N;
    DistinctSeeds(s.prf, s.seed, seed, v);
  }

  lemma {:induction false} DistinctSeeds(prf: Option<Prf>, u: nat, v: nat, w: nat)
    requires ValidKey(prf) && u < 32768 && v < 32768 && w < 32768 && u != v
    ensures Permuted(prf, Xor(u, w)) != Permuted(prf, Xor(v, w))
  {
    hide Permuted;
    XorCommutes(u, w);
    XorCommutes(v, w);
    DistinctIds(prf, w, u, v);
  }

  lemma {:induction false} Seed2Matters(s: Gen, seed2: nat)
    requires Seeded(s) && s.seed2 < seed2 < 32768 && seed2 - s.seed2 < 32748
    ensures Id(s.(seed2 := seed2)) != Id(s)
  {
    hide Pow, Permuted, Xor;
    var j: nat :| PrimeToOrder(j) && s.g == Pow(RU_GEN, j) % RU_N;
    GeneratorInjective(j, s.g, s.seed2 + s.x, seed2 + s.x);
    DistinctIds(s.prf, s.seed, Pow(s.g, s.seed2 + s.x) % RU_N, Pow(s.g, seed2 + s.x) % RU_N);
  }

  // One reseed flips the top bit.
  lemma {:induction false} NextEpochMsb(run: seq<Input>, i: nat, j: nat)
    requires ValidRun(run) && i <= j < |run| && Epoch(run, j) == Epoch(run, i) + 1
    ensures After(run, i + 1).msb != After(run, j + 1).msb
  {
    hide Next, Seeded;
    CallStep(run, j);
    if i < j {
      if Epoch(run, j - 1) == Epoch(run, j) {
        NextEpochMsb(run, i, j - 1);
      } else {
        SameEpochState(run, i, j - 1);
      }
    }
  }

  lemma {:induction false} IdRange(s: Gen)
    requires Seeded(s)
    ensures Id(s) - s.msb < 32768 && Id(s) < 65536
  {
    var v := Pow(s.g, s.seed2 + s.x) % RU_N;
    Widths();
    XorRange(s.seed, v, 15);
  }

  // States of one epoch at different generator positions yield different ids.
  lemma {:induction false} PositionDeterminesId(s: Gen, t: Gen)
    requires Seeded(s) && Seeded(t)
    requires t == s.(x := t.x, counter := t.counter)
    requires s.x != t.x
    ensures Id(s) != Id(t)
  {
    hide Pow, Permuted, Xor;
    var j: nat :| PrimeToOrder(j) && s.g == Pow(RU_GEN, j) % RU_N;
    var e, f := s.seed2 + s.x, s.seed2 + t.x;
    if e < f { GeneratorInjective(j, s.g, e, f); } else { GeneratorInjective(j, s.g, f, e); }
    DistinctIds(s.prf, s.seed, Pow(s.g, e) % RU_N, Pow(s.g, f) % RU_N);
  }

  lemma {:induction false} DistinctIds(prf: Option<Prf>, seed: nat, v: nat, w: nat)
    requires ValidKey(prf) && seed < 32768 && v < 32768 && w < 32768 && v != w
    ensures Permuted(prf, Xor(seed, v)) != Permuted(prf, Xor(seed, w))
  {
    Widths();
    XorRange(seed, v, 15);
    XorRange(seed, w, 15);
    XorCancels(seed, v);
    XorCancels(seed, w);
    PermuteBijective(prf, Xor(seed, v));
    PermuteBijective(prf, Xor(seed, w));
  }

  // The promise of the file: two calls of one epoch never return the same id,
  // an epoch has at most RU_MAX calls, and neighbouring epochs share no id.
  lemma {:induction false} IdsDoNotRepeat(run: seq<Input>, i: nat, j: nat)
    requires ValidRun(run) && i < j < |run|
    requires Epoch(run, j) <= Epoch(run, i) + 1
    ensures Returned(run, i) != Returned(run, j)
    ensures Epoch(run, i) == Epoch(run, j) ==> j - i < RU_MAX
  {
    hide After, Epoch, Pow, Permuted, IsGenerator, Xor;
    var s, t := After(run, i + 1), After(run, j + 1);
    AfterIsSeeded(run, i + 1);
    AfterIsSeeded(run, j + 1);
    EpochMonotone(run, i, j);
    if Epoch(run, i) == Epoch(run, j) {
      SameEpochState(run, i, j);
      CounterPositive(run, i);
      FullPeriod(s.a, s.b, s.x, 0, j - i);
      PositionDeterminesId(s, t);
    } else {
      NextEpochMsb(run, i, j);
      IdRange(s);
      IdRange(t);
    }
  }

  lemma {:induction false} CounterPositive(run: seq<Input>, i: nat)
    requires ValidRun(run) && i < |run|
    ensures After(run, i + 1).counter > 0
  {
  }
}
