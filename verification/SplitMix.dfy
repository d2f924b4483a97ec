/** The seeded generator of the sampler: SplitMix64 and the bounded draw built on it
    (Lemire's multiply-shift with rejection). */
module SplitMix {
  import opened Wrappers
  import opened Words
  import opened Counting
  import opened Lemire

  const GAMMA: u64 := 0x9E37_79B9_7F4A_7C15
  const MIX1: u64 := 0xBF58_476D_1CE4_E5B9
  const MIX2: u64 := 0x94D0_49BB_1331_11EB

  // Inverses of the three odd constants modulo 2^64.
  const GAMMA_INV: u64 := 0xF1DE_83E1_9937_733D
  const MIX1_INV: u64 := 0x96DE_1B17_3F11_9089
  const MIX2_INV: u64 := 0x3196_42B2_D24D_8EC3

  // ---------- The generator ----------

  function Advance(state: u64): u64 { (state + GAMMA) % TWO64 }

  function Mul1(z: u64): u64 { (z * MIX1) % TWO64 }

  function Mul2(z: u64): u64 { (z * MIX2) % TWO64 }

  function Unmul1(z: u64): u64 { (z * MIX1_INV) % TWO64 }

  function Unmul2(z: u64): u64 { (z * MIX2_INV) % TWO64 }

  lemma MulInverses(z: u64)
    ensures Unmul1(Mul1(z)) == z && Mul1(Unmul1(z)) == z
    ensures Unmul2(Mul2(z)) == z && Mul2(Unmul2(z)) == z
  {
    ModInverse(z, MIX1, MIX1_INV, TWO64);
    ModInverse(z, MIX1_INV, MIX1, TWO64);
    ModInverse(z, MIX2, MIX2_INV, TWO64);
    ModInverse(z, MIX2_INV, MIX2, TWO64);
  }

  function Scramble(state: u64): u64 {
    XorShift(Mul2(XorShift(Mul1(XorShift(state, 30)), 27)), 31)
  }

  function Unscramble(w: u64): u64 {
    UnXorShift(Unmul1(UnXorShift(Unmul2(UnXorShift(w, 31)), 27)), 30)
  }

  lemma UnscrambleScramble(w: u64)
    ensures Unscramble(Scramble(w)) == w
  {
    var x1 := XorShift(w, 30);
    var x2 := XorShift(Mul1(x1), 27);
    XorShiftBijective(w, 30);
    XorShiftBijective(Mul1(x1), 27);
    XorShiftBijective(Mul2(x2), 31);
    MulInverses(x1);
    MulInverses(x2);
  }

  lemma ScrambleUnscramble(w: u64)
    ensures Scramble(Unscramble(w)) == w
  {
    var y2 := UnXorShift(w, 31);
    var y1 := UnXorShift(Unmul2(y2), 27);
    XorShiftBijective(w, 31);
    XorShiftBijective(Unmul2(y2), 27);
    XorShiftBijective(Unmul1(y1), 30);
    MulInverses(y2);
    MulInverses(y1);
  }

  /** The mixer is a permutation of the 64-bit words: every word is the image of exactly one. */
  lemma ScrambleIsPermutation(w: u64)
    ensures Scramble(Unscramble(w)) == w
    ensures forall s: u64 :: Scramble(s) == w <==> s == Unscramble(w)
  {
    ScrambleUnscramble(w);
    forall s: u64 | Scramble(s) == w ensures s == Unscramble(w) {
      UnscrambleScramble(s);
    }
  }

  /** The state after `k` calls. */
  ghost function StateAfter(state: u64, k: nat): u64 {
    if k == 0 then state else Advance(StateAfter(state, k - 1))
  }

  /** The word returned by the `k`-th call. */
  ghost function Output(state: u64, k: nat): u64 { Scramble(StateAfter(state, k)) }

  lemma ModPlus(x: int, y: int, n: int)
    requires n > 0
    ensures (x % n + y) % n == (x + y) % n
  {
    assert x + y == (x % n + y) + (x / n) * n;
    DivUnique(x + y, n, (x % n + y) / n + x / n, (x % n + y) % n);
  }

  lemma {:induction false} StateAfterClosed(state: u64, k: nat)
    ensures StateAfter(state, k) == (state + k * GAMMA) % TWO64
  {
    if k == 0 {
    } else {
      StateAfterClosed(state, k - 1);
      ModPlus(state + (k - 1) * GAMMA, GAMMA, TWO64);
      assert state + (k - 1) * GAMMA + GAMMA == state + k * GAMMA;
    }
  }

  lemma {:induction false} StateAfterAdd(state: u64, j: nat, k: nat)
    ensures StateAfter(StateAfter(state, j), k) == StateAfter(state, j + k)
  {
    if k == 0 {
    } else {
      StateAfterAdd(state, j, k - 1);
    }
  }

  /** Fewer than 2^64 calls never come back to the state they started from. */
  lemma NoShortCycle(state: u64, d: nat)
    requires 0 < d < TWO64
    ensures StateAfter(state, d) != state
  {
    StateAfterClosed(state, d);
    StepsDiffer(state, d, GAMMA, GAMMA_INV, TWO64);
  }

  /** Any 2^64 consecutive calls return pairwise different words. */
  lemma OutputsDistinct(state: u64, i: nat, j: nat)
    requires i < j < i + TWO64
    ensures Output(state, i) != Output(state, j)
  {
    hide Scramble, Unscramble;
    UnscrambleScramble(StateAfter(state, i));
    UnscrambleScramble(StateAfter(state, j));
    StateAfterAdd(state, i, j - i);
    NoShortCycle(StateAfter(state, i), j - i);
  }

  /** Full period: from any state, every word is returned by exactly one of the next 2^64 calls. */
  lemma FullPeriod(state: u64, w: u64) returns (k: nat)
    ensures 1 <= k <= TWO64 && Output(state, k) == w
    ensures forall j: nat :: 1 <= j <= TWO64 && Output(state, j) == w ==> j == k
  {
    hide Scramble, Unscramble;
    var target := Unscramble(w);
    k := StepsBetween(state, target, GAMMA, GAMMA_INV, TWO64);
    StateAfterClosed(state, k);
    ScrambleIsPermutation(w);
    if k == 0 {
      k := TWO64;
      StateAfterClosed(state, TWO64);
      ModOfMultiple(state, GAMMA, TWO64);
    }
    forall j: nat | 1 <= j <= TWO64 && Output(state, j) == w ensures j == k {
      if j < k {
        OutputsDistinct(state, j, k);
      } else if k < j {
        OutputsDistinct(state, k, j);
      }
    }
  }

  // ---------- The bounded draw ----------

  /** `bound.wrapping_neg() % bound`. */
  function Threshold(bound: u64): u64
    requires bound > 0
  {
    ((TWO64 - bound) % TWO64) % bound
  }

  lemma ThresholdIsRemainder(bound: u64)
    requires bound > 0
    ensures Threshold(bound) == TWO64 % bound
  {
    var q := TWO64 / bound;
    assert TWO64 - bound == (q - 1) * bound + TWO64 % bound;
    DivUnique(TWO64 - bound, bound, q - 1, TWO64 % bound);
  }

  /** The word `x` passes the rejection test for `bound`. */
  predicate Accepted(x: u64, bound: u64)
    requires bound > 0
  {
    (x * bound) % TWO64 >= Threshold(bound)
  }

  /** The number an accepted word stands for: the upper half of the 128-bit product. */
  function High(x: u64, bound: u64): (r: u64)
    requires bound > 0
    ensures r < bound
  {
    QuotientBelow(x, bound, TWO64);
    (x * bound) / TWO64
  }

  /** The draw of the program is Lemire's draw for n = 2^64. */
  lemma IsLemire(x: u64, bound: u64)
    requires bound > 0
    ensures Accepted(x, bound) == Kept(x, bound, TWO64)
    ensures High(x, bound) == Quotient(x, bound, TWO64)
  {
    ThresholdIsRemainder(bound);
  }

  /** All words that are accepted and give `r`. */
  ghost function WordsFor(bound: u64, r: u64): set<int>
    requires bound > 0
  {
    set x: int | x in Range(0, TWO64) && Accepted(x, bound) && High(x, bound) == r
  }

  ghost function RejectedWords(bound: u64): set<int>
    requires bound > 0
  {
    set x: int | x in Range(0, TWO64) && !Accepted(x, bound)
  }

  /** Lemire's draw is unbiased: every r below the bound is given by exactly
      floor(2^64 / bound) of the 64-bit words. */
  lemma Unbiased(bound: u64, r: u64)
    requires 0 < bound && r < bound
    ensures |WordsFor(bound, r)| == TWO64 / bound
  {
    KeptForSize(bound, r, TWO64);
    hide Accepted, High, Kept, Quotient;
    forall x | x in Range(0, TWO64)
      ensures x in WordsFor(bound, r) <==> x in KeptFor(bound, r, TWO64)
    {
      IsLemire(x, bound);
    }
    assert WordsFor(bound, r) == KeptFor(bound, r, TWO64);
  }

  /** Exactly 2^64 mod bound words are rejected. */
  lemma RejectedCount(bound: u64)
    requires bound > 0
    ensures |RejectedWords(bound)| == TWO64 % bound
  {
    RejectedSize(bound, TWO64);
    hide Accepted, High, Kept, Quotient;
    forall x | x in Range(0, TWO64)
      ensures x in RejectedWords(bound) <==> x in Rejected(bound, TWO64)
    {
      IsLemire(x, bound);
    }
    assert RejectedWords(bound) == Rejected(bound, TWO64);
  }

  /** The `k`-th call is the first one whose word is accepted. */
  ghost predicate FirstAccepted(state: u64, bound: u64, k: nat)
    requires bound > 0
  {
    && 1 <= k
    && Accepted(Output(state, k), bound)
    && forall j: nat :: 1 <= j < k ==> !Accepted(Output(state, j), bound)
  }

  /** The words returned by the first `n` calls. */
  ghost function Outputs(state: u64, n: nat): set<int> {
    if n == 0 then {} else Outputs(state, n - 1) + {Output(state, n)}
  }

  lemma {:induction false} OutputsMember(state: u64, n: nat, w: int)
    ensures w in Outputs(state, n) <==> exists j: nat :: 1 <= j <= n && w == Output(state, j)
  {
    hide Output;
    if n == 0 {
    } else {
      OutputsMember(state, n - 1, w);
    }
  }

  /** The first `n` <= 2^64 calls return `n` different words. */
  lemma {:induction false} OutputsSize(state: u64, n: nat)
    requires n <= TWO64
    ensures |Outputs(state, n)| == n
  {
    hide Output;
    if n == 0 {
    } else {
      OutputsSize(state, n - 1);
      OutputsMember(state, n - 1, Output(state, n));
      forall j: nat | 1 <= j <= n - 1 ensures Output(state, j) != Output(state, n) {
        OutputsDistinct(state, j, n);
      }
    }
  }

  lemma RejectedRun(state: u64, bound: u64, k: nat, t: int)
    requires bound > 0 && |RejectedWords(bound)| == t < TWO64
    requires forall j: nat :: 1 <= j <= k ==> !Accepted(Output(state, j), bound)
    ensures k <= t
  {
    hide Accepted, Output;
    var n := if k <= t then k else t + 1;
    OutputsSize(state, n);
    forall w | w in Outputs(state, n) ensures w in RejectedWords(bound) {
      OutputsMember(state, n, w);
    }
    SubsetSize(Outputs(state, n), RejectedWords(bound));
  }

  /** 2^64 mod bound + 1 calls in a row cannot all be rejected. */
  lemma SomeCallAccepted(state: u64, bound: u64, k: nat)
    requires bound > 0
    requires forall j: nat :: 1 <= j <= k ==> !Accepted(Output(state, j), bound)
    ensures k <= TWO64 % bound
  {
    RejectedCount(bound);
    hide *;
    RejectedRun(state, bound, k, TWO64 % bound);
  }

  lemma RejectedAtMost(state: u64, bound: u64, k: nat)
    requires bound > 0
    requires forall j: nat :: 1 <= j <= k ==> !Accepted(Output(state, j), bound)
    ensures k <= Threshold(bound)
  {
    SomeCallAccepted(state, bound, k);
    ThresholdIsRemainder(bound);
  }

  lemma {:induction false} CallsExist(state: u64, bound: u64, k: nat)
    requires bound > 0
    requires forall j: nat :: 1 <= j <= k ==> !Accepted(Output(state, j), bound)
    ensures exists n: nat :: FirstAccepted(state, bound, n) && n <= Threshold(bound) + 1
    decreases Threshold(bound) + 1 - k
  {
    hide Accepted, Output, Threshold;
    RejectedAtMost(state, bound, k);
    if Accepted(Output(state, k + 1), bound) {
      assert FirstAccepted(state, bound, k + 1);
    } else {
      CallsExist(state, bound, k + 1);
    }
  }

  /** How many calls of the generator one bounded draw makes. */
  ghost function Calls(state: u64, bound: u64): (k: nat)
    requires bound > 0
    ensures FirstAccepted(state, bound, k)
    ensures k <= TWO64 % bound + 1
  {
    ThresholdIsRemainder(bound);
    CallsExist(state, bound, 0);
    var k: nat :| FirstAccepted(state, bound, k) && k <= TWO64 % bound + 1;
    k
  }

  /** The result of one bounded draw, and the state it leaves. */
  ghost function Draw(state: u64, bound: u64): (r: u64)
    requires bound > 0
    ensures r < bound
  {
    High(Output(state, Calls(state, bound)), bound)
  }

  ghost function StateAfterDraw(state: u64, bound: u64): u64
    requires bound > 0
  {
    StateAfter(state, Calls(state, bound))
  }

  /** The seeds whose first call is accepted and gives `r`. */
  ghost function SeedsFor(bound: u64, r: u64): set<int>
    requires bound > 0
  {
    set s: int | s in Range(0, TWO64) && Calls(s, bound) == 1 && Draw(s, bound) == r
  }

  /** The one seed whose first output is `w`. */
  ghost function SeedOf(w: u64): u64 { (Unscramble(w) - GAMMA) % TWO64 }

  lemma AdvanceInverse(s: u64, t: u64)
    ensures Advance(s) == t <==> s == (t - GAMMA) % TWO64
  {
  }

  lemma SeedOfOutput(s: u64, w: u64)
    ensures Output(s, 1) == w <==> s == SeedOf(w)
  {
    assert StateAfter(s, 1) == Advance(StateAfter(s, 0));
    assert Output(s, 1) == Scramble(Advance(s));
    assert SeedOf(w) == (Unscramble(w) - GAMMA) % TWO64;
    hide *;
    ScrambleIsPermutation(w);
    AdvanceInverse(s, Unscramble(w));
  }

  lemma FirstIsUnique(state: u64, bound: u64, i: nat, j: nat)
    requires bound > 0 && FirstAccepted(state, bound, i) && FirstAccepted(state, bound, j)
    ensures i == j
  {
  }

  lemma FirstCallDraw(s: u64, bound: u64)
    requires bound > 0
    ensures Calls(s, bound) == 1 <==> Accepted(Output(s, 1), bound)
    ensures Calls(s, bound) == 1 ==> Draw(s, bound) == High(Output(s, 1), bound)
  {
    hide Accepted, High, Output;
    if Accepted(Output(s, 1), bound) {
      assert FirstAccepted(s, bound, 1);
      FirstIsUnique(s, bound, 1, Calls(s, bound));
    }
  }

  lemma SeedsForMember(bound: u64, r: u64, s: u64)
    requires bound > 0
    ensures s in SeedsFor(bound, r) <==> Output(s, 1) in WordsFor(bound, r)
  {
    hide Accepted, High, Output, Calls, Draw;
    FirstCallDraw(s, bound);
  }

  lemma SeedsBijection(seeds: set<int>, words: set<int>, f: int -> int)
    requires forall w :: w in words ==> 0 <= w < TWO64
    requires forall s :: s in seeds ==> 0 <= s < TWO64
    requires forall w: int :: 0 <= w < TWO64 ==> f(w) == SeedOf(w)
    requires forall s: u64 :: s in seeds <==> Output(s, 1) in words
    ensures |seeds| == |words|
  {
    hide SeedOf, Output;
    forall w, w' | w in words && w' in words && f(w) == f(w') ensures w == w' {
      SeedOfOutput(SeedOf(w), w);
      SeedOfOutput(SeedOf(w), w');
    }
    ImageSize(words, f);
    forall s | s in seeds ensures s in Image(words, f) {
      SeedOfOutput(s, Output(s, 1));
      assert f(Output(s, 1)) == s;
    }
    forall s | s in Image(words, f) ensures s in seeds {
      var w :| w in words && f(w) == s;
      SeedOfOutput(s, w);
    }
    assert seeds == Image(words, f);
  }

  /** Over all 2^64 seeds, the first call is accepted with result r for exactly
      floor(2^64 / bound) of them, whatever r is. */
  lemma UnbiasedOverSeeds(bound: u64, r: u64)
    requires 0 < bound && r < bound
    ensures |SeedsFor(bound, r)| == TWO64 / bound
  {
    Unbiased(bound, r);
    var f := (w: int) => if 0 <= w < TWO64 then SeedOf(w) else 0;
    assert forall w: int :: 0 <= w < TWO64 ==> f(w) == SeedOf(w) by { hide *; }
    assert forall w :: w in WordsFor(bound, r) ==> 0 <= w < TWO64 by { hide Accepted, High; }
    assert forall s :: s in SeedsFor(bound, r) ==> 0 <= s < TWO64 by { hide Calls, Draw; }
    hide *;
    forall s: u64 ensures s in SeedsFor(bound, r) <==> Output(s, 1) in WordsFor(bound, r) {
      SeedsForMember(bound, r, s);
    }
    SeedsBijection(SeedsFor(bound, r), WordsFor(bound, r), f);
  }

  class SplitMix64 {
    var state: u64

    constructor (seed: u64)
      ensures state == seed
    {
      state := seed;
    }

    method NextU64() returns (w: u64)
      modifies this
      ensures state == StateAfter(old(state), 1)
      ensures w == Output(old(state), 1)
    {
      state := (state + GAMMA) % TWO64;
      var z: u64 := state;
      z := (XorShift(z, 30) * MIX1) % TWO64;
      z := (XorShift(z, 27) * MIX2) % TWO64;
      assert StateAfter(old(state), 1) == Advance(StateAfter(old(state), 0));
      w := XorShift(z, 31);
    }

    /** A uniform integer below `bound`. It stops after at most (2^64 mod bound) + 1 calls
        of the generator, whatever the state. */
    method Below(bound: u64) returns (r: u64)
      requires bound > 0
      modifies this
      ensures r == Draw(old(state), bound) && r < bound
      ensures state == StateAfterDraw(old(state), bound)
    {
      hide Scramble, High;
      var threshold := ((TWO64 - bound) % TWO64) % bound;
      ghost var calls: nat := 0;
      assert 0 <= TWO64 % bound;
      while true
        invariant state == StateAfter(old(state), calls)
        invariant forall j: nat :: 1 <= j <= calls ==> !Accepted(Output(old(state), j), bound)
        invariant calls <= TWO64 % bound
        decreases TWO64 % bound - calls
      {
        StateAfterAdd(old(state), calls, 1);
        var w := NextU64();
        calls := calls + 1;
        var m := w * bound;
        if m % TWO64 >= threshold {
          assert FirstAccepted(old(state), bound, calls);
          FirstIsUnique(old(state), bound, calls, Calls(old(state), bound));
          IsLemire(w, bound);
          return m / TWO64;
        }
        SomeCallAccepted(old(state), bound, calls);
      }
    }
  }
}
