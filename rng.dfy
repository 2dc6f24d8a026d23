/**
 * `SimpleRng` of src/wasm/src/utils.rs: a linear congruential generator
 * over one u64 state, for patterns that need reproducible randomness.
 */
module Rng {
  import opened Unsigned

  const MULTIPLIER: u64 := 1103515245
  const INCREMENT: u64 := 12345

  /** The inverse of MULTIPLIER modulo 2^64, which exists because MULTIPLIER is odd. */
  const INVERSE: u64 := 17850689345304521573

  /** The state after one draw: state * 1103515245 + 12345, each operation wrapping. */
  function NextState(s: u64): u64 {
    WrappingAdd(WrappingMul(s, MULTIPLIER), INCREMENT)
  }

  /** Wrapping after each operation is wrapping once at the end. */
  lemma NextStateFormula(s: u64)
    ensures NextState(s) as int == (s as int * 1103515245 + 12345) % U64_MODULUS
  {
    var p := s as int * 1103515245;
    assert WrappingMul(s, MULTIPLIER) as int == p % U64_MODULUS;
    ModAddBack(p, 12345);
  }

  lemma ModAddBack(a: int, b: int)
    requires a >= 0 && b >= 0
    ensures (a % U64_MODULUS + b) % U64_MODULUS == (a + b) % U64_MODULUS
  {
    var q := a / U64_MODULUS;
    assert a == q * U64_MODULUS + a % U64_MODULUS;
  }

  /** Undoes one draw: (t - 12345) * INVERSE modulo 2^64. */
  function PrevState(t: u64): u64 {
    (((t as int - 12345) % U64_MODULUS * INVERSE as int) % U64_MODULUS) as u64
  }

  /** Every state has exactly one predecessor, so the generator never merges two streams. */
  lemma PrevNext(s: u64)
    ensures PrevState(NextState(s)) == s
  {
    NextStateFormula(s);
    var p := s as int * 1103515245;
    var t := NextState(s) as int;
    var d := (t - 12345) % U64_MODULUS;
    assert d == p % U64_MODULUS by {
      ModAddBack(p, 12345);
      assert t == (p + 12345) % U64_MODULUS;
      SubMod(p + 12345, 12345);
    }
    assert (d * INVERSE as int) % U64_MODULUS == (p * INVERSE as int) % U64_MODULUS by {
      MulMod(p, INVERSE as int);
    }
    var k := (1103515245 * INVERSE as int) / U64_MODULUS;
    assert 1103515245 * INVERSE as int == 1 + k * U64_MODULUS;
    assert p * INVERSE as int == s as int + (s as int * k) * U64_MODULUS;
    AddMultiple(s as int, s as int * k);
  }

  lemma SubMod(a: int, b: int)
    ensures (a % U64_MODULUS - b) % U64_MODULUS == (a - b) % U64_MODULUS
  {
    var q := a / U64_MODULUS;
    assert a == q * U64_MODULUS + a % U64_MODULUS;
    AddMultiple(a % U64_MODULUS - b, q);
  }

  lemma MulMod(a: int, b: int)
    ensures ((a % U64_MODULUS) * b) % U64_MODULUS == (a * b) % U64_MODULUS
  {
    var q := a / U64_MODULUS;
    assert a == q * U64_MODULUS + a % U64_MODULUS;
    assert a * b == (a % U64_MODULUS) * b + (q * b) * U64_MODULUS;
    AddMultiple((a % U64_MODULUS) * b, q * b);
  }

  lemma AddMultiple(a: int, k: int)
    ensures (a + k * U64_MODULUS) % U64_MODULUS == a % U64_MODULUS
  {
  }

  /** Distinct states lead to distinct next states. */
  lemma NextStateInjective(a: u64, b: u64)
    ensures NextState(a) == NextState(b) ==> a == b
  {
    PrevNext(a);
    PrevNext(b);
  }

  /** The state after k draws. */
  function Advance(s: u64, k: nat): u64
    decreases k
  {
    if k == 0 then s else Advance(NextState(s), k - 1)
  }

  /** The first k values drawn from a generator in state s. */
  function Outputs(s: u64, k: nat): (r: seq<u64>)
    ensures |r| == k
    decreases k
  {
    if k == 0 then [] else [NextState(s)] + Outputs(NextState(s), k - 1)
  }

  /** The i-th value drawn is the state after i + 1 draws. */
  lemma {:induction false} OutputsAt(s: u64, k: nat, i: nat)
    requires i < k
    ensures Outputs(s, k)[i] == Advance(s, i + 1)
    decreases i
  {
    if i > 0 {
      OutputsAt(NextState(s), k - 1, i - 1);
    }
  }

  /** Drawing a + b values is drawing a values and then b more from where they left off. */
  lemma {:induction false} OutputsSplit(s: u64, a: nat, b: nat)
    ensures Outputs(s, a + b) == Outputs(s, a) + Outputs(Advance(s, a), b)
    decreases a
  {
    if a > 0 {
      OutputsSplit(NextState(s), a - 1, b);
    }
  }

  class SimpleRng {
    var seed: u64

    /** `SimpleRng::new(seed)`: the seed is the initial state, unchanged. */
    constructor(seed: u64)
      ensures this.seed == seed
    {
      this.seed := seed;
    }

    /** `next`: advance the state one step and return the new state. */
    method Next() returns (r: u64)
      modifies this
      ensures seed == NextState(old(seed)) && r == seed
    {
      seed := WrappingAdd(WrappingMul(seed, MULTIPLIER), INCREMENT);
      r := seed;
    }

    /** `next_float` up to the division by 1000: one draw, reduced modulo 1000. */
    method NextFloatNumerator() returns (k: u64)
      modifies this
      ensures seed == NextState(old(seed))
      ensures k as int == seed as int % 1000 && k < 1000
    {
      var r := Next();
      k := r % 1000;
    }
  }

  /** k successive `next` calls return the first k outputs of the stream. */
  method Draw(rng: SimpleRng, k: nat) returns (values: seq<u64>)
    modifies rng
    ensures values == Outputs(old(rng.seed), k) && rng.seed == Advance(old(rng.seed), k)
  {
    values := [];
    ghost var start := rng.seed;
    for i := 0 to k
      invariant values == Outputs(start, i) && rng.seed == Advance(start, i)
    {
      var r := rng.Next();
      OutputsSplit(start, i, 1);
      values := values + [r];
      AdvanceSplit(start, i);
    }
  }

  lemma {:induction false} AdvanceSplit(s: u64, k: nat)
    ensures Advance(s, k + 1) == NextState(Advance(s, k))
    decreases k
  {
    if k > 0 {
      AdvanceSplit(NextState(s), k - 1);
    }
  }

  /** Two generators built from the same seed produce the same k values. */
  method SameSeedSameStream(seed: u64, k: nat) returns (first: seq<u64>, second: seq<u64>)
    ensures first == second == Outputs(seed, k)
  {
    var a := new SimpleRng(seed);
    var b := new SimpleRng(seed);
    first := Draw(a, k);
    second := Draw(b, k);
  }
}
