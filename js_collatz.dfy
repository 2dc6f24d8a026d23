/**
 * The JavaScript fallback of src/components/CollatzVisualizer.js:
 * `calculateCollatzSequence` and `findMaxSequenceInRange`.  JavaScript
 * numbers are modelled as exact integers; the overflow marker `Infinity` is
 * its own element.  As on the Rust side, the loops are proved for the runs
 * that end within a ghost step budget `fuel`.
 */
module JsCollatz {
  import opened Unsigned
  import WasmCollatz

  /** `Number.MAX_SAFE_INTEGER`, 2^53 - 1. */
  const MAX_SAFE_INTEGER: int := 0x1F_FFFF_FFFF_FFFF

  /** An element of the returned array: a number, or `Infinity` after an overflow. */
  datatype Elem = Num(value: nat) | Overflow

  /**
   * `current > Number.MAX_SAFE_INTEGER / 3` for an integer `current`: the
   * quotient is not a whole number, so this is 3 * current > MAX_SAFE_INTEGER.
   */
  predicate Breaks(c: nat) {
    3 * c > MAX_SAFE_INTEGER
  }

  /**
   * The guard is tight: it lets c through iff 3c + 1 is still a safe
   * integer, and it is the source's comparison with the real quotient.
   */
  lemma GuardIsExact(c: nat)
    ensures !Breaks(c) <==> 3 * c + 1 <= MAX_SAFE_INTEGER
    ensures Breaks(c) <==> c as real > MAX_SAFE_INTEGER as real / 3.0
  {
  }

  /** One Collatz step on a number. */
  function Next(c: nat): nat {
    if c % 2 == 0 then c / 2 else 3 * c + 1
  }

  /** Where the loop ends without going on: at 1, or at an odd value the guard stops. */
  predicate Stops(c: nat) {
    c == 1 || (c % 2 == 1 && Breaks(c))
  }

  /** The loop from c ends within `fuel` steps. */
  predicate Halts(c: nat, fuel: nat)
    decreases fuel
  {
    Stops(c) || (fuel > 0 && Halts(Next(c), fuel - 1))
  }

  /** What the loop appends after value c: `Infinity` when the guard stops c, else the step. */
  predicate Follows(c: nat, e: Elem) {
    if c % 2 == 1 && Breaks(c) then e == Overflow else c != 1 && e == Num(Next(c))
  }

  /**
   * An array that starts at c, holds numbers everywhere but possibly at the
   * end, and appends to each number what the loop appends after it.
   */
  predicate Walk(c: nat, s: seq<Elem>) {
    |s| >= 1 && s[0] == Num(c)
    && forall i :: 0 <= i < |s| - 1 ==> s[i].Num? && Follows(s[i].value, s[i + 1])
  }

  /** The array ends where the loop does: at 1, or with `Infinity` after the value the guard stopped. */
  predicate Ended(s: seq<Elem>) {
    |s| >= 1 && (s[|s| - 1] == Num(1) || s[|s| - 1] == Overflow)
  }

  /** No number in the array exceeds b. */
  predicate Bounded(s: seq<Elem>, b: int) {
    forall i :: 0 <= i < |s| ==> s[i].Num? ==> s[i].value <= b
  }

  function Max(a: int, b: int): int {
    if a < b then b else a
  }

  /** The array the loop builds from a positive seed c. */
  function Run(c: nat, fuel: nat): (s: seq<Elem>)
    requires Halts(c, fuel)
    ensures 1 <= |s| <= fuel + 2
    decreases fuel
  {
    if c == 1 then [Num(1)]
    else if c % 2 == 1 && Breaks(c) then [Num(c), Overflow]
    else [Num(c)] + Run(Next(c), fuel - 1)
  }

  /** The array walks from c as the loop does and ends where it ends. */
  lemma {:induction false} RunShape(c: nat, fuel: nat)
    requires Halts(c, fuel)
    ensures Walk(c, Run(c, fuel)) && Ended(Run(c, fuel))
    decreases fuel
  {
    if c != 1 && !(c % 2 == 1 && Breaks(c)) {
      var rest := Run(Next(c), fuel - 1);
      RunShape(Next(c), fuel - 1);
      var s := [Num(c)] + rest;
      assert Run(c, fuel) == s;
      forall i | 0 <= i < |s| - 1
        ensures s[i].Num? && Follows(s[i].value, s[i + 1])
      {
        if i > 0 {
          assert s[i] == rest[i - 1] && s[i + 1] == rest[i];
        }
      }
      assert s[|s| - 1] == rest[|rest| - 1];
    }
  }

  /**
   * Every number in the array is at most max(c, MAX_SAFE_INTEGER): halving
   * only shrinks a value, and the guard admits 3c + 1 only when it is a
   * safe integer.
   */
  lemma {:induction false} RunBounded(c: nat, fuel: nat)
    requires Halts(c, fuel)
    ensures Bounded(Run(c, fuel), Max(c, MAX_SAFE_INTEGER))
    decreases fuel
  {
    if c != 1 && !(c % 2 == 1 && Breaks(c)) {
      var rest := Run(Next(c), fuel - 1);
      RunBounded(Next(c), fuel - 1);
      assert Max(Next(c), MAX_SAFE_INTEGER) <= Max(c, MAX_SAFE_INTEGER);
      var s := [Num(c)] + rest;
      assert Run(c, fuel) == s;
      forall i | 0 < i < |s|
        ensures s[i].Num? ==> s[i].value <= Max(c, MAX_SAFE_INTEGER)
      {
        assert s[i] == rest[i - 1];
      }
    }
  }

  /** `calculateCollatzSequence(n)`: [0] for a seed that is not positive, else the loop's array. */
  function CollatzSequence(n: int, fuel: nat): seq<Elem>
    requires n <= 0 || Halts(n, fuel)
  {
    if n <= 0 then [Num(0)] else Run(n, fuel)
  }

  /** `Infinity` can only be the last element. */
  lemma OverflowOnlyLast(n: int, fuel: nat, i: nat)
    requires n <= 0 || Halts(n, fuel)
    requires i < |CollatzSequence(n, fuel)| && CollatzSequence(n, fuel)[i] == Overflow
    ensures i == |CollatzSequence(n, fuel)| - 1
  {
    if n > 0 {
      var s := Run(n, fuel);
      RunShape(n, fuel);
      assert forall k :: 0 <= k < |s| - 1 ==> s[k].Num?;
    }
  }

  /** Every number the loop computes after the seed is a safe integer or no larger than the seed. */
  lemma ValuesBounded(n: int, fuel: nat, i: nat)
    requires n <= 0 || Halts(n, fuel)
    requires i < |CollatzSequence(n, fuel)| && CollatzSequence(n, fuel)[i].Num?
    ensures CollatzSequence(n, fuel)[i].value <= Max(n, MAX_SAFE_INTEGER)
  {
    if n > 0 {
      RunBounded(n, fuel);
    }
  }

  /** Any walk from c that ends as the loop does is the loop's array, whatever the budget. */
  lemma {:induction false} RunUnique(c: nat, fuel: nat, s: seq<Elem>)
    requires Halts(c, fuel)
    requires Walk(c, s) && Ended(s)
    ensures s == Run(c, fuel)
    decreases fuel
  {
    if c == 1 {
      assert |s| == 1;
    } else if c % 2 == 1 && Breaks(c) {
      assert |s| > 1 && s[1] == Overflow;
      assert |s| == 2;
    } else {
      assert |s| > 1 && Follows(s[0].value, s[1]);
      var t := s[1..];
      forall i | 0 <= i < |t| - 1
        ensures t[i].Num? && Follows(t[i].value, t[i + 1])
      {
        assert s[i + 1].Num? && Follows(s[i + 1].value, s[i + 2]);
      }
      RunUnique(Next(c), fuel - 1, t);
      assert s == [Num(c)] + t;
    }
  }

  /** `calculateCollatzSequence(n)` as the source runs it: push each new value, `Infinity` and stop when the guard trips. */
  method CalculateCollatzSequence(n: int, ghost fuel: nat) returns (sequence: seq<Elem>)
    requires n <= 0 || Halts(n, fuel)
    ensures sequence == CollatzSequence(n, fuel)
  {
    if n <= 0 {
      return [Num(0)];
    }
    sequence := [Num(n)];
    var current: nat := n;
    ghost var left := fuel;
    while current != 1
      invariant Halts(current, left)
      invariant Walk(n, sequence) && sequence[|sequence| - 1] == Num(current)
      decreases left
    {
      if current % 2 == 0 {
        current := current / 2;
      } else {
        if 3 * current > MAX_SAFE_INTEGER {
          sequence := sequence + [Overflow];
          break;
        }
        current := 3 * current + 1;
      }
      sequence := sequence + [Num(current)];
      left := left - 1;
    }
    RunUnique(n, fuel, sequence);
  }

  /** The `{ number, length }` object a range search returns. */
  datatype RangeResult = RangeResult(number: int, length: nat)

  /** Every seed in 1..limit has a loop that ends within the budget. */
  predicate RangeHalts(limit: int, fuel: nat) {
    forall i: nat :: 1 <= i <= limit ==> Halts(i, fuel)
  }

  /**
   * `findMaxSequenceInRange(limit)`: the first seed in 1..limit whose array
   * is longest (a later seed replaces it only when strictly longer), with
   * that length; { number: 1, length: 0 } when the range is empty.
   */
  method FindMaxSequenceInRange(limit: int, ghost fuel: nat) returns (result: RangeResult)
    requires RangeHalts(limit, fuel)
    ensures limit < 1 ==> result == RangeResult(1, 0)
    ensures limit >= 1 ==> 1 <= result.number <= limit && result.length == |CollatzSequence(result.number, fuel)|
    ensures forall i: nat :: 1 <= i <= limit ==> |CollatzSequence(i, fuel)| <= result.length
    ensures forall i: nat :: 1 <= i < result.number ==> |CollatzSequence(i, fuel)| < result.length
  {
    var maxLen := 0;
    var maxNum := 1;
    var i := 1;
    while i <= limit
      invariant 1 <= i <= if limit < 1 then 1 else limit + 1
      invariant 1 <= maxNum && (i > 1 ==> maxNum < i)
      invariant i == 1 ==> maxNum == 1 && maxLen == 0
      invariant i > 1 ==> Halts(maxNum, fuel) && maxLen == |Run(maxNum, fuel)|
      invariant forall k: nat :: 1 <= k < i ==> |Run(k, fuel)| <= maxLen
      invariant forall k: nat :: 1 <= k < maxNum ==> |Run(k, fuel)| < maxLen
      decreases limit - i
    {
      var sequence := CalculateCollatzSequence(i, fuel);
      assert sequence == Run(i, fuel);
      if |sequence| > maxLen {
        maxLen := |sequence|;
        maxNum := i;
      }
      i := i + 1;
    }
    return RangeResult(maxNum, maxLen);
  }

  /** A Rust result as JavaScript sees it once `Array.from` has copied it: each u64 as a number. */
  function FromWasm(s: seq<u64>): seq<Elem> {
    seq(|s|, i requires 0 <= i < |s| => Num(s[i] as nat))
  }

  /**
   * Where no odd value of the Rust sequence trips the JavaScript guard (the
   * guard is only tested on odd values), the two backends build the same
   * sequence (numbers for u64 values, no `Infinity`).
   */
  lemma {:induction false} BackendsAgree(n: u64, fuel: nat)
    requires WasmCollatz.Halts(n, fuel)
    requires forall i :: 0 <= i < |WasmCollatz.Sequence(n, fuel)| && WasmCollatz.Sequence(n, fuel)[i] % 2 == 1
               ==> !Breaks(WasmCollatz.Sequence(n, fuel)[i] as nat)
    ensures Halts(n as nat, fuel)
    ensures Run(n as nat, fuel) == FromWasm(WasmCollatz.Sequence(n, fuel))
    decreases fuel
  {
    var s := WasmCollatz.Sequence(n, fuel);
    assert s[0] == n;
    if !WasmCollatz.Stops(n) {
      var m := WasmCollatz.Next(n);
      var t := WasmCollatz.Sequence(m, fuel - 1);
      assert s == [n] + t;
      assert n % 2 == 1 ==> !Breaks(n as nat);
      forall i | 0 <= i < |t| && t[i] % 2 == 1
        ensures !Breaks(t[i] as nat)
      {
        assert t[i] == s[i + 1];
      }
      BackendsAgree(m, fuel - 1);
      assert Next(n as nat) == m as nat;
      assert Run(n as nat, fuel) == [Num(n as nat)] + Run(m as nat, fuel - 1);
      assert FromWasm(s) == [Num(n as nat)] + FromWasm(t);
    } else if n % 2 == 1 {
      assert !Breaks(n as nat);
    }
  }

  function Pow2(k: nat): (r: nat)
    ensures r >= 1
  {
    if k == 0 then 1 else 2 * Pow2(k - 1)
  }

  lemma {:induction false} Pow2Add(a: nat, b: nat)
    ensures Pow2(a + b) == Pow2(a) * Pow2(b)
    decreases a
  {
    if a > 0 {
      Pow2Add(a - 1, b);
    }
  }

  lemma Pow2FiftyTwo()
    ensures Pow2(52) == 0x10_0000_0000_0000
  {
    assert Pow2(2) == 4;
    Pow2Add(2, 2);
    assert Pow2(4) == 16;
    Pow2Add(4, 4);
    assert Pow2(8) == 256;
    Pow2Add(8, 8);
    assert Pow2(16) == 0x1_0000;
    Pow2Add(16, 16);
    assert Pow2(32) == 0x1_0000_0000;
    Pow2Add(32, 16);
    assert Pow2(48) == 0x1_0000_0000_0000;
    Pow2Add(48, 4);
  }

  /** The Rust sequence from 2^k halves down to 1 in k steps, so its only odd value is 1. */
  lemma {:induction false} PowerHalves(n: u64, k: nat)
    requires n as nat == Pow2(k)
    ensures WasmCollatz.Halts(n, k)
    ensures forall i :: 0 <= i < |WasmCollatz.Sequence(n, k)| && WasmCollatz.Sequence(n, k)[i] % 2 == 1
              ==> WasmCollatz.Sequence(n, k)[i] == 1
    decreases k
  {
    if k > 0 {
      var m := n / 2;
      assert m as nat == Pow2(k - 1);
      PowerHalves(m, k - 1);
      assert !WasmCollatz.Stops(n) && WasmCollatz.Next(n) == m;
      var s, t := WasmCollatz.Sequence(n, k), WasmCollatz.Sequence(m, k - 1);
      assert s == [n] + t;
      forall i | 0 <= i < |s| && s[i] % 2 == 1
        ensures s[i] == 1
      {
        assert i > 0 && s[i] == t[i - 1];
      }
    }
  }

  /** The even seed 2^52 lies above the guard yet only halves, so both backends build the same sequence from it. */
  lemma BackendsAgreeEvenAboveGuard()
    ensures Breaks(0x10_0000_0000_0000) && 0x10_0000_0000_0000 % 2 == 0
    ensures WasmCollatz.Halts(0x10_0000_0000_0000, 52) && Halts(0x10_0000_0000_0000, 52)
    ensures Run(0x10_0000_0000_0000, 52) == FromWasm(WasmCollatz.Sequence(0x10_0000_0000_0000, 52))
  {
    Pow2FiftyTwo();
    PowerHalves(0x10_0000_0000_0000, 52);
    BackendsAgree(0x10_0000_0000_0000, 52);
  }

  /** No odd value of a Rust sequence trips the JavaScript guard. */
  predicate GuardNeverTrips(s: seq<u64>) {
    forall i :: 0 <= i < |s| && s[i] % 2 == 1 ==> !Breaks(s[i] as nat)
  }

  /**
   * `find_max_sequence_info(limit)` and `findMaxSequenceInRange(limit)` agree
   * on a non-empty range where no odd Rust value trips the JavaScript guard:
   * the same seed and the same length.  Both keep the first seed of maximal
   * length, and seed by seed the two lengths are equal (`BackendsAgree`).
   */
  method RangeSearchesAgree(limit: u64, ghost fuel: nat) returns (info: seq<u64>, result: RangeResult)
    requires 1 <= limit && fuel < U64_MAX
    requires forall n: u64 :: 1 <= n <= limit ==>
               WasmCollatz.Halts(n, fuel) && GuardNeverTrips(WasmCollatz.Sequence(n, fuel))
    ensures |info| == 2 && info[0] as int == result.number && info[1] as int == result.length
  {
    forall i: nat | 1 <= i <= limit as int
      ensures Halts(i, fuel) && |CollatzSequence(i, fuel)| == |WasmCollatz.Sequence(i as u64, fuel)|
    {
      BackendsAgree(i as u64, fuel);
    }
    info := WasmCollatz.FindMaxSequenceInfo(limit, fuel);
    result := FindMaxSequenceInRange(limit as int, fuel);
    var a, b := info[0], result.number;
    assert info[1] as int <= result.length by {
      assert |CollatzSequence(a as int, fuel)| <= result.length;
    }
    assert result.length <= info[1] as int by {
      assert |WasmCollatz.Sequence(b as u64, fuel)| <= info[1] as int;
    }
  }

  /**
   * On the empty range the two searches differ: Rust answers [1, 1] (it
   * starts from the sequence of 1), JavaScript { number: 1, length: 0 }.
   */
  method EmptyRangeSearchesDiffer(ghost fuel: nat) returns (info: seq<u64>, result: RangeResult)
    requires fuel < U64_MAX
    ensures info == [1, 1] && result == RangeResult(1, 0)
    ensures info[1] as int != result.length
  {
    info := WasmCollatz.FindMaxSequenceInfo(0, fuel);
    result := FindMaxSequenceInRange(0, fuel);
  }
}
