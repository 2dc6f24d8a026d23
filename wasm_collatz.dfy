/**
 * The Rust/WebAssembly `CollatzCalculator` of src/wasm/src/lib.rs: Collatz
 * sequences over `u64`, with a guard meant to stop the sequence before
 * 3n + 1 would overflow.  The bound as written is one too high (see
 * "## Findings" in README.md): `AsWrittenGuardAdmitsOverflow` models it,
 * and the methods use the corrected `GUARD`.
 *
 * Whether every sequence reaches 1 is the Collatz conjecture, so the loops
 * here are proved for the runs that end: each method takes a ghost step
 * budget `fuel` and requires that the sequence stops within it.  A sequence
 * that would never stop is one the source never returns from either.
 */
module WasmCollatz {
  import opened Wrappers
  import opened Unsigned

  /** `u64::MAX / 3`, the bound the source compares an odd value against. */
  const GUARD_AS_WRITTEN: u64 := 0x5555_5555_5555_5555

  /** The guard as written: `n > u64::MAX / 3` breaks out of the loop. */
  predicate BreaksAsWritten(n: u64) {
    n > GUARD_AS_WRITTEN
  }

  /** The next value as the source computes it, with no bound on the result. */
  function NextAsWritten(n: u64): int
    requires n % 2 == 0 || !BreaksAsWritten(n)
  {
    if n % 2 == 0 then n as int / 2 else 3 * n as int + 1
  }

  /**
   * The guard lets u64::MAX / 3 through, which is odd, and 3n + 1 is then
   * 2^64, one past the largest u64.  A build that does not trap overflow
   * wraps it to 0, whose sequence never ends (see ZeroNeverHalts).
   */
  lemma AsWrittenGuardAdmitsOverflow()
    ensures GUARD_AS_WRITTEN as int == U64_MAX / 3
    ensures !BreaksAsWritten(GUARD_AS_WRITTEN) && GUARD_AS_WRITTEN % 2 == 1
    ensures NextAsWritten(GUARD_AS_WRITTEN) == U64_MAX + 1
    ensures WrappingAdd(WrappingMul(3, GUARD_AS_WRITTEN), 1) == 0
  {
  }

  /** The largest odd value whose 3n + 1 still fits in a u64: (u64::MAX - 1) / 3. */
  const GUARD: u64 := 0x5555_5555_5555_5554

  /** The corrected guard: break exactly when 3n + 1 would not fit. */
  predicate Breaks(n: u64) {
    n > GUARD
  }

  /** The corrected guard is exact: it lets n through iff 3n + 1 fits. */
  lemma GuardIsExact(n: u64)
    ensures !Breaks(n) <==> 3 * n as int + 1 <= U64_MAX
  {
  }

  /** The two guards disagree on one value only. */
  lemma GuardsDifferOnlyAtBound(n: u64)
    ensures BreaksAsWritten(n) != Breaks(n) <==> n == GUARD_AS_WRITTEN
  {
  }

  /** Where the loop exits: at 1, or at an odd value the guard stops. */
  predicate Stops(n: u64) {
    n == 1 || (n % 2 == 1 && Breaks(n))
  }

  /** One Collatz step: n / 2 for even n, 3n + 1 for odd n, which fits whenever the guard lets n through. */
  function Next(n: u64): u64
    requires n % 2 == 0 || !Breaks(n)
  {
    if n % 2 == 0 then n / 2 else 3 * n + 1
  }

  /** b follows a in a sequence: the loop goes on past a, and b is its step. */
  predicate Steps(a: u64, b: u64) {
    !Stops(a) && b == Next(a)
  }

  /** A list that starts at n and follows the Collatz step from each element to the next. */
  predicate Walk(n: u64, s: seq<u64>) {
    |s| >= 1 && s[0] == n && forall i :: 0 <= i < |s| - 1 ==> Steps(s[i], s[i + 1])
  }

  /** The sequence from n stops within `fuel` steps. */
  predicate Halts(n: u64, fuel: nat)
    decreases fuel
  {
    Stops(n) || (fuel > 0 && Halts(Next(n), fuel - 1))
  }

  /** 0 is even and halves to itself: its sequence never stops. */
  lemma {:induction false} ZeroNeverHalts(fuel: nat)
    ensures !Halts(0, fuel)
  {
    if fuel > 0 {
      ZeroNeverHalts(fuel - 1);
    }
  }

  /**
   * The sequence the source builds from n: it starts at n, each element is
   * the Collatz step of the one before, and it ends at the first value where
   * the loop exits (1, or an odd value past the guard, pushed with no marker).
   */
  function Sequence(n: u64, fuel: nat): (s: seq<u64>)
    requires Halts(n, fuel)
    ensures 1 <= |s| <= fuel + 1
    decreases fuel
  {
    if Stops(n) then [n] else [n] + Sequence(Next(n), fuel - 1)
  }

  /** The sequence walks from n by the Collatz step and ends at its first exit value. */
  lemma {:induction false} SequenceShape(n: u64, fuel: nat)
    requires Halts(n, fuel)
    ensures Walk(n, Sequence(n, fuel)) && Stops(Sequence(n, fuel)[|Sequence(n, fuel)| - 1])
    decreases fuel
  {
    if !Stops(n) {
      var rest := Sequence(Next(n), fuel - 1);
      SequenceShape(Next(n), fuel - 1);
      var s := [n] + rest;
      assert forall i :: 0 < i < |s| ==> s[i] == rest[i - 1];
      assert Steps(s[0], s[1]);
    }
  }

  /**
   * The sequence does not depend on the budget: any list that starts at n,
   * follows the step and stops at its first exit value is Sequence(n, fuel).
   */
  lemma {:induction false} SequenceUnique(n: u64, fuel: nat, s: seq<u64>)
    requires Halts(n, fuel)
    requires Walk(n, s) && Stops(s[|s| - 1])
    ensures s == Sequence(n, fuel)
    decreases fuel
  {
    if !Stops(n) {
      assert |s| > 1;
      var t := s[1..];
      assert Steps(s[0], s[1]);
      forall i | 0 <= i < |t| - 1
        ensures Steps(t[i], t[i + 1])
      {
        assert Steps(s[i + 1], s[i + 2]);
      }
      SequenceUnique(Next(n), fuel - 1, t);
      assert s == [n] + t;
    }
  }

  lemma SequenceFuel(n: u64, fuel1: nat, fuel2: nat)
    requires Halts(n, fuel1) && Halts(n, fuel2)
    ensures Sequence(n, fuel1) == Sequence(n, fuel2)
  {
    SequenceShape(n, fuel1);
    SequenceUnique(n, fuel2, Sequence(n, fuel1));
  }

  /** The sequences the crate's tests check for 1, 2 and 4. */
  lemma TestSequencesSmall()
    ensures Halts(1, 0) && Sequence(1, 0) == [1]
    ensures Halts(2, 1) && Sequence(2, 1) == [2, 1]
    ensures Halts(4, 2) && Sequence(4, 2) == [4, 2, 1]
  {
    assert Sequence(2, 1) == [2, 1];
  }

  /** One step of the sequence: a value the loop goes past is followed by the sequence of its step. */
  lemma SequenceUnfold(n: u64, fuel: nat)
    requires Halts(n, fuel) && !Stops(n)
    ensures fuel > 0 && Halts(Next(n), fuel - 1)
    ensures Sequence(n, fuel) == [n] + Sequence(Next(n), fuel - 1)
  {
  }

  /** The sequence from 16, the tail of the one from 3. */
  lemma SequenceSixteen()
    ensures Halts(16, 4) && Sequence(16, 4) == [16, 8, 4, 2, 1]
  {
    SequenceUnfold(2, 1);
    SequenceUnfold(4, 2);
    SequenceUnfold(8, 3);
    SequenceUnfold(16, 4);
  }

  /** The sequence the crate's tests check for 3. */
  lemma TestSequenceThree()
    ensures Halts(3, 7) && Sequence(3, 7) == [3, 10, 5, 16, 8, 4, 2, 1]
  {
    SequenceSixteen();
    SequenceUnfold(5, 5);
    SequenceUnfold(10, 6);
    SequenceUnfold(3, 7);
  }

  /** The largest value of a non-empty list. */
  function Peak(s: seq<u64>): u64
    requires |s| >= 1
  {
    if |s| == 1 then s[0] else if s[0] < Peak(s[1..]) then Peak(s[1..]) else s[0]
  }

  /** The peak is a value of the list, and no value of the list exceeds it. */
  lemma {:induction false} PeakIsMax(s: seq<u64>)
    requires |s| >= 1
    ensures Peak(s) in s
    ensures forall i :: 0 <= i < |s| ==> s[i] <= Peak(s)
  {
    if |s| > 1 {
      PeakIsMax(s[1..]);
      forall i | 1 <= i < |s|
        ensures s[i] <= Peak(s)
      {
        assert s[i] == s[1..][i - 1];
      }
    }
  }

  /** A value the loop goes past adds one to the length of its step's sequence and may raise its peak. */
  lemma SequenceStep(n: u64, fuel: nat)
    requires fuel > 0 && !Stops(n) && Halts(Next(n), fuel - 1)
    ensures Halts(n, fuel)
    ensures |Sequence(n, fuel)| == |Sequence(Next(n), fuel - 1)| + 1
    ensures Peak(Sequence(n, fuel)) == if n < Peak(Sequence(Next(n), fuel - 1)) then Peak(Sequence(Next(n), fuel - 1)) else n
  {
    assert Sequence(n, fuel)[1..] == Sequence(Next(n), fuel - 1);
  }

  /** The last stretch of the sequence from 27, from 433 down to 1. */
  lemma SequenceFrom433()
    ensures Halts(433, 27) && |Sequence(433, 27)| == 28
    ensures Peak(Sequence(433, 27)) == 1300
  {
    assert Halts(1, 0) && Sequence(1, 0) == [1];
    SequenceStep(2, 1);
    SequenceStep(4, 2);
    SequenceStep(8, 3);
    SequenceStep(16, 4);
    SequenceStep(5, 5);
    SequenceStep(10, 6);
    SequenceStep(20, 7);
    SequenceStep(40, 8);
    SequenceStep(80, 9);
    SequenceStep(160, 10);
    SequenceStep(53, 11);
    SequenceStep(106, 12);
    SequenceStep(35, 13);
    SequenceStep(70, 14);
    SequenceStep(23, 15);
    SequenceStep(46, 16);
    SequenceStep(92, 17);
    SequenceStep(184, 18);
    SequenceStep(61, 19);
    SequenceStep(122, 20);
    SequenceStep(244, 21);
    SequenceStep(488, 22);
    SequenceStep(976, 23);
    SequenceStep(325, 24);
    SequenceStep(650, 25);
    SequenceStep(1300, 26);
    SequenceStep(433, 27);
  }

  /** The sequence from 27 from 319 on, built on the stretch after it. */
  lemma SequenceFrom319()
    ensures Halts(319, 55) && |Sequence(319, 55)| == 56
    ensures Peak(Sequence(319, 55)) == 9232
  {
    SequenceFrom433();
    SequenceStep(866, 28);
    SequenceStep(1732, 29);
    SequenceStep(577, 30);
    SequenceStep(1154, 31);
    SequenceStep(2308, 32);
    SequenceStep(4616, 33);
    SequenceStep(9232, 34);
    SequenceStep(3077, 35);
    SequenceStep(6154, 36);
    SequenceStep(2051, 37);
    SequenceStep(4102, 38);
    SequenceStep(1367, 39);
    SequenceStep(2734, 40);
    SequenceStep(911, 41);
    SequenceStep(1822, 42);
    SequenceStep(3644, 43);
    SequenceStep(7288, 44);
    SequenceStep(2429, 45);
    SequenceStep(4858, 46);
    SequenceStep(1619, 47);
    SequenceStep(3238, 48);
    SequenceStep(1079, 49);
    SequenceStep(2158, 50);
    SequenceStep(719, 51);
    SequenceStep(1438, 52);
    SequenceStep(479, 53);
    SequenceStep(958, 54);
    SequenceStep(319, 55);
  }

  /** The sequence from 27 from 233 on, built on the stretch after it. */
  lemma SequenceFrom233()
    ensures Halts(233, 83) && |Sequence(233, 83)| == 84
    ensures Peak(Sequence(233, 83)) == 9232
  {
    SequenceFrom319();
    SequenceStep(638, 56);
    SequenceStep(1276, 57);
    SequenceStep(425, 58);
    SequenceStep(850, 59);
    SequenceStep(283, 60);
    SequenceStep(566, 61);
    SequenceStep(1132, 62);
    SequenceStep(377, 63);
    SequenceStep(754, 64);
    SequenceStep(251, 65);
    SequenceStep(502, 66);
    SequenceStep(167, 67);
    SequenceStep(334, 68);
    SequenceStep(668, 69);
    SequenceStep(1336, 70);
    SequenceStep(445, 71);
    SequenceStep(890, 72);
    SequenceStep(1780, 73);
    SequenceStep(593, 74);
    SequenceStep(1186, 75);
    SequenceStep(395, 76);
    SequenceStep(790, 77);
    SequenceStep(263, 78);
    SequenceStep(526, 79);
    SequenceStep(175, 80);
    SequenceStep(350, 81);
    SequenceStep(700, 82);
    SequenceStep(233, 83);
  }

  /** The sequence from 27, built on the stretch from 233. */
  lemma SequenceFrom27()
    ensures Halts(27, 111) && |Sequence(27, 111)| == 112
    ensures Peak(Sequence(27, 111)) == 9232
  {
    SequenceFrom233();
    SequenceStep(466, 84);
    SequenceStep(155, 85);
    SequenceStep(310, 86);
    SequenceStep(103, 87);
    SequenceStep(206, 88);
    SequenceStep(412, 89);
    SequenceStep(137, 90);
    SequenceStep(274, 91);
    SequenceStep(91, 92);
    SequenceStep(182, 93);
    SequenceStep(364, 94);
    SequenceStep(121, 95);
    SequenceStep(242, 96);
    SequenceStep(484, 97);
    SequenceStep(161, 98);
    SequenceStep(322, 99);
    SequenceStep(107, 100);
    SequenceStep(214, 101);
    SequenceStep(71, 102);
    SequenceStep(142, 103);
    SequenceStep(47, 104);
    SequenceStep(94, 105);
    SequenceStep(31, 106);
    SequenceStep(62, 107);
    SequenceStep(124, 108);
    SequenceStep(41, 109);
    SequenceStep(82, 110);
    SequenceStep(27, 111);
  }

  /**
   * The component's starting seed: the sequence from 27 has 112 values and
   * climbs to 9232 before it comes down to 1.
   */
  lemma SequenceTwentySeven()
    ensures Halts(27, 111) && |Sequence(27, 111)| == 112
    ensures 9232 in Sequence(27, 111)
    ensures forall i :: 0 <= i < 112 ==> Sequence(27, 111)[i] <= 9232
  {
    SequenceFrom27();
    PeakIsMax(Sequence(27, 111));
  }

  /** `calculate_sequence(n)`: the sequence from n, built by pushing each new value. */
  method CalculateSequence(n: u64, ghost fuel: nat) returns (sequence: seq<u64>)
    requires Halts(n, fuel)
    ensures sequence == Sequence(n, fuel)
  {
    var current := n;
    sequence := [current];
    ghost var left := fuel;
    while current != 1
      invariant Halts(current, left)
      invariant Walk(n, sequence) && sequence[|sequence| - 1] == current
      decreases left
    {
      if current % 2 == 0 {
        current := current / 2;
      } else {
        if current > GUARD {
          break;
        }
        current := 3 * current + 1;
      }
      sequence := sequence + [current];
      left := left - 1;
    }
    SequenceUnique(n, fuel, sequence);
  }

  /** `get_sequence_length(n)`: 0 for n = 0, otherwise the length of the sequence from n, counted without building it. */
  method GetSequenceLength(n: u64, ghost fuel: nat) returns (length: nat)
    requires n == 0 || Halts(n, fuel)
    ensures n == 0 ==> length == 0
    ensures n != 0 ==> length == |Sequence(n, fuel)|
  {
    if n == 0 {
      return 0;
    }
    length := 1;
    var current := n;
    ghost var walk := [n];
    ghost var left := fuel;
    while current != 1
      invariant Halts(current, left)
      invariant Walk(n, walk) && walk[|walk| - 1] == current && |walk| == length
      decreases left
    {
      if current % 2 == 0 {
        current := current / 2;
      } else {
        if current > GUARD {
          break;
        }
        current := 3 * current + 1;
      }
      length := length + 1;
      walk := walk + [current];
      left := left - 1;
    }
    SequenceUnique(n, fuel, walk);
  }

  /**
   * `find_max_sequence_info(limit)`: [m, L] where L is the longest sequence
   * length among the seeds 1..=limit and m the first seed that reaches it
   * (a later seed replaces it only when strictly longer); [1, 1] when limit
   * is 0.
   */
  method FindMaxSequenceInfo(limit: u64, ghost fuel: nat) returns (info: seq<u64>)
    requires forall n: u64 :: 1 <= n <= limit ==> Halts(n, fuel)
    requires fuel < U64_MAX
    ensures |info| == 2
    ensures limit == 0 ==> info == [1, 1]
    ensures 1 <= info[0] && (limit >= 1 ==> info[0] <= limit)
    ensures Halts(info[0], fuel) && info[1] as int == |Sequence(info[0], fuel)|
    ensures forall n: u64 :: 1 <= n <= limit ==> |Sequence(n, fuel)| <= info[1] as int
    ensures forall n: u64 :: 1 <= n < info[0] ==> |Sequence(n, fuel)| < info[1] as int
  {
    var maxNumber: u64 := 1;
    var maxLength: nat := 1;
    assert Halts(1, fuel) && Sequence(1, fuel) == [1];
    for n: int := 1 to limit as int + 1
      invariant 1 <= maxNumber as int <= if n == 1 then 1 else n - 1
      invariant Halts(maxNumber, fuel) && maxLength == |Sequence(maxNumber, fuel)|
      invariant forall k: u64 :: 1 <= k as int < n ==> |Sequence(k, fuel)| <= maxLength
      invariant forall k: u64 :: 1 <= k < maxNumber ==> |Sequence(k, fuel)| < maxLength
    {
      var length := GetSequenceLength(n as u64, fuel);
      if length > maxLength {
        maxLength := length;
        maxNumber := n as u64;
      }
    }
    info := [maxNumber, maxLength as u64];
  }

  predicate AllHalt(numbers: seq<u64>, fuel: nat) {
    forall i :: 0 <= i < |numbers| ==> Halts(numbers[i], fuel)
  }

  /** The sequences of `numbers`, one per input. */
  function Sequences(numbers: seq<u64>, fuel: nat): (r: seq<seq<u64>>)
    requires AllHalt(numbers, fuel)
    ensures |r| == |numbers|
  {
    seq(|numbers|, i requires 0 <= i < |numbers| => Sequence(numbers[i], fuel))
  }

  /** Every list is short enough for its length to be a u64. */
  predicate AllFit(seqs: seq<seq<u64>>) {
    forall i :: 0 <= i < |seqs| ==> |seqs[i]| <= U64_MAX
  }

  /** One entry of the flat encoding: the list's length, then the list. */
  function Frame(s: seq<u64>): seq<u64>
    requires |s| <= U64_MAX
  {
    [|s| as u64] + s
  }

  function Framed(seqs: seq<seq<u64>>): (r: seq<seq<u64>>)
    requires AllFit(seqs)
    ensures |r| == |seqs|
  {
    seq(|seqs|, i requires 0 <= i < |seqs| => Frame(seqs[i]))
  }

  /** The pieces one after the other, built from the last one back as a loop appends them. */
  function Concat(pieces: seq<seq<u64>>): seq<u64> {
    if pieces == [] then [] else Concat(pieces[..|pieces| - 1]) + pieces[|pieces| - 1]
  }

  /** Concat read from the front: the first piece, then the rest. */
  lemma {:induction false} ConcatCons(pieces: seq<seq<u64>>)
    requires pieces != []
    ensures Concat(pieces) == pieces[0] + Concat(pieces[1..])
    decreases |pieces|
  {
    var init, tail := pieces[..|pieces| - 1], pieces[1..];
    if |pieces| > 1 {
      ConcatCons(init);
      assert tail[..|tail| - 1] == init[1..];
    } else {
      assert tail == [];
    }
  }

  /** What `calculate_multiple_sequences` returns: for each input in order, its sequence's length and then the sequence. */
  function Flatten(numbers: seq<u64>, fuel: nat): seq<u64>
    requires AllHalt(numbers, fuel) && fuel < U64_MAX
  {
    Concat(Framed(Sequences(numbers, fuel)))
  }

  /** `calculate_multiple_sequences`: the length-prefixed sequences of all inputs, one after the other. */
  method CalculateMultipleSequences(numbers: seq<u64>, ghost fuel: nat) returns (result: seq<u64>)
    requires AllHalt(numbers, fuel) && fuel < U64_MAX
    ensures result == Flatten(numbers, fuel)
  {
    result := [];
    for i := 0 to |numbers|
      invariant result == Flatten(numbers[..i], fuel)
    {
      var sequence := CalculateSequence(numbers[i], fuel);
      result := result + [|sequence| as u64];
      result := result + sequence;
      ghost var pieces := Framed(Sequences(numbers[..i + 1], fuel));
      assert pieces[..i] == Framed(Sequences(numbers[..i], fuel));
      assert pieces[i] == Frame(sequence);
    }
    assert numbers[..|numbers|] == numbers;
  }

  /** Reads length-prefixed lists back; None when a length runs past the end. */
  function Decode(flat: seq<u64>): Option<seq<seq<u64>>>
    decreases |flat|
  {
    if flat == [] then Some([])
    else if flat[0] as int > |flat| - 1 then None
    else
      match Decode(flat[1 + flat[0] as int..])
      case None => None
      case Some(rest) => Some([flat[1..1 + flat[0] as int]] + rest)
  }

  /** Decoding undoes the length-prefixed encoding of any lists short enough to have a u64 length. */
  lemma {:induction false} DecodeFramed(seqs: seq<seq<u64>>)
    requires AllFit(seqs)
    ensures Decode(Concat(Framed(seqs))) == Some(seqs)
    decreases |seqs|
  {
    if seqs != [] {
      var pieces := Framed(seqs);
      ConcatCons(pieces);
      assert pieces[1..] == Framed(seqs[1..]);
      DecodeFramed(seqs[1..]);
      var s, rest := seqs[0], Concat(Framed(seqs[1..]));
      var flat := Concat(pieces);
      assert flat == [|s| as u64] + s + rest;
      assert flat[1..1 + |s|] == s;
      assert flat[1 + |s|..] == rest;
      assert seqs == [s] + seqs[1..];
    }
  }

  /** The flat result loses nothing: decoding it gives back every input's sequence, in order. */
  lemma DecodeFlatten(numbers: seq<u64>, fuel: nat)
    requires AllHalt(numbers, fuel) && fuel < U64_MAX
    ensures Decode(Flatten(numbers, fuel)) == Some(Sequences(numbers, fuel))
  {
    DecodeFramed(Sequences(numbers, fuel));
  }

  /** Sum of 1 + length over the lists. */
  function TotalSize(seqs: seq<seq<u64>>): nat {
    if seqs == [] then 0 else TotalSize(seqs[..|seqs| - 1]) + 1 + |seqs[|seqs| - 1]|
  }

  /** The flat encoding is one length word per list plus the lists themselves. */
  lemma {:induction false} FramedSize(seqs: seq<seq<u64>>)
    requires AllFit(seqs)
    ensures |Concat(Framed(seqs))| == TotalSize(seqs)
    decreases |seqs|
  {
    if seqs != [] {
      var init := seqs[..|seqs| - 1];
      assert Framed(seqs)[..|seqs| - 1] == Framed(init);
      FramedSize(init);
    }
  }
}
