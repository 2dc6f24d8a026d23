/**
 * The state of the Collatz visualizer component
 * (src/components/CollatzVisualizer.js) that feeds the two backends: the
 * seed typed by the user and the range search with its per-backend limit.
 * Whether the WebAssembly call succeeds or throws is host behaviour and is
 * a parameter here.
 */
module Visualizer {
  import opened Wrappers
  import opened Unsigned
  import WasmCollatz
  import JsCollatz

  /** The seed shown when the component first renders. */
  const INITIAL_NUMBER: int := 27

  /** The range search covers at most this many seeds on the WebAssembly path... */
  const WASM_RANGE_LIMIT: int := 10000

  /** ...and at most this many on the JavaScript fallback. */
  const JS_RANGE_LIMIT: int := 1000

  function Min(a: int, b: int): int {
    if a < b then a else b
  }

  class CollatzVisualizer {
    var currentNumber: int
    var sequence: seq<JsCollatz.Elem>
    var maxNumber: int
    var maxSequenceLength: int

    /** Every seed the component holds, and so passes to a backend, is positive. */
    ghost predicate Valid()
      reads this
    {
      currentNumber >= 1
    }

    constructor()
      ensures Valid()
      ensures currentNumber == INITIAL_NUMBER && sequence == []
      ensures maxNumber == 0 && maxSequenceLength == 0
    {
      currentNumber := INITIAL_NUMBER;
      sequence := [];
      maxNumber := 0;
      maxSequenceLength := 0;
    }

    /**
     * `handleNumberChange`: the input's `parseInt` value (None for NaN)
     * replaces the seed only when it is positive.
     */
    method HandleNumberChange(parsed: Option<int>)
      requires Valid()
      modifies this
      ensures Valid()
      ensures currentNumber == if parsed.Some? && parsed.value > 0 then parsed.value else old(currentNumber)
      ensures sequence == old(sequence) && maxNumber == old(maxNumber) && maxSequenceLength == old(maxSequenceLength)
    {
      if parsed.Some? && parsed.value > 0 {
        currentNumber := parsed.value;
      }
    }

    /**
     * `findMaxSequence`: search the seeds 1..min(seed, 10000) with the
     * WebAssembly backend, or 1..min(seed, 1000) with the fallback when the
     * WebAssembly call throws; show the winner's sequence and make the winner
     * the new seed.
     */
    method FindMaxSequence(wasmOk: bool, ghost fuel: nat)
      requires Valid()
      requires wasmOk ==> fuel < U64_MAX
      requires wasmOk ==> forall n: u64 :: 1 <= n as int <= Min(currentNumber, WASM_RANGE_LIMIT) ==> WasmCollatz.Halts(n, fuel)
      requires !wasmOk ==> JsCollatz.RangeHalts(Min(currentNumber, JS_RANGE_LIMIT), fuel)
      modifies this
      ensures Valid()
      ensures currentNumber <= old(currentNumber)
      ensures currentNumber <= if wasmOk then WASM_RANGE_LIMIT else JS_RANGE_LIMIT
      ensures maxNumber == currentNumber && maxSequenceLength == |sequence|
      ensures wasmOk ==>
        WasmCollatz.Halts(currentNumber as u64, fuel)
        && sequence == JsCollatz.FromWasm(WasmCollatz.Sequence(currentNumber as u64, fuel))
        && (forall n: u64 :: 1 <= n as int <= Min(old(currentNumber), WASM_RANGE_LIMIT) ==> |WasmCollatz.Sequence(n, fuel)| <= maxSequenceLength)
      ensures !wasmOk ==>
        JsCollatz.Halts(currentNumber, fuel)
        && sequence == JsCollatz.CollatzSequence(currentNumber, fuel)
        && (forall n: nat :: 1 <= n <= Min(old(currentNumber), JS_RANGE_LIMIT) ==> |JsCollatz.CollatzSequence(n, fuel)| <= maxSequenceLength)
    {
      if wasmOk {
        var limit := Min(currentNumber, WASM_RANGE_LIMIT);
        var result := WasmCollatz.FindMaxSequenceInfo(limit as u64, fuel);
        maxNumber := result[0] as int;
        maxSequenceLength := result[1] as int;
        var wasmSequence := WasmCollatz.CalculateSequence(result[0], fuel);
        sequence := JsCollatz.FromWasm(wasmSequence);
        currentNumber := result[0] as int;
      } else {
        var limit := Min(currentNumber, JS_RANGE_LIMIT);
        var result := JsCollatz.FindMaxSequenceInRange(limit, fuel);
        maxNumber := result.number;
        maxSequenceLength := result.length;
        sequence := JsCollatz.CalculateCollatzSequence(result.number, fuel);
        currentNumber := result.number;
      }
    }
  }
}
