# Game of Life and Collatz engines of the portfolio demos

The portfolio site has two interactive demos. Each has a Rust/WebAssembly backend and a JavaScript fallback that the page uses when the WebAssembly module does not load:

- **Game of Life.** `GameOfLife` in `src/wasm/src/lib.rs` stores a row-major `Vec<u8>` of 0/1 cells. `JSGameOfLife` in `src/components/GameOfLife.js` stores an array of booleans. Both offer `new`, `tick`, `render`, `set_cell`/`setCell`, `clear`, `load_pattern`/`loadPattern` and the helpers `get_index`/`getIndex` and `live_neighbor_count`/`liveNeighborCount` (private in Rust). The component's "Load Glider" button clears the grid and loads a glider at (10, 10).
- **Collatz sequences.** `CollatzCalculator` in `src/wasm/src/lib.rs` works on `u64` and guards `3n + 1` against overflow, with a bound one too high (see "## Findings"). The JavaScript fallback in `src/components/CollatzVisualizer.js` works on numbers, appends `Infinity` when `3n + 1` would pass `Number.MAX_SAFE_INTEGER`, and keeps the seed the user typed positive. The range search is clamped to 10000 seeds on the WebAssembly path and 1000 on the fallback.
- **`SimpleRng`** in `src/wasm/src/utils.rs` is a linear congruential generator over one `u64` state.

## The Dafny modules

| file | module | models |
|---|---|---|
| `wrappers.dfy` | `Wrappers` | `Option` |
| `unsigned.dfy` | `Unsigned` | `u64` and its wrapping `+` and `*` |
| `life_rule.dfy` | `LifeRule` | The geometry and rule both grids share: row-major index, in-bounds test, Moore neighbour count with no wraparound, the cell rule, and the whole-grid step `Step` as a function. |
| `pattern.dfy` | `Pattern` | `trim`, JavaScript `split('\n')`, Rust `lines()`, and where each glyph of a pattern lands. |
| `wasm_life.dfy` | `WasmLife` | Class `GameOfLife` over an `array<u8>`. Its methods are proved against `Step` and `Loaded`. |
| `js_life.dfy` | `JsLife` | Class `JSGameOfLife` over an `array<bool>`. |
| `life_component.dfy` | `LifeComponent` | `handleLoadGlider` for each backend, and lemmas relating the two backends. |
| `wasm_collatz.dfy` | `WasmCollatz` | `CollatzCalculator`: sequence, length, range maximum, and the length-prefixed flat encoding with its decoder. |
| `js_collatz.dfy` | `JsCollatz` | `calculateCollatzSequence` and `findMaxSequenceInRange`, where an element is a number or `Overflow` (the `Infinity` marker), plus the agreement with the Rust sequence. |
| `visualizer.dfy` | `Visualizer` | Class `CollatzVisualizer`: the component state (`currentNumber`, `sequence`, `maxNumber`, `maxSequenceLength`), `handleNumberChange` and `findMaxSequence`. |
| `rng.dfy` | `Rng` | Class `SimpleRng` and the stream of values it draws. |

Every Collatz loop runs until the value reaches 1. Whether it always does is the Collatz conjecture. The loops are therefore proved for runs that end: each method takes a ghost step budget `fuel` and requires `Halts(n, fuel)`. The functions `Sequence` and `Run` are shown not to depend on the budget (`SequenceUnique`, `RunUnique`). JavaScript numbers are modelled as exact non-negative integers.

## Model

| member | source | states |
|---|---|---|
| Unsigned.WrappingAdd | src/wasm/src/utils.rs:22 | `wrapping_add`, written as a conditional subtraction of 2^64, is the sum modulo 2^64 |
| LifeRule.IdxInRange | src/wasm/src/lib.rs:111-113 | the index `y*width + x` of an in-bounds cell lies inside the `width*height` buffer |
| LifeRule.IdxCoords | src/wasm/src/lib.rs:111-113 | the index gives back its column (remainder by width) and row (quotient), so distinct cells have distinct indexes |
| LifeRule.CoordsOf | src/wasm/src/lib.rs:42-44 | every buffer position is the index of an in-bounds cell, (i % width, i / width), so the nested x/y loops of `tick` reach every cell; with `IdxCoords` that cell is the only one |
| LifeRule.NeighborsAtMostEight | src/wasm/src/lib.rs:115-139 | a cell has at most 8 live neighbours: the cell itself is never counted |
| LifeRule.NeighborsLocal | src/wasm/src/lib.rs:115-139 | the count depends only on the 8 surrounding in-bounds cells; cells off the grid count as dead (no wraparound) |
| LifeRule.DeadNeighbors | src/wasm/src/lib.rs:115-139 | on an all-dead grid every cell has 0 live neighbours |
| LifeRule.Step | src/wasm/src/lib.rs:39-63 | the next generation has as many cells as the current one |
| LifeRule.StepAt | src/wasm/src/lib.rs:54-58 | a cell is alive in the next generation iff it is alive with 2 or 3 live neighbours, or dead with exactly 3 |
| LifeRule.DeadStaysDead | src/wasm/src/lib.rs:54-58 | an all-dead grid stays all dead after a step |
| WasmLife.ViewEncodeAll | src/wasm/src/lib.rs:47 | reading back an encoded grid gives the same grid |
| WasmLife.EncodeAllView | src/wasm/src/lib.rs:47 | a buffer of 0/1 bytes is the encoding of what it reads as |
| WasmLife.LoadedAt | src/wasm/src/lib.rs:94-108 | after loading, an in-bounds cell under a glyph holds 1 for 'O', '1' or '*' and 0 for any other glyph; a cell under no glyph keeps its byte |
| WasmLife.LoadedNothing | src/wasm/src/lib.rs:95-97 | a pattern with no lines changes no cell |
| WasmLife.GameOfLife.constructor | src/wasm/src/lib.rs:29-36 | `new` makes `width*height` cells, all 0 |
| WasmLife.GameOfLife.GetIndex | src/wasm/src/lib.rs:111-113 | `get_index` of an in-bounds cell lies in the buffer and gives back x and y |
| WasmLife.GameOfLife.LiveNeighborCount | src/wasm/src/lib.rs:115-139 | the loop's count equals the number of live in-bounds Moore neighbours, and is at most 8 |
| WasmLife.GameOfLife.Tick | src/wasm/src/lib.rs:39-63 | the new buffer is the encoded `Step` of the pre-tick buffer: every cell is computed from the old buffer only, stays 0/1, and the length is unchanged |
| WasmLife.GameOfLife.Render | src/wasm/src/lib.rs:66-68 | `render` returns a copy equal to the buffer, all 0/1, and changes nothing |
| WasmLife.GameOfLife.SetCell | src/wasm/src/lib.rs:71-76 | in bounds, only index `y*width + x` changes, to 1 or 0; out of bounds the buffer is unchanged |
| WasmLife.GameOfLife.Clear | src/wasm/src/lib.rs:87-91 | every cell becomes 0 and the buffer keeps its length |
| WasmLife.GameOfLife.LoadPattern | src/wasm/src/lib.rs:94-108 | the buffer becomes `Loaded` of the old buffer and the trimmed pattern's `lines()`: see `LoadedAt` |
| JsLife.LoadedAt | src/components/GameOfLife.js:114-124 | after loading, an in-bounds cell is alive iff it was alive or lies under 'O', '1' or '*' |
| JsLife.LoadedOnlyAdds | src/components/GameOfLife.js:117-121 | loading never kills a cell: '.' and other glyphs leave their cell as it was |
| JsLife.LoadedNothing | src/components/GameOfLife.js:115-116 | a pattern with no lines changes no cell |
| JsLife.JSGameOfLife.constructor | src/components/GameOfLife.js:69-73 | `width*height` cells, all false |
| JsLife.JSGameOfLife.GetIndex | src/components/GameOfLife.js:126-128 | for an in-bounds cell the index lies in the array and gives back x and y |
| JsLife.JSGameOfLife.LiveNeighborCount | src/components/GameOfLife.js:130-147 | for any integer x and y, the count equals the number of live in-bounds Moore neighbours, and is at most 8 |
| JsLife.JSGameOfLife.Tick | src/components/GameOfLife.js:75-91 | the new array is `Step` of the old one: every cell is computed from the pre-tick array, and the length is unchanged |
| JsLife.JSGameOfLife.Render | src/components/GameOfLife.js:93-95 | an array of the same length holding 1 where a cell is alive and 0 where it is dead |
| JsLife.JSGameOfLife.SetCell | src/components/GameOfLife.js:97-102 | with 0 <= x < width and 0 <= y < height, only index `y*width + x` changes; otherwise nothing changes, negative coordinates included |
| JsLife.JSGameOfLife.Clear | src/components/GameOfLife.js:110-112 | every cell becomes false |
| JsLife.JSGameOfLife.LoadPattern | src/components/GameOfLife.js:114-124 | the array becomes `Loaded` of the old array and the trimmed pattern split at '\n': see `LoadedAt`; the grid is not cleared first |
| Pattern.TrimStartSpec | src/wasm/src/lib.rs:95 | trimming the front removes exactly the leading whitespace: the rest is a suffix that starts with a non-whitespace character |
| Pattern.TrimEndSpec | src/wasm/src/lib.rs:95 | trimming the back removes exactly the trailing whitespace |
| Pattern.TrimIsSlice | src/wasm/src/lib.rs:95 | `trim` keeps the slice between the first and last non-whitespace characters, and everything outside it is whitespace |
| Pattern.TrimIdempotent | src/wasm/src/lib.rs:95 | trimming twice is trimming once |
| Pattern.Split | src/components/GameOfLife.js:115 | `split('\n')` gives at least one piece, and no piece contains '\n' |
| Pattern.JoinSplit | src/components/GameOfLife.js:115 | joining the pieces with '\n' gives back the text |
| Pattern.SplitJoin | src/components/GameOfLife.js:115 | splitting '\n'-joined lines without newlines gives back the lines |
| Pattern.RustLinesJoin | src/wasm/src/lib.rs:95 | `lines()` loses nothing: no line holds '\n', and for non-empty text the lines joined with '\n' give the text back |
| LifeComponent.GliderLines | src/components/GameOfLife.js:240-243 | the glider text trims to ".O.\n..O\nOOO" and splits into the same three rows for `split('\n')` and `lines()` |
| LifeComponent.GliderGlyphs | src/components/GameOfLife.js:240-243 | at (10, 10) the glider's alive glyphs cover exactly (11,10), (12,11), (10,12), (11,12) and (12,12) |
| LifeComponent.HandleLoadGliderJs | src/components/GameOfLife.js:234-256 | clear then load on the 200 x 150 JavaScript grid leaves exactly the five glider cells alive |
| LifeComponent.HandleLoadGliderWasm | src/components/GameOfLife.js:234-256 | clear then `load_pattern` on the Rust grid leaves 1 on exactly the five glider cells and 0 elsewhere |
| LifeComponent.TickCorresponds | src/components/GameOfLife.js:85-86 | ticking the encoding of a boolean grid gives the encoding of its tick. Both `Tick` methods are proved equal to the same `Step`, so the substance is that each source rule is `StepAt`'s rule: the match arms (true, 2), (true, 3) and (false, 3) giving 1 in lib.rs:54-58, and the boolean expression here |
| LifeComponent.RenderCorresponds | src/components/GameOfLife.js:93-95 | the JavaScript `render` equals the Rust buffer of the same grid |
| LifeComponent.LoadCorresponds | src/components/GameOfLife.js:114-124 | the two loaders agree whenever no non-alive glyph lands on a live cell, in particular on a cleared grid |
| LifeComponent.LoadDiffers | src/components/GameOfLife.js:117-121 | the loaders differ on '.' over a live cell: Rust writes 0, JavaScript keeps the cell alive |
| WasmCollatz.AsWrittenGuardAdmitsOverflow | src/wasm/src/lib.rs:159-162 | the guard `n > u64::MAX / 3` admits the odd value u64::MAX / 3, whose 3n + 1 is 2^64 and wraps to 0 |
| WasmCollatz.GuardIsExact | src/wasm/src/lib.rs:159-162 | the corrected guard lets n through iff 3n + 1 fits in a u64 |
| WasmCollatz.GuardsDifferOnlyAtBound | src/wasm/src/lib.rs:159 | the written and the corrected guard disagree on u64::MAX / 3 only |
| WasmCollatz.ZeroNeverHalts | src/wasm/src/lib.rs:154-156 | the loop from 0 never ends: 0 is even and halves to itself |
| WasmCollatz.Sequence | src/wasm/src/lib.rs:151-168 | the sequence holds at least the seed and at most one element per step of the budget, plus one |
| WasmCollatz.SequenceShape | src/wasm/src/lib.rs:151-168 | the sequence starts at n, each element is n/2 or 3n+1 of the one before, and it ends at 1 or at an odd value the guard stops, with no marker |
| WasmCollatz.SequenceUnique | src/wasm/src/lib.rs:151-168 | any list with that shape is the sequence: it does not depend on the budget |
| WasmCollatz.SequenceFuel | src/wasm/src/lib.rs:151-168 | two budgets that both suffice give the same sequence |
| WasmCollatz.TestSequencesSmall | src/wasm/src/collatz.rs:8-37 | the sequences of 1, 2 and 4 are [1], [2, 1] and [4, 2, 1] |
| WasmCollatz.TestSequenceThree | src/wasm/src/collatz.rs:23-29 | the sequence of 3 is [3, 10, 5, 16, 8, 4, 2, 1], of length 8 |
| WasmCollatz.SequenceTwentySeven | src/components/CollatzVisualizer.js:9 | the sequence from the starting seed 27 has 112 values, reaches 9232, and no value exceeds 9232 |
| WasmCollatz.CalculateSequence | src/wasm/src/lib.rs:151-168 | the pushed values are the sequence from n |
| WasmCollatz.GetSequenceLength | src/wasm/src/lib.rs:171-193 | 0 for n = 0; otherwise the length of the sequence from n, counted without building it |
| WasmCollatz.FindMaxSequenceInfo | src/wasm/src/lib.rs:197-210 | [m, L] where L is the longest sequence length over 1..=limit and m the first seed in range that reaches it; [1, 1] when limit is 0 |
| WasmCollatz.CalculateMultipleSequences | src/wasm/src/lib.rs:215-227 | the result is, for each input in order, its sequence's length followed by the sequence |
| WasmCollatz.DecodeFramed | src/wasm/src/lib.rs:215-227 | a length-prefix decoder recovers any lists from their concatenated length-prefixed encoding |
| WasmCollatz.DecodeFlatten | src/wasm/src/lib.rs:215-227 | decoding the flat result gives back every input's sequence, in order |
| WasmCollatz.FramedSize | src/wasm/src/lib.rs:215-227 | the flat result has one length word per input plus the elements of all sequences |
| JsCollatz.GuardIsExact | src/components/CollatzVisualizer.js:50 | the integer test equals the source's real-division test `current > MAX_SAFE_INTEGER / 3`, and it lets an integer through iff 3 * current + 1 is still a safe integer |
| JsCollatz.Run | src/components/CollatzVisualizer.js:42-59 | the array holds at least the seed and at most one element per step of the budget, plus two |
| JsCollatz.RunShape | src/components/CollatzVisualizer.js:42-59 | the array starts at the seed, follows the Collatz step, and ends in 1 or in `Infinity` right after the value the guard stopped |
| JsCollatz.RunBounded | src/components/CollatzVisualizer.js:50-54 | no number in the array exceeds max(seed, 2^53 - 1) |
| JsCollatz.OverflowOnlyLast | src/components/CollatzVisualizer.js:45-53 | `Infinity` can only be the last element |
| JsCollatz.ValuesBounded | src/components/CollatzVisualizer.js:50-54 | every number of the result is at most max(seed, 2^53 - 1) |
| JsCollatz.RunUnique | src/components/CollatzVisualizer.js:42-59 | any array with that shape is the loop's array: it does not depend on the budget |
| JsCollatz.CalculateCollatzSequence | src/components/CollatzVisualizer.js:39-60 | [0] for a seed <= 0, otherwise the loop's array from the seed |
| JsCollatz.FindMaxSequenceInRange | src/components/CollatzVisualizer.js:62-75 | for limit >= 1, the first seed in 1..limit whose array is longest, with that length; { number: 1, length: 0 } when limit < 1 |
| JsCollatz.RangeSearchesAgree | src/components/CollatzVisualizer.js:62-75 | for limit >= 1, where no odd Rust value trips the JavaScript guard, `find_max_sequence_info` (lib.rs:197-210) and `findMaxSequenceInRange` give the same seed and the same length |
| JsCollatz.EmptyRangeSearchesDiffer | src/components/CollatzVisualizer.js:62-75 | for limit 0 the searches differ: Rust gives [1, 1] (lib.rs:197-210), JavaScript { number: 1, length: 0 } |
| JsCollatz.BackendsAgree | src/components/CollatzVisualizer.js:39-60 | where no odd value of the Rust sequence trips the JavaScript guard, the only values the guard is tested on (lines 46-50), both backends build the same sequence: each u64 as the same integer, no `Infinity` |
| JsCollatz.BackendsAgreeEvenAboveGuard | src/components/CollatzVisualizer.js:46-50 | the even seed 2^52 is above MAX_SAFE_INTEGER / 3 yet only halves, so both backends build the same sequence from it |
| Visualizer.CollatzVisualizer.constructor | src/components/CollatzVisualizer.js:9-13 | the seed starts at 27, the sequence empty, and the maximum fields 0 |
| Visualizer.CollatzVisualizer.HandleNumberChange | src/components/CollatzVisualizer.js:229-234 | the parsed value replaces the seed only when it is a number > 0, so the seed stays positive |
| Visualizer.CollatzVisualizer.FindMaxSequence | src/components/CollatzVisualizer.js:101-135 | searches 1..min(seed, 10000) on the Rust path or 1..min(seed, 1000) on the fallback; the winner becomes the seed (still positive, never larger), its sequence is shown, and no seed in range has a longer one |
| Rng.NextStateFormula | src/wasm/src/utils.rs:22 | `wrapping_mul` followed by `wrapping_add` gives (state * 1103515245 + 12345) mod 2^64: wrapping after each operation is wrapping once at the end |
| Rng.PrevNext | src/wasm/src/utils.rs:21-24 | one draw can be undone: the multiplier is odd and has an inverse modulo 2^64 |
| Rng.NextStateInjective | src/wasm/src/utils.rs:21-24 | distinct states lead to distinct next states |
| Rng.Outputs | src/wasm/src/utils.rs:21-24 | k draws produce k values |
| Rng.OutputsAt | src/wasm/src/utils.rs:21-24 | the i-th value drawn is the state after i + 1 steps |
| Rng.OutputsSplit | src/wasm/src/utils.rs:21-24 | drawing a + b values is drawing a values and then b more from where they left off |
| Rng.SimpleRng.constructor | src/wasm/src/utils.rs:17-19 | `new(seed)` stores the seed unchanged as the state |
| Rng.SimpleRng.Next | src/wasm/src/utils.rs:21-24 | `next` advances the state by one step and returns the new state |
| Rng.SimpleRng.NextFloatNumerator | src/wasm/src/utils.rs:26-28 | `next_float` advances the state exactly once, and its numerator `next() % 1000` lies in 0..999 |
| Rng.Draw | src/wasm/src/utils.rs:21-24 | k successive `next` calls return the first k values of the stream and leave the state k steps on |
| Rng.SameSeedSameStream | src/wasm/src/utils.rs:11-24 | two generators built from the same seed draw identical values |

## Left out

- `randomize` in both backends calls `Math::random` / `Math.random` and compares floats. It is not modelled.
- The float division by 1000.0 in `next_float` is not modelled: `NextFloatNumerator` stops at the integer numerator.
- Timers, the placeholder memory estimate and the benchmark functions read the wall clock. They are not modelled.
- The animation loop, the FPS display, canvas drawing (`draw`, `drawSequence`) and React effect scheduling are UI. They are not modelled.
- The asynchronous `init()`, the `try`/`catch` fallback, the early return of `findMaxSequence` while a calculation is running (CollatzVisualizer.js:102) and `calculateSequence`, which only forwards to one backend, are not modelled. Instead, `FindMaxSequence` takes `wasmOk`, whether the WebAssembly call succeeds, as a parameter.
- The `wasm_bindgen` boundary, `main_js` and the conversion of a JavaScript number to `u64` are not modelled. `FindMaxSequence` passes its clamped limit, which is at most 10000, as a `u64`.
- JsCollatz.FromWasm: a `Vec<u64>` reaches JavaScript as a `BigUint64Array`, so `Array.from` yields BigInts rather than Numbers. The model keeps only the integer values, so `Visualizer.CollatzVisualizer.FindMaxSequence` does not distinguish a BigInt sequence from a Number one.
- Rust `usize` is an unbounded `nat` here. At the grid sizes the component uses, `width * height` and the sequence lengths fit easily.
- JavaScript numbers are exact integers here: the model has no fractional seeds. Values above 2^53 - 1 occur only when the seed is above it, and then none exceeds the seed (JsCollatz.RunBounded); they arise from halving the seed while it stays above the guard. The model does not round them as doubles would.
- `Infinity` is the separate element `Overflow`.
- `trim` removes ASCII whitespace only: no other Unicode white space and no line terminators other than ASCII ones. `lines()` is modelled as a split at '\n', so a "\r\n" line ending keeps its '\r'.
- WasmCollatz.CalculateSequence, WasmCollatz.GetSequenceLength, WasmCollatz.FindMaxSequenceInfo, WasmCollatz.CalculateMultipleSequences, JsCollatz.CalculateCollatzSequence, JsCollatz.FindMaxSequenceInRange, Visualizer.CollatzVisualizer.FindMaxSequence: partial correctness only. Each requires that the sequences it computes end within a ghost step budget, because termination is the Collatz conjecture.
- WasmCollatz.CalculateSequence, WasmCollatz.GetSequenceLength, WasmCollatz.FindMaxSequenceInfo, WasmCollatz.CalculateMultipleSequences: they use the corrected guard (see Findings), not `n > u64::MAX / 3` as written. The last two reach the guard through `get_sequence_length` (lib.rs:202) and `calculate_sequence` (lib.rs:221).
- JsCollatz.BackendsAgree and JsCollatz.RangeSearchesAgree relate the backends only where no odd value trips the JavaScript guard. For limit 0 the range searches differ, as EmptyRangeSearchesDiffer shows. The component clamps the two searches to different limits (10000 and 1000), so on one click they search different ranges.
- Neither class checks that the dimensions are positive, and the model adds no such check. There is no generation counter either: neither `tick` keeps one.
- In Rust any non-alive glyph, '.' included, writes 0. In JavaScript it leaves the cell as it was. Each loader is modelled as its own code does, and `LoadDiffers` shows the difference.
- JsLife.JSGameOfLife.LoadPattern, LifeComponent.LoadCorresponds: patterns are assumed to be ASCII. A Dafny `char` is a Unicode scalar value, which matches Rust's `chars()`. JavaScript's `lines[y][x]` and `length` count UTF-16 code units, so a character outside the Basic Multilingual Plane would shift the later JavaScript columns. The model does not capture that shift.
- The pattern constants of `src/wasm/src/game_of_life.rs` are not loaded anywhere in the model.
- No concrete tick, such as a blinker's period 2, is worked through. The rule is stated for every grid (`StepAt`, `Tick`).
- No concrete range search is worked through, such as the one up to 30, which should give { 27, 112 }. It would need the sequences of all 30 seeds. The search is stated for every limit (`FindMaxSequenceInfo`, `FindMaxSequenceInRange`), and the sequence from 27 is worked out (`SequenceTwentySeven`).

## Findings

| source | as written | input that shows it | evidently intended | confidence | as-written member | corrected member |
|---|---|---|---|---|---|---|
| src/wasm/src/lib.rs:159-162 | An odd `n` is stopped only when `n > u64::MAX / 3`, so n = u64::MAX / 3 passes. Then `3 * n + 1` = 2^64 does not fit in a u64. A debug build panics. A release build wraps to 0, and the loop from 0 never ends. The same guard appears in `get_sequence_length` at line 184. | n = 6148914691236517205 (0x5555_5555_5555_5555) | stop every odd n with 3n + 1 > u64::MAX, i.e. n > (u64::MAX - 1) / 3 = 0x5555_5555_5555_5554 | not executed | WasmCollatz.AsWrittenGuardAdmitsOverflow | WasmCollatz.GuardIsExact |
