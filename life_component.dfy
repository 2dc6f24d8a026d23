/**
 * The React component of src/components/GameOfLife.js drives either backend
 * through the same calls.  This module holds its grid size, its "Load
 * Glider" handler for each backend, and the facts that make the two
 * backends interchangeable (and the one place where they are not).
 */
module LifeComponent {
  import opened LifeRule
  import opened Pattern
  import WasmLife
  import JsLife

  const CANVAS_WIDTH: nat := 800
  const CANVAS_HEIGHT: nat := 600
  const CELL_SIZE: nat := 4
  const GRID_WIDTH: nat := CANVAS_WIDTH / CELL_SIZE
  const GRID_HEIGHT: nat := CANVAS_HEIGHT / CELL_SIZE

  /** The template literal `handleLoadGlider` passes, blank first line and indented last line included. */
  const GLIDER_TEXT: string := "\n.O.\n..O\nOOO\n        "

  /** The live cells the glider occupies once loaded at (10, 10). */
  predicate InLoadedGlider(cx: int, cy: int) {
    (cx, cy) == (11, 10) || (cx, cy) == (12, 11) || (cx, cy) == (10, 12) || (cx, cy) == (11, 12) || (cx, cy) == (12, 12)
  }

  /** The glider text trims to three lines, the same for `split('\n')` and for `lines()`. */
  lemma GliderLines()
    ensures Trim(GLIDER_TEXT) == ".O.\n..O\nOOO"
    ensures Split(Trim(GLIDER_TEXT)) == [".O.", "..O", "OOO"]
    ensures RustLines(Trim(GLIDER_TEXT)) == [".O.", "..O", "OOO"]
  {
    GliderTrimmed();
    GliderSplit();
  }

  lemma GliderSplit()
    ensures Split(".O.\n..O\nOOO") == [".O.", "..O", "OOO"]
  {
    GliderJoined();
    SplitJoin([".O.", "..O", "OOO"]);
  }

  lemma GliderJoined()
    ensures Join([".O.", "..O", "OOO"]) == ".O.\n..O\nOOO"
  {
    assert [".O.", "..O", "OOO"][1..] == ["..O", "OOO"];
    assert ["..O", "OOO"][1..] == ["OOO"];
  }

  lemma GliderTrimmed()
    ensures Trim(GLIDER_TEXT) == ".O.\n..O\nOOO"
  {
    GliderPieces();
    TrimStartBlanks("\n", ".O.\n..O\nOOO\n        ");
    TrimEndBlanks(".O.\n..O\nOOO", "\n        ");
  }

  /** The glider text is one blank line, the three rows, and a blank indented line. */
  lemma GliderPieces()
    ensures GLIDER_TEXT == "\n" + ".O.\n..O\nOOO\n        "
    ensures ".O.\n..O\nOOO\n        " == ".O.\n..O\nOOO" + "\n        "
  {
  }

  /** The glyph the loaded glider puts at (cx, cy) is alive exactly on the five glider cells. */
  lemma GliderGlyphs(cx: int, cy: int)
    ensures var g := GlyphAt([".O.", "..O", "OOO"], 10, 10, cx, cy);
      (g.Some? && IsAliveGlyph(g.value)) <==> InLoadedGlider(cx, cy)
  {
  }

  /**
   * `handleLoadGlider` on the JavaScript backend: `clear()` then
   * `loadPattern(glider, 10, 10)` leaves exactly the five glider cells alive.
   */
  method HandleLoadGliderJs(game: JsLife.JSGameOfLife)
    requires game.Valid() && game.width == GRID_WIDTH && game.height == GRID_HEIGHT
    modifies game.cells
    ensures forall cx, cy :: InBounds(GRID_WIDTH, GRID_HEIGHT, cx, cy) ==>
      0 <= Idx(GRID_WIDTH, cx, cy) < game.cells.Length && (game.cells[Idx(GRID_WIDTH, cx, cy)] <==> InLoadedGlider(cx, cy))
  {
    game.Clear();
    ghost var cleared := game.cells[..];
    game.LoadPattern(GLIDER_TEXT, 10, 10);
    GliderLines();
    forall cx, cy | InBounds(GRID_WIDTH, GRID_HEIGHT, cx, cy)
      ensures 0 <= Idx(GRID_WIDTH, cx, cy) < game.cells.Length
      ensures game.cells[Idx(GRID_WIDTH, cx, cy)] <==> InLoadedGlider(cx, cy)
    {
      JsLife.LoadedAt(cleared, [".O.", "..O", "OOO"], 10, 10, GRID_WIDTH, GRID_HEIGHT, cx, cy);
      GliderGlyphs(cx, cy);
    }
  }

  /**
   * `handleLoadGlider` on the WebAssembly backend: `clear()` then
   * `load_pattern(glider, 10, 10)` leaves 1 on exactly the five glider cells.
   */
  method HandleLoadGliderWasm(game: WasmLife.GameOfLife)
    requires game.Valid() && game.width == GRID_WIDTH && game.height == GRID_HEIGHT
    modifies game.cells
    ensures game.Valid()
    ensures forall cx, cy :: InBounds(GRID_WIDTH, GRID_HEIGHT, cx, cy) ==>
      0 <= Idx(GRID_WIDTH, cx, cy) < game.cells.Length
      && game.cells[Idx(GRID_WIDTH, cx, cy)] == WasmLife.Encode(InLoadedGlider(cx, cy))
  {
    game.Clear();
    ghost var cleared := game.cells[..];
    game.LoadPattern(GLIDER_TEXT, 10, 10);
    GliderLines();
    forall cx, cy | InBounds(GRID_WIDTH, GRID_HEIGHT, cx, cy)
      ensures 0 <= Idx(GRID_WIDTH, cx, cy) < game.cells.Length
      ensures game.cells[Idx(GRID_WIDTH, cx, cy)] == WasmLife.Encode(InLoadedGlider(cx, cy))
    {
      WasmLife.LoadedAt(cleared, [".O.", "..O", "OOO"], 10, 10, GRID_WIDTH, GRID_HEIGHT, cx, cy);
      GliderGlyphs(cx, cy);
    }
  }

  /**
   * The two `tick`s agree: from a byte buffer that encodes a boolean grid,
   * the Rust tick yields the encoding of the JavaScript tick's grid.
   */
  lemma TickCorresponds(alive: seq<bool>, width: nat, height: nat)
    requires |alive| == width * height
    ensures WasmLife.EncodeAll(Step(WasmLife.View(WasmLife.EncodeAll(alive)), width, height))
         == WasmLife.EncodeAll(Step(alive, width, height))
  {
    WasmLife.ViewEncodeAll(alive);
  }

  /** The two `render`s agree: the JavaScript 0/1 array equals the Rust buffer of the same grid. */
  lemma RenderCorresponds(game: JsLife.JSGameOfLife)
    ensures |game.Render()| == game.cells.Length
    ensures forall i :: 0 <= i < game.cells.Length ==> game.Render()[i] == WasmLife.EncodeAll(game.cells[..])[i] as int
  {
  }

  /**
   * The two loaders agree whenever no non-alive glyph lands on a live
   * cell, in particular on a cleared grid.
   */
  lemma LoadCorresponds(alive: seq<bool>, lines: seq<string>, x0: int, y0: int, width: nat, height: nat)
    requires |alive| == width * height
    requires forall cx, cy :: GlyphAt(lines, x0, y0, cx, cy).Some? && !IsAliveGlyph(GlyphAt(lines, x0, y0, cx, cy).value)
               ==> CellValue(alive, width, height, cx, cy) == 0
    ensures WasmLife.Loaded(WasmLife.EncodeAll(alive), lines, x0, y0, width, height)
         == WasmLife.EncodeAll(JsLife.Loaded(alive, lines, x0, y0, width, height))
  {
    var r := WasmLife.Loaded(WasmLife.EncodeAll(alive), lines, x0, y0, width, height);
    var j := WasmLife.EncodeAll(JsLife.Loaded(alive, lines, x0, y0, width, height));
    forall i | 0 <= i < |alive|
      ensures r[i] == j[i]
    {
      CoordsOf(width, height, i);
      var cx, cy := i % width, i / width;
      WasmLife.LoadedAt(WasmLife.EncodeAll(alive), lines, x0, y0, width, height, cx, cy);
      JsLife.LoadedAt(alive, lines, x0, y0, width, height, cx, cy);
      assert CellValue(alive, width, height, cx, cy) == if alive[i] then 1 else 0;
    }
  }

  /**
   * Where the loaders differ: on a one-cell live grid, loading "." kills the
   * cell in Rust and leaves it alive in JavaScript.
   */
  lemma LoadDiffers()
    ensures WasmLife.Loaded([1], ["."], 0, 0, 1, 1) == [0]
    ensures JsLife.Loaded([true], ["."], 0, 0, 1, 1) == [true]
  {
  }
}
