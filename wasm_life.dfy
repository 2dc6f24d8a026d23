/**
 * The Rust/WebAssembly `GameOfLife` of src/wasm/src/lib.rs: a grid of
 * `width * height` cells stored row-major in a `Vec<u8>` holding 0 (dead)
 * or 1 (alive), updated in place.
 */
module WasmLife {
  import opened Wrappers
  import opened LifeRule
  import opened Pattern

  newtype u8 = x: int | 0 <= x < 256

  /** The byte the source stores for a cell: 1 alive, 0 dead. */
  function Encode(alive: bool): u8 {
    if alive then 1 else 0
  }

  /** A buffer seen as live/dead cells: a cell is alive iff it holds 1, the test the source makes. */
  function View(cells: seq<u8>): seq<bool> {
    seq(|cells|, i requires 0 <= i < |cells| => cells[i] == 1)
  }

  /** An in-bounds cell counts 1 in the live view exactly when its byte is 1. */
  lemma ViewCellValue(cells: seq<u8>, width: nat, height: nat, x: int, y: int)
    requires |cells| == width * height && InBounds(width, height, x, y)
    ensures 0 <= Idx(width, x, y) < |cells|
    ensures CellValue(View(cells), width, height, x, y) == if cells[Idx(width, x, y)] == 1 then 1 else 0
  {
    IdxInRange(width, height, x, y);
  }

  /**
   * One slot of the neighbour scan over a buffer: the running count grows by
   * 1 exactly when the slot is a neighbour on the grid holding 1, and stays
   * within the bound that keeps it a byte.
   */
  lemma NeighborStep(cells: seq<u8>, width: nat, height: nat, x: int, y: int, dx: int, dy: int)
    requires |cells| == width * height && -1 <= dx <= 1 && -1 <= dy <= 1
    ensures PartialCount(View(cells), width, height, x, y, 3 * (dy + 1) + (dx + 1)) <= 8
    ensures InBounds(width, height, x + dx, y + dy) ==> 0 <= Idx(width, x + dx, y + dy) < |cells|
    ensures PartialCount(View(cells), width, height, x, y, 3 * (dy + 1) + (dx + 1) + 1)
         == PartialCount(View(cells), width, height, x, y, 3 * (dy + 1) + (dx + 1))
            + if (dx == 0 && dy == 0) || !InBounds(width, height, x + dx, y + dy) then 0
              else if cells[Idx(width, x + dx, y + dy)] == 1 then 1 else 0
  {
    PartialCountBound(View(cells), width, height, x, y, 3 * (dy + 1) + (dx + 1));
    CountStep(View(cells), width, height, x, y, dx, dy);
    if InBounds(width, height, x + dx, y + dy) {
      ViewCellValue(cells, width, height, x + dx, y + dy);
    }
  }

  /** The buffer holding the given live/dead cells. */
  function EncodeAll(alive: seq<bool>): seq<u8> {
    seq(|alive|, i requires 0 <= i < |alive| => Encode(alive[i]))
  }

  /** Encoding then reading back gives the cells again. */
  lemma ViewEncodeAll(alive: seq<bool>)
    ensures View(EncodeAll(alive)) == alive
  {
    assert forall i :: 0 <= i < |alive| ==> View(EncodeAll(alive))[i] == alive[i];
  }

  /** A 0/1 buffer is the encoding of its own view. */
  lemma EncodeAllView(cells: seq<u8>)
    requires forall i :: 0 <= i < |cells| ==> cells[i] <= 1
    ensures EncodeAll(View(cells)) == cells
  {
    assert forall i :: 0 <= i < |cells| ==> EncodeAll(View(cells))[i] == cells[i];
  }

  /**
   * The buffer after `load_pattern` of the lines `lines` at (x0, y0): each
   * in-bounds cell under a glyph holds 1 for an alive glyph and 0 for any
   * other glyph; every other cell keeps its value.
   */
  function Loaded(cells: seq<u8>, lines: seq<string>, x0: int, y0: int, width: nat, height: nat): (r: seq<u8>)
    requires |cells| == width * height
    ensures |r| == |cells|
  {
    seq(|cells|, i requires 0 <= i < |cells| =>
      CoordsOf(width, height, i);
      match GlyphAt(lines, x0, y0, i % width, i / width)
      case Some(c) => Encode(IsAliveGlyph(c))
      case None => cells[i])
  }

  /** The loaded buffer cell by cell, in grid coordinates. */
  lemma LoadedAt(cells: seq<u8>, lines: seq<string>, x0: int, y0: int, width: nat, height: nat, cx: int, cy: int)
    requires |cells| == width * height && InBounds(width, height, cx, cy)
    ensures 0 <= Idx(width, cx, cy) < |cells|
    ensures Loaded(cells, lines, x0, y0, width, height)[Idx(width, cx, cy)]
         == match GlyphAt(lines, x0, y0, cx, cy)
            case Some(c) => Encode(IsAliveGlyph(c))
            case None => cells[Idx(width, cx, cy)]
  {
    IdxInRange(width, height, cx, cy);
    IdxCoords(width, cx, cy);
  }

  /** A pattern with no lines changes nothing. */
  lemma LoadedNothing(cells: seq<u8>, x0: int, y0: int, width: nat, height: nat)
    requires |cells| == width * height
    ensures Loaded(cells, [], x0, y0, width, height) == cells
  {
  }

  /** One more glyph of the scan writes its own cell, when that cell is on the grid, and nothing else. */
  lemma LoadedVisitNext(cells: seq<u8>, lines: seq<string>, row: nat, col: nat, x0: int, y0: int, width: nat, height: nat)
    requires |cells| == width * height
    requires row < |lines| && col < |lines[row]|
    ensures InBounds(width, height, x0 + col, y0 + row) ==> 0 <= Idx(width, x0 + col, y0 + row) < |cells|
    ensures Loaded(cells, Visited(lines, row, col + 1), x0, y0, width, height)
         == if InBounds(width, height, x0 + col, y0 + row)
            then Loaded(cells, Visited(lines, row, col), x0, y0, width, height)
                   [Idx(width, x0 + col, y0 + row) := Encode(IsAliveGlyph(lines[row][col]))]
            else Loaded(cells, Visited(lines, row, col), x0, y0, width, height)
  {
    var cx, cy := x0 + col, y0 + row;
    var before := Loaded(cells, Visited(lines, row, col), x0, y0, width, height);
    var after := Loaded(cells, Visited(lines, row, col + 1), x0, y0, width, height);
    forall i | 0 <= i < |cells|
      ensures after[i] == if InBounds(width, height, cx, cy) && i == Idx(width, cx, cy)
                          then Encode(IsAliveGlyph(lines[row][col])) else before[i]
    {
      CoordsOf(width, height, i);
      GlyphAtVisitNext(lines, row, col, x0, y0, i % width, i / width);
      if InBounds(width, height, cx, cy) && i == Idx(width, cx, cy) {
        IdxCoords(width, cx, cy);
      }
    }
    if InBounds(width, height, cx, cy) {
      IdxInRange(width, height, cx, cy);
    }
  }

  /**
   * The scan's step as the loop takes it: if `next` is `cur` with the glyph at
   * (row, col) written, when its cell is on the grid, and `cur` is the
   * buffer after the glyphs before it, then `next` is the buffer after that glyph too.
   */
  lemma LoadedStep(cells: seq<u8>, lines: seq<string>, row: nat, col: nat, x0: int, y0: int, width: nat, height: nat,
                   cur: seq<u8>, next: seq<u8>)
    requires |cells| == width * height
    requires row < |lines| && col < |lines[row]|
    requires cur == Loaded(cells, Visited(lines, row, col), x0, y0, width, height)
    requires if InBounds(width, height, x0 + col, y0 + row)
             then 0 <= Idx(width, x0 + col, y0 + row) < |cur|
                  && next == cur[Idx(width, x0 + col, y0 + row) := Encode(IsAliveGlyph(lines[row][col]))]
             else next == cur
    ensures next == Loaded(cells, Visited(lines, row, col + 1), x0, y0, width, height)
  {
    LoadedVisitNext(cells, lines, row, col, x0, y0, width, height);
  }

  lemma LoadedVisitStart(cells: seq<u8>, lines: seq<string>, row: nat, x0: int, y0: int, width: nat, height: nat)
    requires |cells| == width * height && row < |lines|
    ensures Loaded(cells, Visited(lines, row, 0), x0, y0, width, height) == Loaded(cells, lines[..row], x0, y0, width, height)
  {
    forall i | 0 <= i < |cells|
      ensures Loaded(cells, Visited(lines, row, 0), x0, y0, width, height)[i] == Loaded(cells, lines[..row], x0, y0, width, height)[i]
    {
      CoordsOf(width, height, i);
      GlyphAtVisitStart(lines, row, x0, y0, i % width, i / width);
    }
  }

  class GameOfLife {
    const width: nat
    const height: nat
    var cells: array<u8>

    /** The buffer has one byte per cell, and every byte is 0 or 1. */
    ghost predicate Valid()
      reads this, cells
    {
      cells.Length == width * height && forall i :: 0 <= i < cells.Length ==> cells[i] <= 1
    }

    /** `GameOfLife::new`: `width * height` dead cells; no check on the dimensions. */
    constructor (width: nat, height: nat)
      ensures Valid() && fresh(cells)
      ensures this.width == width && this.height == height
      ensures cells.Length == width * height && forall i :: 0 <= i < cells.Length ==> cells[i] == 0
    {
      this.width := width;
      this.height := height;
      cells := new u8[width * height](_ => 0);
    }

    /** `get_index`: the row-major position of (x, y), from which x and y can be read back. */
    function GetIndex(x: nat, y: nat): (idx: nat)
      requires x < width && y < height
      ensures idx < width * height
      ensures idx % width == x && idx / width == y
    {
      IdxInRange(width, height, x, y);
      IdxCoords(width, x, y);
      Idx(width, x, y)
    }

    /** `live_neighbor_count`: the live in-bounds Moore neighbours of (x, y), scanned row by row. */
    method LiveNeighborCount(x: nat, y: nat) returns (count: u8)
      requires Valid() && x < width && y < height
      ensures count as int == LiveNeighbors(View(cells[..]), width, height, x, y)
      ensures count <= 8
    {
      ghost var alive := View(cells[..]);
      count := 0;
      for dy := -1 to 2
        invariant count as int == PartialCount(alive, width, height, x, y, 3 * (dy + 1))
      {
        for dx := -1 to 2
          invariant count as int == PartialCount(alive, width, height, x, y, 3 * (dy + 1) + (dx + 1))
        {
          NeighborStep(cells[..], width, height, x, y, dx, dy);
          if dx == 0 && dy == 0 {
            continue;
          }
          var nx := x + dx;
          var ny := y + dy;
          if nx >= 0 && nx < width && ny >= 0 && ny < height {
            var idx := GetIndex(nx, ny);
            if cells[idx] == 1 {
              count := count + 1;
            }
          }
        }
      }
      NeighborsAtMostEight(alive, width, height, x, y);
    }

    /**
     * `tick`: every cell of the next generation is computed from the old
     * buffer into a fresh copy, which then replaces the buffer.
     */
    method Tick()
      requires Valid()
      modifies this
      ensures Valid() && fresh(cells)
      ensures cells[..] == EncodeAll(Step(View(old(cells[..])), width, height))
    {
      var newCells := new u8[cells.Length];
      forall i | 0 <= i < cells.Length {
        newCells[i] := cells[i];
      }
      ghost var alive := View(cells[..]);
      assert alive == View(old(cells[..]));
      ghost var next := EncodeAll(Step(alive, width, height));
      assert |next| == newCells.Length == cells.Length;
      ghost var done: nat := 0;  // cells written so far, which is also the position of the next one
      for y: nat := 0 to height
        invariant cells == old(cells) && Valid()
        invariant done == y * width && done <= newCells.Length
        invariant forall i :: 0 <= i < done ==> newCells[i] == next[i]
        invariant forall i :: done <= i < newCells.Length ==> newCells[i] == cells[i]
      {
        for x: nat := 0 to width
          invariant cells == old(cells) && Valid()
          invariant done == y * width + x && done <= newCells.Length
          invariant forall i :: 0 <= i < done ==> newCells[i] == next[i]
          invariant forall i :: done <= i < newCells.Length ==> newCells[i] == cells[i]
        {
          var idx := GetIndex(x, y);
          assert idx == done;
          var liveNeighbors := LiveNeighborCount(x, y);
          var currentAlive := cells[idx] == 1;
          // the arms (true, 2) | (true, 3) => 1, (false, 3) => 1, _ => 0
          newCells[idx] :=
            if (currentAlive && (liveNeighbors == 2 || liveNeighbors == 3)) || (!currentAlive && liveNeighbors == 3)
            then 1 else 0;
          StepAt(alive, width, height, x, y);
          done := done + 1;
        }
        assert y * width + width == (y + 1) * width;
      }
      assert done == height * width == newCells.Length;
      assert newCells[..] == next;
      cells := newCells;
    }

    /** `render`: a copy of the buffer; the grid is left as it is. */
    method Render() returns (snapshot: seq<u8>)
      requires Valid()
      ensures snapshot == cells[..]
      ensures |snapshot| == width * height && forall i :: 0 <= i < |snapshot| ==> snapshot[i] <= 1
    {
      snapshot := cells[..];
    }

    /** `set_cell`: writes 1 or 0 at (x, y) when it is on the grid; off the grid nothing happens. */
    method SetCell(x: nat, y: nat, alive: bool)
      requires Valid()
      modifies cells
      ensures Valid()
      ensures if x < width && y < height
              then 0 <= Idx(width, x, y) < cells.Length && cells[..] == old(cells[..])[Idx(width, x, y) := Encode(alive)]
              else cells[..] == old(cells[..])
    {
      if x < width && y < height {
        var idx := GetIndex(x, y);
        cells[idx] := if alive then 1 else 0;
      }
    }

    /** `clear`: every cell dead, size unchanged. */
    method Clear()
      requires Valid()
      modifies cells
      ensures Valid()
      ensures forall i :: 0 <= i < cells.Length ==> cells[i] == 0
    {
      for i := 0 to cells.Length
        invariant forall k :: 0 <= k < i ==> cells[k] == 0
        invariant forall k :: i <= k < cells.Length ==> cells[k] == old(cells[k])
      {
        cells[i] := 0;
      }
    }

    /**
     * `load_pattern`: the trimmed pattern's lines are laid on the grid at
     * (x, y); every in-bounds cell under a glyph becomes 1 for 'O', '1' or
     * '*' and 0 for any other glyph; cells off the pattern keep their value.
     */
    method LoadPattern(pattern: string, x: nat, y: nat)
      requires Valid()
      modifies cells
      ensures Valid()
      ensures cells[..] == Loaded(old(cells[..]), RustLines(Trim(pattern)), x, y, width, height)
    {
      var lines := RustLines(Trim(pattern));
      ghost var before := cells[..];
      LoadedNothing(before, x, y, width, height);
      for dy: nat := 0 to |lines|
        invariant Valid()
        invariant cells[..] == Loaded(before, lines[..dy], x, y, width, height)
      {
        var line := lines[dy];
        LoadedVisitStart(before, lines, dy, x, y, width, height);
        for dx: nat := 0 to |line|
          invariant Valid()
          invariant cells[..] == Loaded(before, Visited(lines, dy, dx), x, y, width, height)
        {
          ghost var prev := cells[..];
          var cellX := x + dx;
          var cellY := y + dy;
          if cellX < width && cellY < height {
            var ch := line[dx];
            var alive := ch == 'O' || ch == '1' || ch == '*';
            SetCell(cellX, cellY, alive);
          }
          LoadedStep(before, lines, dy, dx, x, y, width, height, prev, cells[..]);
        }
        VisitedRowDone(lines, dy);
      }
      assert lines[..|lines|] == lines;
    }
  }
}
