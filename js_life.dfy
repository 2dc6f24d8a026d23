/**
 * The JavaScript fallback `JSGameOfLife` of src/components/GameOfLife.js:
 * the same row-major grid, stored as an array of booleans, with integer
 * coordinates that may be negative.
 */
module JsLife {
  import opened Wrappers
  import opened LifeRule
  import opened Pattern

  /**
   * The cells after `loadPattern` of the lines `lines` at (x0, y0): each
   * in-bounds cell under an alive glyph becomes alive; every other cell,
   * including one under '.' or any other glyph, keeps its state.
   */
  function Loaded(cells: seq<bool>, lines: seq<string>, x0: int, y0: int, width: nat, height: nat): (r: seq<bool>)
    requires |cells| == width * height
    ensures |r| == |cells|
  {
    seq(|cells|, i requires 0 <= i < |cells| =>
      CoordsOf(width, height, i);
      match GlyphAt(lines, x0, y0, i % width, i / width)
      case Some(c) => if IsAliveGlyph(c) then true else cells[i]
      case None => cells[i])
  }

  /** The loaded grid cell by cell, in grid coordinates. */
  lemma LoadedAt(cells: seq<bool>, lines: seq<string>, x0: int, y0: int, width: nat, height: nat, cx: int, cy: int)
    requires |cells| == width * height && InBounds(width, height, cx, cy)
    ensures 0 <= Idx(width, cx, cy) < |cells|
    ensures Loaded(cells, lines, x0, y0, width, height)[Idx(width, cx, cy)]
        <==> cells[Idx(width, cx, cy)]
             || (GlyphAt(lines, x0, y0, cx, cy).Some? && IsAliveGlyph(GlyphAt(lines, x0, y0, cx, cy).value))
  {
    IdxInRange(width, height, cx, cy);
    IdxCoords(width, cx, cy);
  }

  /** Loading never kills a cell. */
  lemma LoadedOnlyAdds(cells: seq<bool>, lines: seq<string>, x0: int, y0: int, width: nat, height: nat)
    requires |cells| == width * height
    ensures forall i :: 0 <= i < |cells| && cells[i] ==> Loaded(cells, lines, x0, y0, width, height)[i]
  {
  }

  lemma LoadedNothing(cells: seq<bool>, x0: int, y0: int, width: nat, height: nat)
    requires |cells| == width * height
    ensures Loaded(cells, [], x0, y0, width, height) == cells
  {
  }

  /** One more glyph of the scan makes its own cell alive when it is an alive glyph on the grid, and nothing else. */
  lemma LoadedVisitNext(cells: seq<bool>, lines: seq<string>, row: nat, col: nat, x0: int, y0: int, width: nat, height: nat)
    requires |cells| == width * height
    requires row < |lines| && col < |lines[row]|
    ensures InBounds(width, height, x0 + col, y0 + row) ==> 0 <= Idx(width, x0 + col, y0 + row) < |cells|
    ensures Loaded(cells, Visited(lines, row, col + 1), x0, y0, width, height)
         == if InBounds(width, height, x0 + col, y0 + row) && IsAliveGlyph(lines[row][col])
            then Loaded(cells, Visited(lines, row, col), x0, y0, width, height)[Idx(width, x0 + col, y0 + row) := true]
            else Loaded(cells, Visited(lines, row, col), x0, y0, width, height)
  {
    var cx, cy := x0 + col, y0 + row;
    var before := Loaded(cells, Visited(lines, row, col), x0, y0, width, height);
    var after := Loaded(cells, Visited(lines, row, col + 1), x0, y0, width, height);
    forall i | 0 <= i < |cells|
      ensures after[i] == if InBounds(width, height, cx, cy) && i == Idx(width, cx, cy) && IsAliveGlyph(lines[row][col])
                          then true else before[i]
    {
      CoordsOf(width, height, i);
      GlyphAtVisitNext(lines, row, col, x0, y0, i % width, i / width);
      if InBounds(width, height, cx, cy) && i == Idx(width, cx, cy) {
        IdxCoords(width, cx, cy);
      }
    }
    if InBounds(width, height, cx, cy) {
      IdxInRange(width, height, cx, cy);
    }
  }

  lemma LoadedVisitStart(cells: seq<bool>, lines: seq<string>, row: nat, x0: int, y0: int, width: nat, height: nat)
    requires |cells| == width * height && row < |lines|
    ensures Loaded(cells, Visited(lines, row, 0), x0, y0, width, height) == Loaded(cells, lines[..row], x0, y0, width, height)
  {
    forall i | 0 <= i < |cells|
      ensures Loaded(cells, Visited(lines, row, 0), x0, y0, width, height)[i] == Loaded(cells, lines[..row], x0, y0, width, height)[i]
    {
      CoordsOf(width, height, i);
      GlyphAtVisitStart(lines, row, x0, y0, i % width, i / width);
    }
  }

  class JSGameOfLife {
    const width: nat
    const height: nat
    var cells: array<bool>

    ghost predicate Valid()
      reads this
    {
      cells.Length == width * height
    }

    /** `new JSGameOfLife(width, height)`: `width * height` cells, all false; no check on the dimensions. */
    constructor (width: nat, height: nat)
      ensures Valid() && fresh(cells)
      ensures this.width == width && this.height == height
      ensures cells[..] == seq(width * height, _ => false)
    {
      this.width := width;
      this.height := height;
      cells := new bool[width * height](_ => false);
    }

    /** `getIndex`: `y * width + x`; for a cell on the grid, a position from which x and y can be read back. */
    function GetIndex(x: int, y: int): (idx: int)
      ensures InBounds(width, height, x, y) ==> 0 <= idx < width * height && idx % width == x && idx / width == y
    {
      if InBounds(width, height, x, y) then
        IdxInRange(width, height, x, y);
        IdxCoords(width, x, y);
        Idx(width, x, y)
      else
        Idx(width, x, y)
    }

    /** `liveNeighborCount`: the live in-bounds Moore neighbours of (x, y), for any integer x and y. */
    method LiveNeighborCount(x: int, y: int) returns (count: nat)
      requires Valid()
      ensures count == LiveNeighbors(cells[..], width, height, x, y)
      ensures count <= 8
    {
      ghost var alive := cells[..];
      count := 0;
      for dy := -1 to 2
        invariant count == PartialCount(alive, width, height, x, y, 3 * (dy + 1))
      {
        for dx := -1 to 2
          invariant count == PartialCount(alive, width, height, x, y, 3 * (dy + 1) + (dx + 1))
        {
          CountStep(alive, width, height, x, y, dx, dy);
          if dx == 0 && dy == 0 {
            continue;
          }
          var nx := x + dx;
          var ny := y + dy;
          if nx >= 0 && nx < width && ny >= 0 && ny < height {
            IdxInRange(width, height, nx, ny);
            if cells[GetIndex(nx, ny)] {
              count := count + 1;
            }
          }
        }
      }
      NeighborsAtMostEight(alive, width, height, x, y);
    }

    /**
     * `tick`: every cell of the next generation is computed from the old
     * array into a copy, which then replaces `this.cells`.
     */
    method Tick()
      requires Valid()
      modifies this
      ensures Valid() && fresh(cells)
      ensures cells[..] == Step(old(cells[..]), width, height)
    {
      var newCells := new bool[cells.Length];
      forall i | 0 <= i < cells.Length {
        newCells[i] := cells[i];
      }
      ghost var current := cells[..];
      assert current == old(cells[..]);
      ghost var next := Step(current, width, height);
      assert |next| == newCells.Length == cells.Length;
      ghost var done: nat := 0;  // cells written so far, which is also the position of the next one
      for y: nat := 0 to height
        invariant cells == old(cells) && Valid() && cells[..] == current
        invariant done == y * width && done <= newCells.Length
        invariant forall i :: 0 <= i < done ==> newCells[i] == next[i]
        invariant forall i :: done <= i < newCells.Length ==> newCells[i] == cells[i]
      {
        for x: nat := 0 to width
          invariant cells == old(cells) && Valid() && cells[..] == current
          invariant done == y * width + x && done <= newCells.Length
          invariant forall i :: 0 <= i < done ==> newCells[i] == next[i]
          invariant forall i :: done <= i < newCells.Length ==> newCells[i] == cells[i]
        {
          var idx := GetIndex(x, y);
          assert idx == done;
          var liveNeighbors := LiveNeighborCount(x, y);
          var currentAlive := cells[idx];
          newCells[idx] := (currentAlive && (liveNeighbors == 2 || liveNeighbors == 3))
                           || (!currentAlive && liveNeighbors == 3);
          StepAt(current, width, height, x, y);
          done := done + 1;
        }
        assert y * width + width == (y + 1) * width;
      }
      assert done == height * width == newCells.Length;
      assert newCells[..] == next;
      cells := newCells;
    }

    /** `render`: a new array with 1 for each live cell and 0 for each dead one; the grid is not touched. */
    function Render(): (snapshot: seq<int>)
      reads this, cells
      ensures |snapshot| == cells.Length
      ensures forall i :: 0 <= i < |snapshot| ==> (snapshot[i] == 1 <==> cells[i]) && (snapshot[i] == 0 <==> !cells[i])
    {
      seq(cells.Length, i reads this, cells requires 0 <= i < cells.Length => if cells[i] then 1 else 0)
    }

    /** `setCell`: writes `alive` at (x, y) when 0 <= x < width and 0 <= y < height; otherwise nothing happens. */
    method SetCell(x: int, y: int, alive: bool)
      requires Valid()
      modifies cells
      ensures if InBounds(width, height, x, y)
              then cells[..] == old(cells[..])[GetIndex(x, y) := alive]
              else cells[..] == old(cells[..])
    {
      if x >= 0 && x < width && y >= 0 && y < height {
        var idx := GetIndex(x, y);
        cells[idx] := alive;
      }
    }

    /** `clear`: `fill(false)`, every cell dead, same length. */
    method Clear()
      requires Valid()
      modifies cells
      ensures forall i :: 0 <= i < cells.Length ==> !cells[i]
    {
      forall i | 0 <= i < cells.Length {
        cells[i] := false;
      }
    }

    /**
     * `loadPattern`: the trimmed pattern, split at '\n', is laid on the grid
     * at (startX, startY); each 'O', '1' or '*' makes its cell alive through
     * `setCell`; every other glyph leaves its cell as it was; the grid is not
     * cleared first.
     */
    method LoadPattern(pattern: string, startX: int, startY: int)
      requires Valid()
      modifies cells
      ensures cells[..] == Loaded(old(cells[..]), Split(Trim(pattern)), startX, startY, width, height)
    {
      var lines := Split(Trim(pattern));
      ghost var before := cells[..];
      LoadedNothing(before, startX, startY, width, height);
      for y: nat := 0 to |lines|
        invariant cells[..] == Loaded(before, lines[..y], startX, startY, width, height)
      {
        LoadedVisitStart(before, lines, y, startX, startY, width, height);
        for x: nat := 0 to |lines[y]|
          invariant cells[..] == Loaded(before, Visited(lines, y, x), startX, startY, width, height)
        {
          var ch := lines[y][x];
          LoadedVisitNext(before, lines, y, x, startX, startY, width, height);
          if ch == 'O' || ch == '1' || ch == '*' {
            SetCell(startX + x, startY + y, true);
          }
        }
        VisitedRowDone(lines, y);
      }
      assert lines[..|lines|] == lines;
    }
  }
}
