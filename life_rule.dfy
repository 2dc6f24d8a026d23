/**
 * Conway's rule and the grid geometry that both Game of Life backends share:
 * a row-major buffer of width*height cells, cell (x, y) at index y*width + x,
 * and the 8-cell Moore neighbourhood with no wraparound.  Cells are seen
 * here as booleans (alive or not); each backend maps its own storage onto
 * this view.
 */
module LifeRule {

  /** Whether a cell is alive in the next generation, given whether it is alive now and its live neighbours. */
  predicate NextCell(alive: bool, neighbors: nat) {
    (alive && (neighbors == 2 || neighbors == 3)) || (!alive && neighbors == 3)
  }

  /** Row-major position of cell (x, y). */
  function Idx(width: int, x: int, y: int): int {
    y * width + x
  }

  predicate InBounds(width: int, height: int, x: int, y: int) {
    0 <= x < width && 0 <= y < height
  }

  /** Every in-bounds cell has a position inside the buffer. */
  lemma IdxInRange(width: nat, height: nat, x: int, y: int)
    requires InBounds(width, height, x, y)
    ensures 0 <= Idx(width, x, y) < width * height
  {
    assert y * width <= (height - 1) * width by {
      MulLe(y, height - 1, width);
    }
  }

  lemma MulLe(a: nat, b: nat, c: nat)
    requires a <= b
    ensures a * c <= b * c
  {
  }

  /** A non-zero multiple of a positive number is at least that number away from zero. */
  lemma MulAwayFromZero(d: int, width: nat)
    ensures d >= 1 ==> d * width >= width
    ensures d <= -1 ==> d * width + width <= 0
  {
  }

  /** The position determines the coordinates back: column by remainder, row by quotient. */
  lemma IdxCoords(width: nat, x: int, y: int)
    requires 0 <= x < width && 0 <= y
    ensures Idx(width, x, y) % width == x && Idx(width, x, y) / width == y
  {
    var i := Idx(width, x, y);
    var q, r := i / width, i % width;
    var d := q - y;
    assert d * width == x - r;
    MulAwayFromZero(d, width);
  }

  /** Every buffer position is the position of the in-bounds cell (i % width, i / width). */
  lemma CoordsOf(width: nat, height: nat, i: int)
    requires 0 <= i < width * height
    ensures width > 0
    ensures InBounds(width, height, i % width, i / width)
    ensures Idx(width, i % width, i / width) == i
  {
    assert width != 0;
    var q := i / width;
    assert q * width <= i;
    MulAwayFromZero(q - height, width);
    assert (q - height) * width == q * width - height * width;
  }

  /** 1 for a live cell inside the grid, 0 for a dead one or a position off the grid. */
  function CellValue(cells: seq<bool>, width: nat, height: nat, x: int, y: int): nat
    requires |cells| == width * height
  {
    if InBounds(width, height, x, y) then
      IdxInRange(width, height, x, y);
      if cells[Idx(width, x, y)] then 1 else 0
    else 0
  }

  /** The column offset of slot k: slots run dx = -1, 0, 1 within each row. */
  function SlotDx(k: nat): int {
    if k == 0 || k == 3 || k == 6 then -1 else if k == 1 || k == 4 || k == 7 then 0 else 1
  }

  /** The row offset of slot k: three slots per row, from dy = -1 to 1. */
  function SlotDy(k: nat): int {
    if k < 3 then -1 else if k < 6 then 0 else 1
  }

  /**
   * Slot k (0..8) of the 3x3 block around (x, y) in the order both sources
   * scan it (dy outer, dx inner, from -1 to 1); slot 4 is the cell itself,
   * which is skipped.
   */
  function Slot(cells: seq<bool>, width: nat, height: nat, x: int, y: int, k: nat): nat
    requires |cells| == width * height && k < 9
  {
    if k == 4 then 0 else CellValue(cells, width, height, x + SlotDx(k), y + SlotDy(k))
  }

  /** Slot 3*(dy+1) + (dx+1) is the neighbour at offset (dx, dy). */
  lemma SlotOffset(cells: seq<bool>, width: nat, height: nat, x: int, y: int, dx: int, dy: int)
    requires |cells| == width * height && -1 <= dx <= 1 && -1 <= dy <= 1
    ensures Slot(cells, width, height, x, y, 3 * (dy + 1) + (dx + 1))
         == if dx == 0 && dy == 0 then 0 else CellValue(cells, width, height, x + dx, y + dy)
  {
  }

  /** Scanning offset (dx, dy) adds that neighbour's value to the count so far, and nothing for the cell itself. */
  lemma CountStep(cells: seq<bool>, width: nat, height: nat, x: int, y: int, dx: int, dy: int)
    requires |cells| == width * height && -1 <= dx <= 1 && -1 <= dy <= 1
    ensures PartialCount(cells, width, height, x, y, 3 * (dy + 1) + (dx + 1) + 1)
         == PartialCount(cells, width, height, x, y, 3 * (dy + 1) + (dx + 1))
            + if dx == 0 && dy == 0 then 0 else CellValue(cells, width, height, x + dx, y + dy)
  {
    SlotOffset(cells, width, height, x, y, dx, dy);
  }

  /** Live cells among the first k slots. */
  function PartialCount(cells: seq<bool>, width: nat, height: nat, x: int, y: int, k: nat): nat
    requires |cells| == width * height && k <= 9
  {
    if k == 0 then 0 else PartialCount(cells, width, height, x, y, k - 1) + Slot(cells, width, height, x, y, k - 1)
  }

  /** The number of live in-bounds Moore neighbours of (x, y). */
  function LiveNeighbors(cells: seq<bool>, width: nat, height: nat, x: int, y: int): nat
    requires |cells| == width * height
  {
    PartialCount(cells, width, height, x, y, 9)
  }

  lemma {:induction false} PartialCountBound(cells: seq<bool>, width: nat, height: nat, x: int, y: int, k: nat)
    requires |cells| == width * height && k <= 9
    ensures PartialCount(cells, width, height, x, y, k) <= if k <= 4 then k else k - 1
  {
    if k > 0 {
      PartialCountBound(cells, width, height, x, y, k - 1);
    }
  }

  /** A cell has at most 8 live neighbours: itself is never counted. */
  lemma NeighborsAtMostEight(cells: seq<bool>, width: nat, height: nat, x: int, y: int)
    requires |cells| == width * height
    ensures LiveNeighbors(cells, width, height, x, y) <= 8
  {
    PartialCountBound(cells, width, height, x, y, 9);
  }

  /**
   * Only the 8 surrounding cells matter: two grids that agree on them give
   * the same count, whatever they hold elsewhere (including the cell itself).
   */
  lemma {:induction false} NeighborsLocal(a: seq<bool>, b: seq<bool>, width: nat, height: nat, x: int, y: int, k: nat)
    requires |a| == |b| == width * height && k <= 9
    requires forall nx, ny :: x - 1 <= nx <= x + 1 && y - 1 <= ny <= y + 1 && (nx != x || ny != y)
               ==> CellValue(a, width, height, nx, ny) == CellValue(b, width, height, nx, ny)
    ensures PartialCount(a, width, height, x, y, k) == PartialCount(b, width, height, x, y, k)
  {
    if k > 0 {
      NeighborsLocal(a, b, width, height, x, y, k - 1);
      var j := k - 1;
      if j != 4 {
        var nx, ny := x + SlotDx(j), y + SlotDy(j);
        assert nx != x || ny != y;
        assert CellValue(a, width, height, nx, ny) == CellValue(b, width, height, nx, ny);
      }
    }
  }

  /** No live neighbour anywhere when the grid is all dead. */
  lemma {:induction false} DeadNeighbors(cells: seq<bool>, width: nat, height: nat, x: int, y: int, k: nat)
    requires |cells| == width * height && k <= 9
    requires forall i :: 0 <= i < |cells| ==> !cells[i]
    ensures PartialCount(cells, width, height, x, y, k) == 0
  {
    if k > 0 {
      DeadNeighbors(cells, width, height, x, y, k - 1);
      var j := k - 1;
      var nx, ny := x + SlotDx(j), y + SlotDy(j);
      if j != 4 && InBounds(width, height, nx, ny) {
        IdxInRange(width, height, nx, ny);
        assert !cells[Idx(width, nx, ny)];
      }
    }
  }

  /** The next generation of the whole grid, every cell computed from the current one. */
  function Step(cells: seq<bool>, width: nat, height: nat): (next: seq<bool>)
    requires |cells| == width * height
    ensures |next| == |cells|
  {
    seq(|cells|, i requires 0 <= i < |cells| =>
      CoordsOf(width, height, i);
      NextCell(cells[i], LiveNeighbors(cells, width, height, i % width, i / width)))
  }

  /** The rule cell by cell: (x, y) is alive next iff the rule holds for its current state and neighbour count. */
  lemma StepAt(cells: seq<bool>, width: nat, height: nat, x: int, y: int)
    requires |cells| == width * height && InBounds(width, height, x, y)
    ensures 0 <= Idx(width, x, y) < |cells|
    ensures Step(cells, width, height)[Idx(width, x, y)]
        <==> NextCell(cells[Idx(width, x, y)], LiveNeighbors(cells, width, height, x, y))
  {
    IdxInRange(width, height, x, y);
    IdxCoords(width, x, y);
  }

  /** An all-dead grid stays all dead. */
  lemma DeadStaysDead(cells: seq<bool>, width: nat, height: nat)
    requires |cells| == width * height
    requires forall i :: 0 <= i < |cells| ==> !cells[i]
    ensures forall i :: 0 <= i < |cells| ==> !Step(cells, width, height)[i]
  {
    forall i | 0 <= i < |cells|
      ensures !Step(cells, width, height)[i]
    {
      CoordsOf(width, height, i);
      DeadNeighbors(cells, width, height, i % width, i / width, 9);
    }
  }
}
