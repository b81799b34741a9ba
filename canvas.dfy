/**
 * The character screen the cube is drawn on: a fixed rows x cols grid of
 * cells. The source writes through `stdscr.addstr(y, x, '#')` inside
 * `try ... except curses.error: pass`, so a write outside the grid raises an
 * error that is swallowed; here that write is simply a no-op.
 */
module Screen {

  /** The only character the rasteriser ever writes. */
  const Glyph: char := '#'

  class Canvas {
    const rows: nat
    const cols: nat
    const cells: array2<char>

    ghost predicate Valid() {
      cells.Length0 == rows && cells.Length1 == cols
    }

    predicate InBounds(row: int, col: int) {
      0 <= row < rows && 0 <= col < cols
    }

    /** A blank screen of the given size. */
    constructor (rows: nat, cols: nat)
      ensures Valid() && fresh(cells)
      ensures this.rows == rows && this.cols == cols
      ensures forall r, c :: 0 <= r < rows && 0 <= c < cols ==> cells[r, c] == ' '
    {
      this.rows := rows;
      this.cols := cols;
      cells := new char[rows, cols]((r, c) => ' ');
    }

    /**
     * `addstr(row, col, '#')` with its error swallowed: an in-bounds write
     * stores the glyph in that one cell; any other write changes nothing.
     */
    method Put(row: int, col: int)
      requires Valid()
      modifies cells
      ensures forall r, c :: InBounds(r, c) ==>
        cells[r, c] == if r == row && c == col then Glyph else old(cells[r, c])
      ensures !InBounds(row, col) ==> unchanged(cells)
    {
      if InBounds(row, col) {
        cells[row, col] := Glyph;
      }
    }
  }
}
