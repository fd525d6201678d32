/** Cells and the render-relevant state of a terminal screen. */
module Screen {
  import opened Common

  datatype Color = Default | Indexed(n: byte) | Rgb(r: byte, g: byte, b: byte)

  datatype Cell = Cell(ch: char, fg: Color, bg: Color, flags: byte)

  const BLANK := Cell(' ', Default, Default, 0)

  /** What is compared by rendering equality and carried by diffs; cells are in reading order. */
  datatype Screen = Screen(rows: nat, cols: nat, cells: seq<Cell>, row: nat, col: nat, visible: bool)

  /** The number of cells in `n` rows, which is where row `n` starts. */
  function Span(n: nat, cols: nat): (r: nat) {
    if n == 0 then 0 else Span(n - 1, cols) + cols
  }

  lemma {:induction false} SpanIsProduct(n: nat, cols: nat)
    ensures Span(n, cols) == n * cols
  {
    if n > 0 { SpanIsProduct(n - 1, cols); }
  }

  lemma {:induction false} SpanGrows(a: nat, b: nat, cols: nat)
    requires a <= b
    ensures Span(a, cols) <= Span(b, cols) && (a < b ==> Span(a, cols) + cols <= Span(b, cols))
    decreases b
  {
    if a < b { SpanGrows(a, b - 1, cols); }
  }

  lemma {:induction false} SpanAdds(a: nat, b: nat, cols: nat)
    ensures Span(a + b, cols) == Span(a, cols) + Span(b, cols)
    decreases b
  {
    if b > 0 { SpanAdds(a, b - 1, cols); }
  }

  ghost predicate WellFormed(s: Screen) {
    1 <= s.rows && 1 <= s.cols && |s.cells| == Span(s.rows, s.cols) && s.row < s.rows && s.col < s.cols
  }

  predicate SameSize(a: Screen, b: Screen) { a.rows == b.rows && a.cols == b.cols }

  function BlankCells(n: nat): (r: seq<Cell>)
    ensures |r| == n && forall i | 0 <= i < n :: r[i] == BLANK
  {
    seq(n, _ => BLANK)
  }

  /** A new grid: at least one row and one column, all blank, cursor home and shown. */
  function BlankScreen(rows: nat, cols: nat): (s: Screen)
    ensures WellFormed(s)
  {
    var r: nat, c: nat := Max(rows, 1), Max(cols, 1);
    Screen(r, c, BlankCells(Span(r, c)), 0, 0, true)
  }
}
