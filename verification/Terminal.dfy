/** The terminal grid: what each action does to the screen, the scroll region and the two buffers. */
module Terminal {
  import opened Common
  import opened Screen

  datatype Term = Term(rows: nat, cols: nat, cells: seq<Cell>, row: nat, col: nat, visible: bool,
                       pen: Cell, autowrap: bool, wrapPending: bool, top: nat, bottom: nat,
                       saved: Option<(nat, nat, Cell)>, alt: bool, main: Option<seq<Cell>>)

  /** Parsed terminal actions: parameters are already numbers, and a glyph comes with its display width. */
  datatype Action =
    | Print(ch: char, width: nat)
    | LineFeed | CarriageReturn | Backspace | Tab | ReverseIndex | NextLine
    | Up(n: nat) | Down(n: nat) | Right(n: nat) | Left(n: nat)
    | ToColumn(col: nat) | ToRow(row: nat) | MoveTo(row: nat, col: nat)
    | EraseDisplay(mode: nat) | EraseLine(mode: nat)
    | InsertChars(n: nat) | DeleteChars(n: nat) | InsertLines(n: nat) | DeleteLines(n: nat)
    | ScrollUp(n: nat) | ScrollDown(n: nat) | SetRegion(top: int, bottom: int)
    | SetPen(pen: Cell) | SetAutowrap(on: bool) | SetVisible(on: bool)
    | EnterAlt | LeaveAlt | Save | Restore | Reset
    | Resize(rows: nat, cols: nat)

  // ---------------------------------------------------------------- validity

  ghost predicate Sized(t: Term) {
    && 1 <= t.rows && 1 <= t.cols && |t.cells| == Span(t.rows, t.cols)
    && (t.main.Some? ==> |t.main.value| == |t.cells|)
  }

  /** Buffers have the screen's size, the cursor and the scroll region lie within it, the main buffer is kept aside exactly on the alternate screen. */
  ghost predicate Valid(t: Term) {
    && Sized(t) && t.row < t.rows && t.col < t.cols && t.top <= t.bottom < t.rows
    && (t.alt <==> t.main.Some?)
  }

  /** The size and the buffer kept aside are as before. */
  predicate Kept(t: Term, r: Term) {
    r.rows == t.rows && r.cols == t.cols && r.main == t.main && r.alt == t.alt
  }

  /** A double-width glyph needs two columns; everything else is always possible. */
  predicate Possible(t: Term, a: Action) {
    a.Print? && a.width == 2 ==> t.cols >= 2
  }

  function NewTerm(rows: nat, cols: nat): (t: Term)
    ensures Valid(t)
  {
    var r: nat, c: nat := Max(rows, 1), Max(cols, 1);
    Term(r, c, BlankCells(Span(r, c)), 0, 0, true, BLANK, true, false, 0, r - 1, None, false, None)
  }

  // ---------------------------------------------------------------- shifts

  /** Inside `lo..hi` everything moves `k` places to the front and blanks come in behind. */
  function ShiftLeft(cells: seq<Cell>, lo: nat, hi: nat, k: nat): (r: seq<Cell>)
    requires lo <= hi <= |cells|
    ensures |r| == |cells|
  {
    seq(|cells|, i requires 0 <= i < |cells| =>
      if lo <= i < hi then (if i + k < hi then cells[i + k] else BLANK) else cells[i])
  }

  /** Inside `lo..hi` everything moves `k` places to the back and blanks come in in front. */
  function ShiftRight(cells: seq<Cell>, lo: nat, hi: nat, k: nat): (r: seq<Cell>)
    requires lo <= hi <= |cells|
    ensures |r| == |cells|
  {
    seq(|cells|, i requires 0 <= i < |cells| =>
      if lo <= i < hi then (if i - k >= lo then cells[i - k] else BLANK) else cells[i])
  }

  function Erased(cells: seq<Cell>, lo: nat, hi: nat): (r: seq<Cell>)
    requires lo <= hi <= |cells|
    ensures |r| == |cells|
  {
    cells[..lo] + BlankCells(hi - lo) + cells[hi..]
  }

  lemma RowBounds(cols: nat, top: nat, bottom: nat, r: nat)
    requires top <= r <= bottom
    ensures Span(top, cols) <= Span(r, cols) && Span(r, cols) + cols == Span(r + 1, cols) <= Span(bottom + 1, cols)
  {
    SpanGrows(top, r, cols);
    SpanGrows(r + 1, bottom + 1, cols);
  }

  /** The rows `top..bottom`, moved `k` rows up. */
  function RowsUp(cells: seq<Cell>, cols: nat, top: nat, bottom: nat, k: nat): (r: seq<Cell>)
    requires top <= bottom && Span(bottom + 1, cols) <= |cells|
    ensures |r| == |cells|
  {
    RowBounds(cols, top, bottom, top);
    ShiftLeft(cells, Span(top, cols), Span(bottom + 1, cols), Span(k, cols))
  }

  /** The rows `top..bottom`, moved `k` rows down. */
  function RowsDown(cells: seq<Cell>, cols: nat, top: nat, bottom: nat, k: nat): (r: seq<Cell>)
    requires top <= bottom && Span(bottom + 1, cols) <= |cells|
    ensures |r| == |cells|
  {
    RowBounds(cols, top, bottom, top);
    ShiftRight(cells, Span(top, cols), Span(bottom + 1, cols), Span(k, cols))
  }

  function ScrolledUp(t: Term, top: nat, n: nat): (r: Term)
    requires Valid(t) && top <= t.bottom
    ensures Valid(r) && Kept(t, r)
  {
    SpanGrows(t.bottom + 1, t.rows, t.cols);
    var k := Min(n, t.bottom - top + 1);
    t.(cells := RowsUp(t.cells, t.cols, top, t.bottom, k))
  }

  function ScrolledDown(t: Term, top: nat, n: nat): (r: Term)
    requires Valid(t) && top <= t.bottom
    ensures Valid(r) && Kept(t, r)
  {
    SpanGrows(t.bottom + 1, t.rows, t.cols);
    var k := Min(n, t.bottom - top + 1);
    t.(cells := RowsDown(t.cells, t.cols, top, t.bottom, k))
  }

  lemma ScrolledIs(t: Term, n: nat, k: nat)
    requires Valid(t) && k == Min(n, t.bottom - t.top + 1)
    ensures Span(t.bottom + 1, t.cols) <= |t.cells|
    ensures ScrolledUp(t, t.top, n) == t.(cells := RowsUp(t.cells, t.cols, t.top, t.bottom, k))
    ensures ScrolledDown(t, t.top, n) == t.(cells := RowsDown(t.cells, t.cols, t.top, t.bottom, k))
  {
    SpanGrows(t.bottom + 1, t.rows, t.cols);
  }

  /** Where the cursor's row starts; the row lies within the cells. */
  function RowStart(t: Term): (i: nat)
    requires Valid(t)
    ensures i == Span(t.row, t.cols) && i + t.cols <= |t.cells|
  {
    SpanGrows(t.row, t.rows, t.cols);
    Span(t.row, t.cols)
  }

  function CharsInserted(t: Term, n: nat): (r: Term)
    requires Valid(t)
    ensures Valid(r) && Kept(t, r)
  {
    var start := RowStart(t);
    t.(cells := ShiftRight(t.cells, start + t.col, start + t.cols, Min(n, t.cols - t.col)))
  }

  function CharsDeleted(t: Term, n: nat): (r: Term)
    requires Valid(t)
    ensures Valid(r) && Kept(t, r)
  {
    var start := RowStart(t);
    t.(cells := ShiftLeft(t.cells, start + t.col, start + t.cols, Min(n, t.cols - t.col)))
  }

  /** Scrolling with the region cut to start at the cursor, and the region put back. */
  lemma ScrolledFrom(t: Term, n: nat)
    requires Valid(t) && t.top <= t.row <= t.bottom
    ensures var cut := t.(top := t.row);
            && ScrolledDown(cut, t.row, n).(top := t.top) == ScrolledDown(t, t.row, n)
            && ScrolledUp(cut, t.row, n).(top := t.top) == ScrolledUp(t, t.row, n)
  {
  }

  function LinesInserted(t: Term, n: nat): (r: Term)
    requires Valid(t)
    ensures Valid(r) && Kept(t, r)
  {
    if t.top <= t.row <= t.bottom then ScrolledDown(t, t.row, n) else t
  }

  function LinesDeleted(t: Term, n: nat): (r: Term)
    requires Valid(t)
    ensures Valid(r) && Kept(t, r)
  {
    if t.top <= t.row <= t.bottom then ScrolledUp(t, t.row, n) else t
  }

  /** From the cursor to the end, from the start to the cursor, or everything. */
  function DisplayExtent(t: Term, mode: nat): (r: (nat, nat))
    requires Valid(t)
    ensures r.0 <= r.1 <= |t.cells|
  {
    var at := RowStart(t) + t.col;
    if mode == 0 then (at, |t.cells|) else if mode == 1 then (0, at + 1) else (0, |t.cells|)
  }

  function DisplayErased(t: Term, mode: nat): (r: Term)
    requires Valid(t)
    ensures Valid(r) && Kept(t, r)
  {
    var extent := DisplayExtent(t, mode);
    t.(cells := Erased(t.cells, extent.0, extent.1))
  }

  /** The same within the cursor's row. */
  function LineExtent(t: Term, mode: nat): (r: (nat, nat))
    requires Valid(t)
    ensures r.0 <= r.1 <= |t.cells|
  {
    var start := RowStart(t);
    if mode == 0 then (start + t.col, start + t.cols)
    else if mode == 1 then (start, start + t.col + 1)
    else (start, start + t.cols)
  }

  function LineErased(t: Term, mode: nat): (r: Term)
    requires Valid(t)
    ensures Valid(r) && Kept(t, r)
  {
    var extent := LineExtent(t, mode);
    t.(cells := Erased(t.cells, extent.0, extent.1))
  }

  // ---------------------------------------------------------------- cursor and glyphs

  function Moved(t: Term, row: int, col: int): (r: Term)
    requires Valid(t)
    ensures Valid(r) && Kept(t, r) && (0 <= row < t.rows && 0 <= col < t.cols ==> r.row == row && r.col == col)
  {
    t.(row := Max(0, Min(row, t.rows - 1)), col := Max(0, Min(col, t.cols - 1)), wrapPending := false)
  }

  function Fed(t: Term): (r: Term)
    requires Valid(t)
    ensures Valid(r) && Kept(t, r) && r.col == t.col && r.autowrap == t.autowrap
  {
    if t.row == t.bottom then ScrolledUp(t, t.top, 1)
    else if t.row + 1 < t.rows then t.(row := t.row + 1)
    else t
  }

  function FedBack(t: Term): (r: Term)
    requires Valid(t)
    ensures Valid(r) && Kept(t, r)
  {
    if t.row == t.top then ScrolledDown(t, t.top, 1)
    else if t.row > 0 then t.(row := t.row - 1)
    else t
  }

  /** The cursor where the glyph goes: a pending wrap is carried out, and a wide glyph never straddles the edge. */
  function Placed(t: Term, width: nat): (r: Term)
    requires Valid(t) && (width == 2 ==> t.cols >= 2)
    ensures Valid(r) && Kept(t, r) && (width == 2 ==> r.col + 1 < r.cols)
    ensures t.wrapPending && t.autowrap ==> r == Fed(t.(col := 0)).(wrapPending := false)
    ensures !(t.wrapPending && t.autowrap) && (width == 2 ==> t.col + 1 < t.cols) ==> r == t
  {
    var t1 := if t.wrapPending && t.autowrap then Fed(t.(col := 0)).(wrapPending := false) else t;
    if width == 2 && t1.col + 1 >= t1.cols then
      (if t1.autowrap then Fed(t1.(col := 0)) else t1.(col := t1.cols - 2)).(wrapPending := false)
    else t1
  }

  /** The glyph, and the spacer behind a wide one, are written at the cursor, which then advances or waits to wrap. */
  function Written(p: Term, ch: char, width: nat): (r: Term)
    requires Valid(p) && (width == 2 ==> p.col + 1 < p.cols)
    ensures Valid(r) && Kept(p, r)
  {
    var i := RowStart(p) + p.col;
    var cells := p.cells[i := p.pen.(ch := ch)];
    if width == 2 then
      var wide := p.(cells := cells[i + 1 := p.pen.(ch := '\0')]);
      if p.col + 2 < p.cols then wide.(col := p.col + 2)
      else if p.autowrap then wide.(wrapPending := true)
      else wide.(col := p.cols - 1)
    else
      var one := p.(cells := cells);
      if p.col + 1 < p.cols then one.(col := p.col + 1)
      else if p.autowrap then one.(wrapPending := true)
      else one
  }

  function Printed(t: Term, ch: char, width: nat): (r: Term)
    requires Valid(t) && Possible(t, Print(ch, width))
    ensures Valid(r) && Kept(t, r)
  {
    if width == 0 then t else Written(Placed(t, width), ch, width)
  }

  // ---------------------------------------------------------------- buffers

  /** The overlap keeps its place from the top left; the rest is blank. */
  function Resized(cells: seq<Cell>, rows0: nat, cols0: nat, rows: nat, cols: nat): (r: seq<Cell>)
    requires |cells| == Span(rows0, cols0)
    ensures |r| == Span(rows, cols)
  {
    if rows == 0 then []
    else Resized(cells, rows0, cols0, rows - 1, cols) + seq(cols, c requires 0 <= c < cols => Carried(cells, rows0, cols0, rows - 1, c))
  }

  /** What place `(r, c)` of the new buffer shows. */
  function Carried(cells: seq<Cell>, rows0: nat, cols0: nat, r: nat, c: nat): Cell
    requires |cells| == Span(rows0, cols0)
  {
    if r < rows0 && c < cols0 then
      SpanGrows(r, rows0, cols0);
      cells[Span(r, cols0) + c]
    else BLANK
  }

  lemma {:induction false} ResizedAt(cells: seq<Cell>, rows0: nat, cols0: nat, rows: nat, cols: nat, r: nat, c: nat)
    requires |cells| == Span(rows0, cols0) && r < rows && c < cols
    ensures Span(r, cols) + c < Span(rows, cols)
    ensures Resized(cells, rows0, cols0, rows, cols)[Span(r, cols) + c] == Carried(cells, rows0, cols0, r, c)
    decreases rows
  {
    SpanGrows(r, rows, cols);
    if r < rows - 1 { ResizedAt(cells, rows0, cols0, rows - 1, cols, r, c); }
  }

  function TermResized(t: Term, newRows: nat, newCols: nat): (r: Term)
    requires Valid(t)
    ensures Valid(r)
  {
    var rows: nat, cols: nat := Max(newRows, 1), Max(newCols, 1);
    t.(rows := rows, cols := cols, cells := Resized(t.cells, t.rows, t.cols, rows, cols),
       main := if t.main.Some? then Some(Resized(t.main.value, t.rows, t.cols, rows, cols)) else None,
       top := 0, bottom := rows - 1, row := Min(t.row, rows - 1), col := Min(t.col, cols - 1), wrapPending := false)
  }

  function AltEntered(t: Term): (r: Term)
    requires Valid(t)
    ensures Valid(r)
  {
    if t.alt then t
    else Moved(t.(alt := true, main := Some(t.cells), cells := BlankCells(|t.cells|)), 0, 0)
  }

  function AltLeft(t: Term): (r: Term)
    requires Valid(t)
    ensures Valid(r) && !r.alt
  {
    if t.alt then t.(alt := false, main := None, cells := t.main.value) else t
  }

  // ---------------------------------------------------------------- actions

  function CursorSaved(t: Term): (r: Term)
    requires Valid(t)
    ensures Valid(r) && Kept(t, r)
  {
    t.(saved := Some((t.row, t.col, t.pen)))
  }

  function CursorRestored(t: Term): (r: Term)
    requires Valid(t)
    ensures Valid(r) && Kept(t, r)
  {
    if t.saved.None? then t
    else t.(row := Min(t.saved.value.0, t.rows - 1), col := Min(t.saved.value.1, t.cols - 1), pen := t.saved.value.2)
  }

  function RegionSet(t: Term, top: int, bottom: int): (r: Term)
    requires Valid(t)
    ensures Valid(r) && Kept(t, r)
  {
    if 0 <= top < bottom < t.rows then Moved(t.(top := top, bottom := bottom), 0, 0) else t
  }

  function Tabbed(t: Term): (r: Term)
    requires Valid(t)
    ensures Valid(r) && Kept(t, r)
  {
    t.(col := Min((t.col / 8 + 1) * 8, t.cols - 1))
  }

  /** Cursor movements relative to where it is. */
  function Stepped(t: Term, a: Action): (r: Term)
    requires Valid(t)
    ensures Valid(r) && Kept(t, r)
  {
    if a.Up? then Moved(t, t.row - a.n, t.col)
    else if a.Down? then Moved(t, t.row + a.n, t.col)
    else if a.Right? then Moved(t, t.row, t.col + a.n)
    else if a.Left? then Moved(t, t.row, t.col - a.n)
    else t
  }

  /** The actions that only move the cursor. */
  function Steered(t: Term, a: Action): (r: Term)
    requires Valid(t)
    ensures Valid(r) && Kept(t, r)
  {
    if a.CarriageReturn? then Moved(t, t.row, 0)
    else if a.Backspace? then Moved(t, t.row, t.col - 1)
    else if a.Tab? then Tabbed(t)
    else if a.ToColumn? then Moved(t, t.row, a.col)
    else if a.ToRow? then Moved(t, a.row, t.col)
    else if a.MoveTo? then Moved(t, a.row, a.col)
    else Stepped(t, a)
  }

  /** The actions that move the cursor, or set or recall a mode. */
  function Adjusted(t: Term, a: Action): (r: Term)
    requires Valid(t)
    ensures Valid(r) && Kept(t, r)
  {
    if a.SetRegion? then RegionSet(t, a.top, a.bottom)
    else if a.SetPen? then t.(pen := a.pen)
    else if a.SetAutowrap? then t.(autowrap := a.on)
    else if a.SetVisible? then t.(visible := a.on)
    else if a.Save? then CursorSaved(t)
    else if a.Restore? then CursorRestored(t)
    else Steered(t, a)
  }

  predicate Edits(a: Action) {
    || a.Print? || a.LineFeed? || a.ReverseIndex? || a.NextLine? || a.EraseDisplay? || a.EraseLine? || a.InsertChars?
    || a.DeleteChars? || a.InsertLines? || a.DeleteLines? || a.ScrollUp? || a.ScrollDown?
  }

  /** The actions that move whole lines. */
  function Scrolled(t: Term, a: Action): (r: Term)
    requires Valid(t)
    ensures Valid(r) && Kept(t, r)
  {
    if a.LineFeed? then Fed(t)
    else if a.ReverseIndex? then FedBack(t)
    else if a.NextLine? then Fed(t.(col := 0))
    else if a.InsertLines? then LinesInserted(t, a.n)
    else if a.DeleteLines? then LinesDeleted(t, a.n)
    else if a.ScrollUp? then ScrolledUp(t, t.top, a.n)
    else if a.ScrollDown? then ScrolledDown(t, t.top, a.n)
    else t
  }

  /** The actions that change cells in place. */
  function Edited(t: Term, a: Action): (r: Term)
    requires Valid(t) && Possible(t, a)
    ensures Valid(r) && Kept(t, r)
  {
    if a.Print? then Printed(t, a.ch, a.width)
    else if a.EraseDisplay? then DisplayErased(t, a.mode)
    else if a.EraseLine? then LineErased(t, a.mode)
    else if a.InsertChars? then CharsInserted(t, a.n)
    else if a.DeleteChars? then CharsDeleted(t, a.n)
    else Scrolled(t, a)
  }

  function Act(t: Term, a: Action): (r: Term)
    requires Valid(t) && Possible(t, a)
    ensures Valid(r)
    ensures !a.EnterAlt? && !a.LeaveAlt? && !a.Reset? && !a.Resize? ==> Kept(t, r)
  {
    if a.EnterAlt? then AltEntered(t)
    else if a.LeaveAlt? then AltLeft(t)
    else if a.Reset? then NewTerm(t.rows, t.cols)
    else if a.Resize? then TermResized(t, a.rows, a.cols)
    else if Edits(a) then Edited(t, a)
    else Adjusted(t, a)
  }

  // ---------------------------------------------------------------- shifts, row by row and column by column

  function CellAt(t: Term, r: nat, c: nat): Cell
    requires Sized(t) && r < t.rows && c < t.cols
  {
    SpanGrows(r, t.rows, t.cols);
    t.cells[Span(r, t.cols) + c]
  }

  /** A place is before the start of row `x` exactly when its own row is. */
  lemma BeforeRow(cols: nat, r: nat, c: nat, x: nat)
    requires c < cols
    ensures Span(r, cols) + c < Span(x, cols) <==> r < x
  {
    if r < x { SpanGrows(r, x, cols); } else { SpanGrows(x, r, cols); }
  }

  /** Scrolling up moves whole rows of the region, blanks the rows that come in, and touches no other row. */
  lemma ScrollsRowsUp(t: Term, top: nat, n: nat, r: nat, c: nat)
    requires Valid(t) && top <= t.bottom && r < t.rows && c < t.cols
    ensures CellAt(ScrolledUp(t, top, n), r, c) ==
            if r < top || t.bottom < r then CellAt(t, r, c)
            else if r + n <= t.bottom then CellAt(t, r + n, c)
            else BLANK
  {
    SpanGrows(t.bottom + 1, t.rows, t.cols);
    SpanGrows(r, t.rows, t.cols);
    var k := Min(n, t.bottom - top + 1);
    assert ScrolledUp(t, top, n).cells == RowsUp(t.cells, t.cols, top, t.bottom, k);
    RowsUpAt(t.cells, t.cols, top, t.bottom, k, r, c);
    if top <= r && r + n <= t.bottom {
      assert k == n;
      SpanGrows(r + n, t.rows, t.cols);
    }
  }

  lemma RowsUpAt(cells: seq<Cell>, cols: nat, top: nat, bottom: nat, k: nat, r: nat, c: nat)
    requires top <= bottom && Span(bottom + 1, cols) <= |cells| && c < cols && Span(r, cols) + c < |cells|
    ensures RowsUp(cells, cols, top, bottom, k)[Span(r, cols) + c] ==
            if r < top || bottom < r then cells[Span(r, cols) + c]
            else if r + k <= bottom && Span(r + k, cols) + c < |cells| then cells[Span(r + k, cols) + c]
            else BLANK
  {
    BeforeRow(cols, r, c, top);
    BeforeRow(cols, r, c, bottom + 1);
    BeforeRow(cols, r + k, c, bottom + 1);
    SpanAdds(r, k, cols);
  }

  lemma ScrollsRowsDown(t: Term, top: nat, n: nat, r: nat, c: nat)
    requires Valid(t) && top <= t.bottom && r < t.rows && c < t.cols
    ensures CellAt(ScrolledDown(t, top, n), r, c) ==
            if r < top || t.bottom < r then CellAt(t, r, c)
            else if top + n <= r then CellAt(t, r - n, c)
            else BLANK
  {
    SpanGrows(t.bottom + 1, t.rows, t.cols);
    SpanGrows(r, t.rows, t.cols);
    var k := Min(n, t.bottom - top + 1);
    assert ScrolledDown(t, top, n).cells == RowsDown(t.cells, t.cols, top, t.bottom, k);
    RowsDownAt(t.cells, t.cols, top, t.bottom, k, r, c);
    if top + n <= r <= t.bottom {
      assert k == n;
      SpanGrows(r - n, t.rows, t.cols);
    }
  }

  lemma RowsDownAt(cells: seq<Cell>, cols: nat, top: nat, bottom: nat, k: nat, r: nat, c: nat)
    requires top <= bottom && Span(bottom + 1, cols) <= |cells| && c < cols && Span(r, cols) + c < |cells|
    ensures RowsDown(cells, cols, top, bottom, k)[Span(r, cols) + c] ==
            if r < top || bottom < r then cells[Span(r, cols) + c]
            else if top + k <= r && Span(r - k, cols) + c < |cells| then cells[Span(r - k, cols) + c]
            else BLANK
  {
    BeforeRow(cols, r, c, top);
    BeforeRow(cols, r, c, bottom + 1);
    BeforeRow(cols, r, c, top + k);
    SpanAdds(top, k, cols);
    if top + k <= r { SpanAdds(r - k, k, cols); }
  }

  /** Where a place lies relative to the cursor's row. */
  lemma InRow(cols: nat, row: nat, r: nat, c: nat)
    requires c < cols
    ensures r < row ==> Span(r, cols) + c < Span(row, cols)
    ensures r > row ==> Span(r, cols) + c >= Span(row, cols) + cols
  {
    BeforeRow(cols, r, c, row);
    BeforeRow(cols, r, c, row + 1);
  }

  /** Deleting characters moves the rest of the cursor's row to the left, and touches no other row. */
  lemma DeletesColumns(t: Term, n: nat, r: nat, c: nat)
    requires Valid(t) && r < t.rows && c < t.cols
    ensures CellAt(CharsDeleted(t, n), r, c) ==
            if r != t.row || c < t.col then CellAt(t, r, c)
            else if c + n < t.cols then CellAt(t, r, c + n)
            else BLANK
  {
    SpanGrows(r, t.rows, t.cols);
    InRow(t.cols, t.row, r, c);
  }

  lemma InsertsColumns(t: Term, n: nat, r: nat, c: nat)
    requires Valid(t) && r < t.rows && c < t.cols
    ensures CellAt(CharsInserted(t, n), r, c) ==
            if r != t.row || c < t.col then CellAt(t, r, c)
            else if t.col + n <= c then CellAt(t, r, c - n)
            else BLANK
  {
    SpanGrows(r, t.rows, t.cols);
    InRow(t.cols, t.row, r, c);
  }

  /** Scrolling down undoes scrolling up for the rows that stayed in the region. */
  lemma ScrollBack(t: Term, n: nat, r: nat, c: nat)
    requires Valid(t) && r < t.rows && c < t.cols
    ensures CellAt(ScrolledDown(ScrolledUp(t, t.top, n), t.top, n), r, c) ==
            if t.top <= r <= t.bottom && r < t.top + n then BLANK else CellAt(t, r, c)
  {
    var up := ScrolledUp(t, t.top, n);
    ScrollsRowsDown(up, t.top, n, r, c);
    ScrollsRowsUp(t, t.top, n, r, c);
    if r >= n { ScrollsRowsUp(t, t.top, n, r - n, c); }
  }

  // ---------------------------------------------------------------- runs

  /** No double-width glyph is printed on a one-column screen. */
  ghost predicate Runnable(t: Term, acts: seq<Action>)
    requires Valid(t)
    decreases |acts|
  {
    acts != [] ==> Possible(t, acts[0]) && Runnable(Act(t, acts[0]), acts[1..])
  }

  /** Every step keeps the state valid: no index leaves its buffer in any run. */
  function Run(t: Term, acts: seq<Action>): (r: Term)
    requires Valid(t) && Runnable(t, acts)
    ensures Valid(r)
    decreases |acts|
  {
    if acts == [] then t else Run(Act(t, acts[0]), acts[1..])
  }

  lemma KeepsSize(t: Term, a: Action)
    requires Valid(t) && Possible(t, a) && !a.Resize?
    ensures Act(t, a).rows == t.rows && Act(t, a).cols == t.cols
  {
  }

  /** With two columns or more, every sequence of actions whose resizes keep two columns is a run. */
  lemma {:induction false} TwoColumnsSuffice(t: Term, acts: seq<Action>)
    requires Valid(t) && t.cols >= 2
    requires forall a | a in acts && a.Resize? :: a.cols >= 2
    ensures Runnable(t, acts) && Valid(Run(t, acts)) && Run(t, acts).cols >= 2
    decreases |acts|
  {
    if acts != [] {
      if !acts[0].Resize? { KeepsSize(t, acts[0]); }
      TwoColumnsSuffice(Act(t, acts[0]), acts[1..]);
    }
  }

  // ---------------------------------------------------------------- the alternate screen

  /** On the alternate screen, no action but leaving, resetting and resizing touches the main buffer. */
  lemma KeepsMain(t: Term, a: Action)
    requires Valid(t) && Possible(t, a) && t.alt && !a.LeaveAlt? && !a.Reset? && !a.Resize?
    ensures Act(t, a).main == t.main && Act(t, a).alt
  {
  }

  /** The resizes among the actions, in order. */
  function Resizes(acts: seq<Action>): seq<Action> {
    if acts == [] then []
    else (if acts[0].Resize? then [acts[0]] else []) + Resizes(acts[1..])
  }

  /** `shadow` is a screen whose visible cells are those that `t` keeps aside. */
  ghost predicate Shadows(shadow: Term, t: Term) {
    t.alt && t.main == Some(shadow.cells) && shadow.rows == t.rows && shadow.cols == t.cols
  }

  lemma {:induction false} ShadowRun(t: Term, shadow: Term, acts: seq<Action>)
    requires Valid(t) && Valid(shadow) && Shadows(shadow, t) && Runnable(t, acts)
    requires forall a | a in acts :: !a.LeaveAlt? && !a.Reset?
    ensures Runnable(shadow, Resizes(acts)) && Shadows(Run(shadow, Resizes(acts)), Run(t, acts))
    decreases |acts|
  {
    if acts != [] {
      var a, rest := acts[0], acts[1..];
      if a.Resize? {
        assert Resizes(acts)[1..] == Resizes(rest);
        ShadowRun(Act(t, a), Act(shadow, a), rest);
      } else {
        KeepsMain(t, a);
        KeepsSize(t, a);
        assert Resizes(acts) == Resizes(rest);
        ShadowRun(Act(t, a), shadow, rest);
      }
    }
  }

  /**
    * Whatever is done on the alternate screen, leaving it shows the main cells as if only the
    * resizes had happened, and on the main screen.
    */
  lemma AltIsTransparent(t: Term, acts: seq<Action>)
    requires Valid(t) && !t.alt && Runnable(AltEntered(t), acts)
    requires forall a | a in acts :: !a.LeaveAlt? && !a.Reset?
    ensures Runnable(t, Resizes(acts))
    ensures var back := AltLeft(Run(AltEntered(t), acts));
            var plain := Run(t, Resizes(acts));
            back.cells == plain.cells && back.rows == plain.rows && back.cols == plain.cols && !back.alt
  {
    ShadowRun(AltEntered(t), t, acts);
  }

  /** Without a resize the main cells come back exactly. */
  lemma AltRestoresExactly(t: Term, acts: seq<Action>)
    requires Valid(t) && !t.alt && Runnable(AltEntered(t), acts)
    requires forall a | a in acts :: !a.LeaveAlt? && !a.Reset? && !a.Resize?
    ensures AltLeft(Run(AltEntered(t), acts)).cells == t.cells
  {
    AltIsTransparent(t, acts);
    NoResizes(acts);
  }

  lemma {:induction false} NoResizes(acts: seq<Action>)
    requires forall a | a in acts :: !a.Resize?
    ensures Resizes(acts) == []
  {
    if acts != [] { NoResizes(acts[1..]); }
  }
}
