/** What each terminal action does to the screen, by row and column and by direction. */
module TerminalMeaning {
  import opened Common
  import opened Screen
  import opened Terminal

  // ---------------------------------------------------------------- erasing

  lemma ErasedAt(cells: seq<Cell>, lo: nat, hi: nat, i: nat)
    requires lo <= hi <= |cells| && i < |cells|
    ensures Erased(cells, lo, hi)[i] == if lo <= i < hi then BLANK else cells[i]
  {
  }

  /** Mode 0 erases from the cursor to the end of its row, mode 1 from the start of the row through the cursor, any other the row. */
  lemma ErasesLine(t: Term, m: nat, r: nat, c: nat)
    requires Valid(t) && r < t.rows && c < t.cols
    ensures CellAt(Act(t, EraseLine(m)), r, c) ==
            if r == t.row && (if m == 0 then c >= t.col else if m == 1 then c <= t.col else true) then BLANK else CellAt(t, r, c)
  {
    SpanGrows(r, t.rows, t.cols);
    InRow(t.cols, t.row, r, c);
    var extent := LineExtent(t, m);
    ErasedAt(t.cells, extent.0, extent.1, Span(r, t.cols) + c);
  }

  /** `(r, c)` comes before the cursor in reading order. */
  predicate BeforeCursor(t: Term, r: nat, c: nat) { r < t.row || (r == t.row && c < t.col) }

  /** Mode 0 erases from the cursor on in reading order, mode 1 through the cursor, any other everything. */
  lemma ErasesDisplay(t: Term, m: nat, r: nat, c: nat)
    requires Valid(t) && r < t.rows && c < t.cols
    ensures CellAt(Act(t, EraseDisplay(m)), r, c) ==
            if (if m == 0 then !BeforeCursor(t, r, c)
                else if m == 1 then BeforeCursor(t, r, c) || (r == t.row && c == t.col)
                else true)
            then BLANK else CellAt(t, r, c)
  {
    SpanGrows(r, t.rows, t.cols);
    InRow(t.cols, t.row, r, c);
    var extent := DisplayExtent(t, m);
    ErasedAt(t.cells, extent.0, extent.1, Span(r, t.cols) + c);
  }

  // ---------------------------------------------------------------- moving rows and columns

  /** Rows move up by `n` inside the scroll region and blanks come in at its bottom; down the other way. */
  lemma Scrolls(t: Term, n: nat, r: nat, c: nat)
    requires Valid(t) && r < t.rows && c < t.cols
    ensures CellAt(Act(t, Action.ScrollUp(n)), r, c) ==
            if r < t.top || t.bottom < r then CellAt(t, r, c) else if r + n <= t.bottom then CellAt(t, r + n, c) else BLANK
    ensures CellAt(Act(t, Action.ScrollDown(n)), r, c) ==
            if r < t.top || t.bottom < r then CellAt(t, r, c) else if t.top + n <= r then CellAt(t, r - n, c) else BLANK
  {
    ScrollsRowsUp(t, t.top, n, r, c);
    ScrollsRowsDown(t, t.top, n, r, c);
  }

  /** Inserting lines pushes the rows from the cursor's on down, deleting pulls them up, within the region and only inside it. */
  lemma MovesLines(t: Term, n: nat, r: nat, c: nat)
    requires Valid(t) && r < t.rows && c < t.cols
    ensures CellAt(Act(t, Action.InsertLines(n)), r, c) ==
            if t.row < t.top || t.bottom < t.row || r < t.row || t.bottom < r then CellAt(t, r, c)
            else if t.row + n <= r then CellAt(t, r - n, c) else BLANK
    ensures CellAt(Act(t, Action.DeleteLines(n)), r, c) ==
            if t.row < t.top || t.bottom < t.row || r < t.row || t.bottom < r then CellAt(t, r, c)
            else if r + n <= t.bottom then CellAt(t, r + n, c) else BLANK
  {
    if t.top <= t.row <= t.bottom {
      ScrollsRowsDown(t, t.row, n, r, c);
      ScrollsRowsUp(t, t.row, n, r, c);
    }
  }

  /** Inserting characters pushes the rest of the cursor's row right, deleting pulls it left. */
  lemma MovesChars(t: Term, n: nat, r: nat, c: nat)
    requires Valid(t) && r < t.rows && c < t.cols
    ensures CellAt(Act(t, Action.InsertChars(n)), r, c) ==
            if r != t.row || c < t.col then CellAt(t, r, c) else if t.col + n <= c then CellAt(t, r, c - n) else BLANK
    ensures CellAt(Act(t, Action.DeleteChars(n)), r, c) ==
            if r != t.row || c < t.col then CellAt(t, r, c) else if c + n < t.cols then CellAt(t, r, c + n) else BLANK
  {
    InsertsColumns(t, n, r, c);
    DeletesColumns(t, n, r, c);
  }

  /** A line feed goes down a row, except at the bottom of the region, where the region scrolls up by one, and on the last row. */
  lemma FeedsLine(t: Term, r: nat, c: nat)
    requires Valid(t) && r < t.rows && c < t.cols
    ensures t.row != t.bottom ==> Act(t, Action.LineFeed) == t.(row := Min(t.row + 1, t.rows - 1))
    ensures t.row == t.bottom ==>
            var f := Act(t, Action.LineFeed);
            && f == t.(cells := f.cells)
            && CellAt(f, r, c) == (if r < t.top || t.bottom < r then CellAt(t, r, c)
                                   else if r < t.bottom then CellAt(t, r + 1, c) else BLANK)
    ensures Act(t, Action.NextLine) == Act(t.(col := 0), Action.LineFeed)
  {
    ScrollsRowsUp(t, t.top, 1, r, c);
  }

  /** A reverse index goes up a row, except at the top of the region, where the region scrolls down by one, and on the first row. */
  lemma FeedsBack(t: Term, r: nat, c: nat)
    requires Valid(t) && r < t.rows && c < t.cols
    ensures t.row != t.top ==> Act(t, Action.ReverseIndex) == t.(row := Max(t.row - 1, 0))
    ensures t.row == t.top ==>
            var f := Act(t, Action.ReverseIndex);
            && f == t.(cells := f.cells)
            && CellAt(f, r, c) == (if r < t.top || t.bottom < r then CellAt(t, r, c)
                                   else if t.top < r then CellAt(t, r - 1, c) else BLANK)
  {
    ScrollsRowsDown(t, t.top, 1, r, c);
  }

  // ---------------------------------------------------------------- the cursor

  /** Relative movements change one coordinate in their direction and stop at the edge. */
  lemma StepsVertically(t: Term, n: nat)
    requires Valid(t)
    ensures Act(t, Up(n)) == t.(row := if n <= t.row then t.row - n else 0, wrapPending := false)
    ensures Act(t, Down(n)) == t.(row := if t.row + n < t.rows then t.row + n else t.rows - 1, wrapPending := false)
  {
  }

  lemma StepsHorizontally(t: Term, n: nat)
    requires Valid(t)
    ensures Act(t, Left(n)) == t.(col := if n <= t.col then t.col - n else 0, wrapPending := false)
    ensures Act(t, Right(n)) == t.(col := if t.col + n < t.cols then t.col + n else t.cols - 1, wrapPending := false)
  {
  }

  /** Absolute movements go to the place named, or the nearest on the screen. */
  lemma PlacesCursor(t: Term, row: nat, col: nat)
    requires Valid(t)
    ensures Act(t, Action.MoveTo(row, col)) ==
            t.(row := if row < t.rows then row else t.rows - 1, col := if col < t.cols then col else t.cols - 1, wrapPending := false)
  {
  }

  lemma PlacesOneWay(t: Term, row: nat, col: nat)
    requires Valid(t)
    ensures Act(t, ToRow(row)) == t.(row := if row < t.rows then row else t.rows - 1, wrapPending := false)
    ensures Act(t, ToColumn(col)) == t.(col := if col < t.cols then col else t.cols - 1, wrapPending := false)
  {
  }

  /** Carriage return goes to the first column, backspace one to the left, if there is one. */
  lemma ReturnsAndBacks(t: Term)
    requires Valid(t)
    ensures Act(t, CarriageReturn) == t.(col := 0, wrapPending := false)
    ensures Act(t, Backspace) == t.(col := if t.col > 0 then t.col - 1 else 0, wrapPending := false)
  {
  }

  /** A tab goes to the next multiple of eight, or to the last column if there is none. */
  lemma Tabs(t: Term)
    requires Valid(t)
    ensures var f := Act(t, Tab);
            && f == t.(col := f.col) && t.col <= f.col <= t.col + 8
            && (f.col == t.cols - 1 || (f.col % 8 == 0 && f.col > t.col))
            && (forall k: nat | t.col < k < f.col :: k % 8 != 0)
  {
    var next := (t.col / 8 + 1) * 8;
    assert t.col == 8 * (t.col / 8) + t.col % 8;
    forall k: nat | t.col < k < next ensures k % 8 != 0 {
      assert k / 8 == t.col / 8;
      assert t.col % 8 < k % 8;
    }
  }

  // ---------------------------------------------------------------- glyphs

  /** Where a glyph goes: after a pending wrap; a wide one in the last column wraps too, or is pulled left if wrapping is off. */
  lemma PlacesGlyph(t: Term, width: nat)
    requires Valid(t) && (width == 2 ==> t.cols >= 2)
    ensures var wraps := t.autowrap && (t.wrapPending || (width == 2 && t.col + 1 == t.cols));
            Placed(t, width) ==
            if wraps then Act(t.(col := 0), Action.LineFeed).(wrapPending := false)
            else if width == 2 && t.col + 1 == t.cols then t.(col := t.cols - 2, wrapPending := false)
            else t
  {
  }

  /** Printing writes the glyph with the pen where it goes, a blank-glyph spacer beside a wide one, and nothing else. */
  lemma Prints(t: Term, ch: char, width: nat, r: nat, c: nat)
    requires Valid(t) && Possible(t, Print(ch, width)) && r < t.rows && c < t.cols
    ensures width == 0 ==> Act(t, Print(ch, width)) == t
    ensures width > 0 ==>
            var p := Placed(t, width);
            CellAt(Act(t, Print(ch, width)), r, c) ==
            if r == p.row && c == p.col then p.pen.(ch := ch)
            else if width == 2 && r == p.row && c == p.col + 1 then p.pen.(ch := '\0')
            else CellAt(p, r, c)
  {
    if width > 0 { WritesAt(Placed(t, width), ch, width, r, c); }
  }

  lemma WritesAt(p: Term, ch: char, width: nat, r: nat, c: nat)
    requires Valid(p) && (width == 2 ==> p.col + 1 < p.cols) && r < p.rows && c < p.cols
    ensures CellAt(Written(p, ch, width), r, c) ==
            if r == p.row && c == p.col then p.pen.(ch := ch)
            else if width == 2 && r == p.row && c == p.col + 1 then p.pen.(ch := '\0')
            else CellAt(p, r, c)
  {
    SpanGrows(r, p.rows, p.cols);
    SpanGrows(p.row, p.rows, p.cols);
    InRow(p.cols, p.row, r, c);
  }

  /** Then the cursor moves past the glyph; at the edge it waits to wrap, or stays in the last column if wrapping is off. */
  lemma AdvancesCursor(t: Term, ch: char, width: nat)
    requires Valid(t) && Possible(t, Print(ch, width)) && 1 <= width <= 2
    ensures var p, f := Placed(t, width), Act(t, Print(ch, width));
            if p.col + width < p.cols then f == p.(cells := f.cells, col := p.col + width)
            else if p.autowrap then f == p.(cells := f.cells, wrapPending := true)
            else f == p.(cells := f.cells, col := p.cols - 1)
  {
  }

  // ---------------------------------------------------------------- modes and buffers

  /** A scroll region is taken exactly if it is ordered and on the screen, and sends the cursor home. */
  lemma SetsRegion(t: Term, top: int, bottom: int)
    requires Valid(t)
    ensures Act(t, SetRegion(top, bottom)) ==
            if 0 <= top < bottom < t.rows then t.(top := top, bottom := bottom, row := 0, col := 0, wrapPending := false) else t
  {
  }

  lemma SetsModes(t: Term, pen: Cell, on: bool)
    requires Valid(t)
    ensures Act(t, SetPen(pen)) == t.(pen := pen) && Act(t, SetAutowrap(on)) == t.(autowrap := on)
    ensures Act(t, SetVisible(on)) == t.(visible := on)
  {
  }

  /** Entering the alternate screen shows it blank with the cursor home; a resize keeps the overlap, the nearest cursor and the whole region. */
  lemma EntersAndResizes(t: Term, rows: nat, cols: nat, r: nat, c: nat)
    requires Valid(t) && rows >= 1 && cols >= 1
    ensures !t.alt && r < t.rows && c < t.cols ==>
            var f := Act(t, EnterAlt); CellAt(f, r, c) == BLANK && f.row == 0 && f.col == 0 && f.alt && f.main == Some(t.cells)
    ensures var f := Act(t, Action.Resize(rows, cols));
            && f.rows == rows && f.cols == cols && f.top == 0 && f.bottom == rows - 1
            && f.row == Min(t.row, rows - 1) && f.col == Min(t.col, cols - 1) && !f.wrapPending
            && (r < rows && c < cols ==> CellAt(f, r, c) == if r < t.rows && c < t.cols then CellAt(t, r, c) else BLANK)
  {
    if r < t.rows { SpanGrows(r, t.rows, t.cols); }
    if r < rows && c < cols { ResizedAt(t.cells, t.rows, t.cols, rows, cols, r, c); }
  }

  /** A new or reset terminal: blank, cursor home and shown, plain pen, wrapping on, the whole screen as region, nothing saved. */
  lemma StartsBlank(t: Term, rows: nat, cols: nat, i: nat)
    requires Valid(t) && rows >= 1 && cols >= 1
    ensures var n := NewTerm(rows, cols);
            && n.rows == rows && n.cols == cols && (i < |n.cells| ==> n.cells[i] == Cell(' ', Default, Default, 0))
            && n.row == 0 && n.col == 0 && n.visible && n.pen == Cell(' ', Default, Default, 0) && n.autowrap && !n.wrapPending
            && n.top == 0 && n.bottom == rows - 1 && n.saved.None? && !n.alt && n.main.None?
    ensures Act(t, Reset) == NewTerm(t.rows, t.cols)
  {
  }

  /** Leaving the alternate screen shows the cells kept aside and changes nothing else; on the main screen nothing changes. */
  lemma Leaves(t: Term)
    requires Valid(t)
    ensures Act(t, LeaveAlt) == if t.alt then t.(cells := t.main.value, alt := false, main := None) else t
    ensures t.alt ==> Act(t, EnterAlt) == t
  {
  }

  predicate KeepsSavedCursor(a: Action) { !a.Save? && !a.Reset? && !a.Resize? }

  lemma SavedEdited(t: Term, a: Action)
    requires Valid(t) && Possible(t, a)
    ensures Edited(t, a).saved == t.saved
  {
    if a.Print? {
      SavedPrinted(t, a.ch, a.width);
    } else {
      SavedScrolled(t, a);
    }
  }

  lemma SavedPrinted(t: Term, ch: char, width: nat)
    requires Valid(t) && Possible(t, Print(ch, width))
    ensures Printed(t, ch, width).saved == t.saved
  {
  }

  lemma SavedScrolled(t: Term, a: Action)
    requires Valid(t)
    ensures Scrolled(t, a).saved == t.saved
  {
  }

  lemma SavedAdjusted(t: Term, a: Action)
    requires Valid(t) && !a.Save?
    ensures Adjusted(t, a).saved == t.saved
  {
  }

  lemma SavedStays(t: Term, a: Action)
    requires Valid(t) && Possible(t, a) && KeepsSavedCursor(a)
    ensures Act(t, a).saved == t.saved && Act(t, a).rows == t.rows && Act(t, a).cols == t.cols
  {
    KeepsSize(t, a);
    SavedEdited(t, a);
    SavedAdjusted(t, a);
  }

  lemma {:induction false} SavedRun(t: Term, acts: seq<Action>)
    requires Valid(t) && Runnable(t, acts) && forall i | 0 <= i < |acts| :: KeepsSavedCursor(acts[i])
    ensures Run(t, acts).saved == t.saved && Run(t, acts).rows == t.rows && Run(t, acts).cols == t.cols
    decreases |acts|
  {
    if acts != [] {
      SavedStays(t, acts[0]);
      SavedRun(Act(t, acts[0]), acts[1..]);
    }
  }

  /** Whatever happens between saving and restoring, short of another save, a reset or a resize, the cursor and the pen come back. */
  lemma RestoresSaved(t: Term, acts: seq<Action>)
    requires Valid(t) && Runnable(Act(t, Save), acts) && forall i | 0 <= i < |acts| :: KeepsSavedCursor(acts[i])
    ensures var f := Act(Run(Act(t, Save), acts), Restore);
            f.row == t.row && f.col == t.col && f.pen == t.pen
  {
    var u := Act(t, Save);
    SavedRun(u, acts);
    assert u.saved == Some((t.row, t.col, t.pen)) && u.rows == t.rows && u.cols == t.cols;
    RestoreIs(Run(u, acts));
  }

  lemma RestoreIs(t: Term)
    requires Valid(t) && t.saved.Some?
    ensures var f := Act(t, Restore);
            f.row == Min(t.saved.value.0, t.rows - 1) && f.col == Min(t.saved.value.1, t.cols - 1) && f.pen == t.saved.value.2
  {
  }
}
