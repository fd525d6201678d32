/** The grid's in-place operations, each proved against its meaning in Terminal. */
module Grid {
  import opened Common
  import opened Screen
  import opened Terminal

  // ---------------------------------------------------------------- progress of a loop over the cells

  /** Everything before `m` is as in `goal`, everything else as it was. */
  ghost predicate DoneBefore(cells: seq<Cell>, goal: seq<Cell>, was: seq<Cell>, m: int) {
    && |cells| == |goal| == |was|
    && (forall i | 0 <= i < |cells| :: cells[i] == if i < m then goal[i] else was[i])
  }

  ghost predicate DoneFrom(cells: seq<Cell>, goal: seq<Cell>, was: seq<Cell>, m: int) {
    && |cells| == |goal| == |was|
    && (forall i | 0 <= i < |cells| :: cells[i] == if i < m then was[i] else goal[i])
  }

  function CopiedWithin(cells: seq<Cell>, src: nat, len: nat, dst: nat): (r: seq<Cell>)
    requires src + len <= |cells| && dst + len <= |cells|
    ensures |r| == |cells|
  {
    cells[..dst] + cells[src..src + len] + cells[dst + len..]
  }

  /** `next` is `cells` with `goal` put in at `d..d + len`. */
  ghost predicate Patched(next: seq<Cell>, cells: seq<Cell>, goal: seq<Cell>, d: nat, len: nat) {
    && |next| == |cells| == |goal|
    && (forall i | 0 <= i < |cells| :: next[i] == if d <= i < d + len then goal[i] else cells[i])
  }

  lemma CopyPatches(cells: seq<Cell>, goal: seq<Cell>, src: nat, d: nat, len: nat)
    requires src + len <= |cells| && d + len <= |cells| == |goal|
    requires forall i | d <= i < d + len :: goal[i] == cells[src + i - d]
    ensures Patched(CopiedWithin(cells, src, len, d), cells, goal, d, len)
  {
  }

  lemma ErasePatches(cells: seq<Cell>, goal: seq<Cell>, d: nat, len: nat)
    requires d + len <= |cells| == |goal|
    requires forall c | d <= c < d + len :: goal[c] == BLANK
    ensures Patched(Erased(cells, d, d + len), cells, goal, d, len)
  {
  }

  /** Row `r` of an upward scroll by `k`: copied from below, or blanked. */
  function RowPulled(cells: seq<Cell>, cols: nat, bottom: nat, r: nat, k: nat): (s: seq<Cell>)
    requires r <= bottom && Span(bottom + 1, cols) <= |cells|
    ensures |s| == |cells|
  {
    RowBounds(cols, r, bottom, r);
    if r + k <= bottom then
      RowBounds(cols, r, bottom, r + k);
      CopiedWithin(cells, Span(r + k, cols), cols, Span(r, cols))
    else Erased(cells, Span(r, cols), Span(r, cols) + cols)
  }

  lemma RowPatched(cells: seq<Cell>, goal: seq<Cell>, was: seq<Cell>, next: seq<Cell>, d: nat, len: nat)
    requires Patched(next, cells, goal, d, len)
    ensures DoneBefore(cells, goal, was, d) ==> DoneBefore(next, goal, was, d + len)
    ensures DoneFrom(cells, goal, was, d + len) ==> DoneFrom(next, goal, was, d)
  {
  }

  lemma RowCopied(was: seq<Cell>, cells: seq<Cell>, cols: nat, top: nat, bottom: nat, k: nat, r: nat)
    requires top <= r && r + k <= bottom && Span(bottom + 1, cols) <= |was|
    requires DoneBefore(cells, RowsUp(was, cols, top, bottom, k), was, Span(r, cols))
    ensures Patched(RowPulled(cells, cols, bottom, r, k), cells, RowsUp(was, cols, top, bottom, k), Span(r, cols), cols)
  {
    RowBounds(cols, top, bottom, r);
    SpanAdds(r, k, cols);
    RowBounds(cols, top, bottom, r + k);
    CopyPatches(cells, RowsUp(was, cols, top, bottom, k), Span(r + k, cols), Span(r, cols), cols);
  }

  lemma RowBlanked(was: seq<Cell>, cells: seq<Cell>, cols: nat, top: nat, bottom: nat, k: nat, r: nat)
    requires top <= r <= bottom < r + k && Span(bottom + 1, cols) <= |was| == |cells|
    ensures Patched(RowPulled(cells, cols, bottom, r, k), cells, RowsUp(was, cols, top, bottom, k), Span(r, cols), cols)
  {
    RowBounds(cols, top, bottom, r);
    SpanAdds(r, k, cols);
    SpanGrows(bottom + 1, r + k, cols);
    ErasePatches(cells, RowsUp(was, cols, top, bottom, k), Span(r, cols), cols);
  }

  lemma RowPulledStep(was: seq<Cell>, cells: seq<Cell>, cols: nat, top: nat, bottom: nat, k: nat, r: nat)
    requires top <= r <= bottom && Span(bottom + 1, cols) <= |was|
    requires DoneBefore(cells, RowsUp(was, cols, top, bottom, k), was, Span(r, cols))
    ensures DoneBefore(RowPulled(cells, cols, bottom, r, k), RowsUp(was, cols, top, bottom, k), was, Span(r + 1, cols))
  {
    if r + k <= bottom {
      RowCopied(was, cells, cols, top, bottom, k, r);
    } else {
      RowBlanked(was, cells, cols, top, bottom, k, r);
    }
    RowPatched(cells, RowsUp(was, cols, top, bottom, k), was, RowPulled(cells, cols, bottom, r, k), Span(r, cols), cols);
  }

  /** Row `r` of a downward scroll by `k` of the rows from `top`: copied from above, or blanked. */
  function RowPushed(cells: seq<Cell>, cols: nat, top: nat, r: nat, k: nat): (s: seq<Cell>)
    requires top <= r && Span(r + 1, cols) <= |cells|
    ensures |s| == |cells|
  {
    if r >= top + k then
      RowBounds(cols, top, r, r - k);
      CopiedWithin(cells, Span(r - k, cols), cols, Span(r, cols))
    else Erased(cells, Span(r, cols), Span(r, cols) + cols)
  }

  lemma RowPushedStep(was: seq<Cell>, cells: seq<Cell>, cols: nat, top: nat, bottom: nat, k: nat, r: nat)
    requires top <= r <= bottom && Span(bottom + 1, cols) <= |was| && Span(r + 1, cols) <= |was|
    requires DoneFrom(cells, RowsDown(was, cols, top, bottom, k), was, Span(r + 1, cols))
    ensures DoneFrom(RowPushed(cells, cols, top, r, k), RowsDown(was, cols, top, bottom, k), was, Span(r, cols))
  {
    var goal := RowsDown(was, cols, top, bottom, k);
    RowBounds(cols, top, bottom, r);
    if r >= top + k {
      SpanAdds(r - k, k, cols);
      RowBounds(cols, top, bottom, r - k);
      CopyPatches(cells, goal, Span(r - k, cols), Span(r, cols), cols);
    } else {
      SpanAdds(top, k, cols);
      SpanGrows(r + 1, top + k, cols);
      ErasePatches(cells, goal, Span(r, cols), cols);
    }
    assert Patched(RowPushed(cells, cols, top, r, k), cells, goal, Span(r, cols), cols);
  }

  lemma RowsUpDone(cells: seq<Cell>, was: seq<Cell>, cols: nat, top: nat, bottom: nat, k: nat)
    requires top <= bottom && Span(bottom + 1, cols) <= |was|
    ensures DoneBefore(was, RowsUp(was, cols, top, bottom, k), was, Span(top, cols))
    ensures DoneBefore(cells, RowsUp(was, cols, top, bottom, k), was, Span(bottom + 1, cols)) ==> cells == RowsUp(was, cols, top, bottom, k)
  {
  }

  lemma RowsDownDone(cells: seq<Cell>, was: seq<Cell>, cols: nat, top: nat, bottom: nat, k: nat)
    requires top <= bottom && Span(bottom + 1, cols) <= |was|
    ensures DoneFrom(was, RowsDown(was, cols, top, bottom, k), was, Span(bottom + 1, cols))
    ensures DoneFrom(cells, RowsDown(was, cols, top, bottom, k), was, Span(top, cols)) ==> cells == RowsDown(was, cols, top, bottom, k)
  {
  }

  method EraseRange(cells: seq<Cell>, lo: nat, hi: nat) returns (out: seq<Cell>)
    requires lo <= hi <= |cells|
    ensures out == Erased(cells, lo, hi)
  {
    out := cells;
    for i := lo to hi
      invariant |out| == |cells|
      invariant forall k | 0 <= k < |cells| :: out[k] == if lo <= k < i then BLANK else cells[k]
    {
      out := out[i := BLANK];
    }
  }

  method PullRow(cells: seq<Cell>, cols: nat, bottom: nat, r: nat, k: nat) returns (out: seq<Cell>)
    requires r <= bottom && Span(bottom + 1, cols) <= |cells|
    ensures out == RowPulled(cells, cols, bottom, r, k)
  {
    RowBounds(cols, r, bottom, r);
    if r + k <= bottom {
      RowBounds(cols, r, bottom, r + k);
      out := CopiedWithin(cells, Span(r + k, cols), cols, Span(r, cols));
    } else {
      out := EraseRange(cells, Span(r, cols), Span(r, cols) + cols);
    }
  }

  method PullRows(cells: seq<Cell>, cols: nat, top: nat, bottom: nat, k: nat) returns (out: seq<Cell>)
    requires top <= bottom && Span(bottom + 1, cols) <= |cells|
    ensures out == RowsUp(cells, cols, top, bottom, k)
  {
    RowsUpDone(cells, cells, cols, top, bottom, k);
    out := cells;
    for r := top to bottom + 1
      invariant DoneBefore(out, RowsUp(cells, cols, top, bottom, k), cells, Span(r, cols))
    {
      RowPulledStep(cells, out, cols, top, bottom, k, r);
      out := PullRow(out, cols, bottom, r, k);
    }
    RowsUpDone(out, cells, cols, top, bottom, k);
  }

  method PushRow(cells: seq<Cell>, cols: nat, top: nat, r: nat, k: nat) returns (out: seq<Cell>)
    requires top <= r && Span(r + 1, cols) <= |cells|
    ensures out == RowPushed(cells, cols, top, r, k)
  {
    if r >= top + k {
      RowBounds(cols, top, r, r - k);
      out := CopiedWithin(cells, Span(r - k, cols), cols, Span(r, cols));
    } else {
      out := EraseRange(cells, Span(r, cols), Span(r, cols) + cols);
    }
  }

  method PushRows(cells: seq<Cell>, cols: nat, top: nat, bottom: nat, k: nat) returns (out: seq<Cell>)
    requires top <= bottom && Span(bottom + 1, cols) <= |cells|
    ensures out == RowsDown(cells, cols, top, bottom, k)
  {
    RowsDownDone(cells, cells, cols, top, bottom, k);
    out := cells;
    ghost var goal := RowsDown(cells, cols, top, bottom, k);
    var r := bottom + 1;
    while r > top
      invariant top <= r <= bottom + 1 && DoneFrom(out, goal, cells, Span(r, cols))
    {
      r := r - 1;
      assert Span(r + 1, cols) <= |cells| by { SpanGrows(r + 1, bottom + 1, cols); }
      RowPushedStep(cells, out, cols, top, bottom, k, r);
      out := PushRow(out, cols, top, r, k);
    }
    RowsDownDone(out, cells, cols, top, bottom, k);
  }

  method DeleteCells(cells: seq<Cell>, lo: nat, hi: nat, n: nat) returns (out: seq<Cell>)
    requires lo <= hi <= |cells|
    ensures out == ShiftLeft(cells, lo, hi, n)
  {
    out := cells;
    ghost var goal := ShiftLeft(cells, lo, hi, n);
    for i := lo to hi
      invariant DoneBefore(out, goal, cells, i)
    {
      out := out[i := if i + n < hi then out[i + n] else BLANK];
    }
  }

  method InsertCells(cells: seq<Cell>, lo: nat, hi: nat, n: nat) returns (out: seq<Cell>)
    requires lo <= hi <= |cells|
    ensures out == ShiftRight(cells, lo, hi, n)
  {
    out := cells;
    ghost var goal := ShiftRight(cells, lo, hi, n);
    for i := hi downto lo
      invariant DoneFrom(out, goal, cells, i)
    {
      out := out[i := if i >= lo + n then out[i - n] else BLANK];
    }
  }

  /** Cells before place `m` are carried over from the old buffer, the others still blank. */
  ghost predicate CarriedBefore(out: seq<Cell>, cells: seq<Cell>, rows0: nat, cols0: nat, rows: nat, cols: nat, m: int)
    requires |cells| == Span(rows0, cols0)
  {
    DoneBefore(out, Resized(cells, rows0, cols0, rows, cols), BlankCells(Span(rows, cols)), m)
  }

  /** From column `c` on, where the old buffer had nothing, row `r` is blank anyway. */
  lemma RestOfRowBlank(out: seq<Cell>, cells: seq<Cell>, rows0: nat, cols0: nat, rows: nat, cols: nat, r: nat, c: nat)
    requires |cells| == Span(rows0, cols0) && r < rows
    requires c <= cols && (c == cols || c >= cols0 || r >= rows0)
    requires CarriedBefore(out, cells, rows0, cols0, rows, cols, Span(r, cols) + c)
    ensures CarriedBefore(out, cells, rows0, cols0, rows, cols, Span(r + 1, cols))
  {
    forall i: nat | Span(r, cols) + c <= i < Span(r + 1, cols) && i < Span(rows, cols)
      ensures Resized(cells, rows0, cols0, rows, cols)[i] == BLANK
    {
      ResizedAt(cells, rows0, cols0, rows, cols, r, i - Span(r, cols));
    }
  }

  lemma {:induction false} RestBlank(out: seq<Cell>, cells: seq<Cell>, rows0: nat, cols0: nat, rows: nat, cols: nat, r: nat)
    requires |cells| == Span(rows0, cols0) && rows0 <= r <= rows
    requires CarriedBefore(out, cells, rows0, cols0, rows, cols, Span(r, cols))
    ensures CarriedBefore(out, cells, rows0, cols0, rows, cols, Span(rows, cols))
    decreases rows - r
  {
    if r < rows {
      RestOfRowBlank(out, cells, rows0, cols0, rows, cols, r, 0);
      RestBlank(out, cells, rows0, cols0, rows, cols, r + 1);
    }
  }

  lemma CarryOne(out: seq<Cell>, cells: seq<Cell>, rows0: nat, cols0: nat, rows: nat, cols: nat, r: nat, c: nat)
    requires |cells| == Span(rows0, cols0) && r < rows0 && c < cols0 && r < rows && c < cols
    requires CarriedBefore(out, cells, rows0, cols0, rows, cols, Span(r, cols) + c)
    ensures Span(r, cols0) + c < |cells| && Span(r, cols) + c < |out|
    ensures CarriedBefore(out[Span(r, cols) + c := cells[Span(r, cols0) + c]], cells, rows0, cols0, rows, cols, Span(r, cols) + c + 1)
  {
    SpanGrows(r, rows0, cols0);
    ResizedAt(cells, rows0, cols0, rows, cols, r, c);
  }

  method CopyOverlap(cells: seq<Cell>, rows0: nat, cols0: nat, rows: nat, cols: nat) returns (out: seq<Cell>)
    requires |cells| == Span(rows0, cols0)
    ensures out == Resized(cells, rows0, cols0, rows, cols)
  {
    out := BlankCells(Span(rows, cols));
    for r := 0 to Min(rows, rows0)
      invariant CarriedBefore(out, cells, rows0, cols0, rows, cols, Span(r, cols))
    {
      for c := 0 to Min(cols, cols0)
        invariant CarriedBefore(out, cells, rows0, cols0, rows, cols, Span(r, cols) + c)
      {
        CarryOne(out, cells, rows0, cols0, rows, cols, r, c);
        out := out[Span(r, cols) + c := cells[Span(r, cols0) + c]];
      }
      RestOfRowBlank(out, cells, rows0, cols0, rows, cols, r, Min(cols, cols0));
    }
    if rows0 <= rows { RestBlank(out, cells, rows0, cols0, rows, cols, rows0); }
  }

  // ---------------------------------------------------------------- the grid

  class Grid {
    var rows: nat
    var cols: nat
    var cells: seq<Cell>
    var row: nat
    var col: nat
    var visible: bool
    var pen: Cell
    var autowrap: bool
    var wrapPending: bool
    var top: nat
    var bottom: nat
    var saved: Option<(nat, nat, Cell)>
    var alt: bool
    var main: Option<seq<Cell>>

    function Value(): Term
      reads this
    {
      Term(rows, cols, cells, row, col, visible, pen, autowrap, wrapPending, top, bottom, saved, alt, main)
    }

    constructor (rows: nat, cols: nat)
      ensures Value() == NewTerm(rows, cols)
    {
      var r: nat, c: nat := Max(rows, 1), Max(cols, 1);
      this.rows, this.cols, cells := r, c, BlankCells(Span(r, c));
      row, col, visible := 0, 0, true;
      pen, autowrap, wrapPending := BLANK, true, false;
      top, bottom, saved, alt, main := 0, r - 1, None, false, None;
    }

    /** Replace the whole state by a new grid's. */
    method RenewModes()
      modifies this`pen, this`autowrap, this`wrapPending, this`saved, this`alt, this`main, this`visible
      ensures pen == BLANK && autowrap && !wrapPending && saved == None && !alt && main == None && visible
    {
      pen, autowrap, wrapPending, saved, alt, main, visible := BLANK, true, false, None, false, None, true;
    }

    method Renew(newRows: nat, newCols: nat)
      modifies this
      ensures Value() == NewTerm(newRows, newCols)
    {
      RenewModes();
      var r: nat, c: nat := Max(newRows, 1), Max(newCols, 1);
      rows, cols, cells := r, c, BlankCells(Span(r, c));
      row, col, top, bottom := 0, 0, 0, r - 1;
    }

    method ScrollUp(n: nat)
      requires Valid(Value())
      modifies this`cells
      ensures Value() == ScrolledUp(old(Value()), top, n)
    {
      ghost var t := Value();
      var k := Min(n, bottom - top + 1);
      ScrolledIs(t, n, k);
      cells := PullRows(cells, cols, top, bottom, k);
      assert Value() == t.(cells := cells);
    }

    method ScrollDown(n: nat)
      requires Valid(Value())
      modifies this`cells
      ensures Value() == ScrolledDown(old(Value()), top, n)
    {
      ghost var t := Value();
      var k := Min(n, bottom - top + 1);
      ScrolledIs(t, n, k);
      cells := PushRows(cells, cols, top, bottom, k);
      assert Value() == t.(cells := cells);
    }

    method LineFeed()
      requires Valid(Value())
      modifies this`cells, this`row
      ensures Value() == Fed(old(Value()))
    {
      if row == bottom {
        ScrollUp(1);
      } else if row + 1 < rows {
        row := row + 1;
      }
    }

    method ReverseIndex()
      requires Valid(Value())
      modifies this`cells, this`row
      ensures Value() == FedBack(old(Value()))
    {
      if row == top {
        ScrollDown(1);
      } else if row > 0 {
        row := row - 1;
      }
    }

    method MoveTo(r: nat, c: nat)
      requires Valid(Value())
      modifies this`row, this`col, this`wrapPending
      ensures Value() == Moved(old(Value()), r, c)
    {
      row := Min(r, rows - 1);
      col := Min(c, cols - 1);
      wrapPending := false;
    }

    method InsertLines(n: nat)
      requires Valid(Value())
      modifies this`cells, this`top
      ensures Value() == LinesInserted(old(Value()), n)
    {
      if row < top || row > bottom {
        return;
      }
      ghost var t := Value();
      var savedTop := top;
      top := row;
      ScrollDown(n);
      ScrolledFrom(t, n);
      top := savedTop;
    }

    method DeleteLines(n: nat)
      requires Valid(Value())
      modifies this`cells, this`top
      ensures Value() == LinesDeleted(old(Value()), n)
    {
      if row < top || row > bottom {
        return;
      }
      ghost var t := Value();
      var savedTop := top;
      top := row;
      ScrollUp(n);
      ScrolledFrom(t, n);
      top := savedTop;
    }

    method InsertBlankChars(n: nat)
      requires Valid(Value())
      modifies this`cells
      ensures Value() == CharsInserted(old(Value()), n)
    {
      var start := RowStart(Value());
      cells := InsertCells(cells, start + col, start + cols, Min(n, cols - col));
    }

    method DeleteChars(n: nat)
      requires Valid(Value())
      modifies this`cells
      ensures Value() == CharsDeleted(old(Value()), n)
    {
      var start := RowStart(Value());
      cells := DeleteCells(cells, start + col, start + cols, Min(n, cols - col));
    }

    method EraseInDisplay(mode: nat)
      requires Valid(Value())
      modifies this`cells
      ensures Value() == DisplayErased(old(Value()), mode)
    {
      var (lo, hi) := DisplayExtent(Value(), mode);
      cells := EraseRange(cells, lo, hi);
    }

    method EraseInLine(mode: nat)
      requires Valid(Value())
      modifies this`cells
      ensures Value() == LineErased(old(Value()), mode)
    {
      var (lo, hi) := LineExtent(Value(), mode);
      cells := EraseRange(cells, lo, hi);
    }

    /** Bring the cursor to where a glyph of this width goes. */
    method PlaceCursor(width: nat)
      requires Valid(Value()) && (width == 2 ==> cols >= 2)
      modifies this`cells, this`row, this`col, this`wrapPending
      ensures Value() == Placed(old(Value()), width)
    {
      if wrapPending && autowrap {
        col := 0;
        LineFeed();
        wrapPending := false;
      }
      if width == 2 && col + 1 >= cols {
        if autowrap {
          col := 0;
          LineFeed();
        } else {
          col := cols - 2;
        }
        wrapPending := false;
      }
    }

    /** Write the glyph at the cursor and advance. */
    method WriteGlyph(ch: char, width: nat)
      requires Valid(Value()) && (width == 2 ==> col + 1 < cols)
      modifies this`cells, this`col, this`wrapPending
      ensures Value() == Written(old(Value()), ch, width)
    {
      var i := RowStart(Value()) + col;
      cells := cells[i := pen.(ch := ch)];
      if width == 2 {
        cells := cells[i + 1 := pen.(ch := '\0')];
        if col + 2 < cols {
          col := col + 2;
        } else if autowrap {
          wrapPending := true;
        } else {
          col := cols - 1;
        }
      } else if col + 1 < cols {
        col := col + 1;
      } else if autowrap {
        wrapPending := true;
      }
    }

    method PutChar(ch: char, width: nat)
      requires Valid(Value()) && Possible(Value(), Print(ch, width))
      modifies this`cells, this`row, this`col, this`wrapPending
      ensures Value() == Printed(old(Value()), ch, width)
    {
      if width != 0 {
        PlaceCursor(width);
        WriteGlyph(ch, width);
      }
    }

    method EnterAltScreen()
      requires Valid(Value())
      modifies this`alt, this`main, this`cells, this`row, this`col, this`wrapPending
      ensures Value() == AltEntered(old(Value()))
    {
      if !alt {
        alt := true;
        main, cells := Some(cells), BlankCells(Span(rows, cols));
        MoveTo(0, 0);
      }
    }

    method LeaveAltScreen()
      requires Valid(Value())
      modifies this`alt, this`main, this`cells
      ensures Value() == AltLeft(old(Value()))
    {
      if alt {
        alt := false;
        if main.Some? {
          cells, main := main.value, None;
        }
      }
    }

    method Resize(newRows: nat, newCols: nat)
      requires Valid(Value())
      modifies this`cells, this`rows, this`cols, this`main, this`top, this`bottom, this`row, this`col, this`wrapPending
      ensures Value() == TermResized(old(Value()), newRows, newCols)
    {
      var r: nat, c: nat := Max(newRows, 1), Max(newCols, 1);
      var buffer := CopyOverlap(cells, rows, cols, r, c);
      if main.Some? {
        var kept := CopyOverlap(main.value, rows, cols, r, c);
        main := Some(kept);
      }
      cells, rows, cols := buffer, r, c;
      ClampToSize();
    }

    method ClampToSize()
      requires rows >= 1 && cols >= 1
      modifies this`top, this`bottom, this`row, this`col, this`wrapPending
      ensures top == 0 && bottom == rows - 1 && !wrapPending
      ensures row == Min(old(row), rows - 1) && col == Min(old(col), cols - 1)
    {
      top, bottom := 0, rows - 1;
      row, col := Min(row, rows - 1), Min(col, cols - 1);
      wrapPending := false;
    }

    method TabForward()
      requires Valid(Value())
      modifies this`col
      ensures Value() == Tabbed(old(Value()))
    {
      col := Min((col / 8 + 1) * 8, cols - 1);
    }

    method StepCursor(a: Action)
      requires Valid(Value())
      modifies this`row, this`col, this`wrapPending
      ensures Value() == Stepped(old(Value()), a)
    {
      if a.Up? {
        row, wrapPending := Max(0, row - a.n), false;
      } else if a.Down? {
        row, wrapPending := Min(row + a.n, rows - 1), false;
      } else if a.Right? {
        col, wrapPending := Min(col + a.n, cols - 1), false;
      } else if a.Left? {
        col, wrapPending := Max(0, col - a.n), false;
      }
    }

    method Steer(a: Action)
      requires Valid(Value())
      modifies this`row, this`col, this`wrapPending
      ensures Value() == Steered(old(Value()), a)
    {
      if a.CarriageReturn? {
        col, wrapPending := 0, false;
      } else if a.Backspace? {
        if col > 0 { col := col - 1; }
        wrapPending := false;
      } else if a.Tab? {
        TabForward();
      } else if a.ToColumn? {
        col, wrapPending := Min(a.col, cols - 1), false;
      } else if a.ToRow? {
        row, wrapPending := Min(a.row, rows - 1), false;
      } else if a.MoveTo? {
        MoveTo(a.row, a.col);
      } else {
        StepCursor(a);
      }
    }

    method SetScrollRegion(first: int, last: int)
      requires Valid(Value())
      modifies this`top, this`bottom, this`row, this`col, this`wrapPending
      ensures Value() == RegionSet(old(Value()), first, last)
    {
      if 0 <= first < last < rows {
        top, bottom := first, last;
        MoveTo(0, 0);
      }
    }

    method SaveCursor()
      requires Valid(Value())
      modifies this`saved
      ensures Value() == CursorSaved(old(Value()))
    {
      saved := Some((row, col, pen));
    }

    method RestoreCursor()
      requires Valid(Value())
      modifies this`row, this`col, this`pen
      ensures Value() == CursorRestored(old(Value()))
    {
      if saved.Some? {
        row, col, pen := Min(saved.value.0, rows - 1), Min(saved.value.1, cols - 1), saved.value.2;
      }
    }

    method Adjust(a: Action)
      requires Valid(Value())
      modifies this`row, this`col, this`wrapPending, this`top, this`bottom, this`pen, this`autowrap, this`visible, this`saved
      ensures Value() == Adjusted(old(Value()), a)
    {
      if a.SetRegion? {
        SetScrollRegion(a.top, a.bottom);
      } else if a.SetPen? {
        pen := a.pen;
      } else if a.SetAutowrap? {
        autowrap := a.on;
      } else if a.SetVisible? {
        visible := a.on;
      } else if a.Save? {
        SaveCursor();
      } else if a.Restore? {
        RestoreCursor();
      } else {
        Steer(a);
      }
    }

    method Scroll(a: Action)
      requires Valid(Value())
      modifies this`cells, this`row, this`col, this`top
      ensures Value() == Scrolled(old(Value()), a)
    {
      if a.LineFeed? {
        LineFeed();
      } else if a.ReverseIndex? {
        ReverseIndex();
      } else if a.NextLine? {
        col := 0;
        LineFeed();
      } else if a.InsertLines? {
        InsertLines(a.n);
      } else if a.DeleteLines? {
        DeleteLines(a.n);
      } else if a.ScrollUp? {
        ScrollUp(a.n);
      } else if a.ScrollDown? {
        ScrollDown(a.n);
      }
    }

    method Edit(a: Action)
      requires Valid(Value()) && Possible(Value(), a)
      modifies this`cells, this`row, this`col, this`wrapPending, this`top
      ensures Value() == Edited(old(Value()), a)
    {
      if a.Print? {
        PutChar(a.ch, a.width);
      } else if a.EraseDisplay? {
        EraseInDisplay(a.mode);
      } else if a.EraseLine? {
        EraseInLine(a.mode);
      } else if a.InsertChars? {
        InsertBlankChars(a.n);
      } else if a.DeleteChars? {
        DeleteChars(a.n);
      } else {
        Scroll(a);
      }
    }

    /** One parsed action of the terminal. */
    method Perform(a: Action)
      requires Valid(Value()) && Possible(Value(), a)
      modifies this
      ensures Value() == Act(old(Value()), a) && Valid(Value())
    {
      if a.EnterAlt? {
        EnterAltScreen();
      } else if a.LeaveAlt? {
        LeaveAltScreen();
      } else if a.Reset? {
        Renew(rows, cols);
      } else if a.Resize? {
        Resize(a.rows, a.cols);
      } else if Edits(a) {
        Edit(a);
      } else {
        Adjust(a);
      }
    }
  }
}
