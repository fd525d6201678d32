/** Predictive echo: guesses painted over the authoritative screen until it confirms or refutes them. */
module Predict {
  import opened Common
  import opened Screen

  datatype DisplayMode = Always | Never | Adaptive

  datatype Prediction = Prediction(row: nat, col: nat, ch: char)

  datatype State = State(base: Screen, preds: seq<Prediction>, row: nat, col: nat, mode: DisplayMode, confirmed: bool, glitch: bool)

  const PREDICTED_FLAGS: byte := 0x82    // predicted and underlined

  function NewState(base: Screen): State { State(base, [], base.row, base.col, Adaptive, false, false) }

  predicate Displaying(p: State) {
    match p.mode
    case Always => true
    case Never => false
    case Adaptive => p.confirmed && !p.glitch
  }

  // ---------------------------------------------------------------- typing

  predicate AtEnd(p: State) { p.col + 1 >= p.base.cols && p.row + 1 >= p.base.rows }

  /** The predicted cursor, one cell on. */
  function Advanced(p: State): State {
    if p.col + 1 < p.base.cols then p.(col := p.col + 1)
    else if p.row + 1 < p.base.rows then p.(row := p.row + 1, col := 0)
    else p
  }

  /** The last prediction is taken back, and the predicted cursor with it. */
  function Undone(p: State): State
  {
    if p.preds == [] then p
    else
      var q := p.(preds := p.preds[..|p.preds| - 1]);
      if p.col > 0 then q.(col := p.col - 1)
      else if p.row > 0 && p.base.cols > 0 then q.(row := p.row - 1, col := p.base.cols - 1)
      else q
  }

  function GivenUp(p: State): State { p.(preds := [], row := p.base.row, col := p.base.col) }

  predicate Printable(b: byte) { 0x20 <= b <= 0x7e }

  function Typed(p: State, b: byte): State {
    if Printable(b) then
      if AtEnd(p) then p else Advanced(p.(preds := p.preds + [Prediction(p.row, p.col, b as char)]))
    else if b == 0x08 || b == 0x7f then Undone(p)
    else GivenUp(p)
  }

  function TypedAll(p: State, bytes: seq<byte>): State
    decreases |bytes|
  {
    if bytes == [] then p else TypedAll(Typed(p, bytes[0]), bytes[1..])
  }

  // ---------------------------------------------------------------- painting

  function Guess(ch: char): Cell { Cell(ch, Default, Default, PREDICTED_FLAGS) }

  function Painted(s: Screen, cells: seq<Cell>, q: Prediction): (r: seq<Cell>)
    ensures |r| == |cells|
  {
    if q.row < s.rows && q.col < s.cols && Span(q.row, s.cols) + q.col < |cells|
    then cells[Span(q.row, s.cols) + q.col := Guess(q.ch)] else cells
  }

  function PaintAll(s: Screen, cells: seq<Cell>, qs: seq<Prediction>): (r: seq<Cell>)
    ensures |r| == |cells|
    decreases |qs|
  {
    if qs == [] then cells else PaintAll(s, Painted(s, cells, qs[0]), qs[1..])
  }

  function Overlay(p: State): Screen {
    if !Displaying(p) then p.base
    else p.base.(cells := PaintAll(p.base, p.base.cells, p.preds),
                 row := Max(0, Min(p.row, p.base.rows - 1)), col := Max(0, Min(p.col, p.base.cols - 1)))
  }

  // ---------------------------------------------------------------- reconciling

  function ShownAt(s: Screen, row: nat, col: nat): Cell {
    if row < s.rows && col < s.cols && Span(row, s.cols) + col < |s.cells| then s.cells[Span(row, s.cols) + col] else BLANK
  }

  /** The authoritative cursor is past the predicted cell. */
  predicate Reached(s: Screen, q: Prediction) { s.row > q.row || (s.row == q.row && s.col > q.col) }

  predicate Hit(s: Screen, q: Prediction) { Reached(s, q) && ShownAt(s, q.row, q.col).ch == q.ch }

  predicate Miss(s: Screen, q: Prediction) { Reached(s, q) && ShownAt(s, q.row, q.col).ch != q.ch }

  function Unreached(s: Screen): Prediction -> bool { q => !Reached(s, q) }

  function Confirmed(s: Screen): Prediction -> bool { q => Hit(s, q) }

  function Missed(s: Screen): Prediction -> bool { q => Miss(s, q) }

  function Within(s: Screen): Prediction -> bool { (q: Prediction) => q.row < s.rows && q.col < s.cols }

  function Filter(f: Prediction -> bool, qs: seq<Prediction>): seq<Prediction> {
    if qs == [] then [] else (if f(qs[0]) then [qs[0]] else []) + Filter(f, qs[1..])
  }

  predicate AnyOf(f: Prediction -> bool, qs: seq<Prediction>) { exists i | 0 <= i < |qs| :: f(qs[i]) }

  /** A screen arrives that confirms some prediction and refutes none. */
  predicate Confirms(p: State, s: Screen) {
    AnyOf(Confirmed(s), p.preds) && !AnyOf(Missed(s), p.preds)
  }

  function Reconciled(p: State, s: Screen): State {
    var missed := AnyOf(Missed(s), p.preds);
    var kept := if missed then [] else Filter(Unreached(s), p.preds);
    var preds := Filter(Within(s), kept);
    State(s, preds,
          if preds == [] then s.row else Max(0, Min(p.row, s.rows - 1)),
          if preds == [] then s.col else Max(0, Min(p.col, s.cols - 1)),
          p.mode, p.confirmed || Confirms(p, s), if missed then true else if Confirms(p, s) then false else p.glitch)
  }

  // ---------------------------------------------------------------- runs

  datatype Event = Type(bytes: seq<byte>) | Reconcile(screen: Screen) | SetMode(mode: DisplayMode)

  function Step(p: State, e: Event): State {
    match e
    case Type(bytes) => TypedAll(p, bytes)
    case Reconcile(s) => Reconciled(p, s)
    case SetMode(mode) => p.(mode := mode)
  }

  function Run(p: State, events: seq<Event>): State
    decreases |events|
  {
    if events == [] then p else Run(Step(p, events[0]), events[1..])
  }

  // ---------------------------------------------------------------- reading order

  function Place(cols: nat, row: nat, col: nat): nat { Span(row, cols) + col }

  /** Comparing rows and then columns is comparing places. */
  lemma PlaceOrder(cols: nat, r1: nat, c1: nat, r2: nat, c2: nat)
    requires c1 < cols && c2 < cols
    ensures r1 < r2 || (r1 == r2 && c1 < c2) <==> Place(cols, r1, c1) < Place(cols, r2, c2)
    ensures r1 == r2 && c1 == c2 <==> Place(cols, r1, c1) == Place(cols, r2, c2)
  {
    if r1 < r2 { SpanGrows(r1, r2, cols); }
    if r2 < r1 { SpanGrows(r2, r1, cols); }
  }

  ghost predicate OnScreen(s: Screen, row: nat, col: nat) { row < s.rows && col < s.cols }

  /** The predictions occupy consecutive places from `start` on. */
  ghost predicate Consecutive(s: Screen, qs: seq<Prediction>, start: int) {
    forall i | 0 <= i < |qs| :: OnScreen(s, qs[i].row, qs[i].col) && Place(s.cols, qs[i].row, qs[i].col) == start + i
  }

  ghost function Start(p: State): int { Place(p.base.cols, p.row, p.col) - |p.preds| }

  /** Outstanding predictions end just before the predicted cursor, and none lies before the authoritative one. */
  ghost predicate Inv(p: State) {
    && WellFormed(p.base) && OnScreen(p.base, p.row, p.col)
    && Consecutive(p.base, p.preds, Start(p))
    && Place(p.base.cols, p.base.row, p.base.col) <= Start(p)
  }

  lemma AdvancedPlace(p: State)
    requires WellFormed(p.base) && OnScreen(p.base, p.row, p.col) && !AtEnd(p)
    ensures var q := Advanced(p);
            && OnScreen(p.base, q.row, q.col) && q == p.(row := q.row, col := q.col)
            && Place(p.base.cols, q.row, q.col) == Place(p.base.cols, p.row, p.col) + 1
  {
  }

  /** Taking back what was just predicted restores the state exactly. */
  lemma UndoneTyped(p: State, b: byte)
    requires WellFormed(p.base) && OnScreen(p.base, p.row, p.col) && Printable(b) && !AtEnd(p)
    ensures Undone(Typed(p, b)) == p
  {
    var q := p.(preds := p.preds + [Prediction(p.row, p.col, b as char)]);
    assert q.preds[..|q.preds| - 1] == p.preds;
  }

  lemma UndoneInv(p: State)
    requires Inv(p)
    ensures Inv(Undone(p)) && Undone(p).base == p.base
  {
    if p.preds != [] {
      var last := p.preds[|p.preds| - 1];
      assert Place(p.base.cols, last.row, last.col) == Place(p.base.cols, p.row, p.col) - 1;
      if p.col == 0 {
        assert p.row > 0;
      }
    }
  }

  lemma TypedInv(p: State, b: byte)
    requires Inv(p)
    ensures Inv(Typed(p, b)) && Typed(p, b).base == p.base
  {
    if Printable(b) {
      if !AtEnd(p) { AdvancedPlace(p.(preds := p.preds + [Prediction(p.row, p.col, b as char)])); }
    } else if b == 0x08 || b == 0x7f {
      UndoneInv(p);
    }
  }

  lemma {:induction false} TypedAllInv(p: State, bytes: seq<byte>)
    requires Inv(p)
    ensures Inv(TypedAll(p, bytes)) && TypedAll(p, bytes).base == p.base
    decreases |bytes|
  {
    if bytes != [] {
      TypedInv(p, bytes[0]);
      TypedAllInv(Typed(p, bytes[0]), bytes[1..]);
    }
  }

  // ---------------------------------------------------------------- reconciling keeps a suffix

  lemma {:induction false} FilterSuffix(f: Prediction -> bool, qs: seq<Prediction>, k: nat)
    requires k <= |qs| && forall i | 0 <= i < |qs| :: f(qs[i]) <==> i >= k
    ensures Filter(f, qs) == qs[k..]
    decreases |qs|
  {
    if qs != [] {
      FilterSuffix(f, qs[1..], if k == 0 then 0 else k - 1);
    }
  }

  /** How many of `n` consecutive places from `start` on lie before `at`. */
  ghost function Before(n: nat, start: int, at: int): (k: nat)
    ensures k <= n
  {
    if at <= start then 0 else if at - start >= n then n else at - start
  }

  lemma UnreachedIff(s: Screen, q: Prediction)
    requires WellFormed(s) && OnScreen(s, q.row, q.col)
    ensures Unreached(s)(q) <==> Place(s.cols, q.row, q.col) >= Place(s.cols, s.row, s.col)
  {
    PlaceOrder(s.cols, q.row, q.col, s.row, s.col);
  }

  /** Of consecutive predictions, those not yet reached are a suffix. */
  lemma KeptIsSuffix(s: Screen, t: Screen, qs: seq<Prediction>, start: int)
    requires WellFormed(s) && SameSize(s, t) && Consecutive(t, qs, start)
    ensures Filter(Unreached(s), qs) == qs[Before(|qs|, start, Place(s.cols, s.row, s.col))..]
  {
    var f, at := Unreached(s), Place(s.cols, s.row, s.col);
    forall i | 0 <= i < |qs| ensures f(qs[i]) <==> start + i >= at {
      UnreachedIff(s, qs[i]);
    }
    FilterFrom(f, qs, start, at);
  }

  lemma FilterFrom(f: Prediction -> bool, qs: seq<Prediction>, start: int, at: int)
    requires forall i | 0 <= i < |qs| :: f(qs[i]) <==> start + i >= at
    ensures Filter(f, qs) == qs[Before(|qs|, start, at)..]
  {
    var k := Before(|qs|, start, at);
    forall i | 0 <= i < |qs| ensures f(qs[i]) <==> i >= k { }
    FilterSuffix(f, qs, k);
  }

  lemma ReconciledPreds(p: State, s: Screen)
    requires Inv(p) && WellFormed(s) && SameSize(s, p.base)
    ensures var k := Before(|p.preds|, Start(p), Place(s.cols, s.row, s.col));
            Reconciled(p, s).preds == if AnyOf(Missed(s), p.preds) then [] else p.preds[k..]
  {
    var k := Before(|p.preds|, Start(p), Place(s.cols, s.row, s.col));
    KeptIsSuffix(s, p.base, p.preds, Start(p));
    var kept := if AnyOf(Missed(s), p.preds) then [] else p.preds[k..];
    FilterSuffix(Within(s), kept, 0);
  }

  lemma ReconciledInv(p: State, s: Screen)
    requires Inv(p) && WellFormed(s) && SameSize(s, p.base)
    ensures Inv(Reconciled(p, s)) && Reconciled(p, s).base == s
  {
    ReconciledPreds(p, s);
    var k := Before(|p.preds|, Start(p), Place(s.cols, s.row, s.col));
    assert Consecutive(s, p.preds[k..], Start(p) + k) by {
      forall i | 0 <= i < |p.preds[k..]|
        ensures OnScreen(s, p.preds[k..][i].row, p.preds[k..][i].col) && Place(s.cols, p.preds[k..][i].row, p.preds[k..][i].col) == Start(p) + k + i
      {
        assert p.preds[k..][i] == p.preds[k + i];
      }
    }
  }

  // ---------------------------------------------------------------- what holds in every run

  /** The event brings well-formed screens of the size the predictor started with. */
  ghost predicate SizeKept(e: Event, size: Screen) { e.Reconcile? ==> WellFormed(e.screen) && SameSize(e.screen, size) }

  lemma {:induction false} RunInv(p: State, events: seq<Event>)
    requires Inv(p) && forall e | e in events :: SizeKept(e, p.base)
    ensures Inv(Run(p, events)) && SameSize(Run(p, events).base, p.base)
    decreases |events|
  {
    if events != [] {
      assert SizeKept(events[0], p.base);
      match events[0] {
        case Type(bytes) => TypedAllInv(p, bytes);
        case Reconcile(s) => ReconciledInv(p, s);
        case SetMode(_) =>
      }
      var q := Step(p, events[0]);
      forall e | e in events[1..] ensures SizeKept(e, q.base) { assert e in events && SizeKept(e, p.base); }
      RunInv(q, events[1..]);
    }
  }

  lemma {:induction false} PaintElsewhere(s: Screen, cells: seq<Cell>, qs: seq<Prediction>, k: nat)
    requires k < |cells| && forall i | 0 <= i < |qs| :: Place(s.cols, qs[i].row, qs[i].col) != k
    ensures PaintAll(s, cells, qs)[k] == cells[k]
    decreases |qs|
  {
    if qs != [] {
      assert Place(s.cols, qs[0].row, qs[0].col) != k;
      PaintElsewhere(s, Painted(s, cells, qs[0]), qs[1..], k);
    }
  }

  lemma {:induction false} PaintedAt(s: Screen, cells: seq<Cell>, qs: seq<Prediction>, start: int, i: nat)
    requires WellFormed(s) && |cells| == |s.cells| && Consecutive(s, qs, start) && i < |qs|
    ensures 0 <= start + i < |cells| && PaintAll(s, cells, qs)[start + i] == Guess(qs[i].ch)
    decreases |qs|
  {
    var rest := qs[1..];
    assert Consecutive(s, rest, start + 1) by {
      forall j | 0 <= j < |rest| ensures OnScreen(s, rest[j].row, rest[j].col) && Place(s.cols, rest[j].row, rest[j].col) == start + 1 + j {
        assert rest[j] == qs[j + 1];
      }
    }
    SpanGrows(qs[0].row, s.rows, s.cols);
    if i == 0 {
      PaintElsewhere(s, Painted(s, cells, qs[0]), rest, start);
    } else {
      PaintedAt(s, Painted(s, cells, qs[0]), rest, start + 1, i - 1);
    }
  }

  /** In every run: what is shown differs from the real screen at most in the cells between the two cursors, where it shows the predictions. */
  lemma OverlaySound(p0: Screen, events: seq<Event>, k: nat)
    requires WellFormed(p0) && (forall e | e in events :: SizeKept(e, p0))
    ensures var p := Run(NewState(p0), events); var shown := Overlay(p);
            && Inv(p) && SameSize(shown, p.base) && |shown.cells| == |p.base.cells|
            && (k < |p.base.cells| ==>
                  shown.cells[k] == if Displaying(p) && Start(p) <= k < Start(p) + |p.preds|
                                    then Cell(p.preds[k - Start(p)].ch, Default, Default, 0x82) else p.base.cells[k])
            && (shown.row, shown.col) == if Displaying(p) then (p.row, p.col) else (p.base.row, p.base.col)
  {
    RunInv(NewState(p0), events);
    var p := Run(NewState(p0), events);
    if k < |p.base.cells| && Displaying(p) {
      if Start(p) <= k < Start(p) + |p.preds| {
        PaintedAt(p.base, p.base.cells, p.preds, Start(p), k - Start(p));
      } else {
        PaintElsewhere(p.base, p.base.cells, p.preds, k);
      }
    }
  }

  /** The fixed modes show predictions always, or never; a new predictor is adaptive, predicts nothing and trusts nothing. */
  lemma ModesDecide(p: State)
    ensures p.mode == Always ==> Displaying(p)
    ensures p.mode == Never ==> !Displaying(p)
    ensures NewState(p.base) == State(p.base, [], p.base.row, p.base.col, Adaptive, false, false)
  {
  }

  // ---------------------------------------------------------------- single keys

  /** A printable byte adds one prediction, of itself at the predicted cursor, unless that is the last cell of the screen. */
  lemma PrintableAdds(p: State, b: byte)
    requires Inv(p) && 0x20 <= b <= 0x7e
    ensures var q := Typed(p, b);
            if p.row + 1 == p.base.rows && p.col + 1 == p.base.cols then q == p
            else
              && q == p.(preds := p.preds + [Prediction(p.row, p.col, b as char)], row := q.row, col := q.col)
              && Place(p.base.cols, q.row, q.col) == Place(p.base.cols, p.row, p.col) + 1
  {
    if !AtEnd(p) { AdvancedPlace(p.(preds := p.preds + [Prediction(p.row, p.col, b as char)])); }
  }

  /** Both backspace bytes take the last prediction back and put the predicted cursor on its cell; without one they do nothing. */
  lemma BackspaceTakesBack(p: State, b: byte)
    requires Inv(p) && (b == 0x08 || b == 0x7f)
    ensures p.preds == [] ==> Typed(p, b) == p
    ensures p.preds != [] ==>
            var last := p.preds[|p.preds| - 1];
            Typed(p, b) == p.(preds := p.preds[..|p.preds| - 1], row := last.row, col := last.col)
  {
    if p.preds != [] {
      var last, q := p.preds[|p.preds| - 1], Undone(p);
      UndoneInv(p);
      PlaceOrder(p.base.cols, last.row, last.col, q.row, q.col);
    }
  }

  /** Enter and every other byte that is neither printable nor a backspace give all predictions up. */
  lemma OtherKeysGiveUp(p: State, text: seq<byte>, b: byte)
    requires !(0x20 <= b <= 0x7e) && b != 0x08 && b != 0x7f
    ensures TypedAll(p, text + [b]) == p.(preds := [], row := p.base.row, col := p.base.col)
  {
    TypedConcat(p, text, [b]);
    TypingKeepsBase(p, text);
    assert TypedAll(TypedAll(p, text), [b]) == Typed(TypedAll(p, text), b);
  }

  lemma {:induction false} TypingKeepsBase(p: State, bytes: seq<byte>)
    ensures var q := TypedAll(p, bytes); q == p.(preds := q.preds, row := q.row, col := q.col)
    decreases |bytes|
  {
    if bytes != [] { TypingKeepsBase(Typed(p, bytes[0]), bytes[1..]); }
  }

  // ---------------------------------------------------------------- what an arriving screen decides

  /** The character a screen shows where a prediction stands. */
  function Shows(s: Screen, q: Prediction): char
    requires WellFormed(s) && q.row < s.rows && q.col < s.cols
  {
    SpanGrows(q.row, s.rows, s.cols);
    s.cells[Span(q.row, s.cols) + q.col].ch
  }

  /** The screen's cursor is past the prediction. */
  ghost predicate Passed(s: Screen, q: Prediction) { Place(s.cols, q.row, q.col) < Place(s.cols, s.row, s.col) }

  lemma VerdictOn(p: State, s: Screen, i: nat)
    requires Inv(p) && WellFormed(s) && SameSize(s, p.base) && i < |p.preds|
    ensures Hit(s, p.preds[i]) <==> Passed(s, p.preds[i]) && Shows(s, p.preds[i]) == p.preds[i].ch
    ensures Miss(s, p.preds[i]) <==> Passed(s, p.preds[i]) && Shows(s, p.preds[i]) != p.preds[i].ch
  {
    var q := p.preds[i];
    PlaceOrder(s.cols, q.row, q.col, s.row, s.col);
    SpanGrows(q.row, s.rows, s.cols);
  }

  /** One passed cell that shows another character gives all predictions up and suspends display. */
  lemma MissGivesUp(p: State, s: Screen, i: nat)
    requires Inv(p) && WellFormed(s) && SameSize(s, p.base) && i < |p.preds|
    requires Passed(s, p.preds[i]) && Shows(s, p.preds[i]) != p.preds[i].ch
    ensures Reconciled(p, s) == State(s, [], s.row, s.col, p.mode, p.confirmed, true)
  {
    VerdictOn(p, s, i);
    assert Missed(s)(p.preds[i]);
  }

  /** If every passed cell shows its character and one is passed, display is trusted, and exactly the cells not passed stay predicted. */
  lemma EchoConfirms(p: State, s: Screen)
    requires Inv(p) && WellFormed(s) && SameSize(s, p.base) && p.preds != [] && Passed(s, p.preds[0])
    requires forall i | 0 <= i < |p.preds| :: Passed(s, p.preds[i]) ==> Shows(s, p.preds[i]) == p.preds[i].ch
    ensures var r := Reconciled(p, s);
            && r.confirmed && !r.glitch && r.base == s && r.mode == p.mode
            && r.preds == p.preds[Before(|p.preds|, Start(p), Place(s.cols, s.row, s.col))..]
            && (r.row, r.col) == if r.preds == [] then (s.row, s.col) else (p.row, p.col)
  {
    forall i: nat | i < |p.preds| ensures !Miss(s, p.preds[i]) { VerdictOn(p, s, i); }
    VerdictOn(p, s, 0);
    assert Confirmed(s)(p.preds[0]);
    ReconciledPreds(p, s);
  }

  /** A screen whose cursor has passed no prediction decides nothing. */
  lemma NothingPassed(p: State, s: Screen)
    requires Inv(p) && WellFormed(s) && SameSize(s, p.base) && p.preds != [] && !Passed(s, p.preds[0])
    ensures Reconciled(p, s) == p.(base := s)
  {
    forall i: nat | i < |p.preds| ensures !Miss(s, p.preds[i]) && !Hit(s, p.preds[i]) { VerdictOn(p, s, i); }
    ReconciledPreds(p, s);
    assert p.preds[0..] == p.preds;
  }

  // ---------------------------------------------------------------- backspaces

  function Backspaces(n: nat): seq<byte> { seq(n, _ => 0x7f) }

  lemma {:induction false} TypedConcat(p: State, a: seq<byte>, b: seq<byte>)
    ensures TypedAll(p, a + b) == TypedAll(TypedAll(p, a), b)
    decreases |a|
  {
    if a == [] {
      assert a + b == b;
    } else {
      assert (a + b)[1..] == a[1..] + b;
      TypedConcat(Typed(p, a[0]), a[1..], b);
    }
  }

  /** As many backspaces as printable characters were accepted restore the state exactly. */
  lemma {:induction false} BackspacesUndo(p: State, text: seq<byte>)
    requires Inv(p) && forall b | b in text :: Printable(b)
    ensures var q := TypedAll(p, text);
            && |p.preds| <= |q.preds| <= |p.preds| + |text|
            && TypedAll(q, Backspaces(|q.preds| - |p.preds|)) == p
    decreases |text|
  {
    if text == [] {
      assert Backspaces(0) == [];
    } else {
      var p1, rest := Typed(p, text[0]), text[1..];
      TypedInv(p, text[0]);
      BackspacesUndo(p1, rest);
      if !AtEnd(p) {
        AdvancedPlace(p.(preds := p.preds + [Prediction(p.row, p.col, text[0] as char)]));
        var q := TypedAll(p, text);
        var n := |q.preds| - |p1.preds|;
        assert Backspaces(n + 1) == Backspaces(n) + [0x7f];
        TypedConcat(q, Backspaces(n), [0x7f]);
        UndoneTyped(p, text[0]);
        assert TypedAll(p1, [0x7f]) == Undone(p1);
      }
    }
  }

  // ---------------------------------------------------------------- adaptive display

  /** Some event of the run brought a screen that confirmed a prediction and refuted none. */
  ghost predicate SomeConfirmed(p: State, events: seq<Event>)
    decreases |events|
  {
    events != [] &&
    ((events[0].Reconcile? && Confirms(p, events[0].screen)) || SomeConfirmed(Step(p, events[0]), events[1..]))
  }

  lemma {:induction false} TypingConfirmsNothing(p: State, bytes: seq<byte>)
    ensures TypedAll(p, bytes).confirmed == p.confirmed && TypedAll(p, bytes).base == p.base
    decreases |bytes|
  {
    if bytes != [] { TypingConfirmsNothing(Typed(p, bytes[0]), bytes[1..]); }
  }

  lemma {:induction false} ConfirmedIff(p: State, events: seq<Event>)
    ensures Run(p, events).confirmed <==> p.confirmed || SomeConfirmed(p, events)
    decreases |events|
  {
    if events != [] {
      if events[0].Type? { TypingConfirmsNothing(p, events[0].bytes); }
      ConfirmedIff(Step(p, events[0]), events[1..]);
    }
  }

  /** Some event of the run brought a screen that decided about a prediction: what the last such screen said. */
  function LastVerdict(p: State, events: seq<Event>): Option<bool>
    decreases |events|
  {
    if events == [] then None
    else
      var later := LastVerdict(Step(p, events[0]), events[1..]);
      if later.Some? then later
      else if !events[0].Reconcile? then None
      else if AnyOf(Missed(events[0].screen), p.preds) then Some(false)
      else if AnyOf(Confirmed(events[0].screen), p.preds) then Some(true)
      else None
  }

  lemma {:induction false} TypingKeepsTrust(p: State, bytes: seq<byte>)
    ensures TypedAll(p, bytes).glitch == p.glitch
    decreases |bytes|
  {
    if bytes != [] { TypingKeepsTrust(Typed(p, bytes[0]), bytes[1..]); }
  }

  lemma {:induction false} TrustIsLastVerdict(p: State, events: seq<Event>)
    ensures var q := Run(p, events);
            (q.confirmed && !q.glitch) == match LastVerdict(p, events)
                                          case Some(said) => said
                                          case None => p.confirmed && !p.glitch
    decreases |events|
  {
    if events != [] {
      if events[0].Type? {
        TypingConfirmsNothing(p, events[0].bytes);
        TypingKeepsTrust(p, events[0].bytes);
      }
      TrustIsLastVerdict(Step(p, events[0]), events[1..]);
    }
  }

  /** In adaptive mode predictions are shown exactly while the last screen that decided about one confirmed it and refuted none. */
  lemma AdaptiveExact(p0: Screen, events: seq<Event>)
    requires Run(NewState(p0), events).mode == Adaptive
    ensures Displaying(Run(NewState(p0), events)) <==> LastVerdict(NewState(p0), events) == Some(true)
  {
    TrustIsLastVerdict(NewState(p0), events);
  }

  /** So nothing predicted is shown until some prediction has been confirmed. */
  lemma AdaptiveWaits(p0: Screen, events: seq<Event>)
    requires Run(NewState(p0), events).mode == Adaptive && !SomeConfirmed(NewState(p0), events)
    ensures var p := Run(NewState(p0), events); Overlay(p) == p.base
  {
    ConfirmedIff(NewState(p0), events);
  }

  // ---------------------------------------------------------------- the predictor

  lemma AnyOfFirst(f: Prediction -> bool, qs: seq<Prediction>)
    requires qs != []
    ensures AnyOf(f, qs) <==> f(qs[0]) || AnyOf(f, qs[1..])
  {
    if AnyOf(f, qs) && !f(qs[0]) {
      var i :| 0 <= i < |qs| && f(qs[i]);
      assert qs[1..][i - 1] == qs[i];
    }
  }

  lemma FilterFirst(f: Prediction -> bool, kept: seq<Prediction>, qs: seq<Prediction>)
    requires qs != []
    ensures kept + Filter(f, qs) == (if f(qs[0]) then kept + [qs[0]] else kept) + Filter(f, qs[1..])
  {
  }

  /** Part the predictions by what the new screen says of them. */
  method Sift(s: Screen, preds: seq<Prediction>) returns (kept: seq<Prediction>, abandoned: bool, confirmedAny: bool)
    ensures kept == Filter(Unreached(s), preds)
    ensures abandoned == AnyOf(Missed(s), preds) && confirmedAny == AnyOf(Confirmed(s), preds)
  {
    kept, abandoned, confirmedAny := [], false, false;
    for i := 0 to |preds|
      invariant kept + Filter(Unreached(s), preds[i..]) == Filter(Unreached(s), preds)
      invariant (abandoned || AnyOf(Missed(s), preds[i..])) == AnyOf(Missed(s), preds)
      invariant (confirmedAny || AnyOf(Confirmed(s), preds[i..])) == AnyOf(Confirmed(s), preds)
    {
      var q := preds[i];
      assert preds[i..][1..] == preds[i + 1..] && preds[i..][0] == q;
      FilterFirst(Unreached(s), kept, preds[i..]);
      AnyOfFirst(Missed(s), preds[i..]);
      AnyOfFirst(Confirmed(s), preds[i..]);
      if Reached(s, q) {
        var echoed := ShownAt(s, q.row, q.col).ch == q.ch;
        confirmedAny, abandoned := confirmedAny || echoed, abandoned || !echoed;
      } else {
        kept := kept + [q];
      }
    }
  }

  class Predictor {
    var base: Screen
    var preds: seq<Prediction>
    var row: nat
    var col: nat
    var mode: DisplayMode
    var confirmed: bool
    var glitch: bool

    function Value(): State
      reads this
    {
      State(base, preds, row, col, mode, confirmed, glitch)
    }

    constructor (base: Screen)
      ensures Value() == NewState(base)
    {
      this.base, preds, row, col := base, [], base.row, base.col;
      mode, confirmed, glitch := Adaptive, false, false;
    }

    method SetMode(mode: DisplayMode)
      modifies this`mode
      ensures Value() == old(Value()).(mode := mode)
    {
      this.mode := mode;
    }

    method AdvanceCursor() returns (moved: bool)
      modifies this`row, this`col
      ensures Value() == Advanced(old(Value())) && moved == !AtEnd(old(Value()))
    {
      if col + 1 < base.cols {
        col := col + 1;
        return true;
      } else if row + 1 < base.rows {
        row, col := row + 1, 0;
        return true;
      }
      return false;
    }

    method PredictByte(b: byte)
      modifies this`preds, this`row, this`col
      ensures Value() == Typed(old(Value()), b)
    {
      if 0x20 <= b <= 0x7e {
        var atEnd := col + 1 >= base.cols && row + 1 >= base.rows;
        if !atEnd {
          preds := preds + [Prediction(row, col, b as char)];
          var _ := AdvanceCursor();
        }
      } else if b == 0x08 || b == 0x7f {
        if preds != [] {
          preds := preds[..|preds| - 1];
          if col > 0 {
            col := col - 1;
          } else if row > 0 && base.cols > 0 {
            row, col := row - 1, base.cols - 1;
          }
        }
      } else {
        preds, row, col := [], base.row, base.col;
      }
    }

    method PredictInput(bytes: seq<byte>)
      modifies this`preds, this`row, this`col
      ensures Value() == TypedAll(old(Value()), bytes)
    {
      for i := 0 to |bytes|
        invariant TypedAll(Value(), bytes[i..]) == TypedAll(old(Value()), bytes)
      {
        assert bytes[i..][1..] == bytes[i + 1..];
        PredictByte(bytes[i]);
      }
    }

    method Reconcile(s: Screen)
      modifies this
      ensures Value() == Reconciled(old(Value()), s)
    {
      var kept, abandoned, confirmedAny := Sift(s, preds);
      if abandoned {
        kept := [];
        glitch := true;
      } else if confirmedAny {
        confirmed, glitch := true, false;
      }
      base := s;
      preds := Filter(Within(s), kept);
      if preds == [] {
        row, col := s.row, s.col;
      } else {
        row, col := Max(0, Min(row, s.rows - 1)), Max(0, Min(col, s.cols - 1));
      }
    }

    method ShowOverlay() returns (s: Screen)
      ensures s == Overlay(Value())
    {
      s := base;
      if !Displaying(Value()) {
        return;
      }
      var cells := base.cells;
      for i := 0 to |preds|
        invariant |cells| == |base.cells|
        invariant PaintAll(base, cells, preds[i..]) == PaintAll(base, base.cells, preds)
      {
        assert preds[i..][1..] == preds[i + 1..];
        cells := Painted(base, cells, preds[i]);
      }
      s := base.(cells := cells, row := Max(0, Min(row, base.rows - 1)), col := Max(0, Min(col, base.cols - 1)));
    }
  }
}
