/** Latest-wins screen diffs: full snapshots and lists of changed cells. */
module Diff {
  import opened Common
  import opened Wire
  import opened Screen
  import opened Terminal
  import Grid

  datatype DiffError = WireFault(fault: WireError) | Eof | BadTag(tag: byte) | DimMismatch | BadDimensions

  const TAG_FULL: byte := 0
  const TAG_DELTA: byte := 1
  const MAX_CELLS: nat := 0x10_0000

  /** The machine width of dimensions; the cursor is within them. */
  ghost predicate Representable(s: Screen) {
    WellFormed(s) && s.rows < U64_LIMIT && s.cols < U64_LIMIT && |s.cells| < U64_LIMIT
  }

  // ---------------------------------------------------------------- cells

  function EncodeColor(c: Color): seq<byte> {
    match c
    case Default => [0]
    case Indexed(n) => [1, n]
    case Rgb(r, g, b) => [2, r, g, b]
  }

  function EncodeCell(c: Cell): (r: seq<byte>)
    ensures |r| >= 1
  {
    Varint(c.ch as int) + (EncodeColor(c.fg) + (EncodeColor(c.bg) + [c.flags]))
  }

  type Parsed<T> = Result<(T, nat), DiffError>

  type Reader<!T> = (seq<byte>, nat) -> Parsed<T>

  /** Read with `pa`, then with `pb` where it stopped; the first fault is the answer. */
  function Then<A, B>(pa: Reader<A>, pb: Reader<B>): Reader<(A, B)> {
    (buf, pos) =>
      var a := pa(buf, pos);
      if a.Err? then Err(a.error)
      else
        var b := pb(buf, a.value.1);
        if b.Err? then Err(b.error) else Ok(((a.value.0, b.value.0), b.value.1))
  }

  /** Wherever `e` stands in the buffer, the reader finds `x` there and steps over it. */
  ghost predicate Finds<T>(one: Reader<T>, e: seq<byte>, x: T, buf: seq<byte>) {
    forall pos: nat {:trigger one(buf, pos)} | pos <= |buf| && e <= buf[pos..] :: one(buf, pos) == Ok((x, pos + |e|))
  }

  lemma ThenFinds<A, B>(pa: Reader<A>, pb: Reader<B>, ea: seq<byte>, eb: seq<byte>, a: A, b: B, buf: seq<byte>)
    requires Finds(pa, ea, a, buf) && Finds(pb, eb, b, buf)
    ensures Finds(Then(pa, pb), ea + eb, (a, b), buf)
  {
    forall pos: nat | pos <= |buf| && ea + eb <= buf[pos..] ensures Then(pa, pb)(buf, pos) == Ok(((a, b), pos + |ea + eb|)) {
      SplitPrefix(buf, pos, ea, eb);
    }
  }

  function Mapped<S, T>(one: Reader<S>, f: S -> T): Reader<T> {
    (buf, pos) => var r := one(buf, pos); if r.Err? then Err(r.error) else Ok((f(r.value.0), r.value.1))
  }

  lemma MappedFinds<S, T>(one: Reader<S>, f: S -> T, e: seq<byte>, x: S, buf: seq<byte>)
    requires Finds(one, e, x, buf)
    ensures Finds(Mapped(one, f), e, f(x), buf)
  {
  }

  function ParseU8(buf: seq<byte>, pos: nat): Parsed<byte> {
    if pos >= |buf| then Err(Eof) else Ok((buf[pos], pos + 1))
  }

  function ParseNat(buf: seq<byte>, pos: nat): Parsed<nat> {
    var v := if pos <= |buf| then ParseVarint(buf, pos) else Err(UnexpectedEof);
    if v.Err? then Err(WireFault(v.error)) else Ok(v.value)
  }

  function ParseColor(buf: seq<byte>, pos: nat): Parsed<Color> {
    var (tag, p) :- ParseU8(buf, pos);
    match tag
    case 0 => Ok((Default, p))
    case 1 =>
      var (n, p) :- ParseU8(buf, p);
      Ok((Indexed(n), p))
    case 2 =>
      var (r, p) :- ParseU8(buf, p);
      var (g, p) :- ParseU8(buf, p);
      var (b, p) :- ParseU8(buf, p);
      Ok((Rgb(r, g, b), p))
    case other => Err(BadTag(other))
  }

  /** A code that is no Unicode scalar value, after truncation to 32 bits, becomes the replacement character. */
  function ToChar(v: nat): char {
    var u := v % U32_LIMIT;
    if u < 0xD800 || 0xE000 <= u < 0x11_0000 then u as char else '\U{FFFD}'
  }

  function CellOf(parts: (nat, (Color, (Color, byte)))): Cell {
    Cell(ToChar(parts.0), parts.1.0, parts.1.1.0, parts.1.1.1)
  }

  function ParseCell(): Reader<Cell> {
    Mapped(Then(ParseNat, Then(ParseColor, Then(ParseColor, ParseU8))), CellOf)
  }

  lemma NatFound(buf: seq<byte>, v: nat)
    requires v < U64_LIMIT
    ensures Finds(ParseNat, Varint(v), v, buf)
  {
    forall pos: nat | pos <= |buf| && Varint(v) <= buf[pos..] ensures ParseNat(buf, pos) == Ok((v, pos + |Varint(v)|)) {
      VarintRoundTrip(buf, pos, v);
    }
  }

  lemma U8Found(buf: seq<byte>, b: byte)
    ensures Finds(ParseU8, [b], b, buf)
  {
    forall pos: nat | pos <= |buf| && [b] <= buf[pos..] ensures ParseU8(buf, pos) == Ok((b, pos + 1)) {
      assert buf[pos] == buf[pos..][0];
    }
  }

  lemma ColorFound(buf: seq<byte>, c: Color)
    ensures Finds(ParseColor, EncodeColor(c), c, buf)
  {
    forall pos: nat | pos <= |buf| && EncodeColor(c) <= buf[pos..]
      ensures ParseColor(buf, pos) == Ok((c, pos + |EncodeColor(c)|))
    {
      var e := EncodeColor(c);
      assert buf[pos] == buf[pos..][0] == e[0];
      match c
      case Default =>
      case Indexed(n) => assert buf[pos + 1] == buf[pos..][1] == e[1];
      case Rgb(r, g, b) =>
        assert buf[pos + 1] == buf[pos..][1] == e[1];
        assert buf[pos + 2] == buf[pos..][2] == e[2];
        assert buf[pos + 3] == buf[pos..][3] == e[3];
    }
  }

  lemma CharRoundTrip(c: char)
    ensures c as int < U32_LIMIT && ToChar(c as int) == c
  {
  }

  lemma CellPartsFound(buf: seq<byte>, v: nat, fg: Color, bg: Color, flags: byte)
    requires v < U64_LIMIT
    ensures Finds(Then(ParseNat, Then(ParseColor, Then(ParseColor, ParseU8))),
                  Varint(v) + (EncodeColor(fg) + (EncodeColor(bg) + [flags])), (v, (fg, (bg, flags))), buf)
  {
    NatFound(buf, v);
    ColorFound(buf, fg);
    ColorFound(buf, bg);
    U8Found(buf, flags);
    ThenFinds(ParseColor, ParseU8, EncodeColor(bg), [flags], bg, flags, buf);
    ThenFinds(ParseColor, Then(ParseColor, ParseU8), EncodeColor(fg), EncodeColor(bg) + [flags], fg, (bg, flags), buf);
    ThenFinds(ParseNat, Then(ParseColor, Then(ParseColor, ParseU8)),
              Varint(v), EncodeColor(fg) + (EncodeColor(bg) + [flags]), v, (fg, (bg, flags)), buf);
  }

  /** Wherever the encoding of a cell stands, decoding there returns the cell and steps over it. */
  lemma CellFound(buf: seq<byte>, c: Cell)
    ensures Finds(ParseCell(), EncodeCell(c), c, buf)
  {
    CharRoundTrip(c.ch);
    CellPartsFound(buf, c.ch as int, c.fg, c.bg, c.flags);
    MappedFinds(Then(ParseNat, Then(ParseColor, Then(ParseColor, ParseU8))), CellOf, EncodeCell(c),
                (c.ch as int, (c.fg, (c.bg, c.flags))), buf);
  }

  // ---------------------------------------------------------------- header

  datatype Header = Header(tag: byte, rows: nat, cols: nat, row: nat, col: nat, visible: bool)

  function HeaderOf(tag: byte, s: Screen): Header { Header(tag, s.rows, s.cols, s.row, s.col, s.visible) }

  function EncodePair(a: nat, b: nat): seq<byte> { Varint(a) + Varint(b) }

  function EncodeHeader(h: Header): seq<byte> {
    [h.tag] + (EncodePair(h.rows, h.cols) + (EncodePair(h.row, h.col) + [if h.visible then 1 else 0]))
  }

  function ParsePair(): Reader<(nat, nat)> { Then(ParseNat, ParseNat) }

  function HeaderFrom(parts: (byte, ((nat, nat), ((nat, nat), byte)))): Header {
    Header(parts.0, parts.1.0.0, parts.1.0.1, parts.1.1.0.0, parts.1.1.0.1, parts.1.1.1 != 0)
  }

  function ParseHeader(): Reader<Header> {
    Mapped(Then(ParseU8, Then(ParsePair(), Then(ParsePair(), ParseU8))), HeaderFrom)
  }

  lemma PairFound(buf: seq<byte>, a: nat, b: nat)
    requires a < U64_LIMIT && b < U64_LIMIT
    ensures Finds(ParsePair(), EncodePair(a, b), (a, b), buf)
  {
    NatFound(buf, a);
    NatFound(buf, b);
    ThenFinds(ParseNat, ParseNat, Varint(a), Varint(b), a, b, buf);
  }

  lemma HeaderPartsFound(buf: seq<byte>, h: Header, flag: byte)
    requires h.rows < U64_LIMIT && h.cols < U64_LIMIT && h.row < U64_LIMIT && h.col < U64_LIMIT
    ensures Finds(Then(ParseU8, Then(ParsePair(), Then(ParsePair(), ParseU8))),
                  [h.tag] + (EncodePair(h.rows, h.cols) + (EncodePair(h.row, h.col) + [flag])),
                  (h.tag, ((h.rows, h.cols), ((h.row, h.col), flag))), buf)
  {
    var size, cursor := EncodePair(h.rows, h.cols), EncodePair(h.row, h.col);
    U8Found(buf, h.tag);
    PairFound(buf, h.rows, h.cols);
    PairFound(buf, h.row, h.col);
    U8Found(buf, flag);
    ThenFinds(ParsePair(), ParseU8, cursor, [flag], (h.row, h.col), flag, buf);
    ThenFinds(ParsePair(), Then(ParsePair(), ParseU8), size, cursor + [flag], (h.rows, h.cols), ((h.row, h.col), flag), buf);
    ThenFinds(ParseU8, Then(ParsePair(), Then(ParsePair(), ParseU8)), [h.tag], size + (cursor + [flag]),
              h.tag, ((h.rows, h.cols), ((h.row, h.col), flag)), buf);
  }

  lemma HeaderFound(buf: seq<byte>, h: Header)
    requires h.rows < U64_LIMIT && h.cols < U64_LIMIT && h.row < U64_LIMIT && h.col < U64_LIMIT
    ensures Finds(ParseHeader(), EncodeHeader(h), h, buf)
  {
    var flag: byte := if h.visible then 1 else 0;
    HeaderPartsFound(buf, h, flag);
    MappedFinds(Then(ParseU8, Then(ParsePair(), Then(ParsePair(), ParseU8))), HeaderFrom, EncodeHeader(h),
                (h.tag, ((h.rows, h.cols), ((h.row, h.col), flag))), buf);
  }

  // ---------------------------------------------------------------- changes

  datatype Change = Change(index: nat, cell: Cell)

  function EncodeChange(c: Change): seq<byte> { Varint(c.index) + EncodeCell(c.cell) }

  function ChangeFrom(parts: (nat, Cell)): Change { Change(parts.0, parts.1) }

  function ParseChange(): Reader<Change> { Mapped(Then(ParseNat, ParseCell()), ChangeFrom) }

  lemma ChangeFound(buf: seq<byte>, c: Change)
    requires c.index < U64_LIMIT
    ensures Finds(ParseChange(), EncodeChange(c), c, buf)
  {
    NatFound(buf, c.index);
    CellFound(buf, c.cell);
    ThenFinds(ParseNat, ParseCell(), Varint(c.index), EncodeCell(c.cell), c.index, c.cell, buf);
    MappedFinds(Then(ParseNat, ParseCell()), ChangeFrom, EncodeChange(c), (c.index, c.cell), buf);
  }

  /** The cells of `b` from `i` on that differ from those of `a`, with their positions. */
  function Changes(a: seq<Cell>, b: seq<Cell>, i: nat := 0): (r: seq<Change>)
    requires |a| == |b| && i <= |a|
    ensures |r| <= |a| - i
    decreases |a| - i
  {
    if i == |a| then []
    else if b[i] != a[i] then [Change(i, b[i])] + Changes(a, b, i + 1)
    else Changes(a, b, i + 1)
  }

  /** A change outside the cells is ignored. */
  function Put(cells: seq<Cell>, c: Change): (r: seq<Cell>)
    ensures |r| == |cells|
  {
    if c.index < |cells| then cells[c.index := c.cell] else cells
  }

  function PutAll(cells: seq<Cell>, cs: seq<Change>): (r: seq<Cell>)
    ensures |r| == |cells|
    decreases |cs|
  {
    if cs == [] then cells else PutAll(Put(cells, cs[0]), cs[1..])
  }

  /** `g` agrees with `a` on every cell, from `i` on, that `b` leaves as in `a`. */
  ghost predicate AgreesOnUnchanged(g: seq<Cell>, a: seq<Cell>, b: seq<Cell>)
    requires |g| == |a| == |b|
  {
    forall k | 0 <= k < |a| && b[k] == a[k] :: g[k] == a[k]
  }

  lemma {:induction false} ChangesGive(g: seq<Cell>, a: seq<Cell>, b: seq<Cell>, i: nat)
    requires |g| == |a| == |b| && i <= |a| && AgreesOnUnchanged(g, a, b)
    requires forall k | 0 <= k < i :: g[k] == b[k]
    ensures PutAll(g, Changes(a, b, i)) == b
    decreases |a| - i
  {
    if i < |a| {
      if b[i] != a[i] {
        ChangesGive(g[i := b[i]], a, b, i + 1);
        PutFirst(g, Change(i, b[i]), Changes(a, b, i + 1));
      } else {
        assert g[i] == b[i];
        ChangesGive(g, a, b, i + 1);
      }
    }
  }

  lemma PutFirst(cells: seq<Cell>, c: Change, cs: seq<Change>)
    ensures PutAll(cells, [c] + cs) == PutAll(Put(cells, c), cs)
  {
    assert ([c] + cs)[1..] == cs;
  }

  /** A delta names exactly the cells that differ, each with its new contents. */
  lemma {:induction false} ChangesExact(a: seq<Cell>, b: seq<Cell>, i: nat, c: Change)
    requires |a| == |b| && i <= |a|
    ensures c in Changes(a, b, i) <==> i <= c.index < |a| && b[c.index] != a[c.index] && c.cell == b[c.index]
    decreases |a| - i
  {
    if i < |a| { ChangesExact(a, b, i + 1, c); }
  }

  // ---------------------------------------------------------------- diffs

  predicate NeedsFull(base: Option<Screen>, target: Screen) {
    base.None? || !SameSize(base.value, target)
  }

  /** A full snapshot without a base of the same size; otherwise the changed cells. */
  function Encoded(base: Option<Screen>, target: Screen): seq<byte>
    requires base.Some? ==> WellFormed(base.value)
    requires WellFormed(target)
  {
    if NeedsFull(base, target) then EncodeHeader(HeaderOf(TAG_FULL, target)) + FlatMap(EncodeCell, target.cells)
    else
      var cs := Changes(base.value.cells, target.cells);
      EncodeHeader(HeaderOf(TAG_DELTA, target)) + (Varint(|cs|) + FlatMap(EncodeChange, cs))
  }

  predicate IsFull(bytes: seq<byte>) { bytes != [] && bytes[0] == TAG_FULL }

  lemma IsFullExact(base: Option<Screen>, target: Screen)
    requires (base.Some? ==> WellFormed(base.value)) && WellFormed(target)
    ensures IsFull(Encoded(base, target)) <==> NeedsFull(base, target)
  {
  }

  /** Overwrite the cells from `i` on by reading one after another; cells before a fault stay overwritten. */
  function Fill(one: Reader<Cell>, cells: seq<Cell>, i: nat, buf: seq<byte>, pos: nat): (r: (seq<Cell>, Option<DiffError>))
    requires i <= |cells|
    ensures |r.0| == |cells|
    decreases |cells| - i
  {
    if i == |cells| then (cells, None)
    else
      var c := one(buf, pos);
      if c.Err? then (cells, Some(c.error))
      else Fill(one, cells[i := c.value.0], i + 1, buf, c.value.1)
  }

  /** Read `count` changes and put each as it comes. */
  function Patch(one: Reader<Change>, cells: seq<Cell>, count: nat, buf: seq<byte>, pos: nat): (r: (seq<Cell>, Option<DiffError>))
    ensures |r.0| == |cells|
    decreases count
  {
    if count == 0 then (cells, None)
    else
      var c := one(buf, pos);
      if c.Err? then (cells, Some(c.error))
      else Patch(one, Put(cells, c.value.0), count - 1, buf, c.value.1)
  }

  predicate BadSize(rows: nat, cols: nat) { rows == 0 || cols == 0 || Span(rows, cols) > MAX_CELLS }

  /** The screen after a diff has been applied, and the fault if it failed on the way. */
  function Apply(g: Screen, bytes: seq<byte>): (r: (Screen, Option<DiffError>)) {
    var head := ParseHeader()(bytes, 0);
    if head.Err? then (g, Some(head.error))
    else
      var (h, pos) := head.value;
      if BadSize(h.rows, h.cols) then (g, Some(BadDimensions)) else ApplyBody(g, h, bytes, pos)
  }

  function ApplyBody(g: Screen, h: Header, bytes: seq<byte>, pos: nat): (r: (Screen, Option<DiffError>)) {
    if h.tag == TAG_FULL then
      var base := if g.rows != h.rows || g.cols != h.cols then BlankScreen(h.rows, h.cols) else g;
      Finish(h, base, Fill(ParseCell(), base.cells, 0, bytes, pos))
    else if h.tag == TAG_DELTA then
      if g.rows != h.rows || g.cols != h.cols then (g, Some(DimMismatch))
      else
        var count := ParseNat(bytes, pos);
        if count.Err? then (g, Some(count.error))
        else Finish(h, g, Patch(ParseChange(), g.cells, count.value.0, bytes, count.value.1))
    else (g, Some(BadTag(h.tag)))
  }

  /** The cursor is clamped into the screen. */
  function Finish(h: Header, g: Screen, out: (seq<Cell>, Option<DiffError>)): (r: (Screen, Option<DiffError>)) {
    if out.1.Some? then (g.(cells := out.0), out.1)
    else (g.(cells := out.0, row := Max(0, Min(h.row, g.rows - 1)), col := Max(0, Min(h.col, g.cols - 1)), visible := h.visible), None)
  }

  /** Whatever the bytes, the screen stays well formed, even when the diff fails half-way. */
  lemma ApplyKeepsWellFormed(g: Screen, bytes: seq<byte>)
    requires WellFormed(g)
    ensures WellFormed(Apply(g, bytes).0)
    ensures SameSize(Apply(g, bytes).0, g) || |Apply(g, bytes).0.cells| <= MAX_CELLS
  {
  }

  // ---------------------------------------------------------------- what applying a diff gives

  ghost predicate AllFound<T>(one: Reader<T>, enc: T -> seq<byte>, xs: seq<T>, buf: seq<byte>) {
    forall x | x in xs :: Finds(one, enc(x), x, buf)
  }

  /** The first of a list of encodings is read, and the others stand after it. */
  lemma ReadFirst<T>(one: Reader<T>, enc: T -> seq<byte>, xs: seq<T>, buf: seq<byte>, pos: nat) returns (p: nat)
    requires xs != [] && pos <= |buf| && FlatMap(enc, xs) <= buf[pos..] && AllFound(one, enc, xs, buf)
    ensures p <= |buf| && one(buf, pos) == Ok((xs[0], p)) && FlatMap(enc, xs[1..]) <= buf[p..]
    ensures AllFound(one, enc, xs[1..], buf)
  {
    SplitPrefix(buf, pos, enc(xs[0]), FlatMap(enc, xs[1..]));
    assert Finds(one, enc(xs[0]), xs[0], buf);
    p := pos + |enc(xs[0])|;
  }

  lemma FillStep(one: Reader<Cell>, cells: seq<Cell>, i: nat, buf: seq<byte>, pos: nat, c: Cell, p: nat)
    requires i < |cells| && one(buf, pos) == Ok((c, p))
    ensures Fill(one, cells, i, buf, pos) == Fill(one, cells[i := c], i + 1, buf, p)
  {
  }

  lemma PatchStep(one: Reader<Change>, cells: seq<Cell>, count: nat, buf: seq<byte>, pos: nat, c: Change, p: nat)
    requires count > 0 && one(buf, pos) == Ok((c, p))
    ensures Patch(one, cells, count, buf, pos) == Patch(one, Put(cells, c), count - 1, buf, p)
  {
  }

  lemma {:induction false} FillRoundTrip(one: Reader<Cell>, enc: Cell -> seq<byte>,
                                         cells: seq<Cell>, i: nat, xs: seq<Cell>, buf: seq<byte>, pos: nat)
    requires i + |xs| == |cells| && pos <= |buf| && FlatMap(enc, xs) <= buf[pos..] && AllFound(one, enc, xs, buf)
    ensures Fill(one, cells, i, buf, pos) == (cells[..i] + xs, None)
    decreases |xs|
  {
    if xs == [] {
      assert cells[..i] + xs == cells;
    } else {
      var next := cells[i := xs[0]];
      assert next[..i + 1] + xs[1..] == cells[..i] + xs;
      var p := ReadFirst(one, enc, xs, buf, pos);
      FillStep(one, cells, i, buf, pos, xs[0], p);
      FillRoundTrip(one, enc, next, i + 1, xs[1..], buf, p);
    }
  }

  lemma {:induction false} PatchRoundTrip(one: Reader<Change>, enc: Change -> seq<byte>,
                                          cells: seq<Cell>, cs: seq<Change>, buf: seq<byte>, pos: nat)
    requires pos <= |buf| && FlatMap(enc, cs) <= buf[pos..] && AllFound(one, enc, cs, buf)
    ensures Patch(one, cells, |cs|, buf, pos) == (PutAll(cells, cs), None)
    decreases |cs|
  {
    if cs != [] {
      var c, rest := cs[0], cs[1..];
      assert cs == [c] + rest;
      PutFirst(cells, c, rest);
      var p := ReadFirst(one, enc, cs, buf, pos);
      PatchRoundTrip(one, enc, Put(cells, c), rest, buf, p);
      PatchStep(one, cells, |rest| + 1, buf, pos, c, p);
    }
  }

  /** The header of an encoded diff is read back, whatever follows it. */
  lemma HeaderOfDiff(tag: byte, target: Screen, rest: seq<byte>)
    requires Representable(target)
    ensures var e := EncodeHeader(HeaderOf(tag, target));
            ParseHeader()(e + rest, 0) == Ok((HeaderOf(tag, target), |e|)) && rest <= (e + rest)[|e|..]
  {
    var e := EncodeHeader(HeaderOf(tag, target));
    HeaderFound(e + rest, HeaderOf(tag, target));
    assert (e + rest)[0..] == e + rest && (e + rest)[|e|..] == rest;
  }

  lemma FinishGives(h: Header, g: Screen, target: Screen, cells: seq<Cell>)
    requires WellFormed(target) && SameSize(g, target) && h == HeaderOf(h.tag, target)
    ensures Finish(h, g, (cells, None)) == (target.(cells := cells), None)
  {
  }

  lemma FullGives(g: Screen, target: Screen, base: Option<Screen>)
    requires WellFormed(g) && Representable(target) && (base.Some? ==> WellFormed(base.value))
    requires NeedsFull(base, target) && |target.cells| <= MAX_CELLS
    ensures Apply(g, Encoded(base, target)) == (target, None)
  {
    var bytes, h, rest := Encoded(base, target), HeaderOf(TAG_FULL, target), FlatMap(EncodeCell, target.cells);
    HeaderOfDiff(TAG_FULL, target, rest);
    var from := if g.rows != h.rows || g.cols != h.cols then BlankScreen(h.rows, h.cols) else g;
    assert AllFound(ParseCell(), EncodeCell, target.cells, bytes) by {
      forall x | x in target.cells ensures Finds(ParseCell(), EncodeCell(x), x, bytes) { CellFound(bytes, x); }
    }
    FillRoundTrip(ParseCell(), EncodeCell, from.cells, 0, target.cells, bytes, |EncodeHeader(h)|);
    assert from.cells[..0] + target.cells == target.cells;
    FinishGives(h, from, target, target.cells);
  }

  lemma ApplyDelta(g: Screen, bytes: seq<byte>, h: Header, pos: nat, count: nat, p: nat, target: Screen, cells: seq<Cell>)
    requires WellFormed(target) && SameSize(g, target) && h == HeaderOf(TAG_DELTA, target) && |target.cells| <= MAX_CELLS
    requires ParseHeader()(bytes, 0) == Ok((h, pos)) && ParseNat(bytes, pos) == Ok((count, p))
    requires Patch(ParseChange(), g.cells, count, bytes, p) == (cells, None)
    ensures Apply(g, bytes) == (target.(cells := cells), None)
  {
    FinishGives(h, g, target, cells);
  }

  lemma ChangesFound(a: seq<Cell>, b: seq<Cell>, buf: seq<byte>)
    requires |a| == |b| < U64_LIMIT
    ensures AllFound(ParseChange(), EncodeChange, Changes(a, b), buf)
  {
    forall c | c in Changes(a, b) ensures Finds(ParseChange(), EncodeChange(c), c, buf) {
      ChangesExact(a, b, 0, c);
      ChangeFound(buf, c);
    }
  }

  lemma CountRead(bytes: seq<byte>, pos: nat, count: nat, rest: seq<byte>)
    requires pos <= |bytes| && count < U64_LIMIT && Varint(count) + rest <= bytes[pos..]
    ensures ParseNat(bytes, pos) == Ok((count, pos + |Varint(count)|))
    ensures pos + |Varint(count)| <= |bytes| && rest <= bytes[pos + |Varint(count)|..]
  {
    SplitPrefix(bytes, pos, Varint(count), rest);
    NatFound(bytes, count);
  }

  lemma PatchRuns(g: seq<Cell>, a: seq<Cell>, b: seq<Cell>, bytes: seq<byte>, pos: nat)
    requires |a| == |b| < U64_LIMIT && pos <= |bytes| && FlatMap(EncodeChange, Changes(a, b)) <= bytes[pos..]
    ensures Patch(ParseChange(), g, |Changes(a, b)|, bytes, pos) == (PutAll(g, Changes(a, b)), None)
  {
    ChangesFound(a, b, bytes);
    PatchRoundTrip(ParseChange(), EncodeChange, g, Changes(a, b), bytes, pos);
  }

  /** On any grid of the right size, a delta puts in its changes and nothing else. */
  lemma DeltaResult(g: Screen, a: Screen, b: Screen)
    requires WellFormed(g) && WellFormed(a) && Representable(b) && SameSize(a, b) && SameSize(g, b)
    requires |b.cells| <= MAX_CELLS
    ensures Apply(g, Encoded(Some(a), b)) == (b.(cells := PutAll(g.cells, Changes(a.cells, b.cells))), None)
  {
    var bytes, h, count := Encoded(Some(a), b), HeaderOf(TAG_DELTA, b), |Changes(a.cells, b.cells)|;
    var pos, rest := |EncodeHeader(h)|, FlatMap(EncodeChange, Changes(a.cells, b.cells));
    HeaderOfDiff(TAG_DELTA, b, Varint(count) + rest);
    CountRead(bytes, pos, count, rest);
    PatchRuns(g.cells, a.cells, b.cells, bytes, pos + |Varint(count)|);
    ApplyDelta(g, bytes, h, pos, count, pos + |Varint(count)|, b, PutAll(g.cells, Changes(a.cells, b.cells)));
  }

  /** A diff that cannot be applied at all leaves the screen alone. */
  lemma Rejected(g: Screen, base: Option<Screen>, target: Screen)
    requires WellFormed(g) && Representable(target) && (base.Some? ==> WellFormed(base.value))
    ensures |target.cells| > MAX_CELLS ==> Apply(g, Encoded(base, target)) == (g, Some(BadDimensions))
    ensures |target.cells| <= MAX_CELLS && !NeedsFull(base, target) && !SameSize(g, target) ==>
              Apply(g, Encoded(base, target)) == (g, Some(DimMismatch))
  {
    if NeedsFull(base, target) {
      HeaderOfDiff(TAG_FULL, target, FlatMap(EncodeCell, target.cells));
    } else {
      var cs := Changes(base.value.cells, target.cells);
      HeaderOfDiff(TAG_DELTA, target, Varint(|cs|) + FlatMap(EncodeChange, cs));
    }
  }

  lemma {:induction false} UntouchedStays(cells: seq<Cell>, cs: seq<Change>, k: nat)
    requires k < |cells| && forall c | c in cs :: c.index != k
    ensures PutAll(cells, cs)[k] == cells[k]
    decreases |cs|
  {
    if cs != [] { UntouchedStays(Put(cells, cs[0]), cs[1..], k); }
  }

  /** For any list of changes, the last one for a place wins. */
  lemma {:induction false} LastChangeWins(cells: seq<Cell>, cs: seq<Change>, j: nat)
    requires j < |cs| && cs[j].index < |cells| && forall i | j < i < |cs| :: cs[i].index != cs[j].index
    ensures PutAll(cells, cs)[cs[j].index] == cs[j].cell
    decreases |cs|
  {
    if j == 0 {
      forall c | c in cs[1..] ensures c.index != cs[0].index {
        var i :| 0 <= i < |cs[1..]| && cs[1..][i] == c;
        assert cs[i + 1] == c;
      }
      UntouchedStays(Put(cells, cs[0]), cs[1..], cs[0].index);
    } else {
      LastChangeWins(Put(cells, cs[0]), cs[1..], j - 1);
    }
  }

  /** Of any readable header: dimensions of zero or of more than 2^20 cells are refused, and on success the cursor is the nearest on the screen. */
  lemma HeaderDecides(g: Screen, bytes: seq<byte>, h: Header, pos: nat)
    requires WellFormed(g) && ParseHeader()(bytes, 0) == Ok((h, pos))
    ensures h.rows == 0 || h.cols == 0 || h.rows * h.cols > 0x10_0000 ==> Apply(g, bytes) == (g, Some(BadDimensions))
    ensures Apply(g, bytes).1.None? ==>
            var r := Apply(g, bytes).0;
            && r.rows == h.rows && r.cols == h.cols && r.visible == h.visible
            && r.row == Min(h.row, h.rows - 1) && r.col == Min(h.col, h.cols - 1)
  {
    SpanIsProduct(h.rows, h.cols);
  }

  lemma GivesOnlyIfAgrees(g: seq<Cell>, a: seq<Cell>, b: seq<Cell>)
    requires |g| == |a| == |b| && PutAll(g, Changes(a, b)) == b
    ensures AgreesOnUnchanged(g, a, b)
  {
    forall k | 0 <= k < |a| && b[k] == a[k] ensures g[k] == a[k] {
      forall c | c in Changes(a, b) ensures c.index != k { ChangesExact(a, b, 0, c); }
      UntouchedStays(g, Changes(a, b), k);
    }
  }

  /** The target fits the decoder, and the diff is full, or the grid has the target's size and agrees with the base off the changes. */
  ghost predicate Applicable(g: Screen, base: Option<Screen>, target: Screen)
    requires WellFormed(g) && WellFormed(target) && (base.Some? ==> WellFormed(base.value))
  {
    && |target.cells| <= MAX_CELLS
    && (NeedsFull(base, target) || (SameSize(g, target) && AgreesOnUnchanged(g.cells, base.value.cells, target.cells)))
  }

  /** Exactly then does applying the encoded diff succeed and show the target. */
  lemma DiffExact(g: Screen, base: Option<Screen>, target: Screen)
    requires WellFormed(g) && Representable(target) && (base.Some? ==> WellFormed(base.value))
    ensures Apply(g, Encoded(base, target)) == (target, None) <==> Applicable(g, base, target)
  {
    if |target.cells| > MAX_CELLS {
      Rejected(g, base, target);
    } else if NeedsFull(base, target) {
      FullGives(g, target, base);
    } else if !SameSize(g, target) {
      Rejected(g, base, target);
    } else {
      DeltaResult(g, base.value, target);
      if AgreesOnUnchanged(g.cells, base.value.cells, target.cells) {
        ChangesGive(g.cells, base.value.cells, target.cells, 0);
      }
      if PutAll(g.cells, Changes(base.value.cells, target.cells)) == target.cells {
        GivesOnlyIfAgrees(g.cells, base.value.cells, target.cells);
      }
    }
  }

  /** From the base, and again from the target, the diff shows the target: re-application is harmless. */
  lemma DiffRoundTrip(base: Screen, target: Screen)
    requires WellFormed(base) && Representable(target) && |target.cells| <= MAX_CELLS
    ensures Apply(base, Encoded(Some(base), target)) == (target, None)
    ensures Apply(target, Encoded(Some(base), target)) == (target, None)
  {
    DiffExact(base, Some(base), target);
    DiffExact(target, Some(base), target);
  }

  // ---------------------------------------------------------------- the encoder and the decoder

  method CollectChanges(a: seq<Cell>, b: seq<Cell>) returns (cs: seq<Change>)
    requires |a| == |b|
    ensures cs == Changes(a, b)
  {
    cs := [];
    for i := 0 to |b|
      invariant cs + Changes(a, b, i) == Changes(a, b)
    {
      if b[i] != a[i] {
        assert cs + ([Change(i, b[i])] + Changes(a, b, i + 1)) == cs + [Change(i, b[i])] + Changes(a, b, i + 1);
        cs := cs + [Change(i, b[i])];
      }
    }
  }

  method EncodeAll<T>(out: seq<byte>, enc: T -> seq<byte>, xs: seq<T>) returns (r: seq<byte>)
    ensures r == out + FlatMap(enc, xs)
  {
    r := out;
    for i := 0 to |xs|
      invariant r == out + FlatMap(enc, xs[..i])
    {
      assert xs[..i + 1] == xs[..i] + [xs[i]];
      FlatMapConcat(enc, xs[..i], [xs[i]]);
      FlatMapOne(enc, xs[i]);
      r := r + enc(xs[i]);
    }
    assert xs[..|xs|] == xs;
  }

  method EncodeCounted<T>(out: seq<byte>, enc: T -> seq<byte>, xs: seq<T>) returns (r: seq<byte>)
    ensures r == out + (Varint(|xs|) + FlatMap(enc, xs))
  {
    r := PutVarint(out, |xs|);
    r := EncodeAll(r, enc, xs);
    Reassociate(out, Varint(|xs|), FlatMap(enc, xs));
  }

  lemma Reassociate<T>(a: seq<T>, b: seq<T>, c: seq<T>)
    ensures a + b + c == a + (b + c)
  {
  }

  method EncodeDiff(base: Option<Screen>, target: Screen) returns (out: seq<byte>)
    requires WellFormed(target) && (base.Some? ==> WellFormed(base.value))
    ensures out == Encoded(base, target)
  {
    var sameDims := base.Some? && SameSize(base.value, target);
    if !sameDims {
      out := EncodeAll(EncodeHeader(HeaderOf(TAG_FULL, target)), EncodeCell, target.cells);
      return;
    }
    var cs := CollectChanges(base.value.cells, target.cells);
    out := EncodeCounted(EncodeHeader(HeaderOf(TAG_DELTA, target)), EncodeChange, cs);
  }

  method FillCells(cells: seq<Cell>, buf: seq<byte>, start: nat) returns (out: seq<Cell>, fault: Option<DiffError>)
    ensures (out, fault) == Fill(ParseCell(), cells, 0, buf, start)
  {
    out, fault := cells, None;
    var pos, one := start, ParseCell();
    for i := 0 to |cells|
      invariant |out| == |cells|
      invariant Fill(one, cells, 0, buf, start) == Fill(one, out, i, buf, pos)
    {
      var c := one(buf, pos);
      if c.Err? { return out, Some(c.error); }
      out, pos := out[i := c.value.0], c.value.1;
    }
  }

  method PatchCells(cells: seq<Cell>, count: nat, buf: seq<byte>, start: nat) returns (out: seq<Cell>, fault: Option<DiffError>)
    ensures (out, fault) == Patch(ParseChange(), cells, count, buf, start)
  {
    out, fault := cells, None;
    var pos, one := start, ParseChange();
    for k := 0 to count
      invariant Patch(one, cells, count, buf, start) == Patch(one, out, count - k, buf, pos)
    {
      var c := one(buf, pos);
      if c.Err? { return out, Some(c.error); }
      var Change(i, cell) := c.value.0;
      if i < |out| { out := out[i := cell]; }
      pos := c.value.1;
    }
  }

  /** What of a grid is rendered. */
  function ScreenOf(t: Term): Screen { Screen(t.rows, t.cols, t.cells, t.row, t.col, t.visible) }

  /** Set the cells, and on success the cursor of the header. */
  method Conclude(grid: Grid.Grid, h: Header, cells: seq<Cell>, fault: Option<DiffError>)
    requires Valid(grid.Value()) && |cells| == |grid.cells|
    modifies grid`cells, grid`row, grid`col, grid`visible
    ensures (ScreenOf(grid.Value()), fault) == Finish(h, old(ScreenOf(grid.Value())), (cells, fault))
    ensures Valid(grid.Value())
  {
    grid.cells := cells;
    if fault.None? {
      grid.row, grid.col, grid.visible := Min(h.row, grid.rows - 1), Min(h.col, grid.cols - 1), h.visible;
    }
  }

  method ApplyFull(grid: Grid.Grid, h: Header, bytes: seq<byte>, pos: nat) returns (fault: Option<DiffError>)
    requires Valid(grid.Value()) && h.tag == TAG_FULL && !BadSize(h.rows, h.cols)
    modifies grid
    ensures (ScreenOf(grid.Value()), fault) == ApplyBody(old(ScreenOf(grid.Value())), h, bytes, pos)
    ensures Valid(grid.Value())
  {
    if grid.rows != h.rows || grid.cols != h.cols {
      grid.Renew(h.rows, h.cols);
      assert ScreenOf(grid.Value()) == BlankScreen(h.rows, h.cols);
    }
    var cells;
    cells, fault := FillCells(grid.cells, bytes, pos);
    Conclude(grid, h, cells, fault);
  }

  method ApplyChanges(grid: Grid.Grid, h: Header, bytes: seq<byte>, pos: nat) returns (fault: Option<DiffError>)
    requires Valid(grid.Value()) && h.tag == TAG_DELTA
    modifies grid`cells, grid`row, grid`col, grid`visible
    ensures (ScreenOf(grid.Value()), fault) == ApplyBody(old(ScreenOf(grid.Value())), h, bytes, pos)
    ensures Valid(grid.Value())
  {
    if grid.rows != h.rows || grid.cols != h.cols { return Some(DimMismatch); }
    var count := ParseNat(bytes, pos);
    if count.Err? { return Some(count.error); }
    var cells;
    cells, fault := PatchCells(grid.cells, count.value.0, bytes, count.value.1);
    Conclude(grid, h, cells, fault);
  }

  /** The decoder on a grid: it stays valid, region and buffers included, whatever the bytes and wherever it fails. */
  method ApplyDiff(grid: Grid.Grid, bytes: seq<byte>) returns (fault: Option<DiffError>)
    requires Valid(grid.Value())
    modifies grid
    ensures (ScreenOf(grid.Value()), fault) == Apply(old(ScreenOf(grid.Value())), bytes)
    ensures Valid(grid.Value())
  {
    var head := ParseHeader()(bytes, 0);
    if head.Err? { return Some(head.error); }
    var (h, pos) := head.value;
    SpanIsProduct(h.rows, h.cols);
    if h.rows == 0 || h.cols == 0 || h.rows * h.cols > MAX_CELLS { return Some(BadDimensions); }
    if h.tag == TAG_FULL {
      fault := ApplyFull(grid, h, bytes, pos);
    } else if h.tag == TAG_DELTA {
      fault := ApplyChanges(grid, h, bytes, pos);
    } else {
      fault := Some(BadTag(h.tag));
    }
  }
}
