/** The bytes on the wire, against the documented formats, and what a decoder refuses. */
module Format {
  import opened Common
  import opened Wire
  import opened Screen
  import opened Diff
  import opened Session

  // ---------------------------------------------------------------- numbers

  function Power(b: nat, i: nat): (r: nat)
    requires b > 0
    ensures r > 0
  {
    if i == 0 then 1 else b * Power(b, i - 1)
  }

  lemma Distribute(q: nat, b: nat, r: nat, a: nat)
    ensures (q * b + r) * a == q * (a * b) + r * a
  {
    assert q * (a * b) == (q * b) * a;
  }

  lemma RestBelow(r: nat, b: nat, a: nat)
    requires r < b
    ensures r * a + a <= a * b
  {
    assert (r + 1) * a <= b * a;
  }

  lemma DivideTwice(v: nat, a: nat, b: nat)
    requires a > 0 && b > 0
    ensures a * b > 0 && (v / a) / b == v / (a * b)
  {
    var w := v / a;
    var q, r := w / b, w % b;
    assert v == w * a + v % a;
    assert w == q * b + r;
    Distribute(q, b, r, a);
    RestBelow(r, b, a);
    QuotientIs(v, a * b, q, r * a + v % a);
  }

  lemma QuotientIs(v: nat, d: nat, q: nat, r: int)
    requires d > 0 && 0 <= r < d && v == q * d + r
    ensures v / d == q
  {
    var p := v / d;
    assert v == p * d + v % d;
    assert p < q ==> (p + 1) * d <= q * d;
    assert q < p ==> (q + 1) * d <= p * d;
  }

  /** LEB128: byte `i` holds the seven bits of weight `128^i`, and the high bit exactly if more bytes follow. */
  lemma {:induction false} VarintBytes(v: nat, i: nat)
    requires i < |Varint(v)|
    ensures Varint(v)[i] % 128 == (v / Power(128, i)) % 128
    ensures Varint(v)[i] >= 128 <==> i + 1 < |Varint(v)|
    decreases v
  {
    if v >= 128 {
      var rest := Varint(v / 128);
      assert Varint(v) == [v % 128 + 128] + rest;
      if i > 0 {
        assert Varint(v)[i] == rest[i - 1];
        VarintBytes(v / 128, i - 1);
        DivideTwice(v, 128, Power(128, i - 1));
      }
    }
  }

  /** And there are no more bytes than the value needs. */
  lemma {:induction false} VarintShortest(v: nat)
    ensures |Varint(v)| > 1 ==> v >= Power(128, |Varint(v)| - 1)
    ensures v < Power(128, |Varint(v)|)
    decreases v
  {
    if v >= 128 {
      VarintShortest(v / 128);
      var n := |Varint(v / 128)|;
      assert v == 128 * (v / 128) + v % 128;
      assert Power(128, n + 1) == 128 * Power(128, n) && Power(128, n) == 128 * Power(128, n - 1);
    } else {
      assert Power(128, 1) == 128;
    }
  }

  /** Zig-zag counts 0, -1, 1, -2, 2 and so on. */
  lemma ZigzagCounts(v: int)
    requires v >= 0
    ensures Zigzag(0) == 0 && Zigzag(-v - 1) == Zigzag(v) + 1 && Zigzag(v + 1) == Zigzag(-v - 1) + 1
  {
  }

  /** Narrow fields keep the value modulo their width. */
  lemma Truncates(v: int)
    ensures (ToI32(v) - v) % 0x1_0000_0000 == 0
  {
  }

  /** Headers are big-endian: byte `i` of `n` has weight `256^(n - 1 - i)`. */
  lemma {:induction false} BigEndianBytes(v: nat, n: nat, i: nat)
    requires i < n
    ensures |BigEndian(v, n)| == n && BigEndian(v, n)[i] == (v / Power(256, n - 1 - i)) % 256
    decreases n
  {
    if i < n - 1 {
      BigEndianBytes(v / 256, n - 1, i);
      DivideTwice(v, 256, Power(256, n - 2 - i));
    }
  }

  // ---------------------------------------------------------------- frames

  /** A length-prefixed byte field. */
  function Bytes(d: seq<byte>): seq<byte> { Varint(|d|) + d }

  lemma Fields1(a: Field)
    ensures FlatMap(EncodeField, [a]) == EncodeField(a)
  {
    FlatMapOne(EncodeField, a);
  }

  lemma Fields2(a: Field, b: Field)
    ensures FlatMap(EncodeField, [a, b]) == EncodeField(a) + EncodeField(b)
  {
    FlatMapConcat(EncodeField, [a], [b]);
    Fields1(a);
    Fields1(b);
    assert [a, b] == [a] + [b];
  }

  lemma Fields3(a: Field, b: Field, c: Field)
    ensures FlatMap(EncodeField, [a, b, c]) == EncodeField(a) + EncodeField(b) + EncodeField(c)
  {
    FlatMapConcat(EncodeField, [a, b], [c]);
    Fields2(a, b);
    Fields1(c);
    assert [a, b, c] == [a, b] + [c];
  }

  lemma Fields4(a: Field, b: Field, c: Field, d: Field)
    ensures FlatMap(EncodeField, [a, b, c, d]) == EncodeField(a) + EncodeField(b) + EncodeField(c) + EncodeField(d)
  {
    FlatMapConcat(EncodeField, [a, b, c], [d]);
    Fields3(a, b, c);
    Fields1(d);
    assert [a, b, c, d] == [a, b, c] + [d];
  }

  /** The interactive frames, type byte and fields in order. */
  lemma InteractiveFrames(v: nat, w: nat, d: seq<byte>)
    ensures EncodeFrame(Ack(v)) == [0x01] + Varint(v)
    ensures EncodeFrame(Input(v, d)) == [0x02] + (Varint(v) + Bytes(d))
    ensures EncodeFrame(StateDiff(v, w, d)) == [0x03] + (Varint(v) + Varint(w) + Bytes(d))
    ensures EncodeFrame(Resize(v, w)) == [0x04] + (Varint(v) + Varint(w))
    ensures EncodeFrame(Ping(v)) == [0x05] + Varint(v)
    ensures EncodeFrame(Pong(v)) == [0x06] + Varint(v)
  {
    Fields1(U64(v));
    Fields2(U64(v), Blob(d));
    Fields3(U64(v), U64(w), Blob(d));
    Fields2(U64(v), U64(w));
  }

  /** The stream and control frames, type byte and fields in order. */
  lemma StreamFrames(id: nat, v: nat, w: nat, d: seq<byte>, fin: bool, status: int)
    ensures EncodeFrame(StreamData(id, v, d, fin)) == [0x11] + (Varint(id) + Varint(v) + [if fin then 1 else 0] + Bytes(d))
    ensures EncodeFrame(StreamAck(id, v, w)) == [0x12] + (Varint(id) + Varint(v) + Varint(w))
    ensures EncodeFrame(StreamClose(id, status)) == [0x13] + (Varint(id) + Varint(Zigzag(status)))
    ensures EncodeFrame(StreamReset(id)) == [0x14] + Varint(id)
    ensures EncodeFrame(Control(d)) == [0x20] + Bytes(d)
  {
    Fields4(U64(id), U64(v), Flag(if fin then 1 else 0), Blob(d));
    Fields3(U64(id), U64(v), U64(w));
    Fields2(U64(id), U64(Zigzag(status)));
    Fields1(U64(id));
    Fields1(Blob(d));
  }

  lemma OpenFrame(id: nat, kind: StreamKind, meta: seq<byte>)
    ensures var k: byte := match kind case Session => 0 case Forward => 1 case FileTransfer => 2 case Agent => 3 case Exec => 4;
            EncodeFrame(StreamOpen(id, kind, meta)) == [0x10] + (Varint(id) + [k] + Bytes(meta))
  {
    Fields3(U64(id), Kind(kind), Blob(meta));
  }

  // ---------------------------------------------------------------- packets

  /** The outer header: type, session id, and for transport packets the nonce. */
  lemma PacketBytes(sessionId: seq<byte>, nonce: nat, body: seq<byte>)
    requires |sessionId| == 8
    ensures BuildHandshake(sessionId, body) == [0x00] + sessionId + body
    ensures BuildTransport(sessionId, nonce, body) == [0x01] + sessionId + BigEndian(nonce, 8) + body
  {
  }

  // ---------------------------------------------------------------- diffs

  /** A cell: code point, colours of foreground and background, attribute byte. */
  lemma CellBytes(c: Cell)
    ensures EncodeCell(c) == Varint(c.ch as int) + ColorBytes(c.fg) + ColorBytes(c.bg) + [c.flags]
  {
  }

  function ColorBytes(c: Color): seq<byte> {
    match c
    case Default => [0]
    case Indexed(n) => [1, n]
    case Rgb(r, g, b) => [2, r, g, b]
  }

  function ScreenHeader(s: Screen): seq<byte> {
    Varint(s.rows) + Varint(s.cols) + Varint(s.row) + Varint(s.col) + [if s.visible then 1 else 0]
  }

  /** A full snapshot is type 0 and every cell; a delta is type 1, a count, and positions with cells. */
  lemma DiffBytes(base: Option<Screen>, target: Screen)
    requires WellFormed(target) && (base.Some? ==> WellFormed(base.value))
    ensures base.None? || base.value.rows != target.rows || base.value.cols != target.cols ==>
            Encoded(base, target) == [0] + ScreenHeader(target) + FlatMap(EncodeCell, target.cells)
    ensures base.Some? && base.value.rows == target.rows && base.value.cols == target.cols ==>
            var cs := Changes(base.value.cells, target.cells);
            Encoded(base, target) == [1] + ScreenHeader(target) + Varint(|cs|) + FlatMap(EncodeChange, cs)
  {
    HeaderBytes(TAG_FULL, target);
    HeaderBytes(TAG_DELTA, target);
  }

  lemma HeaderBytes(tag: byte, s: Screen)
    ensures EncodeHeader(HeaderOf(tag, s)) == [tag] + ScreenHeader(s)
  {
  }

  /** Code points that are no Unicode scalar values become the replacement character; others stand for themselves. */
  lemma CodePoints(v: nat)
    ensures var u := v % 0x1_0000_0000;
            ToChar(v) as int == if u < 0xD800 || 0xE000 <= u <= 0x10_FFFF then u else 0xFFFD
  {
  }

  /** A new grid is blank, with the cursor home and shown. */
  lemma BlankGrid(rows: nat, cols: nat, i: nat)
    requires rows >= 1 && cols >= 1
    ensures var s := BlankScreen(rows, cols);
            && s.rows == rows && s.cols == cols && |s.cells| == rows * cols && s.row == 0 && s.col == 0 && s.visible
            && (i < |s.cells| ==> s.cells[i] == Cell(' ', Default, Default, 0))
  {
    SpanIsProduct(rows, cols);
  }

  // ---------------------------------------------------------------- what is refused

  /** A type byte outside the documented ones is refused, whatever follows. */
  lemma UnknownTypeRefused(tag: byte, rest: seq<byte>)
    requires tag == 0 || 0x06 < tag < 0x10 || 0x14 < tag < 0x20 || tag > 0x20
    ensures DecodeFrame([tag] + rest, 0) == Err(UnknownFrame(tag))
  {
  }

  /** What is read successfully is read the same when more bytes follow the buffer. */
  lemma {:induction false} VarintExtends(buf: seq<byte>, more: seq<byte>, pos: nat, k: nat)
    requires pos <= |buf| && ParseVarint(buf, pos, k).Ok?
    ensures ParseVarint(buf + more, pos, k) == ParseVarint(buf, pos, k)
    decreases |buf| - pos
  {
    assert (buf + more)[pos] == buf[pos];
    if buf[pos] >= 128 { VarintExtends(buf, more, pos + 1, k + 1); }
  }

  lemma FieldExtends(t: FieldType, buf: seq<byte>, more: seq<byte>, pos: nat)
    requires pos <= |buf| && ParseField(t, buf, pos).Ok?
    ensures ParseField(t, buf + more, pos) == ParseField(t, buf, pos)
  {
    match t
    case U64Type => VarintExtends(buf, more, pos, 0);
    case FlagType => assert (buf + more)[pos] == buf[pos];
    case KindType => assert (buf + more)[pos] == buf[pos];
    case BlobType =>
      VarintExtends(buf, more, pos, 0);
      var (len, p) := ParseVarint(buf, pos).value;
      assert (buf + more)[p..p + len] == buf[p..p + len];
  }

  /** The same for a reader of one item, and so for a list of them. */
  ghost predicate Extends<K(!new), T>(one: KeyedParser<K, T>, buf: seq<byte>, more: seq<byte>)
    requires StaysIn(one, buf) && StaysIn(one, buf + more)
  {
    forall k, p: nat {:trigger one(k, buf, p)} | p <= |buf| && one(k, buf, p).Ok? :: one(k, buf + more, p) == one(k, buf, p)
  }

  lemma {:induction false} EachExtends<K(!new), T>(one: KeyedParser<K, T>, ks: seq<K>, buf: seq<byte>, more: seq<byte>, pos: nat)
    requires StaysIn(one, buf) && StaysIn(one, buf + more) && Extends(one, buf, more)
    requires pos <= |buf| && ParseEach(one, ks, buf, pos).Ok?
    ensures ParseEach(one, ks, buf + more, pos) == ParseEach(one, ks, buf, pos)
    decreases |ks|
  {
    if ks != [] {
      var p := one(ks[0], buf, pos).value.1;
      EachExtends(one, ks[1..], buf, more, p);
    }
  }

  lemma FrameExtends(buf: seq<byte>, more: seq<byte>)
    requires DecodeFrame(buf, 0).Ok?
    ensures DecodeFrame(buf + more, 0) == DecodeFrame(buf, 0)
  {
    var layout := Layout(buf[0]).value;
    forall t, p: nat | p <= |buf| && ParseField(t, buf, p).Ok? ensures ParseField(t, buf + more, p) == ParseField(t, buf, p) {
      FieldExtends(t, buf, more, p);
    }
    assert Extends(ParseField, buf, more);
    EachExtends(ParseField, layout, buf, more, 1);
  }

  /** A frame cut short anywhere is refused. */
  lemma TruncatedRefused(f: Frame, n: nat)
    requires InRange(f) && n < |EncodeFrame(f)|
    ensures DecodeFrame(EncodeFrame(f)[..n], 0).Err?
  {
    var e := EncodeFrame(f);
    assert e == e[..n] + e[n..] && e[0..] == e;
    FrameRoundTrip(e, 0, f);
    if DecodeFrame(e[..n], 0).Ok? { FrameExtends(e[..n], e[n..]); }
  }
}
