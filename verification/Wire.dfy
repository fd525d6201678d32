/** The plaintext frame codec carried inside every sealed datagram. */
module Wire {
  import opened Common

  datatype WireError = UnexpectedEof | UnknownFrame(tag: byte) | VarintOverflow | BadLength

  datatype StreamKind = Session | Forward | FileTransfer | Agent | Exec

  datatype Frame =
    | Ack(seq_: nat)
    | Input(inputOffset: nat, inputData: seq<byte>)
    | StateDiff(diffSeq: nat, base: nat, diffData: seq<byte>)
    | Resize(cols: nat, rows: nat)
    | Ping(stamp: nat)
    | Pong(stamp: nat)
    | StreamOpen(id: nat, kind: StreamKind, meta: seq<byte>)
    | StreamData(id: nat, offset: nat, data: seq<byte>, fin: bool)
    | StreamAck(id: nat, ack: nat, window: nat)
    | StreamClose(id: nat, status: int)
    | StreamReset(id: nat)
    | Control(controlData: seq<byte>)

  /** The machine-integer ranges that the field types impose. */
  predicate InRange(f: Frame) {
    match f
    case Ack(s) => s < U64_LIMIT
    case Input(o, d) => o < U64_LIMIT && |d| < U64_LIMIT
    case StateDiff(s, b, d) => s < U64_LIMIT && b < U64_LIMIT && |d| < U64_LIMIT
    case Resize(c, r) => c < U16_LIMIT && r < U16_LIMIT
    case Ping(s) => s < U64_LIMIT
    case Pong(s) => s < U64_LIMIT
    case StreamOpen(i, _, m) => i < U64_LIMIT && |m| < U64_LIMIT
    case StreamData(i, o, d, _) => i < U64_LIMIT && o < U64_LIMIT && |d| < U64_LIMIT
    case StreamAck(i, a, w) => i < U64_LIMIT && a < U64_LIMIT && w < U32_LIMIT
    case StreamClose(i, s) => i < U64_LIMIT && -0x8000_0000 <= s < 0x8000_0000
    case StreamReset(i) => i < U64_LIMIT
    case Control(d) => |d| < U64_LIMIT
  }

  // ---------------------------------------------------------------- varints

  /** LEB128: seven bits per byte, least significant first, high bit set on all but the last. */
  function Varint(v: nat): (r: seq<byte>)
    ensures |r| >= 1
  {
    if v < 128 then [v] else [v % 128 + 128] + Varint(v / 128)
  }

  /**
    * The meaning of a varint at `pos`, where `k` groups have been read already: the tenth
    * group (shift 63) may carry one bit only, and there is no eleventh.
    */
  function ParseVarint(buf: seq<byte>, pos: nat, k: nat := 0): (r: Result<(nat, nat), WireError>)
    requires pos <= |buf|
    ensures r.Ok? ==> pos < r.value.1 <= |buf|
    decreases |buf| - pos
  {
    if pos == |buf| then Err(UnexpectedEof)
    else
      var low := buf[pos] % 128;
      if k >= 10 || (k == 9 && low >= 2) then Err(VarintOverflow)
      else if buf[pos] < 128 then Ok((low, pos + 1))
      else
        var rest :- ParseVarint(buf, pos + 1, k + 1);
        Ok((low + 128 * rest.0, rest.1))
  }

  /** The first value too large for a varint whose first `k` groups are gone. */
  function VarintLimit(k: nat): nat
    requires k <= 9
    decreases 9 - k
  {
    if k == 9 then 2 else 128 * VarintLimit(k + 1)
  }

  lemma VarintLimitIsU64()
    ensures VarintLimit(0) == U64_LIMIT
  {
    assert VarintLimit(6) == 128 * 128 * 128 * 2;
    assert VarintLimit(3) == 128 * 128 * 128 * VarintLimit(6);
    assert VarintLimit(0) == 128 * 128 * 128 * VarintLimit(3);
  }

  lemma {:induction false} VarintRoundTripFrom(buf: seq<byte>, pos: nat, v: nat, k: nat)
    requires pos <= |buf| && k <= 9
    requires v < VarintLimit(k)
    requires Varint(v) <= buf[pos..]
    ensures ParseVarint(buf, pos, k) == Ok((v, pos + |Varint(v)|))
    decreases v
  {
    assert buf[pos] == buf[pos..][0] == Varint(v)[0];
    if v >= 128 {
      assert (v % 128 + 128) % 128 == v % 128 && v == v % 128 + 128 * (v / 128);
      SplitPrefix(buf, pos, [v % 128 + 128], Varint(v / 128));
      VarintRoundTripFrom(buf, pos + 1, v / 128, k + 1);
    }
  }

  /** Wherever the encoding of a `u64` sits in a buffer, decoding there returns it and steps over it. */
  lemma VarintRoundTrip(buf: seq<byte>, pos: nat, v: nat)
    requires pos <= |buf| && v < U64_LIMIT
    requires Varint(v) <= buf[pos..]
    ensures ParseVarint(buf, pos) == Ok((v, pos + |Varint(v)|))
  {
    VarintLimitIsU64();
    VarintRoundTripFrom(buf, pos, v, 0);
  }

  lemma {:induction false} ParsedVarintBelow(buf: seq<byte>, pos: nat, k: nat)
    requires pos <= |buf| && k <= 9 && ParseVarint(buf, pos, k).Ok?
    ensures ParseVarint(buf, pos, k).value.0 < VarintLimit(k)
    decreases |buf| - pos
  {
    if buf[pos] >= 128 {
      if k == 9 {
        assert ParseVarint(buf, pos + 1, 10).Err?;
        assert false;
      }
      ParsedVarintBelow(buf, pos + 1, k + 1);
    } else {
      VarintLimitAtLeast(k);
    }
  }

  lemma {:induction false} VarintLimitAtLeast(k: nat)
    requires k <= 9
    ensures VarintLimit(k) >= if k == 9 then 2 else 128
    decreases 9 - k
  {
    if k < 9 { VarintLimitAtLeast(k + 1); }
  }

  /** Whatever bytes are decoded, a varint that is accepted fits a `u64`. */
  lemma ParsedVarintFitsU64(buf: seq<byte>, pos: nat)
    requires pos <= |buf| && ParseVarint(buf, pos).Ok?
    ensures ParseVarint(buf, pos).value.0 < U64_LIMIT
  {
    VarintLimitIsU64();
    ParsedVarintBelow(buf, pos, 0);
  }

  method PutVarint(out: seq<byte>, v: nat) returns (r: seq<byte>)
    ensures r == out + Varint(v)
  {
    r := out;
    var rest := v;
    while true
      invariant r + Varint(rest) == out + Varint(v)
      decreases rest
    {
      var low: byte := rest % 128;
      var next := rest / 128;
      if next != 0 {
        r := r + [low + 128];
        rest := next;
      } else {
        r := r + [low];
        return;
      }
    }
  }

  lemma Regroup(low: nat, rest: nat, unit: nat)
    ensures (low + 128 * rest) * unit == low * unit + rest * (128 * unit)
  {
  }

  /** The shift-and-or accumulation of the decoder computes `ParseVarint`, errors included. */
  method GetVarint(buf: seq<byte>, start: nat) returns (r: Result<(nat, nat), WireError>)
    requires start <= |buf|
    ensures r == ParseVarint(buf, start)
  {
    var pos: nat, result: nat, shift: nat, unit: nat := start, 0, 0, 1;   // unit is 1 << shift
    ghost var k := 0;
    while true
      invariant start <= pos <= |buf| && shift == 7 * k
      invariant match ParseVarint(buf, pos, k)
        case Err(e) => ParseVarint(buf, start) == Err(e)
        case Ok(v) => ParseVarint(buf, start) == Ok((result + v.0 * unit, v.1))
      decreases |buf| - pos
    {
      if pos == |buf| { return Err(UnexpectedEof); }
      var low: nat := buf[pos] % 128;
      if shift >= 64 || (shift == 63 && low >= 2) { return Err(VarintOverflow); }
      result := result + low * unit;
      if buf[pos] < 128 { return Ok((result, pos + 1)); }
      ghost var rest := ParseVarint(buf, pos + 1, k + 1);
      if rest.Ok? { Regroup(low, rest.value.0, unit); }
      pos, shift, unit, k := pos + 1, shift + 7, 128 * unit, k + 1;
    }
  }

  // ---------------------------------------------------------------- zig-zag

  function Zigzag(v: int): (r: nat)
  {
    if v >= 0 then 2 * v else -2 * v - 1
  }

  function Unzigzag(v: nat): (r: int)
  {
    if v % 2 == 0 then v / 2 else -(v / 2) - 1
  }

  /** Two's-complement truncation to 32 bits. */
  function ToI32(v: int): (r: int)
    ensures -0x8000_0000 <= r < 0x8000_0000
    ensures -0x8000_0000 <= v < 0x8000_0000 ==> r == v
  {
    (v + 0x8000_0000) % 0x1_0000_0000 - 0x8000_0000
  }

  /** Zig-zag is a bijection between the integers and the naturals, small magnitudes first. */
  lemma ZigzagBijective(v: int, n: nat)
    ensures Unzigzag(Zigzag(v)) == v && Zigzag(Unzigzag(n)) == n
    ensures -0x8000_0000 <= v < 0x8000_0000 ==> Zigzag(v) < U32_LIMIT
  {
    if v >= 0 {
      assert Zigzag(v) % 2 == 0 && Zigzag(v) / 2 == v;
    } else {
      assert Zigzag(v) == 2 * (-v - 1) + 1;
    }
  }

  // ---------------------------------------------------------------- frames

  /** What follows a frame's tag byte: a list of fields, of kinds that the tag determines. */
  datatype Field = U64(v: nat) | Flag(b: byte) | Kind(k: StreamKind) | Blob(d: seq<byte>)

  datatype FieldType = U64Type | FlagType | KindType | BlobType

  function TypeOf(f: Field): FieldType {
    match f
    case U64(_) => U64Type
    case Flag(_) => FlagType
    case Kind(_) => KindType
    case Blob(_) => BlobType
  }

  predicate FieldInRange(f: Field) {
    match f
    case U64(v) => v < U64_LIMIT
    case Blob(d) => |d| < U64_LIMIT
    case _ => true
  }

  function KindByte(k: StreamKind): byte {
    match k
    case Session => 0
    case Forward => 1
    case FileTransfer => 2
    case Agent => 3
    case Exec => 4
  }

  function KindFromByte(b: byte): Result<StreamKind, WireError> {
    match b
    case 0 => Ok(Session)
    case 1 => Ok(Forward)
    case 2 => Ok(FileTransfer)
    case 3 => Ok(Agent)
    case 4 => Ok(Exec)
    case _ => Err(UnknownFrame(b))
  }

  function EncodeField(f: Field): seq<byte> {
    match f
    case U64(v) => Varint(v)
    case Flag(b) => [b]
    case Kind(k) => [KindByte(k)]
    case Blob(d) => Varint(|d|) + d
  }

  function ParseByte(buf: seq<byte>, pos: nat): (r: Result<(byte, nat), WireError>)
    requires pos <= |buf|
    ensures r.Ok? ==> pos < r.value.1 <= |buf|
  {
    if pos == |buf| then Err(UnexpectedEof) else Ok((buf[pos], pos + 1))
  }

  function ParseField(t: FieldType, buf: seq<byte>, pos: nat): (r: Result<(Field, nat), WireError>)
    requires pos <= |buf|
    ensures r.Ok? ==> pos < r.value.1 <= |buf|
    ensures r.Ok? ==> TypeOf(r.value.0) == t
  {
    match t
    case U64Type =>
      var (v, p) :- ParseVarint(buf, pos);
      Ok((U64(v), p))
    case FlagType =>
      var (b, p) :- ParseByte(buf, pos);
      Ok((Flag(b), p))
    case KindType =>
      var (b, p) :- ParseByte(buf, pos);
      var k :- KindFromByte(b);
      Ok((Kind(k), p))
    case BlobType =>
      var (len, p) :- ParseVarint(buf, pos);
      if p + len > |buf| then Err(BadLength) else Ok((Blob(buf[p..p + len]), p + len))
  }

  lemma FieldRoundTrip(buf: seq<byte>, pos: nat, f: Field)
    requires pos <= |buf| && FieldInRange(f) && EncodeField(f) <= buf[pos..]
    ensures ParseField(TypeOf(f), buf, pos) == Ok((f, pos + |EncodeField(f)|))
  {
    match f
    case U64(v) => VarintRoundTrip(buf, pos, v);
    case Flag(b) => assert buf[pos] == buf[pos..][0];
    case Kind(k) => assert buf[pos] == buf[pos..][0];
    case Blob(d) =>
      SplitPrefix(buf, pos, Varint(|d|), d);
      VarintRoundTrip(buf, pos, |d|);
      var p := pos + |Varint(|d|)|;
      assert buf[p..p + |d|] == buf[p..][..|d|] == d;
  }

  type KeyedParser<!K, T> = (K, seq<byte>, nat) --> Result<(T, nat), WireError>

  ghost predicate StaysIn<K(!new), T>(one: KeyedParser<K, T>, buf: seq<byte>) {
    forall k, p: nat | p <= |buf| ::
      one.requires(k, buf, p) && (one(k, buf, p).Ok? ==> p <= one(k, buf, p).value.1 <= |buf|)
  }

  /** Parse one item per key, in order. */
  function ParseEach<K(!new), T>(one: KeyedParser<K, T>, ks: seq<K>, buf: seq<byte>, pos: nat)
    : (r: Result<(seq<T>, nat), WireError>)
    requires pos <= |buf| && StaysIn(one, buf)
    ensures r.Ok? ==> pos <= r.value.1 <= |buf| && |r.value.0| == |ks|
    decreases |ks|
  {
    if ks == [] then Ok(([], pos))
    else
      var (x, p) :- one(ks[0], buf, pos);
      var (rest, p) :- ParseEach(one, ks[1..], buf, p);
      Ok(([x] + rest, p))
  }

  /** Wherever in `buf` the encoding of `x` stands, the parser for its key finds `x` there. */
  ghost predicate FoundIn<K(!new), T>(enc: T -> seq<byte>, key: T -> K, one: KeyedParser<K, T>, buf: seq<byte>, x: T)
    requires StaysIn(one, buf)
  {
    forall p: nat | p <= |buf| && enc(x) <= buf[p..] :: one(key(x), buf, p) == Ok((x, p + |enc(x)|))
  }

  ghost predicate AllFoundIn<K(!new), T>(enc: T -> seq<byte>, key: T -> K, one: KeyedParser<K, T>, buf: seq<byte>, xs: seq<T>)
    requires StaysIn(one, buf)
  {
    forall x | x in xs :: FoundIn(enc, key, one, buf, x)
  }

  function Map<S, T>(f: S -> T, s: seq<S>): seq<T> {
    if s == [] then [] else [f(s[0])] + Map(f, s[1..])
  }

  lemma ParseEachCons<K(!new), T>(one: KeyedParser<K, T>, k: K, ks: seq<K>, buf: seq<byte>, pos: nat,
                                  x: T, p: nat, rest: seq<T>, end: nat)
    requires StaysIn(one, buf) && pos <= |buf| && p <= |buf|
    requires one(k, buf, pos) == Ok((x, p)) && ParseEach(one, ks, buf, p) == Ok((rest, end))
    ensures ParseEach(one, [k] + ks, buf, pos) == Ok(([x] + rest, end))
  {
    assert ([k] + ks)[1..] == ks;
  }

  lemma {:induction false} EachRoundTrip<K(!new), T>(enc: T -> seq<byte>, key: T -> K, one: KeyedParser<K, T>,
                                                     buf: seq<byte>, pos: nat, xs: seq<T>)
    requires StaysIn(one, buf) && pos <= |buf| && FlatMap(enc, xs) <= buf[pos..]
    requires AllFoundIn(enc, key, one, buf, xs)
    ensures ParseEach(one, Map(key, xs), buf, pos) == Ok((xs, pos + |FlatMap(enc, xs)|))
    decreases |xs|
  {
    if xs != [] {
      var x, rest := xs[0], xs[1..];
      var p := pos + |enc(x)|;
      assert p <= |buf| && enc(x) <= buf[pos..] && FlatMap(enc, rest) <= buf[p..] by {
        SplitPrefix(buf, pos, enc(x), FlatMap(enc, rest));
      }
      assert one(key(x), buf, pos) == Ok((x, p)) by { assert FoundIn(enc, key, one, buf, x); }
      EachRoundTrip(enc, key, one, buf, p, rest);
      ParseEachCons(one, key(x), Map(key, rest), buf, pos, x, p, rest, p + |FlatMap(enc, rest)|);
      assert [x] + rest == xs;
    }
  }

  lemma FieldFound(buf: seq<byte>, f: Field)
    requires FieldInRange(f)
    ensures FoundIn(EncodeField, TypeOf, ParseField, buf, f)
  {
    forall p: nat | p <= |buf| && EncodeField(f) <= buf[p..]
      ensures ParseField(TypeOf(f), buf, p) == Ok((f, p + |EncodeField(f)|))
    {
      FieldRoundTrip(buf, p, f);
    }
  }

  lemma FieldsFound(buf: seq<byte>, fs: seq<Field>)
    requires forall f | f in fs :: FieldInRange(f)
    ensures AllFoundIn(EncodeField, TypeOf, ParseField, buf, fs)
  {
    forall f | f in fs ensures FoundIn(EncodeField, TypeOf, ParseField, buf, f) { FieldFound(buf, f); }
  }

  lemma FieldsRoundTrip(buf: seq<byte>, pos: nat, fs: seq<Field>)
    requires pos <= |buf| && FlatMap(EncodeField, fs) <= buf[pos..]
    requires forall f | f in fs :: FieldInRange(f)
    ensures ParseEach(ParseField, Map(TypeOf, fs), buf, pos) == Ok((fs, pos + |FlatMap(EncodeField, fs)|))
  {
    FieldsFound(buf, fs);
    EachRoundTrip(EncodeField, TypeOf, ParseField, buf, pos, fs);
  }

  function FrameTag(f: Frame): byte {
    match f
    case Ack(_) => 0x01
    case Input(_, _) => 0x02
    case StateDiff(_, _, _) => 0x03
    case Resize(_, _) => 0x04
    case Ping(_) => 0x05
    case Pong(_) => 0x06
    case StreamOpen(_, _, _) => 0x10
    case StreamData(_, _, _, _) => 0x11
    case StreamAck(_, _, _) => 0x12
    case StreamClose(_, _) => 0x13
    case StreamReset(_) => 0x14
    case Control(_) => 0x20
  }

  function FrameFields(f: Frame): seq<Field> {
    match f
    case Ack(s) => [U64(s)]
    case Input(o, d) => [U64(o), Blob(d)]
    case StateDiff(s, b, d) => [U64(s), U64(b), Blob(d)]
    case Resize(c, r) => [U64(c), U64(r)]
    case Ping(s) => [U64(s)]
    case Pong(s) => [U64(s)]
    case StreamOpen(i, k, m) => [U64(i), Kind(k), Blob(m)]
    case StreamData(i, o, d, fin) => [U64(i), U64(o), Flag(if fin then 1 else 0), Blob(d)]
    case StreamAck(i, a, w) => [U64(i), U64(a), U64(w)]
    case StreamClose(i, s) => [U64(i), U64(Zigzag(s))]
    case StreamReset(i) => [U64(i)]
    case Control(d) => [Blob(d)]
  }

  /** The field types that follow each known tag. */
  function Layout(tag: byte): Option<seq<FieldType>> {
    match tag
    case 0x01 => Some([U64Type])
    case 0x02 => Some([U64Type, BlobType])
    case 0x03 => Some([U64Type, U64Type, BlobType])
    case 0x04 => Some([U64Type, U64Type])
    case 0x05 => Some([U64Type])
    case 0x06 => Some([U64Type])
    case 0x10 => Some([U64Type, KindType, BlobType])
    case 0x11 => Some([U64Type, U64Type, FlagType, BlobType])
    case 0x12 => Some([U64Type, U64Type, U64Type])
    case 0x13 => Some([U64Type, U64Type])
    case 0x14 => Some([U64Type])
    case 0x20 => Some([BlobType])
    case _ => None
  }

  function AsU64(f: Field): nat { if f.U64? then f.v else 0 }
  function AsFlag(f: Field): bool { f.Flag? && f.b != 0 }
  function AsKind(f: Field): StreamKind { if f.Kind? then f.k else Session }
  function AsBlob(f: Field): seq<byte> { if f.Blob? then f.d else [] }

  /** Assemble a frame from its fields; narrow fields are truncated as the field types do. */
  function FromFields(tag: byte, fs: seq<Field>): Frame
    requires Layout(tag).Some? && |fs| == |Layout(tag).value|
  {
    match tag
    case 0x01 => Ack(AsU64(fs[0]))
    case 0x02 => Input(AsU64(fs[0]), AsBlob(fs[1]))
    case 0x03 => StateDiff(AsU64(fs[0]), AsU64(fs[1]), AsBlob(fs[2]))
    case 0x04 => Resize(AsU64(fs[0]) % U16_LIMIT, AsU64(fs[1]) % U16_LIMIT)
    case 0x05 => Ping(AsU64(fs[0]))
    case 0x06 => Pong(AsU64(fs[0]))
    case 0x10 => StreamOpen(AsU64(fs[0]), AsKind(fs[1]), AsBlob(fs[2]))
    case 0x11 => StreamData(AsU64(fs[0]), AsU64(fs[1]), AsBlob(fs[3]), AsFlag(fs[2]))
    case 0x12 => StreamAck(AsU64(fs[0]), AsU64(fs[1]), AsU64(fs[2]) % U32_LIMIT)
    case 0x13 => StreamClose(AsU64(fs[0]), ToI32(Unzigzag(AsU64(fs[1]))))
    case 0x14 => StreamReset(AsU64(fs[0]))
    case 0x20 => Control(AsBlob(fs[0]))
  }

  function EncodeFrame(f: Frame): (r: seq<byte>)
    ensures |r| >= 1
  {
    [FrameTag(f)] + FlatMap(EncodeField, FrameFields(f))
  }

  lemma {:induction false} MapAt<S, T>(f: S -> T, s: seq<S>)
    ensures |Map(f, s)| == |s| && forall i | 0 <= i < |s| :: Map(f, s)[i] == f(s[i])
  {
    if s != [] { MapAt(f, s[1..]); }
  }

  /** Decode one frame at `pos`. */
  function DecodeFrame(buf: seq<byte>, pos: nat): (r: Result<(Frame, nat), WireError>)
    requires pos <= |buf|
    ensures r.Ok? ==> pos < r.value.1 <= |buf|
  {
    var (tag, p) :- ParseByte(buf, pos);
    if Layout(tag).None? then Err(UnknownFrame(tag))
    else
      var (fs, p) :- ParseEach(ParseField, Layout(tag).value, buf, p);
      Ok((FromFields(tag, fs), p))
  }

  /** A frame's fields have its tag's layout, and give the frame back. */
  lemma FieldsOfFrame(f: Frame)
    requires InRange(f)
    ensures Layout(FrameTag(f)) == Some(Map(TypeOf, FrameFields(f)))
    ensures forall x | x in FrameFields(f) :: FieldInRange(x)
    ensures |FrameFields(f)| == |Layout(FrameTag(f)).value|
    ensures FromFields(FrameTag(f), FrameFields(f)) == f
  {
    var fs := FrameFields(f);
    MapAt(TypeOf, fs);
    assert |Layout(FrameTag(f)).value| == |fs|;
    assert forall i | 0 <= i < |fs| :: Map(TypeOf, fs)[i] == Layout(FrameTag(f)).value[i];
    assert Map(TypeOf, fs) == Layout(FrameTag(f)).value;
    if f.StreamClose? { ZigzagBijective(f.status, 0); }
  }

  /** Wherever the encoding of a frame sits in a buffer, decoding there returns the frame and steps over it. */
  lemma FrameRoundTrip(buf: seq<byte>, pos: nat, f: Frame)
    requires pos <= |buf| && InRange(f)
    requires EncodeFrame(f) <= buf[pos..]
    ensures DecodeFrame(buf, pos) == Ok((f, pos + |EncodeFrame(f)|))
  {
    FieldsOfFrame(f);
    SplitPrefix(buf, pos, [FrameTag(f)], FlatMap(EncodeField, FrameFields(f)));
    assert buf[pos] == buf[pos..][0];
    FieldsRoundTrip(buf, pos + 1, FrameFields(f));
  }

  // ---------------------------------------------------------------- payloads

  function FlatMap<S, T>(f: S -> seq<T>, s: seq<S>): seq<T> {
    if s == [] then [] else f(s[0]) + FlatMap(f, s[1..])
  }

  lemma {:induction false} FlatMapConcat<S, T>(f: S -> seq<T>, a: seq<S>, b: seq<S>)
    ensures FlatMap(f, a + b) == FlatMap(f, a) + FlatMap(f, b)
  {
    if a == [] {
      assert a + b == b;
    } else {
      FlatMapConcat(f, a[1..], b);
      assert (a + b)[1..] == a[1..] + b;
    }
  }

  lemma FlatMapOne<S, T>(f: S -> seq<T>, x: S)
    ensures FlatMap(f, [x]) == f(x)
  {
    assert FlatMap(f, [x][1..]) == [];
  }

  function Encode(frames: seq<Frame>): seq<byte> { FlatMap(EncodeFrame, frames) }

  function Prepend<T, E>(a: seq<T>, r: Result<seq<T>, E>): Result<seq<T>, E> {
    if r.Err? then r else Ok(a + r.value)
  }

  lemma PrependTwice<T, E>(a: seq<T>, b: seq<T>, r: Result<seq<T>, E>)
    ensures Prepend(a, Prepend(b, r)) == Prepend(a + b, r) && Prepend([], r) == r
  {
    if r.Ok? { assert a + (b + r.value) == a + b + r.value && [] + r.value == r.value; }
  }

  type Parser<T> = (seq<byte>, nat) --> Result<(T, nat), WireError>

  /** Inside `buf` the parser is defined everywhere, and consumes something whenever it succeeds. */
  ghost predicate Advances<T>(one: Parser<T>, buf: seq<byte>) {
    forall p: nat | p <= |buf| ::
      one.requires(buf, p) && (one(buf, p).Ok? ==> p < one(buf, p).value.1 <= |buf|)
  }

  function ParseMany<T>(one: Parser<T>, buf: seq<byte>, pos: nat): (r: Result<seq<T>, WireError>)
    requires pos <= |buf| && Advances(one, buf)
    ensures r.Ok? ==> |r.value| <= |buf| - pos
    decreases |buf| - pos
  {
    if pos == |buf| then Ok([])
    else
      var (x, p) :- one(buf, pos);
      Prepend([x], ParseMany(one, buf, p))
  }

  /** Wherever in `buf` the encoding of `x` stands, the parser finds `x` there. */
  ghost predicate RoundTripsIn<T>(enc: T -> seq<byte>, one: Parser<T>, buf: seq<byte>, x: T)
    requires Advances(one, buf)
  {
    |enc(x)| > 0 &&
    forall p: nat | p <= |buf| && enc(x) <= buf[p..] :: one(buf, p) == Ok((x, p + |enc(x)|))
  }

  lemma {:induction false} ManyRoundTrip<T>(enc: T -> seq<byte>, one: Parser<T>, xs: seq<T>, buf: seq<byte>, pos: nat)
    requires Advances(one, buf) && pos <= |buf| && buf[pos..] == FlatMap(enc, xs)
    requires forall x | x in xs :: RoundTripsIn(enc, one, buf, x)
    ensures ParseMany(one, buf, pos) == Ok(xs)
    decreases |xs|
  {
    if xs != [] {
      var x, rest := xs[0], FlatMap(enc, xs[1..]);
      assert RoundTripsIn(enc, one, buf, x);
      SplitPrefix(buf, pos, enc(x), rest);
      var p := pos + |enc(x)|;
      assert buf[p..] == buf[pos..][|enc(x)|..] == rest;
      ManyRoundTrip(enc, one, xs[1..], buf, p);
      assert [x] + xs[1..] == xs;
    }
  }

  /** Every accepted frame takes at least one byte, so decoding stops on any input. */
  function Decode(buf: seq<byte>): (r: Result<seq<Frame>, WireError>)
    ensures r.Ok? ==> |r.value| <= |buf|
  {
    ParseMany(DecodeFrame, buf, 0)
  }

  lemma FrameFoundAt(buf: seq<byte>, f: Frame, e: seq<byte>, p: nat)
    requires InRange(f) && e == EncodeFrame(f) && p <= |buf| && e <= buf[p..]
    ensures DecodeFrame(buf, p) == Ok((f, p + |e|))
  {
    FrameRoundTrip(buf, p, f);
  }

  lemma FoundEverywhere<T>(enc: T -> seq<byte>, one: Parser<T>, buf: seq<byte>, x: T, e: seq<byte>)
    requires Advances(one, buf) && e == enc(x) && |e| > 0
    requires forall p: nat {:trigger one(buf, p)} | p <= |buf| && e <= buf[p..] :: one(buf, p) == Ok((x, p + |e|))
    ensures RoundTripsIn(enc, one, buf, x)
  {
  }

  lemma FrameRoundTripsIn(buf: seq<byte>, f: Frame)
    requires InRange(f)
    ensures RoundTripsIn(EncodeFrame, DecodeFrame, buf, f)
  {
    var e := EncodeFrame(f);
    forall p: nat | p <= |buf| && e <= buf[p..] ensures DecodeFrame(buf, p) == Ok((f, p + |e|)) {
      FrameFoundAt(buf, f, e, p);
    }
    FoundEverywhere(EncodeFrame, DecodeFrame, buf, f, e);
  }

  /** A payload decodes to exactly the list of frames it was built from. */
  lemma DecodeEncode(frames: seq<Frame>)
    requires forall f | f in frames :: InRange(f)
    ensures Decode(Encode(frames)) == Ok(frames)
  {
    var buf := Encode(frames);
    assert buf[0..] == buf;
    forall f | f in frames ensures RoundTripsIn(EncodeFrame, DecodeFrame, buf, f) {
      FrameRoundTripsIn(buf, f);
    }
    ManyRoundTrip(EncodeFrame, DecodeFrame, frames, buf, 0);
  }

  lemma EncodeConcat(a: seq<Frame>, b: seq<Frame>)
    ensures Encode(a + b) == Encode(a) + Encode(b)
  {
    FlatMapConcat(EncodeFrame, a, b);
  }

  method EncodeFrames(frames: seq<Frame>) returns (out: seq<byte>)
    ensures out == Encode(frames)
  {
    out := [];
    for i := 0 to |frames|
      invariant out == Encode(frames[..i])
    {
      assert frames[..i + 1] == frames[..i] + [frames[i]];
      EncodeConcat(frames[..i], [frames[i]]);
      FlatMapOne(EncodeFrame, frames[i]);
      out := out + EncodeFrame(frames[i]);
    }
    assert frames[..|frames|] == frames;
  }

  method DecodeFrames(buf: seq<byte>) returns (r: Result<seq<Frame>, WireError>)
    ensures r == Decode(buf)
  {
    var frames: seq<Frame>, pos: nat := [], 0;
    PrependTwice([], [], Decode(buf));
    while pos < |buf|
      invariant pos <= |buf|
      invariant Decode(buf) == Prepend(frames, ParseMany(DecodeFrame, buf, pos))
    {
      var one := DecodeFrame(buf, pos);
      if one.Err? { return Err(one.error); }
      var (f, p) := one.value;
      PrependTwice(frames, [f], ParseMany(DecodeFrame, buf, p));
      frames, pos := frames + [f], p;
    }
    assert ParseMany(DecodeFrame, buf, pos) == Ok([]) && frames + [] == frames;
    return Ok(frames);
  }
}
