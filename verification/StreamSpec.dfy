/**
  * One reliable stream, as values: what each operation of a stream endpoint computes.
  * `StreamState` carries these out on mutable fields.
  */
module StreamSpec {
  import opened Common
  import opened Wire
  import opened Reassembly

  const DEFAULT_WINDOW: nat := 256 * 1024
  const MAX_STREAM_CHUNK: nat := 1024
  const MSS: nat := MAX_STREAM_CHUNK
  const INIT_CWND: nat := 10 * MSS
  const MAX_CWND: nat := DEFAULT_WINDOW
  const INIT_RTO: nat := 8
  const MIN_RTO: nat := 2
  const MAX_RTO: nat := 240
  const CLOSE_GRACE_TICKS: nat := 100

  /** An open round-trip measurement: the offset it covers up to, and the tick it started. */
  datatype Probe = Probe(end: nat, sent: nat)

  datatype Sender = Sender(
    buf: seq<byte>,         // bytes from `base` on
    base: nat,              // everything below is acknowledged
    high: nat,              // highest offset transmitted at least once
    next: nat,              // total bytes written
    peerWindow: nat,
    fin: bool,
    finSent: bool,
    finAcked: bool,
    rtoStart: Option<nat>,
    rto: nat,
    srtt: nat,              // 0 until the first sample
    rttvar: nat,
    timed: Option<Probe>,
    cwnd: nat,
    ssthresh: nat)

  datatype Receiver = Receiver(delivered: nat, held: Held)

  datatype Stream = Stream(
    id: nat,
    kind: StreamKind,
    meta: seq<byte>,
    needsOpen: bool,
    snd: Sender,
    closeStatus: Option<int>,
    rcv: Receiver,
    recvWindow: nat,
    peerFin: Option<nat>,
    closeReceived: bool,
    closeTicks: nat,
    reset: bool)

  const NEW_SENDER := Sender([], 0, 0, 0, DEFAULT_WINDOW, false, false, false,
                             None, INIT_RTO, 0, 0, None, INIT_CWND, MAX_CWND)

  function NewStream(id: nat, kind: StreamKind, meta: seq<byte>, needsOpen: bool): Stream {
    Stream(id, kind, meta, needsOpen, NEW_SENDER, None, Receiver(0, map[]), DEFAULT_WINDOW, None, false, 0, false)
  }

  // ---------------------------------------------------------------- receiving

  ghost function AckPoint(r: Receiver): nat { RunEnd(r.held, r.delivered) }

  ghost function Unread(r: Receiver): nat { AckPoint(r) - r.delivered }

  /** A data frame is dropped if its end overflows or it starts beyond the receive window. */
  predicate Accepts(r: Receiver, offset: nat, data: seq<byte>) {
    offset + |data| < U64_LIMIT && offset <= Min(r.delivered + DEFAULT_WINDOW, U64_LIMIT - 1)
  }

  function Insert(r: Receiver, offset: nat, data: seq<byte>): Receiver {
    r.(held := Overlay(r.held, r.delivered, offset, data))
  }

  ghost function Drain(r: Receiver): Receiver {
    Receiver(AckPoint(r), DropBelow(r.held, AckPoint(r)))
  }

  function OnData(s: Stream, offset: nat, data: seq<byte>, fin: bool): Stream {
    if !Accepts(s.rcv, offset, data) then s
    else s.(rcv := Insert(s.rcv, offset, data),
            peerFin := if fin && s.peerFin.None? then Some(offset + |data|) else s.peerFin)
  }

  // ---------------------------------------------------------------- acknowledgements

  function Clamp(v: nat, lo: nat, hi: nat): nat { if v < lo then lo else if v > hi then hi else v }

  function RtoFor(srtt: nat, rttvar: nat): nat {
    if srtt > 0 then Clamp(srtt + Max(4 * rttvar, 1), MIN_RTO, MAX_RTO) else INIT_RTO
  }

  /** Slow start below `ssthresh`, congestion avoidance above it. */
  function GrownCwnd(cwnd: nat, ssthresh: nat, acked: nat): nat {
    var inc := if cwnd < ssthresh then Min(acked % U32_LIMIT, MSS) else Max(MSS * MSS / Max(cwnd, 1), 1);
    Min(Min(cwnd + inc, U32_LIMIT - 1), MAX_CWND)
  }

  /** Forward progress: drop acknowledged bytes, grow the window, restart or stop the timer. */
  function Advance(s: Sender, ack: nat, now: nat): Sender
    requires s.base < ack
  {
    var n := Min(ack - s.base, |s.buf|);
    var base := s.base + n;
    var high := Max(s.high, base);
    s.(buf := s.buf[n..], base := base, high := high,
       cwnd := GrownCwnd(s.cwnd, s.ssthresh, n),
       rtoStart := if base < high then Some(now) else None,
       rto := RtoFor(s.srtt, s.rttvar))
  }

  /** Fold a round-trip sample into the smoothed estimate. */
  function SmoothedRtt(srtt: nat, r: nat): nat { if srtt == 0 then r else (7 * srtt + r) / 8 }

  function SmoothedVar(srtt: nat, rttvar: nat, r: nat): nat {
    if srtt == 0 then r / 2 else (3 * rttvar + (if srtt >= r then srtt - r else r - srtt)) / 4
  }

  function Sample(s: Sender, r: nat): Sender {
    var srtt, rttvar := SmoothedRtt(s.srtt, r), SmoothedVar(s.srtt, s.rttvar, r);
    s.(srtt := srtt, rttvar := rttvar, rto := RtoFor(srtt, rttvar))
  }

  function Elapsed(now: nat, since: nat): nat { if now >= since then now - since else 0 }

  /** Take the round-trip sample if the probed range is acknowledged. */
  function TakeSample(s: Sender, ack: nat, now: nat): Sender {
    if s.timed.Some? && ack >= s.timed.value.end
    then Sample(s, Max(Elapsed(now, s.timed.value.sent), 1)).(timed := None)
    else s
  }

  function OnAck(s: Sender, ack: nat, window: nat, now: nat): Sender {
    if ack > s.next then s
    else
      var s1 := s.(peerWindow := window);
      var s2 := if ack > s1.base then Advance(s1, ack, now) else s1;
      var s3 := TakeSample(s2, ack, now);
      if s3.fin && s3.finSent && ack >= s3.next then s3.(finAcked := true) else s3
  }

  // ---------------------------------------------------------------- transmitting

  function OnRto(s: Sender): Sender {
    s.(ssthresh := Max(s.cwnd / 2, 2 * MSS), cwnd := MSS, rto := Min(s.rto * 2, MAX_RTO), timed := None)
  }

  /** `[from, to)` cut into chunks, the one that reaches the end of a closed stream flagged FIN. */
  function Chunks(id: nat, s: Sender, from: nat, till: nat): (r: seq<Frame>)
    requires s.base <= from <= till <= s.base + |s.buf|
    decreases till - from
  {
    if from == till then []
    else
      var end := Min(from + MAX_STREAM_CHUNK, till);
      [StreamData(id, from, s.buf[from - s.base..end - s.base], s.fin && end == s.next && !s.finAcked)]
      + Chunks(id, s, end, till)
  }

  function MarkFin(s: Sender, from: nat, till: nat): Sender {
    if from < till && s.fin && till == s.next && !s.finAcked then s.(finSent := true) else s
  }

  function SendEnd(s: Sender): nat { Min(s.next, s.base + Min(s.peerWindow, s.cwnd)) }

  predicate RtoDue(s: Sender, now: nat) {
    s.rtoStart.None? || Elapsed(now, s.rtoStart.value) >= s.rto
  }

  /** Shape of the send buffer: it holds exactly the unacknowledged bytes. */
  predicate Buffered(s: Sender) { s.base + |s.buf| == s.next && s.base <= s.high <= s.next }

  /** Data frames to send at tick `now`: new data first, else a due retransmission, else an empty FIN. */
  function SendData(id: nat, s: Sender, now: nat): (Sender, seq<Frame>)
    requires Buffered(s)
  {
    var end := SendEnd(s);
    if s.high < end then
      var from := Max(s.high, s.base);
      var s1 := MarkFin(s, from, end);
      (s1.(timed := if s1.timed.None? then Some(Probe(end, now)) else s1.timed,
           high := end,
           rtoStart := if s1.rtoStart.None? then Some(now) else s1.rtoStart),
       Chunks(id, s, from, end))
    else if s.base < s.high then
      if RtoDue(s, now)
      then (OnRto(MarkFin(s, s.base, s.high).(rtoStart := Some(now))), Chunks(id, s, s.base, s.high))
      else (s, [])
    else if s.fin && !s.finAcked && s.next == s.base && (!s.finSent || RtoDue(s, now))
    then (s.(finSent := true, rtoStart := Some(now)), [StreamData(id, s.next, [], true)])
    else (s, [])
  }

  ghost function AdvertisedWindow(r: Receiver): nat { DEFAULT_WINDOW - Min(Unread(r), DEFAULT_WINDOW) }

  function OpenFrames(s: Stream): seq<Frame> {
    if s.needsOpen then [StreamOpen(s.id, s.kind, s.meta)] else []
  }

  /** Every round advertises the ack point and the room that is left. */
  ghost function AckFrames(s: Stream): seq<Frame> {
    [StreamAck(s.id, AckPoint(s.rcv), AdvertisedWindow(s.rcv))]
  }

  /** The graceful close is repeated until all our data is acknowledged. */
  function CloseFrames(s: Stream, finAcked: bool): seq<Frame> {
    if s.closeStatus.Some? && !finAcked then [StreamClose(s.id, s.closeStatus.value)] else []
  }

  /** The frames of one transmit round of a live stream at tick `now`. */
  ghost function TransmitFrames(s: Stream, now: nat): seq<Frame>
    requires Buffered(s.snd)
  {
    var (snd, data) := SendData(s.id, s.snd, now);
    OpenFrames(s) + data + AckFrames(s) + CloseFrames(s, snd.finAcked)
  }

  /** The stream after that round. */
  ghost function Transmitted(s: Stream, now: nat): Stream
    requires Buffered(s.snd)
  {
    var snd := SendData(s.id, s.snd, now).0;
    s.(needsOpen := false, snd := snd, recvWindow := AdvertisedWindow(s.rcv),
       closeTicks := if s.closeReceived && snd.fin && s.peerFin.None?
                     then Min(s.closeTicks + 1, U32_LIMIT - 1) else s.closeTicks)
  }

  /** The peer's FIN offset is known and everything before it has been read. */
  ghost predicate RecvFinished(s: Stream) {
    s.peerFin.Some? && s.rcv.delivered >= s.peerFin.value && Unread(s.rcv) == 0
  }

  ghost predicate FullyDone(s: Stream) {
    s.snd.fin && ((s.snd.finAcked && RecvFinished(s)) || (s.closeReceived && s.closeTicks >= CLOSE_GRACE_TICKS))
  }

  /** What the poll at tick `now` sends for a stream, what becomes of it, and whether it is reclaimed. */
  ghost function PolledFrames(s: Stream, now: nat): seq<Frame>
    requires Buffered(s.snd)
  {
    if s.reset then [StreamReset(s.id)] else TransmitFrames(s, now)
  }

  ghost function PolledStream(s: Stream, now: nat): Stream
    requires Buffered(s.snd)
  {
    if s.reset then s else Transmitted(s, now)
  }

  ghost predicate Reclaimed(s: Stream, now: nat)
    requires Buffered(s.snd)
  {
    s.reset || FullyDone(PolledStream(s, now))
  }

  // ---------------------------------------------------------------- application calls and frames

  function Write(s: Sender, data: seq<byte>): Sender {
    s.(buf := s.buf + data, next := s.next + |data|)
  }

  function Close(s: Stream, status: int): Stream {
    s.(snd := s.snd.(fin := true), closeStatus := Some(status))
  }

  /** The effect on stream `s` of an incoming frame that carries its id. */
  function OnFrame(s: Stream, f: Frame, now: nat): Stream {
    match f
    case StreamData(_, offset, data, fin) => OnData(s, offset, data, fin)
    case StreamAck(_, ack, window) => s.(snd := OnAck(s.snd, ack, window, now))
    case StreamClose(_, _) => s.(closeReceived := true)
    case StreamReset(_) => s.(reset := true)
    case _ => s
  }
}
