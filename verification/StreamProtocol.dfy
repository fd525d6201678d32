/**
  * Two endpoints of one stream over a network that loses, duplicates and reorders: each side
  * keeps the log of every frame it ever sent, and the peer may be handed any of them, any
  * number of times, in any order.
  */
module StreamProtocol {
  import opened Common
  import opened Wire
  import opened Reassembly
  import opened StreamSpec

  datatype Sent = Sent(tick: nat, frame: Frame)

  /** An endpoint with its mux clock and, as history, its frames and the application's bytes. */
  datatype Side = Side(
    st: Stream,
    now: nat,
    retired: bool,
    out: seq<Sent>,
    written: seq<byte>,
    read: seq<byte>,
    wroteAfterClose: bool,
    lastAck: nat,           // position in the peer's log of the latest acknowledgement taken in
    acksInOrder: bool)

  datatype Action =
    | DoWrite(data: seq<byte>)
    | DoClose(status: int)
    | DoReset
    | DoRead
    | DoPoll
    | Deliver(index: nat)   // hand over the frame at this position of the peer's log

  function NewSide(s: Stream, now: nat): Side { Side(s, now, false, [], [], [], false, 0, true) }

  function Stamp(tick: nat, frames: seq<Frame>): (r: seq<Sent>)
    ensures |r| == |frames| && forall i | 0 <= i < |r| :: r[i] == Sent(tick, frames[i])
  {
    seq(|frames|, i requires 0 <= i < |frames| => Sent(tick, frames[i]))
  }

  /** A poll is what the mux does to a stream at its next tick. */
  ghost function Poll(me: Side): Side
    requires Buffered(me.st.snd)
  {
    var now := me.now + 1;
    me.(st := PolledStream(me.st, now), now := now, out := me.out + Stamp(now, PolledFrames(me.st, now)),
        retired := Reclaimed(me.st, now))
  }

  function Receive(me: Side, f: Frame, index: nat): Side {
    var st := OnFrame(me.st, f, me.now);
    if f.StreamAck?
    then me.(st := st, lastAck := index, acksInOrder := me.acksInOrder && me.lastAck <= index)
    else me.(st := st)
  }

  /** One action of a side; a retired stream does nothing. */
  ghost function Act(me: Side, peer: Side, a: Action): Side
    requires Buffered(me.st.snd)
  {
    if me.retired then me
    else match a
      case DoWrite(data) =>
        me.(st := me.st.(snd := Write(me.st.snd, data)), written := me.written + data,
            wroteAfterClose := me.wroteAfterClose || (me.st.snd.fin && data != []))
      case DoClose(status) => me.(st := Close(me.st, status))
      case DoReset => me.(st := me.st.(reset := true))
      case DoRead =>
        me.(st := me.st.(rcv := Drain(me.st.rcv)), read := me.read + Run(me.st.rcv.held, me.st.rcv.delivered))
      case DoPoll => Poll(me)
      case Deliver(i) => if i < |peer.out| then Receive(me, peer.out[i].frame, i) else me
  }

  function WithSender(s: Side, snd: Sender): Side { s.(st := s.st.(snd := snd)) }

  // ---------------------------------------------------------------- invariants

  /** The send buffer is the unacknowledged tail of what was written. */
  ghost predicate SenderInv(s: Side) {
    var snd := s.st.snd;
    && Buffered(snd) && snd.next == |s.written| && snd.buf == s.written[snd.base..]
    && (snd.finAcked ==> snd.fin && (!s.wroteAfterClose ==> snd.base == snd.next))
  }

  /** A data frame of `s` carries transmitted bytes at their offsets; a FIN marks the end. */
  ghost predicate FrameInv(s: Side, f: Frame) {
    f.StreamData? ==>
      && f.offset + |f.data| <= s.st.snd.high <= |s.written|
      && f.data == s.written[f.offset..f.offset + |f.data|]
      && (f.fin ==> s.st.snd.fin && (!s.wroteAfterClose ==> f.offset + |f.data| == |s.written|))
  }

  ghost predicate OutInv(s: Side) { forall i | 0 <= i < |s.out| :: FrameInv(s, s.out[i].frame) }

  /** What `r` has read and holds is what `s` wrote, byte by byte, and was transmitted. */
  ghost predicate ReceiverInv(s: Side, r: Side) {
    var rcv := r.st.rcv;
    && rcv.delivered <= s.st.snd.high <= |s.written|
    && r.read == s.written[..rcv.delivered]
    && (forall o | o in rcv.held :: rcv.delivered <= o < s.st.snd.high && rcv.held[o] == s.written[o])
    && (r.st.peerFin.Some? ==> s.st.snd.fin && (!s.wroteAfterClose ==> r.st.peerFin.value == |s.written|))
  }

  ghost predicate AckInv(r: Side, f: Frame) { f.StreamAck? ==> f.ack <= AckPoint(r.st.rcv) }

  ghost predicate AcksInv(r: Side) { forall i | 0 <= i < |r.out| :: AckInv(r, r.out[i].frame) }

  /** The direction from `s` to `r`. */
  ghost predicate Dir(s: Side, r: Side) {
    && SenderInv(s) && OutInv(s) && ReceiverInv(s, r) && AcksInv(r)
    && s.st.snd.base <= AckPoint(r.st.rcv)
  }

  /** How a sender may change without disturbing what is already in flight or received. */
  ghost predicate Extends(s: Side, s': Side) {
    && s.written <= s'.written && s.st.snd.high <= s'.st.snd.high <= |s'.written|
    && (s.st.snd.fin ==> s'.st.snd.fin) && (s.wroteAfterClose ==> s'.wroteAfterClose)
    && (s.st.snd.fin && !s'.wroteAfterClose ==> s'.written == s.written)
  }

  lemma ExtendsFrame(s: Side, s': Side, f: Frame)
    requires Extends(s, s') && FrameInv(s, f)
    ensures FrameInv(s', f)
  {
  }

  lemma ExtendsReceiver(s: Side, s': Side, r: Side)
    requires Extends(s, s') && ReceiverInv(s, r)
    ensures ReceiverInv(s', r)
  {
  }

  lemma AckPointBound(s: Side, r: Side)
    requires ReceiverInv(s, r)
    ensures r.st.rcv.delivered <= AckPoint(r.st.rcv) <= s.st.snd.high
  {
    var e := AckPoint(r.st.rcv);
    if e > r.st.rcv.delivered { assert e - 1 in r.st.rcv.held; }
  }

  // ---------------------------------------------------------------- the sender's steps

  /** `f` carries a non-empty piece of `[from, to)`, and FIN only at the end of a closed stream. */
  ghost predicate ChunkOk(f: Frame, id: nat, snd: Sender, from: nat, till: nat, written: seq<byte>) {
    && f.StreamData? && f.id == id
    && from <= f.offset && |f.data| > 0 && f.offset + |f.data| <= till <= |written|
    && f.data == written[f.offset..f.offset + |f.data|]
    && (f.fin ==> snd.fin && f.offset + |f.data| == snd.next)
  }

  lemma {:induction false} ChunksCarry(id: nat, snd: Sender, from: nat, till: nat, written: seq<byte>, i: nat)
    requires Buffered(snd) && snd.next == |written| && snd.buf == written[snd.base..]
    requires snd.base <= from <= till <= snd.next && i < |Chunks(id, snd, from, till)|
    ensures ChunkOk(Chunks(id, snd, from, till)[i], id, snd, from, till, written)
    decreases till - from
  {
    var end := Min(from + MAX_STREAM_CHUNK, till);
    if i == 0 {
      assert snd.buf[from - snd.base..end - snd.base] == written[from..end];
    } else {
      ChunksCarry(id, snd, end, till, written, i - 1);
    }
  }

  /** The data frames of a transmit round are accounted for by the sender's new state. */
  lemma SendDataInv(s: Side, now: nat, snd: Sender, frames: seq<Frame>)
    requires SenderInv(s) && (snd, frames) == SendData(s.st.id, s.st.snd, now)
    ensures Extends(s, WithSender(s, snd)) && SenderInv(WithSender(s, snd))
    ensures snd.base == s.st.snd.base
    ensures forall i | 0 <= i < |frames| :: frames[i].StreamData? && FrameInv(WithSender(s, snd), frames[i])
  {
    var prev := s.st.snd;
    forall i | 0 <= i < |frames|
      ensures frames[i].StreamData? && FrameInv(WithSender(s, snd), frames[i])
    {
      if prev.high < SendEnd(prev) {
        ChunksCarry(s.st.id, prev, prev.high, SendEnd(prev), s.written, i);
      } else if prev.base < prev.high {
        ChunksCarry(s.st.id, prev, prev.base, prev.high, s.written, i);
      }
    }
  }

  /** Taking in an acknowledgement that is not ahead of the receiver. */
  lemma OnAckInv(s: Side, ack: nat, window: nat, snd: Sender)
    requires SenderInv(s) && ack <= s.st.snd.high && snd == OnAck(s.st.snd, ack, window, s.now)
    ensures Extends(s, WithSender(s, snd)) && SenderInv(WithSender(s, snd))
    ensures snd.base == Max(s.st.snd.base, ack) && snd.high == s.st.snd.high
  {
    var base := s.st.snd.base;
    if ack > base {
      assert s.st.snd.buf[ack - base..] == s.written[ack..];
    }
  }

  lemma {:induction false} ChunksAreData(id: nat, snd: Sender, from: nat, till: nat)
    requires snd.base <= from <= till <= snd.base + |snd.buf|
    ensures forall f | f in Chunks(id, snd, from, till) :: f.StreamData?
    decreases till - from
  {
    if from < till { ChunksAreData(id, snd, Min(from + MAX_STREAM_CHUNK, till), till); }
  }

  /** What a round emits: the data frames of `SendData`, acknowledgements of the ack point, and no other data. */
  lemma RoundFrames(s: Stream, now: nat, f: Frame)
    requires Buffered(s.snd) && f in TransmitFrames(s, now)
    ensures f.StreamData? ==> f in SendData(s.id, s.snd, now).1
    ensures f.StreamAck? ==> f.ack == AckPoint(s.rcv) && f.window == AdvertisedWindow(s.rcv)
  {
    var snd := s.snd;
    ChunksAreData(s.id, snd, snd.base, snd.high);
    if snd.high < SendEnd(snd) { ChunksAreData(s.id, snd, snd.high, SendEnd(snd)); }
  }

  /** Only the send state and the written bytes matter to a frame. */
  lemma SameSender(s: Side, s': Side, f: Frame)
    requires s.st.snd == s'.st.snd && s.written == s'.written && s.wroteAfterClose == s'.wroteAfterClose
    requires FrameInv(s, f)
    ensures FrameInv(s', f)
  {
  }

  lemma SenderTransmit(s: Side, s': Side, f: Frame)
    requires SenderInv(s) && !s.st.reset && s' == Poll(s)
    ensures Extends(s, s') && SenderInv(s') && s'.st.snd.base == s.st.snd.base
    ensures f in PolledFrames(s.st, s.now + 1) ==> FrameInv(s', f)
  {
    var (snd, data) := SendData(s.st.id, s.st.snd, s.now + 1);
    var mid := WithSender(s, snd);
    SendDataInv(s, s.now + 1, snd, data);
    assert s'.st.snd == snd;
    if f in PolledFrames(s.st, s.now + 1) {
      RoundFrames(s.st, s.now + 1, f);
      assert FrameInv(mid, f);
      SameSender(mid, s', f);
    }
  }

  lemma SenderPoll(s: Side, r: Side)
    requires Dir(s, r)
    ensures Dir(Poll(s), r)
  {
    var s', frames := Poll(s), PolledFrames(s.st, s.now + 1);
    if s.st.reset {
      assert s'.st == s.st && s'.written == s.written && s'.wroteAfterClose == s.wroteAfterClose;
    } else {
      SenderTransmit(s, s', StreamReset(0));
      forall f | f in frames ensures FrameInv(s', f) { SenderTransmit(s, s', f); }
    }
    SenderGrows(s, s', r, frames);
  }

  /** A step of the sender that adds frames it accounts for, and keeps or extends what the receiver relies on. */
  lemma SenderGrows(s: Side, s': Side, r: Side, frames: seq<Frame>)
    requires Dir(s, r) && Extends(s, s') && SenderInv(s')
    requires s'.out == s.out + Stamp(s'.now, frames) && forall f | f in frames :: FrameInv(s', f)
    requires s'.st.snd.base <= AckPoint(r.st.rcv)
    ensures Dir(s', r)
  {
    ExtendsReceiver(s, s', r);
    forall i | 0 <= i < |s'.out| ensures FrameInv(s', s'.out[i].frame) {
      if i < |s.out| {
        ExtendsFrame(s, s', s.out[i].frame);
      } else {
        assert s'.out[i].frame == frames[i - |s.out|];
      }
    }
  }

  /** A step of the sender that keeps its log, and keeps or extends what the receiver relies on. */
  lemma SenderQuiet(s: Side, s': Side, r: Side)
    requires Dir(s, r) && Extends(s, s') && SenderInv(s') && s'.out == s.out
    requires s'.st.snd.base <= AckPoint(r.st.rcv)
    ensures Dir(s', r)
  {
    ExtendsReceiver(s, s', r);
    forall i | 0 <= i < |s'.out| ensures FrameInv(s', s'.out[i].frame) {
      ExtendsFrame(s, s', s.out[i].frame);
    }
  }

  lemma SenderAck(s: Side, r: Side, i: nat)
    requires Dir(s, r) && i < |r.out| && r.out[i].frame.StreamAck?
    ensures Dir(Receive(s, r.out[i].frame, i), r)
  {
    var f, s' := r.out[i].frame, Receive(s, r.out[i].frame, i);
    assert AckInv(r, f);
    AckPointBound(s, r);
    OnAckInv(s, f.ack, f.window, s'.st.snd);
    SenderQuiet(s, s', r);
  }

  /** A step that leaves the send state alone, save that it may close it. */
  lemma SenderIdle(s: Side, s': Side, r: Side)
    requires Dir(s, r) && s'.out == s.out && s'.written == s.written && s'.wroteAfterClose == s.wroteAfterClose
    requires s'.st.snd == s.st.snd || s'.st.snd == s.st.snd.(fin := true)
    ensures Dir(s', r)
  {
    SenderQuiet(s, s', r);
  }

  lemma SenderWrite(s: Side, r: Side, data: seq<byte>)
    requires Dir(s, r) && !s.retired
    ensures Dir(Act(s, r, DoWrite(data)), r)
  {
    var s' := Act(s, r, DoWrite(data));
    assert s'.written[s.st.snd.base..] == s.st.snd.buf + data;
    SenderQuiet(s, s', r);
  }

  lemma SenderStep(s: Side, r: Side, a: Action)
    requires Dir(s, r)
    ensures Dir(Act(s, r, a), r)
  {
    if !s.retired {
      if a.DoPoll? {
        SenderPoll(s, r);
      } else if a.Deliver? && a.index < |r.out| && r.out[a.index].frame.StreamAck? {
        SenderAck(s, r, a.index);
      } else if a.DoWrite? {
        SenderWrite(s, r, a.data);
      } else {
        SenderIdle(s, Act(s, r, a), r);
      }
    }
  }

  // ---------------------------------------------------------------- the receiver's steps

  /** Overlaying bytes the sender wrote keeps the receiver right, and the ack point never moves back. */
  lemma InsertInv(s: Side, r: Side, f: Frame, rcv: Receiver)
    requires ReceiverInv(s, r) && f.StreamData? && FrameInv(s, f)
    requires rcv == Insert(r.st.rcv, f.offset, f.data)
    ensures ReceiverInv(s, r.(st := r.st.(rcv := rcv)))
    ensures AckPoint(rcv) >= AckPoint(r.st.rcv)
  {
    var held, d := r.st.rcv.held, r.st.rcv.delivered;
    forall o | o in rcv.held ensures d <= o < s.st.snd.high && rcv.held[o] == s.written[o] {
      OverlayAt(held, d, f.offset, f.data, o);
    }
    forall o | o in held ensures o in rcv.held { OverlayAt(held, d, f.offset, f.data, o); }
    assert AckPoint(rcv) < AckPoint(r.st.rcv) ==> AckPoint(rcv) in held;
  }

  lemma DrainAckPoint(rcv: Receiver)
    ensures AckPoint(Drain(rcv)) == AckPoint(rcv)
  {
    RunEndUnique(Drain(rcv).held, AckPoint(rcv), AckPoint(rcv));
  }

  lemma DrainInv(s: Side, r: Side, r': Side)
    requires ReceiverInv(s, r)
    requires r' == r.(st := r.st.(rcv := Drain(r.st.rcv)), read := r.read + Run(r.st.rcv.held, r.st.rcv.delivered))
    ensures ReceiverInv(s, r')
  {
    AckPointBound(s, r);
    var d, e := r.st.rcv.delivered, AckPoint(r.st.rcv);
    assert Run(r.st.rcv.held, d) == s.written[d..e];
    assert r'.read == s.written[..e];
  }

  /** A step that leaves the receive state alone and adds acknowledgements no further than the ack point. */
  lemma ReceiverGrows(s: Side, r: Side, r': Side, frames: seq<Frame>)
    requires Dir(s, r) && r'.st.rcv == r.st.rcv && r'.st.peerFin == r.st.peerFin && r'.read == r.read
    requires r'.out == r.out + Stamp(r'.now, frames) && forall f | f in frames :: AckInv(r, f)
    ensures Dir(s, r')
  {
    forall i | 0 <= i < |r'.out| ensures AckInv(r', r'.out[i].frame) {
      var f := r'.out[i].frame;
      if i < |r.out| {
        assert AckInv(r, r.out[i].frame);
      } else {
        assert f == frames[i - |r.out|] && f in frames && AckInv(r, f);
      }
    }
  }

  lemma ReceiverPoll(s: Side, r: Side)
    requires Dir(s, r) && Buffered(r.st.snd)
    ensures Dir(s, Poll(r))
  {
    forall f | f in PolledFrames(r.st, r.now + 1) ensures AckInv(r, f) {
      if !r.st.reset { RoundFrames(r.st, r.now + 1, f); }
    }
    ReceiverGrows(s, r, Poll(r), PolledFrames(r.st, r.now + 1));
  }

  /** A step of the receiver that keeps its log and does not move the ack point back. */
  lemma ReceiverQuiet(s: Side, r: Side, r': Side)
    requires Dir(s, r) && ReceiverInv(s, r') && r'.out == r.out
    requires AckPoint(r'.st.rcv) >= AckPoint(r.st.rcv)
    ensures Dir(s, r')
  {
    forall i | 0 <= i < |r'.out| ensures AckInv(r', r'.out[i].frame) { assert AckInv(r, r.out[i].frame); }
  }

  lemma ReceiverData(s: Side, r: Side, i: nat)
    requires Dir(s, r) && i < |s.out| && s.out[i].frame.StreamData?
    ensures Dir(s, Receive(r, s.out[i].frame, i))
  {
    var f, r' := s.out[i].frame, Receive(r, s.out[i].frame, i);
    assert FrameInv(s, f);
    if Accepts(r.st.rcv, f.offset, f.data) {
      InsertInv(s, r, f, r'.st.rcv);
      ReceiverQuiet(s, r, r');
    }
  }

  lemma ReceiverRead(s: Side, r: Side)
    requires Dir(s, r) && Buffered(r.st.snd) && !r.retired
    ensures Dir(s, Act(r, s, DoRead))
  {
    DrainAckPoint(r.st.rcv);
    DrainInv(s, r, Act(r, s, DoRead));
    ReceiverQuiet(s, r, Act(r, s, DoRead));
  }

  lemma ReceiverStep(s: Side, r: Side, a: Action)
    requires Dir(s, r) && Buffered(r.st.snd)
    ensures Dir(s, Act(r, s, a))
  {
    if !r.retired {
      if a.DoPoll? {
        ReceiverPoll(s, r);
      } else if a.DoRead? {
        ReceiverRead(s, r);
      } else if a.Deliver? && a.index < |s.out| && s.out[a.index].frame.StreamData? {
        ReceiverData(s, r, a.index);
      } else {
        var r' := Act(r, s, a);
        assert r'.st.rcv == r.st.rcv && r'.st.peerFin == r.st.peerFin && r'.read == r.read && r'.out == r.out;
        ReceiverGrows(s, r, r', []);
      }
    }
  }

  // ---------------------------------------------------------------- runs

  datatype Link = Link(a: Side, b: Side)

  datatype Who = A | B

  datatype Event = Event(who: Who, action: Action)

  ghost predicate Inv(l: Link) { Dir(l.a, l.b) && Dir(l.b, l.a) }

  ghost function Step(l: Link, e: Event): Link
    requires Inv(l)
  {
    if e.who.A? then l.(a := Act(l.a, l.b, e.action)) else l.(b := Act(l.b, l.a, e.action))
  }

  lemma StepInv(l: Link, e: Event)
    requires Inv(l)
    ensures Inv(Step(l, e))
  {
    if e.who.A? {
      SenderStep(l.a, l.b, e.action);
      ReceiverStep(l.b, l.a, e.action);
    } else {
      SenderStep(l.b, l.a, e.action);
      ReceiverStep(l.a, l.b, e.action);
    }
  }

  /** Where a run of arbitrary events leads. */
  ghost function RunLink(l: Link, events: seq<Event>): (r: Link)
    requires Inv(l)
    ensures Inv(r)
    decreases |events|
  {
    if events == [] then l
    else
      StepInv(l, events[0]);
      RunLink(Step(l, events[0]), events[1..])
  }
}
