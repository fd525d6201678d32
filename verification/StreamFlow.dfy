/**
  * Flow control: what a receiver buffers against any peer, and what two honest endpoints
  * keep to as long as acknowledgements are taken in the order they were sent.
  */
module StreamFlow {
  import opened Common
  import opened Wire
  import opened Reassembly
  import opened StreamSpec
  import opened StreamProtocol
  import opened StreamSafety

  // ---------------------------------------------------------------- against any peer

  datatype RecvOp = Arrive(frame: Frame) | ReadOut

  /** One thing that can happen to the receive half of a stream. */
  ghost function RecvStep(s: Stream, op: RecvOp, now: nat): Stream {
    match op
    case Arrive(f) => OnFrame(s, f, now)
    case ReadOut => s.(rcv := Drain(s.rcv))
  }

  ghost function RecvRun(s: Stream, ops: seq<RecvOp>, now: nat): Stream {
    if ops == [] then s else RecvStep(RecvRun(s, ops[..|ops| - 1], now), ops[|ops| - 1], now)
  }

  /** Payloads are at most `largest` bytes. */
  predicate PayloadsWithin(ops: seq<RecvOp>, largest: nat) {
    forall i | 0 <= i < |ops| :: ops[i].Arrive? && ops[i].frame.StreamData? ==> |ops[i].frame.data| <= largest
  }

  ghost predicate WithinWindow(r: Receiver, largest: nat) {
    forall o | o in r.held :: r.delivered <= o < r.delivered + DEFAULT_WINDOW + largest
  }

  lemma StepWithinWindow(s: Stream, op: RecvOp, now: nat, largest: nat)
    requires WithinWindow(s.rcv, largest)
    requires op.Arrive? && op.frame.StreamData? ==> |op.frame.data| <= largest
    ensures WithinWindow(RecvStep(s, op, now).rcv, largest)
  {
    if op.Arrive? && op.frame.StreamData? {
      var r, f := s.rcv, op.frame;
      var r' := RecvStep(s, op, now).rcv;
      forall o | o in r'.held ensures r'.delivered <= o < r'.delivered + DEFAULT_WINDOW + largest {
        if Accepts(r, f.offset, f.data) { OverlayAt(r.held, r.delivered, f.offset, f.data, o); }
      }
    }
  }

  lemma {:induction false} RunWithinWindow(s: Stream, ops: seq<RecvOp>, now: nat, largest: nat)
    requires WithinWindow(s.rcv, largest) && PayloadsWithin(ops, largest)
    ensures WithinWindow(RecvRun(s, ops, now).rcv, largest)
  {
    if ops != [] {
      var n := |ops| - 1;
      RunWithinWindow(s, ops[..n], now, largest);
      StepWithinWindow(RecvRun(s, ops[..n], now), ops[n], now, largest);
    }
  }

  lemma {:induction false} SizeWithin(keys: set<int>, lo: int, n: nat)
    requires forall o | o in keys :: lo <= o < lo + n
    ensures |keys| <= n
    decreases n
  {
    if n == 0 {
      assert forall o :: o !in keys;
    } else {
      var last := lo + n - 1;
      SizeWithin(keys - {last}, lo, n - 1);
      assert last in keys ==> keys == (keys - {last}) + {last};
      assert last !in keys ==> keys == keys - {last};
    }
  }

  /** Whatever frames a peer sends, a stream never buffers more than its window plus the largest payload. */
  lemma BufferBounded(id: nat, kind: StreamKind, meta: seq<byte>, needsOpen: bool, ops: seq<RecvOp>, now: nat, largest: nat)
    requires PayloadsWithin(ops, largest)
    ensures |RecvRun(NewStream(id, kind, meta, needsOpen), ops, now).rcv.held| <= DEFAULT_WINDOW + largest
  {
    var s := NewStream(id, kind, meta, needsOpen);
    RunWithinWindow(s, ops, now, largest);
    var r := RecvRun(s, ops, now).rcv;
    SizeWithin(r.held.Keys, r.delivered, DEFAULT_WINDOW + largest);
  }

  // ---------------------------------------------------------------- two honest endpoints

  /** Acknowledgements appear in a side's log in ascending order. */
  ghost predicate AcksAscend(out: seq<Sent>) {
    forall i, j | 0 <= i <= j < |out| && out[i].frame.StreamAck? && out[j].frame.StreamAck? ::
      out[i].frame.ack <= out[j].frame.ack
  }

  /** No advertisement reaches beyond what has been read plus one window. */
  ghost predicate AdvertsWithin(out: seq<Sent>, limit: nat) {
    forall i | 0 <= i < |out| && out[i].frame.StreamAck? :: out[i].frame.ack + out[i].frame.window <= limit
  }

  /** Acknowledgements from position `from` on are not behind `base`. */
  ghost predicate AcksFrom(out: seq<Sent>, from: nat, base: nat) {
    forall i | from <= i < |out| && out[i].frame.StreamAck? :: base <= out[i].frame.ack
  }

  ghost predicate FlowDir(s: Side, r: Side) {
    AcksAscend(r.out) &&
    (s.acksInOrder ==>
      var limit := r.st.rcv.delivered + DEFAULT_WINDOW;
      && s.st.snd.base + s.st.snd.peerWindow <= limit
      && s.st.snd.high <= limit
      && AdvertsWithin(r.out, limit)
      && AcksFrom(r.out, s.lastAck, s.st.snd.base))
  }

  lemma UnreadWithin(s: Side, r: Side)
    requires Dir(s, r) && FlowDir(s, r) && s.acksInOrder
    ensures Unread(r.st.rcv) <= DEFAULT_WINDOW
  {
    AckPointBound(s, r);
  }

  /** The sender's own steps keep within the limit; the receiver does not move. */
  lemma SenderPollFlow(s: Side, r: Side)
    requires Dir(s, r) && FlowDir(s, r)
    ensures FlowDir(Poll(s), r)
  {
    var s' := Poll(s);
    assert s'.st.snd.base == s.st.snd.base && s'.st.snd.peerWindow == s.st.snd.peerWindow;
    assert s'.st.snd.high <= Max(s.st.snd.high, s.st.snd.base + s.st.snd.peerWindow);
  }

  lemma SenderAckFlow(s: Side, r: Side, i: nat)
    requires Dir(s, r) && FlowDir(s, r) && i < |r.out| && r.out[i].frame.StreamAck?
    ensures FlowDir(Receive(s, r.out[i].frame, i), r)
  {
    var f, s' := r.out[i].frame, Receive(s, r.out[i].frame, i);
    assert AckInv(r, f);
    AckPointBound(s, r);
    OnAckInv(s, f.ack, f.window, s'.st.snd);
    assert s'.st.snd.peerWindow == f.window;
  }

  lemma SenderFlow(s: Side, r: Side, a: Action)
    requires Dir(s, r) && FlowDir(s, r)
    ensures FlowDir(Act(s, r, a), r)
  {
    if !s.retired {
      if a.DoPoll? {
        SenderPollFlow(s, r);
      } else if a.Deliver? && a.index < |r.out| && r.out[a.index].frame.StreamAck? {
        SenderAckFlow(s, r, a.index);
      }
    }
  }

  /** The receiver's steps: reading raises the limit, polling advertises within it. */
  lemma ReceiverPollFlow(s: Side, r: Side)
    requires Dir(s, r) && FlowDir(s, r) && Buffered(r.st.snd)
    ensures FlowDir(s, Poll(r))
  {
    var frames := PolledFrames(r.st, r.now + 1);
    forall f | f in frames && f.StreamAck? ensures f.ack == AckPoint(r.st.rcv) && f.window == AdvertisedWindow(r.st.rcv) {
      RoundFrames(r.st, r.now + 1, f);
    }
    if s.acksInOrder { UnreadWithin(s, r); }
    LogGrowsFlow(s, r, Poll(r), frames);
  }

  lemma LogGrowsFlow(s: Side, r: Side, r': Side, frames: seq<Frame>)
    requires Dir(s, r) && FlowDir(s, r) && (s.acksInOrder ==> Unread(r.st.rcv) <= DEFAULT_WINDOW)
    requires r'.out == r.out + Stamp(r'.now, frames) && r'.st.rcv == r.st.rcv
    requires forall f | f in frames && f.StreamAck? ::
      f.ack == AckPoint(r.st.rcv) && f.window == AdvertisedWindow(r.st.rcv)
    ensures FlowDir(s, r')
  {
    var n := |r.out|;
    forall i | n <= i < |r'.out| && r'.out[i].frame.StreamAck?
      ensures r'.out[i].frame.ack == AckPoint(r.st.rcv) && r'.out[i].frame.window == AdvertisedWindow(r.st.rcv)
    {
      assert r'.out[i].frame == frames[i - n];
    }
    forall i | 0 <= i < n && r'.out[i].frame.StreamAck? ensures r'.out[i].frame.ack <= AckPoint(r.st.rcv) {
      assert AckInv(r, r.out[i].frame);
    }
  }

  lemma ReceiverFlow(s: Side, r: Side, a: Action)
    requires Dir(s, r) && FlowDir(s, r) && Buffered(r.st.snd)
    ensures FlowDir(s, Act(r, s, a))
  {
    if !r.retired {
      if a.DoPoll? {
        ReceiverPollFlow(s, r);
      } else {
        assert Act(r, s, a).out == r.out && Act(r, s, a).st.rcv.delivered >= r.st.rcv.delivered;
      }
    }
  }

  ghost predicate FlowInv(l: Link) { FlowDir(l.a, l.b) && FlowDir(l.b, l.a) }

  lemma StepFlow(l: Link, e: Event)
    requires Inv(l) && FlowInv(l)
    ensures FlowInv(Step(l, e))
  {
    if e.who.A? {
      SenderFlow(l.a, l.b, e.action);
      ReceiverFlow(l.b, l.a, e.action);
    } else {
      SenderFlow(l.b, l.a, e.action);
      ReceiverFlow(l.a, l.b, e.action);
    }
  }

  lemma {:induction false} RunFlow(l: Link, events: seq<Event>)
    requires Inv(l) && FlowInv(l)
    ensures FlowInv(RunLink(l, events))
    decreases |events|
  {
    if events != [] {
      StepFlow(l, events[0]);
      StepInv(l, events[0]);
      RunFlow(Step(l, events[0]), events[1..]);
    }
  }

  /**
    * As long as side `a` took in its acknowledgements in the order they were sent (any may be
    * lost or repeated), the peer never has more than a window of unread bytes, and no data
    * frame `a` ever sent falls outside the peer's receive window.
    */
  lemma WindowRespected(l: Link, i: nat)
    requires Reachable(l) && l.a.acksInOrder
    ensures Unread(l.b.st.rcv) <= DEFAULT_WINDOW
    ensures i < |l.a.out| && l.a.out[i].frame.StreamData? && |l.a.written| < U64_LIMIT ==>
            Accepts(l.b.st.rcv, l.a.out[i].frame.offset, l.a.out[i].frame.data)
  {
    var c, events :| IsRun(c, events, l);
    InitInv(c);
    RunFlow(Init(c), events);
    ReachableInv(l);
    UnreadWithin(l.a, l.b);
    if i < |l.a.out| { assert FrameInv(l.a, l.a.out[i].frame); }
  }
}
