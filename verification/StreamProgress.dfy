/**
  * Bounded progress: from any reachable state of an open stream, rounds in which both sides
  * poll, the frames of that round all arrive, and both applications read, deliver every
  * written byte, whatever was lost before.
  */
module StreamProgress {
  import opened Common
  import opened Wire
  import opened Reassembly
  import opened StreamSpec
  import opened StreamProtocol
  import opened StreamSafety
  import opened StreamTimers
  import opened Iteration

  // ---------------------------------------------------------------- rounds

  /** Hand `me` the peer's frames at positions `from` to `till`, in order. */
  ghost function DeliverRange(me: Side, peer: Side, from: nat, till: nat): (r: Side)
    requires Inv(Link(me, peer))
    ensures Inv(Link(r, peer))
    decreases till - from
  {
    if from >= till then me
    else
      StepInv(Link(me, peer), Event(A, Deliver(from)));
      DeliverRange(Act(me, peer, Deliver(from)), peer, from + 1, till)
  }

  ghost function PollBoth(l: Link): (r: Link)
    requires Inv(l)
    ensures Inv(r)
  {
    StepInv(l, Event(A, DoPoll));
    var l1 := Step(l, Event(A, DoPoll));
    StepInv(l1, Event(B, DoPoll));
    Step(l1, Event(B, DoPoll))
  }

  /** The frames of both polls arrive, first at `b`, then at `a`; `l` is the link before the polls. */
  ghost function Exchange(l: Link, polled: Link): (r: Link)
    requires Inv(polled)
    ensures Inv(r)
  {
    var b := DeliverRange(Flip(polled).a, polled.a, |l.a.out|, |polled.a.out|);
    var a := DeliverRange(polled.a, b, |l.b.out|, |b.out|);
    Link(a, b)
  }

  ghost function Flip(l: Link): (r: Link)
    requires Inv(l)
    ensures Inv(r)
  {
    Link(l.b, l.a)
  }

  ghost function ReadBoth(l: Link): (r: Link)
    requires Inv(l)
    ensures Inv(r)
  {
    StepInv(l, Event(A, DoRead));
    var l1 := Step(l, Event(A, DoRead));
    StepInv(l1, Event(B, DoRead));
    Step(l1, Event(B, DoRead))
  }

  ghost function Round(l: Link): (r: Link)
    ensures Inv(l) ==> Inv(r)
  {
    if Inv(l) then ReadBoth(Exchange(l, PollBoth(l))) else l
  }

  /** The link after `n` rounds. */
  ghost function Rounds(l: Link, n: nat): Link { Iterate(Round, l, n) }

  // ---------------------------------------------------------------- open streams

  /** Live, neither reset nor closed. */
  ghost predicate Open(s: Side) { !s.retired && !s.st.reset && !s.st.snd.fin }

  lemma PollOpen(s: Side, peer: Side)
    requires Buffered(s.st.snd) && Open(s)
    ensures var p := Act(s, peer, DoPoll);
            && Open(p) && p == Poll(s) && p.st.rcv == s.st.rcv && p.now == s.now + 1
            && p.written == s.written && p.read == s.read
            && p.st.snd == SendData(s.st.id, s.st.snd, s.now + 1).0
            && p.out == s.out + Stamp(s.now + 1, TransmitFrames(s.st, s.now + 1))
  {
    var p := Poll(s);
    assert Act(s, peer, DoPoll) == p;
    assert p.st == Transmitted(s.st, s.now + 1);
    assert SendData(s.st.id, s.st.snd, s.now + 1).0.fin == s.st.snd.fin;
    assert Open(p);
  }

  /** What a range of deliveries may contain when the peer is live. */
  ghost predicate NoResets(out: seq<Sent>, from: nat, till: nat) {
    till <= |out| && forall i | from <= i < till :: !out[i].frame.StreamReset?
  }

  lemma SendsOnlyData(id: nat, s: Sender, now: nat)
    requires Buffered(s)
    ensures forall f | f in SendData(id, s, now).1 :: f.StreamData?
  {
    ChunksAreData(id, s, s.base, s.high);
    if s.high < SendEnd(s) { ChunksAreData(id, s, s.high, SendEnd(s)); }
  }

  /** In `a + data + [ack] + d`, where nothing else acknowledges or resets. */
  lemma SoleAck(a: seq<Frame>, data: seq<Frame>, ack: Frame, d: seq<Frame>, i: nat)
    requires ack.StreamAck? && forall f | f in a || f in data || f in d :: !f.StreamAck? && !f.StreamReset?
    requires i < |a + data + [ack] + d|
    ensures !(a + data + [ack] + d)[i].StreamReset?
    ensures (a + data + [ack] + d)[i].StreamAck? <==> i == |a| + |data|
    ensures i == |a| + |data| ==> (a + data + [ack] + d)[i] == ack
  {
    var all := a + data + [ack] + d;
    if i < |a| { assert all[i] in a; }
    else if i < |a| + |data| { assert all[i] in data; }
    else if i > |a| + |data| { assert all[i] in d; }
  }

  lemma TransmitOneAck(st: Stream, now: nat, frames: seq<Frame>) returns (q: nat)
    requires Buffered(st.snd) && frames == TransmitFrames(st, now)
    ensures q < |frames| && frames[q] == StreamAck(st.id, AckPoint(st.rcv), AdvertisedWindow(st.rcv))
    ensures forall i | 0 <= i < |frames| :: !frames[i].StreamReset? && (frames[i].StreamAck? ==> i == q)
  {
    var (snd, data) := SendData(st.id, st.snd, now);
    SendsOnlyData(st.id, st.snd, now);
    q := |OpenFrames(st)| + |data|;
    var ack, close := AckFrames(st)[0], CloseFrames(st, snd.finAcked);
    assert frames == OpenFrames(st) + data + [ack] + close;
    SoleAck(OpenFrames(st), data, ack, close, q);
    forall i | 0 <= i < |frames| ensures !frames[i].StreamReset? && (frames[i].StreamAck? ==> i == q) {
      SoleAck(OpenFrames(st), data, ack, close, i);
    }
  }

  lemma StampedLog(out: seq<Sent>, tick: nat, frames: seq<Frame>, log: seq<Sent>, i: nat)
    requires log == out + Stamp(tick, frames) && |out| <= i < |log|
    ensures i - |out| < |frames| && log[i].frame == frames[i - |out|]
  {
  }

  /** The frames of a poll: one acknowledgement, and no reset. */
  lemma FreshFrames(s: Side, log: seq<Sent>) returns (p: nat)
    requires Buffered(s.st.snd) && log == s.out + Stamp(s.now + 1, TransmitFrames(s.st, s.now + 1))
    ensures |s.out| <= p < |log|
    ensures log[p].frame == StreamAck(s.st.id, AckPoint(s.st.rcv), AdvertisedWindow(s.st.rcv))
    ensures forall i | |s.out| <= i < |log| && i != p :: !log[i].frame.StreamAck?
    ensures NoResets(log, |s.out|, |log|)
  {
    var frames := TransmitFrames(s.st, s.now + 1);
    var q := TransmitOneAck(s.st, s.now + 1, frames);
    p := |s.out| + q;
    forall i | |s.out| <= i < |log| ensures log[i].frame == frames[i - |s.out|] {
      StampedLog(s.out, s.now + 1, frames, log, i);
    }
  }

  // ---------------------------------------------------------------- deliveries

  /** What deliveries leave alone. */
  ghost predicate SameButReceived(me: Side, r: Side) {
    && Open(r) && r.out == me.out && r.now == me.now && r.written == me.written && r.read == me.read
    && r.st.id == me.st.id && r.st.rcv.delivered == me.st.rcv.delivered
  }

  /** Once `f` was handed to a stream whose receiver was `before`, the bytes it accepts are held. */
  ghost predicate TakenIn(f: Frame, before: Receiver, after: Receiver) {
    f.StreamData? && Accepts(before, f.offset, f.data) ==>
      forall o | Carries(f, o) && before.delivered <= o :: o in after.held
  }

  ghost predicate StillHeld(before: Receiver, after: Receiver) { forall o | o in before.held :: o in after.held }

  lemma DeliverOne(me: Side, peer: Side, i: nat, r: Side)
    requires Buffered(me.st.snd) && Open(me) && i < |peer.out| && !peer.out[i].frame.StreamReset?
    requires r == Act(me, peer, Deliver(i))
    ensures SameButReceived(me, r) && StillHeld(me.st.rcv, r.st.rcv) && TakenIn(peer.out[i].frame, me.st.rcv, r.st.rcv)
    ensures !peer.out[i].frame.StreamAck? ==> r.st.snd == me.st.snd
    ensures peer.out[i].frame.StreamAck? ==>
            r.st.snd == OnAck(me.st.snd, peer.out[i].frame.ack, peer.out[i].frame.window, me.now)
  {
    var f := peer.out[i].frame;
    if f.StreamData? && Accepts(me.st.rcv, f.offset, f.data) {
      assert r.st.rcv == Insert(me.st.rcv, f.offset, f.data);
      InsertHolds(me.st.rcv, f);
    }
    if f.StreamAck? { AckKeepsFin(me.st.snd, f.ack, f.window, me.now); }
  }

  lemma AckKeepsFin(s: Sender, ack: nat, window: nat, now: nat)
    ensures OnAck(s, ack, window, now).fin == s.fin
  {
  }

  lemma InsertHolds(r: Receiver, f: Frame)
    requires f.StreamData?
    ensures forall o | o in r.held :: o in Insert(r, f.offset, f.data).held
    ensures forall o | Carries(f, o) && r.delivered <= o :: o in Insert(r, f.offset, f.data).held
  {
    forall o | o in r.held || (Carries(f, o) && r.delivered <= o) ensures o in Insert(r, f.offset, f.data).held {
      OverlayAt(r.held, r.delivered, f.offset, f.data, o);
    }
  }

  ghost predicate RangeTaken(out: seq<Sent>, from: nat, till: nat, before: Receiver, after: Receiver) {
    till <= |out| && forall i | from <= i < till :: TakenIn(out[i].frame, before, after)
  }

  lemma RangeTakenCons(out: seq<Sent>, from: nat, till: nat, before: Receiver, mid: Receiver, after: Receiver)
    requires from < till && RangeTaken(out, from + 1, till, mid, after) && StillHeld(mid, after)
    requires TakenIn(out[from].frame, before, mid) && mid.delivered == before.delivered
    ensures RangeTaken(out, from, till, before, after)
  {
    forall i | from <= i < till ensures TakenIn(out[i].frame, before, after) {
      if i > from { assert TakenIn(out[i].frame, mid, after); }
    }
  }

  lemma {:induction false} DeliverAll(me: Side, peer: Side, from: nat, till: nat, r: Side)
    requires Inv(Link(me, peer)) && Open(me) && NoResets(peer.out, from, till)
    requires r == DeliverRange(me, peer, from, till)
    ensures SameButReceived(me, r) && StillHeld(me.st.rcv, r.st.rcv)
    ensures RangeTaken(peer.out, from, till, me.st.rcv, r.st.rcv)
    decreases till - from
  {
    if from < till {
      var m := Act(me, peer, Deliver(from));
      DeliverOne(me, peer, from, m);
      StepInv(Link(me, peer), Event(A, Deliver(from)));
      DeliverAll(m, peer, from + 1, till, r);
      RangeTakenCons(peer.out, from, till, me.st.rcv, m.st.rcv, r.st.rcv);
    }
  }

  /** Among deliveries with one acknowledgement, at `p`, the send state sees just that one. */
  lemma {:induction false} DeliverAck(me: Side, peer: Side, from: nat, till: nat, p: nat)
    requires Inv(Link(me, peer)) && Open(me) && NoResets(peer.out, from, till)
    requires p < till && peer.out[p].frame.StreamAck?
    requires forall i | from <= i < till && i != p :: !peer.out[i].frame.StreamAck?
    ensures DeliverRange(me, peer, from, till).st.snd ==
            if from <= p then OnAck(me.st.snd, peer.out[p].frame.ack, peer.out[p].frame.window, me.now) else me.st.snd
    decreases till - from
  {
    if from < till {
      var m := Act(me, peer, Deliver(from));
      DeliverOne(me, peer, from, m);
      StepInv(Link(me, peer), Event(A, Deliver(from)));
      DeliverAck(m, peer, from + 1, till, p);
    }
  }

  // ---------------------------------------------------------------- what a round does

  ghost predicate Drained(r: Receiver) { r.delivered == AckPoint(r) }

  /** The direction from `a` to `b` across a round in which the sender's transmission leaves `snd1`. */
  ghost predicate RoundFacts(l: Link, r: Link, snd1: Sender) {
    && Open(r.a) && Open(r.b) && r.a.now == l.a.now + 1 && r.a.written == l.a.written
    && r.a.st.snd == OnAck(snd1, AckPoint(l.b.st.rcv), AdvertisedWindow(l.b.st.rcv), l.a.now + 1)
    && Drained(r.b.st.rcv) && AckPoint(r.b.st.rcv) >= AckPoint(l.b.st.rcv)
  }

  ghost predicate Logs(s: Side, p: Side)
    requires Buffered(s.st.snd)
  {
    p.out == s.out + Stamp(s.now + 1, TransmitFrames(s.st, s.now + 1))
  }

  ghost predicate Polled(l: Link, p: Link)
    requires Inv(l)
  {
    && Open(p.a) && Open(p.b) && Logs(l.a, p.a) && Logs(l.b, p.b)
    && p.a.now == l.a.now + 1 && p.a.written == l.a.written && p.b.st.rcv == l.b.st.rcv
  }

  lemma PollBothFacts(l: Link)
    requires Inv(l) && Open(l.a) && Open(l.b)
    ensures Polled(l, PollBoth(l))
    ensures PollBoth(l).a.st.snd == SendData(l.a.st.id, l.a.st.snd, l.a.now + 1).0
  {
    PollOpen(l.a, l.b);
    PollOpen(l.b, Poll(l.a));
  }

  lemma MoreHeld(before: Receiver, after: Receiver)
    requires StillHeld(before, after) && after.delivered == before.delivered
    ensures AckPoint(after) >= AckPoint(before)
  {
    assert AckPoint(after) < AckPoint(before) ==> AckPoint(after) in before.held;
  }

  /** A byte that was next in line and was taken in is now acknowledged. */
  lemma TakenMoves(f: Frame, before: Receiver, after: Receiver)
    requires StillHeld(before, after) && after.delivered == before.delivered
    requires f.StreamData? && Accepts(before, f.offset, f.data) && TakenIn(f, before, after)
    requires Carries(f, AckPoint(before))
    ensures AckPoint(after) > AckPoint(before)
  {
    MoreHeld(before, after);
    assert AckPoint(before) in after.held;
  }

  ghost predicate ExchangeFacts(l: Link, p: Link, x: Link) {
    && Open(x.a) && Open(x.b) && x.a.now == p.a.now && x.a.written == p.a.written
    && x.a.st.snd == OnAck(p.a.st.snd, AckPoint(l.b.st.rcv), AdvertisedWindow(l.b.st.rcv), p.a.now)
    && StillHeld(l.b.st.rcv, x.b.st.rcv) && x.b.st.rcv.delivered == l.b.st.rcv.delivered
    && RangeTaken(p.a.out, |l.a.out|, |p.a.out|, l.b.st.rcv, x.b.st.rcv)
  }

  lemma ToReceiver(l: Link, p: Link, b: Side)
    requires Inv(l) && Inv(p) && Polled(l, p) && b == DeliverRange(p.b, p.a, |l.a.out|, |p.a.out|)
    ensures SameButReceived(p.b, b) && StillHeld(l.b.st.rcv, b.st.rcv)
    ensures RangeTaken(p.a.out, |l.a.out|, |p.a.out|, l.b.st.rcv, b.st.rcv)
  {
    LoggedTaken(p.b, p.a, l.a, b);
  }

  lemma LoggedTaken(me: Side, peer: Side, was: Side, r: Side)
    requires Inv(Link(me, peer)) && Open(me) && Buffered(was.st.snd) && Logs(was, peer)
    requires r == DeliverRange(me, peer, |was.out|, |peer.out|)
    ensures SameButReceived(me, r) && StillHeld(me.st.rcv, r.st.rcv)
    ensures RangeTaken(peer.out, |was.out|, |peer.out|, me.st.rcv, r.st.rcv)
  {
    var _ := FreshFrames(was, peer.out);
    DeliverAll(me, peer, |was.out|, |peer.out|, r);
  }

  lemma ToSender(l: Link, p: Link, b: Side, a: Side)
    requires Inv(l) && Polled(l, p) && b.out == p.b.out && Inv(Link(p.a, b))
    requires a == DeliverRange(p.a, b, |l.b.out|, |b.out|)
    ensures SameButReceived(p.a, a)
    ensures a.st.snd == OnAck(p.a.st.snd, AckPoint(l.b.st.rcv), AdvertisedWindow(l.b.st.rcv), p.a.now)
  {
    LoggedAckTaken(p.a, b, l.b, a);
  }

  lemma LoggedAckTaken(me: Side, peer: Side, was: Side, r: Side)
    requires Inv(Link(me, peer)) && Open(me) && Buffered(was.st.snd) && Logs(was, peer)
    requires r == DeliverRange(me, peer, |was.out|, |peer.out|)
    ensures SameButReceived(me, r)
    ensures r.st.snd == OnAck(me.st.snd, AckPoint(was.st.rcv), AdvertisedWindow(was.st.rcv), me.now)
  {
    var pb := FreshFrames(was, peer.out);
    SoleAckTaken(me, peer, |was.out|, pb, r);
  }

  lemma SoleAckTaken(me: Side, peer: Side, from: nat, pb: nat, r: Side)
    requires Inv(Link(me, peer)) && Open(me) && NoResets(peer.out, from, |peer.out|)
    requires from <= pb < |peer.out| && peer.out[pb].frame.StreamAck?
    requires forall i | from <= i < |peer.out| && i != pb :: !peer.out[i].frame.StreamAck?
    requires r == DeliverRange(me, peer, from, |peer.out|)
    ensures SameButReceived(me, r)
    ensures r.st.snd == OnAck(me.st.snd, peer.out[pb].frame.ack, peer.out[pb].frame.window, me.now)
  {
    DeliverAll(me, peer, from, |peer.out|, r);
    DeliverAck(me, peer, from, |peer.out|, pb);
  }

  lemma ExchangeLemma(l: Link, p: Link)
    requires Inv(l) && Inv(p) && Polled(l, p)
    ensures ExchangeFacts(l, p, Exchange(l, p))
  {
    var b := DeliverRange(p.b, p.a, |l.a.out|, |p.a.out|);
    ToReceiver(l, p, b);
    ToSender(l, p, b, DeliverRange(p.a, b, |l.b.out|, |b.out|));
  }

  lemma RoundLemma(l: Link, snd1: Sender)
    requires Inv(l) && Open(l.a) && Open(l.b) && snd1 == SendData(l.a.st.id, l.a.st.snd, l.a.now + 1).0
    ensures RoundFacts(l, Round(l), snd1)
  {
    var p := PollBoth(l);
    PollBothFacts(l);
    var x := Exchange(l, p);
    ExchangeLemma(l, p);
    MoreHeld(l.b.st.rcv, x.b.st.rcv);
    ReadFacts(x);
  }

  /** If an accepted frame of the round carries the byte the receiver waits for, it arrives. */
  lemma RoundBrings(l: Link, f: Frame, i: nat)
    requires Inv(l) && Open(l.a) && Open(l.b)
    requires |l.a.out| <= i < |PollBoth(l).a.out| && PollBoth(l).a.out[i].frame == f
    requires f.StreamData? && Carries(f, AckPoint(l.b.st.rcv)) && Accepts(l.b.st.rcv, f.offset, f.data)
    ensures AckPoint(Round(l).b.st.rcv) > AckPoint(l.b.st.rcv)
  {
    var p := PollBoth(l);
    PollBothFacts(l);
    var x := Exchange(l, p);
    ExchangeLemma(l, p);
    ExchangeBrings(l, p, x, f, i);
    ReadFacts(x);
  }

  lemma ExchangeBrings(l: Link, p: Link, x: Link, f: Frame, i: nat)
    requires ExchangeFacts(l, p, x) && |l.a.out| <= i < |p.a.out| && p.a.out[i].frame == f
    requires f.StreamData? && Carries(f, AckPoint(l.b.st.rcv)) && Accepts(l.b.st.rcv, f.offset, f.data)
    ensures AckPoint(x.b.st.rcv) > AckPoint(l.b.st.rcv)
  {
    TakenMoves(f, l.b.st.rcv, x.b.st.rcv);
  }

  /** Where the data frames of a poll stand in the log. */
  lemma FrameLogged(s: Side, data: seq<Frame>, j: nat, log: seq<Sent>) returns (i: nat)
    requires Buffered(s.st.snd) && data == SendData(s.st.id, s.st.snd, s.now + 1).1 && j < |data|
    requires log == s.out + Stamp(s.now + 1, TransmitFrames(s.st, s.now + 1))
    ensures |s.out| <= i < |log| && log[i].frame == data[j]
  {
    var frames := TransmitFrames(s.st, s.now + 1);
    i := |s.out| + |OpenFrames(s.st)| + j;
    assert frames[|OpenFrames(s.st)| + j] == data[j];
    StampedLog(s.out, s.now + 1, frames, log, i);
  }

  lemma ReadFacts(x: Link)
    requires Inv(x) && Open(x.a) && Open(x.b)
    ensures var r := ReadBoth(x);
            && Open(r.a) && Open(r.b) && r.a.now == x.a.now && r.a.written == x.a.written && r.a.st.snd == x.a.st.snd
            && r.b.st.rcv == Drain(x.b.st.rcv) && Drained(r.b.st.rcv) && AckPoint(r.b.st.rcv) == AckPoint(x.b.st.rcv)
  {
    DrainAckPoint(x.b.st.rcv);
  }

  // ---------------------------------------------------------------- rounds are runs

  lemma {:induction false} DeliverReachable(me: Side, peer: Side, from: nat, till: nat)
    requires Reachable(Link(me, peer)) && Inv(Link(me, peer))
    ensures Reachable(Link(DeliverRange(me, peer, from, till), peer))
    decreases till - from
  {
    if from < till {
      ReachableStep(Link(me, peer), Event(A, Deliver(from)));
      StepInv(Link(me, peer), Event(A, Deliver(from)));
      DeliverReachable(Act(me, peer, Deliver(from)), peer, from + 1, till);
    }
  }

  lemma TwoSteps(l: Link, a: Action)
    requires Reachable(l) && Inv(l)
    ensures Inv(Step(l, Event(A, a))) && Reachable(Step(Step(l, Event(A, a)), Event(B, a)))
  {
    ReachableStep(l, Event(A, a));
    ReachableStep(Step(l, Event(A, a)), Event(B, a));
  }

  /** A round is made of the steps of a run, so it leads from reachable states to reachable states. */
  lemma RoundReachable(l: Link)
    requires Reachable(l) && Inv(l)
    ensures Reachable(Round(l))
  {
    TwoSteps(l, DoPoll);
    var p := PollBoth(l);
    ReachableMirror(p);
    DeliverReachable(p.b, p.a, |l.a.out|, |p.a.out|);
    var b := DeliverRange(p.b, p.a, |l.a.out|, |p.a.out|);
    ReachableMirror(Link(b, p.a));
    DeliverReachable(p.a, b, |l.b.out|, |b.out|);
    TwoSteps(Exchange(l, p), DoRead);
  }

  // ---------------------------------------------------------------- progress

  lemma SendShape(id: nat, s: Sender, now: nat, s1: Sender)
    requires Buffered(s) && s1 == SendData(id, s, now).0
    ensures s1.base == s.base && s1.buf == s.buf && s1.next == s.next && s1.high == Max(s.high, SendEnd(s))
  {
  }

  lemma AckShape(s: Sender, ack: nat, window: nat, now: nat, s': Sender)
    requires Buffered(s) && s.base <= ack <= s.high && s' == OnAck(s, ack, window, now)
    ensures s'.base == ack && s'.peerWindow == window && s'.high == s.high && s'.next == s.next
    ensures ack == s.base ==> s'.cwnd == s.cwnd && s'.rtoStart == s.rtoStart
  {
  }

  /** How many more rounds until the acknowledged prefix grows. */
  function RankOf(s: Sender, now: nat, ackPoint: nat): nat {
    if ackPoint > s.base then 0
    else if s.high == s.base then 1
    else if s.high < SendEnd(s) || s.rtoStart.None? then MAX_RTO + 2
    else 1 + Max(s.rtoStart.value + MAX_RTO - (now + 1), 0)
  }

  ghost function Rank(l: Link): nat { RankOf(l.a.st.snd, l.a.now, AckPoint(l.b.st.rcv)) }

  /** Sending what lies beyond the missing byte, or waiting for the timer, brings the timeout closer. */
  lemma RankWaits(id: nat, s: Sender, now: nat, s1: Sender, s': Sender)
    requires Buffered(s) && Bounds(s) && TimerRuns(s, now) && s1 == SendData(id, s, now + 1).0
    requires s.base < s.high && (s.high < SendEnd(s) || !RtoDue(s, now + 1))
    requires s'.base == s.base && s'.high == s1.high && s'.next == s.next && s'.peerWindow == s.peerWindow
    requires s'.cwnd == s1.cwnd && s'.rtoStart == s1.rtoStart
    ensures RankOf(s', now + 1, s.base) < RankOf(s, now, s.base)
  {
  }

  /** The reader has caught up and the sender knows it. */
  ghost predicate Settled(l: Link) {
    && Reachable(l) && Open(l.a) && Open(l.b) && |l.a.written| < U64_LIMIT
    && Drained(l.b.st.rcv) && l.a.st.snd.peerWindow == DEFAULT_WINDOW
  }

  lemma FirstChunk(id: nat, s: Sender, from: nat, till: nat)
    requires s.base <= from < till <= s.base + |s.buf|
    ensures |Chunks(id, s, from, till)| > 0
    ensures var f := Chunks(id, s, from, till)[0]; f.StreamData? && f.offset == from && from < from + |f.data| <= till
  {
  }

  /** The receiver waits for the byte at `base`; a round whose first frame carries it brings it over. */
  lemma CarriedArrives(l: Link, data: seq<Frame>)
    requires Inv(l) && Open(l.a) && Open(l.b) && |l.a.written| < U64_LIMIT && Drained(l.b.st.rcv)
    requires data == SendData(l.a.st.id, l.a.st.snd, l.a.now + 1).1
    requires |data| > 0 && data[0].StreamData? && data[0].offset == AckPoint(l.b.st.rcv)
    requires |data[0].data| > 0 && data[0].offset + |data[0].data| <= |l.a.written|
    ensures AckPoint(Round(l).b.st.rcv) > AckPoint(l.b.st.rcv)
  {
    var i := FirstLogged(l, data);
    FirstAccepted(l.b.st.rcv, data[0], |l.a.written|);
    RoundBrings(l, data[0], i);
  }

  lemma FirstLogged(l: Link, data: seq<Frame>) returns (i: nat)
    requires Inv(l) && Open(l.a) && Open(l.b) && data == SendData(l.a.st.id, l.a.st.snd, l.a.now + 1).1 && |data| > 0
    ensures |l.a.out| <= i < |PollBoth(l).a.out| && PollBoth(l).a.out[i].frame == data[0]
  {
    PollBothFacts(l);
    i := LoggedFirst(l.a, PollBoth(l).a, data);
  }

  lemma LoggedFirst(s: Side, p: Side, data: seq<Frame>) returns (i: nat)
    requires Buffered(s.st.snd) && Logs(s, p) && data == SendData(s.st.id, s.st.snd, s.now + 1).1 && |data| > 0
    ensures |s.out| <= i < |p.out| && p.out[i].frame == data[0]
  {
    i := FrameLogged(s, data, 0, p.out);
  }

  lemma FirstAccepted(rcv: Receiver, f: Frame, total: nat)
    requires Drained(rcv) && f.StreamData? && f.offset == AckPoint(rcv) && 0 < |f.data| && f.offset + |f.data| <= total < U64_LIMIT
    ensures Carries(f, AckPoint(rcv)) && Accepts(rcv, f.offset, f.data)
  {
  }

  lemma RoundSettled(l: Link)
    requires Reachable(l) && Open(l.a) && Open(l.b) && |l.a.written| < U64_LIMIT
    ensures Inv(l) && TimerInv(l.a)
    ensures var r := Round(l);
            && Reachable(r) && Open(r.a) && Open(r.b) && r.a.written == l.a.written && Drained(r.b.st.rcv)
            && r.a.st.snd.base == AckPoint(l.b.st.rcv) && r.a.now == l.a.now + 1
            && (Drained(l.b.st.rcv) ==> r.a.st.snd.peerWindow == DEFAULT_WINDOW)
  {
    ReachableInv(l);
    TimersHold(l);
    var s1 := SendData(l.a.st.id, l.a.st.snd, l.a.now + 1).0;
    RoundLemma(l, s1);
    RoundReachable(l);
    AckPointBound(l.a, l.b);
    SendShape(l.a.st.id, l.a.st.snd, l.a.now + 1, s1);
    AckShape(s1, AckPoint(l.b.st.rcv), AdvertisedWindow(l.b.st.rcv), l.a.now + 1, Round(l).a.st.snd);
  }

  /** In a settled state with bytes outstanding, a round advances `base` or comes closer to it. */
  lemma RankStep(l: Link)
    requires Settled(l) && Inv(l) && l.a.st.snd.base < l.a.st.snd.next
    ensures Settled(Round(l))
    ensures Round(l).a.st.snd.base > l.a.st.snd.base
         || (Round(l).a.st.snd.base == l.a.st.snd.base && Rank(Round(l)) < Rank(l))
  {
    RoundSettled(l);
    var s := l.a.st.snd;
    if AckPoint(l.b.st.rcv) == s.base {
      if s.base < s.high && (s.high < SendEnd(s) || !RtoDue(s, l.a.now + 1)) {
        WaitingStep(l, SendData(l.a.st.id, s, l.a.now + 1).0);
      } else {
        ArrivingStep(l, Round(l));
      }
    }
  }

  /** New data at `base`, or a retransmission from `base`, gets the missing byte across. */
  lemma ArrivingStep(l: Link, r: Link)
    requires Settled(l) && Inv(l) && TimerInv(l.a) && r == Round(l)
    requires AckPoint(l.b.st.rcv) == l.a.st.snd.base < l.a.st.snd.next
    requires if l.a.st.snd.high < SendEnd(l.a.st.snd) then l.a.st.snd.high == l.a.st.snd.base
             else l.a.st.snd.base < l.a.st.snd.high && RtoDue(l.a.st.snd, l.a.now + 1)
    ensures Rank(r) == 0
  {
    var s := l.a.st.snd;
    FirstChunk(l.a.st.id, s, s.base, if s.high < SendEnd(s) then SendEnd(s) else s.high);
    CarriedArrives(l, SendData(l.a.st.id, s, l.a.now + 1).1);
    RoundSettled(l);
  }

  lemma WaitingStep(l: Link, s1: Sender)
    requires Settled(l) && Inv(l) && TimerInv(l.a) && s1 == SendData(l.a.st.id, l.a.st.snd, l.a.now + 1).0
    requires AckPoint(l.b.st.rcv) == l.a.st.snd.base < l.a.st.snd.high
    requires l.a.st.snd.high < SendEnd(l.a.st.snd) || !RtoDue(l.a.st.snd, l.a.now + 1)
    ensures Rank(Round(l)) < Rank(l)
  {
    RoundLemma(l, s1);
    WaitingRank(l, Round(l), s1);
  }

  lemma WaitingRank(l: Link, r: Link, s1: Sender)
    requires Drained(l.b.st.rcv) && l.a.st.snd.peerWindow == DEFAULT_WINDOW && Buffered(l.a.st.snd)
    requires TimerInv(l.a) && RoundFacts(l, r, s1)
    requires s1 == SendData(l.a.st.id, l.a.st.snd, l.a.now + 1).0
    requires AckPoint(l.b.st.rcv) == l.a.st.snd.base < l.a.st.snd.high
    requires l.a.st.snd.high < SendEnd(l.a.st.snd) || !RtoDue(l.a.st.snd, l.a.now + 1)
    ensures Rank(r) < Rank(l)
  {
    assert AdvertisedWindow(l.b.st.rcv) == DEFAULT_WINDOW;
    AckedWaits(l.a.st.id, l.a.st.snd, l.a.now, s1, r.a.st.snd);
  }

  /** An acknowledgement that brings nothing new leaves the wait one tick shorter. */
  lemma AckedWaits(id: nat, s: Sender, now: nat, s1: Sender, s': Sender)
    requires Buffered(s) && Bounds(s) && TimerRuns(s, now) && s.peerWindow == DEFAULT_WINDOW
    requires s1 == SendData(id, s, now + 1).0 && s' == OnAck(s1, s.base, DEFAULT_WINDOW, now + 1)
    requires s.base < s.high && (s.high < SendEnd(s) || !RtoDue(s, now + 1))
    ensures s'.base == s.base && RankOf(s', now + 1, s.base) < RankOf(s, now, s.base)
  {
    SendShape(id, s, now + 1, s1);
    AckShape(s1, s.base, DEFAULT_WINDOW, now + 1, s');
    RankWaits(id, s, now, s1, s');
  }

  // ---------------------------------------------------------------- theorems

  /** Rounds before the acknowledged prefix must have grown: two to settle, then the longest timeout. */
  const PATIENCE: nat := MAX_RTO + 5

  /** An open stream on which `a` has written just `w`. */
  ghost predicate Ongoing(l: Link, w: seq<byte>) {
    Reachable(l) && Open(l.a) && Open(l.b) && l.a.written == w && |w| < U64_LIMIT
  }

  ghost function OngoingFor(w: seq<byte>): Link -> bool { (l: Link) => Ongoing(l, w) }

  ghost function SettledFor(w: seq<byte>): Link -> bool { (l: Link) => Settled(l) && l.a.written == w }

  function Base(): Link -> int { (l: Link) => l.a.st.snd.base }

  ghost function RankFn(): Link -> nat { (l: Link) => Rank(l) }

  lemma RoundClimbs(w: seq<byte>)
    ensures Climbs(Round, OngoingFor(w), Base()) && Climbs(Round, SettledFor(w), Base())
  {
    forall l | Ongoing(l, w) ensures Ongoing(Round(l), w) && Round(l).a.st.snd.base >= l.a.st.snd.base {
      RoundSettled(l);
    }
    forall l | Settled(l) && l.a.written == w
      ensures Settled(Round(l)) && Round(l).a.written == w && Round(l).a.st.snd.base >= l.a.st.snd.base
    {
      RoundSettled(l);
    }
  }

  lemma SettledRanked(w: seq<byte>)
    ensures Ranked(Round, SettledFor(w), Base(), |w|, RankFn())
  {
    forall l | Settled(l) && l.a.written == w && l.a.st.snd.base < |w|
      ensures Round(l).a.st.snd.base > l.a.st.snd.base || Rank(Round(l)) < Rank(l)
    {
      ReachableInv(l);
      RankStep(l);
    }
  }

  lemma RoundsSettle(w: seq<byte>)
    ensures Settles(Round, OngoingFor(w), SettledFor(w), RankFn(), MAX_RTO + 2)
  {
    forall l | Ongoing(l, w) ensures Settled(Round(Round(l))) && Round(Round(l)).a.written == w {
      RoundSettled(l);
      RoundSettled(Round(l));
    }
    forall l | Settled(l) ensures Rank(l) <= MAX_RTO + 2 {
      TimersHold(l);
      RankBounded(l);
    }
  }

  lemma RankBounded(l: Link)
    requires TimerInv(l.a)
    ensures Rank(l) <= MAX_RTO + 2
  {
  }

  /**
    * From any reachable state of an open stream with unacknowledged bytes, whatever was lost
    * before, `PATIENCE` rounds or more advance the acknowledged prefix.
    */
  lemma AdvancesWithin(l: Link, n: nat)
    requires Reachable(l) && Open(l.a) && Open(l.b) && |l.a.written| < U64_LIMIT
    requires l.a.st.snd.base < |l.a.written| && n >= PATIENCE
    ensures Rounds(l, n).a.st.snd.base > l.a.st.snd.base
  {
    var w := l.a.written;
    RoundClimbs(w);
    SettledRanked(w);
    RoundsSettle(w);
    Rises(Round, OngoingFor(w), SettledFor(w), Base(), |w|, RankFn(), MAX_RTO + 2, l, n);
  }

  ghost function HasRead(w: seq<byte>): Link -> bool { (l: Link) => l.b.read == w }

  lemma RoundCompletes(w: seq<byte>)
    ensures Completes(Round, OngoingFor(w), Base(), |w|, HasRead(w))
  {
    forall l | Ongoing(l, w) && l.a.st.snd.base >= |w| ensures Round(l).b.read == w { AllRead(l, w); }
  }

  /** Hence every byte written so far is read by the peer within a bounded number of rounds. */
  lemma DeliversAll(l: Link, n: nat)
    requires Reachable(l) && Open(l.a) && Open(l.b) && |l.a.written| < U64_LIMIT
    requires n > PATIENCE * |l.a.written|
    ensures Rounds(l, n).b.read == l.a.written
  {
    var w := l.a.written;
    RoundClimbs(w);
    SettledRanked(w);
    RoundsSettle(w);
    RoundCompletes(w);
    Finishes(Round, OngoingFor(w), SettledFor(w), Base(), |w|, RankFn(), MAX_RTO + 2, HasRead(w), l, |w|, n);
  }

  lemma AllRead(l: Link, w: seq<byte>)
    requires Ongoing(l, w) && l.a.st.snd.base >= |w|
    ensures Round(l).b.read == w
  {
    RoundSettled(l);
    ReachableInv(l);
    RoundLemma(l, SendData(l.a.st.id, l.a.st.snd, l.a.now + 1).0);
    var r := Round(l);
    AckPointBound(r.a, r.b);
  }

  /** The states these theorems speak of exist: any bytes written to a new stream make one. */
  lemma NewStreamIsOngoing(c: Setup, data: seq<byte>)
    requires |data| < U64_LIMIT
    ensures Inv(Init(c)) && Ongoing(Step(Init(c), Event(A, DoWrite(data))), data)
  {
    InitInv(c);
    assert IsRun(c, [], Init(c));
    ReachableStep(Init(c), Event(A, DoWrite(data)));
    assert [] + data == data;
  }
}
