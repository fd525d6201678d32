/** What a poll puts on the network, byte by byte, and what a side takes from any peer. */
module StreamSending {
  import opened Common
  import opened Wire
  import opened Reassembly
  import opened StreamSpec
  import opened StreamProtocol
  import opened StreamSafety
  import opened StreamTimers

  // ---------------------------------------------------------------- new data

  /** Some frame of the list carries byte `o`. */
  ghost predicate Carried(frames: seq<Frame>, o: int) {
    exists f :: f in frames && Carries(f, o)
  }

  /** Chunks carry exactly the bytes of their range. */
  lemma {:induction false} ChunksCover(id: nat, s: Sender, from: nat, till: nat, o: int)
    requires s.base <= from <= till <= s.base + |s.buf|
    ensures Carried(Chunks(id, s, from, till), o) <==> from <= o < till
    decreases till - from
  {
    if from < till {
      var end := Min(from + MAX_STREAM_CHUNK, till);
      var first, rest := Chunks(id, s, from, till)[0], Chunks(id, s, end, till);
      ChunksCover(id, s, end, till, o);
      assert Chunks(id, s, from, till) == [first] + rest;
      assert Carries(first, o) <==> from <= o < end;
      assert Carried([first] + rest, o) <==> Carries(first, o) || Carried(rest, o) by {
        assert first in [first] + rest;
        assert forall f | f in rest :: f in [first] + rest;
      }
    }
  }

  lemma {:induction false} ChunksSmall(id: nat, s: Sender, from: nat, till: nat, f: Frame)
    requires s.base <= from <= till <= s.base + |s.buf| && f in Chunks(id, s, from, till)
    ensures f.StreamData? && f.id == id && 0 < |f.data| <= 1024
    ensures f.fin <==> s.fin && !s.finAcked && f.offset + |f.data| == s.next
    decreases till - from
  {
    var end := Min(from + MAX_STREAM_CHUNK, till);
    var rest := Chunks(id, s, end, till);
    if f in rest { ChunksSmall(id, s, end, till, f); }
  }

  /** The data frames of a poll are those of `SendData`. */
  lemma DataOfPoll(s: Stream, now: nat, f: Frame)
    requires Buffered(s.snd) && f.StreamData?
    ensures f in PolledFrames(s, now) <==> !s.reset && f in SendData(s.id, s.snd, now).1
  {
    if !s.reset {
      if f in TransmitFrames(s, now) { RoundFrames(s, now, f); }
    }
  }

  lemma CarriedByPoll(s: Stream, now: nat, o: int)
    requires Buffered(s.snd)
    ensures Carried(PolledFrames(s, now), o) <==> !s.reset && Carried(SendData(s.id, s.snd, now).1, o)
  {
    forall f | Carries(f, o) ensures f in PolledFrames(s, now) <==> !s.reset && f in SendData(s.id, s.snd, now).1 {
      DataOfPoll(s, now, f);
    }
  }

  /** The byte is written, was never sent, and both the congestion window and the peer's window allow it. */
  predicate Sendable(s: Sender, o: int) { s.high <= o < s.next && o < s.base + s.cwnd && o < s.base + s.peerWindow }

  /** A poll puts a never-sent byte on the network if and only if both windows allow it. */
  lemma NewDataExact(s: Stream, now: nat, o: int)
    requires Buffered(s.snd) && o >= s.snd.high
    ensures Carried(PolledFrames(s, now), o) <==> !s.reset && Sendable(s.snd, o)
  {
    var snd := s.snd;
    CarriedByPoll(s, now, o);
    ChunksCover(s.id, snd, snd.base, snd.high, o);
    if snd.high < SendEnd(snd) { ChunksCover(s.id, snd, snd.high, SendEnd(snd), o); }
  }

  /** A poll repeats a sent byte if and only if nothing new can go, it is unacknowledged, and the timer has run out. */
  lemma RepeatExact(s: Stream, now: nat, o: int)
    requires Buffered(s.snd) && o < s.snd.high
    ensures Carried(PolledFrames(s, now), o) <==>
            && !s.reset && s.snd.base <= o && !Sendable(s.snd, s.snd.high)
            && (s.snd.rtoStart.Some? ==> Max(0, now - s.snd.rtoStart.value) >= s.snd.rto)
  {
    var snd := s.snd;
    CarriedByPoll(s, now, o);
    ChunksCover(s.id, snd, snd.base, snd.high, o);
    if snd.high < SendEnd(snd) { ChunksCover(s.id, snd, snd.high, SendEnd(snd), o); }
  }

  /** In every run, every byte a poll puts out for the first time lies within both windows, and every such byte is put out. */
  lemma WindowsExact(l: Link, o: int)
    requires Reachable(l) && o >= l.a.st.snd.high
    ensures Inv(l)
    ensures Carried(PolledFrames(l.a.st, l.a.now + 1), o) <==> !l.a.st.reset && Sendable(l.a.st.snd, o)
  {
    ReachableInv(l);
    NewDataExact(l.a.st, l.a.now + 1, o);
  }

  /** The first poll of a new stream sends ten segments at most: exactly the first 10240 bytes written. */
  lemma FirstBurst(c: Setup, data: seq<byte>, o: int)
    ensures Inv(Init(c))
    ensures var l := Step(Init(c), Event(A, DoWrite(data)));
            Buffered(l.a.st.snd) && (Carried(PolledFrames(l.a.st, l.a.now + 1), o) <==> 0 <= o < Min(|data|, 10240))
  {
    InitInv(c);
    var l := Step(Init(c), Event(A, DoWrite(data)));
    if o >= 0 {
      NewDataExact(l.a.st, l.a.now + 1, o);
    } else {
      RepeatExact(l.a.st, l.a.now + 1, o);
    }
  }

  /** In every run a data frame of a poll has at most 1024 bytes, and FIN exactly on the end of a closed stream whose FIN is not acknowledged. */
  lemma FramesOfPoll(l: Link, f: Frame)
    requires Reachable(l)
    ensures Inv(l)
    ensures f.StreamData? && f in PolledFrames(l.a.st, l.a.now + 1) ==>
            && f.id == l.a.st.id && |f.data| <= 1024
            && (f.fin <==> l.a.st.snd.fin && !l.a.st.snd.finAcked && f.offset + |f.data| == |l.a.written|)
  {
    ReachableInv(l);
    if f.StreamData? && f in PolledFrames(l.a.st, l.a.now + 1) {
      DataOfPoll(l.a.st, l.a.now + 1, f);
      var id, s := l.a.st.id, l.a.st.snd;
      if f in Chunks(id, s, s.base, s.high) { ChunksSmall(id, s, s.base, s.high, f); }
      if s.high < SendEnd(s) && f in Chunks(id, s, s.high, SendEnd(s)) { ChunksSmall(id, s, s.high, SendEnd(s), f); }
    }
  }

  // ---------------------------------------------------------------- the other frames of a poll

  /** With everything acknowledged, a closed stream sends an empty FIN at once and again when the timer runs out. */
  lemma EmptyFin(s: Stream, now: nat)
    requires Buffered(s.snd) && !s.reset && s.snd.fin && !s.snd.finAcked && s.snd.base == s.snd.next
    ensures StreamData(s.id, s.snd.next, [], true) in PolledFrames(s, now) <==> !s.snd.finSent || RtoDue(s.snd, now)
  {
    DataOfPoll(s, now, StreamData(s.id, s.snd.next, [], true));
  }

  /** Every poll of a live stream advertises the ack point, and with it room up to one window past what was read. */
  lemma Advertises(s: Stream, now: nat, f: Frame)
    requires Buffered(s.snd) && !s.reset && f.StreamAck?
    ensures f in PolledFrames(s, now) <==>
            && f.id == s.id && f.ack == AckPoint(s.rcv)
            && f.window == Max(0, s.rcv.delivered + 0x4_0000 - AckPoint(s.rcv))
  {
    var snd := s.snd;
    ChunksAreData(s.id, snd, snd.base, snd.high);
    if snd.high < SendEnd(snd) { ChunksAreData(s.id, snd, snd.high, SendEnd(snd)); }
  }

  /** The close is repeated, with its status, in every poll until our FIN is acknowledged, and only then not. */
  lemma RepeatsClose(s: Stream, now: nat, f: Frame)
    requires Buffered(s.snd) && !s.reset && f.StreamClose?
    ensures f in PolledFrames(s, now) <==> f.id == s.id && s.closeStatus == Some(f.status) && !s.snd.finAcked
  {
    var snd := s.snd;
    ChunksAreData(s.id, snd, snd.base, snd.high);
    if snd.high < SendEnd(snd) { ChunksAreData(s.id, snd, snd.high, SendEnd(snd)); }
  }

  /** The open goes out first, in the first poll, and in no later one. */
  lemma OpensFirst(s: Stream, now: nat, f: Frame)
    requires Buffered(s.snd) && !s.reset
    ensures s.needsOpen ==> PolledFrames(s, now)[0] == StreamOpen(s.id, s.kind, s.meta)
    ensures f.StreamOpen? && f in PolledFrames(s, now) ==> s.needsOpen && f == StreamOpen(s.id, s.kind, s.meta)
    ensures !PolledStream(s, now).needsOpen
  {
    var snd := s.snd;
    ChunksAreData(s.id, snd, snd.base, snd.high);
    if snd.high < SendEnd(snd) { ChunksAreData(s.id, snd, snd.high, SendEnd(snd)); }
  }

  // ---------------------------------------------------------------- statuses over runs

  /** Every close logged from position `from` on carries `status`, which is the side's own. */
  ghost predicate Closing(s: Side, from: nat, status: int) {
    && s.st.closeStatus == Some(status) && from <= |s.out|
    && (forall i | from <= i < |s.out| :: s.out[i].frame.StreamClose? ==> s.out[i].frame == StreamClose(s.st.id, status))
  }

  /** What no action but a poll or a close touches. */
  lemma OtherActs(me: Side, peer: Side, a: Action)
    requires Buffered(me.st.snd) && !a.DoPoll? && !a.DoClose?
    ensures var r := Act(me, peer, a);
            && r.out == me.out && r.st.closeStatus == me.st.closeStatus && r.st.id == me.st.id
            && r.st.snd.finSent == me.st.snd.finSent && (r.st.snd.finAcked ==> me.st.snd.finAcked || me.st.snd.finSent)
  {
    if a.Deliver? && a.index < |peer.out| {
      FrameEffects(me.st, peer.out[a.index].frame, me.now);
    }
  }

  lemma FrameEffects(s: Stream, f: Frame, now: nat)
    ensures var r := OnFrame(s, f, now);
            && r.closeStatus == s.closeStatus && r.id == s.id
            && r.snd.finSent == s.snd.finSent && (r.snd.finAcked ==> s.snd.finAcked || s.snd.finSent)
  {
  }

  lemma ClosingPoll(me: Side, from: nat, status: int)
    requires Buffered(me.st.snd) && Closing(me, from, status)
    ensures Closing(Poll(me), from, status)
  {
    var frames := PolledFrames(me.st, me.now + 1);
    forall f | f in frames && f.StreamClose? ensures f == StreamClose(me.st.id, status) {
      if !me.st.reset { RepeatsClose(me.st, me.now + 1, f); }
    }
    ClosesGrow(me, Poll(me), frames, from, status);
  }

  lemma ClosesGrow(s: Side, s': Side, frames: seq<Frame>, from: nat, status: int)
    requires Closing(s, from, status) && s'.out == s.out + Stamp(s'.now, frames)
    requires s'.st.closeStatus == s.st.closeStatus && s'.st.id == s.st.id
    requires forall f | f in frames && f.StreamClose? :: f == StreamClose(s.st.id, status)
    ensures Closing(s', from, status)
  {
    forall i | from <= i < |s'.out| ensures s'.out[i].frame.StreamClose? ==> s'.out[i].frame == StreamClose(s'.st.id, status) {
      if i >= |s.out| { assert s'.out[i].frame == frames[i - |s.out|]; }
    }
  }

  lemma ClosingStep(me: Side, peer: Side, a: Action, from: nat, status: int)
    requires Buffered(me.st.snd) && Closing(me, from, status) && !a.DoClose?
    ensures Closing(Act(me, peer, a), from, status) && Act(me, peer, a).st.id == me.st.id
  {
    if !a.DoPoll? {
      OtherActs(me, peer, a);
    } else if !me.retired {
      ClosingPoll(me, from, status);
    }
  }

  lemma {:induction false} ClosingRun(l: Link, events: seq<Event>, from: nat, status: int)
    requires Inv(l) && Closing(l.a, from, status)
    requires forall i | 0 <= i < |events| :: !(events[i].who.A? && events[i].action.DoClose?)
    ensures Closing(RunLink(l, events).a, from, status) && RunLink(l, events).a.st.id == l.a.st.id
    decreases |events|
  {
    if events != [] {
      var e := events[0];
      StepInv(l, e);
      if e.who.A? { ClosingStep(l.a, l.b, e.action, from, status); }
      ClosingRun(Step(l, e), events[1..], from, status);
    }
  }

  /** After a close, whatever happens short of another, every close that goes out carries the status given. */
  lemma CloseCarriesStatus(l: Link, status: int, events: seq<Event>, i: nat)
    requires Reachable(l) && !l.a.retired
    requires forall k | 0 <= k < |events| :: !(events[k].who.A? && events[k].action.DoClose?)
    ensures Inv(l) && Inv(Step(l, Event(A, DoClose(status))))
    ensures var out := RunLink(Step(l, Event(A, DoClose(status))), events).a.out;
            |l.a.out| <= i < |out| && out[i].frame.StreamClose? ==> out[i].frame == StreamClose(l.a.st.id, status)
  {
    ReachableInv(l);
    StepInv(l, Event(A, DoClose(status)));
    ClosingRun(Step(l, Event(A, DoClose(status))), events, |l.a.out|, status);
  }

  // ---------------------------------------------------------------- FIN acknowledged means FIN sent

  ghost predicate LoggedFin(out: seq<Sent>) { exists i :: 0 <= i < |out| && out[i].frame.StreamData? && out[i].frame.fin }

  /** A FIN counts as sent exactly if it is in the log; one that counts as acknowledged was sent. */
  ghost predicate FinBacked(s: Side) {
    (s.st.snd.finSent <==> LoggedFin(s.out)) && (s.st.snd.finAcked ==> s.st.snd.finSent)
  }

  /** Some frame of the list carries FIN. */
  ghost predicate HasFin(frames: seq<Frame>) { exists f :: f in frames && f.StreamData? && f.fin }

  lemma FinMarks(id: nat, s: Sender, now: nat, f: Frame)
    requires Buffered(s) && f in SendData(id, s, now).1 && f.StreamData? && f.fin
    ensures SendData(id, s, now).0.finSent
  {
    var from, till := (if s.high < SendEnd(s) then s.high else s.base), (if s.high < SendEnd(s) then SendEnd(s) else s.high);
    if from < till {
      ChunksSmall(id, s, from, till, f);
      ChunkEnds(id, s, from, till, f);
    }
  }

  lemma LogsFin(id: nat, s: Sender, now: nat, frames: seq<Frame>)
    requires Buffered(s) && frames == SendData(id, s, now).1 && SendData(id, s, now).0.finSent && !s.finSent
    ensures HasFin(frames)
  {
    var from, till := (if s.high < SendEnd(s) then s.high else s.base), (if s.high < SendEnd(s) then SendEnd(s) else s.high);
    if from < till {
      ChunksCover(id, s, from, till, s.next - 1);
      var f :| f in Chunks(id, s, from, till) && Carries(f, s.next - 1);
      ChunksSmall(id, s, from, till, f);
      ChunkEnds(id, s, from, till, f);
    } else {
      assert StreamData(id, s.next, [], true) in frames;
    }
  }

  lemma {:induction false} ChunkEnds(id: nat, s: Sender, from: nat, till: nat, f: Frame)
    requires s.base <= from <= till <= s.base + |s.buf| && f in Chunks(id, s, from, till)
    ensures f.StreamData? && f.offset + |f.data| <= till
    decreases till - from
  {
    var end := Min(from + MAX_STREAM_CHUNK, till);
    if f in Chunks(id, s, end, till) { ChunkEnds(id, s, end, till, f); }
  }

  lemma LogGrowsByFin(out: seq<Sent>, tick: nat, frames: seq<Frame>)
    requires LoggedFin(out) || HasFin(frames)
    ensures LoggedFin(out + Stamp(tick, frames))
  {
    var log := out + Stamp(tick, frames);
    if LoggedFin(out) {
      var i :| 0 <= i < |out| && out[i].frame.StreamData? && out[i].frame.fin;
      assert log[i] == out[i];
    } else {
      var f :| f in frames && f.StreamData? && f.fin;
      var k :| 0 <= k < |frames| && frames[k] == f;
      assert log[|out| + k].frame == f;
    }
  }

  lemma LogShowsFin(out: seq<Sent>, tick: nat, frames: seq<Frame>)
    requires LoggedFin(out + Stamp(tick, frames))
    ensures LoggedFin(out) || HasFin(frames)
  {
    var log := out + Stamp(tick, frames);
    var i :| 0 <= i < |log| && log[i].frame.StreamData? && log[i].frame.fin;
    if i < |out| {
      assert log[i] == out[i];
    } else {
      assert log[i].frame == frames[i - |out|] && log[i].frame in frames;
    }
  }

  /** A poll counts the FIN as sent exactly if it already was or one of its frames carries it. */
  lemma PollMarksFin(s: Stream, now: nat)
    requires Buffered(s.snd)
    ensures PolledStream(s, now).snd.finSent <==> s.snd.finSent || HasFin(PolledFrames(s, now))
  {
    var frames, data := PolledFrames(s, now), SendData(s.id, s.snd, now).1;
    if HasFin(frames) {
      var f :| f in frames && f.StreamData? && f.fin;
      DataOfPoll(s, now, f);
      FinMarks(s.id, s.snd, now, f);
    }
    if !s.reset && SendData(s.id, s.snd, now).0.finSent && !s.snd.finSent {
      LogsFin(s.id, s.snd, now, data);
      var f :| f in data && f.StreamData? && f.fin;
      DataOfPoll(s, now, f);
    }
  }

  lemma FinBackedPoll(s: Side)
    requires Buffered(s.st.snd) && FinBacked(s)
    ensures FinBacked(Poll(s))
  {
    PollMarksFin(s.st, s.now + 1);
    FinLogged(s.out, s.now + 1, PolledFrames(s.st, s.now + 1));
    PollKeepsFinAcked(s);
  }

  lemma FinLogged(out: seq<Sent>, tick: nat, frames: seq<Frame>)
    ensures LoggedFin(out + Stamp(tick, frames)) <==> LoggedFin(out) || HasFin(frames)
  {
    if LoggedFin(out) || HasFin(frames) { LogGrowsByFin(out, tick, frames); }
    if LoggedFin(out + Stamp(tick, frames)) { LogShowsFin(out, tick, frames); }
  }

  lemma PollKeepsFinAcked(s: Side)
    requires Buffered(s.st.snd)
    ensures Poll(s).st.snd.finAcked == s.st.snd.finAcked
    ensures Poll(s).st.snd.finSent == PolledStream(s.st, s.now + 1).snd.finSent
    ensures Poll(s).out == s.out + Stamp(s.now + 1, PolledFrames(s.st, s.now + 1))
  {
  }

  lemma FinBackedStep(me: Side, peer: Side, a: Action)
    requires Buffered(me.st.snd) && FinBacked(me)
    ensures FinBacked(Act(me, peer, a))
  {
    if a.DoPoll? {
      if !me.retired { FinBackedPoll(me); }
    } else if !a.DoClose? {
      OtherActs(me, peer, a);
    }
  }

  /** In every run, a FIN counts as sent exactly if a frame with FIN was put on the network, and as acknowledged only then. */
  lemma FinIsBacked(l: Link)
    requires Reachable(l)
    ensures l.a.st.snd.finSent <==> LoggedFin(l.a.out)
    ensures l.a.st.snd.finAcked ==> LoggedFin(l.a.out)
  {
    forall me, peer, a | SenderInv(me) && OutInv(me) && FinBacked(me) ensures FinBacked(Act(me, peer, a)) {
      FinBackedStep(me, peer, a);
    }
    assert KeptByActs(FinBacked);
    assert HoldsAtStart(FinBacked);
    InEveryRun(FinBacked, l);
  }

  // ---------------------------------------------------------------- starting and ending

  /** A new stream: nothing sent or read, a window of 256 KiB each way, ten segments to start with, no estimate, a timeout of eight ticks. */
  lemma StartsFresh(id: nat, kind: StreamKind, meta: seq<byte>, needsOpen: bool)
    ensures var s := NewStream(id, kind, meta, needsOpen);
            && s.id == id && s.kind == kind && s.meta == meta && s.needsOpen == needsOpen
            && s.snd.cwnd == 10240 && s.snd.ssthresh == 0x4_0000 && s.snd.peerWindow == 0x4_0000 && s.snd.rto == 8 && s.snd.srtt == 0
            && s.snd.next == 0 && s.rcv.delivered == 0 && s.rcv.held == map[] && !s.snd.fin && !s.reset && !s.closeReceived
            && s.closeStatus.None? && s.peerFin.None? && s.closeTicks == 0
  {
  }

  /** Closing ends our direction; a peer's close and reset are remembered. */
  lemma EndsRemembered(s: Stream, status: int, id: nat, now: nat)
    ensures Close(s, status).snd == s.snd.(fin := true) && Close(s, status).closeStatus == Some(status)
    ensures OnFrame(s, StreamClose(id, status), now) == s.(closeReceived := true)
    ensures OnFrame(s, StreamReset(id), now) == s.(reset := true)
  {
  }

  // ---------------------------------------------------------------- any peer

  /** The first FIN offset stands, whatever else a peer sends. */
  lemma FirstFinStands(s: Stream, f: Frame, now: nat)
    requires s.peerFin.Some?
    ensures OnFrame(s, f, now).peerFin == s.peerFin
  {
  }

  /** Data that starts more than a window past what was read, or overflows the offsets, changes nothing; any other is taken. */
  lemma DataTakenExact(s: Stream, f: Frame, now: nat, o: int)
    requires f.StreamData? && s.rcv.delivered + 0x4_0000 < U64_LIMIT
    ensures f.offset > s.rcv.delivered + 0x4_0000 || f.offset + |f.data| >= U64_LIMIT ==> OnFrame(s, f, now) == s
    ensures f.offset <= s.rcv.delivered + 0x4_0000 && f.offset + |f.data| < U64_LIMIT ==>
            var r := OnFrame(s, f, now);
            && (Carries(f, o) && o >= s.rcv.delivered ==> o in r.rcv.held && r.rcv.held[o] == f.data[o - f.offset])
            && (f.fin && s.peerFin.None? ==> r.peerFin == Some(f.offset + |f.data|))
            && (!f.fin ==> r.peerFin == s.peerFin)
  {
    OverlayAt(s.rcv.held, s.rcv.delivered, f.offset, f.data, o);
  }

  /** An acknowledgement of bytes never written changes nothing. */
  lemma WildAckIgnored(s: Sender, ack: nat, window: nat, now: nat)
    requires ack > s.next
    ensures OnAck(s, ack, window, now) == s
  {
  }
}
