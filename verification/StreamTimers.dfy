/**
  * Retransmission timer, round-trip estimation (sections 2, 3 and 5 of RFC 6298) and
  * congestion window (section 3.1 of RFC 5681), over every run.
  */
module StreamTimers {
  import opened Common
  import opened Wire
  import opened Reassembly
  import opened StreamSpec
  import opened StreamProtocol
  import opened StreamSafety

  predicate Carries(f: Frame, o: int) { f.StreamData? && f.offset <= o < f.offset + |f.data| }

  function TickOf(o: int): Sent -> seq<nat> {
    (e: Sent) => if Carries(e.frame, o) then [e.tick] else []
  }

  /** The ticks at which byte `o` was put on the network. */
  function Transmissions(out: seq<Sent>, o: int): seq<nat> { FlatMap(TickOf(o), out) }

  lemma {:induction false} FlatMapNone<S, T>(f: S -> seq<T>, s: seq<S>)
    requires forall x | x in s :: f(x) == []
    ensures FlatMap(f, s) == []
  {
    if s != [] { FlatMapNone(f, s[1..]); }
  }

  lemma NotCarried(tick: nat, frames: seq<Frame>, o: int)
    requires forall f | f in frames :: !Carries(f, o)
    ensures Transmissions(Stamp(tick, frames), o) == []
  {
    var out := Stamp(tick, frames);
    forall e | e in out ensures TickOf(o)(e) == [] {
      var i :| 0 <= i < |out| && out[i] == e;
      assert e.frame == frames[i] && frames[i] in frames;
    }
    FlatMapNone(TickOf(o), out);
  }

  lemma StampConcat(tick: nat, a: seq<Frame>, b: seq<Frame>, o: int)
    ensures Transmissions(Stamp(tick, a + b), o) == Transmissions(Stamp(tick, a), o) + Transmissions(Stamp(tick, b), o)
  {
    assert Stamp(tick, a + b) == Stamp(tick, a) + Stamp(tick, b);
    FlatMapConcat(TickOf(o), Stamp(tick, a), Stamp(tick, b));
  }

  /** Chunking a range transmits each of its bytes exactly once, and no other. */
  lemma {:induction false} ChunksOnce(id: nat, s: Sender, from: nat, till: nat, tick: nat, o: int)
    requires s.base <= from <= till <= s.base + |s.buf|
    ensures Transmissions(Stamp(tick, Chunks(id, s, from, till)), o) == if from <= o < till then [tick] else []
    decreases till - from
  {
    var frames := Chunks(id, s, from, till);
    if from == till {
      NotCarried(tick, frames, o);
    } else {
      var end := Min(from + MAX_STREAM_CHUNK, till);
      var first, rest := frames[0], Chunks(id, s, end, till);
      StampConcat(tick, [first], rest, o);
      ChunksOnce(id, s, end, till, tick, o);
      if Carries(first, o) {
        FlatMapOne(TickOf(o), Sent(tick, first));
        assert Stamp(tick, [first]) == [Sent(tick, first)];
      } else {
        NotCarried(tick, [first], o);
      }
    }
  }

  // ---------------------------------------------------------------- the invariant

  ghost predicate Bounds(s: Sender) {
    && MIN_RTO <= s.rto <= MAX_RTO
    && MSS <= s.cwnd <= MAX_CWND
    && s.ssthresh >= 2 * MSS
  }

  /** Outstanding data has a running timer. */
  ghost predicate TimerRuns(s: Sender, now: nat) {
    && (s.base < s.high ==> s.rtoStart.Some?)
    && (s.rtoStart.Some? ==> s.rtoStart.value <= now)
  }

  /** The probed byte has been transmitted exactly once, at the tick the probe records. */
  ghost predicate ProbeClean(s: Side) {
    s.st.snd.timed.Some? ==>
      var p := s.st.snd.timed.value;
      0 < p.end <= s.st.snd.high && p.sent <= s.now && Transmissions(s.out, p.end - 1) == [p.sent]
  }

  ghost predicate TimerInv(s: Side) {
    Bounds(s.st.snd) && TimerRuns(s.st.snd, s.now) && ProbeClean(s)
  }

  lemma SampleBounds(s: Sender, r: nat)
    requires Bounds(s) && r > 0
    ensures Bounds(Sample(s, r)) && Sample(s, r).srtt > 0
  {
  }

  lemma GrownBounds(s: Sender, acked: nat)
    requires Bounds(s)
    ensures MSS <= GrownCwnd(s.cwnd, s.ssthresh, acked) <= MAX_CWND
  {
  }

  lemma AdvanceTimers(s: Sender, ack: nat, now: nat)
    requires Buffered(s) && Bounds(s) && s.base < ack
    ensures Bounds(Advance(s, ack, now)) && TimerRuns(Advance(s, ack, now), now)
    ensures Advance(s, ack, now).timed == s.timed && Advance(s, ack, now).srtt == s.srtt
    ensures Advance(s, ack, now).high >= s.high
  {
    GrownBounds(s, Min(ack - s.base, |s.buf|));
  }

  lemma AckTimers(s: Sender, ack: nat, window: nat, now: nat, s': Sender)
    requires Buffered(s) && Bounds(s) && TimerRuns(s, now) && s' == OnAck(s, ack, window, now)
    ensures Bounds(s') && TimerRuns(s', now)
    ensures s'.timed == s.timed || s'.timed.None?
    ensures s'.high >= s.high && (s.srtt > 0 ==> s'.srtt > 0)
  {
    if ack <= s.next {
      var s1 := s.(peerWindow := window);
      if ack > s1.base { AdvanceTimers(s1, ack, now); }
      var s2 := if ack > s1.base then Advance(s1, ack, now) else s1;
      if s2.timed.Some? { SampleBounds(s2, Max(Elapsed(now, s2.timed.value.sent), 1)); }
    }
  }

  /**
    * What a round does to the timers, and the ticks `sent` it adds for byte `o`: new data is
    * sent once and may open a probe; a retransmission is due and closes the probe.
    */
  ghost predicate RoundEffect(s: Sender, s': Sender, now: nat, o: int, sent: seq<nat>) {
    && Bounds(s') && TimerRuns(s', now) && SameEstimate(s, s') && s'.high >= s.high
    && (s'.timed.None? || s'.timed == s.timed || (s'.timed == Some(Probe(s'.high, now)) && s.high < s'.high))
    && (s.high < s'.high && s.high <= o < s'.high ==> sent == [now])
    && (s.high < s'.high && o < s.high ==> sent == [])
    && (s.high == s'.high && o < s.high && sent != [] ==>
          s'.timed.None? && s.rtoStart.Some? && now - s.rtoStart.value >= s.rto)
  }

  predicate SameEstimate(s: Sender, s': Sender) { s'.srtt == s.srtt && s'.rttvar == s.rttvar }

  lemma SendTimers(id: nat, s: Sender, now: nat, o: int)
    requires Buffered(s) && Bounds(s) && TimerRuns(s, now)
    ensures RoundEffect(s, SendData(id, s, now).0, now, o, Transmissions(Stamp(now, SendData(id, s, now).1), o))
  {
    var (s', frames) := SendData(id, s, now);
    if s.high < SendEnd(s) {
      ChunksOnce(id, s, s.high, SendEnd(s), now, o);
    } else if s.base < s.high {
      ChunksOnce(id, s, s.base, s.high, now, o);
      if frames == [] { NotCarried(now, [], o); }
    } else {
      NotCarried(now, frames, o);
    }
  }

  /** Frames without data add no transmissions around those that have. */
  lemma AroundData(tick: nat, a: seq<Frame>, data: seq<Frame>, c: seq<Frame>, d: seq<Frame>, o: int)
    requires forall f | f in a || f in c || f in d :: !f.StreamData?
    ensures Transmissions(Stamp(tick, a + data + c + d), o) == Transmissions(Stamp(tick, data), o)
  {
    StampConcat(tick, a + data + c, d, o);
    StampConcat(tick, a + data, c, o);
    StampConcat(tick, a, data, o);
    NotCarried(tick, a, o);
    NotCarried(tick, c, o);
    NotCarried(tick, d, o);
  }

  lemma RoundTransmissions(s: Stream, now: nat, o: int)
    requires Buffered(s.snd)
    ensures Transmissions(Stamp(now, TransmitFrames(s, now)), o)
         == Transmissions(Stamp(now, SendData(s.id, s.snd, now).1), o)
  {
    var (snd, data) := SendData(s.id, s.snd, now);
    AroundData(now, OpenFrames(s), data, AckFrames(s), CloseFrames(s, snd.finAcked), o);
  }

  lemma NeverSent(s: Side, o: int)
    requires OutInv(s) && s.st.snd.high <= o
    ensures Transmissions(s.out, o) == []
  {
    forall e | e in s.out ensures TickOf(o)(e) == [] {
      var i :| 0 <= i < |s.out| && s.out[i] == e;
      assert FrameInv(s, s.out[i].frame);
    }
    FlatMapNone(TickOf(o), s.out);
  }

  lemma LogGrows(out: seq<Sent>, tick: nat, frames: seq<Frame>, o: int)
    ensures Transmissions(out + Stamp(tick, frames), o) == Transmissions(out, o) + Transmissions(Stamp(tick, frames), o)
  {
    FlatMapConcat(TickOf(o), out, Stamp(tick, frames));
  }

  lemma PollTransmissions(s: Side, o: int)
    requires Buffered(s.st.snd)
    ensures Transmissions(Poll(s).out, o) == Transmissions(s.out, o)
      + (if s.st.reset then [] else Transmissions(Stamp(s.now + 1, SendData(s.st.id, s.st.snd, s.now + 1).1), o))
  {
    LogGrows(s.out, s.now + 1, PolledFrames(s.st, s.now + 1), o);
    if s.st.reset {
      NotCarried(s.now + 1, PolledFrames(s.st, s.now + 1), o);
    } else {
      RoundTransmissions(s.st, s.now + 1, o);
    }
  }

  lemma PollTimers(s: Side)
    requires SenderInv(s) && OutInv(s) && TimerInv(s)
    ensures TimerInv(Poll(s)) && SameEstimate(s.st.snd, Poll(s).st.snd)
  {
    if s.st.reset {
      if s.st.snd.timed.Some? { PollTransmissions(s, s.st.snd.timed.value.end - 1); }
    } else {
      TransmitTimers(s, Poll(s));
    }
  }

  /** The effect of a poll on the timers and on the transmissions of one byte. */
  lemma PollEffect(s: Side, o: int) returns (sent: seq<nat>)
    requires SenderInv(s) && TimerInv(s) && !s.st.reset
    ensures RoundEffect(s.st.snd, Poll(s).st.snd, s.now + 1, o, sent)
    ensures Transmissions(Poll(s).out, o) == Transmissions(s.out, o) + sent
  {
    sent := Transmissions(Stamp(s.now + 1, SendData(s.st.id, s.st.snd, s.now + 1).1), o);
    SendTimers(s.st.id, s.st.snd, s.now + 1, o);
    PollTransmissions(s, o);
  }

  lemma TransmitTimers(s: Side, s': Side)
    requires SenderInv(s) && OutInv(s) && TimerInv(s) && !s.st.reset && s' == Poll(s)
    ensures TimerInv(s') && SameEstimate(s.st.snd, s'.st.snd)
  {
    var timed := s'.st.snd.timed;
    var o := if timed.Some? then timed.value.end - 1 else 0;
    var sent := PollEffect(s, o);
    if o >= s.st.snd.high { NeverSent(s, o); }
    ProbeAfter(s, s', o, sent);
  }

  lemma ProbeAfter(s: Side, s': Side, o: int, sent: seq<nat>)
    requires TimerInv(s) && s'.now == s.now + 1
    requires RoundEffect(s.st.snd, s'.st.snd, s'.now, o, sent)
    requires Transmissions(s'.out, o) == Transmissions(s.out, o) + sent
    requires o >= s.st.snd.high ==> Transmissions(s.out, o) == []
    requires s'.st.snd.timed.Some? ==> o == s'.st.snd.timed.value.end - 1
    ensures TimerInv(s')
  {
  }

  lemma AckStepTimers(s: Side, ack: nat, window: nat, s': Side)
    requires Buffered(s.st.snd) && TimerInv(s)
    requires s'.st.snd == OnAck(s.st.snd, ack, window, s.now) && s'.now == s.now && s'.out == s.out
    ensures TimerInv(s')
    ensures s.st.snd.srtt > 0 ==> s'.st.snd.srtt > 0
  {
    AckTimers(s.st.snd, ack, window, s.now, s'.st.snd);
  }

  /** Steps that leave the log, the clock and the timed part of the send state alone. */
  lemma IdleTimers(s: Side, s': Side)
    requires TimerInv(s) && s'.now == s.now && s'.out == s.out
    requires s'.st.snd == s.st.snd.(buf := s'.st.snd.buf, next := s'.st.snd.next, fin := s'.st.snd.fin)
    ensures TimerInv(s') && SameEstimate(s.st.snd, s'.st.snd)
  {
  }

  lemma StepTimers(me: Side, peer: Side, a: Action)
    requires SenderInv(me) && OutInv(me) && TimerInv(me)
    ensures TimerInv(Act(me, peer, a))
    ensures me.st.snd.srtt > 0 ==> Act(me, peer, a).st.snd.srtt > 0
  {
    if !me.retired {
      if a.DoPoll? {
        PollTimers(me);
      } else if a.Deliver? && a.index < |peer.out| && peer.out[a.index].frame.StreamAck? {
        var f := peer.out[a.index].frame;
        AckStepTimers(me, f.ack, f.window, Act(me, peer, a));
      } else {
        IdleAct(me, peer, a);
        IdleTimers(me, Act(me, peer, a));
      }
    }
  }

  lemma IdleAct(me: Side, peer: Side, a: Action)
    requires Buffered(me.st.snd) && !me.retired && !a.DoPoll?
    requires a.Deliver? && a.index < |peer.out| ==> !peer.out[a.index].frame.StreamAck?
    ensures var r := Act(me, peer, a);
            && r.now == me.now && r.out == me.out
            && r.st.snd == me.st.snd.(buf := r.st.snd.buf, next := r.st.snd.next, fin := r.st.snd.fin)
  {
  }

  lemma {:induction false} RunTimers(l: Link, events: seq<Event>)
    requires Inv(l) && TimerInv(l.a) && TimerInv(l.b)
    ensures var r := RunLink(l, events);
            && TimerInv(r.a) && TimerInv(r.b)
            && (l.a.st.snd.srtt > 0 ==> r.a.st.snd.srtt > 0) && (l.b.st.snd.srtt > 0 ==> r.b.st.snd.srtt > 0)
    decreases |events|
  {
    if events != [] {
      var e := events[0];
      if e.who.A? { StepTimers(l.a, l.b, e.action); } else { StepTimers(l.b, l.a, e.action); }
      StepInv(l, e);
      RunTimers(Step(l, e), events[1..]);
    }
  }

  /**
    * In every reachable state: MIN_RTO <= rto <= MAX_RTO, MSS <= cwnd <= MAX_CWND, ssthresh >= 2 MSS,
    * outstanding data has a running timer, and an open round-trip probe covers a byte that was
    * transmitted exactly once, at the tick the probe records.
    */
  lemma TimersHold(l: Link)
    requires Reachable(l)
    ensures TimerInv(l.a) && TimerInv(l.b)
  {
    var c, events :| IsRun(c, events, l);
    InitInv(c);
    RunTimers(Init(c), events);
  }

  /** Once a round-trip estimate exists it never returns to "no sample", whatever happens next. */
  lemma EstimateStays(l: Link, events: seq<Event>)
    requires Reachable(l)
    ensures Inv(l)
    ensures l.a.st.snd.srtt > 0 ==> RunLink(l, events).a.st.snd.srtt > 0
    ensures l.b.st.snd.srtt > 0 ==> RunLink(l, events).b.st.snd.srtt > 0
  {
    ReachableInv(l);
    TimersHold(l);
    RunTimers(l, events);
  }

  predicate Folds(s: Sender, s': Sender, r: nat) {
    s'.srtt == SmoothedRtt(s.srtt, r) && s'.rttvar == SmoothedVar(s.srtt, s.rttvar, r)
  }

  lemma AckSample(s: Sender, ack: nat, window: nat, now: nat, s': Sender)
    requires s' == OnAck(s, ack, window, now)
    ensures SameEstimate(s, s')
         || (s.timed.Some? && s.timed.value.end <= ack && Folds(s, s', Max(Elapsed(now, s.timed.value.sent), 1)))
  {
  }

  /**
    * Taking in the frame `f` folds one sample into the estimate: the time since the probed byte,
    * which the frame acknowledges, was transmitted, and it was transmitted exactly once.
    */
  ghost predicate KarnSample(me: Side, f: Frame, s': Sender) {
    var s := me.st.snd;
    && f.StreamAck? && s.timed.Some?
    && var p := s.timed.value;
       && 0 < p.end <= f.ack && p.sent <= me.now && Transmissions(me.out, p.end - 1) == [p.sent]
       && Folds(s, s', Max(me.now - p.sent, 1))
  }

  /** Karn: whatever a side does, its round-trip estimate is unchanged or folds in one unambiguous sample. */
  lemma SamplesAreKarn(l: Link, a: Action)
    requires Reachable(l)
    ensures Inv(l)
    ensures SameEstimate(l.a.st.snd, Act(l.a, l.b, a).st.snd)
         || (a.Deliver? && a.index < |l.b.out| && KarnSample(l.a, l.b.out[a.index].frame, Act(l.a, l.b, a).st.snd))
  {
    ReachableInv(l);
    TimersHold(l);
    StepSample(l.a, l.b, a);
  }

  lemma StepSample(me: Side, peer: Side, a: Action)
    requires SenderInv(me) && OutInv(me) && TimerInv(me)
    ensures SameEstimate(me.st.snd, Act(me, peer, a).st.snd)
         || (a.Deliver? && a.index < |peer.out| && KarnSample(me, peer.out[a.index].frame, Act(me, peer, a).st.snd))
  {
    if me.retired {
    } else if a.DoPoll? {
      PollTimers(me);
    } else if a.Deliver? && a.index < |peer.out| && peer.out[a.index].frame.StreamAck? {
      var f, s := peer.out[a.index].frame, me.st.snd;
      AckSample(s, f.ack, f.window, me.now, OnAck(s, f.ack, f.window, me.now));
    } else {
      IdleAct(me, peer, a);
    }
  }

  /** A byte that was sent before is sent again only when `rto` ticks have passed since the timer was last set. */
  lemma RetransmitsOnlyWhenDue(l: Link, f: Frame, o: int)
    requires Reachable(l)
    ensures Inv(l)
    ensures f in PolledFrames(l.a.st, l.a.now + 1) && Carries(f, o) && o < l.a.st.snd.high ==>
            l.a.st.snd.rtoStart.Some? && l.a.now + 1 - l.a.st.snd.rtoStart.value >= l.a.st.snd.rto
  {
    ReachableInv(l);
    TimersHold(l);
    if f in PolledFrames(l.a.st, l.a.now + 1) && Carries(f, o) && o < l.a.st.snd.high && !l.a.st.reset {
      RoundFrames(l.a.st, l.a.now + 1, f);
      SentAgain(l.a.st.id, l.a.st.snd, l.a.now + 1, l.a.written, f, o);
    }
  }

  lemma SentAgain(id: nat, s: Sender, now: nat, written: seq<byte>, f: Frame, o: int)
    requires Buffered(s) && s.next == |written| && s.buf == written[s.base..]
    requires TimerRuns(s, now) && f in SendData(id, s, now).1 && Carries(f, o) && o < s.high
    ensures s.rtoStart.Some? && now - s.rtoStart.value >= s.rto
  {
    if s.high < SendEnd(s) {
      NewIsNew(id, s, written, f);
    }
  }

  lemma NewIsNew(id: nat, snd: Sender, written: seq<byte>, f: Frame)
    requires Buffered(snd) && snd.next == |written| && snd.buf == written[snd.base..] && snd.high < SendEnd(snd)
    requires f in Chunks(id, snd, snd.high, SendEnd(snd))
    ensures f.StreamData? && snd.high <= f.offset
  {
    var data := Chunks(id, snd, snd.high, SendEnd(snd));
    var i :| 0 <= i < |data| && data[i] == f;
    ChunksCarry(id, snd, snd.high, SendEnd(snd), written, i);
  }
}
