/** What the congestion window, the round-trip estimate and the retransmission timer do over many events. */
module StreamCongestion {
  import opened Common
  import opened StreamSpec
  import opened StreamProtocol
  import opened StreamSafety
  import opened StreamTimers
  import opened StreamSending

  /** The window after a series of acknowledgements. */
  function Grown(cwnd: nat, ssthresh: nat, acks: seq<nat>): nat
    decreases |acks|
  {
    if acks == [] then cwnd else Grown(GrownCwnd(cwnd, ssthresh, acks[0]), ssthresh, acks[1..])
  }

  /** Slow start: every acknowledged segment adds one, so a full window of them doubles the window. */
  lemma {:induction false} SlowStartDoubles(cwnd: nat, ssthresh: nat, acks: seq<nat>)
    requires forall i | 0 <= i < |acks| :: MSS <= acks[i] < U32_LIMIT
    requires cwnd + |acks| * MSS <= Min(ssthresh, MAX_CWND)
    ensures Grown(cwnd, ssthresh, acks) == cwnd + |acks| * MSS
    ensures cwnd == |acks| * MSS ==> Grown(cwnd, ssthresh, acks) == 2 * cwnd
    decreases |acks|
  {
    if acks != [] {
      assert GrownCwnd(cwnd, ssthresh, acks[0]) == cwnd + MSS;
      SlowStartDoubles(cwnd + MSS, ssthresh, acks[1..]);
    }
  }

  lemma Ordered(x: nat, y: nat, c: nat)
    ensures x <= y ==> x * c <= y * c
  {
  }

  lemma QuotientBounds(n: nat, a: nat)
    requires 0 < a
    ensures (n / a) * a <= n < (n / a + 1) * a
  {
    assert n == (n / a) * a + n % a;
    assert (n / a + 1) * a == (n / a) * a + a;
  }

  lemma QuotientShrinks(n: nat, a: nat, b: nat)
    requires 0 < a <= b
    ensures n / b <= n / a
  {
    var p, q := n / a, n / b;
    Ordered(p + 1, q, a);
    Ordered(a, b, q);
    QuotientBounds(n, a);
    QuotientBounds(n, b);
  }

  lemma AvoidanceStep(low: nat, cwnd: nat, ssthresh: nat, acked: nat)
    requires MSS <= low <= cwnd <= MAX_CWND && ssthresh <= cwnd
    ensures cwnd <= GrownCwnd(cwnd, ssthresh, acked) <= cwnd + MSS * MSS / low
    ensures GrownCwnd(cwnd, ssthresh, acked) <= MAX_CWND
  {
    QuotientShrinks(MSS * MSS, low, cwnd);
    QuotientShrinks(MSS * MSS, cwnd, MAX_CWND);
  }

  lemma OneMore(n: nat, q: nat)
    ensures (n + 1) * q == n * q + q && n * q >= 0
  {
  }

  /** Each acknowledgement in slow start adds what it acknowledges, up to one segment; the window never exceeds 256 KiB. */
  lemma SlowStartRate(cwnd: nat, ssthresh: nat, acked: nat)
    requires cwnd < ssthresh && acked < U32_LIMIT
    ensures GrownCwnd(cwnd, ssthresh, acked) ==
            var grown := cwnd + (if acked < 1024 then acked else 1024); if grown <= 0x4_0000 then grown else 0x4_0000
  {
  }

  /** Each acknowledgement in congestion avoidance adds a segment's share of a segment: MSS * MSS / cwnd bytes, rounded down. */
  lemma AvoidanceRate(cwnd: nat, ssthresh: nat, acked: nat)
    requires 1024 <= cwnd <= 0x4_0000 - 1024 && ssthresh <= cwnd
    ensures var inc := GrownCwnd(cwnd, ssthresh, acked) - cwnd;
            inc * cwnd <= 1024 * 1024 < (inc + 1) * cwnd
  {
    QuotientBounds(1024 * 1024, cwnd);
    QuotientShrinks(1024 * 1024, 1024, cwnd);
    QuotientShrinks(1024 * 1024, cwnd, 0x4_0000);
  }

  lemma {:induction false} AvoidanceGrowth(low: nat, cwnd: nat, ssthresh: nat, acks: seq<nat>, q: nat)
    requires MSS <= low <= cwnd <= MAX_CWND && ssthresh <= cwnd && q == MSS * MSS / low
    ensures cwnd <= Grown(cwnd, ssthresh, acks) <= cwnd + |acks| * q
    decreases |acks|
  {
    if acks != [] {
      var next, rest := GrownCwnd(cwnd, ssthresh, acks[0]), acks[1..];
      assert cwnd <= next <= cwnd + q && next <= MAX_CWND by { AvoidanceStep(low, cwnd, ssthresh, acks[0]); }
      AvoidanceGrowth(low, next, ssthresh, rest, q);
      assert |acks| * q == |rest| * q + q by { OneMore(|rest|, q); }
    }
  }

  /** Congestion avoidance: one window's worth of acknowledged segments adds at most one segment, and never shrinks the window. */
  lemma AvoidanceAddsOneSegment(cwnd: nat, ssthresh: nat, acks: seq<nat>)
    requires MSS <= cwnd <= MAX_CWND && ssthresh <= cwnd && |acks| * MSS <= cwnd
    ensures cwnd <= Grown(cwnd, ssthresh, acks) <= cwnd + MSS
  {
    AvoidanceGrowth(cwnd, cwnd, ssthresh, acks, MSS * MSS / cwnd);
    Share(|acks|, cwnd);
  }

  lemma Share(n: nat, c: nat)
    requires 0 < c && n * MSS <= c
    ensures n * (MSS * MSS / c) <= MSS
  {
    var q := MSS * MSS / c;
    assert q * c <= MSS * MSS;
    assert q * (n * MSS) <= q * c;
    assert (q * n) * MSS == q * (n * MSS);
  }

  /** The estimate after a series of samples. */
  function Smoothed(srtt: nat, samples: seq<nat>): nat
    decreases |samples|
  {
    if samples == [] then srtt else Smoothed(SmoothedRtt(srtt, samples[0]), samples[1..])
  }

  /** The smoothed round-trip time never leaves the range of the samples it was made of. */
  lemma {:induction false} EstimateBetween(srtt: nat, samples: seq<nat>, lo: nat, hi: nat)
    requires 1 <= lo && (srtt == 0 ==> samples != []) && (srtt != 0 ==> lo <= srtt <= hi)
    requires forall i | 0 <= i < |samples| :: lo <= samples[i] <= hi
    ensures lo <= Smoothed(srtt, samples) <= hi
    decreases |samples|
  {
    if samples != [] {
      EstimateBetween(SmoothedRtt(srtt, samples[0]), samples[1..], lo, hi);
    }
  }

  function Pow2(n: nat): nat { if n == 0 then 1 else 2 * Pow2(n - 1) }

  /** The sender after `n` timeouts in a row. */
  function TimedOut(s: Sender, n: nat): Sender { if n == 0 then s else OnRto(TimedOut(s, n - 1)) }

  /** Timeouts in a row back off exponentially up to the cap, and keep the window at one segment. */
  lemma {:induction false} TimeoutsBackOff(s: Sender, n: nat)
    requires s.rto <= MAX_RTO && n >= 1
    ensures var t := TimedOut(s, n);
            && t.rto == Min(s.rto * Pow2(n), MAX_RTO) && t.cwnd == MSS && t.timed.None?
            && t.ssthresh == (if n == 1 then Max(s.cwnd / 2, 2 * MSS) else 2 * MSS)
  {
    if n > 1 {
      TimeoutsBackOff(s, n - 1);
      assert s.rto * Pow2(n) == 2 * (s.rto * Pow2(n - 1));
    } else {
      assert TimedOut(s, 1) == OnRto(s) && Pow2(1) == 2;
    }
  }

  // ---------------------------------------------------------------- acknowledgements

  /** An acknowledgement moves the base to it and takes the window; progress grows the congestion window and restarts or stops the timer. */
  lemma AckExact(s: Sender, ack: nat, window: nat, now: nat)
    requires Buffered(s) && s.base <= ack <= s.next
    ensures var t := OnAck(s, ack, window, now);
            && t.base == ack && t.high == Max(s.high, ack) && t.next == s.next && t.peerWindow == window && t.ssthresh == s.ssthresh
            && t.buf == s.buf[ack - s.base..]
            && t.cwnd == (if ack > s.base then GrownCwnd(s.cwnd, s.ssthresh, ack - s.base) else s.cwnd)
            && t.rtoStart == (if ack == s.base then s.rtoStart else if ack < s.high then Some(now) else None)
            && (t.finAcked <==> s.finAcked || (s.fin && s.finSent && ack == s.next))
  {
  }

  /** The sender after a series of acknowledgements. */
  function Acked(s: Sender, acks: seq<nat>, window: nat, now: nat): Sender
    decreases |acks|
  {
    if acks == [] then s else Acked(OnAck(s, acks[0], window, now), acks[1..], window, now)
  }

  /** Each acknowledgement covers at least one segment more than the one before. */
  ghost predicate BySegments(base: nat, acks: seq<nat>, next: nat)
    decreases |acks|
  {
    acks == [] || (base + MSS <= acks[0] <= next && acks[0] < base + U32_LIMIT && BySegments(acks[0], acks[1..], next))
  }

  lemma SlowStartStep(s: Sender, ack: nat, window: nat, now: nat)
    requires Buffered(s) && s.base + MSS <= ack <= s.next && ack < s.base + U32_LIMIT && s.cwnd + 1024 <= Min(s.ssthresh, MAX_CWND)
    ensures var t := OnAck(s, ack, window, now);
            Buffered(t) && t.cwnd == s.cwnd + 1024 && t.base == ack && t.next == s.next && t.ssthresh == s.ssthresh
  {
    AckExact(s, ack, window, now);
    assert GrownCwnd(s.cwnd, s.ssthresh, ack - s.base) == s.cwnd + 1024;
  }

  /** Slow start, on acknowledgements: each that covers a segment or more opens the window by one segment. */
  lemma {:induction false} SlowStartOnAcks(s: Sender, acks: seq<nat>, window: nat, now: nat)
    requires Buffered(s) && BySegments(s.base, acks, s.next) && s.cwnd + |acks| * 1024 <= Min(s.ssthresh, MAX_CWND)
    ensures Acked(s, acks, window, now).cwnd == s.cwnd + |acks| * 1024
    decreases |acks|
  {
    if acks != [] {
      SlowStartStep(s, acks[0], window, now);
      SlowStartOnAcks(OnAck(s, acks[0], window, now), acks[1..], window, now);
    }
  }

  // ---------------------------------------------------------------- the estimate and the timeout

  /** The open probe is covered. */
  predicate Sampled(s: Sender, ack: nat) { s.timed.Some? && s.timed.value.end <= ack }

  lemma AckFolds(s: Sender, ack: nat, window: nat, now: nat)
    requires ack <= s.next
    ensures var t := OnAck(s, ack, window, now);
            if !Sampled(s, ack) then t.srtt == s.srtt && t.rttvar == s.rttvar && t.timed == s.timed
            else
              var r := Max(now - s.timed.value.sent, 1);
              t.timed.None? && t.srtt == SmoothedRtt(s.srtt, r) && t.rttvar == SmoothedVar(s.srtt, s.rttvar, r)
  {
  }

  lemma Weights(srtt: nat, rttvar: nat, r: nat)
    ensures srtt == 0 ==> SmoothedRtt(srtt, r) == r && r - 1 <= 2 * SmoothedVar(srtt, rttvar, r) <= r
    ensures srtt > 0 ==> 7 * srtt + r - 7 <= 8 * SmoothedRtt(srtt, r) <= 7 * srtt + r
    ensures srtt > 0 ==>
            var spread := Max(srtt - r, r - srtt);
            3 * rttvar + spread - 3 <= 4 * SmoothedVar(srtt, rttvar, r) <= 3 * rttvar + spread
  {
  }

  /**
    * A covered probe is folded in and closed: the first sample is the estimate and half of it the
    * variance; later ones weigh one eighth and one quarter, rounded down.
    */
  lemma SampleWeights(s: Sender, ack: nat, window: nat, now: nat)
    requires Buffered(s) && s.base <= ack <= s.next
    ensures var t := OnAck(s, ack, window, now);
            if !Sampled(s, ack) then t.srtt == s.srtt && t.rttvar == s.rttvar && t.timed == s.timed
            else
              var r := Max(now - s.timed.value.sent, 1);
              && t.timed.None?
              && (s.srtt == 0 ==> t.srtt == r && r - 1 <= 2 * t.rttvar <= r)
              && (s.srtt > 0 ==>
                    && 7 * s.srtt + r - 7 <= 8 * t.srtt <= 7 * s.srtt + r
                    && 3 * s.rttvar + Max(s.srtt - r, r - s.srtt) - 3 <= 4 * t.rttvar <= 3 * s.rttvar + Max(s.srtt - r, r - s.srtt))
  {
    if Sampled(s, ack) {
      var r := Max(now - s.timed.value.sent, 1);
      Weights(s.srtt, s.rttvar, r);
    }
    AckFolds(s, ack, window, now);
  }

  /**
    * After an acknowledgement that makes progress or takes a sample, the timeout covers the estimate
    * and four variances, is above the estimate unless capped, and is no more than that asks for.
    */
  lemma TimeoutAfterAck(s: Sender, ack: nat, window: nat, now: nat)
    requires Buffered(s) && s.base <= ack <= s.next
    ensures var t := OnAck(s, ack, window, now);
            if ack == s.base && !Sampled(s, ack) then t.rto == s.rto
            else if t.srtt == 0 then t.rto == 8
            else
              && t.rto >= Min(t.srtt + 4 * t.rttvar, 240) && (t.rto > t.srtt || t.rto == 240)
              && 2 <= t.rto <= Min(240, Max(2, t.srtt + Max(4 * t.rttvar, 1)))
  {
  }

  predicate Covering(s: Sender) { s.srtt > 0 ==> s.rto >= Min(s.srtt + Max(4 * s.rttvar, 1), 240) }

  /** The timeout covers the estimate. */
  ghost predicate Covered(s: Side) { Covering(s.st.snd) }

  lemma AckKeepsCovering(s: Sender, ack: nat, window: nat, now: nat)
    requires Covering(s)
    ensures Covering(OnAck(s, ack, window, now))
  {
  }

  lemma PollAct(me: Side, peer: Side)
    requires Buffered(me.st.snd) && !me.retired
    ensures Act(me, peer, DoPoll).st.snd == if me.st.reset then me.st.snd else SendData(me.st.id, me.st.snd, me.now + 1).0
  {
  }

  lemma AckAct(me: Side, peer: Side, i: nat)
    requires Buffered(me.st.snd) && !me.retired && i < |peer.out| && peer.out[i].frame.StreamAck?
    ensures Act(me, peer, Deliver(i)).st.snd == OnAck(me.st.snd, peer.out[i].frame.ack, peer.out[i].frame.window, me.now)
  {
  }

  lemma CoveredStep(me: Side, peer: Side, a: Action)
    requires Buffered(me.st.snd) && Covered(me)
    ensures Covered(Act(me, peer, a))
  {
    if !me.retired {
      if a.DoPoll? {
        PollAct(me, peer);
        PollKeepsEstimate(me.st.id, me.st.snd, me.now + 1);
      } else if a.Deliver? && a.index < |peer.out| && peer.out[a.index].frame.StreamAck? {
        var f := peer.out[a.index].frame;
        AckAct(me, peer, a.index);
        AckKeepsCovering(me.st.snd, f.ack, f.window, me.now);
      } else {
        IdleAct(me, peer, a);
      }
    }
  }

  lemma PollKeepsEstimate(id: nat, s: Sender, now: nat)
    requires Buffered(s)
    ensures var t := SendData(id, s, now).0;
            t.srtt == s.srtt && t.rttvar == s.rttvar && (t.rto == s.rto || t.rto == Min(2 * s.rto, 240))
  {
  }

  /** In every run the timeout covers the estimate and four variances, up to its cap, whatever was backed off. */
  lemma TimeoutCovers(l: Link)
    requires Reachable(l)
    ensures Covered(l.a) && Covered(l.b)
  {
    forall me, peer, a | SenderInv(me) && OutInv(me) && Covered(me) ensures Covered(Act(me, peer, a)) {
      CoveredStep(me, peer, a);
    }
    assert HoldsAtStart(Covered) && KeptByActs(Covered);
    InEveryRun(Covered, l);
  }

  // ---------------------------------------------------------------- what sending does to the sender

  /** Sending new data moves the high mark just past it, opens a probe on it if none is open, and starts the timer if it stands. */
  lemma NewDataEffects(id: nat, s: Sender, now: nat, o: int)
    requires Buffered(s) && Sendable(s, s.high)
    ensures var t := SendData(id, s, now).0;
            && (s.high <= o ==> (o < t.high <==> Sendable(s, o))) && t.high > s.high
            && t.timed == (if s.timed.None? then Some(Probe(t.high, now)) else s.timed)
            && t.rtoStart == (if s.rtoStart.None? then Some(now) else s.rtoStart)
            && t.cwnd == s.cwnd && t.ssthresh == s.ssthresh && t.rto == s.rto && t.base == s.base && t.buf == s.buf
  {
  }

  /** A retransmission collapses the window to one segment, halves the threshold, doubles the timeout, drops the probe and restarts the timer. */
  lemma TimeoutEffects(id: nat, s: Sender, now: nat)
    requires Buffered(s) && s.base < s.high && !Sendable(s, s.high)
    requires s.rtoStart.Some? ==> Max(0, now - s.rtoStart.value) >= s.rto
    ensures var t := SendData(id, s, now).0;
            && t.cwnd == 1024 && t.ssthresh == Max(s.cwnd / 2, 2048) && t.rto == Min(2 * s.rto, 240)
            && t.timed.None? && t.rtoStart == Some(now) && t.base == s.base && t.high == s.high && t.buf == s.buf
  {
  }
}
