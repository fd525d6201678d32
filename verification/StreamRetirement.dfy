/** When a stream is given up: nothing is lost by it, and it does happen. */
module StreamRetirement {
  import opened Common
  import opened Wire
  import opened Reassembly
  import opened StreamSpec
  import opened StreamProtocol
  import opened StreamSafety

  /** Our FIN is acknowledged, and everything up to the peer's FIN has been read. */
  ghost predicate BothDone(s: Stream) {
    && s.snd.finAcked && s.peerFin.Some?
    && s.rcv.delivered >= s.peerFin.value && AckPoint(s.rcv) == s.rcv.delivered
  }

  /** The peer closed long ago and its FIN never came. */
  ghost predicate GraceOver(s: Stream) { s.closeReceived && s.closeTicks >= 100 }

  /** A side that was not aborted is given up only after it closed, with both directions done or the grace over. */
  ghost predicate GivenUpRightly(s: Side) {
    s.retired && !s.st.reset ==> s.st.snd.fin && (BothDone(s.st) || GraceOver(s.st))
  }

  lemma GivenUpRightlyKept()
    ensures HoldsAtStart(GivenUpRightly) && KeptByActs(GivenUpRightly)
  {
  }

  lemma GivenUpOnlyWhenDone(l: Link)
    requires Reachable(l)
    ensures GivenUpRightly(l.a) && GivenUpRightly(l.b)
  {
    GivenUpRightlyKept();
    InEveryRun(GivenUpRightly, l);
  }

  /**
    * In every run: if a side was given up without an abort and before the grace ran out, and
    * nobody wrote after closing, the peer holds all it wrote and it has read all the peer wrote.
    */
  lemma RetirementLosesNothing(l: Link)
    requires Reachable(l) && l.a.retired && !l.a.st.reset
    requires !l.a.wroteAfterClose && !l.b.wroteAfterClose
    requires !(l.a.st.closeReceived && l.a.st.closeTicks >= 100)
    ensures HoldsAll(l.a, l.b) && l.a.read == l.b.written
  {
    ReachableInv(l);
    GivenUpOnlyWhenDone(l);
    FinAckedHoldsAll(l.a, l.b);
    FinishedReadAll(l.b, l.a);
  }

  /** Conversely, the next poll gives up a side that was aborted, or has closed with both directions done or the grace over. */
  lemma PollGivesUp(s: Side)
    requires Buffered(s.st.snd) && (s.st.reset || (s.st.snd.fin && (BothDone(s.st) || GraceOver(s.st))))
    ensures Poll(s).retired
    ensures s.st.reset ==> PolledFrames(s.st, s.now + 1) == [StreamReset(s.st.id)]
  {
  }

  /** The grace is counted in polls that find us closed, the peer's close seen, and its FIN missing. */
  lemma GraceCounts(me: Side, peer: Side, a: Action)
    requires Buffered(me.st.snd) && !me.retired
    ensures Act(me, peer, a).st.closeTicks ==
            if a.DoPoll? && !me.st.reset && me.st.closeReceived && me.st.snd.fin && me.st.peerFin.None?
            then Min(me.st.closeTicks + 1, 0xFFFF_FFFF) else me.st.closeTicks
  {
  }

  /** A side that has read all the peer wrote, and knows the peer's FIN, reports end of input. */
  lemma ReadAllIsFinished(l: Link)
    requires Reachable(l) && !l.a.wroteAfterClose && l.b.st.peerFin.Some? && l.b.read == l.a.written
    ensures RecvFinished(l.b.st)
  {
    ReachableInv(l);
    AckPointBound(l.a, l.b);
  }
}
