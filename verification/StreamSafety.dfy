/** What every run of two honest endpoints guarantees about the bytes of a stream. */
module StreamSafety {
  import opened Common
  import opened Wire
  import opened Reassembly
  import opened StreamSpec
  import opened StreamProtocol

  /**
    * Both ends know the stream, which either of them opened; each mux may have been ticking
    * for any time.
    */
  datatype Setup = Setup(id: nat, kind: StreamKind, meta: seq<byte>, aOpened: bool, nowA: nat, nowB: nat)

  function Init(c: Setup): Link {
    Link(NewSide(NewStream(c.id, c.kind, c.meta, c.aOpened), c.nowA),
         NewSide(NewStream(c.id, c.kind, c.meta, !c.aOpened), c.nowB))
  }

  lemma InitInv(c: Setup)
    ensures Inv(Init(c))
  {
  }

  ghost predicate IsRun(c: Setup, events: seq<Event>, l: Link) {
    InitInv(c);
    l == RunLink(Init(c), events)
  }

  /** States reached from a fresh stream by some run. */
  ghost predicate Reachable(l: Link) { exists c, events :: IsRun(c, events, l) }

  lemma ReachableInv(l: Link)
    requires Reachable(l)
    ensures Inv(l)
  {
    var c, events :| IsRun(c, events, l);
    InitInv(c);
  }

  lemma {:induction false} RunThenStep(l: Link, events: seq<Event>, e: Event)
    requires Inv(l)
    ensures RunLink(l, events + [e]) == Step(RunLink(l, events), e)
    decreases |events|
  {
    if events == [] {
      assert events + [e] == [e];
      StepInv(l, e);
      assert RunLink(Step(l, e), [e][1..]) == Step(l, e);
    } else {
      StepInv(l, events[0]);
      assert (events + [e])[1..] == events[1..] + [e];
      RunThenStep(Step(l, events[0]), events[1..], e);
    }
  }

  lemma ReachableStep(l: Link, e: Event)
    requires Reachable(l)
    ensures Inv(l) && Reachable(Step(l, e))
  {
    ReachableInv(l);
    var c, events :| IsRun(c, events, l);
    InitInv(c);
    RunThenStep(Init(c), events, e);
    assert IsRun(c, events + [e], Step(l, e));
  }

  function Mirror(l: Link): Link { Link(l.b, l.a) }

  function MirrorEvents(events: seq<Event>): seq<Event> {
    if events == [] then []
    else [Event(if events[0].who.A? then B else A, events[0].action)] + MirrorEvents(events[1..])
  }

  lemma {:induction false} MirrorRun(l: Link, events: seq<Event>)
    requires Inv(l)
    ensures Inv(Mirror(l)) && RunLink(Mirror(l), MirrorEvents(events)) == Mirror(RunLink(l, events))
    decreases |events|
  {
    if events != [] {
      StepInv(l, events[0]);
      MirrorRun(Step(l, events[0]), events[1..]);
      assert MirrorEvents(events)[1..] == MirrorEvents(events[1..]);
    }
  }

  /** The two sides are interchangeable: what is proved of side `a` holds of side `b`. */
  lemma ReachableMirror(l: Link)
    requires Reachable(l)
    ensures Reachable(Mirror(l))
  {
    var c, events :| IsRun(c, events, l);
    InitInv(c);
    MirrorRun(Init(c), events);
    var c' := c.(aOpened := !c.aOpened, nowA := c.nowB, nowB := c.nowA);
    assert Init(c') == Mirror(Init(c));
    assert IsRun(c', MirrorEvents(events), Mirror(l));
  }

  ghost predicate SafeDirection(s: Side, r: Side) {
    && r.read <= s.written
    && s.st.snd.base <= AckPoint(r.st.rcv) <= s.st.snd.high <= s.st.snd.next == |s.written|
    && s.st.snd.buf == s.written[s.st.snd.base..]
  }

  /**
    * Whatever is lost, duplicated or reordered: what was read is a prefix of what was written,
    * and no byte leaves the send buffer before the receiver holds it contiguously.
    */
  lemma EndToEnd(l: Link)
    requires Reachable(l)
    ensures SafeDirection(l.a, l.b) && SafeDirection(l.b, l.a)
  {
    ReachableInv(l);
    AckPointBound(l.a, l.b);
    AckPointBound(l.b, l.a);
  }

  ghost predicate HoldsAll(s: Side, r: Side) {
    && AckPoint(r.st.rcv) == |s.written|
    && r.read + Run(r.st.rcv.held, r.st.rcv.delivered) == s.written
  }

  lemma FinishedReadAll(s: Side, r: Side)
    requires Dir(s, r) && !s.wroteAfterClose && RecvFinished(r.st)
    ensures r.read == s.written
  {
    AckPointBound(s, r);
  }

  lemma FinAckedHoldsAll(s: Side, r: Side)
    requires Dir(s, r) && !s.wroteAfterClose && s.st.snd.finAcked
    ensures HoldsAll(s, r)
  {
    AckPointBound(s, r);
    var d, e := r.st.rcv.delivered, AckPoint(r.st.rcv);
    assert Run(r.st.rcv.held, d) == s.written[d..e];
  }

  /**
    * If the peer never writes after closing, a recorded FIN offset is the total it wrote, and
    * a stream that reports end of input has handed all of it to the application.
    */
  lemma FinIsTheEnd(l: Link)
    requires Reachable(l) && !l.a.wroteAfterClose
    ensures l.b.st.peerFin.Some? ==> l.a.st.snd.fin && l.b.st.peerFin.value == |l.a.written|
    ensures RecvFinished(l.b.st) ==> l.b.read == l.a.written
  {
    ReachableInv(l);
    if RecvFinished(l.b.st) { FinishedReadAll(l.a, l.b); }
  }

  // ---------------------------------------------------------------- properties of one side in every run

  /** The property survives whatever the side does and is handed. */
  ghost predicate KeptByActs(p: Side -> bool) {
    forall me, peer, a {:trigger Act(me, peer, a)} |
      SenderInv(me) && OutInv(me) && p(me) :: p(Act(me, peer, a))
  }

  ghost predicate HoldsAtStart(p: Side -> bool) {
    forall id, kind, meta, needsOpen, now {:trigger NewSide(NewStream(id, kind, meta, needsOpen), now)} ::
      p(NewSide(NewStream(id, kind, meta, needsOpen), now))
  }

  lemma {:induction false} RunKeeps(p: Side -> bool, l: Link, events: seq<Event>)
    requires Inv(l) && KeptByActs(p) && p(l.a) && p(l.b)
    ensures p(RunLink(l, events).a) && p(RunLink(l, events).b)
    decreases |events|
  {
    if events != [] {
      StepInv(l, events[0]);
      RunKeeps(p, Step(l, events[0]), events[1..]);
    }
  }

  lemma InEveryRun(p: Side -> bool, l: Link)
    requires Reachable(l) && HoldsAtStart(p) && KeptByActs(p)
    ensures p(l.a) && p(l.b)
  {
    var c, events :| IsRun(c, events, l);
    InitInv(c);
    RunKeeps(p, Init(c), events);
  }
}
