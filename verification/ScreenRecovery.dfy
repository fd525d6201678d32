/** When a client that fell out of step, or was attached anew, gets the screen again, and when it does not. */
module ScreenRecovery {
  import opened Common
  import opened Screen
  import opened Diff
  import opened ScreenSync

  // ---------------------------------------------------------------- runs in pieces

  ghost predicate AllAllowed(events: seq<Event>) { forall e | e in events :: Allowed(e) }

  lemma {:induction false} RunConcat(x: Sync, a: seq<Event>, b: seq<Event>)
    requires Inv(x) && AllAllowed(a) && AllAllowed(b)
    ensures AllAllowed(a + b) && Run(x, a + b) == Run(Run(x, a), b)
    decreases |a|
  {
    if a == [] {
      assert a + b == b;
    } else {
      assert (a + b)[1..] == a[1..] + b;
      StepInv(x, a[0]);
      RunConcat(Step(x, a[0]), a[1..], b);
    }
  }

  lemma RunOne(x: Sync, e: Event)
    requires Inv(x) && Allowed(e)
    ensures Run(x, [e]) == Step(x, e)
  {
    StepInv(x, e);
    assert Run(Step(x, e), [e][1..]) == Step(x, e);
  }

  lemma RunThen(x: Sync, a: seq<Event>, e: Event)
    requires Inv(x) && AllAllowed(a) && Allowed(e)
    ensures AllAllowed(a + [e]) && Run(x, a + [e]) == Step(Run(x, a), e)
  {
    RunConcat(x, a, [e]);
    RunOne(Run(x, a), e);
  }

  // ---------------------------------------------------------------- reattaching

  predicate IsBlank(s: Screen) { s == BlankScreen(s.rows, s.cols) }

  /**
    * A new client is attached and the snapshot that is due arrives. Both ends settle exactly if
    * the screen is not blank, or it is blank, was never numbered and has the client's size.
    */
  lemma ReattachDelivered(x: Sync, rows: nat, cols: nat)
    requires Inv(x) && |x.server.screen.cells| <= MAX_CELLS
    ensures Inv(Step(x, Rebind(rows, cols)))
    ensures Settled(Exchange(Step(x, Rebind(rows, cols)))) <==>
            !IsBlank(x.server.screen) || (x.server.seqNo == 0 && SameSize(BlankScreen(rows, cols), x.server.screen))
  {
    StepInv(x, Rebind(rows, cols));
    SettlesIff(Step(x, Rebind(rows, cols)));
  }

  /**
    * If the first snapshot is lost it is not sent again: both ends settle exactly if the client
    * has the screen's size as well, and the screen is not blank or was never numbered.
    */
  lemma ReattachLost(x: Sync, rows: nat, cols: nat)
    requires Inv(x) && |x.server.screen.cells| <= MAX_CELLS
    ensures Inv(Step(x, Rebind(rows, cols))) && Inv(Step(Step(x, Rebind(rows, cols)), Poll))
    ensures Settled(Exchange(Step(Step(x, Rebind(rows, cols)), Poll))) <==>
            SameSize(BlankScreen(rows, cols), x.server.screen) && (!IsBlank(x.server.screen) || x.server.seqNo == 0)
  {
    var r := Step(x, Rebind(rows, cols));
    StepInv(x, Rebind(rows, cols));
    StepInv(r, Poll);
    SettlesIff(Step(r, Poll));
    LostChance(x, rows, cols);
  }

  lemma LostChance(x: Sync, rows: nat, cols: nat)
    requires Inv(x) && Inv(Step(x, Rebind(rows, cols))) && Inv(Step(Step(x, Rebind(rows, cols)), Poll))
    ensures CanSettle(Step(Step(x, Rebind(rows, cols)), Poll)) <==>
            SameSize(BlankScreen(rows, cols), x.server.screen) && (!IsBlank(x.server.screen) || x.server.seqNo == 0)
  {
    var r := Step(x, Rebind(rows, cols));
    var y := Step(r, Poll);
    PolledServer(r.server);
    assert y.client == NewClient(rows, cols) && y.server == Recorded(r.server).(forceFull := y.server.forceFull);
    assert y.server.forceFull ==> x.server.seqNo == 0 && IsBlank(x.server.screen);
  }

  // ---------------------------------------------------------------- an orphaned client

  /** The last screen sent is in the history, or nothing was sent since the blank base. */
  ghost predicate Traceable(s: Server) { s.seqNo in s.history || (0 in s.history && s.lastSent == s.history[0]) }

  /** Old acknowledgements name nothing in the history. */
  ghost predicate DeadAcks(x: Sync) {
    forall i | 0 <= i < |x.acks| :: x.acks[i] <= x.server.seqNo && (x.acks[i] == 0 || x.acks[i] !in x.server.history)
  }

  /** Deltas start from the blank base; snapshots are of the client's number or of one in the history. */
  ghost predicate OrphanDiffs(x: Sync) {
    forall i | 0 <= i < |x.diffs| ::
      if IsFull(x.diffs[i].data) then x.diffs[i].seqNo == x.client.current || x.diffs[i].seqNo in x.server.history
      else x.diffs[i].base == 0
  }

  /** The client holds a number that the server has no history for, and the screen keeps its size. */
  ghost predicate Orphaned(x: Sync) {
    && Inv(x) && !x.server.forceFull && x.server.acked == 0 < x.client.current <= x.server.seqNo
    && x.client.current !in x.server.history && SameSize(x.server.history[0], x.server.screen)
    && DeadAcks(x) && OrphanDiffs(x) && Traceable(x.server)
  }

  /** The snapshot after a reattach orphans the client exactly if the screen is blank and numbers are in use. */
  lemma ReattachOrphansIff(x: Sync, rows: nat, cols: nat)
    requires Inv(x) && |x.server.screen.cells| <= MAX_CELLS
    ensures Inv(Step(x, Rebind(rows, cols)))
    ensures Orphaned(DiffArrives(Step(x, Rebind(rows, cols)))) <==> x.server.seqNo >= 1 && IsBlank(x.server.screen)
  {
    var r := Step(x, Rebind(rows, cols));
    StepInv(x, Rebind(rows, cols));
    DiffArrivesExact(r);
    RecordedOk(r.server, r.screens);
    StepInv(r, Poll);
    if Sends(r.server) {
      assert Polled(r).diffs == [DiffFrame(Recorded(r.server).seqNo, 0, Encoded(None, r.server.screen))];
      IsFullExact(None, r.server.screen);
    }
  }

  /** What gets an orphan out: another size, a snapshot with a number in the history, or a new attachment. */
  ghost predicate OrphanEnds(x: Sync, e: Event)
    requires Inv(x)
  {
    match e
    case Show(screen) => !SameSize(screen, x.server.history[x.server.acked])
    case DeliverDiff(i) =>
      && i < |x.diffs| && IsFull(x.diffs[i].data) && x.diffs[i].seqNo in x.server.history
      && x.diffs[i].seqNo in x.screens && |x.screens[x.diffs[i].seqNo].cells| <= MAX_CELLS
    case Rebind(_, _) => true
    case _ => false
  }

  lemma FullData(d: DiffFrame, screens: map<int, Screen>)
    requires ScreensOk(screens) && DiffOk(d, screens)
    ensures IsFull(d.data) <==> d.data == Encoded(None, screens[d.seqNo])
  {
    IsFullExact(None, screens[d.seqNo]);
    if d.base in screens { IsFullExact(Some(screens[d.base]), screens[d.seqNo]); }
  }

  lemma FullStep(x: Sync, i: nat)
    requires Inv(x) && i < |x.diffs| && IsFull(x.diffs[i].data)
    ensures x.diffs[i].seqNo >= 1 && x.diffs[i].seqNo in x.screens
    ensures var d := x.diffs[i];
            Step(x, DeliverDiff(i)).client ==
            if |x.screens[d.seqNo].cells| <= MAX_CELLS then Client(x.screens[d.seqNo], d.seqNo) else x.client
  {
    var d := x.diffs[i];
    assert DiffOk(d, x.screens);
    FullData(d, x.screens);
    FullDelivered(x.client, d, None, x.screens[d.seqNo]);
  }

  lemma OrphanDeliver(x: Sync, i: nat)
    requires Orphaned(x)
    ensures Orphaned(Step(x, DeliverDiff(i))) <==> !OrphanEnds(x, DeliverDiff(i))
    ensures !OrphanEnds(x, DeliverDiff(i)) ==> Step(x, DeliverDiff(i)).client == x.client
  {
    StepInv(x, DeliverDiff(i));
    if i < |x.diffs| && IsFull(x.diffs[i].data) { FullStep(x, i); }
  }

  lemma OrphanPoll(x: Sync)
    requires Orphaned(x)
    ensures Orphaned(Step(x, Poll)) && Step(x, Poll).client == x.client
  {
    StepInv(x, Poll);
    RecordedOk(x.server, x.screens);
    var r := Recorded(x.server);
    assert Polled(x).diffs == x.diffs + [DiffFrame(r.seqNo, 0, Encoded(Some(r.history[0]), r.lastSent))];
    IsFullExact(Some(r.history[0]), r.lastSent);
  }

  /** Exactly those events end it, and until then the client's screen never changes, whatever is shown, sent and delivered. */
  lemma OrphanStep(x: Sync, e: Event)
    requires Orphaned(x) && Allowed(e)
    ensures Orphaned(Step(x, e)) <==> !OrphanEnds(x, e)
    ensures !OrphanEnds(x, e) ==> Step(x, e).client == x.client
  {
    match e
    case Poll => OrphanPoll(x);
    case DeliverDiff(i) => OrphanDeliver(x, i);
    case _ => StepInv(x, e);
  }

  // ---------------------------------------------------------------- a client stranded in another size

  /** The client never got a screen and has another size than the blank base that deltas start from. */
  ghost predicate Stranded(x: Sync) {
    && Inv(x) && !x.server.forceFull && x.server.acked == 0 == x.client.current
    && SameSize(x.server.history[0], x.server.screen) && !SameSize(x.client.grid, x.server.history[0])
    && (forall i | 0 <= i < |x.acks| :: x.acks[i] == 0) && Traceable(x.server)
  }

  /** Losing the snapshot strands the client exactly if one was sent, and the sizes differ. */
  lemma ReattachStrandsIff(x: Sync, rows: nat, cols: nat)
    requires Inv(x)
    ensures Inv(Step(x, Rebind(rows, cols)))
    ensures Stranded(Step(Step(x, Rebind(rows, cols)), Poll)) <==>
            !SameSize(BlankScreen(rows, cols), x.server.screen) && (!IsBlank(x.server.screen) || x.server.seqNo >= 1)
  {
    var r := Step(x, Rebind(rows, cols));
    StepInv(x, Rebind(rows, cols));
    StepInv(r, Poll);
  }

  /** What gets a stranded client out: another size, any snapshot, or a new attachment. */
  ghost predicate StrandedEnds(x: Sync, e: Event)
    requires Inv(x)
  {
    match e
    case Show(screen) => !SameSize(screen, x.server.history[x.server.acked])
    case DeliverDiff(i) =>
      && i < |x.diffs| && IsFull(x.diffs[i].data)
      && x.diffs[i].seqNo in x.screens && |x.screens[x.diffs[i].seqNo].cells| <= MAX_CELLS
    case Rebind(_, _) => true
    case _ => false
  }

  lemma StrandedDeliver(x: Sync, i: nat)
    requires Stranded(x)
    ensures Stranded(Step(x, DeliverDiff(i))) <==> !StrandedEnds(x, DeliverDiff(i))
    ensures !StrandedEnds(x, DeliverDiff(i)) ==> Step(x, DeliverDiff(i)).client == x.client
  {
    StepInv(x, DeliverDiff(i));
    if i < |x.diffs| {
      var d := x.diffs[i];
      if IsFull(d.data) {
        FullStep(x, i);
      } else {
        assert DiffOk(d, x.screens);
        FullData(d, x.screens);
        IsFullExact(Some(x.screens[d.base]), x.screens[d.seqNo]);
        if d.base == 0 { DeltaDelivered(x.client, d, x.screens[0], x.screens[d.seqNo]); }
      }
    }
  }

  /** Exactly those events end it, and until then the client stays blank. */
  lemma StrandedStep(x: Sync, e: Event)
    requires Stranded(x) && Allowed(e)
    ensures Stranded(Step(x, e)) <==> !StrandedEnds(x, e)
    ensures !StrandedEnds(x, e) ==> Step(x, e).client == x.client
  {
    StepInv(x, e);
    if e.DeliverDiff? { StrandedDeliver(x, e.i); }
  }

  // ---------------------------------------------------------------- a client set back by a stale snapshot

  /** The client is behind what it has acknowledged, and the screen keeps the acknowledged size. */
  ghost predicate SetBack(x: Sync) {
    && Attached(x) && x.client.current < x.server.acked && |x.server.screen.cells| <= MAX_CELLS
    && SameSize(x.server.history[x.server.acked], x.server.screen)
  }

  /** A full snapshot older than the acknowledged screen sets the client back. */
  lemma StaleFullSetsBack(x: Sync, i: nat)
    requires Attached(x) && i < |x.diffs| && IsFull(x.diffs[i].data) && x.diffs[i].seqNo < x.server.acked
    requires x.diffs[i].seqNo in x.screens && |x.screens[x.diffs[i].seqNo].cells| <= MAX_CELLS
    requires |x.server.screen.cells| <= MAX_CELLS && SameSize(x.server.history[x.server.acked], x.server.screen)
    ensures SetBack(Step(x, DeliverDiff(i))) && Step(x, DeliverDiff(i)).client.current == x.diffs[i].seqNo
  {
    DeliverAttached(x, i);
    FullStep(x, i);
  }

  /** The client takes the diff: it is full, or leads on from the client's number; and its target can be decoded. */
  ghost predicate Takes(x: Sync, d: DiffFrame)
    requires Inv(x)
  {
    && (IsFull(d.data) || (d.base == x.client.current && d.seqNo > x.client.current))
    && d.seqNo in x.screens && |x.screens[d.seqNo].cells| <= MAX_CELLS
  }

  lemma TakesExact(x: Sync, i: nat)
    requires Attached(x) && i < |x.diffs|
    ensures Step(x, DeliverDiff(i)).client ==
            if Takes(x, x.diffs[i]) then Client(x.screens[x.diffs[i].seqNo], x.diffs[i].seqNo) else x.client
  {
    var d := x.diffs[i];
    assert DiffOk(d, x.screens);
    if IsFull(d.data) {
      FullStep(x, i);
    } else {
      FullData(d, x.screens);
      IsFullExact(Some(x.screens[d.base]), x.screens[d.seqNo]);
      if d.base == x.client.current { DeltaDelivered(x.client, d, x.screens[d.base], x.screens[d.seqNo]); }
    }
  }

  /**
    * What ends it: another size, a diff still under way that leads to the acknowledged number or
    * beyond, a late acknowledgement of a screen of another size, or a new attachment.
    */
  ghost predicate SetBackEnds(x: Sync, e: Event)
    requires Inv(x)
  {
    match e
    case Show(screen) => !SameSize(screen, x.server.history[x.server.acked])
    case DeliverDiff(i) => i < |x.diffs| && Takes(x, x.diffs[i]) && x.diffs[i].seqNo >= x.server.acked
    case DeliverAck(i) =>
      && i < |x.acks| && x.acks[i] > x.server.acked && x.acks[i] in x.server.history
      && !SameSize(x.server.history[x.acks[i]], x.server.screen)
    case Rebind(_, _) => true
    case _ => false
  }

  lemma SetBackDeliver(x: Sync, i: nat)
    requires SetBack(x)
    ensures SetBack(Step(x, DeliverDiff(i))) <==> !SetBackEnds(x, DeliverDiff(i))
  {
    if i < |x.diffs| {
      DeliverAttached(x, i);
      TakesExact(x, i);
    }
  }

  lemma SetBackPoll(x: Sync)
    requires SetBack(x)
    ensures SetBack(Step(x, Poll))
  {
    PollAttached(x);
    RecordedOk(x.server, x.screens);
    PolledServer(x.server);
  }

  /** Exactly those events end it; every other one leaves the client behind. */
  lemma SetBackStep(x: Sync, e: Event)
    requires SetBack(x) && Allowed(e)
    ensures SetBack(Step(x, e)) <==> !SetBackEnds(x, e)
  {
    if e.Poll? {
      SetBackPoll(x);
    } else if e.DeliverDiff? {
      SetBackDeliver(x, e.i);
    } else if !e.Rebind? {
      StepAttached(x, e);
    }
  }

  // ---------------------------------------------------------------- stuck runs

  ghost predicate Stuck(x: Sync) { Orphaned(x) || Stranded(x) || SetBack(x) }

  ghost predicate Ends(x: Sync, e: Event)
    requires Inv(x)
  {
    || (Orphaned(x) && OrphanEnds(x, e)) || (Stranded(x) && StrandedEnds(x, e)) || (SetBack(x) && SetBackEnds(x, e))
  }

  /** No event of the run is one that gets the client out. */
  ghost predicate Endless(x: Sync, events: seq<Event>)
    requires Inv(x) && AllAllowed(events)
    decreases |events|
  {
    events != [] ==> !Ends(x, events[0]) && (StepInv(x, events[0]); Endless(Step(x, events[0]), events[1..]))
  }

  lemma StuckUnsettled(x: Sync)
    requires Stuck(x)
    ensures !Settled(x)
  {
    SettledIs(x);
  }

  lemma StuckStep(x: Sync, e: Event)
    requires Stuck(x) && Allowed(e) && !Ends(x, e)
    ensures Stuck(Step(x, e))
  {
    if Orphaned(x) {
      OrphanStep(x, e);
    } else if Stranded(x) {
      StrandedStep(x, e);
    } else {
      SetBackStep(x, e);
    }
  }

  /** Whatever else is shown, sent, lost, repeated and delivered, a stuck client and its server never settle. */
  lemma {:induction false} StuckRun(x: Sync, events: seq<Event>)
    requires Stuck(x) && AllAllowed(events) && Endless(x, events)
    ensures Stuck(Run(x, events)) && !Settled(Run(x, events))
    decreases |events|
  {
    if events == [] {
      StuckUnsettled(x);
    } else {
      StuckStep(x, events[0]);
      StuckRun(Step(x, events[0]), events[1..]);
    }
  }

  lemma StuckCannotSettle(x: Sync)
    requires Stuck(x)
    ensures !CanSettle(x)
  {
  }

  /** Once the screen takes another size, the next exchange settles. */
  lemma ResizeFrees(x: Sync, screen: Screen)
    requires Stuck(x) && Representable(screen) && |screen.cells| <= MAX_CELLS
    requires !SameSize(screen, x.server.history[x.server.acked])
    ensures Inv(Step(x, Show(screen))) && Settled(Exchange(Step(x, Show(screen))))
  {
    StepInv(x, Show(screen));
    SettlesIff(Step(x, Show(screen)));
  }

  // ---------------------------------------------------------------- runs that get stuck

  /** A blank screen with numbers in use is reached, and reattaching there orphans the client. */
  lemma OrphanIsReached(rows: nat, cols: nat, a: Screen, newRows: nat, newCols: nat)
    requires Representable(BlankScreen(rows, cols)) && |BlankScreen(rows, cols).cells| <= MAX_CELLS
    requires Representable(a) && a != BlankScreen(rows, cols)
    ensures Inv(Init(rows, cols, rows, cols))
    ensures var x := Run(Init(rows, cols, rows, cols), [Show(a), Poll, Show(BlankScreen(rows, cols)), Rebind(newRows, newCols)]);
            Orphaned(DiffArrives(x)) && !Settled(Exchange(x))
  {
    var x0, blank := Init(rows, cols, rows, cols), BlankScreen(rows, cols);
    InitInv(rows, cols, rows, cols);
    var e1, e2, e3, e4 := Show(a), Poll, Show(blank), Rebind(newRows, newCols);
    RunOne(x0, e1);
    RunThen(x0, [e1], e2);
    RunThen(x0, [e1] + [e2], e3);
    RunThen(x0, [e1] + [e2] + [e3], e4);
    assert [e1, e2, e3, e4] == [e1] + [e2] + [e3] + [e4];
    var x3 := Run(x0, [e1] + [e2] + [e3]);
    assert x3.server.seqNo == 1 && x3.server.screen == blank && IsBlank(blank);
    ReattachOrphansIff(x3, newRows, newCols);
    ReattachDelivered(x3, newRows, newCols);
  }

  /** Reattaching with another size and losing the one snapshot strands the client. */
  lemma StrandIsReached(rows: nat, cols: nat, a: Screen, newRows: nat, newCols: nat)
    requires Representable(BlankScreen(rows, cols)) && Representable(a) && |a.cells| <= MAX_CELLS
    requires !IsBlank(a) && !SameSize(BlankScreen(newRows, newCols), a)
    ensures Inv(Init(rows, cols, rows, cols))
    ensures var x := Run(Init(rows, cols, rows, cols), [Show(a), Rebind(newRows, newCols), Poll]);
            Stranded(x) && !Settled(Exchange(x))
  {
    var x0 := Init(rows, cols, rows, cols);
    InitInv(rows, cols, rows, cols);
    var e1, e2, e3 := Show(a), Rebind(newRows, newCols), Poll;
    RunOne(x0, e1);
    RunThen(x0, [e1], e2);
    RunThen(x0, [e1] + [e2], e3);
    assert [e1, e2, e3] == [e1] + [e2] + [e3];
    var x1 := Run(x0, [e1]);
    ReattachStrandsIff(x1, newRows, newCols);
    ReattachLost(x1, newRows, newCols);
  }

  /** Reattaching with another size to a screen that was never numbered sends nothing at all. */
  lemma SilenceIsReached(rows: nat, cols: nat, newRows: nat, newCols: nat)
    requires Representable(BlankScreen(rows, cols)) && |BlankScreen(rows, cols).cells| <= MAX_CELLS
    requires !SameSize(BlankScreen(newRows, newCols), BlankScreen(rows, cols))
    ensures Inv(Init(rows, cols, rows, cols))
    ensures var x := Run(Init(rows, cols, rows, cols), [Rebind(newRows, newCols)]);
            PolledDiff(x.server).1 == None && !Settled(Exchange(x))
  {
    var x0 := Init(rows, cols, rows, cols);
    InitInv(rows, cols, rows, cols);
    ReattachDelivered(x0, newRows, newCols);
    SilentRebind(x0, newRows, newCols);
    RunOne(x0, Rebind(newRows, newCols));
  }

  lemma SilentRebind(x: Sync, rows: nat, cols: nat)
    requires Inv(x) && Inv(Step(x, Rebind(rows, cols))) && x.server.seqNo == 0 && IsBlank(x.server.screen)
    ensures PolledDiff(Step(x, Rebind(rows, cols)).server).1 == None
  {
  }

  lemma FullPoll(x: Sync)
    requires Attached(x) && Sends(x.server) && !SameSize(x.server.history[x.server.acked], x.server.screen)
    ensures var s := Recorded(x.server); var y := Polled(x);
            && Attached(y) && y.server == s && y.client == x.client && y.acks == x.acks
            && y.diffs == x.diffs + [DiffFrame(s.seqNo, s.acked, Encoded(None, x.server.screen))]
            && y.screens == x.screens[s.seqNo := x.server.screen]
  {
    PollAttached(x);
    RecordedOk(x.server, x.screens);
  }

  ghost predicate AfterFirst(x: Sync, a: Screen, d: DiffFrame) {
    && Attached(x) && x.server.seqNo == 1 && x.server.acked == 0 && x.server.screen == x.server.lastSent == a
    && x.diffs == [d, d] && x.acks == [] && x.screens[1] == a && !SameSize(x.server.history[0], a)
  }

  /** `a` is shown and sent twice, and the first copy arrives. */
  lemma FirstHalf(rows: nat, cols: nat, a: Screen)
    requires Representable(BlankScreen(rows, cols)) && Representable(a) && !SameSize(BlankScreen(rows, cols), a) && |a.cells| <= MAX_CELLS
    ensures Inv(Init(rows, cols, rows, cols))
    ensures AfterFirst(Run(Init(rows, cols, rows, cols), [Show(a), Poll, Poll, DeliverDiff(0)]), a, DiffFrame(1, 0, Encoded(None, a)))
  {
    InitAttached(rows, cols);
    var x0 := Init(rows, cols, rows, cols);
    var d := DiffFrame(1, 0, Encoded(None, a));
    RunOne(x0, Show(a));
    RunThen(x0, [Show(a)], Poll);
    RunThen(x0, [Show(a)] + [Poll], Poll);
    RunThen(x0, [Show(a)] + [Poll] + [Poll], DeliverDiff(0));
    assert [Show(a), Poll, Poll, DeliverDiff(0)] == [Show(a)] + [Poll] + [Poll] + [DeliverDiff(0)];
    var x1 := Step(x0, Show(a));
    StepAttached(x0, Show(a));
    FullPoll(x1);
    FullPoll(Polled(x1));
    var x3 := Polled(Polled(x1));
    assert x3.diffs == [d, d];
    DeliverAttached(x3, 0);
  }

  ghost predicate AfterSecond(x: Sync, a: Screen, b: Screen, d: DiffFrame) {
    && Attached(x) && x.server.seqNo == 2 && x.server.acked == 2 && x.server.screen == b && x.server.history[2] == b
    && |x.diffs| == 3 && x.diffs[1] == d && 1 in x.screens && x.screens[1] == a
  }

  lemma SecondSent(x: Sync, a: Screen, b: Screen, d: DiffFrame)
    requires AfterFirst(x, a, d) && Representable(b) && SameSize(a, b) && a != b && |b.cells| <= MAX_CELLS
    ensures var y := Run(x, [Show(b), Poll, DeliverDiff(2)]);
            && Attached(y) && y.server.seqNo == 2 && y.server.acked == 0 && y.server.screen == b && y.server.history[2] == b
            && |y.diffs| == 3 && y.diffs[1] == d && y.screens[1] == a && y.acks == [] && y.client.current == 2
  {
    RunOne(x, Show(b));
    RunThen(x, [Show(b)], Poll);
    RunThen(x, [Show(b)] + [Poll], DeliverDiff(2));
    assert [Show(b), Poll, DeliverDiff(2)] == [Show(b)] + [Poll] + [DeliverDiff(2)];
    StepAttached(x, Show(b));
    FullPoll(Step(x, Show(b)));
    var x2 := Polled(Step(x, Show(b)));
    DeliverAttached(x2, 2);
    IsFullExact(None, b);
    FullStep(x2, 2);
  }

  lemma SecondAcked(x: Sync)
    requires Attached(x) && x.acks == [] && x.client.current > x.server.acked
    ensures var y := Run(x, [SendAck, DeliverAck(0)]);
            && Attached(y) && y.server.acked == x.client.current && y.server.history[x.client.current] == x.server.history[x.client.current]
            && y.server.seqNo == x.server.seqNo && y.server.screen == x.server.screen && y.diffs == x.diffs && y.screens == x.screens
  {
    RunOne(x, SendAck);
    RunThen(x, [SendAck], DeliverAck(0));
    assert [SendAck, DeliverAck(0)] == [SendAck] + [DeliverAck(0)];
    AckArrivesAttached(x);
    AckArrivesExact(x);
  }

  lemma SecondHalf(x: Sync, a: Screen, b: Screen, d: DiffFrame)
    requires AfterFirst(x, a, d) && Representable(b) && SameSize(a, b) && a != b && |b.cells| <= MAX_CELLS
    ensures AfterSecond(Run(x, [Show(b), Poll, DeliverDiff(2), SendAck, DeliverAck(0)]), a, b, d)
  {
    SecondSent(x, a, b, d);
    SecondAcked(Run(x, [Show(b), Poll, DeliverDiff(2)]));
    RunConcat(x, [Show(b), Poll, DeliverDiff(2)], [SendAck, DeliverAck(0)]);
    assert [Show(b), Poll, DeliverDiff(2), SendAck, DeliverAck(0)] == [Show(b), Poll, DeliverDiff(2)] + [SendAck, DeliverAck(0)];
  }

  /** Every diff arrives at most once, the second copy of the first one late. */
  function StaleRun(a: Screen, b: Screen): seq<Event> {
    [Show(a), Poll, Poll, DeliverDiff(0)] + ([Show(b), Poll, DeliverDiff(2), SendAck, DeliverAck(0)] + [DeliverDiff(1)])
  }

  /**
    * A client is set back in a run in which no datagram arrives twice, for every starting size and
    * every two different screens of another size: a repeated snapshot of the first is overtaken by
    * the second and its acknowledgement.
    */
  lemma SetBackIsReached(rows: nat, cols: nat, a: Screen, b: Screen)
    requires Representable(BlankScreen(rows, cols)) && Representable(a) && Representable(b) && a != b && SameSize(a, b)
    requires |a.cells| <= MAX_CELLS && !SameSize(BlankScreen(rows, cols), a)
    ensures Inv(Init(rows, cols, rows, cols)) && AllAllowed(StaleRun(a, b))
    ensures var x := Run(Init(rows, cols, rows, cols), StaleRun(a, b));
            SetBack(x) && x.client.grid == a && x.server.screen == b
  {
    FirstHalf(rows, cols, a);
    var x0, d := Init(rows, cols, rows, cols), DiffFrame(1, 0, Encoded(None, a));
    var p, q, r := [Show(a), Poll, Poll, DeliverDiff(0)], [Show(b), Poll, DeliverDiff(2), SendAck, DeliverAck(0)], [DeliverDiff(1)];
    var x4 := Run(x0, p);
    SecondHalf(x4, a, b, d);
    var x9 := Run(x4, q);
    RunConcat(x0, p, q + r);
    RunConcat(x4, q, r);
    RunOne(x9, DeliverDiff(1));
    IsFullExact(None, a);
    StaleFullSetsBack(x9, 1);
    FullStep(x9, 1);
  }
}
