/** Latest-wins screen synchronisation: diffs against the acknowledged screen, over a network that loses, repeats and reorders. */
module ScreenSync {
  import opened Common
  import opened Screen
  import opened Terminal
  import Grid
  import opened Diff

  // ---------------------------------------------------------------- the two ends

  datatype Server = Server(screen: Screen, seqNo: nat, acked: nat, history: map<int, Screen>, lastSent: Screen, forceFull: bool)

  datatype Client = Client(grid: Screen, current: nat)

  datatype DiffFrame = DiffFrame(seqNo: nat, base: nat, data: seq<byte>)

  function NewServer(rows: nat, cols: nat): Server {
    var blank := BlankScreen(rows, cols);
    Server(blank, 0, 0, map[0 := blank], blank, false)
  }

  function NewClient(rows: nat, cols: nat): Client { Client(BlankScreen(rows, cols), 0) }

  /** A new client is attached to the running screen: a full snapshot is due. */
  function Rebound(s: Server): Server {
    var blank := BlankScreen(s.screen.rows, s.screen.cols);
    s.(acked := 0, history := map[0 := blank], lastSent := blank, forceFull := true)
  }

  function Pruned(history: map<int, Screen>, from: nat): map<int, Screen> {
    map k | k in history && k >= from :: history[k]
  }

  function Acknowledged(s: Server, n: nat): Server {
    if n > s.acked && n in s.history then s.(acked := n, history := Pruned(s.history, n)) else s
  }

  /** A screen that renders differently from the last one sent gets the next number. */
  function Recorded(s: Server): Server {
    if s.screen != s.lastSent then
      s.(seqNo := s.seqNo + 1, history := s.history[s.seqNo + 1 := s.screen], lastSent := s.screen)
    else s
  }

  /** The screens a server holds can all be encoded. */
  ghost predicate ServerOk(s: Server) {
    Representable(s.screen) && Representable(s.lastSent) && forall k | k in s.history :: Representable(s.history[k])
  }

  function BaseOf(s: Server): (r: Option<Screen>)
    requires ServerOk(s)
    ensures r.Some? ==> WellFormed(r.value)
  {
    if s.acked in s.history then Some(s.history[s.acked]) else None
  }

  function PolledDiff(s0: Server): (r: (Server, Option<DiffFrame>))
    requires ServerOk(s0)
  {
    var s := Recorded(s0);
    if s.seqNo == s.acked then (s, None)
    else if s.forceFull then (s.(forceFull := false), Some(DiffFrame(s.seqNo, 0, Encoded(None, s.lastSent))))
    else (s, Some(DiffFrame(s.seqNo, s.acked, Encoded(BaseOf(s), s.lastSent))))
  }

  function AppliedDiff(c: Client, d: DiffFrame): (r: (Client, bool)) {
    var applicable := IsFull(d.data) || (d.base == c.current && d.seqNo > c.current);
    if !applicable then (c, false)
    else
      var (grid, fault) := Apply(c.grid, d.data);
      if fault.None? then (Client(grid, d.seqNo), true) else (c.(grid := grid), false)
  }

  // ---------------------------------------------------------------- runs

  /**
    * Both ends, every diff and acknowledgement sent over the current transport session, and
    * the screen that each number stands for.
    */
  datatype Sync = Sync(server: Server, client: Client, diffs: seq<DiffFrame>, acks: seq<nat>, screens: map<int, Screen>)

  datatype Event =
    | Show(screen: Screen)            // output or a resize leaves the terminal with this screen
    | Poll
    | DeliverDiff(i: nat)             // any diff ever sent, any number of times
    | SendAck
    | DeliverAck(i: nat)
    | Rebind(rows: nat, cols: nat)    // a new client, over a new transport session

  function Init(rows: nat, cols: nat, clientRows: nat, clientCols: nat): Sync {
    Sync(NewServer(rows, cols), NewClient(clientRows, clientCols), [], [], map[0 := BlankScreen(rows, cols)])
  }

  function Polled(x: Sync): Sync
    requires ServerOk(x.server)
  {
    var (s, d) := PolledDiff(x.server);
    if d.None? then x.(server := s)
    else x.(server := s, diffs := x.diffs + [d.value], screens := x.screens[s.seqNo := s.lastSent])
  }

  function Step(x: Sync, e: Event): Sync
    requires ServerOk(x.server)
  {
    match e
    case Show(screen) => x.(server := x.server.(screen := screen))
    case Poll => Polled(x)
    case DeliverDiff(i) => if i < |x.diffs| then x.(client := AppliedDiff(x.client, x.diffs[i]).0) else x
    case SendAck => x.(acks := x.acks + [x.client.current])
    case DeliverAck(i) => if i < |x.acks| then x.(server := Acknowledged(x.server, x.acks[i])) else x
    case Rebind(rows, cols) =>
      var s := Rebound(x.server);
      Sync(s, NewClient(rows, cols), [], [], map[0 := s.lastSent])
  }

  ghost predicate Allowed(e: Event) { e.Show? ==> Representable(e.screen) }

  // ---------------------------------------------------------------- what every step keeps

  ghost predicate ScreensOk(screens: map<int, Screen>) {
    && (forall k | k in screens :: k >= 0 && Representable(screens[k]))
    && 0 in screens && screens[0] == BlankScreen(screens[0].rows, screens[0].cols)
  }

  /** The diff leads to the screen of its number: from nothing, or from the screen of its base. */
  ghost predicate DiffOk(d: DiffFrame, screens: map<int, Screen>)
    requires ScreensOk(screens)
  {
    && d.seqNo >= 1 && d.seqNo in screens
    && (d.data == Encoded(None, screens[d.seqNo])
        || (d.base in screens && d.data == Encoded(Some(screens[d.base]), screens[d.seqNo])))
  }

  ghost predicate DiffsOk(diffs: seq<DiffFrame>, screens: map<int, Screen>)
    requires ScreensOk(screens)
  {
    forall i | 0 <= i < |diffs| :: DiffOk(diffs[i], screens)
  }

  ghost predicate NumbersOk(s: Server, screens: map<int, Screen>) {
    && s.acked <= s.seqNo && s.acked in s.history
    && (forall k | k in screens :: k <= s.seqNo)
    && (s.seqNo in screens ==> screens[s.seqNo] == s.lastSent)
    && (forall k | k in s.history :: k in screens && screens[k] == s.history[k])
  }

  /** Until a diff has been applied the client is blank; from then on it shows the screen of its number. */
  ghost predicate ClientOk(c: Client, screens: map<int, Screen>) {
    if c.current == 0 then c.grid == BlankScreen(c.grid.rows, c.grid.cols)
    else c.current in screens && c.grid == screens[c.current]
  }

  ghost predicate Inv(x: Sync) {
    && ServerOk(x.server) && ScreensOk(x.screens) && NumbersOk(x.server, x.screens)
    && DiffsOk(x.diffs, x.screens) && ClientOk(x.client, x.screens) && WellFormed(x.client.grid)
  }

  // ---------------------------------------------------------------- polling

  lemma Extends(diffs: seq<DiffFrame>, screens: map<int, Screen>, k: nat, v: Screen)
    requires ScreensOk(screens) && Representable(v) && k > 0 && (k in screens ==> screens[k] == v)
    ensures ScreensOk(screens[k := v])
    ensures DiffsOk(diffs, screens) ==> DiffsOk(diffs, screens[k := v])
  {
    var more := screens[k := v];
    assert ScreensOk(more);
    if DiffsOk(diffs, screens) {
      forall i | 0 <= i < |diffs| ensures DiffOk(diffs[i], more) {
        assert DiffOk(diffs[i], screens);
      }
    }
  }

  lemma RecordedOk(s: Server, screens: map<int, Screen>)
    requires ServerOk(s) && ScreensOk(screens) && NumbersOk(s, screens)
    ensures var r := Recorded(s);
            && ServerOk(r) && r.lastSent == r.screen == s.screen && r.acked == s.acked <= r.seqNo
            && (r.seqNo in screens ==> screens[r.seqNo] == r.lastSent)
            && NumbersOk(r, screens[r.seqNo := r.lastSent])
            && (r.seqNo == r.acked ==> r == s)
  {
  }

  lemma PollInv(x: Sync)
    requires Inv(x)
    ensures Inv(Polled(x))
  {
    var s := Recorded(x.server);
    RecordedOk(x.server, x.screens);
    if s.seqNo != s.acked {
      var screens := x.screens[s.seqNo := s.lastSent];
      Extends(x.diffs, x.screens, s.seqNo, s.lastSent);
      var d := PolledDiff(x.server).1.value;
      assert DiffOk(d, screens);
    }
  }

  // ---------------------------------------------------------------- delivering a diff

  /** A delivered diff either leaves the client alone or makes it show the screen of the diff's number: nothing in between. */
  lemma DeliverExact(c: Client, d: DiffFrame, screens: map<int, Screen>)
    requires ScreensOk(screens) && DiffOk(d, screens) && ClientOk(c, screens) && WellFormed(c.grid)
    ensures AppliedDiff(c, d) == (c, false) || AppliedDiff(c, d) == (Client(screens[d.seqNo], d.seqNo), true)
  {
    var target := screens[d.seqNo];
    if d.data == Encoded(None, target) {
      FullDelivered(c, d, None, target);
    } else {
      var base := screens[d.base];
      IsFullExact(Some(base), target);
      if NeedsFull(Some(base), target) {
        FullDelivered(c, d, Some(base), target);
      } else if d.base == c.current {
        DeltaDelivered(c, d, base, target);
      }
    }
  }

  /** Of any frame whatever: the number moves only with a successful decoding, of a full diff or of one from the client's number to a newer. */
  lemma AnyFrame(c: Client, d: DiffFrame)
    ensures var r := AppliedDiff(c, d);
            && (r.1 ==> (IsFull(d.data) || d.base == c.current < d.seqNo) && r.0.current == d.seqNo && Apply(c.grid, d.data) == (r.0.grid, None))
            && (!r.1 ==> r.0.current == c.current)
            && (!IsFull(d.data) && (d.base != c.current || d.seqNo <= c.current) ==> r == (c, false))
  {
  }

  lemma FullDelivered(c: Client, d: DiffFrame, base: Option<Screen>, target: Screen)
    requires Representable(target) && WellFormed(c.grid) && (base.Some? ==> WellFormed(base.value))
    requires NeedsFull(base, target) && d.data == Encoded(base, target)
    ensures IsFull(d.data)
    ensures AppliedDiff(c, d) == if |target.cells| <= MAX_CELLS then (Client(target, d.seqNo), true) else (c, false)
  {
    IsFullExact(base, target);
    DiffExact(c.grid, base, target);
    Rejected(c.grid, base, target);
  }

  /** The client's screen is the base, or it is blank like the base but of another size. */
  lemma DeltaDelivered(c: Client, d: DiffFrame, base: Screen, target: Screen)
    requires Representable(target) && WellFormed(c.grid) && WellFormed(base)
    requires !NeedsFull(Some(base), target) && d.data == Encoded(Some(base), target)
    requires d.base == c.current && (c.grid == base || !SameSize(c.grid, base))
    ensures !IsFull(d.data)
    ensures AppliedDiff(c, d) ==
            if d.seqNo > c.current && c.grid == base && |target.cells| <= MAX_CELLS then (Client(target, d.seqNo), true)
            else (c, false)
  {
    IsFullExact(Some(base), target);
    DiffExact(c.grid, Some(base), target);
    Rejected(c.grid, Some(base), target);
  }

  // ---------------------------------------------------------------- runs

  lemma OtherStepInv(x: Sync, e: Event)
    requires Inv(x) && Allowed(e) && !e.Poll?
    ensures Inv(Step(x, e))
  {
    if e.DeliverDiff? && e.i < |x.diffs| {
      assert DiffOk(x.diffs[e.i], x.screens);
      DeliverExact(x.client, x.diffs[e.i], x.screens);
    }
  }

  lemma StepInv(x: Sync, e: Event)
    requires Inv(x) && Allowed(e)
    ensures Inv(Step(x, e))
  {
    if e.Poll? { PollInv(x); } else { OtherStepInv(x, e); }
  }

  ghost function Run(x: Sync, events: seq<Event>): (r: Sync)
    requires Inv(x) && forall e | e in events :: Allowed(e)
    ensures Inv(r)
    decreases |events|
  {
    if events == [] then x
    else
      StepInv(x, events[0]);
      Run(Step(x, events[0]), events[1..])
  }

  lemma InitInv(rows: nat, cols: nat, clientRows: nat, clientCols: nat)
    requires Representable(BlankScreen(rows, cols))
    ensures Inv(Init(rows, cols, clientRows, clientCols))
  {
  }

  // ---------------------------------------------------------------- safety

  /** A diff that is sent carries the number under which the server's present screen is recorded. */
  lemma PollRecords(x: Sync)
    requires Inv(x) && |Polled(x).diffs| > |x.diffs|
    ensures var y := Polled(x); var d := y.diffs[|x.diffs|];
            d.seqNo == y.server.seqNo && d.seqNo in y.screens && y.screens[d.seqNo] == x.server.screen
  {
    RecordedOk(x.server, x.screens);
  }

  /** What a number stands for never changes while a client stays attached. */
  lemma ScreensStay(x: Sync, e: Event, k: int)
    requires Inv(x) && Allowed(e) && !e.Rebind? && k in x.screens
    ensures k in Step(x, e).screens && Step(x, e).screens[k] == x.screens[k]
  {
    RecordedOk(x.server, x.screens);
  }

  /**
    * Whatever is shown, resized, polled, lost, repeated, reordered or reattached, a client that
    * has applied a diff shows exactly the screen recorded under its number; until then it is blank.
    */
  lemma NeverTorn(rows: nat, cols: nat, clientRows: nat, clientCols: nat, events: seq<Event>)
    requires Representable(BlankScreen(rows, cols)) && forall e | e in events :: Allowed(e)
    ensures Inv(Init(rows, cols, clientRows, clientCols))
    ensures var x := Run(Init(rows, cols, clientRows, clientCols), events);
            && (x.client.current >= 1 ==> x.client.current in x.screens && x.client.grid == x.screens[x.client.current])
            && (x.client.current == 0 ==> x.client.grid == BlankScreen(x.client.grid.rows, x.client.grid.cols))
  {
    InitInv(rows, cols, clientRows, clientCols);
  }

  // ---------------------------------------------------------------- one client from the start

  /** The history is exactly the numbers from the acknowledged one to the last. */
  ghost predicate HistoryExact(s: Server) {
    !s.forceFull && forall k :: k in s.history <==> s.acked <= k <= s.seqNo
  }

  /** The server's first and only client, which started with the server's size. */
  ghost predicate Attached(x: Sync) {
    && Inv(x) && HistoryExact(x.server) && x.client.current <= x.server.seqNo
    && x.server.seqNo in x.screens
    && (x.client.current == 0 ==> x.client.grid == x.screens[0])
  }

  lemma PollAttached(x: Sync)
    requires Attached(x)
    ensures Attached(Polled(x))
  {
    PollInv(x);
    RecordedOk(x.server, x.screens);
  }

  lemma DeliverAttached(x: Sync, i: nat)
    requires Attached(x) && i < |x.diffs|
    ensures Attached(Step(x, DeliverDiff(i)))
  {
    StepInv(x, DeliverDiff(i));
    assert DiffOk(x.diffs[i], x.screens);
    DeliverExact(x.client, x.diffs[i], x.screens);
  }

  lemma AckAttached(x: Sync, i: nat)
    requires Attached(x) && i < |x.acks|
    ensures Attached(Step(x, DeliverAck(i)))
  {
    StepInv(x, DeliverAck(i));
  }

  lemma StepAttached(x: Sync, e: Event)
    requires Attached(x) && Allowed(e) && !e.Rebind?
    ensures Attached(Step(x, e))
  {
    match e
    case Poll => PollAttached(x);
    case DeliverDiff(i) => if i < |x.diffs| { DeliverAttached(x, i); }
    case DeliverAck(i) => if i < |x.acks| { AckAttached(x, i); }
    case _ => StepInv(x, e);
  }

  // ---------------------------------------------------------------- catching up

  /** The client's acknowledgement arrives, the server polls, and the diff it sends (if any) arrives. */
  ghost function AckArrives(x: Sync): (r: Sync)
    requires Inv(x)
    ensures Inv(r)
  {
    StepInv(x, SendAck);
    StepInv(Step(x, SendAck), DeliverAck(|x.acks|));
    Step(Step(x, SendAck), DeliverAck(|x.acks|))
  }

  ghost function DiffArrives(x: Sync): (r: Sync)
    requires Inv(x)
    ensures Inv(r)
  {
    StepInv(x, Poll);
    var y := Step(x, Poll);
    StepInv(y, DeliverDiff(|x.diffs|));
    Step(y, DeliverDiff(|x.diffs|))
  }

  ghost function Exchange(x: Sync): (r: Sync)
    requires Inv(x)
    ensures Inv(r)
  {
    DiffArrives(AckArrives(x))
  }

  ghost predicate CaughtUp(x: Sync) {
    x.client.current == x.server.seqNo && x.client.grid == x.server.screen == x.server.lastSent
  }

  /** The base once the client's acknowledgement has arrived. */
  function AckedAfter(x: Sync): nat {
    if x.client.current > x.server.acked && x.client.current in x.server.history then x.client.current else x.server.acked
  }

  lemma AckArrivesExact(x: Sync)
    requires Inv(x)
    ensures var y := AckArrives(x);
            && y == x.(server := Acknowledged(x.server, x.client.current), acks := x.acks + [x.client.current])
            && y.server.acked == AckedAfter(x) && AckedAfter(x) in x.server.history
            && y.server.history[AckedAfter(x)] == x.server.history[AckedAfter(x)]
  {
  }

  lemma AckArrivesAttached(x: Sync)
    requires Attached(x)
    ensures Attached(AckArrives(x)) && AckedAfter(x) == Max(x.server.acked, x.client.current)
  {
    StepAttached(x, SendAck);
    StepAttached(Step(x, SendAck), DeliverAck(|x.acks|));
  }

  /** The next poll sends something. */
  predicate Sends(s: Server) { s.screen != s.lastSent || s.seqNo != s.acked }

  /** What it sends is full, or starts from the client's number and fits the client's size. */
  ghost predicate Suits(x: Sync)
    requires Inv(x)
  {
    || x.server.forceFull || !SameSize(x.server.history[x.server.acked], x.server.screen)
    || (x.server.acked == x.client.current && SameSize(x.client.grid, x.server.screen))
  }

  /** The one diff that is sent and arrives is taken exactly if it suits the client. */
  lemma DiffArrivesExact(x: Sync)
    requires Inv(x) && |x.server.screen.cells| <= MAX_CELLS
    ensures var y := DiffArrives(x);
            && y.server == PolledDiff(x.server).0 && y.acks == x.acks
            && y.client == if Sends(x.server) && Suits(x) then Client(x.server.screen, Recorded(x.server).seqNo) else x.client
  {
    RecordedOk(x.server, x.screens);
    StepInv(x, Poll);
    var s := Recorded(x.server);
    if s.seqNo != s.acked {
      var d := PolledDiff(x.server).1.value;
      assert Polled(x).diffs[|x.diffs|] == d;
      if s.forceFull {
        FullDelivered(x.client, d, None, s.screen);
      } else {
        var base := x.server.history[x.server.acked];
        assert s.history[s.acked] == base && d == DiffFrame(s.seqNo, s.acked, Encoded(Some(base), s.screen));
        LastDelivered(x.client, d, base, s.screen);
      }
    }
  }

  lemma LastDelivered(c: Client, d: DiffFrame, base: Screen, target: Screen)
    requires Representable(target) && |target.cells| <= MAX_CELLS && WellFormed(c.grid) && WellFormed(base)
    requires d.data == Encoded(Some(base), target) && d.base < d.seqNo
    requires d.base == c.current ==> c.grid == base || !SameSize(c.grid, base)
    ensures AppliedDiff(c, d).0 ==
            if !SameSize(base, target) || (d.base == c.current && SameSize(c.grid, target)) then Client(target, d.seqNo) else c
  {
    IsFullExact(Some(base), target);
    if NeedsFull(Some(base), target) {
      FullDelivered(c, d, Some(base), target);
    } else if d.base == c.current {
      DeltaDelivered(c, d, base, target);
    }
  }

  // ---------------------------------------------------------------- settling, from any state

  /** The client shows the server's screen, and its acknowledgement silences the server. */
  ghost predicate Settled(x: Sync)
    requires Inv(x)
  {
    CaughtUp(x) && PolledDiff(AckArrives(x).server).1 == None
  }

  /**
    * The present screen has a number in the history or gets one; and either the client's number is
    * the base and its size fits, or something is sent and it is full.
    */
  ghost predicate CanSettle(x: Sync)
    requires Inv(x)
  {
    var s, b := x.server, AckedAfter(x);
    && (s.screen != s.lastSent || s.seqNo in s.history)
    && (|| (b == x.client.current && SameSize(x.client.grid, s.screen))
        || ((s.screen != s.lastSent || s.seqNo != b) && (s.forceFull || !SameSize(s.history[b], s.screen))))
  }

  lemma SettledIs(x: Sync)
    requires Inv(x)
    ensures Settled(x) <==> CaughtUp(x) && AckedAfter(x) == x.server.seqNo
  {
    AckArrivesExact(x);
  }

  lemma NothingSent(a: Sync)
    requires Inv(a) && |a.server.screen.cells| <= MAX_CELLS && AckedAfter(a) == a.server.acked && !Sends(a.server)
    ensures Settled(DiffArrives(a)) <==> a.server.acked == a.client.current && SameSize(a.client.grid, a.server.screen)
  {
    DiffArrivesExact(a);
    SettledIs(DiffArrives(a));
  }

  lemma RecordedScreen(s: Server)
    ensures Recorded(s).screen == Recorded(s).lastSent == s.screen
  {
  }

  /** Beyond recording the screen, a poll only takes the forced snapshot off the agenda. */
  lemma PolledServer(s: Server)
    requires ServerOk(s)
    ensures PolledDiff(s).0 == Recorded(s).(forceFull := PolledDiff(s).0.forceFull)
  {
  }

  lemma DiffTaken(a: Sync)
    requires Inv(a) && |a.server.screen.cells| <= MAX_CELLS && Sends(a.server) && Suits(a)
    ensures Settled(DiffArrives(a)) <==> a.server.screen != a.server.lastSent || a.server.seqNo in a.server.history
  {
    var s, y := Recorded(a.server), DiffArrives(a);
    RecordedScreen(a.server);
    assert y.server == PolledDiff(a.server).0 && y.client == Client(a.server.screen, s.seqNo) by { DiffArrivesExact(a); }
    PolledServer(a.server);
    assert s.lastSent == s.screen && s.acked < s.seqNo by { RecordedOk(a.server, a.screens); }
    SettledIs(y);
  }

  lemma DiffNotTaken(a: Sync)
    requires Inv(a) && |a.server.screen.cells| <= MAX_CELLS && AckedAfter(a) == a.server.acked
    requires Sends(a.server) && !Suits(a)
    ensures !Settled(DiffArrives(a))
  {
    DiffArrivesExact(a);
    RecordedOk(a.server, a.screens);
    SettledIs(DiffArrives(a));
  }

  /** The same for a state in which the acknowledgement has arrived and only the diff is due. */
  lemma DiffSettlesIff(a: Sync)
    requires Inv(a) && |a.server.screen.cells| <= MAX_CELLS && AckedAfter(a) == a.server.acked
    ensures Settled(DiffArrives(a)) <==> CanSettle(a)
  {
    if !Sends(a.server) {
      NothingSent(a);
    } else if Suits(a) {
      DiffTaken(a);
    } else {
      DiffNotTaken(a);
    }
  }

  lemma AckKeepsChance(x: Sync)
    requires Inv(x)
    ensures var a := AckArrives(x); AckedAfter(a) == a.server.acked && (CanSettle(a) <==> CanSettle(x))
  {
    AckArrivesExact(x);
  }

  /**
    * From any state whatever, reattached clients included: one delivered acknowledgement, one
    * delivered diff and one more acknowledgement settle both ends exactly under that condition.
    */
  lemma SettlesIff(x: Sync)
    requires Inv(x) && |x.server.screen.cells| <= MAX_CELLS
    ensures Settled(Exchange(x)) <==> CanSettle(x)
  {
    AckKeepsChance(x);
    AckArrivesExact(x);
    DiffSettlesIff(AckArrives(x));
  }

  // ---------------------------------------------------------------- settling, with one client from the start

  /**
    * One delivered acknowledgement and one delivered diff bring the client to the server's
    * present screen exactly if the client is not behind what it has acknowledged, or the
    * screen has another size than the acknowledged one.
    */
  lemma CatchesUpIff(x: Sync)
    requires Attached(x) && |x.server.screen.cells| <= MAX_CELLS
    ensures CaughtUp(Exchange(x)) <==>
            x.server.acked <= x.client.current || !SameSize(x.server.history[x.server.acked], x.server.screen)
    ensures Attached(Exchange(x)) && Exchange(x).server.screen == x.server.screen
  {
    var a := AckArrives(x);
    AckArrivesExact(x);
    AckArrivesAttached(x);
    DiffArrivesExact(a);
    PollAttached(a);
    RecordedOk(a.server, a.screens);
    if |a.diffs| < |Polled(a).diffs| { DeliverAttached(Polled(a), |a.diffs|); }
  }

  /** Once caught up, the acknowledgement silences the server. */
  lemma ThenQuiet(x: Sync)
    requires Attached(x) && CaughtUp(x)
    ensures PolledDiff(AckArrives(x).server).1 == None
  {
    AckArrivesExact(x);
  }

  // ---------------------------------------------------------------- runs without stale full snapshots

  /** A full snapshot is not delivered once the client is past it. */
  ghost predicate NotStale(x: Sync, e: Event) {
    e.DeliverDiff? && e.i < |x.diffs| && IsFull(x.diffs[e.i].data) ==> x.client.current <= x.diffs[e.i].seqNo
  }

  ghost predicate FreshRun(x: Sync, events: seq<Event>)
    requires Inv(x) && forall e | e in events :: Allowed(e)
    decreases |events|
  {
    events != [] ==>
      && !events[0].Rebind? && NotStale(x, events[0])
      && (StepInv(x, events[0]); FreshRun(Step(x, events[0]), events[1..]))
  }

  /** The client is never behind what it has acknowledged. */
  ghost predicate Ahead(x: Sync) {
    x.server.acked <= x.client.current && forall i | 0 <= i < |x.acks| :: x.acks[i] <= x.client.current
  }

  lemma StepAhead(x: Sync, e: Event)
    requires Attached(x) && Ahead(x) && Allowed(e) && !e.Rebind? && NotStale(x, e)
    ensures Ahead(Step(x, e))
  {
    if e.DeliverDiff? && e.i < |x.diffs| {
      assert DiffOk(x.diffs[e.i], x.screens);
      DeliverExact(x.client, x.diffs[e.i], x.screens);
    }
  }

  lemma {:induction false} RunAhead(x: Sync, events: seq<Event>)
    requires Attached(x) && Ahead(x) && (forall e | e in events :: Allowed(e)) && FreshRun(x, events)
    ensures Attached(Run(x, events)) && Ahead(Run(x, events))
    decreases |events|
  {
    if events != [] {
      StepAttached(x, events[0]);
      StepAhead(x, events[0]);
      RunAhead(Step(x, events[0]), events[1..]);
    }
  }

  lemma InitAttached(rows: nat, cols: nat)
    requires Representable(BlankScreen(rows, cols))
    ensures Attached(Init(rows, cols, rows, cols)) && Ahead(Init(rows, cols, rows, cols))
  {
    InitInv(rows, cols, rows, cols);
  }

  /**
    * From any state reached without delivering a stale full snapshot: the history is exact, one
    * acknowledgement and one diff bring the client to the present screen, and one more
    * acknowledgement makes the server fall silent.
    */
  lemma Converges(rows: nat, cols: nat, events: seq<Event>)
    requires Representable(BlankScreen(rows, cols)) && forall e | e in events :: Allowed(e)
    requires Inv(Init(rows, cols, rows, cols)) && FreshRun(Init(rows, cols, rows, cols), events)
    ensures var x := Run(Init(rows, cols, rows, cols), events);
            && HistoryExact(x.server) && x.server.acked <= x.client.current <= x.server.seqNo
            && (|x.server.screen.cells| <= MAX_CELLS ==>
                  && CaughtUp(Exchange(x)) && Exchange(x).server.screen == x.server.screen
                  && PolledDiff(AckArrives(Exchange(x)).server).1 == None)
  {
    InitAttached(rows, cols);
    RunAhead(Init(rows, cols, rows, cols), events);
    var x := Run(Init(rows, cols, rows, cols), events);
    if |x.server.screen.cells| <= MAX_CELLS {
      CatchesUpIff(x);
      ThenQuiet(Exchange(x));
    }
  }

  // ---------------------------------------------------------------- runs without a resize

  /** All screens have the client's size, so no full snapshot was ever sent. */
  ghost predicate Uniform(x: Sync)
    requires 0 in x.screens
  {
    && SameSize(x.server.screen, x.screens[0]) && SameSize(x.server.lastSent, x.screens[0])
    && (forall k | k in x.server.history :: SameSize(x.server.history[k], x.screens[0]))
    && (forall i | 0 <= i < |x.diffs| :: !IsFull(x.diffs[i].data))
  }

  ghost predicate KeepsSize(e: Event, size: Screen) { !e.Rebind? && (e.Show? ==> SameSize(e.screen, size)) }

  lemma StepUniform(x: Sync, e: Event)
    requires Attached(x) && Allowed(e) && Uniform(x) && KeepsSize(e, x.screens[0])
    ensures NotStale(x, e) && Attached(Step(x, e)) && Uniform(Step(x, e)) && Step(x, e).screens[0] == x.screens[0]
  {
    StepAttached(x, e);
    ScreensStay(x, e, 0);
    if e.Poll? {
      RecordedOk(x.server, x.screens);
      var s := Recorded(x.server);
      IsFullExact(BaseOf(s), s.lastSent);
    }
  }

  lemma {:induction false} UniformIsFresh(x: Sync, events: seq<Event>)
    requires Attached(x) && Uniform(x)
    requires forall e | e in events :: Allowed(e) && KeepsSize(e, x.screens[0])
    ensures FreshRun(x, events) && SameSize(Run(x, events).server.screen, x.screens[0])
    decreases |events|
  {
    if events != [] {
      StepUniform(x, events[0]);
      UniformIsFresh(Step(x, events[0]), events[1..]);
    }
  }

  /** Without a resize no full snapshot exists, so convergence holds under any loss, repetition and reordering. */
  lemma ConvergesWithoutResize(rows: nat, cols: nat, events: seq<Event>)
    requires Representable(BlankScreen(rows, cols)) && |BlankScreen(rows, cols).cells| <= MAX_CELLS
    requires forall e | e in events :: Allowed(e) && KeepsSize(e, BlankScreen(rows, cols))
    ensures Inv(Init(rows, cols, rows, cols))
    ensures var x := Run(Init(rows, cols, rows, cols), events);
            && HistoryExact(x.server) && x.server.acked <= x.client.current <= x.server.seqNo
            && CaughtUp(Exchange(x)) && Exchange(x).server.screen == x.server.screen
            && PolledDiff(AckArrives(Exchange(x)).server).1 == None
  {
    InitAttached(rows, cols);
    UniformIsFresh(Init(rows, cols, rows, cols), events);
    Converges(rows, cols, events);
  }

  // ---------------------------------------------------------------- the shells

  class ServerShell {
    var screen: Screen                 // what the terminal shows
    var seqNo: nat
    var acked: nat
    var history: map<int, Screen>
    var lastSent: Screen
    var forceFull: bool

    function Value(): Server
      reads this
    {
      Server(screen, seqNo, acked, history, lastSent, forceFull)
    }

    constructor (rows: nat, cols: nat)
      ensures Value() == NewServer(rows, cols)
    {
      var blank := BlankScreen(rows, cols);
      screen, seqNo, acked, history, lastSent, forceFull := blank, 0, 0, map[0 := blank], blank, false;
    }

    method RebindToNewClient()
      modifies this
      ensures Value() == Rebound(old(Value()))
    {
      var blank := BlankScreen(screen.rows, screen.cols);
      acked := 0;
      history := map[0 := blank];
      lastSent := blank;
      forceFull := true;
    }

    method OnStateAck(n: nat)
      modifies this`acked, this`history
      ensures Value() == Acknowledged(old(Value()), n)
    {
      if n > acked && n in history {
        acked := n;
        history := map k | k in history && k >= n :: history[k];
      }
    }

    method PollDiff() returns (d: Option<DiffFrame>)
      requires ServerOk(Value())
      modifies this`seqNo, this`history, this`lastSent, this`forceFull
      ensures (Value(), d) == PolledDiff(old(Value()))
    {
      if screen != lastSent {
        seqNo := seqNo + 1;
        history := history[seqNo := screen];
        lastSent := screen;
      }
      if seqNo == acked {
        return None;
      }
      if forceFull {
        forceFull := false;
        var data := EncodeDiff(None, lastSent);
        d := Some(DiffFrame(seqNo, 0, data));
      } else {
        var base := if acked in history then Some(history[acked]) else None;
        var data := EncodeDiff(base, lastSent);
        d := Some(DiffFrame(seqNo, acked, data));
      }
    }
  }

  class ClientShell {
    const grid: Grid.Grid
    var current: nat

    function Value(): Client
      reads this, grid
    {
      Client(ScreenOf(grid.Value()), current)
    }

    constructor (rows: nat, cols: nat)
      ensures Value() == NewClient(rows, cols) && Valid(grid.Value()) && fresh(grid)
    {
      grid := new Grid.Grid(rows, cols);
      current := 0;
    }

    method ApplyStateDiff(d: DiffFrame) returns (applied: bool)
      requires Valid(grid.Value())
      modifies this`current, grid
      ensures (Value(), applied) == AppliedDiff(old(Value()), d)
      ensures Valid(grid.Value())
    {
      var applicable := IsFull(d.data) || (d.base == current && d.seqNo > current);
      applied := false;
      if applicable {
        var fault := ApplyDiff(grid, d.data);
        applied := fault.None?;
      }
      if applied {
        current := d.seqNo;
      }
    }
  }
}
