/** Many streams over one session: dispatch of frames by id, polling, and reclaiming finished streams. */
module StreamMux {
  import opened Common
  import opened Wire
  import opened Reassembly
  import opened StreamState
  import S = StreamSpec

  const MAX_STREAMS: nat := 1024

  datatype StreamEvent =
    | Opened(id: nat, kind: StreamKind, meta: seq<byte>)
    | Readable(id: nat)
    | Closed(id: nat, status: int)
    | ResetSeen(id: nat)

  // ---------------------------------------------------------------- specification

  datatype Outcome = Outcome(frames: seq<Frame>, after: S.Stream, gone: bool)

  ghost function OutcomeOf(s: S.Stream, now: nat): Outcome
    requires S.Buffered(s.snd)
  {
    Outcome(S.PolledFrames(s, now), S.PolledStream(s, now), S.Reclaimed(s, now))
  }

  /** Marks the ids that a proof speaks of. */
  ghost predicate Picked(i: nat) { true }

  /** `plan` says for every stream what the poll at tick `now` makes of it. */
  ghost predicate Planned(ms: map<nat, S.Stream>, plan: map<nat, Outcome>, now: nat) {
    && plan.Keys == ms.Keys
    && (forall i {:trigger Picked(i)} | i in ms :: S.Buffered(ms[i].snd) && plan[i] == OutcomeOf(ms[i], now))
  }

  ghost function FramesOf(plan: map<nat, Outcome>): nat -> seq<Frame> {
    (i: nat) => if i in plan then plan[i].frames else []
  }

  /** `ids` lists exactly `keys`, smallest first. */
  ghost predicate Sorted(ids: seq<nat>, keys: set<nat>) {
    && (forall j, k | 0 <= j < k < |ids| :: ids[j] < ids[k])
    && (forall i :: i in ids <==> i in keys)
  }

  function FrameId(f: Frame): Option<nat> {
    match f
    case StreamOpen(id, _, _) => Some(id)
    case StreamData(id, _, _, _) => Some(id)
    case StreamAck(id, _, _) => Some(id)
    case StreamClose(id, _) => Some(id)
    case StreamReset(id) => Some(id)
    case _ => None
  }

  // ---------------------------------------------------------------- the class

  class StreamMux {
    var nextLocalId: nat
    const localParity: nat
    var streams: map<nat, StreamState>
    var events: seq<StreamEvent>
    var now: nat

    /** Streams sit under their own ids, no two share a reassembler, and local ids are ours and used. */
    ghost predicate Shaped()
      reads this
    {
      && localParity < 2 && nextLocalId % 2 == localParity
      && (forall i | i in streams :: streams[i].id == i)
      && (forall i, j {:trigger Picked(i), Picked(j)} |
            i in streams && j in streams && i != j && Picked(i) && Picked(j) :: streams[i].recv != streams[j].recv)
      && (forall i | i in streams && i % 2 == localParity :: i < nextLocalId)
    }

    /** The objects that make up stream `i`, if there is one. */
    ghost function Parts(i: nat): set<object>
      reads this
    {
      if i in streams then {streams[i], streams[i].recv} else {}
    }

    ghost function Objects(): set<object>
      reads this
    {
      (set i | i in streams :: streams[i]) + (set i | i in streams :: streams[i].recv)
    }

    ghost predicate AllValid()
      reads this, Objects()
    {
      forall i {:trigger Picked(i)} | i in streams && Picked(i) :: streams[i].Valid()
    }

    ghost predicate Valid()
      reads this, Objects()
    {
      Shaped() && AllValid()
    }

    constructor (isClient: bool)
      ensures Valid() && streams == map[] && events == [] && now == 0
      ensures localParity == if isClient then 0 else 1
    {
      nextLocalId := if isClient then 0 else 1;
      localParity := if isClient then 0 else 1;
      streams, events, now := map[], [], 0;
    }

    /** Open a local stream: its id is new and of our parity, and no other stream changes. */
    method Open(kind: StreamKind, meta: seq<byte>) returns (id: nat)
      requires Valid()
      modifies this
      ensures Valid() && id % 2 == localParity && id !in old(streams)
      ensures id in streams && streams == old(streams)[id := streams[id]]
      ensures streams[id].model == S.NewStream(id, kind, meta, true)
      ensures now == old(now) && events == old(events)
    {
      id := nextLocalId;
      nextLocalId := nextLocalId + 2;
      var s := new StreamState(id, kind, meta, true);
      streams := streams[id := s];
    }

    method Write(id: nat, data: seq<byte>)
      requires Valid()
      modifies Parts(id)
      ensures Valid()
      ensures id in streams ==>
              streams[id].model == old(streams[id].model).(snd := S.Write(old(streams[id].model).snd, data))
    {
      if id in streams {
        assert Picked(id);
        streams[id].Write(data);
      }
    }

    method Close(id: nat, status: int)
      requires Valid()
      modifies Parts(id)
      ensures Valid()
      ensures id in streams ==> streams[id].model == S.Close(old(streams[id].model), status)
    {
      if id in streams {
        assert Picked(id);
        streams[id].Close(status);
      }
    }

    method Reset(id: nat)
      requires Valid()
      modifies Parts(id)
      ensures Valid()
      ensures id in streams ==> streams[id].model == old(streams[id].model).(reset := true)
    {
      if id in streams {
        assert Picked(id);
        streams[id].Abort();
      }
    }

    method Read(id: nat) returns (out: seq<byte>)
      requires Valid()
      modifies Parts(id)
      ensures Valid()
      ensures id !in streams ==> out == []
      ensures id in streams ==>
              && out == Run(old(streams[id].model).rcv.held, old(streams[id].model).rcv.delivered)
              && streams[id].model == old(streams[id].model).(rcv := S.Drain(old(streams[id].model).rcv))
    {
      if id in streams {
        assert Picked(id);
        out := streams[id].Read();
      } else {
        out := [];
      }
    }

    method IsRecvFinished(id: nat) returns (r: bool)
      requires Valid()
      ensures r == (id !in streams || S.RecvFinished(streams[id].model))
    {
      if id in streams {
        assert Picked(id);
        r := streams[id].RecvFinished();
      } else {
        r := true;
      }
    }

    method AddPeerStream(id: nat, kind: StreamKind, meta: seq<byte>)
      requires Valid() && id !in streams && id % 2 != localParity
      modifies this`streams
      ensures Valid() && id in streams && streams == old(streams)[id := streams[id]]
      ensures streams[id].model == S.NewStream(id, kind, meta, false)
    {
      var s := new StreamState(id, kind, meta, false);
      streams := streams[id := s];
    }

    method OnOpen(id: nat, kind: StreamKind, meta: seq<byte>)
      requires Valid()
      modifies this`streams, this`events
      ensures Valid()
      ensures !Opens(old(streams), localParity, id) ==> streams == old(streams) && events == old(events)
      ensures Opens(old(streams), localParity, id) ==>
              && id in streams && streams == old(streams)[id := streams[id]]
              && streams[id].model == S.NewStream(id, kind, meta, false)
              && events == old(events) + [Opened(id, kind, meta)]
    {
      if id % 2 == localParity || |streams| >= MAX_STREAMS {
        return;
      }
      if id !in streams {
        AddPeerStream(id, kind, meta);
        events := events + [Opened(id, kind, meta)];
      }
    }

    /** The effect of a frame on the live stream it names. */
    method OnStreamFrame(id: nat, f: Frame) returns (raised: seq<StreamEvent>)
      requires Valid() && id in streams && !f.StreamOpen? && FrameId(f) == Some(id)
      modifies Parts(id)
      ensures Valid()
      ensures streams[id].model == S.OnFrame(old(streams[id].model), f, now)
      ensures raised == EventsOf(old(streams[id].model), f, now)
    {
      assert Picked(id);
      var closed := streams[id].closeReceived;
      var readable := streams[id].OnFrame(f, now);
      raised := [];
      match f
      case StreamData(_, _, _, _) => raised := if readable then [Readable(id)] else [];
      case StreamClose(_, status) => raised := if closed then [] else [Closed(id, status)];
      case StreamReset(_) => raised := [ResetSeen(id)];
      case _ =>
    }

    /**
      * Dispatch one incoming frame. A stream frame for an unknown id does nothing, unless it
      * opens a stream of the peer's parity while there is room.
      */
    method OnFrame(f: Frame)
      requires Valid()
      modifies this`streams, this`events, if FrameId(f).Some? then Parts(FrameId(f).value) else {}
      ensures Valid()
      ensures f.StreamOpen? && Opens(old(streams), localParity, f.id) ==>
              && f.id in streams && streams == old(streams)[f.id := streams[f.id]]
              && streams[f.id].model == S.NewStream(f.id, f.kind, f.meta, false)
              && events == old(events) + [Opened(f.id, f.kind, f.meta)]
      ensures !(f.StreamOpen? && Opens(old(streams), localParity, f.id)) ==> streams == old(streams)
      ensures FrameId(f).Some? && !f.StreamOpen? && FrameId(f).value in streams ==>
              && streams[FrameId(f).value].model == S.OnFrame(old(streams[FrameId(f).value].model), f, now)
              && events == old(events) + EventsOf(old(streams[FrameId(f).value].model), f, now)
      ensures !Takes(old(streams), localParity, f) ==> events == old(events)
      ensures f.StreamOpen? && (f.id % 2 == localParity || |old(streams)| >= 1024 || f.id in old(streams)) ==>
              streams == old(streams) && events == old(events)
      ensures f.StreamOpen? && f.id % 2 != localParity && |old(streams)| < 1024 && f.id !in old(streams) ==>
              f.id in streams && |streams| == |old(streams)| + 1 && events == old(events) + [Opened(f.id, f.kind, f.meta)]
    {
      if f.StreamOpen? {
        OnOpen(f.id, f.kind, f.meta);
      } else if FrameId(f).Some? && FrameId(f).value in streams {
        var raised := OnStreamFrame(FrameId(f).value, f);
        events := events + raised;
      }
    }

    /** Poll one stream; true if it is to be reclaimed. The other streams, as `cur` has them, stay. */
    method PollOne(i: nat, out: seq<Frame>, ghost o: Outcome, ghost cur: map<nat, S.Stream>)
      returns (r: seq<Frame>, reclaim: bool)
      requires Valid() && i in streams && Picked(i) && o == OutcomeOf(streams[i].model, now)
      requires Mirrors(streams, cur)
      modifies Parts(i)
      ensures Valid()
      ensures r == out + o.frames && reclaim == o.gone
      ensures Mirrors(streams, cur[i := o.after])
    {
      var s := streams[i];
      if s.reset {
        r, reclaim := out + [StreamReset(i)], true;
      } else {
        r := s.Transmit(now, out);
        reclaim := s.FullyDone();
      }
    }

    /** The streams the mux stands for. */
    ghost function Models(): map<nat, S.Stream>
      reads this, Objects()
    {
      map i | i in streams :: streams[i].model
    }

    /** Poll the streams `ids` in turn; `retire` collects those to be reclaimed. */
    method PollAll(ids: seq<nat>, ghost was: map<nat, S.Stream>, ghost plan: map<nat, Outcome>)
      returns (out: seq<Frame>, retire: seq<nat>)
      requires Valid() && Mirrors(streams, was) && Planned(was, plan, now)
      requires Listed(ids, was, was)
      modifies Objects()
      ensures Valid() && Mirrors(streams, Updated(was, plan, ids))
      ensures out == FlatMap(FramesOf(plan), ids) && retire == FlatMap(GoneOf(plan), ids)
    {
      out, retire := [], [];
      ghost var cur := was;
      var rest := ids;
      RemainingStart(plan, was, ids);
      while rest != []
        invariant Valid() && Mirrors(streams, cur) && Listed(rest, was, cur)
        invariant Remaining(plan, was, ids, cur, rest, out, retire)
        decreases |rest|
      {
        out, retire, cur := PollNext(rest, out, retire, was, plan, ids, cur);
        rest := rest[1..];
      }
      RemainingDone(plan, was, ids, cur, out, retire);
    }

    /** Poll the first of the streams `rest` that are left. */
    method PollNext(rest: seq<nat>, frames: seq<Frame>, gone: seq<nat>, ghost was: map<nat, S.Stream>,
                    ghost plan: map<nat, Outcome>, ghost ids: seq<nat>, ghost cur: map<nat, S.Stream>)
      returns (out: seq<Frame>, retire: seq<nat>, ghost next: map<nat, S.Stream>)
      requires Valid() && rest != [] && Planned(was, plan, now) && Mirrors(streams, cur) && Listed(rest, was, cur)
      requires Remaining(plan, was, ids, cur, rest, frames, gone)
      modifies Objects()
      ensures Valid() && Mirrors(streams, next) && Listed(rest[1..], was, next)
      ensures Remaining(plan, was, ids, next, rest[1..], out, retire)
    {
      var i := rest[0];
      assert Picked(i);
      RemainingNext(plan, was, ids, cur, rest, frames, gone, i);
      ListedNext(rest, was, cur, plan[i].after);
      var reclaim;
      out, reclaim := PollOne(i, frames, plan[i], cur);
      retire := if reclaim then gone + [i] else gone;
      next := cur[i := plan[i].after];
    }

    /** Drop the streams `retire`. */
    method Reclaim(retire: seq<nat>)
      requires Valid()
      modifies this`streams
      ensures Valid() && streams == old(streams) - (set i | i in retire)
    {
      for n := 0 to |retire|
        invariant streams == old(streams) - (set i | i in retire[..n])
      {
        assert retire[..n + 1] == retire[..n] + [retire[n]];
        streams := streams - {retire[n]};
      }
      assert retire[..|retire|] == retire;
    }

    /** What the next poll will do. */
    lemma MakePlan(now: nat) returns (plan: map<nat, Outcome>)
      requires Valid()
      ensures Planned(Models(), plan, now)
    {
      assert forall i | i in streams :: Picked(i) ==> streams[i].Valid();
      plan := map i | i in streams && Picked(i) :: OutcomeOf(streams[i].model, now);
    }

    /** Poll every stream in order of id. */
    method Collect(ghost was: map<nat, S.Stream>, ghost plan: map<nat, Outcome>)
      returns (out: seq<Frame>, retire: seq<nat>, ghost order: seq<nat>)
      requires Valid() && Mirrors(streams, was) && Planned(was, plan, now)
      modifies Objects()
      ensures Valid() && Sorted(order, plan.Keys) && out == FlatMap(FramesOf(plan), order)
      ensures forall i | i in streams :: streams[i].model == plan[i].after && (i in retire <==> plan[i].gone)
    {
      var ids := SortedIds(streams.Keys);
      order := ids;
      out, retire := PollAll(ids, was, plan);
      PollResult(was, plan, ids);
    }

    /**
      * Advance the clock one tick and collect the frames of every stream, in order of id;
      * streams that are reset or done in both directions are reclaimed.
      */
    method PollTransmit() returns (out: seq<Frame>, ghost plan: map<nat, Outcome>, ghost order: seq<nat>)
      requires Valid()
      modifies this`now, this`streams, Objects()
      ensures Valid() && now == old(now) + 1
      ensures Planned(old(Models()), plan, now)
      ensures Sorted(order, plan.Keys) && out == FlatMap(FramesOf(plan), order)
      ensures forall i | i in plan :: i in streams <==> !plan[i].gone
      ensures forall i | i in streams ::
              i in old(streams) && streams[i] == old(streams)[i] && streams[i].model == plan[i].after
    {
      plan := MakePlan(now + 1);
      ghost var was := Models();
      now := now + 1;
      var retire;
      out, retire, order := Collect(was, plan);
      Reclaim(retire);
    }
  }

  /** The objects of `table` stand for the streams `cur`. */
  ghost predicate Mirrors(table: map<nat, StreamState>, cur: map<nat, S.Stream>)
    reads set i | i in table :: table[i]
  {
    table.Keys == cur.Keys && forall i | i in table :: table[i].model == cur[i]
  }

  /** `ids` are distinct streams that have not changed from `was` to `cur`. */
  ghost predicate Listed(ids: seq<nat>, was: map<nat, S.Stream>, cur: map<nat, S.Stream>) {
    && (forall j, k | 0 <= j < k < |ids| :: ids[j] != ids[k])
    && (forall k | 0 <= k < |ids| :: ids[k] in was && ids[k] in cur && cur[ids[k]] == was[ids[k]])
  }

  lemma ListedNext(ids: seq<nat>, was: map<nat, S.Stream>, cur: map<nat, S.Stream>, s: S.Stream)
    requires ids != [] && Listed(ids, was, cur)
    ensures Listed(ids[1..], was, cur[ids[0] := s])
  {
  }

  ghost function Updated(cur: map<nat, S.Stream>, plan: map<nat, Outcome>, ids: seq<nat>): map<nat, S.Stream>
    decreases |ids|
  {
    if |ids| == 0 then cur
    else if ids[0] !in plan then Updated(cur, plan, ids[1..])
    else Updated(cur[ids[0] := plan[ids[0]].after], plan, ids[1..])
  }

  ghost function GoneOf(plan: map<nat, Outcome>): nat -> seq<nat> {
    (i: nat) => if i in plan && plan[i].gone then [i] else []
  }

  /** With `rest` still to be polled, the results so far are on the way to those for all of `ids`. */
  ghost predicate Remaining(plan: map<nat, Outcome>, was: map<nat, S.Stream>, ids: seq<nat>,
                            cur: map<nat, S.Stream>, rest: seq<nat>, out: seq<Frame>, retire: seq<nat>) {
    && Updated(cur, plan, rest) == Updated(was, plan, ids)
    && out + FlatMap(FramesOf(plan), rest) == FlatMap(FramesOf(plan), ids)
    && retire + FlatMap(GoneOf(plan), rest) == FlatMap(GoneOf(plan), ids)
  }

  lemma RemainingStart(plan: map<nat, Outcome>, was: map<nat, S.Stream>, ids: seq<nat>)
    ensures Remaining(plan, was, ids, was, ids, [], [])
  {
  }

  lemma RemainingDone(plan: map<nat, Outcome>, was: map<nat, S.Stream>, ids: seq<nat>,
                      cur: map<nat, S.Stream>, out: seq<Frame>, retire: seq<nat>)
    requires Remaining(plan, was, ids, cur, [], out, retire)
    ensures cur == Updated(was, plan, ids)
    ensures out == FlatMap(FramesOf(plan), ids) && retire == FlatMap(GoneOf(plan), ids)
  {
  }

  lemma RemainingNext(plan: map<nat, Outcome>, was: map<nat, S.Stream>, ids: seq<nat>,
                      cur: map<nat, S.Stream>, rest: seq<nat>, out: seq<Frame>, retire: seq<nat>, i: nat)
    requires Remaining(plan, was, ids, cur, rest, out, retire) && rest != [] && rest[0] == i && i in plan
    ensures Remaining(plan, was, ids, cur[i := plan[i].after], rest[1..], out + plan[i].frames,
                      if plan[i].gone then retire + [i] else retire)
  {
    var frames, gone := FlatMap(FramesOf(plan), rest[1..]), FlatMap(GoneOf(plan), rest[1..]);
    assert out + (plan[i].frames + frames) == out + plan[i].frames + frames;
    if plan[i].gone {
      assert retire + ([i] + gone) == retire + [i] + gone;
    } else {
      assert [] + gone == gone;
    }
  }

  /** What polling every stream comes to, stream by stream. */
  lemma PollResult(was: map<nat, S.Stream>, plan: map<nat, Outcome>, ids: seq<nat>)
    requires plan.Keys == was.Keys && Sorted(ids, was.Keys)
    ensures Updated(was, plan, ids).Keys == was.Keys
    ensures forall i | i in was :: Updated(was, plan, ids)[i] == plan[i].after
    ensures forall i | i in was :: i in FlatMap(GoneOf(plan), ids) <==> plan[i].gone
  {
    if |ids| > 0 { UpdatedAt(was, plan, ids, ids[0]); }
    forall i | i in was
      ensures Updated(was, plan, ids)[i] == plan[i].after && (i in FlatMap(GoneOf(plan), ids) <==> plan[i].gone)
    {
      UpdatedAt(was, plan, ids, i);
      GoneAt(plan, ids, i);
    }
  }

  lemma {:induction false} UpdatedAt(cur: map<nat, S.Stream>, plan: map<nat, Outcome>, ids: seq<nat>, i: nat)
    requires plan.Keys == cur.Keys && i in cur && forall j, k | 0 <= j < k < |ids| :: ids[j] != ids[k]
    requires forall k | 0 <= k < |ids| :: ids[k] in cur
    ensures Updated(cur, plan, ids).Keys == cur.Keys
    ensures Updated(cur, plan, ids)[i] == if i in ids then plan[i].after else cur[i]
    decreases |ids|
  {
    if ids != [] {
      var next := cur[ids[0] := plan[ids[0]].after];
      assert next.Keys == cur.Keys;
      UpdatedAt(next, plan, ids[1..], i);
    }
  }

  lemma {:induction false} GoneAt(plan: map<nat, Outcome>, ids: seq<nat>, i: nat)
    ensures i in FlatMap(GoneOf(plan), ids) <==> i in ids && i in plan && plan[i].gone
  {
    if ids != [] { GoneAt(plan, ids[1..], i); }
  }

  method SortedIds(keys: set<nat>) returns (ids: seq<nat>)
    ensures Sorted(ids, keys)
  {
    ids := [];
    var rest := keys;
    while rest != {}
      invariant rest <= keys && Sorted(ids, keys - rest)
      invariant forall k, i | 0 <= k < |ids| && i in rest :: ids[k] < i
      decreases |rest|
    {
      var i := Smallest(rest);
      assert keys - (rest - {i}) == (keys - rest) + {i};
      ids, rest := ids + [i], rest - {i};
    }
    assert keys - rest == keys;
  }

  function Smallest(s: set<nat>): (m: nat)
    requires s != {}
    ensures m in s && forall k | k in s :: m <= k
  {
    SmallestExists(s);
    var m :| m in s && forall k | k in s :: m <= k;
    m
  }

  lemma SmallestExists(s: set<nat>)
    requires s != {}
    ensures exists i :: i in s && forall k | k in s :: i <= k
    decreases |s|
  {
    var x :| x in s;
    if s == {x} {
      assert forall k | k in s :: x <= k;
    } else {
      var t := s - {x};
      assert s == t + {x};
      SmallestExists(t);
      var y :| y in t && forall k | k in t :: y <= k;
      var m := Min(x, y);
      assert m in s && forall k | k in s :: m <= k;
    }
  }

  predicate Opens(streams: map<nat, StreamState>, localParity: nat, id: nat) {
    id % 2 != localParity && |streams| < MAX_STREAMS && id !in streams
  }

  /** A close is reported once, a reset always, and data exactly when it makes more bytes readable. */
  lemma EventsMean(s: S.Stream, f: Frame, now: nat)
    ensures f.StreamReset? ==> EventsOf(s, f, now) == [ResetSeen(f.id)]
    ensures f.StreamClose? ==> EventsOf(s, f, now) == if s.closeReceived then [] else [Closed(f.id, f.status)]
    ensures f.StreamClose? ==> EventsOf(S.OnFrame(s, f, now), f, now) == []
    ensures f.StreamData? ==>
            EventsOf(s, f, now) == if S.AckPoint(S.OnFrame(s, f, now).rcv) > S.AckPoint(s.rcv) then [Readable(f.id)] else []
    ensures f.StreamAck? ==> EventsOf(s, f, now) == []
  {
  }

  /** Some stream takes the frame in, or it opens one. */
  predicate Takes(streams: map<nat, StreamState>, localParity: nat, f: Frame) {
    if f.StreamOpen? then Opens(streams, localParity, f.id)
    else FrameId(f).Some? && FrameId(f).value in streams
  }

  /** The events a frame raises on a live stream: data that moves the ack point, the first close, any reset. */
  ghost function EventsOf(s: S.Stream, f: Frame, now: nat): seq<StreamEvent> {
    match f
    case StreamData(id, _, _, _) =>
      if S.AckPoint(S.OnFrame(s, f, now).rcv) > S.AckPoint(s.rcv) then [Readable(id)] else []
    case StreamClose(id, status) => if s.closeReceived then [] else [Closed(id, status)]
    case StreamReset(id) => [ResetSeen(id)]
    case _ => []
  }
}
