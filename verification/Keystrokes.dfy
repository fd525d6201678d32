/** The keystroke channel: the sender repeats its unacknowledged suffix, the receiver keeps only a count. */
module Keystrokes {
  import opened Common
  import opened Wire

  // ---------------------------------------------------------------- the two ends

  class InputSender {
    var buffer: seq<byte>
    var base: nat

    constructor ()
      ensures buffer == [] && base == 0
    {
      buffer, base := [], 0;
    }

    method Push(data: seq<byte>)
      modifies this
      ensures base == old(base) && buffer == old(buffer) + data
    {
      buffer := buffer + data;
    }

    method Pending() returns (f: Option<Frame>)
      ensures f == PendingFrame(buffer, base)
    {
      if buffer == [] {
        return None;
      }
      f := Some(Input(base, buffer));
    }

    method Total() returns (n: nat)
      ensures n == base + |buffer|
    {
      n := base + |buffer|;
    }

    method OnAck(ack: nat)
      modifies this
      ensures (base, buffer) == AfterAck(old(base), old(buffer), ack)
    {
      var total := Total();
      var newBase := Min(ack, total);
      if newBase > base {
        buffer := buffer[newBase - base..];
        base := newBase;
      }
    }
  }

  class InputReceiver {
    var received: nat

    constructor ()
      ensures received == 0
    {
      received := 0;
    }

    method Ingest(offset: nat, data: seq<byte>) returns (newBytes: seq<byte>)
      modifies this
      ensures newBytes == NewBytes(old(received), offset, data) && received == old(received) + |newBytes|
    {
      var end := offset + |data|;
      if end <= received {
        return [];
      }
      if offset > received {
        return [];
      }
      newBytes := data[received - offset..];
      received := end;
    }
  }

  function PendingFrame(buffer: seq<byte>, base: nat): Option<Frame> {
    if buffer == [] then None else Some(Input(base, buffer))
  }

  function AfterAck(base: nat, buffer: seq<byte>, ack: nat): (nat, seq<byte>) {
    var newBase := Min(ack, base + |buffer|);
    if newBase > base then (newBase, buffer[newBase - base..]) else (base, buffer)
  }

  /** The part of a frame that extends the bytes received so far; a frame that leaves a gap gives none. */
  function NewBytes(received: nat, offset: nat, data: seq<byte>): seq<byte> {
    if offset <= received < offset + |data| then data[received - offset..] else []
  }

  /** Of any acknowledgement: the base never goes back nor past the total, and what is kept is the rest of what was kept. */
  lemma AnyAck(base: nat, buffer: seq<byte>, ack: nat)
    ensures var (b, kept) := AfterAck(base, buffer, ack);
            && b == (if ack <= base then base else if ack <= base + |buffer| then ack else base + |buffer|)
            && kept == buffer[b - base..]
  {
  }

  // ---------------------------------------------------------------- the channel

  /** Both ends, the logs of all frames and acknowledgements ever sent, and the bytes typed and handed on. */
  datatype Channel = Channel(base: nat, buffer: seq<byte>, received: nat,
                             frames: seq<Frame>, acks: seq<nat>, typed: seq<byte>, handed: seq<byte>)

  datatype Event =
    | Type(data: seq<byte>)
    | Send
    | DeliverInput(frame: nat)    // any frame ever sent, any number of times
    | DeliverAck(ack: nat)

  const NEW_CHANNEL := Channel(0, [], 0, [], [], [], [])

  function Step(c: Channel, e: Event): Channel {
    match e
    case Type(data) => c.(buffer := c.buffer + data, typed := c.typed + data)
    case Send =>
      var f := PendingFrame(c.buffer, c.base);
      if f.None? then c else c.(frames := c.frames + [f.value])
    case DeliverInput(i) =>
      if i < |c.frames| && c.frames[i].Input? then
        var n := NewBytes(c.received, c.frames[i].inputOffset, c.frames[i].inputData);
        c.(received := c.received + |n|, handed := c.handed + n, acks := c.acks + [c.received + |n|])
      else c
    case DeliverAck(i) =>
      if i < |c.acks| then
        var (base, buffer) := AfterAck(c.base, c.buffer, c.acks[i]);
        c.(base := base, buffer := buffer)
      else c
  }

  function Run(events: seq<Event>): Channel {
    if events == [] then NEW_CHANNEL else Step(Run(events[..|events| - 1]), events[|events| - 1])
  }

  /** The frame carries a stretch of the bytes typed, at its own offset. */
  ghost predicate FrameOk(f: Frame, typed: seq<byte>) {
    && f.Input? && f.inputOffset + |f.inputData| <= |typed|
    && f.inputData == typed[f.inputOffset..f.inputOffset + |f.inputData|]
  }

  ghost predicate FramesOk(frames: seq<Frame>, typed: seq<byte>) {
    forall i | 0 <= i < |frames| :: FrameOk(frames[i], typed)
  }

  ghost predicate AcksOk(acks: seq<nat>, received: nat) {
    forall i | 0 <= i < |acks| :: acks[i] <= received
  }

  ghost predicate EndsOk(c: Channel) {
    && c.base <= c.received <= |c.typed| && c.buffer == c.typed[c.base..]
    && c.handed == c.typed[..c.received]
  }

  ghost predicate Inv(c: Channel) {
    EndsOk(c) && FramesOk(c.frames, c.typed) && AcksOk(c.acks, c.received)
  }

  lemma FramesOkExtends(frames: seq<Frame>, typed: seq<byte>, more: seq<byte>)
    requires FramesOk(frames, typed)
    ensures FramesOk(frames, typed + more)
  {
    forall i | 0 <= i < |frames| ensures FrameOk(frames[i], typed + more) {
      var f := frames[i];
      assert FrameOk(f, typed);
      assert (typed + more)[f.inputOffset..f.inputOffset + |f.inputData|] == f.inputData;
    }
  }

  /** A stretch of the bytes typed adds exactly the bytes between what was received and its end. */
  lemma NewBytesOf(f: Frame, typed: seq<byte>, received: nat)
    requires FrameOk(f, typed) && received <= |typed|
    ensures var n := NewBytes(received, f.inputOffset, f.inputData);
            received + |n| <= |typed| && typed[..received] + n == typed[..received + |n|]
    ensures f.inputOffset <= received <= f.inputOffset + |f.inputData| ==>
              received + |NewBytes(received, f.inputOffset, f.inputData)| == f.inputOffset + |f.inputData|
  {
    if f.inputOffset <= received < f.inputOffset + |f.inputData| {
      assert f.inputData[received - f.inputOffset..] == typed[received..f.inputOffset + |f.inputData|];
    }
  }

  lemma StepType(c: Channel, data: seq<byte>)
    requires Inv(c)
    ensures Inv(Step(c, Type(data)))
  {
    FramesOkExtends(c.frames, c.typed, data);
    assert EndsOk(Step(c, Type(data))) by {
      assert (c.typed + data)[c.base..] == c.typed[c.base..] + data;
      assert (c.typed + data)[..c.received] == c.typed[..c.received];
    }
  }

  lemma StepSend(c: Channel)
    requires Inv(c)
    ensures Inv(Step(c, Send))
  {
    assert FrameOk(Input(c.base, c.buffer), c.typed) by {
      assert c.typed[c.base..c.base + |c.buffer|] == c.typed[c.base..];
    }
    assert FramesOk(c.frames + [Input(c.base, c.buffer)], c.typed);
  }

  lemma StepDeliverInput(c: Channel, i: nat)
    requires Inv(c)
    ensures Inv(Step(c, DeliverInput(i)))
  {
    if i < |c.frames| {
      var f := c.frames[i];
      assert FrameOk(f, c.typed);
      NewBytesOf(f, c.typed, c.received);
    }
  }

  lemma StepDeliverAck(c: Channel, i: nat)
    requires Inv(c)
    ensures Inv(Step(c, DeliverAck(i)))
  {
    if i < |c.acks| {
      assert c.acks[i] <= c.received;
      var newBase := Min(c.acks[i], c.base + |c.buffer|);
      if newBase > c.base { assert c.typed[c.base..][newBase - c.base..] == c.typed[newBase..]; }
    }
  }

  lemma {:induction false} RunInv(events: seq<Event>)
    ensures Inv(Run(events))
  {
    if events != [] {
      var c := Run(events[..|events| - 1]);
      RunInv(events[..|events| - 1]);
      match events[|events| - 1]
      case Type(data) => StepType(c, data);
      case Send => StepSend(c);
      case DeliverInput(i) => StepDeliverInput(c, i);
      case DeliverAck(i) => StepDeliverAck(c, i);
    }
  }

  /**
    * Whatever is lost, duplicated or reordered, what is handed on is a prefix of what was
    * typed, and `base <= received <= total`.
    */
  lemma HandsOnPrefix(events: seq<Event>)
    ensures var c := Run(events); c.handed <= c.typed && c.base <= c.received <= c.base + |c.buffer| == |c.typed|
  {
    RunInv(events);
  }

  /** The sender's pending frame reaches the receiver, and then the acknowledgement it causes reaches the sender. */
  function Exchange(events: seq<Event>): seq<Event> {
    var c := Run(events);
    events + [Send, DeliverInput(|c.frames|), DeliverAck(|c.acks|)]
  }

  lemma SendPending(c: Channel)
    requires Inv(c) && c.buffer != []
    ensures var d := Step(Step(c, Send), DeliverInput(|c.frames|));
            && d.received == |c.typed| && d.acks == c.acks + [|c.typed|]
            && d.typed == c.typed && d.base == c.base && d.buffer == c.buffer
  {
    var f := Input(c.base, c.buffer);
    StepSend(c);
    assert FrameOk(f, c.typed) by { assert FramesOk(c.frames + [f], c.typed) && (c.frames + [f])[|c.frames|] == f; }
    NewBytesOf(f, c.typed, c.received);
  }

  lemma RunSnoc(events: seq<Event>, e: Event)
    ensures Run(events + [e]) == Step(Run(events), e)
  {
    assert (events + [e])[..|events|] == events;
  }

  /**
    * From any reachable state with bytes pending, one delivered frame and one delivered
    * acknowledgement empty the sender, with every byte typed handed on.
    */
  lemma OneExchangeEmpties(events: seq<Event>)
    requires Run(events).buffer != []
    ensures var c := Run(Exchange(events));
            c.buffer == [] && c.base == |c.typed| && c.handed == c.typed == Run(events).typed
  {
    var c := Run(events);
    var e1, e2, e3 := Send, DeliverInput(|c.frames|), DeliverAck(|c.acks|);
    RunInv(events);
    SendPending(c);
    RunSnoc(events, e1);
    RunSnoc(events + [e1], e2);
    RunSnoc(events + [e1] + [e2], e3);
    assert Exchange(events) == events + [e1] + [e2] + [e3];
    RunInv(Exchange(events));
  }
}
