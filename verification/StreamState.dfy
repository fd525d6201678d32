/** A stream endpoint on mutable fields. Every method carries out one function of `StreamSpec`. */
module StreamState {
  import opened Common
  import opened Wire
  import opened Reassembly
  import S = StreamSpec

  class StreamState {
    const id: nat
    const kind: StreamKind
    const meta: seq<byte>
    var needsOpen: bool

    var sendBuf: seq<byte>
    var sendBase: nat
    var sendHigh: nat
    var sendNext: nat
    var peerWindow: nat
    var sendFin: bool
    var finSent: bool
    var finAcked: bool
    var closeStatus: Option<int>

    var rtoStart: Option<nat>
    var rto: nat
    var srtt: nat
    var rttvar: nat
    var timed: Option<S.Probe>

    var cwnd: nat
    var ssthresh: nat

    const recv: Reassembler
    var recvWindow: nat
    var peerFin: Option<nat>
    var closeReceived: bool
    var closeTicks: nat
    var reset: bool

    /** The stream this object stands for. */
    ghost var model: S.Stream

    ghost function Snd(): S.Sender
      reads this
    {
      S.Sender(sendBuf, sendBase, sendHigh, sendNext, peerWindow, sendFin, finSent, finAcked,
               rtoStart, rto, srtt, rttvar, timed, cwnd, ssthresh)
    }

    ghost function Rcv(): S.Receiver
      reads this, recv
    {
      S.Receiver(recv.delivered, recv.held)
    }

    ghost function Model(): S.Stream
      reads this, recv
    {
      S.Stream(id, kind, meta, needsOpen, Snd(), closeStatus, Rcv(), recvWindow, peerFin,
               closeReceived, closeTicks, reset)
    }

    ghost predicate Valid()
      reads this, recv
    {
      recv.Valid() && S.Buffered(Snd()) && model == Model()
    }

    constructor (id: nat, kind: StreamKind, meta: seq<byte>, needsOpen: bool)
      ensures Valid() && fresh(recv) && this.id == id
      ensures model == S.NewStream(id, kind, meta, needsOpen)
    {
      this.id, this.kind, this.meta, this.needsOpen := id, kind, meta, needsOpen;
      sendBuf, sendBase, sendHigh, sendNext := [], 0, 0, 0;
      peerWindow, sendFin, finSent, finAcked, closeStatus := S.DEFAULT_WINDOW, false, false, false, None;
      rtoStart, rto, srtt, rttvar, timed := None, S.INIT_RTO, 0, 0, None;
      cwnd, ssthresh := S.INIT_CWND, S.MAX_CWND;
      recv := new Reassembler();
      recvWindow, peerFin, closeReceived, closeTicks, reset := S.DEFAULT_WINDOW, None, false, 0, false;
      model := S.NewStream(id, kind, meta, needsOpen);
    }

    method Unread() returns (n: nat)
      requires recv.Valid()
      ensures n == S.Unread(Rcv())
    {
      var e := recv.AckPoint();
      n := e - recv.delivered;
    }

    method RecvFinished() returns (r: bool)
      requires Valid()
      ensures r == S.RecvFinished(model)
    {
      var unread := Unread();
      r := peerFin.Some? && recv.delivered >= peerFin.value && unread == 0;
    }

    method FullyDone() returns (r: bool)
      requires Valid()
      ensures r == S.FullyDone(model)
    {
      if !sendFin {
        return false;
      }
      var finished := RecvFinished();
      if finAcked && finished {
        return true;
      }
      r := closeReceived && closeTicks >= S.CLOSE_GRACE_TICKS;
    }

    method Write(data: seq<byte>)
      requires Valid()
      modifies this
      ensures Valid() && model == old(model).(snd := S.Write(old(model).snd, data))
    {
      sendBuf := sendBuf + data;
      sendNext := sendNext + |data|;
      model := Model();
    }

    method Close(status: int)
      requires Valid()
      modifies this
      ensures Valid() && model == S.Close(old(model), status)
    {
      sendFin := true;
      closeStatus := Some(status);
      model := Model();
    }

    method Abort()
      requires Valid()
      modifies this
      ensures Valid() && model == old(model).(reset := true)
    {
      reset := true;
      model := Model();
    }

    method RecomputeRto()
      modifies this`rto
      ensures rto == S.RtoFor(srtt, rttvar)
    {
      if srtt > 0 {
        rto := S.Clamp(srtt + Max(4 * rttvar, 1), S.MIN_RTO, S.MAX_RTO);
      } else {
        rto := S.INIT_RTO;
      }
    }

    method UpdateRtt(r: nat)
      modifies this`srtt, this`rttvar, this`rto
      ensures Snd() == S.Sample(old(Snd()), r)
    {
      if srtt == 0 {
        srtt := r;
        rttvar := r / 2;
      } else {
        var delta := if srtt >= r then srtt - r else r - srtt;
        rttvar := (3 * rttvar + delta) / 4;
        srtt := (7 * srtt + r) / 8;
      }
      RecomputeRto();
    }

    method GrowCwnd(acked: nat)
      modifies this`cwnd
      ensures cwnd == S.GrownCwnd(old(cwnd), ssthresh, acked)
    {
      var inc: nat;
      if cwnd < ssthresh {
        inc := Min(acked % U32_LIMIT, S.MSS);
      } else {
        inc := Max(S.MSS * S.MSS / Max(cwnd, 1), 1);
      }
      cwnd := Min(Min(cwnd + inc, U32_LIMIT - 1), S.MAX_CWND);
    }

    /** The part of an acknowledgement that makes forward progress. */
    method Advance(ack: nat, now: nat)
      requires S.Buffered(Snd()) && sendBase < ack
      modifies this`sendBuf, this`sendBase, this`sendHigh, this`cwnd, this`rtoStart, this`rto
      ensures Snd() == S.Advance(old(Snd()), ack, now) && S.Buffered(Snd())
    {
      var advance := Min(ack - sendBase, |sendBuf|);
      sendBuf := sendBuf[advance..];
      sendBase := sendBase + advance;
      sendHigh := Max(sendHigh, sendBase);
      GrowCwnd(advance);
      rtoStart := if sendBase < sendHigh then Some(now) else None;
      RecomputeRto();
    }

    method TakeSample(ack: nat, now: nat)
      modifies this`srtt, this`rttvar, this`rto, this`timed
      ensures Snd() == S.TakeSample(old(Snd()), ack, now)
    {
      if timed.Some? && ack >= timed.value.end {
        UpdateRtt(Max(S.Elapsed(now, timed.value.sent), 1));
        timed := None;
      }
    }

    method OnAck(ack: nat, window: nat, now: nat)
      requires S.Buffered(Snd())
      modifies this`peerWindow, this`sendBuf, this`sendBase, this`sendHigh, this`cwnd, this`rtoStart, this`rto,
               this`srtt, this`rttvar, this`timed, this`finAcked
      ensures S.Buffered(Snd()) && Snd() == S.OnAck(old(Snd()), ack, window, now)
    {
      if ack > sendNext {
        return;
      }
      peerWindow := window;
      ghost var s1 := Snd();
      if ack > sendBase {
        Advance(ack, now);
      }
      ghost var s2 := Snd();
      assert s2 == if ack > s1.base then S.Advance(s1, ack, now) else s1;
      TakeSample(ack, now);
      assert Snd() == S.TakeSample(s2, ack, now);
      if sendFin && finSent && ack >= sendNext {
        finAcked := true;
      }
    }

    method OnRto()
      modifies this`ssthresh, this`cwnd, this`rto, this`timed
      ensures Snd() == S.OnRto(old(Snd()))
    {
      ssthresh := Max(cwnd / 2, 2 * S.MSS);
      cwnd := S.MSS;
      rto := Min(rto * 2, S.MAX_RTO);
      timed := None;
    }

    /** Append `[from, till)` to `out` in chunks. */
    method EmitRange(out: seq<Frame>, from: nat, till: nat) returns (r: seq<Frame>)
      requires S.Buffered(Snd()) && sendBase <= from <= till <= sendNext
      modifies this`finSent
      ensures r == out + S.Chunks(id, old(Snd()), from, till)
      ensures Snd() == S.MarkFin(old(Snd()), from, till)
    {
      r := out;
      var off := from;
      ghost var s := Snd();
      while off < till
        invariant from <= off <= till
        invariant r + S.Chunks(id, s, off, till) == out + S.Chunks(id, s, from, till)
        invariant finSent == (s.finSent || (off == till && from < till && s.fin && till == s.next && !s.finAcked))
      {
        var end := Min(off + S.MAX_STREAM_CHUNK, till);
        var fin := sendFin && end == sendNext && !finAcked;
        if fin {
          finSent := true;
        }
        var f := StreamData(id, off, sendBuf[off - sendBase..end - sendBase], fin);
        assert S.Chunks(id, s, off, till) == [f] + S.Chunks(id, s, end, till);
        r := r + [f];
        off := end;
      }
    }

    method RtoDue(now: nat) returns (due: bool)
      ensures due == S.RtoDue(Snd(), now)
    {
      due := rtoStart.None? || S.Elapsed(now, rtoStart.value) >= rto;
    }

    /** Send what lies between `sendHigh` and `end` for the first time. */
    method SendNew(end: nat, now: nat, out: seq<Frame>) returns (r: seq<Frame>)
      requires S.Buffered(Snd()) && end == S.SendEnd(Snd()) && sendHigh < end
      modifies this`finSent, this`timed, this`sendHigh, this`rtoStart
      ensures Snd() == S.SendData(id, old(Snd()), now).0 && r == out + S.SendData(id, old(Snd()), now).1
    {
      r := EmitRange(out, Max(sendHigh, sendBase), end);
      if timed.None? {
        timed := Some(S.Probe(end, now));
      }
      sendHigh := end;
      if rtoStart.None? {
        rtoStart := Some(now);
      }
    }

    /** Queue the data frames that are due at tick `now`. */
    method SendData(now: nat, out: seq<Frame>) returns (r: seq<Frame>)
      requires S.Buffered(Snd())
      modifies this`finSent, this`timed, this`sendHigh, this`rtoStart, this`ssthresh, this`cwnd, this`rto
      ensures Snd() == S.SendData(id, old(Snd()), now).0 && S.Buffered(Snd())
      ensures r == out + S.SendData(id, old(Snd()), now).1
    {
      r := out;
      var end := Min(sendNext, sendBase + Min(peerWindow, cwnd));
      var due := RtoDue(now);
      if sendHigh < end {
        r := SendNew(end, now, out);
      } else if sendBase < sendHigh {
        if due {
          r := EmitRange(out, sendBase, sendHigh);
          rtoStart := Some(now);
          OnRto();
        }
      } else if sendFin && !finAcked && sendNext == sendBase {
        if !finSent || due {
          r := out + [StreamData(id, sendNext, [], true)];
          finSent := true;
          rtoStart := Some(now);
        }
      }
    }

    /** Queue the acknowledgement, then the graceful close while it is still needed. */
    method SendControl(out: seq<Frame>) returns (r: seq<Frame>)
      requires recv.Valid()
      modifies this`recvWindow
      ensures recv.Valid() && Model() == old(Model()).(recvWindow := S.AdvertisedWindow(old(Model()).rcv))
      ensures r == out + S.AckFrames(old(Model())) + S.CloseFrames(old(Model()), old(Model()).snd.finAcked)
    {
      var unread := Unread();
      recvWindow := S.DEFAULT_WINDOW - Min(unread, S.DEFAULT_WINDOW);
      var ack := recv.AckPoint();
      r := out + [StreamAck(id, ack, recvWindow)];
      if closeStatus.Some? && !finAcked {
        r := r + [StreamClose(id, closeStatus.value)];
      }
    }

    /** One transmit round at tick `now`: nothing on a reset stream. */
    method Transmit(now: nat, out: seq<Frame>) returns (r: seq<Frame>)
      requires Valid()
      modifies this
      ensures Valid()
      ensures old(reset) ==> r == out && model == old(model)
      ensures !old(reset) ==> r == out + S.TransmitFrames(old(model), now) && model == S.Transmitted(old(model), now)
    {
      r := out;
      if !reset {
        r := TransmitLive(now, out);
      }
    }

    method TransmitLive(now: nat, out: seq<Frame>) returns (r: seq<Frame>)
      requires Valid()
      modifies this
      ensures Valid()
      ensures r == out + S.TransmitFrames(old(model), now) && model == S.Transmitted(old(model), now)
    {
      ghost var s := Model();
      r := SendOpen(out);
      r := QueueData(now, r);
      r := SendControl(r);
      ghost var snd := S.SendData(s.id, s.snd, now);
      Reassociate(out, S.OpenFrames(s), snd.1, S.AckFrames(s), S.CloseFrames(s, snd.0.finAcked));
      CountTicks();
    }

    method QueueData(now: nat, out: seq<Frame>) returns (r: seq<Frame>)
      requires recv.Valid() && S.Buffered(Model().snd)
      modifies this`finSent, this`timed, this`sendHigh, this`rtoStart, this`ssthresh, this`cwnd, this`rto
      ensures recv.Valid() && S.Buffered(Model().snd)
      ensures Model() == old(Model()).(snd := S.SendData(old(Model()).id, old(Model()).snd, now).0)
      ensures r == out + S.SendData(old(Model()).id, old(Model()).snd, now).1
    {
      r := SendData(now, out);
    }

    method SendOpen(out: seq<Frame>) returns (r: seq<Frame>)
      requires recv.Valid()
      modifies this`needsOpen
      ensures recv.Valid() && Model() == old(Model()).(needsOpen := false)
      ensures r == out + S.OpenFrames(old(Model()))
    {
      r := out;
      if needsOpen {
        r := r + [StreamOpen(id, kind, meta)];
        needsOpen := false;
      }
    }

    method CountTicks()
      requires recv.Valid()
      modifies this`closeTicks, this`model
      ensures recv.Valid() && model == Model()
      ensures Model() == old(Model()).(closeTicks := closeTicks)
      ensures closeTicks == if closeReceived && sendFin && peerFin.None? then Min(old(closeTicks) + 1, U32_LIMIT - 1) else old(closeTicks)
    {
      if closeReceived && sendFin && peerFin.None? {
        closeTicks := Min(closeTicks + 1, U32_LIMIT - 1);
      }
      model := Model();
    }

    /** Take in a data frame; true if it made more bytes readable. */
    method OnData(offset: nat, data: seq<byte>, fin: bool) returns (readable: bool)
      requires recv.Valid()
      modifies this`peerFin, recv
      ensures recv.Valid() && Model() == S.OnData(old(Model()), offset, data, fin)
      ensures readable == (S.AckPoint(Rcv()) > S.AckPoint(old(Rcv())))
    {
      readable := false;
      if offset + |data| >= U64_LIMIT || offset > Min(recv.delivered + S.DEFAULT_WINDOW, U64_LIMIT - 1) {
        return;
      }
      var had := recv.AckPoint();
      if fin && peerFin.None? {
        peerFin := Some(offset + |data|);
      }
      recv.Insert(offset, data);
      var has := recv.AckPoint();
      readable := has > had;
    }

    method TakeAck(ack: nat, window: nat, now: nat)
      requires Valid()
      modifies this
      ensures Valid() && model == old(model).(snd := S.OnAck(old(model).snd, ack, window, now))
    {
      OnAck(ack, window, now);
      model := Model();
    }

    method TakeData(offset: nat, data: seq<byte>, fin: bool) returns (readable: bool)
      requires Valid()
      modifies this, recv
      ensures Valid() && model == S.OnData(old(model), offset, data, fin)
      ensures readable == (S.AckPoint(model.rcv) > S.AckPoint(old(model).rcv))
    {
      readable := OnData(offset, data, fin);
      model := Model();
    }

    /** Take in a frame that names this stream; true if it made more bytes readable. */
    method OnFrame(f: Frame, now: nat) returns (readable: bool)
      requires Valid()
      modifies this, recv
      ensures Valid() && model == S.OnFrame(old(model), f, now)
      ensures readable == (S.AckPoint(model.rcv) > S.AckPoint(old(model).rcv))
    {
      readable := false;
      match f {
        case StreamData(_, offset, data, fin) =>
          readable := TakeData(offset, data, fin);
        case StreamAck(_, ack, window) =>
          TakeAck(ack, window, now);
        case StreamClose(_, status) =>
          closeReceived := true;
          model := Model();
        case StreamReset(_) =>
          Abort();
        case _ =>
      }
    }

    method Read() returns (out: seq<byte>)
      requires Valid()
      modifies this`model, recv
      ensures Valid() && model == old(model).(rcv := S.Drain(old(model).rcv))
      ensures out == Run(old(model).rcv.held, old(model).rcv.delivered)
    {
      out := recv.Read();
      model := Model();
    }
  }

  lemma Reassociate<T>(a: seq<T>, b: seq<T>, c: seq<T>, d: seq<T>, e: seq<T>)
    ensures a + b + c + d + e == a + (b + c + d + e)
  {
  }
}
