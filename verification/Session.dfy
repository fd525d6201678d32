/** Sealed datagrams: packet layout, packing of frames, and opening with replay protection and roaming. */
module Session {
  import opened Common
  import opened Wire
  import opened Replay

  // ---------------------------------------------------------------- packets

  datatype TransportError =
    | Short | UnknownType(ty: byte) | SessionMismatch | ReplayedPacket | Noise | BadFrames(wire: WireError)

  datatype Packet =
    | Handshake(sessionId: seq<byte>, body: seq<byte>)
    | Transport(sessionId: seq<byte>, nonce: nat, body: seq<byte>)

  /** The `k` low-order bytes of `n`, most significant first. */
  function BigEndian(n: nat, k: nat): (r: seq<byte>)
    ensures |r| == k
  {
    if k == 0 then [] else BigEndian(n / 256, k - 1) + [n % 256]
  }

  function FromBigEndian(s: seq<byte>): nat {
    if s == [] then 0 else 256 * FromBigEndian(s[..|s| - 1]) + s[|s| - 1]
  }

  function Pow256(k: nat): nat { if k == 0 then 1 else 256 * Pow256(k - 1) }

  lemma {:induction false} BigEndianRoundTrip(n: nat, k: nat)
    requires n < Pow256(k)
    ensures FromBigEndian(BigEndian(n, k)) == n
  {
    if k > 0 {
      BigEndianRoundTrip(n / 256, k - 1);
      assert BigEndian(n, k)[..k - 1] == BigEndian(n / 256, k - 1);
    }
  }

  lemma EightBytes()
    ensures Pow256(8) == U64_LIMIT
  {
    assert Pow256(4) == 256 * Pow256(3) == 256 * 256 * Pow256(2) == 0x1_0000_0000;
    assert Pow256(8) == 256 * Pow256(7) == 256 * 256 * Pow256(6) == 256 * 256 * 256 * Pow256(5);
  }

  function BuildTransport(sessionId: seq<byte>, nonce: nat, body: seq<byte>): seq<byte> {
    [1] + sessionId + BigEndian(nonce, 8) + body
  }

  function BuildHandshake(sessionId: seq<byte>, body: seq<byte>): seq<byte> { [0] + sessionId + body }

  /** Read the outer header of a datagram. */
  function ParsePacket(buf: seq<byte>): Result<Packet, TransportError> {
    if |buf| < 9 then Err(Short)
    else if buf[0] == 0 then Ok(Handshake(buf[1..9], buf[9..]))
    else if buf[0] != 1 then Err(UnknownType(buf[0]))
    else if |buf| < 17 then Err(Short)
    else Ok(Transport(buf[1..9], FromBigEndian(buf[9..17]), buf[17..]))
  }

  /** A built packet parses back to what it was built from. */
  lemma ParseBuilt(sessionId: seq<byte>, nonce: nat, body: seq<byte>)
    requires |sessionId| == 8 && nonce < U64_LIMIT
    ensures ParsePacket(BuildTransport(sessionId, nonce, body)) == Ok(Transport(sessionId, nonce, body))
    ensures ParsePacket(BuildHandshake(sessionId, body)) == Ok(Handshake(sessionId, body))
  {
    var p, h := BuildTransport(sessionId, nonce, body), BuildHandshake(sessionId, body);
    EightBytes();
    BigEndianRoundTrip(nonce, 8);
    assert p[1..9] == sessionId && p[9..17] == BigEndian(nonce, 8) && p[17..] == body;
    assert h[1..9] == sessionId && h[9..] == body;
  }

  // ---------------------------------------------------------------- packing

  function Total<T>(size: T -> nat, s: seq<T>): nat {
    if s == [] then 0 else Total(size, s[..|s| - 1]) + size(s[|s| - 1])
  }

  ghost predicate Within<T>(size: T -> nat, budget: nat, group: seq<T>) {
    group != [] && (Total(size, group) <= budget || |group| == 1)
  }

  /** `group` could not have taken the first item of `next` as well. */
  ghost predicate Full<T>(size: T -> nat, budget: nat, group: seq<T>, next: seq<T>) {
    next != [] && Total(size, group) + size(next[0]) > budget
  }

  /** Non-empty groups, each within the budget or a single item, each closed only when the next item did not fit. */
  ghost predicate Packed<T>(size: T -> nat, budget: nat, groups: seq<seq<T>>) {
    var n := |groups| - 1;
    n < 0 ||
    (Packed(size, budget, groups[..n]) && Within(size, budget, groups[n])
     && (n == 0 || Full(size, budget, groups[n - 1], groups[n])))
  }

  function Flatten<T>(groups: seq<seq<T>>): seq<T> {
    if groups == [] then [] else Flatten(groups[..|groups| - 1]) + groups[|groups| - 1]
  }

  lemma PackedPush<T>(size: T -> nat, budget: nat, groups: seq<seq<T>>, group: seq<T>)
    requires Packed(size, budget, groups) && Within(size, budget, group)
    requires groups != [] ==> Full(size, budget, groups[|groups| - 1], group)
    ensures Packed(size, budget, groups + [group]) && Flatten(groups + [group]) == Flatten(groups) + group
  {
    assert (groups + [group])[..|groups|] == groups;
  }

  /** What `Packed` says of each group and of each pair of neighbours. */
  lemma {:induction false} PackedAt<T>(size: T -> nat, budget: nat, groups: seq<seq<T>>, k: nat)
    requires Packed(size, budget, groups) && k < |groups|
    ensures Within(size, budget, groups[k]) && (k + 1 < |groups| ==> Full(size, budget, groups[k], groups[k + 1]))
  {
    var n := |groups| - 1;
    if k < n {
      PackedAt(size, budget, groups[..n], k);
    }
  }

  lemma GroupGrows<T>(size: T -> nat, budget: nat, group: seq<T>, x: T)
    ensures Total(size, group + [x]) == Total(size, group) + size(x)
    ensures Total(size, []) == 0 && Total(size, [x]) == size(x)
  {
    assert (group + [x])[..|group|] == group;
    assert [x][..0] == [];
  }

  /** `groups` are closed and `group` is being filled. */
  ghost predicate Packing<T>(size: T -> nat, budget: nat, groups: seq<seq<T>>, group: seq<T>) {
    && Packed(size, budget, groups)
    && (group != [] ==> Within(size, budget, group))
    && (groups != [] ==> Full(size, budget, groups[|groups| - 1], group))
  }

  lemma PackingClose<T>(size: T -> nat, budget: nat, groups: seq<seq<T>>, group: seq<T>, x: T)
    requires Packing(size, budget, groups, group) && group != [] && Total(size, group) + size(x) > budget
    ensures Packing(size, budget, groups + [group], [x]) && Flatten(groups + [group]) == Flatten(groups) + group
    ensures Total(size, [x]) == size(x)
  {
    PackedPush(size, budget, groups, group);
    GroupGrows(size, budget, [], x);
    assert Full(size, budget, group, [x]);
  }

  lemma PackingAdd<T>(size: T -> nat, budget: nat, groups: seq<seq<T>>, group: seq<T>, x: T)
    requires Packing(size, budget, groups, group) && (group == [] ==> groups == [])
    requires group != [] ==> Total(size, group) + size(x) <= budget
    ensures Packing(size, budget, groups, group + [x])
    ensures Total(size, group + [x]) == Total(size, group) + size(x)
  {
    GroupGrows(size, budget, group, x);
    assert group != [] ==> (group + [x])[0] == group[0];
  }

  lemma NextItem<T>(done: seq<T>, group: seq<T>, rest: seq<T>)
    requires rest != []
    ensures done + group + rest == done + (group + [rest[0]]) + rest[1..]
    ensures done + group + rest == (done + group) + [rest[0]] + rest[1..]
  {
    assert rest == [rest[0]] + rest[1..];
  }

  function FrameSize(f: Frame): nat { |EncodeFrame(f)| }

  lemma {:induction false} EncodedSize(frames: seq<Frame>)
    ensures |Encode(frames)| == Total(FrameSize, frames)
  {
    if frames != [] {
      var n := |frames| - 1;
      EncodedSize(frames[..n]);
      assert frames == frames[..n] + [frames[n]];
      EncodeConcat(frames[..n], [frames[n]]);
      FlatMapOne(EncodeFrame, frames[n]);
    }
  }

  // ---------------------------------------------------------------- the receiving half, as values

  datatype Addr = Addr(host: nat, port: nat)

  /** The cipher of an established session; nothing is assumed of it here. */
  datatype Cipher = Cipher(encrypt: (nat, seq<byte>) -> Option<seq<byte>>, decrypt: (nat, seq<byte>) -> Option<seq<byte>>)

  datatype Inbox = Inbox(accepted: set<nat>, peerAddr: Option<Addr>)

  datatype Arrival = Arrival(src: Addr, packet: seq<byte>)

  /** The nonce and plaintext of a packet that is addressed to this session and authentic. */
  function Authenticated(sessionId: seq<byte>, c: Cipher, packet: seq<byte>): Result<(nat, seq<byte>), TransportError> {
    var p :- ParsePacket(packet);
    if p.Handshake? then Err(UnknownType(0))
    else if p.sessionId != sessionId then Err(SessionMismatch)
    else match c.decrypt(p.nonce, p.body)
      case None => Err(Noise)
      case Some(plaintext) => Ok((p.nonce, plaintext))
  }

  function OpenPacket(sessionId: seq<byte>, c: Cipher, s: Inbox, a: Arrival): (Inbox, Result<seq<Frame>, TransportError>) {
    match Authenticated(sessionId, c, a.packet)
    case Err(e) => (s, Err(e))
    case Ok((nonce, plaintext)) =>
      if !Fresh(s.accepted, nonce) then (s, Err(ReplayedPacket))
      else
        (Inbox(s.accepted + {nonce}, Some(a.src)),
         match Decode(plaintext)
         case Err(e) => Err(BadFrames(e))
         case Ok(frames) => Ok(frames))
  }

  /** The inbox after the first `n` arrivals. */
  function After(sessionId: seq<byte>, c: Cipher, s: Inbox, arrivals: seq<Arrival>, n: nat): Inbox
    requires n <= |arrivals|
  {
    if n == 0 then s else OpenPacket(sessionId, c, After(sessionId, c, s, arrivals, n - 1), arrivals[n - 1]).0
  }

  function ResultAt(sessionId: seq<byte>, c: Cipher, s: Inbox, arrivals: seq<Arrival>, i: nat): Result<seq<Frame>, TransportError>
    requires i < |arrivals|
  {
    OpenPacket(sessionId, c, After(sessionId, c, s, arrivals, i), arrivals[i]).1
  }

  lemma {:induction false} AcceptedGrows(sessionId: seq<byte>, c: Cipher, s: Inbox, arrivals: seq<Arrival>, i: nat, j: nat)
    requires i <= j <= |arrivals|
    ensures After(sessionId, c, s, arrivals, i).accepted <= After(sessionId, c, s, arrivals, j).accepted
  {
    if i < j { AcceptedGrows(sessionId, c, s, arrivals, i, j - 1); }
  }

  /** Only what the peer sealed under a nonce decrypts under it. */
  ghost predicate Authentic(c: Cipher, sealed: map<nat, seq<byte>>) {
    forall n, ct | c.decrypt(n, ct).Some? :: n in sealed && c.decrypt(n, ct) == Some(sealed[n])
  }

  /**
    * Over every sequence of arrivals, replayed and forged ones included: frames that come out
    * are those the peer sealed under the packet's own nonce, and no two openings have one nonce.
    */
  lemma OpenedOnce(sessionId: seq<byte>, c: Cipher, s: Inbox, arrivals: seq<Arrival>, sealed: map<nat, seq<byte>>, i: nat, j: nat)
    requires Authentic(c, sealed) && i < j < |arrivals|
    requires ResultAt(sessionId, c, s, arrivals, i).Ok? && ResultAt(sessionId, c, s, arrivals, j).Ok?
    ensures Authenticated(sessionId, c, arrivals[i].packet).Ok? && Authenticated(sessionId, c, arrivals[j].packet).Ok?
    ensures var m := Authenticated(sessionId, c, arrivals[i].packet).value.0;
            var n := Authenticated(sessionId, c, arrivals[j].packet).value.0;
            && m in sealed && n in sealed && m != n
            && Decode(sealed[m]) == Ok(ResultAt(sessionId, c, s, arrivals, i).value)
            && Decode(sealed[n]) == Ok(ResultAt(sessionId, c, s, arrivals, j).value)
  {
    var (m, pm) := Authenticated(sessionId, c, arrivals[i].packet).value;
    var (n, pn) := Authenticated(sessionId, c, arrivals[j].packet).value;
    assert m in After(sessionId, c, s, arrivals, i + 1).accepted;
    AcceptedGrows(sessionId, c, s, arrivals, i + 1, j);
    assert m in sealed && n in sealed && m != n;
  }

  /** The peer address moves only on an authentic packet whose nonce is fresh, and then to its source. */
  lemma RoamsOnlyWhenAuthentic(sessionId: seq<byte>, c: Cipher, s: Inbox, a: Arrival, sealed: map<nat, seq<byte>>)
    requires Authentic(c, sealed)
    ensures OpenPacket(sessionId, c, s, a).0 == s
         || (exists n, body :: ParsePacket(a.packet) == Ok(Transport(sessionId, n, body)) && n in sealed
               && c.decrypt(n, body) == Some(sealed[n]) && Fresh(s.accepted, n)
               && OpenPacket(sessionId, c, s, a).0 == Inbox(s.accepted + {n}, Some(a.src)))
  {
    if Authenticated(sessionId, c, a.packet).Ok? {
      var p := ParsePacket(a.packet).value;
      assert ParsePacket(a.packet) == Ok(Transport(sessionId, p.nonce, p.body));
    }
  }

  // ---------------------------------------------------------------- the class

  function Sealed(sessionId: seq<byte>, c: Cipher, nonce: nat, frames: seq<Frame>): Result<seq<byte>, TransportError> {
    match c.encrypt(nonce, Encode(frames))
    case None => Err(Noise)
    case Some(ct) => Ok(BuildTransport(sessionId, nonce, ct))
  }

  /** What one end seals the other opens to the same frames, if the cipher undoes itself and the nonce is fresh. */
  lemma SealedOpens(sessionId: seq<byte>, c: Cipher, nonce: nat, frames: seq<Frame>, s: Inbox, src: Addr)
    requires |sessionId| == 8 && nonce < U64_LIMIT && forall f | f in frames :: InRange(f)
    requires Sealed(sessionId, c, nonce, frames).Ok? && Fresh(s.accepted, nonce)
    requires forall plain | c.encrypt(nonce, plain).Some? :: c.decrypt(nonce, c.encrypt(nonce, plain).value) == Some(plain)
    ensures OpenPacket(sessionId, c, s, Arrival(src, Sealed(sessionId, c, nonce, frames).value)) ==
            (Inbox(s.accepted + {nonce}, Some(src)), Ok(frames))
  {
    var ct := c.encrypt(nonce, Encode(frames)).value;
    ParseBuilt(sessionId, nonce, ct);
    DecodeEncode(frames);
  }

  /** Marks the positions that a proof speaks of. */
  ghost predicate At(k: nat) { true }

  /** The packets are the groups, sealed under consecutive nonces from `nonce` on. */
  ghost predicate SealedFrom(sessionId: seq<byte>, c: Cipher, nonce: nat, groups: seq<seq<Frame>>, packets: seq<seq<byte>>) {
    |packets| == |groups| &&
    forall k: nat {:trigger At(k)} | k < |groups| && At(k) :: Sealed(sessionId, c, nonce + k, groups[k]) == Ok(packets[k])
  }

  lemma SealedPush(sessionId: seq<byte>, c: Cipher, nonce: nat, groups: seq<seq<Frame>>, packets: seq<seq<byte>>,
                   group: seq<Frame>, packet: seq<byte>)
    requires SealedFrom(sessionId, c, nonce, groups, packets)
    requires Sealed(sessionId, c, nonce + |groups|, group) == Ok(packet)
    ensures SealedFrom(sessionId, c, nonce, groups + [group], packets + [packet])
  {
  }

  class Session {
    const sessionId: seq<byte>
    const cipher: Cipher
    var sendNonce: nat
    const replay: WindowFilter
    var peerAddr: Option<Addr>

    ghost predicate Valid()
      reads this, replay
    {
      replay.Valid()
    }

    ghost function Inbound(): Inbox
      reads this, replay
    {
      Inbox(replay.accepted, peerAddr)
    }

    constructor (sessionId: seq<byte>, cipher: Cipher, peerAddr: Option<Addr>)
      ensures Valid() && fresh(replay) && Inbound() == Inbox({}, peerAddr) && sendNonce == 0
      ensures this.sessionId == sessionId && this.cipher == cipher
    {
      this.sessionId, this.cipher, this.peerAddr, sendNonce := sessionId, cipher, peerAddr, 0;
      replay := new WindowFilter();
    }

    /** Every call takes the next nonce, whether or not encryption succeeds. */
    method Seal(frames: seq<Frame>) returns (r: Result<seq<byte>, TransportError>)
      modifies this`sendNonce
      ensures sendNonce == old(sendNonce) + 1
      ensures r == Sealed(sessionId, cipher, old(sendNonce), frames)
    {
      var plaintext := EncodeFrames(frames);
      var nonce := sendNonce;
      sendNonce := sendNonce + 1;
      var ct := cipher.encrypt(nonce, plaintext);
      if ct.None? {
        return Err(Noise);
      }
      r := Ok(BuildTransport(sessionId, nonce, ct.value));
    }

    /** Seal one more group and append its packet. */
    method SealGroup(packets: seq<seq<byte>>, group: seq<Frame>, ghost start: nat, ghost groups: seq<seq<Frame>>)
      returns (r: Result<seq<seq<byte>>, TransportError>)
      requires SealedFrom(sessionId, cipher, start, groups, packets) && sendNonce == start + |groups|
      modifies this`sendNonce
      ensures sendNonce == old(sendNonce) + 1
      ensures r.Ok? ==> SealedFrom(sessionId, cipher, start, groups + [group], r.value)
      ensures r.Err? ==> r.error == Noise
    {
      var p := Seal(group);
      if p.Err? {
        return Err(p.error);
      }
      SealedPush(sessionId, cipher, start, groups, packets, group, p.value);
      r := Ok(packets + [p.value]);
    }

    /** Seal frames into datagrams under consecutive nonces, packing greedily within `budget`. */
    method SealMany(frames: seq<Frame>, budget: nat)
      returns (r: Result<seq<seq<byte>>, TransportError>, ghost groups: seq<seq<Frame>>)
      modifies this`sendNonce
      ensures r.Ok? ==>
              && Packed(FrameSize, budget, groups) && Flatten(groups) == frames
              && SealedFrom(sessionId, cipher, old(sendNonce), groups, r.value) && sendNonce == old(sendNonce) + |groups|
      ensures r.Err? ==> r.error == Noise
    {
      r, groups := PackAndSeal(frames, budget, FrameSize);
    }

    /** The packing loop, for any measure of a frame's size. */
    method PackAndSeal(frames: seq<Frame>, budget: nat, size: Frame -> nat)
      returns (r: Result<seq<seq<byte>>, TransportError>, ghost groups: seq<seq<Frame>>)
      modifies this`sendNonce
      ensures r.Ok? ==>
              && Packed(size, budget, groups) && Flatten(groups) == frames
              && SealedFrom(sessionId, cipher, old(sendNonce), groups, r.value) && sendNonce == old(sendNonce) + |groups|
      ensures r.Err? ==> r.error == Noise
    {
      var packets: seq<seq<byte>>, group: seq<Frame>, groupLen: nat := [], [], 0;
      groups := [];
      var rest := frames;
      while rest != []
        invariant groupLen == Total(size, group) && (group == [] ==> groups == [])
        invariant Packing(size, budget, groups, group) && Flatten(groups) + group + rest == frames
        invariant SealedFrom(sessionId, cipher, old(sendNonce), groups, packets) && sendNonce == old(sendNonce) + |groups|
        decreases |rest|
      {
        var f := rest[0];
        var flen := size(f);
        NextItem(Flatten(groups), group, rest);
        if group != [] && groupLen + flen > budget {
          var p := SealGroup(packets, group, old(sendNonce), groups);
          if p.Err? {
            return p, groups;
          }
          PackingClose(size, budget, groups, group, f);
          packets, groups := p.value, groups + [group];
          group, groupLen := [f], flen;
        } else {
          PackingAdd(size, budget, groups, group, f);
          group, groupLen := group + [f], groupLen + flen;
        }
        rest := rest[1..];
      }
      assert Flatten(groups) + group == frames;
      if group != [] {
        var p := SealGroup(packets, group, old(sendNonce), groups);
        if p.Err? {
          return p, groups;
        }
        PackedPush(size, budget, groups, group);
        packets, groups := p.value, groups + [group];
      }
      r := Ok(packets);
    }

    /** Authenticate, then filter replays, and only then move the peer address. */
    method Open(src: Addr, packet: seq<byte>) returns (r: Result<seq<Frame>, TransportError>)
      requires Valid()
      modifies this`peerAddr, replay
      ensures Valid()
      ensures (Inbound(), r) == OpenPacket(sessionId, cipher, old(Inbound()), Arrival(src, packet))
    {
      var parsed := ParsePacket(packet);
      if parsed.Err? {
        return Err(parsed.error);
      }
      var p := parsed.value;
      if p.Handshake? {
        return Err(UnknownType(0));
      }
      if p.sessionId != sessionId {
        return Err(SessionMismatch);
      }
      var plaintext := cipher.decrypt(p.nonce, p.body);
      if plaintext.None? {
        return Err(Noise);
      }
      var isNew := replay.CheckAndSet(p.nonce);
      if !isNew {
        return Err(ReplayedPacket);
      }
      peerAddr := Some(src);
      var frames := DecodeFrames(plaintext.value);
      if frames.Err? {
        return Err(BadFrames(frames.error));
      }
      r := Ok(frames.value);
    }
  }
}
