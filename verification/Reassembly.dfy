/**
  * Out-of-order reassembly. The specification is a map from stream offsets to bytes; the
  * implementation keeps coalesced segments and must agree with it byte for byte.
  */
module Reassembly {
  import opened Common

  // ---------------------------------------------------------------- specification

  type Held = map<int, byte>

  ghost predicate IsRunEnd(held: Held, d: int, e: int) {
    d <= e && e !in held && forall o | d <= o < e :: o in held
  }

  lemma {:induction false} RunEndExists(held: Held, d: int, unseen: set<int>)
    requires forall o | o in held :: d <= o ==> o in unseen
    ensures exists e :: IsRunEnd(held, d, e)
    decreases |unseen|
  {
    if d in held {
      RunEndExists(held, d + 1, unseen - {d});
      var e :| IsRunEnd(held, d + 1, e);
      assert IsRunEnd(held, d, e);
    } else {
      assert IsRunEnd(held, d, d);
    }
  }

  lemma SomeMember(s: set<int>)
    requires s != {}
    ensures exists k :: k in s
  {
    assert (forall k :: k !in s) ==> s == {};
  }

  /** The first offset at or after `d` that is not held. */
  ghost function RunEnd(held: Held, d: int): (e: int)
    ensures IsRunEnd(held, d, e)
  {
    RunEndExists(held, d, held.Keys);
    var e :| IsRunEnd(held, d, e);
    e
  }

  lemma RunEndUnique(held: Held, d: int, e: int)
    requires IsRunEnd(held, d, e)
    ensures RunEnd(held, d) == e
  {
    var r := RunEnd(held, d);
    assert r < e ==> r in held;
    assert e < r ==> e in held;
  }

  predicate Within(o: int, lo: int, hi: int) { lo <= o < hi }

  /** The bytes of `data`, placed at `offset`, that fall in `[lo, hi)`. */
  function Placed(offset: nat, data: seq<byte>, lo: int, hi: nat): Held
    requires offset <= lo && hi <= offset + |data|
  {
    map o | lo <= o < hi && Within(o, lo, hi) :: data[o - offset]
  }

  /** Overlay `data` at `offset`, ignoring what falls below `delivered`. */
  function Overlay(held: Held, delivered: nat, offset: nat, data: seq<byte>): Held {
    held + Placed(offset, data, Max(offset, delivered), offset + |data|)
  }

  lemma OverlayAt(held: Held, d: nat, offset: nat, data: seq<byte>, o: int)
    ensures o in Overlay(held, d, offset, data) <==> o in held || Max(offset, d) <= o < offset + |data|
    ensures Max(offset, d) <= o < offset + |data| ==> Overlay(held, d, offset, data)[o] == data[o - offset]
    ensures o in held && !(Max(offset, d) <= o < offset + |data|) ==> Overlay(held, d, offset, data)[o] == held[o]
  {
  }

  /** Cutting the part below `d` off the data first makes no difference. */
  lemma OverlayTrim(held: Held, d: nat, offset: nat, data: seq<byte>)
    requires offset < d
    ensures offset + |data| <= d ==> Overlay(held, d, offset, data) == held
    ensures offset + |data| > d ==> Overlay(held, d, offset, data) == Overlay(held, d, d, data[d - offset..])
  {
    var end := offset + |data|;
    if end > d {
      assert Placed(offset, data, d, end) == Placed(d, data[d - offset..], d, end);
    } else {
      assert Placed(offset, data, d, end) == map[];
    }
  }

  /** The contiguous bytes from `d` on. */
  ghost function Run(held: Held, d: int): (s: seq<byte>)
    ensures d + |s| == RunEnd(held, d)
  {
    seq(RunEnd(held, d) - d, i requires 0 <= i < RunEnd(held, d) - d => held[d + i])
  }

  function DropBelow(held: Held, e: nat): Held {
    map o | o in held && e <= o :: held[o]
  }

  // ---------------------------------------------------------------- segments

  type Segments = map<int, seq<byte>>

  ghost predicate Covers(segs: Segments, k: int, o: int) {
    k in segs && k <= o < k + |segs[k]|
  }

  /** Non-empty, at or above `delivered`, disjoint and not even adjacent. */
  ghost predicate Coalesced(segs: Segments, delivered: nat) {
    && (forall k | k in segs :: delivered <= k && |segs[k]| > 0)
    && (forall j, k | j in segs && k in segs && j < k :: j + |segs[j]| < k)
  }

  /** The segments hold exactly the bytes of `held`, each at its offset. */
  ghost predicate Represents(segs: Segments, held: Held) { BytesRight(segs, held) && AllCovered(segs, held) }

  ghost predicate BytesRight(segs: Segments, held: Held) {
    forall k, o | Covers(segs, k, o) :: o in held && held[o] == segs[k][o - k]
  }

  ghost predicate AllCovered(segs: Segments, held: Held) {
    forall o | o in held :: exists k :: Covers(segs, k, o)
  }

  /** Around a coalesced segment nothing is held, so runs and segments are the same thing. */
  lemma SegmentIsolated(segs: Segments, d: nat, held: Held, k: int)
    requires Coalesced(segs, d) && Represents(segs, held) && k in segs
    ensures k + |segs[k]| !in held
    ensures k > 0 ==> k - 1 !in held
  {
    var end := k + |segs[k]|;
    assert forall j :: !Covers(segs, j, end);
    if k > 0 {
      var before := k - 1;
      assert forall j :: !Covers(segs, j, before);
    }
  }

  lemma SegmentHeld(segs: Segments, held: Held, k: int, i: nat)
    requires Represents(segs, held) && k in segs && i < |segs[k]|
    ensures k + i in held && held[k + i] == segs[k][i]
  {
    assert Covers(segs, k, k + i);
  }

  lemma SegmentStarts(s: Segments, t: Segments, d: nat, held: Held, k: int)
    requires Coalesced(s, d) && Coalesced(t, d) && Represents(s, held) && Represents(t, held)
    requires k in s
    ensures k in t
  {
    SegmentHeld(s, held, k, 0);
    SegmentIsolated(s, d, held, k);
    var j :| Covers(t, j, k);
    if j < k { SegmentHeld(t, held, j, k - 1 - j); }
  }

  lemma SegmentLengths(s: Segments, t: Segments, d: nat, held: Held, k: int)
    requires Coalesced(s, d) && Coalesced(t, d) && Represents(s, held) && Represents(t, held)
    requires k in s && k in t
    ensures |s[k]| >= |t[k]|
  {
    SegmentIsolated(s, d, held, k);
    if |s[k]| < |t[k]| { SegmentHeld(t, held, k, |s[k]|); }
  }

  /** Two coalesced segment maps that hold the same bytes are the same map. */
  lemma CoalescedUnique(s: Segments, t: Segments, d: nat, held: Held)
    requires Coalesced(s, d) && Coalesced(t, d) && Represents(s, held) && Represents(t, held)
    ensures s == t
  {
    forall k | k in s || k in t ensures k in s && k in t && s[k] == t[k] {
      if k in s { SegmentStarts(s, t, d, held, k); } else { SegmentStarts(t, s, d, held, k); }
      SegmentLengths(s, t, d, held, k);
      SegmentLengths(t, s, d, held, k);
      forall i | 0 <= i < |s[k]| ensures s[k][i] == t[k][i] {
        SegmentHeld(s, held, k, i);
        SegmentHeld(t, held, k, i);
      }
    }
  }

  lemma RunIs(held: Held, d: nat, s: seq<byte>)
    requires RunEnd(held, d) == d + |s|
    requires forall i: nat | i < |s| :: d + i in held && held[d + i] == s[i]
    ensures Run(held, d) == s
  {
  }

  lemma RunEndOfSegments(segs: Segments, d: nat, held: Held)
    requires Coalesced(segs, d) && Represents(segs, held)
    ensures RunEnd(held, d) == if d in segs then d + |segs[d]| else d
  {
    if d in segs {
      var e := d + |segs[d]|;
      assert e !in held by { SegmentIsolated(segs, d, held, d); }
      forall o | d <= o < e ensures o in held { assert Covers(segs, d, o); }
      RunEndUnique(held, d, e);
    } else {
      assert forall k :: !Covers(segs, k, d);
      RunEndUnique(held, d, d);
    }
  }

  /** The run at `delivered` is the segment that starts there, if any. */
  lemma RunOfSegments(segs: Segments, d: nat, held: Held)
    requires Coalesced(segs, d) && Represents(segs, held)
    ensures RunEnd(held, d) == if d in segs then d + |segs[d]| else d
    ensures Run(held, d) == if d in segs then segs[d] else []
  {
    RunEndOfSegments(segs, d, held);
    var s := if d in segs then segs[d] else [];
    forall i: nat | i < |s| ensures d + i in held && held[d + i] == s[i] { SegmentHeld(segs, held, d, i); }
    RunIs(held, d, s);
  }

  /** `held'` is `held` without `[k, e)`. */
  ghost predicate WithoutRun(held: Held, k: int, e: int, held': Held) {
    && (forall o {:trigger o in held'} :: o in held' <==> o in held && !(k <= o < e))
    && (forall o | o in held' :: o in held && held'[o] == held[o])
  }

  lemma OtherSegment(segs: Segments, d: nat, k: int, j: int, o: int)
    requires Coalesced(segs, d) && k in segs && j != k && Covers(segs, j, o)
    ensures !(k <= o < k + |segs[k]|)
  {
  }

  /** Removing a segment removes its bytes and no others. */
  lemma RemoveSegment(segs: Segments, d: nat, held: Held, k: int, segs': Segments, held': Held)
    requires Coalesced(segs, d) && Represents(segs, held) && k in segs && segs' == segs - {k}
    requires WithoutRun(held, k, k + |segs[k]|, held')
    ensures Coalesced(segs', d) && Represents(segs', held')
  {
    assert BytesRight(segs', held') by {
      forall j, o | Covers(segs', j, o) ensures o in held' && held'[o] == segs'[j][o - j] {
        assert Covers(segs, j, o);
        OtherSegment(segs, d, k, j, o);
      }
    }
    forall o | o in held' ensures exists j :: Covers(segs', j, o) {
      var j :| Covers(segs, j, o);
      assert Covers(segs', j, o);
    }
  }

  lemma SegmentAllHeld(segs: Segments, held: Held, k: int)
    requires Represents(segs, held) && k in segs
    ensures forall o | k <= o < k + |segs[k]| :: o in held
  {
    forall o | k <= o < k + |segs[k]| ensures o in held { assert Covers(segs, k, o); }
  }

  lemma RemoveFirst(segs: Segments, d: nat, held: Held, segs': Segments, held': Held)
    requires Coalesced(segs, d) && Represents(segs, held) && d in segs && segs' == segs - {d}
    requires held' == DropBelow(held, d + |segs[d]|)
    ensures Coalesced(segs', d + |segs[d]|) && Represents(segs', held')
  {
    NothingBelow(segs, d, held);
    RemoveSegment(segs, d, held, d, segs', held');
  }

  // ---------------------------------------------------------------- merging

  /** Segments that overlap or touch `[offset, end]`. */
  ghost predicate Touches(segs: Segments, k: int, offset: nat, end: nat) {
    k in segs && k <= end && k + |segs[k]| >= offset
  }

  ghost predicate AllTouching(segs: Segments, keys: set<int>, offset: nat, end: nat) {
    forall k :: k in keys <==> Touches(segs, k, offset, end)
  }

  ghost predicate EndsAt(segs: Segments, keys: set<int>, k: int, e: nat) {
    k in keys && k in segs && k + |segs[k]| == e
  }

  /** `[start, end2)` is the hull of `[offset, end)` and the segments at `keys`. */
  ghost predicate Hull(segs: Segments, keys: set<int>, offset: nat, end: nat, start: int, end2: int) {
    && start <= offset && end <= end2
    && (forall k | k in keys :: k in segs && start <= k && k + |segs[k]| <= end2)
    && (start == offset || start in keys)
    && (end2 == end || exists k :: EndsAt(segs, keys, k, end2))
  }

  /** `buf`, placed at `start`, carries `data` at `offset` and elsewhere the segments at `keys`. */
  ghost predicate Merged(segs: Segments, keys: set<int>, offset: nat, data: seq<byte>,
                         start: int, end2: int, buf: seq<byte>)
  {
    && start <= offset && offset + |data| <= end2 && |buf| == end2 - start
    && buf[offset - start..offset + |data| - start] == data
    && (forall k, o | k in keys && Covers(segs, k, o) && !(offset <= o < offset + |data|) ::
          start <= o < end2 && buf[o - start] == segs[k][o - k])
  }

  /** A segment that does not touch the new bytes does not touch the hull either. */
  lemma OutsideHull(segs: Segments, d: nat, keys: set<int>, offset: nat, end: nat, start: int, end2: int, k: int)
    requires Coalesced(segs, d) && AllTouching(segs, keys, offset, end)
    requires Hull(segs, keys, offset, end, start, end2)
    requires k in segs && k !in keys
    ensures k + |segs[k]| < start || end2 < k
  {
    assert !Touches(segs, k, offset, end);
    if k + |segs[k]| < offset {
      if start != offset { assert Touches(segs, start, offset, end); }
    } else if end2 != end {
      var m :| EndsAt(segs, keys, m, end2);
      assert Touches(segs, m, offset, end);
    }
  }

  lemma HullCovered(segs: Segments, keys: set<int>, offset: nat, end: nat, start: int, end2: int, o: int)
    returns (k: int)
    requires AllTouching(segs, keys, offset, end)
    requires Hull(segs, keys, offset, end, start, end2)
    requires start <= o < end2 && !(offset <= o < end)
    ensures k in keys && Covers(segs, k, o)
  {
    if o < offset {
      assert Touches(segs, start, offset, end);
      k := start;
    } else {
      k :| EndsAt(segs, keys, k, end2);
      assert Touches(segs, k, offset, end);
    }
  }

  lemma MergeCoalesced(segs: Segments, d: nat, keys: set<int>, offset: nat, data: seq<byte>,
                       start: int, end2: int, buf: seq<byte>)
    requires Coalesced(segs, d) && d <= offset && |data| > 0
    requires AllTouching(segs, keys, offset, offset + |data|)
    requires Hull(segs, keys, offset, offset + |data|, start, end2) && |buf| == end2 - start
    ensures Coalesced((segs - keys)[start := buf], d)
  {
    forall k | k in segs && k !in keys ensures k + |segs[k]| < start || end2 < k {
      OutsideHull(segs, d, keys, offset, offset + |data|, start, end2, k);
    }
  }

  /** Outside the merged segment nothing changes. */
  lemma KeptByte(segs: Segments, d: nat, held: Held, keys: set<int>, offset: nat, end: nat,
                 start: int, end2: int, k: int, o: int)
    requires Coalesced(segs, d) && Represents(segs, held) && AllTouching(segs, keys, offset, end)
    requires Hull(segs, keys, offset, end, start, end2)
    requires k in segs && k !in keys && k <= o < k + |segs[k]|
    ensures !(offset <= o < end) && o in held && held[o] == segs[k][o - k]
  {
    OutsideHull(segs, d, keys, offset, end, start, end2, k);
    assert Covers(segs, k, o);
  }

  /** The merged segment holds the new data, and elsewhere what was held before. */
  lemma MergedByte(segs: Segments, held: Held, keys: set<int>, offset: nat, data: seq<byte>,
                   start: int, end2: int, buf: seq<byte>, o: int)
    requires Represents(segs, held) && AllTouching(segs, keys, offset, offset + |data|)
    requires Hull(segs, keys, offset, offset + |data|, start, end2)
    requires Merged(segs, keys, offset, data, start, end2, buf) && start <= o < end2
    ensures offset <= o < offset + |data| ==> buf[o - start] == data[o - offset]
    ensures !(offset <= o < offset + |data|) ==> o in held && held[o] == buf[o - start]
  {
    if offset <= o < offset + |data| {
      assert data[o - offset] == buf[offset - start..offset + |data| - start][o - offset];
    } else {
      var j := HullCovered(segs, keys, offset, offset + |data|, start, end2, o);
    }
  }

  lemma MergedCover(segs: Segments, d: nat, held: Held, keys: set<int>, offset: nat, data: seq<byte>,
                    start: int, end2: int, buf: seq<byte>, o: int)
    requires Coalesced(segs, d) && Represents(segs, held)
    requires AllTouching(segs, keys, offset, offset + |data|)
    requires Hull(segs, keys, offset, offset + |data|, start, end2)
    requires |buf| == end2 - start
    requires o in held || offset <= o < offset + |data|
    ensures var segs' := (segs - keys)[start := buf]; exists k :: Covers(segs', k, o)
  {
    var segs' := (segs - keys)[start := buf];
    if offset <= o < offset + |data| {
      assert Covers(segs', start, o);
    } else {
      var k :| Covers(segs, k, o);
      if k in keys {
        assert Covers(segs', start, o);
      } else {
        OutsideHull(segs, d, keys, offset, offset + |data|, start, end2, k);
        assert Covers(segs', k, o);
      }
    }
  }

  lemma MergeBytesRight(segs: Segments, d: nat, held: Held, keys: set<int>, offset: nat, data: seq<byte>,
                        start: int, end2: int, buf: seq<byte>, segs': Segments, held': Held)
    requires Coalesced(segs, d) && Represents(segs, held) && d <= offset
    requires AllTouching(segs, keys, offset, offset + |data|)
    requires Hull(segs, keys, offset, offset + |data|, start, end2)
    requires Merged(segs, keys, offset, data, start, end2, buf)
    requires segs' == (segs - keys)[start := buf] && held' == Overlay(held, d, offset, data)
    ensures BytesRight(segs', held')
  {
    forall k, o | Covers(segs', k, o) ensures o in held' && held'[o] == segs'[k][o - k] {
      var b := segs'[k][o - k];
      assert offset <= o < offset + |data| ==> b == data[o - offset] by {
        if k == start { MergedByte(segs, held, keys, offset, data, start, end2, buf, o); }
        else { KeptByte(segs, d, held, keys, offset, offset + |data|, start, end2, k, o); }
      }
      assert !(offset <= o < offset + |data|) ==> o in held && held[o] == b by {
        if k == start { MergedByte(segs, held, keys, offset, data, start, end2, buf, o); }
        else { KeptByte(segs, d, held, keys, offset, offset + |data|, start, end2, k, o); }
      }
      OverlayAt(held, d, offset, data, o);
    }
  }

  lemma MergeRepresents(segs: Segments, d: nat, held: Held, keys: set<int>, offset: nat, data: seq<byte>,
                        start: int, end2: int, buf: seq<byte>, segs': Segments, held': Held)
    requires Coalesced(segs, d) && Represents(segs, held) && d <= offset
    requires AllTouching(segs, keys, offset, offset + |data|)
    requires Hull(segs, keys, offset, offset + |data|, start, end2)
    requires Merged(segs, keys, offset, data, start, end2, buf)
    requires segs' == (segs - keys)[start := buf] && held' == Overlay(held, d, offset, data)
    ensures Represents(segs', held')
  {
    MergeBytesRight(segs, d, held, keys, offset, data, start, end2, buf, segs', held');
    forall o | o in held' ensures exists k :: Covers(segs', k, o) {
      OverlayAt(held, d, offset, data, o);
      MergedCover(segs, d, held, keys, offset, data, start, end2, buf, o);
    }
  }

  function CopyInto(buf: seq<byte>, pos: nat, data: seq<byte>): (r: seq<byte>)
    requires pos + |data| <= |buf|
    ensures |r| == |buf| && r[pos..pos + |data|] == data
    ensures forall i | 0 <= i < |buf| :: r[i] == if pos <= i < pos + |data| then data[i - pos] else buf[i]
  {
    buf[..pos] + data + buf[pos + |data|..]
  }

  /** The segments at `keys` stand in `buf` at their places relative to `start`. */
  ghost predicate Copied(segs: Segments, keys: set<int>, start: int, buf: seq<byte>) {
    forall k, o | k in keys && Covers(segs, k, o) ::
      start <= o < start + |buf| && buf[o - start] == segs[k][o - k]
  }

  lemma CopyOne(segs: Segments, d: nat, keys: set<int>, k: int, start: int, buf: seq<byte>)
    requires Coalesced(segs, d) && Copied(segs, keys, start, buf) && k !in keys
    requires k in segs && start <= k && k + |segs[k]| <= start + |buf|
    ensures Copied(segs, keys + {k}, start, CopyInto(buf, k - start, segs[k]))
  {
  }

  lemma CopyData(segs: Segments, keys: set<int>, offset: nat, data: seq<byte>, start: int, end2: int, buf: seq<byte>)
    requires Copied(segs, keys, start, buf) && |buf| == end2 - start
    requires start <= offset && offset + |data| <= end2
    ensures Merged(segs, keys, offset, data, start, end2, CopyInto(buf, offset - start, data))
  {
  }

  // ---------------------------------------------------------------- the class

  class Reassembler {
    var delivered: nat
    var segs: Segments
    /** The bytes the segments stand for. */
    ghost var held: Held

    ghost predicate Valid()
      reads this
    {
      Coalesced(segs, delivered) && Represents(segs, held)
    }

    constructor ()
      ensures Valid() && delivered == 0 && held == map[]
    {
      delivered, segs, held := 0, map[], map[];
    }

    method Insert(offset: nat, data: seq<byte>)
      requires Valid()
      modifies this
      ensures Valid() && delivered == old(delivered)
      ensures held == Overlay(old(held), delivered, offset, data)
    {
      if |data| == 0 {
        return;
      }
      if offset < delivered {
        OverlayTrim(held, delivered, offset, data);
        var cut := delivered - offset;
        if cut < |data| {
          InsertAbove(delivered, data[cut..]);
        }
      } else {
        InsertAbove(offset, data);
      }
    }

    /** Merge bytes none of which has been delivered. */
    method InsertAbove(offset: nat, data: seq<byte>)
      requires Valid() && delivered <= offset && |data| > 0
      modifies this
      ensures Valid() && delivered == old(delivered)
      ensures held == Overlay(old(held), delivered, offset, data)
    {
      var end := offset + |data|;
      var keys := set k | k in segs && k <= end && k + |segs[k]| >= offset;
      assert AllTouching(segs, keys, offset, end);
      var start, end2 := GetHull(segs, keys, offset, end);
      var buf := Merge(segs, delivered, keys, offset, data, start, end2);
      ghost var held' := Overlay(held, delivered, offset, data);
      MergeCoalesced(segs, delivered, keys, offset, data, start, end2, buf);
      MergeRepresents(segs, delivered, held, keys, offset, data, start, end2, buf, (segs - keys)[start := buf], held');
      segs := (segs - keys)[start := buf];
      held := held';
    }

    static method GetHull(segs: Segments, keys: set<int>, offset: nat, end: nat) returns (start: int, end2: int)
      requires keys <= segs.Keys && offset <= end
      ensures Hull(segs, keys, offset, end, start, end2)
    {
      start, end2 := offset, end;
      var rest := keys;
      while rest != {}
        invariant rest <= keys
        invariant Hull(segs, keys - rest, offset, end, start, end2)
        decreases |rest|
      {
        SomeMember(rest);
        var k :| k in rest;
        ghost var done, was := keys - rest, end2;
        start := Min(start, k);
        end2 := Max(end2, k + |segs[k]|);
        rest := rest - {k};
        assert keys - rest == done + {k};
        if end2 != end {
          if end2 == was && was != end {
            var m :| EndsAt(segs, done, m, was);
            assert EndsAt(segs, keys - rest, m, end2);
          } else {
            assert EndsAt(segs, keys - rest, k, end2);
          }
        }
      }
      assert keys - rest == keys;
    }

    static method Merge(segs: Segments, ghost d: nat, keys: set<int>, offset: nat, data: seq<byte>,
                        start: int, end2: int) returns (buf: seq<byte>)
      requires Coalesced(segs, d) && keys <= segs.Keys
      requires Hull(segs, keys, offset, offset + |data|, start, end2)
      ensures Merged(segs, keys, offset, data, start, end2, buf)
    {
      buf := seq(end2 - start, _ => 0);
      var done: set<int> := {};
      while keys - done != {}
        invariant done <= keys && |buf| == end2 - start
        invariant Copied(segs, done, start, buf)
        decreases keys - done
      {
        SomeMember(keys - done);
        var k :| k in keys - done;
        CopyOne(segs, d, done, k, start, buf);
        buf := CopyInto(buf, k - start, segs[k]);
        done := done + {k};
      }
      forall k | k in keys ensures k in done { assert k !in keys - done; }
      assert done == keys;
      CopyData(segs, keys, offset, data, start, end2, buf);
      buf := CopyInto(buf, offset - start, data);
    }

    /** Drain the contiguous bytes at `delivered`. */
    method Read() returns (out: seq<byte>)
      requires Valid()
      modifies this
      ensures Valid()
      ensures out == Run(old(held), old(delivered))
      ensures delivered == RunEnd(old(held), old(delivered))
      ensures held == DropBelow(old(held), delivered)
      ensures RunEnd(held, delivered) == RunEnd(old(held), old(delivered))
    {
      RunOfSegments(segs, delivered, held);
      ghost var rest := DropBelow(held, RunEnd(held, delivered));
      RunEndUnique(rest, RunEnd(held, delivered), RunEnd(held, delivered));
      if delivered in segs {
        out := segs[delivered];
        var segs' := segs - {delivered};
        RemoveFirst(segs, delivered, held, segs', rest);
        segs, delivered, held := segs', delivered + |out|, rest;
      } else {
        out := [];
        NothingBelow(segs, delivered, held);
      }
    }

    method AckPoint() returns (e: nat)
      requires Valid()
      ensures e == RunEnd(held, delivered)
    {
      RunOfSegments(segs, delivered, held);
      e := if delivered in segs then delivered + |segs[delivered]| else delivered;
    }
  }

  lemma NothingBelow(segs: Segments, d: nat, held: Held)
    requires Coalesced(segs, d) && Represents(segs, held)
    ensures forall o | o in held :: d <= o
    ensures DropBelow(held, d) == held
  {
    forall o | o in held ensures d <= o {
      var k :| Covers(segs, k, o);
    }
  }

  // ---------------------------------------------------------------- memory

  ghost function SomeKey(segs: Segments): (k: int)
    requires |segs| > 0
    ensures k in segs
  {
    SomeMember(segs.Keys);
    var k :| k in segs.Keys;
    k
  }

  /** Bytes buffered over all segments. */
  ghost function TotalLength(segs: Segments): nat
    decreases |segs|
  {
    if |segs| == 0 then 0
    else |segs[SomeKey(segs)]| + TotalLength(segs - {SomeKey(segs)})
  }

  lemma {:induction false} CutRun(held: Held, k: int, n: nat) returns (rest: Held)
    requires forall o | k <= o < k + n :: o in held
    ensures |rest| + n == |held| && WithoutRun(held, k, k + n, rest)
    decreases n
  {
    rest := held;
    if n > 0 {
      var last := k + n - 1;
      var less := held - {last};
      assert last in held;
      assert |less| + 1 == |held|;
      rest := CutRun(less, k, n - 1);
    }
  }

  lemma NoSegments(segs: Segments, held: Held)
    requires |segs| == 0 && Represents(segs, held)
    ensures |held| == 0
  {
    assert segs.Keys == {};
    assert forall o | o in held :: exists k :: Covers(segs, k, o);
    assert forall k, o :: !Covers(segs, k, o);
    assert held.Keys == {};
  }

  /** The segments use exactly one byte of memory per held byte. */
  lemma {:induction false} TotalIsHeld(segs: Segments, d: nat, held: Held)
    requires Coalesced(segs, d) && Represents(segs, held)
    ensures TotalLength(segs) == |held|
    decreases |segs|
  {
    if |segs| == 0 {
      NoSegments(segs, held);
    } else {
      var k := SomeKey(segs);
      SegmentAllHeld(segs, held, k);
      var rest := CutRun(held, k, |segs[k]|);
      var segs' := segs - {k};
      assert Coalesced(segs', d) && Represents(segs', rest) by { RemoveSegment(segs, d, held, k, segs', rest); }
      TotalIsHeld(segs', d, rest);
    }
  }
}
