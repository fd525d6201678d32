/** The sliding-window replay filter: a 64-bit map that stands for the set of all nonces ever accepted. */
module Replay {
  import opened Common

  const WINDOW: nat := 64

  // ---------------------------------------------------------------- bits of a machine word

  predicate Bit(b: nat, i: nat) {
    if i == 0 then b % 2 == 1 else Bit(b / 2, i - 1)
  }

  /** The low `n` bits of `b`: what is left of it in an `n`-bit word. */
  function Low(b: nat, n: nat): nat {
    if n == 0 then 0 else b % 2 + 2 * Low(b / 2, n - 1)
  }

  function Shl(b: nat, d: nat): nat {
    if d == 0 then b else 2 * Shl(b, d - 1)
  }

  /** `b | (1 << k)`. */
  function SetBit(b: nat, k: nat): nat {
    if k == 0 then b - b % 2 + 1 else b % 2 + 2 * SetBit(b / 2, k - 1)
  }

  lemma {:induction false} LowBit(b: nat, n: nat, i: nat)
    requires i < n
    ensures Bit(Low(b, n), i) == Bit(b, i)
  {
    assert Low(b, n) / 2 == Low(b / 2, n - 1);
    if i > 0 { LowBit(b / 2, n - 1, i - 1); }
  }

  lemma {:induction false} ShlBit(b: nat, d: nat, i: nat)
    ensures Bit(Shl(b, d), i) == (i >= d && Bit(b, i - d))
  {
    if d > 0 {
      assert Shl(b, d) / 2 == Shl(b, d - 1);
      if i > 0 { ShlBit(b, d - 1, i - 1); }
    }
  }

  lemma {:induction false} SetBitBit(b: nat, k: nat, i: nat)
    ensures Bit(SetBit(b, k), i) == (i == k || Bit(b, i))
  {
    if k == 0 {
      assert SetBit(b, k) / 2 == b / 2;
    } else {
      assert SetBit(b, k) / 2 == SetBit(b / 2, k - 1);
      if i > 0 { SetBitBit(b / 2, k - 1, i - 1); }
    }
  }

  // ---------------------------------------------------------------- specification

  /** Never accepted, and less than a window behind everything that was. */
  predicate Fresh(accepted: set<nat>, nonce: nat) {
    nonce !in accepted && forall m | m in accepted :: m < nonce + WINDOW
  }

  function Accept(accepted: set<nat>, nonce: nat): set<nat> {
    if Fresh(accepted, nonce) then accepted + {nonce} else accepted
  }

  /** The nonces accepted over a run. */
  function AcceptAll(nonces: seq<nat>): set<nat> {
    if nonces == [] then {} else Accept(AcceptAll(nonces[..|nonces| - 1]), nonces[|nonces| - 1])
  }

  /** Whether the packet at position `i` of a run is let through. */
  predicate LetThrough(nonces: seq<nat>, i: nat)
    requires i < |nonces|
  {
    Fresh(AcceptAll(nonces[..i]), nonces[i])
  }

  lemma {:induction false} AcceptedStays(nonces: seq<nat>, i: nat, j: nat)
    requires i < j <= |nonces| && LetThrough(nonces, i)
    ensures nonces[i] in AcceptAll(nonces[..j])
    decreases j - i
  {
    assert nonces[..j][..j - 1] == nonces[..j - 1];
    if i < j - 1 { AcceptedStays(nonces, i, j - 1); }
  }

  /** Over every run no nonce is let through twice. */
  lemma AtMostOnce(nonces: seq<nat>, i: nat, j: nat)
    requires i < j < |nonces| && nonces[i] == nonces[j]
    ensures !(LetThrough(nonces, i) && LetThrough(nonces, j))
  {
    if LetThrough(nonces, i) { AcceptedStays(nonces, i, j); }
  }

  // ---------------------------------------------------------------- the class

  class WindowFilter {
    var max: Option<nat>
    var bitmap: nat
    /** Every nonce that was let through. */
    ghost var accepted: set<nat>

    ghost predicate Valid()
      reads this
    {
      match max
      case None => accepted == {}
      case Some(m) =>
        && m in accepted && (forall a | a in accepted :: a <= m)
        && (forall i: nat | i < WINDOW && i <= m :: Bit(bitmap, i) <==> m - i in accepted)
    }

    constructor ()
      ensures Valid() && accepted == {}
    {
      max, bitmap, accepted := None, 0, {};
    }

    method CheckAndSet(nonce: nat) returns (isNew: bool)
      requires Valid()
      modifies this
      ensures Valid()
      ensures isNew == Fresh(old(accepted), nonce) && accepted == Accept(old(accepted), nonce)
      ensures isNew <==> nonce !in old(accepted) && forall m | m in old(accepted) :: m < nonce + 64
    {
      match max
      case None =>
        forall i: nat ensures Bit(1, i) <==> i == 0 { OneBit(i); }
        max, bitmap, accepted := Some(nonce), 1, {nonce};
        isNew := true;
      case Some(m) =>
        if nonce > m {
          ghost var was := bitmap;
          var diff := nonce - m;
          if diff >= WINDOW {
            bitmap := 1;
          } else {
            bitmap := SetBit(Low(Shl(bitmap, diff), 64), 0);
          }
          forall i: nat | i < WINDOW && i <= nonce ensures Bit(bitmap, i) <==> i == 0 || nonce - i in accepted {
            if diff < WINDOW { ShiftedBit(was, diff, i); } else { OneBit(i); }
          }
          max, accepted := Some(nonce), accepted + {nonce};
          isNew := true;
        } else {
          var diff := m - nonce;
          if diff >= WINDOW {
            return false;
          }
          if Bit(bitmap, diff) {
            return false;
          }
          forall i: nat | i < WINDOW && i <= m
            ensures Bit(SetBit(bitmap, diff), i) <==> m - i in accepted + {nonce}
          {
            SetBitBit(bitmap, diff, i);
          }
          bitmap, accepted := SetBit(bitmap, diff), accepted + {nonce};
          isNew := true;
        }
    }
  }

  lemma ShiftedBit(b: nat, d: nat, i: nat)
    requires 0 < d && i < 64
    ensures Bit(SetBit(Low(Shl(b, d), 64), 0), i) <==> i == 0 || (i >= d && Bit(b, i - d))
  {
    SetBitBit(Low(Shl(b, d), 64), 0, i);
    LowBit(Shl(b, d), 64, i);
    ShlBit(b, d, i);
  }

  lemma {:induction false} OneBit(i: nat)
    ensures Bit(1, i) <==> i == 0
  {
    if i > 0 { ZeroBit(i - 1); }
  }

  lemma {:induction false} ZeroBit(i: nat)
    ensures !Bit(0, i)
  {
    if i > 0 { ZeroBit(i - 1); }
  }
}
