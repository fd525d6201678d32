/** Shared vocabulary: bytes, machine-integer limits, options and results. */
module Common {
  type byte = b: int | 0 <= b < 256

  const U16_LIMIT: nat := 0x1_0000
  const U32_LIMIT: nat := 0x1_0000_0000
  const U64_LIMIT: nat := 0x1_0000_0000_0000_0000

  datatype Option<+T> = None | Some(value: T)

  datatype Result<+T, +E> = Ok(value: T) | Err(error: E) {
    predicate IsFailure() { Err? }

    function PropagateFailure<U>(): Result<U, E>
      requires Err?
    {
      Err(error)
    }

    function Extract(): T
      requires Ok?
    {
      value
    }
  }

  function Min(a: int, b: int): int { if a <= b then a else b }

  function Max(a: int, b: int): int { if a >= b then a else b }

  /** If `a + b` starts `s[pos..]`, then `a` starts it and `b` starts what follows `a`. */
  lemma SplitPrefix<T>(s: seq<T>, pos: nat, a: seq<T>, b: seq<T>)
    requires pos <= |s| && a + b <= s[pos..]
    ensures a <= s[pos..]
    ensures pos + |a| <= |s| && b <= s[pos + |a|..]
  {
    assert forall i {:trigger a[i]} :: 0 <= i < |a| ==> (a + b)[i] == a[i];
    assert forall i {:trigger b[i]} :: 0 <= i < |b| ==> (a + b)[|a| + i] == b[i];
  }
}
