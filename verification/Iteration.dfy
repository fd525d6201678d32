/** Repeating a step: what it keeps, and how far it gets when a rank forces progress. */
module Iteration {

  ghost function Iterate<T>(f: T -> T, x: T, n: nat): T {
    if n == 0 then x else f(Iterate(f, x, n - 1))
  }

  lemma {:induction false} IterateAdd<T>(f: T -> T, x: T, m: nat, n: nat)
    ensures Iterate(f, x, m + n) == Iterate(f, Iterate(f, x, m), n)
  {
    if n > 0 { IterateAdd(f, x, m, n - 1); }
  }

  /** Steps keep `ok` and never lower `level`. */
  ghost predicate Climbs<T(!new)>(f: T -> T, ok: T -> bool, level: T -> int) {
    forall x {:trigger f(x)} | ok(x) :: ok(f(x)) && level(f(x)) >= level(x)
  }

  lemma {:induction false} Climb<T(!new)>(f: T -> T, ok: T -> bool, level: T -> int, x: T, n: nat)
    requires Climbs(f, ok, level) && ok(x)
    ensures ok(Iterate(f, x, n)) && level(Iterate(f, x, n)) >= level(x)
  {
    if n > 0 { Climb(f, ok, level, x, n - 1); }
  }

  /** Below `goal`, every step raises `level` or lowers `rank`. */
  ghost predicate Ranked<T(!new)>(f: T -> T, ok: T -> bool, level: T -> int, goal: int, rank: T -> nat) {
    forall x {:trigger f(x)} | ok(x) && level(x) < goal :: level(f(x)) > level(x) || rank(f(x)) < rank(x)
  }

  lemma {:induction false} RisesWithin<T(!new)>(f: T -> T, ok: T -> bool, level: T -> int, goal: int, rank: T -> nat,
                                                x: T, bound: nat)
    requires Climbs(f, ok, level) && Ranked(f, ok, level, goal, rank) && ok(x)
    requires level(x) < goal && rank(x) <= bound
    ensures level(Iterate(f, x, bound + 1)) > level(x)
    decreases bound
  {
    var y := f(x);
    IterateAdd(f, x, 1, bound);
    assert Iterate(f, x, 1) == f(Iterate(f, x, 0)) == y;
    if level(y) > level(x) {
      Climb(f, ok, level, y, bound);
    } else {
      RisesWithin(f, ok, level, goal, rank, y, bound - 1);
    }
  }

  /** Two steps lead into `settled`, where the rank is at most `bound`. */
  ghost predicate Settles<T(!new)>(f: T -> T, ok: T -> bool, settled: T -> bool, rank: T -> nat, bound: nat) {
    && (forall x {:trigger f(f(x))} | ok(x) :: settled(f(f(x))))
    && (forall x {:trigger rank(x)} | settled(x) :: rank(x) <= bound)
  }

  lemma Rises<T(!new)>(f: T -> T, ok: T -> bool, settled: T -> bool, level: T -> int, goal: int, rank: T -> nat,
                       bound: nat, x: T, n: nat)
    requires Climbs(f, ok, level) && Climbs(f, settled, level)
    requires Ranked(f, settled, level, goal, rank) && Settles(f, ok, settled, rank, bound)
    requires ok(x) && level(x) < goal && n >= bound + 3
    ensures level(Iterate(f, x, n)) > level(x)
  {
    var m := f(f(x));
    assert Iterate(f, x, 0) == x;
    assert Iterate(f, x, 1) == f(x);
    assert Iterate(f, x, 2) == m;
    IterateAdd(f, x, 2, n - 2);
    if level(m) > level(x) {
      Climb(f, settled, level, m, n - 2);
    } else {
      assert rank(m) <= bound;
      RisesWithin(f, settled, level, goal, rank, m, n - 3);
    }
  }

  /** Enough blocks of `bound + 3` steps reach the goal, and stay there. */
  lemma {:induction false} ReachesGoal<T(!new)>(f: T -> T, ok: T -> bool, settled: T -> bool, level: T -> int, goal: int,
                                                rank: T -> nat, bound: nat, x: T, blocks: nat, n: nat)
    requires Climbs(f, ok, level) && Climbs(f, settled, level)
    requires Ranked(f, settled, level, goal, rank) && Settles(f, ok, settled, rank, bound)
    requires ok(x) && goal - level(x) <= blocks && n >= (bound + 3) * blocks
    ensures ok(Iterate(f, x, n)) && level(Iterate(f, x, n)) >= goal
    decreases blocks
  {
    Climb(f, ok, level, x, n);
    if level(x) < goal {
      var k := bound + 3;
      var y := Iterate(f, x, k);
      Rises(f, ok, settled, level, goal, rank, bound, x, k);
      Climb(f, ok, level, x, k);
      assert k * blocks == k + k * (blocks - 1);
      ReachesGoal(f, ok, settled, level, goal, rank, bound, y, blocks - 1, n - k);
      IterateAdd(f, x, k, n - k);
    }
  }

  /** From the goal, one more step makes `done` true. */
  ghost predicate Completes<T(!new)>(f: T -> T, ok: T -> bool, level: T -> int, goal: int, done: T -> bool) {
    forall x {:trigger f(x)} | ok(x) && level(x) >= goal :: done(f(x))
  }

  lemma Finishes<T(!new)>(f: T -> T, ok: T -> bool, settled: T -> bool, level: T -> int, goal: int,
                          rank: T -> nat, bound: nat, done: T -> bool, x: T, blocks: nat, n: nat)
    requires Climbs(f, ok, level) && Climbs(f, settled, level)
    requires Ranked(f, settled, level, goal, rank) && Settles(f, ok, settled, rank, bound)
    requires Completes(f, ok, level, goal, done)
    requires ok(x) && goal - level(x) <= blocks && n > (bound + 3) * blocks
    ensures done(Iterate(f, x, n))
  {
    ReachesGoal(f, ok, settled, level, goal, rank, bound, x, blocks, n - 1);
  }
}
