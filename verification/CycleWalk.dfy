/** Cycle-walking a permutation of [0, N) down to a smaller range, over any
    permutation given with its inverse; the loop of _walk in
    src/surrogate/mixed_radix_ff1.py:82-101. */
module CycleWalk {
  import opened Prelude

  type Step = nat -> nat

  /** f and g permute [0, n) and undo each other. */
  ghost predicate Inverse(f: Step, g: Step, n: nat) {
    forall x: nat | x < n :: f(x) < n && g(x) < n && g(f(x)) == x && f(g(x)) == x
  }

  function Iterate(f: Step, k: nat, x: nat): nat {
    if k == 0 then x else f(Iterate(f, k - 1, x))
  }

  /** The walk: at most cap applications, stopping at the first result below size. */
  function Walk(f: Step, cap: nat, start: nat, size: nat): Option<nat> {
    if cap == 0 then None
    else if f(start) < size then Some(f(start))
    else Walk(f, cap - 1, f(start), size)
  }

  method WalkLoop(f: Step, cap: nat, start: nat, size: nat) returns (r: Option<nat>)
    ensures r == Walk(f, cap, start, size)
  {
    var current: nat := start;
    for i := 0 to cap
      invariant Walk(f, cap, start, size) == Walk(f, cap - i, current, size)
    {
      current := f(current);
      if current < size {
        return Some(current);
      }
    }
    r := None;
  }

  /** The k-th iterate is the first, after the start, to fall below size. */
  ghost predicate Lands(f: Step, start: nat, size: nat, k: nat) {
    k > 0 && Iterate(f, k, start) < size
    && forall j: nat | 0 < j < k :: Iterate(f, j, start) >= size
  }

  lemma {:induction false} IterateShift(f: Step, k: nat, x: nat)
    ensures Iterate(f, k, f(x)) == Iterate(f, k + 1, x)
  {
    if k > 0 {
      IterateShift(f, k - 1, x);
    }
  }

  /** If the walk lands at all within the cap, it returns that landing point. */
  lemma {:induction false} WalkLands(f: Step, cap: nat, start: nat, size: nat, k: nat)
    requires Lands(f, start, size, k) && k <= cap
    ensures Walk(f, cap, start, size) == Some(Iterate(f, k, start))
  {
    assert Iterate(f, 1, start) == f(start);
    if k > 1 {
      forall j: nat ensures Iterate(f, j, f(start)) == Iterate(f, j + 1, start) {
        IterateShift(f, j, start);
      }
      WalkLands(f, cap - 1, f(start), size, k - 1);
    }
  }

  lemma {:induction false} WalkReturns(f: Step, cap: nat, start: nat, size: nat) returns (k: nat)
    requires Walk(f, cap, start, size).Some?
    ensures k <= cap && Lands(f, start, size, k)
  {
    assert Iterate(f, 1, start) == f(start);
    if f(start) < size {
      k := 1;
    } else {
      k := WalkReturns(f, cap - 1, f(start), size);
      forall j: nat ensures Iterate(f, j, f(start)) == Iterate(f, j + 1, start) {
        IterateShift(f, j, start);
      }
      forall j: nat | 0 < j < k + 1 ensures Iterate(f, j, start) >= size {
        if j > 1 {
          assert Iterate(f, j - 1, f(start)) >= size;
        }
      }
      k := k + 1;
    }
  }

  ghost predicate LandsWithin(f: Step, cap: nat, start: nat, size: nat) {
    exists k: nat | k <= cap :: Lands(f, start, size, k)
  }

  /** The capped walk succeeds exactly when some iterate within the cap lands. */
  lemma WalkSucceeds(f: Step, cap: nat, start: nat, size: nat)
    ensures Walk(f, cap, start, size).Some? <==> LandsWithin(f, cap, start, size)
  {
    if Walk(f, cap, start, size).Some? {
      var k := WalkReturns(f, cap, start, size);
    }
    if LandsWithin(f, cap, start, size) {
      var k: nat :| k <= cap && Lands(f, start, size, k);
      WalkLands(f, cap, start, size, k);
    }
  }

  lemma {:induction false} IterateInRange(f: Step, g: Step, n: nat, k: nat, x: nat)
    requires Inverse(f, g, n) && x < n
    ensures Iterate(f, k, x) < n
  {
    if k > 0 {
      IterateInRange(f, g, n, k - 1, x);
    }
  }

  /** Walking the inverse back from the k-th iterate meets the same points in reverse. */
  lemma {:induction false} IterateBack(f: Step, g: Step, n: nat, k: nat, j: nat, x: nat)
    requires Inverse(f, g, n) && x < n && j <= k
    ensures Iterate(g, j, Iterate(f, k, x)) == Iterate(f, k - j, x)
  {
    if j > 0 {
      IterateBack(f, g, n, k, j - 1, x);
      IterateInRange(f, g, n, k - j, x);
      assert Iterate(f, k - j + 1, x) == f(Iterate(f, k - j, x));
    }
  }

  /** If walking f from start lands after k steps, walking the inverse from there
      returns to start after exactly k steps. */
  lemma LandsBack(f: Step, g: Step, n: nat, start: nat, size: nat, k: nat)
    requires Inverse(f, g, n) && start < size <= n && Lands(f, start, size, k)
    ensures Lands(g, Iterate(f, k, start), size, k)
    ensures Iterate(g, k, Iterate(f, k, start)) == start
  {
    var r := Iterate(f, k, start);
    IterateBack(f, g, n, k, k, start);
    forall j: nat | 0 < j < k ensures Iterate(g, j, r) >= size {
      IterateBack(f, g, n, k, j, start);
    }
  }

  /** The capped walks of f and of its inverse undo each other, within the same cap. */
  lemma WalkInverse(f: Step, g: Step, n: nat, cap: nat, start: nat, size: nat)
    requires Inverse(f, g, n) && start < size <= n
    ensures var r := Walk(f, cap, start, size);
      r.Some? ==> r.value < size && Walk(g, cap, r.value, size) == Some(start)
  {
    if Walk(f, cap, start, size).Some? {
      var k := WalkReturns(f, cap, start, size);
      WalkLands(f, cap, start, size, k);
      LandsBack(f, g, n, start, size, k);
      WalkLands(g, cap, Iterate(f, k, start), size, k);
    }
  }

  ghost function Orbit(f: Step, k: nat, x: nat): set<nat> {
    if k == 0 then {} else Orbit(f, k - 1, x) + {Iterate(f, k, x)}
  }

  lemma {:induction false} OrbitMember(f: Step, k: nat, x: nat, y: nat)
    requires y in Orbit(f, k, x)
    ensures exists j: nat :: 0 < j <= k && y == Iterate(f, j, x)
  {
    if y != Iterate(f, k, x) {
      OrbitMember(f, k - 1, x, y);
    }
  }

  /** As long as the walk stays outside [0, size) its points are pairwise distinct. */
  lemma {:induction false} OrbitSize(f: Step, g: Step, n: nat, k: nat, x: nat, size: nat)
    requires Inverse(f, g, n) && x < size <= n
    requires forall j: nat | 0 < j <= k :: Iterate(f, j, x) >= size
    ensures |Orbit(f, k, x)| == k
  {
    if k > 0 {
      OrbitSize(f, g, n, k - 1, x, size);
      if Iterate(f, k, x) in Orbit(f, k - 1, x) {
        OrbitMember(f, k - 1, x, Iterate(f, k, x));
        var j: nat :| 0 < j <= k - 1 && Iterate(f, k, x) == Iterate(f, j, x);
        assert Iterate(f, k - j, x) >= size;
        IterateBack(f, g, n, j, j, x);
        IterateBack(f, g, n, k, j, x);
      }
    }
  }

  function Range(lo: nat, hi: nat): (r: set<nat>)
    requires lo <= hi
    ensures |r| == hi - lo && forall x :: x in r <==> lo <= x < hi
  {
    if lo == hi then {} else Range(lo, hi - 1) + {hi - 1}
  }

  lemma SubsetSize(a: set<nat>, b: set<nat>)
    requires a <= b
    ensures |a| <= |b|
  {
    assert b == a + (b - a);
  }

  /** Pigeonhole: an uncapped walk from inside [0, size) lands again within n - size + 1 steps. */
  lemma WalkMustReturn(f: Step, g: Step, n: nat, start: nat, size: nat) returns (k: nat)
    requires Inverse(f, g, n) && start < size <= n
    ensures k <= n - size + 1 && Lands(f, start, size, k)
  {
    k := 1;
    while Iterate(f, k, start) >= size
      invariant 1 <= k <= n - size + 1
      invariant forall j: nat | 0 < j < k :: Iterate(f, j, start) >= size
      decreases n - size + 1 - k
    {
      OrbitSize(f, g, n, k, start, size);
      forall y | y in Orbit(f, k, start) ensures y in Range(size, n) {
        OrbitMember(f, k, start, y);
        var j: nat :| 0 < j <= k && y == Iterate(f, j, start);
        IterateInRange(f, g, n, j, start);
      }
      SubsetSize(Orbit(f, k, start), Range(size, n));
      k := k + 1;
    }
  }

  /** A cap at least n - size + 1 is never hit. */
  lemma WalkConverges(f: Step, g: Step, n: nat, cap: nat, start: nat, size: nat)
    requires Inverse(f, g, n) && start < size <= n && cap >= n - size + 1
    ensures Walk(f, cap, start, size).Some?
  {
    var k := WalkMustReturn(f, g, n, start, size);
    WalkLands(f, cap, start, size, k);
  }
}
