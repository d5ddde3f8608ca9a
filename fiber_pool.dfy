/**
 * The fiber pool: a counter of fibers in use and a LIFO stack of idle fibers
 * kept for reuse. `new_fiber` counts a fiber in and reuses the most recently
 * retired one, or allocates a fresh one; `exit_fiber` counts a fiber out and
 * keeps it only while the stack is smaller than the ideal size for the
 * remaining load, `count * 20 / 100 + 16`.
 *
 * The class `Pool` updates its fields in place, as the source does; each of
 * its methods is tied to a step function on `PoolState` values, about which
 * the lemmas are stated, including runs of many calls (`Replay`).
 */
module FiberPool {
  import opened IoCore

  // ---------------------------------------------------------------------------
  // Fibers
  // ---------------------------------------------------------------------------

  /** The entry point a fiber runs: a function and its argument, opaque here. */
  datatype Start = Start(entry: nat, arg: nat)

  /** A stackful execution context. Its identity is the object's; its stack
      is not modelled. */
  class Fiber {
    var start: Start

    /** `Fiber::new`: a fresh fiber for `start`. */
    constructor (start: Start)
      ensures this.start == start
    {
      this.start := start;
    }
  }

  // ---------------------------------------------------------------------------
  // The retention rule
  // ---------------------------------------------------------------------------

  /** `calculate_ideal`: `count * 20 / 100 + 16` in `u64` arithmetic. The
      product wraps around at 2^64 as a release build computes it; below
      `u64::MAX / 20` it is exact. */
  function Ideal(count: U64): (ideal: U64)
  {
    (count * 20) % (U64Max + 1) / 100 + 16
  }

  /** The ideal size is never below the floor of 16, and for every count
      whose product does not wrap it is the exact formula. */
  lemma IdealFloor(count: U64)
    ensures Ideal(count) >= 16
    ensures count <= U64Max / 20 ==> Ideal(count) == count * 20 / 100 + 16
  {
  }

  /** The ideal size does not decrease as the count grows (while the product
      does not wrap). */
  lemma IdealMonotone(a: U64, b: U64)
    requires a <= b <= U64Max / 20
    ensures Ideal(a) <= Ideal(b)
  {
    assert a * 20 <= b * 20;
  }

  // ---------------------------------------------------------------------------
  // The pool as a value
  // ---------------------------------------------------------------------------

  /** The fibers in use and the idle stack, its top last. */
  datatype PoolState<F> = PoolState(count: U64, idle: seq<F>)

  /** What `new_fiber` leaves and the idle fiber it reused, if any (`None`:
      it allocated a fresh one). */
  datatype Took<F> = Took(pool: PoolState<F>, reused: Option<F>)

  /** `new_fiber` on values: count the fiber in, and pop the top of the idle
      stack if there is one. */
  function NewFiberStep<F>(s: PoolState<F>): Took<F>
    requires s.count < U64Max
  {
    if s.idle == [] then Took(PoolState(s.count + 1, []), None)
    else Took(PoolState(s.count + 1, s.idle[..|s.idle| - 1]), Some(s.idle[|s.idle| - 1]))
  }

  /** `exit_fiber` on values: count the fiber out, and push it while the idle
      stack is below the ideal size for the remaining count. */
  function ExitFiberStep<F>(s: PoolState<F>, f: F): PoolState<F>
    requires s.count > 0
  {
    var count := s.count - 1;
    if |s.idle| < Ideal(count) then PoolState(count, s.idle + [f]) else PoolState(count, s.idle)
  }

  /** `new_fiber` counts exactly one fiber in; it reuses the top of the idle
      stack, which shrinks by one, or, with nothing idle, allocates. */
  lemma NewFiberTakes<F>(s: PoolState<F>)
    requires s.count < U64Max
    ensures var t := NewFiberStep(s);
      && t.pool.count == s.count + 1
      && (t.reused.Some? <==> s.idle != [])
      && (s.idle != [] ==> s.idle == t.pool.idle + [t.reused.value])
      && (s.idle == [] ==> t.pool.idle == [])
  {
  }

  /** `exit_fiber` counts exactly one fiber out, and pushes the fiber exactly
      when the stack is below the ideal size for the remaining count; after
      a push the size is within that ideal, and otherwise the stack is as it
      was. Either way the size ends within the larger of the old size and
      the ideal. */
  lemma ExitFiberRetains<F>(s: PoolState<F>, f: F)
    requires s.count > 0
    ensures var r := ExitFiberStep(s, f);
      && r.count == s.count - 1
      && (r.idle == s.idle + [f] <==> |s.idle| < Ideal(r.count))
      && (|s.idle| < Ideal(r.count) ==> |r.idle| <= Ideal(r.count))
      && (|s.idle| >= Ideal(r.count) ==> r.idle == s.idle)
      && |r.idle| <= Max(|s.idle|, Ideal(r.count))
  {
    var r := ExitFiberStep(s, f);
    if |s.idle| >= Ideal(r.count) {
      assert |r.idle| == |s.idle|;
      assert r.idle != s.idle + [f] by {
        assert |s.idle + [f]| == |s.idle| + 1;
      }
    }
  }

  /** The idle stack is LIFO: a fiber retired into the stack is the next one
      reused, and taking it back restores the pool. */
  lemma ExitThenNew<F>(s: PoolState<F>, f: F)
    requires s.count > 0 && |s.idle| < Ideal(s.count - 1)
    ensures NewFiberStep(ExitFiberStep(s, f)) == Took(s, Some(f))
  {
    var r := ExitFiberStep(s, f);
    assert r.idle == s.idle + [f];
    assert r.idle[..|r.idle| - 1] == s.idle;
  }

  /** Reusing the top fiber and retiring it again restores the pool whenever
      the stack was within the ideal size for the count. */
  lemma NewThenExit<F>(s: PoolState<F>)
    requires s.count < U64Max && s.idle != [] && |s.idle| <= Ideal(s.count)
    ensures var t := NewFiberStep(s); ExitFiberStep(t.pool, t.reused.value) == s
  {
    var t := NewFiberStep(s);
    assert t.pool.idle + [t.reused.value] == s.idle;
  }

  // ---------------------------------------------------------------------------
  // Bounded retention
  // ---------------------------------------------------------------------------

  /** The pool retains no more idle fibers than the ideal size for the
      largest count it has reached, `peak` (while that count's product does
      not wrap). */
  predicate Retained<F>(s: PoolState<F>, peak: nat)
  {
    s.count <= peak && (peak <= U64Max / 20 ==> |s.idle| <= Ideal(peak))
  }

  /** `new_fiber` keeps the retention bound, with the peak raised to the new
      count if it exceeds it. */
  lemma NewFiberKeepsRetained<F>(s: PoolState<F>, peak: nat)
    requires s.count < U64Max && Retained(s, peak)
    ensures Retained(NewFiberStep(s).pool, Max(peak, s.count + 1))
  {
    var p := Max(peak, s.count + 1);
    if p <= U64Max / 20 {
      IdealMonotone(peak, p);
    }
  }

  /** `exit_fiber` keeps the retention bound: it only pushes below the ideal
      size for a count within the peak. */
  lemma ExitFiberKeepsRetained<F>(s: PoolState<F>, f: F, peak: nat)
    requires s.count > 0 && Retained(s, peak)
    ensures Retained(ExitFiberStep(s, f), peak)
  {
    if peak <= U64Max / 20 && |s.idle| < Ideal(s.count - 1) {
      IdealMonotone(s.count - 1, peak);
    }
  }

  // ---------------------------------------------------------------------------
  // Runs of calls
  // ---------------------------------------------------------------------------

  /** A call on the pool: `new_fiber(start)` or `exit_fiber(fiber)`. */
  datatype Op<F> = New(start: Start) | Exit(fiber: F)

  /** The pool after one call, or `None` when the call's counter update would
      overflow or underflow: a debug build panics there and a release build
      wraps around, and the model follows neither. */
  function Apply<F>(s: PoolState<F>, op: Op<F>): Option<PoolState<F>>
  {
    match op
    case New(_) => if s.count < U64Max then Some(NewFiberStep(s).pool) else None
    case Exit(f) => if s.count > 0 then Some(ExitFiberStep(s, f)) else None
  }

  /** The pool after a run of calls, or `None` if the counter update of one
      of them would overflow or underflow. */
  function Replay<F>(s: PoolState<F>, ops: seq<Op<F>>): Option<PoolState<F>>
    decreases |ops|
  {
    if ops == [] then Some(s)
    else
      match Apply(s, ops[0])
      case None => None
      case Some(t) => Replay(t, ops[1..])
  }

  /** The number of `new_fiber` calls in a run. */
  function News<F>(ops: seq<Op<F>>): nat
  {
    if ops == [] then 0 else (if ops[0].New? then 1 else 0) + News(ops[1..])
  }

  /** The number of `exit_fiber` calls in a run. */
  function Exits<F>(ops: seq<Op<F>>): nat
  {
    if ops == [] then 0 else (if ops[0].Exit? then 1 else 0) + Exits(ops[1..])
  }

  /** Over any run whose counter updates neither overflow nor underflow, the
      counter is the starting count
      plus the `new_fiber` calls minus the `exit_fiber` calls, and it never
      goes below 0 (so every prefix has no more exits than that). */
  lemma {:induction false} ReplayCounts<F>(s: PoolState<F>, ops: seq<Op<F>>)
    requires Replay(s, ops).Some?
    ensures Replay(s, ops).value.count == s.count + News(ops) - Exits(ops)
    ensures Exits(ops) <= s.count + News(ops)
    decreases |ops|
  {
    if ops != [] {
      var t := Apply(s, ops[0]).value;
      ReplayCounts(t, ops[1..]);
    }
  }

  /** `exit_fiber` on each of `fs` in turn. */
  function ExitOps<F>(fs: seq<F>): (ops: seq<Op<F>>)
    ensures |ops| == |fs|
  {
    if fs == [] then [] else [Exit(fs[0])] + ExitOps(fs[1..])
  }

  /** `new_fiber` `n` times for `start`. */
  function NewOps<F>(n: nat, start: Start): (ops: seq<Op<F>>)
    ensures |ops| == n
  {
    if n == 0 then [] else [New(start)] + NewOps(n - 1, start)
  }

  /** A run splits at any point into its two halves. */
  lemma {:induction false} ReplayAppend<F>(s: PoolState<F>, a: seq<Op<F>>, b: seq<Op<F>>)
    requires Replay(s, a).Some?
    ensures Replay(s, a + b) == Replay(Replay(s, a).value, b)
    decreases |a|
  {
    if a == [] {
      assert a + b == b;
    } else {
      assert (a + b)[0] == a[0] && (a + b)[1..] == a[1..] + b;
      ReplayAppend(Apply(s, a[0]).value, a[1..], b);
    }
  }

  /** `new_fiber` on a pool with nothing idle allocates every time, and only
      counts. */
  lemma {:induction false} NewsFromEmpty<F>(count: U64, n: nat, start: Start)
    requires count + n <= U64Max
    ensures var s: PoolState<F> := PoolState(count, []); Replay(s, NewOps(n, start)) == Some(PoolState(count + n, []))
    decreases n
  {
    if n > 0 {
      var ops := NewOps<F>(n, start);
      assert ops[0] == New(start) && ops[1..] == NewOps(n - 1, start);
      NewsFromEmpty<F>(count + 1, n - 1, start);
    }
  }

  /** Room for `n` pushes by consecutive `exit_fiber` calls starting from a
      stack of `size` fibers and a count of `count`: at each call the stack is
      below the ideal size for the remaining count. */
  predicate RoomFor(size: nat, count: U64, n: nat)
    decreases n
  {
    n == 0 || (count > 0 && size < Ideal(count - 1) && RoomFor(size + 1, count - 1, n - 1))
  }

  /** There is room for `n` pushes whenever the stack plus `n` fits within
      the ideal size for the count the last of them leaves, the smallest of
      the ideal sizes on the way. */
  lemma {:induction false} RoomForWithin(size: nat, count: U64, n: nat)
    requires n <= count <= U64Max / 20 && size + n <= Ideal(count - n)
    ensures RoomFor(size, count, n)
    decreases n
  {
    if n > 0 {
      IdealMonotone(count - n, count - 1);
      RoomForWithin(size + 1, count - 1, n - 1);
    }
  }

  /** `exit_fiber` on each of `fs` pushes every one of them when, at each
      call, the stack is below the ideal size for the remaining count. */
  lemma {:induction false} ExitsPushAll<F>(s: PoolState<F>, fs: seq<F>)
    requires |fs| <= s.count && RoomFor(|s.idle|, s.count, |fs|)
    ensures Replay(s, ExitOps(fs)) == Some(PoolState(s.count - |fs|, s.idle + fs))
    decreases |fs|
  {
    if fs == [] {
      assert s.idle + fs == s.idle;
    } else {
      var ops := ExitOps(fs);
      assert ops[0] == Exit(fs[0]) && ops[1..] == ExitOps(fs[1..]);
      var t := ExitFiberStep(s, fs[0]);
      assert t == PoolState(s.count - 1, s.idle + [fs[0]]);
      ExitsPushAll(t, fs[1..]);
      assert (s.idle + [fs[0]]) + fs[1..] == s.idle + fs;
    }
  }

  /** Five `new_fiber` calls then five `exit_fiber` calls on a new pool end
      with nothing in use and all five fibers idle, since the ideal size is
      16 at every exit. */
  lemma FiveInFiveOut<F>(start: Start, fs: seq<F>)
    requires |fs| == 5
    ensures var s: PoolState<F> := PoolState(0, []); Replay(s, NewOps(5, start) + ExitOps(fs)) == Some(PoolState(0, fs))
  {
    var s0: PoolState<F> := PoolState(0, []);
    NewsFromEmpty<F>(0, 5, start);
    ReplayAppend(s0, NewOps(5, start), ExitOps(fs));
    var s: PoolState<F> := PoolState(5, []);
    RoomForWithin(|s.idle|, s.count, |fs|);
    ExitsPushAll(s, fs);
    assert [] + fs == fs;
  }

  /** The idle stack can exceed the ideal size for the count after an
      `exit_fiber`: 22 `new_fiber` calls on a new pool, then 18 `exit_fiber`
      calls, leave 4 fibers in use and 17 idle, but the ideal size for 4 is
      16. The rule bounds the stack only at the moment of each push. */
  lemma IdleMayExceedIdeal<F>(start: Start, fs: seq<F>, last: F)
    requires |fs| == 17
    ensures var s: PoolState<F> := PoolState(0, []);
      var r := Replay(s, NewOps(22, start) + ExitOps(fs + [last]));
      && r == Some(PoolState(4, fs))
      && |r.value.idle| == 17 > Ideal(4) == 16
  {
    var s0: PoolState<F> := PoolState(0, []);
    var s: PoolState<F> := PoolState(22, []);
    var t: PoolState<F> := PoolState(5, fs);
    var exits := ExitOps(fs + [last]);
    assert Replay(s0, NewOps(22, start) + exits) == Replay(s, exits) by {
      NewsFromEmpty<F>(0, 22, start);
      ReplayAppend(s0, NewOps(22, start), exits);
    }
    assert Replay(s, ExitOps(fs)) == Some(t) by {
      RoomForWithin(0, 22, 17);
      ExitsPushAll(s, fs);
      assert [] + fs == fs;
    }
    assert Replay(t, [Exit(last)]) == Some(PoolState(4, fs)) by {
      assert Ideal(4) == 16;
      assert ExitFiberStep(t, last) == PoolState(4, fs);
      assert [Exit(last)][1..] == [];
    }
    assert Replay(s, exits) == Some(PoolState(4, fs)) by {
      ExitOpsSnoc(fs, last);
      ReplayAppend(s, ExitOps(fs), [Exit(last)]);
    }
  }

  /** The exits of a run extended by one fiber are its exits and one more. */
  lemma {:induction false} ExitOpsSnoc<F>(fs: seq<F>, f: F)
    ensures ExitOps(fs + [f]) == ExitOps(fs) + [Exit(f)]
    decreases |fs|
  {
    if fs == [] {
      assert [f][1..] == [];
    } else {
      assert (fs + [f])[0] == fs[0] && (fs + [f])[1..] == fs[1..] + [f];
      ExitOpsSnoc(fs[1..], f);
    }
  }

  // ---------------------------------------------------------------------------
  // The pool in place
  // ---------------------------------------------------------------------------

  /** `Pool`: the count of fibers in use and the idle stack (behind a mutex in
      the source; both methods take the pool exclusively, so the model is
      sequential). `peak` is the largest count reached, for the retention
      bound. */
  class Pool {
    var idle: seq<Fiber>
    var count: U64
    ghost var peak: nat

    /** The pool's state as a value. */
    function State(): PoolState<Fiber>
      reads this
    {
      PoolState(count, idle)
    }

    ghost predicate Valid()
      reads this
    {
      Retained(State(), peak)
    }

    /** `Pool::new`: nothing in use, nothing idle. */
    constructor ()
      ensures State() == PoolState(0, []) && Valid()
    {
      idle := [];
      count := 0;
      peak := 0;
    }

    /** `new_fiber`: count the fiber in; reuse the top idle fiber, rebinding
        it to `start`, or allocate a fresh one. */
    method NewFiber(start: Start) returns (f: Fiber)
      requires Valid() && count < U64Max
      modifies this, if idle == [] then {} else {idle[|idle| - 1]}
      ensures var t := NewFiberStep(old(State()));
        && State() == t.pool
        && (t.reused.Some? ==> f == t.reused.value)
        && (t.reused.None? ==> fresh(f))
        && f.start == start
        && Valid()
    {
      NewFiberKeepsRetained(State(), peak);
      peak := Max(peak, count + 1);
      count := count + 1;
      if idle == [] {
        f := new Fiber(start);
      } else {
        f := idle[|idle| - 1];
        idle := idle[..|idle| - 1];
        f.start := start;
      }
    }

    /** `exit_fiber`: count the fiber out, and keep it for reuse only while
        the idle stack is below the ideal size for the remaining count. */
    method ExitFiber(f: Fiber)
      requires Valid() && count > 0
      modifies this
      ensures State() == ExitFiberStep(old(State()), f) && peak == old(peak) && Valid()
    {
      ExitFiberKeepsRetained(State(), f, peak);
      count := count - 1;
      var ideal := Ideal(count);
      if |idle| < ideal {
        idle := idle + [f];
      }
    }
  }
}
