// The iteration-count calculator `get_iterations`: starting at 1000 and
// stepping by 1000, the smallest count whose memory traffic over the working
// set reaches 4 GiB.
module Iterations {
  import opened Config

  /**
   * A bound on the working set (in pages) below which no product the loop
   * evaluates wraps modulo 2^64 (see GuardExact).
   */
  const MaxPages: nat := 4503599626321

  /** Largest count the loop can return for a working set of at least one page. */
  const MaxIterations: nat := 1049000

  /** Bytes written by `it` passes over `ws` pages, as a mathematical integer. */
  function Traffic(it: nat, ws: nat): nat
  {
    it * ws * PageSize
  }

  /**
   * The loop guard as the C code evaluates it, in `unsigned long long`;
   * when the full product does not wrap it is the comparison of the
   * traffic with 4 GiB.
   */
  predicate Guard(it: nat, ws: nat): (g: bool)
    ensures Traffic(it, ws) < U64Modulus ==> (g <==> Traffic(it, ws) < TrafficFloor)
  {
    assert it * ws <= Traffic(it, ws);
    MulU64(MulU64(it, ws), PageSize) < TrafficFloor
  }

  /**
   * What `get_iterations` returns for `ws` pages: a positive multiple of the
   * step whose traffic reaches the floor, while one step less would not.
   */
  predicate IsIterationCount(ws: nat, r: nat)
  {
    r >= Step && r % Step == 0 &&
    Traffic(r, ws) >= TrafficFloor &&
    (r == Step || Traffic(r - Step, ws) < TrafficFloor)
  }

  /** Reference definition in closed form: 1000 * ceil(2^20 / (1000 * ws)). */
  function ClosedForm(ws: nat): nat
    requires ws > 0
  {
    Step * ((TrafficFloor / PageSize + Step * ws - 1) / (Step * ws))
  }

  // ---------------------------------------------------------------------
  // Arithmetic facts about the traffic product

  lemma TrafficMonotone(a: nat, b: nat, ws: nat)
    requires a <= b
    ensures Traffic(a, ws) <= Traffic(b, ws)
  {
    assert Traffic(b, ws) - Traffic(a, ws) == (b - a) * (ws * PageSize);
  }

  lemma TrafficStep(it: nat, ws: nat)
    requires it >= Step
    ensures Traffic(it, ws) == Traffic(it - Step, ws) + Step * ws * PageSize
  {
  }

  /** A count below the floor for a non-empty working set is below 2^20. */
  lemma {:induction false} BelowFloorBound(it: nat, ws: nat)
    requires ws >= 1 && it % Step == 0
    requires Traffic(it, ws) < TrafficFloor
    ensures it <= MaxIterations - Step
  {
    TrafficMonotoneInPages(it, 1, ws);
    assert it * PageSize < TrafficFloor;
  }

  lemma TrafficMonotoneInPages(it: nat, v: nat, ws: nat)
    requires v <= ws
    ensures Traffic(it, v) <= Traffic(it, ws)
  {
    assert Traffic(it, ws) - Traffic(it, v) == it * (ws - v) * PageSize;
  }

  /**
   * While the loop runs, the product it evaluates stays below 2^64 for
   * every working set up to MaxPages, so the wrapped guard equals the
   * mathematical one.
   */
  lemma {:induction false} GuardExact(it: nat, ws: nat)
    requires 0 < ws <= MaxPages
    requires it >= Step
    requires it == Step || Traffic(it - Step, ws) < TrafficFloor
    ensures Traffic(it, ws) < U64Modulus
    ensures Guard(it, ws) <==> Traffic(it, ws) < TrafficFloor
  {
    TrafficStep(it, ws);
    if it == Step {
      assert Traffic(it - Step, ws) == 0;
    }
    assert Step * ws * PageSize <= Step * MaxPages * PageSize;
  }

  // ---------------------------------------------------------------------
  // Properties of the specification

  /** At most one count meets the specification: it determines the result. */
  lemma {:induction false} IterationCountUnique(ws: nat, r1: nat, r2: nat)
    requires IsIterationCount(ws, r1) && IsIterationCount(ws, r2)
    ensures r1 == r2
  {
    if r1 < r2 {
      TrafficMonotone(r1, r2 - Step, ws);
    } else if r2 < r1 {
      TrafficMonotone(r2, r1 - Step, ws);
    }
  }

  /** The closed form meets the specification of the loop. */
  lemma {:induction false} IterationsMeetsSpec(ws: nat)
    requires ws > 0
    ensures IsIterationCount(ws, ClosedForm(ws))
  {
    var n := TrafficFloor / PageSize;
    var d := Step * ws;
    var q := (n + d - 1) / d;
    assert n == 1048576;
    DivBounds(n + d - 1, d);
    assert d * q <= n + d - 1 < d * q + d;
    assert q >= 1;
    assert ClosedForm(ws) == Step * q;
    assert Traffic(Step * q, ws) == d * q * PageSize;
    assert Traffic(Step * q, ws) >= TrafficFloor;
    if q > 1 {
      assert Step * q - Step == Step * (q - 1);
      assert Traffic(Step * (q - 1), ws) == d * q * PageSize - d * PageSize;
    }
  }

  lemma DivBounds(x: nat, d: nat)
    requires d > 0
    ensures d * (x / d) <= x < d * (x / d) + d
  {
  }

  /** The count the loop returns is the closed form. */
  lemma {:induction false} CountIsClosedForm(ws: nat, r: nat)
    requires ws > 0 && IsIterationCount(ws, r)
    ensures r == ClosedForm(ws)
  {
    IterationsMeetsSpec(ws);
    IterationCountUnique(ws, r, ClosedForm(ws));
  }

  /** Every count the specification allows lies in [1000, 1049000] for ws >= 1. */
  lemma {:induction false} IterationCountRange(ws: nat, r: nat)
    requires ws > 0 && IsIterationCount(ws, r)
    ensures Step <= r <= MaxIterations
  {
    if r != Step {
      var k := r / Step;
      assert r == Step * k;
      assert r - Step == Step * (k - 1);
      BelowFloorBound(r - Step, ws);
    }
  }

  /** From 1049 pages on, a single step already reaches the floor. */
  lemma {:induction false} LargeWorkingSetSingleStep(ws: nat, r: nat)
    requires ws >= 1049 && IsIterationCount(ws, r)
    ensures r == Step
  {
    if r != Step {
      TrafficMonotone(Step, r - Step, ws);
      TrafficMonotoneInPages(Step, 1049, ws);
    }
  }

  /** The returned count, and four times it, fit in a signed 32-bit `int`. */
  lemma {:induction false} IterationCountFitsInt32(ws: nat, r: nat)
    requires ws > 0 && IsIterationCount(ws, r)
    ensures r <= Int32Max && r * SwitchesPerIteration <= 4196000 <= Int32Max
  {
    IterationCountRange(ws, r);
  }

  /**
   * With no working set the guard holds at every count the loop can reach,
   * so the loop at timectxswws.c:24 never exits and no count meets the
   * specification.
   */
  lemma ZeroPagesNeverExit(it: nat)
    ensures Guard(it, 0)
    ensures !IsIterationCount(0, it)
  {
  }

  /**
   * Above MaxPages the wrapped guard can hold forever: at 2^52 pages the
   * product `iterations * ws_pages * 4096` is a multiple of 2^64 for every
   * count, so it always wraps to 0 and the loop never exits.
   */
  lemma {:induction false} WrappedGuardHangs(it: nat)
    ensures Guard(it, 0x10_0000_0000_0000)
  {
    var ws: nat := 0x10_0000_0000_0000;
    var x := it * ws;
    var q := x / U64Modulus;
    var m := x % U64Modulus;
    assert x == q * U64Modulus + m;
    assert m * PageSize == (it - q * PageSize) * U64Modulus by {
      assert ws * PageSize == U64Modulus;
      calc {
        m * PageSize;
        (x - q * U64Modulus) * PageSize;
        it * (ws * PageSize) - q * PageSize * U64Modulus;
        (it - q * PageSize) * U64Modulus;
      }
    }
    ModMultiple(it - q * PageSize, m * PageSize);
  }

  lemma ModMultiple(k: int, y: nat)
    requires y == k * U64Modulus
    ensures y % U64Modulus == 0
  {
  }

  // ---------------------------------------------------------------------
  // The calculator

  /** `get_iterations` as written: defined only for a non-empty working set. */
  method GetIterations(ws: nat) returns (r: nat)
    requires 0 < ws <= MaxPages
    ensures IsIterationCount(ws, r)
    ensures Step <= r <= MaxIterations <= Int32Max
    ensures r == IterationCount(ws)
  {
    var it: nat := Step;
    GuardExact(it, ws);
    while Guard(it, ws)
      invariant LoopInvariant(it, ws)
      decreases MaxIterations - it
    {
      LoopStep(it, ws);
      it := it + Step;
    }
    IterationCountUnique(ws, it, IterationCount(ws));
    r := it;
  }

  /** What holds of `iterations` at the head of the loop. */
  predicate LoopInvariant(it: nat, ws: nat)
  {
    it >= Step && it % Step == 0 &&
    (it == Step || Traffic(it - Step, ws) < TrafficFloor) &&
    it <= MaxIterations &&
    (Guard(it, ws) <==> Traffic(it, ws) < TrafficFloor)
  }

  /** One pass of the loop body keeps the invariant. */
  lemma LoopStep(it: nat, ws: nat)
    requires 0 < ws <= MaxPages
    requires LoopInvariant(it, ws) && Guard(it, ws)
    ensures LoopInvariant(it + Step, ws)
  {
    BelowFloorBound(it, ws);
    GuardExact(it + Step, ws);
  }

  /**
   * Iteration count with the zero-page case made total: 1000, the loop's
   * starting value, when there is no working set.
   */
  function IterationCount(ws: nat): (r: nat)
    ensures ws > 0 ==> IsIterationCount(ws, r)
    ensures ws == 0 ==> r == Step
    ensures Step <= r <= MaxIterations && r % Step == 0
  {
    if ws == 0 then Step
    else
      IterationsMeetsSpec(ws);
      IterationCountRange(ws, ClosedForm(ws));
      ClosedForm(ws)
  }
}
