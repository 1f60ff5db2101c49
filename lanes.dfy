/**
 * The grid-stride loop of `generate_kernel`: lane `engine_id` starts at
 * `index == engine_id` and adds `stride` (the lane count) while
 * `index < vec_n`. These definitions follow that loop and the lemmas say
 * which groups a lane handles and which lane ends on `vec_n`.
 */
module Lanes {
  import opened Layout

  /** The value of `index` when the loop `while(index < vec_n) index += stride` exits. */
  function FinalIndex(index: nat, stride: nat, vecN: nat): nat
    requires stride > 0
    decreases vecN - index
  {
    if index >= vecN then index else FinalIndex(index + stride, stride, vecN)
  }

  /** How many times the loop body runs, starting from `index`. */
  function Iterations(index: nat, stride: nat, vecN: nat): (r: nat)
    requires stride > 0
    ensures r == 0 <==> index >= vecN
    decreases vecN - index
  {
    if index >= vecN then 0 else 1 + Iterations(index + stride, stride, vecN)
  }

  lemma {:induction false} ModAddStride(i: nat, s: nat)
    requires s > 0
    ensures (i + s) % s == i % s
  {
    DivModUnique(i + s, s, i / s + 1, i % s);
  }

  /** Two numbers with the same residue that differ by less than `s` are equal. */
  lemma {:induction false} SameResidueClose(a: nat, b: nat, s: nat)
    requires s > 0 && a <= b < a + s && a % s == b % s
    ensures a == b
  {
    var d := b / s - a / s;
    assert b - a == d * s by {
      assert a == (a / s) * s + a % s;
      assert b == (b / s) * s + b % s;
    }
    if d > 0 {
      MulAtLeast(d, s);
    } else if d < 0 {
      MulAtLeast(-d, s);
    }
  }

  /** The loop exit value: past `vec_n`, congruent to the start, and the first such value. */
  lemma {:induction false} FinalIndexFacts(index: nat, stride: nat, vecN: nat)
    requires stride > 0
    ensures FinalIndex(index, stride, vecN) >= vecN
    ensures FinalIndex(index, stride, vecN) % stride == index % stride
    ensures FinalIndex(index, stride, vecN) == index + Iterations(index, stride, vecN) * stride
    ensures index < vecN + stride ==> FinalIndex(index, stride, vecN) < vecN + stride
    decreases vecN - index
  {
    if index < vecN {
      FinalIndexFacts(index + stride, stride, vecN);
      ModAddStride(index, stride);
    }
  }

  /**
   * Single head/tail writer: of the lanes `0 <= lane < stride`, the one
   * that leaves the loop with `index == vec_n` is exactly lane
   * `vec_n % stride`.
   */
  lemma {:induction false} EndsOnVecN(lane: nat, stride: nat, vecN: nat)
    requires lane < stride
    ensures FinalIndex(lane, stride, vecN) == vecN <==> lane == vecN % stride
  {
    FinalIndexFacts(lane, stride, vecN);
    var f := FinalIndex(lane, stride, vecN);
    DivModUnique(lane, stride, 0, lane);
    if lane == vecN % stride {
      SameResidueClose(vecN, f, stride);
    }
  }

  /** Exactly one lane out of `stride` ends on `vec_n`. */
  lemma {:induction false} UniqueHeadTailLane(stride: nat, vecN: nat)
    requires stride > 0
    ensures vecN % stride < stride && FinalIndex(vecN % stride, stride, vecN) == vecN
    ensures forall lane :: 0 <= lane < stride && FinalIndex(lane, stride, vecN) == vecN ==> lane == vecN % stride
  {
    EndsOnVecN(vecN % stride, stride, vecN);
    forall lane | 0 <= lane < stride && FinalIndex(lane, stride, vecN) == vecN
      ensures lane == vecN % stride
    {
      EndsOnVecN(lane, stride, vecN);
    }
  }

  /** Growing `vec_n` by one adds one iteration to exactly the lane congruent to the old `vec_n`. */
  lemma {:induction false} IterationsStep(index: nat, stride: nat, vecN: nat)
    requires stride > 0
    ensures Iterations(index, stride, vecN + 1)
         == Iterations(index, stride, vecN) + (if index <= vecN && index % stride == vecN % stride then 1 else 0)
    decreases vecN - index
  {
    if index < vecN {
      IterationsStep(index + stride, stride, vecN);
      ModAddStride(index, stride);
      if index + stride > vecN && index % stride == vecN % stride {
        SameResidueClose(index, vecN, stride);
      }
    }
  }

  /** Iterations summed over lanes `0 .. count-1`. */
  function SumIterations(count: nat, stride: nat, vecN: nat): nat
    requires stride > 0
  {
    if count == 0 then 0 else SumIterations(count - 1, stride, vecN) + Iterations(count - 1, stride, vecN)
  }

  lemma {:induction false} SumIterationsStep(count: nat, stride: nat, vecN: nat)
    requires 0 < stride && count <= stride
    ensures SumIterations(count, stride, vecN + 1)
         == SumIterations(count, stride, vecN) + (if vecN % stride < count then 1 else 0)
  {
    if count > 0 {
      SumIterationsStep(count - 1, stride, vecN);
      IterationsStep(count - 1, stride, vecN);
      DivModUnique(count - 1, stride, 0, count - 1);
    }
  }

  /** The lanes together run the loop body exactly `vec_n` times: each body group is stored once. */
  lemma {:induction false} SumIterationsIsVecN(stride: nat, vecN: nat)
    requires stride > 0
    ensures SumIterations(stride, stride, vecN) == vecN
  {
    if vecN == 0 {
      ZeroIterations(stride, stride);
    } else {
      SumIterationsIsVecN(stride, vecN - 1);
      SumIterationsStep(stride, stride, vecN - 1);
    }
  }

  lemma {:induction false} ZeroIterations(count: nat, stride: nat)
    requires stride > 0
    ensures SumIterations(count, stride, 0) == 0
  {
    if count > 0 {
      ZeroIterations(count - 1, stride);
    }
  }
}
