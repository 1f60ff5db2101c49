/**
 * `init_engines_kernel` and `generate_kernel` as imperative code over
 * the engine array and the output buffer. The lanes run one after the
 * other. They write disjoint elements (KernelSpec), which makes another
 * order plausible; the model does not prove that it gives the same buffer.
 */
module Kernel {
  import opened Types
  import opened Lanes
  import opened Transforms
  import opened Writes
  import opened KernelSpec

  /** The engines `init_engines_kernel` creates: lane `id` gets the engine for (seed, id, offset). */
  function SeededEngines<E>(seedEngine: (uint64, nat, uint64) -> E, seed: uint64, offset: uint64, count: nat): (r: seq<E>)
    ensures |r| == count
    ensures forall id :: 0 <= id < count ==> r[id] == seedEngine(seed, id, offset)
  {
    seq(count, (id: int) requires 0 <= id < count => seedEngine(seed, id, offset))
  }

  /** `engines[engine_id] = mrg32k3a_device_engine(seed, engine_id, offset)` for every lane. */
  method InitEngines<E>(engines: array<E>, seedEngine: (uint64, nat, uint64) -> E, seed: uint64, offset: uint64)
    modifies engines
    ensures engines[..] == SeededEngines(seedEngine, seed, offset, engines.Length)
  {
    for id := 0 to engines.Length
      invariant forall j :: 0 <= j < id ==> engines[j] == seedEngine(seed, j, offset)
    {
      engines[id] := seedEngine(seed, id, offset);
    }
  }

  /** `for (i = 0; i < input_width; i++) input[i] = engine();` */
  method DrawInputs<E>(next: E -> (E, uint32), engine: E, input: array<uint32>) returns (after: E)
    modifies input
    ensures (after, input[..]) == Draws(next, engine, input.Length)
  {
    after := engine;
    for i := 0 to input.Length
      invariant (after, input[..i]) == Draws(next, engine, i)
    {
      var (e1, v) := next(after);
      input[i] := v;
      after := e1;
      assert input[..i + 1] == input[..i] + [v];
    }
    assert input[..] == input[..input.Length];
  }

  /** Draw `input_width` values into `input`, then `distribution(input, output)`. */
  method DrawAndTransform<E, T>(c: Config<E, T>, engine: E, input: array<uint32>) returns (after: E, output: seq<T>)
    requires c.Valid() && input.Length == c.t.input
    modifies input
    ensures (after, output) == Transformed(c, engine)
  {
    after := DrawInputs(c.next, engine, input);
    output := c.t.f(input[..]);
  }

  /**
   * `for (o = 0; o < output_width; o++) if (o < count) data[base + o] = output[o];`
   * With `count == output_width` this is also the vector store of a full group.
   */
  method StorePrefix<T>(data: array<T>, base: nat, output: seq<T>, count: nat)
    requires count <= |output| && base + count <= data.Length
    modifies data
    ensures data[..] == ApplyWrites(old(data[..]), GroupWrites(base, output, count))
  {
    ghost var s0 := data[..];
    var o := 0;
    while o < |output|
      invariant o <= |output|
      invariant data[..] == ApplyWrites(s0, GroupWrites(base, output, Min(o, count)))
    {
      if o < count {
        GroupWritesStep(s0, base, output, o);
        data[base + o] := output[o];
      }
      o := o + 1;
    }
  }

  /** `vec_data[index] = *reinterpret_cast<vec_type *>(output);`: one full group stored at its place in the body. */
  method StoreGroup<E, T>(c: Config<E, T>, data: array<T>, index: nat, output: seq<T>)
    requires c.Valid() && index < c.Split().vecN && c.n <= data.Length && |output| == c.t.output
    modifies data
    ensures data[..] == ApplyWrites(old(data[..]), GroupWrites(GroupBase(c, index), output, c.t.output))
  {
    GroupInBuffer(c, index);
    StorePrefix(data, GroupBase(c, index), output, c.t.output);
  }

  /** What one iteration of the grid-stride loop contributes to `Body`. */
  lemma LoopStep<E, T>(c: Config<E, T>, e: E, index: nat, s: seq<T>)
    requires c.Valid() && index < c.Split().vecN
    ensures var (e1, out) := Transformed(c, e);
      && Body(c, e1, index + c.stride).engine == Body(c, e, index).engine
      && ApplyWrites(ApplyWrites(s, GroupWrites(GroupBase(c, index), out, c.t.output)), Body(c, e1, index + c.stride).writes)
         == ApplyWrites(s, Body(c, e, index).writes)
      && FinalIndex(index + c.stride, c.stride, c.Split().vecN) == FinalIndex(index, c.stride, c.Split().vecN)
  {
    var (e1, out) := Transformed(c, e);
    var group := GroupWrites(GroupBase(c, index), out, c.t.output);
    var rest := Body(c, e1, index + c.stride);
    assert Body(c, e, index) == Run(rest.engine, group + rest.writes);
    ApplyWritesConcat(s, group, rest.writes);
  }

  /**
   * The loop invariant of a lane started at `start` with engine `e0`:
   * running the rest of the loop from (`e`, `index`) on buffer `d`
   * ends where the whole loop ends, with the buffer `target`.
   */
  ghost predicate Remains<E, T>(c: Config<E, T>, e0: E, start: nat, e: E, index: nat, d: seq<T>, target: seq<T>)
    requires c.Valid()
  {
    && Body(c, e, index).engine == Body(c, e0, start).engine
    && ApplyWrites(d, Body(c, e, index).writes) == target
    && FinalIndex(index, c.stride, c.Split().vecN) == FinalIndex(start, c.stride, c.Split().vecN)
  }

  /** Once the loop condition fails, the loop is done: engine, buffer and index are final. */
  lemma RemainsDone<E, T>(c: Config<E, T>, e0: E, start: nat, e: E, index: nat, d: seq<T>, target: seq<T>)
    requires c.Valid() && index >= c.Split().vecN && Remains(c, e0, start, e, index, d, target)
    ensures e == Body(c, e0, start).engine && d == target && index == FinalIndex(start, c.stride, c.Split().vecN)
  {
  }

  /** One iteration of the grid-stride loop: draw, transform, store group `index`. */
  method LoopIteration<E, T>(c: Config<E, T>, ghost e0: E, ghost start: nat, ghost target: seq<T>,
                             engine: E, input: array<uint32>, data: array<T>, index: nat)
      returns (after: E)
    requires c.Valid() && input.Length == c.t.input && c.n <= data.Length && index < c.Split().vecN
    requires input as object != data as object
    requires Remains(c, e0, start, engine, index, data[..], target)
    modifies input, data
    ensures Remains(c, e0, start, after, index + c.stride, data[..], target)
  {
    ghost var before := data[..];
    var output;
    after, output := DrawAndTransform(c, engine, input);
    StoreGroup(c, data, index, output);
    LoopStep(c, engine, index, before);
  }

  /** The grid-stride loop of one lane, from `start` on, leaving `index` where the loop exits. */
  method LaneLoop<E, T>(c: Config<E, T>, engine: E, input: array<uint32>, data: array<T>, start: nat)
      returns (after: E, index: nat)
    requires c.Valid() && input.Length == c.t.input && c.n <= data.Length
    requires input as object != data as object
    modifies input, data
    ensures after == Body(c, engine, start).engine
    ensures data[..] == ApplyWrites(old(data[..]), Body(c, engine, start).writes)
    ensures index == FinalIndex(start, c.stride, c.Split().vecN)
  {
    index := start;
    after := engine;
    // the buffer once the rest of the loop has run
    ghost var target := ApplyWrites(data[..], Body(c, engine, start).writes);
    var vecN := c.Split().vecN;
    while index < vecN
      invariant Remains(c, engine, start, after, index, data[..], target)
      decreases vecN - index
    {
      after := LoopIteration(c, engine, start, target, after, input, data, index);
      index := index + c.stride;
    }
    RemainsDone(c, engine, start, after, index, data[..], target);
  }

  /** For the lane that ends on `vec_n`, its writes are the body's, then the head's, then the tail's. */
  lemma RunLaneApply<E, T>(c: Config<E, T>, lane: nat, e: E, s: seq<T>)
    requires c.Valid() && c.t.output > 1 && FinalIndex(lane, c.stride, c.Split().vecN) == c.Split().vecN
    ensures var body := Body(c, e, lane);
      var head := Partial(c, body.engine, 0, c.Split().head);
      var tail := Partial(c, head.engine, c.n - c.Split().tail, c.Split().tail);
      && RunLane(c, lane, e).engine == tail.engine
      && ApplyWrites(s, RunLane(c, lane, e).writes) == ApplyWrites(ApplyWrites(ApplyWrites(s, body.writes), head.writes), tail.writes)
  {
    var body := Body(c, e, lane);
    var head := Partial(c, body.engine, 0, c.Split().head);
    var tail := Partial(c, head.engine, c.n - c.Split().tail, c.Split().tail);
    ApplyWritesConcat3(s, body.writes, head.writes, tail.writes);
  }

  /**
   * The head or the tail: `if (count > 0)`, one more draw and transform
   * of which the first `count` values are stored from `base` on.
   */
  method StorePartial<E, T>(c: Config<E, T>, engine: E, input: array<uint32>, data: array<T>, base: nat, count: nat)
      returns (after: E)
    requires c.Valid() && input.Length == c.t.input && count <= c.t.output && base + count <= data.Length
    requires input as object != data as object
    modifies input, data
    ensures after == Partial(c, engine, base, count).engine
    ensures data[..] == ApplyWrites(old(data[..]), Partial(c, engine, base, count).writes)
  {
    after := engine;
    if count > 0 {
      var output;
      after, output := DrawAndTransform(c, engine, input);
      StorePrefix(data, base, output, count);
    }
  }

  /** One lane of `generate_kernel`: its grid-stride loop, the head and tail if it ends on `vec_n`, and the engine write-back. */
  method GenerateLane<E, T>(c: Config<E, T>, engines: array<E>, data: array<T>, lane: nat)
    requires c.Valid() && lane < engines.Length && c.n <= data.Length
    requires engines as object != data as object
    modifies engines, data
    ensures data[..] == ApplyWrites(old(data[..]), RunLane(c, lane, old(engines[lane])).writes)
    ensures engines[..] == old(engines[..])[lane := RunLane(c, lane, old(engines[lane])).engine]
  {
    var engine := engines[lane];
    var input := new uint32[c.t.input];
    var after, index := LaneLoop(c, engine, input, data, lane);
    if c.t.output > 1 && index == c.Split().vecN {
      // the lane that would store the next group stores the head and the tail
      EndsFit(c);
      RunLaneApply(c, lane, engine, old(data[..]));
      after := StorePartial(c, after, input, data, 0, c.Split().head);
      after := StorePartial(c, after, input, data, c.n - c.Split().tail, c.Split().tail);
    }
    engines[lane] := after;
  }

  /**
   * `generate_kernel` over all `stride` lanes: the buffer receives the
   * writes of every lane, and every lane's advanced engine is stored
   * back in its own slot.
   */
  method GenerateKernel<E, T>(c: Config<E, T>, engines: array<E>, data: array<T>)
    requires c.Valid() && c.stride == engines.Length && c.n <= data.Length
    requires engines as object != data as object
    modifies engines, data
    ensures data[..] == ApplyWrites(old(data[..]), KernelWrites(c, old(engines[..]), c.stride))
    ensures engines[..] == FinalEngines(c, old(engines[..]))
  {
    ghost var initial := engines[..];
    ghost var s0 := data[..];
    ghost var final := FinalEngines(c, initial);
    for lane := 0 to c.stride
      invariant data[..] == ApplyWrites(s0, KernelWrites(c, initial, lane))
      invariant forall j :: 0 <= j < lane ==> engines[j] == final[j]
      invariant forall j :: lane <= j < c.stride ==> engines[j] == initial[j]
    {
      GenerateLane(c, engines, data, lane);
      ApplyWritesConcat(s0, KernelWrites(c, initial, lane), RunLane(c, lane, initial[lane]).writes);
    }
  }
}
