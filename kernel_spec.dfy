/**
 * What `generate_kernel` does, lane by lane, as pure functions: the
 * engine draws, the ordered log of element writes, and the engine each
 * lane hands back. The lemmas prove that over all lanes every element
 * of `[0, n)` is written exactly once and nothing else is written, and
 * how many draws each lane makes.
 */
module KernelSpec {
  import opened Types
  import opened Layout
  import opened Lanes
  import opened Transforms
  import opened Writes

  /** The state reached from engine `e` after `k` calls of `engine()`. */
  function Advance<E>(next: E -> (E, uint32), e: E, k: nat): E
  {
    if k == 0 then e else next(Advance(next, e, k - 1)).0
  }

  lemma {:induction false} AdvanceAdd<E>(next: E -> (E, uint32), e: E, a: nat, b: nat)
    ensures Advance(next, Advance(next, e, a), b) == Advance(next, e, a + b)
    decreases b
  {
    if b > 0 {
      AdvanceAdd(next, e, a, b - 1);
    }
  }

  /**
   * `for (i = 0; i < k; i++) input[i] = engine();`: the engine after `k`
   * calls and the `k` values drawn, which are the next `k` outputs of
   * the engine's stream in order.
   */
  function Draws<E>(next: E -> (E, uint32), e: E, k: nat): (r: (E, seq<uint32>))
    ensures |r.1| == k
    ensures r.0 == Advance(next, e, k)
  {
    if k == 0 then (e, [])
    else
      var (e1, vs) := Draws(next, e, k - 1);
      var (e2, v) := next(e1);
      (e2, vs + [v])
  }

  /** The `i`-th value drawn is the output of the `i`-th step of the engine's stream. */
  lemma {:induction false} DrawsValues<E>(next: E -> (E, uint32), e: E, k: nat, i: nat)
    requires i < k
    ensures Draws(next, e, k).1[i] == next(Advance(next, e, i)).1
  {
    if i < k - 1 {
      DrawsValues(next, e, k - 1, i);
    }
  }

  /** The writes `data[base + o] = out[o]` for `o < count`, in increasing `o`. */
  function GroupWrites<T>(base: nat, out: seq<T>, count: nat): (ws: seq<Write<T>>)
    requires count <= |out|
    ensures |ws| == count
  {
    if count == 0 then [] else GroupWrites(base, out, count - 1) + [Write(base + count - 1, out[count - 1])]
  }

  /** Storing one more element of a group updates that one element. */
  lemma GroupWritesStep<T>(s: seq<T>, base: nat, out: seq<T>, o: nat)
    requires o < |out| && base + o < |s|
    ensures ApplyWrites(s, GroupWrites(base, out, o + 1)) == ApplyWrites(s, GroupWrites(base, out, o))[base + o := out[o]]
  {
    ApplyWritesSnoc(s, GroupWrites(base, out, o), Write(base + o, out[o]));
  }

  /** Write `o` of a group stores `out[o]` at `base + o`. */
  lemma {:induction false} GroupWritesAt<T>(base: nat, out: seq<T>, count: nat, o: nat)
    requires o < count <= |out|
    ensures GroupWrites(base, out, count)[o] == Write(base + o, out[o])
  {
    if o < count - 1 {
      GroupWritesAt(base, out, count - 1, o);
    }
  }

  /** A group of `count` writes from `base` stays in `[base, base + count)`. */
  lemma GroupWithin<T>(base: nat, out: seq<T>, count: nat)
    requires count <= |out|
    ensures WithinRange(GroupWrites(base, out, count), base, base + count)
  {
    forall k | 0 <= k < count
      ensures base <= GroupWrites(base, out, count)[k].addr < base + count
    {
      GroupWritesAt(base, out, count, k);
    }
  }

  /**
   * One launch of `generate_kernel`: the engine's `next`, the transform,
   * `n`, the byte address of `data`, `sizeof(T)` and the lane count
   * `stride` (grid size times block size).
   */
  datatype Config<!E, T> = Config(next: E -> (E, uint32), t: Transform<T>, n: nat, address: nat, size: nat, stride: nat)
  {
    ghost predicate Valid() {
      stride > 0 && size > 0 && t.Valid()
    }

    function Split(): Split
      requires size > 0 && t.output > 0
    {
      SplitBuffer(n, address, size, t.output)
    }
  }

  /** What a stretch of a lane's work leaves: its engine and the writes it made. */
  datatype Run<E, T> = Run(engine: E, writes: seq<Write<T>>)

  /** Draw `input_width` values and apply the distribution once. */
  function Transformed<E, T>(c: Config<E, T>, e: E): (r: (E, seq<T>))
    requires c.Valid()
    ensures |r.1| == c.t.output
    ensures r.0 == Advance(c.next, e, c.t.input)
  {
    var (e1, ins) := Draws(c.next, e, c.t.input);
    (e1, c.t.f(ins))
  }

  /** The element index where body group `index` starts: `vec_data + index` is `data + misalignment + index * output_width`. */
  function GroupBase<E, T>(c: Config<E, T>, index: nat): nat
    requires c.Valid()
  {
    c.Split().misalignment + index * c.t.output
  }

  /** The grid-stride loop of one lane from `index` on: one full group per iteration. */
  function Body<E, T>(c: Config<E, T>, e: E, index: nat): Run<E, T>
    requires c.Valid()
    decreases c.Split().vecN - index
  {
    var sp := c.Split();
    if index >= sp.vecN then Run(e, [])
    else
      var (e1, out) := Transformed(c, e);
      var rest := Body(c, e1, index + c.stride);
      Run(rest.engine, GroupWrites(GroupBase(c, index), out, c.t.output) + rest.writes)
  }

  /** The head or the tail: one full transform of which only the first `count` values are stored at `base`. */
  function Partial<E, T>(c: Config<E, T>, e: E, base: nat, count: nat): Run<E, T>
    requires c.Valid() && count <= c.t.output
  {
    if count == 0 then Run(e, [])
    else
      var (e1, out) := Transformed(c, e);
      Run(e1, GroupWrites(base, out, count))
  }

  /** Everything lane `lane` does, starting from engine `e`. */
  function RunLane<E, T>(c: Config<E, T>, lane: nat, e: E): Run<E, T>
    requires c.Valid()
  {
    var sp := c.Split();
    var body := Body(c, e, lane);
    if c.t.output > 1 && FinalIndex(lane, c.stride, sp.vecN) == sp.vecN then
      var head := Partial(c, body.engine, 0, sp.head);
      var tail := Partial(c, head.engine, c.n - sp.tail, sp.tail);
      Run(tail.engine, body.writes + head.writes + tail.writes)
    else body
  }

  /** The write log of every lane, lane by lane. */
  function LaneLogs<E, T>(c: Config<E, T>, engines: seq<E>): (logs: seq<seq<Write<T>>>)
    requires c.Valid()
    ensures |logs| == |engines|
    ensures forall lane :: 0 <= lane < |engines| ==> logs[lane] == RunLane(c, lane, engines[lane]).writes
  {
    seq(|engines|, lane requires 0 <= lane < |engines| => RunLane(c, lane, engines[lane]).writes)
  }

  /** The writes of lanes `0 .. count-1`, lane after lane. */
  function KernelWrites<E, T>(c: Config<E, T>, engines: seq<E>, count: nat): seq<Write<T>>
    requires c.Valid() && count <= |engines|
  {
    Flatten(LaneLogs(c, engines), count)
  }

  /** `engines[engine_id] = engine` for every lane. */
  function FinalEngines<E, T>(c: Config<E, T>, engines: seq<E>): (r: seq<E>)
    requires c.Valid()
    ensures |r| == |engines|
    ensures forall lane :: 0 <= lane < |engines| ==> r[lane] == RunLane(c, lane, engines[lane]).engine
  {
    seq(|engines|, lane requires 0 <= lane < |engines| => RunLane(c, lane, engines[lane]).engine)
  }

  /** Lane `lane` is the one that writes the head and the tail. */
  predicate WritesHeadAndTail<E, T>(c: Config<E, T>, lane: nat)
    requires c.size > 0 && c.t.output > 0 && c.stride > 0
  {
    c.t.output > 1 && lane == c.Split().vecN % c.stride
  }

  /** `SplitPartition` for the buffer of a launch. */
  lemma ConfigPartition<E, T>(c: Config<E, T>)
    requires c.Valid()
    ensures c.Split().head + c.Split().vecN * c.t.output + c.Split().tail == c.n
  {
    SplitPartition(c.n, c.address, c.size, c.t.output);
  }

  /** The head and the tail fit in the buffer side by side. */
  lemma EndsFit<E, T>(c: Config<E, T>)
    requires c.Valid()
    ensures c.Split().head + c.Split().tail <= c.n
  {
    ConfigPartition(c);
  }

  /** `BodyGroupInBuffer` for the buffer of a launch. */
  lemma GroupInBuffer<E, T>(c: Config<E, T>, index: nat)
    requires c.Valid() && index < c.Split().vecN
    ensures c.Split().head <= GroupBase(c, index)
    ensures GroupBase(c, index) + c.t.output <= c.n - c.Split().tail
  {
    BodyGroupInBuffer(c.n, c.address, c.size, c.t.output, index);
  }

  // ---------------------------------------------------------------
  // Sizes

  lemma {:induction false} BodyLength<E, T>(c: Config<E, T>, e: E, index: nat)
    requires c.Valid()
    ensures |Body(c, e, index).writes| == c.t.output * Iterations(index, c.stride, c.Split().vecN)
    decreases c.Split().vecN - index
  {
    var sp := c.Split();
    if index < sp.vecN {
      var (e1, out) := Transformed(c, e);
      var gw := GroupWrites(sp.misalignment + index * c.t.output, out, c.t.output);
      var rest := Body(c, e1, index + c.stride);
      assert Body(c, e, index).writes == gw + rest.writes;
      BodyLength(c, e1, index + c.stride);
      Distribute(c.t.output, 1, Iterations(index + c.stride, c.stride, sp.vecN));
    }
  }

  /** A lane writes `output_width` elements per iteration, plus the head and the tail if it is the designated lane. */
  lemma {:induction false} LaneWritesLength<E, T>(c: Config<E, T>, lane: nat, e: E)
    requires c.Valid() && lane < c.stride
    ensures |RunLane(c, lane, e).writes| == LaneLength(c, lane)
  {
    BodyLength(c, e, lane);
    EndsOnVecN(lane, c.stride, c.Split().vecN);
  }

  /** The number of elements lane `lane` writes. */
  function LaneLength<E, T>(c: Config<E, T>, lane: nat): nat
    requires c.Valid()
  {
    c.t.output * Iterations(lane, c.stride, c.Split().vecN)
      + (if WritesHeadAndTail(c, lane) then c.Split().head + c.Split().tail else 0)
  }

  /** The number of elements lanes `0 .. count-1` write. */
  function KernelLength<E, T>(c: Config<E, T>, count: nat): nat
    requires c.Valid()
  {
    if count == 0 then 0 else KernelLength(c, count - 1) + LaneLength(c, count - 1)
  }

  lemma {:induction false} KernelWritesLength<E, T>(c: Config<E, T>, engines: seq<E>, count: nat)
    requires c.Valid() && count <= |engines| && count <= c.stride
    ensures |KernelWrites(c, engines, count)| == KernelLength(c, count)
  {
    if count > 0 {
      KernelWritesLength(c, engines, count - 1);
      LaneWritesLength(c, count - 1, engines[count - 1]);
    }
  }

  lemma {:induction false} KernelLengthClosed<E, T>(c: Config<E, T>, count: nat)
    requires c.Valid() && count <= c.stride
    ensures KernelLength(c, count)
         == c.t.output * SumIterations(count, c.stride, c.Split().vecN)
          + (if c.t.output > 1 && c.Split().vecN % c.stride < count then c.Split().head + c.Split().tail else 0)
  {
    if count > 0 {
      var sp := c.Split();
      var sum := SumIterations(count - 1, c.stride, sp.vecN);
      var it := Iterations(count - 1, c.stride, sp.vecN);
      KernelLengthClosed(c, count - 1);
      Distribute(c.t.output, sum, it);
    }
  }

  /** All lanes together write exactly `n` elements. */
  lemma {:induction false} KernelWritesCount<E, T>(c: Config<E, T>, engines: seq<E>)
    requires c.Valid() && |engines| == c.stride
    ensures |KernelWrites(c, engines, c.stride)| == c.n
  {
    var sp := c.Split();
    KernelWritesLength(c, engines, c.stride);
    KernelLengthClosed(c, c.stride);
    SplitPartition(c.n, c.address, c.size, c.t.output);
    SumIterationsIsVecN(c.stride, sp.vecN);
    assert c.t.output * sp.vecN == sp.vecN * c.t.output;
    assert sp.vecN % c.stride < c.stride;
  }

  // ---------------------------------------------------------------
  // Bounds

  lemma {:induction false} BodyWithin<E, T>(c: Config<E, T>, e: E, index: nat)
    requires c.Valid()
    ensures WithinRange(Body(c, e, index).writes, c.Split().head, c.n - c.Split().tail)
    decreases c.Split().vecN - index
  {
    var sp := c.Split();
    if index < sp.vecN {
      var (e1, out) := Transformed(c, e);
      BodyWithin(c, e1, index + c.stride);
      BodyGroupInBuffer(c.n, c.address, c.size, c.t.output, index);
      GroupWithin(sp.misalignment + index * c.t.output, out, c.t.output);
    }
  }

  /** The head or the tail writes only its own `count` elements from `base` on. */
  lemma PartialWithin<E, T>(c: Config<E, T>, e: E, base: nat, count: nat)
    requires c.Valid() && count <= c.t.output
    ensures WithinRange(Partial(c, e, base, count).writes, base, base + count)
  {
    if count > 0 {
      GroupWithin(base, Transformed(c, e).1, count);
    }
  }

  /** A lane writes only inside `[0, n)`. */
  lemma LaneWithin<E, T>(c: Config<E, T>, lane: nat, e: E)
    requires c.Valid()
    ensures WithinRange(RunLane(c, lane, e).writes, 0, c.n)
  {
    var sp := c.Split();
    var body := Body(c, e, lane);
    EndsFit(c);
    BodyWithin(c, e, lane);
    WithinWiden(body.writes, sp.head, c.n - sp.tail, 0, c.n);
    if c.t.output > 1 && FinalIndex(lane, c.stride, sp.vecN) == sp.vecN {
      var head := Partial(c, body.engine, 0, sp.head);
      var tail := Partial(c, head.engine, c.n - sp.tail, sp.tail);
      PartialWithin(c, body.engine, 0, sp.head);
      PartialWithin(c, head.engine, c.n - sp.tail, sp.tail);
      WithinWiden(head.writes, 0, sp.head, 0, c.n);
      WithinWiden(tail.writes, c.n - sp.tail, c.n, 0, c.n);
      WithinConcat(body.writes, head.writes, 0, c.n);
      WithinConcat(body.writes + head.writes, tail.writes, 0, c.n);
    }
  }

  lemma {:induction false} KernelWithin<E, T>(c: Config<E, T>, engines: seq<E>, count: nat)
    requires c.Valid() && count <= |engines|
    ensures WithinRange(KernelWrites(c, engines, count), 0, c.n)
  {
    var logs := LaneLogs(c, engines);
    forall lane | 0 <= lane < count
      ensures WithinRange(logs[lane], 0, c.n)
    {
      LaneWithin(c, lane, engines[lane]);
    }
    FlattenWithin(logs, count, 0, c.n);
  }

  // ---------------------------------------------------------------
  // Coverage

  lemma {:induction false} GroupCovers<T>(base: nat, out: seq<T>, count: nat, o: nat)
    requires o < count <= |out|
    ensures base + o in Addrs(GroupWrites(base, out, count))
  {
    GroupWritesAt(base, out, count, o);
    assert Addrs(GroupWrites(base, out, count))[o] == base + o;
  }

  /** The loop of a lane that starts at `index` stores every group `g` congruent to `index` in `[index, vec_n)`. */
  lemma {:induction false} BodyCovers<E, T>(c: Config<E, T>, e: E, index: nat, g: nat, j: nat)
    requires c.Valid() && index <= g < c.Split().vecN && g % c.stride == index % c.stride && j < c.t.output
    ensures c.Split().misalignment + g * c.t.output + j in Addrs(Body(c, e, index).writes)
    decreases g - index
  {
    var sp := c.Split();
    var (e1, out) := Transformed(c, e);
    var gw := GroupWrites(sp.misalignment + index * c.t.output, out, c.t.output);
    var rest := Body(c, e1, index + c.stride);
    AddrsConcat(gw, rest.writes);
    if g == index {
      GroupCovers(sp.misalignment + index * c.t.output, out, c.t.output, j);
    } else {
      if g < index + c.stride {
        SameResidueClose(index, g, c.stride);
      }
      ModAddStride(index, c.stride);
      BodyCovers(c, e1, index + c.stride, g, j);
    }
  }

  /** The lanes before `count` include lane `lane`'s writes. */
  lemma KernelIncludesLane<E, T>(c: Config<E, T>, engines: seq<E>, count: nat, lane: nat, a: nat)
    requires c.Valid() && lane < count <= |engines|
    requires a in Addrs(RunLane(c, lane, engines[lane]).writes)
    ensures a in Addrs(KernelWrites(c, engines, count))
  {
    FlattenIncludes(LaneLogs(c, engines), count, lane, a);
  }

  /** The head and the tail are written by lane `vec_n % stride`. */
  lemma {:induction false} HeadTailCovered<E, T>(c: Config<E, T>, engines: seq<E>, a: nat)
    requires c.Valid() && |engines| == c.stride && a < c.n
    requires a < c.Split().head || a >= c.n - c.Split().tail
    ensures a in Addrs(RunLane(c, c.Split().vecN % c.stride, engines[c.Split().vecN % c.stride]).writes)
    ensures a in Addrs(KernelWrites(c, engines, c.stride))
  {
    var sp := c.Split();
    var lane := sp.vecN % c.stride;
    UniqueHeadTailLane(c.stride, sp.vecN);
    var e := engines[lane];
    var body := Body(c, e, lane);
    var head := Partial(c, body.engine, 0, sp.head);
    var tail := Partial(c, head.engine, c.n - sp.tail, sp.tail);
    assert c.t.output > 1;
    assert RunLane(c, lane, e).writes == body.writes + head.writes + tail.writes;
    AddrsConcat(body.writes, head.writes);
    AddrsConcat(body.writes + head.writes, tail.writes);
    if a < sp.head {
      GroupCovers(0, Transformed(c, body.engine).1, sp.head, a);
    } else {
      GroupCovers(c.n - sp.tail, Transformed(c, head.engine).1, sp.tail, a - (c.n - sp.tail));
    }
    KernelIncludesLane(c, engines, c.stride, lane, a);
  }

  /** A lane's writes include those of its grid-stride loop. */
  lemma {:induction false} LaneIncludesBody<E, T>(c: Config<E, T>, lane: nat, e: E, a: nat)
    requires c.Valid() && a in Addrs(Body(c, e, lane).writes)
    ensures a in Addrs(RunLane(c, lane, e).writes)
  {
    var sp := c.Split();
    var body := Body(c, e, lane);
    if c.t.output > 1 && FinalIndex(lane, c.stride, sp.vecN) == sp.vecN {
      var head := Partial(c, body.engine, 0, sp.head);
      var tail := Partial(c, head.engine, c.n - sp.tail, sp.tail);
      assert RunLane(c, lane, e).writes == body.writes + (head.writes + tail.writes);
      AddrsConcat(body.writes, head.writes + tail.writes);
    }
  }

  /** Group `g`, position `j` of the body is written by lane `g % stride`. */
  lemma {:induction false} BodyCovered<E, T>(c: Config<E, T>, engines: seq<E>, g: nat, j: nat)
    requires c.Valid() && |engines| == c.stride && g < c.Split().vecN && j < c.t.output
    ensures c.Split().misalignment + g * c.t.output + j in Addrs(RunLane(c, g % c.stride, engines[g % c.stride]).writes)
    ensures c.Split().misalignment + g * c.t.output + j in Addrs(KernelWrites(c, engines, c.stride))
  {
    var sp := c.Split();
    var a := sp.misalignment + g * c.t.output + j;
    var lane := g % c.stride;
    DivModUnique(lane, c.stride, 0, lane);
    BodyCovers(c, engines[lane], lane, g, j);
    LaneIncludesBody(c, lane, engines[lane], a);
    KernelIncludesLane(c, engines, c.stride, lane, a);
  }

  /** Every element of `[0, n)` is written by some lane. */
  lemma {:induction false} KernelCovers<E, T>(c: Config<E, T>, engines: seq<E>, a: nat)
    requires c.Valid() && |engines| == c.stride && a < c.n
    ensures a in Addrs(KernelWrites(c, engines, c.stride))
  {
    var sp := c.Split();
    var ow := c.t.output;
    if a < sp.head || a >= c.n - sp.tail {
      HeadTailCovered(c, engines, a);
    } else {
      var g, j := BodyPosition(c.n, c.address, c.size, ow, a);
      BodyCovered(c, engines, g, j);
    }
  }

  /**
   * Exact coverage: the kernel's writes number `n`, lie in `[0, n)`,
   * reach every element of `[0, n)`, and no element is written twice.
   */
  lemma {:induction false} KernelWritesPartition<E, T>(c: Config<E, T>, engines: seq<E>)
    requires c.Valid() && |engines| == c.stride
    ensures |KernelWrites(c, engines, c.stride)| == c.n
    ensures WithinRange(KernelWrites(c, engines, c.stride), 0, c.n)
    ensures forall a :: 0 <= a < c.n ==> a in Addrs(KernelWrites(c, engines, c.stride))
    ensures Distinct(Addrs(KernelWrites(c, engines, c.stride)))
  {
    var ws := KernelWrites(c, engines, c.stride);
    KernelWritesCount(c, engines);
    KernelWithin(c, engines, c.stride);
    forall a | 0 <= a < c.n
      ensures a in Addrs(ws)
    {
      KernelCovers(c, engines, a);
    }
    CoverImpliesDistinct(Addrs(ws), c.n);
  }

  /**
   * The buffer after the kernel: each element of `[0, n)` holds the
   * value of its one write, and every element from `n` on is unchanged.
   */
  lemma {:induction false} KernelResult<E, T>(c: Config<E, T>, engines: seq<E>, data: seq<T>)
    requires c.Valid() && |engines| == c.stride && c.n <= |data|
    ensures var ws := KernelWrites(c, engines, c.stride);
      forall k :: 0 <= k < |ws| ==> ws[k].addr < c.n && ApplyWrites(data, ws)[ws[k].addr] == ws[k].value
    ensures var ws := KernelWrites(c, engines, c.stride);
      forall a :: c.n <= a < |data| ==> ApplyWrites(data, ws)[a] == data[a]
  {
    var ws := KernelWrites(c, engines, c.stride);
    KernelWritesPartition(c, engines);
    forall k | 0 <= k < |ws|
      ensures ws[k].addr < c.n && ApplyWrites(data, ws)[ws[k].addr] == ws[k].value
    {
      ApplyWritesDistinct(data, ws, k);
    }
    forall a | c.n <= a < |data|
      ensures ApplyWrites(data, ws)[a] == data[a]
    {
      assert a !in Addrs(ws);
      ApplyWritesUntouched(data, ws, a);
    }
  }

  // ---------------------------------------------------------------
  // Draws

  /** Full transforms lane `lane` applies: one per loop iteration, plus one each for a non-empty head and tail. */
  function LaneTransforms<E, T>(c: Config<E, T>, lane: nat): nat
    requires c.Valid()
  {
    var sp := c.Split();
    Iterations(lane, c.stride, sp.vecN)
      + (if WritesHeadAndTail(c, lane) then (if sp.head > 0 then 1 else 0) + (if sp.tail > 0 then 1 else 0) else 0)
  }

  lemma {:induction false} BodyDraws<E, T>(c: Config<E, T>, e: E, index: nat)
    requires c.Valid()
    ensures Body(c, e, index).engine == Advance(c.next, e, c.t.input * Iterations(index, c.stride, c.Split().vecN))
    decreases c.Split().vecN - index
  {
    if index < c.Split().vecN {
      var e1 := Transformed(c, e).0;
      var it := Iterations(index + c.stride, c.stride, c.Split().vecN);
      BodyDraws(c, e1, index + c.stride);
      AdvanceAdd(c.next, e, c.t.input, c.t.input * it);
      Distribute(c.t.input, 1, it);
    }
  }

  /** A head or tail draws one transform's inputs when it is non-empty, and nothing otherwise. */
  lemma {:induction false} PartialDraws<E, T>(c: Config<E, T>, e: E, base: nat, count: nat)
    requires c.Valid() && count <= c.t.output
    ensures Partial(c, e, base, count).engine == Advance(c.next, e, c.t.input * (if count > 0 then 1 else 0))
  {
  }

  /** The head and the tail together draw `input_width` values for each of them that is non-empty. */
  lemma {:induction false} HeadTailDraws<E, T>(c: Config<E, T>, x: E)
    requires c.Valid()
    ensures var sp := c.Split();
      var head := Partial(c, x, 0, sp.head);
      Partial(c, head.engine, c.n - sp.tail, sp.tail).engine
        == Advance(c.next, x, c.t.input * ((if sp.head > 0 then 1 else 0) + (if sp.tail > 0 then 1 else 0)))
  {
    var sp := c.Split();
    var iw := c.t.input;
    var h := if sp.head > 0 then 1 else 0;
    var t := if sp.tail > 0 then 1 else 0;
    var head := Partial(c, x, 0, sp.head);
    PartialDraws(c, x, 0, sp.head);
    PartialDraws(c, head.engine, c.n - sp.tail, sp.tail);
    AdvanceAdd(c.next, x, iw * h, iw * t);
    Distribute(iw, h, t);
  }

  /** Draw accounting: the engine a lane hands back has advanced by `input_width` per transform, and no more. */
  lemma {:induction false} LaneDraws<E, T>(c: Config<E, T>, lane: nat, e: E)
    requires c.Valid() && lane < c.stride
    ensures RunLane(c, lane, e).engine == Advance(c.next, e, c.t.input * LaneTransforms(c, lane))
  {
    var sp := c.Split();
    var iw := c.t.input;
    var it := Iterations(lane, c.stride, sp.vecN);
    BodyDraws(c, e, lane);
    EndsOnVecN(lane, c.stride, sp.vecN);
    var body := Body(c, e, lane);
    if WritesHeadAndTail(c, lane) {
      var ht := (if sp.head > 0 then 1 else 0) + (if sp.tail > 0 then 1 else 0);
      HeadTailDraws(c, body.engine);
      AdvanceGroups(c.next, e, iw, it, ht);
      assert LaneTransforms(c, lane) == it + ht;
    }
  }

  /** `x` groups of `w` draws, then `y` more, are `x + y` groups. */
  lemma AdvanceGroups<E>(next: E -> (E, uint32), e: E, w: nat, x: nat, y: nat)
    ensures Advance(next, Advance(next, e, w * x), w * y) == Advance(next, e, w * (x + y))
  {
    AdvanceAdd(next, e, w * x, w * y);
    Distribute(w, x, y);
  }

  lemma Distribute(a: nat, x: nat, y: nat)
    ensures a * x + a * y == a * (x + y)
  {
  }

  /** Transforms applied by lanes `0 .. count-1`. */
  function KernelTransforms<E, T>(c: Config<E, T>, count: nat): nat
    requires c.Valid()
  {
    if count == 0 then 0 else KernelTransforms(c, count - 1) + LaneTransforms(c, count - 1)
  }

  lemma {:induction false} KernelTransformsPartial<E, T>(c: Config<E, T>, count: nat)
    requires c.Valid() && count <= c.stride
    ensures KernelTransforms(c, count)
         == SumIterations(count, c.stride, c.Split().vecN)
          + (if c.t.output > 1 && c.Split().vecN % c.stride < count
             then (if c.Split().head > 0 then 1 else 0) + (if c.Split().tail > 0 then 1 else 0) else 0)
  {
    if count > 0 {
      KernelTransformsPartial(c, count - 1);
    }
  }

  /**
   * All lanes together apply the transform `vec_n` times for the body
   * and once more for each non-empty head or tail; so they draw
   * `input_width` times that many values.
   */
  lemma {:induction false} KernelTransformsTotal<E, T>(c: Config<E, T>)
    requires c.Valid()
    ensures KernelTransforms(c, c.stride)
         == c.Split().vecN + (if c.Split().head > 0 then 1 else 0) + (if c.Split().tail > 0 then 1 else 0)
  {
    KernelTransformsPartial(c, c.stride);
    SumIterationsIsVecN(c.stride, c.Split().vecN);
  }

  /** `ceil(n / w)`. */
  function CeilDiv(n: nat, w: nat): nat
    requires w > 0
  {
    (n + w - 1) / w
  }

  /**
   * The transforms applied are `ceil(n / output_width)` or one more: the
   * head and the tail each spend a whole transform on a part of a group.
   */
  lemma {:induction false} TransformsAgainstCeiling<E, T>(c: Config<E, T>)
    requires c.Valid()
    ensures CeilDiv(c.n, c.t.output) <= KernelTransforms(c, c.stride) <= CeilDiv(c.n, c.t.output) + 1
  {
    KernelTransformsTotal(c);
    var sp := c.Split();
    SplitPartition(c.n, c.address, c.size, c.t.output);
    CeilBounds(c.n, c.t.output, sp.vecN, sp.head, sp.tail);
  }

  lemma {:induction false} CeilBounds(n: nat, w: nat, v: nat, h: nat, t: nat)
    requires 0 < w && h < w && t < w && n == v * w + h + t
    ensures var ht := (if h > 0 then 1 else 0) + (if t > 0 then 1 else 0);
      CeilDiv(n, w) <= v + ht <= CeilDiv(n, w) + 1
  {
    if h + t == 0 {
      DivModUnique(n + w - 1, w, v, w - 1);
    } else if h + t <= w {
      DivModUnique(n + w - 1, w, v + 1, h + t - 1);
    } else {
      DivModUnique(n + w - 1, w, v + 2, h + t - 1 - w);
    }
  }

  /** With `output_width == 2`, one element misaligned and `n == 2`, two transforms fill two elements. */
  lemma CeilingExceeded<E, T>(c: Config<E, T>)
    requires c.Valid() && c.t.output == 2 && c.n == 2 && c.size == 4 && c.address == 4
    ensures KernelTransforms(c, c.stride) == 2 && CeilDiv(c.n, c.t.output) == 1
  {
    KernelTransformsTotal(c);
    assert c.Split() == Split(1, 1, 0, 1);
  }
}
