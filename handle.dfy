/**
 * The host-side generator handle `rocrand_mrg32k3a`: a seed, an offset,
 * the engine array it owns and a flag that says whether the engines
 * have been seeded for the current seed and offset. Kernel launches and
 * device allocation either succeed or fail; which one is outside the
 * model, so each is a nondeterministic choice.
 */
module Generator {
  import opened Types
  import opened Transforms
  import opened Writes
  import opened KernelSpec
  import opened Kernel

  /** The `rocrand_status` values the handle returns. */
  datatype Status = Success | AllocationFailed | LaunchFailure | OutOfRange

  /** `ROCRAND_MRG32K3A_DEFAULT_SEED`, which stands in for a seed of 0. */
  const DEFAULT_SEED: uint64 := 12345

  /** The seed the handle keeps for a requested seed: 0 is replaced by the default, any other seed is kept. */
  function EffectiveSeed(seed: uint64): (s: uint64)
    ensures s != 0
    ensures seed != 0 <==> s == seed
    ensures seed == 0 ==> s == DEFAULT_SEED
  {
    if seed == 0 then DEFAULT_SEED else seed
  }

  /** `hipLaunchKernelGGL` followed by `hipPeekAtLastError() == hipSuccess`. */
  method LaunchSucceeds() returns (ok: bool)
  {
    ok := *;
  }

  /** `hipMalloc` of the engine array succeeds. */
  method AllocationSucceeds() returns (ok: bool)
  {
    ok := *;
  }

  /**
   * `m_poisson.set_lambda(lambda)`: a non-positive lambda is out of
   * range; otherwise the lambda-specific table is built, which needs
   * device memory.
   */
  method SetLambda(lambda: real) returns (st: Status)
    ensures st == Success || st == OutOfRange || st == AllocationFailed
    ensures st == OutOfRange <==> lambda <= 0.0
  {
    if lambda <= 0.0 {
      return OutOfRange;
    }
    var ok := AllocationSucceeds();
    st := if ok then Success else AllocationFailed;
  }

  class Mrg32k3a<E(0)> {
    /** `m_seed`, `m_offset`, `m_engines_initialized`. */
    var seed: uint64
    var offset: uint64
    var initialized: bool
    /** `m_engines`: one engine per lane, `m_engines_size` of them. */
    const engines: array<E>
    /** The engine constructor `mrg32k3a_device_engine(seed, engine_id, offset)`. */
    const seedEngine: (uint64, nat, uint64) -> E
    /** The engine's `operator()`: the next state and the value drawn. */
    const next: E -> (E, uint32)

    /** The stored seed is never 0 and there is at least one lane. */
    ghost predicate Valid()
      reads this
    {
      seed != 0 && engines.Length > 0
    }

    /** The engines a generation starts from: the current ones once seeded, else those `init` is about to seed. */
    ghost function StartEngines(wasInitialized: bool, current: seq<E>): seq<E>
      reads this
    {
      if wasInitialized then current else SeededEngines(seedEngine, seed, offset, engines.Length)
    }

    /** The launch configuration of `generate_kernel` for a buffer of `n` elements of `size` bytes at byte `address`. */
    function LaunchConfig<T>(t: Transform<T>, n: nat, address: nat, size: nat): Config<E, T>
      reads this
    {
      Config(next, t, n, address, size, engines.Length)
    }

    /** The constructor once `hipMalloc` has succeeded: not yet initialised, seed 0 replaced by the default. */
    constructor (seed: uint64, offset: uint64, lanes: nat, seedEngine: (uint64, nat, uint64) -> E, next: E -> (E, uint32))
      requires lanes > 0
      ensures Valid() && fresh(engines) && engines.Length == lanes
      ensures this.seed == EffectiveSeed(seed) && this.offset == offset && !initialized
      ensures this.seedEngine == seedEngine && this.next == next
    {
      this.seed := EffectiveSeed(seed);
      this.offset := offset;
      this.initialized := false;
      this.engines := new E[lanes];
      this.seedEngine := seedEngine;
      this.next := next;
    }

    /** `reset()`: forget the seeding, keep seed and offset. */
    method Reset()
      requires Valid()
      modifies this
      ensures Valid() && !initialized
      ensures seed == old(seed) && offset == old(offset)
    {
      initialized := false;
    }

    /** `set_seed(seed)`: store the effective seed and forget the seeding. */
    method SetSeed(seed: uint64)
      requires Valid()
      modifies this
      ensures Valid() && !initialized
      ensures this.seed == EffectiveSeed(seed) && offset == old(offset)
    {
      this.seed := EffectiveSeed(seed);
      initialized := false;
    }

    /** `set_offset(offset)`: store the offset and forget the seeding. */
    method SetOffset(offset: uint64)
      requires Valid()
      modifies this
      ensures Valid() && !initialized
      ensures this.offset == offset && seed == old(seed)
    {
      this.offset := offset;
      initialized := false;
    }

    /**
     * `init()`: nothing to do once initialised; otherwise launch
     * `init_engines_kernel`, and on success mark the engines seeded.
     */
    method Init() returns (st: Status)
      requires Valid()
      modifies this, engines
      ensures Valid() && seed == old(seed) && offset == old(offset)
      ensures st == Success || st == LaunchFailure
      ensures initialized <==> st == Success
      ensures old(initialized) ==> st == Success && engines[..] == old(engines[..])
      ensures !old(initialized) && st == Success ==> engines[..] == SeededEngines(seedEngine, seed, offset, engines.Length)
      ensures st == LaunchFailure ==> !old(initialized) && engines[..] == old(engines[..])
    {
      if initialized {
        return Success;
      }
      var ok := LaunchSucceeds();
      if !ok {
        return LaunchFailure;
      }
      InitEngines(engines, seedEngine, seed, offset);
      initialized := true;
      st := Success;
    }

    /**
     * `generate(data, n, distribution)`: `init()` first, returning its
     * failure as is; then launch `generate_kernel` over all lanes.
     */
    method Generate<T>(data: array<T>, n: nat, address: nat, size: nat, t: Transform<T>) returns (st: Status)
      requires Valid() && t.Valid() && size > 0 && n <= data.Length
      requires data as object != engines as object
      modifies this, engines, data
      ensures Valid() && seed == old(seed) && offset == old(offset)
      ensures st == Success || st == LaunchFailure
      ensures old(initialized) ==> initialized
      ensures st == Success ==> initialized
      ensures !initialized ==> st == LaunchFailure && engines[..] == old(engines[..])
      ensures st == LaunchFailure && initialized ==> engines[..] == StartEngines(old(initialized), old(engines[..]))
      ensures st != Success ==> data[..] == old(data[..])
      ensures st == Success ==>
        var start := StartEngines(old(initialized), old(engines[..]));
        var c := LaunchConfig(t, n, address, size);
        && data[..] == ApplyWrites(old(data[..]), KernelWrites(c, start, c.stride))
        && engines[..] == FinalEngines(c, start)
    {
      st := Init();
      if st != Success {
        return;
      }
      ghost var start := engines[..];
      assert start == StartEngines(old(initialized), old(engines[..]));
      var ok := LaunchSucceeds();
      if !ok {
        return LaunchFailure;
      }
      var c := LaunchConfig(t, n, address, size);
      GenerateKernel(c, engines, data);
      st := Success;
    }

    /**
     * `generate_uniform`, `generate_normal`, `generate_log_normal`:
     * construct the functor of kind `k` (its numeric body `f`, with
     * mean and deviation folded into it) and call `generate`.
     */
    method GenerateOf<T>(k: Kind, f: seq<uint32> -> seq<T>, data: array<T>, n: nat, address: nat) returns (st: Status)
      requires Valid() && Specialised(k) && n <= data.Length
      requires forall ins: seq<uint32> :: |ins| == WidthsOf(k).input ==> |f(ins)| == WidthsOf(k).output
      requires data as object != engines as object
      modifies this, engines, data
      ensures Valid() && seed == old(seed) && offset == old(offset)
      ensures st == Success || st == LaunchFailure
      ensures old(initialized) ==> initialized
      ensures st == Success ==> initialized
      ensures !initialized ==> st == LaunchFailure && engines[..] == old(engines[..])
      ensures st == LaunchFailure && initialized ==> engines[..] == StartEngines(old(initialized), old(engines[..]))
      ensures st != Success ==> data[..] == old(data[..])
      ensures st == Success ==>
        var start := StartEngines(old(initialized), old(engines[..]));
        var c := LaunchConfig(TransformOf(k, f), n, address, SizeOf(k.ty));
        && data[..] == ApplyWrites(old(data[..]), KernelWrites(c, start, c.stride))
        && engines[..] == FinalEngines(c, start)
    {
      st := Generate(data, n, address, SizeOf(k.ty), TransformOf(k, f));
    }

    /**
     * `generate_poisson(data, n, lambda)`: `set_lambda` first, returning
     * the status it throws without touching anything; then `generate`
     * with the 1-to-1 Poisson functor `dis`.
     */
    method GeneratePoisson(data: array<uint32>, n: nat, address: nat, lambda: real, dis: seq<uint32> -> seq<uint32>)
        returns (st: Status)
      requires Valid() && n <= data.Length
      requires forall ins: seq<uint32> :: |ins| == 1 ==> |dis(ins)| == 1
      requires data as object != engines as object
      modifies this, engines, data
      ensures Valid() && seed == old(seed) && offset == old(offset)
      ensures st == Success ==>
        var start := StartEngines(old(initialized), old(engines[..]));
        var c := LaunchConfig(Transform(1, 1, dis), n, address, 4);
        && data[..] == ApplyWrites(old(data[..]), KernelWrites(c, start, c.stride))
        && engines[..] == FinalEngines(c, start)
      ensures st == OutOfRange <==> lambda <= 0.0
      ensures st != Success ==> data[..] == old(data[..])
      ensures st != Success && st != LaunchFailure ==> initialized == old(initialized) && engines[..] == old(engines[..])
      ensures old(initialized) ==> initialized
      ensures st == Success ==> initialized
      ensures st == LaunchFailure && !initialized ==> engines[..] == old(engines[..])
      ensures st == LaunchFailure && initialized ==> engines[..] == StartEngines(old(initialized), old(engines[..]))
    {
      st := SetLambda(lambda);
      if st != Success {
        return;
      }
      var t := Transform(1, 1, dis);
      st := Generate(data, n, address, 4, t);
    }
  }

  /** The constructor with its allocation: `ROCRAND_STATUS_ALLOCATION_FAILED` when `hipMalloc` fails. */
  method Create<E(0)>(seed: uint64, offset: uint64, lanes: nat, seedEngine: (uint64, nat, uint64) -> E, next: E -> (E, uint32))
      returns (st: Status, g: Option<Mrg32k3a<E>>)
    requires lanes > 0
    ensures st == Success || st == AllocationFailed
    ensures st == AllocationFailed <==> g.None?
    ensures g.Some? ==> fresh(g.value) && g.value.Valid() && !g.value.initialized
    ensures g.Some? ==> g.value.seed == EffectiveSeed(seed) && g.value.offset == offset && g.value.engines.Length == lanes
    ensures g.Some? ==> fresh(g.value.engines) && g.value.seedEngine == seedEngine && g.value.next == next
  {
    var ok := AllocationSucceeds();
    if !ok {
      return AllocationFailed, None;
    }
    var h := new Mrg32k3a(seed, offset, lanes, seedEngine, next);
    return Success, Some(h);
  }
}
