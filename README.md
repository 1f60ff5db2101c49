# rocRAND MRG32K3A generation core in Dafny

This project models the part of rocRAND's MRG32K3A generator that is
in `library/src/rng/mrg32k3a.hpp`. It has three parts.

- **`generate_kernel`** fills an output buffer of `n` elements of type `T`
  that starts at an arbitrary element offset.
  - The buffer is split into a scalar **head** of `min(n, misalignment)`
    elements, a **body** of `vec_n` groups of `output_width` elements, and a
    scalar **tail** of `(n - head) % output_width` elements. The groups are
    stored as aligned vectors.
  - A grid-stride loop over `stride` lanes fills the body. Lane `engine_id`
    handles groups `engine_id, engine_id + stride, ...`.
  - Exactly one lane writes the head and the tail: the one whose loop exits
    with `index == vec_n`. Each of the two takes one full transform and
    stores only its first `head_size` or `tail_size` outputs.
  - Every lane takes `input_width` draws from its engine per transform and
    stores the advanced engine back in its own slot.
- **`init_engines_kernel`** seeds lane `engine_id` with the engine for
  `(seed, engine_id, offset)`.
- **The distribution functors** declare how many raw 32-bit draws each one
  consumes (`input_width`) and how many values it produces
  (`output_width`).
- **The `rocrand_mrg32k3a` handle** holds the seed, the offset and the
  "engines initialised" flag.
  - A seed of 0 is replaced by `ROCRAND_MRG32K3A_DEFAULT_SEED`.
  - `reset`, `set_seed` and `set_offset` drop the flag.
  - `init` launches `init_engines_kernel` only when the flag is down.
  - `generate` calls `init`, then launches `generate_kernel`.
  - `generate_poisson` calls `set_lambda` first.

The modules follow that structure:

| module | file | contents |
|---|---|---|
| `Types` | types.dfy | machine integers, `Option`, `Min` |
| `Layout` | layout.dfy | `misalignment`, `head_size`, `vec_n` and `tail_size`, and the lemmas that place each group |
| `Lanes` | lanes.dfy | the grid-stride loop: exit index, iteration counts, which lane ends on `vec_n` |
| `Transforms` | transforms.dfy | the width table of the `mrg_*_distribution` specialisations and the half-precision draw split |
| `Writes` | writes.dfy | the effect of a kernel on the buffer, as an ordered log of element writes |
| `KernelSpec` | kernel_spec.dfy | what each lane does, as pure functions, with its lemmas: bounds, exact coverage, draw counts |
| `Kernel` | kernel.dfy | `init_engines_kernel` and `generate_kernel` as imperative methods over arrays, proved against `KernelSpec` |
| `Generator` | handle.dfy | the handle as a class, with its nondeterministic launches |

**Lanes.** The lanes run one after the other, in the order of `engine_id`.
Lanes write disjoint elements (`KernelSpec.KernelWritesPartition`). So another
order should leave the same buffer, but the model does not prove that.

**The engine.** The engine is a type parameter `E`.
- `next: E -> (E, uint32)` stands for its `operator()`.
- `seedEngine: (uint64, nat, uint64) -> E` stands for its constructor.

**A distribution functor.** A functor is a `Transform`: the widths plus a
function `f: seq<uint32> -> seq<T>` that stands for its numeric body.

**Launch success.** Whether a kernel launch or an allocation succeeds is a
nondeterministic choice (`LaunchSucceeds`, `AllocationSucceeds`). The lane
count (`s_blocks * s_threads`) and the buffer's byte address are
parameters.

**Draw count.** A natural count would be `ceil(n / output_width) *
input_width` draws. The code takes a full transform for a non-empty head and
another for a non-empty tail. So the transform count is `vec_n + [head > 0] +
[tail > 0]`, which is `ceil(n / output_width)` or one more.
- `KernelSpec.TransformsAgainstCeiling` proves these two bounds.
- `KernelSpec.CeilingExceeded` gives an input that reaches the upper one:
  `output_width == 2`, `n == 2`, buffer one element out of alignment.

The model follows the code.

## Model

| member | source | states |
|---|---|---|
| `Layout.DivModIs` | library/src/rng/mrg32k3a.hpp:77-84 | the subtraction-based quotient and remainder used for the split are the unsigned `/` and `%` |
| `Layout.Misalignment` | library/src/rng/mrg32k3a.hpp:77-81 | `misalignment < output_width`, and it is 0 when `output_width == 1` |
| `Layout.MisalignmentIs` | library/src/rng/mrg32k3a.hpp:77-81 | the model's misalignment is `(output_width - uintptr / sizeof(T) % output_width) % output_width` |
| `Layout.MisalignmentAligns` | library/src/rng/mrg32k3a.hpp:77-81 | adding the misalignment to the element index `uintptr / sizeof(T)` gives a multiple of `output_width` |
| `Layout.BodyGroupAligned` | library/src/rng/mrg32k3a.hpp:86 | for a buffer aligned to `sizeof(T)`, every body group starts at a byte address that is a multiple of `output_width * sizeof(T)` |
| `Layout.SplitBuffer` | library/src/rng/mrg32k3a.hpp:77-84 | computes `misalignment`, `head_size = min(n, misalignment)`, `vec_n` and `tail_size` as the quotient and remainder of `n - head_size` by `output_width` |
| `Layout.SplitBounds` | library/src/rng/mrg32k3a.hpp:77-84 | `head_size == min(n, misalignment)`; `tail_size < output_width`; `n < misalignment` gives `vec_n == tail_size == 0`; a body exists only after a full head; width 1 has no head and no tail |
| `Layout.SplitBufferIs` | library/src/rng/mrg32k3a.hpp:83-84 | `vec_n == (n - head_size) / output_width` and `tail_size == (n - head_size) % output_width` |
| `Layout.SplitPartition` | library/src/rng/mrg32k3a.hpp:82-84 | `head_size + vec_n * output_width + tail_size == n` |
| `Layout.BodyGroupInBuffer` | library/src/rng/mrg32k3a.hpp:86-98 | group `index < vec_n` lies after the head and before the tail |
| `Layout.BodyPosition` | library/src/rng/mrg32k3a.hpp:86-98 | every element between the head and the tail is element `j < output_width` of some group `g < vec_n` |
| `Lanes.FinalIndex` | library/src/rng/mrg32k3a.hpp:87-98 | computes the value of `index` when `while(index < vec_n) index += stride` exits |
| `Lanes.Iterations` | library/src/rng/mrg32k3a.hpp:87-98 | how many times that loop body runs from a start index; zero exactly when the start is at or past `vec_n` |
| `Lanes.FinalIndexFacts` | library/src/rng/mrg32k3a.hpp:87-98 | the loop exits at the first index `>= vec_n` congruent to the start, after `Iterations` steps of `stride` |
| `Lanes.EndsOnVecN` | library/src/rng/mrg32k3a.hpp:103 | lane `engine_id < stride` exits with `index == vec_n` if and only if `engine_id == vec_n % stride` |
| `Lanes.UniqueHeadTailLane` | library/src/rng/mrg32k3a.hpp:67-103 | exactly one of the `stride` lanes exits on `vec_n` |
| `Lanes.IterationsStep` | library/src/rng/mrg32k3a.hpp:87-98 | one more group adds one iteration to exactly the lane congruent to the old `vec_n` |
| `Lanes.SumIterationsStep` | library/src/rng/mrg32k3a.hpp:87-98 | summed over the lanes before `count`, one more group adds one iteration if its lane is among them |
| `Lanes.SumIterationsIsVecN` | library/src/rng/mrg32k3a.hpp:87-98 | all lanes together run the loop body exactly `vec_n` times |
| `Transforms.WidthsOf` | library/src/rng/mrg32k3a.hpp:148-385 | uniform is 1 to 1 for `unsigned int`, `float` and `double`, 1 to 4 for `unsigned char`, and 1 to 2 for `unsigned short` and `__half`; normal and log-normal are 2 to 2 for `float` and `double` and 1 to 2 for `__half`; one draw fills 32 bits of output when the type is not `double` |
| `Transforms.ToShort` | library/src/rng/mrg32k3a.hpp:226-227 | `static_cast<short>` keeps the value modulo 2^16 |
| `Transforms.HalfInputs` | library/src/rng/mrg32k3a.hpp:225-227 | computes the two shorts `static_cast<short>(v)` and `static_cast<short>(v >> 16)` of a scaled draw |
| `Transforms.HalfInputsSplitDraw` | library/src/rng/mrg32k3a.hpp:225-227 | the two shorts of a half-precision variant are the low and the high 16 bits of the scaled draw, and together they are the whole draw |
| `Transforms.TransformOf` | library/src/rng/mrg32k3a.hpp:148-385 | the functor of a kind is a valid transform exactly when its body fills `output_width` values from `input_width` draws |
| `KernelSpec.Draws` | library/src/rng/mrg32k3a.hpp:89-92 | the input loop: `k` values drawn and the engine after them, which has advanced by exactly `k` steps |
| `KernelSpec.DrawsValues` | library/src/rng/mrg32k3a.hpp:89-92 | the `input_width` draws are the engine's next outputs, in order |
| `KernelSpec.Transformed` | library/src/rng/mrg32k3a.hpp:89-93 | `input_width` draws and one call of the functor: `output_width` values, with the engine advanced by `input_width` steps |
| `KernelSpec.GroupWrites` | library/src/rng/mrg32k3a.hpp:95 | the stores `data[base + o] = output[o]` for `o < count`, in increasing `o`; there are exactly `count` of them |
| `KernelSpec.Body` | library/src/rng/mrg32k3a.hpp:87-98 | computes the grid-stride loop of one lane from `index`: one transform and one full group store per iteration, then the rest of the loop |
| `KernelSpec.Partial` | library/src/rng/mrg32k3a.hpp:106-138 | computes the head or the tail: nothing when `count == 0`, otherwise one transform of which the first `count` values are stored from `base` on |
| `KernelSpec.RunLane` | library/src/rng/mrg32k3a.hpp:67-142 | computes one lane: its loop, then the head and the tail when `output_width > 1` and the loop exits on `vec_n` |
| `KernelSpec.LaneLogs` | library/src/rng/mrg32k3a.hpp:56-143 | one store log per lane, each that lane's `RunLane` stores from its loaded engine |
| `KernelSpec.KernelWrites` | library/src/rng/mrg32k3a.hpp:56-143 | computes the stores of lanes `0 .. count-1`, lane after lane |
| `KernelSpec.GroupWritesAt` | library/src/rng/mrg32k3a.hpp:114-120 | the `o`-th store of a group puts `output[o]` at `base + o` |
| `KernelSpec.GroupWritesStep` | library/src/rng/mrg32k3a.hpp:131-137 | storing one more element of a group changes only that element |
| `KernelSpec.GroupWithin` | library/src/rng/mrg32k3a.hpp:114-120 | a group of `count` stores stays in `[base, base + count)` |
| `KernelSpec.PartialWithin` | library/src/rng/mrg32k3a.hpp:106-138 | the head stores only into `[0, head_size)` and the tail only into `[n - tail_size, n)` |
| `KernelSpec.BodyWithin` | library/src/rng/mrg32k3a.hpp:86-98 | the grid-stride loop stores only between the head and the tail |
| `KernelSpec.LaneWithin` | library/src/rng/mrg32k3a.hpp:86-138 | a lane stores only into `[0, n)` |
| `KernelSpec.KernelWithin` | library/src/rng/mrg32k3a.hpp:56-143 | no lane stores outside `[0, n)` |
| `KernelSpec.BodyLength` | library/src/rng/mrg32k3a.hpp:87-98 | the loop of a lane stores `output_width` elements per iteration |
| `KernelSpec.LaneWritesLength` | library/src/rng/mrg32k3a.hpp:86-138 | a lane stores `output_width` per iteration, plus `head_size + tail_size` if it is the designated lane |
| `KernelSpec.KernelWritesLength` | library/src/rng/mrg32k3a.hpp:56-143 | lanes `0 .. count-1` together store the sum of their lane lengths |
| `KernelSpec.KernelLengthClosed` | library/src/rng/mrg32k3a.hpp:56-143 | that sum is `output_width` times their iterations, plus head and tail once the designated lane is included |
| `KernelSpec.KernelWritesCount` | library/src/rng/mrg32k3a.hpp:56-143 | all lanes together make exactly `n` stores |
| `KernelSpec.GroupCovers` | library/src/rng/mrg32k3a.hpp:114-120 | a group of `count` stores reaches every element of `[base, base + count)` |
| `KernelSpec.BodyCovers` | library/src/rng/mrg32k3a.hpp:87-98 | the loop of a lane stores every element of every group it visits |
| `KernelSpec.KernelIncludesLane` | library/src/rng/mrg32k3a.hpp:56-143 | what any lane stores is among the kernel's stores |
| `KernelSpec.HeadTailCovered` | library/src/rng/mrg32k3a.hpp:103-138 | every head and tail element is stored, by lane `vec_n % stride` |
| `KernelSpec.LaneIncludesBody` | library/src/rng/mrg32k3a.hpp:87-138 | a lane's stores include those of its loop |
| `KernelSpec.BodyCovered` | library/src/rng/mrg32k3a.hpp:87-98 | element `j` of body group `g` is stored by lane `g % stride` |
| `KernelSpec.KernelCovers` | library/src/rng/mrg32k3a.hpp:56-143 | every element of `[0, n)` is stored |
| `KernelSpec.KernelWritesPartition` | library/src/rng/mrg32k3a.hpp:56-143 | exactly once: the stores number `n`, lie in `[0, n)`, reach every element of `[0, n)`, and no element is stored twice |
| `KernelSpec.KernelResult` | library/src/rng/mrg32k3a.hpp:56-143 | afterwards each element of `[0, n)` holds the value of its one store, and every element from `n` on is unchanged |
| `KernelSpec.BodyDraws` | library/src/rng/mrg32k3a.hpp:89-92 | the loop of a lane advances its engine by `input_width` draws per iteration |
| `KernelSpec.HeadTailDraws` | library/src/rng/mrg32k3a.hpp:106-130 | the head and the tail each take `input_width` draws when non-empty and none when empty |
| `KernelSpec.LaneDraws` | library/src/rng/mrg32k3a.hpp:72-142 | the engine a lane hands back has advanced by exactly `input_width` times its transform count |
| `KernelSpec.KernelTransformsPartial` | library/src/rng/mrg32k3a.hpp:56-143 | the transforms of lanes `0 .. count-1` are their iterations, plus head and tail once the designated lane is included |
| `KernelSpec.KernelTransformsTotal` | library/src/rng/mrg32k3a.hpp:56-143 | all lanes apply the transform `vec_n + [head_size > 0] + [tail_size > 0]` times |
| `KernelSpec.TransformsAgainstCeiling` | library/src/rng/mrg32k3a.hpp:56-143 | that count lies between `ceil(n / output_width)` and one more |
| `KernelSpec.CeilingExceeded` | library/src/rng/mrg32k3a.hpp:106-138 | with `output_width == 2`, `n == 2` and one element of misalignment, two transforms fill two elements |
| `KernelSpec.FinalEngines` | library/src/rng/mrg32k3a.hpp:142 | slot `lane` receives that lane's own final engine, and every slot is a lane's |
| `Kernel.SeededEngines` | library/src/rng/mrg32k3a.hpp:53 | slot `engine_id` holds the engine for `(seed, engine_id, offset)` |
| `Kernel.InitEngines` | library/src/rng/mrg32k3a.hpp:47-54 | `init_engines_kernel` leaves every slot seeded as `SeededEngines` says |
| `Kernel.DrawInputs` | library/src/rng/mrg32k3a.hpp:89-92 | the input loop leaves the state and the values of `Draws` |
| `Kernel.DrawAndTransform` | library/src/rng/mrg32k3a.hpp:89-93 | draw, then apply the functor: the result of `Transformed` |
| `Kernel.StorePrefix` | library/src/rng/mrg32k3a.hpp:114-120 | the guarded store loop performs exactly the first `count` stores of a group |
| `Kernel.StoreGroup` | library/src/rng/mrg32k3a.hpp:95 | the vector store of group `index` performs that group's stores |
| `Kernel.LoopStep` | library/src/rng/mrg32k3a.hpp:87-98 | one iteration followed by the rest of the loop is the whole loop from `index` |
| `Kernel.RemainsDone` | library/src/rng/mrg32k3a.hpp:87 | once `index >= vec_n` the engine, the buffer and the index are final |
| `Kernel.LoopIteration` | library/src/rng/mrg32k3a.hpp:89-98 | one iteration keeps the loop invariant at `index + stride` |
| `Kernel.LaneLoop` | library/src/rng/mrg32k3a.hpp:87-98 | the loop leaves the engine, the buffer and the exit index of `Body` |
| `Kernel.RunLaneApply` | library/src/rng/mrg32k3a.hpp:103-138 | the designated lane's effect is its loop, then its head, then its tail |
| `Kernel.StorePartial` | library/src/rng/mrg32k3a.hpp:106-138 | `if (count > 0)` one transform, of which the first `count` values are stored |
| `Kernel.GenerateLane` | library/src/rng/mrg32k3a.hpp:56-143 | one lane performs the stores of `RunLane` and changes only its own engine slot |
| `Kernel.GenerateKernel` | library/src/rng/mrg32k3a.hpp:56-143 | all lanes perform the kernel's stores, and every slot receives its lane's final engine |
| `Generator.LaunchSucceeds` | library/src/rng/mrg32k3a.hpp:449-456 | whether `hipLaunchKernelGGL` followed by `hipPeekAtLastError` reports success; a nondeterministic choice |
| `Generator.AllocationSucceeds` | library/src/rng/mrg32k3a.hpp:403-407 | whether `hipMalloc` of the engine array succeeds; a nondeterministic choice |
| `Generator.EffectiveSeed` | library/src/rng/mrg32k3a.hpp:428-436 | the stored seed is never 0: 0 becomes the default, any other seed is kept |
| `Generator.SetLambda` | library/src/rng/mrg32k3a.hpp:504-513 | `set_lambda` fails with out-of-range exactly for a non-positive lambda |
| `Generator.Create` | library/src/rng/mrg32k3a.hpp:396-412 | a failed allocation gives `ROCRAND_STATUS_ALLOCATION_FAILED` and no handle; otherwise a fresh, uninitialised handle with the effective seed, the given offset, and a freshly allocated array of `lanes` engines that it owns, with the given engine functions |
| `Generator.Mrg32k3a.constructor` | library/src/rng/mrg32k3a.hpp:396-412 | seed 0 becomes the default, the offset is kept, the flag is down |
| `Generator.Mrg32k3a.Reset` | library/src/rng/mrg32k3a.hpp:419-422 | the flag goes down; seed and offset stay |
| `Generator.Mrg32k3a.SetSeed` | library/src/rng/mrg32k3a.hpp:428-436 | the seed becomes the effective seed, the flag goes down, the offset stays |
| `Generator.Mrg32k3a.SetOffset` | library/src/rng/mrg32k3a.hpp:438-442 | the offset is set, the flag goes down, the seed stays |
| `Generator.Mrg32k3a.Init` | library/src/rng/mrg32k3a.hpp:444-461 | already initialised: success with nothing launched; otherwise a failed launch returns launch failure with the flag down, and a successful one seeds every slot and raises the flag |
| `Generator.Mrg32k3a.Generate` | library/src/rng/mrg32k3a.hpp:463-481 | a failure of `init` is returned as is, with the flag down and the engines and the buffer untouched; when the `generate_kernel` launch fails after `init` succeeded, the flag is up, the engines are the ones `init` left and the buffer is untouched; on success the flag is up and the buffer and the engines are what `generate_kernel` makes of the (possibly just seeded) engines |
| `Generator.Mrg32k3a.GenerateOf` | library/src/rng/mrg32k3a.hpp:483-502 | `generate_uniform`, `generate_normal` and `generate_log_normal` are `generate` with the functor of their kind, with the same status, flag, engines and buffer on every path |
| `Generator.Mrg32k3a.GeneratePoisson` | library/src/rng/mrg32k3a.hpp:504-515 | a status thrown by `set_lambda` is returned with nothing changed; out-of-range exactly for a non-positive lambda; otherwise `generate` with the 1-to-1 Poisson functor, with its flag, engines and buffer on every path |

## Left out

- The MRG32K3A recurrence, its jump-ahead seeding and the engine
  constructor. They live in `device_engines.hpp` and
  `rocrand_mrg32k3a_precomputed.h`, which are not part of this model. The
  engine is an opaque state with a `next` function.
- The floating-point bodies of the functors.
  - This covers `ROCRAND_MRG32K3A_UINT_NORM` scaling, uniform float and
    double conversion, Box–Muller, `exp`/`expf`/`hexp`, the `__half`
    arithmetic, and the two `__CUDA_ARCH__` branches.
  - Dafny has no IEEE floating point, so each body is the abstract function
    `f` of a `Transform`.
  - The only fact kept is the width contract and the bit split of the
    half-precision inputs.
- The byte reinterpretation of `unsigned char` and `unsigned short`
  outputs (`*reinterpret_cast<unsigned int *>(output) = v`). It depends on
  endianness; only the widths are kept.
- The `reinterpret_cast` to an aligned vector type. The vector store of a
  group is modelled as its `output_width` element stores.
  `Layout.BodyGroupAligned` states the alignment that makes that cast
  valid.
- The HIP plumbing.
  - This covers `hipMalloc`, `hipFree` and the destructor,
    `hipLaunchKernelGGL`, `hipPeekAtLastError`, the stream, and the
    block/thread index registers.
  - The platform-dependent `s_threads`/`s_blocks` are replaced by the lane
    count parameter.
  - A launch or an allocation either succeeds or fails,
    nondeterministically. A kernel whose launch failed is modelled as not
    having run.
- Asynchrony. The calling thread does not wait for a kernel. The model runs
  each kernel to completion inside the call that launches it.
- Parallel execution of the lanes. The lanes run one after the other. Their
  stores are disjoint (`KernelSpec.KernelWritesPartition`), but the model
  does not prove that another order or an interleaving gives the same
  buffer.
- `poisson_distribution_manager`. Its table and its caching of the last
  lambda are not part of this model; only the status of `set_lambda` is.
  - `Generator.SetLambda`: the model assumes `set_lambda` throws
    out-of-range exactly for lambda ≤ 0 and otherwise succeeds or fails to
    allocate; its source is not part of this model.
  - The Poisson functor is the abstract 1-to-1 transform `dis`.
- `ROCRAND_MRG32K3A_DEFAULT_SEED` is defined in `rocrand_mrg32k3a.h`,
  which is not part of this model. `Generator.DEFAULT_SEED` uses rocRAND's
  value 12345; the proofs need only that it is not 0.
- Machine-width overflow of `size_t index += stride` and of `n`. Integers
  are unbounded. The source's `unsigned int` `head_size` and `tail_size`
  hold values below `output_width`, so they cannot truncate.
- `Layout.SplitBounds`: its facts follow from the definitions without a
  proof body. It is kept because it states the partition facts of the
  split readably.
- The statistical test `test/test_normal_distribution.cpp`. It checks
  sample moments of floating-point output, which the model does not
  compute.
