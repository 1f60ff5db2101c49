/**
 * The distribution functors of the generator as seen by the kernel: each
 * consumes a fixed number of raw 32-bit draws and produces a fixed number
 * of output values. The numeric bodies are floating point and are kept
 * abstract (the function `f` of a Transform); the widths are the facts.
 */
module Transforms {
  import opened Types

  /** Element types the `mrg_*_distribution` templates are specialised for. */
  datatype ValueType = UInt | UChar | UShort | Float | Double | Half

  /** `sizeof(T)` in bytes. */
  function SizeOf(ty: ValueType): (bytes: nat)
    ensures bytes in {1, 2, 4, 8}
  {
    match ty
    case UInt => 4
    case UChar => 1
    case UShort => 2
    case Float => 4
    case Double => 8
    case Half => 2
  }

  /** `mrg_uniform_distribution<T>`, `mrg_normal_distribution<T>`, `mrg_log_normal_distribution<T>`. */
  datatype Kind = Uniform(ty: ValueType) | Normal(ty: ValueType) | LogNormal(ty: ValueType)

  /** The specialisations that exist: uniform for all six types, (log-)normal for the floating types. */
  predicate Specialised(k: Kind) {
    k.Uniform? || k.ty == Float || k.ty == Double || k.ty == Half
  }

  datatype Widths = Widths(input: nat, output: nat)

  /** `input_width` and `output_width` of each specialisation. */
  function WidthsOf(k: Kind): (w: Widths)
    requires Specialised(k)
    ensures 1 <= w.input <= 2 && w.output in {1, 2, 4}
    ensures k.ty == Half ==> w == Widths(1, 2)
    ensures !k.Uniform? && k.ty != Half ==> w == Widths(2, 2)
    ensures k.Uniform? ==> w.input == 1
    ensures k.ty != Double ==> w.output * SizeOf(k.ty) == 4 * w.input
    ensures k.ty == Double ==> w.output == w.input
  {
    match k
    case Uniform(ty) =>
      (match ty
       case UInt => Widths(1, 1)
       case UChar => Widths(1, 4)
       case UShort => Widths(1, 2)
       case Float => Widths(1, 1)
       case Double => Widths(1, 1)
       case Half => Widths(1, 2))
    case Normal(ty) => if ty == Half then Widths(1, 2) else Widths(2, 2)
    case LogNormal(ty) => if ty == Half then Widths(1, 2) else Widths(2, 2)
  }

  /** `static_cast<short>` of an unsigned value: its low 16 bits read as two's complement. */
  function ToShort(x: nat): (s: int16)
    ensures (s as int - x) % 0x1_0000 == 0
  {
    var b := x % 0x1_0000;
    if b < 0x8000 then b as int16 else (b - 0x1_0000) as int16
  }

  /** The 16-bit pattern of a `short`. */
  function Bits(s: int16): (u: nat)
    ensures u < 0x1_0000
  {
    if s < 0 then s as int + 0x1_0000 else s as int
  }

  /**
   * The half-precision variants turn one scaled draw `v` into the two
   * shorts `static_cast<short>(v)` and `static_cast<short>(v >> 16)`.
   */
  function HalfInputs(v: uint32): (r: (int16, int16))
  {
    (ToShort(v as nat), ToShort(v as nat / 0x1_0000))
  }

  /** The two shorts are the low and the high 16 bits of the draw: together they are the draw. */
  lemma HalfInputsSplitDraw(v: uint32)
    ensures Bits(HalfInputs(v).0) == v as nat % 0x1_0000
    ensures Bits(HalfInputs(v).1) == v as nat / 0x1_0000
    ensures Bits(HalfInputs(v).0) + 0x1_0000 * Bits(HalfInputs(v).1) == v as nat
  {
  }

  /**
   * A distribution functor as the kernel uses it: `input` raw draws in,
   * `output` values out, `f` standing for the functor's call operator.
   */
  datatype Transform<T> = Transform(input: nat, output: nat, f: seq<uint32> -> seq<T>)
  {
    /** At least one output, and `f` fills exactly `output` values from `input` draws. */
    ghost predicate Valid() {
      output > 0 && forall ins: seq<uint32> :: |ins| == input ==> |f(ins)| == output
    }
  }

  /**
   * The functor of kind `k` with numeric body `f`: usable by the kernel
   * exactly when `f` fills `output_width` values from `input_width` draws.
   */
  function TransformOf<T>(k: Kind, f: seq<uint32> -> seq<T>): (t: Transform<T>)
    requires Specialised(k)
    ensures t.Valid() <==> forall ins: seq<uint32> :: |ins| == WidthsOf(k).input ==> |f(ins)| == WidthsOf(k).output
  {
    Transform(WidthsOf(k).input, WidthsOf(k).output, f)
  }
}
