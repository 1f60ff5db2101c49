/** Machine integer widths and small wrappers shared by the other modules. */
module Types {
  /** `unsigned int`: the raw output of one engine draw. */
  newtype uint32 = x: int | 0 <= x < 0x1_0000_0000

  /** `unsigned long long`: seeds and offsets of the generator. */
  newtype uint64 = x: int | 0 <= x < 0x1_0000_0000_0000_0000

  /** `short`, the argument type of the half-precision helpers. */
  newtype int16 = x: int | -0x8000 <= x < 0x8000

  datatype Option<T> = None | Some(value: T)

  function Min(a: nat, b: nat): (m: nat)
    ensures m <= a && m <= b && (m == a || m == b)
  {
    if a <= b then a else b
  }
}
