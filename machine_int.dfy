/** Fixed-width unsigned integers of the C++ sources, with their wrap-around. */
module MachineInt {

  const U32_MOD: int := 0x1_0000_0000
  const U64_MOD: int := 0x1_0000_0000_0000_0000
  const U64_MAX: int := U64_MOD - 1

  /** uint32_t / unsigned */
  type u32 = x: int | 0 <= x < U32_MOD
  /** uint64_t / size_t */
  type u64 = x: int | 0 <= x < U64_MOD

  /** a + b in uint64_t arithmetic. */
  function Add64(a: u64, b: u64): (r: u64)
    ensures r == if a + b < U64_MOD then a + b else a + b - U64_MOD
  {
    (a + b) % U64_MOD
  }

  /** a - b in uint64_t arithmetic. */
  function Sub64(a: u64, b: u64): (r: u64)
    ensures r == if b <= a then a - b else a - b + U64_MOD
  {
    (a - b) % U64_MOD
  }

  /** Subtracting what was added gives back the original value, wrap-around included. */
  lemma AddSub64(a: u64, b: u64)
    ensures Sub64(Add64(a, b), b) == a
  {
  }
}
