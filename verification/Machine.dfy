/** The 32-bit machine the kernel is compiled for. */
module Machine {
  const WORD := 0x1_0000_0000

  /** An `unsigned int`, `size_t` or `uint32_t`. */
  type u32 = x: int | 0 <= x < WORD

  /** Conversion to an unsigned 32-bit value: arithmetic is modulo 2^32. */
  function Wrap(x: int): u32 {
    x % WORD
  }

  const INT_MIN := -0x8000_0000

  /** An `int` or `long`. */
  type i32 = x: int | INT_MIN <= x < 0x8000_0000

  /** Conversion to a signed 32-bit value in two's complement. */
  function Signed(x: int): i32 {
    (x - INT_MIN) % WORD + INT_MIN
  }

  lemma SignedKeepsIff(x: int)
    ensures Signed(x) == x <==> INT_MIN <= x < 0x8000_0000
  {
  }

  lemma SignedAdd(a: int, b: int)
    ensures Signed(Signed(a) + b) == Signed(a + b)
  {
  }

  /** `x++` on 32 bits. */
  function Succ(x: u32): u32 {
    if x + 1 == WORD then 0 else x + 1
  }

  datatype Option<+T> = None | Some(value: T)
}
