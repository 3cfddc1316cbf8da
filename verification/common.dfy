/** Machine-word types, the Rust integer casts the kernel relies on, and the
    small result wrappers shared by every other module. */
module Machine {

  /** 64-bit unsigned (`usize`) and signed (`isize`) words, 32-bit `u32`/`i32`. */
  type Usize = x: int | 0 <= x < 0x1_0000_0000_0000_0000
  type Isize = x: int | -0x8000_0000_0000_0000 <= x < 0x8000_0000_0000_0000
  type U32 = x: int | 0 <= x < 0x1_0000_0000
  type I32 = x: int | -0x8000_0000 <= x < 0x8000_0000
  type U8 = x: int | 0 <= x < 0x100

  const USIZE_MODULUS: int := 0x1_0000_0000_0000_0000
  const U32_MODULUS: int := 0x1_0000_0000

  /** Optional value (`Option<T>` in the kernel). */
  datatype Option<+T> = None | Some(value: T)

  /** The outcome of a kernel routine that can hit a fatal `panic!`,
      `assert!` or `unwrap()` on `None`. */
  datatype Checked<+T> = Ok(value: T) | Panic

  /** `x as usize` for an `isize`: two's-complement reinterpretation. */
  function UsizeOf(x: Isize): (r: Usize)
    ensures 0 <= x ==> r == x
    ensures x < 0 ==> r == x + USIZE_MODULUS
  {
    if x < 0 then x + USIZE_MODULUS else x
  }

  /** `x as isize` for a `usize`: two's-complement reinterpretation. */
  function IsizeOf(x: Usize): (r: Isize)
    ensures x < 0x8000_0000_0000_0000 ==> r == x
    ensures 0x8000_0000_0000_0000 <= x ==> r < 0
  {
    if x < 0x8000_0000_0000_0000 then x else x - USIZE_MODULUS
  }

  /** Both casts are bijections and each undoes the other. */
  lemma CastRoundTrip(x: Isize, y: Usize)
    ensures IsizeOf(UsizeOf(x)) == x
    ensures UsizeOf(IsizeOf(y)) == y
  {
  }

  /** `a + b` on `usize` as the release build computes it (wrapping). */
  function WrappingAdd(a: Usize, b: Usize): (r: Usize)
    ensures a + b < USIZE_MODULUS ==> r == a + b
    ensures USIZE_MODULUS <= a + b ==> r == a + b - USIZE_MODULUS
  {
    (a + b) % USIZE_MODULUS
  }

  /** `a - b` on `usize` as the release build computes it (wrapping). */
  function WrappingSub(a: Usize, b: Usize): (r: Usize)
    ensures b <= a ==> r == a - b
    ensures a < b ==> r == a - b + USIZE_MODULUS
  {
    (a - b) % USIZE_MODULUS
  }

  /** `x += 1` on a `u32` as the release build computes it (wrapping). */
  function WrappingIncU32(x: U32): (r: U32)
    ensures x + 1 < U32_MODULUS ==> r == x + 1
    ensures x + 1 == U32_MODULUS ==> r == 0
  {
    (x + 1) % U32_MODULUS
  }

  /** `x -= 1` on a `u32` as the release build computes it (wrapping). */
  function WrappingDecU32(x: U32): (r: U32)
    ensures 0 < x ==> r == x - 1
    ensures x == 0 ==> r == U32_MODULUS - 1
  {
    (x - 1) % U32_MODULUS
  }
}
