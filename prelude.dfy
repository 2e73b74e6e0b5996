/** Primitive types shared by every module of the broker model: Rust's `u8`
    and `u32`, the `Option`/`Result` wrappers, and the reasons a Rust
    operation panics instead of returning. */
module Prelude {

  /** A Rust `u8`. */
  newtype byte = x: int | 0 <= x < 0x100

  /** A Rust `u32`. */
  newtype u32 = x: int | 0 <= x < 0x1_0000_0000

  const U32_MAX: int := 0xFFFF_FFFF

  datatype Option<+T> = None | Some(value: T)

  datatype Result<+T, +E> = Ok(value: T) | Err(error: E)

  /** Why a Rust function panicked. A function that can panic is modelled as
      returning `Err(fault)` on the inputs that make it panic. */
  datatype Fault =
    | ArithmeticOverflow  // a `u32` addition or multiplication overflowed
    | SliceOutOfRange     // `data[a..]` or `data[a..b]` past the end of `data`
    | IndexOutOfRange     // `data[i]` with `i >= data.len()`
    | UnwrapOnErr         // `.unwrap()` on an `Err`
    | UnexpectedPayload   // `panic!` on a payload of the wrong variant
}

/** The bit operations the source applies to a `u8`, written as the integer
    arithmetic the model uses in their place. */
module ByteOps {

  /** `b >> 4` is `b / 16`, `b & 0x0F` is `b % 16`, `b & 127` is `b % 128`,
      and `b & 128 == 0` holds exactly when `b < 128`. */
  lemma MasksAsArithmetic(b: bv8)
    ensures (b >> 4) as int == b as int / 16
    ensures (b & 0x0F) as int == b as int % 16
    ensures (b & 127) as int == b as int % 128
    ensures (b & 128 == 0) <==> b as int < 128
  {
  }

  /** `(code << 4) | (flags & 0x0F)` is `code * 16 + flags % 16` for a
      packet-type code below 16. */
  lemma FirstByteAsArithmetic(code: bv8, flags: bv8)
    requires code < 16
    ensures ((code << 4) | (flags & 0x0F)) as int == code as int * 16 + flags as int % 16
  {
  }

  /** `x | 128` is `x + 128` when bit 7 of `x` is clear. */
  lemma SetBit7AsArithmetic(x: bv8)
    requires x < 128
    ensures (x | 128) as int == x as int + 128
  {
  }
}
