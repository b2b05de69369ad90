/** Fixed-width integers, results and checked arithmetic shared by every component.
    `usize` is 64 bits wide throughout, so it is modelled by `u64`. */
module Machine {

  const U32_SPACE: nat := 0x1_0000_0000
  const U64_SPACE: nat := 0x1_0000_0000_0000_0000
  const U128_SPACE: nat := 0x1_0000_0000_0000_0000_0000_0000_0000_0000

  type u8 = x: int | 0 <= x < 0x100
  type u32 = x: int | 0 <= x < 0x1_0000_0000
  type u64 = x: int | 0 <= x < 0x1_0000_0000_0000_0000
  type u128 = x: int | 0 <= x < 0x1_0000_0000_0000_0000_0000_0000_0000_0000

  datatype Option<+T> = None | Some(value: T)

  datatype Result<+T, +E> = Ok(value: T) | Err(error: E) {
    predicate IsFailure() {
      Err?
    }

    function PropagateFailure<U>(): Result<U, E>
      requires Err?
    {
      Err(error)
    }

    function Extract(): T
      requires Ok?
    {
      value
    }
  }

  /** Checked u64 addition: the given error when the sum does not fit. */
  function AddOr<E>(a: u64, b: u64, error: E): Result<u64, E> {
    if a + b < U64_SPACE then Ok(a + b) else Err(error)
  }

  /** Checked u64 multiplication: the given error when the product does not fit. */
  function MulOr<E>(a: u64, b: u64, error: E): Result<u64, E> {
    if 0 <= a * b < U64_SPACE then Ok(a * b) else Err(error)
  }

  /** Checked arithmetic fails exactly when the exact result does not fit. */
  lemma CheckedExactly<E>(a: u64, b: u64, error: E)
    ensures a + b < U64_SPACE ==> AddOr(a, b, error) == Ok(a + b)
    ensures a + b >= U64_SPACE ==> AddOr(a, b, error) == Err(error)
    ensures a * b < U64_SPACE ==> MulOr(a, b, error).Ok? && MulOr(a, b, error).value == a * b
    ensures a * b >= U64_SPACE ==> MulOr(a, b, error) == Err(error)
  {
  }

  /** An addressable byte string: what a read-only mapping of a file exposes. */
  type Mapping = b: seq<u8> | |b| < 0x1_0000_0000_0000_0000

  /** A SHA-256 digest. */
  type Digest = d: seq<u8> | |d| == 32 witness seq(32, _ => 0)

  /** SHA-256 is any fixed function from bytes to digests; nothing else about it is used. */
  type Sha256 = seq<u8> -> Digest
}
