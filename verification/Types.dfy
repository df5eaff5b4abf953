/** Values shared by every component of the model. */
module Types {
  datatype Option<+T> = None | Some(value: T)

  datatype Result<+T, +E> = Ok(value: T) | Err(error: E)

  datatype Unit = Unit

  type byte = b: int | 0 <= b < 256

  /** A `Vec<u8>`; also a Rust `str`, which is its UTF-8 byte sequence. */
  type Bytes = seq<byte>

  const TWO_32 := 0x1_0000_0000
  const TWO_63 := 0x8000_0000_0000_0000
  const TWO_64 := 0x1_0000_0000_0000_0000

  type u32 = n: int | 0 <= n < TWO_32

  type i64 = n: int | -TWO_63 <= n < TWO_63

  type u64 = n: int | 0 <= n < TWO_64

  /** `v as i64`: from 2^63 on the result is negative. */
  function AsI64(v: u64): i64
  {
    if v >= TWO_63 then v - TWO_64 else v
  }

  /** One stream on one branch. */
  datatype Key = Key(stream: string, branch: string)
}
