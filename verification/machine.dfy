/** Machine-level vocabulary shared by every module: bytes, the optional
    value used for "absent / failed", and the C++ integer conversions the
    bridge relies on. */
module Machine {

  /** An `unsigned char`. */
  type byte = x: int | 0 <= x < 256

  /** A value that may be absent (a failed fetch, an unmatched address). */
  datatype Option<+T> = None | Some(value: T)

  const TWO_32: int := 0x1_0000_0000
  const TWO_31: int := 0x8000_0000

  /** Conversion of any integer to `unsigned char`: reduction modulo 256. */
  function ToByte(x: int): (r: byte)
    ensures (x - r) % 256 == 0
    ensures 0 <= x < 256 ==> r == x
  {
    x % 256
  }

  /** Conversion of a wider integer to a 32-bit two's-complement `int`. */
  function ToI32(x: int): (r: int)
    ensures -TWO_31 <= r < TWO_31
    ensures (x - r) % TWO_32 == 0
    ensures -TWO_31 <= x < TWO_31 ==> r == x
  {
    var u := x % TWO_32;
    if u < TWO_31 then u else u - TWO_32
  }
}
