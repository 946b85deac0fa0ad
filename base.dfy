/** Shared vocabulary of the link-layer model: the byte type used on the
    serial wire and the two wrappers used for "no value" and "raised". */
module Base {

  /** A byte as it travels over the serial line (Python `bytes` element). */
  type byte = bv8

  /** An integer in 0..255 survives the trip through a byte. */
  lemma IntByteInt(x: int)
    requires 0 <= x < 256
    ensures (x as byte) as int == x
  {
  }

  /** The integer value of a byte lies in 0..255 and converts back to it. */
  lemma ByteIntByte(b: byte)
    ensures 0 <= b as int < 256
    ensures (b as int) as byte == b
  {
  }

  /** A non-empty sequence is its front and its last element. */
  lemma FrontLast<T>(s: seq<T>)
    requires |s| > 0
    ensures s[..|s| - 1] + [s[|s| - 1]] == s
  {
  }

  /** Concatenation regroups freely. */
  lemma ConcatAssoc<T>(a: seq<T>, b: seq<T>, c: seq<T>)
    ensures a + (b + c) == (a + b) + c
  {
  }

  /** The smaller of two integers. */
  function Min(a: int, b: int): int { if a < b then a else b }

  /** `None` in the source (an empty read, a frame nobody answers). */
  datatype Option<T> = None | Some(value: T)

  /** A result that is either a value or the exception the source raises. */
  datatype Result<T, E> = Ok(value: T) | Err(error: E)
}
