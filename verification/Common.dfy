// Shared vocabulary: optional values, results, and the byte strings that the
// wire formats are made of.
module Common {

  datatype Option<+T> = None | Some(value: T)

  datatype Result<+T, +E> = Ok(value: T) | Err(error: E)

  type byte = b: int | 0 <= b < 256 witness 0

  type bytes = seq<byte>

  // The length of a Go byte string is an int64, so every captured payload is
  // shorter than this.
  const MAX_INT64: nat := 0x7fff_ffff_ffff_ffff

  // A tamper hook's answer for a message: leave it out, or send it on, edited or
  // as it was.
  datatype Verdict = Omit | Forward(edit: Option<bytes>)

  lemma Associates<T>(a: seq<T>, b: seq<T>, c: seq<T>)
    ensures a + b + c == a + (b + c)
  {
  }
}
