/**
 * Values shared by the build and filter stages: bytes, the ASCII codes the
 * tool writes, and the error-carrying wrappers used where the Rust code
 * returns `Option`, `Result` or panics on `unwrap`.
 */
module Common {

  /** An unsigned 8-bit value, Rust's `u8`. */
  newtype byte = b: int | 0 <= b < 256

  const NEWLINE: byte := 10
  const DOLLAR: byte := 36   // '$', the sentinel closing the reference text
  const PLUS: byte := 43     // '+', the FASTQ separator line
  const GREATER: byte := 62  // '>', the FASTA header marker
  const AT: byte := 64       // '@', the FASTQ header marker
  const QUAL_I: byte := 73   // 'I', the placeholder quality symbol
  const BASE_N: byte := 78   // 'N', the spacer base between reference records

  datatype Option<T> = None | Some(value: T)

  /** Why an operation did not produce its value. */
  datatype Error =
    | UnsupportedFormat(format: string)  // an output format write_record does not know
    | NoFileName(path: string)           // a path without a final name: `unwrap` panics

  datatype Result<T> = Ok(value: T) | Err(error: Error)

  datatype Outcome = Pass | Fail(error: Error)

  /** `b` does not occur in `s`. */
  predicate Free(s: seq<byte>, b: byte)
  {
    forall i :: 0 <= i < |s| ==> s[i] != b
  }
}
