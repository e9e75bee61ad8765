/** Types shared by every module of the model: the C `unsigned char`
    and the two failure-compatible wrappers used for NULL returns and
    error exits. */
module CTypes {

  /** An `unsigned char`. */
  type byte = x: int | 0 <= x < 256

  /** A value that may be NULL in C. */
  datatype Option<T> = None | Some(value: T)

  /** The outcome of an operation that either succeeds or ends the
      process with an error code. */
  datatype Result<T, E> = Ok(value: T) | Err(error: E)

  function Min(a: int, b: int): int
  {
    if a <= b then a else b
  }

  /** A prefix one element longer is the prefix and that element. */
  lemma PrefixSnoc<T>(s: seq<T>, i: nat)
    requires i < |s|
    ensures s[..i + 1] == s[..i] + [s[i]]
  {
  }

  /** A slice one element longer is the slice and that element. */
  lemma SliceSnoc<T>(s: seq<T>, i: nat, j: nat)
    requires i <= j < |s|
    ensures s[i..j + 1] == s[i..j] + [s[j]]
  {
  }
}
