/** The optional-value wrapper used for every `None`-returning operation of the pipeline. */
module Wrappers {

  datatype Option<+T> = None | Some(value: T)
}

/** Byte sequences, as Python's `bytes` objects hold them. */
module Bytes {

  /** One octet. */
  type Byte = b: int | 0 <= b < 256

  /** Python's `bytes.startswith`: the prefix test never reads past the end of `b`. */
  predicate StartsWith(b: seq<Byte>, prefix: seq<Byte>)
  {
    |prefix| <= |b| && b[..|prefix|] == prefix
  }
}
