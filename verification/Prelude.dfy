/** Shared vocabulary: options, bytes, machine integers and the clock. */
module Prelude {
  datatype Option<+T> = None | Some(value: T)

  /** A client address or a normalised email. */
  datatype Key = Key(name: string)

  /** Instants and durations are integers counting nanoseconds. */
  const MILLISECOND: int := 1_000_000
  const SECOND: int := 1000 * MILLISECOND
  const MINUTE: int := 60 * SECOND

  type Byte = b: int | 0 <= b < 256

  /** The largest value of a 32-bit INTEGER column. */
  const MAX_INT32: int := 0x7FFF_FFFF

  ghost predicate Sorted(s: seq<int>) {
    forall i, j :: 0 <= i < j < |s| ==> s[i] <= s[j]
  }
}
