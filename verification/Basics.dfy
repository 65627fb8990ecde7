/** Types that several modules share. */
module Basics {

  type Byte = x: nat | x < 256

  datatype Option<+T> = None | Some(value: T)

  /** All chunks, one behind the other. */
  function Concat<T>(chunks: seq<seq<T>>): seq<T> {
    if chunks == [] then [] else chunks[0] + Concat(chunks[1..])
  }
}
