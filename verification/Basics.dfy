/** Bytes, optional values, and the two facts about sequences that every module uses. */
module Basics {
  type byte = b: int | 0 <= b < 0x100
  type Bytes = seq<byte>

  datatype Option<+T> = None | Some(value: T)

  function Flatten<T>(parts: seq<seq<T>>): seq<T> {
    if parts == [] then [] else parts[0] + Flatten(parts[1..])
  }

  lemma Associate<T>(a: seq<T>, b: seq<T>, c: seq<T>)
    ensures a + (b + c) == a + b + c
  {
  }
}
