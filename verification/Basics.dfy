/** Types shared by every part of the model. */
module Basics {
  datatype Option<+T> = None | Some(value: T)

  /** One byte of a C++ string or of the wire. */
  type byte = x: int | 0 <= x < 0x100

  /** A `std::string` or `StringRef`: its bytes, in no particular encoding. */
  type Bytes = seq<byte>

  /** `order` names every element of `names` exactly once: one possible iteration order of a hash table. */
  ghost predicate Lists<T(!new)>(order: seq<T>, names: set<T>)
  {
    && (forall i, j :: 0 <= i < j < |order| ==> order[i] != order[j])
    && (forall n :: n in names <==> n in order)
  }
}
