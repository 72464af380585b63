/** Small vocabulary the other modules share. */
module Basics {

  datatype Option<T> = None | Some(value: T)

  /** Opaque identifiers: only their equality matters. */
  datatype Id = Id(text: string)
  const NO_ID := Id("")

  predicate Distinct<T(==)>(s: seq<T>) {
    forall i, j :: 0 <= i < j < |s| ==> s[i] != s[j]
  }

  function Bit(p: bool): nat { if p then 1 else 0 }

  function Max(a: int, b: int): int { if a >= b then a else b }
  function Min(a: int, b: int): int { if a <= b then a else b }
}
