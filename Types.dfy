/** Identifier types and the query-operation enumeration shared by the index structures. */
module Types {

  /** An unsigned 32-bit identifier. Document ids and tag ids are both of this kind. */
  type Id = x: int | 0 <= x <= 0xFFFF_FFFF

  /** The reserved "invalid" value of both id spaces (the largest 32-bit unsigned value). */
  const INVALID_ID: Id := 0xFFFF_FFFF

  /** The four set operations a query may ask for. */
  datatype BitmapOperation = And | Or | Xor | AndNot

  datatype Option<T> = None | Some(value: T)

  /**
   * `resize(n)` on a vector that only ever grows: a vector shorter than `n`
   * is extended to length `n` with copies of `fill`, a longer one is kept.
   */
  function GrowTo<T>(s: seq<T>, n: nat, fill: T): (r: seq<T>)
    ensures |r| == if n <= |s| then |s| else n
    ensures forall i :: 0 <= i < |r| ==> r[i] == if i < |s| then s[i] else fill
  {
    if n <= |s| then s else s + seq(n - |s|, _ => fill)
  }

  /** Concatenation is associative (stated over a type parameter, so that no element equality is involved). */
  lemma ConcatAssoc<T>(a: seq<T>, b: seq<T>, c: seq<T>)
    ensures a + (b + c) == (a + b) + c
  {
  }

  /** A document record as the ingestion parser emits it: an id and its tag strings. */
  datatype Record = Record(id: string, tags: seq<string>)
}
