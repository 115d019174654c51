/** What several models share. */
module Wrappers {

  datatype Option<+T> = None | Some(value: T)

  /** A value, an error, or a panic of the running program. */
  datatype Result<+T> = Ok(value: T) | Err | Panic

  /** Codes of field types; those of vector fields come last. */
  const STRING_KIND: nat := 20
  const VARCHAR_KIND: nat := 21
  const JSON_KIND: nat := 23
  const FIRST_VECTOR_KIND: nat := 100
  const SPARSE_VECTOR_KIND: nat := 104

  /** The machine's 32-bit word. */
  type uint32 = x: int | 0 <= x < 0x1_0000_0000

  lemma Associative<T>(a: seq<T>, b: seq<T>, c: seq<T>)
    ensures (a + b) + c == a + (b + c)
  {
  }
}
