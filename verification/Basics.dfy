/** What several modules share: bytes, optional values and a few elementary facts. */
module Basics {
  type byte = bv8

  datatype Option<+T> = None | Some(value: T)

  const INT_MAX: nat := 0x7fffffff

  function Min(x: nat, y: nat): nat {
    if x <= y then x else y
  }

  lemma Assoc(a: seq<byte>, b: seq<byte>, c: seq<byte>)
    ensures a + (b + c) == (a + b) + c
  {
  }
}
