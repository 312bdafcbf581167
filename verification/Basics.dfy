/** What several components have in common. */
module Basics {

  type Byte = b: int | 0 <= b < 0x100

  /** The bits of a signed 32-bit number as an unsigned word. */
  function Unsigned(i: int): (u: nat)
    ensures u < 0x1_0000_0000
    ensures -0x8000_0000 <= i < 0x1_0000_0000 ==> u == if i >= 0 then i else i + 0x1_0000_0000
  {
    i % 0x1_0000_0000
  }

  lemma Associate<T>(a: seq<T>, b: seq<T>, c: seq<T>)
    ensures (a + b) + c == a + (b + c)
  {
  }
}
