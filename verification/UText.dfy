/** Random access to UTF-16 text by code points; the index is never inside a surrogate pair. */
module UText {
  import opened Utf16

  const U_SENTINEL := -1

  class UText {
    const s: seq<Unit>
    var pos: nat

    ghost predicate Valid()
      reads this
    {
      Boundary(s, pos)
    }

    constructor (text: seq<Unit>)
      ensures Valid() && s == text && pos == 0
    {
      s, pos := text, 0;
    }

    /** Goes to an index, or to the start of the code point around it. */
    method SetNativeIndex(i: nat)
      requires i <= |s|
      modifies this`pos
      ensures Valid() && (Boundary(s, i) ==> pos == i) && pos <= i
    {
      pos := if PairAt(s, i - 1) then i - 1 else i;
    }

    /** The code point here, or U_SENTINEL at the end. */
    function Current32(): (c: int)
      reads this
      ensures pos < |s| ==> c == CodePointAt(s, pos)
    {
      if pos < |s| then CodePointAt(s, pos) else U_SENTINEL
    }

    /** The code point here; the index moves over it. */
    method Next32() returns (c: int)
      requires Valid()
      modifies this`pos
      ensures Valid() && c == old(Current32())
      ensures pos == if old(pos) < |s| then Next(s, old(pos)) else old(pos)
    {
      c := Current32();
      if pos < |s| {
        pos := Next(s, pos);
      }
    }

    /** The code point before; the index moves in front of it. */
    method Previous32() returns (c: int)
      requires Valid()
      modifies this`pos
      ensures Valid() && c == if old(pos) > 0 then Current32() else U_SENTINEL
      ensures pos == if old(pos) > 0 then Previous(s, old(pos)) else 0
    {
      c := U_SENTINEL;
      if pos > 0 {
        BoundaryStep(s, pos);
        pos := Previous(s, pos);
        c := Current32();
      }
    }

    /** Moves forward by n code points, or to the end. */
    method MoveIndex32(n: nat)
      requires Valid()
      modifies this`pos
      ensures Valid() && pos == After(s, old(pos), n)
    {
      var left := n;
      while left > 0 && pos < |s|
        invariant Valid() && After(s, pos, left) == After(s, old(pos), n)
      {
        pos := Next(s, pos);
        left := left - 1;
      }
    }
  }

  /** The index n code points after i, or the end. */
  function After(s: seq<Unit>, i: nat, n: nat): (r: nat)
    requires i <= |s|
    ensures i <= r <= |s| && (r < |s| ==> r >= i + n)
    decreases n
  {
    if n == 0 || i == |s| then i else After(s, Next(s, i), n - 1)
  }
}
