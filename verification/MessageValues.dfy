/** The list of numeric values beside the list of parts. */
module MessageValues {
  import opened Utf16
  import opened MessageParts

  /** An integer, the text of another number, or none. */
  datatype Numeric = NoNumericValue | IntValue(value: int) | DoubleValue(text: seq<Unit>)

  /** The parts with an index into the list of values, in order. */
  ghost function Doubles(parts: seq<Part>): seq<Part> {
    if parts == [] then []
    else
      var n := |parts| - 1;
      Doubles(parts[..n]) + if parts[n].kind == ARG_DOUBLE then [parts[n]] else []
  }

  lemma DoublesAdded(parts: seq<Part>, part: Part)
    ensures Doubles(parts + [part]) == Doubles(parts) + if part.kind == ARG_DOUBLE then [part] else []
  {
    assert (parts + [part])[..|parts|] == parts;
  }

  lemma {:induction false} DoublesUpdated(parts: seq<Part>, k: nat, part: Part)
    requires k < |parts| && parts[k].kind != ARG_DOUBLE && part.kind != ARG_DOUBLE
    ensures Doubles(parts[k := part]) == Doubles(parts)
  {
    var n := |parts| - 1;
    if k < n {
      DoublesUpdated(parts[..n], k, part);
      assert parts[k := part][..n] == parts[..n][k := part];
    } else {
      assert parts[k := part][..n] == parts[..n];
    }
  }

  lemma {:induction false} DoublesHave(parts: seq<Part>, part: Part)
    requires part in parts && part.kind == ARG_DOUBLE
    ensures part in Doubles(parts)
  {
    var n := |parts| - 1;
    if parts[n] != part {
      assert part in parts[..n] by {
        var k :| 0 <= k < |parts| && parts[k] == part;
        assert parts[..n][k] == part;
      }
      DoublesHave(parts[..n], part);
    }
  }

  /** The part number k with an index into the list has the index k, and the value there is the text of the part. */
  ghost predicate ValuesOf(parts: seq<Part>, values: seq<seq<Unit>>, msg: seq<Unit>) {
    var d := Doubles(parts);
    && |d| == |values|
    && forall k :: 0 <= k < |d| ==>
         d[k].value == k && d[k].index + d[k].length <= |msg| && values[k] == msg[d[k].index..d[k].index + d[k].length]
  }

  lemma NoValues(msg: seq<Unit>)
    ensures ValuesOf([], [], msg)
  {
  }

  lemma ValuesKept(parts: seq<Part>, part: Part, values: seq<seq<Unit>>, msg: seq<Unit>)
    requires ValuesOf(parts, values, msg) && part.kind != ARG_DOUBLE
    ensures ValuesOf(parts + [part], values, msg)
  {
    DoublesAdded(parts, part);
  }

  lemma ValueAdded(parts: seq<Part>, part: Part, values: seq<seq<Unit>>, msg: seq<Unit>)
    requires ValuesOf(parts, values, msg) && part.kind == ARG_DOUBLE && part.value == |values|
    requires part.index + part.length <= |msg|
    ensures ValuesOf(parts + [part], values + [msg[part.index..part.index + part.length]], msg)
  {
    DoublesAdded(parts, part);
  }

  lemma ValuesUpdated(parts: seq<Part>, k: nat, part: Part, values: seq<seq<Unit>>, msg: seq<Unit>)
    requires k < |parts| && parts[k].kind != ARG_DOUBLE && part.kind != ARG_DOUBLE && ValuesOf(parts, values, msg)
    ensures ValuesOf(parts[k := part], values, msg)
  {
    DoublesUpdated(parts, k, part);
  }

  /** The value of a part. */
  lemma ValueAt(parts: seq<Part>, part: Part, values: seq<seq<Unit>>, msg: seq<Unit>)
    requires ValuesOf(parts, values, msg) && part in parts && part.kind == ARG_DOUBLE
    ensures 0 <= part.value < |values| && part.index + part.length <= |msg|
    ensures values[part.value] == msg[part.index..part.index + part.length]
  {
    DoublesHave(parts, part);
  }
}
