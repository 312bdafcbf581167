/** The byte buffer of the trie builder, which is filled from its end towards its start. */
module TrieBuffer {
  import opened Basics
  import opened Trie
  import opened TrieCodec

  class Buffer {
    var bytes: array<Byte>
    var bytesLength: nat

    /** Have all split-branch deltas so far fit into three bytes, and all jumps into 32 bits? */
    ghost var deltasOk: bool

    ghost predicate Valid()
      reads this
    {
      && bytesLength <= bytes.Length && bytes.Length > 0
      && (bytesLength <= kMaxThreeByteDelta ==> deltasOk)
    }

    /** What has been written, in reading order. */
    ghost function Contents(): (s: seq<Byte>)
      requires Valid()
      reads this, bytes
      ensures |s| == bytesLength
    {
      bytes[bytes.Length - bytesLength..]
    }

    constructor (capacity: nat)
      requires capacity > 0
      ensures Valid() && Contents() == [] && fresh(bytes) && deltasOk
    {
      bytes := new Byte[capacity](_ => 0);
      bytesLength := 0;
      deltasOk := true;
    }

    /** Makes room for length bytes; the contents move to the end of a larger array. */
    method EnsureCapacity(length: nat)
      requires Valid() && length >= bytesLength
      modifies this`bytes
      ensures Valid() && length <= bytes.Length
      ensures bytes == old(bytes) || fresh(bytes)
      ensures Contents() == old(Contents())
    {
      if length > bytes.Length {
        var newCapacity := bytes.Length;
        newCapacity := newCapacity * 2;
        while newCapacity <= length
          invariant newCapacity > bytes.Length
          decreases length - newCapacity
        {
          newCapacity := newCapacity * 2;
        }
        var newBytes := new Byte[newCapacity](_ => 0);
        var from, to := bytes.Length - bytesLength, newCapacity - bytesLength;
        forall k | 0 <= k < bytesLength {
          newBytes[to + k] := bytes[from + k];
        }
        assert newBytes[to..] == bytes[from..];
        bytes := newBytes;
      }
    }

    /** Writes one byte in front of the contents, and returns the new length. */
    method Write(b: Byte) returns (offset: nat)
      requires Valid()
      modifies this, bytes
      ensures deltasOk == old(deltasOk)
      ensures Valid() && (bytes == old(bytes) || fresh(bytes))
      ensures Contents() == [b] + old(Contents()) && offset == bytesLength
    {
      var newLength := bytesLength + 1;
      EnsureCapacity(newLength);
      ghost var was := Contents();
      bytesLength := newLength;
      var from := bytes.Length - bytesLength;
      bytes[from] := b;
      assert bytes[from + 1..] == was;
      assert bytes[from..] == [bytes[from]] + bytes[from + 1..];
      offset := bytesLength;
    }

    /** Writes several bytes in front of the contents. */
    method WriteBytes(b: seq<Byte>) returns (offset: nat)
      requires Valid()
      modifies this, bytes
      ensures deltasOk == old(deltasOk)
      ensures Valid() && (bytes == old(bytes) || fresh(bytes))
      ensures Contents() == b + old(Contents()) && offset == bytesLength
    {
      var newLength := bytesLength + |b|;
      EnsureCapacity(newLength);
      ghost var was := Contents();
      bytesLength := newLength;
      var from := bytes.Length - bytesLength;
      forall k | 0 <= k < |b| {
        bytes[from + k] := b[k];
      }
      assert bytes[from + |b|..] == was;
      assert bytes[from..from + |b|] == b;
      offset := bytesLength;
    }

    /** Writes a value with its final bit. */
    method WriteValueAndFinal(i: int, isFinal: bool) returns (offset: nat)
      requires Valid() && (IsInt32(i) || 0 <= i <= bytesLength)
      modifies this, bytes
      ensures deltasOk == (old(deltasOk) && IsInt32(i))
      ensures Valid() && (bytes == old(bytes) || fresh(bytes))
      ensures Contents() == ValueBytes(i, isFinal) + old(Contents()) && offset == bytesLength
    {
      deltasOk := deltasOk && IsInt32(i);
      hide ValueBytes;
      if 0 <= i <= kMaxOneByteValue {
        ShortValue(i, isFinal);
        offset := Write((kMinOneByteValueLead + i) * 2 + if isFinal then 1 else 0);
      } else {
        var written := LongValueBytes(i, isFinal);
        offset := WriteBytes(written);
      }
    }

    /** The bytes of a value which does not fit into one byte. */
    method LongValueBytes(i: int, isFinal: bool) returns (written: seq<Byte>)
      requires !(0 <= i <= kMaxOneByteValue)
      ensures written == ValueBytes(i, isFinal)
    {
      var intBytes, length := LongValueTail(i);
      hide ValueBytes, ValueLead, ValueRest, ValueTail;
      intBytes[0] := ValueLead(i) * 2 + if isFinal then 1 else 0;
      written := intBytes[..length];
      assert written[1..] == intBytes[1..length];
      LongValue(i, isFinal, written);
    }

    /** The bytes after the lead byte of a value which does not fit into one byte. */
    method LongValueTail(i: int) returns (intBytes: array<Byte>, length: nat)
      requires !(0 <= i <= kMaxOneByteValue)
      ensures fresh(intBytes) && intBytes.Length == 5 && 1 <= length <= 5
      ensures intBytes[1..length] == ValueRest(i)
    {
      intBytes := new Byte[5];
      length := 1;
      if i < 0 || i > 0xff_ffff {
        var u := Unsigned(i);
        intBytes[1] := u / 0x100_0000 % 0x100;
        intBytes[2] := u / 0x1_0000 % 0x100;
        intBytes[3] := u / 0x100 % 0x100;
        intBytes[4] := u % 0x100;
        length := 5;
      } else {
        if i > kMaxTwoByteValue {
          if i > kMaxThreeByteValue {
            intBytes[1] := i / 0x1_0000 % 0x100;
            length := 2;
          }
          intBytes[length] := i / 0x100 % 0x100;
          length := length + 1;
        }
        intBytes[length] := i % 0x100;
        length := length + 1;
      }
    }

    /** Writes the delta from here to an offset which was returned earlier. */
    method WriteDeltaTo(jumpTarget: nat) returns (offset: nat, ghost junk: seq<Byte>)
      requires Valid() && jumpTarget <= bytesLength
      modifies this, bytes
      ensures Valid() && (bytes == old(bytes) || fresh(bytes))
      ensures |junk| == 2 && offset == bytesLength
      ensures deltasOk == (old(deltasOk) && old(bytesLength) - jumpTarget <= kMaxThreeByteDelta)
      ensures Contents() == DeltaBytes(old(bytesLength) - jumpTarget, junk) + old(Contents())
    {
      var i := bytesLength - jumpTarget;
      deltasOk := deltasOk && i <= kMaxThreeByteDelta;
      if i <= kMaxOneByteDelta {
        offset := Write(i);
        junk := [0, 0];
        return;
      }
      hide DeltaBytes;
      var intBytes, length;
      intBytes, length, junk := LongDelta(i);
      offset := WriteBytes(intBytes[..length]);
    }

    /** The bytes of a delta which does not fit into one byte; a fresh buffer holds any bytes. */
    method LongDelta(i: nat) returns (intBytes: array<Byte>, length: nat, ghost junk: seq<Byte>)
      requires kMaxOneByteDelta < i
      ensures fresh(intBytes) && length <= intBytes.Length && |junk| == 2
      ensures intBytes[..length] == DeltaBytes(i, junk)
    {
      intBytes := new Byte[5];
      junk := [intBytes[2], intBytes[3]];
      if i <= kMaxTwoByteDelta {
        intBytes[0] := kMinTwoByteDeltaLead + i / 0x100;
        length := 1;
      } else {
        if i <= kMaxThreeByteDelta {
          intBytes[0] := kMinThreeByteDeltaLead + i / 0x1_0000;
          length := 2;
        } else {
          if i <= 0xff_ffff {
            intBytes[0] := kFourByteDeltaLead;
            length := 3;
          } else {
            intBytes[0] := kFiveByteDeltaLead;
            intBytes[1] := i / 0x100_0000 % 0x100;
            length := 4;
          }
          intBytes[1] := i / 0x1_0000 % 0x100;
        }
        intBytes[1] := i / 0x100 % 0x100;
      }
      intBytes[length] := i % 0x100;
      length := length + 1;
    }

    /** Writes a node lead byte, with an intermediate value in front of it. */
    method WriteValueAndType(hasValue: bool, value: int, node: Byte) returns (offset: nat)
      requires Valid() && IsInt32(value)
      modifies this, bytes
      ensures Valid() && (bytes == old(bytes) || fresh(bytes))
      ensures offset == bytesLength && deltasOk == old(deltasOk)
      ensures Contents() == (if hasValue then ValueBytes(value, false) else []) + ([node] + old(Contents()))
    {
      offset := Write(node);
      if hasValue {
        offset := WriteValueAndFinal(value, false);
      }
    }
  }
}
