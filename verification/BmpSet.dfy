/** The frozen set: table lookups refine membership in the inversion list. */
module BmpSet {
  import opened Basics
  import opened Bits
  import opened InversionList
  import opened BitTables
  import opened Utf16
  import opened Utf8

  const REPLACEMENT := 0xfffd

  /** asciiBytes: membership for ASCII, and that of U+FFFD for trail bytes. */
  ghost predicate AsciiTable(list: seq<int>, bytes: seq<bool>) {
    && |bytes| == 0xc0
    && (forall c :: 0 <= c < 0x80 ==> (bytes[c] <==> In(list, c)))
    && (forall c :: 0x80 <= c < 0xc0 ==> (bytes[c] <==> In(list, REPLACEMENT)))
  }

  /** table7FF: membership for U+0080..U+07FF, and that of U+FFFD in the columns for 0..7F. */
  ghost predicate TwoByteTable(list: seq<int>, table: seq<Word>) {
    && |table| == 64
    && forall t, l :: 0 <= t < 64 && 0 <= l < 32 ==>
         (Bit(table[t], l) <==> In(list, if l < 2 then REPLACEMENT else l * 64 + t))
  }

  /** Blocks below U+0800 and surrogate blocks hold the value of U+FFFD. */
  predicate IllegalBlock(b: int) {
    b < 0x20 || 0x360 <= b < 0x380
  }

  ghost predicate BlockTable(list: seq<int>, table: seq<Word>) {
    && |table| == 64
    && (forall b :: 0 <= b < 0x400 && IllegalBlock(b) ==>
          (Lower(table, b) <==> In(list, REPLACEMENT)) && !Upper(table, b))
    && (forall b :: 0 <= b < 0x400 && !IllegalBlock(b) ==> Described(list, table, b))
  }

  /** The first code point for which the search may start at list4kStarts[i]. */
  function StartOf(i: nat): int {
    if i == 0 then 0x800 else i * 0x1000
  }

  ghost predicate Starts(list: seq<int>, starts: seq<int>) {
    && |starts| == 18
    && (forall i :: 0 <= i <= 0x10 ==> IsIndex(list, StartOf(i), starts[i]))
    && starts[0x11] == |list| - 1
  }

  /** The smallest index i in lo..hi with c < list[i], or hi. */
  method FindCodePoint(list: seq<int>, c: int, lo: int, hi: int) returns (i: int)
    requires IsInversionList(list) && 0 <= lo <= hi < |list|
    ensures lo <= i <= hi
    ensures i > lo ==> list[i - 1] <= c
    ensures i < hi ==> c < list[i]
  {
    if c < list[lo] {
      return lo;
    }
    if lo >= hi || c >= list[hi - 1] {
      return hi;
    }
    var low, high := lo, hi;
    while true
      invariant lo <= low < high <= hi
      invariant list[low] <= c && (high < hi ==> c < list[high])
      invariant high == hi ==> c < list[hi - 1]
      decreases high - low
    {
      i := (low + high) / 2;
      if i == low {
        break;
      } else if c < list[i] {
        high := i;
      } else {
        low := i;
      }
    }
    i := high;
  }

  /** Does every one of these code points have the given membership? */
  ghost predicate AllAre(list: seq<int>, cps: seq<int>, condition: bool) {
    forall c :: c in cps ==> (In(list, c) <==> condition)
  }

  /** The code points before limit have the given membership, the one at limit has not. */
  ghost predicate PrefixEndsAt(list: seq<int>, s: seq<Unit>, condition: bool, limit: int) {
    && Boundary(s, limit)
    && AllAre(list, Decode(s[..limit]), condition)
    && (limit < |s| ==> (In(list, CodePointAt(s, limit)) <==> !condition))
  }

  /** The code points after start have the given membership, the one before start has not. */
  ghost predicate SuffixStartsAt(list: seq<int>, s: seq<Unit>, condition: bool, start: int) {
    && Boundary(s, start)
    && AllAre(list, Decode(s[start..]), condition)
    && (start > 0 ==> (In(list, CodePointAt(s, Previous(s, start))) <==> !condition))
  }

  /** The first k code points of a UTF-8 text have the given membership and end at offset i. */
  ghost predicate SpansTo(list: seq<int>, cps: seq<int>, condition: bool, k: nat, i: int) {
    && AllScalar(cps) && k <= |cps|
    && i == Offset(cps, k)
    && AllAre(list, cps[..k], condition)
  }

  /** i is the offset after the longest prefix whose code points all have the given membership. */
  ghost predicate SpanEndsAt(list: seq<int>, cps: seq<int>, condition: bool, i: int) {
    exists k: nat :: SpansTo(list, cps, condition, k, i) && (k < |cps| ==> (In(list, cps[k]) <==> !condition))
  }

  ghost predicate Encodes(s: seq<Byte>, cps: seq<int>) {
    AllScalar(cps) && s == Encode(cps)
  }

  /** The code point whose membership decides for the sequence at i; U+FFFD for an illegal one. */
  function ValueAt(s: seq<Byte>, i: int): int
    requires 0 <= i < |s| && LeadComplete(s, i)
  {
    if IsShortest(LengthAt(s, i), BitsAt(s, i)) then BitsAt(s, i) else REPLACEMENT
  }

  /**
   Where a span ends which has come to i: after all sequences with the given membership, where each byte of an illegal
   sequence, and an incomplete sequence at the end as a whole, count like U+FFFD.
   */
  ghost function Spanned(list: seq<int>, s: seq<Byte>, condition: bool, i: nat): (end: nat)
    requires i <= |s| && s != []
    ensures i <= end <= |s|
    decreases |s| - i
  {
    if i == |s| then i
    else if i >= |s| - Incomplete(s) then
      if In(list, REPLACEMENT) == condition then |s| else i
    else
      BeforeIncomplete(s, i);
      if In(list, ValueAt(s, i)) == condition then Spanned(list, s, condition, i + LengthAt(s, i)) else i
  }

  class BMPSet {
    const list: seq<int>
    const asciiBytes: array<bool>
    const table7FF: array<Word>
    const bmpBlockBits: array<Word>
    const list4kStarts: array<int>

    ghost predicate Valid()
      reads this, asciiBytes, table7FF, bmpBlockBits, list4kStarts
    {
      && IsInversionList(list)
      && AsciiTable(list, asciiBytes[..])
      && TwoByteTable(list, table7FF[..])
      && BlockTable(list, bmpBlockBits[..])
      && Starts(list, list4kStarts[..])
    }

    constructor (parentList: seq<int>)
      requires IsInversionList(parentList)
      ensures Valid() && list == parentList
      ensures fresh(asciiBytes) && fresh(table7FF) && fresh(bmpBlockBits) && fresh(list4kStarts)
    {
      list := parentList;
      asciiBytes := new bool[0xc0](_ => false);
      table7FF := new Word[64](_ => 0);
      bmpBlockBits := new Word[64](_ => 0);
      list4kStarts := new int[18](_ => 0);
      new;
      FindStarts();
      InitBits();
      OverrideIllegal();
    }

    /** Fills list4kStarts with the search indexes for U+0800, U+1000, .., U+10000. */
    method FindStarts()
      requires IsInversionList(list) && list4kStarts.Length == 18
      modifies list4kStarts
      ensures Starts(list, list4kStarts[..])
    {
      list4kStarts[0] := FindCodePoint(list, 0x800, 0, |list| - 1);
      var i := 1;
      while i <= 0x10
        invariant 1 <= i <= 0x11
        invariant forall j :: 0 <= j < i ==> IsIndex(list, StartOf(j), list4kStarts[j])
      {
        list4kStarts[i] := FindCodePoint(list, i * 0x1000, list4kStarts[i - 1], |list| - 1);
        i := i + 1;
      }
      list4kStarts[0x11] := |list| - 1;
    }

    method InitBits()
      requires IsInversionList(list) && asciiBytes.Length == 0xc0
      requires table7FF.Length == 64 && bmpBlockBits.Length == 64 && table7FF != bmpBlockBits
      requires forall c :: 0 <= c < 0xc0 ==> !asciiBytes[c]
      requires forall t :: 0 <= t < 64 ==> table7FF[t] == 0 && bmpBlockBits[t] == 0
      modifies asciiBytes, table7FF, bmpBlockBits
      ensures forall c :: 0 <= c < 0x80 ==> (asciiBytes[c] <==> In(list, c))
      ensures forall c :: 0x80 <= c < 0xc0 ==> !asciiBytes[c]
      ensures forall t, l :: 0 <= t < 64 && 0 <= l < 32 ==>
                (Bit(table7FF[t], l) <==> l >= 2 && In(list, l * 64 + t))
      ensures forall b :: 0 <= b < 0x20 ==> Blank(bmpBlockBits[..], b)
      ensures forall b :: 0x20 <= b < 0x400 ==> Described(list, bmpBlockBits[..], b)
    {
      forall l | 0 <= l < 32
        ensures !Bit(0, l)
      {
        ZeroBit(l);
      }
      var listIndex, start, limit := SetAsciiBytes(list, asciiBytes);
      listIndex, start, limit := SetTable7FF(list, listIndex, start, limit, table7FF);
      SetBlockBits(list, listIndex, start, limit, bmpBlockBits);
    }

    /** Gives the entries for illegal byte sequences the value of U+FFFD. */
    method OverrideIllegal()
      requires Starts(list, list4kStarts[..]) && IsInversionList(list)
      requires asciiBytes.Length == 0xc0 && table7FF.Length == 64 && bmpBlockBits.Length == 64
      requires table7FF != bmpBlockBits
      requires forall c :: 0 <= c < 0x80 ==> (asciiBytes[c] <==> In(list, c))
      requires forall c :: 0x80 <= c < 0xc0 ==> !asciiBytes[c]
      requires forall t, l :: 0 <= t < 64 && 0 <= l < 32 ==>
                (Bit(table7FF[t], l) <==> l >= 2 && In(list, l * 64 + t))
      requires forall b :: 0 <= b < 0x20 ==> Blank(bmpBlockBits[..], b)
      requires forall b :: 0x20 <= b < 0x400 ==> Described(list, bmpBlockBits[..], b)
      modifies asciiBytes, table7FF, bmpBlockBits
      ensures Valid()
    {
      var value := ContainsSlow(REPLACEMENT, 0xf, 0x10);
      ghost var twoByte, blocks := table7FF[..], bmpBlockBits[..];
      if !value {
        assert forall t :: 0 <= t < 64 ==> table7FF[t] == RowWord(twoByte[t], value, 3);
        assert forall t :: 0 <= t < 64 ==> bmpBlockBits[t] == RowWord(blocks[t], value && t < 32, 1);
      } else {
        var i := 0x80;
        while i < 0xc0
          modifies asciiBytes
          invariant 0x80 <= i <= 0xc0
          invariant forall c :: 0 <= c < 0xc0 ==> asciiBytes[c] == old(asciiBytes[c]) || 0x80 <= c < i
          invariant forall c :: 0x80 <= c < i ==> asciiBytes[c]
        {
          asciiBytes[i] := true;
          i := i + 1;
        }
        OrRows(table7FF, 0, 64, 3);
        OrRows(bmpBlockBits, 0, 32, 1);
      }
      assert forall t :: 0 <= t < 64 ==> table7FF[t] == RowWord(twoByte[t], value, 3);
      assert forall t :: 0 <= t < 64 ==> bmpBlockBits[t] == RowWord(blocks[t], value && t < 32, 1);
      ReplaceRows(bmpBlockBits, value);
      TwoByteOverridden(list, twoByte, table7FF[..], value);
      BlocksOverridden(list, blocks, bmpBlockBits[..], value);
    }

    /** Looks c up in the part of the list between two 4k starts. */
    method ContainsSlow(c: int, from: nat, to: nat) returns (r: bool)
      requires IsInversionList(list) && Starts(list, list4kStarts[..])
      requires from < to <= 0x11 && StartOf(from) <= c
      requires c < if to <= 0x10 then StartOf(to) else HIGH
      ensures r <==> In(list, c)
    {
      StartsIncrease(list, list4kStarts[..], from, to);
      var i := FindCodePoint(list, c, list4kStarts[from], list4kStarts[to]);
      IndexParity(list, c, i);
      r := i % 2 == 1;
    }

    /** Membership of a code point in U+0800..U+FFFF other than a surrogate. */
    method LookupBlock(c: int) returns (r: bool)
      requires Valid() && 0x800 <= c < 0x1_0000 && !(0xd800 <= c < 0xe000)
      ensures r <==> In(list, c)
    {
      var lead := c / 0x1000;
      var twoBits := TwoBits(bmpBlockBits[c / 64 % 64], lead);
      ReadTwoBits(bmpBlockBits[c / 64 % 64], lead);
      assert Described(list, bmpBlockBits[..], c / 64);
      if twoBits <= 1 {
        r := twoBits != 0;
      } else {
        r := ContainsSlow(c, lead, lead + 1);
      }
    }

    /** Membership of a code point in U+0000..U+FFFF other than a surrogate. */
    method LookupUnit(c: int) returns (r: bool)
      requires Valid() && 0 <= c < 0x1_0000 && !(0xd800 <= c < 0xe000)
      ensures r <==> In(list, c)
    {
      hide Bit, One, In, BlockTable, Starts, IsInversionList;
      if c <= 0x7f {
        r := asciiBytes[c];
      } else if c <= 0x7ff {
        TestBit(table7FF[c % 64], c / 64);
        r := table7FF[c % 64] & One(c / 64) != 0;
      } else {
        r := LookupBlock(c);
      }
    }

    method Contains(c: int) returns (r: bool)
      requires Valid()
      ensures r <==> 0 <= c <= 0x10_ffff && In(list, c)
    {
      if 0 <= c < 0xd800 || 0xe000 <= c <= 0xffff {
        r := LookupUnit(c);
      } else if 0 <= c <= 0x10_ffff {
        r := ContainsSlow(c, 0xd, 0x11);
      } else {
        r := false;
      }
    }

    /** The end of the longest such prefix of UTF-16 text, see PrefixIsLongest. */
    method Span(s: seq<Unit>, condition: bool) returns (limit: int)
      requires Valid() && |s| > 0
      ensures PrefixEndsAt(list, s, condition, limit)
    {
      hide In, AsciiTable, TwoByteTable, BlockTable;
      limit := 0;
      while limit < |s|
        invariant Boundary(s, limit) && AllAre(list, Decode(s[..limit]), condition)
        decreases |s| - limit
      {
        var c := s[limit];
        var r;
        if c < 0xd800 || 0xe000 <= c {
          r := LookupUnit(c as int);
        } else if c >= 0xdc00 || limit + 1 == |s| || !IsTrail(s[limit + 1]) {
          r := ContainsSlow(c as int, 0xd, 0xe);
        } else {
          r := ContainsSlow(Supplementary(c, s[limit + 1]), 0x10, 0x11);
        }
        if r != condition {
          break;
        }
        DecodeNext(s, limit);
        limit := Next(s, limit);
      }
    }

    /** The start of the longest such suffix of UTF-16 text, see SuffixIsLongest. */
    method SpanBack(s: seq<Unit>, condition: bool) returns (start: int)
      requires Valid() && |s| > 0
      ensures SuffixStartsAt(list, s, condition, start)
    {
      start := |s|;
      assert s[|s|..] == [];
      while true
        invariant 0 < start <= |s|
        invariant Boundary(s, start) && AllAre(list, Decode(s[start..]), condition)
        decreases start
      {
        var limit := start - 1;
        var c := s[limit];
        var r;
        if c < 0xd800 || 0xe000 <= c {
          r := LookupUnit(c as int);
        } else if c < 0xdc00 || limit == 0 || !IsLead(s[limit - 1]) {
          r := ContainsSlow(c as int, 0xd, 0xe);
        } else {
          r := ContainsSlow(Supplementary(s[limit - 1], c), 0x10, 0x11);
          limit := limit - 1;
        }
        assert limit == Previous(s, start);
        if r != condition {
          break;
        }
        DecodePrevious(s, start);
        BoundaryStep(s, start);
        start := limit;
        if start == 0 {
          break;
        }
      }
    }

    /** Finds where to stop before an incomplete sequence at the end of the text. */
    method FindLimit(s: seq<Byte>, start: int, condition: bool) returns (limit: int, limit0: int)
      requires Valid() && 0 <= start < |s|
      ensures limit == |s| - Incomplete(s[start..])
      ensures limit0 == if limit < |s| && In(list, REPLACEMENT) != condition then limit else |s|
    {
      limit, limit0 := |s|, |s|;
      var length := |s| - start;
      var b := s[limit - 1];
      if b >= 0x80 {
        if b < 0xc0 {
          if length >= 2 && s[limit - 2] >= 0xe0 {
            limit := limit - 2;
          } else if length >= 3 && IsTrailByte(s[limit - 2]) && s[limit - 3] >= 0xf0 {
            limit := limit - 3;
          }
        } else {
          limit := limit - 1;
        }
        if limit < |s| && asciiBytes[0x80] != condition {
          limit0 := limit;
        }
      }
    }

    /** Looks up one multi-byte sequence, or the lead byte of an illegal one, and moves after it. */
    method LookupAt(s: seq<Byte>, i: int) returns (r: bool, next: int)
      requires Valid() && 0 <= i < |s| && s[i] >= 0xc0 && LeadComplete(s, i)
      ensures r <==> In(list, ValueAt(s, i))
      ensures next == i + LengthAt(s, i)
    {
      var b := s[i] as int;
      if b >= 0xe0 {
        if b < 0xf0 {
          if IsTrailByte(s[i + 1]) && IsTrailByte(s[i + 2]) {
            r := LookupSequence(b - 0xe0, s[i + 1] as int - 0x80, s[i + 2] as int - 0x80);
            return r, i + 3;
          }
        } else if IsTrailByte(s[i + 1]) && IsTrailByte(s[i + 2]) && IsTrailByte(s[i + 3]) {
          var c := BitsAt(s, i);
          r := asciiBytes[0x80];
          if 0x1_0000 <= c <= 0x10_ffff {
            r := ContainsSlow(c, 0x10, 0x11);
          }
          return r, i + 4;
        }
      } else {
        if IsTrailByte(s[i + 1]) {
          r := LookupTwoByte(b - 0xc0, s[i + 1] as int - 0x80);
          return r, i + 2;
        }
      }
      return asciiBytes[0x80], i + 1;
    }

    /** The value of a two-byte sequence; those for 0..7F have the value of U+FFFD. */
    method LookupTwoByte(lead: int, t1: int) returns (r: bool)
      requires Valid() && 0 <= lead < 32 && 0 <= t1 < 64
      ensures r <==> In(list, if lead < 2 then REPLACEMENT else lead * 0x40 + t1)
    {
      TestBit(table7FF[t1], lead);
      r := table7FF[t1] & One(lead) != 0;
    }

    /** The value of a three-byte sequence; illegal ones have the value of U+FFFD. */
    method LookupSequence(lead: int, t1: int, t2: int) returns (r: bool)
      requires Valid() && 0 <= lead < 16 && 0 <= t1 < 64 && 0 <= t2 < 64
      ensures r <==> In(list, if IllegalBlock(lead * 64 + t1) then REPLACEMENT else lead * 0x1000 + t1 * 0x40 + t2)
    {
      var twoBits := TwoBits(bmpBlockBits[t1], lead);
      ReadTwoBits(bmpBlockBits[t1], lead);
      ghost var block := lead * 64 + t1;
      assert block % 64 == t1 && block / 64 == lead;
      assert !IllegalBlock(block) ==> Described(list, bmpBlockBits[..], block);
      if twoBits <= 1 {
        r := twoBits != 0;
      } else {
        r := ContainsSlow(lead * 0x1000 + t1 * 0x40 + t2, lead, lead + 1);
      }
    }

    /** The end of the longest prefix whose sequences all have the given membership. */
    method SpanUTF8(s: seq<Byte>, condition: bool) returns (limit0: int)
      requires Valid() && |s| > 0
      ensures limit0 == Spanned(list, s, condition, 0)
      ensures forall cps :: Encodes(s, cps) ==> SpanEndsAt(list, cps, condition, limit0)
    {
      hide Encodes, In, SpanEndsAt, ValueAt, LengthAt, Spanned, Incomplete, TwoByteTable, BlockTable, Starts;
      forall cps | Encodes(s, cps)
        ensures SpanEndsAt(list, cps, condition, Spanned(list, s, condition, 0))
      {
        SpanStart(list, s, cps, condition);
        WellFormedSpan(list, s, cps, condition, 0, 0);
      }
      var i := 0;
      var b := s[0];
      while b < 0x80
        invariant 0 <= i < |s| && b == s[i] && forall k :: 0 <= k < i ==> s[k] < 0x80
        invariant Spanned(list, s, condition, i) == Spanned(list, s, condition, 0)
        decreases |s| - i
      {
        AsciiStep(list, s, condition, i);
        if asciiBytes[b] != condition {
          return i;
        }
        i := i + 1;
        if i == |s| {
          SpannedEnd(list, s, condition, i);
          return i;
        }
        b := s[i];
      }
      AsciiBefore(s, i);
      var limit;
      limit, limit0 := FindLimit(s, i, condition);
      while i < limit
        invariant 0 <= i <= limit
        invariant Spanned(list, s, condition, i) == Spanned(list, s, condition, 0)
        decreases |s| - i
      {
        SpannedStep(list, s, condition, i);
        if s[i] < 0xc0 {
          OneByte(s, i);
          if asciiBytes[s[i]] != condition {
            return i;
          }
          i := i + 1;
        } else {
          var r, next := LookupAt(s, i);
          if r != condition {
            return i;
          }
          i := next;
        }
      }
      SpannedEnd(list, s, condition, i);
    }
  }

  lemma SpannedEnd(list: seq<int>, s: seq<Byte>, condition: bool, i: nat)
    requires s != [] && |s| - Incomplete(s) <= i <= |s|
    ensures Spanned(list, s, condition, i) == if i < |s| && In(list, REPLACEMENT) == condition then |s| else i
  {
  }

  /** A sequence in front of an incomplete end does not reach into it. */
  lemma SpannedStep(list: seq<int>, s: seq<Byte>, condition: bool, i: nat)
    requires s != [] && i < |s| - Incomplete(s)
    ensures LeadComplete(s, i) && i + LengthAt(s, i) <= |s| - Incomplete(s)
    ensures Spanned(list, s, condition, i) ==
              if In(list, ValueAt(s, i)) == condition then Spanned(list, s, condition, i + LengthAt(s, i)) else i
  {
    BeforeIncomplete(s, i);
    hide In, Spanned;
  }

  lemma OneByte(s: seq<Byte>, i: nat)
    requires i < |s| && s[i] < 0xc0
    ensures LeadComplete(s, i) && LengthAt(s, i) == 1
    ensures ValueAt(s, i) == if s[i] < 0x80 then s[i] as int else REPLACEMENT
  {
  }

  /**
   What decides for bytes which are not the start of a legal sequence: a trail byte, a lead byte without a trail byte, and
   an incomplete sequence at the end of the text count like U+FFFD.
   */
  lemma IllegalBytes(list: seq<int>, s: seq<Byte>, condition: bool, i: nat)
    requires i < |s| && s[i] >= 0x80
    ensures i + Incomplete(s) < |s| && (s[i] < 0xc0 || (i + 1 < |s| && !(0x80 <= s[i + 1] < 0xc0))) ==>
              Spanned(list, s, condition, i) == if In(list, 0xfffd) == condition then Spanned(list, s, condition, i + 1) else i
    ensures i + 1 == |s| ==> Spanned(list, s, condition, i) == if In(list, 0xfffd) == condition then |s| else i
    ensures i + 2 == |s| && s[i] >= 0xe0 && 0x80 <= s[i + 1] < 0xc0 ==>
              Spanned(list, s, condition, i) == if In(list, 0xfffd) == condition then |s| else i
    ensures i + 3 == |s| && s[i] >= 0xf0 && 0x80 <= s[i + 1] < 0xc0 && 0x80 <= s[i + 2] < 0xc0 ==>
              Spanned(list, s, condition, i) == if In(list, 0xfffd) == condition then |s| else i
  {
    hide In;
    if i + Incomplete(s) < |s| {
      SpannedStep(list, s, condition, i);
      if i + 1 == |s| {
        SpannedEnd(list, s, condition, i + 1);
      }
    }
  }

  /** Overlong forms, surrogates and numbers above 10FFFF count like U+FFFD too; all other sequences like their code points. */
  lemma SequenceValues(s: seq<Byte>, i: nat, c: int)
    requires i < |s| && LeadComplete(s, i)
    ensures LengthAt(s, i) == 2 ==> c == (s[i] as int - 0xc0) * 0x40 + (s[i + 1] as int - 0x80) ==>
              ValueAt(s, i) == if c < 0x80 then 0xfffd else c
    ensures LengthAt(s, i) == 3 ==>
              c == (s[i] as int - 0xe0) * 0x1000 + (s[i + 1] as int - 0x80) * 0x40 + (s[i + 2] as int - 0x80) ==>
              ValueAt(s, i) == if c < 0x800 || 0xd800 <= c < 0xe000 then 0xfffd else c
    ensures LengthAt(s, i) == 4 ==>
              c == (s[i] as int - 0xf0) * 0x4_0000 + (s[i + 1] as int - 0x80) * 0x1000
                   + (s[i + 2] as int - 0x80) * 0x40 + (s[i + 3] as int - 0x80) ==>
              ValueAt(s, i) == if c < 0x1_0000 || c > 0x10_ffff then 0xfffd else c
  {
  }

  lemma AsciiStep(list: seq<int>, s: seq<Byte>, condition: bool, i: nat)
    requires i < |s| && s[i] < 0x80
    ensures Spanned(list, s, condition, i) ==
              if In(list, s[i] as int) == condition then Spanned(list, s, condition, i + 1) else i
  {
    OneByte(s, i);
  }

  /** ASCII bytes in front have nothing to do with an incomplete end. */
  lemma AsciiBefore(s: seq<Byte>, i: nat)
    requires i < |s| && forall k :: 0 <= k < i ==> s[k] < 0x80
    ensures Incomplete(s[i..]) == Incomplete(s)
  {
    var t := s[i..];
    assert t[|t| - 1] == s[|s| - 1];
    assert |t| >= 2 ==> t[|t| - 2] == s[|s| - 2];
    assert |t| >= 3 ==> t[|t| - 3] == s[|s| - 3];
  }

  /** In well-formed UTF-8, the span ends after the longest prefix of code points with the given membership. */
  lemma {:induction false} WellFormedSpan(list: seq<int>, s: seq<Byte>, cps: seq<int>, condition: bool, k: nat, i: nat)
    requires Encodes(s, cps) && SpansTo(list, cps, condition, k, i) && i <= |s| && s != []
    ensures SpanEndsAt(list, cps, condition, Spanned(list, s, condition, i))
    decreases |s| - i
  {
    hide Encodes, In, SpansTo, SpanEndsAt, ValueAt, LengthAt, Incomplete, LeadComplete;
    if i == |s| {
      StepEnd(list, s, cps, condition, k, i);
    } else {
      NoIncomplete(s, cps);
      StepTo(list, s, cps, condition, k, i);
      if In(list, cps[k]) == condition {
        WellFormedSpan(list, s, cps, condition, k + 1, i + LengthAt(s, i));
      }
    }
  }

  lemma NoIncomplete(s: seq<Byte>, cps: seq<int>)
    requires Encodes(s, cps) && s != []
    ensures Incomplete(s) == 0
  {
    RestIsComplete(s, cps, 0);
    assert s[0..] == s;
  }

  lemma StartsIncrease(list: seq<int>, starts: seq<int>, from: nat, to: nat)
    requires IsInversionList(list) && Starts(list, starts)
    requires from < to <= 0x11
    ensures 0 <= starts[from] <= starts[to] < |list|
  {
  }

  /** The mask for lead byte 0xED, all bits except 13 and 29. */
  function MaskED(k: nat): Word
    requires k < 16
  {
    !Pair(k)
  }

  lemma MaskEDBit(k: nat, l: nat)
    requires k < 16 && l < 32
    ensures Bit(MaskED(k), l) <==> l != k && l != k + 16
  {
    NotBit(Pair(k), l);
    PairBit(k, l);
  }

  /** The word of a surrogate row with bits k and k+16 cleared. */
  function Masked(word: Word, k: nat): Word
    requires k < 16
  {
    word & MaskED(k)
  }

  /** The word of a surrogate row: bit k becomes value, bit k+16 is cleared. */
  function Replaced(word: Word, value: bool, k: nat): Word
    requires k < 16
  {
    OrIf(Masked(word, k), value, One(k))
  }

  method ReplaceRows(table: array<Word>, value: bool)
    requires table.Length == 64
    modifies table
    ensures forall t :: 0 <= t < 64 ==>
              table[t] == if t < 32 then old(table[t]) else Replaced(old(table[t]), value, 0xd)
  {
    var i := 32;
    while i < 64
      invariant 32 <= i <= 64
      invariant forall t :: 0 <= t < 64 && !(32 <= t < i) ==> table[t] == old(table[t])
      invariant forall t :: 32 <= t < i ==> table[t] == Replaced(old(table[t]), value, 0xd)
    {
      table[i] := Replaced(table[i], value, 0xd);
      i := i + 1;
    }
  }

  lemma MaskedBit(word: Word, k: nat, l: nat)
    requires k < 16 && l < 32
    ensures Bit(Masked(word, k), l) <==> Bit(word, l) && l != k && l != k + 16
  {
    AndBit(word, MaskED(k), l);
    MaskEDBit(k, l);
  }

  lemma ReplacedBit(word: Word, value: bool, k: nat, l: nat)
    requires k < 16 && l < 32
    ensures Bit(Replaced(word, value, k), l) <==>
              if l == k then value else if l == k + 16 then false else Bit(word, l)
  {
    MaskedBit(word, k, l);
    OrIfBit(Masked(word, k), value, One(k), l);
    OneBit(k, l);
  }

  lemma ThreeBit(l: nat)
    requires l < 32
    ensures Bit(3, l) <==> l < 2
  {
    OrIfBit(One(0), true, One(1), l);
    OneBit(0, l);
    OneBit(1, l);
    assert One(0) | One(1) == 3;
  }

  lemma TwoByteOverridden(list: seq<int>, was: seq<Word>, now: seq<Word>, value: bool)
    requires |was| == |now| == 64 && (value <==> In(list, REPLACEMENT))
    requires forall t, l :: 0 <= t < 64 && 0 <= l < 32 ==>
               (Bit(was[t], l) <==> l >= 2 && In(list, l * 64 + t))
    requires forall t :: 0 <= t < 64 ==> now[t] == RowWord(was[t], value, 3)
    ensures TwoByteTable(list, now)
  {
    forall t, l | 0 <= t < 64 && 0 <= l < 32
      ensures Bit(now[t], l) <==> In(list, if l < 2 then REPLACEMENT else l * 64 + t)
    {
      RowWordBit(was[t], value, 3, l);
      ThreeBit(l);
    }
  }

  /** What overriding does to the bits of one block. */
  lemma BlockOverridden(was: seq<Word>, now: seq<Word>, value: bool, b: nat)
    requires |was| == |now| == 64 && b < 0x400 && (b < 0x20 ==> Blank(was, b))
    requires now[b % 64] ==
               if b % 64 < 32 then RowWord(was[b % 64], value, 1) else Replaced(was[b % 64], value, 0xd)
    ensures Lower(now, b) <==> if IllegalBlock(b) then value else Lower(was, b)
    ensures Upper(now, b) <==> if IllegalBlock(b) then false else Upper(was, b)
  {
    hide Bit, One, RowWord, Replaced;
    var t, l := b % 64, b / 64;
    One0();
    OneBit(0, l);
    OneBit(0, l + 16);
    if t < 32 {
      RowWordBit(was[t], value, 1, l);
      RowWordBit(was[t], value, 1, l + 16);
    } else {
      ReplacedBit(was[t], value, 0xd, l);
      ReplacedBit(was[t], value, 0xd, l + 16);
    }
  }

  lemma One0()
    ensures One(0) == 1
  {
  }

  lemma BlocksOverridden(list: seq<int>, was: seq<Word>, now: seq<Word>, value: bool)
    requires |was| == |now| == 64 && (value <==> In(list, REPLACEMENT))
    requires forall b :: 0 <= b < 0x20 ==> Blank(was, b)
    requires forall b :: 0x20 <= b < 0x400 ==> Described(list, was, b)
    requires forall t :: 0 <= t < 64 ==>
               now[t] == if t < 32 then RowWord(was[t], value, 1) else Replaced(was[t], value, 0xd)
    ensures BlockTable(list, now)
  {
    forall b | 0 <= b < 0x400
      ensures Lower(now, b) <==> if IllegalBlock(b) then value else Lower(was, b)
      ensures Upper(now, b) <==> if IllegalBlock(b) then false else Upper(was, b)
    {
      assert b < 0x20 ==> Blank(was, b);
      BlockOverridden(was, now, value, b);
    }
    forall b | 0 <= b < 0x400 && !IllegalBlock(b)
      ensures Described(list, now, b)
    {
      assert Described(list, was, b);
    }
  }

  /** One step of a span over well-formed UTF-8. */
  lemma StepTo(list: seq<int>, s: seq<Byte>, cps: seq<int>, condition: bool, k: nat, i: int)
    requires 0 <= i < |s|
    ensures Encodes(s, cps) && SpansTo(list, cps, condition, k, i) ==>
      && k < |cps|
      && (s[i] >= 0x80 ==> s[i] >= 0xc0)
      && LeadComplete(s, i)
      && ValueAt(s, i) == cps[k]
      && (s[i] < 0x80 ==> LengthAt(s, i) == 1 && cps[k] == s[i] as int)
      && if In(list, cps[k]) <==> condition
         then SpansTo(list, cps, condition, k + 1, i + LengthAt(s, i))
         else SpanEndsAt(list, cps, condition, i)
  {
    if Encodes(s, cps) && SpansTo(list, cps, condition, k, i) {
      OffsetEnd(cps);
      SequenceAt(cps, k);
      SequenceRead(s, i, cps[k]);
    }
  }

  lemma StepEnd(list: seq<int>, s: seq<Byte>, cps: seq<int>, condition: bool, k: nat, i: int)
    requires i == |s|
    ensures Encodes(s, cps) && SpansTo(list, cps, condition, k, i) ==> SpanEndsAt(list, cps, condition, i)
  {
    if Encodes(s, cps) && SpansTo(list, cps, condition, k, i) && k < |cps| {
      SequenceAt(cps, k);
    }
  }

  /** No longer prefix consists of code points with the given membership. */
  lemma PrefixIsLongest(list: seq<int>, s: seq<Unit>, condition: bool, limit: int, i: int)
    requires PrefixEndsAt(list, s, condition, limit)
    requires Boundary(s, i) && AllAre(list, Decode(s[..i]), condition)
    ensures i <= limit
  {
    if limit < i {
      assert s[..i] == s[0..i];
      CodePointIn(s, 0, limit, i);
    }
  }

  /** No longer suffix consists of code points with the given membership. */
  lemma SuffixIsLongest(list: seq<int>, s: seq<Unit>, condition: bool, start: int, i: int)
    requires SuffixStartsAt(list, s, condition, start)
    requires Boundary(s, i) && AllAre(list, Decode(s[i..]), condition)
    ensures start <= i
  {
    if i < start {
      BoundaryStep(s, start);
      assert s[i..] == s[i..|s|];
      CodePointIn(s, i, Previous(s, start), |s|);
    }
  }

  /** On the same code points, the UTF-8 span ends after as many of them as the UTF-16 span. */
  lemma SpansAgree(list: seq<int>, s: seq<Unit>, cps: seq<int>, condition: bool, limit: int, i: int)
    requires AllScalar(cps) && Decode(s) == cps
    requires PrefixEndsAt(list, s, condition, limit) && SpanEndsAt(list, cps, condition, i)
    ensures |Decode(s[..limit])| <= |cps| && i == Offset(cps, |Decode(s[..limit])|)
  {
    DecodeSplit(s, limit);
    var n := |Decode(s[..limit])|;
    var k: nat :| SpansTo(list, cps, condition, k, i) && (k < |cps| ==> (In(list, cps[k]) <==> !condition));
    assert if limit < |s| then Decode(s[limit..])[0] == CodePointAt(s, limit) else s[limit..] == [];
    assert forall j :: 0 <= j < n ==> cps[j] == Decode(s[..limit])[j];
    assert forall j :: 0 <= j < k ==> cps[j] == cps[..k][j];
    assert n < |cps| ==> cps[n] == CodePointAt(s, limit);
  }

  lemma SpanStart(list: seq<int>, s: seq<Byte>, cps: seq<int>, condition: bool)
    ensures Encodes(s, cps) ==> SpansTo(list, cps, condition, 0, 0)
  {
  }
}
