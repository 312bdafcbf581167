/**
 The tables which BMPSet computes from an inversion list: one byte per ASCII code
 point, one bit per code point below U+0800, and two bits per block of 64 code points.
 */
module BitTables {
  import opened Bits
  import opened InversionList

  /** ORs bits into the words from..to-1 of a bit table. */
  method OrRows(table: array<Word>, from: nat, to: nat, bits: Word)
    requires table.Length == 64 && to <= 64
    modifies table
    ensures forall t :: 0 <= t < 64 ==>
      table[t] == RowWord(old(table[t]), from <= t < to, bits)
  {
    hide OrIf;
    var trail := from;
    while trail < to
      invariant from <= trail && (trail <= to || trail == from)
      invariant forall t :: 0 <= t < 64 ==>
        table[t] == RowWord(old(table[t]), from <= t < trail, bits)
    {
      table[trail] := OrIf(table[trail], true, bits);
      trail := trail + 1;
    }
  }

  /** The word of a row after OrRows. */
  function RowWord(word: Word, inside: bool, bits: Word): Word {
    if inside then OrIf(word, true, bits) else word
  }

  lemma RowWordBit(word: Word, inside: bool, bits: Word, l: nat)
    requires l < 32
    ensures Bit(RowWord(word, inside, bits), l) <==> Bit(word, l) || (inside && Bit(bits, l))
  {
    OrIfBit(word, true, bits, l);
  }

  /** The word of row trail after OR-ing one column part, a rectangle and another column part. */
  function Painted(word: Word, start: int, limit: int, trail: nat): Word
    requires 0 <= start < limit <= 0x800 && trail < 64
  {
    var lead, limitLead := start / 64, limit / 64;
    if lead == limitLead then
      RowWord(word, start % 64 <= trail < limit % 64, One(lead))
    else
      var first := RowWord(word, 0 < start % 64 <= trail, One(lead));
      var from := if start % 64 > 0 then lead + 1 else lead;
      var middle := if from < limitLead then RowWord(first, true, Rectangle(from, limitLead)) else first;
      RowWord(middle, trail < limit % 64, One(if limitLead == 0x20 then limitLead - 1 else limitLead))
  }

  lemma PaintedBit(word: Word, start: int, limit: int, trail: nat, l: nat)
    requires 0 <= start < limit <= 0x800 && trail < 64 && l < 32
    ensures Bit(Painted(word, start, limit, trail), l) <==> Bit(word, l) || start <= l * 64 + trail < limit
  {
    hide Bit, RowWord, One, Rectangle;
    var lead, limitLead := start / 64, limit / 64;
    OneBit(lead, l);
    if lead == limitLead {
      RowWordBit(word, start % 64 <= trail < limit % 64, One(lead), l);
    } else {
      var first := RowWord(word, 0 < start % 64 <= trail, One(lead));
      RowWordBit(word, 0 < start % 64 <= trail, One(lead), l);
      var from := if start % 64 > 0 then lead + 1 else lead;
      var middle := if from < limitLead then RowWord(first, true, Rectangle(from, limitLead)) else first;
      if from < limitLead {
        RowWordBit(first, true, Rectangle(from, limitLead), l);
        RectangleBit(from, limitLead, l);
      }
      var last := if limitLead == 0x20 then limitLead - 1 else limitLead;
      RowWordBit(middle, trail < limit % 64, One(last), l);
      OneBit(last, l);
    }
  }

  /** Sets the bit of every cell l*64+t in start..limit-1 and leaves the others. */
  method Set32x64Bits(table: array<Word>, start: int, limit: int)
    requires table.Length == 64
    requires 0 <= start < limit <= 0x800
    modifies table
    ensures forall t, l :: 0 <= t < 64 && 0 <= l < 32 ==>
              (Bit(table[t], l) <==> old(Bit(table[t], l)) || start <= l * 64 + t < limit)
  {
    hide Bit, OrIf, One, Rectangle;
    var lead := start / 64;
    var trail := start % 64;
    ghost var was := table[..];
    if start + 1 == limit {
      table[trail] := OrIf(table[trail], true, One(lead));
    } else {
      var limitLead := limit / 64;
      var limitTrail := limit % 64;
      if lead == limitLead {
        OrRows(table, trail, limitTrail, One(lead));
      } else {
        if trail > 0 {
          OrRows(table, trail, 64, One(lead));
          lead := lead + 1;
        }
        if lead < limitLead {
          OrRows(table, 0, 64, Rectangle(lead, limitLead));
        }
        var last := if limitLead == 0x20 then limitLead - 1 else limitLead;
        OrRows(table, 0, limitTrail, One(last));
      }
    }
    forall t, l | 0 <= t < 64 && 0 <= l < 32
      ensures Bit(table[t], l) <==> Bit(was[t], l) || start <= l * 64 + t < limit
    {
      if start + 1 == limit {
        OrIfBit(was[trail], true, One(start / 64), l);
        OneBit(start / 64, l);
      } else {
        assert table[t] == Painted(was[t], start, limit, t);
        PaintedBit(was[t], start, limit, t, l);
      }
    }
  }

  /** Bits b and b+1024 of a vertical block table: "some" and "mixed". */
  predicate Lower(table: seq<Word>, b: nat)
    requires |table| == 64
  {
    Bit(table[b % 64], b / 64)
  }

  predicate Upper(table: seq<Word>, b: nat)
    requires |table| == 64
  {
    Bit(table[b % 64], b / 64 + 16)
  }

  /** Marks a block of 64 code points as mixed. */
  method MarkMixed(table: array<Word>, block: nat)
    requires table.Length == 64 && block < 0x400
    modifies table
    ensures forall b :: 0 <= b < 0x400 ==>
      (Lower(table[..], b) <==> old(Lower(table[..], b)) || b == block)
    ensures forall b :: 0 <= b < 0x400 ==>
      (Upper(table[..], b) <==> old(Upper(table[..], b)) || b == block)
  {
    ghost var was := table[..];
    table[block % 64] := OrIf(table[block % 64], true, Pair(block / 64));
    forall b | 0 <= b < 0x400
      ensures Lower(table[..], b) <==> Lower(was, b) || b == block
      ensures Upper(table[..], b) <==> Upper(was, b) || b == block
    {
      if b % 64 == block % 64 {
        OrIfBit(was[b % 64], true, Pair(block / 64), b / 64);
        OrIfBit(was[b % 64], true, Pair(block / 64), b / 64 + 16);
        PairBit(block / 64, b / 64);
        PairBit(block / 64, b / 64 + 16);
      }
    }
  }

  /** Marks the blocks from..to-1 as lying wholly inside the set. */
  method MarkFull(table: array<Word>, from: nat, to: nat)
    requires table.Length == 64 && from < to <= 0x400
    modifies table
    ensures forall b :: 0 <= b < 0x400 ==>
      (Lower(table[..], b) <==> old(Lower(table[..], b)) || from <= b < to)
    ensures forall b :: 0 <= b < 0x400 ==>
      (Upper(table[..], b) <==> old(Upper(table[..], b)))
  {
    Set32x64Bits(table, from, to);
  }

  ghost predicate Meets(list: seq<int>, block: int) {
    exists c :: block * 64 <= c < block * 64 + 64 && In(list, c)
  }

  ghost predicate Leaves(list: seq<int>, block: int) {
    exists c :: block * 64 <= c < block * 64 + 64 && !In(list, c)
  }

  /** The two bits of a block say whether it meets the set and whether it is mixed. */
  ghost predicate Described(list: seq<int>, table: seq<Word>, block: nat)
    requires |table| == 64
  {
    && (Lower(table, block) <==> Meets(list, block))
    && (Upper(table, block) <==> Meets(list, block) && Leaves(list, block))
  }

  ghost predicate Blank(table: seq<Word>, block: nat)
    requires |table| == 64
  {
    !Lower(table, block) && !Upper(table, block)
  }

  /** The list position between two ranges of the set, with start..limit the rest of a range. */
  ghost predicate AtRange(list: seq<int>, listIndex: int, start: int, limit: int) {
    && 1 <= listIndex <= |list|
    && (listIndex % 2 == 0 ==> list[listIndex - 2] <= start < limit == list[listIndex - 1])
    && (listIndex % 2 == 1 ==> listIndex == |list| && start == limit == HIGH)
  }

  function RangeStart(list: seq<int>, listIndex: int): int
    requires 1 <= listIndex <= |list| && (listIndex % 2 == 0 || listIndex == |list|)
  {
    list[if listIndex % 2 == 0 then listIndex - 2 else listIndex - 1]
  }

  lemma RangeContents(list: seq<int>, listIndex: int, start: int, limit: int)
    requires IsInversionList(list) && AtRange(list, listIndex, start, limit)
    ensures forall c :: start <= c < limit ==> In(list, c)
    ensures listIndex < |list| ==> forall c :: limit <= c < list[listIndex] ==> !In(list, c)
    ensures start == RangeStart(list, listIndex) > 0 ==> !In(list, start - 1)
  {
    forall c | start <= c < limit
      ensures In(list, c)
    {
      RangeMember(list, listIndex - 2, c);
    }
    if listIndex < |list| {
      forall c | limit <= c < list[listIndex]
        ensures !In(list, c)
      {
        RangeMember(list, listIndex - 1, c);
      }
    }
    if start == RangeStart(list, listIndex) > 0 {
      var i := if listIndex % 2 == 0 then listIndex - 2 else listIndex - 1;
      assert IsIndex(list, start - 1, i);
      IndexParity(list, start - 1, i);
    }
  }

  /** Reads the next range; the code points between two ranges are not in the set. */
  method NextRange(list: seq<int>, index: int) returns (listIndex: int, start: int, limit: int)
    requires IsInversionList(list) && 0 <= index < |list| && index % 2 == 0
    ensures AtRange(list, listIndex, start, limit)
    ensures start == list[index] && listIndex == if index + 1 < |list| then index + 2 else index + 1
    ensures index == 0 ==> forall c :: c < start ==> !In(list, c)
    ensures index > 0 ==> forall c :: list[index - 1] <= c < start ==> !In(list, c)
  {
    start := list[index];
    listIndex := index + 1;
    if listIndex < |list| {
      limit := list[listIndex];
      listIndex := listIndex + 1;
    } else {
      limit := HIGH;
    }
    if index == 0 {
      forall c | c < start
        ensures !In(list, c)
      {
        assert IsIndex(list, c, 0);
        IndexParity(list, c, 0);
      }
    } else {
      forall c | list[index - 1] <= c < start
        ensures !In(list, c)
      {
        RangeMember(list, index - 1, c);
      }
    }
  }

  /** Sets asciiBytes[0..0x7f], and returns the first range not wholly below 0x80. */
  method SetAsciiBytes(list: seq<int>, bytes: array<bool>)
    returns (listIndex: int, start: int, limit: int)
    requires IsInversionList(list) && bytes.Length == 0xc0
    requires forall c :: 0 <= c < 0xc0 ==> !bytes[c]
    modifies bytes
    ensures forall c :: 0 <= c < 0x80 ==> (bytes[c] <==> In(list, c))
    ensures forall c :: 0x80 <= c < 0xc0 ==> !bytes[c]
    ensures AtRange(list, listIndex, start, limit)
    ensures 0x80 <= start && forall c :: 0x80 <= c < start ==> !In(list, c)
    ensures start == 0x80 || start == RangeStart(list, listIndex)
  {
    listIndex, start, limit := NextRange(list, 0);
    while start < 0x80
      invariant AtRange(list, listIndex, start, limit)
      invariant start == RangeStart(list, listIndex)
      invariant forall c :: 0 <= c < 0xc0 ==> (bytes[c] <==> c < start && c < 0x80 && In(list, c))
      invariant forall c :: 0x80 <= c < start ==> !In(list, c)
      decreases |list| - listIndex
    {
      RangeContents(list, listIndex, start, limit);
      ghost var first := start;
      while start < limit && start < 0x80
        invariant first <= start <= limit && start <= 0x80
        invariant forall c :: 0 <= c < 0xc0 ==> (bytes[c] <==> c < start && c < 0x80 && In(list, c))
      {
        bytes[start] := true;
        start := start + 1;
      }
      if limit > 0x80 {
        break;
      }
      listIndex, start, limit := NextRange(list, listIndex);
    }
  }

  /** Sets table7FF from U+0080 on, and returns the first range not wholly below 0x800. */
  method SetTable7FF(list: seq<int>, index: int, start0: int, limit0: int, table: array<Word>)
    returns (listIndex: int, start: int, limit: int)
    requires IsInversionList(list) && AtRange(list, index, start0, limit0)
    requires 0x80 <= start0 && forall c :: 0x80 <= c < start0 ==> !In(list, c)
    requires start0 == 0x80 || start0 == RangeStart(list, index)
    requires table.Length == 64 && forall t, l :: 0 <= t < 64 && 0 <= l < 32 ==> !Bit(table[t], l)
    modifies table
    ensures forall t, l :: 0 <= t < 64 && 0 <= l < 32 ==>
              (Bit(table[t], l) <==> l >= 2 && In(list, l * 64 + t))
    ensures AtRange(list, listIndex, start, limit)
    ensures 0x800 <= start && forall c :: 0x800 <= c < start ==> !In(list, c)
    ensures start == 0x800 || start == RangeStart(list, listIndex)
  {
    listIndex, start, limit := index, start0, limit0;
    while start < 0x800
      invariant AtRange(list, listIndex, start, limit) && 0x80 <= start
      invariant start == 0x80 || start == RangeStart(list, listIndex)
      invariant forall t, l :: 0 <= t < 64 && 0 <= l < 32 ==>
                  (Bit(table[t], l) <==> 0x80 <= l * 64 + t < start && In(list, l * 64 + t))
      invariant forall c :: 0x800 <= c < start ==> !In(list, c)
      decreases |list| - listIndex
    {
      RangeContents(list, listIndex, start, limit);
      Set32x64Bits(table, start, if limit <= 0x800 then limit else 0x800);
      if limit > 0x800 {
        start := 0x800;
        break;
      }
      listIndex, start, limit := NextRange(list, listIndex);
    }
  }

  /** The blocks below minStart, and those before start, are described; the rest is blank. */
  ghost predicate BlocksDone(list: seq<int>, table: seq<Word>, minStart: int, start: int)
    requires |table| == 64
  {
    && (forall b :: 0 <= b < 0x20 ==> Blank(table, b))
    && (forall b :: 0x20 <= b < 0x400 && (b * 64 < minStart || b * 64 + 64 <= start) ==> Described(list, table, b))
    && (forall b :: 0x20 <= b < 0x400 && minStart <= b * 64 && start < b * 64 + 64 ==> Blank(table, b))
  }

  ghost predicate Touches(block: int, start: int, limit: int) {
    start < limit && start < block * 64 + 64 && block * 64 < limit
  }

  ghost predicate Inside(block: int, start: int, limit: int) {
    start <= block * 64 && block * 64 + 64 <= limit
  }

  function RoundUp(c: int): int {
    if c % 64 == 0 then c else c / 64 * 64 + 64
  }

  /** The block boundary before which no later range may be recorded. */
  function NextMinStart(start: int, limit: int, minStart: int): int {
    if start >= limit then minStart
    else if limit % 64 != 0 then RoundUp(limit)
    else if start % 64 != 0 then RoundUp(start)
    else minStart
  }

  /** What recording the range start..limit-1 does to the two bits of a block. */
  ghost predicate RangeAdded(was: seq<Word>, now: seq<Word>, start: int, limit: int, b: nat)
    requires |was| == |now| == 64
  {
    && (Lower(now, b) <==> Lower(was, b) || Touches(b, start, limit))
    && (Upper(now, b) <==> Upper(was, b) || (Touches(b, start, limit) && !Inside(b, start, limit)))
  }

  /** Records start..limit-1: blocks inside it become full, blocks cut by its ends mixed. */
  method AddRange(table: array<Word>, start0: int, limit0: int, minStart0: int)
    returns (limit: int, minStart: int)
    requires table.Length == 64 && 0 <= start0 && 0 <= limit0 <= 0x1_0000
    modifies table
    ensures forall b :: 0 <= b < 0x400 ==> RangeAdded(old(table[..]), table[..], start0, limit0, b)
    ensures minStart == NextMinStart(start0, limit0, minStart0)
    ensures limit == limit0 || (limit == RoundUp(limit0) == minStart)
  {
    var start := start0;
    limit, minStart := limit0, minStart0;
    if start < limit {
      if start % 64 != 0 {
        start := start / 64;
        MarkMixed(table, start);
        start := (start + 1) * 64;
        minStart := start;
      }
      if start < limit {
        if start < limit - limit % 64 {
          MarkFull(table, start / 64, limit / 64);
        }
        if limit % 64 != 0 {
          limit := limit / 64;
          MarkMixed(table, limit);
          limit := (limit + 1) * 64;
          minStart := limit;
        }
      }
    }
  }

  /** One block after recording the range start..limit-1, when the next range begins at next. */
  lemma BlockStep(list: seq<int>, was: seq<Word>, now: seq<Word>, listIndex: int,
                  start: int, limit: int, minStart: int, next: int, b: nat)
    requires IsInversionList(list) && AtRange(list, listIndex, start, limit)
    requires start == 0x800 || start == RangeStart(list, listIndex)
    requires 0x800 <= start < 0x1_0000 && 0x800 <= minStart <= 0x1_0000 && minStart % 64 == 0
    requires |was| == |now| == 64 && BlocksDone(list, was, minStart, start)
    requires limit <= next && forall c :: limit <= c < next ==> !In(list, c)
    requires 0x20 <= b < 0x400
    requires RangeAdded(was, now, Max(start, minStart), Min(limit, 0x1_0000), b)
    ensures var minStart' := NextMinStart(Max(start, minStart), Min(limit, 0x1_0000), minStart);
      && (b * 64 < minStart' || b * 64 + 64 <= next ==> Described(list, now, b))
      && (minStart' <= b * 64 && next < b * 64 + 64 ==> Blank(now, b))
  {
    var s, lim := Max(start, minStart), Min(limit, 0x1_0000);
    hide Lower, Upper, In;
    RangeContents(list, listIndex, start, limit);
    if b * 64 < minStart || b * 64 + 64 <= start {
      assert Described(list, was, b);
    } else {
      assert Blank(was, b);
      if Touches(b, s, lim) {
        assert In(list, Max(s, b * 64));
        if !Inside(b, s, lim) {
          assert !In(list, if s > b * 64 then start - 1 else limit);
        }
      }
    }
  }

  lemma RangeStep(list: seq<int>, was: seq<Word>, now: seq<Word>, listIndex: int,
                  start: int, limit: int, minStart: int, next: int)
    requires IsInversionList(list) && AtRange(list, listIndex, start, limit)
    requires start == 0x800 || start == RangeStart(list, listIndex)
    requires 0x800 <= start < 0x1_0000 && 0x800 <= minStart <= 0x1_0000 && minStart % 64 == 0
    requires |was| == |now| == 64 && BlocksDone(list, was, minStart, start)
    requires limit <= next && forall c :: limit <= c < next ==> !In(list, c)
    requires var s, lim := Max(start, minStart), Min(limit, 0x1_0000);
      forall b :: 0 <= b < 0x400 ==> RangeAdded(was, now, s, lim, b)
    ensures BlocksDone(list, now, NextMinStart(Max(start, minStart), Min(limit, 0x1_0000), minStart), next)
  {
    var s, lim := Max(start, minStart), Min(limit, 0x1_0000);
    forall b | 0 <= b < 0x20
      ensures Blank(now, b)
    {
      assert Blank(was, b) && RangeAdded(was, now, s, lim, b);
    }
    var minStart' := NextMinStart(s, lim, minStart);
    forall b | 0x20 <= b < 0x400
      ensures b * 64 < minStart' || b * 64 + 64 <= next ==> Described(list, now, b)
      ensures minStart' <= b * 64 && next < b * 64 + 64 ==> Blank(now, b)
    {
      BlockStep(list, was, now, listIndex, start, limit, minStart, next, b);
    }
  }

  lemma NoBlocksYet(list: seq<int>, table: seq<Word>, start: int)
    requires |table| == 64 && forall b :: 0 <= b < 0x400 ==> Blank(table, b)
    requires 0x800 <= start && forall c :: 0x800 <= c < start ==> !In(list, c)
    ensures BlocksDone(list, table, 0x800, start)
  {
    forall b | 0x20 <= b < 0x400 && b * 64 + 64 <= start
      ensures Described(list, table, b)
    {
      assert Blank(table, b);
      assert forall c :: b * 64 <= c < b * 64 + 64 ==> !In(list, c);
    }
  }

  lemma AllBlocksDone(list: seq<int>, table: seq<Word>, minStart: int, done: int)
    requires |table| == 64 && BlocksDone(list, table, minStart, done)
    requires minStart == 0x1_0000 || done >= 0x1_0000
    ensures forall b :: 0 <= b < 0x20 ==> Blank(table, b)
    ensures forall b :: 0x20 <= b < 0x400 ==> Described(list, table, b)
  {
    assert forall b :: 0x20 <= b < 0x400 ==> b * 64 < minStart || b * 64 + 64 <= done;
  }

  function Max(a: int, b: int): int { if a < b then b else a }
  function Min(a: int, b: int): int { if a < b then a else b }

  /** Sets bmpBlockBits from U+0800 on. */
  method SetBlockBits(list: seq<int>, index: int, start0: int, limit0: int, table: array<Word>)
    requires IsInversionList(list) && AtRange(list, index, start0, limit0)
    requires 0x800 <= start0 && forall c :: 0x800 <= c < start0 ==> !In(list, c)
    requires start0 == 0x800 || start0 == RangeStart(list, index)
    requires table.Length == 64 && forall b :: 0 <= b < 0x400 ==> Blank(table[..], b)
    modifies table
    ensures forall b :: 0 <= b < 0x20 ==> Blank(table[..], b)
    ensures forall b :: 0x20 <= b < 0x400 ==> Described(list, table[..], b)
  {
    hide BlocksDone, RangeAdded, In, Described, Blank;
    var listIndex, start, limit := index, start0, limit0;
    var minStart := 0x800;
    ghost var done := start;
    NoBlocksYet(list, table[..], start);
    while start < 0x1_0000
      invariant AtRange(list, listIndex, start, limit) && 0x800 <= start
      invariant start == 0x800 || start == RangeStart(list, listIndex)
      invariant 0x800 <= minStart <= 0x1_0000 && minStart % 64 == 0
      invariant done == start && BlocksDone(list, table[..], minStart, done)
      decreases |list| - listIndex
    {
      ghost var was, index', start', limit', minStart' := table[..], listIndex, start, limit, minStart;
      if limit > 0x1_0000 {
        limit := 0x1_0000;
      }
      if start < minStart {
        start := minStart;
      }
      limit, minStart := AddRange(table, start, limit, minStart);
      if limit == 0x1_0000 {
        RangeStep(list, was, table[..], index', start', limit', minStart', limit');
        done := limit';
        break;
      }
      listIndex, start, limit := NextRange(list, listIndex);
      RangeStep(list, was, table[..], index', start', limit', minStart', start);
      done := start;
    }
    assert BlocksDone(list, table[..], minStart, done) && (minStart == 0x1_0000 || done >= 0x1_0000);
    AllBlocksDone(list, table[..], minStart, done);
  }
}
