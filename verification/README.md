# Verified models of ICU common algorithms

This project models five parts of the ICU common library (`Icuuc/`) in Dafny and proves what they promise.

**BMPSet** makes an inversion list fast: a byte table for ASCII, a vertical 32x64 bit matrix for U+0080..U+07FF, two
bits for each block of 64 code points below U+10000, and bounds for a binary search. `initBits` fills the tables range
by range, and `overrideIllegal` then overwrites the entries for illegal UTF-8 sequences. The model keeps the words as
bit vectors and proves that `contains`, `span`, `spanBack` and `spanUTF8` agree with the plain inversion list.

**BytesTrie** is a byte-serialized map from byte strings to 32-bit values. `TrieFormat.NodeAt` says when bytes are the
serialized form of an abstract trie. The cursor, the iterator with its packed stack, and the builder with its buffer
that is filled from the back are each proved against that relation, and joined: what is added is what is looked up and
what is iterated.

**Dictionary break engines.** `BytesDictionaryMatcher` joins the trie to the engines. The Thai, Lao, Burmese and Khmer
engines are one class with the rules of a script (three word lists as a ring, back-up loops, resynchronisation, marks,
Thai suffixes), proved equal to a specification of the next break. The CJK engine is a shortest-path computation with
back pointers, proved optimal. The modules whose names end in `Numbers` state the thresholds, costs, character ranges and
formats of all of these as literal numbers, without the constants of the model.

**MessagePattern** is a mutually recursive parser with a flat list of parts. It is proved equal to a grammar that
returns a tree, and properties of the part list and of auto-quoting are proved about that tree. `MessageSyntax` is an
independent description of messages: a tree, a printer into code units with literal letters, and the items of a tree.
What is printed parses to exactly these items, and auto-quoting is an operation on trees.

**Normalizer, FilteredNormalizer2, CanonicalIterator** are algorithms over a normalization, which is a parameter with
the laws that each of them needs (`Lawful`, `Checked`, `Composable`).

## What the proofs brought to light

- Deltas above `kMaxThreeByteDelta` are written with two bytes stored in the same place; `TrieCodec.DeltaRoundTrip`
  shows that exactly the smaller ones survive whatever was in the buffer. A trie of at most that many bytes is safe.
- `BytesTrie::next(s, length)` does not turn negative chars into bytes, as `next(inByte)` does, and after a mismatch
  inside a linear-match node it can leave another remaining length. `TrieForms.BothForms` says exactly when the two forms
  agree; `NegativeDiffers` and `RemainingDiffers` are inputs for which they do not.
- `BytesDictionaryMatcher::transform` gives -1 for a code point outside of its script. The trie takes that as the byte
  0xff, which is also the byte of the zero width joiner, so that a letter of another script can be found as a word
  (`DictionaryScript.LetterIsJoiner`); `DictionaryScript.ScriptWords` says for exactly which dictionaries that happens.
- A Thai break can stand in front of a mark, after suffix characters, and can go beyond the range, when the range ends
  between an ellision character and a repeat character; it is popped then. `ThaiBreaks.BreakBeforeMark` and
  `ThaiBreaks.BreakBeyond` are exact, and `BreakInFrontOfMark` and `BreakBeyondRange` are inputs for which it happens.
- The CJK engine passes over positions that cannot be reached without updating its Katakana flag; a run counts when the
  last *reachable* character before it is not Katakana (`CjkSegments.Input.AfterKatakana`).
- `CanonicalIterator` never fails for lack of equivalents: a decomposed segment is always among its own replacements.

## Files

| files | modules of the library |
|---|---|
| Bits, InversionList, BitTables, Utf16, Utf8, BmpSet | BMPSet (Basics holds what all have in common) |
| Trie, TrieCodec, TrieFormat, TrieBytes, TrieCursor, BytesTrie, TrieForms, TrieIterator, TrieLimit | BytesTrie and its iterator |
| TrieBuffer, TrieElements, TrieWritten, TrieBuilder, BytesTrieBuilder, TrieRoundTrip | BytesTrieBuilder |
| UText, DictionaryMatcher, DictionaryNumbers, Utf16Text, DictionaryScript, WordBreaks, ThaiBreaks, BreakEngines, ScriptNumbers, CjkSegments, CjkEngine, CjkNumbers | dictionary break engines |
| MessageParts, MessageGrammar, MessageShape, MessageInserts, AutoQuote, AutoQuoteSteps, AutoQuoteMeaning, MessageValues, MessagePattern | MessagePattern |
| MessageSyntax, PatternProps, MessageSkips, MessageNumbers, MessageHeads, MessageStyles, MessagePrinting, MessageErrors, MessageQuoting, MessageRules | trees of messages, and how they are printed, parsed and auto-quoted |
| Normalizer, FilteredNormalizer2 | Normalizer, FilteredNormalizer2 |
| Permutations, CanonicalEquivalents, Odometer, CanonicalIterator | CanonicalIterator |

`dafny verify dfyconfig.toml` checks the whole project.

## Model

| member | source | states |
|---|---|---|
| `InversionList.IndexParity` | Icuuc/bmpset.cpp:261-303 | An index found by any search between bounds decides membership by its parity: odd means inside the set, even means outside |
| `BitTables.Set32x64Bits` | Icuuc/bmpset.cpp:68-117 | Sets exactly the cells l*64+t of start..limit-1 in the vertical 32x64 matrix and leaves every other bit alone, also at limit 0x800 where the shift would be undefined |
| `BitTables.SetAsciiBytes` | Icuuc/bmpset.cpp:123-138 | The first loop leaves the membership of 0..7F in the byte table, and stops at a range that reaches 0x80 with no member skipped |
| `BitTables.SetTable7FF` | Icuuc/bmpset.cpp:140-159 | Every cell of the matrix from U+0080 on is the membership of its code point; no member below the returned start is lost |
| `BitTables.AddRange` | Icuuc/bmpset.cpp:158-187 | Blocks inside a range become "all", blocks cut by one of its ends become "mixed", and no later range may touch a block below the returned minStart |
| `BitTables.BlockStep` | Icuuc/bmpset.cpp:157-199 | Recording one range keeps every block below the next start exactly described: "some" iff it meets the set, "mixed" iff it meets it without lying inside |
| `BitTables.SetBlockBits` | Icuuc/bmpset.cpp:155-200 | After the loop every block from U+0800 to U+FFFF is exactly described, and blocks below are blank |
| `BmpSet.FindCodePoint` | Icuuc/bmpset.cpp:244-276 | The smallest index in lo..hi whose entry is above c, or hi |
| `BmpSet.BMPSet.FindStarts` | Icuuc/bmpset.cpp:35-47 | Each 4k start is a correct search index for its first code point, found between the previous start and the end |
| `BmpSet.BMPSet.InitBits` | Icuuc/bmpset.cpp:119-200 | For every inversion list the three tables hold exact membership before overriding |
| `BmpSet.BMPSet.OverrideIllegal` | Icuuc/bmpset.cpp:210-242 | Overwrites the entries for 80..BF, the 0..7F columns, the blocks below U+0800 and the surrogate blocks with the value of U+FFFD and nothing else: all other entries stay exact |
| `BmpSet.BMPSet.constructor` | Icuuc/bmpset.cpp:29-51 | For every inversion list, the finished tables are exact except for the entries of illegal sequences, which hold the value of U+FFFD |
| `BmpSet.BMPSet.Contains` | Icuuc/bmpset.cpp:278-303 | For every integer c: true iff c is a code point inside the set which the inversion list describes, although some table entries are overridden |
| `BmpSet.BMPSet.Span` | Icuuc/bmpset.cpp:309-395 | The end of a prefix of whole code points (pairs joined, lone surrogates kept) which all have the wanted membership, where the next code point has not |
| `BmpSet.PrefixIsLongest` | Icuuc/bmpset.cpp:304-395 | No longer prefix ending at a code point boundary has the wanted membership throughout |
| `BmpSet.BMPSet.SpanBack` | Icuuc/bmpset.cpp:398-490 | The start of a suffix of whole code points which all have the wanted membership, where the code point before has not |
| `BmpSet.SuffixIsLongest` | Icuuc/bmpset.cpp:397-490 | No longer suffix starting at a code point boundary has the wanted membership throughout |
| `BmpSet.BMPSet.FindLimit` | Icuuc/bmpset.cpp:524-560 | For any bytes: the limit in front of an incomplete last sequence, and the end to return there, which includes that sequence iff U+FFFD has the wanted membership |
| `BmpSet.BMPSet.LookupAt` | Icuuc/bmpset.cpp:588-647 | For any bytes: the table and search answer for a whole sequence is the membership of its code point, or of U+FFFD if it is illegal |
| `BmpSet.BMPSet.SpanUTF8` | Icuuc/bmpset.cpp:496-651 | For any bytes: the end of the longest prefix of sequences with the wanted membership, where each byte of an illegal sequence and an incomplete last sequence count like U+FFFD; on well-formed UTF-8 (section 4 of RFC 3629) that is the offset after the longest such prefix of code points |
| `BmpSet.WellFormedSpan` | Icuuc/bmpset.cpp:496-651 | In well-formed UTF-8 the sequences are the code points, so that the span ends after the longest prefix of code points with the wanted membership |
| `BmpSet.SpansAgree` | Icuuc/bmpset.cpp:309-651 | On the same code points the UTF-8 span and the UTF-16 span end after equally many of them |
| `BmpSet.IllegalBytes` | Icuuc/bmpset.cpp:526-560 | In numbers: a trail byte, a lead byte without a trail byte and an incomplete end are decided by the membership of U+FFFD |
| `BmpSet.SequenceValues` | Icuuc/bmpset.cpp:588-647 | In numbers: overlong forms, surrogates and values above 10FFFF count like U+FFFD, every other sequence like its code point |
| `Utf8.SequenceRead` | Icuuc/bmpset.cpp:588-640 | Reading the byte sequence of a code point gives that code point and its length back |
| `TrieCodec.ValueRoundTrip` | Icuuc/bytestriebuilder.cpp:426-459 | Every 32-bit value written with either final bit is read back with that value, that bit and that length |
| `TrieCodec.DeltaRoundTrip` | Icuuc/bytestriebuilder.cpp:470-501 | A delta is read back whatever the uninitialised bytes were, if and only if it is at most kMaxThreeByteDelta |
| `TrieCodec.LargeDelta` | Icuuc/bytestriebuilder.cpp:485-498 | For every delta above kMaxThreeByteDelta there are buffer contents with which it is not read back, since two of its bytes go to the same place |
| `TrieBytes.ValueFormat` | Icuuc/bytestriebuilder.cpp:426-459 | The bytes of every 32-bit value in numbers: one for 0..40, two up to 1aff, three up to 11ffff, four up to ffffff and five for all others, with the final bit in the lead byte |
| `TrieBytes.DeltaFormat` | Icuuc/bytestriebuilder.cpp:470-501 | The bytes of a delta in numbers: one up to bf, two up to 2fff, three up to dffff |
| `TrieBytes.NodeLeads` | Icuuc/unicode/bytestrie.h:440-503 | The lead byte of a node in numbers: below 10 a branch with one more kid than the lead byte or, if that is 0, than the next byte says; 10..1f as many bytes as it is above f; from 20 on a value, final iff odd |
| `TrieBytes.BranchBytes` | Icuuc/unicode/bytestrie.h:440-464 | Up to five kids are a list; more are split in halves at the byte of the first kid of the upper half |
| `TrieFormat.NodeMoved` | Icuuc/bytestrie.cpp:31-66 | A serialized node stays the same node when bytes are put in front of it, since all jumps are relative |
| `TrieFormat.StepHalf` | Icuuc/bytestrie.cpp:86-94 | Comparing with the middle byte of a split branch selects the half which holds the byte, if any half does |
| `TrieFormat.StepPairs` | Icuuc/bytestrie.cpp:150-180 | Stepping over one byte leaves exactly the strings which start with that byte, without it |
| `Trie.ResidualMember` | Icuuc/bytestrie.cpp:182-206 | After some bytes, a string remains iff those bytes and the string are together in the map |
| `BytesTrie.BytesTrie.Current` | Icuuc/bytestrie.cpp:68-78 | The reported result is that of the map for what has been matched so far |
| `BytesTrie.BytesTrie.BranchSearch` | Icuuc/bytestrie.cpp:86-94 | The encoded binary search over a branch of any size ends in a list which still decides the byte |
| `BytesTrie.BytesTrie.BranchNext` | Icuuc/bytestrie.cpp:80-148 | Goes to the node of the kid with this byte and reports its status, or stops if there is none |
| `BytesTrie.BytesTrie.NextImpl` | Icuuc/bytestrie.cpp:150-180 | One byte from any node, also after an intermediate value, is the abstract step |
| `BytesTrie.BytesTrie.Next` | Icuuc/bytestrie.cpp:182-206 | From every reachable state, one more byte gives no match, no value, final or intermediate value exactly as the prefix relation of the map says, and leaves the position and remaining length of the abstract step; negative chars are taken as bytes |
| `TrieCursor.KidPosOk` | Icuuc/bytestrie.cpp:80-148 | The position that the searches of a branch lead to is that of the node of the kid with this byte, or none |
| `TrieCursor.FoldMatched` | Icuuc/bytestrie.cpp:182-206 | Byte by byte, the position stays in front of the first byte that does not match, and the remaining length is the one from there |
| `BytesTrie.BytesTrie.NextString` | Icuuc/bytestrie.cpp:208-313 | The loop of the string form, with a length or NUL-terminated, gives the result of the map for all its chars and the position which the chars lead to one by one; the remaining length is theirs too, except after a mismatch, where it is the one last stored |
| `BytesTrie.BytesTrie.MatchPending` | Icuuc/bytestrie.cpp:219-265 | Goes on in a linear-match node without storing anything, up to a mismatch, the end of the text or a char for which a node has to be read |
| `BytesTrie.BytesTrie.MatchNodes` | Icuuc/bytestrie.cpp:266-311 | Goes through branch nodes and intermediate values as the chars one by one do, up to the first matching byte of a linear-match node, a mismatch or the end of the text |
| `TrieForms.FeedBytes` | Icuuc/bytestrie.cpp:182-206 | Feeding a text one char at a time leaves the state which its bytes lead to |
| `TrieForms.BothForms` | Icuuc/bytestrie.cpp:182-313 | From the same state the string form and single chars give the same result iff no char is negative or no string of the map starts with the bytes; without negative chars they leave the same position, and the same remaining length iff the text matches, or nothing of it does, or what matches ends outside of a linear-match node |
| `TrieForms.RemainingAgrees` | Icuuc/bytestrie.cpp:208-313 | Exactly when the stored remaining length is the one which single bytes leave |
| `TrieForms.RemainingDiffers` | Icuuc/bytestrie.cpp:208-313 | For the map of abc and the text aX it is not, from the start (-1 and 1) and from inside the node (2 and 1) |
| `TrieForms.StringFormAgrees` | Icuuc/bytestrie.cpp:182-313 | The map says the same about the chars and about their bytes iff no char is negative or no string of the map starts with the bytes |
| `TrieForms.NegativeChar` | Icuuc/bytestrie.cpp:208-313 | The string form never matches a text with a negative char |
| `TrieForms.NegativeDiffers` | Icuuc/bytestrie.cpp:182-313 | For the map of the byte e1 and the char -1f the string form finds nothing, where the single char finds a final value |
| `BytesTrie.BytesTrie.GetValue` | Icuuc/unicode/bytestrie.h:208-213 | The value of what has been matched, when the last result said that there is one |
| `BytesTrie.BytesTrie.GetNextBytes` | Icuuc/bytestrie.cpp:387-418 | Returns, in ascending order and without repetition, exactly the bytes with which what has been matched can go on to some string of the map, and their number |
| `BytesTrie.BytesTrie.GetNextBranchBytes` | Icuuc/bytestrie.cpp:420-433 | Collects the bytes of all kids of a branch of any size in order |
| `TrieIterator.NoLimit` | Icuuc/bytestrieiterator.cpp:101-169 | Without a length limit nothing is cut off |
| `TrieLimit.CutMember` | Icuuc/bytestrieiterator.cpp:118-168 | With a length limit, a pair is delivered iff it is short enough, or it is a string of that length with the value -1 which is not in the map but goes on in it |
| `TrieLimit.CutSorted` | Icuuc/bytestrieiterator.cpp:101-169 | With a length limit, what is delivered is in order and without repetition |
| `TrieIterator.Iterator.constructor` | Icuuc/bytestrieiterator.cpp:25-45 | Everything in the trie, cut to the length limit, is still to come |
| `TrieIterator.Iterator.Reset` | Icuuc/bytestrieiterator.cpp:83-96 | Everything is still to come again |
| `TrieIterator.Iterator.HasNext` | Icuuc/bytestrieiterator.cpp:98-99 | True iff some pair is still to come |
| `TrieIterator.Iterator.Descend` | Icuuc/bytestrieiterator.cpp:184-199 | Following the less-than edges pushes packed (length, string length) states which stand for exactly the kids that were passed |
| `TrieIterator.Iterator.BranchNext` | Icuuc/bytestrieiterator.cpp:184-212 | The first outbound edge, and a pushed state for all the others; what is still to come is unchanged |
| `TrieIterator.Iterator.Next` | Icuuc/bytestrieiterator.cpp:101-169 | Delivers the first of the pairs still to come and leaves the others, or stops for good; strings longer than the limit are cut and get the value -1 |
| `TrieRoundTrip.AllPairs` | Icuuc/bytestrieiterator.cpp:25-169 | Over any well-formed trie with strings of at most 0xffff bytes, the iterator delivers every pair exactly once, in unsigned byte order with prefixes first, and then stops; with a length limit, exactly the pairs which are short enough and once each cut string that is not in the map |
| `TrieBuffer.Buffer.EnsureCapacity` | Icuuc/bytestriebuilder.cpp:374-399 | A larger array holds the same contents at its end |
| `TrieBuffer.Buffer.Write` | Icuuc/bytestriebuilder.cpp:401-409 | The byte stands in front of the contents, across any number of growths |
| `TrieBuffer.Buffer.WriteBytes` | Icuuc/bytestriebuilder.cpp:411-419 | The bytes stand in front of the contents |
| `TrieBuffer.Buffer.WriteValueAndFinal` | Icuuc/bytestriebuilder.cpp:426-459 | The bytes of the value stand in front of the contents |
| `TrieBuffer.Buffer.WriteValueAndType` | Icuuc/bytestriebuilder.cpp:461-468 | A node lead byte, behind the value of the node if it has one |
| `TrieBuffer.Buffer.WriteDeltaTo` | Icuuc/bytestriebuilder.cpp:470-501 | The bytes of the delta to an earlier offset stand in front of the contents; a flag remembers whether all deltas can be read back |
| `BytesTrieBuilder.StringRoundTrip` | Icuuc/bytestriebuilder.cpp:90-111 | A string is read back from behind its one-byte or two-byte length |
| `BytesTrieBuilder.MoreStrings` | Icuuc/bytestriebuilder.cpp:90-111 | Appending strings to the shared buffer does not change the elements which are there |
| `BytesTrieBuilder.BytesTrieBuilder.Add` | Icuuc/bytestriebuilder.cpp:147-178 | Adds exactly this pair, or fails because the trie has been built or the string is longer than 0xffff |
| `BytesTrieBuilder.BytesTrieBuilder.CompareStringTo` | Icuuc/bytestriebuilder.cpp:113-127 | The sign of the difference is the unsigned byte order with prefixes first |
| `BytesTrieBuilder.BytesTrieBuilder.SortElements` | Icuuc/bytestriebuilder.cpp:232-235 | The same pairs, sorted |
| `BytesTrieBuilder.BytesTrieBuilder.HasDuplicates` | Icuuc/bytestriebuilder.cpp:239-248 | Comparing neighbours finds a duplicate iff there is one anywhere |
| `BytesTrieBuilder.BytesTrieBuilder.BuildBytes` | Icuuc/bytestriebuilder.cpp:218-270 | Does nothing more once built; fails iff nothing was added or two strings are equal; else the bytes are a well-formed trie of exactly the added pairs, when they are at most kMaxThreeByteDelta bytes |
| `TrieBuilder.TrieBuilder.GetLimitOfLinearMatch` | Icuuc/bytestriebuilder.cpp:295-304 | The end of what all strings from first to last have in common |
| `TrieBuilder.TrieBuilder.CountElementUnits` | Icuuc/bytestriebuilder.cpp:306-318 | The number of different bytes at an index of a sorted group |
| `TrieBuilder.TrieBuilder.SkipElementsBySomeUnits` | Icuuc/bytestriebuilder.cpp:320-329 | The first string behind a number of different bytes |
| `TrieBuilder.TrieBuilder.WriteNode` | Icuuc/stringtriebuilder.cpp:86-130 | Serializes a sorted group of strings without their common prefix as a node with exactly these strings and values |
| `TrieBuilder.TrieBuilder.WriteLinearChunks` | Icuuc/stringtriebuilder.cpp:104-118 | A common prefix of any length becomes linear-match nodes of at most kMaxLinearMatchLength |
| `TrieBuilder.TrieBuilder.WriteBranch` | Icuuc/stringtriebuilder.cpp:119-128 | A branch node of 2 to 256 bytes, with a length byte of its own when needed |
| `TrieBuilder.TrieBuilder.WriteBranchSubNode` | Icuuc/stringtriebuilder.cpp:134-202 | The search tree whose kids are exactly the runs of strings with the same byte |
| `TrieBuilder.TrieBuilder.WriteLesserBranches` | Icuuc/stringtriebuilder.cpp:136-150 | Splits until a list is left, having written the lower halves; at most kMaxSplitBranchLevels splits are open |
| `TrieBuilder.TrieBuilder.WriteListBranch` | Icuuc/stringtriebuilder.cpp:151-194 | A list of final values and jumps, the last kid in line, for up to five runs |
| `TrieBuilder.TrieBuilder.WriteSplits` | Icuuc/stringtriebuilder.cpp:195-201 | Closes the open splits from the innermost one on |
| `TrieRoundTrip.BuildAndIterate` | Icuuc/bytestriebuilder.cpp:192-270 | Iterating over what was built delivers what was added, sorted, each pair once |
| `TrieRoundTrip.BuildAndLookup` | Icuuc/bytestriebuilder.cpp:192-270 | For every byte string, a built trie answers like the map of what was added, with its value |
| `DictionaryMatcher.KeyNext` | Icuuc/dictionarydata.cpp:129-131 | The key of a text grows by one byte per code point |
| `DictionaryMatcher.BytesDictionaryMatcher.Matches` | Icuuc/dictionarydata.cpp:113-154 | Reports the first words of the dictionary at the text position, up to limit of them, and the number of code points looked at, for any text and transform |
| `DictionaryMatcher.WordsSound` | Icuuc/dictionarydata.cpp:113-154 | Everything found is a dictionary word within reach, with its lengths in code units and code points and its value |
| `DictionaryMatcher.WordsComplete` | Icuuc/dictionarydata.cpp:113-154 | Every dictionary word within reach is found |
| `DictionaryMatcher.WordsAscend` | Icuuc/dictionarydata.cpp:113-154 | The words come shortest first, without repetition |
| `DictionaryMatcher.WordsInPrefix` | Icuuc/dictionarydata.cpp:113-154 | The reported prefix is at least as long as every word |
| `DictionaryMatcher.WordLengths` | Icuuc/dictionarydata.cpp:113-154 | When maxLength ends a code point, the lengths are exactly those at most maxLength at which the text is a dictionary word |
| `DictionaryMatcher.FirstWordsShortest` | Icuuc/dictionarydata.cpp:113-154 | With a limit, exactly the shortest words are returned |
| `DictionaryMatcher.NoMoreWords` | Icuuc/dictionarydata.cpp:146-149 | After a final value or no match, no longer text is a word: stopping early loses nothing |
| `DictionaryNumbers.FindText` | Icuuc/dictionarydata.cpp:93-154 | For a serialized dictionary and its constant as a number: with type 1 in bits 24 to 30 and an offset o in bits 0 to 20, the whole text is found iff its key is there, where 200D gives FF, 200C gives FE and o..o+FD give their distance from o; with another type, iff the code points themselves are the key; and with the value of that key |
| `DictionaryNumbers.WholeWord` | Icuuc/dictionarydata.cpp:113-154 | The last of the words at the start is the whole text iff that is a dictionary word |
| `DictionaryScript.LetterIsJoiner` | Icuuc/dictionarydata.cpp:93-107 | In a dictionary of the zero width joiner alone, the letter A, which the transform refuses, is found as that word |
| `DictionaryScript.ScriptWords` | Icuuc/dictionarydata.cpp:93-154 | Every word found in every text has only code points which the transform accepts, iff no dictionary key which is the key of some text contains the byte 0xff |
| `DictionaryScript.SpelledKey` | Icuuc/dictionarydata.cpp:93-107 | The test for being the key of some text is exact |
| `DictionaryScript.LowScriptWords` | Icuuc/dictionarydata.cpp:93-154 | For a serialized dictionary of a script below U+1F00: iff no key contains the byte 0xff |
| `Utf16Text.EncodeRoundTrip` | Icuuc/dictionarydata.cpp:129 | Code points which do not join are read back from UTF-16 one by one |
| `BreakEngines.PossibleWord.Candidates` | Icuuc/dictbe.cpp:156-173 | The cached list equals a fresh dictionary match at this offset; the text goes to the end of the longest candidate |
| `BreakEngines.PossibleWord.AcceptMarked` | Icuuc/dictbe.cpp:175-179 | The text goes to the end of the marked candidate |
| `BreakEngines.PossibleWord.BackUp` | Icuuc/dictbe.cpp:182-189 | Goes to the next shorter candidate, if there is one |
| `BreakEngines.DictionaryBreakEngine.FindBest` | Icuuc/dictbe.cpp:283-319 | The nested back-up loops over three cached lists mark the chosen candidate |
| `BreakEngines.DictionaryBreakEngine.FollowingWords` | Icuuc/dictbe.cpp:290-311 | True iff the longest second word reaches the end of the range or some second word is followed by a third one |
| `WordBreaks.ChosenRule` | Icuuc/dictbe.cpp:283-319 | Which word is taken: the longest if it reaches the end; else the longest which is followed by a word that leads on; else the shortest which is followed by a word; else the longest |
| `WordBreaks.CandidateEnd` | Icuuc/dictbe.cpp:156-173 | In a range which ends at a code point boundary no candidate goes beyond the end |
| `BreakEngines.DictionaryBreakEngine.TakeWord` | Icuuc/dictbe.cpp:273-319 | The word at the position by that rule, counted if there is one |
| `BreakEngines.DictionaryBreakEngine.Resynchronize` | Icuuc/dictbe.cpp:335-361 | Goes to the first position between an end and a begin character where a word starts, or to the end of the range |
| `WordBreaks.ResynchronizedFirst` | Icuuc/dictbe.cpp:335-361 | That position is the first one after the start with an end character before it, a begin character at it and a dictionary word there; none before it is skipped wrongly |
| `BreakEngines.DictionaryBreakEngine.Combine` | Icuuc/dictbe.cpp:327-375 | Combines a short word, or nothing, with the text up to the next plausible word |
| `BreakEngines.DictionaryBreakEngine.SkipMarks` | Icuuc/dictbe.cpp:377-382 | Goes to the first position in the range which is not in front of a mark |
| `WordBreaks.OnlyMarksSkipped` | Icuuc/dictbe.cpp:377-382 | Everything that is skipped is a mark, and what follows is none, or the range ends |
| `BreakEngines.DictionaryBreakEngine.AddSuffixes` | Icuuc/dictbe.cpp:384-422 | Takes Thai suffix characters into the word unless a word starts with them |
| `BreakEngines.DictionaryBreakEngine.NextBreak` | Icuuc/dictbe.cpp:269-428 | One turn of the outer loop: the next break, always further on, counted once |
| `ScriptNumbers.WordRule` | Icuuc/dictbe.cpp:273-319 | The word which is taken, through the dictionary alone: out of the 20 shortest, the one which reaches the end of the range; else the longest with two more words after it; else the shortest with one more; else the longest |
| `ScriptNumbers.CandidateEnds` | Icuuc/dictbe.cpp:156-173 | The candidates end exactly where the 20 shortest words do |
| `ScriptNumbers.BreakRule` | Icuuc/dictbe.cpp:218-1063 | The next break of each script in numbers: if no word starts behind the word at p, text is combined with it iff it has fewer than 3 code points (Khmer 10) and fewer than 3 (Khmer 5) are looked at there, or there is no word; up to the first position between an end and a begin character of the script where a word starts; then behind marks and spaces, and Thai suffix characters |
| `ScriptNumbers.LookedAt` | Icuuc/dictbe.cpp:327-334 | More than k code points are looked at iff k of them, which end before the range does, begin a longer word |
| `ScriptNumbers.ShortRange` | Icuuc/dictbe.cpp:247-257 | Nothing is divided with at most 4 code points for Thai, or fewer than 4 code units for the other scripts |
| `WordBreaks.BreakInRange` | Icuuc/dictbe.cpp:484-633 | A break is a code point boundary; in the Lao, Burmese and Khmer engines it stays in the range and does not stand in front of a mark |
| `WordBreaks.ThaiBreak` | Icuuc/dictbe.cpp:247-437 | A Thai break stands in front of a mark only after a suffix character, and goes beyond the range only over one repeat character at its end |
| `ThaiBreaks.BreakBeforeMark` | Icuuc/dictbe.cpp:377-422 | A break stands in front of a mark iff no word starts behind the marks of the word, suffix characters are taken there, and a mark in the range follows them |
| `ThaiBreaks.BreakBeyond` | Icuuc/dictbe.cpp:384-422 | A break goes beyond the range iff the range ends between an ellision character and a repeat character which are both taken |
| `ThaiBreaks.BreakInFrontOfMark` | Icuuc/dictbe.cpp:384-428 | A dictionary and a text for which a break stands in front of a mark |
| `ThaiBreaks.BreakBeyondRange` | Icuuc/dictbe.cpp:384-428 | A dictionary, a text and a range for which a break goes beyond the range |
| `ThaiBreaks.PlainTextBreaks` | Icuuc/dictbe.cpp:247-437 | If no suffix character in the range is followed by a mark, no Thai break stands in front of one; if the range does not end between the two suffix characters, the last break is its end |
| `ThaiBreaks.ThaiRangeBreaks` | Icuuc/dictbe.cpp:218-437 | What the Thai rules give: increasing breaks strictly inside the range, and in such text none in front of a mark or a space |
| `WordBreaks.ScriptBreaks` | Icuuc/dictbe.cpp:460-1063 | What the Lao, Burmese and Khmer rules give: increasing breaks strictly inside the range, none of them in front of a mark of the script or a space |
| `WordBreaks.BreaksInside` | Icuuc/dictbe.cpp:247-1063 | The breaks increase strictly, all but the last are inside the range, the last is not before its end; without suffix rules it is the end and none of the others is in front of a mark |
| `BreakEngines.DictionaryBreakEngine.DivideUpDictionaryRange` | Icuuc/dictbe.cpp:247-437 | Terminates on every range with code point boundaries at its ends, appends exactly the breaks inside the range and returns their number; the rules of each script give the four engines |
| `CjkSegments.BoundedCut` | Icuuc/dictbe.cpp:1267-1357 | A cut costs at most its length times a bound on all costs |
| `CjkSegments.BoundedFits` | Icuuc/dictbe.cpp:1322-1328 | With costs up to a bound, no total overflows in text which is short enough for it |
| `CjkSegments.ValuesFit` | Icuuc/dictbe.cpp:1322-1328 | The same for a dictionary whose values are from 0 to the bound |
| `CjkSegments.RunStarts` | Icuuc/dictbe.cpp:1331-1355 | Without Hangul, a Katakana run is a word iff it starts with a Katakana character behind another character or none, is less than 20 long and is whole, with the cost of its length |
| `CjkSegments.AllReached` | Icuuc/dictbe.cpp:1311-1320 | Without Hangul every position can be reached, so that a segmentation exists |
| `CjkNumbers.WordsAt` | Icuuc/dictbe.cpp:1304-1355 | In text without Hangul, all words at a position in numbers: dictionary words of at most 20 characters with their values, one character of cost 255 unless it is a dictionary word, and a whole run of less than 20 Katakana characters (30A1..30FA, 30FC..30FE, FF66..FF9F) with the cost of its length |
| `CjkNumbers.SyllableAlone` | Icuuc/dictbe.cpp:1304-1320 | A Hangul syllable from AC00 to D7A3 is nothing but the dictionary words which start with it |
| `CjkNumbers.WholeWord` | Icuuc/dictbe.cpp:1267-1376 | In text of n characters without Katakana and Hangul whose only word is the whole text, of value v: the whole word is the only cheapest cut if n is at most 20 and v is below 255n, single characters are if v is above |
| `CjkEngine.FallbackFits` | Icuuc/dictbe.cpp:1283-1320 | There is room for the one-character fallback in the arrays of matches |
| `CjkEngine.NoOverflow` | Icuuc/dictbe.cpp:1322-1323 | Adding the cost of a word to a cost which has been found stays below 2^32-1 |
| `CjkEngine.CjkBreakEngine.WordsAt` | Icuuc/dictbe.cpp:1304-1320 | The dictionary words of at most 20 code units at a position, and one character of cost 255 unless a one-character word or Hangul is there |
| `CjkEngine.CjkBreakEngine.KatakanaRun` | Icuuc/dictbe.cpp:1338-1346 | The run has only Katakana characters behind the first one and is at most 20 long; it stops there, at another character or at the end of the text |
| `CjkEngine.CjkBreakEngine.Relax` | Icuuc/dictbe.cpp:1322-1329 | Takes one word into account in 32-bit unsigned arithmetic |
| `CjkEngine.CjkBreakEngine.Visit` | Icuuc/dictbe.cpp:1299-1356 | Takes all words at a position into account, a Katakana run only if the last reachable character before was not Katakana |
| `CjkEngine.CjkBreakEngine.Segment` | Icuuc/dictbe.cpp:1267-1357 | At the end every cost which was found is backed by a word at its back pointer, and no word could still lower one |
| `CjkEngine.FoundCut` | Icuuc/dictbe.cpp:1359-1376 | The walk back from any reached position is a cut of that prefix into words with exactly the cost that was found |
| `CjkEngine.NoCheaperCut` | Icuuc/dictbe.cpp:1292-1329 | No cut from any position on is cheaper than what was found |
| `CjkEngine.FoundReached` | Icuuc/dictbe.cpp:1300-1302 | A cost was found for exactly the prefixes which can be cut into words |
| `CjkEngine.EveryPrefix` | Icuuc/dictbe.cpp:1267-1376 | For every prefix, the cost is the minimum over all cuts into dictionary words, fallback characters and Katakana runs, and the walk back is a cut with that cost |
| `CjkEngine.FoundCheapest` | Icuuc/dictbe.cpp:1267-1376 | For the whole text, the walk back is a cheapest cut |
| `CjkEngine.CjkBreakEngine.WalkBack` | Icuuc/dictbe.cpp:1359-1376 | The tentative boundaries are the ends of the words from the last one to the first one, or only the end of the text if it cannot be cut |
| `CjkEngine.CjkBreakEngine.DivideUpDictionaryRange` | Icuuc/dictbe.cpp:1134-1399 | Appends the word ends of a cheapest cut in ascending order, a break for the start of the range unless one is there, and returns how many were appended |
| `CjkEngine.CjkBreakEngine.DivideUpBounded` | Icuuc/dictbe.cpp:1134-1399 | Without Hangul, for values from 0 to a bound and a range short enough for it, there always is a cheapest cut and its word ends are appended |
| `CjkEngine.EndsIncrease` | Icuuc/dictbe.cpp:1385-1394 | The appended word ends increase strictly and end at the end of the text |
| `MessagePattern.MessagePattern.AddPart` | Icuuc/messagepattern.cpp:1102-1113 | One more part, without a limit part |
| `MessagePattern.MessagePattern.AddLimitPart` | Icuuc/messagepattern.cpp:1115-1121 | One more part, and the start part refers to it |
| `MessagePattern.MessagePattern.ParseArgNumber` | Icuuc/messagepattern.cpp:887-929 | The argument number, or that it is a name, or that it is not allowed |
| `MessagePattern.MessagePattern.ParseDouble` | Icuuc/messagepattern.cpp:931-1003 | The part for a small integer or for another number, or the error |
| `MessagePattern.MessagePattern.ParseSimpleStyle` | Icuuc/messagepattern.cpp:658-699 | Finds the closing brace outside of quotes and nested braces |
| `MessagePattern.MessagePattern.ParseApostrophe` | Icuuc/messagepattern.cpp:444-505 | What follows an apostrophe in both modes: doubled, quoting, or literal with an insertion part |
| `MessagePattern.MessagePattern.ParseChoiceStyle` | Icuuc/messagepattern.cpp:701-767 | The (number, separator, message) triples, as the grammar says, or its error |
| `MessagePattern.MessagePattern.ParsePluralOrSelectStyle` | Icuuc/messagepattern.cpp:769-885 | The (selector, message) pairs and the offset, as the grammar says, or its error |
| `MessagePattern.MessagePattern.ParseArg` | Icuuc/messagepattern.cpp:538-656 | An argument with its name, type and style, as the grammar says, or its error |
| `MessagePattern.MessagePattern.ParseMessage` | Icuuc/messagepattern.cpp:433-536 | A message up to its terminator, as the grammar says, or its error |
| `MessageShape.PatternParts` | Icuuc/messagepattern.cpp:433-656 | Every pattern which parses has part indexes that never decrease, start parts that name their own later limit part with the same level or type, proper nesting, and an outer limit part at the end of the pattern |
| `MessageShape.TopLevelEnd` | Icuuc/messagepattern.cpp:433-536 | A top-level message goes on to the end of the pattern |
| `MessagePattern.MessagePattern.Parse` | Icuuc/messagepattern.cpp:267-273 | Terminates on every pattern; succeeds iff the grammar accepts it, and then the part list is the flattened tree, well bracketed and in order |
| `MessagePattern.MessagePattern.NumericValue` | Icuuc/messagepattern.cpp:360-370 | For every part of a parsed pattern: the integer, the text which the part stands for in the pattern, or none |
| `MessagePattern.MessagePattern.PluralOffset` | Icuuc/messagepattern.cpp:378-386 | The numeric value of the first part of a plural style, or 0 if it has none |
| `PatternProps.PatternSetting` | Icuuc/patternprops.cpp:29-176 | The white space and syntax characters are as printing needs them: white space is syntax or white space, but no part of names, numbers and delimiters; ASCII letters and digits are neither |
| `MessageNumbers.ArgNumberRule` | Icuuc/messagepattern.cpp:887-929 | An argument number exactly: digits without a leading zero and without overflow give their decimal value, other digits -2, everything else -1 |
| `MessageNumbers.NumberRule` | Icuuc/messagepattern.cpp:931-1003 | A number exactly: a sign or none and digits with a value from -8000 to 7fff is that integer; an infinity sign where allowed, or another text of fewer than 128 units which is a number, is not; the rest is bad |
| `MessageNumbers.TypeRule` | Icuuc/messagepattern.cpp:615-629 | The letters choice, plural, select and selectordinal, in any case, give the types 2, 3, 4 and 5, everything else 1 |
| `MessageSkips.SkipNumber` | Icuuc/messagepattern.cpp:1021-1032 | The characters of a number are exactly the digits, + - . E e and the infinity sign |
| `MessageSkips.QuotedTextParses` | Icuuc/messagepattern.cpp:472-496 | Quoted text ends at its closing apostrophe or the end of the pattern, with a part for the second apostrophe of each pair |
| `MessageSkips.PiecesParse` | Icuuc/messagepattern.cpp:658-699 | A printed simple style with nested braces and quotes is passed over |
| `MessageHeads.TextAt` | Icuuc/messagepattern.cpp:444-531 | What one unit of text is, in numbers, for each kind of message: literal, number sign, terminator, doubled, quoting or literal apostrophe |
| `MessageHeads.NameRule` | Icuuc/messagepattern.cpp:553-578 | The name or number of an argument exactly, with its errors: too long or above 7fff, leading zero or overflow, empty |
| `MessageHeads.TypeParses` | Icuuc/messagepattern.cpp:591-646 | The type part and the value of the start part; a complex type without a style is a syntax error |
| `MessageStyles.ChoiceHeadParses` | Icuuc/messagepattern.cpp:714-747 | White space, number, white space and one of the three separators give the integer part and the selector part |
| `MessageStyles.KeyParses` | Icuuc/messagepattern.cpp:798-865 | A selector word, or = and an integer, gives its parts; other is recognized as exactly that word |
| `MessageStyles.OffsetParses` | Icuuc/messagepattern.cpp:824-854 | offset: and an integer give the integer part and no selector |
| `MessagePrinting.CasesParse` | Icuuc/messagepattern.cpp:769-885 | Selectors and messages give exactly their items; without the selector other they are an error |
| `MessagePrinting.ChoicesParse` | Icuuc/messagepattern.cpp:701-767 | Choices separated by vertical bars give exactly their items |
| `MessagePrinting.BodyParses` | Icuuc/messagepattern.cpp:433-536 | A valid message at any depth, written from any index on, gives exactly its items and ends where it ends |
| `MessagePrinting.PatternParses` | Icuuc/messagepattern.cpp:267-885 | For every valid tree of text, quotes, and arguments of all six types, nested to any depth and with white space everywhere it is allowed, the printed pattern parses to exactly the items of the tree: types 0 to 5, decimal numbers, selectors, nesting levels, and number signs replaced just in plural and selectordinal messages |
| `MessageErrors.EndsInName` | Icuuc/messagepattern.cpp:546-584 | A pattern which ends behind a brace or an argument name has unmatched braces |
| `MessageErrors.BadNumber` | Icuuc/messagepattern.cpp:553-578 | Digits with a leading zero or overflow are a syntax error, a number above 7fff is out of bounds |
| `MessageErrors.NeedsStyle` | Icuuc/messagepattern.cpp:635-641 | A choice, plural, select or selectordinal argument without a style is a syntax error |
| `MessageErrors.NeedsOther` | Icuuc/messagepattern.cpp:785-797 | A plural, select or selectordinal argument without the selector other lacks its default |
| `MessageErrors.NestedEnd` | Icuuc/messagepattern.cpp:529-533 | A pattern which ends in a nested message has unmatched braces |
| `MessageInserts.QuotedInserts` | Icuuc/messagepattern.cpp:476-497 | Quoted text needs an insertion only at the end of the pattern, when it is not closed |
| `MessageInserts.MessageInserts` | Icuuc/messagepattern.cpp:433-536 | The insertion positions of a message increase strictly and lie inside it |
| `MessagePattern.MessagePattern.AutoQuoteApostropheDeep` | Icuuc/messagepattern.cpp:343-358 | Inserting from the last part to the first gives the pattern with one more character at exactly the insertion positions |
| `AutoQuoteMeaning.NextInsert` | Icuuc/messagepattern.cpp:348-356 | Inserting in front does not move the later insertions, so that going backwards is right |
| `AutoQuoteMeaning.AutoQuoteKeepsParts` | Icuuc/messagepattern.cpp:343-505 | The auto-quoted pattern parses in the same mode and in DOUBLE_REQUIRED to the same parts at their shifted indexes, each insertion part turned into a one-unit SKIP_SYNTAX part |
| `AutoQuoteMeaning.AutoQuoteTwice` | Icuuc/messagepattern.cpp:343-358 | A second auto-quoting changes nothing |
| `MessageRules.ApostropheRule` | Icuuc/messagepattern.cpp:444-505 | What an apostrophe does, in numbers: in front of another one that one is skipped; it starts quoted text iff a brace follows, in a choice message a vertical bar, in a plural or selectordinal message a number sign, and in DOUBLE_REQUIRED anything; else it is literal with an insertion behind it |
| `MessageQuoting.AutoQuotedTree` | Icuuc/messagepattern.cpp:343-358 | For every valid tree, auto-quoting its pattern gives the pattern of the tree in which every literal apostrophe is doubled and quoted text is closed, at every depth |
| `MessageRules.QuotedBrace` | Icuuc/messagepattern.cpp:462-497 | A quoted text which starts with a brace, as in 27 7B ... 27, has two skipped parts and no argument, and auto-quoting does not change it |
| `MessageRules.PluralExample` | Icuuc/messagepattern.cpp:611-629 | The pattern {n,plural,other{#}} has an argument of type 3, and its number sign is replaced |
| `Normalizer.Normalizer.Current` | Icuuc/normlzr.cpp:250-256 | The code point of the normalized text at the position, or DONE at the end; the position stays |
| `Normalizer.Normalizer.Next32` | Icuuc/normlzr.cpp:263-271 | The code point at the position, which moves over it; DONE only at the end |
| `Normalizer.Normalizer.Previous32` | Icuuc/normlzr.cpp:278-286 | The code point before the position, which moves in front of it; DONE only at the start |
| `Normalizer.Normalizer.Reset` | Icuuc/normlzr.cpp:288-291 | The position is the start |
| `Normalizer.Normalizer.First` | Icuuc/normlzr.cpp:304-307 | The first code point, with the position behind it |
| `Normalizer.Normalizer.Last` | Icuuc/normlzr.cpp:314-318 | The last code point, with the position in front of it |
| `Normalizer.Normalizer.NextNormalize` | Icuuc/normlzr.cpp:474-496 | The buffer holds the normalized next segment; the position stays |
| `Normalizer.Normalizer.PreviousNormalize` | Icuuc/normlzr.cpp:498-519 | The buffer holds the normalized segment before, with the position at its end; the position stays |
| `Normalizer.Normalizer.CodePoints` | Icuuc/normlzr.cpp:263-271 | From the start to DONE, next delivers the code points of the whole normalized text in order |
| `FilteredNormalizer2.FilteredNormalizer2.Normalize` | Icuuc/filterednormalizer2.cpp:34-55 | Each maximal run inside the set is normalized, the rest is copied |
| `FilteredNormalizer2.FilteredNormalizer2.AppendNormalized` | Icuuc/filterednormalizer2.cpp:57-86 | Appends that, also when the condition for the first span is wrong |
| `FilteredNormalizer2.Filtered.ApplyRun` | Icuuc/filterednormalizer2.cpp:57-86 | A run inside the set followed by a character outside of it, or by nothing, is normalized on its own |
| `FilteredNormalizer2.Filtered.ApplyOutside` | Icuuc/filterednormalizer2.cpp:57-86 | Text without characters of the set is copied |
| `FilteredNormalizer2.Filtered.ApplySplit` | Icuuc/filterednormalizer2.cpp:57-86 | Where no run goes across, both sides are independent |
| `FilteredNormalizer2.Filtered.ApplyAppend` | Icuuc/filterednormalizer2.cpp:103-153 | Appending to filtered text only changes the run across the border |
| `FilteredNormalizer2.Filtered.ApplyTwice` | Icuuc/filterednormalizer2.cpp:57-86 | Filtering filtered text changes nothing |
| `FilteredNormalizer2.FilteredNormalizer2.NormalizeSecondAndAppend` | Icuuc/filterednormalizer2.cpp:103-153 | Appending to filtered text gives the filtered concatenation; without normalizing, for a second text which is filtered already |
| `FilteredNormalizer2.FilteredNormalizer2.IsNormalized` | Icuuc/filterednormalizer2.cpp:175-197 | True iff filtering changes nothing |
| `FilteredNormalizer2.FilteredNormalizer2.QuickCheck` | Icuuc/filterednormalizer2.cpp:199-224 | "No" iff the check of some run inside the set is "no", "yes" iff that of every run is "yes"; both answers are right about the whole text |
| `FilteredNormalizer2.FilteredNormalizer2.SpanQuickCheckYes` | Icuuc/filterednormalizer2.cpp:226-250 | Ends in the first run which is not wholly accepted, or at the end of the text; the prefix up to there is unchanged by filtering |
| `Permutations.Permute` | Icuuc/caniter.cpp:267-339 | Exactly all rearrangements; with skipZeros, exactly those in which no class-zero character comes before a character that preceded it in the source |
| `Permutations.AllArranged` | Icuuc/caniter.cpp:267-339 | Without skipZeros the rearrangements are the strings with the same multiset of characters |
| `Permutations.FirstLeads` | Icuuc/caniter.cpp:302-306 | Every rearrangement starts with a character which is not skipped |
| `CanonicalEquivalents.TakeOut` | Icuuc/caniter.cpp:520-565 | Takes the decomposition out of the text in order, if all of it is there |
| `CanonicalEquivalents.Canon.TakeKeeps` | Icuuc/caniter.cpp:520-565 | What is left and the decomposition have together the characters of the text |
| `CanonicalEquivalents.Extract` | Icuuc/caniter.cpp:500-582 | Finds exactly the ways to write the text as a composite character and an equivalent of what is left; terminates since what is left is shorter |
| `CanonicalEquivalents.GetEquivalents2` | Icuuc/caniter.cpp:432-493 | Exactly the strings which come from the segment by putting composite characters in place of their decompositions, at any depth |
| `CanonicalEquivalents.Canon.SameDecomposition` | Icuuc/caniter.cpp:432-582 | Each of them has the same decomposition as the segment |
| `CanonicalEquivalents.GetEquivalents` | Icuuc/caniter.cpp:344-430 | Exactly the rearrangements of those strings which decompose to the segment, each once; fails iff there are none |
| `CanonicalEquivalents.Canon.ReplacesItself` | Icuuc/caniter.cpp:369-399 | A decomposed segment is among the strings which it can be replaced by, so that this never fails for it |
| `CanonicalIterator.FindSegments` | Icuuc/caniter.cpp:210-230 | Cuts the source in front of every segment starter but the first character, and nowhere else |
| `CanonicalIterator.CanonicalIterator.SetSource` | Icuuc/caniter.cpp:168-259 | The source is decomposed, each of its segments has its complete list of replacements, and the first combination is next |
| `CanonicalIterator.CanonicalIterator.Reset` | Icuuc/caniter.cpp:121-126 | The first combination is next |
| `CanonicalIterator.CanonicalIterator.FindNext` | Icuuc/caniter.cpp:149-160 | The odometer counts up by one, or is done and back at zero |
| `CanonicalIterator.CanonicalIterator.Next` | Icuuc/caniter.cpp:132-162 | Returns the combination with the current number and goes on to the next number; bogus after the last one |
| `Odometer.NumberDigits` | Icuuc/caniter.cpp:149-160 | The digits and their number below the total determine each other |
| `Odometer.LastNumber` | Icuuc/caniter.cpp:149-160 | There is no next number exactly when every digit is at its last value |
| `CanonicalIterator.ChosenDecomposes` | Icuuc/caniter.cpp:144-146 | Strings put together from replacements of the segments decompose to the source |
| `CanonicalIterator.ChosenOnce` | Icuuc/caniter.cpp:144-146 | No string is put together in two ways |
| `CanonicalIterator.CanonicalIterator.AllStrings` | Icuuc/caniter.cpp:132-162 | From the start to bogus, next returns every combination of replacements exactly once, no string twice, and each decomposes to the source |

## Left out

- `spanBackUTF8`: it depends on a decoder that is not part of this model. The copying constructor of BMPSet only copies tables.
- `findUniqueValue`: `haveUniqueValue` is passed by value, so that the search can miss a different value in a less-than half; `hasUniqueValue` promises nothing that the code keeps.
- TrieBuffer.Buffer.WriteDeltaTo: deltas above `kMaxThreeByteDelta` are written as the code writes them, but nothing is promised about reading them; `TrieCodec.DeltaRoundTrip` shows why.
- BytesTrieBuilder.BytesTrieBuilder.BuildBytes: promises the trie only for results of at most `kMaxThreeByteDelta` bytes, for the same reason. Only the fast build is modelled; the small build, which shares equal nodes, is not.
- BytesTrieBuilder.BytesTrieBuilder.SortElements: an insertion sort stands for the quicksort of `uprv_sortArray`, with the same promise.
- TrieIterator.Iterator.constructor: starts at the root; the second constructor, which starts at the position of a cursor, is not modelled. Strings are at most 0xffff bytes long, as the packed stack demands.
- BytesTrie.BytesTrie.constructor: the bytes are those of some trie; reading arbitrary bytes is not modelled.
- `UCharsDictionaryMatcher`: the matcher over a trie of code units, which has the same loop.
- `DictionaryBreakEngine::findBreaks`: the search for the range that is divided up.
- BreakEngines.DictionaryBreakEngine.DivideUpDictionaryRange: one class with the rules of a script stands for the four engines. The letters and the marks of a script are parameters, since they come from Unicode properties. The ring of lists is a sequence of three objects.
- CjkEngine.CjkBreakEngine.Segment: for text of the basic plane and totals below 2^32-1, like the whole engine, see DivideUpDictionaryRange.
- CjkEngine.CjkBreakEngine.DivideUpDictionaryRange: for text of the basic plane that needs no NFKC normalization and totals below 2^32-1; the maps of indexes for other text are not modelled. The Hangul set is the range of syllables.
- MessagePattern.MessagePattern.ParseDouble: whether some text is a number is a parameter, and numbers are kept as their text, because `strtod` and floating point are not modelled. The character sets are parameters; `PatternProps` has those of the library.
- MessagePrinting.PatternParses: the numbers of a tree are integers; for other numbers see `MessageNumbers.NumberRule` and MessagePattern.NumericValue.
- PatternProps.PatternSetting: the bit tables are written as ranges.
- MessagePattern.MessagePattern.Parse: of a parse error only the kind is modelled, not its offset and context; the entry points for a single choice, plural or select style are not modelled.
- Normalizer.Normalizer.constructor: text of UTF-16 units with an abstract normalization that splits at boundaries and never maps a segment to nothing; setting modes, options and indexes is not modelled.
- FilteredNormalizer2.FilteredNormalizer2.Normalize: works on code points instead of UTF-16 units; `composePair`, `getCombiningClass`, `hasBoundaryBefore`, `hasBoundaryAfter` and `isInert` are single expressions and not modelled.
- CanonicalEquivalents.GetEquivalents: works on code points; the buffer of 256 units for a segment is not modelled. Decomposition is a parameter with laws. That all canonically equivalent strings are found, as the documentation of the class says, is a statement about Unicode data and not claimed.
- Memory allocation failure and the passing on of error codes.
- Locales, resource bundles, service registration and other tables and dispatch in the repository.
