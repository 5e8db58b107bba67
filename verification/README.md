# Verified cores of libxkbcommon

libxkbcommon turns keyboard events into keysyms and text.  This project models
the parts of it, and of the scripts that generate its tables, whose fast or
stateful form has to agree with a simple meaning, and proves that it does.

| area | modules |
|---|---|
| case-mapping tables: overlap compressor, two-level tables, lookups | `OverlapCompressor`, `TwoLevelTable`, `CaseMappings` |
| checked integer arithmetic without compiler support | `CheckedArithmetic`, `Words` |
| perfect hash of keysym names: generator and lookup | `Multigraph`, `HashGraph`, `PerfectHash`, `NameLookup` |
| Compose: sequence tree, string pool, state machine, iterator | `ComposeTrie`, `ComposeOrder`, `StringPool`, `ComposeTable`, `ComposeState`, `ComposeIterator` |
| atoms | `AtomTable` |
| UTF-8 encoder, validator and decoder | `Utf8` |
| keysym names and Unicode conversion | `KeysymNames`, `KeysymUnicode`, `Numbers` |
| lists, key lookup and iteration, token locations, RMLVO builder | `RingList`, `KeymapKeys`, `ScannerLocation`, `RmlvoBuilder` |

Main results:

- **A generated case table answers like the array it was made from.**  Every
  move of the greedy compressor keeps each placed chunk at its recorded offset,
  adds nothing else and makes progress, so all chunks end up in one sequence,
  which is shorter than the chunks by exactly the overlaps that the moves took,
  each the largest at its time; two levels of it read back every element with the
  library's own shifts and masks; printing succeeds exactly when all entries
  merge; and then, from the entries to the answers
  (`CaseMappings.GenerateMappings`), `xkb_keysym_to_lower`/`_upper` return the
  cases that the script computed exactly when the two-in-one entry lost nothing.
- **Checked addition, subtraction and multiplication are exact.**  For every
  width and all eight combinations of signedness, the flag is set exactly when
  the mathematical result does not fit, and the stored value is its residue.
- **The perfect hash is perfect.**  The depth-first search reports failure
  exactly on cyclic multigraphs (a loop and a pair of parallel edges are
  cycles), otherwise solves all edge equations; the generator gives up only
  after every trial met a cyclic graph; and one probe and one string
  comparison give the answer of a linear search, for every string.
- **A Compose file means what its last lines say.**  After any file, a sequence
  has a result exactly when it was added and no later line is equal to it, a
  prefix of it or an extension of it.  No sequence with a result is a prefix of
  another, no node is a dead end, and the state machine, over any run of
  keysyms with modifiers anywhere in it, has the documented status for the
  sequence in progress.  The
  iterator lists exactly the sequences with results, in lexicographic order, and
  its buffer of as many keysyms as a line may have never overflows.
- **Atoms are an injective numbering** over every run of interns and lookups,
  across rehashes, and probing always meets a free slot.
- **The validator accepts exactly the encodings** of sequences of Unicode scalar
  values; the encoding is unique; the decoder reads it back.
- **Names and code points round-trip**, each with the exact condition; without
  regard to case, a name means the same in every case.

Two properties do not hold in general; each has its exact condition, and
concrete inputs that fail:

- The decoder reads some byte sequences that the validator rejects
  (`Utf8.DecoderLaxity`, `Utf8.DecoderReadsOverlong`).
- The number parsers return an `int`, so a run of 2^31 or more digits does not
  report its length, and one of 2^32 - 1 zeros reports an overflow
  (`Numbers.ResultMeaning`, `Numbers.LongRunLooksLikeOverflow`).  The comment in
  the source says that the conversion is safe; the model follows the code.

Three results rest on the data, and say exactly how.  An entry of the case
tables must give an upper-case character that has an upper case a lower case
too, and the other way around; the script does not check this, and
`CaseMappings.LossyMerge` shows a listing that it would accept and merge with
loss.  A code point survives the way to a keysym and back unless the table gives
it a Latin-1 keysym; a keysym without a name survives printing and parsing
unless another keysym is named like its notation.

Conventions.  Integers are unbounded; where the source has a width, the model
writes the wrap-around out.  Bitwise operators take the width `w` of the word as
a parameter, at least 32.  A loop that updates variables is a method with
invariants, an object that is updated in place is a class, and each method is
tied to a function of its inputs or of the old state.  Salts, hash functions and
generated table contents are arbitrary values that satisfy what the code relies
on.

## Model

| member | source | states |
|---|---|---|
| `OverlapCompressor.ComputeSimple` | scripts/update-keysyms-case-mappings.py:544-547 | the result is the largest number of last elements of the first sequence that are the first elements of the second |
| `OverlapCompressor.Compute` | scripts/update-keysyms-case-mappings.py:549-563 | no offset at which the two sequences agree gives a larger overlap than the one found, and they do agree there |
| `OverlapCompressor.InsertPlaces` | scripts/update-keysyms-case-mappings.py:700-714 | inserting a chunk before, inside or after the data keeps every recorded chunk at its recorded offset, and records the new one |
| `OverlapCompressor.MergePlaces` | scripts/update-keysyms-case-mappings.py:716-732 | merging two sequences keeps the chunks of both at their recorded offsets |
| `OverlapCompressor.InsertFills` | scripts/update-keysyms-case-mappings.py:700-714 | inserting leaves no element of the data outside the recorded chunks |
| `OverlapCompressor.MergeFills` | scripts/update-keysyms-case-mappings.py:716-732 | neither does merging |
| `OverlapCompressor.OverlappedSequences.InsertChunk` | scripts/update-keysyms-case-mappings.py:700-714 | the update in place computes that insertion; its assertions cannot fail |
| `OverlapCompressor.OverlappedSequences.MergeSequence` | scripts/update-keysyms-case-mappings.py:716-732 | the update in place computes that merge |
| `OverlapCompressor.FromPairPlaces` | scripts/update-keysyms-case-mappings.py:647-655 | a sequence made from an overlapping pair holds both chunks at their offsets, and nothing else |
| `OverlapCompressor.ComputePairs` | scripts/update-keysyms-case-mappings.py:501-509 | every pair of different chunks is listed with its overlap when it has one |
| `OverlapCompressor.BestPair` | scripts/update-keysyms-case-mappings.py:526-528 | the first of the pairs with the largest overlap |
| `OverlapCompressor.FindMove` | scripts/update-keysyms-case-mappings.py:908-966 | the move found is allowed, has the overlap claimed, and no insertion, merge or new pair overlaps by more |
| `OverlapCompressor.MoveKeeps` | scripts/update-keysyms-case-mappings.py:831-886 | every allowed move keeps the chunks partitioned into placed and remaining, each placed chunk at its offset in one sequence, sequences without elements of their own, pairs naming only remaining chunks, and lowers 2·remaining + sequences |
| `OverlapCompressor.Apply` | scripts/update-keysyms-case-mappings.py:831-886 | the four moves, applied in place, compute that change |
| `OverlapCompressor.MoveSaves` | scripts/update-keysyms-case-mappings.py:831-886 | each of the four moves makes remaining chunks and sequences together shorter by exactly its overlap |
| `OverlapCompressor.GreedySaves` | scripts/update-keysyms-case-mappings.py:888-1004 | the sequences of every greedy run and the overlaps of its moves together are as long as the chunks, and no two chunks overlap by more than the run saves |
| `OverlapCompressor.PlaceAll` | scripts/update-keysyms-case-mappings.py:888-990 | the loop is a greedy run from the chunks: every step applies an allowed move whose overlap no insertion, merge or pair exceeds; it ends with every chunk placed, and sequences that are left over do not overlap |
| `OverlapCompressor.Compress` | scripts/update-keysyms-case-mappings.py:888-1004 | all distinct chunks, and only they, end up in one sequence, each at its recorded offset; the sequence is made of the sequences of a greedy run, one after the other, and is shorter than all chunks together by exactly the overlaps of the moves, so at least by the overlap of any two chunks |
| `TwoLevelTable.GenerateGroups` | scripts/update-keysyms-case-mappings.py:589-593 | each distinct block once, in the order of first occurrence, with exactly the positions where it occurs, ascending, counting a short last block |
| `TwoLevelTable.FromOverlappedSequences` | scripts/update-keysyms-case-mappings.py:1226-1237 | the block of every number occurs in the data at the offset of that number, and the data holds elements of the source only |
| `TwoLevelTable.CompressArray` | scripts/update-keysyms-case-mappings.py:1275-1290 | grouping, compressing and ordering the offsets encodes every non-empty array, with its own elements only |
| `TwoLevelTable.ReadBack` | scripts/update-keysyms-case-mappings.py:1366-1371 | one level gives every element back, in bounds |
| `TwoLevelTable.LookupFinds` | scripts/update-keysyms-case-mappings.py:1366-1371 | the two-level lookup with shifts and masks stays in bounds and yields the source element, for every index and every pair of block sizes |
| `TwoLevelTable.BuildTable` | scripts/update-keysyms-case-mappings.py:1510-1560 | compressing an array and then its offsets gives a table that represents the array, holds no other elements, and whose lookup yields every element |
| `CaseMappings.LegacyFound` | src/keysym-case-mappings.c:168-172 | the lookup of legacy keysyms stays in bounds and finds the merged entry of the keysym |
| `CaseMappings.UnicodeFound` | src/keysym-case-mappings.c:579-583 | the same for the lookup of Unicode keysyms |
| `CaseMappings.MergeLegacy` | scripts/update-keysyms-case-mappings.py:1820-1827 | a merged entry leads to the lower and to the upper case of a legacy keysym exactly when merging lost nothing |
| `CaseMappings.MergeUnicode` | scripts/update-keysyms-case-mappings.py:1820-1827 | the same for Unicode keysyms, whose case may be a Latin-1 keysym |
| `CaseMappings.LossyMerge` | scripts/update-keysyms-case-mappings.py:259-290 | loading and merging do not check the condition: a listing with an upper case and no lower case for an upper-case letter would be accepted and lowered to another keysym |
| `CaseMappings.LegacyThroughTables` | src/keysym-case-mappings.c:585-621 | through both levels of compression, a legacy keysym is mapped to its lower and upper case, exactly when its entry merges without loss |
| `CaseMappings.UnicodeThroughTables` | src/keysym-case-mappings.c:585-621 | the same for every Unicode keysym in the range of the tables |
| `CaseMappings.PrintArrays` | scripts/update-keysyms-case-mappings.py:1829-1840 | the printed data are the merged entries of the table, and printing fails exactly when one does not merge |
| `CaseMappings.GenerateArrays` | scripts/update-keysyms-case-mappings.py:1829-1860 | compressing and printing succeeds exactly when all entries merge, and gives arrays that represent the entries |
| `CaseMappings.GenerateMappings` | scripts/update-keysyms-case-mappings.py:1862-1885 | from the entries to the answers: the generated tables map every keysym in their range to its lower and upper case, exactly when its entry merges without loss, and every other keysym to itself |
| `CheckedArithmetic.AddExact` | src/utils-checked-arithmetic.h:159-204 | for all widths and signedness, the sum is stored modulo the width of the result, and the flag says that it does not fit |
| `CheckedArithmetic.SubExact` | src/utils-checked-arithmetic.h:221-263 | the same for differences |
| `CheckedArithmetic.MulExact` | src/utils-checked-arithmetic.h:280-381 | the same for products |
| `CheckedArithmetic.AddUnsignedExact` | src/utils-checked-arithmetic.h:173-188 | the sign-bit tests of an unsigned sum decide whether the mathematical sum is in range |
| `CheckedArithmetic.AddSignedExact` | src/utils-checked-arithmetic.h:189-200 | the tests of a signed sum do |
| `CheckedArithmetic.SubUnsignedExact` | src/utils-checked-arithmetic.h:235-247 | the tests of an unsigned difference do |
| `CheckedArithmetic.SubSignedExact` | src/utils-checked-arithmetic.h:248-259 | the tests of a signed difference do |
| `CheckedArithmetic.MulWordCorrect` | src/utils-checked-arithmetic.h:286-377 | the stored word is the word of the product and the tests by division decide whether it is in range, in all eight cases |
| `CheckedArithmetic.SignedQuotientFits` | src/utils-checked-arithmetic.h:366-377 | the signed division of the signed case never overflows |
| `CheckedArithmetic.TruncationExact` | src/utils-checked-arithmetic.h:166-170 | a word is cut down to a narrower result without loss exactly when its value fits |
| `CheckedArithmetic.ConvertCongruent` | src/utils-checked-arithmetic.h:166-166 | storing into the result type yields the only value of the type that is congruent to the word |
| `Multigraph.SpannedIsAcyclic` | scripts/perfect_hash.py:130-186 | a multigraph whose edges all belong to a forest has no closed trail |
| `Multigraph.ChordClosesTrail` | scripts/perfect_hash.py:130-186 | an edge between two vertices of one tree, not in the tree, closes a trail |
| `Multigraph.AttachKeepsForest` | scripts/perfect_hash.py:130-186 | visiting an unvisited vertex over an unused edge keeps the forest |
| `HashGraph.Graph.Connect` | scripts/perfect_hash.py:121-128 | the adjacency lists represent the graph with the edge added |
| `HashGraph.VisitedNeighborCloses` | scripts/perfect_hash.py:163-170 | meeting a visited neighbour, other than over the edge passed over once, proves a cycle, also for loops and parallel edges |
| `HashGraph.ScanComplete` | scripts/perfect_hash.py:160-178 | after a scan every edge at a visited vertex is a tree edge or pending |
| `HashGraph.SearchDone` | scripts/perfect_hash.py:180-186 | when all vertices are visited, there is no cycle and all edge equations hold |
| `HashGraph.Graph.Scan` | scripts/perfect_hash.py:160-178 | scanning keeps the invariants of the search or proves a cycle |
| `HashGraph.Graph.VisitTop` | scripts/perfect_hash.py:157-178 | each vertex taken off the stack is unvisited, so the search ends |
| `HashGraph.Graph.Explore` | scripts/perfect_hash.py:151-178 | a tree is explored completely, or there is a cycle |
| `HashGraph.Graph.AssignVertexValues` | scripts/perfect_hash.py:130-186 | true exactly on acyclic multigraphs; then the values of the ends of every edge sum to its value modulo the number of vertices |
| `PerfectHash.SaltedSumStable` | scripts/perfect_hash.py:203-209 | growing a salt changes no sum of a key that was hashed before |
| `PerfectHash.StrSaltHash.Call` | scripts/perfect_hash.py:203-209 | the salt is extended to the length of the key and the sum is taken modulo the number of vertices |
| `PerfectHash.SolvedIsPerfect` | scripts/perfect_hash.py:332-345 | vertex values that solve the graph of the keys hash every key to its number |
| `PerfectHash.Try` | scripts/perfect_hash.py:332-345 | a trial succeeds exactly when the graph of the keys under its salts has no cycle, and then yields a perfect hash |
| `PerfectHash.GenerateHash` | scripts/perfect_hash.py:284-359 | the trials end; duplicate keys are reported exactly when there are any; a hash that is returned is perfect; all trials before it, or all of those that lead to giving up, met a cyclic graph of the keys, 150 for each size up to the limit; no keys always give a hash |
| `NameLookup.WrappedSumExact` | scripts/update-keysyms-names-handling.py:120-132 | on table names the wrap-around sums of the C code, with char signed or not, are the sums of the generator |
| `NameLookup.PerfectHashOf` | scripts/update-keysyms-names-handling.py:120-132 | the loop over the NUL-terminated key computes the probe |
| `NameLookup.TableNameFound` | scripts/update-keysyms-names-handling.py:120-132 | every table name is probed at its own position |
| `NameLookup.ExactLookup` | src/keysym.c:256-263 | hash, bound check and comparison answer as a linear search of the table, for every string |
| `ComposeTrie.AddIsLocal` | src/compose/parser.c:324-458 | adding a sequence changes only the subtree below a pointer and the pointer, and leaves a tree without shared nodes and without dead ends |
| `ComposeTrie.AddReach` | src/compose/parser.c:324-458 | afterwards the sequence leads to its leaf, its prefixes and extensions lead to none, and every other sequence leads where it led |
| `ComposeTrie.AddPathKeepsLeaves` | src/compose/parser.c:350-395 | walking down creates no leaf, keeps the results of the leaves it does not open, and adds at most one node per keysym |
| `ComposeTrie.LeafBelow` | src/compose/table.h:50-52 | from every node some sequence leads to a leaf |
| `StringPool.AppendKeepsString` | src/compose/parser.c:436-441 | appending a result string changes no earlier string |
| `StringPool.OverwriteKeepsString` | src/compose/parser.c:431-435 | overwriting a string with one that is not longer changes no other string |
| `StringPool.OverwriteStores` | src/compose/parser.c:431-435 | the new string is found where it was written |
| `ComposeTable.StoreKeepsPool` | src/compose/parser.c:429-445 | storing a result keeps every result string in a place of its own |
| `ComposeTable.DuplicateIsStored` | src/compose/parser.c:396-414 | skipping a repeated line is the same as storing its result again |
| `ComposeTable.ExtendedLookup` | src/compose/parser.c:324-458 | adding a sequence overrides exactly the sequences that are equal to it, prefixes of it or extensions of it; text and keysym included |
| `ComposeTable.Compose.constructor` | src/compose/table.c:61-70 | a new table is valid and empty |
| `ComposeTable.Compose.Descend` | src/compose/parser.c:350-395 | the loop over nodes and pointers computes the path and its end |
| `ComposeTable.Compose.AddProduction` | src/compose/parser.c:324-458 | the table afterwards, including the limit on nodes and repeated lines |
| `ComposeTable.RunLookup` | src/compose/parser.c:324-458 | after any file, a sequence has a result exactly when it was added and no later kept line is comparable with it, and then it has the text and the keysym of its line |
| `ComposeTable.SmallFileKept` | src/compose/parser.c:333-340 | no line is ignored from a file with fewer symbols than the limit on nodes, and no file makes the table reach the limit |
| `ComposeTable.AddAll` | src/compose/parser.c:748-756 | adding the lines of a file one after the other gives the table of the file |
| `ComposeTable.PrefixFree` | src/compose/table.h:50-52 | no extension of a sequence with a result has a result |
| `ComposeTable.InnerIsOpen` | src/compose/table.h:50-52 | the inner nodes are exactly the proper prefixes of sequences with a result |
| `ComposeState.State.constructor` | src/compose/state.c:33-54 | a new state has nothing typed |
| `ComposeState.State.Feed` | src/compose/state.c:86-124 | a keysym continues a sequence that can still be completed, otherwise starts a new one; a modifier is ignored and changes nothing |
| `ComposeState.ModifiersIgnored` | src/compose/state.c:92-103 | over any run, the sequence in progress is that of the run without its modifiers |
| `ComposeState.State.Reset` | src/compose/state.c:126-131 | nothing is typed |
| `ComposeState.State.GetStatus` | src/compose/state.c:133-151 | the status is determined by the sequence in progress and the sequences with results alone |
| `ComposeState.State.GetOneSym` | src/compose/state.c:188-196 | the keysym of the sequence in progress, if it has a result |
| `ComposeState.State.GetUtf8` | src/compose/state.c:153-186 | the text of the sequence in progress, or that of its keysym |
| `ComposeState.Transitions` | include/xkbcommon/xkbcommon-compose.h:509-527 | the documented transitions between statuses, for every sequence in progress and every keysym |
| `ComposeState.SequenceComposes` | include/xkbcommon/xkbcommon-compose.h:480-490 | typing a sequence with a result, with modifiers anywhere in between, is composing until its last keysym, and composed then |
| `ComposeState.FeedAll` | src/compose/state.c:86-151 | over any run of keysyms, the sequence in progress and the status are the documented ones; modifiers do not count, and a run that spells a sequence with a result is composed |
| `ComposeOrder.AddSorted` | src/compose/parser.c:378-383 | adding a sequence keeps smaller keysyms to the left and larger ones to the right, at every level |
| `ComposeOrder.ListedLeads` | src/compose/table.c:284-372 | every sequence of the in-order walk leads to its leaf |
| `ComposeOrder.ReachedListed` | src/compose/table.c:284-372 | every sequence that leads to a leaf is in the walk |
| `ComposeOrder.EntriesLexicographic` | include/xkbcommon/xkbcommon-compose.h:409-411 | the walk is in strict lexicographic order |
| `ComposeIterator.Iterator.constructor` | src/compose/table.c:232-272 | a new iterator has the whole walk to come, and all of it fits the buffer |
| `ComposeIterator.Iterator.FollowLeft` | src/compose/table.c:360-370 | pushing the nodes on the left arrows adds the entries of the subtree |
| `ComposeIterator.Iterator.Unwind` | src/compose/table.c:319-342 | removing processed nodes loses no entry |
| `ComposeIterator.Iterator.Next` | src/compose/table.c:284-372 | yields the next entry of the walk, or nothing when none is left, also ever after; the sequence never outgrows its buffer |
| `ComposeIterator.IterationExact` | include/xkbcommon/xkbcommon-compose.h:406-415 | the walk has exactly the sequences that have results, in strict lexicographic order |
| `ComposeIterator.IterateAll` | src/compose/table.c:232-372 | running an iterator to its end yields every sequence with a result once, in strict lexicographic order, with its keysym and text |
| `ComposeIterator.ListedResult` | src/compose/table.c:349-353 | the keysym and text yielded with a sequence are its result |
| `ComposeIterator.LinesWithin` | src/compose/parser.c:655-660 | a sequence with a result is at most as long as the longest line, so a buffer of that size is enough |
| `AtomTable.Table.constructor` | src/atom.c:48-61 | a new table holds the empty string at atom 0 |
| `AtomTable.Table.AtomText` | src/atom.c:83-88 | the text of an atom is the string whose atom it is; atom 0 has none |
| `AtomTable.Table.Grow` | src/atom.c:94-117 | rehashing into twice the size changes no string and keeps the index complete |
| `AtomTable.Table.Search` | src/atom.c:119-146 | probing finds the atom of a string, or adds it in the first free slot, or reports that it is missing |
| `AtomTable.Table.Intern` | src/atom.c:90-147 | the strings and the atom are those of the abstract numbering |
| `AtomTable.SomeProbeFree` | src/atom.c:145-146 | the load bound leaves a slot that probing reaches, so the end of the loop is unreachable |
| `AtomTable.NotInterned` | src/atom.c:119-138 | reaching a free slot first proves that the string has no atom |
| `AtomTable.RunExtends` | src/atom.c:90-147 | over every run the atoms of earlier calls keep their strings |
| `AtomTable.RunIsInjective` | src/atom.c:83-147 | over every run, two non-zero results are equal exactly when the strings are, and the text of a result is the string that was interned |
| `AtomTable.LookupFindsAdded` | src/atom.c:83-147 | a lookup adds nothing, and finds exactly the strings that some call added |
| `AtomTable.InternAll` | src/atom.c:90-147 | any run of calls on the table gives the results and strings of the abstract numbering |
| `AtomTable.InternThenRead` | src/atom.c:83-147 | after any run, the text of every atom that it returned is the string of the call, and calls that may add return one |
| `Utf8.Utf32ToUtf8` | src/utf8.c:19-63 | the buffer holds the encoding and a NUL; other numbers give an empty string; the rest of the buffer is untouched |
| `Utf8.IsValidUtf8` | src/utf8.c:65-135 | accepts a string exactly when it is the concatenation of encodings of Unicode scalar values |
| `Utf8.ValidIsWellFormed` | src/utf8.c:65-135 | the rows of Table 3-7 of the Unicode Standard are exactly the encodings |
| `Utf8.EncodingUnique` | src/utf8.c:19-63 | no two sequences of scalar values have one encoding |
| `Utf8.NextCodePoint` | src/utf8-decoding.c:40-82 | the loop computes the decoder's value and length, or reports failure |
| `Utf8.NextOfEncoded` | src/utf8-decoding.c:40-82 | decoding the encoding of a scalar value returns it and its length |
| `Utf8.ReadAllOfEncoded` | src/utf8-decoding.c:40-82 | reading an encoded sequence returns the sequence |
| `Utf8.ReadAllOfValid` | src/utf8-decoding.c:40-82 | on a well-formed string the decoder never fails, consumes all bytes, and re-encoding gives the string back |
| `Utf8.DecoderLaxity` | src/utf8-decoding.c:40-82 | the decoder reads the encoding of a scalar value exactly unless the first two bytes are of the kinds it does not check |
| `Utf8.DecoderReadsOverlong` | src/utf8-decoding.c:40-82 | two byte sequences that are decoded though they are not UTF-8 |
| `Numbers.ParseDec` | src/utils-numbers.h:29-48 | the value of the longest run of digits if it fits, else overflow, without intermediate wrap-around |
| `Numbers.ParseHex` | src/utils-numbers.h:91-106 | the same for hexadecimal digits |
| `Numbers.ResultMeaning` | src/utils-numbers.h:44-47 | the result is -1 exactly when the value does not fit, and the length of the run otherwise, for runs whose length fits an int |
| `Numbers.LongRunLooksLikeOverflow` | src/utils-numbers.h:103-105 | a run that is too long for that |
| `Numbers.PrintedValue` | src/keysym.c:64-95 | the digits printed for a number have its value |
| `KeysymUnicode.BinSearch` | src/keysym-utf.c:834-857 | finds the code point of a keysym whenever it is in the table, with indices that never wrap around |
| `KeysymUnicode.KeysymToUtf32` | src/keysym-utf.c:859-909 | the code point of a keysym |
| `KeysymUnicode.CharacterOf` | src/keysym-utf.c:859-909 | what every keysym types: Latin-1 keysyms themselves; function, keypad and remote-control keysyms the character listed for them; Unicode keysyms their code point unless it is a surrogate; keysyms of the table its entry; all others nothing |
| `KeysymUnicode.Utf32ToKeysym` | src/keysym-utf.c:911-944 | the keysym of a code point |
| `KeysymUnicode.KeysymOf` | src/keysym-utf.c:911-944 | which keysym stands for every number: the first current entry of the table, never a deprecated one, the direct keysym only when there is none, and none for 0, surrogates and numbers that are too large |
| `KeysymUnicode.RoundTripExact` | src/keysym-utf.c:859-944 | a code point survives the way to a keysym and back exactly unless it is an ordinary character to whose first current entry the table gives a Latin-1 keysym |
| `KeysymUnicode.RoundTrip` | src/keysym-utf.c:859-944 | every scalar value but 0 survives, for a table like the library's |
| `KeysymUnicode.UcsIsScalar` | src/keysym-utf.c:859-909 | the code point of every keysym is a Unicode scalar value, if those in the table are |
| `KeysymUnicode.KeysymThroughUtf8` | src/keysym.c:359-371 | the UTF-8 text of the keysym of a character, read back, gives the keysym |
| `KeysymNames.FindKeysymIndex` | src/keysym.c:25-53 | finds the entry of a keysym exactly when it has one |
| `KeysymNames.GetName` | src/keysym.c:63-95 | the table name, U-notation or 0x-notation of a keysym |
| `KeysymNames.PrintedForm` | src/keysym.c:63-95 | nothing exactly for invalid keysyms; the name of a listed keysym; else U and the code point in four to six upper-case digits, as few as possible, or 0x and eight lower-case digits |
| `KeysymNames.Istrcmp` | src/utils.c:156-166 | the loop computes the comparison without regard to case |
| `KeysymNames.CompareZero` | src/utils.c:156-166 | it is 0 exactly for strings that differ only in case |
| `KeysymNames.CompareTransitive` | src/utils.c:156-166 | it is a transitive order |
| `KeysymNames.FindAnyMatch` | src/keysym.c:285-297 | the binary search finds a match whenever there is one |
| `KeysymNames.NoMatchAfter` | src/keysym.c:298-307 | matches are consecutive, so the walk ends on the last one |
| `KeysymNames.InsensitiveLookup` | src/keysym.c:285-308 | the last entry that matches without regard to case, whichever one the search meets first |
| `KeysymNames.ParseKeysymHex` | src/keysym.c:229-236 | one to eight hexadecimal digits and nothing else |
| `KeysymNames.KeysymFromName` | src/keysym.c:239-357 | the keysym of the entry with the name or, without regard to case, of the last entry that matches it; otherwise the keysym that the notation of the name stands for |
| `KeysymNames.UnicodeNotation` | src/keysym.c:311-330 | a name that is not listed, U and one to eight hexadecimal digits, or u without regard to case: the direct keysym of a code point above Latin-1, the normalized one below, no keysym for anything else |
| `KeysymNames.NumericNotation` | src/keysym.c:331-339 | the same for 0x, or 0X without regard to case: the number, if it is a valid keysym |
| `KeysymNames.Xf86Notation` | src/keysym.c:341-354 | a name that is not listed and starts with XF86_ has the keysym of the name without the underscore |
| `KeysymNames.OtherNames` | src/keysym.c:239-357 | all other names that are not listed have no keysym |
| `KeysymNames.CaseDoesNotMatter` | src/keysym.c:239-357 | without regard to case, names that differ only in case have one keysym, through the table and all notations |
| `KeysymNames.NotationInAnyCase` | src/keysym.c:63-357 | without regard to case, the printed notation of a keysym is read back in any case |
| `KeysymNames.NamesDistinct` | src/keysym.c:256-263 | a table with a perfect hash has no name twice |
| `KeysymNames.NameRoundTripExact` | src/keysym.c:70-357 | for every valid keysym, parsing its printed name returns it exactly when the keysym has a name or the table gives its notation to no other keysym |
| `KeysymNames.NameRoundTrip` | src/keysym.c:70-357 | every valid keysym survives, if no table name looks like a printed number |
| `RingList.RotationIsRing` | src/util-list.c:16-76 | any node of a ring may be taken as the first |
| `RingList.ListInit` | src/util-list.c:16-21 | a ring of one node |
| `RingList.ListInsert` | src/util-list.c:23-35 | the ring with the node after the first; nodes outside are not touched |
| `RingList.ListAppend` | src/util-list.c:37-49 | the ring with the node at the end |
| `RingList.ListRemove` | src/util-list.c:51-61 | the ring without the node, wherever it was |
| `RingList.ListEmpty` | src/util-list.c:63-70 | true exactly when there is only the head |
| `RingList.ListIsLast` | src/util-list.c:72-76 | true exactly for the last node |
| `RingList.RemoveAll` | src/util-list.h:47-53 | the safe loop with removal visits every node once, in order, and leaves the ring empty and the nodes unlinked |
| `KeymapKeys.XkbKey` | src/keymap.h:878-904 | direct access and binary search find the key that a search of all entries finds |
| `KeymapKeys.AscendingStrict` | src/keymap.c:751-776 | the keycodes to be yielded are strictly ascending |
| `KeymapKeys.AscendingMembers` | src/keymap.c:751-776 | they are those of the named and, if asked for, bound keys |
| `KeymapKeys.KeyCursor.constructor` | src/keymap.c:692-739 | a new iterator has all of them to come, reversed if descending |
| `KeymapKeys.KeyCursor.Next` | src/keymap.c:751-776 | yields the next one, or the invalid keycode when none is left, also ever after |
| `KeymapKeys.Collect` | src/keymap.c:751-776 | running an iterator to exhaustion yields all that it had to come |
| `KeymapKeys.IterateKeys` | src/keymap.c:692-776 | iterating over a keymap yields the keycode of every key once that has a name and, if asked to, at least one group, in strictly ascending order, or descending if asked to |
| `ScannerLocation.Scanner.TokenLocation` | src/scanner-utils.c:10-46 | line and column are those found by counting newlines from the start |
| `ScannerLocation.LocationSteps` | src/scanner-utils.c:10-46 | the start is line 1, column 1; a newline leads to the next line, anything else to the next column |
| `ScannerLocation.LocationsAscend` | src/scanner-utils.c:10-46 | later positions have later locations, so no two share one |
| `ScannerLocation.LocateAll` | src/scanner-utils.c:10-46 | so for every run of queries, forwards or backwards |
| `RmlvoBuilder.MergeKeeps` | src/rmlvo.c:73-86 | merging scopes keeps options distinct, in first-seen order, and each mask 0 exactly when the option was ever global, else with exactly the bits of the layouts that named it |
| `RmlvoBuilder.AppendKeeps` | src/rmlvo.c:88-100 | so does appending an option that was not there |
| `RmlvoBuilder.FirstSeenGrows` | src/rmlvo.c:64-101 | options keep their order over any run, new ones go to the end, and none comes twice |
| `RmlvoBuilder.Builder.AppendOption` | src/rmlvo.c:64-101 | an empty option is refused; otherwise the option joins the history that the invariant describes |
| `RmlvoBuilder.Builder.AppendLayout` | src/rmlvo.c:103-152 | succeeds exactly below 32 layouts; then the layout is appended, each of its non-empty options is named by its index and nothing else is appended; else nothing changes |
| `RmlvoBuilder.Builder.AppendGlobalOption` | src/rmlvo.c:154-162 | the option becomes global |

## Left out

- Keyboard state, the keymap compiler, rules matching, the registry, include paths, environment, logging and other input or output.
- Parsing of Compose files: the model starts from parsed lines; that a string has at most 256 bytes is not used.
- The dump of a Compose table.
- The contents of generated tables: they are any tables that satisfy what the code relies on (sorted, generated by the scripts).
- Allocation failure, reference counts and freeing; that offsets of Compose result strings fit their 31-bit field.
- Compiler builtins and platform alternatives of the checked arithmetic; conversion to a signed type that does not fit wraps around, as the compilers in question define it.
- The choice of block sizes in the case-mapping script, integer sizes of the printed tables, and `xkb_keysym_is_lower` and `xkb_keysym_is_upper_or_title`.
- OverlapCompressor.FindMove: which of several equally good moves is taken, and the order in which chunks are tried, is left open.
- OverlapCompressor.PlaceAll: likewise for the chunk that starts a new sequence.
- TwoLevelTable.FromOverlappedSequences: sorting the groups by position is modelled as looking for the group of each position.
- TwoLevelTable.BuildTable: for one pair of block sizes, which the script would choose by the total size.
- PerfectHash.GenerateHash: the growth of the graph by 5 % is computed exactly, without the rounding of floating point, and which trial succeeds depends on random salts that are arbitrary.
- NameLookup.ExactLookup: needs vertex values that fit 16 bits and names shorter than 2^32 characters, as the generated table has.
- KeysymNames.GetName: `snprintf` into a buffer that is too short, and the length it returns.
- KeysymUnicode.KeysymThroughUtf8: the copying of the text into the caller's buffer.
- ComposeState.State.GetUtf8: `snprintf` into a buffer that is too short; the text of a keysym is a parameter.
- AtomTable.Table.Intern: strings without NUL, given with their length; fewer than 2^32 atoms.
- RmlvoBuilder.Builder.AppendOption: the model and rules strings of the builder are not part of it.
- The keysym iterator, deprecated names, keymap comparison and the other finite tables.
