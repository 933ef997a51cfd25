# pmt search core in Dafny

pmt is a grep-like pattern matcher. It searches files for one or more patterns. The match can be exact, or approximate within an edit distance. It reports matches as a count, as the matching text with its byte offset, or as the lines that hold them. This project models pmt's search core and proves properties of that model:

- the algorithm registry and the selector that picks an algorithm from the edit distance and the number of patterns;
- Shift-Or: the bit masks and the exact scan;
- Wu-Manber: the bit-parallel approximate scan, one state word per error count;
- Ukkonen: the automaton whose states are columns of the edit-distance table, built breadth first with a hash table and a linked queue, then run over the files;
- the brute-force matcher, which carries a partial match over from one read to the next;
- the line locator that finds and prints the line around a match.

Every search facade is modelled as a method. It takes a `SearchContext` (file contents, patterns, edit distance and reporting flags) and returns its exit code, the total match count, what it writes to standard output, and the warnings it logs.

Each algorithm is proved against a reference definition written independently of the code:

- `Text.Ends` / `Text.Occurrences`: the positions where the pattern ends or starts;
- `EditDistance.Dist`: the best Levenshtein distance between the pattern and any substring ending at a position;
- `EditDistance.ApproxEnds`: the positions where that distance is at most `k`.

`Dist` is a column of Sellers' dynamic-programming table. `EditDistance.DistIsBestSuffix` proves it is the minimum over all substrings that end there. The proofs also cover the following:

- The Shift-Or and Wu-Manber state words keep their bit-level meaning byte after byte.
- The Ukkonen automaton is complete and duplicate-free. Its breadth-first construction ends because the number of possible columns is finite.
- Each scan counts exactly the reference positions, whatever the read boundaries. For Shift-Or, Wu-Manber and Ukkonen, a file arrives as reads of at most `BUFFER_SIZE` bytes. For brute force, the buffer capacity is a parameter.
- Brute force, with the offsets corrected, and Shift-Or print the same only-matching output. As written, brute force prints offsets too large after a carry (see "Findings").
- Each facade's total is zero exactly when no searched pattern occurs, and the exit code follows the total.

Overlapping occurrences are all counted: "ana" occurs twice in "banana" (`Text.OverlappingOccurrences`). The code compares at every start position and shifts the state by one byte per byte read, so it counts 2, and so does the model.

Modules:

- `Types`: bytes, exit codes, the search context, reads;
- `Text`: exact occurrences;
- `EditDistance`;
- `Bits`: 64-bit words and `SHIFT_OR_BIT_MASK`;
- `Registry`;
- `ShiftOr`;
- `WuManber`;
- `Queues`;
- `Ukkonen`;
- `LineLocator`;
- `BruteForce`.

## Model

| member | source | states |
|---|---|---|
| `Types.Outcome` | src/algorithms/shift_or.c:97 | The exit code is EXIT_MATCHES exactly when the total is positive; it is never EXIT_MISTAKE. |
| `Types.CountOutput` | src/algorithms/shift_or.c:94-95 | In count mode, the output is the total's `%zu` digits (`Types.Decimal`) and a line feed, and the digits read back as the total. Otherwise nothing is printed. |
| `Types.Decimal` | src/algorithms/shift_or.c:95 | The digits of `%zu`: at least one, all decimal, a leading zero only for 0, and a single digit exactly below 10. |
| `Types.DecimalRoundTrip` | src/algorithms/shift_or.c:95 | Reading back the digits printed for a count gives the count. |
| `Types.OffsetPrefix` | src/algorithms/shift_or.c:61-62 | With byte offsets on, the prefix is decimal digits then `:`, and the digits read back as the offset. Otherwise the prefix is empty. |
| `Types.PrintedStops` | src/algorithms/shift_or.c:63 | `%.*s` writes the longest prefix of the bytes that holds no zero byte: it stops exactly at the first zero byte. |
| `Types.Chunked` | src/algorithms/shift_or.c:52 | The successive reads of a file concatenate to its content. Each read is non-empty and at most the requested size. |
| `Types.ChunkAt` | src/algorithms/shift_or.c:62 | Byte `i` of read `k` is the file's byte at offset `total_read + i`. |
| `Types.ReadAt` | src/algorithms/shift_or.c:52 | Each read is the slice of the file that starts at the running total of bytes read. |
| `Text.EndsBelowMeaning` | src/algorithms/shift_or.c:56-57 | The reference end list holds exactly the positions up to `n` where the whole pattern ends, strictly ascending. |
| `Text.StartsBelowMeaning` | src/algorithms/brute_force.c:19-22 | The reference start list holds exactly the offsets below `n` where the pattern occurs, strictly ascending. |
| `Text.EndsAreStarts` | src/algorithms/shift_or.c:62 | The end positions are the start positions moved by the pattern length, which is how the offset of an occurrence is recovered from where it ends. |
| `Text.EndsPrefix` | src/algorithms/shift_or.c:52-53 | The occurrences found in a prefix of a file are exactly the occurrences that end inside it. |
| `Text.OverlappingOccurrences` | src/algorithms/brute_force.c:18-22 | Overlapping occurrences are all counted: "ana" occurs in "banana" at 1 and at 3. |
| `Bits.BitMask` | src/algorithms/shift_or.h:8 | `SHIFT_OR_BIT_MASK(bits)` has the value 2^bits - 1 below the word width, and 2^64 - 1 (`USIZE_MAX`) from the width on, without ever shifting by the width. |
| `Bits.LowMaskValue` | src/algorithms/shift_or.h:8 | Below the word width, the mask's value is `(1 << bits) - 1`. |
| `Bits.BitMaskMonotone` | src/algorithms/shift_or.h:8 | The mask for fewer bits has no bit outside the mask for more bits. |
| `Bits.OneValue` | src/algorithms/shift_or.c:18 | `USIZE_C(1) << i` has the value 2^i. |
| `Bits.ClearBit` | src/algorithms/shift_or.c:18 | `x & ~(1 << k)` clears bit `k` and keeps every other bit. |
| `Bits.IsSetBit` | src/algorithms/shift_or.c:56 | The test `(x >> n) & 1` reads exactly bit `n`. |
| `Registry.LookupFrom` | src/algorithms.c:26-30 | The scan from entry `from` returns an entry with the requested identifier; it returns NULL exactly when no later entry has it. |
| `Registry.GetAlgorithm` | src/algorithms.c:22-31 | The lookup returns an entry of the table with the requested identifier; it returns NULL exactly for unknown identifiers. |
| `Registry.IdsDistinct` | src/algorithms.c:10-16 | No two entries of the table share an identifier. |
| `Registry.KnownIds` | src/algorithms.c:10-16 | The known identifiers are exactly "ac", "bm", "uk" and "wm". |
| `Registry.GetAlgorithmOfEntry` | src/algorithms.c:26-28 | Looking up an entry's own identifier finds that entry. |
| `Registry.Capabilities` | src/algorithms.c:11-14 | Exactly "uk" and "wm" are approximate, and only "ac" searches many patterns at once. |
| `Registry.ChooseAlgorithm` | src/algorithms.c:33-35 | The selector always finds an entry: "wm" when the edit distance is positive, otherwise "ac" for several patterns and "bm" for one. The chosen entry is approximate exactly when the edit distance is positive. |
| `EditDistance.DistIsBestSuffix` | src/algorithms/ukkonen.c:77-80 | Entry `i` of the distance column after `t[..n]` is the least Levenshtein distance between `p[..i]` and any substring of the text ending at `n`, and some such substring attains it. |
| `EditDistance.DistBounds` | src/algorithms/ukkonen.c:92 | Each column entry is at most its row number, and at most one more than the entry above it. |
| `EditDistance.DistUpper` | src/algorithms/ukkonen.c:78-79 | An entry is bounded by each of the three candidates of the recurrence: deletion, insertion and substitution or match. |
| `EditDistance.LevZero` | src/algorithms/ukkonen.c:78 | The distance is 0 exactly between equal words. |
| `EditDistance.DistZero` | src/algorithms/wu_manber.c:24 | An entry is 0 exactly when `p[..i]` ends at `n`, so zero errors is exact matching. |
| `EditDistance.DistForeignByte` | src/algorithms/ukkonen.c:78 | After a byte that the pattern prefix does not contain, entry `i` is `i`. |
| `EditDistance.ApproxEndsBelowCount` | src/algorithms/ukkonen.c:126-127 | One more byte adds one position to the approximate-match list exactly when a match within `k` ends after it. |
| `EditDistance.ApproxEndsExact` | src/algorithms/wu_manber.c:29 | With no errors allowed, the approximate positions are the exact end positions. |
| `EditDistance.ApproxEndsMember` | src/algorithms/wu_manber.c:29-30 | A position is listed exactly when it lies in the text read so far and some substring ending there is within distance `k` of the pattern. |
| `EditDistance.ApproxEndsMonotone` | src/algorithms/wu_manber.c:29 | Allowing more errors never loses a position. |
| `ShiftOr.CharMaskUpToBits` | src/algorithms/shift_or.c:17-18 | After the clearing loop has handled the first `n` positions, bit `i` of the mask is set exactly when `i` is a pattern position and, if `i < n`, the pattern byte there differs from the byte. |
| `ShiftOr.CharMask` | src/algorithms/shift_or.c:11-18 | Bit `i` of a byte's mask is set exactly when `i` is a pattern position holding a different byte. |
| `ShiftOr.BuildPatternMask` | src/algorithms/shift_or.c:11-18 | Every one of the 256 masks is the mask of its byte. |
| `ShiftOr.InitialMeaning` | src/algorithms/shift_or.c:49 | The initial state word says that no pattern prefix has ended yet. |
| `ShiftOr.StepMeaning` | src/algorithms/shift_or.c:54 | After the step `(s << 1) \| mask[c]`, bit `j` is 0 exactly when `p[..j + 1]` ends after the byte. |
| `ShiftOr.MatchBit` | src/algorithms/shift_or.c:56 | Bit `length - 1` of the state is 0 exactly when the whole pattern ends at the position. |
| `ShiftOr.Step` | src/algorithms/shift_or.c:54-57 | One byte keeps the state's meaning, and the match test fires exactly when the pattern ends after that byte. |
| `ShiftOr.MatchLine` | src/algorithms/shift_or.c:61-63 | One only-matching line is non-empty and ends with the line feed of line 63. |
| `ShiftOr.MatchLineParts` | src/algorithms/shift_or.c:61-63 | Before its line feed, an only-matching line is the offset prefix, whose digits read back as the offset, then the pattern as `%.*s` writes it, cut at its first zero byte. |
| `ShiftOr.ScanOutputGrows` | src/algorithms/shift_or.c:59-63 | In only-matching mode, a byte where the pattern ends appends that occurrence's line. |
| `ShiftOr.ScanOutputSame` | src/algorithms/shift_or.c:59-63 | Any other byte leaves the output unchanged. |
| `ShiftOr.ScanBuffer` | src/algorithms/shift_or.c:53-68 | After the bytes of one read, the state, the count and the output are those of the file up to the end of that read. |
| `ShiftOr.RunShiftOr` | src/algorithms/shift_or.c:46-77 | The count is the number of occurrences in the whole file, whatever the read sizes. The output lists every occurrence, at its start offset, in only-matching mode, and is empty otherwise. |
| `ShiftOr.SkipWarnings` | src/algorithms/shift_or.c:89-90 | Pattern `i + 1` gets a warning exactly when it is too long for the word. Every warning says so, and the numbers ascend. |
| `ShiftOr.FilesMatchesZero` | src/algorithms/shift_or.c:87-88 | A pattern's sum over the files is zero exactly when it occurs in none of them. |
| `ShiftOr.ExpectedTotalZero` | src/algorithms/shift_or.c:83-97 | The total is zero exactly when no pattern that fits the word occurs in any file. |
| `ShiftOr.ScanFiles` | src/algorithms/shift_or.c:87-88 | The sum over all files of one pattern's occurrences, and the files' outputs in order. |
| `ShiftOr.ShiftOrSearch` | src/algorithms/shift_or.c:79-98 | The total counts the occurrences of every pattern that fits the word in every file. The output is the scans' output followed by the count line. There is one warning per skipped pattern, and the exit code follows the total. |
| `ShiftOr.MaskTableAsWritten` | src/algorithms/shift_or.c:14-15 | The table as allocated holds `BYTE_MAX` = 255 masks, one per byte below 255. |
| `ShiftOr.ByteMaxUncovered` | src/algorithms/shift_or.c:81 | The byte 255 has no mask in that table, although "\xff" occurs in "\xff". The full table's mask for it has bit 0 clear. |
| `WuManber.InitialRowsMeaning` | src/algorithms/wu_manber.c:19-20 | Before any byte, row `j` has bit `i` clear exactly when `p[..i + 1]` is within distance `j` of the empty text. |
| `WuManber.DistStep` | src/algorithms/wu_manber.c:27 | The four conditions the row update combines are exactly the recurrence for "within distance `j`" after one more byte. |
| `WuManber.FirstRowBit` | src/algorithms/wu_manber.c:24 | Bit `i` of the new row 0 is clear exactly when `p[..i + 1]` ends exactly after the byte. |
| `WuManber.NextRow` | src/algorithms/wu_manber.c:27 | The update of row `j > 0` for one byte. It has no contract of its own; `WuManber.NextRowBit` states what its bits mean. |
| `WuManber.StepRows` | src/algorithms/wu_manber.c:24-27 | The first `j` new rows, computed in order, row `j` from the new row `j - 1`: exactly `j` rows. `WuManber.StepRowsMeaning` states what they mean. |
| `WuManber.NextRowBit` | src/algorithms/wu_manber.c:27 | Bit `i` of the new row `j` is clear exactly when `p[..i + 1]` is within distance `j` of a substring ending after the byte. |
| `WuManber.StepRowsMeaning` | src/algorithms/wu_manber.c:24-27 | One byte keeps the meaning of every row, and no row gets a bit above the pattern. |
| `WuManber.MeaningMonotone` | src/algorithms/wu_manber.c:27 | Every clear bit of a row is clear in every row for more errors. |
| `WuManber.RowMatch` | src/algorithms/wu_manber.c:29 | The match test on row `k` fires exactly when a substring ending at the position is within distance `k`. |
| `WuManber.ExactIsShiftOr` | src/algorithms/wu_manber.c:24 | With no errors allowed, Wu-Manber's matches are Shift-Or's. |
| `WuManber.FirstRowIsShiftOrStep` | src/algorithms/wu_manber.c:24 | On every pattern bit, row 0 is the Shift-Or state after the same step. |
| `WuManber.UpdateRows` | src/algorithms/wu_manber.c:24-27 | The new rows are the row recurrence applied to the previous rows. |
| `WuManber.StepByte` | src/algorithms/wu_manber.c:23-39 | After one byte, the rows keep their meaning, and the byte is counted exactly when a match within `k` ends there. |
| `WuManber.ScanBuffer` | src/algorithms/wu_manber.c:23-39 | After one read, the rows mean the file up to its end and the count is that of the approximate matches there. The two arrays end up swapped or not. |
| `WuManber.InitRows` | src/algorithms/wu_manber.c:19-20 | The corrected set-up: every row `j <= k` is the pattern mask shifted by `j`. |
| `WuManber.RunWuManber` | src/algorithms/wu_manber.c:12-48 | The count is the number of positions where a substring ending there is within distance `k` of the pattern, whatever the read sizes. |
| `WuManber.SkipReasonOf` | src/algorithms/wu_manber.c:58-67 | A skipped pattern is reported as too long when it exceeds the word, and otherwise as not longer than the edit distance. |
| `WuManber.SkipWarnings` | src/algorithms/wu_manber.c:57-68 | Pattern `i + 1` gets a warning exactly when it is skipped. Each warning carries that pattern's reason, and the numbers ascend. |
| `WuManber.FilesMatchesZero` | src/algorithms/wu_manber.c:61-62 | A pattern's sum over the files is zero exactly when none of them holds an approximate occurrence. |
| `WuManber.ExpectedTotalZero` | src/algorithms/wu_manber.c:57-73 | The total is zero exactly when no searched pattern has an approximate occurrence in any file. |
| `WuManber.ScanFiles` | src/algorithms/wu_manber.c:61-62 | The sum over all files of one pattern's approximate matches. |
| `WuManber.WuManberSearch` | src/algorithms/wu_manber.c:50-74 | Only-matching mode is refused with EXIT_MISTAKE. Otherwise, the total counts the approximate matches of every searched pattern, the count line is printed in count mode, there is one warning per skipped pattern, and the exit code follows the total. |
| `WuManber.InitRowsAsWritten` | src/algorithms/wu_manber.c:19-20 | The set-up loop as written: row 0 and the rows below `k` are set. Row `k` keeps what the allocation left unless it is row 0. |
| `WuManber.InitialRowsAsWritten` | src/algorithms/wu_manber.c:19-20 | The rows that loop leaves agree with the intended rows everywhere except row `k`. With `k = 0` they are the intended rows, so the defect needs `k >= 1`. |
| `WuManber.ApproxByteMaxUncovered` | src/algorithms/wu_manber.c:52 | The table as allocated has 255 masks. Pattern "\xff\xff", one error, text "\xff": a match ends at 1, and the mask the update reads for that byte lies past the table. |
| `WuManber.UnsetRowMissesMatch` | src/algorithms/wu_manber.c:29 | Pattern "ab", one error, text "b": a match ends at 1, but if the unset row holds all ones, the first step still reports none. The intended rows report it. |
| `Queues.Queue.Empty` | src/algorithms/utils/queue.h:17-18 | The head `calloc` returns: an empty queue. |
| `Queues.Queue.Node` | src/algorithms/utils/queue.h:20-23 | A node filled in with its payload, a NULL tail and its two neighbours. |
| `Queues.Queue.Push` | src/algorithms/utils/queue.h:14-33 | Pushing onto NULL yields a fresh queue holding only the element. Otherwise the same head is returned, with the element appended at the back. |
| `Queues.Queue.Link` | src/algorithms/utils/queue.h:20-30 | Linking a node after the head appends its payload to the contents and keeps the link invariant. |
| `Queues.Queue.Pop` | src/algorithms/utils/queue.h:35-54 | A pop on the empty queue returns NULL and releases the head. Otherwise it returns the oldest element and removes it, keeping the rest in order. |
| `Queues.Queue.LinksConsistent` | src/algorithms/utils/queue.h:22-27 | Every node's `prev` is the head or a node whose `next` leads back to it. |
| `Queues.Queue.EmptyLinks` | src/algorithms/utils/queue.h:39-46 | The queue is empty exactly when its `tail` is NULL, exactly when the head's `next` is NULL. |
| `Queues.PushPushPop` | src/algorithms/utils/queue.h:14-54 | Two pushes onto a new queue come out in the order they went in, then the queue is empty. |
| `Ukkonen.NextColumnShape` | src/algorithms/ukkonen.c:77-80 | Entry 0 of a new column is 0, no entry exceeds `k + 1`, and each entry exceeds the one before it by at most 1. |
| `Ukkonen.NextColumn` | src/algorithms/ukkonen.c:73-83 | Whatever the previous column holds, `next_column` yields a column of the automaton (one entry per pattern prefix, none above `k + 1`) whose entry 0 is 0. |
| `Ukkonen.InitialColumn` | src/algorithms/ukkonen.c:92-93 | The start column is a column of the automaton, and the start state is final exactly when the pattern length is at most `k`. |
| `Ukkonen.InitialColumnAfter` | src/algorithms/ukkonen.c:92 | The start column is the clamped distance column of the empty text. |
| `Ukkonen.NextColumnUpToAfter` | src/algorithms/ukkonen.c:77-80 | Entries `0..i` of the new column are the distance entries after one more byte, clamped at `k + 1`. |
| `Ukkonen.NextColumnAfter` | src/algorithms/ukkonen.c:73-83 | `next_column` maps the clamped column after `t[..n]` to the clamped column after `t[..n + 1]`. |
| `Ukkonen.ColumnAfterFinal` | src/algorithms/ukkonen.c:101 | A state is final exactly when a substring ending at the position is within distance `k`. |
| `Ukkonen.ByteIsMod` | src/algorithms/ukkonen.c:78-79 | The conversion to `uint_8` keeps the value modulo 256. |
| `Ukkonen.NoWrapEntry` | src/algorithms/ukkonen.c:78-79 | When no candidate reaches 256, an entry computed as written equals the recurrence's entry. |
| `Ukkonen.NoWrapBelow` | src/algorithms/ukkonen.c:77-80 | For `k <= 253`, `next_column` as written computes exactly the recurrence. |
| `Ukkonen.WrapAt254` | src/algorithms/ukkonen.c:78 | With `k = 254` and the pattern of 255 zero bytes, the column as written after "\x01" ends at most at 254 and so is final. The true distance is 255. |
| `Ukkonen.HashPrefix` | src/algorithms/ukkonen.c:40-41 | The running hash `5 * h + column[i]` stays a `usize` value. |
| `Ukkonen.HashColumn` | src/algorithms/ukkonen.c:37-44 | The hash of a column is a bucket index below `HASH_SIZE`. |
| `Ukkonen.StateTable.constructor` | src/algorithms/ukkonen.c:46 | A new table has every bucket empty and stores no state. |
| `Ukkonen.StateTable.Get` | src/algorithms/ukkonen.c:48-57 | The lookup returns a state with exactly the given column, and NULL only when no state has it. |
| `Ukkonen.StateTable.Add` | src/algorithms/ukkonen.c:59-70 | The newest state is appended to its column's bucket; every other bucket is unchanged and the table stays valid. |
| `Ukkonen.ArenaBound` | src/algorithms/ukkonen.c:96 | The states never outnumber the possible columns, so the breadth-first loop ends. |
| `Ukkonen.ArenaAppend` | src/algorithms/ukkonen.c:100-103 | A column not stored yet joins the states with its final flag, keeping the states distinct. |
| `Ukkonen.AddState` | src/algorithms/ukkonen.c:100-104 | A new column becomes the newest state, final exactly when its last entry is at most `k`. It is stored in the table and queued behind the states still waiting. |
| `Ukkonen.Successor` | src/algorithms/ukkonen.c:98-106 | The transition on a byte leads to the state whose column `next_column` computes. That state is created only when its column is new. |
| `Ukkonen.ExpandByte` | src/algorithms/ukkonen.c:97-106 | One pass of the byte loop appends the correct target to the state's row. |
| `Ukkonen.ExpandState` | src/algorithms/ukkonen.c:97-109 | After the byte loop, the dequeued state has all 256 transitions, each to the state of the right column. |
| `Ukkonen.StartColumn` | src/algorithms/ukkonen.c:92 | The start column's entry `i` is `min(i, k + 1)`. |
| `Ukkonen.InitialColumnAsWritten` | src/algorithms/ukkonen.c:92 | The start column as stored in `uint_8` entries. Up to `k = 254` it is the start column. |
| `Ukkonen.StartWrapAt255` | src/algorithms/ukkonen.c:92-93 | With `k = 255` and the pattern of 256 zero bytes, the stored start column ends in 0, not 256, although the start state is created as not final. After "\x01" the code's column is final; the true distance is 256. |
| `Ukkonen.Seed` | src/algorithms/ukkonen.c:88-96 | The start state holds the start column and is final exactly when the pattern is not longer than `k`. It is stored and is the first state popped. |
| `Ukkonen.PopNext` | src/algorithms/ukkonen.c:96 | The next state popped is the next one in creation order; the pop yields NULL only when every state has been expanded. |
| `Ukkonen.ExpandNext` | src/algorithms/ukkonen.c:96-110 | One round expands the dequeued state. It keeps every earlier state expanded and the number of states bounded, and pops the next state in order. |
| `Ukkonen.BuildDfa` | src/algorithms/ukkonen.c:85-117 | The automaton starts at the start column. Its states have distinct columns and correct final flags, and each has all 256 transitions to the state of `next_column`. |
| `Ukkonen.TransitionAfter` | src/algorithms/ukkonen.c:126 | From the state of the text read so far, one byte leads to the state of the text including it. That state is final exactly when an approximate match ends there. |
| `Ukkonen.ScanBuffer` | src/algorithms/ukkonen.c:125-135 | After one read, the state is that of the file up to the read's end, and the count is that of the approximate matches there. |
| `Ukkonen.RunUkkonen` | src/algorithms/ukkonen.c:119-144 | The count is the number of positions where a substring ending there is within distance `k` of the pattern, whatever the read sizes. |
| `Ukkonen.SkipWarnings` | src/algorithms/ukkonen.c:153-157 | Pattern `i + 1` gets a warning exactly when the edit distance is not below its length. Every warning says so, and the numbers ascend. |
| `Ukkonen.FilesMatchesZero` | src/algorithms/ukkonen.c:161-162 | A pattern's sum over the files is zero exactly when none of them holds an approximate occurrence. |
| `Ukkonen.ExpectedTotalZero` | src/algorithms/ukkonen.c:153-168 | The total is zero exactly when no pattern longer than `k` has an approximate occurrence in any file. |
| `Ukkonen.UkkonenSearch` | src/algorithms/ukkonen.c:146-169 | Only-matching mode is refused with EXIT_MISTAKE. Otherwise, the total counts the approximate matches of every pattern longer than `k`, the count line is printed in count mode, there is one warning per skipped pattern, and the exit code follows the total. |
| `LineLocator.LastLfBefore` | src/algorithms/utils/common.c:15-19 | The last line feed before an index, or none when there is none. |
| `LineLocator.FirstLfFrom` | src/algorithms/utils/common.c:21 | The first line feed in a range, as `memchr` finds it, or none. |
| `LineLocator.FindEnd` | src/algorithms/utils/common.c:21-22 | `end` is found exactly when a line feed lies at or after the index in the bytes read. It is then the file offset of the first such line feed, and at least the position. Otherwise it is -1. |
| `LineLocator.FindLineAsWritten` | src/algorithms/utils/common.c:10-25 | As written, `beg` is just past the last line feed at or before the index, so it can lie one past the position, and `end` is at the first line feed from the index on. At the buffer's capacity the byte tested first lies past the buffer, and it alone decides whether `beg` is the next offset. |
| `LineLocator.FindLine` | src/algorithms/utils/common.c:10-25 | The corrected search. `beg` is the offset after the last line feed before the position, found exactly when one exists. `end` is the offset of the first line feed at or after it, found exactly when one exists. |
| `LineLocator.ReadsPastFullBuffer` | src/algorithms/utils/common.c:15-16 | When the index is the buffer's capacity and the buffer holds no line feed, the code's `beg` depends only on the byte past the buffer. The corrected search finds no start. |
| `LineLocator.LineFeedAfterMatch` | src/algorithms/utils/common.c:15-17 | For "ab\n", with the index just past "ab", the code as written gives `beg = 3 > end = 2` and a print length of 2^64 - 1 bytes. The corrected search gives the line "ab". |
| `LineLocator.ResolvedLineIsLine` | src/algorithms/utils/common.c:56-93 | Whatever part of the file the buffer holds, the resolved line runs from just after the last line feed before the position to the first line feed at or after it. |
| `LineLocator.LineOutput` | src/algorithms/utils/common.c:96-108 | A printed line is non-empty and ends with the line feed of line 108. |
| `LineLocator.LineOutputParts` | src/algorithms/utils/common.c:96-108 | Before its line feed, a printed line is the offset prefix of the line's first byte, whose digits read back as `beg`, then the file's bytes from `beg` up to `end`. |
| `LineLocator.Prints` | src/algorithms/utils/common.c:51-95 | A line is printed only for a match at or past the last line's end (line 51), and only (line 95) when no line was printed yet or the line starts elsewhere. It has no contract of its own; `LineLocator.PrintsOncePerLine` and `LineLocator.LastLine.PrintFileLine` use it. |
| `LineLocator.PrintsOncePerLine` | src/algorithms/utils/common.c:95 | A match on the line just printed prints nothing again. |
| `LineLocator.LineHoldsMatch` | src/algorithms/brute_force.c:30 | For a pattern without line feeds, the line around the position just past an occurrence holds the whole occurrence. |
| `LineLocator.LastLine.constructor` | src/algorithms/brute_force.c:15 | The last line starts as `{-1, -1}`, so the first match always prints. |
| `LineLocator.LastLine.PrintFileLine` | src/algorithms/utils/common.c:44-117 | A match before the last line's end, or on a line starting where the last one did, prints nothing and changes nothing. Otherwise it prints the file's line around the position and remembers it. |
| `LineLocator.FileSeek` | src/algorithms/utils/common.c:27-33 | A seek that would land before offset 0 lands at 0. A relative seek moves by the offset, and an absolute seek lands at it. The seek fails, which is fatal, exactly when it is absolute to a negative offset that the test on `ftell + offset` lets through, because the current position plus the offset is not negative. |
| `BruteForce.ReportTail` | src/algorithms/brute_force.c:19-21 | Nothing is reported for start positions in the last `length - 1` bytes. |
| `BruteForce.ReportOnlyMatching` | src/algorithms/brute_force.c:25-28 | In only-matching mode, the output is one line per occurrence, at its start offset, in order. |
| `BruteForce.AgreesWithShiftOr` | src/algorithms/brute_force.c:26-28 | Brute force and Shift-Or print the same only-matching output for the same file and pattern. |
| `BruteForce.Read` | src/algorithms/brute_force.c:17 | The read keeps the carried bytes, adds as many file bytes as fit and remain, and leaves the bytes after them unchanged. |
| `BruteForce.Compare` | src/algorithms/brute_force.c:19 | The comparison extends the known prefix, and stops at the pattern's end, at the data's end or at the first differing byte. |
| `BruteForce.Decided` | src/algorithms/brute_force.c:21-32 | A full comparison is an occurrence at that file offset, and a differing byte rules one out. Running off the data leaves a proper prefix of the pattern at the data's end. |
| `BruteForce.MoveToFront` | src/algorithms/brute_force.c:33 | The `j` bytes at index `i` move to the front of the buffer, and the bytes from index `j` on are unchanged. |
| `BruteForce.Advance` | src/algorithms/brute_force.c:21-22 | Deciding one more start raises the count exactly when an occurrence starts there, and leaves the report unchanged otherwise. |
| `BruteForce.ReportMatch` | src/algorithms/brute_force.c:24-31 | An occurrence is reported as the reference report says: nothing when counting, the pattern at its start offset in only-matching mode, and otherwise its line. |
| `BruteForce.ScanStart` | src/algorithms/brute_force.c:19-35 | One start is decided and reported. Alternatively, the comparison runs off the data and the matched bytes move to the front, to be completed by the next read. |
| `BruteForce.ScanBuffer` | src/algorithms/brute_force.c:18-36 | Every start is decided except those in the carried prefix, which equals the file's bytes just before the end of the data. |
| `BruteForce.ReadAndScan` | src/algorithms/brute_force.c:17-36 | A read appends after the carry and its scan decides every start up to the new carry. A read of zero bytes happens only at the end of the file. |
| `BruteForce.RunBruteForce` | src/algorithms/brute_force.c:12-47 | The count is the number of occurrences in the file, overlapping ones included, whatever the buffer size. The output is the reference report for every occurrence. |
| `BruteForce.SkipWarnings` | src/algorithms/brute_force.c:53-58 | Pattern `i + 1` gets a warning exactly when it is longer than `MAX_PATTERN_LENGTH`. Every warning says so, and the numbers ascend. |
| `BruteForce.FilesMatchesZero` | src/algorithms/brute_force.c:54-55 | A pattern's sum over the files is zero exactly when it occurs in none of them. |
| `BruteForce.ExpectedTotalZero` | src/algorithms/brute_force.c:52-64 | The total is zero exactly when no searched pattern occurs in any file. |
| `BruteForce.ScanFiles` | src/algorithms/brute_force.c:54-55 | The sum over all files of one pattern's occurrences, and the files' outputs in order. |
| `BruteForce.BruteForceSearch` | src/algorithms/brute_force.c:49-65 | The total counts the occurrences of every pattern of at most `MAX_PATTERN_LENGTH` bytes in every file. The output is the scans' output followed by the count line. There is one warning per skipped pattern, and the exit code follows the total. |
| `BruteForce.MatchLength` | src/algorithms/brute_force.c:19 | The comparison with the bound as written never goes past that bound or the pattern. |
| `BruteForce.ScanAsWritten` | src/algorithms/brute_force.c:18-35 | As written, the loop counts matches only at buffer indices from the start index up to the bound, and carries less than a whole pattern when it breaks. |
| `BruteForce.AsWrittenOffsets` | src/algorithms/brute_force.c:27 | The offset printed for a match at buffer index `i` is `total_read + i`, one per match, in order. |
| `BruteForce.RunAsWritten` | src/algorithms/brute_force.c:17-36 | The offsets the code as written prints in only-matching mode, one per match it counts. Each lies in the file, at or after the position the run started from. |
| `BruteForce.CarryDropsOccurrence` | src/algorithms/brute_force.c:18 | With any buffer of at least 6 bytes, a file with "ab" straddling the first two reads holds one occurrence, but the scan as written counts none and prints nothing. |
| `BruteForce.CarryDropsOccurrenceAtBufferSize` | src/algorithms/brute_force.c:17-18 | The same miss at the search's own buffer size of 256 KiB. |
| `BruteForce.CarryShiftsOffset` | src/algorithms/brute_force.c:27 | With a 6-byte buffer, "ab" occurs in "xxxxxaxabxx" at offset 7 only, but the code as written prints offset 8: the 'a' carried from the first read is counted in `total_read` and again in the buffer index. |

## Left out

- Standard output is modelled as the bytes each search returns. Errors of `fread`, `fseek` and `ftell`, and the fatal `die` paths for them, are not modelled; the reads always succeed.
- Memory allocation and release (`malloc`, `calloc`, `realloc`, `free`) and its failures are not modelled. Nor are the buffers a search never frees.
- Logging is not modelled. The warnings for skipped patterns are returned as values. The debug messages and the collision statistics of `build_dfa` (src/algorithms/ukkonen.c:108, 112-114) are left out.
- Shift-Or, Wu-Manber and Ukkonen report lines through the inline `print_file_line` of src/algorithms/utils/common.h:16-24. It only logs that it is not implemented, so line mode prints nothing for them. Ukkonen's `line_byte_offset` (src/algorithms/ukkonen.c:133-134) only feeds that stub and is left out.
- The probe loops of `print_file_line` (src/algorithms/utils/common.c:58-93) seek and read backwards and forwards through the file. They are modelled by the whole-file line bounds they look for, `LineStart` and `LineEnd`, not by the seeks. The saved stream position restored at src/algorithms/utils/common.c:54, 75, 92 and 113 is not modelled. The rewind of src/algorithms/brute_force.c:43-44 is modelled by starting every brute-force scan at offset 0.
- Counts and byte offsets are unbounded naturals; their `usize` overflow is not modelled. The `usize` arithmetic of the hash is modelled modulo 2^64.
- A `usize` is taken to be 64 bits wide, and a word is a sequence of 64 bits.
- States of the Ukkonen automaton are indices into arrays of columns, final flags and transition rows, not pointers. The static counter of `state_new` (src/algorithms/ukkonen.c:23-26) is the index.
- Each hash bucket is a sequence, not a NULL-terminated array grown with `realloc`. The queue's payload is a state index, and a released head is a flag.
- The overlapping `memcpy` of src/algorithms/brute_force.c:33 is modelled as a move of the bytes. In C, `memcpy` of overlapping ranges is undefined.
- The Aho-Corasick, Boyer-Moore and KMP searches are stubs in this snapshot; the model has only their registry descriptors. The command-line front end (src/main.c) is not part of this model.
- ShiftOr.ShiftOrSearch: requires non-empty patterns. For an empty pattern, `shift = length - 1` (src/algorithms/shift_or.c:50) wraps to 2^64 - 1, and the test `s_mask >> shift` at line 56 shifts by more than the width, which C leaves undefined.
- BruteForce.BruteForceSearch: requires non-empty patterns, although the code accepts an empty one. At src/algorithms/brute_force.c:19-22 the comparison stops at once with `j == 0 == length`, so every byte read counts as a match. The model's carry argument needs a pattern of at least one byte.
- The edit distance is at most 255, as it is a `uint_8`.
- ShiftOr.ShiftOrSearch: every file is scanned from offset 0 for every pattern. `run_shift_or` (src/algorithms/shift_or.c:46-77) does not rewind the file. As written, every pattern searched after the first reads nothing and adds 0 to the total.
- WuManber.WuManberSearch: builds the masks in a table of 256, one per byte value. The table as allocated at src/algorithms/wu_manber.c:52 has 255 masks (see "Findings" and `WuManber.ApproxByteMaxUncovered`).
- WuManber.WuManberSearch: every file is scanned from offset 0 for every pattern. `run_wu_manber` (src/algorithms/wu_manber.c:12-48) does not rewind the file. As written, every pattern searched after the first reads nothing and adds 0 to the total.
- Ukkonen.UkkonenSearch: every file is scanned from offset 0 for every pattern. `run_ukkonen` (src/algorithms/ukkonen.c:119-144) does not rewind the file. As written, every pattern searched after the first reads nothing and adds 0 to the total.
- BruteForce.RunBruteForce: reports every occurrence at its true offset. After a carry of `c` bytes, the code prints offsets `c` too large in only-matching mode (src/algorithms/brute_force.c:27). It also passes a file offset `c` too large to the line printer (line 30). See "Findings" and `BruteForce.CarryShiftsOffset`.
- BruteForce.ReportMatch: reports the true start offset, as `BruteForce.RunBruteForce` does; the offsets the code prints after a carry are too large (see "Findings").
- BruteForce.BruteForceSearch: its output is that of the corrected scan `BruteForce.RunBruteForce`, with true offsets after a carry.
- BruteForce.AgreesWithShiftOr: compares Shift-Or with the corrected brute-force report. As written, the two outputs differ after a carry (`BruteForce.CarryShiftsOffset`). The lemma also excludes the empty pattern.
- BruteForce.RunAsWritten: its contract only bounds the printed offsets. Their values are shown by `BruteForce.CarryShiftsOffset` and `BruteForce.CarryDropsOccurrence`.
- LineLocator.ResolvedLineIsLine: states the bounds the probes of `print_file_line` look for, not what the probe loops as written compute. A backward probe that reaches offset 0 sets `beg = 0` without reading (src/algorithms/utils/common.c:62-64, 72). Each probe maps its window to `file_offset` although the window does not start there (lines 68 and 87). The seeks by `buffer_capacity * i` skip windows (lines 62 and 82).
- LineLocator.LastLine.PrintFileLine: prints the line between the whole-file bounds `LineStart` and `LineEnd`, so it has the same gap as `LineLocator.ResolvedLineIsLine`: the probe loops as written can compute other bounds.
- LineLocator.LineOutput: writes all of the line's bytes. The code prints each read of the line with `%.*s` (src/algorithms/utils/common.c:105), which stops at a zero byte, so the rest of that read is not printed. This cut is not modelled for lines; for only-matching lines it is (`Types.PrintedStops`).
- LineLocator.Prints and WuManber.NextRow: definitions without contracts of their own; the lemmas named in their rows state their properties.
- Ukkonen.InitialColumn and Ukkonen.StartColumn: compute the start column without the `uint_8` cut of line 92, which changes it only for `k = 255`. The column as written is `Ukkonen.InitialColumnAsWritten` (see "Findings").
- Ukkonen.NextColumnUpToAsWritten: its contract gives only the column's length. Its values are compared with the recurrence by `Ukkonen.NoWrapBelow` and `Ukkonen.WrapAt254`.
- BruteForce.MatchLength: its contract bounds the comparison as written but does not say where it stops. The corrected comparison is `BruteForce.Compare`.
- BruteForce.ScanAsWritten: its contract bounds the match indices and the carried bytes. What the loop as written counts and prints is shown by `BruteForce.CarryDropsOccurrence` and `BruteForce.CarryShiftsOffset`.

## Findings

| source | as written | input that shows it | evidently intended | confidence | as-written member | corrected member |
|---|---|---|---|---|---|---|
| src/algorithms/shift_or.c:14 | the mask table has `BYTE_MAX` = 255 entries and the loop stops below 255, but `masks[buffer[i]]` reads index 255 | pattern "\xff", text "\xff": one occurrence, and the byte's mask is read one past the table | 256 masks, one per byte value | not executed | `ShiftOr.ByteMaxUncovered` | `ShiftOr.BuildPatternMask` |
| src/algorithms/wu_manber.c:19 | the set-up loop stops below `k`, so row `k` is never set | pattern "ab", `k = 1`, text "b", with row 1 holding all ones: no match reported, although "b" is within distance 1 | rows `0..k` set, `i <= k` | not executed | `WuManber.UnsetRowMissesMatch` | `WuManber.InitRows` |
| src/algorithms/ukkonen.c:78 | the candidates and the entries of `next_column` are `uint_8`, and wrap from `k = 254` on | `k = 254`, pattern of 255 zero bytes, text "\x01": final state although the distance is 255 | entries clamped at `k + 1` without wrapping, which holds for `k <= 253` | not executed | `Ukkonen.WrapAt254` | `Ukkonen.NoWrapBelow` |
| src/algorithms/ukkonen.c:92 | the start column's entries `min(i, k + 1)` are cut to `uint_8`, so with `k = 255` every entry from 256 on is stored as 0 | `k = 255`, pattern of 256 zero bytes: the start column ends in 0 although line 93 creates the state as not final, and after "\x01" the state is final although the distance is 256 | entries `min(i, k + 1)` stored without cutting | not executed | `Ukkonen.StartWrapAt255` | `Ukkonen.InitialColumn` |
| src/algorithms/brute_force.c:18 | after a carry, the scan bound is the number of bytes just read, not the carried bytes plus those | a buffer of capacity at least 6, file "x...xa" filling it then "b": "ab" straddles the reads and is not counted | the scan bound covers the carried bytes too | not executed | `BruteForce.CarryDropsOccurrence` | `BruteForce.RunBruteForce` |
| src/algorithms/brute_force.c:27 | after a carry of `c` bytes, the printed offset `total_read + i + j - length` counts the carried bytes twice: once in `total_read` and once in the buffer index `i`. The same holds for the file offset passed at line 30 | buffer capacity 6, pattern "ab", file "xxxxxaxabxx": the only occurrence starts at 7, and the code prints 8 | print `total_read + i - c`, the occurrence's true start | not executed | `BruteForce.CarryShiftsOffset` | `BruteForce.RunBruteForce` |
| src/algorithms/wu_manber.c:52 | Wu-Manber allocates the same table of `BYTE_MAX` = 255 masks and fills it with `build_pattern_mask`, but lines 24 and 27 read `masks[buffer[i]]` at index 255 | pattern "\xff\xff", `k = 1`, text "\xff": a match ends at 1, and the byte's mask is read one past the table | 256 masks, one per byte value | not executed | `WuManber.ApproxByteMaxUncovered` | `ShiftOr.BuildPatternMask` |
| src/algorithms/utils/common.c:16 | with the index at the buffer's capacity, the first byte the backward search tests is `buffer[BUFFER_SIZE]`, one past the buffer | a file of exactly `BUFFER_SIZE` bytes, without line feeds, ending in the pattern: brute force passes the index `BUFFER_SIZE` and `beg` depends on the byte past the buffer | search the bytes before the index only | not executed | `LineLocator.ReadsPastFullBuffer` | `LineLocator.FindLine` |
| src/algorithms/utils/common.c:15 | the backward search for `beg` includes the byte at the index, and brute force passes the index just past the occurrence | file "ab\n", pattern "ab": `beg = 3 > end = 2`, and the print length wraps to 2^64 - 1 | search the bytes before the index only | not executed | `LineLocator.LineFeedAfterMatch` | `LineLocator.FindLine` |
