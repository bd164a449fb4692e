# A Dafny model of the chain diff and integer helpers of `src/photo/utils.c`

This project models the core of `src/photo/utils.c` of meas_deblender and
proves what that code promises.

The main part is the chain comparator. `shChainDiff` compares two chains
with Myers' O(ND) difference algorithm. It keeps a frontier of the furthest
point reached on each diagonal in `last_d[]` and `script[]`, indexed around
`ORIGIN`. Each new edit is an `EDIT` node linked back to the chain of a
neighbouring diagonal and pushed on the process-wide `membase` list. When a
diagonal reaches the bottom right corner, `chain_prepare` reverses that
node chain in place and points each node at its elements.
`shChainDiffAsList` and `shChainDiffPrint` present the script.
`free_script` and `shChainDiffFree` release everything.

Modules:

- `EditScript` (`edit_script.dfy`) defines what a script means,
  independently of how it is computed. It defines moves, the slides
  between them, paths through the edit graph, and the replay of a path on
  the first chain.
- `ChainDiff` (`chain_diff.dfy`) holds the class `DiffSession`. Its fields
  are the statics `chain1`, `chain2` and `membase`, with the EDIT nodes in a
  heap map from addresses to nodes. Its methods are `shChainDiff`,
  `chain_to_array`, `chain_prepare`, `free_script` and `shChainDiffFree`.
  The loop invariants of the search are ghost predicates over the
  `last_d`/`script` contents.
- `DiffPresent` (`diff_present.dfy`) covers `shChainDiffAsList` and
  `shChainDiffPrint`, walking the linked script. The printed text is
  modelled as the list of hunks it describes. The Tcl result is modelled as
  the list of (chain number, element) entries it holds.
- `Masks` (`masks.dfy`) covers `shMasksMerge`, `shMasksMergeWithOffset` and
  `shMasksOverlap` on byte masks held in `array2<bv8>`.
- `ShellSort` (`shell_sort.dfy`) covers `shshsort`, in place on an array.
- `Crc` (`crc.dfy`) covers `phCrcCalc` on 64-bit `long` patterns. This is
  the table-driven CRC-CCITT (ITU-T V.41 polynomial, reflected as 0x8408)
  of Kermit's type-3 block check.
- `Names` (`names.dfy`) covers `get09azAZ` and `phTypenameToType`.
- `Regions` (`regions.dfy`) covers the integer branches of `shRegIntAdd`,
  `shRegIntLogand` and `shRegIntConstMultAndShift`, plus
  `phRegS32ToU16Convert`, `phRegIntClipValInObjmask` and `phRegFloor`. A
  store into a pixel wraps the C `int` to the pixel's width explicitly.

Line numbers are 1-based: line n of a chain is element n - 1 of its
sequence.

## Model

| member | source | states |
|---|---|---|
| ChainDiff.DiffSession.constructor | src/photo/utils.c:735-737 | Before any diff, `chain1`, `chain2` and `membase` are NULL and no node is allocated. |
| ChainDiff.DiffSession.ShChainDiff | src/photo/utils.c:760-889 | A NULL chain, chains of different types, or a chain of MAXLINES or more elements give NULL with no node allocated. Otherwise the result is NULL only when max_d (n1 + n2 if negative) is below n1 + n2 and the chains differ; in that case everything is freed. Any other result is an answer: one IDENTICAL node for equal chains, or a forward list of count <= max_d edits leading from the start of both chains to their ends. Every call first frees the previous call's nodes: afterwards no node of the previous call is left, and every node allocated is new. |
| ChainDiff.DiffSession.Compare | src/photo/utils.c:795-809 | The arrays are allocated on first use and the chains copied in. A chain of MAXLINES or more elements is refused with NULL. Otherwise the outcome is that of the search with max_d defaulted to n1 + n2. |
| ChainDiff.DiffSession.Search | src/photo/utils.c:814-889 | The search from the origin keeps the session valid: every node, the IDENTICAL one included, is reached once from membase through memchain and the first ends it with NULL. Equal chains give a single IDENTICAL node. Otherwise the result is an answer of at most max_d edits, or NULL with everything freed when max_d < n1 + n2. |
| ChainDiff.DiffSession.Slide | src/photo/utils.c:814-818 | The slide covers lines the comparison function calls equal. It stops at the end of a chain or at a pair it calls different. |
| ChainDiff.DiffSession.Choose | src/photo/utils.c:843-852 | The tie-break: DELETE (from k+1, row last_d[k+1] + 1) on the left edge k == ORIGIN - d, or when last_d[k+1] >= last_d[k-1] away from the right edge; otherwise INSERT (from k-1, row last_d[k-1]). |
| ChainDiff.DiffSession.AddNode | src/photo/utils.c:835-858 | A new node gets a fresh address and its memchain is the old membase. The heap grows by exactly that node. |
| ChainDiff.DiffSession.Step | src/photo/utils.c:835-865 | Diagonal k gets the new node and the row its slide reached. That point has col == row + k - ORIGIN and edit distance d, recorded by the node chain. It is on the last row (column) when the diagonal it came from was. No other diagonal changes. |
| ChainDiff.DiffSession.Visit | src/photo/utils.c:834-877 | One turn of the k loop: it returns the corner when reached. Otherwise a diagonal on the last row moves lower past k and one on the last column sets upper below k. |
| ChainDiff.DiffSession.Round | src/photo/utils.c:834-880 | A round d either reaches the corner on a diagonal that records d edits, or leaves the frontier of round d + 1 with bounds lower - 1 and upper + 1, and d < n1 + n2. |
| ChainDiff.DiffSession.Rounds | src/photo/utils.c:833-888 | The d loop up to max_d: it returns an answer of count <= max_d edits, or NULL with everything freed and max_d < n1 + n2. |
| ChainDiff.DiffSession.Finish | src/photo/utils.c:869-870 | The script of the diagonal that reached the corner, prepared, is an answer of d edits. |
| ChainDiff.DiffSession.ChainPrepare | src/photo/utils.c:939-956 | The d nodes are relinked in place into first-move-first order with the same moves. The new chain is made of exactly the nodes of the old one, and every node off the chain is unchanged. Each node points at the element its own move deletes or inserts. |
| ChainDiff.DiffSession.Relink | src/photo/utils.c:945-952 | One turn of the loop: the newest unreversed node moves to the front of the reversed part, resolved. |
| ChainDiff.DiffSession.ChainPrepareAsWritten | src/photo/utils.c:939-956 | As written, the same reversal needs both line numbers of every node to be at least 1. |
| ChainDiff.DiffSession.RelinkAsWritten | src/photo/utils.c:945-952 | One turn of the loop as written: it reads both chains for the node. |
| ChainDiff.DiffSession.ChainToArray | src/photo/utils.c:918-931 | A chain of `size` or more elements gives -1 and leaves the array unchanged. Otherwise element i goes to slot i, the rest is kept, and the count is returned. |
| ChainDiff.DiffSession.ChainToArrayAsWritten | src/photo/utils.c:918-931 | As written, element i goes to slot i + 1. |
| ChainDiff.DiffSession.FreeScript | src/photo/utils.c:962-972 | Walking memchain from membase frees every allocated node and nothing else changes. |
| ChainDiff.DiffSession.ShChainDiffFree | src/photo/utils.c:906-911 | Afterwards chain1, chain2 and membase are NULL and no node is allocated, whatever diffs came before. |
| ChainDiff.AnswerReplays | src/photo/utils.c:741-754 | Applying an answer's deletions and insertions to the first chain gives a sequence the comparison function matches line by line with the second. The script has count edits, \|s1\| - \|s2\| more deletions than insertions. |
| ChainDiff.ChainPrepareAsWrittenReadsBeforeStart | src/photo/utils.c:950-951 | Every script from a non-empty chain to an empty one consists of deletions at line2.n = 0. chain_prepare as written reads chain2[-1] for them. |
| ChainDiff.DiffSession.IdenticalAsWritten | src/photo/utils.c:824-829 | As written, the IDENTICAL node is allocated with its memchain left unset: if that memory holds a non-NULL pointer, the arena invariant (every node reachable from membase by memchain exactly once) no longer holds. |
| ChainDiff.ChainToArrayAsWrittenShifts | src/photo/utils.c:928 | For every chain of at least one element copied as written (element i in slot i + 1), slots 0 .. n - 1, which the diff reads as lines 1 .. n, hold the chain exactly when the stale slot 0 equals the first element and every element equals the one before it. |
| ChainDiff.ExtendDiag | src/photo/utils.c:843-865 | A node linked to a neighbouring diagonal's chain, followed by a slide, records a path one edit longer on diagonal k. |
| ChainDiff.StepFacts | src/photo/utils.c:843-877 | The point reached has col == row + k - ORIGIN and edit distance d, at least d steps from the origin. It is on the last row (column) when the diagonal it left was. |
| ChainDiff.NodeInGraph | src/photo/utils.c:853-855 | The chosen node's row and column lie inside the edit graph. |
| ChainDiff.DiagOKPath | src/photo/utils.c:843-858 | A recording node chain is a descending chain of e nodes whose moves, oldest first, form a path from the origin to the diagonal's point. |
| ChainDiff.DiagOKProgress | src/photo/utils.c:853 | A point recorded with e edits is at least e steps from the origin. |
| ChainDiff.VisitEnd | src/photo/utils.c:876-880 | When the k loop ends without the corner, lower - 1 and upper + 1 bound the next round, and d < n1 + n2. |
| ChainDiff.MarksStep | src/photo/utils.c:872-877 | lower passes a diagonal that reached the last row, and upper stops below one that reached the last column. |
| ChainDiff.NeighboursOK | src/photo/utils.c:843-851 | The neighbours k-1 and k+1 that round d reads hold points of round d - 1: left of the last column and above the last row respectively. |
| ChainDiff.StartFrontier | src/photo/utils.c:814-822 | Round 1 starts from the slide along diagonal 0 with the empty path, lower and upper set as the source sets them. |
| ChainDiff.ArenaAlloc | src/photo/utils.c:858 | Pushing a new node on membase keeps every allocated node reachable through memchain. |
| ChainDiff.ReverseStep | src/photo/utils.c:945-952 | Relinking the newest unreversed node in front of the reversed part keeps the first moves unreversed and the last ones reversed, in order. |
| ChainDiff.WalkMoves | src/photo/utils.c:1000-1049 | The moves of a chain in link order are its head's move followed by those of its link. |
| EditScript.PathBalance | src/photo/utils.c:843-855 | A path to (r, c) has r - c more deletions than insertions, and every move is one or the other. |
| EditScript.PathInBounds | src/photo/utils.c:853-855 | Every move of a path stays inside the edit graph. |
| EditScript.PathProgress | src/photo/utils.c:862-864 | A path of m moves ends at least m steps from the origin. |
| EditScript.ReplayMatches | src/photo/utils.c:741-754 | Replaying a path to (r, c) on the first chain gives a sequence matching the first c lines of the second. |
| EditScript.ReplayStep | src/photo/utils.c:843-864 | The last move and slide extend a matching replay. |
| EditScript.EmptyPathIsEqual | src/photo/utils.c:814-829 | A slide from the origin to the corner means the chains are equal. |
| DiffPresent.EntryOf | src/photo/utils.c:1090-1094 | A DELETE node gives an entry of chain 1 with its line1.ptr, and any other node one of chain 2 with its line2.ptr. |
| DiffPresent.Entries | src/photo/utils.c:1089-1097 | The loop gives one entry per node, entry i being that of node i. |
| DiffPresent.ShChainDiffAsList | src/photo/utils.c:1072-1099 | A NULL script is an error with its message, and an IDENTICAL script gives an empty list. Otherwise the list has one entry per node, in order: (1, line1.ptr) for DELETE, (2, line2.ptr) otherwise. |
| DiffPresent.AsListOfAnswer | src/photo/utils.c:1079-1098 | For a successful diff the list is empty exactly when the chains are equal. Otherwise it has one entry per edit, naming the element that edit deletes or inserts, with \|s1\| - \|s2\| more deletions. |
| DiffPresent.ResolvedEntries | src/photo/utils.c:1090-1094 | The entry of a resolved deletion names its line of the first chain, and that of an insertion its line of the second. |
| DiffPresent.AnswerPrintable | src/photo/utils.c:1030-1047 | The nodes of an answer for unequal chains are deletions and insertions of lines that exist, so Print's reads stay inside the arrays. |
| DiffPresent.ShChainDiffPrint | src/photo/utils.c:993-1051 | The walk prints exactly the hunks Group computes from the script's moves, in order. |
| DiffPresent.PrintHunk | src/photo/utils.c:1000-1049 | One turn of the outer loop prints the first hunk of the rest of the script and stops at the node after it. |
| DiffPresent.PrintChange | src/photo/utils.c:1006-1049 | When the next node is a DELETE, the hunk printed is the first hunk of the rest: is a block of deletions of consecutive lines. It is a "Changed" hunk when insertions after its last line follow, and "Deleted" otherwise. |
| DiffPresent.DeleteRun | src/photo/utils.c:1007-1010 | The first do-while stops at the first node that does not delete the next line. The run it covers has DelRun's length. |
| DiffPresent.PrintDeletes | src/photo/utils.c:1030-1033 | The deleted lines printed are those of the run's moves, in order. |
| DiffPresent.PrintChangedTo | src/photo/utils.c:1014-1049 | The insertions a change prints are those after the block's last line that follow it. |
| DiffPresent.PrintInserts | src/photo/utils.c:1045-1049 | The second do-while prints the inserted lines of the run of insertions after one line. It stops where the run ends. |
| DiffPresent.DelRun | src/photo/utils.c:1007-1010 | The run of deletions the first do-while covers has at least one node and no more than the script. |
| DiffPresent.InsRun | src/photo/utils.c:1045-1049 | The run of insertions the second do-while covers is no longer than the script. |
| DiffPresent.HunkLen | src/photo/utils.c:1002-1049 | One turn of the outer loop consumes at least one node and no more than the script. |
| DiffPresent.DelRunShape | src/photo/utils.c:1007-1010 | DelRun counts leading deletions of consecutive lines and stops where the next move does not continue them. |
| DiffPresent.DelRunIs | src/photo/utils.c:1007-1010 | A run of consecutive deletions that cannot be extended is the one DelRun measures. |
| DiffPresent.InsRunShape | src/photo/utils.c:1045-1049 | InsRun counts leading insertions after one line and stops where the next move is not one. |
| DiffPresent.InsRunIs | src/photo/utils.c:1045-1049 | A run of insertions after one line that cannot be extended is the one InsRun measures. |
| DiffPresent.GroupKeepsEdits | src/photo/utils.c:1000-1050 | The hunks remove exactly the lines the script deletes and add exactly those it inserts, in order. |
| DiffPresent.GroupShape | src/photo/utils.c:1016-1026 | Every Deleted or Changed hunk names a block first..last of the first chain and removes exactly its lines. Every Changed or Inserted hunk adds at least one line. |
| DiffPresent.FirstHunkEdits | src/photo/utils.c:1002-1049 | The first hunk removes and adds what the moves it covers delete and insert. |
| DiffPresent.FirstHunkOK | src/photo/utils.c:1016-1026 | The first hunk has the shape GroupShape states. |
| DiffPresent.DeletedBlock | src/photo/utils.c:1022-1033 | Deletions of consecutive existing lines remove that block of the first chain. |
| DiffPresent.DeletionsAppend | src/photo/utils.c:1030-1047 | The deletions and insertions of two scripts concatenated are those of each, concatenated. |
| Masks.ShMasksMergeWithOffset | src/photo/utils.c:286-325 | A NULL mask, or a placement whose start or end is outside mask2, is an error and changes nothing. Otherwise val is ORed into exactly the pixels of mask2 under a nonzero pixel of mask1, and every other pixel is kept. |
| Masks.MergeRow | src/photo/utils.c:318-322 | One row of mask1 is ORed into its row of mask2 and every other pixel is kept. |
| Masks.Overlap | src/photo/utils.c:245-251 | The scan bounds are the first and the last row and column common to both masks. |
| Masks.ShMasksMergeAsWritten | src/photo/utils.c:225-267 | As written, the loops merge rows row0..rown-1 and columns col0..coln-1 only. Masks that do not overlap, and NULL masks, are errors that change nothing. |
| Masks.ShMasksMerge | src/photo/utils.c:225-267 | With inclusive loops, every pixel common to both masks is merged and every other pixel is kept. |
| Masks.MergeRange | src/photo/utils.c:259-265 | The two loops merge exactly the given rectangle of the parent frame. |
| Masks.MergeMissesLastRowAndColumn | src/photo/utils.c:259-263 | For two 1 by 1 masks on the same pixel, the as-written loops merge nothing where the inclusive loops set the pixel. |
| Masks.ShMasksOverlap | src/photo/utils.c:344-380 | The result is 1 if some pixel of the intersection is nonzero in both masks, and 0 otherwise. |
| Masks.OverlapsSymmetric | src/photo/utils.c:344-380 | Whether two masks overlap does not depend on which one is moved. |
| ShellSort.Shshsort | src/photo/utils.c:3104-3127 | arr[0..n) ends sorted and a permutation of its input, and nothing beyond n changes. |
| ShellSort.GapInsertionPass | src/photo/utils.c:3115-3125 | One pass leaves arr[0..n) h-sorted and permuted. |
| ShellSort.InsertAt | src/photo/utils.c:3117-3124 | Inserting arr[i] into its chain extends the h-sorted prefix by one. |
| ShellSort.ShiftDown | src/photo/utils.c:3120-3121 | One shift moves the hole down by h and keeps the multiset. |
| ShellSort.Knuth | src/photo/utils.c:3108-3112 | The gaps 1, 4, 13, ... are at least 1, and at least 4 after the first. |
| ShellSort.KnuthDown | src/photo/utils.c:3109-3115 | Dividing a gap of the sequence 1, 4, 13, ... by 3 gives the previous gap. |
| ShellSort.OneSortedIsSorted | src/photo/utils.c:3126 | A sequence sorted with gap 1 is sorted. |
| Crc.PhCrcCalc | src/photo/utils.c:3333-3359 | The result is the CRC of buff[0..n). With n == 0 it is crc, and a 16-bit crc gives a 16-bit result. |
| Crc.CrcOfConcat | src/photo/utils.c:3320-3330 | Feeding buff0 and then buff1 equals feeding their concatenation. |
| Crc.CrcOfKeeps16Bits | src/photo/utils.c:3353-3356 | From a 16-bit start value the CRC of any buffer is a 16-bit value. |
| Crc.StepKeeps16Bits | src/photo/utils.c:3354-3355 | One character keeps a 16-bit running value within 16 bits. |
| Names.Get09azAZ | src/photo/utils.c:3410-3422 | A non-negative c gives a digit or an ASCII letter. A negative c, through C's truncating remainder, gives a code at or below '0'. |
| Names.CRem | src/photo/utils.c:3412 | C's `%` agrees with the mathematical remainder for c >= 0 and lies in (-NCHAR, 0] for c < 0. |
| Names.IndexOf09azAZ | src/photo/utils.c:3410-3422 | A character has an index exactly when it is a digit or an ASCII letter, and the index is below NCHAR. |
| Names.Get09azAZRoundTrip | src/photo/utils.c:3410-3422 | Reading back the character of c >= 0 gives c modulo NCHAR. |
| Names.IndexOf09azAZRoundTrip | src/photo/utils.c:3410-3422 | Every name character is produced, by its own index. |
| Names.Get09azAZInjective | src/photo/utils.c:3410-3422 | Different numbers below NCHAR give different characters. |
| Names.PhTypenameToType | src/photo/utils.c:3763-3788 | Each recognised name gives its type, and NULL or any other string gives 0. "U32" is not recognised. |
| Regions.Wrap | src/photo/utils.c:1621-1698 | Storing an int into a pixel gives a value in the range of the pixel type. |
| Regions.WrapKeepsInRange | src/photo/utils.c:1621-1698 | A value already in the range of the pixel type is stored unchanged. |
| Regions.ShRegIntAdd | src/photo/utils.c:1600-1718 | A type or size mismatch is an error that changes nothing. Otherwise every pixel of reg1 becomes the sum, wrapped to the pixel type; a sum the pixel type can hold is stored exactly, and adding an all-zero reg2 to a valid reg1 leaves reg1 unchanged. |
| Regions.AddPixels | src/photo/utils.c:1621-1698 | The row and column loops of the integer branches: every pixel of reg1 becomes its sum with the same pixel of reg2, wrapped to the pixel type. |
| Regions.AndPixel | src/photo/utils.c:2264 | A pixel ANDed with the mask and stored back is in the range of its type. |
| Regions.ShRegIntLogand | src/photo/utils.c:2245-2329 | FL32 is an error that changes nothing. Otherwise every pixel becomes its 32-bit pattern ANDed with mask, stored back into the type. |
| Regions.AndPixelMasks | src/photo/utils.c:2264 | An all-ones mask keeps every pixel, and a zero mask clears it. |
| Regions.AndPixelShrinks | src/photo/utils.c:2255-2290 | On the unsigned types ANDing never makes a pixel larger. |
| Regions.AndPixelIdempotentU32 | src/photo/utils.c:2300-2310 | On U32, ANDing twice with the same mask is ANDing once. |
| Regions.MultShift | src/photo/utils.c:1984-2009 | The new U8, U16 or S32 pixel is in the range of its type, and a U16 one is at most MAX_U16. |
| Regions.ShiftRight | src/photo/utils.c:1984 | `>>` keeps the sign of an int and never moves it away from 0. |
| Regions.ShRegIntConstMultAndShift | src/photo/utils.c:1961-2032 | Every U8, U16 or S32 pixel becomes (val*pix + half) >> shift in int arithmetic, stored into its type, with U16 clamped at MAX_U16. Other integer types are an error that changes nothing. |
| Regions.MultShiftByPowerIsIdentity | src/photo/utils.c:1969 | For 0 <= shift <= 15, multiplying by 2^shift and shifting back by shift keeps U8 and U16 pixels, as the `(half >> shift) == 0.5` remark intends. |
| Regions.MultShiftU16Saturates | src/photo/utils.c:1997-1998 | On U16, for val >= 0 and without int overflow, the result is the rounded scaled value capped at MAX_U16. |
| Regions.MultShiftWithoutOverflow | src/photo/utils.c:1984-2009 | Without int overflow, a pixel becomes the rounded scaled value stored into its type. |
| Regions.ShiftRightIsFloorDivision | src/photo/utils.c:1984 | `>>` on an int is division by 2^s rounded down. |
| Regions.PhRegS32ToU16Convert | src/photo/utils.c:2342-2369 | The given S32 region, or a new one when that is NULL, receives every pixel of the U16 region unchanged. |
| Regions.FloorPixel | src/photo/utils.c:3486 | The new pixel is the larger of the old one and minpix. |
| Regions.PhRegFloor | src/photo/utils.c:3472-3489 | Every pixel below minpix is raised to it, and every other pixel is kept, so a region with no pixel below minpix is left unchanged. |
| Regions.PhRegIntClipValInObjmaskAsWritten | src/photo/utils.c:1428-1462 | As written, the column range of each span ends at x2 - row0, which uses the row origin. |
| Regions.ClipAsWrittenOverreaches | src/photo/utils.c:1453 | With row origin 0 and column origin 5, the span (0, 5, 5) also clips region pixel (0, 1), which lies outside the mask. |
| Regions.ClipPixel | src/photo/utils.c:1456-1458 | A U16 pixel stays a U16 value. For 0 <= val, a pixel above val becomes val and any other is kept, so the result is at most both. A negative val is stored as (PIX)val, that is val + 65536 for -65536 <= val < 0, which can be above the pixel it replaces (val = -1 stores 65535). |
| Regions.ClipSpans | src/photo/utils.c:1446-1460 | Each region pixel a span covers, with the given origins for the start and the end of the span, is clipped to val. Every other pixel is kept. |
| Regions.PhRegIntClipValInObjmask | src/photo/utils.c:1428-1462 | Every region pixel under a span of the offset mask is clipped to val, and every other pixel is kept. |
| Regions.AnyCoversIsInMask | src/photo/utils.c:1446-1459 | With the column origin at both ends, the visited pixels are exactly the region pixels under the mask. |
| Regions.ClipIdempotent | src/photo/utils.c:1456-1458 | Clipping twice at the same value is clipping once. |

## Left out

- The text printed by shChainDiffPrint and the Tcl interpreter result of shChainDiffAsList are left out. The model keeps the hunks and entries they are built from, because `printf` and the Tcl calls are I/O.
- The messages pushed with `shErrStackPush` and `shError` are left out. Only the error result is modelled.
- ChainDiff.DiffSession.ShChainDiff: its optimality (that no shorter script exists) is not proved, because Myers' furthest-reaching-path argument is not formalised. The model proves that every answer is a correct script of at most max_d edits, and that NULL is returned only when 0 <= max_d < n1 + n2. For such max_d the contract therefore also allows NULL when a script of at most max_d edits exists.
- DiffPresent.ShChainDiffPrint: it requires a script of DELETE and INSERT nodes with lines that exist, which every answer for unequal chains is (AnswerPrintable). On the single IDENTICAL node, the source's default case reads the uninitialised line2.n of that node; that read is not modelled.
- The IDENTICAL node: ChainDiff.DiffSession.Search sets its memchain to NULL, the corrected behaviour listed under Findings.
- ChainDiff.DiffSession.ChainPrepare: it is the corrected version, which resolves only the line a node's own move refers to. It therefore does not set line2.ptr of a deletion or line1.ptr of an insertion.
- Element pointers: CHAIN elements are values of a type parameter. The pointers `line1.ptr`/`line2.ptr` hold the element itself.
- EDIT nodes: their fields other than op, the line numbers, the pointers, link and memchain are not modelled.
- The comparison function is a pure function parameter. Side effects of the caller's comparator are not modelled.
- shMalloc failure is left out. Allocation always succeeds.
- Masks: the mask merges require mask1 and mask2 to use distinct pixel buffers. Merging a mask into itself (aliasing) is not modelled.
- Masks: only the pixel rows and the origin are modelled, not the mask name.
- Regions: only the integer branches are modelled. The FL32 branches of shRegIntAdd and shRegIntConstMultAndShift work on floats and are excluded by their requires.
- Regions.PhRegFloor: the conversion `FLT2PIX(min)` of the float argument is taken as already done, and PIX is taken to be U16.
- ShellSort.Shshsort: PIX values are sorted as mathematical integers, which compare as the U16 values do.
- Crc: the `long` arithmetic is modelled as 64-bit patterns with an arithmetic right shift.
- Crc.PhCrcCalc: it is not proved equal to a bit-at-a-time CRC-CCITT division. Only its table-driven definition, its incremental use and its 16-bit bound are proved.
- Regions.ShRegIntConstMultAndShift: it requires 0 <= shift <= 30, because `1 << shift` overflows an int beyond that.
- Regions.ShRegIntAdd: reg1 == reg2 is covered (each pixel doubles, wrapped to the pixel type). Regions that share pixel memory at an offset (overlapping subregions of one parent) are not modelled, because two distinct pixel arrays never partly overlap; there the C loop would read pixels it has already updated.
- The rest of utils.c is not part of this model: statistics, polynomial fits, random noise, Tcl array marshalling, temporary files and memory reserves. It is floating point, randomness, or I/O.

## Findings

| source | as written | input that shows it | evidently intended | confidence | as-written member | corrected member |
|---|---|---|---|---|---|---|
| src/photo/utils.c:928 | chain_to_array stores element i in `arr[i + 1]`, but shChainDiff reads `chain1[row]` from row 0 and chain_prepare reads `chain1[n - 1]` | any chain with two different neighbouring elements, e.g. [x, y] with x != y: the diff compares the stale slot 0 and x instead of x and y | store element i in `arr[i]` | not executed | ChainDiff.DiffSession.ChainToArrayAsWritten, ChainDiff.ChainToArrayAsWrittenShifts | ChainDiff.DiffSession.ChainToArray |
| src/photo/utils.c:824-827 | the IDENTICAL node's memchain is never set, yet free_script (line 966) follows it from membase | diff two equal chains, e.g. [x] and [x], then call shChainDiffFree or shChainDiff again: free_script follows whatever the fresh memory holds | set the node's memchain to NULL | not executed | ChainDiff.DiffSession.IdenticalAsWritten | ChainDiff.DiffSession.Search |
| src/photo/utils.c:950-951 | chain_prepare reads both `chain1[line1.n - 1]` and `chain2[line2.n - 1]` for every node | diffing a one-element chain against an empty one: the DELETE node has line2.n = 0, so chain2[-1] is read | read only the line the node's own move refers to | not executed | ChainDiff.DiffSession.ChainPrepareAsWritten, ChainDiff.ChainPrepareAsWrittenReadsBeforeStart | ChainDiff.DiffSession.ChainPrepare |
| src/photo/utils.c:259-262 | shMasksMerge loops `r < rown` and `c < coln` although rown and coln are the last common row and column | two 1 by 1 masks on the same pixel, mask1's pixel set: nothing is merged | loop `r <= rown` and `c <= coln` | not executed | Masks.ShMasksMergeAsWritten, Masks.MergeMissesLastRowAndColumn | Masks.ShMasksMerge |
| src/photo/utils.c:1453 | phRegIntClipValInObjmask ends each span at `x2 - row0 + 1`, using the row origin | a region with row origin 0 and column origin 5 and the span (0, 5, 5): region pixel (0, 1) is clipped too | `x2 - col0 + 1` | not executed | Regions.PhRegIntClipValInObjmaskAsWritten, Regions.ClipAsWrittenOverreaches | Regions.PhRegIntClipValInObjmask |
