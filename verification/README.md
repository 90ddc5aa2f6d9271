# Verified model of the pigeon daemon's encoders and frame path

Dafny models of four parts of `src/pigeond`, with proofs of what they compute.
`dafny verify dfyconfig.toml` checks all of it.

**The PDF417 encoder** (`pdf417lib.c`). From text to packed bits: the cutting
of the text into segments and the merge passes over them (`Segmentation`,
`Merging`, `BreakString`, `TailLoss`), the three compactions (`TextMode`,
`TextCompaction`, `NumericMode`, `ByteMode`, over the positional notation of
`Radix`), the stream of codewords (`Stream`), the check codewords
(`ErrorCorrection`) and how far apart they keep two words (`Distance`), the size
of the symbol (`SymbolSize`), the bits of its rows (`RowBits`, `Painting`) and
`paintCode` over all of them (`PaintCode`). `SegmentLists` and `TextRuns` say in
plain characters and lengths when segments merge and which latch or shift is
written. For every compaction, for the stream and for the painted symbol there
is a reader written from ISO/IEC 15438:2006, and a theorem that says for exactly
which texts reading undoes writing. The last one, `PaintCode.BarcodeRoundTrip`,
goes through every stage at once.

**Base64 and the frames file** (`base64.c`, `linkmods/linkmod_files.c`,
`pigeon_frame.c`): `Base64`, `Base64Reader`, `Base64Codec`, `FramesFile`. The
encoding is read back by a reader written from RFC 4648. Frames become lines,
lines are read through a buffer of 1700 bytes and become frames again, up to
the first line that does not fit.

**The frame pipe** (`pointer_fifo.c`, `pigeon_frame_pipe.c`): `PointerFifo`,
`FramePipe`, `PipeHistory`. The ring buffer stands for a bounded sequence; over
two of them any number of threads interleave the steps they take under a mutex.
What comes out of one handle is tied to what was pushed into the other, over
every run.

**Bitmaps for the printer** (`printer.c`): `Bitmap`, `Scaling`, `Printing`. From
pixels to the dots of every printed line.

Loops, arrays and fields of the C code are loops, arrays and fields here. Each
such method is proved against a specification function, and what the code is
for is proved about that function. `Octets` holds the type of bytes, `Pdf417`
the shared constants and the encoder's state, `Transducer` the reading of a
sequence one symbol at a time.

## What the code does and a reader might not expect

- A merge step that takes both branches works through pointers that the first
  removal has moved under it. It removes the following segment without taking
  over its end (`Merging.StepCoverage`). Later steps close every such gap except
  one at the end of the list: there the last segment is lost
  (`Merging.PassKeepsAPrefix`, `BreakString.LostByteExample`). `LosesText` says
  that some step does that; its guard, `DropsTail`, is the condition of the two
  branches at the last segment but one. `TailLoss.LosesTextExactly` says for
  which texts, by one walk over the segments the first pass leaves, group by
  group between the numbers. Without a number this comes down to two shapes of
  the whole text (`TailLoss.TwoShapes`): one byte, five or more characters, one
  byte; or fewer than five characters, bytes, fewer than five characters. A
  number before such an end does not save it, unless it is itself swallowed by
  the group before (`TailLoss.NumberExamples`).
- NUL in a text segment is taken for a value of the Mixed sub-mode
  (`TextMode.NulIsMixed`) and does not come back (`Stream.LostNulExample`). Both
  round trips of the encoder are stated as an equivalence with these two
  conditions; without a NUL in the text only the first is left
  (`Stream.RoundTripWithoutNul`).
- `pigeon_frame_pipe_pop` may return no frame without any error: with one reader
  exactly when a reset emptied the buffer after the reader's check and nothing
  was accepted since (`FramePipe.SingleReaderGetsFrame`,
  `FramePipe.ResetEmptiesPop`), with two also when the other one took the frame
  (`FramePipe.TwoReadersRace`). The comment in `pigeon_frame_pipe.h` promises
  otherwise; the model follows the code.
- Frames of 1273 to 1518 bytes are written to the frames file but stop the
  reader (`FramesFile.AllReadable`).

## Model

| member | source | states |
|---|---|---|
| Radix.MultiplyAdd | src/pigeond/pdf417lib.c:424-433 | One round of the in-place big-number loops: the number in the array, read in base 900, becomes ten (or 256) times itself plus the new digit, every place ends up a digit below 900, and nothing outside the places is written |
| Radix.PropagateCarry | src/pigeond/pdf417lib.c:429-433 | The carry loop keeps the number and leaves every place below the base, the leading one included, whenever the number fits |
| Radix.ValueCarry | src/pigeond/pdf417lib.c:431-432 | Moving a multiple of the base from one place to the place before it does not change the number |
| Radix.DigitsOfValue | src/pigeond/pdf417lib.c:414-435 | A digit sequence is the only expansion of its value in its width, so a number read back in base 900, 10 or 256 gives the very digits |
| Pdf417.Encoder.constructor | src/pigeond/pdf417lib.h:61-83 | A new encoder state, with the 928 places for codewords |
| TextMode.Find | src/pigeond/pdf417lib.c:277-278 | The offset strchr reports: the first place where the character stands, and none only if it stands nowhere |
| TextMode.TablesAgree | src/pigeond/pdf417lib.c:56-57 | The two strings hold the characters of the Mixed and Punctuation sub-modes at the places the standard gives them |
| TextMode.ClassIsOneKind | src/pigeond/pdf417lib.c:265-286 | Every character but NUL either belongs to one of the four sub-modes, with a value below 29, or is a byte carrying its own code, never both |
| TextMode.NulIsMixed | src/pigeond/pdf417lib.c:277-284 | Because strchr finds the terminator, NUL is taken for value 25 of Mixed, which is the latch to Punctuation |
| TextMode.ClassReadsBack | src/pigeond/pdf417lib.c:265-286 | The value given to a character, read in any sub-mode it belongs to, is that character |
| TextMode.Encode1ReadsBack | src/pigeond/pdf417lib.c:299-393 | One round of the loop, whatever its sub-mode, parity and lookahead: a reader following section 5.4.2 of ISO/IEC 15438:2006 ends in the sub-mode the encoder moved to, with no shift left pending, and has read exactly the character consumed |
| TextMode.EntriesReadBack | src/pigeond/pdf417lib.c:299-393 | From every position, sub-mode and parity the entries emitted read back as the rest of a NUL-free segment |
| TextMode.PackReads | src/pigeond/pdf417lib.c:401-411 | Packing two entries to a codeword, with 913 and its byte kept apart, changes nothing for the reader |
| TextMode.TextRoundTrip | src/pigeond/pdf417lib.c:288-412 | Decoding a compacted text segment gives the segment back if and only if it holds no NUL |
| TextMode.TextReadsNoNul | src/pigeond/pdf417lib.c:288-412 | Whatever the segment, what is read back holds no NUL |
| TextMode.TextIsUnlatched | src/pigeond/pdf417lib.c:401-411 | Text compaction writes only values below 900 and the byte shift 913, never a mode latch |
| TextMode.PaddedIsLegal | src/pigeond/pdf417lib.c:394-395 | After the closing pad, a 29 if there is one, the number of entries is even, every 913 is at an even place and followed by a nonzero byte, and all other entries are below 30 |
| TextMode.EntriesBound | src/pigeond/pdf417lib.c:299-393 | Potential argument for the scratch array: from any point the entries still to come number at most two per remaining character plus a slack fixed by sub-mode, parity and the characters already looked ahead at |
| TextMode.ScratchBound | src/pigeond/pdf417lib.c:289-395 | The scratch array, two places per character, is never overrun, closing pad included |
| TextMode.BytesFillScratch | src/pigeond/pdf417lib.c:305-313 | The bound is tight: a segment of bytes fills the array |
| TextRuns.ClassIs | src/pigeond/pdf417lib.c:265-286 | Spelled out in character codes: which sub-modes a character belongs to and its value in them, by the ranges of letters and the two tables of the standard |
| TextRuns.LooksAhead | src/pigeond/pdf417lib.c:327 | What the encoder looks ahead for: two more characters, both capitals or blanks, or both in the Punctuation table; NUL and the end of the segment are neither |
| TextRuns.CapitalInLower | src/pigeond/pdf417lib.c:338-349 | A capital met in Lower is written 28, 28 and its value, moving to Alpha, exactly when two more capitals or blanks follow; else 27 and its value, staying in Lower |
| TextRuns.CapitalInMixed | src/pigeond/pdf417lib.c:371-375 | A capital met in Mixed: 28 and its value, moving to Alpha |
| TextRuns.SmallLetter | src/pigeond/pdf417lib.c:316-320 | A small letter met in Alpha or Mixed: 27 and its value, moving to Lower |
| TextRuns.MixedCharacter | src/pigeond/pdf417lib.c:321-325 | A Mixed character met in Alpha or Lower: 28 and its place in the table of the standard, moving to Mixed |
| TextRuns.PunctuationCharacter | src/pigeond/pdf417lib.c:326-335 | A character of Punctuation alone: the latch, 28 and 25 or from Mixed just 25, exactly when two more of the table follow, else the shift 29; then its place in the table |
| TextRuns.LeavePunctuation | src/pigeond/pdf417lib.c:386-390 | Any other expressible character met in Punctuation: 29, and the same character again from Alpha |
| TextRuns.ByteCharacter | src/pigeond/pdf417lib.c:304-313 | A character of no sub-mode: 913 and its code at an even place, brought there by 29, which in Punctuation is the latch to Alpha |
| TextRuns.SameRun | src/pigeond/pdf417lib.c:299-303 | A run of characters in its own sub-mode takes one entry a character |
| TextRuns.CapitalRun | src/pigeond/pdf417lib.c:338-349 | A whole run of n capitals met in Lower takes min(2n, n + 2) entries, the cheaper of shifting each and latching once |
| TextRuns.PunctuationRun | src/pigeond/pdf417lib.c:326-335 | A whole run of n characters of Punctuation alone takes 2n entries below three and n plus the latches from three on |
| TextMode.PackLength | src/pigeond/pdf417lib.c:396-411 | The predicted size (ptr + fullBytes) / 2 is the number of codewords written |
| TextCompaction.FillRound | src/pigeond/pdf417lib.c:300-392 | The branches of one round, on the scratch array: entries appended, new sub-mode, byte count, and the step back of k are those of the specification |
| TextCompaction.FillEntries | src/pigeond/pdf417lib.c:297-393 | The loop leaves in dest exactly the entries of the segment and counts two for each byte shift, inside the array |
| TextCompaction.PackInto | src/pigeond/pdf417lib.c:401-411 | The packing loop appends the packed entries to the codewords and writes nothing else |
| TextCompaction.TextCompact | src/pigeond/pdf417lib.c:288-412 | The segment's codewords are appended, or, if they would pass 926, the error is set and no codeword changes |
| NumericMode.BlockFits | src/pigeond/pdf417lib.c:414-435 | Twice ten to the number of digits is within 900 to the len/3+1, for every block of up to 44 digits |
| NumericMode.BlockReadsBack | src/pigeond/pdf417lib.c:414-435 | The codewords of a block have the value ten to the len plus the digits, and the decimal digits after the leading 1 are the block |
| NumericMode.NumericRoundTrip | src/pigeond/pdf417lib.c:437-454 | Regrouping the codewords by fifteen and reading each group in base 900 gives back the digit string, of any length |
| NumericMode.NumericLength | src/pigeond/pdf417lib.c:438-444 | The predicted size is the number of codewords written |
| NumericMode.NumericInBase | src/pigeond/pdf417lib.c:414-454 | Every numeric codeword is below 900 |
| NumericMode.DigitsLoop | src/pigeond/pdf417lib.c:423-434 | The digit loop turns the 1 in the last place into the number of the block |
| NumericMode.BasicNumberCompaction | src/pigeond/pdf417lib.c:414-435 | A block's codewords are appended to the message; later places keep their values |
| NumericMode.WriteBlocks | src/pigeond/pdf417lib.c:449-453 | The loop over blocks of 44 writes the codewords of the whole segment |
| NumericMode.NumberCompaction | src/pigeond/pdf417lib.c:437-454 | The segment's codewords are appended, or, if they would pass 926, the error is set and no codeword changes |
| ByteMode.SixReadsBack | src/pigeond/pdf417lib.c:456-477 | Six bytes fit five base-900 codewords and come back from them |
| ByteMode.GroupCountIsExact | src/pigeond/pdf417lib.c:655 | A reader that sees the latch, 901 or 924, and the number of codewords finds as many full groups as the encoder wrote, five raw bytes at the end not being taken for one |
| ByteMode.ByteRoundTrip | src/pigeond/pdf417lib.c:479-497 | Reading the codewords under the latch assemble writes gives the bytes back, for every length |
| ByteMode.ByteLength | src/pigeond/pdf417lib.c:481 | The predicted size is the number of codewords written |
| ByteMode.ByteInBase | src/pigeond/pdf417lib.c:456-497 | Every codeword of byte compaction is below 900 |
| ByteMode.ByteCompaction6 | src/pigeond/pdf417lib.c:456-477 | The five codewords of six bytes are appended; later places keep their values |
| ByteMode.WriteGroups | src/pigeond/pdf417lib.c:486-496 | The loop, which tests for fewer than 44 bytes left rather than six, still writes full groups of six and then the rest raw |
| ByteMode.ByteCompaction | src/pigeond/pdf417lib.c:479-497 | The segment's codewords are appended, or, if they would pass 926, the error is set and no codeword changes |
| Segmentation.ArrayList.constructor | src/pigeond/pdf417lib.c:78-82 | A new list is empty |
| Segmentation.ArrayList.Add | src/pigeond/pdf417lib.c:89-102 | The segment is appended, also when the array has to be doubled |
| Segmentation.ArrayList.Get | src/pigeond/pdf417lib.c:104-108 | The element itself, or NULL for an index outside the list |
| Segmentation.ArrayList.Remove | src/pigeond/pdf417lib.c:110-115 | One element goes and the later ones move up; the slot past the end keeps its old contents, which the merge passes then read |
| Segmentation.DigitStretch | src/pigeond/pdf417lib.c:512-540 | A position of a maximal stretch of digits lies in some run of 13 digits exactly when the stretch has at least 13 |
| Segmentation.SplitRange | src/pigeond/pdf417lib.c:522-534 | A range without long digit runs is cut wherever it changes between text and other bytes |
| Segmentation.AddRun | src/pigeond/pdf417lib.c:520-538 | What precedes a long digit run is cut up and added, then the run |
| Segmentation.Split | src/pigeond/pdf417lib.c:511-559 | The first part of breakString leaves the text cut at every change of kind: digit run of 13 or more, text, other bytes |
| BreakString.RunsWellSplit | src/pigeond/pdf417lib.c:511-559 | That cutting is an ordered, gap-free partition of the whole text into nonempty uniform segments, neighbours differ in kind, and every numeric one has at least 13 digits |
| BreakString.ShortKeepsPartition | src/pigeond/pdf417lib.c:562-576 | The merge of lone bytes between texts keeps the partition, from any gap-free list |
| Merging.ShortPass | src/pigeond/pdf417lib.c:562-576 | The loop with its restarts is the repeated merge of a lone byte between two texts, and ends; when it merges, and into what, is spelled out in SegmentLists.ShortPassStep and ShortPassStays |
| Merging.MergeLeft | src/pigeond/pdf417lib.c:584-589 | The left merge, and what the pointers v and vn see after the list has moved under them: the next segment, and the one after it or a stale copy |
| Merging.MergeRight | src/pigeond/pdf417lib.c:590-594 | The right merge through those pointers: what is written, and which segment is removed |
| Merging.MergeAt | src/pigeond/pdf417lib.c:578-599 | One iteration on the array, pointers and stale slot included, is one step of the specification, and redo is set exactly when a branch was taken |
| Merging.MergePass | src/pigeond/pdf417lib.c:577-624 | Both later passes, as loops restarting from the first segment, compute the specified result and end from any list |
| Merging.StepCoverage | src/pigeond/pdf417lib.c:583-597 | A step that takes one branch covers the same characters; one that takes both loses exactly those of the segment that followed v |
| Merging.StepStaysMended | src/pigeond/pdf417lib.c:583-597 | After any step a gap, if there is one, lies between a segment the pass will grow and a neighbour it will grow over |
| Merging.StepEnd | src/pigeond/pdf417lib.c:583-597 | A step shortens the covered text exactly when it takes both branches at the last segment but one |
| Merging.SettledIsContiguous | src/pigeond/pdf417lib.c:577-624 | When nothing more can be merged there is no gap left |
| Merging.PassKeepsAPrefix | src/pigeond/pdf417lib.c:577-624 | A pass over a gap-free list ends in a gap-free list that covers a prefix; the whole is covered if and only if no step dropped the last segment |
| BreakString.PassNumeric | src/pigeond/pdf417lib.c:577-624 | A pass leaves every numeric segment all digits |
| BreakString.BreakStringCovers | src/pigeond/pdf417lib.c:499-624 | For every text the list left is gap-free, in nonempty segments, numeric ones all digits, and covers a prefix, the whole text exactly when no pass dropped its tail |
| BreakString.PlainTextIsKept | src/pigeond/pdf417lib.c:560-624 | In text of printable ASCII, CR, LF and TAB no merge fires and nothing is lost |
| TailLoss.ShortSettles | src/pigeond/pdf417lib.c:562-576 | After the merge of lone bytes, from any list whose neighbours differ in kind, they still do and no lone byte is left to merge |
| TailLoss.OnlyStartsMergeLeft | src/pigeond/pdf417lib.c:582-597 | A segment with nothing to merge before it merges to the left only as the second of its group, the group being what stands between two numbers |
| TailLoss.StepKeepsWalk | src/pigeond/pdf417lib.c:583-597 | One step of either pass, anywhere in the list, does not change what the walk over the groups says, except where it drops the last segment |
| TailLoss.PassDropsExactly | src/pigeond/pdf417lib.c:577-624 | Either pass, from any point with nothing to merge before it, drops the end of its list exactly when one walk over the groups says so |
| TailLoss.EachPassExactly | src/pigeond/pdf417lib.c:577-624 | For every text, numbers included, the text pass drops the end exactly when the walk over the list it is given says so, and so does the binary pass |
| TailLoss.LosesTextExactly | src/pigeond/pdf417lib.c:499-624 | For every text the end is lost if and only if one walk over the list left by the merge of lone bytes says so: no run of the two later passes is needed to tell |
| TailLoss.RoundTripExactly | src/pigeond/pdf417lib.c:499-662 | Every nonempty text comes back from its codewords if and only if that walk finds nothing and no text segment holds a NUL |
| TailLoss.TwoShapes | src/pigeond/pdf417lib.c:577-624 | Without a number the walk comes down to two shapes of the whole list: a lone byte, a text of five or more, a lone byte; or a text shorter than five, bytes, a text shorter than five |
| TailLoss.NumberExamples | src/pigeond/pdf417lib.c:577-624 | Behind thirteen digits the first shape still loses its end; behind a number that is itself swallowed the second one does not |
| BreakString.LostByteExample | src/pigeond/pdf417lib.c:577-600 | Five letters between two bytes of 128: the last byte is lost |
| BreakString.NulExample | src/pigeond/pdf417lib.c:562-576 | Three letters, NUL and three letters become one text segment |
| BreakString.AllNumbersCheck | src/pigeond/pdf417lib.c:625-634 | A single text segment of eight or more digits becomes numeric, and no other list changes |
| BreakString.BreakUp | src/pigeond/pdf417lib.c:499-635 | breakString as a whole, on a fresh list, leaves the specified segments: the label runs of SegmentLists.LabelIs, after the merges of SegmentLists.ShortPassStep and PassStep and the check of DigitsAlone |
| SegmentLists.LabelIs | src/pigeond/pdf417lib.c:511-559 | In character codes: a position is in a number exactly when thirteen digits in a row cover it, and else in text exactly when it holds 32 to 126, TAB, LF or CR |
| SegmentLists.ShortPassStep | src/pigeond/pdf417lib.c:562-576 | The first byte alone between two texts of together three or more characters becomes one text with them, its bounds given, and the pass goes on from the start |
| SegmentLists.ShortPassStays | src/pigeond/pdf417lib.c:562-576 | The merge of lone bytes changes a list exactly when it holds such a triple |
| SegmentLists.FirstPassLeavesNone | src/pigeond/pdf417lib.c:562-576 | For every text the list after it holds none |
| SegmentLists.PassStep | src/pigeond/pdf417lib.c:577-624 | The first text of five or more beside a lone byte or text, or the first bytes beside bytes or a text below five, grow over it, bounds and the segment thrown away given, and the pass goes on from the start |
| SegmentLists.PassStays | src/pigeond/pdf417lib.c:577-624 | Either later pass changes a list exactly when something in it can grow |
| SegmentLists.NothingLeftToGrow | src/pigeond/pdf417lib.c:577-624 | For every text nothing is left that the text pass could grow, and at the end nothing that the binary pass could |
| SegmentLists.DigitsAlone | src/pigeond/pdf417lib.c:511-635 | Text of digits alone ends as one number from eight digits on, and as one text below |
| SegmentLists.OtherListsStay | src/pigeond/pdf417lib.c:625-634 | The last check leaves every list alone that is not one text of eight or more digits |
| SegmentLists.TwoAndTwo | src/pigeond/pdf417lib.c:562-576 | Two letters, byte 128 and two letters become one text, and nothing is lost |
| SegmentLists.OneAndOne | src/pigeond/pdf417lib.c:562-624 | One letter, byte 128 and one letter stay apart, and the last letter is lost |
| Stream.ReadStreamRun | src/pigeond/pdf417lib.c:637-662 | A reader knowing only the codewords splits the stream at the mode latches the encoder wrote |
| Stream.MessageReadsBack | src/pigeond/pdf417lib.c:637-662 | The reader makes of a message what it makes of its segments one by one, a first text segment needing no latch |
| Stream.OneLatchEach | src/pigeond/pdf417lib.c:642-658 | A message holds exactly one mode latch a segment, and none for a text segment that comes first |
| Stream.NulsAreLost | src/pigeond/pdf417lib.c:637-662 | What is read back has fewer NULs than the text when a text segment holds one, and equals it otherwise |
| Stream.MessageRoundTrip | src/pigeond/pdf417lib.c:637-662 | For every gap-free segment list, numeric segments all digits, decoding the message gives the covered text if and only if no text segment holds a NUL, and the whole text if and only if also nothing is left out |
| Stream.EncoderRoundTrip | src/pigeond/pdf417lib.c:499-662 | breakString, assemble and decode is the identity on a nonempty text if and only if no merge pass drops its end and no text segment holds a NUL |
| Stream.PlainTextRoundTrip | src/pigeond/pdf417lib.c:499-662 | For nonempty text of printable ASCII, CR, LF and TAB it always is, with any number of pads behind |
| Stream.RoundTripWithoutNul | src/pigeond/pdf417lib.c:499-662 | A nonempty text without NUL comes back if and only if no merge pass drops its end |
| Stream.LostNulExample | src/pigeond/pdf417lib.c:277-284 | Three letters, NUL and three letters: nothing is dropped, and yet the text does not come back |
| Stream.PadsAreSilent | src/pigeond/pdf417lib.c:803-806 | Text latches that fill up the symbol add nothing to the message read |
| Stream.MessageInRange | src/pigeond/pdf417lib.c:637-662 | Every codeword of a message is below 929, so every cluster lookup is within its table |
| Stream.AssembleOne | src/pigeond/pdf417lib.c:643-660 | One segment: its latch and its codewords are appended, or the error is set; no write leaves the 928 places even then |
| Stream.Assemble | src/pigeond/pdf417lib.c:637-662 | Exactly the message is written from place 1 on, or the error is set exactly when it would pass 926 codewords; an empty list writes nothing |
| ErrorCorrection.ShiftAtRoot | src/pigeond/pdf417lib.c:254-259 | One round of the division multiplies the remainder by x and adds the codeword times x^n, as far as a root of the generator mod 929 can tell |
| ErrorCorrection.RemainderAtRoot | src/pigeond/pdf417lib.c:253-260 | At every root of the generator the remainder equals the message times x^n |
| ErrorCorrection.CodeVanishesAtRoots | src/pigeond/pdf417lib.c:237-263 | For any data and any coefficients A, data followed by the computed codewords is 0 mod 929 at every root of x^n + A[n-1] x^(n-1) + ... + A[0] |
| ErrorCorrection.GeneratorRoots | src/pigeond/pdf417libimp.h:430-432 | The product of (x - 3^j) for j up to n vanishes at 3, 3^2, ..., 3^n (section 5.10 of ISO/IEC 15438:2006) |
| ErrorCorrection.TablesAreGenerators | src/pigeond/pdf417libimp.h:430-432 | The tables of levels 0, 1 and 2 are these products for n of 2, 4 and 8 |
| Distance.ZeroProduct | src/pigeond/pdf417libimp.h:51 | A product that is 0 mod 929 has a factor that is |
| Distance.PowersDiffer | src/pigeond/pdf417libimp.h:430-432 | The powers of 3 up to the 927th differ mod 929 |
| Distance.OnlyZeroValues | src/pigeond/pdf417lib.c:237-263 | As many vanishing sums over distinct bases as there are unknown values leave only zeros |
| Distance.SameWord | src/pigeond/pdf417lib.c:237-263 | Two words of one length up to 928 that are 0 at 3, 3^2, ..., 3^n and differ in at most n places are equal (section 5.10 of ISO/IEC 15438:2006) |
| Distance.CheckCodewordsAreOnly | src/pigeond/pdf417lib.c:237-263 | For every message the computed check codewords are the only n codewords that, behind it, make a word that is 0 mod 929 at 3, 3^2, ..., 3^n |
| Distance.GeneratorIsLight | src/pigeond/pdf417libimp.h:430-432 | With n + 1 differing places they need not be: the generator itself is such a word |
| ErrorCorrection.ShiftIn | src/pigeond/pdf417lib.c:254-259 | The inner loop overwrites the remainder in place, each place before the next one is read, with the right new remainder |
| ErrorCorrection.NegateAll | src/pigeond/pdf417lib.c:261-262 | The last loop negates every place mod 929 and touches no other |
| ErrorCorrection.Calculate | src/pigeond/pdf417lib.c:237-263 | The places from dest on become the check codewords of the data; everything else is unchanged |
| SymbolSize.MaxLevelIsMax | src/pigeond/pdf417lib.c:664-674 | The level found fits what remains, and no higher one would |
| SymbolSize.MaxPossibleErrorLevel | src/pigeond/pdf417lib.c:664-674 | The halving loop finds that level |
| SymbolSize.FitColumns | src/pigeond/pdf417lib.c:779-787 | As few rows as will do, at least three, for the columns given; if 90 are too few, 90 rows and as few columns as will do |
| SymbolSize.FitRows | src/pigeond/pdf417lib.c:788-794 | As few columns as will do for the rows given; if 30 are too few, 30 columns and as few rows as will do |
| SymbolSize.Arrange | src/pigeond/pdf417lib.c:749-796 | For every combination of options the symbol is within the limits and has room for data and error codewords |
| SymbolSize.RecommendedLevel | src/pigeond/pdf417lib.c:727-748 | With no level asked for: 2 up to 40 codewords, 3 from 41, 4 from 161, 5 from 321, and from 865 on the highest level whose check codewords fit in 928 places |
| SymbolSize.RequestedLevel | src/pigeond/pdf417lib.c:727-748 | A level asked for is the one wanted when its check codewords fit in 928 places, else the highest that fits; below 0 it is 0 |
| SymbolSize.SizeByColumns | src/pigeond/pdf417lib.c:749-802 | In closed form, for the columns given or estimated: the ceiling of places over columns, at least 3; if that passes 90, 90 rows and the ceiling over 90; and 32 by 29 or 58 by 16 if that passes 928 places |
| SymbolSize.SizeByRows | src/pigeond/pdf417lib.c:749-802 | The same for the rows given, with 30 columns as the limit |
| SymbolSize.SizeOfRectangle | src/pigeond/pdf417lib.c:749-802 | A rectangle that is given is kept when it is large enough, and becomes one of 928 places when it has more |
| SymbolSize.ChooseSize | src/pigeond/pdf417lib.c:726-802 | For every option set, request and estimate: 3 to 90 rows, 1 to 30 columns, at most 928 places, filled exactly by data, padding of at least zero and 2 << level check codewords; the highest level that fits, at least 2, 3, 4 or 5 by length when none is asked for, at least the one asked for when it fits; rows and columns arranged for the length plus 8, 16, 32 or 64 |
| RowBits.OrDisjoint | src/pigeond/pdf417lib.c:150-153 | OR-ing in bits below the lowest one set adds them |
| RowBits.WindowValue | src/pigeond/pdf417lib.c:147-167 | The three bytes a codeword falls on, read as one number, gain the codeword shifted to its place and nothing else |
| RowBits.WindowBits | src/pigeond/pdf417lib.c:147-167 | Bit by bit: what was there, then the codeword, then zeros |
| RowBits.CodewordHolds | src/pigeond/pdf417lib.c:147-167 | If the bytes hold a bit string and zeros after it, they hold it followed by the codeword's bits after the three writes |
| RowBits.HalvedWindow | src/pigeond/pdf417lib.c:157-167 | At bit offset 7 the three writes of an 18-bit codeword are those of its upper 17 bits |
| RowBits.OutCodeword17 | src/pigeond/pdf417lib.c:147-155 | The 17 bits are appended at bitPtr, at every bit offset, inside the array |
| RowBits.OutCodeword18 | src/pigeond/pdf417lib.c:157-167 | The 18 bits are appended at bitPtr for every odd codeword, also at offset 7, where the last bit is set outright |
| RowBits.PadHolds | src/pigeond/pdf417lib.c:188-191 | The rest of the last byte of a row is zero |
| Painting.LeftIndicator | src/pigeond/pdf417lib.c:197-208 | The index of every left indicator is below 929 and counts the rows by threes, thirty to a step |
| Painting.RightIndicator | src/pigeond/pdf417lib.c:215-225 | The index of every right indicator is below 929 and counts the rows by threes, thirty to a step |
| Painting.IndicatorsTellSymbol | src/pigeond/pdf417lib.c:197-225 | The left indicators of any three consecutive rows determine rows, columns and level, and so do the right ones (section 5.11.3 of ISO/IEC 15438:2006) |
| Painting.WordReadsBack | src/pigeond/pdf417lib.c:192-228 | Any word of any painted row is found again at its place and looked up as the index it was written for |
| Painting.IndicatorsReadBack | src/pigeond/pdf417lib.c:192-228 | Both indicators of every row are read back from the bits |
| Painting.SymbolReadsBack | src/pigeond/pdf417lib.c:181-228 | From the bits, the length of a row in bytes and tables of distinct patterns a reader gets the parameters and every codeword back |
| Painting.RowTellsItself | src/pigeond/pdf417lib.c:192-228 | From the bits of a painted row, three times the thirties of either indicator plus the cluster is the number of the row |
| Painting.RowLayout | src/pigeond/pdf417lib.c:192-228 | A row in plain bits: the 17 bits 0x1fea8, the pattern of the left indicator, the patterns of the codewords in their places, that of the right indicator, the 18 bits 0x3fa29, and zeros to the end of the byte |
| Painting.LeftEdge | src/pigeond/pdf417lib.c:197-208 | The switch yields the left indicator of the row, which counts the rows by threes |
| Painting.RightEdge | src/pigeond/pdf417lib.c:215-225 | The switch yields the right indicator of the row, which counts the rows by threes |
| Painting.OutLeft | src/pigeond/pdf417lib.c:196-209 | Start pattern and left indicator are appended |
| Painting.OutData | src/pigeond/pdf417lib.c:211-213 | The row's codewords are looked up in the row's cluster and appended in order; the codeword counter moves on by the columns |
| Painting.OutRight | src/pigeond/pdf417lib.c:215-227 | Right indicator and stop pattern are appended and end the row's last byte |
| Painting.OutRow | src/pigeond/pdf417lib.c:192-228 | One row is appended to the rows before it, and nothing after it is set |
| Painting.OutPaintCode | src/pigeond/pdf417lib.c:181-228 | The packed bits, most significant first, are for every row the start pattern, left indicator, data, right indicator, stop pattern and zero padding, row after row, filling the array |
| PaintCode.SymbolIsData | src/pigeond/pdf417lib.c:803-808 | Every codeword of a finished symbol, padding and check codewords included, has a pattern |
| PaintCode.SymbolIsCodeword | src/pigeond/pdf417lib.c:801-808 | A finished symbol, read as a polynomial, is 0 mod 929 at every root of its level's generator |
| PaintCode.CorrectionIsUnique | src/pigeond/pdf417lib.c:801-808 | At most one symbol of a size and level is so close to what was scanned that the differing codewords of two such together are no more than the check codewords |
| PaintCode.BarcodeRoundTrip | src/pigeond/pdf417lib.c:698-810 | From text to packed bits and back through every stage: the text comes back if and only if no merge pass drops its end and no text segment holds a NUL |
| PaintCode.Barcode.constructor | src/pigeond/pdf417lib.c:698-703 | The state paintCode starts from |
| PaintCode.Barcode.DataCodewords | src/pigeond/pdf417lib.c:703-725 | Raw codewords are accepted exactly when their count is 1 to 926 and stands first; text gives its message with the count first, or the error exactly when text or message is too long; for empty text the count is whatever cwPtr held |
| PaintCode.Barcode.Pad | src/pigeond/pdf417lib.c:803-806 | The data gains the pads behind and the new count in front |
| PaintCode.SymbolMessage | src/pigeond/pdf417lib.c:803-808 | The first codeword of a symbol leads a reader past padding and check codewords to the message |
| PaintCode.Barcode.Complete | src/pigeond/pdf417lib.c:801-808 | The data, padded and followed by the check codewords of the level, fill the symbol |
| PaintCode.Barcode.PaintMessage | src/pigeond/pdf417lib.c:726-809 | The chosen symbol is filled and its bits are painted, at a level no lower than the one wanted |
| PaintCode.Barcode.PaintedReadsBack | src/pigeond/pdf417lib.c:698-810 | The text is read back from a painted symbol if and only if no merge pass drops its end and no text segment holds a NUL |
| PaintCode.Barcode.PaintCode | src/pigeond/pdf417lib.c:698-810 | paintCode sets an error exactly in the cases named; otherwise symbol, sizes and bits are those of the message, and what a reader makes of outBits is the text if and only if no merge pass drops its end and no text segment holds a NUL |
| Base64.AlphabetInjective | src/pigeond/base64.c:17-26 | No two values share a character |
| Base64.DecodeEncode | src/pigeond/base64.c:45-102 | Decoding undoes encoding for every nonempty byte string, whatever the rest of the decoding table holds |
| Base64.LengthOfEncode | src/pigeond/base64.c:75-77 | The decoder works out the length of the data from the padding |
| Base64.EncodingIsPrintable | src/pigeond/base64.c:45-69 | An encoding holds no newline and no NUL, and padding only in its last two places |
| Base64.EncodeDecode | src/pigeond/base64.c:45-102 | Encoding undoes decoding for every canonical encoding (section 4 of RFC 4648) |
| Base64Reader.AlphabetIsStandard | src/pigeond/base64.c:17-26 | The alphabet is the one of section 4 of RFC 4648, spelled out |
| Base64Reader.StandardReads | src/pigeond/base64.c:45-69 | A reader written from the standard alone, six bits a character and an octet for every eight, gets every byte string back from its encoding |
| Base64Reader.DecodeIsStandard | src/pigeond/base64.c:72-102 | The decoder agrees with that reader on every canonical encoding |
| Base64Reader.EncodingShape | src/pigeond/base64.c:64-66 | Four characters for three octets begun, and the sign = in exactly the places the standard wants |
| Base64Reader.InvertsIsStandard | src/pigeond/base64.c:30-38 | The decoding table inverts the alphabet exactly when it holds 0 to 63 at the characters of the standard |
| Base64Reader.SextetExample | src/pigeond/base64.c:53-62 | The octets FB EF BE become ++++ |
| Base64Codec.Codec.constructor | src/pigeond/base64.c:30-38 | The decoding table holds 0 to 63 at the characters of the standard |
| Base64Codec.Codec.TakeThree | src/pigeond/base64.c:53-57 | The next three octets, zero past the end |
| Base64Codec.Codec.PutFour | src/pigeond/base64.c:59-62 | Four characters are appended |
| Base64Codec.Codec.PadEnd | src/pigeond/base64.c:65-66 | The last places are overwritten with the padding |
| Base64Codec.Codec.EncodeData | src/pigeond/base64.c:45-69 | The loops compute the encoding, in an array of exactly 4 * ceil(n / 3), and the reader of the standard gets the data back from it |
| Base64Codec.Codec.EncodeGroups | src/pigeond/base64.c:50-63 | The first loop writes all groups of four, the last as if zeros followed |
| Base64Codec.Codec.GroupAt | src/pigeond/base64.c:86-94 | The value of four characters, padding counting as zero |
| Base64Codec.Codec.PutThree | src/pigeond/base64.c:96-98 | As many of three octets as there is room for |
| Base64Codec.Codec.DecodeGroup | src/pigeond/base64.c:86-98 | One round of the loop: four characters read, the octets there is room for written |
| Base64Codec.Codec.DecodeInto | src/pigeond/base64.c:84-99 | The loop leaves the decoded octets, cut to the array |
| Base64Codec.Codec.DecodeData | src/pigeond/base64.c:72-102 | NULL exactly for lengths not divisible by four, else the decoding |
| PointerFifo.PushRefines | src/pigeond/pointer_fifo.c:30-38 | On the sequence the ring stands for, push appends, unless it holds one less than its size |
| PointerFifo.PopRefines | src/pigeond/pointer_fifo.c:40-48 | Pop takes the oldest item, or nothing from an empty ring |
| PointerFifo.ClearRefines | src/pigeond/pointer_fifo.c:50-53 | Clear leaves the empty sequence |
| PointerFifo.PointerFifo.constructor | src/pigeond/pointer_fifo.c:17-23 | A new ring is empty |
| PointerFifo.PointerFifo.Count | src/pigeond/pointer_fifo.c:55-64 | The count is the number of items held, wrapped round or not |
| PointerFifo.PointerFifo.IsEmpty | src/pigeond/pointer_fifo.c:66-68 | Empty exactly when nothing is held |
| PointerFifo.PointerFifo.IsFull | src/pigeond/pointer_fifo.c:70-72 | Full exactly when one less than the size is held |
| PointerFifo.PointerFifo.Push | src/pigeond/pointer_fifo.c:30-38 | The code of push, on the sequence and on the fields |
| PointerFifo.PointerFifo.Pop | src/pigeond/pointer_fifo.c:40-48 | The code of pop, on the sequence and on the fields |
| PointerFifo.PointerFifo.Clear | src/pigeond/pointer_fifo.c:50-53 | The code of clear |
| FramePipe.PushSound | src/pigeond/pigeon_frame_pipe.c:68-85 | A push, accepted or refused, keeps the order of the accepted frames |
| FramePipe.PopSound | src/pigeond/pigeon_frame_pipe.c:167-180 | So does a pop, also from an empty buffer |
| FramePipe.ClearSound | src/pigeond/pigeon_frame_pipe.c:152-162 | So does the clearing of one buffer |
| FramePipe.StepSound | src/pigeond/pigeon_frame_pipe.c:68-198 | Every step of every thread keeps the invariant of both buffers: settled frames followed by queued ones are the accepted ones, in order; which steps those are is stated in PipeHistory.HistoryIsRecorded |
| FramePipe.FateIsSubsequence | src/pigeond/pigeon_frame_pipe.c:68-180 | Frames popped, or cleared, are an in-order subsequence of those accepted |
| FramePipe.FatesAddUp | src/pigeond/pigeon_frame_pipe.c:68-180 | Every settled frame was popped or cleared, once |
| FramePipe.PipeSafety | src/pigeond/pigeon_frame_pipe.c:68-198 | In every run of any threads, per buffer: popped frames are an in-order subsequence of the accepted ones, accepted are popped, cleared and queued together, and at most 99 are queued |
| PipeHistory.SeenSide | src/pigeond/pigeon_frame_pipe.c:87-107 | A thread about to pop takes from tx when it last saw a frame through the RX handle, and from rx when it did through TX |
| PipeHistory.HistoryIsRecorded | src/pigeond/pigeon_frame_pipe.c:68-198 | For every run, tx has accepted exactly the frames of the pushes through TX met by fewer than 99 in the queue, in order, and rx those through RX; what was popped from a buffer is what pop returned through the opposite handle |
| PipeHistory.HandleSafety | src/pigeond/pigeon_frame_pipe.c:68-198 | In every run pop through RX returns an in-order subsequence of what was pushed through TX, and the other way round; what is missing is queued, at most 99, or was cleared |
| PipeHistory.NothingLostWithoutReset | src/pigeond/pigeon_frame_pipe.c:68-198 | In every run without a reset what was pushed through a handle is what was returned through the opposite one, followed by what is queued |
| PipeHistory.ResetEmpties | src/pigeond/pigeon_frame_pipe.c:148-165 | A reset empties first tx and then rx, and each time leaves the other alone |
| FramePipe.ReaderStep | src/pigeond/pigeon_frame_pipe.c:87-107 | With one reader, every step keeps: a reader past its check has nothing to take exactly when its buffer was cleared since and nothing was accepted after |
| FramePipe.ReaderRun | src/pigeond/pigeon_frame_pipe.c:87-107 | The same after every run |
| FramePipe.SingleReaderGetsFrame | src/pigeond/pigeon_frame_pipe.c:101-107 | With one reader pop returns no frame if and only if a reset emptied the buffer between its check and its pop and nothing was accepted after |
| FramePipe.ResetEmptiesPop | src/pigeond/pigeon_frame_pipe.c:148-165 | A run with one reader in which that happens |
| FramePipe.TwoReadersRace | src/pigeond/pigeon_frame_pipe.c:101-107 | With two readers it may return none although nothing was reset |
| FramesFile.NewFrame | src/pigeond/pigeon_frame.c:52-95 | A frame is refused exactly above 1518 bytes, starts with the buffer given, is the buffer itself from 64 bytes on, and below is filled up to 64 with what follows the buffer |
| FramesFile.FgetsLine | src/pigeond/linkmods/linkmod_files.c:283 | What one fgets returns of a line: all of it with its newline, or what the buffer holds |
| FramesFile.FgetsStops | src/pigeond/linkmods/linkmod_files.c:283 | What fgets returns of any file: a beginning that fits, with no newline before its last place, which stops only behind a newline, at the end of the buffer, or at the end of the file |
| FramesFile.ReadableFrames | src/pigeond/linkmods/linkmod_files.c:32 | A line takes 4 * ceil(n / 3) + 1 bytes and, newline included, fits the 1700-byte buffer exactly for frames of at most 1272 bytes |
| FramesFile.LineRead | src/pigeond/linkmods/linkmod_files.c:283-292 | The line of a frame is read whole, newline at its end, or, above 1272 bytes, without a newline |
| FramesFile.ReadableIsPrefix | src/pigeond/linkmods/linkmod_files.c:283-296 | The frames delivered are those before the first one above 1272 bytes |
| FramesFile.AllReadable | src/pigeond/linkmods/linkmod_files.c:283-296 | Every frame comes back if and only if none has more than 1272 bytes |
| FramesFile.LinkmodFiles.constructor | src/pigeond/linkmods/linkmod_files.c:44-50 | An empty frames file and a ready codec |
| FramesFile.LinkmodFiles.PigeonFrameToFile | src/pigeond/linkmods/linkmod_files.c:317-350 | The file of some frames becomes the file of those and one more |
| FramesFile.LinkmodFiles.B64ToPigeonFrame | src/pigeond/linkmods/linkmod_files.c:352-359 | Any line of whole groups is decoded and made a frame, or refused when it is too long |
| FramesFile.LinkmodFiles.PushLine | src/pigeond/linkmods/linkmod_files.c:285-291 | The frame of a line is queued if there is one and there is room, and dropped otherwise |
| FramesFile.LinkmodFiles.PopFromFramesFile | src/pigeond/linkmods/linkmod_files.c:270-315 | For any file of decodable lines, exactly the frames of the lines before the first one that does not fit the buffer are queued, in order, as far as there is room, and the file is empty afterwards |
| FramesFile.FramesDelivered | src/pigeond/linkmods/linkmod_files.c:270-350 | Any sequence of frames of 64 to 1518 bytes, written line by line, is such a file, and delivers exactly the frames before the first one above 1272 bytes |
| FramesFile.DecodableLine | src/pigeond/linkmods/linkmod_files.c:283-292 | One line of whole groups below 1699 characters delivers its frame, filled up to 64 bytes, or nothing above 1518, and then the file goes on |
| FramesFile.LongLine | src/pigeond/linkmods/linkmod_files.c:292-296 | A file in which no newline comes within 1699 characters delivers nothing more |
| FramesFile.NulLine | src/pigeond/linkmods/linkmod_files.c:283-292 | A line that begins with NUL is passed over |
| Bitmap.ImageBit | src/pigeond/printer.c:186-208 | Closed form of the packed bits: bit c of row r is set exactly when the byte of the input at (r * w + c) * bytesPerPixel matches the mask, and every padding bit is 0 |
| Bitmap.PackedPixel | src/pigeond/printer.c:186-208 | In bytes: the bit of weight 128, 64, ..., 1 for c % 8 in byte r * ceil(w / 8) + c / 8 is set exactly when the byte of the input at (r * w + c) * bytesPerPixel matches the mask, and every padding bit is 0 |
| Bitmap.BitHolds | src/pigeond/printer.c:193-197 | Adding the shifted bit to the byte appends it to the bits packed so far |
| Bitmap.PackRow | src/pigeond/printer.c:192-206 | The inner loop with its two cursors appends one bit per pixel of the row and moves on to the next whole byte |
| Bitmap.PackPaddedRow | src/pigeond/printer.c:191-207 | With the rest of the last byte zero |
| Bitmap.Make1bitBitmap | src/pigeond/printer.c:186-208 | For all widths, heights and pixel strides a zeroed buffer ends up holding the image, and nothing after it |
| Scaling.LowStep | src/pigeond/printer.c:109-113 | OR-ing the shifted bit in at the backward cursor puts it in front of the bits already there |
| Scaling.NextBit | src/pigeond/printer.c:103-110 | The bit due at any point of the two loops is the one the scaled byte has there |
| Scaling.RepeatBit | src/pigeond/printer.c:109-114 | The inner loop puts one bit of the byte down scale times |
| Scaling.ScaleByte | src/pigeond/printer.c:98-116 | For any scale the bytes hold every bit of the old byte scale times, most significant first |
| Scaling.ScaledDot | src/pigeond/printer.c:147-154 | Dot x of the scaled bytes of a row is module x / scale of the row |
| Printing.PrintedDot | src/pigeond/printer.c:136-160 | Dot x of a whole printed line, 48 bytes before scaling, is module x / scale of the bitmap row, and blank from the end of the row on |
| Printing.SendByte | src/pigeond/printer.c:155-159 | The bytes of one scaled byte are sent, or as many blanks |
| Printing.SendLine | src/pigeond/printer.c:147-161 | The loop over 48 bytes sends the row scaled and then blanks |
| Printing.PrintRow | src/pigeond/printer.c:134-162 | One row is sent scale times |
| Printing.PrintBitmap | src/pigeond/printer.c:119-164 | Every row is sent scale times, row after row, and nothing at all when the image is too wide |
| Printing.PrintedDots | src/pigeond/printer.c:119-164 | Dot x of line y is module x / scale of row y / scale, and blank beyond the row |
| Printing.PrintedPixels | src/pigeond/printer.c:119-208 | From pixels to dots: for an image packed by make1bitBitmap, dot x of line y is black exactly when pixel (y / scale, x / scale) matches |

## Left out

- Stream.EncoderRoundTrip: empty text is excluded; for it `assemble` returns without setting the codeword count, and PaintCode.Barcode.PaintCode excludes it too.
- PaintCode.BarcodeRoundTrip: the 929 patterns of each cluster are a parameter, of 17 bits each and distinct within a cluster; the full tables of the source are not copied.
- PaintCode.Barcode.PaintCode: raw codewords are taken to be below 929, as the cluster lookup needs; `lenText` below 0, which stands for the C string length, is not modelled, and neither is the option that inverts the bitmap.
- Painting.SymbolReadsBack: the reader is handed the length of a row in bytes, which it would have to find from the stop patterns.
- PaintCode.SymbolIsCodeword: the generators of all nine levels are parameters; that the tables are the right ones is proved for levels 0, 1 and 2 only.
- ErrorCorrection.Calculate: codewords are not negative, so that the remainder of C and of Dafny agree; the reset of a level outside 0 to 8 cannot happen after the sizing and is left out.
- SymbolSize.ChooseSize: the column count of the aspect-ratio formula, computed in floating point, is an arbitrary integer before it is clamped.
- TextMode.Find: the comparison of the two `strchr` offsets when one pointer is NULL is taken to be unequal; characters are bytes from 0 to 255, and neither sign of `char` makes a difference to the code.
- Merging.MergeAt: pointers into the list are indices, and slots past the end of the list keep what was last stored in them, as `memmove` leaves them.
- Base64Codec.Codec.DecodeData: empty input is excluded, for the code reads the character before it; the decoding table outside the alphabet is whatever `malloc` left.
- PointerFifo.PointerFifo.constructor: a ring of size 0 is excluded.
- FramesFile.NewFrame: the bytes that extend an undersized buffer are a parameter, since the code copies whatever follows the buffer in memory; the header and data offsets of a frame are not modelled.
- FramesFile.LinkmodFiles.B64ToPigeonFrame: empty lines, for which the code reads the character before the buffer, and lines that are not whole groups, for which it goes on with a NULL buffer of unset length, are excluded.
- FramesFile.LinkmodFiles.PopFromFramesFile: files with such lines are excluded, and the bytes that follow a short decoded buffer are the same for all lines; the file is a byte sequence; opening, synchronous writing, unmounting and the timing of the loops are left out, and so is the loop that stops after 1000 frames or ten seconds.
- FramePipe.StepSound: steps are modelled on values, one for each stretch of code under a mutex; the methods of the ring buffer they rest on are modelled in place.
- Waiting in the pipe: nothing is said about being woken up, for the code waits on a condition with a mutex it never locked; the display count is left out.
- Failure of memory allocation, everywhere.
- Printing.PrintBitmap: the control bytes around each line and the delays are left out; the code also reads, and discards, bitmap bytes beyond the row, which the model does not.
- `getElementLength`, `listInit` and the other plain accessors have no statements of their own.
- The tunnel, the links, the printer and camera link modules, the user interface and everything that drives hardware.
