# Verified models of the kernel's font library, allocator and scheduler

This project models three parts of the kernel in Dafny and proves what they are for.

**The DEFLATE decompressor** of `kernel/source/ssfn.h`. `Rfc1951` says what a byte string means as a
DEFLATE stream, reading every field where it stands, with no buffer, no look-ahead and no table.
`Reader`, `Huffman`, `Output` and `Inflate` are the decompressor itself: a 32-bit bit buffer that
runs up to 32 bits ahead, a 9-bit fast table with a canonical search behind it, in-place copies,
and an output buffer that is replaced once. Every step is proved against `Rfc1951`, up to
`Inflate.ZlibDecode`. `Encoding` writes DEFLATE data - any choice of blocks, code lengths, run lengths
and match codes that the format allows - and proves that `Rfc1951` reads all of it back, so the
reading is neither vacuous nor one-sided. `Canonical` holds the theory of canonical prefix codes
(Kraft inequality, prefix-freedom, symbol positions), `Bits` the shifts, masks and reversals. `Numbers`
says of the numbers that RFC 1951 fixes - the order of the code length code, the runs, the fixed codes,
the bases of lengths and distances - what they are.

**Font data structures** of the same file: the outline of a contour with its Bezier curves
(`Outline`; `Curves` shows how close the drawn lines are to the curve), the scanline filler's crossings
(`Scanline`), run-length packets with full expansion and random access (`Packets`), the sparse character
table (`CharTable`), and the console renderer that the kernel uses (`Console`; `Glyphs` says pixel by
pixel what it shows).

**The kernel's own state machines**: the physical allocator, byte by byte in memory (`Memory`,
`FreeList`, `Heap`, `Holders`, `Bump`,
`Physical`, `SmallSplit`), and the round-robin scheduler (`RoundRobin`, `Scheduler`).

What the decompressor assumes of its input, and the proofs make explicit:

- the data are followed by at least four spare bytes, which the bit buffer may fetch (`SPARE_BYTES`);
- output of at most 8 bytes, or output that fits the buffer (`Output.Fits`: it begins with `SFN`, the
  size in bytes 4 to 7 covers all of it, and the eighth byte is complete before anything behind it is
  written), is decoded if the stream is not cut short and uses no symbol that section 3.2.6 of RFC 1951
  reserves;
- output that the buffer is denied to (`Output.Denied`: no `SFN`, or a declared size that turns out too
  small after the first write behind the eighth byte) is rejected, whatever comes after it.

Where the code differs from what one would expect of it, the model follows the code:

- code lengths may describe an incomplete prefix code, and HLIT may be up to 31; both are accepted;
- splitting a free block writes the header of the remainder into the last 12 bytes of the block that is
  handed out (`FreeList.TakenIsWhole`).  As long as no block is split, holders may write what they like
  to their contents, and nothing is lost (`Holders.UnsplitRuns`); from the first split on, some two blocks
  always share bytes (`Holders.WholeIffUnsplit`), and a holder can break the heap iff a byte of a free
  block's header or of a handed-out block's size lies in its contents (`Holders.OwnWritesAreSafe`), as is
  so for the holder of a block just split (`Holders.SplitExposes`).  `operator new` zeroes what it gets,
  and so loses the rest of a block exactly when it splits one (`Holders.NewLosesIffSplit`);
- a split for fewer than 12 bytes writes that header over the block's own: the list survives iff the
  block's link does, and the size that is left in the block is wrong up to 8 bytes (`SmallSplit`);
- the first-fit search never looks at the size of the last free block; `FreeList.TakenIsLargeEnough` shows
  that what is handed out is still large enough exactly when some free block is;
- a bump allocation counts its size twice in `AllocatedSize`;
- the trailer of an aligned block is written at an address computed before the block is aligned: it is
  where `AlignedFree` looks for it iff the head was aligned already (`Bump.TrailerInPlace`), and lies in
  the block itself unless the gap that aligning leaves is as large as both (`Bump.TrailerMissesBlock`),
  as it never is for a page table (`Bump.PageTableHit`);
- `WasAlloqued` is false for exactly one pointer: that of a first allocation that is aligned and finds
  the very beginning of memory aligned (`Bump.PointersStayAlloqued`);
- the first thread switch overwrites the idle thread's start context with the boot context
  (`RoundRobin.FirstSwitchKeepsBoot`), and thread ids repeat after 2^32 threads (`RoundRobin.IdsDiffer`);
- a quadratic curve is drawn as the cubic with control points halfway to the quadratic's own, where two
  thirds of the way would give the quadratic; the curve comes out flatter (`Curves.QuadIsFlatter`);
- a contour with further moves can be left open (`Outline.LastMoveDecides` says exactly when), and the
  filler then drops a crossing (`Scanline.OpenPathCrossesOddly`);
- the closing line of a contour is written without a test for room; a path that has never been longer
  has none iff its points are a multiple of 256 (`Outline.NoRoomToClose`);
- the filler keeps the crossings of a scanline in 640 entries, enough for up to 641 points; a contour of
  642 lines can cross one scanline with all of them (`Scanline.NoRoomForCrossings`);
- the output buffer grows once, to the declared size, and a write that needs more than that goes past its
  end (`Inflate.OverlongIsUndecided` is such a stream).

`dafny verify dfyconfig.toml` checks the project.

## Model

| member | source | states |
|---|---|---|
| Bits.BitReverse16Correct | kernel/source/ssfn.h:476-483 | the four mask-and-swap rounds reverse the low 16 bits of any value |
| Bits.BitReverseCorrect | kernel/source/ssfn.h:485-488 | the shifted reversal reverses a value within the given number of bits |
| Canonical.KraftIsLimit | kernel/source/ssfn.h:503-514 | the running code after length 15 is the Kraft sum of the lengths, scaled by 2^15 |
| Canonical.KraftAtEveryLength | kernel/source/ssfn.h:500-511 | the Kraft inequality holds iff at every length the codes fit in that many bits, which is what the two failure tests look at |
| Canonical.PrefixFree | kernel/source/ssfn.h:503-530 | no assigned code begins with another one |
| Canonical.MatchUnique | kernel/source/ssfn.h:572-598 | at most one code begins a 16-bit window |
| Canonical.MatchBetweenBounds | kernel/source/ssfn.h:576-580 | a window that begins with a code of length s lies between the maxcode bounds of s - 1 and s |
| Canonical.BoundsGiveMatch | kernel/source/ssfn.h:576-580 | a window between those bounds begins with a code of length s, whose rank is the window's top s bits less firstcode |
| Canonical.BoundMonotone | kernel/source/ssfn.h:511 | maxcode does not decrease with the length |
| Canonical.PositionInjective | kernel/source/ssfn.h:519-522 | no two coded symbols share a place in the symbol table |
| Canonical.PositionSurjective | kernel/source/ssfn.h:519-522 | every place below the number of coded symbols is taken, so the places are a bijection |
| Canonical.FastHitUnique | kernel/source/ssfn.h:523-529 | the stride-filling loops of two symbols never write the same slot |
| HuffmanTables.FastTableExact | kernel/source/ssfn.h:523-529 | a fast slot holds length and symbol of the one code that its low bits show reversed, and is 0 iff there is none |
| HuffmanTables.Huffman.Build | kernel/source/ssfn.h:490-534 | succeeds iff the lengths satisfy the Kraft inequality, and then every table describes the canonical code |
| HuffmanTables.Huffman.CountLengths | kernel/source/ssfn.h:497-499 | counts the codes of every length, and none of length 0 |
| HuffmanTables.Huffman.AssignCodes | kernel/source/ssfn.h:503-514 | firstcode, firstsymbol and maxcode are those of section 3.2.2 of RFC 1951; fails iff Kraft fails |
| HuffmanTables.Huffman.EnterSymbols | kernel/source/ssfn.h:516-532 | every coded symbol is entered at its place and in all its fast slots |
| HuffmanTables.Huffman.FillSlots | kernel/source/ssfn.h:524-528 | exactly the slots whose low bits are the reversed code are filled, all of them empty before |
| Reader.BitReader.FillBits | kernel/source/ssfn.h:554-560 | refilling leaves the remaining bit stream unchanged and buffers 25 to 32 bits |
| Reader.BitReader.Receive | kernel/source/ssfn.h:562-570 | removes exactly the next n bits of the stream and returns them, first bit least significant |
| Reader.BitReader.DecodeSlowPath | kernel/source/ssfn.h:572-584 | when no fast slot applies, the search from length 10 on finds the symbol of the input, or -1 |
| Reader.BitReader.HuffmanDecode | kernel/source/ssfn.h:586-598 | at every position of the data, returns the symbol whose code stands there in the input and consumes just that code; -1 iff there is none; and so for the data alone unless they end before deciding it |
| Reader.SameSymbol | kernel/source/ssfn.h:586-598 | looking ahead into the bytes after the data never changes which symbol is decoded |
| Reader.BitReader.AlignToByte | kernel/source/ssfn.h:706-707 | moves the read position to the next byte boundary |
| Reader.BitReader.DrainHeader | kernel/source/ssfn.h:708-715 | the four header bytes come partly from the bit buffer and partly from the input; none is lost or doubled |
| Output.Buffer.Expand | kernel/source/ssfn.h:600-617 | replaces an 8-byte buffer that begins with SFN by one of the declared size, keeping its bytes; fails otherwise |
| Output.Buffer.MakeRoom | kernel/source/ssfn.h:645-648 | fails iff the buffer is denied to the bytes to come, otherwise there is room for them, and it grows from 8 bytes only; in general, grown behind a complete header, it has room iff the declared size covers them |
| Output.DecidedBefore | kernel/source/ssfn.h:600-617 | output that fits or is denied the buffer in the end was decided either way at every earlier point |
| Output.Buffer.CopyBack | kernel/source/ssfn.h:649-651 | the copy equals the byte-by-byte LZ77 copy, overlaps included |
| Output.Buffer.Fill | kernel/source/ssfn.h:650 | the fill loop for distance 1 gives the bytes of the general copy |
| Output.Buffer.Copy | kernel/source/ssfn.h:651 | the pointer-walking copy may read what it has just written and is still the LZ77 copy |
| Output.Buffer.PutStored | kernel/source/ssfn.h:721-724 | stored bytes are appended unchanged |
| Rfc1951.CopyMatchRepeats | kernel/source/ssfn.h:649-651 | every copied byte equals the byte dist places before it |
| Rfc1951.CodedUnique | kernel/source/ssfn.h:586-598 | at most one code of a list stands at a position of the stream |
| MatchTables.LengthTable | kernel/source/ssfn.h:619-620 | the length tables follow from the rule that each code starts where the last one's values end |
| MatchTables.DistTable | kernel/source/ssfn.h:621-622 | so do the distance tables |
| Inflate.Decoder.ParseHuffmanBlock | kernel/source/ssfn.h:624-654 | a compressed block is decoded to exactly what RFC 1951 assigns; fails iff it is malformed or denied the buffer |
| Inflate.Decoder.ParseSymbol | kernel/source/ssfn.h:628-652 | one literal, end of block or match takes the output to the next one of the specification |
| Inflate.Decoder.ParseMatch | kernel/source/ssfn.h:640-651 | the distance half of a match: decoded, range-checked and copied |
| Inflate.Decoder.ReadCodeLengthSizes | kernel/source/ssfn.h:669-673 | the three-bit fields land at the symbols that section 3.2.7 orders them by |
| Inflate.Decoder.ReadCodeLengths | kernel/source/ssfn.h:676-696 | the run-length coded lengths expand to exactly hlit + hdist entries, or it fails |
| Inflate.Decoder.ReadCodeLength | kernel/source/ssfn.h:678-694 | one length or run (16, 17, 18) extends the expansion as specified; the filled prefix always equals it |
| Inflate.Decoder.ComputeHuffmanCodes | kernel/source/ssfn.h:656-700 | a dynamic header yields the two codes of the block; fails iff the header is malformed |
| Inflate.Decoder.ParseUncompressedBlock | kernel/source/ssfn.h:702-726 | a stored block appends its bytes; fails iff the two length fields disagree or the buffer is denied to it |
| Inflate.Decoder.ParseBlock | kernel/source/ssfn.h:748-758 | one block of each of the four kinds |
| Inflate.Decoder.ParseZlib | kernel/source/ssfn.h:740-761 | succeeds iff the whole stream has a meaning that fits, and then the output is that meaning |
| Inflate.InitDefaults | kernel/source/ssfn.h:729-738 | fills in the lengths of the fixed codes |
| Inflate.ZlibDecode | kernel/source/ssfn.h:763-772 | the returned buffer begins with exactly the bytes RFC 1951 assigns and has 8 bytes or the declared number; null iff the stream is malformed or the buffer is denied to its output |
| Inflate.WellFormedStreamDecodes | kernel/source/ssfn.h:740-761 | every well-formed block sequence whose output fits or is denied the buffer meets that precondition; it is decoded to its meaning iff that fits |
| Inflate.OverlongIsUndecided | kernel/source/ssfn.h:600-617 | a well-formed stream whose buffer grows and still has no room for the write that made it grow |
| Encoding.FixedCodes | kernel/source/ssfn.h:729-738 | the fixed lengths are complete prefix codes in which every symbol has a code |
| Encoding.ItemsAreRead | kernel/source/ssfn.h:624-654 | any encoded sequence of literals and matches is read back as its LZ77 expansion |
| Encoding.OpsAreRead | kernel/source/ssfn.h:676-696 | any run-length encoding of code lengths is read back as the lengths |
| Encoding.HeaderIsRead | kernel/source/ssfn.h:656-700 | any encoded dynamic header is read back as its two length lists, runs across the border included |
| Encoding.EveryCodeHasHeader | kernel/source/ssfn.h:656-700 | any two codes of the sizes that the format allows have a dynamic header |
| Encoding.StoredIsRead | kernel/source/ssfn.h:702-726 | any encoded stored block is read back as its bytes, whatever the padding |
| Encoding.StreamIsRead | kernel/source/ssfn.h:740-761 | any encoded sequence of stored, fixed and dynamic blocks is read back as its meaning |
| Encoding.InflateInvertsEncoding | kernel/source/ssfn.h:740-772 | decoding inverts encoding and packing, for all well-formed block sequences |
| Encoding.EveryLengthHasCode | kernel/source/ssfn.h:619-620 | every match length from 3 to 258 has a code and extra bits |
| Encoding.EveryDistanceHasCode | kernel/source/ssfn.h:621-622 | so has every distance from 1 to 32768 |
| Numbers.FieldsLand | kernel/source/ssfn.h:658-673 | of the n three-bit fields of a header, 0 to 2 are the lengths of the symbols 16 to 18, field 3 that of 0, field 4 + 2k that of 8 + k and field 5 + 2k that of 7 - k; symbols without a field have length 0 |
| Numbers.RunsStandFor | kernel/source/ssfn.h:676-696 | symbols up to 15 are lengths, 16 repeats the last length 3 to 6 times and is malformed without one, 17 stands for 3 to 10 zeros and 18 for 11 to 138; a run beyond the total is malformed |
| Numbers.FixedLiteralCodes | kernel/source/ssfn.h:729-738 | the fixed literal/length codes as the numbers of section 3.2.6; they use up all bit strings |
| Numbers.FixedDistanceCodes | kernel/source/ssfn.h:729-738 | the fixed distance codes are the 32 strings of five bits in order |
| Numbers.CodesConsecutive | kernel/source/ssfn.h:503-530 | codes of one length are consecutive, in the order of their symbols |
| Numbers.ShorterPrecede | kernel/source/ssfn.h:503-530 | a longer code lies behind every string of its length that begins with a shorter code |
| Numbers.FirstIsZero | kernel/source/ssfn.h:503-514 | the first code of the smallest length is zero |
| Numbers.BlockKinds | kernel/source/ssfn.h:740-761 | kind 0 is a stored block, 1 one with the fixed codes, 2 one with codes of its own, 3 is malformed; the stream ends with the block whose first bit is set |
| Numbers.LengthNumbers | kernel/source/ssfn.h:619-620 | base and extra bits of every length code in closed form |
| Numbers.DistanceNumbers | kernel/source/ssfn.h:621-622 | base and extra bits of every distance code in closed form |
| Numbers.DeclaredIsWritten | kernel/source/ssfn.h:600-617 | the declared size is the number that bytes 4 to 7 write, least significant byte first |
| Numbers.MagicLetters | kernel/source/ssfn.h:600-617 | a buffer may grow iff its first bytes are 83, 70 and 78 |
| Outline.Path.L | kernel/source/ssfn.h:399-422 | a line end is kept iff it is in the grid and in another pixel; np stays even and within the capacity |
| Outline.Path.B | kernel/source/ssfn.h:425-439 | flattening draws the line ends of the recursive halving, in order |
| Outline.Path.ClosePath | kernel/source/ssfn.h:1110 | adds the closing line iff the pen is not back at the start |
| Outline.EndsInBox | kernel/source/ssfn.h:425-439 | every line end lies in any box around the four control points, truncating halving included |
| Outline.AtMostThirty | kernel/source/ssfn.h:425-439 | a curve has at most 30 line ends |
| Outline.CurveReachesItsEnd | kernel/source/ssfn.h:425-439 | a curve that starts at the pen leaves it in the rounded pixel of an in-grid end point |
| Outline.ContourIsClosed | kernel/source/ssfn.h:1090-1110 | the path of a contour whose first command is its only move ends where it begins |
| Outline.LastMoveDecides | kernel/source/ssfn.h:1090-1110 | with further moves, the path is closed iff no line was kept before the last one, or it goes back to the first point and a line was kept after it, or none was and the earlier lines ended where they began |
| Outline.SecondMoveLeavesOpen | kernel/source/ssfn.h:1090-1112 | a contour with two moves whose path of five points is open |
| Outline.NoRoomToClose | kernel/source/ssfn.h:408-412 | there is no room for the closing line iff the points are a multiple of 256, on a path that has never been longer |
| Outline.FullOpenPath | kernel/source/ssfn.h:1090-1110 | a contour without further moves that reaches this with an open pen |
| Curves.MidIsMiddle | kernel/source/ssfn.h:425-439 | a midpoint is exact but for half a unit |
| Curves.CentreIsMiddle | kernel/source/ssfn.h:425-439 | the point that a curve is divided at is within one and a half units of the middle of its Bernstein form |
| Curves.EndsOnCurve | kernel/source/ssfn.h:425-439 | every line end lies within six units, three eighths of a pixel, of the value of the Bernstein form at its place, a whole number of sixteenths of the curve |
| Curves.PlacesAscend | kernel/source/ssfn.h:425-439 | these places never go back, and every part that is drawn ends with its own end |
| Curves.PlacesComplete | kernel/source/ssfn.h:425-439 | if no part that is divided begins where it ends, there is a line end for every sixteenth of the curve |
| Curves.QuadControls | kernel/source/ssfn.h:1097-1101 | a quadratic curve is drawn as the cubic whose control points lie halfway between its own |
| Curves.QuadIsFlatter | kernel/source/ssfn.h:1097-1101 | that is not the quadratic curve: one 320 units high is drawn 40 units too low in the middle |
| Curves.CurveControls | kernel/source/ssfn.h:1103-1106 | a cubic curve is drawn with its own control points |
| Curves.PixelIsNearest | kernel/source/ssfn.h:402-403 | a coordinate is rounded to the nearest pixel |
| Curves.StoredExactly | kernel/source/ssfn.h:418-419 | coordinates below 65536 are stored exactly |
| Curves.LineDropped | kernel/source/ssfn.h:399-422 | a line end is dropped iff it leaves the grid or rounds to the pen's pixel; otherwise it is appended, behind the start if it is the first, and the pen moves there |
| Curves.ClosingLine | kernel/source/ssfn.h:1110 | the closing line is drawn iff the pen is away from the start, and goes there |
| Scanline.ContourCrossesEvenly | kernel/source/ssfn.h:1109-1117 | every scanline of such a contour is crossed an even number of times |
| Scanline.LastMoveCrossings | kernel/source/ssfn.h:1090-1117 | with further moves, a scanline is crossed evenly iff no line was kept before the last one or the path's two ends, as the commands fix them, lie on one side of it |
| Scanline.OpenPathCrossesOddly | kernel/source/ssfn.h:1109-1117 | the open path of five points passes the filler's guard and is crossed three times |
| Scanline.MeetBetweenEnds | kernel/source/ssfn.h:1118-1123 | an interpolated crossing lies between the ends of its edge |
| Scanline.MeetMeets | kernel/source/ssfn.h:1118-1123 | a crossing is the intersection of edge and scanline rounded towards the edge's first point, or the midpoint of an edge within one row of pixels |
| Scanline.MeetsOnce | kernel/source/ssfn.h:1118-1123 | there is only one number of which that can be said |
| Scanline.CrossingsAreColumns | kernel/source/ssfn.h:1115-1126 | the crossings are the slanted pixel columns in which the edges that pass the scanline meet it: one for each such edge, none for others, and in their order |
| Scanline.Insert | kernel/source/ssfn.h:1130-1132 | insertion keeps the crossings sorted and adds exactly the new one |
| Scanline.Collect | kernel/source/ssfn.h:1115-1136 | r holds a sorted permutation of the crossings, less the last but one if their number is odd and more than 1; on a closed path it is even and nothing is dropped; every column kept is one in which an edge passing the scanline meets it |
| Scanline.RoomForCrossings | kernel/source/ssfn.h:959-1136 | a path of up to 641 points never crosses a scanline more than 640 times |
| Scanline.NoRoomForCrossings | kernel/source/ssfn.h:959-1136 | a closed contour of 642 lines does |
| Packets.Unpack | kernel/source/ssfn.h:1187-1194 | full expansion yields what the packets stand for |
| Packets.Lookup | kernel/source/ssfn.h:1351-1361 | random access at any position yields that byte of the full expansion |
| Packets.PackedIsUnpacked | kernel/source/ssfn.h:1187-1194 | every packet list is expanded to its meaning |
| Packets.PacketNumbers | kernel/source/ssfn.h:1187-1194 | a byte from 128 on repeats the next byte that many times less 127; a smaller one copies that many bytes and one more |
| CharTable.Scan | kernel/source/ssfn.h:386-395 | finds the record whose code point is the sum of the widths before it, or reports that there is none |
| CharTable.GlyphUnique | kernel/source/ssfn.h:1488-1493 | a code point has at most one record, so the two scans of the library agree |
| CharTable.EntryShape | kernel/source/ssfn.h:386-395 | size and width in code points of each kind of entry, in numbers |
| Console.Screen.DrawBitRow | kernel/source/ssfn.h:1523-1529 | the walking mask and byte pointer paint column l of a row from bit b + l of the bitmap, and clip it |
| Console.Screen.DrawBitRows | kernel/source/ssfn.h:1521-1529 | all rows of a bitmap that lie on the screen are drawn |
| Console.Screen.PutGlyph | kernel/source/ssfn.h:1509-1536 | the glyph is drawn, no pixel outside the clip rectangle changes, and the cursor advances |
| Console.BitmapShown | kernel/source/ssfn.h:1521-1529 | the pixel at row r, column l shows exactly bit r * k + l of the fragment |
| Console.GlyphClips | kernel/source/ssfn.h:1510-1535 | no drawing of any glyph changes a pixel outside the clip rectangle |
| Console.RandomAccessSameBit | kernel/source/ssfn.h:1152-1161 | the scaling renderer's random-access expression tests the same bit |
| Glyphs.TransparentGlyph | kernel/source/ssfn.h:1510-1535 | on a background of 0 a pixel shows the foreground iff some fragment has a set bit there, each standing at its top row, and is left alone otherwise; for all fragment lists |
| Glyphs.OpaqueGlyph | kernel/source/ssfn.h:1510-1535 | on another background a pixel in a row of a fragment shows that fragment's bit as foreground or background, beside its columns it is left alone, and every other pixel of the cell shows the background; for all fragment lists |
| Glyphs.OneBitmap | kernel/source/ssfn.h:1510-1535 | for one bitmap: bit (r - top) * k + l at column l and row r, in literal foreground and background |
| Physical.Allocator.TraverseAppend | kernel/source/alloc/physical.cpp:58-73 | the item becomes the last node of the list; no size and no byte outside the headers changes |
| Physical.Allocator.TraverseAndRemove | kernel/source/alloc/physical.cpp:76-102 | the list loses exactly the given node |
| Physical.Allocator.SplitBlocks | kernel/source/alloc/physical.cpp:123-132 | the block shrinks, the remainder is the new last node, and the sizes add up |
| Physical.Allocator.LinklStratg | kernel/source/alloc/physical.cpp:136-161 | the first fitting block is taken and, if large enough, split; the list is the old one without it plus the remainder |
| SmallSplit.HeaderLeft | kernel/source/alloc/physical.cpp:123-132 | a split for fewer than 12 bytes overwrites the block's own header: what is left of its link and its size, exactly |
| SmallSplit.WalkSurvives | kernel/source/alloc/physical.cpp:58-132 | the list that the append then walks is still the free list iff the block's link survived |
| SmallSplit.SmallSplitDone | kernel/source/alloc/physical.cpp:123-161 | if it did, append, removal and the last link reset leave the right list and the right sizes, but for that in the block handed out |
| FreeList.RemainingApart | kernel/source/alloc/physical.cpp:136-161 | the free blocks still lie apart |
| FreeList.SizeConserved | kernel/source/alloc/physical.cpp:136-161 | the sizes of the free blocks and of the block taken add up to what was free |
| FreeList.TakenIsLargeEnough | kernel/source/alloc/physical.cpp:136-161 | the block taken is large enough iff some free block is; unless it is the last it wastes at most 12 bytes |
| FreeList.TakenIsApart | kernel/source/alloc/physical.cpp:123-161 | the block taken and the free blocks lie apart, split or not |
| FreeList.TakenIsWhole | kernel/source/alloc/physical.cpp:123-161 | against the blocks that remain free: the contents of the block taken hold no part of one iff it was not split and they held none before; after a split the remainder's header is their last 12 bytes |
| FreeList.SplitsFrom13 | kernel/source/alloc/physical.cpp:136-161 | a block is split iff it is not the last one and holds at least 13 bytes more than asked for |
| Heap.RunsStaySound | kernel/source/alloc/physical.cpp:105-255 | in every run of allocations, releases and writes, those of a holder to its own contents being free as long as these hold no vital byte, the free list is acyclic, the free and the handed-out blocks lie apart and below the head, and their sizes add up to what the head has supplied |
| Heap.StepKeepsSound | kernel/source/alloc/physical.cpp:105-255 | so after every single step |
| Heap.StepConserves | kernel/source/alloc/physical.cpp:105-255 | no step but bump allocation changes the bytes in free and handed-out blocks together |
| Heap.ContentsAreExclusive | kernel/source/alloc/physical.cpp:176-255 | at every moment of a run, no byte of a block's contents belongs to the contents of another one, free or handed out, and every handed-out block can be released |
| Holders.OwnWritesAreSafe | kernel/source/alloc/physical.cpp:105-255 | whatever a holder writes to its contents, the heap stays sound and holds as many bytes, iff these contents hold no byte of a free block's header or of a handed-out block's size |
| Holders.WholeIffUnsplit | kernel/source/alloc/physical.cpp:105-255 | in a run that starts with whole blocks, at any point no two blocks, free or handed out, share a byte iff no block has been split before |
| Holders.UnsplitRuns | kernel/source/alloc/physical.cpp:105-255 | in every run without a split, with any writes of holders to their contents, the heap stays sound, all blocks whole, and no byte is lost |
| Holders.SplitExposes | kernel/source/alloc/physical.cpp:123-161 | after every split, changing one byte of the contents handed out breaks the free list |
| Holders.NewLosesTheRest | kernel/source/alloc/new.cpp:3-8 | zeroing the contents after a split leaves the remainder without bytes and the heap sound; what was split off is lost |
| Holders.NewLosesIffSplit | kernel/source/alloc/new.cpp:3-8 | while no block has been split, allocating and zeroing a block loses bytes iff it splits one |
| Heap.TwoBlocksSplit | kernel/source/alloc/physical.cpp:136-161 | a memory with two free blocks in which a request splits the first |
| Physical.Allocator.BumpStrtg | kernel/source/alloc/physical.cpp:105-118 | a header at the old head, the block behind it, and nothing else written |
| Physical.Allocator.Alloc | kernel/source/alloc/physical.cpp:176-190 | null for 0 bytes, a bump step while the free list is empty, else a first-fit step of the runs; the exact accounting |
| Physical.Allocator.Release | kernel/source/alloc/physical.cpp:235-255 | a release step of the runs: the block becomes the last free block and leaves the accounting |
| Physical.Allocator.AlignedAlloc | kernel/source/alloc/physical.cpp:192-233 | the next aligned address, the head behind block and trailer, and the trailer at the unaligned address; a step of the runs, for fewer than 2^31 - 14 bytes |
| Physical.Allocator.WasAlloqued | kernel/source/alloc/physical.cpp:279-284 | for a pointer that a run of requests returned, false iff its request was the first one, aligned at the beginning of memory |
| Bump.RunsAreSafe | kernel/source/alloc/physical.cpp:105-233 | in every run the ranges handed out are disjoint and below the head, later headers and trailers never touch them, and aligned ranges are aligned |
| Bump.AlignedBlockCovered | kernel/source/alloc/physical.cpp:219-232 | the head passes an aligned block iff its size with trailer survives the conversion to int |
| Bump.TrailerInPlace | kernel/source/alloc/physical.cpp:216-264 | the trailer stands where AlignedFree looks for it iff the head was a multiple of the alignment |
| Bump.TrailerMissesBlock | kernel/source/alloc/physical.cpp:216-232 | the trailer and the block share no byte iff the head was a multiple of the alignment or both fit into the gap |
| Bump.PageTableHit | kernel/source/arch/i386/paging/paging.cpp:19 | a page table requested at an unaligned head shares bytes with its trailer |
| Bump.PointersStayAlloqued | kernel/source/alloc/physical.cpp:279-284 | a returned pointer counts as allocated from then on iff its request was not the first one that took anything, aligned at a beginning that was aligned already |
| Bump.FirstAlignedIsNotAlloqued | kernel/source/alloc/physical.cpp:225-229 | such a request, at every aligned beginning |
| RoundRobin.EveryThreadIsDispatched | kernel/source/scheduler/scheduler.cpp:49-87 | every thread present is dispatched within 11 * n enabled ticks, n being the number of threads at the end |
| RoundRobin.DispatchedExactlyAt | kernel/source/scheduler/scheduler.cpp:49-79 | with ticks alone the dispatch tick is exact: the rest of the quantum, and 11 ticks for each thread in between |
| RoundRobin.YieldSwitches | kernel/source/scheduler/scheduler.cpp:49-170 | the first enabled tick after a yield dispatches the next thread of the list, in every run |
| RoundRobin.SwitchesExactlyWhen | kernel/source/scheduler/scheduler.cpp:49-170 | after a switch, an enabled tick is the next one to switch iff there was a yield or there were exactly ten enabled ticks in between, and it dispatches the next thread |
| RoundRobin.FirstSwitchExactlyWhen | kernel/source/scheduler/scheduler.cpp:49-170 | the first switch of a run comes after a yield or when the quantum has run out |
| RoundRobin.TurnsInOrder | kernel/source/scheduler/scheduler.cpp:49-79 | while no thread is added, the running place is the first one plus the number of switches, modulo the number of threads |
| RoundRobin.DispatchedInTurn | kernel/source/scheduler/scheduler.cpp:49-79 | so the ticks that dispatch a thread are exactly every n-th of those switches, yields included |
| RoundRobin.ContextsAreKept | kernel/source/scheduler/scheduler.cpp:67-79 | what is kept for a thread is always the context it was last preempted with, or created with |
| RoundRobin.DispatchRestores | kernel/source/scheduler/scheduler.cpp:67-79 | a dispatched thread gets that context back |
| RoundRobin.FirstSwitchKeepsBoot | kernel/source/scheduler/scheduler.cpp:67-68 | the first switch keeps the boot context for thread 0 |
| RoundRobin.IdsDiffer | kernel/source/scheduler/scheduler.cpp:81-87 | two threads get the same id iff their numbers differ by a multiple of 2^32 |
| Scheduler.CScheduler.ThinkDeep | kernel/source/scheduler/scheduler.cpp:49-79 | one tick is one step of the state machine, and the context switched to is the one kept for the thread at the new index |
| Scheduler.CScheduler.AddThread | kernel/source/scheduler/scheduler.cpp:81-87 | the thread joins the end of the list with the next id |
| Scheduler.CScheduler.YieldThreadTime | kernel/source/scheduler/scheduler.cpp:167-170 | ends the quantum and changes nothing else, so that the next enabled tick switches (RoundRobin.YieldSwitches) |

## Left out

- Inflate.ZlibDecode: says nothing of streams that are cut short (the code reads on past the spare bytes) or that use a reserved symbol (it copies zero bytes for length symbols 286 and 287, and uninitialised memory for distance symbols 30 and 31), unless the buffer is denied to their output before that; nor of output that goes beyond 8 bytes from inside the font header (the code tests uninitialised bytes) or whose first write beyond them does not fit the declared size (it writes past the buffer).
- Output.Buffer.Expand: allocation is taken to succeed; a failed allocation is the failure of the whole decoding.
- Outline.Path.ClosePath: room for the closing line is a precondition; without it the code writes past the path, and Outline.NoRoomToClose says when that is.
- Outline.Path.L: allocation is taken to succeed; the fixed-size variant of the path is not modelled.
- Scanline.Collect: r has room for the crossings of the scanline; in the code it has 640 entries, and more crossings, as in Scanline.NoRoomForCrossings, are written past it.
- Physical.Allocator.LinklStratg: a block is split for 12 bytes or more only; SmallSplit follows a split for fewer to its end as long as the block's link survives, and otherwise to the point where the walk leaves the list.
- Physical.Allocator.AlignedAlloc: the list of free aligned blocks is empty, and the head does not fall below the beginning of memory.
- Heap.RunsStaySound: a holder whose contents hold a vital byte does not write there; Holders.OwnWritesAreSafe shows that it could break the heap, and what the code does after that depends on what was written.
- Console.Screen.PutGlyph: fragments are given decoded, the cursor is not negative, and width and height are not zero.
- CharTable.Scan: the table covers all code points below 0x110000, as in a well-formed font.
- The gzip wrapper, font loading and matching, the glyph cache, anti-aliasing, bold and italic composition, and the filling of pixel spans: plumbing around the parts above.
- Suspended threads, semaphores and mutexes: their lists are changed while they are walked, so the code decides no clean guarantee.
- `pm::AlignedFree` and reuse of aligned blocks; drivers, ACPI, PCI, loaders, terminal output and other input or output.
- Hardware concurrency: a tick, an allocation and the addition of a thread are atomic steps.
