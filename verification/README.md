# Verified models of StinkOS components

StinkOS is a small operating system with a C userland. This project models the parts of it whose
correctness needs an invariant, and proves what they are meant to do. One `.dfy` file holds one
component:

| file | component |
|---|---|
| `Heap.dfy`, `HeapClient.dfy` | the K&R first-fit allocator: circular address-ordered free list, splitting, two-sided merging; what any client sees of it |
| `Sha256.dfy`, `Sha256Standard.dfy`, `Sha256Example.dfy` | SHA-256 against the recursive definition of FIPS 180-4; what the standard says of that definition; its published example |
| `Strtol.dfy`, `FormatSpec.dfy`, `Printf.dfy`, `FormatLaws.dfy` | formatted output, its two inverse parsers, the round trips between them, and what a user sees of the text |
| `Common.dfy` | octets, options, minima and monotone products |
| `Lines.dfy`, `Clip.dfy`, `ClipRun.dfy` | integer line drawing (two routines) and line clipping: the geometry of one cut, and runs of them |
| `EditText.dfy`, `Editor.dfy` | the text editor: fixed rows refining a flat text with a cursor offset |
| `Melt.dfy` | Doom's screen melt |
| `TicLoop.dfy` | Doom's tic command ring |
| `Demo.dfy` | demo recording, playback and the turn carry |
| `ElfLoader.dfy` | the second boot stage |
| `StinkFs.dfy`, `PkgContainer.dfy`, `PkgUnpack.dfy`, `PkgFormat.dfy`, `PkgInstall.dfy` | the package manager: file system contract, archive writer and reader, unpacking, the format byte by byte, recursive installation |

Code that changes state in place is modelled in that form: classes over the same fields and arrays,
methods with the source's loops and branches, each proved against a specification function or a
statement of its whole new state. The lemmas then say what the specification is good for, and pin it
down where it could be wrong together with the code: by bytes, bits, literal numbers, published
examples, or a second definition of another form. Ghost
fields record what the source only implies: the list of free blocks and the set of live ones, every
command built and every tic run, the database entries, the text behind the rows.

What the environment does is left open, and every statement holds for all choices: the kernel may
refuse any `sbrk`, a file write may fail, a download may fail or bring other bytes, the clock may
read anything, `M_Random` may return any byte, the player may issue any command. Ghost logs of what
it did (kernel calls, file writes, the last clock reading) say when an operation succeeds.

Things the proofs brought out:

- `calloc`'s overflow test is exact, but `malloc` rounds the request up in 32-bit arithmetic, so its
  payload covers the request exactly when `nbytes + 7` does not wrap (`HeapModel.PayloadCovers`).
- The free list is canonical: it depends only on which units are free, so freeing a block that was
  just allocated restores it exactly (`HeapModel.RingIsCanonical`, `HeapModel.AllocateAndFree`).
- `buf_kill` at the end of a line joins with the next line only if that line is empty, and loses its
  text otherwise (`EditText.KillJoinsOnlyEmptyLines`, `EditText.KillLosesText`).
- Saving and reloading a text is the identity exactly when the buffer is not completely full
  (`EditText.SaveLoad`).
- A demo command survives recording exactly if its forward speed is not -128 and its angle fits the
  resolution; with `-turbo` at 256 percent or more the clamp lets such a speed through and ends the
  recording (`DemoModel.SurvivesIff`, `DemoModel.TurboMarker`).
- The remark at `boot/bootmain.c:96-100` that an over-read always lands on already-correct bytes does
  not hold for zero-filled tails; `ElfLoaderModel.IntactIff` gives the exact condition for any list
  of segments, `ElfLoaderModel.CompatibleIff` a shorter one for two, and
  `ElfLoaderModel.OverreadIntoBss` a layout that fails.
- `AM_clipMline` can reject a line of which a pixel is visible: each cut truncates, and after two cuts
  of the first endpoint the segment tested is no longer the line (`ClipRunModel.LostOnScreen`). This
  needs two outcode bits on that endpoint and cannot happen with fewer (`ClipRunModel.SoundIff`), and
  what is lost lies in the outermost rows and columns of the window (`ClipRunModel.RejectionMisses`),
  which may be a whole column (`ClipRunModel.LostColumn`).
- The package header is 200 bytes long; the comment at `tools/make-stinkpkg.py:43` says 196. The
  model follows the field sizes.
- The file system keeps 15 characters of a name, so the manifest of a package whose name is longer
  than seven characters loses its `.lst` suffix, or is taken for that of another package
  (`PkgUnpackModel.ManifestVisible`). Exactly the names of at most seven characters are protected by
  their manifest (`PkgUnpackModel.ProtectsIff`).
- `line_starts_with` (`apps/stinkpkg.c:284-298`) matches whole lines, not prefixes of lines.
- `pkg_installed` reads 2047 bytes of the database; what it can see is stated exactly
  (`PkgInstallModel.SeenIff`). Dependency order, closure and the absence of new cycles do not need
  that window, only that no append to the database was lost. Freedom from duplicates does: before a
  registration the exact condition is that the last entry is visible (`PkgInstallModel.DistinctIff`).
  43 packages with long names pass the window (`PkgInstallModel.UnseenName`), and installing a name
  beyond it once more duplicates it; with room for the whole repository that never happens
  (`PkgInstallModel.Installer.Session`).

## Model

| member | source | states |
|---|---|---|
| `HeapModel.Heap.Malloc` | `lib/libstink_alloc.c:46-74` | A fresh block of exactly the requested units, disjoint from every live block, or NULL with the heap unchanged; sbrk is called at most once and only when no free block fits, for the requested units but at least 1024, NULL only if that call failed; a fit is the first one on the lap from freep, is taken from the tail, and leaves freep at the free block before it; every live byte is untouched; the full invariant holds again |
| `HeapModel.Heap.Free` | `lib/libstink_alloc.c:78-104` | The block leaves the live set and the free list becomes the one list with it inserted at its place in address order and merged on both sides; no live byte changes; free(NULL) changes nothing |
| `HeapModel.Heap.Calloc` | `lib/libstink_alloc.c:106-116` | NULL without touching the heap when n*size does not fit 32 bits; otherwise a new block whose first n*size bytes are zero, next to unchanged live blocks, or NULL after a refused sbrk |
| `HeapModel.Heap.Realloc` | `lib/libstink_alloc.c:118-138` | Every branch: NULL old pointer allocates as malloc does, and then NULL comes only from a refused sbrk; size 0 frees; a fitting size keeps pointer and all of memory; a grown block carries the old payload and the old block is gone; failure means a refused sbrk and keeps the old block and its contents |
| `HeapModel.Heap.FindPlace` | `lib/libstink_alloc.c:83-89` | The search loop of free ends, at the only block after which the freed one belongs (address order with one wrap at the sentinel) |
| `HeapModel.Heap.Relink` | `lib/libstink_alloc.c:91-102` | The two merges rewrite exactly the two headers that the coalesced list needs |
| `HeapModel.Heap.Release` | `lib/libstink_alloc.c:78-104` | free on a block address: the invariant, the new list and the frame |
| `HeapModel.Heap.MoreCore` | `lib/libstink_alloc.c:31-44` | Asks the kernel once, for the wanted units but at least 1024 (the log of calls keeps size and outcome); on success exactly one chunk of that size is owned in addition, the list holds a block of the wanted size and freep is returned; on failure nothing changes |
| `HeapModel.Heap.SysSbrk` | `lib/libstink_alloc.c:36-38` | The kernel contract: refuse, or map a fresh region above every earlier one, adjacent to it or not |
| `HeapModel.Heap.MapBlock` | `lib/libstink_alloc.c:40-42` | A freshly mapped region, given its header, is a block disjoint from everything else |
| `HeapModel.Heap.Search` | `lib/libstink_alloc.c:55-73` | The loop of malloc ends: a full lap sees every free block before the heap grows, and after growing a fit is found within one lap |
| `HeapModel.Heap.Take` | `lib/libstink_alloc.c:57-66` | Exact fit unlinks the block, a larger one gives up its tail; both keep the list sorted, coalesced and threaded and leave freep at the block before |
| `HeapModel.Heap.Unlink` | `lib/libstink_alloc.c:58-59` | Removing a whole block from the ring |
| `HeapModel.Heap.SplitOff` | `lib/libstink_alloc.c:60-64` | Splitting a block: the front stays free, the tail is live |
| `HeapModel.Heap.constructor` | `lib/libstink_alloc.c:24-25` | Before the first call the heap is an empty ring |
| `HeapModel.Heap.Start` | `lib/libstink_alloc.c:50-53` | The sentinel becomes a ring of one on first use |
| `HeapModel.Heap.MemCpy` | `lib/libstink.h:616-623` | Copies whole units between disjoint regions and changes nothing else |
| `HeapModel.Heap.MemSet` | `lib/libstink.h:608-614` | Byte by byte over 8-byte units, and nothing else changes |
| `HeapModel.Heap.Move` | `lib/libstink_alloc.c:132-137` | The growing branch of realloc: old payload at the new place, old block freed, third parties untouched |
| `HeapClientModel.Client` | `lib/libstink_alloc.c:46-138` | Any series of malloc, calloc, free, realloc and writes by a client that frees, resizes and writes only what it holds: to the client the heap is a list of buffers. The trace starts empty and each request changes it as the client expects (a new buffer of the wanted size, zeroed for calloc; a released one gone; a grown one starting with its old contents; a write in one unit of one buffer), a request is denied only if sbrk was refused, and at the end every pointer is a live block of its own whose payload is the buffer of the trace |
| `HeapClientModel.ClientAllocate` | `lib/libstink_alloc.c:46-116` | A new buffer beside all others, whose contents stay |
| `HeapClientModel.ClientRelease` | `lib/libstink_alloc.c:78-104` | One buffer goes and the contents of all others stay |
| `HeapClientModel.ClientResize` | `lib/libstink_alloc.c:118-138` | The resized buffer starts with its old contents, and those of all others stay |
| `HeapClientModel.ClientStore` | `lib/libstink_alloc.c:46-138` | A write to one buffer keeps the heap valid and all other buffers unchanged |
| `HeapClientModel.AllKept` | `lib/libstink_alloc.c:46-138` | Contents survive whatever leaves their blocks alone |
| `HeapModel.AllocateAndFree` | `lib/libstink_alloc.c:46-104` | Freeing what malloc just returned restores the free list exactly, provided the heap did not grow |
| `HeapModel.RingIsCanonical` | `lib/libstink_alloc.c:78-104` | The free list is a function of the set of free units: two coalesced sorted lists over the same units are equal |
| `HeapModel.Conservation` | `lib/libstink_alloc.c:31-104` | Free units plus live units are the units obtained from the kernel |
| `HeapModel.FreeTiles` | `lib/libstink_alloc.c:91-102` | Merging a block above and below keeps free and live blocks a disjoint cover of the same units |
| `HeapModel.FreeLayout` | `lib/libstink_alloc.c:91-102` | Inserting with both merges keeps the list sorted, disjoint and free of adjacent blocks |
| `HeapModel.FreeHeaders` | `lib/libstink_alloc.c:91-102` | The rewritten headers thread the new list and leave live headers alone |
| `HeapModel.PlaceOf` | `lib/libstink_alloc.c:86-89` | Every block outside the list has a place in the ring, possibly at the wrap |
| `HeapModel.PlaceUnique` | `lib/libstink_alloc.c:86-89` | and only one |
| `HeapModel.TakeWhole` | `lib/libstink_alloc.c:58-59` | Unlinking keeps the layout invariant |
| `HeapModel.TakeTail` | `lib/libstink_alloc.c:60-64` | Splitting keeps the layout invariant and adds no adjacency |
| `HeapModel.SplitTile` | `lib/libstink_alloc.c:60-64` | Splitting a block covers the same units |
| `HeapModel.SplitUnits` | `lib/libstink_alloc.c:60-64` | Replacing a block by two that share its units keeps the union |
| `HeapModel.MergeTiles` | `lib/libstink_alloc.c:91-102` | Merging two adjacent blocks covers the same units |
| `HeapModel.SpliceThreaded` | `lib/libstink_alloc.c:59-102` | Replacing a run of the ring needs only the headers at the seam to be rewritten |
| `HeapModel.LapStep` | `lib/libstink_alloc.c:56-72` | Following next pointers from freep visits the ring in order and wraps once |
| `HeapModel.LapFits` | `lib/libstink_alloc.c:56-72` | A lap without a fit means that no free block fits |
| `HeapModel.FreeUntouched` | `lib/libstink_alloc.c:91-102` | free writes only headers of free blocks and of the freed one |
| `HeapModel.PayloadWrite` | `lib/libstink_alloc.c:113-114` | Writing a payload keeps the heap invariant and every other live block |
| `HeapModel.PayloadCovers` | `lib/libstink_alloc.c:48` | The payload holds the request if and only if nbytes + 7 does not wrap (or nbytes is 0), and never with eight bytes to spare |
| `HeapModel.OverflowTest` | `lib/libstink_alloc.c:108-110` | The division test of calloc is exact: it fires if and only if n*size does not fit 32 bits |
| `Sha256Model.Sha256Hash` | `lib/libstink_sha256.c:74-119` | For every message below 2^32 bytes the output is the digest of the recursive definition of FIPS 180-4 (sections 5.1.1, 5.3.3 and 6.2.2), whose constants, functions, padding and order the next two modules pin down without code |
| `Sha256Model.Sha256Block` | `lib/libstink_sha256.c:42-71` | One block in place equals the recursive compression function |
| `Sha256Model.Expand` | `lib/libstink_sha256.c:44-54` | The filled w[64] equals the recursive message schedule at every index |
| `Sha256Model.CRotrIsRotr` | `lib/libstink_sha256.c:15-18` | The shift-and-or rotation is the rotation of section 3.2, for every amount in use |
| `Sha256Model.BuildTail` | `lib/libstink_sha256.c:89-107` | The 64- or 128-byte tail is the leftover bytes followed by the padding |
| `Sha256Model.LengthTrailer` | `lib/libstink_sha256.c:98-99` | (len >> 29, len << 3) are the halves of 8*len in 64 bits, and so are their eight bytes |
| `Sha256Model.NatBytesSplit` | `lib/libstink_sha256.c:98-107` | Writing two halves big-endian writes the whole number |
| `Sha256Model.FourBytesAreNatBytes` | `lib/libstink_sha256.c:100-107` | The four shifts write a 32-bit number big-endian |
| `Sha256Model.PaddingFills` | `lib/libstink_sha256.c:86-96` | The padded length is a multiple of 64 |
| `Sha256Model.PaddingIsInjective` | `lib/libstink_sha256.c:86-107` | No two messages have the same padded form |
| `Sha256Model.HashWholeBlocks` | `lib/libstink_sha256.c:82-84` | Hashing the whole blocks consumes exactly that part of the padded message |
| `Sha256Model.HashTail` | `lib/libstink_sha256.c:109-111` | One or two tail blocks are the rest of it |
| `Sha256Model.WriteDigest` | `lib/libstink_sha256.c:113-118` | The state is written as big-endian words |
| `Sha256Standard.RoundConstants` | `lib/libstink_sha256.c:20-39` | Constant t is the first 32 bits of the fractional part of the cube root of the t-th prime, for all 64 (section 4.2.2 of FIPS 180-4) |
| `Sha256Standard.InitialHash` | `lib/libstink_sha256.c:76-79` | The initial hash value comes in the same way from the square roots of the first eight primes (section 5.3.3) |
| `Sha256Standard.BigSigmaBits` | `lib/libstink_sha256.c:59-62` | Every bit of the two large functions is the exclusive or of three bits of the word, 2, 13, 22 and 6, 11, 25 places on (section 4.1.2) |
| `Sha256Standard.SmallSigmaBits` | `lib/libstink_sha256.c:51-52` | Every bit of the two small functions likewise, with zeros shifted in |
| `Sha256Standard.ChoiceBits` | `lib/libstink_sha256.c:60-63` | Ch chooses bit by bit and Maj takes the majority |
| `Sha256Standard.PaddedShape` | `lib/libstink_sha256.c:86-107` | The padded message is the message, a one bit, fewer than 64 zero bytes, and the length in bits as a 64-bit big-endian number |
| `Sha256Standard.ChainLaw` | `lib/libstink_sha256.c:82-111` | Blocks are hashed one after the other, each from the state that the ones before it left |
| `Sha256Example.Abc` | `lib/libstink_sha256.c:74-119` | The digest of "abc" is the published one, by all 64 words and rounds |
| `PrintfModel.VsnPrintf` | `lib/libstink_printf.c:66-236` | For every well-formed format whose output is at most INT_MAX characters, and every capacity: the return value is the length of the full expansion, the buffer holds its first min(length, cap-1) characters and a NUL, and nothing else is written (nothing at all for cap 0) |
| `PrintfModel.Buf.PutC` | `lib/libstink_printf.c:21-26` | A character is counted always and stored only while room for the NUL remains |
| `PrintfModel.Buf.PadWith` | `lib/libstink_printf.c:28-32` | n fill characters, none for n <= 0 |
| `PrintfModel.Buf.EmitNumeric` | `lib/libstink_printf.c:198-221` | The shared numeric path emits padding, prefix, zeros and digits in the specified order |
| `PrintfModel.Buf.EmitJustified` | `lib/libstink_printf.c:176-188` | Strings and characters are justified within the width |
| `PrintfModel.Buf.Finish` | `lib/libstink_printf.c:233-235` | The terminator goes behind the stored text |
| `PrintfModel.FormatU` | `lib/libstink_printf.c:37-54` | Collecting digits least significant first and reversing them gives the base representation, in at most 32 steps |
| `PrintfModel.CollectDigits` | `lib/libstink_printf.c:47-50` | The digit loop never runs out of its 32 cells |
| `PrintfModel.ParseFlags` | `lib/libstink_printf.c:78-87` | All flags in any order and number |
| `PrintfModel.ParseInt` | `lib/libstink_printf.c:56-64` | Decimal width and precision |
| `PrintfModel.ParseSpec` | `lib/libstink_printf.c:78-114` | Flags, width, precision and length modifiers, with * taken from the arguments |
| `PrintfModel.EmitSigned` | `lib/libstink_printf.c:124-140` | Sign, magnitude and padding of %d and %i |
| `PrintfModel.EmitUnsigned` | `lib/libstink_printf.c:141-164` | Digits, prefix and padding of %u, %x, %X and %o; zero gets no prefix |
| `PrintfModel.EmitWord` | `lib/libstink_printf.c:123-175` | The switch over the conversions that take a word |
| `PrintfModel.EmitConversion` | `lib/libstink_printf.c:116-196` | One conversion appends its text and consumes its argument |
| `PrintfModel.SingleConversion` | `lib/libstink_printf.c:66-236` | A format of one conversion expands to that conversion |
| `PrintfModel.PrintedNumberParses` | `lib/libstink_printf.c:123-221` | Whatever flags, width and precision a one-number format has, the matching parser returns the argument |
| `PrintfModel.PrintAndParse` | `lib/libstink_printf.c:66-236` | vsnprintf into a large enough buffer followed by strtol returns the argument of any %d |
| `FormatLaws.NumericLaw` | `lib/libstink_printf.c:198-221` | The text of a number is as long as the width asks for, or as prefix, precision and digits need; the padding is all spaces behind with -, all zeros between prefix and digits with 0 and no precision, and all spaces in front otherwise |
| `FormatLaws.JustifiedLaw` | `lib/libstink_printf.c:176-188` | A string fills its width with spaces on one side |
| `FormatLaws.ClipLaw` | `lib/libstink_printf.c:177-183` | A precision that is given bounds the string |
| `FormatLaws.DigitsLaw` | `lib/libstink_printf.c:37-54` | Every place of the text shows the digit of that place, a-f for %x and A-F for %X, and no digit is superfluous |
| `FormatLaws.FlagsLaw` | `lib/libstink_printf.c:78-87` | Flags are read as far as there are any, and each is set by its own character |
| `FormatLaws.LiteralLaw` | `lib/libstink_printf.c:56-64` | A width or precision is the decimal number that stands there |
| `FormatLaws.LengthLaw` | `lib/libstink_printf.c:112-114` | Exactly the modifiers l, h and z are skipped |
| `FormatLaws.SpecLaw` | `lib/libstink_printf.c:78-114` | Whatever flags, width, precision and modifiers are written between % and the conversion character, those are read |
| `FormatLaws.StarLaw` | `lib/libstink_printf.c:89-110` | A star takes the next argument; a negative width means its size and -, a negative precision none |
| `FormatLaws.NumberLaw` | `lib/libstink_printf.c:123-221` | A number conversion anywhere in a format prints its argument in its field, with the sign or radix prefix that the flags ask for; the rest goes on with the next argument |
| `FormatLaws.TextLaw` | `lib/libstink_printf.c:166-196` | %c, %s, %% and characters that are no conversions, anywhere in a format |
| `FormatLaws.PlainLaw` | `lib/libstink_printf.c:70-73` | A character other than % prints itself |
| `FormatLaws.PrintNumber` | `lib/libstink_printf.c:66-236` | vsnprintf of one number: the value returned is max(width, prefix + max(precision, digits)), the field is stored as far as it fits, a NUL follows, and nothing else changes |
| `FormatLaws.PrintsMinutes` | `apps/shell.c:469` | %02u of 7 prints 07 |
| `FormatLaws.PrintsColumn` | `apps/shell.c:458` | %-5u of 42 prints 42 and three spaces |
| `FormatSpec.StrtolInvertsSigned` | `lib/libstink_printf.c:123-140` | strtol base 10 of %d output is the value, for all flags, widths, precisions and words (INT_MIN through 32-bit wrap-around) |
| `FormatSpec.StrtoulInvertsUnsigned` | `lib/libstink_printf.c:141-164` | strtoul in the matching base inverts %u, %x, %X and %o |
| `FormatSpec.StrtoulBaseZero` | `lib/libstink_printf.c:141-164` | Without padding, base 0 detects the base of %u, %#x, %#X and %#o |
| `FormatSpec.DigitsAreDigits` | `lib/libstink_printf.c:37-54` | The printed digits are digits of the base, denote the number, and start with 0 only for 0 |
| `FormatSpec.NumericShape` | `lib/libstink_printf.c:198-221` | Numeric output is spaces, prefix, zeros, digits, spaces |
| `FormatSpec.BodyParses` | `lib/libstink_printf.c:198-221` | Zeros, digits and trailing spaces parse to the number, without being taken for a prefix of their own |
| `FormatSpec.SignedValueFits` | `lib/libstink_printf.c:128-131` | Only the magnitude of INT_MIN leaves the positive range of the 32-bit long that strtol accumulates in |
| `StrtolModel.StrtolRun` | `lib/libstink.h:819-853` | The loop of strtol computes the specified value and end pointer, 32-bit wrap-around included |
| `StrtolModel.StrtoulRun` | `lib/libstink.h:857-893` | The loop of strtoul likewise; a minus sign is rejected |
| `StrtolModel.SkipSpacesFrom` | `lib/libstink.h:821-822` | White space as isspace defines it is skipped |
| `StrtolModel.SkipBasePrefix` | `lib/libstink.h:828-834` | Base 0 detection and the optional 0x of base 16 |
| `StrtolModel.ReadDigits` | `lib/libstink.h:836-848` | The accumulation loop reads the longest run of digits of the base |
| `ClipModel.CutDropsBit` | `apps/doom/am_map.c:960-970` | A cut endpoint loses an outcode bit and gains none, which bounds the passes |
| `ClipModel.CutStaysInBox` | `apps/doom/am_map.c:960-970` | Cut points stay in the box of the original segment |
| `ClipModel.RejectionIsSound` | `apps/doom/am_map.c:971-972` | A segment rejected after a cut has no point in the window, truncation included; it is the segment before that last cut, which for a line cut twice is not the original one |
| `ClipModel.SharingIsSound` | `apps/doom/am_map.c:913-914` | A segment rejected at once has no point in the window |
| `ClipModel.ProductsFit` | `apps/doom/am_map.c:926-953` | Within 2^14 no product leaves a 32-bit int |
| `ClipModel.CDivError` | `apps/doom/am_map.c:930` | C division truncates toward zero with an error below the divisor |
| `ClipModel.CDivFraction` | `apps/doom/am_map.c:930` | A fraction of v truncated lies between 0 and v |
| `ClipRunModel.ClipLine` | `apps/doom/am_map.c:910-976` | Every input: the ghost trace starts with the input, goes on by cuts of the outside endpoint (at most four) and ends with what is left behind, both endpoints inside or on one outer side; the result is that verdict, and the line is rejected only if every trace ends so. Visible endpoints are in the window, in the box of the input, and at most one pixel per cut off the original line; endpoints that were inside are unchanged. A rejected line misses the window without its outermost pixels, and the whole window if its first endpoint has at most one outcode bit, or is above a window of one row |
| `ClipRunModel.ClipLoop` | `apps/doom/am_map.c:910-976` | The tests and the loop: no division by zero, the trace of cuts, and the bound on it |
| `ClipRunModel.CutPoint` | `apps/doom/am_map.c:918-958` | Each branch cuts at the truncated intersection with its side, between the endpoints, and divides by no zero |
| `ClipRunModel.RunUnique` | `apps/doom/am_map.c:910-976` | Cuts are determined: two complete traces of one line are equal |
| `ClipRunModel.Verdict` | `apps/doom/am_map.c:910-976` | A complete trace ends inside the window exactly if the line is not rejected |
| `ClipRunModel.RejectedShape` | `apps/doom/am_map.c:914-972` | A rejected line has been cut at its first endpoint only, at most twice, and twice only if that endpoint had two outcode bits; the segment before the last cut has no point in the window |
| `ClipRunModel.OneBitIsSound` | `apps/doom/am_map.c:914-972` | With at most one outcode bit on the first endpoint, a rejected line has no point in the window |
| `ClipRunModel.OneRowFromAbove` | `apps/doom/am_map.c:918-972` | In a window of one row, a rejected line that starts above it has no point in the window |
| `ClipRunModel.SoundIff` | `apps/doom/am_map.c:914-972` | For each window, the exact condition on the outcode of the first endpoint: rejection loses nothing visible, for all lines, if and only if at most one bit is set, or the window has one row and the endpoint is above it |
| `ClipRunModel.LostOnScreen` | `apps/doom/am_map.c:918-972` | In a 320x168 window the line from (-6,-223) to (6,545) is rejected although (0,161) lies on it |
| `ClipRunModel.LostColumn` | `apps/doom/am_map.c:918-972` | In the same window the line from (-1,-397) to (2,795) runs down the whole of column 0 and is rejected |
| `ClipRunModel.LostTopLeft` | `apps/doom/am_map.c:918-972` | A line that starts beyond the upper left corner of any window of at least two rows and is rejected although its midpoint is visible |
| `ClipRunModel.LostTopRight` | `apps/doom/am_map.c:918-972` | A line that starts beyond the upper right corner of any window of at least two rows and is rejected although its midpoint is visible |
| `ClipRunModel.LostBottomLeft` | `apps/doom/am_map.c:918-972` | A line that starts beyond the lower left corner of any window and is rejected although its midpoint is visible |
| `ClipRunModel.LostBottomRight` | `apps/doom/am_map.c:918-972` | A line that starts beyond the lower right corner of any window and is rejected although its midpoint is visible |
| `ClipRunModel.RejectionMisses` | `apps/doom/am_map.c:914-972` | Any rejected line misses the window without its outermost pixels: what is lost lies in the outermost rows and columns, and may be a whole column |
| `ClipRunModel.CutKeepsMargin` | `apps/doom/am_map.c:918-958` | A cut of the first endpoint keeps the segment visible if it had a point at least one pixel inside |
| `ClipRunModel.CutIsNear` | `apps/doom/am_map.c:918-958` | A cut point is within one pixel of the line, and every visible point lies beyond the crossing it is cut at |
| `ClipRunModel.RunStaysNear` | `apps/doom/am_map.c:910-976` | After i cuts both endpoints are within i pixels, in each coordinate, of the original line |
| `LineModel.DrawFline` | `apps/doom/am_map.c:984-1055` | Nothing for endpoints outside the window; otherwise exactly one pixel per major step of the exact line is painted, each index in range, and no other cell changes |
| `LineModel.DrawWide` | `apps/doom/am_map.c:1023-1038` | The x-major loop |
| `LineModel.DrawTall` | `apps/doom/am_map.c:1039-1054` | The y-major loop |
| `LineModel.MinorError` | `apps/doom/am_map.c:1025-1036` | The minor offset m at step k satisfies 2*abs(k*minor - m*major) <= major |
| `LineModel.TrackStep` | `apps/doom/am_map.c:1030-1036` | One step keeps the decision variable equal to the scaled error |
| `LineModel.LineShape` | `apps/doom/am_map.c:1020-1055` | The line starts and ends on its endpoints and stays in their box |
| `LineModel.MinorRange` | `apps/doom/am_map.c:1020-1055` | The minor offset runs from 0 to the minor length and never beyond |
| `LineModel.NearestIsUnique` | `apps/doom/am_map.c:1025-1036` | The rounding rule determines the offset |
| `LineModel.OnLineIff` | `apps/doom/am_map.c:1020-1055` | The pixels of a line without counting: the points between the ends on the longer axis whose other coordinate is rounded from the true line |
| `LineModel.SysDrawLine` | `lib/libstink_gfx.c:20-56` | Fast paths and general loop alike paint exactly the on-screen pixels of the same line |
| `LineModel.DrawGeneral` | `lib/libstink_gfx.c:41-55` | The endless loop ends after max(abs(dx),abs(dy))+1 positions on the other endpoint, for any endpoints, and draws the on-screen ones |
| `LineModel.SteerStep` | `lib/libstink_gfx.c:52-54` | The error term steers both axes: each step advances the major axis and rounds the minor one |
| `LineModel.AxisAligned` | `lib/libstink_gfx.c:22-39` | An axis-aligned line is the run between its endpoints |
| `LineModel.ClipRun` | `lib/libstink_gfx.c:26-27` | Clipping a run keeps exactly its on-screen cells |
| `LineModel.SamePixels` | `apps/doom/am_map.c:984-1055` | AM_drawFline and sys_drawline draw the same picture |
| `EditorModel.Editor.Type` | `apps/edit.c:127-136` | Typing splices one character into the flat text at the cursor offset, or does nothing on a full line |
| `EditorModel.Editor.Enter` | `apps/edit.c:165-179` | Enter splices a newline, or does nothing with 512 lines |
| `EditorModel.Editor.Backspace` | `apps/edit.c:138-163` | Backspace deletes exactly the character before the offset, or does nothing at the start and where the joined line would not fit |
| `EditorModel.Editor.EnterThenBackspace` | `apps/edit.c:138-179` | A successful enter followed by backspace is the identity |
| `EditorModel.Editor.BufInsert` | `apps/edit.c:127-136` | The shifted row holds the line with the character inserted |
| `EditorModel.Editor.BufBackspace` | `apps/edit.c:138-163` | Both branches on the rows: erase, or join and shift all later rows up |
| `EditorModel.Editor.BufEnter` | `apps/edit.c:165-179` | Later rows shift down and the line is split |
| `EditorModel.Editor.BufKill` | `apps/edit.c:182-194` | Kills the rest of the line or drops the next row |
| `EditorModel.Editor.RowMemMove` | `lib/libstink.h:629-643` | memmove inside a row: overlapping regions move as a whole, in either direction |
| `EditorModel.Editor.RowMemCpy` | `lib/libstink.h:616-623` | memcpy between two rows |
| `EditorModel.Editor.RemoveRow` | `apps/edit.c:153-156` | The loop that shifts rows up |
| `EditorModel.Editor.OpenRow` | `apps/edit.c:170-172` | The loop that shifts rows down |
| `EditorModel.Editor.ClampCol` | `apps/edit.c:48-53` | The column is cut to the line length |
| `EditorModel.Editor.ScrollIntoView` | `apps/edit.c:55-61` | The cursor row becomes visible and the view stays put if it already was |
| `EditorModel.Editor.Left` | `apps/edit.c:299-307` | Left moves the offset back by one |
| `EditorModel.Editor.Right` | `apps/edit.c:308-317` | Right moves the offset on by one, up to the end |
| `EditorModel.Editor.Up` | `apps/edit.c:291-294` | One row up, limited to the first, column clamped to the line |
| `EditorModel.Editor.Down` | `apps/edit.c:295-298` | One row down, limited to the last, column clamped to the line |
| `EditorModel.Editor.PageUp` | `apps/edit.c:324-328` | 94 rows up, limited to the first, column clamped |
| `EditorModel.Editor.PageDown` | `apps/edit.c:329-333` | 94 rows down, limited to the last, column clamped |
| `EditorModel.Editor.Key` | `apps/edit.c:285-354` | The whole dispatcher, said of the flat text, the cursor offset, and row and column: a printable key or Enter inserts one character at the offset unless the line or the buffer is full, Backspace deletes the one before it or does nothing at the stated limits, Ctrl-K keeps the prefix of the line or drops the next one, arrows, paging, Home and End move by 1 or 94 rows, one offset, or to the ends, save writes the flat text, quit is reported on its keys, and modified is set exactly by a change |
| `EditorModel.Editor.LoadFile` | `apps/edit.c:198-226` | Loading builds the rows of the scanned text |
| `EditorModel.Editor.SaveFile` | `apps/edit.c:228-242` | Saving writes the flat text through the 64 KiB buffer |
| `EditorModel.Editor.Open` | `apps/edit.c:279-282` | After loading the cursor is at the start and visible |
| `EditText.InsertIsSplice` | `apps/edit.c:132-134` | Inserting into a line is inserting into the flat text |
| `EditText.FlatLaw` | `apps/edit.c:228-242` | The flat text is the lines with a newline between any two |
| `EditText.OffsetLaw` | `apps/edit.c:48-61` | The offset of a position is the length of the text in front of it |
| `EditText.SavedIsFlat` | `apps/edit.c:228-242` | What is saved is the flat text, without its last line only if all 512 lines have 127 characters |
| `EditText.SplitIsSplice` | `apps/edit.c:169-176` | Splitting a line is inserting a newline |
| `EditText.DeleteIsSplice` | `apps/edit.c:140-146` | Deleting in a line is deleting in the flat text |
| `EditText.JoinIsSplice` | `apps/edit.c:147-159` | Joining two lines is deleting the newline between them |
| `EditText.JoinSplit` | `apps/edit.c:138-179` | Joining undoes splitting |
| `EditText.SplitJoin` | `apps/edit.c:138-179` | Splitting undoes joining |
| `EditText.SaveLoad` | `apps/edit.c:198-242` | Saving and loading gives the text back if and only if the buffer is not completely full |
| `EditText.LoadedIsText` | `apps/edit.c:198-226` | Any file with fewer than 512 newlines loads as a valid text |
| `EditText.KillJoinsOnlyEmptyLines` | `apps/edit.c:181-194` | At the end of a line, killing equals joining with the next line if and only if that line is empty |
| `EditText.KillLosesText` | `apps/edit.c:187-193` | The concrete input on which it does not |
| `MeltModel.Melt.Run` | `apps/doom/d_main.c:311-328` | Under any clock the wipe ends after at most 21 + ceil(height/8) calls with the end image on the screen |
| `MeltModel.Melt.DoMelt` | `apps/doom/f_wipe.c:163-216` | The melt invariant holds after any ticks, each offset has advanced by that many steps, the result is true exactly if nothing moved, and then (with a tick) the screen is the end image |
| `MeltModel.Melt.Tick` | `apps/doom/f_wipe.c:182-211` | One tick advances every column once |
| `MeltModel.Melt.MeltColumn` | `apps/doom/f_wipe.c:184-210` | One column: offset advanced, end image above the edge, start image shifted below it, other columns untouched |
| `MeltModel.Melt.InitMelt` | `apps/doom/f_wipe.c:132-161` | The screen becomes the start image, both images are transposed, offsets lie in [-15,0], and the melt invariant holds |
| `MeltModel.InitOffsets` | `apps/doom/f_wipe.c:151-158` | The starting offsets are a walk with steps of at most one inside [-15,0] |
| `MeltModel.ColMajorXform` | `apps/doom/f_wipe.c:42-62` | The in-place transposition: cell (x,y) of the result is cell (y,x) of the input |
| `MeltModel.CopyDown` | `apps/doom/f_wipe.c:192-208` | One inner loop writes its run of one column and nothing else |
| `MeltModel.Fall` | `apps/doom/f_wipe.c:190-208` | Both inner loops together |
| `MeltModel.MeltEnds` | `apps/doom/f_wipe.c:184-200` | Offsets never decrease or pass the height and reach it within the bound |
| `MeltModel.MeltBound` | `apps/doom/f_wipe.c:151-200` | From any starting offset 20 + ceil(height/8) ticks are enough |
| `MeltModel.Acceleration` | `apps/doom/f_wipe.c:184-200` | The motion of a column from any starting offset: it waits, falls to rows 1, 3, 7, 15 and 31, then eight rows a tick, and stops at the height |
| `MeltModel.AdvanceNAdd` | `apps/doom/f_wipe.c:180-212` | Two calls with a and b ticks are one call with a + b |
| `MeltModel.AllDown` | `apps/doom/f_wipe.c:184-214` | With all columns down the screen equals the end image |
| `TicLoopModel.TicLoop.TryRunTics` | `apps/doom/d_loop.c:706-821` | The number of commands run: with new sync all that wait, otherwise by the clock (one more than it asks for while that leaves some over, all when it asks for more), and at least one; gives up only if none is waiting and the clock has moved on from its reading on entry, and has then run nothing; with singletics exactly one command is built and run; both I_Error calls are unreachable; the loop invariant holds again |
| `TicLoopModel.TicLoop.RunsSomething` | `apps/doom/d_loop.c:706-821` | A waiting command is always run, and with singletics one always is |
| `TicLoopModel.TicLoop.Play` | `apps/doom/d_loop.c:203-821` | The invariant holds over any schedule of the two entry points under any clock |
| `TicLoopModel.TicLoop.TicOf` | `apps/doom/d_loop.c:787-816` | Tic k of any run executed command k/ticdup, as built if k is its first tic and squashed otherwise; gametic/ticdup <= maketic <= gametic/ticdup + 5 (3 with new sync) |
| `TicLoopModel.TicLoop.TicMeans` | `apps/doom/d_loop.c:787-816` | And field by field: only the local player is in the game, it moves as command k/ticdup says in every run, and chats and acts as it says in the first |
| `TicLoopModel.TicLoop.NetUpdate` | `apps/doom/d_loop.c:203-250` | Builds exactly the commands that fell due, less those skipped, as far as there is room |
| `TicLoopModel.TicLoop.BuildNewTic` | `apps/doom/d_loop.c:136-194` | Builds one command exactly if there is room, and a command is then waiting |
| `TicLoopModel.TicLoop.PutCommand` | `apps/doom/d_loop.c:188-191` | Storing a command overwrites no waiting one |
| `TicLoopModel.TicLoop.RunCommand` | `apps/doom/d_loop.c:797-817` | The oldest waiting command is run from an unoverwritten slot |
| `TicLoopModel.TicLoop.RunSet` | `apps/doom/d_loop.c:804-816` | A set is run ticdup times, squashed after the first |
| `TicLoopModel.TicLoop.WaitForTics` | `apps/doom/d_loop.c:767-785` | The wait ends with enough commands or with a clock reading later than the one on entry; it waits for nothing if enough are there |
| `TicLoopModel.TicLoop.DecideCounts` | `apps/doom/d_loop.c:735-765` | The number decided on, case by case, for both kinds of synchronisation: at least one, and no more than are there unless none is |
| `TicLoopModel.TicLoop.constructor` | `apps/doom/d_loop.c:60-98` | The empty ring satisfies the invariant |
| `TicLoopModel.TicdupSquash` | `apps/doom/d_loop.c:672-684` | Every command of the set is squashed, other slots are untouched |
| `TicLoopModel.SinglePlayerClear` | `apps/doom/d_loop.c:689-700` | Only the local player stays in the game |
| `TicLoopModel.RunAt` | `apps/doom/d_loop.c:787-816` | The list of runs, indexed by tic: the division by ticdup is exact |
| `TicLoopModel.RunsLength` | `apps/doom/d_loop.c:804-812` | n commands give n*ticdup tics |
| `TicLoopModel.RepeatsAreHarmless` | `apps/doom/d_loop.c:672-684` | A repeated command moves and turns as before, carries no chat and no special button, and squashing again changes nothing |
| `TicLoopModel.SlotsDiffer` | `apps/doom/d_loop.c:188` | Commands less than a ring apart have different slots |
| `DemoModel.Turner.Turn` | `apps/doom/g_game.c:580-596` | The emitted angle is a multiple of 256; emitted angles plus carry equal the requested angles modulo 2^16 after every call, with the carry in [-128,127] |
| `DemoModel.Turner.HeadingError` | `apps/doom/g_game.c:580-596` | At no moment of a run is the heading more than half a unit off |
| `DemoModel.RoundedTurn` | `apps/doom/g_game.c:589-595` | Rounding to the high byte leaves a 16-bit rest in [-128,127], at the wrap too |
| `DemoModel.ReadBack` | `apps/doom/g_game.c:1898-1981` | What a stored command reads back as, for every command and both resolutions |
| `DemoModel.EncodeBytes` | `apps/doom/g_game.c:1963-1981` | Position and value of every byte of a stored command |
| `DemoModel.DecodeBytes` | `apps/doom/g_game.c:1900-1922` | The command that is read has these bytes, with a zero low byte of the angle in low resolution |
| `DemoModel.SurvivesIff` | `apps/doom/g_game.c:1898-1981` | A command reads back unchanged if and only if forwardmove is not -128 and the angle fits the format |
| `DemoModel.TurboMarker` | `apps/doom/g_game.c:553-562` | Some clamped forward speed is stored as the end marker if and only if -turbo is at least 256 percent |
| `DemoModel.EncodeAt` | `apps/doom/g_game.c:1963-1981` | Command k of a recording starts k sizes in |
| `DemoModel.Demo.WriteDemoTiccmd` | `apps/doom/g_game.c:1956-2003` | No store passes the end of the buffer, across doubling; the command kept is the one that will be played back; the exact condition under which recording goes on, and the exact file otherwise |
| `DemoModel.Demo.PutTiccmd` | `apps/doom/g_game.c:1965-1981` | The stores are the encoding of the command, byte by byte: speeds, angle in two bytes or its high byte, buttons |
| `DemoModel.Demo.ReadDemoTiccmd` | `apps/doom/g_game.c:1898-1922` | Reads the command that stands there byte by byte, or nothing at the marker 0x80 |
| `DemoModel.Demo.IncreaseDemoBuffer` | `apps/doom/g_game.c:1926-1954` | A buffer of twice the size with the same contents |
| `DemoModel.Demo.CheckDemoStatus` | `apps/doom/g_game.c:2290-2297` | The file is header, commands and marker |
| `DemoModel.Demo.Replay` | `apps/doom/g_game.c:1898-1922` | Playback of a recorded file returns its commands and stops at the marker |
| `DemoModel.RecordAndReplay` | `apps/doom/g_game.c:1898-2003` | Recording any playable commands and playing the file back is the identity, however often the buffer grew |
| `DemoModel.RecordTurning` | `apps/doom/g_game.c:580-596` | Low-resolution recording with the turn carry in front: whatever angles are requested, what is emitted is recorded and played back exactly, and the heading reached differs from the requested one by at most half a unit |
| `DemoModel.Demo.constructor` | `apps/doom/g_game.c:2010-2098` | A fresh recording with its 13 header bytes |
| `DemoModel.Demo.ForPlayback` | `apps/doom/g_game.c:2152-2200` | The file, positioned behind its header |
| `ElfLoaderModel.Machine.Bootmain` | `boot/bootmain.c:113-148` | The kernel is entered, at the address in bytes 24 to 27 of its header, if and only if the file starts with the ELF magic; memory is what the PT_LOAD headers say, the last writer winning; with segments in order and compatible every segment has its file bytes and its zeros, and this is also stated by the bytes of the disk for segments that do not share sectors |
| `ElfLoaderModel.Machine.ReadSeg` | `boot/bootmain.c:101-110` | Reads whole sectors: byte a of the covered range is file byte offset + (a - pa), before and behind the segment too |
| `ElfLoaderModel.Machine.ReadSect` | `boot/bootmain.c:83-94` | One sector |
| `ElfLoaderModel.Machine.LoadSegment` | `boot/bootmain.c:138-142` | One segment: its over-reads, its bytes and its zeros, and nothing else |
| `ElfLoaderModel.Machine.LoadHeader` | `boot/bootmain.c:135-143` | One program header, read from the copy at SCRATCH_ADDR, which stays intact |
| `ElfLoaderModel.Machine.CheckMagic` | `boot/bootmain.c:124-128` | The four magic bytes |
| `ElfLoaderModel.ImagesComplete` | `boot/bootmain.c:101-143` | A segment compatible with all later ones is complete at the end, whatever is on the disk |
| `ElfLoaderModel.CompatibleIff` | `boot/bootmain.c:96-110` | For two segments in address order, the first survives the second for every disk if and only if they are compatible: no overlap of the rounded start, or the same displacement and no zero-filled tail |
| `ElfLoaderModel.IntactIff` | `boot/bootmain.c:101-143` | For any list of segments: segment i is complete for every disk if and only if at each of its addresses the last segment that covers the address puts the same byte there |
| `ElfLoaderModel.LastWriterWins` | `boot/bootmain.c:130-143` | The byte at an address is the one that the last covering segment puts there |
| `ElfLoaderModel.SameByteIff` | `boot/bootmain.c:96-110` | Two segments agree at an address for every disk if and only if both zero it, or neither does and their displacements are equal |
| `ElfLoaderModel.OverreadIntoBss` | `boot/bootmain.c:96-100` | A concrete layout in which the over-read spoils a zero-filled tail, against the comment |
| `ElfLoaderModel.KernelInPlace` | `boot/bootmain.c:130-143` | The completeness of all segments, from the headers on the disk |
| `ElfLoaderModel.EhdrBytes` | `boot/bootmain.c:124-133` | Which bytes of the ELF header are magic, entry, header offset and header count |
| `ElfLoaderModel.PhdrBytes` | `boot/bootmain.c:135-143` | Which bytes of a program header are type, offset, address, file size and memory size |
| `ElfLoaderModel.CompleteInMemory` | `boot/bootmain.c:130-143` | A complete segment, by the bytes of the disk and of memory |
| `ElfLoaderModel.SegmentsPlaceable` | `boot/bootmain.c:130-143` | Every PT_LOAD header is among the checked ones |
| `PkgContainerModel.Build` | `tools/make-stinkpkg.py:56-122` | An archive is written if and only if every text fits its field and every number 32 bits, and it is then the specified container |
| `PkgContainerModel.Fixed` | `tools/make-stinkpkg.py:48-53` | Succeeds exactly on ASCII texts that fit; the field then has the full length, starts with the text and is zero behind it, and a text without NUL is read back from it as a C string |
| `PkgContainerModel.FixedAll` | `tools/make-stinkpkg.py:78` | All dependency fields or none |
| `PkgContainerModel.Collect` | `tools/make-stinkpkg.py:80-90` | Payload, sizes and offsets of all inputs |
| `PkgContainerModel.WriteTable` | `tools/make-stinkpkg.py:119-121` | The packed file table |
| `PkgContainerModel.HeaderReads` | `tools/make-stinkpkg.py:101-113` | Every header field reads back |
| `PkgContainerModel.ContainerLayout` | `tools/make-stinkpkg.py:98-122` | Where header, dependency names, file table and payload are |
| `PkgContainerModel.DepReads` | `tools/make-stinkpkg.py:117-118` | Dependency i reads back |
| `PkgContainerModel.FileReads` | `tools/make-stinkpkg.py:119-122` | Name and bytes of file i read back |
| `PkgContainerModel.ConcatAt` | `tools/make-stinkpkg.py:89-90` | Every part of a concatenation can be cut out again |
| `PkgContainerModel.PadReads` | `tools/make-stinkpkg.py:53` | Padding is undone by reading a C string |
| `PkgFormat.HeaderFormat` | `tools/make-stinkpkg.py:101-113` | Every byte of the header of an archive: SPKG, version 1, flags, the three texts with their zeros, and the four numbers; and where the payload is |
| `PkgFormat.DepFormat` | `tools/make-stinkpkg.py:117-118` | Dependency record i, at 200 + 32 i |
| `PkgFormat.FileFormat` | `tools/make-stinkpkg.py:119-121` | File record i behind them: name, size, and the sum of the sizes before it |
| `PkgFormat.AcceptableIff` | `apps/stinkpkg.c:340-352` | The header is accepted exactly if it says SPKG and version 1, the payload fits and the compression bit is off |
| `PkgFormat.ReaderFields` | `apps/stinkpkg.c:340-358` | Which bytes the reader takes for names, version and counts |
| `PkgFormat.ReaderFile` | `apps/stinkpkg.c:384-392` | Which bytes it takes for name and body of file i |
| `PkgFormat.NamesAre` | `apps/stinkpkg.c:374-411` | What the file system keeps of a name, the name of a manifest, and the database line |
| `PkgUnpackModel.UnpackPackage` | `apps/stinkpkg.c:337-413` | Succeeds if and only if the header is acceptable, no name is claimed by another package, every body lies inside the data and every file write succeeds. Success leaves the files, the manifest and one database line (as far as those two unchecked writes succeed); refusals for header or conflict write nothing; any other failure leaves the first files and nothing else |
| `PkgUnpackModel.WriteOut` | `apps/stinkpkg.c:384-399` | The file loop: it stops only at a body outside the data or a failed write; the manifest is cut at 1023 bytes |
| `PkgUnpackModel.Register` | `apps/stinkpkg.c:400-411` | The manifest and the database line, each written or not |
| `PkgUnpackModel.AddLine` | `apps/stinkpkg.c:393-397` | One manifest line as far as there is room |
| `PkgUnpackModel.FilenameClaimedElsewhere` | `apps/stinkpkg.c:303-335` | True if and only if the manifest of another package lists the name in its first 1024 bytes |
| `PkgUnpackModel.AnyClaimed` | `apps/stinkpkg.c:361-372` | The conflict check over all files of the archive |
| `PkgUnpackModel.IsSelf` | `apps/stinkpkg.c:321-326` | The own manifest is recognised exactly |
| `PkgUnpackModel.LineStartsWith` | `apps/stinkpkg.c:284-298` | True if and only if the text has the whole line (not merely a line with that start) |
| `PkgUnpackModel.BuildListName` | `apps/stinkpkg.c:376-382` | pkg-<name>.lst |
| `PkgUnpackModel.BuildDbLine` | `apps/stinkpkg.c:403-410` | <name> <version> and a newline |
| `PkgUnpackModel.RoundTrip` | `apps/stinkpkg.c:337-413` | Unpacking what the builder wrote delivers every file under its name, the manifest and one database line, and changes nothing else |
| `PkgUnpackModel.BuildAndUnpack` | `apps/stinkpkg.c:337-413` | Builder and reader end to end: the archive exists if and only if the package can be packed; it is installed if and only if no other package claims one of its names and every file write succeeds, and is then delivered; with no failed write at all it is also listed and recorded |
| `PkgUnpackModel.ArchiveReads` | `apps/stinkpkg.c:354-356` | The reader sees the package in the archive |
| `PkgUnpackModel.ArchiveChecks` | `apps/stinkpkg.c:354-372` | All bodies of an archive of the builder lie inside it, and the conflict check fires if and only if another package claims one of the names |
| `PkgUnpackModel.FilesThere` | `apps/stinkpkg.c:386-392` | With distinct stored names every written file keeps its bytes |
| `PkgUnpackModel.CompressedRefused` | `apps/stinkpkg.c:346-352` | Compressed archives are refused |
| `PkgUnpackModel.FilesProtected` | `apps/stinkpkg.c:300-335` | Once its complete manifest is stored, a package of up to seven characters keeps its file names against every other package |
| `PkgUnpackModel.ManifestVisible` | `apps/stinkpkg.c:303-320` | The stored manifest name keeps its suffix if and only if the package name has at most seven characters, or happens to spell .lst at the cut |
| `PkgUnpackModel.ProtectsIff` | `apps/stinkpkg.c:300-335` | A complete stored manifest claims its files against every other package if and only if the package name has at most seven characters; and it makes the package conflict with itself on reinstallation if and only if its name spells .lst at the cut |
| `PkgInstallModel.Installer.InstallPkg` | `apps/stinkpkg.c:606-698` | Terminates; never removes an entry; fails at depth 4; unpacks only verified archives of the requested name. With neither flag it adds only names that pkg_installed does not see, registers no name that is already being installed, so that a request closing a cycle fails, and, unless an append was lost, adds every entry behind its dependencies. Success means registered, and a new entry if the name was not seen or force is set. It succeeds if no download, pin check or unpack fails and the dependency tree stays within the depth limit |
| `PkgInstallModel.Installer.Install` | `apps/stinkpkg.c:700-711` | From a closed database: closed again after success and failure alike, unless an append was lost; every added entry behind its dependencies; success means registered together with each of the first eight dependency records of the archive. Free of duplicates again if the entry before the last addition is visible in the 2047-byte window, so for one addition if the last entry was visible before the call, and for any number if there was room for every package of the repository; a successful request for a registered but unseen name makes a duplicate. Success whenever nothing in the environment fails and the dependency tree is within four levels |
| `PkgInstallModel.Installer.Session` | `apps/stinkpkg.c:606-711` | Any series of requests, successful or not, keeps a closed database closed unless an append was lost, and keeps it free of duplicates if there was room at the start |
| `PkgInstallModel.Installer.InstallDeps` | `apps/stinkpkg.c:659-664` | The dependency loop: on success every dependency is registered and none was in progress; it succeeds if all are resolvable and nothing fails |
| `PkgInstallModel.Installer.ResolveDeps` | `apps/stinkpkg.c:646-671` | After the dependencies have used the shared buffer it holds the requested archive again; they are registered |
| `PkgInstallModel.Installer.FetchAndVerify` | `apps/stinkpkg.c:499-533` | On success the buffer holds the archive that the name stands for; a download that brings it succeeds |
| `PkgInstallModel.Installer.UnpackVerified` | `apps/stinkpkg.c:673-696` | Unpacks the bytes in the buffer and adds one entry |
| `PkgInstallModel.Installer.PkgInstalled` | `apps/stinkpkg.c:474-494` | Finds a name exactly if some line of the first 2047 bytes of STINKDB begins with it and a space, which for valid names means that one of its entries begins early enough |
| `PkgInstallModel.ScanFor` | `apps/stinkpkg.c:481-493` | The line scan finds exactly the lines that start with the name and a space |
| `PkgInstallModel.RenderedEntries` | `apps/stinkpkg.c:402-411` | The lines of the database text are its entries |
| `PkgInstallModel.SeenIff` | `apps/stinkpkg.c:474-494` | What the 2047-byte window shows |
| `PkgInstallModel.SeenIsRegistered` | `apps/stinkpkg.c:474-494` | A database that fits the window is seen whole |
| `PkgInstallModel.DepsAre` | `apps/stinkpkg.c:646-658` | The dependencies of an archive are its first eight records, 31 characters each |
| `PkgInstallModel.DepsOfArchive` | `apps/stinkpkg.c:646-658` | For an archive of the builder they are the first eight it was given |
| `PkgInstallModel.ClosedMeans` | `apps/stinkpkg.c:646-664` | In a closed database every dependency record that counts is registered |
| `PkgInstallModel.UnseenName` | `apps/stinkpkg.c:474-494` | A database of 43 valid, different names of 31 characters, in which the last is registered but not seen |
| `PkgInstallModel.DistinctIff` | `apps/stinkpkg.c:474-494` | The exact condition on the database before a registration: no unseen name makes a duplicate if and only if the last entry is visible in the window |
| `PkgInstallModel.KeepsDistinct` | `apps/stinkpkg.c:474-494` | Any series of unseen names makes no duplicate as long as the entry before the last addition is visible |
| `PkgInstallModel.RoomKept` | `apps/stinkpkg.c:474-494` | With room in the window for every package not registered yet, no series of additions makes a duplicate, and the room remains |
| `PkgInstallModel.AllVisible` | `apps/stinkpkg.c:474-494` | If the last entry is visible, every registered name is seen |
| `PkgInstallModel.ExtendsKeepsClosed` | `apps/stinkpkg.c:659-676` | Entries added behind their dependencies keep the database closed |
| `PkgInstallModel.AddedTwice` | `apps/stinkpkg.c:474-494` | Adding a registered name makes a duplicate |
| `PkgInstallModel.ResolvableGrows` | `apps/stinkpkg.c:606-671` | What can be installed within the depth limit still can after other packages have been registered |
| `PkgInstallModel.ExtendsTransitive` | `apps/stinkpkg.c:659-676` | Installations compose |
| `PkgInstallModel.NoCycle` | `apps/stinkpkg.c:659-664` | If no dependency of a name is in progress, neither is the name |
| `PkgInstallModel.NowRegistered` | `apps/stinkpkg.c:673-676` | The final registration comes behind its dependencies, whatever the size of the database |
| `PkgInstallModel.NoNewCycles` | `apps/stinkpkg.c:606-698` | No name that is registered for the first time lies on a dependency cycle |
| `PkgInstallModel.WalkStaysBefore` | `apps/stinkpkg.c:606-698` | Everything reachable from a new entry is registered before it |
| `PkgInstallModel.DatabaseAfter` | `apps/stinkpkg.c:402-411` | Unpacking changes the database by exactly one line |
| `StinkFsModel.Fs.Fwrite` | `apps/stinkpkg.c:391` | The file system contract: create or replace, or fail without effect |
| `StinkFsModel.Fs.Fappend` | `apps/stinkpkg.c:411` | Append, creating the file if it is missing |
| `StinkFsModel.Fs.Fread` | `apps/stinkpkg.c:477` | The first bytes of a file, or -1 |
| `StinkFsModel.Fs.Directory` | `apps/stinkpkg.c:305-309` | Every name, once |

## Left out

- HeapModel.Heap.Malloc: requests of 2^28 units or more, which `sbrk` would receive as a negative int, are considered only when a free block fits them; requests so close to 2^32 that the rounding wraps are covered by `HeapModel.PayloadCovers`.
- HeapModel.Heap.Calloc: products within seven bytes of 2^32 and requests of 2^28 units without a fit are excluded, for the same reasons.
- HeapModel.Heap.Realloc: when it has to allocate, sizes within seven bytes of 2^32 and requests of 2^28 units without a fit are excluded, for the same reasons; sizes that fit the block already held are not limited.
- HeapModel.Heap.SysSbrk: that regions are fresh and ascending is the contract of the kernel, whose code is not part of this model.
- ClipRunModel.ClipLine: starts from frame-buffer coordinates; the map-space rejection and the scaling before it use fixed-point arithmetic that is not part of this model. Coordinates are unbounded; `ClipModel.ProductsFit` gives a range without overflow.
- LineModel.DrawGeneral: coordinates are unbounded integers; endpoints so far apart that dx, dy or err leave 32 bits are not modelled.
- PrintfModel.VsnPrintf: the format must be well formed: a conversion character after every %, an argument of the right kind for every conversion, widths and precisions that fit an int, no -INT_MIN width. A format that ends in a lone % reads past its terminator in the source. Output longer than 2^31 - 1 characters, which the returned int cannot count, is not modelled.
- Wrappers of vsnprintf that only choose a capacity (sprintf, printf, sys_printf) are left out.
- EditorModel.Editor.LoadFile: files with 512 or more newlines are excluded; the source indexes past its rows there.
- EditorModel.Editor.SaveFile: the result of the file write is ignored, as in the source.
- MeltModel.Melt.Run: menu drawing over the melt is not modelled; nothing else writes to the screen.
- MeltModel.Melt.InitMelt: the width is even, as pixels move in pairs.
- TicLoopModel.TicLoop.TryRunTics: network play, drones and OldNetSync are compiled out; that the clock eventually moves on while waiting is taken for granted, so that the wait ends.
- TicLoopModel.TicLoop.BuildNewTic: the menu and event callbacks do not call back into the loop.
- DemoModel.Demo.constructor: the starting buffer holds the header and one command; smaller buffers (-maxdemo 0) are excluded.
- DemoModel.Demo.Replay: plays files that the recorder wrote; demos of other versions are left out.
- ElfLoaderModel.Machine.Bootmain: headers lie in the first 4096 bytes, segments above the header copy and inside memory below 4 GiB, and the disk holds the sectors; port I/O is a read of the disk image.
- PkgContainerModel.Build: zlib is a parameter, and so are the input files; texts contain no NUL, as command-line arguments cannot.
- StinkFsModel.Fs.Fwrite: a failed call changes nothing, which covers a full disk or directory; a sector write that fails half way leaves new sizes and contents behind in the source.
- StinkFsModel.Fs.Fappend: the same.
- PkgUnpackModel.AnyClaimed: the file table lies inside the data, as in UnpackPackage; the source would read past it.
- PkgUnpackModel.UnpackPackage: the tables lie inside the data once the header is accepted, which the source does not check; file addresses are unbounded integers, where the source adds 32-bit pointers; `X:` drive prefixes in names are left out.
- PkgUnpackModel.BuildAndUnpack: the stored names of the files are different from each other and from those of the manifest and the database; otherwise a later write replaces an earlier file.
- PkgInstallModel.Installer.InstallPkg: the index text is a map from names to digests, hexadecimal comparison is comparison of digests, and a pinned version may refuse any install. A sound repository is assumed: well-formed archives that carry their own name, valid names, no file stored as STINKDB or REPO_INDEX, and no other served bytes with a published digest.
- Removing, upgrading and listing packages, the lockfile replay and the download code are left out.
- The kernel, drawing, key polling, sound, the games, the installer screens and the network stack are left out.
- Floating point, Doom's fixed-point helpers and its pixel scalers are left out; they would add many easy members.
