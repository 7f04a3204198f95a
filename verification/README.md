# CFS MM load pipeline: a verified model

This project models the memory-manager load pipeline of the CFS MM fuzzer and proves properties of
it. The pipeline turns fuzzer input into an `MM_LoadMemFromFileCmd_t`, resolves and validates the
target address and file name, and rests on a handful of utilities: a table-driven CRC-32, the region
scans over the memory map, the alignment macro, a hex-dump printer and a set of counters. The
default platform (RAM at 0x20000000, EEPROM at 0x08080000, alignment 4) is modelled, on a
little-endian host with the usual 8-byte-aligned layout, where the command takes 120 bytes.

| module | what it models |
|---|---|
| `CTypes` | `uint8`/`uint32`/`uint64`, little-endian memory images, C's `&` and `~` on unsigned words |
| `CString` | NUL-terminated buffers; `strlen`, `strstr`, `strncmp`, `strncpy`, `strncat` and the two copy macros as loops |
| `CfsConfig` | status codes, limits, the symbol and path tables |
| `Gf2Register`, `Crc32`, `CrcPolynomial`, `Crc32Theory` | the shift register, the CRC loop, long division over GF(2), and the theorems about the CRC |
| `Period`, `TwoBits` | the order of x modulo the generator, by multiplication and the factors of 2^32 - 1; what the CRC sees of two flipped bits |
| `ShippedTable` | the CRC loop with the sixteen-entry table as shipped: when it is right, when it is linear |
| `MemoryMap` | the region table and the two scans |
| `Alignment` | `MM_ALIGN_TO_BOUNDARY` and `MM_IsValidAlignment` |
| `FileName` | `MM_VerifyFileName` and lexical path resolution |
| `CommandHeader`, `SymbolAddress`, `LoadCommand` | the header setters, address resolution, the decoder and the simulation |
| `LoadTheory`, `LoadOutcome` | the decoder's image and inverse; outcomes and safety of whole runs |
| `LoadInNumbers` | decoding and simulation once more with every offset, base, limit, bound and code written out, for any input and any command; the seeds |
| `HexDump` | the printer, its text collected in a string, and a reader that undoes it |
| `FuzzStats` | the counters, tied to the history of results |

Code that works step by step is written as methods and classes (`CalculateCRC32With`,
`VerifyFileName`, `LoadMemFromFileCmd`, `ConstructPacket`, `LoadMemFromFileSimulation`, `HexDump`,
`Stats`, ...). Each method is proved against a function of its inputs, and the theorems are about
that function. A null pointer argument is a null array, a null object or a `None`.

CRC bytes are bit-vectors (`bv8`), because the CRC is about bits; everywhere else bytes are integers
below 256. Characters of C strings are `char`, with `'\0'` as the terminator.

## Where the code does not do what is said of it

* The CRC table in the source has sixteen entries and C fills the other 240 with zero; a comment in
  the source says all 256 are needed. The streaming law and the zero residue are proved of any such
  table. Refinement of the bit-serial definition, linearity, detection of bursts and of two flipped
  bits, and uniqueness of the residue are proved of the complete table, whose first sixteen entries are shown to be the
  literals. Of the table as shipped, `ShippedExact` says exactly when the value returned is right: when
  the intended CRC of the indices the run missed is zero. If all misses lie within four consecutive
  bytes that means that there were none (`ShippedWindowExact`, `OneMissIsFatal`); beyond that a run can
  go wrong and end right (`ShippedReconverges`).
  `ShippedLinearExact` and `ShippedStepLinearExact` say exactly when linearity survives, and
  `ShippedIsBlind` that the result is zero for every buffer of four or more bytes between 0x10 and 0xEF.
* `MM_CalculateCRC` leaves out the final complement of RFC 1952 (`ComplementIsRfc1952`), so with the
  complete table its result is never the CRC of section 8 of RFC 1952 itself, always its complement.
* `CFS_IsValidMemoryAddress` computes the end of a range in 64-bit arithmetic. A range that wraps
  past zero to an end that is low enough is accepted although it lies in no region
  (`WrappingRangeAccepted`), and so is an empty range one past the end of a region
  (`EmptyRangePastEnd`); `AcceptanceExact` gives the condition for every range. The simulation accepts
  a command that wraps (`WrappingCommandAccepted`); `ConstructedIsContained` shows that the decoder's
  clamps rule that out.
* `MM_VerifyFileName` accepts a name that ends in a bare `..`, such as `/ram/..`
  (`TrailingDotsEscape`). `AcceptedStaysUnder` states exactly which accepted names stay under the
  table path they matched.
* The simulation does not look at the path table: an accepted command's file name passes
  `MM_VerifyFileName` exactly when it is under a table path (`AcceptedNameExact`), and the name `x` is
  accepted by the one and rejected by the other (`AcceptedNameRejected`).
* The comment beside the decoder's memory type reads 1 as RAM and 2 as EEPROM, but the decoder takes
  the first byte modulo two plus one, so no input is decoded to the type its first byte names
  (`FirstByteIsNotMemType`). The seeds the Makefile names `valid_ram` and `valid_eeprom` decode to the
  other type, the seed `max_size` to a load of one byte, and the simulation rejects all three
  (`SeedsAreRejected`).
* `MM_ALIGN_TO_BOUNDARY` with a boundary of an unsigned type at least as wide as `int` but narrower
  than the address erases the high part of the address (`NarrowBoundaryExact`, with
  `MixedWidthExamples` for a 64-bit address and a 32-bit boundary). A boundary narrower than `int` is
  promoted and does no such harm (`PromotedBoundaryExact`).
* The result of `CFS_SAFE_STRNCAT` fits in `size` bytes exactly when the string already there did;
  otherwise the unsigned count `size - strlen(dst) - 1` wraps and nothing is cut off (`AppendExact`,
  `SafeStrNCat`, with `AppendOverruns` as an instance). The one call in the source, on a path of at most
  17 characters in a buffer of 64, never meets that case (`SuffixFits`).
* A null command and a command of the wrong size give the same code, -2 (`NullIsNotDistinguished`).
* `MM_ALIGN_TO_BOUNDARY` takes any boundary, but only powers of two work: any other one fails at address
  1 already (`BoundaryExact`, and `BoundaryThreeFails` for 3).

## Model

| member | source | states |
|---|---|---|
| Crc32.CalculateCRC32With | src/common/utils.c:147-168 | the byte loop over a given table computes `Crc` of the buffer; null data or no bytes give back the initial value |
| Crc32.CalculateCRC32 | src/common/utils.c:147-168 | the same with the table as shipped: sixteen literals and zeros |
| Crc32.CalculateCRC | src/common/utils.c:173-180 | null arguments give OS_INVALID_POINTER and leave the result alone; otherwise the CRC from all ones is stored |
| Crc32.CompleteTableIsComplete | src/common/utils.c:156-161 | the generated table holds, at every index below 256, eight bit steps of the polynomial from that index |
| Crc32.ShippedPrefixIsRight | src/common/utils.c:156-161 | the sixteen literals are the first sixteen entries of the complete table |
| Crc32.TableStepIsShift | src/common/utils.c:163-165 | with the complete table, one turn of the loop is: add the byte, then eight bit steps |
| Crc32.TableRefinesBitSerial | src/common/utils.c:156-168 | for every buffer and initial value the table loop equals the bit-serial shift-and-xor register |
| Crc32.Streaming | src/common/utils.c:147-168 | for any table and any split, the CRC of the whole is the CRC of the second part started from that of the first |
| Gf2Register.FeedInjective | src/common/utils.c:163-165 | two registers agree after a common stream exactly when they agreed before it |
| Gf2Register.ShiftInvertible | src/common/utils.c:163-165 | every register is reached by a given number of bit steps from exactly one register |
| Gf2Register.WindowInjective | src/common/utils.c:163-165 | two streams of equal length up to 32 bits lead from one register to the same register exactly when they are equal |
| CrcPolynomial.RegisterIsRemainder | src/common/utils.c:163-165 | the register is the remainder, by textbook long division over GF(2), of the message times x^32 with the initial value added to its leading coefficients |
| Crc32Theory.CrcIsPolynomialRemainder | src/common/utils.c:147-168 | the same for the table loop over a byte buffer |
| Crc32Theory.Linear | src/common/utils.c:163-165 | CRC(x xor y, i xor j) = CRC(x, i) xor CRC(y, j) for equal-length buffers and the complete table |
| Crc32Theory.BitBurstDetected | src/common/utils.c:147-168 | streams that differ inside one window of at most 32 bits leave different registers |
| Crc32Theory.BurstDetected | src/common/utils.c:147-168 | different equal-length buffers whose bits agree outside 32 consecutive positions, byte-aligned or not, have different CRCs |
| Crc32Theory.WindowDetected | src/common/utils.c:147-168 | a change confined to at most four consecutive bytes, anywhere, changes the CRC; no change keeps it |
| Period.ReturnsExactly | src/common/utils.c:163-165 | n bit steps take the word 1 back to itself exactly when n is a multiple of 2^32 - 1 |
| Period.PeriodExact | src/common/utils.c:163-165 | n bit steps change no register at all exactly when n is a multiple of 2^32 - 1 |
| TwoBits.TwoBitsExact | src/common/utils.c:163-165 | flipping two bits of a stream leaves the register as it was exactly when their distance is a multiple of 2^32 - 1 |
| TwoBits.TwoBitErrorsExact | src/common/utils.c:147-168 | buffers that differ in exactly two bits have the same CRC exactly when those are a multiple of 2^32 - 1 apart |
| TwoBits.TwoBitErrorsDetected | src/common/utils.c:147-168 | in buffers of at most 2^32 - 1 bits every error of two bits changes the CRC |
| Crc32Theory.AppendedCrcCancels | src/common/utils.c:156-165 | for any table whose first entry is zero, appending the CRC's four little-endian bytes drives the CRC to zero |
| Crc32Theory.SuffixIsUnique | src/common/utils.c:147-168 | with the complete table, for every message, start value and 32-bit target exactly one four-byte suffix takes the CRC to the target |
| Crc32Theory.ResidueIsUnique | src/common/utils.c:156-165 | with the complete table, four appended bytes drive the CRC to zero exactly when they are the CRC's little-endian bytes |
| Crc32Theory.ComplementIsRfc1952 | src/common/utils.c:173-180 | complementing what MM_CalculateCRC computes with the complete table gives the CRC of section 8 of RFC 1952; without the complement it never does |
| Crc32Theory.Rfc1952Streaming | src/common/utils.c:147-168 | the loop with the complete table, complemented before and after, is the running update of RFC 1952 from any running value, and may be applied piece by piece |
| ShippedTable.ShippedStepExact | src/common/utils.c:156-165 | one turn with the shipped table is right exactly when the index looked up is below sixteen |
| ShippedTable.ShippedIsIntended | src/common/utils.c:156-168 | the shipped loop computes the intended CRC of another buffer: the given one with the missed indices added to it |
| ShippedTable.ShippedSplits | src/common/utils.c:156-168 | the shipped value is the intended value plus the intended CRC of the missed indices, the start value being shared between the two in any way |
| ShippedTable.ShippedExact | src/common/utils.c:156-168 | for every buffer and start value, the value returned is right exactly when the intended CRC of the missed indices from zero is zero |
| ShippedTable.ShippedWindowExact | src/common/utils.c:156-168 | if the shipped run misses only within four consecutive bytes, the value returned is right exactly when it misses nothing |
| ShippedTable.OneMissIsFatal | src/common/utils.c:156-168 | a run with exactly one miss returns a wrong value |
| ShippedTable.ShippedShortExact | src/common/utils.c:156-168 | for at most four bytes, the value returned is right exactly when no byte of the shipped run looks up an index of sixteen or more |
| ShippedTable.ShippedRunExact | src/common/utils.c:156-168 | the shipped loop agrees with the complete CRC on every prefix of a buffer exactly when no byte looks up an index of sixteen or more; `ShippedExact` is the statement about the value returned |
| ShippedTable.ShippedFirstByteExact | src/common/utils.c:173-180 | for a one-byte buffer and the all-ones start, the shipped result is right exactly when the byte is at least 0xF0 |
| ShippedTable.ShippedReconverges | src/common/utils.c:156-168 | a concrete five-byte buffer on which the shipped loop leaves the complete CRC and meets it again |
| ShippedTable.ShippedStaysZero | src/common/utils.c:156-168 | from a zero start, the shipped CRC of every buffer of bytes of 0x10 and above is zero |
| ShippedTable.ShippedIsBlind | src/common/utils.c:156-180 | as shipped, MM_CalculateCRC gives zero for every buffer of at least four bytes between 0x10 and 0xEF |
| ShippedTable.CheckValue | src/common/utils.c:173-180 | of the digits 1 to 9 the complete table gives the complement of 0xCBF43926 and the table as shipped zero |
| ShippedTable.ShippedLinearExact | src/common/utils.c:156-168 | for equal-length buffers and any start values, the shipped CRC is linear on them exactly when the intended CRC of the difference between what the three runs miss is zero |
| ShippedTable.EntryLinearExact | src/common/utils.c:156-161 | the shipped table is linear at two indices exactly when both are below 16, one is zero, they are equal, or both and their sum are at least 16 |
| ShippedTable.ShippedStepLinearExact | src/common/utils.c:163-165 | one turn of the shipped loop is linear exactly when the shipped table is at the two indices looked up |
| ShippedTable.ShippedNotLinear | src/common/utils.c:156-165 | a concrete pair of one-byte buffers on which linearity fails for the shipped table |
| CTypes.LittleEndianRoundTrip | src/harnesses/mm_load/Makefile:130 | writing a number little-endian in enough bytes and reading it back gives the number |
| CTypes.FourByteWeights | src/harnesses/mm_load/mm_load_harness.c:94-106 | in a four-byte word the first byte has weight 1 and the last 2^24 |
| CTypes.EightByteWeights | src/harnesses/mm_load/mm_load_harness.c:128-130 | in an eight-byte word the last four bytes weigh 2^32 times as much |
| CTypes.AndLowMask | src/harnesses/mm_load/mm_load_harness.c:133 | masking with 2^k - 1 is the remainder modulo 2^k |
| CTypes.AndHighMask | src/common/mm_types.h:152-153 | masking with the w-bit complement of 2^k - 1 clears the low k bits and all bits from w up |
| Alignment.AlignExact | src/common/mm_types.h:152-153 | for every mix of operand types, with C's promotion to int, the macro yields the least multiple not below the address exactly when the sum fits in the width of the mask |
| Alignment.BoundaryExact | src/common/mm_types.h:152-153 | for every boundary and mix of operand types, the macro is right at address 1 exactly when the boundary is a power of two |
| Alignment.BoundaryThreeFails | src/common/mm_types.h:152-153 | aligning 1 to 3 gives 1 |
| Alignment.AlignOverflow | src/common/mm_types.h:152-153 | with operands of one width, an overflowing sum gives zero |
| Alignment.PromotedAlwaysRight | src/common/mm_types.h:152-153 | with two operands narrower than int the result is always the least multiple |
| Alignment.PromotedBoundaryExact | src/common/mm_types.h:152-153 | with a boundary narrower than int the result is right exactly when the sum fits in the address's own type |
| Alignment.LeastMultipleIsLeast | src/common/mm_types.h:152-153 | a value meeting the description used above is at most every multiple of the boundary from the address up |
| Alignment.AlignIdempotentAndMonotone | src/common/mm_types.h:152-153 | where the sums fit, rounding up is monotone and does nothing the second time, for every mix of operand types |
| Alignment.AlignFixes | src/common/mm_types.h:152-153 | the macro leaves an address alone exactly when it is a multiple of the boundary and fits in the width of the mask |
| Alignment.NarrowBoundaryExact | src/common/mm_types.h:152-153 | with an unsigned int or wider boundary narrower than the address the result is right exactly when the sum fits in the boundary's type |
| Alignment.MixedWidthExamples | src/common/mm_types.h:152-153 | a 64-bit 0x1_0000_0001 with a 32-bit boundary 4 gives 4; the same with a 64-bit boundary, 0x1234 with an 8-bit boundary and 250 to 16 in 8 bits are right |
| Alignment.IsValidAlignment | src/common/utils.c:124-142 | accepts exactly the addresses divisible by 1, 2 or 4 for sizes 8, 16 and 32, and no other size |
| Alignment.AcceptedSizes | src/common/utils.c:124-142 | sizes 8, 16 and 32 with an address divisible by 1, 2 and 4, and no other size at any address |
| Alignment.AlignmentAgreesWithMacro | src/common/utils.c:124-142 | for boundaries 1, 2 and 4, of any type that is promoted to int or as wide as the address, the check accepts exactly the addresses the macro leaves alone |
| CfsConfig.SymbolFacts | src/common/cfs_config.h:86-122 | there are 24 symbols of 10 to 19 characters without NUL, so none is truncated in SymName |
| CfsConfig.SymbolsDistinct | src/common/cfs_config.h:86-122 | no symbol occurs twice in the table |
| CfsConfig.PathFacts | src/common/cfs_config.h:125-143 | there are 15 paths of 5 to 17 characters, absolute, ending in a slash, without dots or backslashes |
| CfsConfig.PathsPrefixFree | src/common/cfs_config.h:125-141 | two table paths that are both prefixes of one name are the same path |
| CString.StrLen | src/common/utils.c:92 | the length of the C string in a terminated buffer |
| CString.StrStr | src/common/utils.c:99 | the first occurrence in the C string, or -1 exactly when there is none |
| CString.StrNCmp | src/common/utils.c:107 | zero exactly when the first n characters agree |
| CString.StrNCpy | src/harnesses/mm_load/mm_load_harness.c:28 | copies at most n characters, pads with NULs to n, leaves the rest of the buffer alone |
| CString.StrNCat | src/harnesses/mm_load/mm_load_harness.c:35 | appends at most n characters and a NUL, leaves the rest of the buffer alone |
| CString.SafeStrNCpy | src/harnesses/mm_load/mm_load_harness.c:26-31 | nothing for a null pointer or size 0; otherwise the buffer is terminated and holds what fits in size bytes |
| CString.SafeStrNCat | src/harnesses/mm_load/mm_load_harness.c:33-37 | nothing for a null pointer or size 0; otherwise the old string and the first characters of the other, terminated, which fit in size bytes exactly when the old string did |
| CString.AppendExact | src/harnesses/mm_load/mm_load_harness.c:33-37 | the text added is cut to fit when the old string is shorter than size, and is not cut at all otherwise |
| CString.AppendOverruns | src/harnesses/mm_load/mm_load_harness.c:33-37 | "abcd" in a six-byte buffer, size 2 and source "x" give "abcdx" |
| LoadCommand.SuffixFits | src/harnesses/mm_load/mm_load_harness.c:147-155 | behind every table path the suffix fits and is appended whole |
| FileName.MatchesTablePath | src/common/utils.c:105-111 | true exactly when some table path is a prefix of the name |
| FileName.VerifyFileName | src/common/utils.c:87-119 | the status for null, and for every name: accepted exactly when it is 1 to 63 characters, free of both traversal substrings and under a table path |
| FileName.TraversalExact | src/common/utils.c:98-102 | the substring tests find exactly two dots before a slash or backslash |
| FileName.AcceptedUncut | src/common/utils.c:92-96 | a name that passes the other tests is accepted exactly when its copy into a 64-byte buffer is not cut |
| FileName.LongestName | src/common/utils.c:92-96 | a 63-character name is accepted and a 64-character one rejected |
| FileName.ComponentsOfConcat | src/common/utils.c:98-111 | the components of two texts joined by a separator are those of the first followed by those of the second |
| FileName.InnerComponentsSafe | src/common/utils.c:98-102 | a name without "../" and "..\" has no ".." component other than its last, whether or not a backslash separates |
| FileName.TablePathResolves | src/common/cfs_config.h:125-141 | every table path resolves to a proper directory |
| FileName.AcceptedStaysUnder | src/common/utils.c:92-118 | an accepted name resolves under the table path it matched exactly when its last component is not ".." or an earlier one names something |
| FileName.TrailingDotsEscape | src/common/utils.c:92-118 | "/ram/.." is accepted and does not stay under "/ram/" |
| MemoryMap.IsValidMemoryAddress | src/common/cfs_config.h:173-183 | the scan answers true exactly when some region matches |
| MemoryMap.ValidateMemoryRegion | src/common/utils.c:258-285 | both scans together give the verdict on the first matching region |
| MemoryMap.AcceptanceExact | src/common/cfs_config.h:173-183 | for every range: non-empty without wrap, accepted exactly when every byte lies in one region of the type; empty, when it touches a region of the type; wrapping, which is never contained, when its wrapped end is low enough |
| MemoryMap.AddressesHeld | src/common/cfs_config.h:155-168 | the addresses RAM, EEPROM and flash hold, as numbers |
| MemoryMap.RangesHeld | src/common/cfs_config.h:155-183 | the ranges that lie in one region of each type, as numbers |
| MemoryMap.BasesStartRegions | src/common/cfs_config.h:77-82 | both default bases are the first address of a region of their type |
| MemoryMap.EmptyRangePastEnd | src/common/cfs_config.h:173-183 | an empty range at 0x68000000 is accepted although no region holds that address |
| MemoryMap.WrappingRangeAccepted | src/common/cfs_config.h:173-183 | a concrete wrapping range that is accepted and lies in no region |
| MemoryMap.RegionsDisjoint | src/common/cfs_config.h:155-168 | the regions of the table are non-empty and pairwise disjoint |
| MemoryMap.MatchIsUnique | src/common/utils.c:269-280 | at most one region matches a non-empty range that does not wrap |
| MemoryMap.VerdictExact | src/common/utils.c:258-285 | for every range the three verdicts, and for non-empty ranges that do not wrap the exact containment and writability that gives each |
| MemoryMap.VerdictInNumbers | src/common/utils.c:258-285 | the verdict as -3, -10 or 0, flash being the one type that cannot be written |
| MemoryMap.WriteAccessByType | src/common/utils.c:267-282 | asking for write access changes the verdict exactly for accepted flash ranges |
| MemoryMap.SubRangeInherits | src/common/cfs_config.h:173-183 | a non-empty part of an accepted range matches the same region |
| MemoryMap.SpanningRangeRejected | src/common/cfs_config.h:173-183 | a range that starts in one region and ends in another is rejected, adjacent or not |
| CommandHeader.SetMsgId | src/common/cfe_mock.h:84-88 | stores the low 16 bits of the message id and nothing else; does nothing to a null message |
| CommandHeader.GetMsgId | src/common/cfe_mock.h:90-94 | reads the one 16-bit id that would store the header's stream id; either pointer null leaves the destination alone |
| CommandHeader.MsgIdUnique | src/common/cfe_mock.h:84-94 | two 16-bit message ids are stored alike exactly when they are equal |
| CommandHeader.SetSequenceCount | src/common/cfe_mock.h:96-100 | replaces the whole sequence word, flag bits included; does nothing to a null message |
| CommandHeader.SetSegmentationFlag | src/common/cfe_mock.h:102-106 | replaces the two top bits of the sequence word; does nothing to a null message |
| CommandHeader.SetSize | src/common/cfe_mock.h:108-112 | stores the length and nothing else; does nothing to a null message |
| CommandHeader.InitPacketHeader | src/common/utils.c:199-215 | the header after initialisation, whatever it held before; does nothing to a null message |
| CommandHeader.FlagFields | src/common/cfe_mock.h:102-106 | the flag lands in the top two bits and the 14 count bits are kept |
| CommandHeader.MsgIdRoundTrip | src/common/cfe_mock.h:84-94 | a message id survives set and get exactly when it fits in 16 bits |
| SymbolAddress.SymbolLookup | src/common/cfe_mock.h:163-171 | the mock address of a symbol, in 64-bit arithmetic; OS_INVALID_POINTER for either null pointer |
| SymbolAddress.ResolveSymAddr | src/common/utils.c:29-50 | OS_INVALID_POINTER for either null pointer, which leaves the result alone; otherwise the symbol's address plus the offset, or the offset alone for an empty name |
| SymbolAddress.OffsetAdds | src/common/utils.c:34-46 | adding to the offset adds the same to the address, modulo 2^64, with or without a name |
| SymbolAddress.NamedAddress | src/common/cfe_mock.h:163-171 | without an offset, a name of n characters is at 0x20000000 + 4096 n modulo 2^64 and no name at zero |
| SymbolAddress.AppDataAddress | src/common/utils.c:34-46 | "MM_AppData" with offset 0x10 is at 0x2000A010 |
| SymbolAddress.LookupAgreesExactly | src/common/utils.c:34-46 | resolving from another RAM base agrees with the lookup exactly for empty names or base 0x20000000 |
| LoadCommand.LoadMemFromFileCmd.Zeroed | src/harnesses/mm_load/mm_load_harness.c:64-69 | a fresh command with every field and buffer zero |
| LoadCommand.SetDestination | src/harnesses/mm_load/mm_load_harness.c:110-140 | the symbol or clamped offset and the new cursor, for input of any length |
| LoadCommand.SetFileName | src/harnesses/mm_load/mm_load_harness.c:142-158 | the padded file name, for input of any length |
| LoadCommand.FillFromInput | src/harnesses/mm_load/mm_load_harness.c:71-158 | every field of the command is what `Decode` gives, defaults included |
| LoadCommand.ConstructPacket | src/harnesses/mm_load/mm_load_harness.c:57-164 | null exactly for input below 120 bytes or a failed allocation, otherwise a fresh command with the decoded fields |
| LoadCommand.LoadMemFromFileSimulation | src/harnesses/mm_load/mm_load_harness.c:170-248 | the status is the verdict of the chain of checks, in order |
| LoadTheory.NoDefaultTaken | src/harnesses/mm_load/mm_load_harness.c:82-158 | with 12 bytes (symbolic) or 19 (direct) every field is read from its fixed position and no default applies |
| LoadTheory.PrefixDetermines | src/harnesses/mm_load/mm_load_harness.c:60-158 | inputs that agree on those 12 or 19 bytes give equal commands and equal statuses |
| LoadTheory.DecodeEncode | src/harnesses/mm_load/Makefile:126-159 | every legal command is decoded from its seed-layout input, whatever follows it |
| LoadTheory.ImageExact | src/harnesses/mm_load/mm_load_harness.c:79-158 | the decoder produces exactly the legal commands |
| LoadTheory.PacketInjective | src/harnesses/mm_load/mm_load_harness.c:79-158 | a legal command has only one set of legal fields |
| LoadTheory.KernelExact | src/harnesses/mm_load/mm_load_harness.c:79-158 | two inputs of at least 120 bytes give the same command exactly when they agree on what the decoder's remainders leave of memory type, size, CRC, destination and path |
| LoadOutcome.ConstructedIsCanonical | src/harnesses/mm_load/mm_load_harness.c:115-158 | both strings of a constructed command are terminated and untruncated, and MM_VerifyFileName accepts its file name, which resolves under its path |
| LoadOutcome.OutcomeExact | src/harnesses/mm_load/mm_load_harness.c:178-247 | the exact status of every input of at least 120 bytes, for symbolic and for direct destinations |
| LoadOutcome.LegalOutcome | src/harnesses/mm_load/mm_load_harness.c:178-247 | the same in terms of the fields of every legal command |
| LoadOutcome.EachOutcomeOccurs | src/harnesses/mm_load/mm_load_harness.c:178-247 | a legal command for each of the three outcomes |
| LoadOutcome.AcceptedExactly | src/harnesses/mm_load/mm_load_harness.c:178-247 | an arbitrary command is accepted exactly when type, size, name and alignment pass and its target lies in one region of its type or wraps; its file name then has no ".." component but possibly the last |
| LoadOutcome.WrappingCommandAccepted | src/harnesses/mm_load/mm_load_harness.c:209-234 | a command of five bytes at 2^64 - 4 is accepted and lies in no region |
| LoadOutcome.AcceptedIsContained | src/harnesses/mm_load/mm_load_harness.c:209-234 | for an arbitrary accepted command the target lies in one region of its type exactly when its end does not wrap |
| LoadOutcome.ConstructedIsContained | src/harnesses/mm_load/mm_load_harness.c:128-133 | what an accepted constructed command would load never wraps and lies in one region of its memory type |
| LoadOutcome.AcceptedByUtilities | src/common/utils.c:29-50 | for every accepted command MM_ResolveSymAddr gives the same address and CFS_ValidateMemoryRegion grants write access |
| LoadOutcome.AcceptedNameExact | src/harnesses/mm_load/mm_load_harness.c:197-207 | MM_VerifyFileName accepts the file name of an accepted command exactly when it is under a table path |
| LoadOutcome.AcceptedNameRejected | src/harnesses/mm_load/mm_load_harness.c:197-207 | an accepted command with the file name "x", which MM_VerifyFileName rejects |
| LoadOutcome.TestOneInput | src/harnesses/mm_load/mm_load_harness.c:253-273 | the entry point returns 0 on every input and for a failed allocation, and the status it drops is one of three |
| LoadOutcome.FirstByteIsNotMemType | src/harnesses/mm_load/mm_load_harness.c:82-85 | no non-empty input is decoded to the memory type its first byte names |
| LoadInNumbers.DecodeInNumbers | src/harnesses/mm_load/mm_load_harness.c:71-158 | every field of the command decoded from an input of any length, from its bytes, with all defaults and bases as numbers |
| LoadInNumbers.FieldsInNumbers | src/harnesses/mm_load/mm_load_harness.c:79-158 | the same for inputs of at least 120 bytes, where every field is in its place |
| LoadInNumbers.PathChoices | src/common/cfs_config.h:125-141 | the path each choice of 0 to 4 stands for (`OtherPathChoices` has the rest) |
| LoadInNumbers.OtherPathChoices | src/common/cfs_config.h:125-141 | the path each choice of 5 to 14 stands for |
| LoadInNumbers.CoreSymbols | src/common/cfs_config.h:86-122 | the symbols of choices 0 to 2 |
| LoadInNumbers.MoreCoreSymbols | src/common/cfs_config.h:86-122 | the symbols of choices 3 and 4 |
| LoadInNumbers.MemoryManagerSymbols | src/common/cfs_config.h:86-122 | the symbols of choices 5 to 8 |
| LoadInNumbers.ApplicationSymbols | src/common/cfs_config.h:86-122 | the symbols of choices 9 to 16 |
| LoadInNumbers.PlatformSymbols | src/common/cfs_config.h:86-122 | the symbols of choices 17 to 23 |
| LoadInNumbers.ChoicesWrap | src/harnesses/mm_load/mm_load_harness.c:117-145 | a choice byte counts modulo 24 symbols or 15 paths |
| LoadInNumbers.DirectInNumbers | src/harnesses/mm_load/mm_load_harness.c:178-247 | the status of every input with a direct destination, by offset from the base of its type, as 0, -3 or -9 |
| LoadInNumbers.BaseInNumbers | src/harnesses/mm_load/mm_load_harness.c:128-133 | at offset zero the address is 0x20000000 for RAM and 0x08080000 for EEPROM, and the load is accepted exactly when it fits in 0x80000 bytes |
| LoadInNumbers.SymbolicInNumbers | src/harnesses/mm_load/mm_load_harness.c:178-247 | the status of every input with a symbolic destination, as 0 or -3 |
| LoadInNumbers.StatusExact | src/harnesses/mm_load/mm_load_harness.c:178-247 | for every command whatsoever, each of the codes -1, -2, -4, -3, -9 and 0 is returned exactly under its condition on type, size, name, target range and alignment, in numbers |
| LoadInNumbers.EachStatusOccurs | src/harnesses/mm_load/mm_load_harness.c:178-247 | a command for each code, and the size limits from both sides |
| LoadInNumbers.NullIsNotDistinguished | src/harnesses/mm_load/mm_load_harness.c:171-188 | a null command and a command of the wrong size give the same code, -2 |
| LoadInNumbers.ValidRamInFull | src/harnesses/mm_load/Makefile:126-135 | the whole command the seed valid_ram decodes to |
| LoadInNumbers.ValidEepromInFull | src/harnesses/mm_load/Makefile:138-148 | the whole command the seed valid_eeprom decodes to |
| LoadInNumbers.MaxSizeInFull | src/harnesses/mm_load/Makefile:151-160 | the whole command the seed max_size decodes to |
| LoadInNumbers.SeedsAreRejected | src/harnesses/mm_load/Makefile:122-161 | the three seeds, byte by byte, are for the memory type they are not named after (the largest for one byte) and are all rejected with -3 |
| HexDump.HexDump | src/common/utils.c:220-253 | the printed text, line by line, for any prefix; nothing for null or empty data |
| HexDump.OffsetRoundTrip | src/common/utils.c:228-232 | the zero-padded upper-case offset reads back as the offset, also beyond four digits |
| HexDump.LineLayout | src/common/utils.c:227-252 | where a line has its prefix, offset (four digits below 0x10000), colon, sixteen cells, ASCII column and newline, and what each holds |
| HexDump.SampleDump | src/common/utils.c:220-253 | one dump of two bytes, character by character |
| HexDump.ReadDump | src/common/utils.c:220-253 | reading the hex columns of a dump gives back exactly the bytes and their number |
| HexDump.DumpInjective | src/common/utils.c:220-253 | for a fixed prefix two byte arrays have the same dump exactly when they are equal |
| FuzzStats.Stats.Init | src/common/utils.c:342-345 | an empty history and zero counters |
| FuzzStats.Stats.Update | src/common/utils.c:347-366 | the history grows by the result and every counter still counts it modulo 2^64 |
| FuzzStats.CountsAddUp | src/common/utils.c:347-366 | every result is counted by exactly one of the four counters or by none |
| FuzzStats.RunExact | src/common/utils.c:342-366 | over fewer than 2^64 updates every counter is exact and the total less the four counters is the number of uncounted results |

## Left out

- Logging, time stamps, log files and the printed statistics report: input and output only.
- `CFS_GenerateRandomData`: depends on the C library's `rand`.
- Reading the file and writing memory: the simulation does neither.
- Event, send, receive, function-code and range-validation mocks: they ignore their arguments.
- `MM_VerifyMemType`, `MM_VerifyDataSize`: single switches that no other part of the pipeline calls.
- Commands whose strings are not terminated, on which the source's behaviour is undefined.
- The names and the executable flags of the memory regions: nothing reads them.
- Peek, poke, dump and fill commands: only their structures exist.
- Platform variants other than the default, except for the RAM base in `LookupAgreesExactly`.
- `CFS_GetFuzzStats`: sets an elapsed time from the clock; the start time is a parameter of `Stats.Init`.
- LoadCommand.ConstructPacket: the input is a sequence of bytes rather than a buffer that could alias the packet.
- HexDump.HexDump: the data are read into a sequence before printing, and the offset is unbounded, so buffers within 16 bytes of 2^64, on which the C loop counter would wrap, are not captured.
