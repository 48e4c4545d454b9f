# Verification of PulseUnlock

A Dafny model of the parts of PulseUnlock whose correctness is not evident from reading one function, with proofs of
what they promise. Each component is modelled the way its C++ code works, on the same branches and constants, and
proved against a specification of its own; the main results then speak about whole runs, round trips and all inputs.

- **QR symbols** (`Bytes`, `GaloisField`, `PowersOfTwo`, `ReedSolomon`, `PolynomialDivision`, `CodeDistance`,
  `QrTables`, `Interleaving`, `BitStrings`, `ZigZag`, `QrGrid`, `QrPatterns`, `QrRoom`, `QrMasks`, `QrFormat`,
  `QrFormatReader`, `QrColours`, `QrBch`, `QrStandard`, `QrPenalty`, `QrPenaltyLaws`, `QrSymbol`, `QrSegments`, `QrEncoder`, `QrReader`, `QrText`). From the field GF(2^8)
  modulo 0x11D to one closing statement: a text that some version holds becomes a matrix from which a reader that is
  given nothing but that matrix gets the text back (`QrText.EncodeText`). On the way: the shift register is polynomial
  division, code words with d check bytes differ in more than d places, the zigzag scan is a permutation, the function
  patterns leave exactly the computed number of modules free, and trying all masks is the same as asking for the best
  one.
- **Concurrent unlock** (`UnlockResults`, `UnlockStatus`, `UnlockRun`, `UnlockProtocol`, `UnlockConnections`,
  `UnlockRace`). Threads are state machines over atomic steps under an arbitrary scheduler, spurious wake-ups included.
  Invariants hold over every run; progress is proved with a rank. The classes beside them carry the code of the locked
  sections, and lemmas tie the steps to these methods.
- **Packets over streams** (`Packets`, `PacketFraming`, `PacketStream`). A stream is a class with an arbitrary plan of
  partial, empty and failing transfers, or an arbitrary list of web socket messages.
- **Strings and PAM configuration** (`StringSearch`, `Erasing`, `ShellWords`, `PairingCode`, `Hex`, `PamFiles`,
  `PamConfig`).
- **Credential and crypto envelope** (`UnlockCredential`, `CryptEnvelope`). The cipher is a parameter with the law that
  decryption undoes encryption; buffers are arrays of 2048 bytes.

`dafny verify dfyconfig.toml` checks the whole project.

## Where the code does less than one might expect

- `StringUtils::Replace` with an empty replacement skips the character after a match, so the same search string twice in
  a row loses only its first occurrence (`Erasing.TouchingMatchStays`). When no two matches touch it removes them all
  (`ErasedIsReplaced`); for search strings that do not overlap themselves exactly then (`ErasedExactly`); for others the
  result can be right although matches touch (`OverlapsCanMakeUp`).
- `AddEntryToFile` looks for the header anywhere but inserts only after a line equal to it: when the header only ends a
  longer line, the entry is not added (`PamFiles.IndentedHeader`; the exact condition is in `EntryGetsIn`).
- The header matcher of `ReadPacket` falls back to zero on a mismatch without looking at that byte again: garbage that
  leaves its count above zero hides the header behind it (`PacketFraming.HeaderAfterGarbage`, both directions). One byte
  is enough (`FirstByteHidesHeader`).
- `WritePacket` cuts the length to sixteen bits: payloads of 0 bytes or more than 65535 do not come back
  (`PacketFraming.FrameReadBack`, both directions).
- The empty packet and the empty string are sealed but not opened again (`CryptEnvelope.PacketRoundTrip`,
  `StringRoundTrip`, both directions).
- In `BaseUnlockConnection` a stored success can be replaced by an error of another connection, although its response
  stays committed, and runs that do so exist from the start (`UnlockRace.RaceLosesSuccess`, `RaceHappens`). Exactly the
  runs with such a step lose it (`UnlockConnections.SuccessIsFinalUnless`).
- The sequence numbers of the credential are 64 bits wide; results that are a multiple of 2^64 apart share a number
  (`UnlockCredential.ExpiryAlters`).

## Model

| member | source | states |
|---|---|---|
| GaloisField.ReedSolomonMultiply | deps/qrcodegen.cpp:739-748 | the peasant loop, high bit first with reduction by 0x11D, computes the product defined from the low bit up by repeated doubling; the assertion that nothing is left above a byte holds |
| GaloisField.AddLaws | deps/qrcodegen.cpp:739-748 | exclusive or is a commutative group in which every element is its own inverse |
| GaloisField.Distributes | deps/qrcodegen.cpp:739-748 | multiplication distributes over addition on both sides |
| GaloisField.MulCommutes | deps/qrcodegen.cpp:739-748 | multiplication commutes |
| GaloisField.MulAssociates | deps/qrcodegen.cpp:739-748 | multiplication associates |
| GaloisField.MulByOne | deps/qrcodegen.cpp:739-748 | 1 is the unit and 0 annihilates |
| PowersOfTwo.PowersDiffer | deps/qrcodegen.cpp:707-721 | the 255 powers of 2 below 2^255 are pairwise different, so the roots of every divisor are distinct |
| PowersOfTwo.Logarithm | deps/qrcodegen.cpp:707-721 | every nonzero byte is a power of 2 |
| PowersOfTwo.NoZeroDivisors | deps/qrcodegen.cpp:739-748 | a product of nonzero bytes is nonzero: the bytes are a field |
| ReedSolomon.MultiplyByLinear | deps/qrcodegen.cpp:710-720 | one pass of the in-place loop turns the polynomial at the low end of the array into its product with x - root |
| ReedSolomon.ReedSolomonComputeDivisor | deps/qrcodegen.cpp:701-723 | degrees outside 1..255 are refused, exactly; otherwise a leading 1 before the result gives the product of all x - 2^i for i below the degree |
| ReedSolomon.GeneratorRoots | deps/qrcodegen.cpp:701-723 | that product vanishes at 2^0 .. 2^(d-1) |
| ReedSolomon.ReedSolomonComputeRemainder | deps/qrcodegen.cpp:726-736 | the shift register loop computes the remainder that Division and DivisionIsUnique prove to be that of polynomial division |
| ReedSolomon.RemainderAtRoot | deps/qrcodegen.cpp:726-736 | at every root of the divisor the remainder has the value of the data times x^d |
| PolynomialDivision.EvalTimes | deps/qrcodegen.cpp:726-736 | the product of two polynomials that the division theorems use has at every point the product of their values |
| PolynomialDivision.Division | deps/qrcodegen.cpp:726-736 | for every divisor with leading 1 the data times x^d is the quotient times the divisor plus the computed remainder |
| PolynomialDivision.DivisionIsUnique | deps/qrcodegen.cpp:726-736 | no other quotient and remainder of these lengths do that |
| ReedSolomon.CodeWordVanishes | deps/qrcodegen.cpp:701-736 | data followed by its remainder vanishes at 2^0 .. 2^(d-1), for every length and degree |
| CodeDistance.PowerSumsDoNotVanish | deps/qrcodegen.cpp:701-749 | as many power sums as there are distinct locators cannot all vanish |
| CodeDistance.VanishingWordIsHeavy | deps/qrcodegen.cpp:701-749 | a nonzero word of at most 255 bytes that vanishes at d consecutive powers has more than d nonzero bytes |
| CodeDistance.CodeWordsFarApart | deps/qrcodegen.cpp:701-749 | two different code words with d check bytes differ in more than d places |
| CodeDistance.DamageIsRepairable | deps/qrcodegen.cpp:701-749 | a received word within d/2 changes of a code word is within d/2 changes of no other |
| CodeDistance.CheckBytesUnique | deps/qrcodegen.cpp:726-736 | check bytes make a code word exactly when they are the computed remainder |
| QrTables.TablesSound | deps/qrcodegen.cpp:679-698 | for each of the 160 pairs of version and level the tables give blocks of at most 255 codewords with room for data before the check codewords |
| QrTables.RawDataRange | deps/qrcodegen.cpp:679-691 | the assertion that the modules left for data are between 208 and 29648 holds at every version |
| QrStandard.CapacityIsStandard | deps/qrcodegen.cpp:694-698 | for all 160 pairs of version and level the tables leave the number of data codewords that Table 7 of ISO/IEC 18004 gives |
| QrStandard.PositionsAreStandard | deps/qrcodegen.cpp:664-676 | the formula for alignment patterns gives the positions of Annex E of ISO/IEC 18004 at every version |
| QrTables.HigherLevelHoldsLess | deps/qrcodegen.cpp:694-698 | at no version does a higher error correction level hold more data codewords than a lower one |
| Interleaving.SizesAddUp | deps/qrcodegen.cpp:498-533 | the blocks use up the data exactly and the columns make up exactly the raw codewords |
| Interleaving.SplitIntoBlocks | deps/qrcodegen.cpp:510-520 | the running offset cuts the data into the blocks defined by closed-form starts, each followed by its remainder, short ones padded by one byte |
| Interleaving.InterleaveBlocks | deps/qrcodegen.cpp:522-532 | the column loop outputs exactly the raw codewords, and a reader that knows only the block sizes gets every block back, padding excepted |
| Interleaving.PlaceIs | deps/qrcodegen.cpp:522-532 | where the reader finds byte i of block j: place i * numBlocks + j, less the skipped padding bytes from the padding column on |
| Interleaving.AddEccAndInterleave | deps/qrcodegen.cpp:498-533 | data of the wrong length is refused, exactly; otherwise the reader of the result gets the blocks of the data |
| Interleaving.DataComesBack | deps/qrcodegen.cpp:498-533 | the data parts of the blocks, in order, are the data |
| Interleaving.BlocksAreCodeWords | deps/qrcodegen.cpp:513-519 | without its padding byte every block is a Reed-Solomon code word made of its data and their check bytes |
| Interleaving.ReadingLosesNothing | deps/qrcodegen.cpp:522-532 | the reader looks at every codeword: two symbols that read alike are equal, so exactly the padding is skipped |
| BitStrings.BitBuffer.AppendBits | deps/qrcodegen.cpp:822-827 | a value that does not fit its length, or a length outside 0..31, is refused and leaves the buffer alone; otherwise exactly the bits of the value are appended |
| BitStrings.FromToBits | deps/qrcodegen.cpp:822-827 | the bits of a number that fits spell that number |
| BitStrings.ToFromBits | deps/qrcodegen.cpp:822-827 | the number spelled by bits has those bits |
| BitStrings.UnpackPack | deps/qrcodegen.cpp:310-313 | packing bits into bytes and unpacking them is the identity |
| BitStrings.PackUnpack | deps/qrcodegen.cpp:310-313 | unpacking bytes and packing the bits is the identity |
| BitStrings.UnpackBit | deps/qrcodegen.cpp:550-553 | bit k of a byte string is bit 7 - k % 8 of byte k / 8, as drawCodewords addresses it |
| ZigZag.ScanVisitsEachCellOnce | deps/qrcodegen.cpp:536-560 | for every symbol size the zigzag scan visits each cell outside column 6 exactly once and no other |
| ZigZag.ScanAt | deps/qrcodegen.cpp:540-549 | the cell of every step: in the p-th pair of columns from the right edge the scan goes upwards for even and downwards for odd p, the right column before the left one |
| ZigZag.ScanStart | deps/qrcodegen.cpp:540-549 | it begins in the lower right corner |
| ZigZag.ScanIsSteady | deps/qrcodegen.cpp:540-549 | from one cell to the next it moves by at most one row |
| QrGrid.DrawnElsewhere | deps/qrcodegen.cpp:536-560 | drawing along a path leaves function modules and cells off the path alone |
| QrGrid.ReadBack | deps/qrcodegen.cpp:536-560 | reading along the path gives the bits written, then what stood in the cells left over |
| QrGrid.MaskTwice | deps/qrcodegen.cpp:563-584 | applying a mask twice is the identity |
| QrMasks.MaskIsTiled | deps/qrcodegen.cpp:563-584 | every mask inverts exactly the modules that its picture says, repeated over the whole symbol |
| QrGrid.ReaderGetsBits | deps/qrcodegen.cpp:536-584 | a reader that takes the mask off and follows the scan gets the bits drawn, whatever was written into function modules meanwhile |
| QrSymbol.QrCode.DrawCodewords | deps/qrcodegen.cpp:536-560 | the nested loops with their column jump draw the bits along the scan; the wrong number of codewords is refused, and all bits are drawn exactly when there is room |
| QrSymbol.QrCode.DrawScan | deps/qrcodegen.cpp:540-559 | the loop over column pairs makes the scan and consumes the bits in its order |
| QrSymbol.QrCode.ApplyMask | deps/qrcodegen.cpp:563-584 | inverts in place exactly the modules the mask selects outside function modules; mask numbers outside 0..7 are refused |
| QrSymbol.QrCode.SetFunctionModule | deps/qrcodegen.cpp:485-489 | one module takes its colour and is marked as function module, all others stay |
| QrSymbol.QrCode.DrawFormatBits | deps/qrcodegen.cpp:416-440 | the format modules take the bits of level and mask and become function modules, and nothing else changes |
| QrFormatReader.FormatBitsTell | deps/qrcodegen.cpp:416-423 | the format bits fit in 15 bits, as asserted, and tell level and mask: the 32 pairs have 32 different patterns |
| QrFormatReader.FormatReadBack | deps/qrcodegen.cpp:425-439 | either copy of the format information in a finished symbol gives level and mask back, at every size |
| QrFormatReader.DarkModule | deps/qrcodegen.cpp:438-440 | the module above the lower copy is dark whatever level and mask |
| QrBch.FormatIsMultiple | deps/qrcodegen.cpp:416-423 | under the fixed pattern the format bits are a multiple of the generator polynomial 0x537 with level and mask on top |
| QrBch.VersionIsMultiple | deps/qrcodegen.cpp:443-454 | the version bits are a multiple of the generator polynomial 0x1F25 with the version on top |
| QrPatterns.GetAlignmentPatternPositions | deps/qrcodegen.cpp:664-676 | the loop from the far end gives the positions of the closed formula, in order |
| QrPatterns.PositionsSpread | deps/qrcodegen.cpp:664-676 | positions grow by at least twelve, so no two alignment patterns overlap |
| QrColours.VersionBitsTell | deps/qrcodegen.cpp:443-454 | the version bits fit in 18 bits, as asserted, and their six highest are the version |
| QrColours.ReservedIs | deps/qrcodegen.cpp:387-413 | finder, timing, alignment, format and version modules together are the three corner squares, row and column 6, the alignment squares and the two version blocks |
| QrColours.PatternsLookLikePictures | deps/qrcodegen.cpp:464-482 | around every centre the colours drawn are those of the picture of a finder or alignment pattern, written out module by module |
| QrColours.TimingAlternates | deps/qrcodegen.cpp:387-392 | row and column 6 alternate, dark in every even place |
| QrColours.FinderInSymbol | deps/qrcodegen.cpp:394-396 | around the three finder centres the finished function patterns show the picture, whatever was drawn later |
| QrColours.AlignmentInSymbol | deps/qrcodegen.cpp:398-408 | around every pair of positions but the three finder corners they show the alignment picture |
| QrColours.TimingInSymbol | deps/qrcodegen.cpp:387-392 | between the corners row and column 6 alternate without a break: alignment patterns there have the colours of the timing pattern |
| QrColours.LightElsewhere | deps/qrcodegen.cpp:387-413 | modules that belong to no pattern stay light |
| QrColours.VersionReadBack | deps/qrcodegen.cpp:455-461 | either version block of a symbol gives its version back |
| QrRoom.FreeModules | deps/qrcodegen.cpp:679-691 | the modules of the zigzag scan that are no function modules are exactly as many as getNumRawDataModules computes, at every version |
| QrSymbol.QrCode.DrawFinderPattern | deps/qrcodegen.cpp:464-474 | inside the symbol the modules within four steps of the centre become function modules with the rings of a finder pattern, and nothing else changes |
| QrSymbol.QrCode.DrawAlignmentPattern | deps/qrcodegen.cpp:477-482 | the five by five modules around the centre become function modules with the ring of an alignment pattern |
| QrSymbol.QrCode.DrawAlignmentPatterns | deps/qrcodegen.cpp:398-408 | the nested loops draw each pattern but the three on finder corners |
| QrSymbol.QrCode.DrawVersion | deps/qrcodegen.cpp:443-461 | from version 7 on both blocks take the version bits, below nothing changes |
| QrSymbol.QrCode.DrawFunctionPatterns | deps/qrcodegen.cpp:387-413 | the drawing steps leave the function modules and colours given cell by cell by Reserved and FunctionPatterns; all other modules stay light |
| QrFormat.FinishedForgetsFormat | deps/qrcodegen.cpp:416-440 | a finished symbol does not depend on format modules drawn earlier |
| QrFormat.TrialUndone | deps/qrcodegen.cpp:341-350 | after a trial taking the mask off restores every module outside the format information |
| QrFormat.FinishedKeepsData | deps/qrcodegen.cpp:353-355 | outside function modules the finished symbol carries the masked modules |
| QrPenalty.RunsMakeTheLine | deps/qrcodegen.cpp:590-633 | the runs used to specify the score are the maximal runs of the line: they make it up and alternate |
| QrPenalty.ScoreLine | deps/qrcodegen.cpp:590-611 | the running counters of a row or column add L - 2 for every maximal run of length L >= 5 and 40 for every finder-like pattern, counted on the complete list of runs with its light borders |
| QrPenalty.FinderPenaltyTerminateAndCount | deps/qrcodegen.cpp:760-768 | the seven-entry history after the last run counts the patterns that end at the line's border |
| QrPenalty.FinderPenaltyCountPatterns | deps/qrcodegen.cpp:751-757 | the history counts the patterns that end with the last run of the whole list, and the assertion n <= 3 * size holds |
| QrPenalty.ImbalanceIsLeast | deps/qrcodegen.cpp:651-658 | the balance formula gives the least k >= 0 with (45-5k)% <= dark/total <= (55+5k)%, and k <= 9 |
| QrPenalty.GetPenaltyScore | deps/qrcodegen.cpp:587-661 | the loops add up the scores of all rows, columns, two by two blocks and the balance |
| QrPenalty.PenaltyAssertionHolds | deps/qrcodegen.cpp:655-660 | the assertions at the end hold for every symbol: the score is between 0 and 2568888 |
| QrPenaltyLaws.RunPointsAreAlikePoints | deps/qrcodegen.cpp:590-611 | the points for long runs are 3 where five modules alike end and 1 for every further one, counted module by module |
| QrPenaltyLaws.PatternsAreCounted | deps/qrcodegen.cpp:751-776 | the patterns counted by run histories are exactly the places where 4:1:1:3:1:1:1 or 1:1:1:3:1:1:4 stands in the line with its light borders, at any width |
| QrPenaltyLaws.PenaltyIsScore | deps/qrcodegen.cpp:587-661 | the score, without runs or loops: 40 a pattern and the points of alike modules in all rows of the symbol and of the transposed symbol, 3 a block of one colour, 10 a step out of balance |
| QrPenaltyLaws.PenaltyOfTransposed | deps/qrcodegen.cpp:587-661 | columns are scored like rows: turning the symbol over its diagonal leaves the score alone |
| QrSymbol.BestMaskIsFirstMinimum | deps/qrcodegen.cpp:338-351 | the mask chosen by the comparison loop is the least index with the least score |
| QrSymbol.QrCode.TryMask | deps/qrcodegen.cpp:341-350 | one trial returns the score of the symbol finished with that mask and undoes itself outside the format modules |
| QrSymbol.QrCode.ChooseMask | deps/qrcodegen.cpp:339-351 | eight trials choose the first mask of least penalty and leave all modules but the format modules as they were |
| QrSymbol.QrCode.FinishWithMask | deps/qrcodegen.cpp:338-355 | asking for the best mask gives the very matrix that asking for the chosen mask gives; numbers outside -1..7 are refused |
| QrSegments.MakeNumeric | deps/qrcodegen.cpp:79-99 | fails exactly on a non-digit; otherwise three digits take ten bits and the rest seven or four |
| QrSegments.MakeAlphanumeric | deps/qrcodegen.cpp:102-122 | fails exactly on a character outside the set; otherwise two characters take eleven bits and the last six |
| QrSegments.MakeBytes | deps/qrcodegen.cpp:69-76 | fails exactly when the length is no int; otherwise eight bits a byte |
| QrSegments.MakeSegments | deps/qrcodegen.cpp:125-140 | no segment for the empty text, else one in the most compact mode that can spell it |
| QrSegments.DigitsReadBack | deps/qrcodegen.cpp:79-99 | a reader of numeric payloads gets the digits back and stops where they end |
| QrSegments.AlphanumericsReadBack | deps/qrcodegen.cpp:102-122 | a reader of alphanumeric payloads gets the characters back and stops where they end |
| QrSegments.BytesReadBack | deps/qrcodegen.cpp:69-76 | a reader of byte payloads gets the bytes back and stops where they end |
| QrEncoder.GetTotalBits | deps/qrcodegen.cpp:179-193 | the early returns amount to: the length of the encoding, or -1 exactly when a count does not fit its field or the length is no int |
| QrEncoder.NoTotal | deps/qrcodegen.cpp:179-193 | -1 means that some count is too wide for its field or that the length is above 2147483647 |
| QrEncoder.FitsUpToTheLastBit | deps/qrcodegen.cpp:264-288 | segments fit a version and level exactly when their counts fit and their bits are at most eight a data codeword |
| QrEncoder.ChooseVersion | deps/qrcodegen.cpp:264-281 | the least version in the range that fits, or failure exactly when none does |
| QrEncoder.BoostLevel | deps/qrcodegen.cpp:284-288 | the highest level that still fits, never below the one asked for |
| QrEncoder.ConcatSegments | deps/qrcodegen.cpp:290-297 | no appendBits call is refused, and the bit string is the encoding of the segments |
| QrEncoder.PadToCapacity | deps/qrcodegen.cpp:299-308 | the terminator, the zeros up to a byte and the alternating bytes fill the capacity exactly |
| QrEncoder.PackCodewords | deps/qrcodegen.cpp:310-313 | or-ing bit by bit into zeroed bytes packs the bits |
| QrEncoder.EncodeSegments | deps/qrcodegen.cpp:259-317 | the error cases exactly, the least version, the highest level, and data codewords of exactly the chosen capacity |
| QrReader.WidthsAgree | deps/qrcodegen.cpp:57-64 | the width of the count field is the one that a reader of versions 1-9, 10-26 and 27-40 expects |
| QrSegments.CharsetIs | deps/qrcodegen.cpp:102-122 | the values of alphanumeric characters: digits, letters, then nine others |
| QrSegments.NumericLength | deps/qrcodegen.cpp:79-99 | n digits take 10 bits for every three and 7 or 4 for the rest |
| QrSegments.AlphanumericLength | deps/qrcodegen.cpp:102-122 | n characters take 11 bits for every two and 6 for a last one |
| QrReader.CodewordsReadBack | deps/qrcodegen.cpp:290-317 | for any segments that spell texts a reader of mode, count field and payload gets the texts back from the padded codewords |
| QrReader.PaddingReadsAsNothing | deps/qrcodegen.cpp:299-308 | whatever room is left, what follows the segments reads as the end |
| QrReader.TextReadBack | deps/qrcodegen.cpp:125-140 | the text comes back from the codewords of makeSegments and encodeSegments |
| QrText.SymbolComesBack | deps/qrcodegen.cpp:334-355 | the codewords come back from the finished symbol for every version, level and mask; the reader is told none of them |
| QrText.CodewordsFit | deps/qrcodegen.cpp:536-560 | at every version the codewords fit into the modules the function patterns leave free, and at most seven modules are left over |
| QrText.MakeSymbol | deps/qrcodegen.cpp:320-359 | a symbol is made exactly for a mask in -1..7 and data of the right length, every codeword finds room, the matrix is the finished symbol of the codewords that the data interleave to, with the best mask when none was asked for, and alone it gives what the data codewords say |
| QrText.EncodeText | deps/qrcodegen.cpp:247-250 | for every text a symbol is made exactly when some version holds it, of the least version, the highest level that still fits and the mask of least penalty, and a reader that is given the finished matrix and nothing else gets the text |
| StringSearch.SplitString | common/src/utils/StringUtils.cpp:29-40 | the find loop produces the pieces of the leftmost decomposition |
| StringSearch.JoinSplit | common/src/utils/StringUtils.cpp:29-40 | joining the pieces with the delimiter gives back the string |
| StringSearch.PiecesAreFree | common/src/utils/StringUtils.cpp:29-40 | no piece contains the delimiter |
| StringSearch.SplitJoin | common/src/utils/StringUtils.cpp:29-40 | splitting joined pieces at a character none of them contains gives them back |
| StringSearch.Replace | common/src/utils/StringUtils.cpp:12-23 | the in-place loop ends, and for every non-empty replacement the result is the pieces of the string joined with it; an empty search string changes nothing; for an empty replacement the result is the one that skips a character after each match |
| Erasing.ErasedIsReplaced | common/src/utils/StringUtils.cpp:17-21 | an empty replacement still removes all matches when no two of them touch, for every search string |
| Erasing.ErasedExactly | common/src/utils/StringUtils.cpp:17-21 | for a search string no proper suffix of which is a prefix of it, single characters included, it does so exactly when no two of them touch |
| Erasing.OverlapsCanMakeUp | common/src/utils/StringUtils.cpp:17-21 | for one that overlaps itself the condition is only sufficient: twice a character in five of them is removed twice, although the matches touch |
| Erasing.TouchingMatchStays | common/src/utils/StringUtils.cpp:17-21 | of any search string twice in a row an empty replacement leaves the second |
| ShellWords.ShellQuote | common/src/utils/StringUtils.cpp:25-27 | the quoted string is the one the lexer lemmas speak of |
| ShellWords.QuotedAddsItself | common/src/utils/StringUtils.cpp:25-27 | in any unquoted place of a command line the quoted string adds exactly itself to the word under way (sections 2.2.1 and 2.2.2 of the POSIX.1-2017 Shell Command Language) |
| ShellWords.QuotedIsOneWord | common/src/utils/StringUtils.cpp:25-27 | alone it is one word equal to the string, for every string |
| ShellWords.PlainIsOneWord | common/src/utils/StringUtils.cpp:25-27 | the lexer is one: words of plain characters need no quotes, while operators, expansions and patterns do (OthersAreRefused) |
| ShellWords.ArgumentsComeBack | common/src/utils/StringUtils.cpp:25-27 | a command line of quoted arguments has exactly those arguments as its words |
| PairingCode.ToBase32String | common/src/utils/StringUtils.cpp:124-140 | the loop with its wrapping 32-bit accumulator computes base 32 of the whole bit string (section 6 of RFC 4648, without padding characters) |
| PairingCode.Base32ReadBack | common/src/utils/StringUtils.cpp:124-140 | base 32 is invertible for every payload and has length ceil(8n/5) |
| PairingCode.WithSeperators | common/src/utils/StringUtils.cpp:100-105 | the chunks of the group size joined with the separator |
| PairingCode.ChunksAreFull | common/src/utils/StringUtils.cpp:100-105 | no chunk is empty and all but the last have the group size |
| PairingCode.SeparatorsComeOff | common/src/utils/StringUtils.cpp:100-105 | taking the separator character away restores a string without it |
| PairingCode.GetPairingCode | common_desktop/src/pairing/PairingSession.cpp:75-77 | removing the hyphens and decoding restores the payload |
| Hex.HexReadBack | common/src/utils/StringUtils.cpp:107-122 | bytes come back from their hexadecimal string |
| Hex.HexWriteBack | common/src/utils/StringUtils.cpp:107-122 | what reads as hexadecimal is, in upper case, what its bytes are written as |
| CryptEnvelope.EncryptAES | common/src/utils/CryptUtils.cpp:151-223 | writes initialisation vector, salt, encrypted bytes and tag and nothing beyond; a destination that is too small is left alone |
| CryptEnvelope.DecryptAES | common/src/utils/CryptUtils.cpp:225-291 | the exact length or 0, the content when the tag is right, and no byte written beyond it |
| CryptEnvelope.OpenEnvelope | common/src/utils/CryptUtils.cpp:151-291 | opening undoes sealing under the same password |
| CryptEnvelope.OpenedIsEnvelope | common/src/utils/CryptUtils.cpp:225-291 | whatever opens equals an envelope of what it opens to under the password |
| CryptEnvelope.StampReadBack | common/src/utils/CryptUtils.cpp:56-57 | the eight big-endian bytes of any 64-bit time read back as that time |
| CryptEnvelope.EncryptAESPacket | common/src/utils/CryptUtils.cpp:48-75 | with its fixed buffers it seals timestamp and data, or refuses exactly above 1992 bytes |
| CryptEnvelope.DecryptAESPacket | common/src/utils/CryptUtils.cpp:77-106 | the receiver's decisions in their order: size, tag, length, timestamp |
| CryptEnvelope.PacketRoundTrip | common/src/utils/CryptUtils.cpp:48-106 | a packet comes back exactly when it carries 1 to 1992 bytes and the clocks agree within the limit |
| CryptEnvelope.StaleIsTold | common/src/utils/CryptUtils.cpp:88-101 | a packet of 1 to 1992 bytes sealed outside the time limit gives INVALID_TIMESTAMP, not the error of one that does not open |
| CryptEnvelope.StaleWasSealed | common/src/utils/CryptUtils.cpp:88-101 | what gives INVALID_TIMESTAMP equals a packet sealed under the password outside the time limit |
| CryptEnvelope.PacketLimits | common/src/utils/CryptUtils.cpp:48-80 | packets are sealed exactly up to 1992 bytes, and more than 2048 bytes are refused unopened |
| CryptEnvelope.StringLimit | common/src/utils/CryptUtils.cpp:108-126 | strings are sealed exactly up to 2000 bytes |
| CryptEnvelope.FreshIsTwoMinutes | common/src/utils/CryptUtils.cpp:92-101 | for clocks after 1970 the limit is a difference of at most 120000 ms either way |
| CryptEnvelope.AcceptedWasSealed | common/src/utils/CryptUtils.cpp:77-106 | whatever is accepted equals a packet sealed under the password with a time within the limit |
| CryptEnvelope.EncryptString | common/src/utils/CryptUtils.cpp:108-126 | the hexadecimal envelope, or nothing, exactly above 2000 bytes |
| CryptEnvelope.DecryptString | common/src/utils/CryptUtils.cpp:128-149 | nothing for strings that are too long, are no hexadecimal, do not open or are empty |
| CryptEnvelope.StringRoundTrip | common/src/utils/CryptUtils.cpp:108-149 | a string comes back exactly when it has 1 to 976 bytes |
| PamFiles.AddEntryToFile | common_desktop/src/installer/helpers/PAMHelper.cpp:174-196 | the loop over the lines and the newline collapse compute the file with the entry |
| PamFiles.RemoveEntryFromFile | common_desktop/src/installer/helpers/PAMHelper.cpp:198-218 | the nested loop and the newline collapse compute the file without the entry's lines |
| PamFiles.RemoveUndoesAdd | common_desktop/src/installer/helpers/PAMHelper.cpp:174-218 | removing an added entry restores the file up to its trailing newlines exactly when the file contains the header and a newline |
| PamFiles.RemoveAfterAdd | common_desktop/src/installer/helpers/PAMHelper.cpp:174-218 | otherwise what is left is the file with the header in front |
| PamFiles.EntryGetsIn | common_desktop/src/installer/helpers/PAMHelper.cpp:178-192 | a new line of the entry gets into the file exactly when the file has no header and newline or has the header as a whole line |
| PamFiles.IndentedHeader | common_desktop/src/installer/helpers/PAMHelper.cpp:178-192 | with anything before the header on its line the entry is silently left out |
| PamFiles.CollapseUnlines | common_desktop/src/installer/helpers/PAMHelper.cpp:193-195 | the trailing newline loop drops the empty lines at the end, but never all |
| PamConfig.PAMHelper.ConfigExists | common_desktop/src/installer/helpers/PAMHelper.cpp:113-117 | a pending change decides before the disk does |
| PamConfig.PAMHelper.ReadConfig | common_desktop/src/installer/helpers/PAMHelper.cpp:119-124 | a pending change hides the file; a missing file reads as empty |
| PamConfig.PAMHelper.AddToConfig | common_desktop/src/installer/helpers/PAMHelper.cpp:131-151 | an existing configuration gains the entry, a missing one is generated; only this path's view changes |
| PamConfig.PAMHelper.RemoveFromConfig | common_desktop/src/installer/helpers/PAMHelper.cpp:153-172 | a generated configuration goes, another loses the entry; only this path's view changes |
| PamConfig.PAMHelper.SetConfigEntry | common_desktop/src/installer/helpers/PAMHelper.cpp:62-78 | nothing is written; the view of one path changes as the setting says and all others stay |
| PamConfig.PAMHelper.Commit | common_desktop/src/installer/helpers/PAMHelper.cpp:80-111 | afterwards every path on disk is what the helper answered before, and nothing is pending |
| PamConfig.ApplySettings | common_desktop/src/installer/service/ServiceInstaller.Linux.cpp:58-86 | after any list of resolved settings (configuration, entry, on or off) and a commit every path on disk is the outcome of its own settings in order |
| PamConfig.UntouchedKeeps | common_desktop/src/installer/helpers/PAMHelper.cpp:80-111 | a path no setting names keeps its contents |
| PamConfig.MadeAndRemoved | common_desktop/src/installer/helpers/PAMHelper.cpp:131-172 | a configuration that was generated by enabling is gone after disabling |
| PamConfig.EnabledAndDisabled | common_desktop/src/installer/helpers/PAMHelper.cpp:62-218 | enabling and disabling an entry restores an existing configuration, with one newline at its end |
| UnlockResults.RunServer | common/src/handler/UnlockHandler.cpp:208-316 | a worker's result: what the first ending round says, or what the connection answers when it is asked again after anything but a success; a success carries the decrypted password and becomes DATA_ERROR without one; no result exactly while no round has ended the loop |
| UnlockResults.RoundEnds | common/src/handler/UnlockHandler.cpp:223-264 | how a round ends the loop: a stop before everything, then the polled state unless it is a lost connection that is retried, then the time limit, then the keys |
| UnlockResults.RunLoop | common/src/handler/UnlockHandler.cpp:223-264 | the first round that ends the loop decides the state |
| UnlockResults.FinalIsChosen | common/src/handler/UnlockHandler.cpp:146-166 | for any results in any order the stored result is the last success, else the last phone answer, else the last result of a first client, else the last; it is a success exactly when some worker succeeded, and never UNKNOWN |
| UnlockResults.StoredIsRanked | common/src/handler/UnlockHandler.cpp:149-156 | the same for what is stored before the last worker looks |
| UnlockResults.SuccessStays | common/src/handler/UnlockHandler.cpp:149-162 | a success is only ever replaced by a success |
| UnlockStatus.StatusPrinter.PrintPhase | common/src/handler/UnlockHandler.cpp:36-49 | a phase is shown unless the board is closed or a higher phase of another connection stands |
| UnlockStatus.StatusPrinter.PrintLast | common/src/handler/UnlockHandler.cpp:51-58 | the first last message closes the board |
| UnlockStatus.ShowPhaseKeeps | common/src/handler/UnlockHandler.cpp:36-49 | phase messages keep: at most one last message with nothing after it, and no message twice in a row; a closed board does not change |
| UnlockStatus.ShowLastKeeps | common/src/handler/UnlockHandler.cpp:51-58 | last messages keep the same, and the board is closed afterwards |
| UnlockStatus.PhaseIsShown | common/src/handler/UnlockHandler.cpp:36-49 | on an open board a phase at or above the one shown, or from the same connection, is the one shown afterwards, and its text the last one printed |
| UnlockStatus.LastIsShown | common/src/handler/UnlockHandler.cpp:51-58 | a last message is the last thing an open board prints |
| UnlockRun.SharedResult.Report | common/src/handler/UnlockHandler.cpp:146-166 | the critical section of a worker: the merged result, the count, and whether it prints |
| UnlockRun.StepsOfReport | common/src/handler/UnlockHandler.cpp:146-166 | the three atomic steps of the run model come to what Report does |
| UnlockRun.GetResultIsRight | common/src/handler/UnlockHandler.cpp:130-206 | in every interleaving GetResult proceeds only with all workers counted; on return it holds the choice among all results, and exactly one last message was printed, after all others, naming the returned state or an error a connection reported |
| UnlockRun.GetResultEnds | common/src/handler/UnlockHandler.cpp:146-206 | in every interleaving a waiting main thread has its notification still to come, and once no worker is in RunServer some thread can advance until GetResult returns |
| UnlockRun.NoDeadlock | common/src/handler/UnlockHandler.cpp:146-190 | from every state that keeps the invariant some step is enabled |
| UnlockRun.RunsAreBounded | common/src/handler/UnlockHandler.cpp:130-206 | advancing steps are bounded by a rank that only spurious wake-ups raise, so runs end |
| UnlockRun.InvariantKept | common/src/handler/UnlockHandler.cpp:130-206 | every step keeps locks, counts, results and the notification invariant |
| UnlockRun.MessagesKept | common/src/handler/UnlockHandler.cpp:36-58 | every step keeps the message invariants |
| UnlockProtocol.ValidIsAuthentic | common/src/connection/unlock/BaseUnlockConnection.cpp:172-228 | a response that is accepted equals a packet sealed under the device's key within two minutes and carries the token of this unlock |
| UnlockProtocol.SealedIsAccepted | common/src/connection/unlock/BaseUnlockConnection.cpp:172-228 | and every such packet of 1 to 1992 bytes is accepted |
| UnlockProtocol.VerdictOnSealed | common/src/connection/unlock/BaseUnlockConnection.cpp:202-227 | the verdict on every packet sealed under the device's key: TIME_ERROR outside the time limit, DATA_ERROR when its content cannot be parsed, accepted with the token of this unlock, and an unverified error with another token |
| UnlockProtocol.AnsweredWasSealed | common/src/connection/unlock/BaseUnlockConnection.cpp:181-228 | without an error from the phone nothing but a packet sealed under the device's key counts as its answer |
| UnlockProtocol.VerdictOnOthers | common/src/connection/unlock/BaseUnlockConnection.cpp:172-212 | what cannot be parsed or opened is an unverified DATA_ERROR, an error of the phone its answer |
| UnlockProtocol.PhoneAnswers | common/src/connection/unlock/BaseUnlockConnection.cpp:183-199 | the states for the errors a phone can send, and for all others |
| UnlockProtocol.FindAllowedDevice | common/src/connection/unlock/BaseUnlockConnection.cpp:254-260 | the first allowed device with the id, or none exactly when there is none |
| UnlockProtocol.AllowedIsFirst | common/src/connection/unlock/BaseUnlockConnection.cpp:254-260 | of several devices with the id it is the first |
| UnlockProtocol.MapPacketError | common/src/connection/unlock/BaseUnlockConnection.cpp:262-275 | an error never maps to UNKNOWN or SUCCESS unless the fallback is that |
| UnlockConnections.BaseUnlockConnection.OnResponseReceived | common/src/connection/unlock/BaseUnlockConnection.cpp:172-243 | the outcome of a response in terms of its verdict: unlock state, device, data, entry, and whether the stream stays open |
| UnlockConnections.BaseUnlockConnection.HandleUnverifiedError | common/src/connection/unlock/BaseUnlockConnection.cpp:245-252 | a server closes the stream and keeps its state, a client takes the error |
| UnlockConnections.StepsOfResponse | common/src/connection/unlock/BaseUnlockConnection.cpp:172-243 | without interruption the steps of the run model come to what OnResponseReceived does |
| UnlockConnections.CommittedOnce | common/src/connection/unlock/BaseUnlockConnection.cpp:61-243 | in every interleaving of any connections at most one response is committed; it carries this unlock's token, opened under the key of the device that is then the paired device, was asked for on the same connection, and no other connection reaches HAS_UNLOCK_RESPONSE |
| UnlockConnections.DeviceIsFixed | common/src/connection/unlock/BaseUnlockConnection.cpp:107-147 | a connection's device never changes once known, and its state only goes up |
| UnlockConnections.ConnectionsKept | common/src/connection/unlock/BaseUnlockConnection.cpp:61-147 | every step keeps each connection consistent: its entry, its request and its place in the protocol |
| UnlockConnections.CommittedKept | common/src/connection/unlock/BaseUnlockConnection.cpp:229-243 | every step keeps what is known of the committed response |
| UnlockConnections.ClosedClientsReport | common/src/connection/unlock/BaseUnlockConnection.cpp:61-105 | in every run a client connection that is over has left a result: the unlock state is not UNKNOWN |
| UnlockConnections.LostConnection | common/src/connection/unlock/BaseUnlockConnection.cpp:93-105 | a client whose stream ends with an error before there is a result stores what the error says, a server connection nothing |
| UnlockConnections.UnknownDevice | common/src/connection/unlock/BaseUnlockConnection.cpp:122-128 | on a device id that no allowed device has a server lets go of the connection and a client stores DATA_ERROR |
| UnlockConnections.FailedWrite | common/src/connection/unlock/BaseUnlockConnection.cpp:72-82 | a request that cannot be written stores what the error says, except for a server that was just told the device |
| UnlockConnections.SuccessStaysUnless | common/src/connection/unlock/BaseUnlockConnection.cpp:61-252 | in one step a stored success is lost exactly when the step stores an error without looking |
| UnlockConnections.SuccessIsFinalUnless | common/src/connection/unlock/BaseUnlockConnection.cpp:61-252 | after any run from a stored success it is still there exactly when no step of the run stored an error: a lost success never comes back |
| UnlockConnections.AnswerReplacesSuccess | common/src/connection/unlock/BaseUnlockConnection.cpp:181-201 | an error answered on a second connection replaces the success committed on the first |
| UnlockRace.RaceLosesSuccess | common/src/connection/unlock/BaseUnlockConnection.cpp:61-243 | a run of two connections from the start, each registered, identified and asked, that commits a response on the first and then loses the success to the answer of the second |
| UnlockRace.RaceHappens | common/src/connection/unlock/BaseUnlockConnection.cpp:172-243 | there are a lawful cipher, devices, keys and packets for which that run takes place |
| PacketFraming.CountIsHeaderPrefix | common/src/connection/BaseConnection.cpp:77-92 | a matcher count of k means that the last k bytes consumed are the first k header bytes |
| PacketFraming.HeaderStandsThere | common/src/connection/BaseConnection.cpp:77-92 | the matcher only accepts where the whole header stands |
| PacketFraming.HeaderAfterGarbage | common/src/connection/BaseConnection.cpp:77-92 | after bytes that hold no header for the matcher the next header is recognised exactly when the count has come back to zero |
| PacketFraming.FirstByteHidesHeader | common/src/connection/BaseConnection.cpp:77-92 | the single byte 0xDB leaves the count at one and hides the header behind it |
| PacketFraming.FrameReadBack | common/src/connection/BaseConnection.cpp:73-145 | a frame is read back, and nothing behind it touched, exactly when it carries 1 to 65535 bytes |
| PacketFraming.FrameAfterGarbage | common/src/connection/BaseConnection.cpp:73-145 | the same after garbage that leaves the matcher at zero |
| PacketStream.ConnectionStream.ReadFrom | common/src/connection/stream/WebSocketStream.cpp:267-284 | messages of any size, empty ones too, read as one byte stream; the error of a failed wait is passed on, and without failures there is an error only at the end |
| PacketStream.ConnectionStream.ReadHeader | common/src/connection/BaseConnection.cpp:74-92 | over any pieces the loop stops right behind the first header the matcher accepts |
| PacketStream.ConnectionStream.ReadData | common/src/connection/BaseConnection.cpp:147-162 | over any pieces exactly the bytes asked for, or an error; without stream errors an error only when too few bytes are left |
| PacketStream.ConnectionStream.ReadPacket | common/src/connection/BaseConnection.cpp:73-126 | over any pieces a packet is what the pure parser finds in the bytes pending, and what it leaves is what stays pending; empty and incomplete packets give errors, and an error comes with no data |
| PacketStream.ConnectionStream.Flush | common/src/connection/stream/ConnectionStream.cpp:10-26 | over any partial writes everything buffered is sent once and in order, or after an error a prefix of it; the buffer is empty in any case |
| PacketStream.ConnectionStream.WritePacket | common/src/connection/BaseConnection.cpp:128-145 | what was buffered and then exactly one frame are sent, or after an error a prefix of them |
| PacketStream.SendAll | common/src/connection/BaseConnection.cpp:128-145 | packets sent one after the other make up the wire bytes |
| PacketStream.ReceiveAll | common/src/connection/BaseConnection.cpp:73-126 | reading as many packets as were sent gives them back in order and leaves what follows |
| PacketStream.Exchange | common/src/connection/BaseConnection.cpp:73-162 | however the bytes are cut into pieces on both sides, the packets sent are the packets received |
| PacketStream.ReceiveAfterGarbage | common/src/connection/BaseConnection.cpp:73-126 | the same behind garbage that leaves the matcher at zero: the whole list arrives over any pieces |
| PacketStream.ExchangeMessages | common/src/connection/stream/WebSocketStream.cpp:267-284 | the same for web socket messages, wherever they begin and end |
| UnlockCredential.CUnlockCredential.SetUnlockData | natives/win_pulseunlock/src/CUnlockCredential.cpp:119-131 | a running listener stores its result under a new number modulo 2^64, a stopped one changes nothing |
| UnlockCredential.CUnlockCredential.IsUnlockPending | natives/win_pulseunlock/src/CUnlockCredential.cpp:138-141 | true exactly for the number under which a success is stored |
| UnlockCredential.CUnlockCredential.ExpireUnlockSuccess | natives/win_pulseunlock/src/CUnlockCredential.cpp:143-152 | expires exactly the success pending under the number |
| UnlockCredential.CUnlockCredential.FinishUnlockSubmission | natives/win_pulseunlock/src/CUnlockCredential.cpp:220-232 | only a success pending under the number is finished, and then the automatic start is blocked as the scenario says |
| UnlockCredential.CUnlockCredential.ReadUnlock | natives/win_pulseunlock/src/CUnlockCredential.cpp:551-570 | a stored success goes before a typed password, together with its number |
| UnlockCredential.CUnlockCredential.ReportResult | natives/win_pulseunlock/src/CUnlockCredential.cpp:674-681 | a failed logon after a blocked start leaves an error and the block, anything else clears both |
| UnlockCredential.CUnlockCredential.RetryClicked | natives/win_pulseunlock/src/CUnlockCredential.cpp:517-522 | a retry clears the result and the block |
| UnlockCredential.NothingPending | natives/win_pulseunlock/src/CUnlockCredential.cpp:143-232 | after a retry, a report or the end of a submission nothing can be submitted, whatever the number |
| UnlockCredential.ShownInstead | natives/win_pulseunlock/src/CUnlockCredential.cpp:143-232 | what is shown instead of the success that is gone, and that other numbers change nothing |
| UnlockCredential.DeliveredIsPending | natives/win_pulseunlock/src/CUnlockCredential.cpp:119-131 | a delivered result can be submitted exactly when it is a success, under the next number |
| UnlockCredential.ListenersComeIn | natives/win_pulseunlock/src/CUnlockCredential.cpp:119-152 | a stopped listener leaves no trace, a running one is heard, and both may come in at any time |
| UnlockCredential.SubmittedAtMostOnce | natives/win_pulseunlock/src/CUnlockCredential.cpp:119-232 | in every interleaving that delivers fewer than 2^64 results no result is submitted twice, and what is submitted is what was delivered under its number |
| UnlockCredential.NeverPendingAgain | natives/win_pulseunlock/src/CUnlockCredential.cpp:119-232 | a success that is not pending any more never becomes pending again under its number |
| UnlockCredential.ExpiryAlters | natives/win_pulseunlock/src/CUnlockCredential.cpp:143-152 | expiring the k-th result alters the stored one exactly when that is a success whose number is equal modulo 2^64 |
| UnlockCredential.OldNumbersAreHarmless | natives/win_pulseunlock/src/CUnlockCredential.cpp:143-152 | below 2^64 results old expiries and old submissions leave newer results alone |
| UnlockCredential.BlockedExactly | natives/win_pulseunlock/src/CUnlockCredential.cpp:220-232 | after every run below 2^64 results the automatic start is blocked exactly when some step finished a pending submission as submitted outside CredUI and since then there was no retry, no report of a logon that did not fail and no unsubmitted finish |

## Left out

- QrFormatReader.FormatReadBack: the reader takes format information that is undamaged; how many wrong format or version modules could be corrected is not proved.
- Erasing.ErasedIsReplaced: for a search string that overlaps itself the condition is proved sufficient, not necessary (OverlapsCanMakeUp shows why); for all others it is exact.
- Kanji and ECI segments: makeEci only adds another payload of the same kind, and no mode indicator of theirs is ever produced from a text.
- QrSegments.MakeNumeric, QrSegments.MakeAlphanumeric: the character count is unbounded; the int counter of the code overflows above 2147483647 characters, where getTotalBits fails for every version anyway.
- PairingCode.WithSeperators, StringSearch.SplitString: a group size of zero and an empty delimiter, for which the loops of the code do not end, are excluded.
- Random initialisation vectors, salts and tokens, key derivation and OpenSSL failures: values are parameters, the cipher is total.
- CryptEnvelope.EncryptAESPacket: allocation failures are not modelled.
- The JSON of request and response packets: the two parsers are arbitrary functions of the packet bytes.
- PamConfig.ApplySettings: starts from configuration names; which setting ids select them and which programs are installed is decided before and not modelled.
- PamConfig.PAMHelper.Commit: file writes and removals succeed, as the overlay property presumes; the order in which paths are written is arbitrary.
- polkit restrictions, the macOS branches, CommitWithTerminal and MigrateConfigEntry of PAMHelper: service files, scripts and plain uses of Replace.
- UnlockRun.GetResultIsRight: an exception thrown by the printing callback is not modelled, nor are messages that RunServer prints past PrintStatus.
- UnlockStatus.StatusPrinter.PrintPhase: messages are compared by their phase, not by their translated text.
- Clocks, sleeps and the key scanner of RunServer: each round of its loop observes arbitrary values.
- UnlockConnections.CommittedOnce: streams are numbered and used once; reads, writes and errors are arbitrary.
- PacketStream.ConnectionStream.Read: sockets, TLS, time-outs and Boost.Asio appear only as the pieces and errors they deliver; a stream whose plan is used up delivers what is left.
- UnlockCredential.CUnlockCredential.ReadUnlock: packing the credential, COM and the erasure of secrets are left out; whether packing succeeded is a parameter of the finishing step.
- Command line parsing, settings storage, pairing servers, IPC and the user interface: not part of this model.
