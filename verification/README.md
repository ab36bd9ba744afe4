# libhat: signature scanning, signature text, memory map and page protection

This project models the core of libhat and proves what it promises.

**Scanning.** A signature is a sequence of masked bytes. `find_pattern` promises the leftmost address
that the scan alignment allows and at which every element matches. `Matching.FirstHit` states that promise
once, without reference to any scan, and every scan is proved against it: the byte-by-byte scans, the
SSE, AVX2 and AVX512 scans (one algorithm, verified for every vector size that is a multiple of 16), and the
Neon scan with its four-bit lanes. Result and hints, anchors, modes and processors are therefore independent:
`Matching.FirstHitIsUnique` says that there is only one such result. Reading outside the span that is scanned
is ruled out by the preconditions of `Matching.Span.At` and `Lanes.Load`, so each verified scan is also memory safe.
On top of this, the two forms of `find_all_pattern` are proved to return the list of all hits, or its first
part. `FindAll.FindInBatches` calls the bounded form again and again, each time on what is left behind the
returned position, and its results are proved to concatenate to the full list, cut at the total room.

**Anchors.** The choice of the anchor byte and the anchor pair is proved optimal for the frequency table, and
the script that makes the tables is modelled too, so that "optimal for the table" becomes "rarest in the code
the table was counted from".

**Signature text.** The syntax of the documentation is stated as predicates on words (`SignatureGrammar.WordFits`,
`WordMatches`, `WordIsExact`). The parser is proved to accept exactly that syntax with exactly that meaning, and
printing and parsing are proved inverse on an exactly described class of signatures.

**Linux memory.** `regionHasFlag` is proved to decide whether each address of a range is mapped with a flag.
Protectors are objects that change the protection of pages and change it back. The rounding of
their requests is exact on 64-bit words, and runs of any number of creations, moves and destructions are
proved to restore every page, with every change undone once. `ProtectorProgram` drives real protector objects
through such runs and proves that they do to the pages what the runs say.

Methods whose source updates variables in loops, or fields of objects, are methods with loops and classes here;
code made of expressions is functions. Words are natural numbers with a width (`Words`), bytes are `bv8`, and
addresses are natural numbers.

## Where the code says less than its documentation

In each case the model follows the code, one lemma gives the exact condition, and another names an input.

- Printing a signature loses a partly fixed nibble beside a full one. `SignaturePrinter.RoundTripIffFaithful`
  says when nothing is lost, and `UnfaithfulMatchesMore` that otherwise a byte is matched that was not matched
  before. `RoundTripCanLose`: value A8 under mask F8 is printed as `A?`, and parsed as value A0 under mask F0.
- Bounded `find_all_pattern` may return a position behind the end of its input. `Resumption.PositionInRangeIffLong`:
  it stays inside for all inputs exactly if the signature is at least as long as the stride. `OverrunIfShort`: a
  span that holds nothing but one match is overrun.
- The Linux protector rounds the size without the offset of the address in its page.
  `MemoryProtector.ChangedPagesContainRequestIff` says when the changed pages contain the request.
  `RequestCanBeMissed`: two bytes from address 4095 on.
- A protector saves the protection of one page and restores it to all. `MemoryProtector.RestoredIffUniform`: the
  pages are as before exactly if they had one protection. `MixedRangeIsNotRestored`: a readable page before an
  executable one.
- The frequency script adds the length less one for every executable section, which is -1 for an empty one.
  `FrequencyRanking.TotalIsSumOfCounts` gives the exact difference from the sum of the counts.
  `EmptySectionCountsBelowZero`: one empty section.

## Model

| member | source | states |
|---|---|---|
| Matching.FirstHitIsUnique | include/libhat/scanner.hpp:310-327 | the promised result is determined by the span, the signature and the stride alone, so any two scans that keep the promise agree |
| Matching.HitsFromExact | include/libhat/scanner.hpp:403-405 | the list of hits contains every aligned match from a start on and nothing else, once each, in ascending order |
| Matching.HitThenStride | include/libhat/scanner.hpp:428-430 | continuing one stride behind a match skips no hit |
| Segments.SegmentsCoverExactly | src/Utils.hpp:39-81 | head, vectors and tail together are responsible for exactly the candidate starts, in ascending order; head and vectors share exactly one start, vectors and tail none; without vectors the head is the whole range |
| Segments.RangeOfVectors | src/Utils.hpp:57-70 | the vector part starts within one vector of the first anchor, is aligned, holds whole vectors, and leaves room for the compares behind it |
| Segments.VectorAccessesInRange | src/arch/arm/Neon.cpp:82-113 | every vector load, the load one byte further, each signature compare and each full vector compare lie inside the scanned range, for every lane |
| Segments.AlignUp | include/libhat/scanner.hpp:198-203 | the result is a multiple of the alignment, not below the address and less than one alignment above it |
| SingleScanner.FindByte | include/libhat/scanner.hpp:244-260 | the first occurrence of the byte in the range, or none if there is none |
| SingleScanner.FindPatternSingleX1 | include/libhat/scanner.hpp:237-268 | hopping between occurrences of the anchor byte finds the leftmost match |
| SingleScanner.FindPatternSingleStrided | include/libhat/scanner.hpp:211-235 | visiting aligned starts only finds the leftmost aligned match |
| SingleScanner.FindPatternSingle | include/libhat/scanner.hpp:270-278 | the leftmost aligned match for each alignment |
| Lanes.MoveMaskBit | src/arch/x86/AVX2.cpp:56-57 | bit i of the mask is set exactly if lane i compared equal, and there are no bits above the lanes |
| Lanes.LoadSignature | src/arch/x86/AVX2.cpp:13-23 | values and masks in the low lanes, zero in all lanes above the signature |
| Lanes.VectorCompareIsEqual | src/arch/x86/AVX2.cpp:75-81 | the zero-padded test over all lanes holds exactly if the element-wise comparison does |
| Lanes.Confirm | src/arch/x86/AVX2.cpp:75-87 | with and without the vector compare, a candidate is confirmed exactly if the signature matches there |
| Lanes.CreateAlignmentMask | include/libhat/scanner.hpp:189-196 | exactly the bits at multiples of the stride within the width |
| Lanes.RotatedAlignmentMask | src/arch/x86/AVX2.cpp:67-70 | for an aligned vector, a bit of the rotated mask is set exactly if the match start of that lane is a multiple of the stride, for every anchor index, also beyond the width of the mask and of an int |
| Words.RotateLeftRotates | src/arch/x86/AVX2.cpp:68-68 | rotation with a signed count moves each bit around the word by the count |
| Words.ClearLowestBit | src/arch/x86/SSE.cpp:98-98 | clears the lowest set bit and no other |
| Words.TrailingZeros | src/arch/x86/AVX2.cpp:73-73 | the position of the lowest set bit |
| VectorScan.HitShowsInLane | src/arch/x86/AVX2.cpp:56-70 | a hit passes the anchor test and the alignment test of its lane, whichever anchors are compared, so no mask drops a hit |
| VectorScan.HitsInVector | src/arch/x86/AVX2.cpp:55-90 | the lowest hit of the first vector that has one is the leftmost hit; a vector without hits can be left behind |
| VectorScan.AfterHead | src/arch/x86/AVX2.cpp:46-51 | a hit in the head is the leftmost hit, and without one the hits lie in the vectors or behind them |
| VectorScan.AfterTail | src/arch/x86/AVX2.cpp:92-95 | after vectors without a hit, the result of the tail is the result of the whole scan |
| X86Scanner.AnchorMask | src/arch/x86/AVX2.cpp:56-65 | a bit is set exactly if the anchor byte matches in its lane and, except in the last lane, the second byte matches one further |
| X86Scanner.AlignMask | src/arch/x86/AVX2.cpp:67-70 | keeps exactly the lanes with an aligned start |
| X86Scanner.ConfirmCandidates | src/arch/x86/AVX2.cpp:72-89 | consuming candidates from the lowest bit finds the lowest lane with a hit |
| X86Scanner.ScanVector | src/arch/x86/AVX2.cpp:55-90 | the lowest lane of the vector that holds a hit, although the pair test lets the last lane pass too often |
| X86Scanner.ScanVectors | src/arch/x86/AVX512.cpp:54-87 | the loop over the vectors returns the leftmost hit, or shows that no hit lies before the tail |
| X86Scanner.FindPattern | src/arch/x86/AVX2.cpp:25-96 | the leftmost aligned match, and none exactly if there is none, for every span, base address, alignment and choice of anchors and compare |
| NeonScanner.NarrowBit | src/arch/arm/Neon.cpp:90-90 | each nibble of the narrowed comparison is F for an equal lane and 0 for another |
| NeonScanner.AnchorMask | src/arch/arm/Neon.cpp:83-90 | the nibble of a lane is F exactly if both anchor bytes match there, in all 16 lanes |
| NeonScanner.CreateAlignmentMaskNeon | src/arch/arm/Neon.cpp:44-51 | the nibbles of exactly the lanes at multiples of the stride |
| NeonScanner.RotatedNibbleMask | src/arch/arm/Neon.cpp:91-93 | a bit of the rotated mask is set exactly if its lane has an aligned match start |
| NeonScanner.ClearLowestLane | src/arch/arm/Neon.cpp:95-113 | for a mask of 0 and F nibbles, the lowest set bit over four is the lowest candidate lane, and the exclusive-or removes that lane and no other |
| NeonScanner.ConfirmCandidates | src/arch/arm/Neon.cpp:95-114 | lanes come out in ascending order, once each, so the lowest lane with a hit is found |
| NeonScanner.ScanVectors | src/arch/arm/Neon.cpp:80-115 | the loop over the vectors returns the leftmost hit, or shows that no hit lies before the tail |
| NeonScanner.FindPattern | src/arch/arm/Neon.cpp:53-121 | the leftmost aligned match, and none exactly if there is none |
| Context.ScanContext.Create | include/libhat/scanner.hpp:284-305 | the anchor is the first fully masked byte, and the scan function fits the mode, the alignment, the pair and the length of the signature |
| Context.ScanContext.ResolveScanner | src/arch/x86/AVX2.cpp:98-110 | the specialisation chosen is the one for the pair and for signatures of up to 16, 32 or 64 bytes, and the choice of the pair is that of apply_hints |
| Context.ScanContext.ApplyHints | src/Scanner.cpp:37-85 | with a table the leftmost pair of maximum score, otherwise the first pair, and under pair0 only one at index 0; the anchors stay fully masked bytes |
| Context.ChoiceExists | src/Scanner.cpp:37-85 | an anchor pair is chosen exactly if two adjacent bytes are fully masked, and under pair0 exactly if the first two are, and then these |
| Context.ChoiceIsBest | src/Scanner.cpp:23-66 | with the table of the x86_64 hint, or else of the aarch64 hint, no pair of the signature scores higher than the chosen one, and none further left as high |
| Context.ChoiceIsFirst | src/Scanner.cpp:69-84 | without a table, a vector size or under pair0, no pair stands left of the chosen one |
| Context.ScanContext.FindBestPair | src/Scanner.cpp:50-66 | the leftmost pair of maximum score, or none exactly if no two adjacent bytes are fully masked |
| Context.ScanContext.FindFirstPair | src/Scanner.cpp:69-84 | the first pair, and under pair0 a pair at index 0 or none |
| Context.ResolveAuto | src/Scanner.cpp:87-115 | the automatic choice is a scan that is part of the build and whose instructions the processor has, and no scan with longer vectors is |
| PairTables.PairTable.LowerBound | src/Scanner.cpp:45-45 | the binary search finds the partition point of the sorted pairs |
| PairTables.PairTable.GetScore | src/Scanner.cpp:42-48 | the lookup returns the score stored beside the pair, and 512 if the pair is not stored |
| PairTables.PairTable.ScoreOfStored | src/Scanner.cpp:42-48 | a stored pair has the score stored beside it, which is below 512 |
| PairTables.PairTable.ScoreOfAbsent | src/Scanner.cpp:16-16 | a table has 512 pairs, and exactly the others score 512 |
| PairTables.BestPairIsRarest | src/Scanner.cpp:50-66 | for a table ranked by count, the two bytes at the chosen index are no more frequent than any two adjacent fully masked bytes that are in the table, and if any such two are not in the table then neither are the chosen ones |
| FrequencyRanking.AddSection | scripts/frequency.py:21-27 | each count grows by the number of positions at which the pair occurs |
| FrequencyRanking.CountPairs | scripts/frequency.py:12-27 | the counts are the occurrences over all executable sections |
| FrequencyRanking.AllOccurrencesArePlaces | scripts/frequency.py:15-27 | the occurrences of a pair are the number of places in executable sections where its first byte stands in front of its second |
| FrequencyRanking.RankedInOrder | scripts/frequency.py:29-31 | every pair is ranked, once, by falling count, ties by number |
| FrequencyRanking.EntriesMembers | scripts/frequency.py:30-32 | the entries are exactly the first ranks with their pairs |
| FrequencyRanking.EntriesAscending | scripts/frequency.py:30-32 | the entries are strictly ascending in the pair |
| FrequencyRanking.TabledRanks | scripts/frequency.py:29-49 | the table is sorted without duplicates, a lower score is at least as frequent, and no pair outside the table is more frequent than one inside |
| FrequencyRanking.MakeTable | scripts/frequency.py:29-46 | 512 pairs, each with its position in the ranking as score, so the table ranks the pairs by their counts, which is what the scanner's choice relies on |
| FrequencyRanking.RankPairs | scripts/frequency.py:8-46 | from sections to table: the table ranks 512 pairs by the number of their places in executable code |
| FrequencyRanking.TotalIsSumOfCounts | scripts/frequency.py:20-27 | the total is the sum of all counts, less one for each empty executable section |
| FrequencyRanking.EmptySectionCountsBelowZero | scripts/frequency.py:17-22 | one empty executable section gives a total of -1 and no counts |
| Scanner.Scan | include/libhat/scanner.hpp:166-171 | the leftmost aligned match for every scan function, and none for a span shorter than the signature |
| Scanner.FindPattern | include/libhat/scanner.hpp:310-327 | whatever the mode, hints, tables and processor: the leftmost match for X1, the leftmost at a multiple of 4 for X4, and the leftmost at a multiple of 16 for X16 |
| FindAll.FindAllPattern | include/libhat/scanner.hpp:403-434 | exactly the list of all matches, overlapping ones included, for X1, of those at multiples of 4 for X4 and of 16 for X16, and their number, although each scan partitions anew |
| FindAll.FindAllPatternBounded | include/libhat/scanner.hpp:352-384 | the first hits up to the room in the output, the rest of the output unchanged, and the position at which the search stopped |
| Resumption.ResumeFindsTheRest | include/libhat/scanner.hpp:373-383 | from the returned position on there are exactly the hits that were not written |
| Resumption.StopsBehindResults | include/libhat/scanner.hpp:370-383 | the returned position is one stride behind the last result if the output is full, and otherwise the end, or that if it lies behind the end |
| Resumption.HitsOfRemainder | include/libhat/scanner.hpp:373-383 | the hits of what is left of a span are the hits of the span from there on, so a resumed search lists the same hits |
| Resumption.BatchesConcatenate | include/libhat/scanner.hpp:352-383 | searches with any rooms, each on what is left of the span behind the position of the one before, concatenate to the list of all hits, cut at the total room |
| FindAll.FindInBatches | include/libhat/scanner.hpp:352-384 | a caller that calls the bounded search again from each returned position, until that is at or behind the end, gets the list of all hits, cut at the total room |
| Resumption.PositionInRangeIffLong | include/libhat/scanner.hpp:380-383 | the position stays inside the input for all inputs exactly if the signature is at least one stride long |
| Resumption.OverrunIfShort | include/libhat/scanner.hpp:380-383 | an input for each shorter signature at which the position is behind the end |
| Signatures.Exact | include/libhat/signature.hpp:25-25 | matches exactly one byte |
| Signatures.Masked | include/libhat/signature.hpp:26-26 | matches exactly the bytes that agree with the value under the mask |
| StringConversion.ParseInt | include/libhat/strconv.hpp:20-57 | fails exactly for an illegal base or character, and otherwise is the positional value with its sign, converted to the type |
| StringConversion.ParseFails | include/libhat/strconv.hpp:22-54 | the base is invalid exactly below 2 and above 36; otherwise the call fails exactly if some character is no digit, but for a sign in front of a signed type |
| StringConversion.SignedParse | include/libhat/strconv.hpp:26-56 | digits alone and behind a plus give their value, and behind a minus its negative, exactly if the type has it in its range |
| StringConversion.UnsignedParse | include/libhat/strconv.hpp:26-56 | an unsigned type gives the value modulo two to its width |
| StringConversion.LeadingDigit | include/libhat/strconv.hpp:43-55 | a digit counts as its value times the base to the number of digits behind it |
| StringConversion.DigitMeaning | include/libhat/strconv.hpp:28-54 | in every base exactly the numerals and the letters of either case are digits, with their usual values |
| StringConversion.IntType.ConvertScaled | include/libhat/strconv.hpp:43-56 | converting after each step is converting once at the end |
| StringConversion.ExactIffValueFits | include/libhat/strconv.hpp:26-56 | legal digits give their signed value exactly if the type holds that value, the least value of a signed type included |
| StringConversion.ExactIfMagnitudeFits | include/libhat/strconv.hpp:26-56 | if also the magnitude fits the type, no step on the way overflows |
| Tokens.WordCountBound | include/libhat/signature.hpp:172-180 | a string has at most half as many words as characters, rounded up |
| Tokens.WordsOfJoined | include/libhat/signature.hpp:176-180 | splitting at spaces undoes joining with spaces |
| Tokens.SpacesSeparate | include/libhat/signature.hpp:176-181 | the words before and behind any space are found on their own, a string without spaces is one word or none, so spaces in front, at the end or in a row add nothing |
| Tokens.SplitOfJoined | include/libhat/signature.hpp:176-177 | splitting joined words gives just these words, with no empty word between them |
| SignatureParser.ParseSignatureElement | include/libhat/signature.hpp:152-169 | the loop over the digits computes value and mask of the word, or fails at an illegal digit |
| SignatureParser.ParseSignatureTo | include/libhat/signature.hpp:172-215 | the elements of the words before the first bad one are written, the verdict is the specified one, and on every input at most half the characters, rounded up, are written |
| SignatureParser.ParsesIsFunction | include/libhat/signature.hpp:172-215 | the specification determines the elements and the verdict |
| SignatureParser.ParseSignature | include/libhat/signature.hpp:217-226 | the signature on success, the first error otherwise |
| SignatureParser.CompileSignature | include/libhat/signature.hpp:232-254 | the array of half the characters plus one is never overrun, on success or error |
| SignatureGrammar.WordMeaning | README.md:223-232 | a word is an element exactly if it fits the documented syntax, and then matches a byte exactly if each digit that is no wildcard agrees; it is fully masked exactly if it has no wildcard |
| SignatureGrammar.ParseMeaning | include/libhat/signature.hpp:172-215 | parsing succeeds exactly if all words fit and one has no wildcard, and the k-th element matches what the k-th word describes |
| SignatureGrammar.ParseErrors | include/libhat/signature.hpp:182-213 | the first word that does not fit decides the error and what was written before; otherwise emptiness or the missing fixed byte does |
| PatternStrings.MatchIsDescribed | README.md:234-238 | a parsed signature matches at an address exactly if the bytes there agree, word by word, with the text |
| PatternStrings.ScanFindsDescribed | README.md:234-242 | every signature that parses is one the scanner accepts, and the scan result is the leftmost aligned address the text describes |
| SignaturePrinter.ToString | include/libhat/signature.hpp:257-288 | one word for each element with single spaces between; a free element has one character, one with a full nibble two, any other eight, all of them numerals, capitals A to F or question marks |
| SignaturePrinter.PrintedSpelling | include/libhat/signature.hpp:261-285 | the same for one element |
| SignaturePrinter.PrintableWeakens | include/libhat/signature.hpp:262-269 | the printed form matches whatever the element matches, and equals it exactly if the element is printed faithfully |
| SignaturePrinter.UnfaithfulMatchesMore | include/libhat/signature.hpp:262-269 | an element that is not printed faithfully is printed as one that matches a further byte |
| SignaturePrinter.PrintedParses | include/libhat/signature.hpp:261-285 | every printed element is one word that parses, to the printable part of the element |
| SignaturePrinter.ParsePrinted | include/libhat/signature.hpp:257-288 | parsing a printed signature keeps its length, and succeeds exactly if it has a fully masked byte |
| SignaturePrinter.RoundTripIffFaithful | include/libhat/signature.hpp:257-288 | the round trip succeeds, only weakens, and returns the signature itself exactly if every element is faithful |
| SignaturePrinter.RoundTripCanLose | include/libhat/signature.hpp:262-269 | a signature with a fully masked byte that is printed and parsed to a different one |
| SignaturePrinter.PrintParsePrint | include/libhat/signature.hpp:257-288 | printing what was parsed from a printed signature gives the same text |
| MemoryMap.FromChars | src/os/linux/Common.hpp:21-25 | the value of the longest run of hexadecimal digits; fails exactly for no digit or a value over 64 bits |
| MemoryMap.ParseLine | src/os/linux/Common.hpp:16-40 | the region of a line, or none for a line that does not parse |
| MemoryMap.LineIsRead | src/os/linux/Common.hpp:16-40 | two numbers and permissions, separated by any characters that are no digits, are read back as the region they describe |
| MemoryMap.ReadLineHasParts | src/os/linux/Common.hpp:16-40 | no other line is read: one that gives a region consists of such parts |
| MemoryMap.RegionsInOrder | src/os/linux/Common.hpp:16-45 | the regions are those of the lines in their order, with nothing for a line that does not parse |
| MemoryMap.ProtectionBits | src/os/linux/Common.hpp:36-40 | each permission character can be read off its own flag |
| MemoryMap.RegionWalk.Visit | src/os/linux/Process.cpp:313-331 | one call of the callback: the new state and whether it asks for more |
| MemoryMap.WalkReachesEndIffCarried | src/os/linux/Process.cpp:310-332 | the walk, with all its early stops, ends at or behind the end exactly if every address from its start carries the flag |
| MemoryMap.CarriedMeaning | src/os/linux/Process.cpp:319-327 | carrying a flag, in numbers: the address is at or above the begin and below the end of a region that has the flag |
| MemoryMap.NeighboursInOrder | src/os/linux/Process.cpp:314-318 | the order asked of the map holds if no region overlaps the next |
| MemoryMap.RegionHasFlag | src/os/linux/Process.cpp:305-333 | true exactly if the range is not empty and every address of it lies in a mapped region with the flag |
| MemoryMap.GetPageProt | src/os/linux/MemoryProtector.cpp:14-24 | the protection found by the walk that stops at the first region containing the address |
| MemoryMap.LookupIsFirst | src/os/linux/MemoryProtector.cpp:14-24 | in any map, the protection found is that of the first region containing the address |
| MemoryMap.LookupMeaning | src/os/linux/MemoryProtector.cpp:14-24 | that region is the only one containing the address, so any region containing it gives the result |
| MemoryMap.LookupNone | src/os/linux/MemoryProtector.cpp:14-24 | nothing is found exactly if no region contains the address |
| MemoryProtector.AlignDownIsExact | src/Utils.hpp:13-15 | for a power of two, masking rounds down to a multiple |
| MemoryProtector.AlignUpIsExact | src/Utils.hpp:17-19 | for a power of two and any 64-bit value, the result is the least multiple not below the value, or 0 where that multiple does not fit 64 bits |
| MemoryProtector.EveryRequest | src/os/linux/MemoryProtector.cpp:34-47 | the results on requests hold for every 64-bit address and size and every page size that is a power of two |
| MemoryProtector.PagesOfRequest | src/os/linux/MemoryProtector.cpp:43-47 | the first page is that of the address, and the number of pages is the size rounded up, or 0 where that wraps |
| MemoryProtector.ChangedPagesContainRequestIff | src/os/linux/MemoryProtector.cpp:43-47 | the changed pages start at or below the request, and contain it exactly if rounding the size does not wrap and the page offset of the address and that of the last of size bytes together stay within one page |
| MemoryProtector.RequestCanBeMissed | src/os/linux/MemoryProtector.cpp:43-47 | two bytes across a page boundary of which only the first is covered |
| MemoryProtector.ProtectMeaning | src/os/linux/MemoryProtector.cpp:34-48 | a request succeeds exactly if it is permitted, the page of the address is mapped and all pages of the rounded size are; then exactly these pages change, and otherwise none |
| MemoryProtector.RestoredMeaning | src/os/linux/MemoryProtector.cpp:50-57 | restoring gives exactly the same pages the saved protection, if they are mapped and the kernel permits it |
| MemoryProtector.RestoredIffUniform | src/os/linux/MemoryProtector.cpp:34-57 | change and restore give back the pages exactly if they had some one protection, which must be the new one where the kernel refuses to restore |
| MemoryProtector.MixedRangeIsNotRestored | src/os/linux/MemoryProtector.cpp:34-57 | two pages with two protections that change and restore do not give back |
| MemoryProtector.SystemProtBits | src/os/linux/MemoryProtector.cpp:26-32 | each flag asked for becomes the system's flag for it, and no other |
| MemoryProtector.Protector.constructor | src/os/linux/MemoryProtector.cpp:34-48 | in the request and the pages alone: when the request succeeds, which pages then have the flags asked for, which protection is saved, and that nothing changes otherwise |
| MemoryProtector.Protector.Move | include/libhat/memory_protector.hpp:26-30 | the new object has the old one's fields and its duty, and the old one has none |
| MemoryProtector.Protector.Restore | src/os/linux/MemoryProtector.cpp:50-57 | the pages of the request get the saved protection, or stay as they are where the kernel refuses |
| MemoryProtector.Protector.Destroy | include/libhat/memory_protector.hpp:20-24 | restores exactly if the flag is set |
| ProtectorRuns.UndoEarly | include/libhat/memory_protector.hpp:20-24 | a change that no later one overlaps may be undone before them with the same result |
| ProtectorRuns.ConstructKeepsInvariant | src/os/linux/MemoryProtector.cpp:34-48 | after a creation, successful or not, undoing the open changes still gives the initial pages, and each set protector owns one change |
| ProtectorRuns.MoveKeepsInvariant | include/libhat/memory_protector.hpp:26-30 | a move passes on the change and keeps the invariant |
| ProtectorRuns.DestroyKeepsInvariant | include/libhat/memory_protector.hpp:20-24 | a destruction that the kernel does not refuse undoes the object's change, if it has one, and keeps the invariant |
| ProtectorRuns.DisciplineMeaning | include/libhat/memory_protector.hpp:15-48 | what a run must keep to, in pages: a successful creation finds one protection, and the protector of the latest open change may always end |
| ProtectorRuns.TouchesMeaning | src/os/linux/MemoryProtector.cpp:43-47 | the pages by which protectors overlap are those from the page of the address on for the rounded size |
| ProtectorRuns.RunKeepsInvariant | include/libhat/memory_protector.hpp:15-48 | every run of creations, moves and destructions keeps the invariant |
| ProtectorRuns.FinishedRunRestoresPages | include/libhat/memory_protector.hpp:15-48 | after a run with no protector left set the pages are as at the start, and every change made was undone exactly once |
| ProtectorProgram.Program.Construct | src/os/linux/MemoryProtector.cpp:34-48 | creating a real protector takes the pages and the live objects where the event of a run takes them |
| ProtectorProgram.Program.Move | include/libhat/memory_protector.hpp:26-30 | so does moving one |
| ProtectorProgram.Program.Destroy | include/libhat/memory_protector.hpp:20-24 | so does destroying one, whether or not the kernel lets it restore |
| ProtectorProgram.Program.Replay | include/libhat/memory_protector.hpp:15-48 | real protectors go through any possible run and end in its world |
| ProtectorProgram.RunProgram | include/libhat/memory_protector.hpp:15-48 | after a disciplined run of real protectors that leaves none set, the pages are as at the start |

## Left out

- The three x86 scans are one algorithm at sizes 16, 32 and 64. That SSE lacks the early `continue` for an empty mask, and that AVX512 tests whole 64-bit groups for zero instead of the vector, makes no difference to the algorithm and is not distinguished.
- The intrinsics beyond equal lanes, movemask, narrowing shift, bit operations and zero test; these are the functions of `Words` and `Lanes`.
- Addresses are unbounded, so spans at the very top of the address space, where pointer arithmetic would wrap, are not modelled.
- NeonScanner.FindPattern: requires that four times the anchor's index fits an int, because the program multiplies as int and overflow is undefined there.
- StringConversion.ParseInt: for signed types of 32 bits and more, overflow is undefined in the program; the model wraps there, and ExactIfMagnitudeFits covers the inputs for which this cannot occur.
- SignatureParser.CompileSignature: the array is filled from the elements written rather than through an output iterator in the middle of the loop, and a failure is a result rather than a compile error.
- FrequencyRanking.MakeTable: the hexadecimal formatting of the tables and the printed percentage are left out; the table is returned as a value.
- The literal 512-entry tables: any table of 512 strictly sorted pairs with scores below 512 is allowed.
- The hint tables compiled in and the features of the processor are parameters (`Context.HintTables`, `Context.System`).
- MemoryMap.RegionHasFlag: the lines of the map are a parameter, and the regions in them are assumed non-empty, ascending and without overlap, as the kernel writes them. That the map may change during the walk is not modelled.
- `mprotect` changes all pages of a request or none. Refusal for the kernel's own reasons is a parameter of the constructor and of the destructor.
- ProtectorRuns.FinishedRunRestoresPages: for runs in which each changed range had one protection, overlapping protectors end in the reverse of their order, and the kernel does not refuse to restore; RestoredIffUniform shows why the first and the last are needed. Pages are neither mapped nor unmapped during a run.
- `scan_result`'s reads and relative addresses, conversions of bytes and objects to signatures, module and section lookup.
- `find_vtable`, which finds virtual tables by tracing how each compiler lays out type information.
- Windows and macOS process and protection code, which are thin wrappers around operating-system calls; the bindings for other languages, which marshal arguments; and the utility types `cow`, `cstring_view`, `fixed_string` and `result`.
- Scanning for signatures without a fully masked byte, or without elements, which the documentation declares undefined.
