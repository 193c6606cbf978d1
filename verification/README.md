# Verified models of the test programs

A Dafny model of the algorithms in this repository of small C programs, with proofs of what they
compute. `dafny verify dfyconfig.toml` checks everything.

- **Ethernet CRC** (`crc32/crc32.c`): the hex reader, the shift register and the printed frame check
  sequence. The register is shown to be the remainder of a polynomial division as section 3.2.9 of
  IEEE 802.3-2012 defines it, the disabled long-division step to be its slow form, the register read
  backwards to be the table-driven CRC of section 8 of RFC 1952, every burst of up to 32 bits to be
  detected, and the residue after a frame and its own check sequence to be constant.
- **Forwarding table** (`cuda_iplookup/cuda_iplookup.cu`): painting prefixes into a flat table is
  shown to implement longest-prefix match, and every interleaving of the GPU threads to give the
  results of the sequential loop.
- **Internet checksum** (`ip_fast_checksum/ip_fast_checksum.c`, `ipsum/ipsum.c`): the x86 carry
  chain and the plain sum against RFC 1071, their byte-order relation, the checksum round trip and
  the exact reach of the single fold.
- **Packet pipe** (`bypass_ipstack/genpipe.c`): the line buffer and hex decoder of `genpipe_write`
  under arbitrary chunking, the sliding-window symbol search of `get_table_entry`, and the scan that
  redirects calls in `hook_ixgbe`.

## Layout

| file | content |
|---|---|
| `Unsigned.dfy`, `BitWords.dfy`, `Characters.dfy`, `Wrappers.dfy` | unsigned integers as values, words as lists of bits, hex digits, `Option` |
| `Crc32.dfy` | the program, its two step forms, its loops |
| `CrcDetection.dfy`, `CrcPolynomial.dfy`, `CrcReflected.dfy`, `CrcResidue.dfy` | what the register is and what it detects |
| `PrefixMasks.dfy`, `FibTable.dfy`, `IpLookup.dfy` | masks, table painting, host and GPU lookup |
| `OnesComplement.dfy`, `IpFastCsum.dfy`, `IpSum.dfy` | RFC 1071 arithmetic and the two programs |
| `GenpipeText.dfy`, `GenpipeWrite.dfy`, `GenpipeHex.dfy` | the pipe as a specification, its buffers, its decoder beside the CRC program's reader |
| `KallsymsSearch.dfy`, `KallsymsLines.dfy` | the window search, and the same on a file of lines |
| `HookIxgbe.dfy` | the scan and its patches |

In the CRC modules an unsigned int is the list of its 32 bits, bit 0 first, and `^`, `|`, `~`, `<<`,
`>>` act on the lists. Elsewhere an unsigned integer is its value and wrap-around is written out.
Specifications that several proofs need are plain functions; the loops and buffers of the programs
are methods, or a class, proved against them.

## Model

| member | source | states |
|---|---|---|
| Crc32.Rev8 | crc32/crc32.c:5-12 | the loop reverses the order of the eight bits |
| Crc32.Rev32 | crc32/crc32.c:14-21 | the loop reverses the order of the 32 bits |
| BitWords.ReverseInvolution | crc32/crc32.c:5-21 | both reversals undo themselves, for words of any width |
| BitWords.WordValue | crc32/crc32.c:50 | the number that a word of eight hex digits stands for |
| Characters.HexDigitsAsWritten | crc32/crc32.c:38 | the codes of the hex digits and their values |
| Crc32.TwoDigitsRead | crc32/crc32.c:34-47 | two hex digits in a row are read as one byte, the first one on top |
| Crc32.ReadHexDigit | crc32/crc32.c:34-43 | a reading loop finds the next hex digit, or that none is left before the end of the input or a '!' |
| Crc32.FeedByte | crc32/crc32.c:48-58 | the bit loop runs the register over the byte's bits, least significant first |
| Crc32.BytewiseReversal | crc32/crc32.c:63-66 | reversing byte by byte is reversing the word and swapping its bytes |
| Crc32.PrintedFcs | crc32/crc32.c:63-70 | the final reversal and complement give the printed word |
| Crc32.EthernetFcs | crc32/crc32.c:23-73 | for any input the program prints the check sequence of the bytes its hex digits stand for, an odd last digit dropped |
| Crc32.RunAppend | crc32/crc32.c:33-59 | feeding two streams in turn is feeding their concatenation |
| CrcDetection.StepLinear | crc32/crc32.c:54 | the step is linear over GF(2) in register and data bit together |
| CrcDetection.RunLinear | crc32/crc32.c:48-58 | so is a run over streams of any length |
| CrcDetection.SameRegister | crc32/crc32.c:48-58 | two streams reach the same register if and only if their difference takes zero back to zero |
| CrcDetection.StepBack | crc32/crc32.c:54 | divisibility by 2^m after a step means no feedback and divisibility by 2^(m-1) before, because the generator is odd |
| CrcDetection.BurstDetectedInBits | crc32/crc32.c:48-58 | streams that differ only inside 32 consecutive bits never meet, for every common prefix, suffix and start value |
| CrcDetection.FcsWordInjective | crc32/crc32.c:63-70 | different registers print different words |
| CrcDetection.BurstDetected | crc32/crc32.c:48-70 | two messages that differ only inside a window of 32 bits have different registers and different printed words |
| CrcDetection.Window33 | crc32/crc32.c:50-54 | in a window of 33 bits exactly one difference goes undetected, the generator itself |
| CrcPolynomial.ActiveFormDivides | crc32/crc32.c:54 | after every stream, start·x^n + message·x^32 equals quotient·generator + register, coefficient by coefficient |
| CrcPolynomial.PlainFormDivides | crc32/crc32.c:51-52 | the same for the disabled step and start·x^n + message |
| CrcPolynomial.UniqueRemainder | crc32/crc32.c:50 | a polynomial has only one remainder of degree below 32 |
| CrcPolynomial.ActiveFormIsRemainder | crc32/crc32.c:54 | a word is the register after a stream if and only if it is the remainder of start·x^n + message·x^32 |
| CrcPolynomial.PlainFormIsRemainder | crc32/crc32.c:51-52 | a word is the disabled form's register if and only if it is the remainder of start·x^n + message |
| CrcPolynomial.ActiveEqualsPlain | crc32/crc32.c:51-55 | from register 0 the active form on any message ends where long division ends on the message and 32 zero bits |
| CrcPolynomial.PresetIsComplement | crc32/crc32.c:31-58 | the preset to ones is complementing the first 32 bits of a message that has them |
| CrcPolynomial.RegisterIsIeeeRemainder | crc32/crc32.c:31-58 | the register of a frame of four bytes or more is the remainder that IEEE 802.3 section 3.2.9 defines, and nothing else is |
| CrcReflected.ReversedGenerator | crc32/crc32.c:50 | the generator read backwards is 0xEDB88320 |
| CrcReflected.GeneratorValues | crc32/crc32.c:50 | both as numbers, 0x04C11DB7 and 0xEDB88320 |
| CrcReflected.ReversedRun | crc32/crc32.c:14-21 | the register read backwards follows the right-shifting recurrence on every stream |
| CrcReflected.TableStep | crc32/crc32.c:48-58 | eight steps of that recurrence are one table step of RFC 1952 |
| CrcReflected.PrintedIsSwappedRfc1952 | crc32/crc32.c:31-70 | the printed word is the RFC 1952 CRC of the bytes with its bytes swapped |
| CrcResidue.PrintedHexRoundTrip | crc32/crc32.c:70 | reading the eight printed digits back gives the bytes of the printed word, top byte first |
| CrcResidue.PrintedCharacters | crc32/crc32.c:70 | which eight characters are printed for a word: upper-case hex digits, most significant first |
| CrcResidue.HexBytesAppend | crc32/crc32.c:33-47 | behind whole bytes and without a '!' a text can be continued by another |
| CrcResidue.PrintedFcsBits | crc32/crc32.c:63-70 | the printed bytes carry the complemented register, top bit first |
| CrcResidue.PrintedBytesGiveResidue | crc32/crc32.c:48-70 | feeding the printed bytes leaves the register at 0xC704DD7B whatever it was |
| CrcResidue.ResidueIffFcs | crc32/crc32.c:48-70 | four bytes behind a message leave 0xC704DD7B if and only if they are its check sequence |
| CrcResidue.ConstantResidue | crc32/crc32.c:33-70 | a text followed by the digits printed for it ends at the residue, and the program prints the self check |
| CrcResidue.SelfCheckPrinted | crc32/crc32.c:70 | residue and self check as numbers, and the latter as it is printed, 1CDF4421 |
| CrcResidue.ZeroBytePrinted | crc32/crc32.c:23-73 | for the text "00" the program prints 8DEF02D2 |
| PrefixMasks.AndMask | cuda_iplookup/cuda_iplookup.cu:74 | `&` with the prefix mask clears the low bits |
| PrefixMasks.OrMask | cuda_iplookup/cuda_iplookup.cu:75 | or-ing the low mask sets the low bits |
| PrefixMasks.MaskedEquality | cuda_iplookup/cuda_iplookup.cu:74-75 | equality under the mask is equality of prefixes |
| PrefixMasks.MaskIsRange | cuda_iplookup/cuda_iplookup.cu:74-79 | for prefixes of at most 24 bits, equality under the mask is lying between the painted ends |
| FibTable.LoadFib | cuda_iplookup/cuda_iplookup.cu:48-59 | the loop keeps the lines that pass the filter, in order, as OneMoreLine describes them |
| FibTable.OneMoreLine | cuda_iplookup/cuda_iplookup.cu:50-57 | a line with a first number of at most 255 and a length of at most 24 adds one entry behind the others, with its gateway, its length as a byte and, for octets, its address; any other line adds nothing |
| FibTable.LoadedEntries | cuda_iplookup/cuda_iplookup.cu:50-58 | exactly those lines are loaded, and no prefix longer than 24 bits unless a length is negative |
| FibTable.OctetsInOrder | cuda_iplookup/cuda_iplookup.cu:52 | the address has the line's four numbers as octets, the first one on top, if and only if they are octets |
| FibTable.OverlappingOctets | cuda_iplookup/cuda_iplookup.cu:50-52 | 1.256.0.0 passes the filter and is loaded as 1.0.0.0 |
| FibTable.SubnetKept | cuda_iplookup/cuda_iplookup.cu:53 | the stored length is the line's if and only if that is not negative |
| FibTable.NegativeLength | cuda_iplookup/cuda_iplookup.cu:50-53 | a length of -232 passes the filter and is stored as 24 |
| FibTable.SearchIsLongestMatch | cuda_iplookup/cuda_iplookup.cu:68-86 | the linear search used as specification finds the longest match, the highest index on a tie, and nothing only if nothing matches |
| FibTable.LastPainterIsLongestMatch | cuda_iplookup/cuda_iplookup.cu:68-86 | at every point of the three loops the last painter of a cell is the longest match among the entries painted so far |
| FibTable.PaintingRefinesSearch | cuda_iplookup/cuda_iplookup.cu:64-87 | when all passes are over the last painter is what the search finds |
| FibTable.PaintRange | cuda_iplookup/cuda_iplookup.cu:79-82 | the inner loop overwrites exactly one entry's range |
| FibTable.MappingFib | cuda_iplookup/cuda_iplookup.cu:64-87 | one read at `ip>>8` gives the gateway of the longest match of length 2 to 24; uncovered cells keep their value, 0 in a cleared table |
| FibTable.MatchesMeans | cuda_iplookup/cuda_iplookup.cu:74-75 | an entry matches an address if as many leading bits agree as its length says |
| FibTable.TableShowsLongestMatch | cuda_iplookup/cuda_iplookup.cu:64-87 | what a table of 2^24 cells shows, told on the entries: the gateway of the longest match, the last of several, 0 without any |
| FibTable.ShortPrefixesIgnored | cuda_iplookup/cuda_iplookup.cu:50-68 | at an address the table agrees with longest-prefix match over all loaded prefixes if and only if the longest match is no prefix of length 0 or 1 with a gateway other than 0 |
| FibTable.TableIsComplete | cuda_iplookup/cuda_iplookup.cu:50-68 | it agrees at all addresses if and only if no address has such a longest match |
| FibTable.DefaultRouteIgnored | cuda_iplookup/cuda_iplookup.cu:50-68 | a default route is loaded but never found |
| IpLookup.ProductsFit | cuda_iplookup/cuda_iplookup.cu:96 | none of the signed 32-bit products overflows if and only if count·total does not; the benchmark's do not |
| IpLookup.OverflowExample | cuda_iplookup/cuda_iplookup.cu:96 | 2^25 queries on 64 threads overflow, and the last slice would end at -2^25 |
| IpLookup.ValidLaunch | cuda_iplookup/cuda_iplookup.cu:90-97 | which launches the theorems speak of, the benchmark's among them |
| IpLookup.SliceEnds | cuda_iplookup/cuda_iplookup.cu:93-96 | the first slice starts at 0 and the last ends at count |
| IpLookup.SliceLength | cuda_iplookup/cuda_iplookup.cu:93-96 | slices differ in length by at most one |
| IpLookup.SlicesPartition | cuda_iplookup/cuda_iplookup.cu:93-96 | every query belongs to exactly one thread |
| IpLookup.IpLookupHost | cuda_iplookup/cuda_iplookup.cu:101-113 | the loop answers every query by one table read and touches nothing else |
| IpLookup.IpLookupGpu | cuda_iplookup/cuda_iplookup.cu:90-98 | one thread answers exactly its slice |
| IpLookup.StepConsistent | cuda_iplookup/cuda_iplookup.cu:96-97 | every read or store of any thread keeps the invariant of all threads |
| IpLookup.EveryScheduleAgrees | cuda_iplookup/cuda_iplookup.cu:90-113 | every schedule that runs all threads to the end leaves the host's results |
| IpLookup.CompleteIffAllSteps | cuda_iplookup/cuda_iplookup.cu:96-97 | a schedule is complete if and only if it contains two steps of running threads per query, in whatever order |
| IpLookup.EveryScheduleCanComplete | cuda_iplookup/cuda_iplookup.cu:90-113 | whatever steps have been taken, some further steps complete the schedule, with the host's results |
| IpLookup.NoSharedQuery | cuda_iplookup/cuda_iplookup.cu:96-97 | two running threads never work on the same query |
| IpLookup.EveryScheduleIsLongestPrefixMatch | cuda_iplookup/cuda_iplookup.cu:64-98 | after `mapping_fib` every complete schedule gives every query its longest-prefix gateway |
| OnesComplement.OnesSumStandsForSum | ipsum/ipsum.c:8-13 | the end-around-carry sum is fixed by the plain sum: congruent modulo 65535, zero only for zero |
| OnesComplement.HalvesAsWritten | ip_fast_checksum/ip_fast_checksum.c:74-97 | the 16-bit halves from their bytes, in both byte orders |
| OnesComplement.Rfc1071Example | ipsum/ipsum.c:8-13 | the numerical example of RFC 1071, section 3 |
| OnesComplement.ByteOrderIndependence | ip_fast_checksum/ip_fast_checksum.c:74-97 | sum and checksum of the byte-swapped words are the byte-swapped sum and checksum |
| IpFastCsum.ChainStep | ip_fast_checksum/ip_fast_checksum.c:77-80 | an `adcl` keeps register and flag congruent to the total modulo 2^32-1, and a raised flag away from a full register |
| IpFastCsum.NoCarryLost | ip_fast_checksum/ip_fast_checksum.c:84 | the closing `adcl $0` takes the last carry in and raises no other |
| IpFastCsum.FoldStandsFor | ip_fast_checksum/ip_fast_checksum.c:85-88 | the fold to 16 bits never spills and stands for the total |
| IpFastCsum.FoldIsOnesSum | ip_fast_checksum/ip_fast_checksum.c:74-90 | a fold that stands for all 32-bit words is the one's-complement sum of all 16-bit halves |
| IpFastCsum.IpFastCsum | ip_fast_checksum/ip_fast_checksum.c:70-98 | for a header of five words or more the code returns the Internet checksum of all its halves; for four or fewer the early exit returns the low half of the first word |
| IpSum.IpSum | ipsum/ipsum.c:8-13 | the program on any packet: the Internet checksum, or, visible as more than 16 bits, 0x10001 too much |
| IpSum.SingleFoldReach | ipsum/ipsum.c:12-13 | one fold gives the Internet checksum if and only if low and high half of the sum add up without a carry |
| IpSum.SecondFoldIsExact | ipsum/ipsum.c:12-13 | a second fold would be exact for every packet of up to 65536 words |
| IpSum.SingleFoldFails | ipsum/ipsum.c:12-13 | a packet of three words on which one fold is wrong |
| IpSum.ProgramsAgree | ipsum/ipsum.c:8-13 | on every header `ip_fast_csum` is the byte swap of what `ipsum` prints for big-endian words, if and only if one fold suffices |
| IpSum.StoredChecksumVerifies | ip_fast_checksum/ip_fast_checksum.c:74-97 | with x stored in the zeroed field the header checks out if and only if x is the computed checksum or its other representation |
| IpSum.ChecksumRoundTrip | ip_fast_checksum/ip_fast_checksum.c:74-97 | storing the computed checksum makes the header check out, the all-zero header included |
| GenpipeText.CutAnywhere | bypass_ipstack/genpipe.c:594-676 | the frames and the rest of a text cut anywhere are those of its first part followed by those of what is left and the second part |
| GenpipeText.LineFeedEndsLine | bypass_ipstack/genpipe.c:595-597 | a line feed, code 10, ends a line, and only then is its frame sent |
| GenpipeText.FrameAsSent | bypass_ipstack/genpipe.c:566-652 | a frame is fourteen zero bytes and the decoded line, at most 9014 bytes of it, each made of two digits |
| GenpipeText.DigitsAsWritten | bypass_ipstack/genpipe.c:610-630 | 0 to 9 and all letters carry digits, the same in both cases, up to 35 |
| GenpipeText.AcceptedIsFront | bypass_ipstack/genpipe.c:579-589 | of a chunk the front is taken in, as much as the capacity |
| GenpipeText.ZeroByteIsSent | bypass_ipstack/genpipe.c:559-681 | "00" and a line feed written to an empty pipe send fifteen zero bytes |
| GenpipeText.DropsToldByText | bypass_ipstack/genpipe.c:571-577 | over every sequence of writes, bytes are dropped if and only if at some write the bytes after the last newline of the text so far are some and do not fit together with the chunk |
| GenpipeText.ChunkingInvariance | bypass_ipstack/genpipe.c:571-676 | over every sequence of writes that drops nothing, the frames are the decoded complete lines of all bytes taken in and the buffer holds what follows the last newline |
| GenpipeText.ChunksThatFit | bypass_ipstack/genpipe.c:579-580 | chunks that fit are taken in whole |
| GenpipeText.WholeLinesAreKept | bypass_ipstack/genpipe.c:571-577 | a writer whose chunks fit and end in a newline never loses a byte |
| GenpipeText.OverflowStartsAfresh | bypass_ipstack/genpipe.c:571-676 | after the last write that overflows, frames and buffer of a run are those of the text from that write on, as from an empty buffer |
| GenpipeText.OverflowLosesBytes | bypass_ipstack/genpipe.c:571-577 | an unfinished line, written in any number of chunks behind any unfinished line, is kept if and only if all of it fits at once |
| GenpipeWrite.Genpipe.constructor | bypass_ipstack/genpipe.c:771-778 | the buffers start empty |
| GenpipeWrite.BufferSizes | bypass_ipstack/genpipe.c:51-56 | the sizes of buffer, headroom and packet |
| GenpipeWrite.Genpipe.StoreDigit | bypass_ipstack/genpipe.c:613-630 | a digit starts or completes a byte behind the headroom; `pos` stays 0 or 1 |
| GenpipeWrite.Genpipe.DecodeLine | bypass_ipstack/genpipe.c:602-632 | the in-place decoder fills the packet with the decoded line, at most MTU bytes, and keeps the headroom zero and the bytes behind the line as they were |
| GenpipeWrite.Genpipe.FindNewline | bypass_ipstack/genpipe.c:595-597 | the search stops at the first line feed, code 10, or at the write pointer |
| GenpipeWrite.Genpipe.MakeRoom | bypass_ipstack/genpipe.c:571-577 | the overflow branch drops the pending bytes and changes nothing otherwise |
| GenpipeWrite.Genpipe.Compact | bypass_ipstack/genpipe.c:669-674 | the unread bytes move to the front unchanged |
| GenpipeWrite.Genpipe.SendLine | bypass_ipstack/genpipe.c:602-674 | one pass of the goto loop sends fourteen zero bytes and the decoded first line, no stale byte among them, and removes that line |
| GenpipeWrite.Genpipe.Write | bypass_ipstack/genpipe.c:559-681 | a call is one step of the specified pipe, keeps the buffer invariant, ends, and returns the number of bytes taken in |
| GenpipeHex.SameDigits | bypass_ipstack/genpipe.c:613-630 | the pipe and the CRC program see the same digits if and only if the line has no letter beyond F and no digit or letter behind a '!' |
| GenpipeHex.DecodersAgree | bypass_ipstack/genpipe.c:605-632 | on such a line the pipe sends the bytes that the CRC program reads |
| GenpipeHex.SameBytes | bypass_ipstack/genpipe.c:605-632 | before the cut at MTU the two make the same bytes of a line if and only if it has no such character, or a single one that leaves no trace: behind an even number of hex digits in all, the digits after it equal to its low four bits, its higher bits set in its partner |
| GenpipeHex.SameFrames | bypass_ipstack/genpipe.c:605-632 | for every line the bytes sent are those that the CRC program reads, cut at MTU, if and only if both see digits for as many bytes and every two digits match in value, the pipe's second one with its higher bits or-ed into the first |
| GenpipeHex.StrayBehindCut | bypass_ipstack/genpipe.c:605-632 | such a character behind the digits of MTU bytes does not show |
| GenpipeHex.DecodersDiffer | bypass_ipstack/genpipe.c:622-630 | on "GG" the pipe sends a byte and the CRC program reads none |
| KallsymsSearch.FirstInWindow | bypass_ipstack/genpipe.c:195-214 | the first match in the window is the first match of the text that does not start before the window, if all of it has been read; a short last read and what it leaves in the window included |
| KallsymsSearch.SweepIsExamine | bypass_ipstack/genpipe.c:187-251 | sliding-window search agrees with whole-text search on every file that ends in a newline: piece by piece, the first match that does not start before the piece is looked at |
| KallsymsSearch.GetTableEntry | bypass_ipstack/genpipe.c:187-251 | on any file and any stale buffer the loop tells whether every step back of 19 bytes stays in the buffer, and if so leaves in every pointer what the specified sweep does |
| KallsymsSearch.StepBackAsWritten | bypass_ipstack/genpipe.c:211-213 | one symbol in one window of twice 64 bytes: the number scanned 19 bytes before the first match, nothing if that leaves the window, no change if the pointer is set |
| KallsymsSearch.OccursMeans | bypass_ipstack/genpipe.c:211 | an occurrence, byte by byte |
| KallsymsSearch.SpaceAsWritten | bypass_ipstack/genpipe.c:213 | the white space that a scan skips |
| KallsymsSearch.NumberAsWritten | bypass_ipstack/genpipe.c:213 | a run of hex digits as a number, digit by digit |
| KallsymsSearch.SearchFinds | bypass_ipstack/genpipe.c:187-251 | if a number other than 0 is scanned for the first match, the pointer ends as that number, without a match as 0, and no step back leaves the buffer |
| KallsymsSearch.StepsOutExactly | bypass_ipstack/genpipe.c:187-251 | on any file that ends in a newline a step back leaves the buffer if and only if in some read the first match of the window starts less than 19 bytes into it, and in no read before that one further in has a number other than 0 in front of it |
| KallsymsSearch.UnaddressedMatch | bypass_ipstack/genpipe.c:213-214 | what follows a first match for which 0 or nothing is scanned: less than 19 bytes into a 64-byte piece the step back leaves the buffer on the next read, else the rest of the piece is passed over |
| KallsymsSearch.BarrenMatches | bypass_ipstack/genpipe.c:213-214 | when 0 or nothing is scanned for every match, a step back leaves the buffer if and only if some match starts less than 19 bytes into a piece and another piece is read behind that; otherwise the pointer stays 0 |
| KallsymsLines.KeyMatch | bypass_ipstack/genpipe.c:211-246 | the first match of a pattern in a line: at the blank before the name if the whole name is searched, else wherever the name first holds the prefix |
| KallsymsLines.PatternAsWritten | bypass_ipstack/genpipe.c:211-244 | a name is searched between a blank, code 32, and a line feed, code 10; a prefix as it is |
| KallsymsLines.FileAsWritten | bypass_ipstack/genpipe.c:187-251 | the bytes of a symbol file, line by line |
| KallsymsLines.FirstPatterns | bypass_ipstack/genpipe.c:211-228 | the first six patterns of the program in their order |
| KallsymsLines.OtherPatterns | bypass_ipstack/genpipe.c:229-246 | the other six |
| KallsymsLines.FirstOccurrence | bypass_ipstack/genpipe.c:211-246 | the first occurrence of a pattern in everything searched is the first match of the first line that holds it, and there is none if no line does |
| KallsymsLines.ScannedForName | bypass_ipstack/genpipe.c:213 | scanning 19 bytes before a whole name gives the line's address, modulo 2^64, behind a blank or a hex digit and nothing behind any other byte |
| KallsymsLines.ScannedForPrefix | bypass_ipstack/genpipe.c:231 | scanning 19 bytes before a prefix found y bytes into a name gives the address without its first y digits, from 16 on the type letter if it is a hex digit, from 18 on what the name holds |
| KallsymsLines.PointerIsAddress | bypass_ipstack/genpipe.c:187-251 | what the search leaves in a pointer is the address on the first line that carries the symbol, 0 when none does, if the first line that holds the pattern carries it and has an address, with the exception of FirstLineName |
| KallsymsLines.FirstLineName | bypass_ipstack/genpipe.c:211-246 | a name on the very first line, its address zero or behind a byte that is neither a blank nor a hex digit: the search steps out of its buffer on a second read |
| KallsymsLines.NamePointer | bypass_ipstack/genpipe.c:211-246 | the pointer of a whole name is right if and only if the first line does not carry it behind a byte that is neither a blank nor a hex digit |
| KallsymsLines.ZeroAddresses | bypass_ipstack/genpipe.c:211-246 | a name whose lines all have a zero address: a step back leaves the buffer if and only if one of them has the blank before the name less than 19 bytes into a piece and another piece is read; else the pointer stays 0 |
| KallsymsLines.PrefixPointer | bypass_ipstack/genpipe.c:229-231 | `ixgbe_clean_rx_irq` is searched with nothing around it; where the first line that holds it has it y bytes into the name, y below 16, and the address digits from y on are not all 0, the pointer is right if and only if y is 0 or these digits are the address meant, and only for y = 0 where such addresses fill their sixteen digits |
| KallsymsLines.PrefixBehindAddress | bypass_ipstack/genpipe.c:229-231 | what happens where these digits are all 0 or y is 16 or 17: the pointer is the type letter if that is a hex digit; else the step back leaves the buffer or the search goes on with the next piece |
| KallsymsLines.StaleByteHidesAddress | bypass_ipstack/genpipe.c:211-246 | a window full of '#' and a file that begins with the line of `ip_rcv`: its address is lost |
| KallsymsLines.ZeroAddressStepsOut | bypass_ipstack/genpipe.c:211-246 | a file of more than 64 bytes that begins with the line of `ip_rcv` and a zero address: the step back leaves the buffer |
| KallsymsLines.ShadowedPrefix | bypass_ipstack/genpipe.c:229-231 | a line whose name has one more character in front takes the pointer from the line meant |
| KallsymsLines.UnderscoreTakesThePointer | bypass_ipstack/genpipe.c:229-231 | two lines, of `_ixgbe_clean_rx_irq` and `ixgbe_clean_rx_irq`, with a wrong pointer |
| KallsymsLines.GetSymbols | bypass_ipstack/genpipe.c:187-251 | the search run on a file of lines gives every symbol the address meant, under the condition of PointerIsAddress |
| KallsymsLines.LookUpSymbols | bypass_ipstack/genpipe.c:187-251 | the search with the program's twelve symbols |
| KallsymsLines.TwoLineFile | bypass_ipstack/genpipe.c:187-251 | on a file of two lines the pointer of `ip_rcv` ends as ffffffff81000040, the address on the second |
| KallsymsLines.SourceKeysAreGood | bypass_ipstack/genpipe.c:211-244 | the twelve symbols looked up are within the reach of the search |
| HookIxgbe.ApplyRules | bypass_ipstack/genpipe.c:374-424 | the checks at one call leave the displacement of the last enabled rule with its target |
| HookIxgbe.RedirectedCall | bypass_ipstack/genpipe.c:375-380 | a patch makes its call go to its hook modulo 2^32 and changes only the four displacement bytes |
| HookIxgbe.CalleeAsWritten | bypass_ipstack/genpipe.c:374-375 | where a call goes, from its four bytes, modulo 2^32 |
| HookIxgbe.CallAcrossTheEnd | bypass_ipstack/genpipe.c:374-379 | a call near the end of the address space and the displacement for another |
| HookIxgbe.RuleOrder | bypass_ipstack/genpipe.c:374-424 | the order of the six checks, the first three always enabled |
| HookIxgbe.HookIxgbe | bypass_ipstack/genpipe.c:356-430 | -1 and no change if and only if `netif_receive_skb`, `ixgbe_clean_rx_irq`, `napi_gro_receive`, `netif_rx` or `__netdev_alloc_skb` is missing; otherwise 0 and the image of the specified scan |
| HookIxgbe.ScanNext | bypass_ipstack/genpipe.c:372-425 | one offset scanned: at a byte 0xe8 the four bytes behind it change so that the hook of the last enabled rule with the callee as target is called; otherwise nothing changes |
| HookIxgbe.ScanIsMeant | bypass_ipstack/genpipe.c:372-425 | if no matching calls overlap and no rewritten bytes form a new match, the scan redirects exactly the matching calls of the original image |
| HookIxgbe.MeantThroughout | bypass_ipstack/genpipe.c:372-425 | the second condition is needed: with hooks that are no targets, the image is as meant at every point of the scan if and only if no rewritten bytes form a new match |
| HookIxgbe.PatchOfAPatch | bypass_ipstack/genpipe.c:372-425 | an image whose redirected call is patched again inside its new displacement and misses its hook |
| HookIxgbe.HookedImage | bypass_ipstack/genpipe.c:372-425 | then every such call goes to its hook and every other byte is the original one |
| HookIxgbe.NoCallBytesIsQuiet | bypass_ipstack/genpipe.c:372-374 | displacements without a byte 0xe8 form no new match |
| HookIxgbe.RedirectionsByLevel | bypass_ipstack/genpipe.c:372-425 | with distinct targets, at which level the calls of each of the six functions in the image end up at its hook, and at which they stay as they were |

## Where the code and its promises differ

- `load_fib` accepts prefixes of length 0 and 1, `mapping_fib` starts at 2: a default route has no
  effect (`FibTable.ShortPrefixesIgnored`).
- `ipsum` folds once (`IpSum.SingleFoldReach` says when that is enough).
- `load_fib` checks only the first number and an upper bound on the length, so other numbers may
  overlap in the address (`FibTable.OverlappingOctets`; exact condition: `FibTable.OctetsInOrder`)
  and a negative length is cut to a byte (`FibTable.NegativeLength`, `FibTable.SubnetKept`).
- The pipe takes the letters G to Z for digits and knows no '!' (`GenpipeHex.DecodersDiffer`;
  `GenpipeHex.SameBytes` and `GenpipeHex.SameFrames` say when that shows), and drops a pending
  line when the next chunk does not fit behind it (`GenpipeText.OverflowLosesBytes`, `GenpipeText.DropsToldByText`).
- `get_table_entry` scans the address of a match on the very first line from the byte before the
  file, which is whatever the stack held (`KallsymsLines.StaleByteHidesAddress`; exact condition:
  `KallsymsLines.NamePointer`).
- It searches `ixgbe_clean_rx_irq` with nothing around it, so that a name with something in front of
  it, `_ixgbe_clean_rx_irq` say, takes the pointer (`KallsymsLines.UnderscoreTakesThePointer`; exact
  condition: `KallsymsLines.PrefixPointer`). This pointer only enables `hook_ixgbe`.
- Where an address is zero, as for readers without privileges, it keeps searching and may read in
  front of its buffer (`KallsymsLines.ZeroAddressStepsOut`; exact condition:
  `KallsymsLines.ZeroAddresses`, for all files `KallsymsSearch.StepsOutExactly`).
- A patch of `hook_ixgbe` can form a new call that the scan then patches
  (`HookIxgbe.PatchOfAPatch`; exact condition: `HookIxgbe.MeantThroughout`).
- The comment on `ip_fast_csum` asks for the length divided by 4 while `main` passes a byte count;
  the model follows the comment.

## Left out

- Kernel services: `file_open`, `copy_from_user`, skb allocation and transmission, device
  registration, RCU lists, `printk`. Reads deliver a file in 64-byte pieces, copies and allocations
  succeed, sending appends to a sequence.
- Page-table entries in `hook_ixgbe`: `get_pte` succeeds and making a page writable has no effect.
- The overlapping `memcpy` that compacts the line buffer is a move.
- `driver_top` and `driver_bottom`: the search for the module's address range looks only at the
  first module line of each window, so it promises no exact result; the range is a parameter of
  the scan.
- `ptype_base[1..]`, which is filled in from `ptype_base[0]` with a kernel constant.
- `strnstr` and `sscanf` are modelled on windows without NUL bytes and numbers without a sign or a
  `0x` prefix. A number of more than sixteen digits is reduced modulo 2^64; C leaves it undefined.
- KallsymsSearch.GetTableEntry: when a step back leaves the buffer it only says so, because what lies
  in front of the buffer is not known.
- `fscanf` parsing, `rand` and the size limit of the table in `load_fib`; lines arrive as numbers.
- Memory ordering on the GPU beyond interleaving of single reads and stores, and OpenMP.
- The receive hooks, counters and `poll` of the packet pipe: pass-throughs to the kernel.
- `kmem`, `pmem`, `memory`, `mmap`, `membench`, `rdtsc`, `pci_enabler_module`, `player575`, timing
  code and scripts: hardware access, measurement and user interface.
