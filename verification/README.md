# A verified model of the DABstar receiver core

DABstar receives DAB and DAB+ radio. Below its user interface it holds integer-only coding and protocol code. This
project models that code in Dafny and proves what it is for.

* **Reed-Solomon** (clause 6 of ETSI TS 102 563): the field GF(2^8) in tables, the encoder, Horner syndromes,
  Berlekamp-Massey on truncated arrays, Chien search, Forney, and full correction of up to nroots/2 symbols for every
  even number of roots from 2 to 252 and every cut length. Soundness of a reported success is decided for every block.
* **Multiplex configuration** (sections 6.2 to 6.4 of EN 300 401): the FIB parser with current and next configuration,
  restart and reconfiguration; the no-overlap rule over every run; harmless repetition; loading states and signals; the
  CIF slices; and the ETI frames of ETS 300 799, read back by an independent reader.
* **Concurrency**: the lock-free ring buffer and the 25-slot hand-off of the threaded backend as interleaved atomic steps.
* **Interleaving, puncturing and checks**: the time de-interleaver behind that hand-off, the frequency permutation, the
  puncturing codes and profiles against the sub-channel sizes, the CRC in its table and bit-serial forms, and the Fire
  code with its syndrome table.
* **Calendar**: Modified Julian Dates and local time.

`dafny verify dfyconfig.toml` checks everything. Loops and in-place updates of the program are methods and classes here;
each is proved against a function of its input, and the laws are lemmas about these functions. Symbols, bytes and words
are made of bits, so that field and polynomial laws are decided bit by bit. The Reed-Solomon parameters are those the
program passes: symbols of 8 bits, field polynomial 0435 (octal), first root 0, primitive element 1; the number of roots
is free.

Main results: `ReedSolomonCodec.CodecCorrects`, `RsSoundness.LeavesCodeword`, `RsDistance.BoundedDistance`,
`RsEncoder.EncodedIsMultiple`, `FibInvariant.RunInv`, `FibLearning.FibLearned`, `FibRepetition.RepetitionHarmless`,
`FibLoading.SignalsOrderly`, `RingBufferProtocol.Refines`, `BackendHandOff.RunDrained`, `Deinterleaver.ThreadedDelivery`,
`FireExactly.BurstUndoneExactly`, `Depuncturing.RunCarries`, `CrcCheck.CheckersAgree`,
`FreqInterleaver.MapperBijection`, `EtiReader.StreamRecovered` and `Calendar.DateOfCount`.

Findings, where the code does not do what one would expect:

* `decode_rs` can report success and leave a block that is not a codeword. One family has a lone nonzero last syndrome
  (`RsSoundness.UndetectedBlock`); another has wrong parity symbols, which the search finds but decode_rs neither
  counts nor writes back (`RsSoundness.ParityErrors`). `RsSoundness.LeavesCodeword` says exactly when the block left behind is a codeword.
* `pow_poly` of a zero symbol is 1, for every exponent (`GaloisTables.Galois.PowPoly`); the codec does not call it.
* `check_and_correct_6bits` does not correct every burst of up to six bits. 101111 is never corrected, 11101 not across
  two bytes, and six bits not with three in each of two bytes; these are not in the table. 21 others share their syndrome
  with a burst entered before them and are miscorrected, because bursts from x[1] into x[2] wrap around the code word.
  `FireExactly.BurstUndoneExactly` is the exact condition, `FireExactly.TwoBitsLost` an example.
* The profile for 80 kbit/s at protection level 1 takes 404 bits less than the sub-channel carries
  (`Puncturing.ShortProfile`): the second puncturing code is 7 where all other rows of level 1 have 17 to 20.
  `Puncturing.UepAgrees`: it is the only such row.
* FIG 0/1 and FIG 0/3 skip a known entry by the length of the entry held, not of the one sent
  (`FibLearning.InStepExactly`); sent in the other form, it puts the parser out of step for the rest of the FIG.
* FIG 0/3 reads the CAOrg field 40 bits behind its place (`FibLayout.PacketStored`); the comment in the code and
  section 6.3.2 of EN 300 401 put it directly behind the packet address.
* `_round_up_to_next_power_of_2` yields 0 above 2^31.
* A received CIF count with an upper part above 20 that is no multiple of 4 gives a wrong frame phase
  (`EtiFrame.CountTrue`).

## Model

| member | source | states |
|---|---|---|
| Gf256.ExpInjective | src/base/backend/galois.cpp:37-64 | the first 255 powers of the generator of GF(2^8) modulo x^8+x^4+x^3+x^2+1 differ: 0435 octal is primitive |
| Gf256.ExpOnto | src/base/backend/galois.cpp:37-64 | every nonzero symbol is one of these powers, so the logarithm table has no gap |
| Gf256.MulComm | src/base/backend/galois.cpp:101-108 | carry-less multiplication modulo the field polynomial is commutative |
| Gf256.MulAssoc | src/base/backend/galois.cpp:101-108 | ... and associative |
| Gf256.Distrib | src/base/backend/galois.cpp:76-108 | ... and distributes over exclusive or |
| Gf256.MulNonZero | src/base/backend/galois.cpp:101-108 | a product is zero only if a factor is |
| Gf256.MulInv | src/base/backend/galois.cpp:115-122 | every nonzero symbol has an inverse |
| GaloisTables.FillTables | src/base/backend/galois.cpp:37-64 | the shift-and-reduce loop fills alpha_to with the powers and index_of with their logarithms: the tables are mutual inverses |
| GaloisTables.TablesComplete | src/base/backend/galois.cpp:37-64 | for every one of the 256 symbols index_of holds its logarithm, 255 for zero |
| GaloisTables.Galois.constructor | src/base/backend/galois.cpp:37-64 | both tables are right after construction |
| GaloisTables.Galois.ModNn | src/base/backend/galois.cpp:66-74 | the fold-and-subtract loop ends and yields x mod 255 for every x >= 0 |
| GaloisTables.Galois.MultiplyPoly | src/base/backend/galois.cpp:101-108 | table multiplication is carry-less multiplication modulo the field polynomial, zero included |
| GaloisTables.Galois.DividePoly | src/base/backend/galois.cpp:115-122 | table division undoes multiplication; a zero divisor returns the dividend |
| GaloisTables.Galois.PowPoly | src/base/backend/galois.cpp:134-142 | pow_poly through pow_power is the repeated product for every nonzero symbol and exponent; a zero symbol gives 1 |
| Poly.RootBound | src/base/backend/reed_solomon.cpp:368-403 | a polynomial with as many distinct roots as coefficients is zero |
| Poly.SimpleRoot | src/base/backend/reed_solomon.cpp:196-236 | if a polynomial has as many distinct roots as its degree, its formal derivative is nonzero at each: the Forney denominator cannot vanish |
| PowerSums.Vandermonde | src/base/backend/reed_solomon.cpp:251-292 | power sums of distinct points that vanish for as many exponents as points have zero weights |
| PowerSums.ConvPowerSum | src/base/backend/reed_solomon.cpp:294-362 | convolving a polynomial with power sums evaluates its partial sums at the inverse points |
| BerlekampMassey.LamStep | src/base/backend/reed_solomon.cpp:318-362 | one step keeps the invariant: the new Lambda starts with 1 and the product with the syndromes vanishes from position L to K-1, although the arrays are cut to nroots entries |
| BerlekampMassey.CorStep | src/base/backend/reed_solomon.cpp:332-351 | one step keeps the invariant of the corrector polynomial |
| BerlekampMassey.RunGood | src/base/backend/reed_solomon.cpp:294-362 | the invariant holds after every step, for every syndrome vector |
| BerlekampMassey.LocatorGenerates | src/base/backend/reed_solomon.cpp:294-362 | the final Lambda generates all nroots syndromes with the final register length |
| BerlekampMassey.LengthBound | src/base/backend/reed_solomon.cpp:294-362 | the register length is at most the number of points of any power sum representation of the syndromes |
| BerlekampMassey.LocatorRoot | src/base/backend/reed_solomon.cpp:294-362 | with at most nroots/2 errors, the inverse of every error location is a root of Lambda |
| Forney.EvaluatorAtRoot | src/base/backend/reed_solomon.cpp:196-236 | at a root of Lambda, Omega is error value times root times derivative: the quotient formed by decode_rs is the error value |
| RsCode.SyndromesArePowerSums | src/base/backend/reed_solomon.cpp:251-292 | Horner syndromes of a received word are the power sums of its error positions and values |
| RsEncoder.GeneratorRoot | src/base/backend/reed_solomon.cpp:40-83 | the generator polynomial built by the constructor vanishes at all nroots powers |
| RsEncoder.GeneratorNonZero | src/base/backend/reed_solomon.cpp:97-107 | no coefficient of the generator polynomial is zero, for every nroots below 255: the unguarded logarithms in encode_rs are sound |
| RsEncoder.EncodedIsMultiple | src/base/backend/reed_solomon.cpp:85-113 | message followed by parity is, coefficient by coefficient, the product of the generator polynomial and the sequence of feedbacks, for a message of any length |
| RsEncoder.ParityRemainder | src/base/backend/reed_solomon.cpp:85-113 | the register holds the remainder: message times x^nroots is feedbacks times generator plus parity, an identity of coefficients, and parity has nroots symbols |
| RsEncoder.PolyMulEval | src/base/backend/reed_solomon.cpp:40-83 | the value of that product is the product of the values, so roots of the generator are roots of every encoded word |
| RsEncoder.EncodedIsCodeword | src/base/backend/reed_solomon.cpp:85-113 | all nroots syndromes of an encoded word vanish |
| RsDecoder.RootListBound | src/base/backend/reed_solomon.cpp:368-403 | the search finds at most deg(Lambda) roots, so the root and location tables cannot overflow |
| RsDecoder.RootIffError | src/base/backend/reed_solomon.cpp:368-403 | with at most nroots/2 errors, the search hits exactly the error positions |
| RsDecoder.LocatorDegree | src/base/backend/reed_solomon.cpp:294-362 | with at most nroots/2 errors, degree and register length both equal the number of errors |
| RsDecoder.CorrectionIsError | src/base/backend/reed_solomon.cpp:196-236 | the value computed by Forney's formula is the error value, and neither numerator nor denominator is zero |
| RsDecoder.DecodeCorrects | src/base/backend/reed_solomon.cpp:160-247 | every word within nroots/2 symbols of a codeword is decoded to its data symbols; the result counts the corrected data symbols |
| RsSoundness.RootsExplain | src/base/backend/reed_solomon.cpp:196-247 | if the search succeeds and the register length equals the degree, the computed corrections explain all syndromes |
| RsSoundness.DecodeSound | src/base/backend/reed_solomon.cpp:160-247 | for any block whatever: when the search succeeds, the fully corrected block is a codeword if and only if the register length equals the degree of Lambda |
| RsSoundness.SearchedIsCodeword | src/base/backend/reed_solomon.cpp:160-247 | when the search succeeds, the block decode_rs leaves is a codeword if and only if the register length equals the degree of Lambda and every root lies in the data part |
| RsSoundness.LeavesCodeword | src/base/backend/reed_solomon.cpp:160-247 | for any block whatever: what decode_rs leaves is a codeword if and only if the syndromes vanish, or there are as many roots as the degree and as the register length, all in the data part |
| RsSoundness.FailsExactly | src/base/backend/reed_solomon.cpp:160-247 | for any block whatever: failure is reported if and only if the syndromes do not vanish and the search finds another number of roots than the degree of Lambda; the block is then untouched |
| RsSoundness.ParityErrors | src/base/backend/reed_solomon.cpp:228-247 | a codeword with 1 to nroots/2 wrong symbols, all in the parity part, is returned as it came with result 0 and is no codeword |
| RsDistance.NearestUnique | src/base/backend/reed_solomon.cpp:160-247 | at most one codeword lies within nroots/2 symbols of a block |
| RsDistance.BoundedDistance | src/base/backend/reed_solomon.cpp:294-403 | a codeword lies within nroots/2 symbols of a block if and only if the search finds as many roots as the degree, the register is as long, and twice that is at most nroots; the codeword is unique |
| RsSoundness.LoneLastSyndrome | src/base/backend/reed_solomon.cpp:332-351 | a lone nonzero last syndrome leaves Lambda = 1 |
| RsSoundness.UndetectedBlock | src/base/backend/reed_solomon.cpp:160-247 | a block that is not a codeword and yet is returned unchanged with result 0: success does not imply zero syndromes |
| ReedSolomonCodec.BuildGenerator | src/base/backend/reed_solomon.cpp:40-83 | the nested loops compute the generator polynomial |
| ReedSolomonCodec.EncodeSymbol | src/base/backend/reed_solomon.cpp:92-112 | one data symbol through the register in place, in logarithms, is one step of polynomial division |
| ReedSolomonCodec.GetSyndrome | src/base/backend/reed_solomon.cpp:251-272 | the loop in logarithms evaluates the block at the root |
| ReedSolomonCodec.ComputeSyndromes | src/base/backend/reed_solomon.cpp:274-292 | fills the syndromes and reports whether all vanish |
| ReedSolomonCodec.ComputeLambda | src/base/backend/reed_solomon.cpp:294-366 | the in-place loop computes the Lambda of the invariant, its logarithms and its degree |
| ReedSolomonCodec.ChienRound | src/base/backend/reed_solomon.cpp:381-394 | after round i every active register entry is the logarithm of Lambda_j times alpha^(ij), and the sum is the value of Lambda at alpha^i |
| ReedSolomonCodec.ComputeErrors | src/base/backend/reed_solomon.cpp:368-410 | the recorded roots are exactly those among 1..255, in order, with their locations; -1 unless they are as many as the degree |
| ReedSolomonCodec.ComputeOmega | src/base/backend/reed_solomon.cpp:412-440 | computes the evaluator polynomial and its degree |
| ReedSolomonCodec.EvalDerivative | src/base/backend/reed_solomon.cpp:208-221 | the loop over the even indices, in logarithms, is the formal derivative of Lambda at the root |
| ReedSolomonCodec.ReedSolomon.constructor | src/base/backend/reed_solomon.cpp:40-83 | sets up field and generator |
| ReedSolomonCodec.ReedSolomon.EncodeRs | src/base/backend/reed_solomon.cpp:85-113 | the parity array holds the remainder of the message |
| ReedSolomonCodec.ReedSolomon.DecodeRs | src/base/backend/reed_solomon.cpp:160-249 | the block in place and the result are those of the decoder above, for every block |
| ReedSolomonCodec.ReedSolomon.Enc | src/base/backend/reed_solomon.cpp:115-138 | shortened encoding: cutlen zeros in front, not transmitted; nothing else of the output is touched |
| ReedSolomonCodec.ReedSolomon.Dec | src/base/backend/reed_solomon.cpp:140-158 | shortened decoding, for any received symbols |
| ReedSolomonCodec.CodecCorrects | src/base/backend/reed_solomon.cpp:115-158 | for every message, cut length and corruption of at most nroots/2 symbols of the encoded word, dec returns the message and counts the errors in it |
| ReedSolomonCodec.CodecRoundTrip | src/base/backend/reed_solomon.cpp:115-158 | dec(enc(m)) is m with result 0 |
| Modular.MaskedIndex | src/common/ringbuffer.h:170-218 | 32-bit unsigned index arithmetic under bigMask or smallMask is the remainder by the power of two, for differences of either sign |
| RingBufferProtocol.NoOverwrite | src/common/ringbuffer.h:301-342 | no element is copied to a cell that holds an accepted, unread element or one of the same put |
| RingBufferProtocol.NextInv | src/common/ringbuffer.h:170-278 | every atomic step of writer or reader (index load, element copy, index store) keeps the invariant |
| RingBufferProtocol.ContentsIs | src/common/ringbuffer.h:170-178 | the cells between the indices hold the accepted, not yet taken elements in order; fill and space stay within 0..size |
| RingBufferProtocol.Refines | src/common/ringbuffer.h:170-278 | every step is a step of an unbounded FIFO queue or leaves it unchanged |
| RingBufferProtocol.WriterGoesOn | src/common/ringbuffer.h:220-242 | no operation waits: in every state kept by the protocol the writer can take its next step, and a new put takes all that fits at that moment |
| RingBufferProtocol.ReaderGoesOn | src/common/ringbuffer.h:244-278 | ... and so can the reader: a get takes all that is filled, up to the request, a skip stores or loads again |
| RingBufferProtocol.RunSafe | src/common/ringbuffer.h:170-278 | in every state of every interleaving the reader has taken a prefix of the writer's input and the fill is at most the size |
| RingBufferClass.RingBuffer.constructor | src/common/ringbuffer.h:155-168 | an empty buffer |
| RingBufferClass.RingBuffer.Regions | src/common/ringbuffer.h:301-379 | the two regions are the wanted cells, in order, across the wrap |
| RingBufferClass.RingBuffer.Put | src/common/ringbuffer.h:220-242 | appends as many elements as there is space for |
| RingBufferClass.RingBuffer.Get | src/common/ringbuffer.h:244-266 | removes and returns the oldest elements |
| RingBufferClass.RingBuffer.Skip | src/common/ringbuffer.h:268-278 | removes the oldest elements |
| RoundUp.RoundUpToPowerOf2 | src/common/ringbuffer.h:381-400 | the smearing of bits gives the least power of two not below the value; 0 gives 1 and values above 2^31 wrap to 0 |
| BackendHandOff.SlotNotShared | src/base/backend/backend.cpp:109-178 | a slot is never rewritten while it is read or waits to be read |
| BackendHandOff.NextInv | src/base/backend/backend.cpp:109-178 | every step of process() and run() keeps the invariant |
| BackendHandOff.RunSafe | src/base/backend/backend.cpp:109-178 | in every interleaving free, used and in-flight slots sum to 25, and the segments consumed are a prefix of those submitted |
| BackendHandOff.RunDrained | src/base/backend/backend.cpp:109-178 | when both sides are idle and no slot is used, every segment was consumed exactly once and in order |
| BackendHandOff.RunLive | src/base/backend/backend.cpp:109-178 | in every interleaving process() goes on unless it needs a slot and none is free, run() goes on unless it needs a segment and none is ready, and never do both wait |
| Deinterleaver.Backend.Exchange | src/base/backend/backend.cpp:131-141 | the loop over the fragment reads the delayed cells and writes the current row |
| Deinterleaver.Backend.ProcessSegment | src/base/backend/backend.cpp:131-163 | nothing is delivered for 16 segments; then every segment delivers the de-interleaved one |
| Deinterleaver.DelayIsSent | src/base/backend/backend.cpp:129-129 | the delays of the receiver are those of the transmitter: the four low bits of the index, reversed |
| Deinterleaver.OutputIsDelayed | src/base/backend/backend.cpp:129-152 | de-interleaving is a left inverse of the interleaver of section 12 of EN 300 401: the vector delivered is the one sent 16 CIFs before |
| Deinterleaver.OutputsAreFrames | src/base/backend/backend.cpp:129-152 | over a whole stream the delivered vectors are b(0), b(1), ... with none lost and none invented |
| Deinterleaver.ThreadedDelivery | src/base/backend/backend.cpp:109-178 | the same holds behind the threaded hand-off, in every interleaving |
| FreqInterleaver.LcgDistinct | src/base/ofdm/freq_interleaver.cpp:50-60 | the first 2^k elements of x -> 13x + 511 modulo 2^k differ, for every k |
| FreqInterleaver.LcgIsGeo | src/base/ofdm/freq_interleaver.cpp:56-60 | element n is 511 (1 + 13 + ... + 13^(n-1)) modulo 2^k, for every n and k |
| FreqInterleaver.FirstElements | src/base/ofdm/freq_interleaver.cpp:56-60 | the sequence starts 0, 511, 1010, 1353, 1716 |
| FreqInterleaver.LcgFullPeriod | src/base/ofdm/freq_interleaver.cpp:50-60 | ... and cover every residue |
| FreqInterleaver.MapperBijection | src/base/ofdm/freq_interleaver.cpp:61-76 | the selected elements are exactly 1536: every carrier of -768..768 except 0, once |
| FreqInterleaver.CreateMapper | src/base/ofdm/freq_interleaver.cpp:50-76 | the two loops fill the table with that bijection, in the order of the sequence |
| Crc.TableStepIsStepByte | src/base/backend/crc.cpp:75-87 | one table step is eight steps of bit-serial division, for every polynomial |
| Crc.DivideLinear | src/base/backend/crc.cpp:75-87 | division is linear over exclusive or |
| CrcTable.TableCorrect | src/base/backend/crc.cpp:40-73 | all 256 entries of crctab_1021 are those of x^16+x^12+x^5+1 |
| CrcCheck.CalcCrc | src/base/backend/crc.cpp:75-87 | the loop computes the complemented remainder, register preset to ones |
| CrcCheck.CheckValues | src/base/backend/crc.cpp:75-87 | the CRC of nothing is 0 and that of a zero byte 0x1E0F: register preset to ones, result complemented |
| CrcCheck.CheckCrcBytes | src/base/backend/crc.cpp:89-96 | accepts if and only if the two bytes behind the message are its CRC |
| CrcCheck.ShiftBit | src/base/backend/crc.cpp:107-123 | one pass over the 16 cells is one step of division |
| CrcCheck.CheckCrcBits | src/base/backend/crc.cpp:98-132 | accepts if and only if the division of the bits, the last 16 inverted, leaves zero |
| CrcCheck.CheckersAgree | src/base/backend/crc.cpp:89-132 | the bit checker accepts the unpacked bits if and only if the byte checker accepts the bytes |
| FireCode.SyndromeLinear | src/base/backend/firecode_checker.cpp:146-161 | crc16 is linear over exclusive or |
| FireCode.FillCrcTable | src/base/backend/firecode_checker.cpp:47-65 | every entry is that of the Fire polynomial 0x782f |
| FireCode.Crc16 | src/base/backend/firecode_checker.cpp:146-161 | the table-driven loop over x[2..10], x[0..1] computes the syndrome |
| FireCode.FillSyndromeTable | src/base/backend/firecode_checker.cpp:67-144 | after the four loop nests, entry w is the first visited error with syndrome w, or empty |
| FireCode.FirecodeChecker.constructor | src/base/backend/firecode_checker.cpp:41-45 | both tables are set up so |
| FireCode.FirecodeChecker.CheckAndCorrect | src/base/backend/firecode_checker.cpp:169-184 | the header in place and the result, for every header |
| FireCode.CorrectionSound | src/base/backend/firecode_checker.cpp:163-184 | a true result always leaves a valid header; false leaves it alone, and is given exactly when the syndrome is neither zero nor that of a visited error |
| FireBursts.PeaksDistinct | src/base/backend/firecode_checker.h:54-71 | two bursts of at most six bits that meet in the register are the same burst, entered at the same time: by the residues modulo x^11+1 and x^5+x^3+x^2+x+1 |
| FireBursts.BurstsDistinct | src/base/backend/firecode_checker.cpp:67-144 | two visited errors that do not straddle the ends of the code word and have the same syndrome are the same error |
| FireBursts.SyndromeNonZero | src/base/backend/firecode_checker.cpp:67-144 | no visited error has syndrome zero |
| FireCorrection.UndoneExactly | src/base/backend/firecode_checker.cpp:169-184 | a visited error on a valid header is accepted, and undone exactly if and only if the first visited error with its syndrome is the same error |
| FireCorrection.BurstUndone | src/base/backend/firecode_checker.cpp:169-184 | a burst that does not straddle is undone unless the table answers with one that does |
| FireCorrection.SingleByteUndone | src/base/backend/firecode_checker.cpp:169-184 | every visited error inside one byte is undone exactly |
| FireCorrection.ResiduesDecide | src/base/backend/firecode_checker.cpp:146-161 | the residues modulo the two factors determine the syndrome |
| FireBits.ErrorBits | src/base/backend/firecode_checker.cpp:163-184 | a table entry stands for the error that flips bit (offset + j) of the header where its pattern has bit j |
| FireListed.MiddleListed | src/base/backend/firecode_checker.h:54-58 | the first 45 patterns are those over both half bytes, at most five bits wide, without 11101 |
| FireListed.VisitedListed | src/base/backend/firecode_checker.cpp:67-144 | a burst of at most six bits that is visited is listed: told from its bits alone, together with the loop nest and row that visits it |
| FireListed.ListedVisited | src/base/backend/firecode_checker.cpp:67-144 | ... and every listed burst is visited |
| FireWraps.MeetsExactly | src/base/backend/firecode_checker.cpp:146-161 | a burst from x[1] into x[2] and any other burst have the same syndrome if and only if they have the same pattern at one of 28 distances |
| FireExactly.AnswerEarly | src/base/backend/firecode_checker.cpp:67-144 | the table answers with an error visited no later than the one that occurred |
| FireExactly.BurstUndoneExactly | src/base/backend/firecode_checker.cpp:169-184 | for every valid header and every burst of at most six of its 88 bits: the header is restored if and only if the burst is listed and none of 21 named ones |
| FireExactly.ByteUndoneExactly | src/base/backend/firecode_checker.cpp:169-184 | for every valid header, every byte of it and every error of at most six bits inside it: restored if and only if the error is none of 0x2F, 0x5E and 0xBC |
| FireExactly.TwoBitsLost | src/base/backend/firecode_checker.cpp:169-184 | bits 14 and 16 wrong together are accepted and never restored: not every burst of up to six bits is corrected |
| ProtectionTable.UepPays | src/base/decoder/fib_table.h:51-117 | in every row 15 times the bit rate is at most 32 times the size, and the rate is a multiple of 8 |
| ProtectionTable.EepPays | src/base/decoder/fib_decoder_fig0.cpp:178-196 | the same bound for both options of equal error protection, for every size |
| Puncturing.CodeIs | src/base/protection/protTables.cpp:36-62 | every puncturing code: the groups of four bits get their next bit in a fixed order |
| Puncturing.CodeRate | src/base/protection/protTables.cpp:36-62 | code pi sends 8 + pi of 32 bits |
| Puncturing.CodesNested | src/base/protection/protTables.cpp:36-62 | a code sends all the bits of the weaker ones |
| Puncturing.AddressesAre | src/base/protection/uep_protection.cpp:175-213 | the addresses are those of the bits of the mother code that are sent, each once, in order |
| Puncturing.AddressCount | src/base/protection/uep_protection.cpp:175-213 | how many there are, for every profile |
| Puncturing.UepAgrees | src/base/protection/uep_protection.cpp:52-132 | for every index of the table in fib_table.h: the profile has its bit rate and level, fills the Viterbi block and, up to 0, 4 or 8 padding bits, the sub-channel, if and only if the index is not 23 |
| Puncturing.ShortProfile | src/base/protection/uep_protection.cpp:81-81 | index 23 (80 kbit/s, level 1): the profile takes 4972 of 5376 bits |
| Puncturing.EepAgrees | src/base/protection/eep_protection.cpp:43-135 | equal error protection: n steps fill the Viterbi block and take exactly the capacity units of n steps, for both options, every level and every n |
| Depuncturing.FindIndex | src/base/protection/uep_protection.cpp:134-145 | the first profile with the bit rate and level, or -1 |
| Depuncturing.MatchUnique | src/base/protection/uep_protection.cpp:52-132 | no two profiles have the same bit rate and level |
| Depuncturing.Extract | src/base/protection/uep_protection.cpp:198-213 | the nested loops append the addresses of the bits sent |
| Depuncturing.Build | src/base/protection/uep_protection.cpp:168-196 | the four parts and the tail give the addresses of the profile |
| Depuncturing.Protection.constructor | src/base/protection/protection.cpp:36-44 | addresses inside the block, everything undecided |
| Depuncturing.Protection.Depuncture | src/base/protection/protection.cpp:46-54 | the bits of a segment go to their places: puncturing the block again gives them back, and what was not sent stays undecided |
| Depuncturing.UepProtection | src/base/protection/uep_protection.cpp:155-196 | takes the one profile that matches |
| Depuncturing.EepProtection | src/base/protection/eep_protection.cpp:43-151 | takes the profile of option, level and rate |
| Depuncturing.RunCarries | src/base/protection/uep_protection.cpp:155-196 | in every reachable state, every sub-channel with a known profile: the deconvolver needs no more bits than the slice holds; it leaves 0, 4 or 8 bits (index 23 aside), or the units that do not fill a step |
| FibTables.Lookup | src/base/decoder/fib_config_fig0.cpp:50-60 | the first entry with a key, or none |
| FibTables.BitOfField | src/base/main/bit_extractors.h:19-150 | the bit at offset k of a field of n bits is bit n-1-k of the value |
| FibTables.CollidesIsClash | src/base/decoder/fib_decoder_fig0.cpp:116-134 | two ranges collide if and only if they have a capacity unit in common; a candidate without units collides if it lies between two units of the other |
| FibLayout.LongStored | src/base/decoder/fib_decoder_fig0.cpp:143-228 | a long form FIG 0/1 entry that is not held, laid out as in section 6.2.1 of EN 300 401: a restart is asked for if and only if it leaves the 864 capacity units or claims a unit of another sub-channel; otherwise it is stored as sent |
| FibLayout.ShortStored | src/base/decoder/fib_decoder_fig0.cpp:143-228 | the same for the short form |
| FibLayout.HeldSkipped | src/base/decoder/fib_decoder_fig0.cpp:221-227 | an entry that is held is skipped, by the length of the entry held |
| FibLayout.ServiceStored | src/base/decoder/fib_decoder_fig0.cpp:231-291 | FIG 0/2, programme or data: the components not held yet are stored in order, and the entry ends behind the last; a reserved transport mechanism takes over the content before it |
| FibLayout.NewService | src/base/decoder/fib_decoder_fig0.cpp:231-291 | a service that is not held at all is stored component by component as sent |
| FibLayout.PacketStored | src/base/decoder/fib_decoder_fig0.cpp:294-331 | FIG 0/3 stores a new component as sent, except the organization field, which is what lies 40 bits behind its place |
| FibLayout.GlobalStored | src/base/decoder/fib_decoder_fig0.cpp:410-450 | FIG 0/8 stores a new definition as sent, in both forms and with both kinds of service id |
| FibLayout.FecStored | src/base/decoder/fib_decoder_fig0.cpp:576-596 | FIG 0/14 stores a new scheme as sent |
| FibLearning.EntryLearned | src/base/decoder/fib_decoder_fig0.cpp:37-60 | an entry of any of these FIGs at its place in the FIG: refused, skipped because held, or stored as sent, and left at its end |
| FibLearning.InStepExactly | src/base/decoder/fib_decoder_fig0.cpp:143-331 | the parser finds the end of an entry if and only if a held entry with its key is as long as the one sent |
| FibLearning.FigLearned | src/base/decoder/fib_decoder_fig0.cpp:37-114 | a FIG 0/0, 0/1, 0/2, 0/3, 0/8 or 0/14 for either configuration does what its fields say; FIGs of any other extension or type change nothing |
| FibLearning.FibLearned | src/base/decoder/fib_decoder.cpp:60-107 | from the bits to the tables, for a FIB of any such FIGs from any state: entries not held are appended to their configuration as sent and in order; the configurations are exchanged exactly when change flags 3 are followed by 0; impossible content clears everything and ends the FIB; nothing else changes |
| FibInvariant.Sub1Legal | src/base/decoder/fib_decoder_fig0.cpp:143-228 | FIG 0/1 keeps the sub-channels inside 0..863, pairwise disjoint and with distinct identifiers |
| FibInvariant.FigStepInv | src/base/decoder/fib_decoder_fig0.cpp:90-114 | every FIG, including a reconfiguration and a restart, keeps this of both configurations |
| FibInvariant.RunInv | src/base/decoder/fib_decoder.cpp:60-161 | it holds after any run of FIBs, restarts, reconfigurations, connects and disconnects |
| FibInvariant.TotalBound | src/base/decoder/fib_decoder_fig0.cpp:116-134 | such sub-channels occupy at most 864 capacity units |
| FibInvariant.RunTotal | src/base/decoder/fib_decoder_fig0.cpp:116-134 | ... in both configurations, in every reachable state |
| FibRepetition.LoopAgain | src/base/decoder/fib_decoder_fig0.cpp:76-87 | a FIG met again finds every entry known, ends at the same bytes and changes nothing, also in a larger table |
| FibRepetition.FibGrows | src/base/decoder/fib_decoder.cpp:60-107 | without restart and reconfiguration no stored entry is changed, moved or removed |
| FibRepetition.RepetitionHarmless | src/base/decoder/fib_decoder.cpp:60-107 | processing a FIB again, without restart or reconfiguration, leaves the whole state as it is and enters the sub-parsers at the same addresses |
| FibDecoderClass.FibDecoder.constructor | src/base/decoder/fib_decoder.cpp:36-41 | two empty configurations |
| FibDecoderClass.FibDecoder.RestartFibDecoding | src/base/decoder/fib_decoder.cpp:134-145 | clears both configurations and stops the FIB |
| FibDecoderClass.FibDecoder.ConnectChannel | src/base/decoder/fib_decoder.cpp:147-154 | clears both configurations and the change flags |
| FibDecoderClass.FibDecoder.DisconnectChannel | src/base/decoder/fib_decoder.cpp:156-162 | clears both configurations |
| FibDecoderClass.FibDecoder.Subprocess1 | src/base/decoder/fib_decoder_fig0.cpp:143-228 | the FIG 0/1 sub-parser in place |
| FibDecoderClass.FibDecoder.Subprocess2 | src/base/decoder/fib_decoder_fig0.cpp:231-291 | the FIG 0/2 sub-parser in place, with its loop over components |
| FibDecoderClass.FibDecoder.ProcessLoop | src/base/decoder/fib_decoder_fig0.cpp:76-87 | the loop over the entries of a FIG, left at a restart |
| FibDecoderClass.FibDecoder.ProcessFig0s0 | src/base/decoder/fib_decoder_fig0.cpp:90-114 | the swap of the configurations when the change flags fall from 3 to 0 |
| FibDecoderClass.FibDecoder.ProcessFib | src/base/decoder/fib_decoder.cpp:60-107 | the loop over the FIGs carries out the parser and keeps the invariant, for any bits |
| FibLoading.NeverFalls | src/base/decoder/fib_decoder.cpp:832-983 | between resets the loading state never falls |
| FibLoading.RunInv | src/base/decoder/fib_decoder.cpp:832-983 | the signals always fit the loading state, over any order of events |
| FibLoading.SignalsOrderly | src/base/decoder/fib_decoder.cpp:832-1072 | the signals since a reset are a beginning of S1? S3 S4 S5*; S2 is never signalled |
| FibLoading.FastStartReady | src/base/decoder/fib_decoder.cpp:860-879 | S1 is signalled if and only if the FIG 0/2 and FIG 0/1 entries of the selected service are present when a FIG 0/1 or 0/2 was parsed in the initial state |
| FibLoading.AudioReady | src/base/decoder/fib_decoder.cpp:881-965 | S3 is signalled if and only if it was not yet, and either the long timer runs out, or the short timer does while there is an audio component and each has a 16-bit service id, a FIG 0/1 entry and a label |
| FibLoading.PacketsReady | src/base/decoder/fib_decoder.cpp:967-983 | S4 is signalled if and only if the packet services too are complete, or the long timer runs out |
| FibLoading.DeferredReady | src/base/decoder/fib_decoder.cpp:842-848 | S5 is signalled if and only if an entry is stored after S4 |
| FibLoaderClass.FibLoader.Retrigger | src/base/decoder/fib_decoder.cpp:832-855 | a stored entry signals S5 once everything was loaded |
| FibLoaderClass.FibLoader.ProcessFastAudioSelection | src/base/decoder/fib_decoder.cpp:860-879 | the fast start of a selected service |
| FibLoaderClass.FibLoader.CheckAudioDataCompleteness | src/base/decoder/fib_decoder.cpp:881-915 | the loop decides whether there is an audio service and all are described |
| FibLoaderClass.FibLoader.SlotConsistency | src/base/decoder/fib_decoder.cpp:948-983 | the consistency timer |
| FibLoaderClass.FibLoader.SlotCheckState | src/base/decoder/fib_decoder.cpp:1060-1072 | the long timer |
| FibLoaderClass.FibLoader.ResetAll | src/base/decoder/fib_decoder.cpp:109-129 | a reset clears tables, labels and the recorded signals and starts again at the initial state |
| FibLoaderClass.FibLoader.SetSId | src/base/decoder/fib_decoder.cpp:163-175 | selecting a service for a fast start |
| MscHandlerClass.MscHandler.SetChannel | src/base/backend/msc_handler.cpp:132-143 | a backend for a stored sub-channel is appended and keeps every slice inside the CIF |
| MscHandlerClass.MscHandler.ProcessBlock | src/base/backend/msc_handler.cpp:148-168 | the block goes to its place in the CIF; the last one hands every backend its slice |
| MscHandlerClass.MscHandler.ProcessCif | src/base/backend/msc_handler.cpp:148-168 | 18 blocks in order, whatever the buffer held: every backend gets its slice of their concatenation |
| MscHandlerClass.SliceIsUnits | src/base/backend/msc_handler.cpp:148-168 | a slice is all the bits of the capacity units of its sub-channel, in order |
| MscHandlerClass.SlicesLegal | src/base/backend/msc_handler.cpp:148-168 | in every reachable state of both configurations every slice lies inside the 55296 bits and two sub-channels share no bit |
| EtiFrame.BytesBound | src/base/eti_handler/eti_generator.cpp:249-259 | five times the bytes of all streams is at most 32 times their capacity units |
| EtiFrame.RoomLeft | src/base/eti_handler/eti_generator.cpp:249-267 | the frame fits 6144 bytes, the frame length 11 bits and the stream count 7 bits, for every legal configuration with supported profiles |
| EtiFrame.CountTrue | src/base/eti_handler/eti_generator.cpp:212-221 | FCT is the true count modulo 250 for every received count; FP is the true count modulo 8 if and only if the upper part is in range, also at the wrap to 20, or a multiple of 4 |
| EtiReader.FcRead | src/base/eti_handler/eti_generator.cpp:240-267 | a reader finds the count, phase, number of streams, mode and frame length |
| EtiReader.StreamRead | src/base/eti_handler/eti_generator.cpp:272-296 | a reader finds identifier, start address, protection and length of every stream |
| EtiReader.ProtectionRead | src/base/eti_handler/eti_generator.cpp:282-289 | from the number in the frame alone a reader tells unequal from equal error protection, and finds level and option |
| EtiReader.StreamRecovered | src/base/eti_handler/eti_generator.cpp:330-382 | a reader that uses only the frame recovers identifier, start address, kind of protection, level, option, length and data of every stream |
| EtiReader.FrameConsistent | src/base/eti_handler/eti_generator.cpp:168-199 | the FIC is in its place, the frame length leads from STC exactly to the end of MST, and both CRCs are right |
| EtiReader.FillersRead | src/base/eti_handler/eti_generator.cpp:181-199 | the frame synchronization alternates with the count read from the frame; reserved bytes, time stamp and padding lie where the frame length says |
| EtiReader.CountRead | src/base/eti_handler/eti_generator.cpp:212-263 | the count statement, read from the frame |
| EtiGeneratorClass.ListResolves | src/base/decoder/fib_decoder.cpp:599-609 | identifiers listed at the start of a frame still resolve to the same entries when the table has grown |
| EtiGeneratorClass.ReachableCarried | src/base/eti_handler/eti_generator.cpp:249-259 | every reachable configuration with supported profiles can be sent |
| EtiGeneratorClass.EtiGenerator.InitEti | src/base/eti_handler/eti_generator.cpp:207-308 | fills the header in place |
| EtiGeneratorClass.EtiGenerator.FrameLength | src/base/eti_handler/eti_generator.cpp:245-259 | the loop counts streams and words |
| EtiGeneratorClass.EtiGenerator.AppendStc | src/base/eti_handler/eti_generator.cpp:272-296 | the loop writes the stream characterization |
| EtiGeneratorClass.EtiGenerator.ProcessCif | src/base/eti_handler/eti_generator.cpp:330-382 | the loop places the streams one after the other |
| EtiGeneratorClass.EtiGenerator.MakeFrame | src/base/eti_handler/eti_generator.cpp:168-199 | the whole frame, padding included |
| Calendar.MarchFound | src/base/main/dabradio_ui.cpp:715-737 | the cycles of 400, 100, 4 and 1 years find the year and the day in it |
| Calendar.Consecutive | src/base/main/dabradio_ui.cpp:715-751 | every date is valid and consecutive days have consecutive dates, for every nonnegative shifted Julian number |
| Calendar.Epoch | src/base/main/dabradio_ui.cpp:715-751 | day 0 is 1858-11-17 |
| Calendar.CountOfDate | src/base/main/dabradio_ui.cpp:715-751 | the conversion inverts the day count |
| Calendar.DateOfCount | src/base/main/dabradio_ui.cpp:715-751 | ... and the day count inverts the conversion |
| Calendar.LtoMinutes | src/base/decoder/fib_decoder_fig0.cpp:465-468 | 30 minutes per half hour, negative exactly with the sign bit, within 930 minutes |
| Calendar.GetLocalTime | src/base/main/dabradio_ui.cpp:753-785 | the loops keep the time for any input; the hour is a proper one if and only if the sum lies between the previous and the next day |
| Calendar.LocalDateTime | src/base/main/dabradio_ui.cpp:802-822 | the displayed local date and time are UTC plus the offset, to the minute |

## Left out

- User interface, settings, databases, files: plumbing; emitted signals are recorded in the state instead.
- Floating-point signal processing (demodulation, filters, resampling, frequency tracking): numeric, and rests on FFTW, VOLK and liquid.
- Viterbi decoding: not part of this model; the bytes it delivers are inputs of stated length.
- Depuncturing.EepProtection: requires a positive bit rate; a size below one step gives bit rate 0, for which the assertion in the constructor fails.
- Depuncturing.UepProtection: requires at least 32 kbit/s, the rate of every profile; below it the assertion about the fallback profile fails.
- The CIF count of FIG 0/0: an input of the ETI generator.
- FibLearning.FibLearned: covers FIBs whose held entries are as long as the entries now sent; otherwise the parser leaves the layout (FibLearning.InStepExactly).
- Energy dispersal: a fixed bit sequence added after deconvolution, an easy member.
- FIG 0/5, 0/7, 0/9, 0/10, 0/13, 0/15 to 0/19 and FIG type 1: they do not touch the modelled tables. FIG 0/5 looks up a 12-bit SCId through an 8-bit parameter, and FIG 0/13 looks up in the current table but inserts in the selected one.
- Time stamps of table entries, statistics and log messages.
- Completeness of packet services: an input of the consistency timer event.
- Clock and timers: timer events may arrive at any time and in any order.
- Aliasing of the two configuration objects: each is owned by one pointer, so they are values in fields that are reassigned.
- De-interleaving inside the ETI generator: the same exchange as in the backend, started one CIF earlier; the written but never read array fibValid.
- Reconfiguration between the start of a transmission frame and its ETI frames: the table may grow, not be swapped.
- Memory barriers: index accesses of the ring buffer are sequentially consistent; flush_ring_buffer and the statistics are not modelled.
- Galois::inverse_poly and inverse_power: not used by the codec; add_power likewise.
- ReedSolomonCodec.ReedSolomon.constructor: requires an even number of roots; with an odd number and degree nroots - 1 the derivative loop of decode_rs reads Lambda[nroots], an entry that was never set (src/base/backend/reed_solomon.cpp:214-216).
- RsSoundness.DecodeSound: like the other lemmas about Decode, covers odd numbers of roots too, with the missing entry of Lambda taken as zero; the class that runs the loops has an even number.
- Other symbol sizes, first roots and primitive elements of the Reed-Solomon codec: the program uses 8, 0 and 1.
- Integer widths: the parser's 16-bit offsets and the calendar's 32-bit numbers stay in range, so they are unbounded integers.
- FibLoading.Step: table changes are arbitrary events, not only those a FIB can cause, so the results hold for more orders than can occur.
