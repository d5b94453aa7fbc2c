# Codecs, link layers and containers: a model with proofs

This project models, in Dafny, the parts of the library that compute rather than drive devices, and
proves what they promise.  A file holds one module.  Functions and lemmas say what the code computes;
classes and methods work the way the code does, with its loops, arrays, counters and fields, and are
proved to compute those functions.  What goes on a line or into a register is also stated in plain
numbers, apart from the functions that build it.

- **Reed-Solomon codec** (`gf256`, `poly`, `rs_*`): the RS(255,223) code of section 4 of CCSDS 131.0-B
  over the field polynomial 0x187, with table arithmetic, the feedback-register encoder, syndromes,
  Berlekamp-Massey with erasures, Chien search and Forney's formula.  The field laws come from the
  two tables, the roots of the generator polynomial from an identity that its 33 tabulated
  coefficients satisfy, and the main theorem is that every combination of rho erasures and nu errors
  with 2 nu + rho <= 32 is corrected, in shortened blocks too (`RSDecoder.DecodeCorrects`).  The
  phases of the decoder are methods on arrays in index form, ending in `RSDecoderCode.DecodeRs8`.
  Beyond that radius every outcome is stated (`RSSound.DecodeSettles`), with the exact conditions
  under which a block is given up and under which one that is not becomes a codeword
  (`RSDecoder.GivenUp`, `RSSound.OutputIsCodeword`).
- **CRC** (`crc`): the 256-entry table against the bit-serial definition, error detection, residue.
- **AX.25** (`ax25`, `ax25_link`): addresses, escaping, frame check sequence, the incremental
  receiver and the decoder (AX.25 v2.2, sections 3.7 and 3.12), up to streams of frames.
- **TNC framing** (`tnc`, `tnc_form`, `tnc_port`): the hexadecimal writer and the reader that undoes
  it from any state, through noise and over several polls; the reader's state is exactly the part of
  a message's form that the line ends with (`TncForm.StateIsForm`).
- **XBee** (`xbee`, `xbee_port`): the chunked receiver against a byte-at-a-time automaton, the
  senders and the packet accessors.
- **Containers** (`dlist`, `vector`): the doubly linked list on the heap and the dynamic vector,
  refined to sequences.
- **Blyss remote controls** (`blyss`, `blyss_port`): nibble packing, pulses, rolling code and token.
- **Input ports** (`dinput`, `dinput_port`): change confirmation and edge dispatch.
- **RFM69 frequency** (`rf69`): register split and rounding.

Where the code and its promises part, the code was kept and the exact condition proved: what a return
of the decoder other than -1 is worth (`RSSound`, and `RSSilent` for zero), `iVectorClear` with a
search that is not identity (`Vectors.ClearingIff`), stations with unusual callsigns or SSIDs
(`Ax25.RestoredIff`), `vSetBits` and `usGetBits` on three nibbles
(`Blyss.RoundTripIff`), `iDinEdgeOccured` for a single edge (`DInput.AskingIff`), and reading a
frequency just set (`Rf69.ReadBackLicensed`, `Rf69.SetWhatWasRead`).

Lines, descriptors and pins are sequences of bytes, pulses or levels that the model's objects carry;
callbacks are functions, or logs of what they were called with; what `malloc` returns is a new
object.  A CRC, a register or a byte is a bit vector of its width, or a number kept in range where
the code counts; lengths and sizes are unbounded numbers.

## Model

| member | source | states |
|---|---|---|
| GF256.AlphaStep | 3rdparty/ssdv/src/rs8.c:11-28 | each entry of the antilog table is the one before it multiplied by x modulo the field polynomial 0x187 |
| GF256.AlphaWraps | 3rdparty/ssdv/src/rs8.c:11-28 | the table starts at one and returns to one after 255 entries |
| GF256.TablesInverse | 3rdparty/ssdv/src/rs8.c:11-47 | the logarithm and antilog tables are inverse to each other for all 256 values, and 255 stands for zero and for nothing else |
| GF256.MulComm | 3rdparty/ssdv/src/rs8.c:11-64 | multiplication by shift-and-add in GF(2)[x]/0x187 is commutative |
| GF256.MulAssoc | 3rdparty/ssdv/src/rs8.c:11-64 | it is associative |
| GF256.MulAddLeft | 3rdparty/ssdv/src/rs8.c:11-64 | it distributes over XOR on the left |
| GF256.MulAddRight | 3rdparty/ssdv/src/rs8.c:11-64 | it distributes over XOR on the right |
| GF256.MulNonZero | 3rdparty/ssdv/src/rs8.c:11-64 | a product is zero exactly when a factor is zero |
| GF256.MulInv | 3rdparty/ssdv/src/rs8.c:11-64 | every non-zero element has an inverse on both sides |
| GF256.TableProduct | 3rdparty/ssdv/src/rs8.c:55-64 | antilog of the sum of two logarithms modulo 255 is the product of the two elements |
| GF256.TableQuotient | 3rdparty/ssdv/src/rs8.c:205-211 | antilog of the difference of two logarithms plus 255, modulo 255, is the quotient |
| GF256.AlphaMod | 3rdparty/ssdv/src/rs8.c:55-64 | a lookup `ALPHA_TO[MODNN(n)]` is the n-th power of x for every n >= 0 |
| GF256.Mod255 | 3rdparty/ssdv/src/rs8.c:55-63 | the folding loop terminates for every int, is the remainder modulo 255 for every non-negative argument, and leaves a negative one alone |
| Polynomials.RootBound | 3rdparty/ssdv/src/rs8.c:231-255 | a non-zero polynomial has fewer distinct roots than coefficients: why the root search cannot find more roots than the degree |
| Polynomials.PowerSumsVanish | 3rdparty/ssdv/src/rs8.c:115-142 | weights at distinct points, at most m of them non-zero, of which m consecutive power sums vanish, are all zero (Vandermonde) |
| RSCode.GenFunctional | 3rdparty/ssdv/src/rs8.c:49-53 | the 33 tabulated coefficients satisfy g(cx)(x + c^143) = c^32 (x + c^111) g(x) with c = x^11: the table is a polynomial with consecutive roots |
| RSCode.GeneratorRoots | 3rdparty/ssdv/src/rs8.c:49-53 | hence the tabulated generator polynomial vanishes at alpha^(11(112 + i)) for all i below 32 |
| RSLocations.SyndromePowerSum | 3rdparty/ssdv/src/rs8.c:115-125 | a syndrome is the power sum of the symbols' weights over the 255 locators |
| RSLocations.EqualSyndromes | 3rdparty/ssdv/src/rs8.c:115-142 | blocks with equal syndromes are equal or differ in more than 32 symbols |
| RSLocations.MinimumDistance | 3rdparty/ssdv/src/rs8.c:77-142 | two codewords, shortened or not, are equal or at least 33 symbols apart |
| RSEncoder.ParityIsCodeword | 3rdparty/ssdv/src/rs8.c:77-100 | a message followed by the register's final content vanishes at all 32 roots |
| RSEncoder.CodewordIffParity | 3rdparty/ssdv/src/rs8.c:77-142 | the syndromes of a block vanish if and only if its last 32 symbols are the parity of the others |
| RSEncoder.Antilog | 3rdparty/ssdv/src/rs8.c:55-64 | one table lookup with reduction computes the power of x |
| RSEncoder.ShiftRegister | 3rdparty/ssdv/src/rs8.c:86-98 | one turn of the encoder's loop on the parity array, in logarithms with the zero escape, is one step of the feedback register |
| RSEncoder.EncodeRs8 | 3rdparty/ssdv/src/rs8.c:77-100 | for every pad 0..222 the parity array ends as the parity of the message and completes it to a codeword, and the message is untouched |
| RSMassey.StepInvariant | 3rdparty/ssdv/src/rs8.c:172-221 | every Berlekamp-Massey step, on any syndromes: constant term one, degree at most el, el between the erasures and r, zero discrepancy from el to r; and the matching facts about b |
| RSMassey.RunInvariant | 3rdparty/ssdv/src/rs8.c:163-221 | hence the final locator generates all 32 syndromes from el on |
| RSMassey.NothingLost | 3rdparty/ssdv/src/rs8.c:186-217 | the coefficient that `memmove` shifts off the 33 entries of b is always zero |
| RSRadius.DiscrepancyPowerSum | 3rdparty/ssdv/src/rs8.c:174-183 | the discrepancy of a polynomial is a power sum of its values at the inverse locators, weighted by the errors |
| RSRadius.LengthJustified | 3rdparty/ssdv/src/rs8.c:202-211 | el is only raised when the errors not yet found force it |
| RSRadius.RunBounded | 3rdparty/ssdv/src/rs8.c:163-221 | if the block is a codeword with rho erasures and nu other errors, of any number, el never exceeds rho + nu |
| RSRadius.LocatorFound | 3rdparty/ssdv/src/rs8.c:163-221 | if moreover 2 nu + rho <= 32, the final polynomial vanishes at every location in error and its degree is at most rho + nu |
| RSForney.RootLocation | 3rdparty/ssdv/src/rs8.c:233-246 | the counter k of the root search names the location whose inverse locator is x^i |
| RSForney.LocationOfExponent | 3rdparty/ssdv/src/rs8.c:233-246 | every location is reached by exactly one exponent |
| RSForney.LocatorDegree | 3rdparty/ssdv/src/rs8.c:223-229 | the degree of the locator is the number of erroneous and erased locations |
| RSForney.LocatorRoots | 3rdparty/ssdv/src/rs8.c:231-255 | the locator vanishes at an inverse locator if and only if that location is erroneous or erased |
| RSForney.ScanFinds | 3rdparty/ssdv/src/rs8.c:231-255 | the root search with its early exit finds exactly those locations, each once |
| RSForney.MagnitudeIsError | 3rdparty/ssdv/src/rs8.c:267-308 | the value computed from evaluator, derivative and x^(FCR-1) at a found location is the error there, zero for an erased symbol that was right |
| RSDecoder.ErrorLocatorLocates | 3rdparty/ssdv/src/rs8.c:144-221 | starting from the erasure locator, the iteration ends with the locator polynomial of errors and erasures |
| RSDecoder.RepairAt | 3rdparty/ssdv/src/rs8.c:287-308 | the corrections add at every found location the error there, skip the padding, and change no other symbol |
| RSDecoder.NotAllZero | 3rdparty/ssdv/src/rs8.c:127-142 | the OR of the syndromes is zero if and only if the block is a codeword |
| RSDecoder.DecodeCodeword | 3rdparty/ssdv/src/rs8.c:135-142 | a codeword is returned unchanged with the count zero, whatever is marked as erased |
| RSDecoder.DecodeSingleError | 3rdparty/ssdv/src/rs8.c:102-317 | one changed symbol, at any position of any block length and to any value: the count is one, the block is restored, and the position is reported |
| RSDecoder.DecodeCorrects | 3rdparty/ssdv/src/rs8.c:102-317 | any codeword of up to 255 symbols with rho erasures and nu further errors, 2 nu + rho <= 32, is restored exactly; the count is rho + nu (zero if nothing was changed) and the reported locations are exactly those |
| RSDecoder.ScanFallsShort | 3rdparty/ssdv/src/rs8.c:231-265 | the search with its early exit finds as many roots as the degree says if and only if the locator vanishes at that many of the 255 locations |
| RSDecoder.GivenUp | 3rdparty/ssdv/src/rs8.c:257-265 | -1 is returned if and only if the block is no codeword and the locator vanishes at fewer locations than its degree; the block and the list of locations are then left alone |
| RSSilent.ShortRecurrence | 3rdparty/ssdv/src/rs8.c:163-221 | a recurrence of length at most m that annihilates a burst of m <= 16 leading syndromes is the constant one |
| RSSilent.SilentFailure | 3rdparty/ssdv/src/rs8.c:231-317 | if the syndromes vanish from the seventeenth on, the decoder returns zero and changes nothing, codeword or not |
| RSSilent.SilentBlock | 3rdparty/ssdv/src/rs8.c:135-142 | for every block length from 32 there is such a block that is not a codeword: a zero return does not mean what the syndrome test means |
| RSSound.CorrectionsExplain | 3rdparty/ssdv/src/rs8.c:267-308 | if the locator has as many roots as its degree and generates every syndrome from that degree on, the corrections have exactly the received syndromes |
| RSSound.SoundIf | 3rdparty/ssdv/src/rs8.c:257-308 | then, if no non-zero correction falls into the padding, the block handed back is a codeword, however many symbols were wrong |
| RSSound.SoundOnlyIf | 3rdparty/ssdv/src/rs8.c:257-308 | a codeword is handed back in no other way |
| RSSound.OutputIsCodeword | 3rdparty/ssdv/src/rs8.c:257-308 | for every received block that is no codeword and for which the decoder does not return -1: the result is a codeword if and only if deg_lambda equals el and no non-zero correction falls into the padding; the source checks neither |
| RSSound.DecodeSettles | 3rdparty/ssdv/src/rs8.c:135-316 | every outcome, for every block: a codeword is left alone with 0; a block whose locator has too few roots is left alone with -1; in any other each location where the locator vanishes gets the value of Forney's formula once, no other symbol changes, the count is the degree, and those locations are listed in the order of the search |
| RSDecoderCode.FormSyndromes | 3rdparty/ssdv/src/rs8.c:115-125 | the nested loops leave the 32 syndromes in s |
| RSDecoderCode.IndexSyndromes | 3rdparty/ssdv/src/rs8.c:127-133 | the loop leaves their logarithms and a flag that is zero if and only if all are zero |
| RSDecoderCode.InitLambda | 3rdparty/ssdv/src/rs8.c:144-161 | lambda becomes the product of (1 - X x) over the erased locations |
| RSDecoderCode.ComputeDiscrepancy | 3rdparty/ssdv/src/rs8.c:174-183 | the loop with its two zero guards computes the discrepancy |
| RSDecoderCode.MasseyStep | 3rdparty/ssdv/src/rs8.c:172-221 | one turn of the loop on lambda, b, t and el, with b in index form, is one step of the iteration on polynomials |
| RSDecoderCode.BerlekampMassey | 3rdparty/ssdv/src/rs8.c:163-221 | the whole loop computes the run of the iteration |
| RSDecoderCode.IndexLambda | 3rdparty/ssdv/src/rs8.c:223-229 | the loop computes the degree of lambda |
| RSDecoderCode.ChienStep | 3rdparty/ssdv/src/rs8.c:236-244 | one turn of the register loop advances every register by its power and yields lambda at x^i |
| RSDecoderCode.ChienSearch | 3rdparty/ssdv/src/rs8.c:231-255 | the search fills root and loc with the roots in order, up to the degree |
| RSDecoderCode.ComputeOmega | 3rdparty/ssdv/src/rs8.c:267-281 | omega holds the logarithms of the first deg_lambda coefficients of lambda(x) s(x) |
| RSDecoderCode.Numerator | 3rdparty/ssdv/src/rs8.c:289-293 | num1 is the evaluator at the root |
| RSDecoderCode.RootPower | 3rdparty/ssdv/src/rs8.c:294 | num2 is the root to the power FCR - 1, and not zero |
| RSDecoderCode.Denominator | 3rdparty/ssdv/src/rs8.c:295-301 | den is the formal derivative of lambda at the root |
| RSDecoderCode.Correct | 3rdparty/ssdv/src/rs8.c:287-308 | one correction changes the one symbol of its location, if that is not in the padding |
| RSDecoderCode.DecodeRs8 | 3rdparty/ssdv/src/rs8.c:102-317 | for every data array, pad and erasure list: a pad outside 0..222 is refused with nothing changed; -1 is returned for a good pad if and only if the block is no codeword and the locator vanishes at fewer locations than its degree, and then data and erasure array are as they were; in every case the outcome is one of the three of RSSound.DecodeSettles, and within the radius the codeword is restored and the locations in question are counted; the array beyond the block is untouched |
| Crc.TableIsByteSteps | radio/src/crc.c:38-71 | each of the 256 table entries is eight bit-serial steps of the reflected polynomial 0x8408 |
| Crc.UpdateIsByteSteps | radio/include/radio/crc.h:76-80 | the table-driven update is eight bit-serial steps of the state with the byte added, for every state and byte |
| Crc.UpdateInjective | radio/include/radio/crc.h:76-80 | the update loses neither the state nor the byte |
| Crc.CrcConcat | radio/src/crc.c:76-86 | the CRC of a concatenation is the CRC of the second part started from that of the first |
| Crc.OneByteDetected | radio/src/crc.c:76-86 | changing one byte of a message of any length changes its CRC |
| Crc.BurstDetected | radio/src/crc.c:76-86 | so does any change confined to two consecutive bytes |
| Crc.SameTail | radio/src/crc.c:76-86 | two different states stay different under the same bytes |
| Crc.ResidueIff | radio/src/ax25.c:660-664 | from every state, two bytes lead to 0xF0B8 if and only if they are the complemented CRC, low byte first |
| Crc.CrcCcitt | radio/src/crc.c:76-86 | the loop computes the CRC of the buffer from any start value |
| Crc.CheckValue | radio/src/crc.c:38-86 | the digits 123456789 give the check value of this CRC |
| Ax25.ReceiveConsistent | radio/src/ax25.c:808-859 | one received byte, synchronised or not, keeps the buffer within its length, the running CRC equal to the buffer's, and a complete frame at least 18 bytes with the good residue |
| Ax25.PollConsistent | radio/src/ax25.c:799-870 | so does a whole poll of any input |
| Ax25.ReceivedIsChecked | radio/src/ax25.c:812-818 | a complete frame ends with the complemented CRC, low byte first, of what is before |
| Ax25.CorruptionRejected | radio/src/ax25.c:812-818 | a complete frame with any one byte changed would have been refused |
| Ax25.PollSplit | radio/src/ax25.c:799-870 | the input may arrive in any pieces: polling them in turn is polling them together, up to the end of a frame |
| Ax25.PollEscaped | radio/src/ax25.c:832-858 | a synchronised receiver undoes the sender's escaping |
| Ax25.WireReceived | radio/src/ax25.c:799-947 | from any receiver that is not inside an escape or holding a frame, the bytes of one frame give the frame with its check bytes and leave the rest of the input unread |
| Ax25.NodeAt | radio/src/ax25.c:680-745 | callsign in upper case up to its first space, low four bits of the SSID, last-address bit and flag of every legal station are read back from the address field |
| Ax25.RestoredIff | radio/src/ax25.c:680-763 | a repeater comes back with its own callsign in upper case, SSID and flag if and only if the callsign has at most six characters and no space, and the SSID is below 16 |
| Ax25.RepeatersRestored | radio/src/ax25.c:753-766 | the repeater loop returns the repeaters in order with their flags and stops after the last address |
| Ax25.BodyDecoded | radio/src/ax25.c:731-794 | decoding the bytes of a frame gives the frame back, whatever the rest of the buffer holds |
| Ax25.StreamDelivered | radio/src/ax25.c:799-968 | every frame that the sender accepts and the buffer holds (legal callsigns, UI, no layer 3, up to eight repeaters) is read back from a stream once, in order, with its stations as received and identical information; any bytes but flag and escape may lie between frames |
| Ax25.LegalIs | radio/src/ax25.c:684-692 | a station is accepted if and only if its first six characters are digits, letters or spaces |
| Ax25.AddressLaid | radio/src/ax25.c:684-712 | one address on the wire, in numbers: letters in upper case in the seven high bits, 0x40 up to six, then flag, 0x60, SSID and the mark of the last address |
| Ax25.BodyLaid | radio/src/ax25.c:896-926 | the frame: destination, source, repeaters, seven bytes each and only the last one marked, then control, protocol and information |
| Ax25.CheckedLaid | radio/src/ax25.c:928-937 | behind it the complement of its CRC from 0xFFFF, low byte first |
| Ax25.EscapedLaid | radio/src/ax25.c:669-677 | exactly 0x7E, 0x7F and 0x1B get a 0x1B put before them |
| Ax25.WireLaid | radio/src/ax25.c:893-946 | a message is a flag, its frame with no unescaped 0x7E or 0x7F, and a flag |
| Ax25.AnyEscaped | radio/src/ax25.c:839-858 | behind a 0x1B any byte is data: collected, dropped without synchronisation, or one too many at 330 |
| Ax25.AnyFrame | radio/src/ax25.c:808-859 | any bytes between two flags, of any length, are a frame if and only if, cut to 330, they are at least 18 and end with their own complemented CRC; otherwise the closing flag opens the next frame |
| Ax25.AfterReset | radio/src/ax25.c:832-837 | after 0x7F nothing is collected up to the next flag, which still closes what was collected before |
| Ax25.NoiseIgnored | radio/src/ax25.c:808-859 | a receiver that is not synchronised ignores everything but flags and escapes |
| Ax25.UiIs | radio/src/ax25.c:753-780 | the address field ends at the first marked address behind the destination or the eighth repeater, and the frame is decoded if and only if 0x03 and 0xF0 follow |
| Ax25.DecodedIff | radio/src/ax25.c:768-780 | a legal frame with any control and protocol bytes is decoded if and only if they are 0x03 and 0xF0 |
| Ax25Link.AddressCut | radio/src/ax25.c:686-692 | a callsign with an illegal character stops the address field right before that character |
| Ax25Link.Frame.Clear | radio/src/ax25.c:239-260 | the frame becomes an empty UI frame without layer 3 |
| Ax25Link.Frame.SetDst | radio/src/ax25.c:276-286 | the destination's callsign, cut to six characters and at a zero, and its SSID are set, and nothing else |
| Ax25Link.Frame.SetSrc | radio/src/ax25.c:263-273 | the same for the source |
| Ax25Link.Frame.AddRepeater | radio/src/ax25.c:289-306 | a ninth repeater is refused; otherwise it is appended and its index returned |
| Ax25Link.Frame.SetRepeaterFlag | radio/src/ax25.c:309-323 | the flag of an existing repeater is set, any other index refused |
| Ax25Link.Frame.SetInfo | radio/src/ax25.c:326-339 | the information is cut to the buffer's length |
| Ax25Link.Link.constructor | radio/src/ax25.c:574-585 | a cleared receiver that keeps the invariant of all reachable ones |
| Ax25Link.Link.PutChar | radio/src/ax25.c:667-677 | one character goes out, escaped if it is special, and into the outgoing CRC |
| Ax25Link.Link.SendCall | radio/src/ax25.c:679-715 | one address goes out as NodeBytes, whose bytes Ax25.AddressLaid gives in numbers; an illegal character stops it there with the error, after the characters before it |
| Ax25Link.Link.SendAddresses | radio/src/ax25.c:896-912 | destination, source and repeaters go out in order, only the last one marked as last |
| Ax25Link.Link.Send | radio/src/ax25.c:872-947 | a legal frame goes out whole between flags and the CRC error is never returned; otherwise the error and exactly the part before the illegal character |
| Ax25Link.Link.ReceiveByte | radio/src/ax25.c:808-859 | one turn of the polling loop on the object's fields is one step of the receiver |
| Ax25Link.Link.Poll | radio/src/ax25.c:798-870 | the loop polls until a frame is complete or the input is used up |
| Ax25Link.Link.ExtractCallsign | radio/src/ax25.c:718-728 | the six characters shifted back, spaces as terminators |
| Ax25Link.Link.DecodeRepeaters | radio/src/ax25.c:753-766 | the loop with its moving pointer reads at most eight repeaters and ends behind the address field |
| Ax25Link.Link.DecodeFrame | radio/src/ax25.c:730-784 | the moving pointer fills the frame in; a frame that is not UI or has a layer 3 protocol is refused |
| Ax25Link.Link.Read | radio/src/ax25.c:952-968 | a received frame is decoded and the receiver cleared; nothing received and invalid frame are reported with the receiver as it was |
| Tnc.HexTextRead | radio/src/tnc.c:94-103 | two hexadecimal digits per byte read back as the payload |
| Tnc.WordRead | radio/src/tnc.c:282-287 | the four digits of the CRC field add up to the CRC that was printed |
| Tnc.FrameFed | radio/src/tnc.c:209-306 | from any receiver state, an even number of digits and a four-digit CRC field in a message's form are taken as a whole and judged by the CRC alone |
| Tnc.RoundTrip | radio/src/tnc.c:189-414 | from any receiver state, the writer's bytes end in TNC_EOT with the payload, and what follows is left unread |
| Tnc.DigitChanged | radio/src/tnc.c:251-275 | any one digit of the text changed to any other hexadecimal digit is a CRC error |
| Tnc.FieldChanged | radio/src/tnc.c:251-293 | a changed CRC field is accepted if and only if it stands for the same number |
| Tnc.NoiseIgnored | radio/src/tnc.c:264-301 | bytes that are neither control codes nor hexadecimal digits, anywhere on the line, change nothing |
| Tnc.PollsAreOne | radio/src/tnc.c:198-309 | several polls, as long as no frame ends before the last piece, are one poll of everything |
| Tnc.PollsDeliver | radio/src/tnc.c:189-414 | a message with any noise, cut into any pieces, polled from any state, ends complete |
| Tnc.WireFits | radio/src/tnc.c:272-275 | a message whose payload fits the receive buffer never runs over it on the way |
| Tnc.NoiseFits | radio/src/tnc.c:264-301 | noise needs no room in the buffer |
| TncForm.TextWritten | radio/src/tnc.c:352-369 | byte i of the payload is written as two digits 0-9 A-F, high digit first |
| TncForm.WordWritten | radio/src/tnc.c:378-388 | the CRC is written as four digits 0-9 A-F, highest first |
| TncForm.WireLaid | radio/src/tnc.c:337-411 | a message on the line: 1, 2, the digits of the payload, 3, the four digits of their CRC from 0xFFFF, 4 |
| TncForm.StateIsForm | radio/src/tnc.c:218-306 | at any point of any line, as long as no frame has ended, the state is what the line ends with, noise left out: header after 1, text after 1, 2 and digits, CRC field after 3 and up to four digits, illegal at the fifth, idle after anything else |
| TncForm.FieldRecognised | radio/src/tnc.c:218-306 | from any state, 1, 2, digits, 3 and up to four digits lead to the CRC field with the payload of the pairs and both CRCs, and a fifth digit to the illegal state |
| TncForm.MessageFound | radio/src/tnc.c:251-262 | a frame is only ever ended by a message's form, and accepted if and only if the CRC of its digits is the sum of its field; otherwise it is a CRC error |
| TncForm.ErrorIsIdle | radio/src/tnc.c:220-301 | an error state takes the next byte as the idle state does |
| TncPort.Port.constructor | radio/src/tnc.c:109-148 | an idle receiver with an empty buffer of the given size |
| TncPort.Port.Poll | radio/src/tnc.c:189-310 | the loop with its switch, on the object's fields and buffer, is the poll of the automaton, with the closed and the failing line reported |
| TncPort.Port.Take | radio/src/tnc.c:220-303 | the switch on one byte is one step of the automaton |
| TncPort.Port.TakeDigit | radio/src/tnc.c:264-301 | a hexadecimal digit in the text, in the CRC field, in a fifth place of it, and outside a frame |
| TncPort.Port.Write | radio/src/tnc.c:313-414 | the writer's state machine puts exactly one message on the line, in the form and with the upper-case digits of TncForm.WireLaid, and returns the number of payload bytes, for every payload including the empty one |
| XBee.FeedSplit | src/xbee.c:919-1015 | feeding two pieces in turn is feeding them together |
| XBee.LineRead | src/xbee.c:919-1015 | a line of frames of declared length 0..251 and noise without start bytes gives exactly the frames with a right checksum, once each, in order and unchanged |
| XBee.ChunkedLineRead | src/xbee.c:919-1015 | the result does not depend on how the line is cut into chunks |
| XBee.CheckCompletes | src/xbee.c:1121-1133 | payload and checksum add up to 0xFF modulo 256 |
| XBee.ChangeNoticed | src/xbee.c:998-1003 | a frame with one payload byte changed is never delivered |
| XBee.AtRead | src/xbee.c:25-71 | the accessors read frame number, command, parameter length and parameters of a local request as they were given, up to 247 parameter bytes |
| XBee.RemoteRead | src/xbee.c:78-126 | the same for a remote request, up to 236 parameter bytes |
| XBee.IdsCycle | src/xbee.c:1267-1282 | frame numbers run through 1..255 and are never zero |
| XBee.RequestsRead | src/xbee.c:25-126 | a run of requests reaches the receiver one packet each, in order, the accessors give back what was asked, and each packet has the layout of XBee.RequestLaid with its addresses |
| XBee.RequestLaid | src/xbee.c:41-59 | a request's packet byte by byte: 0x7E, length, 0x08 or 0x17, number, for a remote one the 64-bit address, the 16-bit address and 2 or 0 for the apply option, command, parameters, and a checksum that completes the sum to 0xFF |
| XBee.AnswersRead | src/xbee.c:345-642 | the accessors read number, command and parameters of the answers 0x88 and 0x97 as well |
| XBee.QueuedRead | src/xbee.c:345-642 | a queued request 0x09 is read likewise, but has no number |
| XBee.OthersRead | src/xbee.c:345-642 | every other type has no command and no parameters, and just five of them a number |
| XBeePort.Port.In | src/xbee.c:919-1015 | the chunked fall-through parser with its one-byte counters computes the byte-at-a-time automaton on any chunk of up to 255 bytes |
| XBeePort.Port.Header | src/xbee.c:926-985 | its first three cases, entered at any of them, take the header bytes and allocate the packet |
| XBeePort.Port.Body | src/xbee.c:987-995 | its last case fills the packet up to the checksum or the end of the chunk |
| XBeePort.Port.Finish | src/xbee.c:998-1013 | a whole packet is delivered if its checksum is right, and the parser starts again in any case |
| XBeePort.Port.TakeLength | src/xbee.c:957-978 | with the third header byte a packet of the declared length is allocated and its header copied |
| XBeePort.Port.Crc | src/xbee.c:1121-1133 | the loop computes the complement of the payload's sum |
| XBeePort.Port.NextFrameId | src/xbee.c:1267-1282 | the frame number is counted up in one byte, leaving out zero |
| XBeePort.Port.SendAt | src/xbee.c:24-71 | the bytes written are the request's packet, with the layout of XBee.RequestLaid |
| XBeePort.Port.SendRemoteAt | src/xbee.c:77-126 | the same for a remote request, with the 64-bit address before the 16-bit one and the apply option as 2 or 0 |
| DLists.InsertDelete | src/dlist.c:46-225 | removing what was inserted gives the list back, and inserting what was removed too |
| DLists.InsertedLinked | src/dlist.c:151-163 | turning the two neighbours' links leaves all nodes linked both ways |
| DLists.DeletedLinked | src/dlist.c:61-84 | so does turning them past a removed node |
| DLists.DList.constructor | src/dlist.c:19-30 | an empty list |
| DLists.DList.WalksReversed | src/dlist.c:263-282 | the walk from the tail meets the nodes of the walk from the head in reverse |
| DLists.DList.InsertAfter | src/dlist.c:122-172 | the list stays well formed and a fresh node enters right behind the given one; a null element is refused unless the list is empty |
| DLists.DList.InsertBefore | src/dlist.c:175-225 | the same in front of the given node |
| DLists.DList.Append | src/dlist.c:297-305 | the data is added at the end |
| DLists.DList.Prepend | src/dlist.c:286-294 | the data is added in front |
| DLists.DList.Remove | src/dlist.c:46-92 | the list stays well formed, exactly the given node leaves and its data is returned; null and the empty list are refused |
| DLists.DList.Destroy | src/dlist.c:95-119 | terminates with an empty list, having called `destroy` once for each element from tail to head |
| DLists.DList.FindFirst | src/dlist.c:228-248 | the first node that matches, or null if and only if none does |
| Vectors.RoundUp | src/vector.c:63-68 | the smallest multiple of the growth that is enough |
| Vectors.Vector.constructor | src/vector.c:18-31 | an empty vector with a growth of at least one |
| Vectors.Vector.Resize | src/vector.c:48-104 | contents are cut or extended, the cut elements destroyed from the last one backwards, the allocation rounded up, and less than one growth step is ever in excess |
| Vectors.Vector.DestroyFrom | src/vector.c:70-80 | the elements cut off are destroyed and nulled, the last one first |
| Vectors.Vector.CreateTo | src/vector.c:89-99 | new elements come from `fnew`, or are null without it |
| Vectors.Vector.Append | src/vector.c:231-245 | the element is added at the end |
| Vectors.Vector.Remove | src/vector.c:107-142 | exactly the element at the index leaves and is destroyed, and the allocation shrinks when a whole step is in excess; any other index is refused |
| Vectors.Vector.Get | src/vector.c:214-228 | the element at the index, or null |
| Vectors.Vector.Replace | src/vector.c:197-211 | the element at the index is replaced; the index one past the end is accepted without changing the contents |
| Vectors.Vector.FindFirstIndex | src/vector.c:273-295 | the first index that matches, or -1 if and only if none does |
| Vectors.Vector.FindFirst | src/vector.c:248-270 | the first pointer that matches, or null if and only if none does |
| Vectors.Vector.NullCopies | src/vector.c:180-184 | the loop terminates and replaces every match of the destroyed pointer by null |
| Vectors.Vector.Clear | src/vector.c:161-193 | the vector is empty and unallocated, and `fdestroy` was called for what the copies of earlier pointers left |
| Vectors.ClearedOnce | src/vector.c:170-187 | if the search compares pointer identity, every distinct non-null pointer is destroyed exactly once, duplicates or not |
| Vectors.ClearingIff | src/vector.c:170-187 | clearing destroys every distinct pointer exactly once for all contents if and only if the search compares pointer identity |
| Vectors.ClearedInOrder | src/vector.c:172-187 | with pointer identity they are destroyed in the order in which they first stand in the vector |
| Vectors.ClearedAre | src/vector.c:170-187 | whatever the search compares: exactly those pointers are destroyed, in order, that are not null and for which no earlier destroyed one was taken |
| Vectors.SearchByPointer | src/vector.c:282-294 | a search with the pointers as keys and their difference as comparison is pointer identity; without callbacks nothing is found |
| Vectors.BackwardsAt | src/vector.c:72-79 | the elements cut off are destroyed once each from the last to the first |
| Vectors.BackwardsSkips | src/vector.c:74-78 | null pointers among them are left out |
| Vectors.CreatedIs | src/vector.c:91-98 | the i-th new element is what the i-th call of `fnew` returned, or null |
| Blyss.GetJoins | src/gpio/blyss.c:170-208 | reading at any place joins the nibbles there, most significant first |
| Blyss.SetReplaces | src/gpio/blyss.c:134-168 | writing replaces exactly the nibbles of its place by the digits of the value |
| Blyss.RoundTripIff | src/gpio/blyss.c:134-208 | reading gives back every value written if and only if the length is one or two nibbles, or four at an odd nibble |
| Blyss.FieldSet | src/gpio/blyss.c:20-26 | for each of the seven fields, setting a value that fits makes it that value and leaves the other six as they are |
| Blyss.FrameSent | src/gpio/blyss.c:104-131 | the 52 bits sent are the seven fields one after the other, most significant bit first |
| Blyss.FrameHeard | src/gpio/blyss.c:64-131 | comparing the lengths of the two levels of each bit gives the sent bits back |
| Blyss.FieldLaid | src/gpio/blyss.c:20-26 | the seven fields are these bits of the seven bytes |
| Blyss.BitsLaid | src/gpio/blyss.c:114-128 | the i-th bit sent is the i-th of the frame, the highest bit of each byte first |
| Blyss.FrameShape | src/gpio/blyss.c:64-131 | the line: 2400 us high, for each bit 400 and 800 us (one) or 800 and 400 us (zero) low and high, and 24 ms low |
| Blyss.ChannelCoded | src/gpio/blyss.c:38-38 | the channel table is one to one, and exactly the field values 0..8 stand for a channel |
| Blyss.StampedFields | src/gpio/blyss.c:233-256 | a transmission sets rolling code and token and no other field |
| Blyss.AfterIs | src/gpio/blyss.c:233-361 | after k transmissions the rolling code index has advanced by k modulo 5 and the token by 10 k modulo 256 |
| Blyss.PairsRepeat | src/gpio/blyss.c:233-361 | two transmissions carry the same code index and token if and only if they are a multiple of 640 apart |
| Blyss.CodesSent | src/gpio/blyss.c:37-361 | a new sender's codes are 0x98, 0xDA, 0x1E, 0xE6, 0x67 in turn, its tokens ten apart |
| BlyssPort.Frame.SetBits | src/gpio/blyss.c:134-168 | the loop over bits on the raw bytes computes the write of nibbles |
| BlyssPort.Frame.GetBits | src/gpio/blyss.c:170-208 | the loop computes the read |
| BlyssPort.Frame.constructor | src/gpio/blyss.c:365-374 | a new frame has flag, global channel and address set and the other fields zero |
| BlyssPort.Frame.SetTxId | src/gpio/blyss.c:377-382 | global channel and address are set and nothing else |
| BlyssPort.Frame.SetGlobalChannel | src/gpio/blyss.c:385-389 | a value too wide is cut to its low nibble, and no other field changes |
| BlyssPort.Frame.SetAddress | src/gpio/blyss.c:392-396 | the address is set and nothing else |
| BlyssPort.Frame.SetChannel | src/gpio/blyss.c:399-406 | channels 0..7 are set as their table value; any other is ignored |
| BlyssPort.Frame.GetChannel | src/gpio/blyss.c:273-285 | the loop finds the channel of the field value, or 255 |
| BlyssPort.Frame.SetState | src/gpio/blyss.c:409-413 | the state field is zero for on and one for off |
| BlyssPort.Frame.GetState | src/gpio/blyss.c:437-441 | the state is on if and only if its field is zero |
| BlyssPort.Frame.IsValid | src/gpio/blyss.c:444-453 | a frame is valid if and only if its flag is 0xFE and its rolling code is one of the barrel |
| BlyssPort.Remote.SendBit | src/gpio/blyss.c:64-78 | a short low and a long high for one, a long low and a short high for zero |
| BlyssPort.Remote.SendFrame | src/gpio/blyss.c:104-131 | the loop with its shifting mask puts out header, the 52 bits and footer |
| BlyssPort.Remote.SetRollingCode | src/gpio/blyss.c:248-256 | the current code goes into the frame and the index moves round the barrel |
| BlyssPort.Remote.SetToken | src/gpio/blyss.c:233-238 | the current token goes into the frame and advances by ten |
| BlyssPort.Remote.Send | src/gpio/blyss.c:344-361 | with an output, the frame is stamped once and sent the given number of times; without one nothing happens |
| DInput.ScanSeen | src/gpio/dinput.c:116-162 | the bit scan terminates; each pin sees its edge if its bit changed, and misses it only when a callback stopped the thread |
| DInput.ChangeInStep | src/gpio/dinput.c:114-163 | a confirmed change keeps a pin's edges alternating and their balance equal to its bit of `prev_values` |
| DInput.PollInStep | src/gpio/dinput.c:102-169 | so does every run, whatever the pins do and whatever the callbacks return |
| DInput.OpenedInStep | src/gpio/dinput.c:174-214 | a port just opened is in that state: the first edge told will be a rising one |
| DInput.RunTells | src/gpio/dinput.c:102-169 | while no callback stops it, a run tells each pin's callback exactly the wanted edges of the confirmed values, once each and in order |
| DInput.WantsIs | src/gpio/dinput.c:145 | a rising edge is told to a callback that wants rising edges, a falling one to one that wants falling edges |
| DInput.NotedIs | src/gpio/dinput.c:141 | what is noted is the last edge, if it is wanted |
| DInput.VisitIs | src/gpio/dinput.c:123-158 | a changed pin in full: what is noted, what the callback is called with, and that the thread stops if it returns non-zero |
| DInput.ChangeTold | src/gpio/dinput.c:120-163 | the edges of one confirmed change are told in the order of the pins, and a callback that returns non-zero is the last one called |
| DInput.ScanLeaves | src/gpio/dinput.c:154-158 | the pins behind the one whose callback stopped the thread keep what was noted of them |
| DInput.HeldConfirmed | src/gpio/dinput.c:107-114 | when every level is held for at least two readings, the confirmed values are exactly the changes of level |
| DInput.GlitchIgnored | src/gpio/dinput.c:110-114 | a value read once between readings of the present one is not confirmed |
| DInput.JoinedInStep | src/gpio/dinput.c:288-299 | a callback set later is told alternating edges from then on, the first leading away from the pin's present bit |
| DInput.AskingIff | src/gpio/dinput.c:348-363 | `iDinEdgeOccured` reports a wanted edge since the last question without fail if and only if both edges are wanted or none |
| DInputPort.ReadMeans | src/gpio/dinput.c:260-277 | bit p of the word read is set if and only if pin p is at its active level |
| DInputPort.InputPort.constructor | src/gpio/dinput.c:174-220 | a port just opened: nothing seen, no callback, no edge wanted |
| DInputPort.InputPort.ReadAll | src/gpio/dinput.c:260-277 | the loop builds that word |
| DInputPort.InputPort.Poll | src/gpio/dinput.c:102-169 | the thread's loop computes the state machine on the words read, until it is stopped or needs another reading |
| DInputPort.InputPort.Confirm | src/gpio/dinput.c:116-163 | the loop with the moving mask is the scan of the changed bits |
| DInputPort.InputPort.Tell | src/gpio/dinput.c:140-158 | one changed pin: the edge is noted, the callback called if it wants the edge, and the thread stopped if it returns non-zero |
| DInputPort.InputPort.SetCallback | src/gpio/dinput.c:288-299 | edge and callback of one existing pin are set, any other index refused |
| DInputPort.InputPort.ClearCallback | src/gpio/dinput.c:302-313 | the callback of one existing pin is removed |
| DInputPort.InputPort.SetEdge | src/gpio/dinput.c:328-345 | the wanted edges of one existing pin are set |
| DInputPort.InputPort.EdgeOccurred | src/gpio/dinput.c:348-363 | what was noted for a pin is returned and forgotten |
| Rf69.SplitJoined | src/spi/rf69.c:236-241 | three registers hold a value modulo 2^24 |
| Rf69.StepsFit | src/spi/rf69.c:231-235 | the divided value of every licensed frequency fits them |
| Rf69.ReadBack | src/spi/rf69.c:229-534 | what is read back is at most 62 Hz below what was set and never above |
| Rf69.StepsAreGreatest | src/spi/rf69.c:235 | the register value is the greatest number of steps of 15625/256 Hz within the frequency |
| Rf69.HertzAreWhole | src/spi/rf69.c:533 | the frequency read is the registers' value in those steps, cut to hertz |
| Rf69.ReadBackLicensed | src/spi/rf69.c:203-534 | the frequency read back is itself licensed unless the set one lies in 433075000..433075012 Hz |
| Rf69.SetWhatWasRead | src/spi/rf69.c:229-534 | setting the frequency just read keeps the registers if and only if they hold a multiple of 256 steps, and lowers them by one otherwise |
| Rf69.Creeps | src/spi/rf69.c:229-534 | repeating that lowers the registers step by step to the multiple of 256 below and stays there |
| Rf69.Radio.IsLicensedFreq | src/spi/rf69.c:214-225 | the loop accepts exactly the frequencies within one of the four bands |
| Rf69.Radio.SetFrequencyRegs | src/spi/rf69.c:228-245 | a licensed frequency's steps are in the three registers afterwards and no other register changed; any other frequency is refused with nothing written |
| Rf69.Radio.Frequency | src/spi/rf69.c:519-534 | the loop puts the registers together and converts to hertz |
| Rf69.Radio.SetMode | src/spi/rf69.c:866-918 | a mode is only set when it is another than the present one |
| Rf69.RetuningSilent | src/spi/rf69.c:537-554 | the actions of a retuning never write a register while transmitting and end in the mode they found |
| Rf69.RetuningOrder | src/spi/rf69.c:537-554 | place by place: a receiving radio is told its three registers, synthesizer and reception; a sending one reception, its registers and sending; any other its registers; and nothing else |
| Rf69.Radio.SetFrequency | src/spi/rf69.c:537-554 | for a licensed frequency the registers hold it, the mode is as before and what the radio was told is, place by place, the sequence of Rf69.RetuningOrder; otherwise the registers are as they were and a transmitting radio is left receiving |

## Left out

- Ax25Link.Link.Read: requires that an accepted frame's address field ends within the bytes received, because the source computes the information length without checking that and copies that many bytes.
- Ax25Link.Frame.SetInfo: does not model the cleared bytes behind the information, which nothing reads.
- TncPort.Port.Poll: requires that the run stays inside the receive buffer, because the source stores bytes unchecked; `Tnc.WireFits` and `Tnc.NoiseFits` show that a payload that fits never violates it.
- XBeePort.Port.In: requires that no header declares more than 251 bytes, because the source then goes on with a packet that does not exist.
- XBeePort.Port.SendAt: does not model longer parameters than one packet holds, a failing write, or parameters announced but not given.
- XBeePort.Port.SendRemoteAt: does not model longer parameters than one packet holds, or a failing write.
- Vectors.Vector.Replace: requires spare allocation when the index is one past the end, because the source writes behind the allocation otherwise.
- Vectors.Vector.Resize: does not model `realloc` of zero bytes, which may return null and trip the source's assertion.
- Vectors.Vector.Remove: models the copy of overlapping memory as a move.
- DLists.DList.Remove: says nothing about the node after its removal, because the source frees it.
- RSSilent.SilentFailure: the converse is not stated, because a longer burst of syndromes can lead to the locator one too; `RSSound.OutputIsCodeword` gives the exact condition for the result.
- RSSound.OutputIsCodeword: requires that no location is marked as erased twice.
- RSDecoderCode.DecodeRs8: requires at most 32 erasures within the code's 255 locations and room for 32 positions, as the arrays of the source do; with repeated erasures only the refinement is stated, not the correction.
- DInputPort.InputPort.Poll: takes the pins' configuration as fixed during one run; the callbacks of a whole group, the locks between the threads, and the time between two readings are not modelled. More than 32 pins do not fit the source's word.
- DInputPort.InputPort.SetCallback: does not model a grouped port, for which the source refuses the call.
- BlyssPort.Remote.Send: does not model an output that fails.
- BlyssPort.Remote.constructor: takes the random start of the token as a parameter.
- Rf69.Radio.SetMode: does not model the operation mode register, the wait after sleep, and the registers of the high-power module.
- Rf69.Radio.SetFrequency: does not model a failing transfer.
- Rf69.Radio.Frequency: takes the step of the synthesizer as the rational 15625/256, which the source's constant is exactly; the rounding of the source's divisions in `double` is not modelled.
- AX.25: frames that are received but not UI, which stay in the receiver until it is cleared; printing.
- XBee: the release of packets, IO samples, `iXBeeOut` writing a packet in several parts, the callbacks' dispatch by packet type, and the error counters.
- Null pointer arguments and their error codes, and running out of memory.
- Opening, configuring and closing devices, threads, timers, SPI, I2C, serial lines and memory maps.
- `src/tinfo.c`, `src/i2c/i2c.c`, `src/unix/timer.c`, GPS formatting, sensor scaling, board pin maps and the C++ wrappers, which would add only easy or device-bound members.
