# The CELT entropy layer, in Dafny

This project models the entropy layer of the Opus CELT codec and the integer algorithms on top of it
(sections 4.1, 4.3.2.1, 4.3.3, 4.3.4.2, 4.3.4.4, 4.3.4.5 and 5.1 of RFC 6716) and proves that encoder and decoder
agree.
`dafny verify dfyconfig.toml` checks all of it.

## How it is put together

- **The ideal coder** (`RangeModel`). A run of coder calls is a sequence of frequency intervals and raw-bit fields.
  `Run` gives its state: an unbounded low end, a range, and the raw bits as one integer. `Holds(s, p)` says that
  packet `p` carries state `s`: its code point lies in the interval and its last bits are the raw bits.
- **The real coders** (`EntEnc`, `EntDec`). Classes `Encoder` and `Decoder` with the fields of `ec_ctx` over an
  `array<byte>`. The encoder's `Valid()` ties its bytes, buffered byte, pending 255s, register and window to
  `Run(ops)`; `CarryChain` and `Flush` hold the arithmetic. The decoder's `Valid()` says that its registers are those
  of `Run(ops)` for the packet it reads, whatever the packet is. So `Encoder.Done` without error gives
  `Holds(Run(ops), packet)`, every decoder keeps `Holds(Run(ops), packet)`, and a packet determines its run
  (`RangeModel.Follow`).
- **The main theorem** (`RoundTrip.EncodeDecode`). Models may depend on all earlier values and on the two counters
  both sides keep. Encoding succeeds if and only if the flushed bits of the run fit, and then every value comes back.
- **Users of the coder.** Pulse vectors (`Pvq`, `PvqTable`, `PvqRow`, `PvqCoder`), the Laplace models (`Laplace`,
  `LaplaceEscape`; `LaplacePdf` has the probabilities, and `LaplaceCost`, `LaplaceCaps` and `LaplaceTail` prove that
  their tail never runs short), split angles (`Isqrt`, `Theta`), fractional bit counts (`TellFrac`).
- **The side information protocol.** `SideInfo` gives tf flags, spread, band boosts and trim as a function of the
  calls made and the packet size; `SideTables` says what its tables mean and `SideBudget` that its tests are exact and
  never overrun the packet. `SideCoder` proves both sides against it, `SideAgreement` that a packet determines it and
  that shrinking changes none of it. `SidePacket.FrameThroughPacket` puts a whole frame together: earlier values whose
  models test the packet size, the side information, the two shrinks, and later values whose models depend on all of
  it.
- **Searches and tables.** `Viterbi` (the search in `tf_analysis`), `KissFft` and `BitRev` (radices and digit
  reversal), `Hadamard` (the interleaving permutations). `Arith` holds the arithmetic all of them use.

Shifts, masks and ORs are written with `/`, `%`, `*` and an explicit `Or`; 32-bit and 16-bit results are kept in
range by types and proofs, and wrap-around is written out where the code relies on it (`PvqRow`, `PvqTable.Int16`).

Three facts differ from what one might expect. A component of a decoded pulse vector passes through a 16-bit variable:
`PvqTable.Int16Exact` says when that is exact. The comment at celt/cwrs.c:199 gives U(0,K) = 1 for K > 0 where the
table and the codebook sizes need U(0,0) = 1 and U(0,K) = 0; the model follows the table. And the rate control caps
the packet at celt/celt_encoder.c:2445 before it raises it to the minimum, so a cap below the minimum wins:
`SidePacket.ShrunkSize` says when that happens and `SidePacket.CapBelowLeast` gives a size.

## Model

| member | source | states |
|---|---|---|
| `RangeModel.NarrowFields` | Внедрять/opus-main/celt/entenc.c:128-149 | The register updates of `ec_encode`, in both branches, are the cut of the range at the two cumulative bounds; the slack of the division goes to frequency 0 and no interval is empty. |
| `RangeModel.BitFields` | Внедрять/opus-main/celt/entenc.c:151-162 | The update of `ec_enc_bit_logp` is the same cut for a one of probability 2^-logp; both halves are non-empty. |
| `RangeModel.UintSplit` | Внедрять/opus-main/celt/entenc.c:186-202 | For every 32-bit alphabet the two parts of a value fit 8 range-coded bits and at most 24 raw bits, or the alphabet has at most 256 values. |
| `RangeModel.UintRejoin` | Внедрять/opus-main/celt/entdec.c:219-244 | Whatever parts are read, OR-ing them is their sum, and inside the alphabet they are exactly the parts of that value. |
| `RangeModel.UintMeans` | Внедрять/opus-main/celt/entenc.c:186-202 | A value of at most 256 is a symbol one unit wide at its own place; a larger alphabet takes the value over all but eight bits as such a symbol, and the rest as raw bits. |
| `RangeModel.UintOrder` | Внедрять/opus-main/celt/entenc.c:186-202 | The split keeps order: a smaller value has an earlier symbol, or the same one and smaller raw bits; neighbours leave no gap. |
| `RangeModel.UintEnds` | Внедрять/opus-main/celt/entenc.c:186-202 | The first value starts at 0 and the last one ends at the total. |
| `RangeModel.IcdfTiles` | Внедрять/opus-main/celt/entenc.c:164-184 | The symbols of an inverse table tile the total in order, each as wide as the table falls there. |
| `RangeModel.RunGood` | Внедрять/opus-main/celt/entenc.c:101-137 | After every run of calls the range is in (2^23, 2^31], the interval is inside the unit range and the raw bits fit their count. |
| `RangeModel.StepHolds` | Внедрять/opus-main/celt/entdec.c:153-160 | A packet that carries one more call already carried the state before it, and determines that call's raw value. |
| `RangeModel.NextUnique` | Внедрять/opus-main/celt/entdec.c:139-217 | Of all calls one probability model allows, a packet determines a single next one. |
| `RangeModel.PrefixHolds` | Внедрять/opus-main/celt/entdec.c:139-217 | A packet that carries a run carries each of its prefixes. |
| `RangeModel.Follow` | Внедрять/opus-main/celt/entdec.c:139-217 | A decoder that has read exactly a prefix of the run reads the encoder's next call. |
| `CarryChain.CarryRipples` | Внедрять/opus-main/celt/entenc.c:82-99 | A carry into a byte below 255 followed by pending 255s is that byte plus one followed by zeros, as numbers. |
| `CarryChain.CarryExact` | Внедрять/opus-main/celt/entenc.c:82-99 | Written bytes, buffered byte and pending 255s together: outputting c multiplies their value by 256 and adds c, carry or not. |
| `CarryChain.ShiftKeepsRoom` | Внедрять/opus-main/celt/entenc.c:101-110 | One renormalisation keeps the register below 2^32 and keeps a carry away from a buffered 255, so a written byte never exceeds 255. |
| `CarryChain.ShiftLow` | Внедрять/opus-main/celt/entenc.c:101-110 | One renormalisation of digits and register is exactly 256 times the unbounded low end. |
| `CarryChain.CarryCount` | Внедрять/opus-main/celt/entenc.c:82-99 | Each output symbol adds exactly one digit, written or pending. |
| `Flush.FlushCovers` | Внедрять/opus-main/celt/entenc.c:255-270 | Every continuation of the chosen bits stays inside [val, val+rng). |
| `Flush.FlushMinimal` | Внедрять/opus-main/celt/entenc.c:255-270 | With fewer bits every code point has a continuation outside the range. |
| `Flush.FlushLenRegister` | Внедрять/opus-main/celt/entenc.c:255-270 | The flush of the register and of the unbounded low end take the same number of bits, so success depends on the run alone. |
| `Flush.PointMask` | Внедрять/opus-main/celt/entenc.c:263-270 | The mask arithmetic rounds up to the next multiple of 2^(31-l), for l bits and for l+1. |
| `Flush.SharedByte` | Внедрять/opus-main/celt/entenc.c:286-304 | OR-ing raw bits below the spare bits of the last range byte adds them and overflows nothing. |
| `Flush.PacketCode` | Внедрять/opus-main/celt/entenc.c:255-304 | Neither the cleared middle nor the raw tail moves the code point of the finished packet out of the chosen sub-interval. |
| `Flush.PacketRaw` | Внедрять/opus-main/celt/entenc.c:279-304 | The raw bits read back from the end of the finished packet are those of the back bytes and of the shared byte. |
| `Flush.SealedPacket` | Внедрять/opus-main/celt/entenc.c:286-304 | Success is exactly that all bytes and the last raw bits fit; then the packet carries everything, and the range part survives even when only raw bits are lost. |
| `Flush.FitsInBits` | Внедрять/opus-main/celt/entenc.c:255-304 | Counting bytes per end with a shared byte is the same as counting bits. |
| `Flush.RawByte` | Внедрять/opus-main/celt/entenc.c:279-285 | Moving the low byte of the window to the buffer keeps the raw value. |
| `Flush.RawStep` | Внедрять/opus-main/celt/entenc.c:204-223 | Appending bits above the window appends them to the raw value. |
| `Flush.TellCoversFlush` | Внедрять/opus-main/celt/entcode.h:111-113 | The bits `ec_tell` reports are never below those the flush of a run needs and never more than one above. |
| `EntEnc.Encoder.constructor` | Внедрять/opus-main/celt/entenc.c:112-126 | A fresh encoder represents the empty run. |
| `EntEnc.Encoder.WriteByte` | Внедрять/opus-main/celt/entenc.c:60-64 | A byte is appended at the front exactly when the two ends do not meet; otherwise nothing changes. |
| `EntEnc.Encoder.WriteByteAtEnd` | Внедрять/opus-main/celt/entenc.c:66-70 | The same for the back end, which grows downwards. |
| `EntEnc.Encoder.CarryOut` | Внедрять/opus-main/celt/entenc.c:82-99 | The bytes released, the new buffered byte and the pending count are those of the digit model; the error is set exactly when they do not fit. |
| `EntEnc.Encoder.Normalize` | Внедрять/opus-main/celt/entenc.c:101-110 | The loop ends in the state that represents the renormalised ideal interval. |
| `EntEnc.Encoder.Encode` | Внедрять/opus-main/celt/entenc.c:128-137 | Appends exactly this call to the run the encoder represents. |
| `EntEnc.Encoder.EncodeBin` | Внедрять/opus-main/celt/entenc.c:139-149 | The same for a power-of-two total. |
| `EntEnc.Encoder.BitLogp` | Внедрять/opus-main/celt/entenc.c:151-162 | The same for one bit. |
| `EntEnc.Encoder.Icdf` | Внедрять/opus-main/celt/entenc.c:164-184 | The same for a symbol of an inverse table, 8- or 16-bit. |
| `EntEnc.Encoder.RawBits` | Внедрять/opus-main/celt/entenc.c:204-223 | Appends raw bits; whole bytes of the window go to the back of the buffer first when it would overflow. |
| `EntEnc.Encoder.Uint` | Внедрять/opus-main/celt/entenc.c:186-202 | Appends the calls of a value of any 32-bit alphabet. |
| `EntEnc.Encoder.Shrink` | Внедрять/opus-main/celt/entenc.c:248-253 | Any size that still holds both ends keeps the whole represented run. |
| `EntEnc.Encoder.ChoosePoint` | Внедрять/opus-main/celt/entenc.c:263-270 | The length and the code point are the shortest covering ones. |
| `EntEnc.Encoder.Done` | Внедрять/opus-main/celt/entenc.c:255-304 | No error exactly when the flushed bits fit the packet; then the packet carries every call made; the range part survives a loss of raw bits. |
| `Window.CodeShift` | Внедрять/opus-main/celt/entdec.c:102-117 | One renormalisation follows the code point exactly; the 31-bit mask drops no bit. |
| `Window.DecodePoints` | Внедрять/opus-main/celt/entdec.c:139-151 | The frequency computed is the one the code point falls into, the slack going to frequency 0. |
| `Window.PointsWithin` | Внедрять/opus-main/celt/entdec.c:153-160 | A symbol that contains the decoded frequency contains the code point. |
| `Window.IcdfFields` | Внедрять/opus-main/celt/entdec.c:177-217 | Where the table search stops is the interval of a symbol with room. |
| `Window.FirstSymbolSlack` | Внедрять/opus-main/celt/entdec.c:177-217 | Why tables start below 2^ftb: one that starts there leaves symbol 0 the remainder of the division, and nothing exactly when that is zero. |
| `Window.WindowShrinks` | Внедрять/opus-main/celt/entdec.c:246-266 | Taking k bits off the window gives the next k bits of the packet read from its end. |
| `EntDec.Decoder.constructor` | Внедрять/opus-main/celt/entdec.c:119-137 | From its different starting constants the decoder reaches, after the initial renormalisations, the state of the empty run. |
| `EntDec.Decoder.ReadByte` | Внедрять/opus-main/celt/entdec.c:91-93 | The next byte, or zero past the end. |
| `EntDec.Decoder.ReadByteFromEnd` | Внедрять/opus-main/celt/entdec.c:95-98 | The next byte from the back, or zero past the start. |
| `EntDec.Decoder.Normalize` | Внедрять/opus-main/celt/entdec.c:102-117 | The loop ends, on any bytes, in the state of the renormalised ideal interval with val below rng. |
| `EntDec.Decoder.Decode` | Внедрять/opus-main/celt/entdec.c:139-144 | On any bytes the frequency the code point falls into, below the total. |
| `EntDec.Decoder.DecodeBin` | Внедрять/opus-main/celt/entdec.c:146-151 | The same for a power-of-two total. |
| `EntDec.Decoder.Update` | Внедрять/opus-main/celt/entdec.c:153-160 | Accepting the symbol that holds the decoded frequency appends its call. |
| `EntDec.Decoder.BitLogp` | Внедрять/opus-main/celt/entdec.c:162-175 | On any bytes returns the bit whose call it appends. |
| `EntDec.Decoder.Icdf` | Внедрять/opus-main/celt/entdec.c:177-217 | On any bytes the search ends and returns a codable symbol with its call. |
| `EntDec.Decoder.RawBits` | Внедрять/opus-main/celt/entdec.c:246-266 | On any bytes returns k bits with their call; past the start of the packet they are zero. |
| `EntDec.Decoder.Uint` | Внедрять/opus-main/celt/entdec.c:219-244 | On any bytes the result is below the total: either a value with exactly its calls, or the last value, an error, and parts no value has. |
| `RoundTrip.EncodeValue` | Внедрять/opus-main/celt/entenc.c:128-223 | Under any of the six models a value appends exactly its calls. |
| `RoundTrip.DecodeValue` | Внедрять/opus-main/celt/entdec.c:139-266 | On any bytes the result is codable under the model and its calls are what was read, or the uniform model reports corruption. |
| `RoundTrip.Lockstep` | Внедрять/opus-main/celt/entcode.h:111-113 | After the same calls both sides have equal rng and nbits_total, so `ec_tell` and `ec_tell_frac` agree. |
| `RoundTrip.FollowAll` | Внедрять/opus-main/celt/entdec.c:139-266 | Calls decoded under the encoder's models are the encoder's calls, however many. |
| `RoundTrip.FollowValue` | Внедрять/opus-main/celt/entdec.c:139-266 | A value decoded under the encoder's model at the encoder's place is the encoder's value. |
| `RoundTrip.NeverCorrupt` | Внедрять/opus-main/celt/entdec.c:219-244 | A packet that carries an encoder's value never triggers the corruption branch of `ec_dec_uint`. |
| `RoundTrip.DecodeAll` | Внедрять/opus-main/celt/entdec.c:91-266 | A decoder told only how models are chosen returns all values of the run, and on any other packet ends with as many values. |
| `RoundTrip.EncodeDecode` | Внедрять/opus-main/celt/entenc.c:82-304 | For every sequence of values under adaptively chosen models and every packet size: it succeeds if and only if the flushed bits of the run fit, and a success decodes to the sequence encoded. |
| `RoundTrip.TellDecides` | Внедрять/opus-main/celt/entcode.h:111-113 | A run whose `ec_tell` fits the packet succeeds, and one that is more than one bit over fails. |
| `Pvq.USymmetric` | Внедрять/opus-main/celt/cwrs.c:199-205 | U(n,k) = U(k,n), from the recurrence, which is what allows half the table. |
| `Pvq.VMono` | Внедрять/opus-main/celt/cwrs.c:197-213 | A codebook is no smaller than one of fewer dimensions and pulses. |
| `Pvq.RankFits` | Внедрять/opus-main/celt/cwrs.c:444-460 | The index of a vector is below the size of its codebook. |
| `Pvq.UnrankRank` | Внедрять/opus-main/celt/cwrs.c:444-541 | Decoding a vector's index gives the vector, for every integer vector. |
| `Pvq.RankUnrank` | Внедрять/opus-main/celt/cwrs.c:444-541 | Every index below the codebook size is the index of the vector it decodes to; with UnrankRank, a bijection. |
| `Pvq.RankOrder` | Внедрять/opus-main/celt/cwrs.c:444-541 | The index orders the codebook lexicographically: at the first component that differs, positive comes before negative, and of one sign the larger magnitude first. |
| `PvqTable.UTable` | Внедрять/opus-main/celt/cwrs.c:199-205 | The lookup in the half table is U in both index orders. |
| `PvqTable.EntryFits` | Внедрять/opus-main/celt/cwrs.c:444-541 | Every entry a codebook below 2^32 makes the coder touch is below 2^32. |
| `PvqTable.Icwrs` | Внедрять/opus-main/celt/cwrs.c:444-460 | Summed from the last component to the first in 32 bits, the result is the rank; no partial sum overflows. |
| `PvqTable.StepPulses` | Внедрять/opus-main/celt/cwrs.c:477-499 | Both searches for one component with k >= n find its sign and column. |
| `PvqTable.StepDims` | Внедрять/opus-main/celt/cwrs.c:500-521 | The same with k < n, zero component included. |
| `PvqTable.StepTwo` | Внедрять/opus-main/celt/cwrs.c:525-534 | The closed form of the second to last component. |
| `PvqTable.LastComponent` | Внедрять/opus-main/celt/cwrs.c:535-539 | The last component is the remaining pulses, its sign the remaining index. |
| `PvqTable.Cwrsi` | Внедрять/opus-main/celt/cwrs.c:467-541 | Through all branches: each component of the vector as converted to 16 bits, and for k below 32768 the vector itself and its sum of squares. |
| `PvqTable.Int16Exact` | Внедрять/opus-main/celt/cwrs.c:467-541 | The 16-bit component variable is exact for every index if and only if k is below 32768; two dimensions admit more pulses within 2^32 codewords. |
| `PvqRow.PrevUndoesNext` | Внедрять/opus-main/celt/cwrs.c:552-577 | `uprev` undoes `unext` on every row, wrap-around included. |
| `PvqRow.NextUndoesPrev` | Внедрять/opus-main/celt/cwrs.c:552-577 | `unext` undoes `uprev` on every row, wrap-around included. |
| `PvqRow.NextRow` | Внедрять/opus-main/celt/cwrs.c:552-563 | Stepping up row n gives row n+1 of U when it fits 32 bits. |
| `PvqRow.PrevRow` | Внедрять/opus-main/celt/cwrs.c:568-577 | Stepping down row n+1 gives row n of U. |
| `PvqRow.UNext` | Внедрять/opus-main/celt/cwrs.c:552-563 | In place, the segment becomes the next row; what lies before it is untouched. |
| `PvqRow.UPrev` | Внедрять/opus-main/celt/cwrs.c:568-577 | In place, the segment becomes the previous row. |
| `PvqRow.NcwrsURow` | Внедрять/opus-main/celt/cwrs.c:583-602 | Builds row n up to column k+1 and returns the codebook size. |
| `PvqRow.Cwrsi` | Внедрять/opus-main/celt/cwrs.c:609-634 | The row-stepping decoder returns the same vector and sum of squares as the table decoder. |
| `PvqRow.Icwrs` | Внедрять/opus-main/celt/cwrs.c:640-671 | The row-stepping encoder returns the same index as the table encoder, and the codebook size. |
| `PvqCoder.EncodePulses` | Внедрять/opus-main/celt/cwrs.c:462-465 | Appends the calls of the vector's rank in its codebook. |
| `PvqCoder.DecodePulses` | Внедрять/opus-main/celt/cwrs.c:543-545 | On any packet the codeword at some index, components cut to 16 bits, with its energy below 32768 pulses; in sync, the index of the vector encoded, for every pulse count. |
| `LaplacePdf.FsFalls` | Внедрять/opus-main/celt/laplace.c:44-73 | Probabilities fall strictly until they are zero, so both walks end. |
| `Laplace.CodeFits` | Внедрять/opus-main/celt/laplace.c:51-92 | A coded interval is non-empty and inside [0,32768); clamping keeps the sign, never grows the magnitude and is idempotent. |
| `Laplace.CodeThenDecode` | Внедрять/opus-main/celt/laplace.c:51-134 | Every frequency in a value's interval decodes to the value stored back and to the same interval. |
| `Laplace.DecodeThenCode` | Внедрять/opus-main/celt/laplace.c:94-134 | Every frequency below 32768 lies in the interval of the value it decodes to: no gap, no overlap. |
| `Laplace.Choose` | Внедрять/opus-main/celt/laplace.c:51-92 | The encoder's walk and tail arithmetic give the interval and the stored value of the code. |
| `Laplace.Encode` | Внедрять/opus-main/celt/laplace.c:51-92 | Appends the call of the value's code and reports the value coded. |
| `Laplace.Recognise` | Внедрять/opus-main/celt/laplace.c:94-134 | The decoder's walk, which carries the minimum probability inside fs, gives the value and interval of the frequency. |
| `Laplace.Decode` | Внедрять/opus-main/celt/laplace.c:94-134 | On any bytes returns an unclamped value with exactly its call. |
| `Laplace.RoundTrips` | Внедрять/opus-main/celt/laplace.c:51-134 | In sync the decoder returns exactly the value the encoder stored back. |
| `Laplace.CodeOrder` | Внедрять/opus-main/celt/laplace.c:51-92 | The intervals are ordered by magnitude, the negative sign of each before the positive one. |
| `Laplace.SignsAlike` | Внедрять/opus-main/celt/laplace.c:51-92 | Both signs of a magnitude are equally likely, and a value in the tail has one unit. |
| `Laplace.ClampedExactly` | Внедрять/opus-main/celt/laplace.c:74-88 | A value is clamped if and only if it lies past the last tail unit of its sign. |
| `Laplace.GuaranteedDeltas` | Внедрять/opus-main/celt/laplace.c:37-42 | The 16 deltas of each sign the code promises are coded without clamping, for every zero probability and decay. |
| `LaplaceCost.Account` | Внедрять/opus-main/celt/laplace.c:60-73 | The tail left over, as an exact balance of unit minima against what rounding down saves. |
| `LaplaceCost.UnitsLeft` | Внедрять/opus-main/celt/laplace.c:44-73 | No mass is wasted: the tail gets the 32 units kept for it less the cost of rounding, and besides that less than one rounding of the first probability. |
| `LaplaceCost.HalvingSettled` | Внедрять/opus-main/celt/laplace.c:66-73 | Decays up to one half: rounding costs at most 15 of the 16 units kept for each sign. |
| `LaplaceCost.CostNearOne` | Внедрять/opus-main/celt/laplace.c:66-73 | Decays next to one: for probabilities with (f+1)*(16384-decay) <= 16384 rounding never costs anything. |
| `LaplaceCost.IntervalSettled` | Внедрять/opus-main/celt/laplace.c:66-73 | An interval of decays whose table of bounds is consistent: again at most 15 units, for every probability. |
| `LaplaceTail.TailNeverShort` | Внедрять/opus-main/celt/laplace.c:37-73 | For every zero probability and every decay, above the documented 11456 too, at least two tail units are left, so every value has a code. |
| `LaplaceTail.UnitsPerMagnitude` | Внедрять/opus-main/celt/laplace.c:60-73 | Each decaying magnitude takes at most two of the units kept for the tail. |
| `LaplaceEscape.MagnitudeUsable` | Внедрять/opus-main/celt/laplace.c:149-155 | For every decay below 32768 the generated table falls strictly to 0, so all eight symbols can be coded. |
| `LaplaceEscape.SignNeedsRoom` | Внедрять/opus-main/celt/laplace.c:139-144 | All three sign symbols can be coded if and only if p0 is in 1..32766. |
| `LaplaceEscape.SignWidths` | Внедрять/opus-main/celt/laplace.c:139-144 | Zero is exactly p0 wide; the rest is shared by the signs, equally up to one unit, the positive one first and not smaller. |
| `LaplaceEscape.EntryDecays` | Внедрять/opus-main/celt/laplace.c:149-155 | Entry i of the table is decay^(i+1) / 2^(15i) up to i roundings, except where the floor 7-i takes over. |
| `LaplaceEscape.EscapesSpell` | Внедрять/opus-main/celt/laplace.c:157-160 | A seven for every whole seven of the value, then its remainder. |
| `LaplaceEscape.CallsSpell` | Внедрять/opus-main/celt/laplace.c:136-162 | The whole of what a value codes: its place among the signs, and 1 + (|v|-1)/7 digits. |
| `LaplaceEscape.BuildTable` | Внедрять/opus-main/celt/laplace.c:149-155 | The table loop both sides run. |
| `LaplaceEscape.Encode` | Внедрять/opus-main/celt/laplace.c:136-162 | Appends a sign and the base-7 escapes of the magnitude. |
| `LaplaceEscape.EscapeProgress` | Внедрять/opus-main/celt/laplace.c:164-192 | On any bytes another escape consumes packet bytes, widens the gap past their end or narrows the range, so the decoder's loop ends. |
| `LaplaceEscape.Decode` | Внедрять/opus-main/celt/laplace.c:164-192 | On any bytes ends and returns the value whose calls were read. |
| `LaplaceEscape.EscapesRoundTrip` | Внедрять/opus-main/celt/laplace.c:136-192 | The escapes are a prefix code: whatever follows, the packet determines the magnitude. |
| `LaplaceEscape.RoundTrips` | Внедрять/opus-main/celt/laplace.c:136-192 | Every integer comes back. |
| `Isqrt.Isqrt32` | Внедрять/opus-main/celt/mathops.c:45-68 | The floor square root of every positive 32-bit value, and nothing else is one. |
| `Isqrt.RootUnique` | Внедрять/opus-main/celt/mathops.c:45-68 | A number has one floor square root; so `Isqrt32` promises the only one. |
| `Theta.Tiling` | Внедрять/opus-main/celt/bands.c:779-839 | For every even qn the step and the triangle intervals start at 0, touch, are non-empty and end at the total. |
| `Theta.StepWidths` | Внедрять/opus-main/celt/bands.c:782-785 | Angles up to qn/2 are three times as wide as those above. |
| `Theta.TriangleWidths` | Внедрять/opus-main/celt/bands.c:805-813 | The width of an angle is one more than its distance from the nearer end. |
| `Theta.CallsLikelihood` | Внедрять/opus-main/celt/bands.c:779-813 | Which of the three distributions an angle gets, by the widths of its calls. |
| `Theta.InCellUnique` | Внедрять/opus-main/celt/bands.c:779-839 | A frequency lies in the interval of one angle only. |
| `Theta.RootOfTriangular` | Внедрять/opus-main/celt/bands.c:820-836 | The square-root formula inverts the triangular numbers. |
| `Theta.FindTriangle` | Внедрять/opus-main/celt/bands.c:814-839 | The square-root formulas recover the angle and its interval from any frequency, in both halves. |
| `Theta.FindStep` | Внедрять/opus-main/celt/bands.c:791-798 | The same for the step. |
| `Theta.Encode` | Внедрять/opus-main/celt/bands.c:779-813 | Each of the three branches appends the angle's calls. |
| `Theta.Decode` | Внедрять/opus-main/celt/bands.c:779-839 | On any bytes an angle in 0..qn with exactly its calls, or a reported corruption of the uniform branch. |
| `Theta.RoundTrips` | Внедрять/opus-main/celt/bands.c:779-839 | In sync the decoded angle is the encoded one. |
| `Theta.EvenExactly` | Внедрять/opus-main/celt/bands.c:779-839 | The intervals fit the total and are disjoint if and only if qn is even. |
| `TellFrac.EcIlog` | Внедрять/opus-main/celt/entcode.c:41-62 | Five halvings compute the position of the top bit. |
| `TellFrac.FastIsSlow` | Внедрять/opus-main/celt/entcode.c:69-114 | Table correction and three squarings give the same eighths for every mantissa. |
| `TellFrac.EcTellFrac` | Внедрять/opus-main/celt/entcode.c:69-84 | The version in use computes the fractional count. |
| `TellFrac.EcTellFracReference` | Внедрять/opus-main/celt/entcode.c:86-114 | The reference loop computes the same count. |
| `TellFrac.Tell8Bounds` | Внедрять/opus-main/celt/entcode.c:69-84 | 8*ec_tell - 8 < ec_tell_frac <= 8*ec_tell. |
| `TellFrac.Tell8Covers` | Внедрять/opus-main/celt/entcode.c:86-114 | Never under-reports the bits used: rng^8 >= 2^(8*(nbits_total-1) - ec_tell_frac). |
| `TellFrac.Tell8Within` | Внедрять/opus-main/celt/entcode.c:86-114 | Over-reports by less than two eighths of a bit: rng^8 < 2^(8*(nbits_total-1) - ec_tell_frac + 2). |
| `TellFrac.OverByOneEighth` | Внедрять/opus-main/celt/entcode.c:86-114 | A range for which it over-reports by one eighth, so the bound cannot be lowered to one. |
| `TellFrac.Tell8Step` | Внедрять/opus-main/celt/entcode.c:69-84 | No call lowers the fractional count. |
| `TellFrac.Tell8Symbol` | Внедрять/opus-main/celt/entenc.c:128-173 | A symbol with a share of 2^c of 2^k adds at most k-c bits to the count, and exactly those when it is not the first. |
| `TellFrac.Tell8Bit` | Внедрять/opus-main/celt/entenc.c:151-162 | The rarer value of a bit adds exactly logp bits, the other one at most one. |
| `SideInfo.BandReach` | Внедрять/opus-main/celt/celt_encoder.c:2372-2385 | The boost loop is a search: it stops at the first count that is not both wanted and affordable. |
| `SideInfo.BandOutcome` | Внедрять/opus-main/celt/celt_encoder.c:2372-2385 | What the flags of a band say, on any packet size: every boost counted was wanted and affordable, and a zero flag ends them exactly when one more was affordable. |
| `SideInfo.BoostTotals` | Внедрять/opus-main/celt/celt_encoder.c:2356-2389 | The total is the sum of the boosts, each a number of quanta no more than wanted that starts below the cap; the first flag of a band costs max(2, 6 - bands boosted before). |
| `SideInfo.Quanta` | Внедрять/opus-main/celt/celt_encoder.c:2367-2369 | Six bits for 6 to 48 samples, else one bit a sample below and an eighth of a bit a sample above. |
| `SideInfo.MinAllowed` | Внедрять/opus-main/celt/celt_encoder.c:2424-2428 | The least size that holds what is coded, the boosts and two bytes more. |
| `SideTables.TfEntries` | Внедрять/opus-main/celt/celt.c:314-326 | What each flag resolves to, for every frame length: without a transient flag 0 keeps the resolution; in a transient it gains all of the frequency resolution, or one step under select 1; flag 1 always has the better time resolution. |
| `SideTables.TfResolves` | Внедрять/opus-main/celt/celt_encoder.c:853-860 | What the section leaves in tf_res for each band, on any budget. |
| `SideTables.ChangedExactly` | Внедрять/opus-main/celt/celt_encoder.c:838-851 | tf_changed is set exactly when some band ends up with flag 1. |
| `SideTables.SelectMatters` | Внедрять/opus-main/celt/celt_encoder.c:852-858 | tf_select is coded, when its bit was kept, if and only if it changes the resolution of some band. |
| `SideTables.SpreadDefault` | Внедрять/opus-main/celt/celt.h:196-196 | The spread assumed when none is coded is the most likely one. |
| `SideTables.TrimDefault` | Внедрять/opus-main/celt/celt.h:194-194 | The same for the trim, whose probabilities are symmetric about 5. |
| `SideBudget.SpreadExactly` | Внедрять/opus-main/celt/celt_encoder.c:2302-2348 | A spread is coded if and only if the rarest one would fit: four bits are exactly what it takes. |
| `SideBudget.TrimExactly` | Внедрять/opus-main/celt/celt_encoder.c:2408-2422 | A trim is coded if and only if the rarest one would fit beside the boosts: six bits are exactly what it takes. |
| `SideBudget.TfFlagExactly` | Внедрять/opus-main/celt/celt_encoder.c:841-847 | A flag is coded if and only if a change would fit the budget. |
| `SideBudget.ReserveExactly` | Внедрять/opus-main/celt/celt_encoder.c:833-837 | A bit is kept for tf_select if and only if a first change and the select bit would both fit. |
| `SideBudget.BoostExactly` | Внедрять/opus-main/celt/celt_encoder.c:2372-2374 | Another boost flag is coded if and only if the boosts are below the cap and a boost would leave something of the budget. |
| `SideBudget.BoostsCost` | Внедрять/opus-main/celt/celt_encoder.c:2372-2385 | j boosts of a band cost exactly logp + j - 1 bits. |
| `SideBudget.TfLikelihoods` | Внедрять/opus-main/celt/celt_encoder.c:834-850 | How likely a change of flag is taken to be: one in 4 or 16 for the first band, one in 16 or 32 after it. |
| `SideBudget.SideWithin` | Внедрять/opus-main/celt/celt_encoder.c:2298-2428 | For every packet size and every wish, no part of the side information takes the count past the end of the packet. |
| `SideBudget.SideFits` | Внедрять/opus-main/celt/celt_encoder.c:2298-2428 | A packet that can be finished before the side information can be finished after it. |
| `SideAgreement.TfShrink` | Внедрять/opus-main/celt/celt_encoder.c:824-862 | With the margin left, the tf section of a smaller packet is the same. |
| `SideAgreement.BoostShrink` | Внедрять/opus-main/celt/celt_encoder.c:2359-2389 | The same for the band boosts. |
| `SideAgreement.SideShrink` | Внедрять/opus-main/celt/celt_encoder.c:2424-2428 | No tf, spread, boost or trim decision changes when the packet is shrunk to any size not below min_allowed. |
| `SideAgreement.TfUnique` | Внедрять/opus-main/celt/celt_decoder.c:513-550 | Two readings of the tf section of one packet agree on calls and results. |
| `SideAgreement.BoostUnique` | Внедрять/opus-main/celt/celt_decoder.c:1412-1438 | The same for the band boosts, whose number of flags is itself coded. |
| `SideAgreement.SideUnique` | Внедрять/opus-main/celt/celt_decoder.c:1395-1442 | A packet determines all the side information. |
| `SideCoder.EncodeFlags` | Внедрять/opus-main/celt/celt_encoder.c:838-851 | The loop codes flags while the budget lasts and overwrites the rest with the last coded value. |
| `SideCoder.TfEncode` | Внедрять/opus-main/celt/celt_encoder.c:824-862 | Calls and final tf_res of the whole section; entries outside start..end are untouched. |
| `SideCoder.DecodeFlags` | Внедрять/opus-main/celt/celt_decoder.c:527-537 | On any packet what is read is what some encoder would have coded. |
| `SideCoder.TfDecode` | Внедрять/opus-main/celt/celt_decoder.c:513-550 | The same for the whole section with tf_select. |
| `SideCoder.EncodeBand` | Внедрять/opus-main/celt/celt_encoder.c:2366-2385 | Calls and boost of one band. |
| `SideCoder.DecodeBand` | Внедрять/opus-main/celt/celt_decoder.c:1416-1433 | On any packet the boost of a band and the calls of an encoder that wanted it. |
| `SideCoder.EncodeBoosts` | Внедрять/opus-main/celt/celt_encoder.c:2356-2389 | The loop over bands turns wanted into coded offsets; the first-flag cost falls after each boosted band. |
| `SideCoder.DecodeBoosts` | Внедрять/opus-main/celt/celt_decoder.c:1409-1438 | The same on the decoder, which counts the budget down and tests the boost instead of the flag count. |
| `SideCoder.EncodeSpread` | Внедрять/opus-main/celt/celt_encoder.c:2302-2348 | Codes the spread if four bits are left, else both sides assume the normal one. |
| `SideCoder.DecodeSpread` | Внедрять/opus-main/celt/celt_decoder.c:1398-1401 | On any packet the spread some encoder would have coded here. |
| `SideCoder.EncodeTrim` | Внедрять/opus-main/celt/celt_encoder.c:2408-2422 | Codes the trim if six bits are left after the boosts, else 5. |
| `SideCoder.DecodeTrim` | Внедрять/opus-main/celt/celt_decoder.c:1441-1442 | On any packet the trim some encoder would have coded here. |
| `SideCoder.EncodeSide` | Внедрять/opus-main/celt/celt_encoder.c:2298-2428 | The whole section: calls, final settings and min_allowed. |
| `SideCoder.DecodeSide` | Внедрять/opus-main/celt/celt_decoder.c:1395-1442 | On any packet the settings and calls of an encoder with some wish. |
| `SidePacket.ShrinkFits` | Внедрять/opus-main/celt/celt_encoder.c:2424-2428 | What is already written fits every size the encoder may shrink to. |
| `SidePacket.ShrunkSize` | Внедрять/opus-main/celt/celt_encoder.c:2445-2532 | Cap, target, minimum and reservoir: the size is the old one or not below min_allowed if and only if the cap of line 2445 is not below both. |
| `SidePacket.ShrunkNearest` | Внедрять/opus-main/celt/celt_encoder.c:2480-2527 | Without a deficit the size is, of all between the minimum and the cap, the nearest to the target; a deficit is added on top as far as the cap allows. |
| `SidePacket.CapBelowLeast` | Внедрять/opus-main/celt/celt_encoder.c:2445-2482 | The size formula does not compare the cap with the minimum: given the cap of a 2.5 ms frame and 1275 bytes, a minimum of 200 gets 159. |
| `SidePacket.Extension` | Внедрять/opus-main/celt/celt_encoder.c:2559-2563 | An extension gets what it wants or all that is left above the minimum, and nothing if that is 20 bytes or less. |
| `SidePacket.ExtendedSize` | Внедрять/opus-main/celt/celt_encoder.c:2559-2567 | The second shrink, for an extension: for every number of bytes wanted the bytes freed are the extension, its length bytes and one, and it never goes below the minimum. |
| `SidePacket.FinalSize` | Внедрять/opus-main/celt/celt_encoder.c:2445-2567 | After both shrinks the size is still the old one or not below min_allowed, under the same exact condition on the cap. |
| `SidePacket.ModelsShrink` | Внедрять/opus-main/celt/celt_encoder.c:2424-2428 | With the two-byte margin every earlier test of `tell + k <= total_bits`, k up to 16, has the same outcome for the smaller packet, so the same models are chosen. |
| `SidePacket.EarlierAgree` | Внедрять/opus-main/celt/celt_encoder.c:2038-2428 | Everything coded before the side information is coded the same for any size not below min_allowed. |
| `SidePacket.FrameThroughPacket` | Внедрять/opus-main/celt/celt_encoder.c:2038-2813 | A whole frame: earlier values whose models may test the packet size, side information, both shrinks, later values whose models may depend on everything before, the settings and the final size. When the cap allows the minimum, it succeeds if and only if the flushed bits fit the final packet, and then its decoder, which knows only the final size, returns the earlier values, the settings and the later values. |
| `SidePacket.Receive` | Внедрять/opus-main/celt/celt_decoder.c:1330-1523 | On a packet of such a frame, for every size that keeps the minimum, the decoder returns all of it. |
| `Viterbi.Search.DistExactly` | Внедрять/opus-main/celt/celt_encoder.c:754-764 | A band costs nothing if and only if its importance is 0 or its metric is twice the resolution of the flag. |
| `Viterbi.Search.DistGrows` | Внедрять/opus-main/celt/celt_encoder.c:754-764 | The cost grows with the distance, by the importance per unit. |
| `Viterbi.Search.TotalCost` | Внедрять/opus-main/celt/celt_encoder.c:751-767 | A sequence costs its distances plus lambda for each change of flag, a frame without transient starting from flag 0. |
| `Viterbi.Search.BestIsLower` | Внедрять/opus-main/celt/celt_encoder.c:774-803 | No flag sequence costs less than the forward pass says, at any band. |
| `Viterbi.Search.TracedCost` | Внедрять/opus-main/celt/celt_encoder.c:804-812 | Walking back along recorded predecessors costs exactly what the forward pass reached. |
| `Viterbi.SelCost` | Внедрять/opus-main/celt/celt_encoder.c:753-767 | The first loop computes the least cost for one tf_select. |
| `Viterbi.Forward` | Внедрять/opus-main/celt/celt_encoder.c:771-804 | Records for each band and flag a predecessor that attains the least cost. |
| `Viterbi.Backward` | Внедрять/opus-main/celt/celt_encoder.c:804-812 | Leaves in tf_res a sequence of least cost. |
| `Viterbi.TfSearch` | Внедрять/opus-main/celt/celt_encoder.c:751-812 | The result costs least among all 2^len sequences for the tf_select returned, for transients among both, and that cost is its selcost. |
| `KissFft.FactorsExactly` | Внедрять/opus-main/celt/kiss_fft.c:367-391 | The greedy choice of 4, 2, 3, 5 leaves nothing over exactly when no other prime divides n. |
| `KissFft.GreedyOrder` | Внедрять/opus-main/celt/kiss_fft.c:367-383 | The radices come as fours, then at most one two, then threes, then fives. |
| `KissFft.StoredKeeps` | Внедрять/opus-main/celt/kiss_fft.c:384-389 | The 4/2 exchange keeps radices and product. |
| `KissFft.StagesMultiply` | Внедрять/opus-main/celt/kiss_fft.c:359-411 | The stages are in {2,3,4,5} and multiply to n; a length divisible by four ends in a radix-4 stage. |
| `KissFft.RadixTwoStage` | Внедрять/opus-main/celt/kiss_fft.c:359-411 | A radix-2 stage comes just before a final radix-4 stage, so that m is 4 there as `kf_bfly2` asserts; only when 4 does not divide the length is it the last. |
| `KissFft.EightStages` | Внедрять/opus-main/celt/kiss_fft.h:88-106 | Every length below 13122 = 2 * 3^8 has at most the eight stages there is room for. |
| `KissFft.NineStages` | Внедрять/opus-main/celt/kiss_fft.h:88-106 | 13122 factors and needs nine, one more than there is room for. |
| `KissFft.NextFactor` | Внедрять/opus-main/celt/kiss_fft.c:368-376 | The inner loop ends at a divisor and skips none of 4, 2, 3, 5, also when it jumps to n. |
| `KissFft.FindRadices` | Внедрять/opus-main/celt/kiss_fft.c:366-391 | Fails exactly when a prime above 5 divides n; else stores the greedy radices with the exchange. |
| `KissFft.ReverseRadices` | Внедрять/opus-main/celt/kiss_fft.c:396-402 | Reverses the radices in place. |
| `KissFft.KfFactor` | Внедрять/opus-main/celt/kiss_fft.c:359-411 | Succeeds exactly for lengths with no prime above 5, one stage of radix 1 for length 1; then p[i]*m[i] = m[i-1] along the stages. |
| `BitRev.RevInv` | Внедрять/opus-main/celt/kiss_fft.c:321-349 | The digit reversal takes the place of a value back to the value. |
| `BitRev.InvRev` | Внедрять/opus-main/celt/kiss_fft.c:321-349 | And the value at a place back to the place. |
| `BitRev.RevDigits` | Внедрять/opus-main/celt/kiss_fft.c:321-349 | In the mixed radix of the stages, the value at a place has the digits of the place in the opposite order. |
| `BitRev.LogDistinct` | Внедрять/opus-main/celt/kiss_fft.c:321-349 | No place is written twice. |
| `BitRev.ComputeBitrevTable` | Внедрять/opus-main/celt/kiss_fft.c:321-349 | For any offset and strides: as many writes as values, each value at its digit-reversed place, nothing else touched. |
| `BitRev.InitTables` | Внедрять/opus-main/celt/kiss_fft.c:482-493 | For every length that factors, 1 included, the table is a permutation of 0..n-1, the digit reversal, and every place is written. |
| `Hadamard.OrderPermutes` | Внедрять/opus-main/celt/bands.c:567-572 | Each line of the ordery table is a permutation. |
| `Hadamard.SignChangesDouble` | Внедрять/opus-main/celt/bands.c:562-566 | Doubling the columns of a Hadamard row: even rows keep the sign changes of row i/2, odd rows take the complement. |
| `Hadamard.OrderBySignChanges` | Внедрять/opus-main/celt/bands.c:562-572 | The table puts column i at stride - 1 minus the number of sign changes of Hadamard row i. |
| `Hadamard.TargetSource` | Внедрять/opus-main/celt/bands.c:574-598 | The index maps of the two functions are inverse permutations for every N0 and stride. |
| `Hadamard.BothDetermined` | Внедрять/opus-main/celt/bands.c:574-621 | Either form determines the other. |
| `Hadamard.DeinterleaveHadamard` | Внедрять/opus-main/celt/bands.c:574-598 | The buffer becomes its deinterleaved form; what lies past N0*stride is untouched. |
| `Hadamard.InterleaveHadamard` | Внедрять/opus-main/celt/bands.c:600-621 | The buffer becomes the form that deinterleaves to what it was. |
| `Hadamard.RoundTrips` | Внедрять/opus-main/celt/bands.c:574-621 | Either function after the other restores the buffer, for every N0, stride and order. |

## Left out

- Encoder: `ext` and `nbits_total` are unbounded here; the code keeps them in 32 bits.
- `ec_enc_patch_initial_bits`: meaningful only under conditions its caller must know.
- EntEnc.Encoder.Icdf: the table must start below 2^ftb, as the fixed tables of the library do; `Window.FirstSymbolSlack` says what symbol 0 would get otherwise.
- EntDec.Decoder.Icdf: the same tables.
- `celt_udiv` is the division it computes; its reciprocal table is not modelled.
- `CELT_PVQ_U_DATA`: the numbers are taken to be U; `log2_frac` and `get_required_bits` are not modelled.
- Laplace: a decay above 16384 or a zero probability above 32736 makes the code's unsigned subtraction wrap and is not modelled.
- Theta: the resolution qn and the quantised angle are inputs; their computation from the band is not modelled.
- Side information: the encoder's wishes (tf flags, spread, boosts, trim) and the band limits are inputs, coarse energy is any run of values both sides share, and the settings between trim and allocation are later values.
- LaplaceEscape.Decode: the value is unbounded here; the code keeps it in an `int`, which a long enough run of sevens overflows.
- SidePacket: the rate-control formulas are a target size, a minimum, a cap and an adjustment; the two-byte packet of a silent frame is not modelled. When the cap forces a size below what is already written, which `ec_enc_shrink` asserts against, the model stops without a packet. The size on entry is that after the earlier shrinks for bitrate and silence (celt/celt_encoder.c:1920-2000). The payload of an extension and the move of the packet behind its length bytes are not modelled.
- Viterbi: costs are unbounded integers; the metric and importance are inputs.
- KissFft.KfFactor: needs room for as many stages as the length has; `KissFft.EightStages` shows that the eight of the code are enough below 13122. Lengths are unbounded here, 16-bit in the tables.
- BitRev: table entries are unbounded here; the code stores them in 16 bits.
- Hadamard: the ordery order is modelled for the strides its table has.
- Bit allocation, band quantisation, energy quantisation, transforms, filters, packet loss concealment and everything outside the codec.
