# AIS link layer, preamble detector and demodulator sampling in Dafny

This project models the exact, bit-level core of an AIS (Automatic Identification
System) transmit/receive chain written in Python, with an STM32 C port of the
demodulator. It covers five parts:

- **The link-layer codec.** On the transmit side this is `GenAIS.get_ais_packet`:
  - six-bit de-armoring of the sentence payload;
  - per-byte bit reversal;
  - CRC-16-CCITT append;
  - bit stuffing;
  - ramp-up, preamble and flags;
  - NRZI line coding.

  On the receive side it is `Decoder.decode`, which undoes each step, plus the fixed-offset
  field readers of the type 1 position report.
- **The preamble correlator** `Detector.preamble_detector`, with its NRZI decoding.
- **The NRZ mapping** `Modulator.binary_to_nrz_signal`.
- **The Python demodulator** `Demodulator.demod_signal_gmsk`. The delay, product,
  down-sampling schedule and sign decision are modelled. The phase function is a parameter.
- **The C demodulator** `delayVector`, `computeMultSignals`, `computeOutput` and
  `demodulate`, together with the output buffer that the STM32 main loop allocates for it.

Bits are `Bit = 0 | 1` integers in sequences. Complex samples are pairs of reals.
Each module follows one stage of the chain:

- `Common`: bits, XOR, slices, big-endian numbers;
- `Armor`: get_message_bit;
- `ByteFlip`: both flip_bits;
- `Crc`: compute_crc, add_checksum, remove_checksum;
- `Stuffing`: bit_stuffing, bit_stuffing_inv;
- `Framing`: add_preamble_flag, remove_preamble_flag;
- `Nrzi`: nrzi and both nrzi_inv;
- `Fields`: twos_comp through get_data;
- `Codec`: get_ais_packet and decode;
- `Detector`, `Modulator`, `Demodulator`.

`Decoder.compute_crc` is the same code as `GenAIS.compute_crc`, and `Detector.nrzi_inv`
is the same code as `Decoder.nrzi_inv`. Each is modelled once: `Crc.ComputeCrc` and
`Nrzi.NrziInv`. The decoder's CRC verdict is kept in the attribute `correct_checksum`
and read by `get_data`. Here it is returned with the bits, as `Crc.Checked(bits, crcOk)`.

The two stuffing loops are modelled as written:
- the encoder's array grows while it is scanned;
- the scan jumps five or six places after a match.

Each loop is proved equal to a run-counting reference definition, and the
round-trip and run-length properties are proved about that reference.

The CRC is modelled as the source's 17-bit augmented shift register. It is proved equal
to the direct CRC-16-CCITT register: polynomial 0x1021, initial value 0xFFFF, final XOR
0xFFFF. Linearity of the direct register gives the detection of every single-bit error.

Python's and numpy's edge behaviour is modelled where the core reaches it:
- `remove_preamble_flag` gives an empty result for 72 bits or fewer.
- `remove_checksum` on 1 to 15 bits either broadcasts or fails.
- `int('')` fails on an empty field.
- `bin` of a negative number fails in `int`.
- The delayed copy in `demod_signal_gmsk` is longer than the input when the input is
  shorter than one symbol.
- numpy's product broadcasts or fails on length mismatch.

Three behaviours of the code are worth stating plainly:
- **Payload unpacking.** An empty payload gives no bits rather than an error. Unpacking
  fails only on a character code below 48. A code of 120 or above gives more than six
  bits. Codes 88 to 95 map onto the same values as codes 80 to 87.
- **Encoder byte flip.** It accepts any length and reverses a trailing partial group
  within itself.
- **Decoder byte flip.** It drops a trailing partial byte. So a payload whose bit count is
  not a multiple of 8 does not round-trip. `Codec.DecodeFrameTruncates` states what comes
  back in that case.

## Model

| member | source | states |
|---|---|---|
| Common.BitsOfValue | python/ais_processing/decoder.py:211-212 | reading a bit string as a big-endian number and writing that number back at the same width gives the bit string back |
| Armor.PayloadField | python/ais_processing/ais.py:58 | the payload field exists exactly when the sentence has at least five commas; it contains no comma |
| Armor.SplitJoin | python/ais_processing/ais.py:58 | `split(',')` yields one more field than there are commas, and re-joining the fields with commas gives the sentence back |
| Armor.ArmorChar | python/ais_processing/ais.py:64-67 | every six-bit value 0..63 is the value of some armor character (codes 48–87 and 96–119) |
| Armor.ArmorBijection | python/ais_processing/ais.py:64-67 | every armor character has a value in 0..63 and is the character chosen for that value |
| Armor.ArmorInjective | python/ais_processing/ais.py:64-67 | two armor characters with the same six-bit value are the same character |
| Armor.DigitsWidth | python/ais_processing/ais.py:70 | `bin(v)` has at most k digits exactly when v < 2^k, so every armor value fits the six-digit `zfill` |
| Armor.ZFill | python/ais_processing/ais.py:70 | `zfill` pads to the width without changing the value, and never truncates |
| Armor.CharBits | python/ais_processing/ais.py:64-70 | one character's bits fail exactly for a code below 48, encode the character's value, and are exactly six for an armor character |
| Armor.PayloadBits | python/ais_processing/ais.py:63-72 | unpacking fails exactly when some character code is below 48, and otherwise gives at least six bits per character |
| Armor.MessageBits | python/ais_processing/ais.py:58-72 | a sentence with fewer than six fields is rejected; otherwise the bits are at least six per payload character |
| Armor.PayloadGroups | python/ais_processing/ais.py:63-72 | a payload of armor characters gives exactly 6·n bits, and group i read MSB-first is the value of character i |
| Armor.ArmorRoundTrip | python/ais_processing/ais.py:63-72 | every bit string of whole six-bit groups is the unpacking of some armor payload |
| ByteFlip.FlipEncode | python/ais_processing/ais.py:92-97 | the encoder's flip keeps the length of the bit string; which input bit lands where is stated by ByteFlip.FlipEncodeAt |
| ByteFlip.FlipEncodeAt | python/ais_processing/ais.py:92-95 | output bit k is the input bit mirrored within k's 8-bit group, a trailing partial group mirrored within itself |
| ByteFlip.FlipEncodeInvolution | python/ais_processing/ais.py:92-95 | the encoder's flip applied twice is the identity, for every length |
| ByteFlip.FlipDecode | python/ais_processing/decoder.py:51-55 | the decoder's flip returns n − n mod 8 bits, whole bytes |
| ByteFlip.FlipDecodeAt | python/ais_processing/decoder.py:51-55 | output bit k is input bit k − k mod 8 + 7 − k mod 8: each full byte reversed |
| ByteFlip.FlipDecodeWhole | python/ais_processing/decoder.py:51-55 | on whole bytes the decoder's flip agrees with the encoder's |
| ByteFlip.FlipRoundTrip | python/ais_processing/decoder.py:51-55 | the decoder's flip undoes the encoder's on whole bytes |
| ByteFlip.FlipDecodeTruncates | python/ais_processing/decoder.py:51-55 | the decoder's flip ignores a trailing partial byte, and the encoder's flip undoes it on the whole-byte prefix |
| Crc.ComputeCrc | python/ais_processing/ais.py:115-133 | the checksum has exactly 16 bits |
| Crc.AugmentedInvariant | python/ais_processing/ais.py:124-132 | after the shift loop has consumed all but the last 16 augmented bits, the 17-bit register holds the direct CRC register of the consumed message XOR the next 16 bits |
| Crc.ComputeCrcIsCcitt | python/ais_processing/ais.py:115-133 | the augmented register with the initial value folded into the first 16 bits computes CRC-16-CCITT: polynomial 0x1021, initial value 0xFFFF, final XOR 0xFFFF |
| Crc.CrcOfEmpty | python/ais_processing/ais.py:115-133 | the checksum of no bits is sixteen zeros |
| Crc.DirectRunLinear | python/ais_processing/ais.py:129-132 | the register update is linear over GF(2) in register and input together |
| Crc.UnitSyndrome | python/ais_processing/ais.py:129-132 | from a zero register, a message with one set bit leaves a non-zero register |
| Crc.SingleBitChangesCrc | python/ais_processing/ais.py:115-133 | flipping any one message bit changes the checksum |
| Crc.AddChecksum | python/ais_processing/ais.py:155-157 | the result is 16 bits longer and starts with the input unchanged |
| Crc.RemoveChecksum | python/ais_processing/decoder.py:184-195 | with at least 16 bits it returns all but the last 16 bits, and reports a good CRC exactly when the checksum of those bits equals the last 16, that is when the input is the checksummed remainder; 0 or 2..15 bits fail in numpy; 1 bit broadcasts against the empty remainder's checksum |
| Crc.ChecksumRoundTrip | python/ais_processing/decoder.py:184-195 | removing the checksum from a checksummed message returns the message with a good CRC |
| Crc.SingleBitErrorDetected | python/ais_processing/decoder.py:184-195 | any single flipped bit in a checksummed message, data or checksum, is reported as a bad CRC |
| Stuffing.StuffInsert | python/ais_processing/ais.py:182-187 | inserting a zero after a window of five ones and jumping five places keeps the stuffing loop's invariant |
| Stuffing.StuffKeep | python/ais_processing/ais.py:188-189 | moving one place after any other window keeps the stuffing loop's invariant |
| Stuffing.StuffDone | python/ais_processing/ais.py:181 | when the window runs past the end, the array is the stuffed input |
| Stuffing.BitStuffing | python/ais_processing/ais.py:178-191 | the loop over the growing array terminates and yields the input with a zero after every run of five ones, counting restarting after each inserted zero |
| Stuffing.StuffedHasNoSixOnes | python/ais_processing/ais.py:178-191 | the stuffed bits never contain six consecutive ones |
| Stuffing.StuffLength | python/ais_processing/ais.py:178-191 | stuffing adds at most one bit per five input bits and never removes any |
| Stuffing.DestuffDropStep | python/ais_processing/decoder.py:106-109 | after a run of five ones, the next bit is dropped unconditionally and destuffing starts over after it |
| Stuffing.DestuffDrop | python/ais_processing/decoder.py:106-109 | copying the segment up to a run of five ones and jumping six places keeps the destuffing loop's invariant |
| Stuffing.DestuffKeep | python/ais_processing/decoder.py:110-111 | moving one place after any other window keeps the destuffing loop's invariant |
| Stuffing.DestuffDone | python/ais_processing/decoder.py:113 | appending the tail after the last run completes the destuffed bits |
| Stuffing.BitStuffingInv | python/ais_processing/decoder.py:99-113 | the destuffing loop yields the reference destuffing of its input |
| Stuffing.DestuffStuff | python/ais_processing/decoder.py:99-113 | destuffing undoes stuffing for every bit sequence |
| Stuffing.DestuffLength | python/ais_processing/decoder.py:99-113 | destuffing never lengthens its input |
| Framing.PreambleAlternates | python/ais_processing/ais.py:218-221 | the preamble is 24 bits alternating 0, 1 |
| Framing.AddPreambleFlag | python/ais_processing/ais.py:226-228 | the frame is 72 bits longer, opens with the 40-bit ramp-up, preamble and flag, carries the input unchanged, and closes with the 32-bit flag and buffer |
| Framing.RemovePreambleFlag | python/ais_processing/decoder.py:130 | 72 bits or fewer give nothing; otherwise exactly the bits between the first 40 and the last 32 |
| Framing.DeframeFrame | python/ais_processing/decoder.py:130 | deframing undoes framing |
| Framing.FrameDeframe | python/ais_processing/decoder.py:130 | a received frame with the expected header and trailer is rebuilt by framing what deframing returns |
| Nrzi.Nrzi | python/ais_processing/ais.py:247-261 | from line level 0, the coded bits keep the length, start at level 0 exactly when the first bit is 1, and repeat the previous level exactly at input ones (toggle at zeros) |
| Nrzi.NrziInv | python/ais_processing/decoder.py:72-83 | from state 0, the decoded bits keep the length; bit 0 is 1 exactly when the first level is 0, and bit k is 1 exactly when level k repeats level k − 1 |
| Nrzi.NrziFrom | python/ais_processing/ais.py:247-259 | the coded bits keep the length; the level toggles exactly at input zeros and holds at input ones |
| Nrzi.NrziInvFrom | python/ais_processing/decoder.py:72-81 | the decoded bits keep the length; bit k is 1 exactly when received bit k repeats the previous level (bit 0 compares against state 0) |
| Nrzi.NrziRoundTrip | python/ais_processing/decoder.py:72-81 | NRZI decoding undoes NRZI coding |
| Nrzi.NrziInvRoundTrip | python/ais_processing/decoder.py:72-81 | NRZI coding undoes NRZI decoding for every received sequence, including one that starts at level 1 |
| Nrzi.NrziInvPrefix | python/ais_processing/detector.py:111-120 | decoding a prefix gives the prefix of the decoding |
| Fields.TwosComp | python/ais_processing/decoder.py:204-206 | the result lies in [−2^(size−1), 2^(size−1)), equals val or val − 2^size, and is negative exactly when the top bit is set |
| Fields.TwosCompRoundTrip | python/ais_processing/decoder.py:204-206 | every value in the signed range is recovered from its bit pattern |
| Fields.TwosCompInjective | python/ais_processing/decoder.py:204-206 | distinct patterns give distinct values |
| Fields.BinArrayToDec | python/ais_processing/decoder.py:211-212 | an empty field fails (`int('')`); unsigned is the big-endian value below 2^len; signed lies in the two's-complement range and is congruent to it |
| Fields.SignedFieldRoundTrip | python/ais_processing/decoder.py:211-212 | a signed value written as its two's-complement pattern reads back as itself |
| Fields.GetMsgType | python/ais_processing/decoder.py:229 | bits [0, 6) read unsigned, a value below 64 when all six bits are present; it fails exactly when the slice is empty |
| Fields.GetMmsi | python/ais_processing/decoder.py:247 | bits [8, 38) read unsigned, below 2^30; it fails exactly when the slice is empty |
| Fields.GetLong | python/ais_processing/decoder.py:282 | bits [61, 89) read signed and divided by 600000; it fails exactly when the slice is empty |
| Fields.GetLat | python/ais_processing/decoder.py:265 | bits [89, 116) read signed and divided by 600000; it fails exactly when the slice is empty |
| Fields.GetCourse | python/ais_processing/decoder.py:300 | bits [116, 128) read unsigned and divided by 10, never negative; it fails exactly when the slice is empty |
| Fields.GetData | python/ais_processing/decoder.py:355-361 | the report record succeeds exactly when the course slice is non-empty, and carries the CRC verdict it is given |
| Fields.ReadFields | python/ais_processing/decoder.py:229-300 | each fixed slice of bits that carry a report reads back the report's raw field |
| Fields.FieldsRoundTrip | python/ais_processing/decoder.py:355-361 | bits that carry a report read back as that report with position in degrees, course in degrees and the given CRC verdict |
| Codec.Frame | python/ais_processing/ais.py:279-282 | the frame before line coding is at least 88 bits longer than the data |
| Codec.GetAisPacket | python/ais_processing/ais.py:278-283 | the packet exists exactly when the sentence's payload unpacks, and is the NRZI coding of the flipped, checksummed, stuffed and framed bits |
| Codec.Decode | python/ais_processing/decoder.py:320-326 | decoded data is always whole bytes |
| Codec.DecodeFrame | python/ais_processing/decoder.py:320-326 | decoding a frame of whole-byte data returns the data with a good CRC |
| Codec.DecodeFrameTruncates | python/ais_processing/decoder.py:320-326 | decoding a frame of any data succeeds with a good CRC and returns the data's flip undone only on whole bytes |
| Codec.PacketRoundTrip | python/ais_processing/decoder.py:320-326 | NRZI decoding and then decoding a sentence's packet returns the sentence's payload bits with a good CRC whenever they are whole bytes |
| Detector.DetectionSequenceIsFrameStart | python/ais_processing/detector.py:48-52 | the detection sequence is the preamble followed by the flag, exactly bits 8..39 of the transmitted header |
| Detector.DotIsAgreements | python/ais_processing/detector.py:171 | the ±1 inner product is the length minus twice the Hamming distance |
| Detector.ScoreIsAgreements | python/ais_processing/detector.py:165-171 | a block's score is 32 minus twice the Hamming distance of its bits 8..39 from the detection sequence, and is 32 exactly on an exact match |
| Detector.FirstArgmax | python/ais_processing/detector.py:173-175 | the index holds the maximum and every earlier index scores strictly less |
| Detector.DetectAmong | python/ais_processing/detector.py:173-185 | no candidates fail; otherwise the first best block is returned, detected exactly when its score reaches the threshold, with its 256 bits exactly when detected |
| Detector.PreambleDetector | python/ais_processing/detector.py:160-185 | input of 256 bits or fewer fails; otherwise the index scores at least every start 0..n−257 of the NRZI-decoded input and every earlier start scores strictly less; detection is score ≥ threshold; the block is the decoded bits from the index on detection and absent otherwise |
| Detector.ThresholdMonotone | python/ais_processing/detector.py:179 | detection at a threshold implies detection at every lower one, at the same index |
| Detector.IndexIndependentOfThreshold | python/ais_processing/detector.py:173-175 | the returned index does not depend on the threshold, and is returned even when nothing is detected |
| Detector.ExactMatchAtFullThreshold | python/ais_processing/detector.py:179-183 | at threshold 32, detection means an exact match at the index, and no earlier candidate matches |
| Detector.MatchIsDetected | python/ais_processing/detector.py:162-179 | an exact match at a candidate start is detected at threshold 32, at that start or an earlier one |
| Detector.PacketMatches | python/ais_processing/detector.py:160-171 | an encoder frame, NRZI coded from either level after any prefix, decodes to an exact match at its start |
| Detector.PacketDetected | python/ais_processing/detector.py:160-185 | such a frame is detected at threshold 32, at or before its start, when a candidate start lies beyond it |
| Detector.PreambleDetectorAllBlocks | python/ais_processing/detector.py:162-168 | corrected detector: every full block start 0..n−256 is a candidate; it fails only below 256 bits; otherwise it returns the first best start, the same threshold decision, and the block exactly on detection |
| Detector.AllBlocksMatchIsDetected | python/ais_processing/detector.py:162-168 | with every full block a candidate, any exact match is detected at threshold 32 |
| Detector.PacketDetectedAllBlocks | python/ais_processing/detector.py:162-168 | with every full block a candidate, a frame is detected as soon as a whole block fits from its start |
| Detector.AllBlocksAgrees | python/ais_processing/detector.py:162-168 | the detector as written and the corrected one agree unless the last block scores strictly above the best earlier one |
| Detector.LastBlockMissed | python/ais_processing/detector.py:162-168 | a 256-bit input holding an exact match makes the detector as written fail, while the corrected one detects it at index 0 |
| Modulator.Pulses | python/ais_processing/modulator.py:91-92 | the pulse train has n·upsampling samples, each +1 or −1 |
| Modulator.RectangularUpFirDn | python/ais_processing/modulator.py:103 | up-sampling with inserted zeros and convolving with `[1] * up` gives each level repeated `up` times |
| Modulator.NrzSignal | python/ais_processing/modulator.py:97-103 | the signal fails exactly for an empty rectangular filter, and otherwise is the pulse train |
| Modulator.NrzSample | python/ais_processing/modulator.py:97-103 | sample k is 2·bit[k div upsampling] − 1 |
| Modulator.NrzAppend | python/ais_processing/modulator.py:100-103 | the mapping distributes over concatenation |
| Demodulator.Delayed | python/ais_processing/demodulator.py:91-94 | the delayed copy has the input's length, zeros first and the input `u` places later, when the input spans a symbol |
| Demodulator.Times | python/ais_processing/demodulator.py:96 | numpy's element-wise product fails on unequal lengths except a length-1 operand, and is element-wise on equal lengths |
| Demodulator.Product | python/ais_processing/demodulator.py:96 | each sample is multiplied by the conjugate of the delayed sample; it fails exactly when a short input meets a longer delayed copy |
| Demodulator.ProductAt | python/ais_processing/demodulator.py:96 | from index u on, the product is x[k]·conj(x[k−u]), so the zero padding never reaches it |
| Demodulator.ScheduleAt | python/ais_processing/demodulator.py:101 | the j-th index of the slice is start + j·step |
| Demodulator.DecisionCountIsDiv | python/ais_processing/demodulator.py:101 | the number of decisions is max(0, n div u − 2) |
| Demodulator.Samples | python/ais_processing/demodulator.py:101 | the sampled indices are 2u−1, 3u−1, …, all at least 2u−1 and below n−u |
| Demodulator.DecideAt | python/ais_processing/demodulator.py:99-103 | decision j is the phase-sign bit of x[2u−1+ju]·conj(x[u−1+ju]) |
| Demodulator.DemodGmsk | python/ais_processing/demodulator.py:91-103 | demodulation fails exactly for a non-positive factor or the short-input mismatch, and otherwise yields the per-symbol decisions, max(0, n div u − 2) of them |
| Demodulator.DelayVector | STM32/User/demod.c:9-19 | the delayed buffer is zero below the delay and the input shifted by the delay above it, matching the Python delayed copy |
| Demodulator.ComputeMultSignals | STM32/User/demod.c:28-31 | each buffer entry is conj(input)·delayed, the conjugate of the Python product |
| Demodulator.SlotsNext | STM32/User/demod.c:43 | the loop's indices start at 2T−1, step by T and stop at the first index reaching S−T |
| Demodulator.SamplesSchedule | STM32/User/demod.c:43 | the C loop visits exactly the indices of the Python slice |
| Demodulator.ComputeOutput | STM32/User/demod.c:41-51 | exactly max(0, S div T − 2) entries are written contiguously from 0, each the arg-sign bit of its sampled index, and nothing beyond them changes |
| Demodulator.Demodulate | STM32/User/demod.c:60-64 | the output's leading entries are the C decisions of the input and the rest is untouched |
| Demodulator.ReceiveBlock | STM32/User/main.c:177-179 | the buffer allocated with S/T − 2 entries is exactly filled by demodulate |
| Demodulator.DecisionAgrees | STM32/User/demod.c:44-48 | for an odd phase function, the C test arg > 0 on the conjugated product agrees with the Python test phase < 0 |
| Demodulator.CAgreesWithPython | STM32/User/demod.c:60-64 | for an odd phase function, the C demodulator yields exactly the Python demodulator's bits |

## Left out

- ByteFlip.FlipEncode: its own contract states only that the length is kept. The bit-by-bit mirroring is stated in the lemma ByteFlip.FlipEncodeAt, which keeps the quantifier out of every unfolding of the function.
- `GenAIS.get_ais_ref` is not modelled: nothing in the modelled core uses it. The packet's header is `Framing.Header`, and the detection sequence is `Detector.DetectionSequence`.
- `GenAIS.gen_rand_ais_type_1` is not modelled: it delegates to an external AIS encoder and draws random values.
- `Decoder.get_data` rounding to six digits is not modelled. The readers return exact rationals: raw value / 600000 or / 10.
- `Detector.log_likelihood` and `Detector.mle_detector` are not modelled: they are a floating-point changepoint estimator.
- The Gaussian filter and GMSK modulation (`get_filter_resp`, `mod_signal_gmsk`) are not modelled: they are floating-point filtering and trigonometry.
- `Demodulator.compensate_freq_shift` is not modelled: it is an FFT-based frequency estimate.
- The channel simulation is not modelled: it adds random noise and phase.
- The demos are not modelled: they are plotting and Monte-Carlo sweeps.
- The phase functions (numpy `angle`, the C `arg`) are parameters, not atan2, and samples are reals rather than floats.
- Demodulator.CAgreesWithPython: assumes the phase function is odd under conjugation. atan2 gives +π both for a negative real product and for its conjugate. On such a product Python decides 0 and C decides 1, so the agreement is not claimed there.
- Demodulator.ComputeOutput: C `int` indices and `float` samples are unbounded integers and reals. `sizeSignal` and `timeDelay` come from a configuration header that is not part of this model, so they are parameters.
- Demodulator.ReceiveBlock: requires at least two symbols per buffer. main.c passes a negative size to `malloc` otherwise, and the model does not follow that.
- The rest of STM32/User/main.c is not modelled: USB and radio I/O, LED signalling and the 256-bit window copy at main.c:183-188. That copy reads past the S/T − 2 entries allocated at main.c:177, but the helpers it calls are not part of this model.
- The input-buffer reuse in C is not modelled: `computeMultSignals` overwrites the input with the product. The model returns the product as a new sequence, so the C buffer aliasing is not represented.
- Fields.TwosComp: requires `val < 2^size`. Python's bit test accepts any integer, but the only caller passes a value read from exactly `size` bits.
- Modulator.NrzSignal: models `upsampling < 1` as an error. Python builds an empty filter then, which `upfirdn` rejects.
- Crc.ComputeCrc: states only the width. Its value is stated by `Crc.ComputeCrcIsCcitt`.

## Findings

| source | as written | input that shows it | evidently intended | confidence | as-written member | corrected member |
|---|---|---|---|---|---|---|
| python/ais_processing/detector.py:162-168 | candidate block starts are `range(0, n − 256)`, so the last full block, starting at n − 256, is never scored; input of exactly 256 bits has no candidate, so the score matrix is empty and its product with the detection sequence at line 171 raises | the NRZI coding of the 40-bit header followed by 216 zeros: 256 bits with an exact preamble-and-flag match at start 0 | every full 256-bit block is a candidate, `range(0, n − 255)`, as the comment "maximum starting index" says | not executed; medium | Detector.LastBlockMissed | Detector.PreambleDetectorAllBlocks |
