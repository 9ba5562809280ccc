# Verified model of the Dirt32 radio link

Dirt32 is a network of battery-powered LoRa sensor nodes and one gateway. This
project models, in Dafny, the parts of it that have to be right for an alert to be
believed, and proves what they are meant to guarantee. `dafny verify dfyconfig.toml`
checks all of it.

- **Cryptographic frames.** `PolySpec` is Poly1305 on big integers, as RFC 8439
  section 2.5 defines it and the gateway computes it. `PolyLimbs`, `PolyFinish` and
  `PolyCtx` are the firmware's version: five 26-bit limbs in 32-bit words, delayed
  carries, a masked subtraction and a 16-byte buffer; `PolyVector` pins the definition
  to the clamped bits and the published test vector. `Aead` and `Frames` put the AEAD
  of section 2.8 and the on-air frame on top, over values and over buffers that may
  overlap; `Payloads` has the four payload layouts.
- **Delivery.** `SeqCounter` is the node's write-ahead reservation of sequence
  numbers; `Delivery` a machine of node, lossy, duplicating and reordering channel,
  and gateway, in which either side may be reset between any two steps;
  `DeliverySafety` what holds over all its runs; `Fleet` all nodes at once;
  `Downlink` the gateway's commands and the node's floor. `LoRaLink` and `Ingest` are
  the code on both sides, shown to be runs of these machines, or as much of a run as a
  reset leaves; `Ingest` also ties the machine's symbolic frames to real bytes.
- **Serial link.** `Crc16`, `CrcDivision`, `CrcDetection`, `Cobs` and `SerialFraming`:
  checksum and what it detects, byte stuffing, both senders and both receivers.
- **Filters and queues.** `Replay` (bitmap against set), `Dedupe` (ring against the
  last 32 new pairs) and `CsiRing` (two tasks on one ring against a bounded FIFO).
- `Bits`, `Bytes`, `Options`, `Protocol` and `Machine` hold shared definitions: bitwise
  operators on natural numbers, little-endian encoding, limits, and runs of a step
  function.

Code that updates fields or buffers is modelled by classes and methods on arrays.
Each method is specified by a function or a machine, and the lemmas are about those.
C truncations are written out with `U32` and `U64`; `>> k` is division by 2^k.

## Assumptions

- The ChaCha20 block function is any function that yields 64 bytes; nothing depends on
  its inside. That nobody without the key can make a frame that opens is assumed in
  `Delivery` and `Downlink`, where the channel holds only frames that were sealed.
- All claims are within one key epoch, without the `seqreset` command, and the flash
  read at boot returns the last committed value.
- A flash write may fail, and may commit and still report failure, but does not report
  a success that did not commit. A database call commits before it returns or fails
  without effect.
- One frame at a time is in `handle_frame`, as the single serial reader thread ensures.
- Single reads and writes of the CSI ring's shared fields are atomic and seen in order,
  and `begin` runs while neither task is inside the ring.
- What the radio does (arrivals in a window, transmission results), whether a write or a
  send succeeds, and where a reset cuts a call short are parameters; time-outs may
  happen at any moment.

## Where code and documentation differ

The model follows the code.

- `sps_proto.h:192-193` calls the payload buffer undefined after an authentication
  failure; the code does not write it at all (`Frames.FrameOpen`).
- `sps_proto.h` allows replay windows up to 32, and `proto.py:283` calls its filter a
  mirror of the C one. At window 32 the C filter forgets the old highest number after
  a jump of exactly 32 (`Replay.Window32Forgets`).
- `proto.py:4` promises byte-for-byte compatibility. For SEQ of 2^24 or more the C
  library truncates and the gateway raises (`Frames.LongSeqDiverges`); for a payload of
  the wrong length the C library returns an error and the gateway seals
  (`Frames.WrongLengthDiverges`). Otherwise they agree (`Frames.SealsAgree`).
- `main.cpp:920` calls the command floor's write a write-ahead that survives a reboot;
  the outcome of that write is not looked at (`Downlink.ActsTwice`).
- The acknowledgement leaves the gateway before anything is stored, so ACKED means
  accepted, and stored only if no crash and no failed write can follow
  (`DeliverySafety.AckedIsKeptIff`, `DeliverySafety.AckedButLost`).
- `sps_frame_seal` accepts an empty payload for an unknown message type; no receiver
  opens the result (`Frames.OpenInvertsSeal`).

## Model

| member | source | states |
|---|---|---|
| PolySpec.AccumulateConcat | linux/gatewayd/dirt32_gateway/proto.py:129-133 | the big-integer accumulator of a message is that of its tail continued from that of any whole-block prefix |
| PolySpec.Poly1305 | linux/gatewayd/dirt32_gateway/proto.py:125-134 | the gateway's loop over 16-byte chunks returns the RFC 8439 section 2.5 tag of every message |
| PolyLimbs.Le32Word | esp32/lib/sps_proto/chacha20poly1305.c:7-10 | the shifts and ORs load the little-endian number of four bytes |
| PolyLimbs.LoadRValue | esp32/lib/sps_proto/chacha20poly1305.c:62-67 | the five masked, overlapping loads denote the key's first half clamped as RFC 8439 prescribes, each limb within its mask |
| PolyLimbs.LoadBlockValue | esp32/lib/sps_proto/chacha20poly1305.c:83-87 | the five overlapping loads of a block denote its number plus the length marker 2^128 when hibit is set |
| PolyLimbs.ProductsExact | esp32/lib/sps_proto/chacha20poly1305.c:89-93 | no 64-bit column sum and no 5r product overflows; each column is the exact sum with the wrapped limbs taken five times |
| PolyLimbs.ProductsValue | esp32/lib/sps_proto/chacha20poly1305.c:89-93 | the columns denote h times r up to a multiple of 2^130 - 5 |
| PolyLimbs.CarryLink | esp32/lib/sps_proto/chacha20poly1305.c:95-99 | every carry d >> 26 fits 32 bits, no column addition wraps, and 5 times the last carry fits the low word |
| PolyLimbs.CarryCorrect | esp32/lib/sps_proto/chacha20poly1305.c:95-101 | after the delayed carries h0, h2, h3, h4 < 2^26 and h1 < 2^26 + 64, and the value changed only by a multiple of 2^130 - 5 |
| PolyLimbs.StepCorrect | esp32/lib/sps_proto/chacha20poly1305.c:82-102 | one block multiplies the accumulator plus block by r modulo 2^130 - 5 and keeps the limb ranges |
| PolyCtx.BlocksCorrect | esp32/lib/sps_proto/chacha20poly1305.c:75-107 | over any number of blocks the limbs stay in range and hold the accumulator of the big-integer definition |
| PolyCtx.ShortBlock | esp32/lib/sps_proto/chacha20poly1305.c:134-140 | the padded last block adds the partial chunk with its marker, without hibit |
| PolyFinish.FinalCarryCorrect | esp32/lib/sps_proto/chacha20poly1305.c:142-148 | after the last carry every limb, h1 included, is below 2^26, and the residue is unchanged |
| PolyFinish.SubtractedCorrect | esp32/lib/sps_proto/chacha20poly1305.c:150-154 | h + 5 - 2^130 is nonnegative exactly when h >= 2^130 - 5; otherwise the top limb wraps and its bit 31 is set |
| PolyFinish.ReduceCorrect | esp32/lib/sps_proto/chacha20poly1305.c:156-160 | the masked selection yields the least residue modulo 2^130 - 5 |
| PolyFinish.PackCorrect | esp32/lib/sps_proto/chacha20poly1305.c:162-165 | the OR-packing of limbs into words is exact addition modulo 2^128 |
| PolyFinish.AddPadCorrect | esp32/lib/sps_proto/chacha20poly1305.c:167-170 | the 64-bit carry chain adds the pad modulo 2^128 |
| PolyFinish.FinishCorrect | esp32/lib/sps_proto/chacha20poly1305.c:142-172 | from settled limbs the C finish stores the bytes of (accumulator + s) mod 2^128 |
| PolyCtx.Poly1305Ctx.Blocks | esp32/lib/sps_proto/chacha20poly1305.c:75-107 | the in-place loop is the fold of the one-block step over the whole blocks |
| PolyCtx.Poly1305Ctx.Update | esp32/lib/sps_proto/chacha20poly1305.c:109-128 | absorbs any bytes, wherever block boundaries fall: the context stands for the concatenation of everything absorbed |
| PolyCtx.Poly1305Ctx.Finish | esp32/lib/sps_proto/chacha20poly1305.c:130-174 | the tag of everything absorbed, in whatever pieces, is the big-integer tag; the state is wiped |
| PolyCtx.FinishAbsorbed | esp32/lib/sps_proto/chacha20poly1305.c:134-174 | what the context holds after any message finishes to that message's RFC 8439 tag, partial last block included |
| PolyVector.ClampClears | linux/gatewayd/dirt32_gateway/proto.py:126 | clamping clears the top four bits of bytes 3, 7, 11, 15 and the low two of bytes 4, 8, 12, and nothing else |
| PolyVector.Rfc8439Vector | linux/gatewayd/dirt32_gateway/proto.py:125-134 | the definition yields the tag of the test vector of RFC 8439 section 2.5.2 |
| Aead.XorStreamTwice | esp32/lib/sps_proto/chacha20poly1305.c:41-52 | applying the key stream twice restores every byte string |
| Aead.StreamIsKeyStream | linux/gatewayd/dirt32_gateway/proto.py:116-122 | plaintext xor ciphertext is byte i % 64 of the block at counter + i / 64 |
| Aead.TagUsesBlockZero | esp32/lib/sps_proto/chacha20poly1305.c:178-199 | the tag takes block 0 of the key stream and no other |
| Aead.StreamAvoidsBlockZero | esp32/lib/sps_proto/chacha20poly1305.c:201-207 | encryption from counter 1 takes every block but block 0, the tag's key |
| Aead.MacDataLayout | linux/gatewayd/dirt32_gateway/proto.py:141-146 | where aad, ciphertext, zero padding and the two lengths lie in what the tag authenticates |
| Aead.MacDataInjective | linux/gatewayd/dirt32_gateway/proto.py:141-146 | different aad or ciphertext give different authenticated bytes |
| Aead.XorPy | linux/gatewayd/dirt32_gateway/proto.py:116-122 | the gateway's chunk loop is the key-stream xor |
| Aead.Chacha20Xor | esp32/lib/sps_proto/chacha20poly1305.c:41-52 | the C loop is the same xor with a 32-bit counter, also when input and output overlap with the output not ahead; no other byte changes |
| Aead.AeadMac | esp32/lib/sps_proto/chacha20poly1305.c:178-199 | the streamed, padded MAC is the tag over aad, pad, ciphertext, pad and lengths of RFC 8439 section 2.8 |
| Aead.SameTag | esp32/lib/sps_proto/chacha20poly1305.c:213-219 | the OR-accumulated comparison is equality of the tags |
| Aead.Encrypt | esp32/lib/sps_proto/chacha20poly1305.c:201-207 | ciphertext and tag land in their buffers, which may be the plaintext's, and no other byte changes |
| Aead.Decrypt | esp32/lib/sps_proto/chacha20poly1305.c:209-221 | over any buffers: succeeds exactly on the right tag; a failed call leaves the output unwritten; in-place decryption is correct |
| Frames.UnpackPack | linux/gatewayd/dirt32_gateway/proto.py:174-185 | reading a packed header gives the header back |
| Frames.PackUnpack | linux/gatewayd/dirt32_gateway/proto.py:174-185 | packing what was read gives the same eight bytes back |
| Frames.NonceInjective | esp32/lib/sps_proto/sps_proto.c:107-113 | equal nonces come from equal node, type and SEQ |
| Frames.HeaderNonceInjective | esp32/lib/sps_proto/sps_proto.c:107-127 | headers sealed under one nonce have equal node, type and SEQ |
| Frames.NonceLayout | esp32/lib/sps_proto/sps_proto.c:107-113 | the twelve nonce bytes of a header: node, type and SEQ, then six zeros |
| Frames.HeaderList | esp32/lib/sps_proto/sps_proto.c:16-22 | the eight header bytes one by one |
| Frames.FrameParts | esp32/lib/sps_proto/sps_proto.c:117-132 | a sealed frame is the header, the payload xor the key stream of this header's nonce from block 1 on, and the Poly1305 tag under half of block 0 |
| Frames.SealUsesOwnNonce | esp32/lib/sps_proto/sps_proto.c:125-130 | sealing reads the block function at its own nonce only, and the ciphertext does not depend on block 0 |
| Frames.HeaderWrite | esp32/lib/sps_proto/sps_proto.c:16-22 | writes the packed header with SEQ cut to 24 bits and nothing else |
| Frames.HeaderRead | esp32/lib/sps_proto/sps_proto.c:24-33 | error codes in the source's order; reads what the gateway's unpack reads |
| Frames.FrameSeal | esp32/lib/sps_proto/sps_proto.c:117-132 | the result function: BUF, then BAD_LEN, with an untouched buffer, else the sealed frame of the 24-bit SEQ and its length, also with the payload already in place |
| Frames.SealPy | linux/gatewayd/dirt32_gateway/proto.py:259-265 | the gateway's seal, loops included, is the sealed frame or the overflow exception |
| Frames.SealsAgree | esp32/lib/sps_proto/sps_proto.c:117-132 | given room, the C result and the gateway's are the same bytes exactly when SEQ < 2^24 and the payload has its type's length |
| Frames.LongSeqDiverges | esp32/lib/sps_proto/sps_proto.c:107-128 | from SEQ 2^24 on the gateway raises and the C library seals a frame that opens under another SEQ |
| Frames.WrongLengthDiverges | linux/gatewayd/dirt32_gateway/proto.py:259-279 | a payload of the wrong length is refused by the C library; the gateway seals it to a frame that no receiver opens |
| Frames.SealsDiffer | esp32/lib/sps_proto/sps_proto.c:117-132 | one concrete input for each of the two ways to differ |
| Frames.OpenInvertsSeal | linux/gatewayd/dirt32_gateway/proto.py:268-279 | opening a sealed frame gives header and payload back exactly when the payload has a known type's length |
| Frames.OpensOnlySealed | linux/gatewayd/dirt32_gateway/proto.py:268-279 | a frame opens only if it is, byte for byte, the seal of what it opens to |
| Frames.OpenTellsApart | linux/gatewayd/dirt32_gateway/proto.py:268-279 | malformed frames, forgeries and seals are told apart: a well-formed frame that is no seal is an authentication failure, never a format error |
| Frames.FrameOpen | esp32/lib/sps_proto/sps_proto.c:134-152 | accepts exactly what the gateway's open_frame accepts, with the same result and every error code; on error no payload byte is written |
| Payloads.AlertWrite | esp32/lib/sps_proto/sps_proto.c:47-53 | the C writer at fixed offsets stores the gateway's packed alert |
| Payloads.HeartbeatWrite | esp32/lib/sps_proto/sps_proto.c:62-72 | the same for heartbeats, signed coordinates included |
| Payloads.AckWrite | esp32/lib/sps_proto/sps_proto.c:85-88 | the same for acknowledgements, SEQ cut to 24 bits |
| Payloads.CmdWrite | esp32/lib/sps_proto/sps_proto.c:94-98 | the same for commands |
| Payloads.AlertRoundTrip | esp32/lib/sps_proto/sps_proto.c:47-60 | an alert has the length of its type and is read back as written |
| Payloads.HeartbeatRoundTrip | esp32/lib/sps_proto/sps_proto.c:62-83 | a heartbeat has the length of its type and is read back as written |
| Payloads.AckRoundTrip | esp32/lib/sps_proto/sps_proto.c:85-92 | the same for acknowledgements below SEQ 2^24 |
| Payloads.CmdRoundTrip | esp32/lib/sps_proto/sps_proto.c:94-103 | the same for commands |
| Payloads.AlertReadRoundTrip | linux/gatewayd/dirt32_gateway/proto.py:192-205 | every ten bytes are an alert that packs to them |
| Payloads.HeartbeatReadRoundTrip | linux/gatewayd/dirt32_gateway/proto.py:208-229 | every 22 bytes are a heartbeat that packs to them |
| Payloads.LongestFrame | esp32/lib/sps_proto/sps_proto.c:35-43 | every frame of a known type fits the radio buffer, and a heartbeat fills it |
| Replay.StepPy | linux/gatewayd/dirt32_gateway/proto.py:291-310 | one check on the bitmap is one step of the set of accepted numbers, for windows 1 to 32 |
| Replay.StepC | esp32/lib/sps_proto/sps_proto.c:203-224 | the same for the C filter and windows 1 to 31 |
| Replay.PyRefinesSet | linux/gatewayd/dirt32_gateway/proto.py:282-310 | in every history a number is accepted exactly when first, above the highest, or within the window and not accepted before |
| Replay.CRefinesSetIff | esp32/lib/sps_proto/sps_proto.c:194-224 | the C filter gives those verdicts, and so the gateway's, in every history exactly when its window is at most 31 |
| Replay.Window32Forgets | esp32/lib/sps_proto/sps_proto.c:213 | with window 32 the C filter accepts 0 again after 0, 32 |
| Replay.RejectedForever | linux/gatewayd/dirt32_gateway/proto.py:291-310 | a rejected number stays rejected whatever is accepted later |
| Replay.ReplayWindow.Check | linux/gatewayd/dirt32_gateway/proto.py:291-310 | the object's verdict and new state follow the set |
| Replay.SpsReplay.Check | esp32/lib/sps_proto/sps_proto.c:203-224 | the struct's verdict and new state; they follow the set for windows up to 31 |
| Dedupe.TagInjective | esp32/lib/sps_proto/sps_proto.c:235 | tags are equal exactly for equal pairs and never the empty marker |
| Dedupe.NewIff | esp32/lib/sps_proto/sps_proto.c:233-241 | a pair is new exactly when none of the last 32 new pairs equals it |
| Dedupe.RingHolds | esp32/lib/sps_proto/sps_proto.c:236-237 | a tag is in the 32 slots exactly when among the last 32 new pairs |
| Dedupe.NewAgainAfter32 | esp32/lib/sps_proto/sps_proto.c:233-241 | in every history a pair is new again only after 32 other new pairs |
| Dedupe.DedupeRing.Seen | esp32/lib/sps_proto/sps_proto.c:233-241 | reports exactly the pairs among the last 32 new ones and records the others |
| CsiRing.FullTest | esp32/node/src/csi/CsiSensor.h:98-99 | the full test succeeds exactly when 255 values are queued |
| CsiRing.RingIsBoundedFifo | esp32/node/src/csi/CsiSensor.h:95-105 | under every interleaving of single accesses the consumer got a prefix of the undropped values in order, at most 255 wait, and frames = consumed + queued + newly dropped + in flight |
| CsiRing.CsiQueue.IngestTurbulence | esp32/node/src/csi/CsiSensor.h:95-105 | enqueues or counts a drop at 255 queued; the call is five steps of the interleaved machine |
| CsiRing.CsiQueue.Drain | esp32/node/src/csi/CsiSensor.cpp:195-199 | returns everything queued, in order, and empties the ring; the call is a run of the interleaved machine that ends at rest |
| Crc16.Compute | linux/gatewayd/dirt32_gateway/serial_framer.py:67-73 | the byte and bit loops compute the CRC function |
| CrcDivision.CrcIsRemainder | linux/gatewayd/dirt32_gateway/serial_framer.py:67-73 | the CRC of every message is the remainder of long division by x^16 + x^12 + x^5 + 1 with the register preset to ones |
| Crc16.BitStepsLinear | esp32/gateway-bridge/lib/lora_link/lora_link.cpp:13-15 | the bit step is linear over xor on 16-bit words |
| Crc16.BitStepsInjective | esp32/gateway-bridge/lib/lora_link/lora_link.cpp:13-15 | the bit step is invertible on 16-bit words |
| Crc16.BurstChangesCrc | esp32/gateway-bridge/lib/lora_link/lora_link.cpp:8-18 | any change within two adjacent bytes changes the CRC, whatever surrounds them |
| CrcDetection.BurstOf16ChangesCrc | esp32/gateway-bridge/lib/lora_link/lora_link.cpp:8-18 | any change within 16 adjacent bits, at any alignment, changes the CRC |
| CrcDetection.CrcParity | esp32/gateway-bridge/lib/lora_link/lora_link.cpp:8-18 | the CRC and the message have as many one bits as each other, up to an even number |
| Cobs.DecodeInvertsEncode | linux/gatewayd/dirt32_gateway/serial_framer.py:77-110 | decoding an encoding restores every byte string |
| Cobs.EncodeShape | esp32/gateway-bridge/lib/lora_link/lora_link.cpp:21-37 | the encoding has no zero byte and at most n + 1 + n/254 bytes |
| Cobs.EncodeFromExact | esp32/gateway-bridge/lib/lora_link/lora_link.cpp:21-37 | without zero bytes in the data the encoding has exactly n + 1 + n/254 bytes |
| Cobs.DecodeLength | linux/gatewayd/dirt32_gateway/serial_framer.py:95-110 | decoding removes at most one byte and one more per 255 |
| Cobs.EncodePy | linux/gatewayd/dirt32_gateway/serial_framer.py:77-92 | the back-patching loop produces the encoding |
| Cobs.DecodePy | linux/gatewayd/dirt32_gateway/serial_framer.py:95-110 | the loop decodes, or raises exactly on malformed bodies |
| Cobs.EncodeC | esp32/gateway-bridge/lib/lora_link/lora_link.cpp:21-37 | the pointer loop produces the encoding within its buffer |
| Cobs.DecodeC | esp32/gateway-bridge/lib/lora_link/lora_link.cpp:40-57 | decodes within the cap, and returns -1 exactly when malformed or longer |
| SerialFraming.ParseInvertsRaw | linux/gatewayd/dirt32_gateway/serial_framer.py:126-140 | parsing a raw frame restores type, payload, RSSI and SNR |
| SerialFraming.RawInvertsParse | linux/gatewayd/dirt32_gateway/serial_framer.py:126-140 | whatever parses is byte for byte the raw frame of what it parses to |
| SerialFraming.BurstRejected | linux/gatewayd/dirt32_gateway/serial_framer.py:126-134 | a valid frame changed within two adjacent bytes of LEN to SNR is rejected |
| SerialFraming.BurstOf16Rejected | linux/gatewayd/dirt32_gateway/serial_framer.py:126-134 | a valid frame changed within 16 adjacent bits of LEN to SNR, at any alignment, is rejected |
| SerialFraming.OddFlipsRejected | linux/gatewayd/dirt32_gateway/serial_framer.py:126-134 | an odd number of flipped bits anywhere in a valid frame, the CRC included, is rejected |
| SerialFraming.FramesConcat | linux/gatewayd/dirt32_gateway/serial_framer.py:160-182 | a stream may be cut anywhere: chunks deliver what the whole delivers |
| SerialFraming.Resynchronises | linux/gatewayd/dirt32_gateway/serial_framer.py:160-182 | after any bytes ending in a delimiter the stream is received as from a fresh start |
| SerialFraming.ResyncReceivesAll | linux/gatewayd/dirt32_gateway/serial_framer.py:160-201 | after any garbage ending in 0x00, sent frames are delivered exactly, in order |
| SerialFraming.LongBodyNoFrame | esp32/gateway-bridge/lib/lora_link/lora_link.cpp:102-105 | a body over 272 bytes decodes to more than any frame holds |
| SerialFraming.ReceiversAgree | esp32/gateway-bridge/lib/lora_link/lora_link.cpp:95-128 | on every byte stream the 272-byte bridge receiver and the 512-byte gateway receiver deliver the same frames |
| SerialFraming.BodiesAccounted | linux/gatewayd/dirt32_gateway/serial_framer.py:160-182 | every nonempty body is delivered or counted as dropped |
| SerialFraming.SerialFramer.Feed | linux/gatewayd/dirt32_gateway/serial_framer.py:160-182 | yields the stream's frames for any chunk, keeps the undelimited rest, and counts every dropped body |
| SerialFraming.EncodeFrame | linux/gatewayd/dirt32_gateway/serial_framer.py:185-201 | the wire bytes, or ValueError above 255 bytes, or OverflowError for RSSI or SNR out of range |
| SerialFraming.FillRaw | esp32/gateway-bridge/lib/lora_link/lora_link.cpp:66-77 | the raw frame with its CRC, within 262 bytes |
| SerialFraming.LlSend | esp32/gateway-bridge/lib/lora_link/lora_link.cpp:62-84 | the same wire bytes within the two fixed buffers; a null payload with a length sends the length only |
| SerialFraming.LlRx.Feed | esp32/gateway-bridge/lib/lora_link/lora_link.cpp:95-128 | hands the stream's frames to the callback for any chunk |
| SerialFraming.LlRx.Receive | esp32/gateway-bridge/lib/lora_link/lora_link.cpp:101-119 | decode, length and CRC checks accept exactly the bodies that parse |
| SeqCounter.ApplyKeeps | esp32/node/src/main.cpp:67-105 | every step, write failure and reset keeps issued numbers below the flash bound and the counter above them |
| SeqCounter.SeqNeverRepeats | esp32/node/src/main.cpp:55-105 | issued SEQs strictly increase and lie in 1..SEQ_MAX for every interleaving of requests, failed writes and resets, with RTC memory arbitrary after a reset |
| SeqCounter.SequenceBudget | esp32/node/src/main.cpp:67-105 | after k boots and n issued numbers the counter is at most n + 65 (k - 1) |
| SeqCounter.BudgetAttained | esp32/node/src/main.cpp:67-105 | that bound is reached for every k by boots cut off between flash write and use |
| SeqCounter.NodeSeq.SeqReserve | esp32/node/src/main.cpp:70-77 | flash first, the RAM copy only after a reported success |
| SeqCounter.NodeSeq.NextSeq | esp32/node/src/main.cpp:81-95 | a new number above all before it, or 0 exactly when nothing is issued; a run of the crash machine |
| SeqCounter.NodeSeq.SeqRestore | esp32/node/src/main.cpp:98-105 | the boot step of the crash machine |
| SeqCounter.NodeSeq.constructor | esp32/node/src/main.cpp:67-68 | after a reset the counter is the machine after its reset step |
| Delivery.GenuineAckPasses | esp32/node/src/radio/LoRaLink.cpp:63-72 | an acknowledgement of the awaited SEQ passes the node's replay filter and ends the wait |
| Delivery.TransmitKeeps | esp32/node/src/radio/LoRaLink.cpp:93-114 | a transmission, heard or not, keeps the delivery invariant |
| Delivery.ReceiveKeeps | linux/gatewayd/dirt32_gateway/ingest.py:84-91 | a reception, first or repeated, keeps the delivery invariant |
| Delivery.SaveKeeps | linux/gatewayd/dirt32_gateway/ingest.py:103-107 | saving the window, or failing to, keeps it |
| Delivery.CrashKeeps | linux/gatewayd/dirt32_gateway/ingest.py:38-41 | a gateway crash anywhere in handle_frame keeps it |
| Delivery.ApplyKeeps | linux/gatewayd/dirt32_gateway/ingest.py:83-121 | every step of node, channel and gateway keeps it |
| DeliverySafety.NonceNeverReused | esp32/node/src/main.cpp:216-280 | two radiated uplink frames whose headers are sealed under one nonce are the same frame |
| DeliverySafety.AckedMeansAcceptedIff | esp32/node/src/radio/LoRaLink.cpp:93-114 | in all runs ACKED implies that the gateway accepted the SEQ as fresh, exactly when acknowledgements are enabled |
| DeliverySafety.AckedWasAccepted | esp32/node/src/radio/LoRaLink.cpp:93-114 | with acknowledgements enabled, for every loss, duplication, reordering, reset and restart |
| DeliverySafety.GenuineAckEndsWait | esp32/node/src/radio/LoRaLink.cpp:33-78 | in every reachable state an acknowledgement of the awaited SEQ ends the wait as ACKED |
| DeliverySafety.RowsAtMostOnce | linux/gatewayd/dirt32_gateway/ingest.py:83-121 | a SEQ gets at most one row over both tables, whatever arrives and wherever the gateway crashes |
| DeliverySafety.StoredStaysRejected | linux/gatewayd/dirt32_gateway/db.py:113-120 | a stored SEQ is rejected by the window in memory and by the one a restart would load |
| DeliverySafety.AckedIsKeptIff | linux/gatewayd/dirt32_gateway/ingest.py:93-121 | in all runs every ACKED SEQ has its row or is on its way to it, exactly when acknowledgements are enabled and neither a gateway crash nor a failed save nor a failed insert can occur (or nothing is ever transmitted) |
| DeliverySafety.AckedIsKeptOrLost | linux/gatewayd/dirt32_gateway/ingest.py:93-121 | every ACKED SEQ has its row, is being handled, or was lost; nothing is lost without a gateway crash or a failed write |
| DeliverySafety.ArrivalEndsWell | esp32/node/src/radio/LoRaLink.cpp:93-114 | from every reachable wait whose frame is on the air, an arriving copy ends the wait as ACKED, and the frame has its row unless it was lost earlier |
| DeliverySafety.HeartbeatEndsWell | esp32/node/src/radio/LoRaLink.cpp:87-91 | a heartbeat is transmitted once; if it went out and arrives it has its row, unless it was lost earlier |
| DeliverySafety.FirstCopyIsNew | linux/gatewayd/dirt32_gateway/ingest.py:84-90 | the window takes the first copy of the node's latest frame for new |
| DeliverySafety.AckedButLost | linux/gatewayd/dirt32_gateway/ingest.py:93-121 | a crash, a failed save or a failed insert after the acknowledgement: each leaves an ACKED alert without a row |
| Fleet.Projects | linux/gatewayd/dirt32_gateway/ingest.py:37-41 | what one node goes through in the whole network is a run of its own machine |
| Fleet.FleetSafety | linux/gatewayd/dirt32_gateway/ingest.py:83-121 | in every run of the whole network, each node with its own configuration: at most one row per (node, SEQ), and ACKED implies accepted where acknowledgements are enabled |
| Fleet.FleetNonces | esp32/lib/sps_proto/sps_proto.c:107-127 | two uplink frames anywhere in the network sealed under one nonce are the same frame of the same node |
| LoRaLink.WaitIsRun | esp32/node/src/radio/LoRaLink.cpp:33-78 | a wait window with the gateway working meanwhile is a run of the machine with the code's outcome |
| LoRaLink.SendIsRun | esp32/node/src/radio/LoRaLink.cpp:93-114 | a whole sendReliable, with the gateway working before, between and during the attempts, is a run of the machine, ACKED in both or in neither |
| LoRaLink.AckedReturnMeansAccepted | esp32/node/src/radio/LoRaLink.cpp:93-114 | whenever sendReliable returns ACKED with acknowledgements enabled, the gateway has accepted that SEQ as fresh |
| LoRaLink.AckOfIff | esp32/node/src/radio/LoRaLink.cpp:55-70 | a packet is an acknowledgement to the node exactly when it is byte for byte one sealed for it under its key |
| LoRaLink.CommandOfIff | esp32/node/src/radio/LoRaLink.cpp:148-152 | a packet is a command to the node exactly when it is byte for byte one sealed for it under its key |
| LoRaLink.WaitedOutcome | esp32/node/src/radio/LoRaLink.cpp:33-78 | the wait succeeds exactly when some packet answers under the filter as the earlier ones left it, and ends at the first that does |
| LoRaLink.SentOutcome | esp32/node/src/radio/LoRaLink.cpp:93-114 | with acknowledgements enabled ACKED exactly when some transmitted attempt is answered; else RADIO_ERROR exactly when the last transmission failed, SENT_NO_ACK otherwise; and the filter's state |
| LoRaLink.AnsweredSendIsAcked | esp32/node/src/radio/LoRaLink.cpp:33-114 | in every reachable state, a genuine acknowledgement in the window of any transmitted attempt makes sendReliable return ACKED |
| LoRaLink.Link.WaitForAck | esp32/node/src/radio/LoRaLink.cpp:33-78 | the loop's result and filter state, for every list of arriving packets |
| LoRaLink.Link.SendReliable | esp32/node/src/radio/LoRaLink.cpp:93-114 | the loop's outcome and filter state, for every radio behaviour |
| LoRaLink.Link.ReceiveCommand | esp32/node/src/radio/LoRaLink.cpp:131-159 | accepts exactly commands for this node above the floor, and raises the floor |
| LoRaLink.Link.CommandTurn | esp32/node/src/main.cpp:911-920 | one turn of the command branch, cut short by a reset anywhere, is that much of Listen, Receive, Persist, Execute; a receiver that does not start leaves the rest undone |
| LoRaLink.Link.constructor | esp32/node/src/radio/LoRaLink.cpp:13-15 | after a reset the link is the machine after its reset step |
| Downlink.ApplyKeeps | esp32/node/src/main.cpp:911-920 | every step and reset keeps floors, counter and executed commands in order |
| Downlink.ActsInOrderIff | esp32/node/src/main.cpp:109-118 | executed commands have strictly increasing SEQs in all runs exactly when the floor writes commit |
| Downlink.ActsTwice | esp32/node/src/main.cpp:115-118 | one lost floor write and a reset let a replayed command act twice |
| Downlink.NewCommandActs | esp32/node/src/radio/LoRaLink.cpp:149-155 | the next command always lies above both floors, and a listening node that gets it acts on it |
| Downlink.CommandNoncesDiffer | linux/gatewayd/dirt32_gateway/db.py:151-165 | two radiated commands whose headers are sealed under one nonce are the same command |
| Ingest.GenuineIsSealed | linux/gatewayd/dirt32_gateway/ingest.py:52-81 | a frame is taken for genuine only if it is, byte for byte, the seal of its contents under the node's key |
| Ingest.SealedIsGenuine | linux/gatewayd/dirt32_gateway/ingest.py:52-81 | every frame a known node seals is taken for genuine |
| Ingest.ReadTellsApart | linux/gatewayd/dirt32_gateway/ingest.py:52-81 | what each verdict says about the bytes: forgeries are auth-fail, malformed frames malformed, own frames are never uplink |
| Ingest.AckIsHeard | linux/gatewayd/dirt32_gateway/ingest.py:125-134 | the acknowledgement's bytes open at the node as that acknowledgement |
| Ingest.CommandIsHeard | linux/gatewayd/dirt32_gateway/ingest.py:197-203 | the command's bytes open at the node as that command, field for field |
| Ingest.HandledAcks | linux/gatewayd/dirt32_gateway/ingest.py:99-101 | the machine sends one acknowledgement, OK or DUP, exactly when an alert has been checked and a working radio link is there |
| Ingest.TurnIsRun | linux/gatewayd/dirt32_gateway/ingest.py:83-121 | an undisturbed handle_frame saves the checked window and adds the row exactly for a new frame |
| Ingest.OneRowPerSeq | linux/gatewayd/dirt32_gateway/ingest.py:103-121 | no (node, SEQ) occurs twice in the alert and heartbeat tables together |
| Ingest.Db.AddRow | linux/gatewayd/dirt32_gateway/db.py:116-141 | the row joins the table of its kind and the rows of its node, or nothing changes |
| Ingest.Db.NextDownSeq | linux/gatewayd/dirt32_gateway/db.py:151-165 | increments and returns the node's counter, or raises without effect |
| Ingest.Gate.constructor | linux/gatewayd/dirt32_gateway/ingest.py:37-41 | a start is the machine's crash step for every node, whatever was in progress: stored windows, or new ones of 8 |
| Ingest.Gate.HandleFrame | linux/gatewayd/dirt32_gateway/ingest.py:48-121 | every verdict in the source's order; a genuine frame, cut short by a crash anywhere and with any write or the sender failing, is that much of the machine's run for its node and nothing for any other; what is sent back and stored |
| Ingest.Gate.Process | linux/gatewayd/dirt32_gateway/ingest.py:83-121 | replay check, acknowledgement, replay state and row, stage by stage the machine's steps in their order, for every failure and every crash point |
| Ingest.Gate.SendCmd | linux/gatewayd/dirt32_gateway/ingest.py:180-211 | a fresh counter value and that many identical sealed copies, as far as the sender works; no counter value without key or sender; an exception when the write fails or 24 bits do not suffice; one send step of the downlink machine |

## Left out

- The inside of the ChaCha20 block function: the same in both languages, and only the xor stream matters here.
- Configuration payloads, and what the values in alerts and heartbeats mean.
- Nonces of acknowledgements: the gateway reuses the alert's SEQ on purpose, with two possible statuses.
- `seqreset`, key rotation, and failing flash reads at boot.
- aead_decrypt in the gateway as a loop: `Frames.Open` gives its result; its tag comparison is the loop of `Aead.SameTag`.
- SerialFraming.EncodeFrame: models `mtype` as a natural number, because no caller passes a negative type.
- Aead.XorPy: requires the block counter to stay below 2^32, because the source raises there; no frame comes near it.
- Replay.SpsReplay.Check: for window 32 the set is not claimed to be followed; `Replay.CRefinesSetIff` says why.
- LoRaLink.Link: one flash key and the fields of the link object are kept in one class, because the main loop uses them together.
- Ingest.Db: tables are maps and sequences; columns other than node, SEQ, kind and payload are not modelled, and a call that raises has no effect.
- Ingest.Gate.SendCmd: a call of the sender that raises is taken to have radiated nothing.
- Status colours, MQTT, web server, event feed, simulator, radio registers, display, sensors, GPS, command line and configuration parsing.
- Floating-point detection: the CSI variance and threshold logic after the ring, and the seismic STA/LTA.
- Wall-clock time: window lengths, jitter and keep-alives.
