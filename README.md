# CPS-IoT: CAN bus-off simulation and Secure-Vault authentication, in Dafny

This project models two small systems and proves properties of the models.

**The CAN simulation (`project1/`).** It covers five parts:

- The base-format frame codec. A frame is SOF, an 11-bit identifier, a 4-bit DLC, the data bytes and a 7-bit EOF, most significant bit first, followed by bit stuffing. Decoding removes the stuffing and slices the fields back out.
- The per-tick wired-AND bus.
- The ECU's transmit error counter and fault-confinement status.
- The earlier whole-frame bus. The lowest identifier wins arbitration, and frames with equal identifiers are AND-combined bit by bit.
- The attacker's decision logic. It infers the victim's period, builds its own frame, and schedules transmissions and retransmissions.

**The Secure-Vault handshake (`project2/SecureVaultAuthentication/`).** It covers five parts:

- Key derivation by XOR over challenge indices.
- The vault refresh.
- The M3 and M4 message layouts and their parsers.
- The device's and the server's handshake steps.
- The server's registry and its FIFO queue of pending devices.

Modules, one per file:

| file | module | source |
|---|---|---|
| common.dfy | `Common` | `Option`, the 0/1 `Bit`, powers of two |
| stuffing.dfy | `Stuffing` | `Frame.__addStuffing`, `Frame.__removeStuffing` |
| frame.dfy | `CanFrame` | `Frame.getBits`, `Frame.fromBits`, `Frame.__eq__` |
| can_bus.dfy | `Bus` | `can_bus.CanBus` |
| ecu.dfy | `Fault`, `Node` | `errorStatus`, `ecu.ECU` |
| canbus_old.dfy | `LegacyBus` | `CanBus_old.py`: the unstuffed frame, the ECU counters, the frame-queue bus |
| attacker.dfy | `Attack` | `main.py`: `attacker`, `ecuThread`, `randomFrame` |
| octets.dfy | `Octets` | Python `bytes`: zip-XOR, slicing |
| vault.dfy | `Vault` | `secure_vault.SecureVault` |
| crypto.dfy | `Cipher` | `crypto_utils.encrypt` / `decrypt` |
| device.dfy | `Device` | `iot_devices.IoTDevice` |
| server.dfy | `Server` | `iot_server.IoTServer` |

**How the model represents the source:**

- Operations that work by looping over state are methods. Each is proved against a specification function or a class invariant.
- Objects whose fields change are classes:
  - `CanBus`, `Ecu`, `LegacyEcu`, `LegacyCanBus`;
  - `SecureVault`, `IoTDevice`, `IoTServer`.
- Randomness, the bus counter and transmission outcomes are parameters. So are AES, HMAC-SHA-512 and SHA-512.

**Where the code and the CAN specification disagree, the model follows the code:**

- **Stuffing.** After five equal bits, the encoder resets its counter to 0 and remembers the original bit. So the stuffed bit does not start the next run, and the EOF is stuffed too. The stuffed output can therefore hold six equal bits in a row, never seven (`Stuffing.NoRunOfSeven`, `Stuffing.RunOfSixOccurs`).
- **EOF.** The EOF check in `fromBits` is commented out, so decoding never examines the EOF contents (`CanFrame.ParseIgnoresSofAndEof`).
- **Bus-off.** The thresholds follow the fault-confinement rules of Bosch CAN 2.0 Part A (error passive above 127, bus off above 255). But the branch order in `errorStatus` makes bus-off unreachable (`Fault.BusOffUnreachable`).

## Model

| member | source | states |
|---|---|---|
| Stuffing.AddStuffing | project1/frame.py:81-97 | the loop's output is the stuffed form `Stuff(bitFrame)`: the input plus exactly one bit per insertion, so at least as long as the input and at most a fifth longer |
| Stuffing.RemoveStuffing | project1/frame.py:99-120 | the loop's output is `Unstuff(bitFrame)` and never longer than its input |
| Stuffing.InsertionsBound | project1/frame.py:86-95 | from a reachable encoder state (run counter below 5), at most one complement bit is inserted per five input bits, counting the run in progress |
| Stuffing.StuffFrom | project1/frame.py:86-95 | the bits the loop appends from a given state are never fewer than the input bits |
| Stuffing.Stuff | project1/frame.py:81-97 | the stuffed list is the input length plus the number of insertions |
| Stuffing.UnstuffFrom | project1/frame.py:106-118 | the bits the decoding loop keeps from a given state are never more than the input bits |
| Stuffing.Unstuff | project1/frame.py:99-120 | unstuffing never lengthens a list |
| Stuffing.StuffLoopStep | project1/frame.py:88-95 | one iteration of the encoding loop moves one input bit, or the fifth equal bit and its complement, from the pending input to the output |
| Stuffing.StuffStep | project1/frame.py:88-95 | the stuffed tail from position i is bit i, its complement after five equal bits, then the stuffed rest in the new state |
| Stuffing.UnstuffStep | project1/frame.py:106-118 | one iteration of the decoding loop: at count 5 the bit is dropped and the state forgets the run; otherwise the bit is kept and the counter follows it |
| Stuffing.StuffLength | project1/frame.py:86-95 | from any encoder state, the output length is the input length plus the number of inserted complement bits |
| Stuffing.RoundTripFrom | project1/frame.py:81-120 | from matching loop states, unstuffing undoes stuffing |
| Stuffing.RoundTripFifth | project1/frame.py:88-118 | the case of the fifth equal bit: the decoder keeps it and drops the stuffed complement, so the round trip continues from the reset state |
| Stuffing.RoundTripKept | project1/frame.py:88-118 | the case of a kept bit: encoder and decoder advance their counters alike, so the round trip continues |
| Stuffing.UnstuffStuff | project1/frame.py:81-120 | `__removeStuffing(__addStuffing(b)) == b` for every bit list |
| Stuffing.SubsequenceFrom | project1/frame.py:86-95 | from any encoder state, the input is a subsequence of the output |
| Stuffing.InputIsSubsequence | project1/frame.py:81-97 | stuffing only inserts bits: the input is a subsequence of the stuffed output |
| Stuffing.RunBoundFrom | project1/frame.py:88-95 | from a consistent encoder state, no run in the output exceeds six bits |
| Stuffing.NoRunOfSeven | project1/frame.py:88-95 | every window of seven consecutive stuffed bits holds both values |
| Stuffing.RunOfSixOccurs | project1/frame.py:88-95 | five 0s then five 1s stuff to a list holding six 1s in a row: the stuffed bit counts toward no run |
| Stuffing.FiveOnesAfterZeros | project1/frame.py:88-95 | after a run of 0s, five 1s are followed by a stuffed 0 |
| Stuffing.TwoZerosThenOnes | project1/frame.py:88-95 | from three 0s seen, two more 0s and five 1s stuff to six 1s in a row |
| Stuffing.ThreeZerosThenOnes | project1/frame.py:88-95 | from two 0s seen, three more 0s and five 1s stuff to six 1s in a row |
| Stuffing.FourZerosThenOnes | project1/frame.py:88-95 | from one 0 seen, four more 0s and five 1s stuff to six 1s in a row |
| CanFrame.BinaryFits | project1/frame.py:28-33 | `f"{x:0wb}"` of a value below 2^w has exactly w digits and denotes x |
| CanFrame.Binary | project1/frame.py:28-33 | `f"{x:0wb}"` has at least w digits and at least one |
| CanFrame.RawBits | project1/frame.py:25-35 | the unstuffed frame has at least 23 bits and starts with the dominant SOF 0 |
| CanFrame.DataBitsLength | project1/frame.py:30-32 | the data field has eight bits per byte |
| CanFrame.RawBitsLayout | project1/frame.py:27-35 | before stuffing: length `23 + 8·len(data)`, SOF 0, the ID in bits 1-11, the DLC in 12-15, the data bits, then seven 1s |
| CanFrame.RawBitsHeader | project1/frame.py:27-29 | the first twelve unstuffed bits are SOF 0 and the 11-digit identifier, the next four the 4-digit DLC |
| CanFrame.GetBits | project1/frame.py:25-37 | the loop collecting data bits, followed by stuffing, yields `Stuff(RawBits(f))` |
| CanFrame.EncodeLength | project1/frame.py:25-37 | the encoded frame is at least `23 + 8·len(data)` bits and at most a fifth longer, since at most one bit is inserted per five |
| CanFrame.ParseFields | project1/frame.py:47-76 | any frame decoded from unstuffed bits has ID < 2048, DLC ≤ 8, DLC data bytes and bytes below 256 |
| CanFrame.FromBits | project1/frame.py:39-79 | a decoded frame is always well-formed |
| CanFrame.DecodeBytesShape | project1/frame.py:61-65 | the data comprehension yields one value below 256 per eight bits |
| CanFrame.ValueBound | project1/frame.py:52-56 | a list of w binary digits denotes a value below 2^w, so the identifier is below 2048 and the DLC below 16 |
| CanFrame.FromBitsFails | project1/frame.py:47-58 | `None` exactly when the unstuffed list is shorter than 23, the DLC exceeds 8, or nothing follows the data field |
| CanFrame.ParseIgnoresSofAndEof | project1/frame.py:52-73 | replacing the SOF bit and everything after the data field leaves the decoded frame unchanged |
| CanFrame.DecodeDataBits | project1/frame.py:30-32 | decoding the data bits gives back the data bytes |
| CanFrame.RoundTrip | project1/frame.py:25-79 | `fromBits(getBits(f)) == f` for every well-formed frame |
| CanFrame.FrameEquals | project1/frame.py:122-130 | equal exactly when the other value is a frame with the same ID, DLC and data; never equal to `None` |
| Bus.And | project1/can_bus.py:23 | the AND of two bits is dominant 0 exactly when either bit is 0 |
| Bus.WiredAnd | project1/can_bus.py:20-24 | a tick resolves to dominant 0 exactly when some node drove 0 |
| Bus.CanBus.constructor | project1/can_bus.py:9-18 | both bits 1, both frames empty, status IDLE |
| Bus.CanBus.TransmitBit | project1/can_bus.py:20-24 | the accumulator becomes the AND of every bit offered this tick; status ACTIVE; nothing else changes |
| Bus.CanBus.NextBit | project1/can_bus.py:27-41 | from WAIT: publish the frame and go IDLE, nothing else changes. Otherwise: append the resolved bit, record it as `lastSendedBit`, reset to 1 and go to WAIT. The published list aliases `frame` afterwards |
| Bus.CanBus.GetSendedFrame | project1/can_bus.py:43-44 | the published list is empty before the first publication and is `frame` itself after it |
| Bus.CanBus.GetSendedBit | project1/can_bus.py:46-47 | returns the last resolved bit |
| Bus.CanBus.GetStatus | project1/can_bus.py:53-54 | returns the status |
| Bus.CanBus.ClearBus | project1/can_bus.py:49-51 | resets only the accumulator and the unrelated `frames`; `frame` and the status stay |
| Bus.PublishedFrameAliases | project1/can_bus.py:27-44 | once a frame is published, the next appended bit shows through the published list, because both names refer to one list |
| Fault.Classify | project1/ecu.py:35-41 | error passive exactly when TEC or REC exceeds 127, error active otherwise, never bus-off |
| Fault.BusOffUnreachable | project1/ecu.py:36-41 | a TEC above 255 leaves the node error passive |
| Node.Ecu.constructor | project1/ecu.py:9-18 | TEC and REC are 0, the status is error active, the histories are empty |
| Node.Ecu.ErrorStatus | project1/ecu.py:35-41 | the status becomes `Classify(TEC, REC)`; counters and histories are unchanged |
| Node.Ecu.TecIncrease | project1/ecu.py:30-33 | TEC rises by exactly 8, the new value is appended to the history, and the status is re-evaluated; the invariant that TEC is 8 times the history length and REC is 0 is kept |
| Node.Ecu.CheckCanBusFrame | project1/ecu.py:23-28 | when the published frame differs from the node's encoding, TEC rises by 8, the new value is logged and the status becomes error passive exactly when TEC exceeds 127; when they match, TEC, the history and the status are unchanged |
| Node.Ecu.GetTec | project1/ecu.py:43-44 | TEC is a non-negative multiple of 8 |
| Node.Ecu.GetStatus | project1/ecu.py:46-47 | the status is never bus-off and is error passive exactly when TEC exceeds 127 |
| LegacyBus.MinId | project1/CanBus_old.py:221-222 | the smallest identifier in the queue: some frame has it and none is lower |
| LegacyBus.KeepValidSof | project1/CanBus_old.py:216-219 | no frame is ever removed, because every old-style frame has SOF 0 |
| LegacyBus.WithId | project1/CanBus_old.py:224-225 | keeps exactly the queued frames with the given identifier and is never longer than the queue |
| LegacyBus.WithIdCounts | project1/CanBus_old.py:224-225 | every frame with the identifier is kept as often as it was queued, and no other frame is kept |
| LegacyBus.Survivors | project1/CanBus_old.py:233-236 | arbitration keeps exactly the queued frames whose identifier is the lowest one |
| LegacyBus.SurvivorsNonEmpty | project1/CanBus_old.py:233-236 | arbitration leaves exactly the frames with the lowest identifier, and at least one |
| LegacyBus.BitsOfFrames | project1/CanBus_old.py:238 | entry j is the unstuffed bits of frame j |
| LegacyBus.MaxLen | project1/CanBus_old.py:239 | the longest bit list: some list has that length and none is longer |
| LegacyBus.ColumnAnd | project1/CanBus_old.py:243-248 | after the inner loop has visited frames 0..n, a bit is 0 exactly when some frame it read has 0 there |
| LegacyBus.Combine | project1/CanBus_old.py:241-248 | the published frame has the length of the longest survivor |
| LegacyBus.CombineDominant | project1/CanBus_old.py:243-248 | published bit i is 0 exactly when some frame with index below its own length has 0 at i |
| LegacyBus.AllFramesTakePart | project1/CanBus_old.py:243-248 | with at most 23 survivors of equal length, every survivor takes part in every published bit |
| LegacyBus.SingleFramePublished | project1/CanBus_old.py:238-251 | a lone survivor is published exactly as its own unstuffed bits |
| LegacyBus.FirstDataBit | project1/CanBus_old.py:63-66 | the first data bit is the most significant bit of the first byte |
| LegacyBus.LateDominantLost | project1/CanBus_old.py:246-248 | the guard `j < len(framesBits[j])` skips the last frame: its dominant bit is lost when all others are recessive |
| LegacyBus.LateFrameIgnored | project1/CanBus_old.py:246-248 | among 32 equal-length one-byte frames, the 32nd frame's dominant data bit does not reach the bus |
| LegacyBus.PublishedBits | project1/CanBus_old.py:241-248 | the nested loop computes `Combine(framesBits)` |
| LegacyBus.LegacyEcu.constructor | project1/CanBus_old.py:86-96 | the counters start at 0, the status error active, the histories empty |
| LegacyBus.LegacyEcu.ErrorStatus | project1/CanBus_old.py:101-107 | the status becomes `Classify(TEC, REC)` |
| LegacyBus.LegacyEcu.TecIncrease | project1/CanBus_old.py:109-112 | TEC +8, logged, status re-evaluated |
| LegacyBus.LegacyEcu.RecIncrease | project1/CanBus_old.py:114-117 | REC +1, logged, status re-evaluated |
| LegacyBus.LegacyEcu.TecDecrease | project1/CanBus_old.py:119-122 | TEC −1 with no floor, logged, status re-evaluated |
| LegacyBus.LegacyEcu.RecDecrease | project1/CanBus_old.py:124-127 | REC −1 with no floor, logged, status re-evaluated |
| LegacyBus.LegacyEcu.GetTec | project1/CanBus_old.py:132-133 | returns TEC |
| LegacyBus.LegacyEcu.GetRec | project1/CanBus_old.py:129-130 | returns REC |
| LegacyBus.LegacyEcu.GetStatus | project1/CanBus_old.py:146-147 | the status is never bus-off |
| LegacyBus.LegacyEcu.SendFrame | project1/CanBus_old.py:135-136 | queues exactly the node's frame on the bus |
| LegacyBus.LegacyEcu.CheckCanBusFrame | project1/CanBus_old.py:138-144 | when the published bits differ from the node's unstuffed bits (a missing publication included), TEC rises by 8, is logged, and the status becomes error passive exactly when TEC or REC exceeds 127; when they match, TEC, the history and the status are unchanged |
| LegacyBus.LegacyCanBus.constructor | project1/CanBus_old.py:195-196 | empty queue, nothing published |
| LegacyBus.LegacyCanBus.SendFrameOnBus | project1/CanBus_old.py:205-207 | appends exactly one frame |
| LegacyBus.LegacyCanBus.RemoveInvalidFrames | project1/CanBus_old.py:216-219 | the queue is unchanged |
| LegacyBus.LegacyCanBus.GetLowerID | project1/CanBus_old.py:221-222 | the minimum queued identifier |
| LegacyBus.LegacyCanBus.OnlyFramesWithID | project1/CanBus_old.py:224-225 | keeps exactly the frames with that identifier |
| LegacyBus.LegacyCanBus.Porcess | project1/CanBus_old.py:227-251 | an empty queue changes nothing. Otherwise the queue becomes the lowest-identifier frames, and the published frame is their bits AND-combined |
| LegacyBus.LegacyCanBus.GetSendedFrame | project1/CanBus_old.py:253-254 | returns the last publication |
| LegacyBus.LegacyCanBus.ClearBus | project1/CanBus_old.py:256-257 | empties the queue and keeps the last publication |
| Attack.FirstDecoded | project1/main.py:65-71 | the first observation whose bits decode: all earlier ones decode to `None` |
| Attack.FirstDecodedAt | project1/main.py:65-71 | the first observation that decodes, with none before it, is the one `FirstDecoded` names |
| Attack.Resighted | project1/main.py:72-76 | a resighting needs the baseline frame to have decoded and lies at least one count after it |
| Attack.InferPeriod | project1/main.py:56-76 | no result unless some observation decodes. The baseline is the first decoded frame and its count. The loop ends exactly at the first later sighting of an equal frame at a strictly larger count, and the period is that count minus the baseline, at least 1 |
| Attack.AttackerFrame | project1/main.py:79 | the victim's identifier, DLC 0 and no data; well-formed whenever the victim is |
| Attack.ValueOfZeros | project1/main.py:79 | a list of 0 digits denotes 0, as the attacker's DLC field does |
| Attack.NonZeroHasOne | project1/main.py:79 | a digit list with a non-zero value holds a 1, so a victim DLC of at least 1 has a recessive bit |
| Attack.AttackerDominatesDlc | project1/main.py:79 | the attacker's unstuffed bits equal the victim's through the identifier, and somewhere in the DLC field they are 0 where the victim's are 1 |
| Attack.WaitBefore | project1/main.py:126-143 | attempt k waits for a multiple of the period exactly when it is the first attempt or the previous one completed; otherwise for the previous slot + 1 |
| Attack.NodeLoop | project1/main.py:104-169 | every wait is `WaitBefore`. Every attempt made passed the stop test. The loop ends only on the stop event, bus-off or the end of the inputs, and bus-off sets the stop event |
| Attack.RandomFrame | project1/main.py:224-246 | ID in [0, 2047], DLC in [1, 4], data equal to the first DLC draws, well-formed, and it survives an encode/decode round trip |
| Octets.Min | project2/SecureVaultAuthentication/secure_vault.py:33 | the length `zip` stops at: the smaller of the two lengths |
| Octets.Xor | project2/SecureVaultAuthentication/secure_vault.py:33 | zip truncates to the shorter operand; byte k is the XOR of the two bytes k |
| Octets.XorCancel | project2/SecureVaultAuthentication/secure_vault.py:104 | XOR-ing twice with an operand at least as long gives the first operand back |
| Octets.XorCommutes | project2/SecureVaultAuthentication/secure_vault.py:31-34 | byte-wise XOR commutes |
| Octets.XorAssociates | project2/SecureVaultAuthentication/secure_vault.py:31-34 | byte-wise XOR associates, truncation included |
| Octets.ByteXorAssociates | project2/SecureVaultAuthentication/secure_vault.py:31-34 | XOR of byte values associates |
| Octets.Bound | project2/SecureVaultAuthentication/iot_server.py:123-126 | a slice bound is clamped to [0, n]; a negative bound counts from the end |
| Octets.Slice | project2/SecureVaultAuthentication/iot_server.py:123-126 | `s[lo:hi]` is the sub-list between the normalised bounds, or empty when they cross |
| Octets.Prefix | project2/SecureVaultAuthentication/iot_devices.py:131 | `s[:hi]` holds `min(hi, len(s))` bytes |
| Octets.Suffix | project2/SecureVaultAuthentication/iot_server.py:126 | `s[-M:]` holds `min(M, len(s))` bytes |
| Octets.Zeros | project2/SecureVaultAuthentication/secure_vault.py:97 | `b'\0' * n` is n zero bytes |
| Octets.FromBytes | project2/SecureVaultAuthentication/iot_server.py:68 | iterating bytes yields values in [0, 255] |
| Octets.BytesRoundTrip | project2/SecureVaultAuthentication/iot_devices.py:78 | `list(bytes(c)) == c` for a challenge's values |
| Vault.KeyOf | project2/SecureVaultAuthentication/secure_vault.py:21-34 | with every key M bytes long, the derived key has M bytes |
| Vault.KeyRepeatCancels | project2/SecureVaultAuthentication/secure_vault.py:31-34 | selecting a key twice more cancels it |
| Vault.KeyOfAppend | project2/SecureVaultAuthentication/secure_vault.py:31-34 | the key of a concatenated challenge is the XOR of the two keys |
| Vault.KeyOfSwap | project2/SecureVaultAuthentication/secure_vault.py:31-34 | the order of two challenge halves does not change the key |
| Vault.GenerateChallenge | project2/SecureVaultAuthentication/secure_vault.py:37-44 | P distinct indices, each in [0, N) |
| Vault.ChallengeSelects | project2/SecureVaultAuthentication/secure_vault.py:41-44 | a challenge indexes a well-shaped vault, and its indices fit in a byte |
| Vault.Pad | project2/SecureVaultAuthentication/secure_vault.py:96-97 | the digest is kept as a prefix, followed by fewer than M zero bytes, to a multiple of M |
| Vault.Partitions | project2/SecureVaultAuthentication/secure_vault.py:100 | partition i is bytes `i·M .. i·M+M` of the padded digest |
| Vault.HmacRefreshed | project2/SecureVaultAuthentication/secure_vault.py:96-104 | the closed form of the HMAC refresh: key i becomes `keys[i] XOR partitions[i mod count]` of the zero-padded digest, as many keys as before; `HmacRefresh`'s loop is proved equal to it |
| Vault.ShaRefreshed | project2/SecureVaultAuthentication/secure_vault.py:121-122 | the closed form of the SHA refresh: key i becomes the first M bytes of the hash of key i, as many keys as before; `ShaRefresh`'s loop is proved equal to it |
| Vault.Updated | project2/SecureVaultAuthentication/secure_vault.py:56-72 | the refreshed vault keeps the number of keys; the HMAC variant never lengthens a key, the SHA variant keeps at most M bytes per key |
| Vault.Join | project2/SecureVaultAuthentication/secure_vault.py:93 | joining N keys of M bytes gives N·M bytes |
| Vault.RefreshKeepsShape | project2/SecureVaultAuthentication/secure_vault.py:93-122 | with 64-byte digests, both refresh variants keep N keys of M bytes |
| Vault.HmacRefreshInvolution | project2/SecureVaultAuthentication/secure_vault.py:96-104 | for a fixed digest, a second HMAC refresh undoes the first |
| Vault.SecureVault.constructor | project2/SecureVaultAuthentication/secure_vault.py:14-19 | the vault holds the N drawn keys |
| Vault.SecureVault.GetKey | project2/SecureVaultAuthentication/secure_vault.py:21-34 | the loop computes the left XOR fold `KeyOf(keys, challenge)` and does not modify the vault |
| Vault.SecureVault.HmacRefresh | project2/SecureVaultAuthentication/secure_vault.py:74-106 | the loop sets every key to `keys[i] XOR partitions[i mod count]` |
| Vault.SecureVault.ShaRefresh | project2/SecureVaultAuthentication/secure_vault.py:108-124 | the loop replaces every key with the first M bytes of its hash |
| Vault.SecureVault.UpdateVault | project2/SecureVaultAuthentication/secure_vault.py:56-72 | the HMAC variant runs exactly when the flag is set, the SHA variant otherwise |
| Cipher.Decrypt | project2/SecureVaultAuthentication/crypto_utils.py:22-36 | a ciphertext opens exactly under the key that sealed it |
| Cipher.Encrypt | project2/SecureVaultAuthentication/crypto_utils.py:6-20 | opens to the payload under the same key and under no other |
| Device.M3Payload | project2/SecureVaultAuthentication/iot_devices.py:78 | the layout `r1 ‖ t1 ‖ bytes(c2) ‖ r2` and its length |
| Device.ParseM4 | project2/SecureVaultAuthentication/iot_devices.py:120-133 | from a message of at least 2M bytes, r2 and t2 are M bytes each |
| Device.ParseM4RoundTrip | project2/SecureVaultAuthentication/iot_devices.py:131-133 | `__parse_m4(r2 + t2 + rest) == (r2, t2)` for M-byte r2 and t2 |
| Device.IoTDevice.constructor | project2/SecureVaultAuthentication/iot_devices.py:12-26 | the device has its identifier and no vault yet |
| Device.IoTDevice.SendMessage2 | project2/SecureVaultAuthentication/iot_devices.py:55-81 | c2 is the first draw different from c1, so it is never c1. r2 and t1 are stored. M3 is `r1 ‖ t1 ‖ c2 ‖ r2` sealed under `getKey(c1)`, and the vault is unchanged |
| Device.IoTDevice.SendMessage4 | project2/SecureVaultAuthentication/iot_devices.py:83-118 | returns true exactly when M4 opens under `getKey(c2) XOR t1` and carries the stored r2. Then the vault is refreshed with `t2 XOR t1`; otherwise it is untouched |
| Server.ParseM3 | project2/SecureVaultAuthentication/iot_server.py:112-128 | for a message of at least 3M bytes, r1, t1 and r2 are M bytes and the four parts concatenate back to the message |
| Server.ParseM3RoundTrip | project2/SecureVaultAuthentication/iot_server.py:123-128 | `__parseM3(r1 + t1 + c + r2) == (r1, t1, c, r2)` for M-byte nonces |
| Server.HonestHandshake | project2/SecureVaultAuthentication/iot_server.py:54-79 | under one key list: both sides derive the same k1 and k3, M3 and M4 open and parse back to the nonces sent, and the challenge c2 survives its byte round trip |
| Server.FirstRequest | project2/SecureVaultAuthentication/iot_server.py:150-163 | the first record with that identifier, or `None` when there is none |
| Server.Turn | project2/SecureVaultAuthentication/iot_server.py:49-88 | never `NoRequest`; a pairing needs both sides to derive the same k1 and M3 to start with r1 |
| Server.ReadM3 | project2/SecureVaultAuthentication/iot_server.py:49-65 | M3 is undecryptable exactly when it was sealed under another key than k1; a successful read starts with r1, carries a challenge that indexes the server vault, and slices t1 and r2 out of the plaintext |
| Server.ReadM3Agrees | project2/SecureVaultAuthentication/iot_server.py:49-88 | a failed M3 read ends the turn as `Turn` says; after a successful read, `Turn` pairs exactly when both sides derive the same k3 and M4 echoes r2, and the session keys are the ones the read fields give |
| Server.M3RejectedExactly | project2/SecureVaultAuthentication/iot_server.py:62-64 | `run` rejects M3 exactly when it opens and its first field is not the r1 the server sent |
| Server.HonestTurnPairs | project2/SecureVaultAuthentication/iot_server.py:49-88 | two holders of the same vault with M-byte nonces always pair, and both refresh with `t2 XOR t1` |
| Server.ForeignVaultUndecryptable | project2/SecureVaultAuthentication/iot_server.py:54-56 | a device whose vault gives another k1 for c1 never gets past M3 |
| Server.StaysRegistered | project2/SecureVaultAuthentication/iot_server.py:41-88 | a record whose vaults are the served record's or still hold their old servable keys, and whose device keeps its vault, can still be served |
| Server.StoppedAtM3 | project2/SecureVaultAuthentication/iot_server.py:49-64 | a turn that stops at M3 ends as `Turn` says and changes no vault (`TurnEffect` with unchanged keys) |
| Server.AnsweredM4 | project2/SecureVaultAuthentication/iot_server.py:67-88 | after a successful M3 read, a turn in which the device pairs exactly when it opens M4 under its own k2 XOR t1 and finds its r2 satisfies `TurnEffect` |
| Server.ShortOrLongNonceRejected | project2/SecureVaultAuthentication/iot_server.py:59-64 | an r1 that is not M bytes long never comes back from `__parseM3`, so the turn ends before M4 |
| Server.IoTServer.constructor | project2/SecureVaultAuthentication/iot_server.py:15-26 | no requests, no paired or pending devices |
| Server.IoTServer.StartAuthentication | project2/SecureVaultAuthentication/iot_server.py:90-109 | an already-paired identifier is refused with `False` and the queue is unchanged; otherwise the request is appended at the tail |
| Server.IoTServer.SetUpConnection | project2/SecureVaultAuthentication/iot_server.py:130-148 | appends exactly one record with a fresh vault and returns an independent copy with equal keys |
| Server.IoTServer.Serve | project2/SecureVaultAuthentication/iot_server.py:29-88 | pops the oldest pending device (FIFO); a missing record ends `run` with `NoRequest`. It may change only the served record's two vaults and its device (the `modifies` clause), and every record stays servable for the next turn. Otherwise the served record's turn satisfies `TurnEffect`: the outcome is `Turn`'s, a pairing implies M3 echoed r1, nothing but pairing changes the vaults and pairing refreshes each side with its session key, and a device whose vault equals the server's always pairs with both vaults refreshed with `t2 XOR t1`. `run` goes on exactly after a pairing or a refusal |
| Server.IoTServer.ServeRecord | project2/SecureVaultAuthentication/iot_server.py:41-88 | the turn for the record `run` found changes only that record's vaults and device, leaves every record servable, and satisfies `TurnEffect` |
| Server.IoTServer.Authenticate | project2/SecureVaultAuthentication/iot_server.py:49-88 | the served record stays servable and its device keeps its vault; the turn satisfies `TurnEffect` for the vaults held at the start: it ends as `Turn` says, a pairing implies M3 echoed r1, any other ending leaves both vaults unchanged, a pairing refreshes them with the session keys, and equal vaults with M-byte nonces always pair and stay equal |
| Server.IoTServer.ReceiveM3 | project2/SecureVaultAuthentication/iot_server.py:49-65 | the device answers M2 with a challenge c2 other than c1 and stores t1 and r2, its vault unchanged; the reading is `ReadM3` of M3 sealed under the device's k1 |
| Server.IoTServer.SendM4 | project2/SecureVaultAuthentication/iot_server.py:67-88 | the device is appended to the paired list exactly when M4 opens under the device's own `getKey(c2) XOR t1` and carries its stored r2. A refusal leaves both vaults unchanged. On pairing the server refreshes with `t2 XOR t1` and the device with the t2 it read XOR its t1; equal vaults with honest fields always pair and stay equal |
| Server.Connect | project2/SecureVaultAuthentication/iot_devices.py:32-53 | the device keeps a fresh copy of the registered vault and queues its request unless already paired |

## Left out

- Threads, the global clock, barriers, stop events, the server's condition variable and the victim/adversary sync barrier are not modelled. Each tick, turn or request is one sequential call.
- Attack.NodeLoop and Attack.InferPeriod: they do not model `main.py`'s bus API (`getCount`, `waitFrameCount`, `waitFrameCountMultiple`, `ecu.sendFrame(frame)` and its `COMPLITED` result), which is not in the repository. Their results are inputs: the observations, and one `Attempt` record per turn.
- Attack.NodeLoop: leaves out the transmission counters that feed the sync barrier, because they only drive synchronisation.
- Randomness (`random.randint`, `random.sample`, `os.urandom`) becomes parameters: draws, a shuffled index order, initial keys and nonces.
- AES is an ideal cipher (`Cipher`): padding, ECB blocks and real keys are not modelled. A wrong key always fails to open, where real AES would only fail with high probability.
- HMAC-SHA-512 and SHA-512 are function parameters. Only their 64-byte output length is assumed, and only where a property needs it.
- Plotting, `print`, the log file, timings and `getTimings` are I/O.
- `project1/CanBus.py`, `project1/global_clock.py`, the ECC authentication code, the benchmark drivers and the superseded top-level `project2/` drafts are not part of this model.
- Bits are 0 or 1: `fromBits` on lists holding other values is not modelled.
- Class-level lists (`TECvalues`, `RECvalues`, the old bus's `frames`) are per-instance fields. In Python they are shared across instances.
- Node.Ecu: has no `sendFrame`, because `can_bus.CanBus` has no `sendFrameOnBus` and the call would raise.
- LegacyBus.LegacyCanBus.Porcess: requires that every frame the inner loop reads is long enough. The guard `j<len(framesBits[j])` tests the frame index rather than the bit index, so otherwise Python raises an IndexError, which is not modelled. The lemmas `LateDominantLost` and `LateFrameIgnored` show what the guard skips.
- Vault.SecureVault.GetKey: requires non-negative indices. Python would also accept negative ones, counting from the end, and raise on an empty challenge; neither happens with a generated challenge.
- Device.IoTDevice.SendMessage2: requires some draw to differ from c1. The Python retry loop would not terminate otherwise.
- Octets.BytesRoundTrip: stated only for values below 16, the only values a challenge holds (N = 16). It is not stated for the whole byte range.
- Server.IoTServer.Serve: refreshes both vaults through `updateVault`. The source calls `update_vault`, which `SecureVault` does not define; the model takes it as the intended `updateVault`.
- Server.IoTServer.Serve: turns into outcomes the exceptions that end `run`: a missing request record, an M3 that does not open, and a challenge index out of range. `Device.IoTDevice.SendMessage4` treats an M4 that does not open like a wrong r2. In the source, `unpad` raises on such an M4 (project2/SecureVaultAuthentication/iot_devices.py:97, project2/SecureVaultAuthentication/crypto_utils.py:36) and the exception ends `run`; in the model that turn is `Refused` and `running` stays true.
- Server.IoTServer.StartAuthentication: takes identifiers as integers, so the `int()` conversions are not modelled.
