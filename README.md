# OBD-II responder of the FOME engine-control firmware

This project models the firmware's on-board diagnostics responder, `firmware/controllers/can/obd2.cpp`.
The responder listens on the CAN bus for SAE J1979 requests sent to the functional request id 0x7DF.
It answers each one with at most one frame of up to eight bytes from id 0x7E8. The requests it answers are:

- service $01 "current data", where the request's byte 2 names a parameter (PID);
- services $03, $07 and $0A, the stored, pending and permanent trouble codes.

Modules:

- `Wire` defines bytes, 32-bit words, frames, C's conversion to `uint8_t`, and big-endian packing with its inverse.
- `ObdIds` holds the identifiers, service numbers, PIDs and the three sentinel-terminated supported-PID tables.
- `ObdPacket` models the frame packer `obdSendPacket`, the value encoder `obdSendValue` and the monitor-status frame `obdStatusQuery`.
- `ObdSupported` models the supported-PID bitmaps of `obdWriteSupportedPids`. The table scan is an imperative loop proved against a bit-level specification.
- `ObdDtc` models `writeDtc` and `handleDtcRequest` over an eight-byte array.
- `ObdDispatch` models `handleGetDataRequest` and the receive handler `obdOnCanPacketRx`.
- `ObdFindings` holds the two places where the frames differ from what a scan tool expects, each with its intended definition.

Each method builds its frame in a fresh, zeroed eight-byte array. A method "sends" by returning the frame, or a sequence of zero or one frames.
Each method is proved equal to a specification function, such as `PacketFrame`, `SupportedFrame`, `DtcFrame`, `GetDataResponse` or `RxResponse`. The lemmas state what those functions mean:

- bytes that reassemble to the encoded value;
- a bit that is set exactly when the table lists the PID;
- codes that a scan tool reads back unchanged;
- which requests get an answer at all.

Bytes and words are integers in their C ranges:

- A right shift by whole bytes is division by 256.
- `1 << p` is `Pow2(p)`.
- `|` is `BitOr`, defined one bit at a time.

The header `obd2.h` is not part of this model. The identifiers and PID numbers are those of SAE J1979 and ISO 15765-4. The scaling constants are 255/100 for percentages, +40 for temperatures and ×4 for RPM, as SAE J1979 defines those PIDs.

Two properties of the frames, read from the code:

- A two-code DTC frame declares length 1 + 1 + 2·2 = 6, as the comment at `obd2.cpp:232` counts it.
- The monitor-status byte loses the code count (see Findings).

The receive path models the firmware as written. The corrected definitions in `ObdFindings` stand beside it, with their properties proved.

## Model

| member | source | states |
|---|---|---|
| `Wire.BigEndianAt` | firmware/controllers/can/obd2.cpp:73-74 | byte `m` of an `n`-byte big-endian packing is byte `n-1-m` of the value, i.e. `(v >> 8(n-1-m)) & 0xff` |
| `Wire.BeValueOfBigEndian` | firmware/controllers/can/obd2.cpp:73-74 | the packed `n` bytes of any value reassemble to the value modulo 256^n, so a value that fits comes back unchanged (round trip) |
| `Wire.BigEndianOfBeValue` | firmware/controllers/can/obd2.cpp:73-74 | any `n` bytes are the packing of the value they reassemble to, and that value fits in `n` bytes (inverse round trip) |
| `ObdPacket.PacketLayout` | firmware/controllers/can/obd2.cpp:63-76 | packet: length byte `2+numBytes`, echo `0x40+mode`, PID echo, the value's low bytes most significant first, which reassemble to the value modulo 256^numBytes (the value itself when it fits), then zeros |
| `ObdPacket.PacketEcho` | firmware/controllers/can/obd2.cpp:63-76 | a service $01 packet is sent from id 0x7E8 with data length 8, echoing $41 and the PID in bytes 1 and 2 |
| `ObdPacket.ObdSendPacket` | firmware/controllers/can/obd2.cpp:63-76 | the shift loop over `i` and `j` fills the buffer with exactly `PacketFrame` |
| `ObdPacket.RoundIsNearest` | firmware/controllers/can/obd2.cpp:82 | the rounded integer lies within half a unit of the value |
| `ObdPacket.ClampSaturates` | firmware/controllers/can/obd2.cpp:83-84 | saturation lies in 0..255 or 0..65535, keeps values that fit, and pins the rest to the nearer bound |
| `ObdPacket.ObdSendValue` | firmware/controllers/can/obd2.cpp:80-86 | fatal exactly when the width is above 2; the frames sent are `ValueFrames` |
| `ObdPacket.EncoderPayload` | firmware/controllers/can/obd2.cpp:80-86 | width > 2 sends nothing; width 1 or 2 sends one frame with length `2+width`, the echoes, and a payload that reassembles to the rounded, saturated value |
| `ObdPacket.FuelSystemStatusBytes` | firmware/controllers/can/obd2.cpp:141-144 | fuel-system status `(2<<8)|0` is sent as `[4, 0x41, 0x03, 0x02, 0x00, 0, 0, 0]` |
| `ObdPacket.StatusByteValue` | firmware/controllers/can/obd2.cpp:114 | as written, the status byte is 0x80 for any non-zero count and 0 for zero |
| `ObdPacket.ObdStatusQuery` | firmware/controllers/can/obd2.cpp:105-118 | status frame `[6, 0x41, PID, status, 0, 0, 0]` with data length code 7 |
| `ObdSupported.ScanEnd` | firmware/controllers/can/obd2.cpp:94 | the scan stops at the first non-positive entry or at 32, and every entry before it is positive |
| `ObdSupported.ScanInBounds` | firmware/controllers/can/obd2.cpp:94 | the scan never reads past the end of a sentinel-terminated table |
| `ObdSupported.ScanStops` | firmware/controllers/can/obd2.cpp:94 | the loop's exit point is `ScanEnd` |
| `ObdSupported.Scanned` | firmware/controllers/can/obd2.cpp:94 | the scanned entries are at most 32, all positive |
| `ObdSupported.GatherSupported` | firmware/controllers/can/obd2.cpp:92-95 | the OR loop computes `SupportedMask`, the bitwise OR of `1 << (31 + bitOffset - pid)` over the scanned entries |
| `ObdSupported.ObdWriteSupportedPids` | firmware/controllers/can/obd2.cpp:91-103 | sends the bitmap as a four-byte service $01 packet |
| `ObdSupported.MaskStep` | firmware/controllers/can/obd2.cpp:95 | one loop step ORs in one entry's bit; an entry whose shift is out of range changes nothing |
| `ObdSupported.MaskFits` | firmware/controllers/can/obd2.cpp:92-95 | the bitmap fits in a `uint32_t` |
| `ObdSupported.OrHasBit` | firmware/controllers/can/obd2.cpp:95 | bit `p` of `a | b` is set exactly when it is set in `a` or in `b` |
| `ObdSupported.Pow2HasBit` | firmware/controllers/can/obd2.cpp:95 | `1 << t` has bit `p` set exactly when `t == p` |
| `ObdSupported.BitsDetermine` | firmware/controllers/can/obd2.cpp:92-95 | two words with the same bits are equal |
| `ObdSupported.ContributionHasBit` | firmware/controllers/can/obd2.cpp:95 | an entry sets bit `p` exactly when `31 + bitOffset - pid == p` and `p < 32` |
| `ObdSupported.MaskBits` | firmware/controllers/can/obd2.cpp:94-95 | bit `p` of the bitmap is set if and only if some entry aims at `p` |
| `ObdSupported.MaskOrderIndependent` | firmware/controllers/can/obd2.cpp:94-95 | the bitmap depends only on the set of entries, not on their order or repetition |
| `ObdSupported.Advertised` | firmware/controllers/can/obd2.cpp:91-95 | for a PID whose position is in 0..31, its bit is set if and only if the scan takes it |
| `ObdSupported.SupportedFrameLayout` | firmware/controllers/can/obd2.cpp:91-103 | bitmap frame: length 6, echo 0x41, PID echo, bytes 3..6 reassemble to the bitmap, in which a PID's bit is set if and only if the table lists it |
| `ObdDtc.CodeIsBigEndian` | firmware/controllers/can/obd2.cpp:212-215 | a code's high and low bytes are its two-byte big-endian form, the same packing as a two-byte value |
| `ObdDtc.JoinSplit` | firmware/controllers/can/obd2.cpp:212-215 | a code's high and low bytes reassemble to the code |
| `ObdDtc.SplitJoin` | firmware/controllers/can/obd2.cpp:212-215 | any two bytes are the split of the code they join to |
| `ObdDtc.WriteDtc` | firmware/controllers/can/obd2.cpp:212-215 | writes the high byte at `offset`, the low byte at `offset+1`, and changes nothing else |
| `ObdDtc.CodeBytesAt` | firmware/controllers/can/obd2.cpp:236-239 | code `i` occupies bytes `2i` and `2i+1` of the code area |
| `ObdDtc.HandleDtcRequest` | firmware/controllers/can/obd2.cpp:217-282 | the handler's buffer after the count cap, the zero-code branch and the write loop is exactly `DtcFrame` |
| `ObdDtc.DtcLayout` | firmware/controllers/can/obd2.cpp:217-239 | with `n = min(count, 2)`: byte 0 is `2+2n`, byte 1 the echo, byte 2 is `n`, code `i` in bytes `3+2i` and `4+2i`, zeros after |
| `ObdDtc.DtcTruncation` | firmware/controllers/can/obd2.cpp:218-221 | a count above 2 gives the same frame as the first two codes |
| `ObdDtc.DtcRoundTrip` | firmware/controllers/can/obd2.cpp:229-239 | a scan tool reading the frame gets back exactly the first `min(count, 2)` codes |
| `ObdDtc.TwoCodesExample` | firmware/controllers/can/obd2.cpp:229-239 | codes 0x0101 and 0x0202 for service $03 give `[6, 0x43, 2, 1, 1, 2, 2, 0]` |
| `ObdDtc.NoCodesExample` | firmware/controllers/can/obd2.cpp:223-228 | zero codes give `[2, 0x40+service, 0]` followed by zeros |
| `ObdDispatch.FuelAirScaled` | firmware/controllers/can/obd2.cpp:182-184 | the scaled lambda fits in a `uint16_t` |
| `ObdSupported.TablesScannable` | firmware/controllers/can/obd2.cpp:34-61 | each supported-PID table ends with its sentinel |
| `ObdDispatch.HandleGetDataRequest` | firmware/controllers/can/obd2.cpp:120-210 | the switch sends exactly `GetDataResponse` for the declared length and the PID in byte 2 |
| `ObdDispatch.SendEncodedValue` | firmware/controllers/can/obd2.cpp:141-205 | each `obdSendValue` case sends that PID's scaled reading at its width |
| `ObdDispatch.CurrentDataGate` | firmware/controllers/can/obd2.cpp:120-210 | length ≠ 2 sends nothing; with length 2, one frame is sent if and only if the PID is handled (fuel rate only with the trip odometer), and never more than one |
| `ObdDispatch.CurrentDataEcho` | firmware/controllers/can/obd2.cpp:120-210 | every current-data answer comes from id 0x7E8, has bytes 1 and 2 equal to service $41 and the PID asked for, and has data length 8, or 7 for the monitor-status PID |
| `ObdDispatch.EncodedEcho` | firmware/controllers/can/obd2.cpp:141-205 | every frame sent through `obdSendValue` for an encoded PID has data length 8 and carries service $41 and that PID |
| `ObdDispatch.FuelRateNeedsTripOdometer` | firmware/controllers/can/obd2.cpp:189-196 | without the trip odometer, the fuel-rate PID gets no answer although the 0x41-0x60 table lists it |
| `ObdDispatch.LowWindowAnswered` | firmware/controllers/can/obd2.cpp:34-48 | every PID the 0x01-0x20 table lists is answered; MAF (0x10) is answered but not listed |
| `ObdDispatch.FuelAirLayout` | firmware/controllers/can/obd2.cpp:181-187 | fuel-air frame: length 6, `scaled` in bytes 3-4 high byte first, zeros in bytes 5-6, `scaled` the truncated clamped lambda × 32768 |
| `ObdDispatch.ShiftedBytes` | firmware/controllers/can/obd2.cpp:186 | `scaled << 16` has `scaled` in its two high bytes and zero in the two low ones |
| `ObdDispatch.ObdOnCanPacketRx` | firmware/controllers/can/obd2.cpp:285-309 | the receive handler sends exactly `RxResponse` |
| `ObdDispatch.DispatchRules` | firmware/controllers/can/obd2.cpp:285-309 | at most one frame; another id or another service gets nothing; $07 and $0A answer "no codes"; $03 answers with the snapshot's codes, read back exactly |
| `ObdDispatch.LengthOnlyForCurrentData` | firmware/controllers/can/obd2.cpp:290-296 | only service $01 looks at byte 0; other services answer the same whatever its value |
| `ObdDispatch.CoolantExamples` | firmware/controllers/can/obd2.cpp:148-150 | coolant -40, 190 and 300 deg C read 0, 230 and 255 |
| `ObdDispatch.RpmExample` | firmware/controllers/can/obd2.cpp:160-162 | 2000 rpm is sent as 0x1F, 0x40 |
| `ObdDispatch.ThrottleExample` | firmware/controllers/can/obd2.cpp:178-180 | a wide-open throttle (100 %) reads 255 |
| `ObdFindings.MidWindowAsWritten` | firmware/controllers/can/obd2.cpp:132-134 | as written, the 0x21-0x40 bitmap is `1 << 16`, read as PID 0x30, and bit 28 for PID 0x24 is clear |
| `ObdFindings.HighWindowAsWritten` | firmware/controllers/can/obd2.cpp:135-137 | as written, the 0x41-0x60 bitmap is `1 << 6`, read as PID 0x5A; the other three shifts are negative |
| `ObdSupported.TablesScanned` | firmware/controllers/can/obd2.cpp:34-61 | the scan of each table takes exactly the entries before its sentinel |
| `ObdFindings.IntendedWindows` | firmware/controllers/can/obd2.cpp:129-137 | with offset `base + 1`, each PID of a window sits where a scan tool reads it, and its bit is set if and only if the table lists it |
| `ObdFindings.IntendedTables` | firmware/controllers/can/obd2.cpp:129-137 | with offset `base + 1` (the firmware's own 1 for the first window), each window advertises exactly its table: the twelve 0x01-0x20 PIDs, 0x24, and 0x42, 0x52, 0x5C, 0x5E |
| `ObdFindings.IntendedStatusByte` | firmware/controllers/can/obd2.cpp:114 | intended status byte: bit 7 set if and only if a code is stored, bits 0-6 equal to the count capped at 127 |
| `ObdFindings.StatusByteAsWritten` | firmware/controllers/can/obd2.cpp:114 | as written, three codes give 0x80 where 0x83 is intended, and bits 0-6 are always clear |
| `ObdFindings.StatusBytesAgree` | firmware/controllers/can/obd2.cpp:114 | the written and intended bytes agree if and only if no code is stored |

## Left out

- The CAN transport, the bus index and `CAN_SID` are left out. A request arrives as an id and eight payload bytes, and a response is the returned frame.
- The response buffer (`CanTxMessage`) is assumed to start zeroed. Its constructor is not part of this model.
- Sensor, engine and trip-odometer accessors are left out. Their values arrive as a `Readings` record, and the `MODULE_TRIP_ODO` build option is a boolean.
- The error store and `getErrorCodes` are left out. The snapshot arrives as a `FaultCodes` parameter. The status frame and the DTC frame are taken from the same snapshot, although the firmware copies it twice.
- Single-precision floating point is not modelled; values are real numbers. The conversion of a large float to `int` is not modelled.
- `ObdPacket.RoundIsNearest`: `efiRound` is not part of this model. `Round` rounds a tie upward; the firmware's rule for ties is not modelled.
- The float-to-`uint16_t` conversion of the fuel-air ratio is the floor, because the clamped value is never negative.
- `ObdSupported.GatherSupported`: a shift count outside 0..31 is undefined behaviour in C. The model lets such an entry set no bit, so the high window's bitmap holds only what the in-range shift gives.
- `ObdSupported.ObdWriteSupportedPids`: `MOCK_SUPPORTED_PIDS` is a debug build option and is not modelled.
- `ObdDtc.HandleDtcRequest`: the commented-out ISO-TP multi-frame branch is dead code and is not modelled. Its `else` branch is unreachable once the count is capped at 2.
- `ObdDtc.HandleDtcRequest`: a negative count writes a header `[2+2n, echo, n]` with no codes, as the code does. `DtcLayout` and `DtcRoundTrip` are stated for non-negative counts only.
- `ObdPacket.ObdSendValue`: the firmware's assertion (`efiAssertVoid`) is modelled as a `fatal` result. The error reporting behind it is not modelled.
- The Java configuration files and the unit tests are not modelled. They are context for the firmware, not part of the responder.

## Findings

| source | as written | input that shows it | evidently intended | confidence | as-written member | corrected member |
|---|---|---|---|---|---|---|
| firmware/controllers/can/obd2.cpp:132-137 | bit offsets 21 and 41 (decimal) for the windows starting at PIDs 0x21 and 0x41 | request PID 0x20: PID 0x24 lands at bit 16, which a scan tool reads as PID 0x30; request PID 0x40: PID 0x42 lands at bit 6, read as 0x5A, and the shifts for 0x52, 0x5E and 0x5C are negative | offsets 0x21 and 0x41, the window's first PID, as offset 1 is for the first window | high (not executed) | `ObdFindings.MidWindowAsWritten`, `ObdFindings.HighWindowAsWritten` | `ObdFindings.IntendedWindows`, `ObdFindings.IntendedTables` |
| firmware/controllers/can/obd2.cpp:114 | `count ? 0x80 : 0x0 + count` parses as `count ? 0x80 : (0x0 + count)` | three stored codes give status byte 0x80 | `(count ? 0x80 : 0x0) + count`: the malfunction-indicator bit plus the code count, 0x83 for three codes | medium (not executed) | `ObdFindings.StatusByteAsWritten` | `ObdFindings.IntendedStatusByte` |
