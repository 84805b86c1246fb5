/// Single-frame value responses of the OBD-II responder: the frame packer
/// (`obdSendPacket`), the integer encoder (`obdSendValue`) and the
/// monitor-status frame (`obdStatusQuery`).
///
/// A handler's response buffer is modelled as a fresh eight-byte array that
/// starts out zeroed; a handler "sends" by returning the frame it filled.
module ObdPacket {
  import opened Wire
  import opened ObdIds

  /** The eight data bytes `obdSendPacket` leaves in its buffer: declared length,
      service echo, PID echo, the low `numBytes` bytes of the value big-endian,
      then untouched zero bytes. */
  function PacketData(mode: Byte, pid: Byte, numBytes: nat, value: Word): seq<Byte>
    requires numBytes <= 4
  {
    [ToByte(2 + numBytes), ToByte(0x40 + mode), pid] + BigEndian(value, numBytes) + Zeros(5 - numBytes)
  }

  /** The frame `obdSendPacket` hands to the transport. */
  function PacketFrame(mode: Byte, pid: Byte, numBytes: nat, value: Word): Frame
    requires numBytes <= 4
  {
    Frame(ObdTestResponse, 8, PacketData(mode, pid, numBytes, value))
  }

  /** Packet layout: three header bytes, then `numBytes` payload bytes, the value's
      low bytes most significant first, which reassemble to the value modulo
      256^numBytes, so to the value itself when it fits the width; nothing is
      written after them. */
  lemma PacketLayout(mode: Byte, pid: Byte, numBytes: nat, value: Word)
    requires numBytes <= 4
    ensures var d := PacketData(mode, pid, numBytes, value);
      && |d| == 8
      && d[0] == 2 + numBytes
      && d[1] == ToByte(0x40 + mode)
      && d[2] == pid
      && (forall k :: 3 <= k < 3 + numBytes ==> d[k] == ByteAt(value, numBytes + 2 - k))
      && BeValue(d[3..3 + numBytes]) == value % Radix(numBytes)
      && (value < Radix(numBytes) ==> BeValue(d[3..3 + numBytes]) == value)
      && (forall k :: 3 + numBytes <= k < 8 ==> d[k] == 0)
  {
    var d := PacketData(mode, pid, numBytes, value);
    assert d[3..3 + numBytes] == BigEndian(value, numBytes);
    forall k | 3 <= k < 3 + numBytes
      ensures d[k] == ByteAt(value, numBytes + 2 - k)
    {
      BigEndianAt(value, numBytes, k - 3);
    }
    BeValueOfBigEndian(value, numBytes);
  }

  /** A service $01 packet comes from the response id as an eight-byte frame echoing
      the service and the PID. */
  lemma PacketEcho(pid: Byte, numBytes: nat, value: Word)
    requires numBytes <= 4
    ensures var f := PacketFrame(1, pid, numBytes, value);
      f.id == ObdTestResponse && f.dlc == 8 && |f.data| == 8 && f.data[1] == 0x41 && f.data[2] == pid
  {
    PacketLayout(1, pid, numBytes, value);
  }

  /** `obdSendPacket`: writes the header, then the value one byte per step from the
      most significant byte, with `i` the shift in bits and `j` the buffer index. */
  method ObdSendPacket(mode: Byte, pid: Byte, numBytes: nat, value: Word) returns (sent: Frame)
    requires numBytes <= 4
    ensures sent == PacketFrame(mode, pid, numBytes, value)
  {
    var resp := new Byte[8](_ => 0);
    resp[0] := ToByte(2 + numBytes);
    resp[1] := ToByte(0x40 + mode);
    resp[2] := pid;
    var i: int := 8 * (numBytes - 1);
    var j: nat := 3;
    while i >= 0
      invariant 3 <= j <= 3 + numBytes
      invariant i == 8 * (numBytes + 2 - j)
      invariant resp[0] == ToByte(2 + numBytes) && resp[1] == ToByte(0x40 + mode) && resp[2] == pid
      invariant forall k :: 3 <= k < j ==> resp[k] == ByteAt(value, numBytes + 2 - k)
      invariant forall k :: j <= k < 8 ==> resp[k] == 0
      decreases i
    {
      resp[j] := ByteAt(value, i / 8);
      i := i - 8;
      j := j + 1;
    }
    PacketDataAt(mode, pid, numBytes, value, resp[..]);
    sent := Frame(ObdTestResponse, 8, resp[..]);
  }

  /** Byte-by-byte reading of `PacketData`, the form in which the packer writes it. */
  lemma PacketDataAt(mode: Byte, pid: Byte, numBytes: nat, value: Word, d: seq<Byte>)
    requires numBytes <= 4 && |d| == 8
    requires d[0] == ToByte(2 + numBytes) && d[1] == ToByte(0x40 + mode) && d[2] == pid
    requires forall k :: 3 <= k < 3 + numBytes ==> d[k] == ByteAt(value, numBytes + 2 - k)
    requires forall k :: 3 + numBytes <= k < 8 ==> d[k] == 0
    ensures d == PacketData(mode, pid, numBytes, value)
  {
    var expected := PacketData(mode, pid, numBytes, value);
    forall k | 0 <= k < 8
      ensures d[k] == expected[k]
    {
      if 3 <= k < 3 + numBytes {
        assert expected[k] == BigEndian(value, numBytes)[k - 3];
        BigEndianAt(value, numBytes, k - 3);
      }
    }
  }

  /** Round to the nearest integer; this model rounds a tie upward. */
  function Round(x: real): int {
    (x + 0.5).Floor
  }

  /** The rounded integer is within half a unit of the value. */
  lemma RoundIsNearest(x: real)
    ensures x - 0.5 < Round(x) as real <= x + 0.5
  {
  }

  function Min(a: int, b: int): int { if a < b then a else b }
  function Max(a: int, b: int): int { if a > b then a else b }

  /** The largest raw value a `numBytes`-wide PID can carry. */
  function WidthMax(numBytes: nat): int {
    if numBytes == 1 then 255 else 65535
  }

  /** `maxI(minI(iValue, 255 or 65535), 0)`: saturation into an unsigned byte or word. */
  function Clamp(iValue: int, numBytes: nat): int {
    Max(Min(iValue, WidthMax(numBytes)), 0)
  }

  /** Saturation keeps a value that fits, and otherwise pins it to the nearest bound. */
  lemma ClampSaturates(iValue: int, numBytes: nat)
    ensures 0 <= Clamp(iValue, numBytes) <= WidthMax(numBytes)
    ensures 0 <= iValue <= WidthMax(numBytes) ==> Clamp(iValue, numBytes) == iValue
    ensures iValue > WidthMax(numBytes) ==> Clamp(iValue, numBytes) == WidthMax(numBytes)
    ensures iValue < 0 ==> Clamp(iValue, numBytes) == 0
  {
  }

  /** The frames `obdSendValue` emits: none when the width assertion fails,
      otherwise one packet carrying the rounded, saturated value. */
  function ValueFrames(mode: Byte, pid: Byte, numBytes: nat, value: real): seq<Frame>
  {
    if numBytes > 2 then [] else [PacketFrame(mode, pid, numBytes, Clamp(Round(value), numBytes))]
  }

  /** `obdSendValue`. A width above 2 trips the firmware assertion CUSTOM_ERR_6662,
      reported here as `fatal`, and nothing is sent. */
  method ObdSendValue(mode: Byte, pid: Byte, numBytes: nat, value: real) returns (sent: seq<Frame>, fatal: bool)
    ensures fatal <==> numBytes > 2
    ensures sent == ValueFrames(mode, pid, numBytes, value)
  {
    if numBytes > 2 {
      return [], true;
    }
    var iValue := Round(value);
    iValue := Max(Min(iValue, if numBytes == 1 then 255 else 65535), 0);
    var frame := ObdSendPacket(mode, pid, numBytes, iValue);
    return [frame], false;
  }

  /** Encoder contract: widths above 2 send nothing; otherwise exactly one frame
      declaring length 2 + width whose payload is the rounded value saturated into
      the width, with no truncation. */
  lemma EncoderPayload(mode: Byte, pid: Byte, numBytes: nat, value: real)
    ensures numBytes > 2 ==> ValueFrames(mode, pid, numBytes, value) == []
    ensures 1 <= numBytes <= 2 ==>
      var frames := ValueFrames(mode, pid, numBytes, value);
      var c := Clamp(Round(value), numBytes);
      && |frames| == 1
      && frames[0].id == ObdTestResponse
      && frames[0].data[0] == 2 + numBytes
      && frames[0].data[1] == ToByte(0x40 + mode)
      && frames[0].data[2] == pid
      && 0 <= c <= WidthMax(numBytes)
      && BeValue(frames[0].data[3..3 + numBytes]) == c
  {
    if 1 <= numBytes <= 2 {
      var c := Clamp(Round(value), numBytes);
      ClampSaturates(Round(value), numBytes);
      assert c < Radix(numBytes);
      PacketLayout(mode, pid, numBytes, c);
    }
  }

  /** Fuel-system status is sent as the constant (2 << 8) | 0 in two bytes: 0x02, 0x00. */
  lemma FuelSystemStatusBytes()
    ensures ValueFrames(1, PidFuelSystemStatus, 2, ((2 * 256) + 0) as real)
            == [Frame(ObdTestResponse, 8, [4, 0x41, PidFuelSystemStatus, 0x02, 0x00, 0, 0, 0])]
  {
    assert ((2 * 256) + 0) as real == 512.0;
    assert Round(512.0) == 512;
    assert ValueFrames(1, PidFuelSystemStatus, 2, 512.0) == [PacketFrame(1, PidFuelSystemStatus, 2, 512)];
    assert BigEndian(512, 2) == [0x02, 0x00];
    assert PacketData(1, PidFuelSystemStatus, 2, 512)
        == [4, 0x41, PidFuelSystemStatus] + [0x02, 0x00] + [0, 0, 0]
        == [4, 0x41, PidFuelSystemStatus, 0x02, 0x00, 0, 0, 0];
  }

  /** The status byte exactly as `obdStatusQuery` computes it: C parses
      `count ? 0x80 : 0x0 + count` as `count ? 0x80 : (0x0 + count)`. */
  function StatusByte(count: int): Byte {
    ToByte(if count != 0 then 0x80 else 0x0 + count)
  }

  /** As written, the status byte is 0x80 whenever a code is stored and 0 otherwise:
      the count never reaches bits 0-6. */
  lemma StatusByteValue(count: int)
    ensures StatusByte(count) == if count == 0 then 0 else 0x80
  {
    if count == 0 {
      assert StatusByte(count) == ToByte(0);
    } else {
      assert StatusByte(count) == ToByte(0x80);
    }
  }

  /** The status frame: length 6, service echo 0x41, PID echo, status byte, three
      zero bytes; the data length code is 7, so the eighth byte is not sent. */
  function StatusFrame(pid: Byte, count: int): Frame {
    Frame(ObdTestResponse, 7, [0x6, 0x41, pid, StatusByte(count), 0x0, 0x0, 0x0, 0])
  }

  /** `obdStatusQuery`, with the fault-code snapshot's count as a parameter. */
  method ObdStatusQuery(pid: Byte, count: int) returns (sent: Frame)
    ensures sent == StatusFrame(pid, count)
  {
    var tx := new Byte[8](_ => 0);
    tx[0] := 0x6;
    tx[1] := 0x41;
    tx[2] := pid;
    tx[3] := ToByte(if count != 0 then 0x80 else 0x0 + count);
    tx[4] := 0x0;
    tx[5] := 0x0;
    tx[6] := 0x0;
    sent := Frame(ObdTestResponse, 7, tx[..]);
  }
}
