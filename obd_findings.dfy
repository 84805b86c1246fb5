/// Two places where the responder's frames differ from what SAE J1979 has a scan
/// tool expect: the bit offsets of the 0x21-0x40 and 0x41-0x60 supported-PID
/// bitmaps, and the monitor-status byte. Each is shown on the firmware as written,
/// next to the intended definition and its property.
module ObdFindings {
  import opened Wire
  import opened ObdIds
  import opened ObdPacket
  import opened ObdSupported

  /** How a scan tool reads bit `p` of the bitmap answering supported-PID request
      `base` (0x00, 0x20 or 0x40): bit 31 is PID `base + 1`, bit 0 is PID `base + 32`. */
  function WindowPid(base: int, p: int): int {
    base + 32 - p
  }

  /** The bit a scan tool expects PID `q` in, within the bitmap answering `base`. */
  function WindowBit(base: int, q: int): int {
    base + 32 - q
  }

  /** The offset that puts every PID of the window answering `base` where a scan tool
      looks for it: the window's first PID, `base + 1`. */
  function IntendedOffset(base: int): int {
    base + 1
  }

  /** With the intended offset, the bit of every PID in the window is exactly where a
      scan tool reads it, and it is set exactly when the table lists the PID. */
  lemma IntendedWindows(t: seq<int>, base: int, q: int)
    requires Scannable(t) && base < q <= base + 32
    ensures Position(q, IntendedOffset(base)) == WindowBit(base, q)
    ensures WindowPid(base, Position(q, IntendedOffset(base))) == q
    ensures HasBit(SupportedMask(t, IntendedOffset(base)), WindowBit(base, q)) <==> q in Scanned(t)
  {
    Advertised(t, IntendedOffset(base), q);
  }

  /** As written, offset 21 (decimal) puts PID 0x24 at bit 16, which a scan tool
      reads as PID 0x30, and leaves bit 28, where it looks for 0x24, clear. */
  lemma MidWindowAsWritten()
    ensures Scannable(SupportedPids2140)
    ensures SupportedMask(SupportedPids2140, 21) == Pow2(16)
    ensures WindowPid(PidSupportedPids2140, 16) == 0x30
    ensures !HasBit(SupportedMask(SupportedPids2140, 21), WindowBit(PidSupportedPids2140, PidFuelAirRatio1))
  {
    TablesScanned();
    var es: seq<int> := [0x24];
    assert es[..0] == [];
    assert MaskOf(es, 21) == BitOr(0, Pow2(16));
    Pow2HasBit(16, 28);
  }

  /** As written, offset 41 (decimal) gives PID 0x42 bit 6, which a scan tool reads
      as PID 0x5A; the shifts for 0x52, 0x5E and 0x5C are negative, undefined in C
      and taken here to set nothing. */
  lemma HighWindowAsWritten()
    ensures Scannable(SupportedPids4160)
    ensures SupportedMask(SupportedPids4160, 41) == Pow2(6)
    ensures WindowPid(PidSupportedPids4160, 6) == 0x5A
    ensures Position(PidEthanol, 41) < 0 && Position(PidFuelRate, 41) < 0 && Position(PidOilTemperature, 41) < 0
  {
    TablesScanned();
    var es: seq<int> := [0x42, 0x52, 0x5E, 0x5C];
    assert es[..3][..2][..1] == [0x42] && es[..3][..2] == [0x42, 0x52] && es[..3] == [0x42, 0x52, 0x5E];
    assert [0x42][..0] == [];
    assert MaskOf([0x42], 41) == Pow2(6);
    assert MaskOf([0x42, 0x52], 41) == Pow2(6);
    assert MaskOf([0x42, 0x52, 0x5E], 41) == Pow2(6);
    assert MaskOf(es, 41) == Pow2(6);
  }

  /** With the intended offsets, each window advertises exactly its table: each
      listed PID lies in the window and its bit is where a scan tool reads it. For
      the first window the intended offset is the firmware's own, 1. */
  lemma IntendedTables(q: int)
    ensures Scannable(SupportedPids0120) && Scannable(SupportedPids2140) && Scannable(SupportedPids4160)
    ensures IntendedOffset(PidSupportedPids0120) == 1
    ensures 0x00 < q <= 0x20 ==>
      (HasBit(SupportedMask(SupportedPids0120, IntendedOffset(0x00)), WindowBit(0x00, q)) <==>
         q in {0x01, 0x03, 0x04, 0x05, 0x06, 0x08, 0x0B, 0x0C, 0x0D, 0x0E, 0x0F, 0x11})
    ensures 0x20 < q <= 0x40 ==>
      (HasBit(SupportedMask(SupportedPids2140, IntendedOffset(0x20)), WindowBit(0x20, q)) <==> q == PidFuelAirRatio1)
    ensures 0x40 < q <= 0x60 ==>
      (HasBit(SupportedMask(SupportedPids4160, IntendedOffset(0x40)), WindowBit(0x40, q)) <==>
         q in {PidControlUnitVoltage, PidEthanol, PidFuelRate, PidOilTemperature})
  {
    TablesScanned();
    if 0x00 < q <= 0x20 {
      IntendedWindows(SupportedPids0120, 0x00, q);
    }
    if 0x20 < q <= 0x40 {
      IntendedWindows(SupportedPids2140, 0x20, q);
    }
    if 0x40 < q <= 0x60 {
      IntendedWindows(SupportedPids4160, 0x40, q);
    }
  }

  /** The intended monitor-status byte of SAE J1979: bit 7 set while a code is
      stored, bits 0-6 the number of stored codes (capped at 127). */
  function IntendedStatusByte(count: nat): (b: Byte)
    ensures b >= 0x80 <==> count > 0
    ensures b % 0x80 == Min(count, 0x7F)
  {
    (if count != 0 then 0x80 else 0x0) + Min(count, 0x7F)
  }

  /** As written, three stored codes give status byte 0x80, where the intended
      byte is 0x83: the count is lost whenever it is non-zero. */
  lemma StatusByteAsWritten()
    ensures StatusByte(3) == 0x80 && IntendedStatusByte(3) == 0x83
    ensures forall count: nat :: count > 0 ==> StatusByte(count) % 0x80 == 0
  {
    StatusByteValue(3);
    forall count: nat | count > 0
      ensures StatusByte(count) % 0x80 == 0
    {
      StatusByteValue(count);
    }
  }

  /** The two bytes agree exactly when no code is stored. */
  lemma StatusBytesAgree(count: nat)
    ensures StatusByte(count) == IntendedStatusByte(count) <==> count == 0
  {
    StatusByteValue(count);
  }
}
