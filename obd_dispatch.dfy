/// Request handling of the OBD-II responder: service $01 current data
/// (`handleGetDataRequest`) and the receive-side dispatcher (`obdOnCanPacketRx`).
///
/// The sensor, engine and fault-code accessors the firmware calls are replaced by
/// their values at the moment of the request: a `Readings` record and a
/// `FaultCodes` snapshot. Whether the trip-odometer module is built in
/// (`MODULE_TRIP_ODO`) is the parameter `tripOdometer`.
module ObdDispatch {
  import opened Wire
  import opened ObdIds
  import opened ObdPacket
  import opened ObdSupported
  import opened ObdDtc

  /** The quantities service $01 reports, as the firmware reads them; a sensor with
      no valid reading reads as zero (`Sensor::getOrZero`). Load, throttle and
      ethanol are percentages, temperatures deg C, `manifoldPressure` kPa,
      `vehicleSpeed` km/h, `maf` and `gramPerSecond` g/s, `batteryVoltage` volts;
      `timingAdvance` is cylinder 1's timing in degrees of a 720-degree cycle and
      `stftBank1`, `stftBank2` are the short-term fuel trim corrections. */
  datatype Readings = Readings(
    fuelingLoad: real, clt: real, stftBank1: real, stftBank2: real,
    manifoldPressure: real, rpm: real, vehicleSpeed: real, timingAdvance: real,
    iat: real, maf: real, tps1: real, lambda1: real, gramPerSecond: real,
    batteryVoltage: real, ethanolPercent: real, oilTemperature: real)

  /** How `handleGetDataRequest` encodes a PID through `obdSendValue`: its width and
      its unrounded value, or not at all. */
  datatype Encoded = Encoded(numBytes: nat, value: real) | NotEncoded

  /** The error store's snapshot (`error_codes_set_s`): a count and the stored codes. */
  datatype FaultCodes = FaultCodes(count: int, codes: seq<Dtc>)

  /** One percent of throttle or load in the units of a one-byte percentage PID
      (`ODB_TPS_BYTE_PERCENT`, 255/100). */
  const TpsBytePercent: real := 2.55
  /** Offset of the temperature PIDs, whose byte reads `A - 40` (`ODB_TEMP_EXTRA`). */
  const TempExtra: real := 40.0
  /** Scale of the RPM PID, which reads `(256A + B) / 4` (`ODB_RPM_MULT`). */
  const RpmMult: real := 4.0

  /** The ignition timing PID: the advance folded into -360..360, then `(a + 64) * 2`. */
  function TimingValue(advance: real): real {
    var timing := if advance > 360.0 then advance - 720.0 else advance;
    (timing + 64.0) * 2.0
  }

  /** The fuel rate PID: grams per second to litres per hour, in units of 1/20 L/h. */
  function FuelRateValue(gramPerSecond: real): real {
    gramPerSecond * 3600.0 * 0.00139 * 20.0
  }

  /** Width and unrounded value of every PID answered through `obdSendValue`;
      `NotEncoded` for the PIDs answered otherwise and for the unhandled ones. */
  function Encoding(pid: Byte, r: Readings, tripOdometer: bool): Encoded {
    if pid == PidFuelSystemStatus then Encoded(2, ((2 * 256) + 0) as real)
    else if pid == PidEngineLoad then Encoded(1, r.fuelingLoad * TpsBytePercent)
    else if pid == PidCoolantTemp then Encoded(1, r.clt + TempExtra)
    else if pid == PidStftBank1 then Encoded(1, 128.0 * r.stftBank1)
    else if pid == PidStftBank2 then Encoded(1, 128.0 * r.stftBank2)
    else if pid == PidIntakeMap then Encoded(1, r.manifoldPressure)
    else if pid == PidRpm then Encoded(2, r.rpm * RpmMult)
    else if pid == PidSpeed then Encoded(1, r.vehicleSpeed)
    else if pid == PidTimingAdvance then Encoded(1, TimingValue(r.timingAdvance))
    else if pid == PidIntakeTemp then Encoded(1, r.iat + TempExtra)
    else if pid == PidIntakeMaf then Encoded(2, r.maf * 100.0)
    else if pid == PidThrottle then Encoded(1, r.tps1 * TpsBytePercent)
    else if pid == PidFuelRate && tripOdometer then Encoded(2, FuelRateValue(r.gramPerSecond))
    else if pid == PidControlUnitVoltage then Encoded(2, 1000.0 * r.batteryVoltage)
    else if pid == PidEthanol then Encoded(1, (255.0 / 100.0) * r.ethanolPercent)
    else if pid == PidOilTemperature then Encoded(1, r.oilTemperature + TempExtra)
    else NotEncoded
  }

  /** `clampF(lo, x, hi)`. */
  function ClampF(lo: real, x: real, hi: real): real {
    if x < lo then lo else if x > hi then hi else x
  }

  /** The fuel-air ratio PID's `uint16_t scaled = lambda * 32768`, with lambda first
      clamped to 0..1.99; the conversion truncates, which for a non-negative value
      is the floor. */
  function FuelAirScaled(lambdaReading: real): (s: int)
    ensures 0 <= s < 0x1_0000
  {
    (ClampF(0.0, lambdaReading, 1.99) * 32768.0).Floor
  }

  /** The fuel-air ratio frame: `scaled << 16` sent in four bytes. */
  function FuelAirFrame(pid: Byte, lambdaReading: real): Frame {
    PacketFrame(1, pid, 4, FuelAirScaled(lambdaReading) * 0x1_0000)
  }

  /** The frames `handleGetDataRequest` sends for a request of declared length
      `length` asking for `pid`. */
  function GetDataResponse(length: Byte, pid: Byte, r: Readings, count: int, tripOdometer: bool): seq<Frame> {
    TablesScannable();
    if length != 2 then []
    else if pid == PidSupportedPids0120 then [SupportedFrame(pid, 1, SupportedPids0120)]
    else if pid == PidSupportedPids2140 then [SupportedFrame(pid, 21, SupportedPids2140)]
    else if pid == PidSupportedPids4160 then [SupportedFrame(pid, 41, SupportedPids4160)]
    else if pid == PidMonitorStatus then [StatusFrame(pid, count)]
    else if pid == PidFuelAirRatio1 then [FuelAirFrame(pid, r.lambda1)]
    else EncodedFrames(pid, r, tripOdometer)
  }

  /** The frames of the PIDs answered through `obdSendValue`; none for a PID
      without an encoding. */
  function EncodedFrames(pid: Byte, r: Readings, tripOdometer: bool): seq<Frame> {
    match Encoding(pid, r, tripOdometer)
    case Encoded(numBytes, value) => ValueFrames(1, pid, numBytes, value)
    case NotEncoded => []
  }

  /** `handleGetDataRequest`: ignores a request whose declared length is not 2
      (service and PID), then answers the PID in byte 2 of the request. */
  method HandleGetDataRequest(length: Byte, data: Payload, r: Readings, count: int, tripOdometer: bool)
    returns (sent: seq<Frame>)
    ensures sent == GetDataResponse(length, data[2], r, count, tripOdometer)
  {
    if length != 2 {
      return [];
    }
    var pid := data[2];
    TablesScannable();
    if pid == PidSupportedPids0120 {
      var f := ObdWriteSupportedPids(pid, 1, SupportedPids0120);
      sent := [f];
    } else if pid == PidSupportedPids2140 {
      var f := ObdWriteSupportedPids(pid, 21, SupportedPids2140);
      sent := [f];
    } else if pid == PidSupportedPids4160 {
      var f := ObdWriteSupportedPids(pid, 41, SupportedPids4160);
      sent := [f];
    } else if pid == PidMonitorStatus {
      var f := ObdStatusQuery(pid, count);
      sent := [f];
    } else if pid == PidFuelAirRatio1 {
      var clamped := ClampF(0.0, r.lambda1, 1.99);
      var scaled := (clamped * 32768.0).Floor;
      var f := ObdSendPacket(1, pid, 4, scaled * 0x1_0000);
      sent := [f];
    } else {
      sent := SendEncodedValue(pid, r, tripOdometer);
    }
  }

  /** The `obdSendValue` cases of `handleGetDataRequest`'s switch: each PID's
      reading scaled into its width. */
  method SendEncodedValue(pid: Byte, r: Readings, tripOdometer: bool) returns (sent: seq<Frame>)
    ensures sent == EncodedFrames(pid, r, tripOdometer)
  {
    var fatal: bool;
    if pid == PidFuelSystemStatus {
      sent, fatal := ObdSendValue(1, pid, 2, ((2 * 256) + 0) as real);
    } else if pid == PidEngineLoad {
      sent, fatal := ObdSendValue(1, pid, 1, r.fuelingLoad * TpsBytePercent);
    } else if pid == PidCoolantTemp {
      sent, fatal := ObdSendValue(1, pid, 1, r.clt + TempExtra);
    } else if pid == PidStftBank1 {
      sent, fatal := ObdSendValue(1, pid, 1, 128.0 * r.stftBank1);
    } else if pid == PidStftBank2 {
      sent, fatal := ObdSendValue(1, pid, 1, 128.0 * r.stftBank2);
    } else if pid == PidIntakeMap {
      sent, fatal := ObdSendValue(1, pid, 1, r.manifoldPressure);
    } else if pid == PidRpm {
      sent, fatal := ObdSendValue(1, pid, 2, r.rpm * RpmMult);
    } else if pid == PidSpeed {
      sent, fatal := ObdSendValue(1, pid, 1, r.vehicleSpeed);
    } else if pid == PidTimingAdvance {
      var timing := r.timingAdvance;
      timing := if timing > 360.0 then timing - 720.0 else timing;
      sent, fatal := ObdSendValue(1, pid, 1, (timing + 64.0) * 2.0);
    } else if pid == PidIntakeTemp {
      sent, fatal := ObdSendValue(1, pid, 1, r.iat + TempExtra);
    } else if pid == PidIntakeMaf {
      sent, fatal := ObdSendValue(1, pid, 2, r.maf * 100.0);
    } else if pid == PidThrottle {
      sent, fatal := ObdSendValue(1, pid, 1, r.tps1 * TpsBytePercent);
    } else if pid == PidFuelRate && tripOdometer {
      var gPerHour := r.gramPerSecond * 3600.0;
      var literPerHour := gPerHour * 0.00139;
      sent, fatal := ObdSendValue(1, pid, 2, literPerHour * 20.0);
    } else if pid == PidControlUnitVoltage {
      sent, fatal := ObdSendValue(1, pid, 2, 1000.0 * r.batteryVoltage);
    } else if pid == PidEthanol {
      sent, fatal := ObdSendValue(1, pid, 1, (255.0 / 100.0) * r.ethanolPercent);
    } else if pid == PidOilTemperature {
      sent, fatal := ObdSendValue(1, pid, 1, r.oilTemperature + TempExtra);
    } else {
      sent := [];
    }
  }

  /** The service $01 PIDs the responder answers: the fuel rate only when the
      trip odometer is built in. */
  predicate Handled(pid: Byte, tripOdometer: bool) {
    pid in {0x00, 0x01, 0x03, 0x04, 0x05, 0x06, 0x08, 0x0B, 0x0C, 0x0D, 0x0E, 0x0F, 0x10, 0x11, 0x20, 0x24, 0x40, 0x42, 0x52, 0x5C}
    || (pid == 0x5E && tripOdometer)
  }

  /** Current-data gate: a declared length other than 2 or an unhandled PID gets no
      answer, and a handled PID exactly one frame. */
  lemma CurrentDataGate(length: Byte, pid: Byte, r: Readings, count: int, tripOdometer: bool)
    ensures var sent := GetDataResponse(length, pid, r, count, tripOdometer);
      && (length != 2 ==> sent == [])
      && (length == 2 ==> (|sent| == 1 <==> Handled(pid, tripOdometer)))
      && |sent| <= 1
  {
    TablesScannable();
  }

  /** A current-data answer is a service $01 frame from the response id whose byte 2
      echoes the PID asked for; it carries eight bytes, except the monitor-status
      answer, which carries seven. */
  lemma CurrentDataEcho(length: Byte, pid: Byte, r: Readings, count: int, tripOdometer: bool)
    ensures var sent := GetDataResponse(length, pid, r, count, tripOdometer);
      forall f :: f in sent ==>
        && f.id == ObdTestResponse && |f.data| == 8 && f.data[1] == 0x41 && f.data[2] == pid
        && f.dlc == (if pid == PidMonitorStatus then 7 else 8)
  {
    TablesScannable();
    var sent := GetDataResponse(length, pid, r, count, tripOdometer);
    if length == 2 {
      if pid == PidSupportedPids0120 {
        PacketEcho(pid, 4, SupportedMask(SupportedPids0120, 1));
      } else if pid == PidSupportedPids2140 {
        PacketEcho(pid, 4, SupportedMask(SupportedPids2140, 21));
      } else if pid == PidSupportedPids4160 {
        PacketEcho(pid, 4, SupportedMask(SupportedPids4160, 41));
      } else if pid == PidMonitorStatus {
        assert sent == [StatusFrame(pid, count)];
      } else if pid == PidFuelAirRatio1 {
        PacketEcho(pid, 4, FuelAirScaled(r.lambda1) * 0x1_0000);
      } else {
        assert sent == EncodedFrames(pid, r, tripOdometer);
        EncodedEcho(pid, r, tripOdometer);
      }
    }
  }

  /** Every frame `obdSendValue` sends for an encoded PID is an eight-byte frame that
      echoes service $01 and the PID. */
  lemma EncodedEcho(pid: Byte, r: Readings, tripOdometer: bool)
    ensures forall f :: f in EncodedFrames(pid, r, tripOdometer) ==>
      && f.id == ObdTestResponse && f.dlc == 8 && |f.data| == 8 && f.data[1] == 0x41 && f.data[2] == pid
  {
    match Encoding(pid, r, tripOdometer)
    case Encoded(numBytes, value) =>
      EncoderPayload(1, pid, numBytes, value);
    case NotEncoded =>
  }

  /** Without the trip odometer the fuel rate PID, though listed in the 0x41-0x60
      table, gets no answer. */
  lemma FuelRateNeedsTripOdometer(r: Readings, count: int)
    ensures GetDataResponse(2, PidFuelRate, r, count, false) == []
    ensures PidFuelRate in SupportedPids4160
  {
    CurrentDataGate(2, PidFuelRate, r, count, false);
  }

  /** Every PID the 0x01-0x20 table lists is answered; mass air flow (0x10) is
      answered but not listed. */
  lemma LowWindowAnswered(tripOdometer: bool)
    ensures forall q :: q in SupportedPids0120 && q > 0 ==> 0 <= q < 256 && Handled(q as Byte, tripOdometer)
    ensures Handled(PidIntakeMaf, tripOdometer) && PidIntakeMaf !in SupportedPids0120
  {
  }

  /** Fuel-air ratio frame: declared length 6, then `scaled` in bytes 3-4, most
      significant first, and zero in bytes 5-6, where `scaled` is the clamped
      lambda times 32768, truncated. */
  lemma FuelAirLayout(pid: Byte, lambdaReading: real)
    ensures var d := FuelAirFrame(pid, lambdaReading).data;
      var s := FuelAirScaled(lambdaReading);
      && |d| == 8 && d[0] == 6 && d[1] == 0x41 && d[2] == pid
      && d[3] == s / 256 && d[4] == s % 256
      && d[5] == 0 && d[6] == 0
      && s as real <= ClampF(0.0, lambdaReading, 1.99) * 32768.0 < s as real + 1.0
  {
    var s := FuelAirScaled(lambdaReading);
    PacketLayout(1, pid, 4, s * 0x1_0000);
    ShiftedBytes(s);
  }

  /** The bytes of `s << 16` for a sixteen-bit `s`: `s` in bytes 3 and 2, zero below. */
  lemma ShiftedBytes(s: int)
    requires 0 <= s < 0x1_0000
    ensures ByteAt(s * 0x1_0000, 0) == 0 && ByteAt(s * 0x1_0000, 1) == 0
    ensures ByteAt(s * 0x1_0000, 2) == s % 256 && ByteAt(s * 0x1_0000, 3) == s / 256
  {
    var v := s * 0x1_0000;
    assert v / 256 == s * 256;
    assert v / 256 / 256 == s;
    assert ByteAt(v, 1) == ByteAt(s * 256, 0);
    assert ByteAt(v, 2) == ByteAt(s * 256, 1) == ByteAt(s, 0);
    assert ByteAt(v, 3) == ByteAt(s * 256, 2) == ByteAt(s, 1) == ByteAt(s / 256, 0);
  }

  /** The frames `obdOnCanPacketRx` sends for a received frame with identifier `id`
      and payload `data` (declared length in byte 0, service in byte 1). */
  function RxResponse(id: int, data: Payload, r: Readings, faults: FaultCodes, tripOdometer: bool): seq<Frame>
    requires Written(faults.count) <= |faults.codes|
  {
    if id != ObdTestRequest then []
    else if data[1] == ObdCurrentData then GetDataResponse(data[0], data[2], r, faults.count, tripOdometer)
    else if data[1] == ObdStoredDtc then [DtcFrame(data[1], faults.count, faults.codes)]
    else if data[1] == ObdPendingDtc || data[1] == ObdPermanentDtc then [DtcFrame(data[1], 0, [])]
    else []
  }

  /** `obdOnCanPacketRx`: ignores every identifier but the functional request id,
      then dispatches on the service in byte 1. */
  method ObdOnCanPacketRx(id: int, data: Payload, r: Readings, faults: FaultCodes, tripOdometer: bool)
    returns (sent: seq<Frame>)
    requires Written(faults.count) <= |faults.codes|
    ensures sent == RxResponse(id, data, r, faults, tripOdometer)
  {
    if id != ObdTestRequest {
      return [];
    }
    var length := data[0];
    var service := data[1];
    if service == ObdCurrentData {
      sent := HandleGetDataRequest(length, data, r, faults.count, tripOdometer);
    } else if service == ObdStoredDtc {
      var f := HandleDtcRequest(service, faults.count, faults.codes);
      sent := [f];
    } else if service == ObdPendingDtc || service == ObdPermanentDtc {
      var f := HandleDtcRequest(service, 0, []);
      sent := [f];
    } else {
      sent := [];
    }
  }

  /** Dispatch: a frame with another identifier, or with a service other than $01,
      $03, $07 and $0A, gets no answer; pending and permanent codes are answered with an
      empty code list; stored codes are answered with the snapshot's first two codes,
      which a scan tool reads back exactly. */
  lemma DispatchRules(id: int, data: Payload, r: Readings, faults: FaultCodes, tripOdometer: bool)
    requires Written(faults.count) <= |faults.codes|
    ensures var sent := RxResponse(id, data, r, faults, tripOdometer);
      && |sent| <= 1
      && (id != ObdTestRequest ==> sent == [])
      && (id == ObdTestRequest && data[1] !in {ObdCurrentData, ObdStoredDtc, ObdPendingDtc, ObdPermanentDtc} ==> sent == [])
      && (id == ObdTestRequest && (data[1] == ObdPendingDtc || data[1] == ObdPermanentDtc) ==>
            sent == [Frame(ObdTestResponse, 8, [2, 0x40 + data[1], 0, 0, 0, 0, 0, 0])])
      && (id == ObdTestRequest && data[1] == ObdStoredDtc && faults.count >= 0 ==>
            |sent| == 1 && sent[0].id == ObdTestResponse
            && ParseDtcs(sent[0].data) == faults.codes[..Written(faults.count)])
  {
    CurrentDataGate(data[0], data[2], r, faults.count, tripOdometer);
    if id == ObdTestRequest {
      if data[1] == ObdPendingDtc || data[1] == ObdPermanentDtc {
        NoCodesExample(data[1]);
      } else if data[1] == ObdStoredDtc && faults.count >= 0 {
        DtcRoundTrip(data[1], faults.count, faults.codes);
      }
    }
  }

  /** Only service $01 looks at the declared length: for any other service the
      answer does not depend on byte 0. */
  lemma LengthOnlyForCurrentData(id: int, data: Payload, length: Byte, r: Readings, faults: FaultCodes, tripOdometer: bool)
    requires Written(faults.count) <= |faults.codes|
    ensures data[1] != ObdCurrentData ==>
      RxResponse(id, data[0 := length], r, faults, tripOdometer) == RxResponse(id, data, r, faults, tripOdometer)
    ensures data[1] == ObdCurrentData && id == ObdTestRequest && length != 2 ==>
      RxResponse(id, data[0 := length], r, faults, tripOdometer) == []
  {
  }

  /** Coolant at -40, 190 and 300 deg C reads 0, 230 and 255 (saturated). */
  lemma CoolantExamples(r: Readings)
    ensures r.clt == -40.0 ==> GetDataResponse(2, PidCoolantTemp, r, 0, false)[0].data[3] == 0
    ensures r.clt == 190.0 ==> GetDataResponse(2, PidCoolantTemp, r, 0, false)[0].data[3] == 230
    ensures r.clt == 300.0 ==> GetDataResponse(2, PidCoolantTemp, r, 0, false)[0].data[3] == 255
  {
    var c := Clamp(Round(r.clt + TempExtra), 1);
    assert GetDataResponse(2, PidCoolantTemp, r, 0, false) == [PacketFrame(1, PidCoolantTemp, 1, c)];
    PacketLayout(1, PidCoolantTemp, 1, c);
  }

  /** 2000 rpm is sent as 8000 = 0x1F40. */
  lemma RpmExample(r: Readings)
    requires r.rpm == 2000.0
    ensures GetDataResponse(2, PidRpm, r, 0, false)[0].data[3..5] == [0x1F, 0x40]
  {
    assert Round(8000.0) == 8000;
    assert GetDataResponse(2, PidRpm, r, 0, false) == [PacketFrame(1, PidRpm, 2, 8000)];
    PacketLayout(1, PidRpm, 2, 8000);
    assert ByteAt(8000, 1) == ByteAt(31, 0) == 0x1F;
  }

  /** A wide-open throttle reads 255. */
  lemma ThrottleExample(r: Readings)
    requires r.tps1 == 100.0
    ensures GetDataResponse(2, PidThrottle, r, 0, false)[0].data[3] == 255
  {
    assert Round(255.0) == 255;
    assert GetDataResponse(2, PidThrottle, r, 0, false) == [PacketFrame(1, PidThrottle, 1, 255)];
    PacketLayout(1, PidThrottle, 1, 255);
  }
}
