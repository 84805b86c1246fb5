/// Identifiers of the OBD-II responder: CAN arbitration ids, service numbers,
/// parameter ids (PIDs) and the three supported-PID tables. The numeric values
/// are those of SAE J1979 and ISO 15765-4; the responder's header obd2.h, which
/// defines them in the firmware, is not part of this model.
module ObdIds {
  import opened Wire

  /** 11-bit functional request id a scan tool broadcasts to (ISO 15765-4). */
  const ObdTestRequest: int := 0x7DF
  /** 11-bit id of the first ECU's physical response (ISO 15765-4). */
  const ObdTestResponse: int := 0x7E8

  // Services (SAE J1979)
  const ObdCurrentData: Byte := 0x01
  const ObdStoredDtc: Byte := 0x03
  const ObdPendingDtc: Byte := 0x07
  const ObdPermanentDtc: Byte := 0x0A

  // Service $01 PIDs (SAE J1979)
  const PidSupportedPids0120: Byte := 0x00
  const PidMonitorStatus: Byte := 0x01
  const PidFuelSystemStatus: Byte := 0x03
  const PidEngineLoad: Byte := 0x04
  const PidCoolantTemp: Byte := 0x05
  const PidStftBank1: Byte := 0x06
  const PidStftBank2: Byte := 0x08
  const PidIntakeMap: Byte := 0x0B
  const PidRpm: Byte := 0x0C
  const PidSpeed: Byte := 0x0D
  const PidTimingAdvance: Byte := 0x0E
  const PidIntakeTemp: Byte := 0x0F
  const PidIntakeMaf: Byte := 0x10
  const PidThrottle: Byte := 0x11
  const PidSupportedPids2140: Byte := 0x20
  const PidFuelAirRatio1: Byte := 0x24
  const PidSupportedPids4160: Byte := 0x40
  const PidControlUnitVoltage: Byte := 0x42
  const PidEthanol: Byte := 0x52
  const PidOilTemperature: Byte := 0x5C
  const PidFuelRate: Byte := 0x5E

  /** Sentinel that ends every supported-PID table (`int16_t` -1). */
  const TableEnd: int := -1

  /** PIDs advertised in the 0x01-0x20 window, sentinel-terminated. */
  const SupportedPids0120: seq<int> := [
    0x01, // PidMonitorStatus
    0x03, // PidFuelSystemStatus
    0x04, // PidEngineLoad
    0x05, // PidCoolantTemp
    0x06, // PidStftBank1
    0x08, // PidStftBank2
    0x0B, // PidIntakeMap
    0x0C, // PidRpm
    0x0D, // PidSpeed
    0x0E, // PidTimingAdvance
    0x0F, // PidIntakeTemp
    0x11, // PidThrottle
    TableEnd
  ]

  /** PIDs advertised in the 0x21-0x40 window, sentinel-terminated. */
  const SupportedPids2140: seq<int> := [
    0x24, // PidFuelAirRatio1
    TableEnd
  ]

  /** PIDs advertised in the 0x41-0x60 window, sentinel-terminated. */
  const SupportedPids4160: seq<int> := [
    0x42, // PidControlUnitVoltage
    0x52, // PidEthanol
    0x5E, // PidFuelRate
    0x5C, // PidOilTemperature
    TableEnd
  ]
}
