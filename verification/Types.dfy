/** The values that flow through the detector: packets, parsed records, windows,
    scores and decisions. Time is an unbounded number of nanoseconds. */
module Types {
  type Byte = x: int | 0 <= x < 0x100
  type Word = x: int | 0 <= x < 0x1_0000
  type Frame = seq<Byte>
  type Time = int

  datatype Option<+T> = None | Some(value: T)

  datatype Packet = Packet(
    timestamp: Time,
    payload: Frame,
    srcIp: string,
    dstIp: string,
    srcPort: Word,
    dstPort: Word)

  datatype Record = Record(
    timestamp: Time,
    protocol: string,
    isRequest: bool,
    isWrite: bool,
    functionCode: Byte,
    address: Word)

  datatype Window = Window(startTime: Time, endTime: Time, records: seq<Record>)

  datatype FeatureVector = FeatureVector(values: seq<real>)

  datatype Detection = Detection(hstScore: real, burstScore: real)

  datatype RiskLevel = Low | Medium | High

  datatype Decision = Decision(
    level: RiskLevel,
    escalate: bool,
    restrictWrites: bool,
    probability: real)
}
