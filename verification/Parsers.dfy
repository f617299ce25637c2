/** From packets to records: classification by port and the three protocol parsers. */
module Parsers {
  import opened Types
  import opened Modbus

  datatype Proto = Unknown | ModbusTcp | Dnp3 | Iec104

  const MODBUS_PORT: Word := 502
  const DNP3_PORT: Word := 20000
  const IEC104_PORT: Word := 2404

  predicate Uses(p: Packet, port: Word) {
    p.srcPort == port || p.dstPort == port
  }

  function ClassifyProtocol(p: Packet): Proto {
    if Uses(p, MODBUS_PORT) then ModbusTcp
    else if Uses(p, DNP3_PORT) then Dnp3
    else if Uses(p, IEC104_PORT) then Iec104
    else Unknown
  }

  /** A record as its default constructor leaves it; the clock's epoch is time 0. */
  const DEFAULT_RECORD := Record(0, "", true, false, 0, 0)

  function ParseModbus(packet: Packet): Record {
    var rec := DEFAULT_RECORD.(timestamp := packet.timestamp, protocol := "Modbus");
    var b := packet.payload;
    if |b| < 12 then rec.(protocol := "Unknown")
    else rec.(
           isRequest := packet.dstPort == MODBUS_PORT,
           functionCode := b[7],
           address := BigEndian(b[8], b[9]),
           isWrite := b[7] == 5 || b[7] == 6 || b[7] == 15 || b[7] == 16)
  }

  function ParseDnp3(packet: Packet): Record {
    var rec := DEFAULT_RECORD.(timestamp := packet.timestamp, protocol := "DNP3");
    var b := packet.payload;
    if packet.srcPort != DNP3_PORT && packet.dstPort != DNP3_PORT then rec
    else if |b| < 13 then rec.(protocol := "Unknown")
    else rec.(
           isRequest := b[2] / 0x40 % 2 == 1,
           functionCode := b[12],
           isWrite := b[12] == 0x02 || b[12] == 0x05 || b[12] == 0x06 || b[12] == 0x82,
           address := 0)
  }

  /** The object address is assembled from three bytes and stored in sixteen bits. */
  function ParseIec104(packet: Packet): Record {
    var b := packet.payload;
    if packet.srcPort != IEC104_PORT && packet.dstPort != IEC104_PORT then DEFAULT_RECORD
    else if |b| < 12 || b[0] != 0x68 then DEFAULT_RECORD
    else if b[6] == 0 then DEFAULT_RECORD
    else
      var objectAddress: int := (b[9] as int) + (b[10] as int) * 0x100 + (b[11] as int) * 0x1_0000;
      Record(packet.timestamp, "IEC104", b[8] == 6, 45 <= b[6] <= 50, b[6], objectAddress % 0x1_0000)
  }

  function ParseAs(proto: Proto, packet: Packet): Record {
    match proto
    case ModbusTcp => ParseModbus(packet)
    case Dnp3 => ParseDnp3(packet)
    case Iec104 => ParseIec104(packet)
    case Unknown => DEFAULT_RECORD
  }

  predicate Dropped(rec: Record) {
    rec.protocol == "" || rec.protocol == "Unknown"
  }

  /** The record a packet contributes, if the detector keeps it at all. */
  function Admit(packet: Packet): Option<Record> {
    var proto := ClassifyProtocol(packet);
    if proto == Unknown then None
    else
      var rec := ParseAs(proto, packet);
      if Dropped(rec) then None else Some(rec)
  }

  // ----- what reaches the window -----

  /** The third byte of an IEC-104 object address is lost: the record holds the first two. */
  lemma ObjectAddressTruncated(packet: Packet)
    requires Uses(packet, IEC104_PORT) && 12 <= |packet.payload|
    requires packet.payload[0] == 0x68 && packet.payload[6] != 0
    ensures ParseIec104(packet).address == BigEndian(packet.payload[10], packet.payload[9])
  {
    Low16(packet.payload[9], packet.payload[10], packet.payload[11]);
  }

  lemma Low16(x: Byte, y: Byte, z: Byte)
    ensures ((x as int) + (y as int) * 0x100 + (z as int) * 0x1_0000) % 0x1_0000 == BigEndian(y, x)
  {
  }

  /** What the detector keeps of a packet, from its ports and its payload alone. Port 502 on
      either side wins over 20000, and that over 2404; a packet on none of them, or too short
      or foreign to the protocol of its port, is dropped. */
  lemma AdmittedRecords(packet: Packet, modbus: bool, dnp3: bool, iec104: bool, b: Frame, t: Time)
    requires modbus == (packet.srcPort == 502 || packet.dstPort == 502)
    requires dnp3 == (packet.srcPort == 20000 || packet.dstPort == 20000)
    requires iec104 == (packet.srcPort == 2404 || packet.dstPort == 2404)
    requires b == packet.payload && t == packet.timestamp
    ensures modbus ==>
              Admit(packet) == if |b| < 12 then None
                               else Some(Record(t, "Modbus", packet.dstPort == 502, b[7] in {5, 6, 15, 16},
                                                b[7], 0x100 * (b[8] as int) + b[9] as int))
    ensures !modbus && dnp3 ==>
              Admit(packet) == if |b| < 13 then None
                               else Some(Record(t, "DNP3", 0x40 <= b[2] % 0x80, b[12] in {2, 5, 6, 130}, b[12], 0))
    ensures !modbus && !dnp3 && iec104 ==>
              Admit(packet) == if |b| < 12 || b[0] != 0x68 || b[6] == 0 then None
                               else Some(Record(t, "IEC104", b[8] == 6, b[6] in {45, 46, 47, 48, 49, 50},
                                                b[6], b[9] as int + 0x100 * (b[10] as int)))
    ensures !modbus && !dnp3 && !iec104 ==> Admit(packet) == None
  {
    if !modbus && !dnp3 && iec104 && 12 <= |b| && b[0] == 0x68 && b[6] != 0 {
      ObjectAddressTruncated(packet);
    }
    assert "Modbus"[0] == 'M' && "DNP3"[0] == 'D' && "IEC104"[0] == 'I' && "Unknown"[0] == 'U';
  }

  /** The port and length facts of `AdmittedRecords` for a Modbus packet. */
  lemma ModbusRecord(packet: Packet)
    requires packet.srcPort == 502 || packet.dstPort == 502
    ensures Admit(packet).Some? <==> 12 <= |packet.payload|
    ensures 12 <= |packet.payload| ==> Admit(packet).value == ParseModbus(packet)
  {
    assert "Modbus"[0] == 'M' && "Unknown"[0] == 'U';
  }

  /** The detector reads the same function and address out of a Modbus frame as the PLC
      does, and agrees with it on what is a write. */
  lemma DetectorReadsFrames(packet: Packet)
    requires (packet.srcPort == 502 || packet.dstPort == 502) && 12 <= |packet.payload|
    ensures Admit(packet).Some?
    ensures var (r, p) := (Admit(packet).value, PduOf(packet.payload));
            r.functionCode == p.code && r.address == p.address && (r.isWrite <==> IsWriteCode(p.code))
  {
    ModbusRecord(packet);
  }

  /** Every exception response is dropped, on whatever port it travels as Modbus. */
  lemma ExceptionsAreDropped(packet: Packet, code: Byte, exception: Byte)
    requires packet.srcPort == 502 || packet.dstPort == 502
    requires packet.payload == ExceptionOf(code, exception)
    ensures Admit(packet) == None
  {
    ModbusRecord(packet);
  }
}
