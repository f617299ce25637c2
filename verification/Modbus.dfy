/** Modbus TCP framing as the simulator, its client and the enforcer each write it.
    Layout: section 3.1.3 of the MODBUS Messaging on TCP/IP Implementation Guide V1.0b
    and sections 6.5 and 7 of the MODBUS Application Protocol Specification V1.1b3. */
module Modbus {
  import opened Types

  datatype Pdu = Pdu(code: Byte, address: Word, value: Word)

  const BLANK := Pdu(0, 0, 0)
  const WRITE_SINGLE_COIL: Byte := 5
  const SAFETY_COIL: Word := 0xFFFF
  const COIL_ON: Word := 0xFF00
  const COIL_OFF: Word := 0x0000
  const ILLEGAL_FUNCTION: Byte := 1

  function HighByte(w: Word): Byte {
    w / 0x100
  }

  function LowByte(w: Word): Byte {
    w % 0x100
  }

  /** Two bytes, most significant first. */
  function BigEndian(hi: Byte, lo: Byte): Word {
    hi * 0x100 + lo
  }

  function SetHighBit(b: Byte): Byte {
    if b < 0x80 then b + 0x80 else b
  }

  function FrameOf(p: Pdu): Frame {
    [0, 1, 0, 0, 0, 6, 1, p.code, HighByte(p.address), LowByte(p.address), HighByte(p.value), LowByte(p.value)]
  }

  function ExceptionOf(code: Byte, exception: Byte): Frame {
    [0, 1, 0, 0, 0, 3, 1, SetHighBit(code), exception]
  }

  function PduOf(b: Frame): Pdu {
    if |b| < 12 then BLANK
    else Pdu(b[7], BigEndian(b[8], b[9]), BigEndian(b[10], b[11]))
  }

  predicate IsWriteCode(code: Byte) {
    code == 5 || code == 6 || code == 15 || code == 16
  }

  // ----- the encoders and the decoder, filling buffers slot by slot -----

  method EncodeMbapPdu(p: Pdu) returns (frame: Frame)
    ensures frame == FrameOf(p)
  {
    var buf := new Byte[12];
    buf[0], buf[1] := 0x00, 0x01;
    buf[2], buf[3] := 0x00, 0x00;
    buf[4], buf[5] := 0x00, 0x06;
    buf[6] := 0x01;
    buf[7] := p.code;
    buf[8] := HighByte(p.address);
    buf[9] := LowByte(p.address);
    buf[10] := HighByte(p.value);
    buf[11] := LowByte(p.value);
    frame := buf[..];
  }

  method EncodeException(code: Byte, exception: Byte) returns (frame: Frame)
    ensures frame == ExceptionOf(code, exception)
  {
    var buf := new Byte[9];
    buf[0], buf[1] := 0x00, 0x01;
    buf[2], buf[3] := 0x00, 0x00;
    buf[4], buf[5] := 0x00, 0x03;
    buf[6] := 0x01;
    buf[7] := SetHighBit(code);
    buf[8] := exception;
    frame := buf[..];
  }

  method DecodeMbapPdu(b: Frame) returns (p: Pdu)
    ensures p == PduOf(b)
  {
    p := BLANK;
    if |b| < 12 {
      return;
    }
    p := p.(code := b[7]);
    p := p.(address := BigEndian(b[8], b[9]));
    p := p.(value := BigEndian(b[10], b[11]));
  }

  /** The client's own request type carries the whole header. */
  datatype ClientPdu = ClientPdu(
    transaction: Word,
    protocol: Word,
    length: Word,
    unit: Byte,
    code: Byte,
    address: Word,
    value: Word)

  function Request(code: Byte, address: Word, value: Word): ClientPdu {
    ClientPdu(1, 0, 6, 1, code, address, value)
  }

  function ClientFrameOf(p: ClientPdu): Frame {
    [HighByte(p.transaction), LowByte(p.transaction), HighByte(p.protocol), LowByte(p.protocol),
     HighByte(p.length), LowByte(p.length),
     p.unit, p.code, HighByte(p.address), LowByte(p.address), HighByte(p.value), LowByte(p.value)]
  }

  method EncodeClientPdu(p: ClientPdu) returns (frame: Frame)
    ensures frame == ClientFrameOf(p)
  {
    var b := new Byte[12];
    b[0], b[1] := HighByte(p.transaction), LowByte(p.transaction);
    b[2], b[3] := HighByte(p.protocol), LowByte(p.protocol);
    b[4], b[5] := HighByte(p.length), LowByte(p.length);
    b[6] := p.unit;
    b[7] := p.code;
    b[8], b[9] := HighByte(p.address), LowByte(p.address);
    b[10], b[11] := HighByte(p.value), LowByte(p.value);
    frame := b[..];
  }

  // ----- agreement -----

  lemma BytesOfWord(w: Word)
    ensures BigEndian(HighByte(w), LowByte(w)) == w
  {
  }

  lemma WordOfBytes(hi: Byte, lo: Byte)
    ensures HighByte(BigEndian(hi, lo)) == hi && LowByte(BigEndian(hi, lo)) == lo
  {
  }

  /** Decoding inverts encoding. */
  lemma DecodeInvertsEncode(p: Pdu)
    ensures |FrameOf(p)| == 12 && PduOf(FrameOf(p)) == p
  {
    BytesOfWord(p.address);
    BytesOfWord(p.value);
  }

  /** The PLC recovers a client's request whatever header the client puts in front of it, and
      that header is on the wire in front of it. */
  lemma DecodeInvertsClient(c: ClientPdu)
    ensures PduOf(ClientFrameOf(c)) == Pdu(c.code, c.address, c.value)
    ensures var f := ClientFrameOf(c);
            && BigEndian(f[0], f[1]) == c.transaction && BigEndian(f[2], f[3]) == c.protocol
            && BigEndian(f[4], f[5]) == c.length && f[6] == c.unit
  {
    BytesOfWord(c.transaction);
    BytesOfWord(c.protocol);
    BytesOfWord(c.length);
    BytesOfWord(c.address);
    BytesOfWord(c.value);
  }

  /** In every frame the length field counts the bytes that follow it, and an exception carries
      the code of the request with its high bit set. */
  lemma LengthField(p: Pdu, exception: Byte)
    ensures var (f, e) := (FrameOf(p), ExceptionOf(p.code, exception));
            && 6 + BigEndian(f[4], f[5]) == |f| && 6 + BigEndian(e[4], e[5]) == |e|
            && 0x80 <= e[7] && e[7] % 0x80 == p.code % 0x80 && e[8] == exception
  {
  }

  const HEADER: Frame := [0, 1, 0, 0, 0, 6, 1]

  lemma PayloadKept(b: Frame)
    requires 12 <= |b|
    ensures FrameOf(PduOf(b)) == HEADER + [b[7], b[8], b[9], b[10], b[11]]
  {
    WordOfBytes(b[8], b[9]);
    WordOfBytes(b[10], b[11]);
  }

  /** Encoding after decoding keeps the five payload bytes and replaces the header; so a
      frame survives exactly when it is 12 bytes long and has the standard header. */
  lemma EncodeNormalises(b: Frame)
    requires 12 <= |b|
    ensures FrameOf(PduOf(b)) == HEADER + b[7..12]
    ensures FrameOf(PduOf(b)) == b <==> |b| == 12 && b[..7] == HEADER
  {
    PayloadKept(b);
    assert b[7..12] == [b[7], b[8], b[9], b[10], b[11]];
    Reassembled(b);
  }

  lemma Reassembled(b: Frame)
    requires 12 <= |b|
    ensures HEADER + b[7..12] == b <==> |b| == 12 && b[..7] == HEADER
  {
    assert (HEADER + b[7..12])[..7] == HEADER;
    if |b| == 12 {
      assert b == b[..7] + b[7..12];
    }
  }

  /** Normalising twice changes nothing more. */
  lemma EncodeIdempotent(b: Frame)
    ensures FrameOf(PduOf(FrameOf(PduOf(b)))) == FrameOf(PduOf(b))
  {
    DecodeInvertsEncode(PduOf(b));
  }

  /** Only the first twelve bytes count, and fewer than twelve say nothing. */
  lemma DecodePrefix(b: Frame, n: nat)
    requires n <= |b|
    ensures PduOf(b[..n]) == if n < 12 then BLANK else PduOf(b)
  {
  }

  /** A default client request is the shared encoder's frame. */
  lemma ClientAgrees(code: Byte, address: Word, value: Word)
    ensures ClientFrameOf(Request(code, address, value)) == FrameOf(Pdu(code, address, value))
  {
  }
}
