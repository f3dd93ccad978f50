/** Modbus RTU framing used by the Solark RS485 client: the CRC-16 of
    section 6.2.2 of "Modbus over Serial Line V1.02" (initial value 0xFFFF,
    reflected polynomial 0xA001, low byte transmitted first), and the
    Read Holding Registers (function 0x03) request and response PDUs of
    section 6.3 of the "Modbus Application Protocol Specification V1.1b3". */
module ModbusRtu {
  import opened Base

  const ReadHoldingRegisters: byte := 0x03

  /** One iteration of the shift-and-xor loop of the CRC-16 algorithm. */
  function CrcStep(crc: bv16): bv16
  {
    if crc & 1 == 1 then (crc >> 1) ^ 0xA001 else crc >> 1
  }

  /** One byte folded into the running CRC: eight rounds of the loop. */
  function CrcByte(crc: bv16, b: byte): bv16
  {
    var c := crc ^ (b as bv16);
    CrcStep(CrcStep(CrcStep(CrcStep(CrcStep(CrcStep(CrcStep(CrcStep(c))))))))
  }

  /** The CRC-16 of a byte string. */
  function Crc16(data: seq<byte>): bv16
  {
    if |data| == 0 then 0xFFFF else CrcByte(Crc16(data[..|data| - 1]), data[|data| - 1])
  }

  /** The CRC of a string extended by one byte folds that byte into the
      CRC of the string. */
  lemma Crc16Snoc(m: seq<byte>, b: byte)
    ensures Crc16(m + [b]) == CrcByte(Crc16(m), b)
  {
    assert (m + [b])[..|m|] == m;
  }

  function CrcLow(c: bv16): byte
  {
    (c as int) % 0x100
  }

  function CrcHigh(c: bv16): byte
  {
    (c as int) / 0x100
  }

  /** A frame whose last two bytes are the CRC (low byte first) of everything before them. */
  predicate ValidCrc(frame: seq<byte>)
  {
    && |frame| >= 2
    && var body := frame[..|frame| - 2];
    && frame[|frame| - 2] == CrcLow(Crc16(body))
    && frame[|frame| - 1] == CrcHigh(Crc16(body))
  }

  /** Appends the CRC, low byte first, as the eModbus `addCRC` helper does. */
  function AppendCrc(m: seq<byte>): (f: seq<byte>)
    ensures |f| == |m| + 2 && f[..|m|] == m
    ensures ValidCrc(f)
  {
    var c := Crc16(m);
    var f := m + [CrcLow(c), CrcHigh(c)];
    assert f[..|f| - 2] == m;
    f
  }

  /** Changing either CRC byte of a valid frame makes it invalid. */
  lemma CorruptedCrcRejected(frame: seq<byte>, i: nat, b: byte)
    requires ValidCrc(frame)
    requires i == |frame| - 2 || i == |frame| - 1
    requires b != frame[i]
    ensures !ValidCrc(frame[i := b])
  {
    var g := frame[i := b];
    assert g[..|g| - 2] == frame[..|frame| - 2];
  }

  /** The 16-bit value of a big-endian byte pair. */
  function BigEndian(hi: byte, lo: byte): u16
  {
    hi as int * 0x100 + lo as int
  }

  /** Two bytes, high first: how a 16-bit value travels in a Modbus PDU. */
  function Word(v: u16): (r: seq<byte>)
    ensures |r| == 2 && BigEndian(r[0], r[1]) == v
  {
    [v / 0x100, v % 0x100]
  }

  /** Read Holding Registers request: slave, function 0x03, start and count as
      big-endian words, then the CRC. */
  function ReadHoldingRequest(slave: byte, start: u16, count: u16): (r: seq<byte>)
    ensures |r| == 8 && ValidCrc(r)
    ensures r[0] == slave && r[1] == ReadHoldingRegisters
    ensures BigEndian(r[2], r[3]) == start && BigEndian(r[4], r[5]) == count
  {
    AppendCrc([slave, ReadHoldingRegisters] + Word(start) + Word(count))
  }

  /** The register values of a response body, each as a big-endian word. */
  function RegisterBytes(regs: seq<u16>): (r: seq<byte>)
    ensures |r| == 2 * |regs|
    ensures forall i :: 0 <= i < |regs| ==> BigEndian(r[2 * i], r[2 * i + 1]) == regs[i]
  {
    if |regs| == 0 then []
    else
      var rest := RegisterBytes(regs[1..]);
      var r := Word(regs[0]) + rest;
      assert forall i :: 1 <= i < |regs| ==> r[2 * i] == rest[2 * (i - 1)] && r[2 * i + 1] == rest[2 * (i - 1) + 1];
      r
  }

  /** A well-formed Read Holding Registers response carrying `regs`:
      slave, 0x03, byte count, the register words, CRC. */
  function ReadHoldingResponse(slave: byte, regs: seq<u16>): (r: seq<byte>)
    requires |regs| <= 127
    ensures |r| == 3 + 2 * |regs| + 2 && ValidCrc(r)
    ensures r[0] == slave && r[1] == ReadHoldingRegisters && r[2] == 2 * |regs|
    ensures forall i :: 0 <= i < |regs| ==> BigEndian(r[3 + 2 * i], r[4 + 2 * i]) == regs[i]
  {
    var rb := RegisterBytes(regs);
    var body := [slave, ReadHoldingRegisters, 2 * |regs|] + rb;
    var r := AppendCrc(body);
    forall i | 0 <= i < |regs|
      ensures BigEndian(r[3 + 2 * i], r[4 + 2 * i]) == regs[i]
    {
      assert r[3 + 2 * i] == r[..|body|][3 + 2 * i] == body[3 + 2 * i] == rb[2 * i];
      assert r[4 + 2 * i] == r[..|body|][4 + 2 * i] == body[4 + 2 * i] == rb[2 * i + 1];
    }
    assert r[..|body|][..3] == body[..3];
    r
  }
}
