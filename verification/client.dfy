/** The client: request builders, the check of a confirmation and the decoding of its payload. */
module Client {
  import opened Bytes
  import opened Bits
  import opened Packing
  import opened Backends
  import opened Pdus
  import opened Framing
  import opened Server

  /**
   * One call of the client interface. Quantities of writes are the lengths of their sources; those of reads may be
   * negative, which no builder refuses.
   */
  datatype Call =
    | CallReadBits(addr: int, nb: int)
    | CallReadInputBits(addr: int, nb: int)
    | CallReadRegisters(addr: int, nb: int)
    | CallReadInputRegisters(addr: int, nb: int)
    | CallWriteBit(addr: int, status: bool)
    | CallWriteRegister(addr: int, value: int)
    | CallWriteBits(addr: int, bits: seq<byte>)
    | CallWriteRegisters(addr: int, regs: seq<word>)
    | CallMaskWrite(addr: int, andMask: word, orMask: word)
    | CallWriteAndRead(writeAddr: int, regs: seq<word>, readAddr: int, readNb: int)

  /** The return value of a call with the values stored in its destination, or -1 with an error number. */
  datatype Outcome = Success(rc: int, dest: seq<word>) | Failure(errno: int)

  /** The checks made before anything is sent. */
  predicate InLimit(c: Call) {
    match c
    case CallReadBits(_, nb) => nb <= MAX_READ_BITS
    case CallReadInputBits(_, nb) => nb <= MAX_READ_BITS
    case CallReadRegisters(_, nb) => nb <= MAX_READ_REGISTERS
    case CallReadInputRegisters(_, nb) => nb <= MAX_READ_REGISTERS
    case CallWriteBits(_, bits) => |bits| <= MAX_WRITE_BITS
    case CallWriteRegisters(_, regs) => |regs| <= MAX_WRITE_REGISTERS
    case CallWriteAndRead(_, regs, _, nb) => |regs| <= MAX_WR_WRITE_REGISTERS && nb <= MAX_WR_READ_REGISTERS
    case _ => true
  }

  /** The limits of sections 6.1 to 6.17 of the MODBUS Application Protocol V1.1b. */
  lemma Limits(c: Call)
    ensures InLimit(c) <==> match c
      case CallReadBits(_, nb) => nb <= 2000
      case CallReadInputBits(_, nb) => nb <= 2000
      case CallReadRegisters(_, nb) => nb <= 125
      case CallReadInputRegisters(_, nb) => nb <= 125
      case CallWriteBits(_, bits) => |bits| <= 1968
      case CallWriteRegisters(_, regs) => |regs| <= 123
      case CallWriteAndRead(_, regs, _, nb) => |regs| <= 121 && nb <= 125
      case _ => true
  {
  }

  function FunctionCode(c: Call): (f: byte) {
    match c
    case CallReadBits(_, _) => READ_COILS
    case CallReadInputBits(_, _) => READ_DISCRETE_INPUTS
    case CallReadRegisters(_, _) => READ_HOLDING_REGISTERS
    case CallReadInputRegisters(_, _) => READ_INPUT_REGISTERS
    case CallWriteBit(_, _) => WRITE_SINGLE_COIL
    case CallWriteRegister(_, _) => WRITE_SINGLE_REGISTER
    case CallWriteBits(_, _) => WRITE_MULTIPLE_COILS
    case CallWriteRegisters(_, _) => WRITE_MULTIPLE_REGISTERS
    case CallMaskWrite(_, _, _) => MASK_WRITE_REGISTER
    case CallWriteAndRead(_, _, _, _) => WRITE_AND_READ_REGISTERS
  }

  /** Function code and two 16-bit fields. */
  function Basis(f: byte, addr: int, nb: int): (bs: seq<byte>) {
    [f, Hi(addr), Lo(addr), Hi(nb), Lo(nb)]
  }

  function RequestPdu(c: Call): (pdu: seq<byte>)
    requires InLimit(c)
  {
    var f := FunctionCode(c);
    match c
    case CallReadBits(addr, nb) => Basis(f, addr, nb)
    case CallReadInputBits(addr, nb) => Basis(f, addr, nb)
    case CallReadRegisters(addr, nb) => Basis(f, addr, nb)
    case CallReadInputRegisters(addr, nb) => Basis(f, addr, nb)
    case CallWriteBit(addr, status) => Basis(f, addr, if status then 0xFF00 else 0)
    case CallWriteRegister(addr, value) => Basis(f, addr, value)
    case CallWriteBits(addr, bits) =>
      Basis(f, addr, |bits|) + [ByteCount(|bits|)] + PackCells(Truth(bits))
    case CallWriteRegisters(addr, regs) => Basis(f, addr, |regs|) + [2 * |regs|] + RegisterBytes(regs)
    case CallMaskWrite(addr, andMask, orMask) => Basis(f, addr, andMask) + [Hi(orMask), Lo(orMask)]
    case CallWriteAndRead(writeAddr, regs, readAddr, readNb) =>
      Basis(f, readAddr, readNb)
      + [Hi(writeAddr), Lo(writeAddr), Hi(|regs|), Lo(|regs|), 2 * |regs|] + RegisterBytes(regs)
  }

  /** Every request a builder emits has the shape of its function code and fits in a frame. */
  lemma RequestPduShape(c: Call)
    requires InLimit(c)
    ensures RequestShape(RequestPdu(c)) && |RequestPdu(c)| <= MAX_PDU_LENGTH
  {
    hide Hi, Lo, PackCells, RegisterBytes, Truth;
  }

  // ----- Checking a confirmation -----

  /** compute_response_length_from_request; -1 when the request does not determine it. */
  function ResponseLength(be: Backend, req: seq<byte>): (n: int)
    requires |req| >= be.HeaderLength() + 5
  {
    var o := be.HeaderLength();
    var f := req[o];
    if f == REPORT_SLAVE_ID then -1
    else
      o + be.ChecksumLength() +
      if f == READ_COILS || f == READ_DISCRETE_INPUTS then 2 + ByteCount(Word(req[o + 3], req[o + 4]))
      else if f == WRITE_AND_READ_REGISTERS || f == READ_HOLDING_REGISTERS || f == READ_INPUT_REGISTERS then
        2 + 2 * Word(req[o + 3], req[o + 4])
      else if f == READ_EXCEPTION_STATUS then 3
      else if f == MASK_WRITE_REGISTER then 7
      else 5
  }

  /**
   * Whatever request the reader delivers, the reply has the length of an exception or exactly the length that can be
   * computed from the request; only a report of the slave id leaves its length open.
   */
  lemma ReplyLength(be: Backend, h: Header, t: Tables, buf: seq<byte>, n: nat)
    requires |buf| == MAX_MESSAGE_LENGTH && Received(buf[be.HeaderLength()..], n)
    ensures var r := Serve(t, buf[be.HeaderLength()..], n).1; var length := ResponseLength(be, buf);
      r.Answer? ==>
        || (|r.pdu| == 2 && (IsException(r) || buf[be.HeaderLength()] >= 0x80))
        || |Adu(be, h, r.pdu)| == length
        || (buf[be.HeaderLength()] == REPORT_SLAVE_ID && length == -1)
  {
    hide PackCells, UnpackBits, Registers, RegisterBytes, MaskMerge, Overwrite, StoreFrom, Word, Crc.CrcBytes;
    var k := be.HeaderLength();
    var p := buf[k..];
    assert p[0] == buf[k] && p[3] == buf[k + 3] && p[4] == buf[k + 4];
  }

  datatype Verdict = Confirmed(nb: nat) | Refused(errno: int)

  /** pre_check_confirmation: same slave on a serial line, same transaction on TCP. */
  function PreCheck(be: Backend, req: seq<byte>, rsp: seq<byte>): (v: Verdict)
    requires |req| >= be.HeaderLength() && |rsp| >= be.HeaderLength()
  {
    match be
    case Rtu => if req[0] != rsp[0] && req[0] != BROADCAST then Refused(EMBBADSLAVE) else Confirmed(0)
    case Tcp =>
      if req[0] != rsp[0] || req[1] != rsp[1] then Refused(EMBBADDATA)
      else if rsp[2] != 0 && rsp[3] != 0 then Refused(EMBBADDATA)
      else Confirmed(0)
  }

  /** check_confirmation. */
  function CheckWithLength(be: Backend, req: seq<byte>, rsp: seq<byte>, length: nat): (v: Verdict)
    requires |req| >= be.HeaderLength() + 5 && |rsp| >= be.HeaderLength() + 2 && length <= |rsp|
  {
    var o := be.HeaderLength();
    var f := rsp[o];
    var pre := PreCheck(be, req, rsp);
    if pre.Refused? then pre
    else if f >= 0x80 then
      if length == o + 2 + be.ChecksumLength() && req[o] == f - 0x80 && rsp[o + 1] < EXCEPTION_MAX then
        Refused(ENOBASE + rsp[o + 1])
      else Refused(EMBBADEXC)
    else if length != ResponseLength(be, req) && ResponseLength(be, req) != -1 then Refused(EMBBADDATA)
    else if f != req[o] then Refused(EMBBADDATA)
    else
      var reqNb: nat, rspNb: nat :=
        if f == READ_COILS || f == READ_DISCRETE_INPUTS then ByteCount(Word(req[o + 3], req[o + 4])) else
        if f == WRITE_AND_READ_REGISTERS || f == READ_HOLDING_REGISTERS || f == READ_INPUT_REGISTERS
           || f == WRITE_MULTIPLE_COILS || f == WRITE_MULTIPLE_REGISTERS then Word(req[o + 3], req[o + 4]) else
        if f == REPORT_SLAVE_ID then rsp[o + 1] else 1,
        if f == READ_COILS || f == READ_DISCRETE_INPUTS || f == REPORT_SLAVE_ID then rsp[o + 1] else
        if f == WRITE_AND_READ_REGISTERS || f == READ_HOLDING_REGISTERS
           || f == READ_INPUT_REGISTERS then rsp[o + 1] / 2 else
        if f == WRITE_MULTIPLE_COILS || f == WRITE_MULTIPLE_REGISTERS then Word(rsp[o + 3], rsp[o + 4]) else 1;
      if reqNb == rspNb then Confirmed(rspNb) else Refused(EMBBADDATA)
  }

  /** The check of a confirmation that was received whole. */
  function CheckConfirmation(be: Backend, req: seq<byte>, rsp: seq<byte>): (v: Verdict)
    requires |req| >= be.HeaderLength() + 5 && |rsp| >= be.HeaderLength() + 2
  {
    CheckWithLength(be, req, rsp, |rsp|)
  }

  /** A frame for another slave is handed to the check with length 0, and is refused for its slave. */
  lemma IgnoredRefused(req: seq<byte>, rsp: seq<byte>)
    requires |req| >= Rtu.HeaderLength() + 5 && |rsp| >= Rtu.HeaderLength() + 2 && ResponseLength(Rtu, req) != -1
    ensures CheckWithLength(Rtu, req, rsp, 0).Refused?
    ensures req[0] != rsp[0] && req[0] != BROADCAST ==> CheckWithLength(Rtu, req, rsp, 0) == Refused(EMBBADSLAVE)
  {
  }

  /** The request buffer still holds the function code and the quantity of the call. */
  ghost predicate Holds(be: Backend, req: seq<byte>, c: Call)
    requires InLimit(c)
  {
    var o, p := be.HeaderLength(), RequestPdu(c);
    |req| >= o + 5 && req[o] == p[0] && req[o + 3] == p[3] && req[o + 4] == p[4]
  }

  /** How many bits the unpack loop stores. */
  function Delivered(nb: int): (n: nat) { if nb > 0 then nb else 0 }

  /** What the caller gets out of a confirmation that was received whole. */
  function Decode(be: Backend, c: Call, req: seq<byte>, rsp: seq<byte>): (o: Outcome)
    requires InLimit(c)
    requires Holds(be, req, c) && |rsp| >= be.HeaderLength() + 2
  {
    var o := be.HeaderLength();
    match CheckConfirmation(be, req, rsp)
    case Refused(errno) => Failure(errno)
    case Confirmed(rc) =>
      ConfirmedRoom(be, c, req, rsp);
      if c.CallReadBits? || c.CallReadInputBits? then Success(c.nb, UnpackBits(rsp[o + 2..], Delivered(c.nb)))
      else if c.CallReadRegisters? || c.CallReadInputRegisters? || c.CallWriteAndRead? then
        Success(rc, Registers(rsp[o + 2..], rc))
      else Success(rc, [])
  }

  /** A confirmed response has room for the values that are then copied out of it. */
  lemma ConfirmedRoom(be: Backend, c: Call, req: seq<byte>, rsp: seq<byte>)
    requires InLimit(c)
    requires Holds(be, req, c) && |rsp| >= be.HeaderLength() + 2
    requires CheckConfirmation(be, req, rsp).Confirmed?
    ensures var rc := CheckConfirmation(be, req, rsp).nb; var o := be.HeaderLength();
      && (c.CallReadBits? || c.CallReadInputBits? ==>
            rc == ByteCount(U16(c.nb)) && Delivered(c.nb) <= 8 * rc && |rsp| == o + 2 + rc + be.ChecksumLength())
      && (c.CallReadRegisters? || c.CallReadInputRegisters? ==>
            rc == U16(c.nb) && |rsp| == o + 2 + 2 * rc + be.ChecksumLength())
      && (c.CallWriteAndRead? ==> rc == U16(c.readNb) && |rsp| == o + 2 + 2 * rc + be.ChecksumLength())
  {
    hide PackCells, RegisterBytes, Truth, Hi, Lo, Word;
    if c.CallReadBits? || c.CallReadInputBits? || c.CallReadRegisters? || c.CallReadInputRegisters? {
      WordHiLo(c.nb);
    } else if c.CallWriteAndRead? {
      WordHiLo(c.readNb);
    }
  }
}
