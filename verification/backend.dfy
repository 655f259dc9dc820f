/** The two transports: what they put around a protocol data unit (PDU). */
module Backends {
  import opened Bytes
  import opened Crc

  datatype Backend = Rtu | Tcp {
    function HeaderLength(): nat { if Rtu? then 1 else 7 }
    function ChecksumLength(): nat { if Rtu? then 2 else 0 }
    function MaxAduLength(): nat { if Rtu? then 256 else 260 }
  }

  const MAX_MESSAGE_LENGTH: nat := 260
  const MAX_PDU_LENGTH: nat := 253
  const BROADCAST: byte := 0

  const ENOBASE := 112345678
  const EXCEPTION_MAX := 12
  /** Stands for whatever number the system gives an error or a time-out of the link itself. */
  const ELINK := -1

  const EMBXILFUN := ENOBASE + 1
  const EMBXILADD := ENOBASE + 2
  const EMBXILVAL := ENOBASE + 3
  const EMBBADCRC := ENOBASE + 12
  const EMBBADDATA := ENOBASE + 13
  const EMBBADEXC := ENOBASE + 14
  const EMBMDATA := ENOBASE + 16
  const EMBBADSLAVE := ENOBASE + 17

  /** The fields around the PDU. A serial frame carries only the slave address. */
  datatype Header = Header(tid: word, protocol: word, slave: byte)

  /** A complete frame, section 4.1 of the MODBUS Application Protocol V1.1b. */
  function Adu(be: Backend, h: Header, pdu: seq<byte>): (adu: seq<byte>)
    ensures |adu| == be.HeaderLength() + |pdu| + be.ChecksumLength()
  {
    match be
    case Rtu => [h.slave] + pdu + CrcBytes([h.slave] + pdu)
    case Tcp =>
      [Hi(h.tid), Lo(h.tid), Hi(h.protocol), Lo(h.protocol), Hi(|pdu| + 1), Lo(|pdu| + 1), h.slave] + pdu
  }

  function HeaderOf(be: Backend, msg: seq<byte>): (h: Header)
    requires be.HeaderLength() <= |msg|
  {
    match be
    case Rtu => Header(0, 0, msg[0])
    case Tcp => Header(Word(msg[0], msg[1]), Word(msg[2], msg[3]), msg[6])
  }

  function CanonicalHeader(be: Backend, tid: word, slave: byte): (h: Header) {
    Header(if be.Rtu? then 0 else tid, 0, slave)
  }

  /** A frame gives back its header and its PDU. */
  lemma AduParts(be: Backend, h: Header, pdu: seq<byte>, rest: seq<byte>)
    ensures (Adu(be, h, pdu) + rest)[be.HeaderLength()..][..|pdu|] == pdu
    ensures HeaderOf(be, Adu(be, h, pdu) + rest) == if be.Rtu? then Header(0, 0, h.slave) else h
  {
    hide CrcBytes, Hi, Lo, Word;
    WordHiLo(h.tid);
    WordHiLo(h.protocol);
  }

  /** The length field of a TCP frame counts the bytes behind it. */
  lemma MbapLength(h: Header, pdu: seq<byte>)
    ensures var w := Adu(Tcp, h, pdu); (w[4] as int) * 256 + w[5] == U16(|w| - 6)
  {
    WordHiLo(|pdu| + 1);
  }

  /** A whole frame of each transport, byte by byte: slave 17 is asked for registers 107 to 109. */
  lemma FrameExamples()
    ensures Adu(Rtu, Header(0, 0, 17), [0x03, 0x00, 0x6B, 0x00, 0x03])
      == [0x11, 0x03, 0x00, 0x6B, 0x00, 0x03, 0x76, 0x87]
    ensures Adu(Tcp, Header(0x1234, 0, 17), [0x03, 0x00, 0x6B, 0x00, 0x03])
      == [0x12, 0x34, 0x00, 0x00, 0x00, 0x06, 0x11, 0x03, 0x00, 0x6B, 0x00, 0x03]
  {
    hide CrcBytes;
    CrcExample();
    assert [17] + [0x03, 0x00, 0x6B, 0x00, 0x03] == [0x11, 0x03, 0x00, 0x6B, 0x00, 0x03];
  }

  // ----- Integrity -----

  datatype Receipt = Message(length: nat) | Ignored | Rejected(errno: int) | LinkDown

  /** check_integrity of the two transports, for a context that answers to slave. */
  function CheckIntegrity(be: Backend, slave: int, msg: seq<byte>): (r: Receipt)
    requires |msg| > be.ChecksumLength()
  {
    match be
    case Tcp => Message(|msg|)
    case Rtu =>
      if msg[0] != slave && msg[0] != BROADCAST then Ignored
      else if CrcBytes(msg[..|msg| - 2]) == msg[|msg| - 2..] then Message(|msg|)
      else Rejected(EMBBADCRC)
  }

  /** Every frame addressed to this slave or to everyone passes its own check. */
  lemma AduIntact(be: Backend, slave: int, h: Header, pdu: seq<byte>)
    requires be.Rtu? ==> h.slave == slave || h.slave == BROADCAST
    ensures CheckIntegrity(be, slave, Adu(be, h, pdu)) == Message(|Adu(be, h, pdu)|)
  {
    hide CrcBytes;
    if be.Rtu? {
      var m := Adu(be, h, pdu);
      assert m[..|m| - 2] == [h.slave] + pdu;
    }
  }

  /** On the serial line a frame is accepted exactly when it is addressed here and its residue is zero. */
  lemma AcceptedIffResidueZero(slave: int, msg: seq<byte>)
    requires |msg| > 2
    ensures CheckIntegrity(Rtu, slave, msg) == Message(|msg|)
        <==> (msg[0] == slave || msg[0] == BROADCAST) && BitSerial(msg) == 0
  {
    hide CrcBytes, BitSerial;
    var n := |msg| - 2;
    assert msg == msg[..n] + [msg[n], msg[n + 1]];
    assert msg[n..] == [msg[n], msg[n + 1]];
    ResidueZero(msg[..n], msg[n], msg[n + 1]);
  }

  /** Any other frame is ignored if it is for another slave, and refused for its checksum if it is not. */
  lemma NotAccepted(slave: int, msg: seq<byte>)
    requires |msg| > 2
    ensures CheckIntegrity(Rtu, slave, msg) == Ignored <==> msg[0] != slave && msg[0] != BROADCAST
    ensures CheckIntegrity(Rtu, slave, msg) == Rejected(EMBBADCRC)
        <==> (msg[0] == slave || msg[0] == BROADCAST) && BitSerial(msg) != 0
  {
    hide CrcBytes, BitSerial;
    var n := |msg| - 2;
    assert msg == msg[..n] + [msg[n], msg[n + 1]];
    assert msg[n..] == [msg[n], msg[n + 1]];
    ResidueZero(msg[..n], msg[n], msg[n + 1]);
  }

  /**
   * Any change of an accepted serial frame that stays inside two adjacent bytes, the checksum included, is
   * noticed, however long the frame is.
   */
  lemma AdjacentCorruptionNeverAccepted(slave: int, pre: seq<byte>, x: byte, y: byte, x': byte, y': byte,
                                        post: seq<byte>)
    requires |pre| + |post| > 0
    requires CheckIntegrity(Rtu, slave, pre + [x, y] + post) == Message(|pre| + 2 + |post|)
    requires [x, y] != [x', y']
    ensures !CheckIntegrity(Rtu, slave, pre + [x', y'] + post).Message?
    ensures pre != [] ==> CheckIntegrity(Rtu, slave, pre + [x', y'] + post) == Rejected(EMBBADCRC)
  {
    hide BitSerial;
    AcceptedIffResidueZero(slave, pre + [x, y] + post);
    AcceptedIffResidueZero(slave, pre + [x', y'] + post);
    AdjacentChangeDetected(pre, x, y, x', y', post);
  }

  // ----- The functions that fill the buffers -----

  method BuildRequestBasis(be: Backend, slave: byte, tid: word, function_: byte, addr: int, nb: int, req: array<byte>)
    returns (length: nat)
    requires req.Length >= 12
    modifies req
    ensures length == be.HeaderLength() + 5
    ensures HeaderOf(be, req[..]) == CanonicalHeader(be, tid, slave)
    ensures req[be.HeaderLength()..length] == [function_, Hi(addr), Lo(addr), Hi(nb), Lo(nb)]
  {
    WordHiLo(tid);
    if be.Rtu? {
      req[0] := slave;
      req[1] := function_;
      req[2], req[3] := Hi(addr), Lo(addr);
      req[4], req[5] := Hi(nb), Lo(nb);
      length := 6;
    } else {
      req[0], req[1] := Hi(tid), Lo(tid);
      req[2], req[3] := 0, 0;
      req[6] := slave;
      req[7] := function_;
      req[8], req[9] := Hi(addr), Lo(addr);
      req[10], req[11] := Hi(nb), Lo(nb);
      length := 12;
    }
  }

  method BuildResponseBasis(be: Backend, slave: byte, tid: word, function_: byte, rsp: array<byte>)
    returns (length: nat)
    requires rsp.Length >= 8
    modifies rsp
    ensures length == be.HeaderLength() + 1
    ensures HeaderOf(be, rsp[..]) == CanonicalHeader(be, tid, slave)
    ensures rsp[be.HeaderLength()] == function_
  {
    WordHiLo(tid);
    if be.Rtu? {
      rsp[0], rsp[1] := slave, function_;
      length := 2;
    } else {
      rsp[0], rsp[1] := Hi(tid), Lo(tid);
      rsp[2], rsp[3] := 0, 0;
      rsp[6], rsp[7] := slave, function_;
      length := 8;
    }
  }

  /** Completes a message: appends the checksum, or fills in the length field. */
  method SendMsgPre(be: Backend, msg: array<byte>, length: nat) returns (total: nat)
    requires be.HeaderLength() <= length && length + be.ChecksumLength() <= msg.Length
    modifies msg
    ensures total == length + be.ChecksumLength()
    ensures msg[..total] == Adu(be, old(HeaderOf(be, msg[..])), old(msg[be.HeaderLength()..length]))
    ensures be.Tcp? ==> (msg[4] as int) * 256 + msg[5] == U16(total - 6)
  {
    hide CrcBytes;
    ghost var h := HeaderOf(be, msg[..]);
    if be.Rtu? {
      assert msg[..length] == [msg[0]] + msg[1..length];
      var crc := Crc16(msg, length);
      msg[length] := Hi(crc);
      msg[length + 1] := Lo(crc);
      total := length + 2;
      assert msg[..total] == old(msg[..length]) + [Hi(crc), Lo(crc)];
    } else {
      HiLoWord(msg[0], msg[1]);
      HiLoWord(msg[2], msg[3]);
      var mbapLength := length - 6;
      WordHiLo(mbapLength);
      msg[4] := Hi(mbapLength);
      msg[5] := Lo(mbapLength);
      total := length;
    }
  }
}
