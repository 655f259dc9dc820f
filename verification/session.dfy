/** Client and server as they run, over links that may hand over any number of bytes at a time. */
module LiveSession {
  import opened Bytes
  import opened Packing
  import opened Backends
  import opened Pdus
  import opened Framing
  import opened Server
  import opened Responder
  import opened Client
  import opened ReferenceMemory
  import opened EndToEnd

  class ModbusClient {
    const be: Backend
    const slave: byte
    var tid: word

    constructor (be: Backend, slave: byte)
      ensures this.be == be && this.slave == slave && tid == 0
    {
      this.be, this.slave, tid := be, slave, 0;
    }

    method NextRequestBasis(f: byte, addr: int, nb: int, req: array<byte>) returns (length: nat)
      requires req.Length == MAX_MESSAGE_LENGTH
      modifies this, req
      ensures tid == NextTid(be, old(tid))
      ensures length == be.HeaderLength() + 5
      ensures HeaderOf(be, req[..]) == CanonicalHeader(be, tid, slave)
      ensures req[be.HeaderLength()..length] == Basis(f, addr, nb)
    {
      if be.Tcp? {
        if tid < 0xFFFF { tid := tid + 1; } else { tid := 0; }
      }
      length := BuildRequestBasis(be, slave, tid, f, addr, nb, req);
    }

    method AppendBytes(req: array<byte>, at: nat, bs: seq<byte>) returns (length: nat)
      requires be.HeaderLength() <= at && at + |bs| <= req.Length
      modifies req
      ensures length == at + |bs|
      ensures req[be.HeaderLength()..length] == old(req[be.HeaderLength()..at]) + bs
      ensures HeaderOf(be, req[..]) == old(HeaderOf(be, req[..]))
    {
      forall k | 0 <= k < |bs| { req[at + k] := bs[k]; }
      length := at + |bs|;
    }

    method AppendRegisterValues(regs: seq<word>, req: array<byte>, at: nat) returns (length: nat)
      requires be.HeaderLength() <= at && at + 2 * |regs| <= req.Length
      modifies req
      ensures length == at + 2 * |regs|
      ensures req[be.HeaderLength()..length] == old(req[be.HeaderLength()..at]) + RegisterBytes(regs)
      ensures HeaderOf(be, req[..]) == old(HeaderOf(be, req[..]))
    {
      hide Hi, Lo, HeaderOf;
      length := at;
      for i := 0 to |regs|
        invariant length == at + 2 * i
        invariant req[be.HeaderLength()..length] == old(req[be.HeaderLength()..at]) + RegisterBytes(regs[..i])
        invariant HeaderOf(be, req[..]) == old(HeaderOf(be, req[..]))
      {
        length := AppendBytes(req, length, [Hi(regs[i]), Lo(regs[i])]);
        assert regs[..i + 1][..i] == regs[..i];
      }
      assert regs[..|regs|] == regs;
    }

    /** The request builders: header and fixed fields, then the payload loops. */
    method BuildRequest(c: Call, req: array<byte>) returns (length: nat)
      requires InLimit(c) && req.Length == MAX_MESSAGE_LENGTH
      modifies this, req
      ensures tid == NextTid(be, old(tid))
      ensures be.HeaderLength() <= length && length + be.ChecksumLength() <= req.Length
      ensures HeaderOf(be, req[..]) == CanonicalHeader(be, tid, slave)
      ensures req[be.HeaderLength()..length] == RequestPdu(c)
    {
      hide Hi, Lo, HeaderOf, PackCells, RegisterBytes, Truth, NextTid;
      var f := FunctionCode(c);
      match c
      case CallReadBits(addr, nb) => length := NextRequestBasis(f, addr, nb, req);
      case CallReadInputBits(addr, nb) => length := NextRequestBasis(f, addr, nb, req);
      case CallReadRegisters(addr, nb) => length := NextRequestBasis(f, addr, nb, req);
      case CallReadInputRegisters(addr, nb) => length := NextRequestBasis(f, addr, nb, req);
      case CallWriteBit(addr, status) => length := NextRequestBasis(f, addr, if status then 0xFF00 else 0, req);
      case CallWriteRegister(addr, value) => length := NextRequestBasis(f, addr, value, req);
      case CallWriteBits(addr, bits) => length := BuildWriteBits(addr, bits, req);
      case CallWriteRegisters(addr, regs) =>
        length := NextRequestBasis(f, addr, |regs|, req);
        length := AppendBytes(req, length, [2 * |regs|]);
        length := AppendRegisterValues(regs, req, length);
      case CallMaskWrite(addr, andMask, orMask) => length := BuildMaskWrite(addr, andMask, orMask, req);
      case CallWriteAndRead(writeAddr, regs, readAddr, readNb) =>
        length := BuildWriteAndRead(writeAddr, regs, readAddr, readNb, req);
    }

    method BuildWriteBits(addr: int, bits: seq<byte>, req: array<byte>) returns (length: nat)
      requires |bits| <= MAX_WRITE_BITS && req.Length == MAX_MESSAGE_LENGTH
      modifies this, req
      ensures tid == NextTid(be, old(tid))
      ensures be.HeaderLength() <= length && length + be.ChecksumLength() <= req.Length
      ensures HeaderOf(be, req[..]) == CanonicalHeader(be, tid, slave)
      ensures req[be.HeaderLength()..length] == RequestPdu(CallWriteBits(addr, bits))
    {
      hide Hi, Lo, HeaderOf, PackCells, Truth, NextTid;
      var o := be.HeaderLength();
      length := NextRequestBasis(WRITE_MULTIPLE_COILS, addr, |bits|, req);
      length := AppendBytes(req, length, [ByteCount(|bits|)]);
      ghost var before, at := req[..], length;
      length := AppendPackedBits(bits, req, length);
      assert req[..][..o] == req[..at][..o] == before[..at][..o] == before[..o];
      HeaderOfPrefix(be, req[..], before);
      assert req[o..length] == req[..at][o..] + req[at..length];
      assert before[..at][o..] == before[o..at];
    }

    /** The quantity field of the basis is replaced by the AND mask. */
    method BuildMaskWrite(addr: int, andMask: word, orMask: word, req: array<byte>) returns (length: nat)
      requires req.Length == MAX_MESSAGE_LENGTH
      modifies this, req
      ensures tid == NextTid(be, old(tid))
      ensures be.HeaderLength() <= length && length + be.ChecksumLength() <= req.Length
      ensures HeaderOf(be, req[..]) == CanonicalHeader(be, tid, slave)
      ensures req[be.HeaderLength()..length] == RequestPdu(CallMaskWrite(addr, andMask, orMask))
    {
      hide Hi, Lo, HeaderOf, NextTid;
      var o := be.HeaderLength();
      length := NextRequestBasis(MASK_WRITE_REGISTER, addr, 0, req);
      length := length - 2;
      assert req[o..length] == req[o..length + 2][..3];
      length := AppendBytes(req, length, [Hi(andMask), Lo(andMask), Hi(orMask), Lo(orMask)]);
    }

    method BuildWriteAndRead(writeAddr: int, regs: seq<word>, readAddr: int, readNb: int, req: array<byte>)
      returns (length: nat)
      requires |regs| <= MAX_WR_WRITE_REGISTERS && readNb <= MAX_WR_READ_REGISTERS && req.Length == MAX_MESSAGE_LENGTH
      modifies this, req
      ensures tid == NextTid(be, old(tid))
      ensures be.HeaderLength() <= length && length + be.ChecksumLength() <= req.Length
      ensures HeaderOf(be, req[..]) == CanonicalHeader(be, tid, slave)
      ensures req[be.HeaderLength()..length] == RequestPdu(CallWriteAndRead(writeAddr, regs, readAddr, readNb))
    {
      hide Hi, Lo, HeaderOf, RegisterBytes, NextTid;
      length := NextRequestBasis(WRITE_AND_READ_REGISTERS, readAddr, readNb, req);
      length := AppendBytes(req, length, [Hi(writeAddr), Lo(writeAddr), Hi(|regs|), Lo(|regs|), 2 * |regs|]);
      length := AppendRegisterValues(regs, req, length);
    }
  }

  /** The loop that copies registers out of a confirmation. */
  method CopyRegistersOut(rsp: array<byte>, at: nat, n: nat) returns (dest: array<word>)
    requires at + 2 * n <= rsp.Length
    ensures fresh(dest) && dest[..] == Registers(rsp[at..], n)
  {
    hide Word;
    dest := new word[n];
    for i := 0 to n
      invariant forall k :: 0 <= k < i ==> dest[k] == Registers(rsp[at..], n)[k]
    {
      dest[i] := Word(rsp[at + 2 * i], rsp[at + 2 * i + 1]);
    }
  }

  /** Reads the confirmation, checks it against the request in req and copies its values out. */
  method ReceiveOutcome(be: Backend, slave: byte, c: Call, req: array<byte>, length: nat, down: Stream)
    returns (o: Outcome)
    requires length <= req.Length && InLimit(c) && Holds(be, req[..length], c)
    modifies down
    ensures o == ClientSide(be, slave, c, req[..length], old(down.pending)) || (!down.reliable && o == Failure(ELINK))
    ensures down.reliable ==>
      |down.pending| == |old(down.pending)| - Consumed(FrameOf(be, Confirmation, old(down.pending)))
  {
    hide Decode, CheckConfirmation, CheckWithLength, ReceiptOf, FrameOf, UnpackBits, Registers, Holds;
    HoldsRoom(be, req[..length], c);
    ghost var input := down.pending;
    var rsp := new byte[MAX_MESSAGE_LENGTH];
    ghost var blank := rsp[..];
    var r, got := ReceiveMsg(be, Confirmation, slave, down, rsp);
    ReceiptLength(be, Confirmation, slave, input);
    ConfirmationLength(be, input);
    match r
    case Message(n) =>
      SplicedPrefix(blank, input[..n]);
      assert rsp[..n] == rsp[..][..n];
      o := DecodeConfirmation(be, c, req, length, rsp, n);
    case Ignored =>
      SplicedPrefix(blank, input[..got]);
      assert rsp[..got] == rsp[..][..got];
      CallIgnored(req[..length], c, rsp[..got]);
      o := Failure(CheckWithLength(be, req[..length], rsp[..got], 0).errno);
    case Rejected(errno) => o := Failure(errno);
    case LinkDown => o := Failure(ELINK);
  }

  method DecodeConfirmation(be: Backend, c: Call, req: array<byte>, length: nat, rsp: array<byte>, n: nat)
    returns (o: Outcome)
    requires length <= req.Length && InLimit(c) && Holds(be, req[..length], c)
    requires be.HeaderLength() + 2 <= n <= rsp.Length
    ensures o == Decode(be, c, req[..length], rsp[..n])
  {
    hide CheckConfirmation, UnpackBits, Registers;
    var k := be.HeaderLength();
    match CheckConfirmation(be, req[..length], rsp[..n])
    case Refused(errno) => o := Failure(errno);
    case Confirmed(rc) =>
      ConfirmedRoom(be, c, req[..length], rsp[..n]);
      if c.CallReadBits? || c.CallReadInputBits? {
        var dest := new byte[Delivered(c.nb)];
        UnpackReply(rsp, k + 2, rc, Delivered(c.nb), dest);
        PrefixBits(rsp[k + 2..k + 2 + rc], rsp[..n][k + 2..], Delivered(c.nb));
        assert dest[..dest.Length] == dest[..];
        o := Success(c.nb, dest[..]);
      } else if c.CallReadRegisters? || c.CallReadInputRegisters? || c.CallWriteAndRead? {
        var dest := CopyRegistersOut(rsp, k + 2, rc);
        PrefixRegisters(rsp[..n][k + 2..], rsp[k + 2..], rc);
        o := Success(rc, dest[..]);
      } else {
        o := Success(rc, []);
      }
  }

  /** The server's loop body: receive an indication, reply to it. */
  method ServeOnce(be: Backend, slave: byte, m: Mapping, up: Stream, down: Stream, buf: array<byte>)
    requires m.Valid() && buf.Length == MAX_MESSAGE_LENGTH && buf !in {m.tabBits, m.tabInputBits} && up != down
    modifies m.tabBits, m.tabRegisters, up, down, buf
    ensures
      || (m.Contents(), down.pending) == (
           var (t, out) := ServerSide(be, slave, old(m.Contents()), old(up.pending), old(buf[..]));
           (t, old(down.pending) + out))
      || (!up.reliable && m.Contents() == old(m.Contents()) && down.pending == old(down.pending))
    ensures up.reliable ==> |up.pending| <= |old(up.pending)| - Consumed(FrameOf(be, Indication, old(up.pending)))
  {
    hide Serve, Outgoing, ReceiptOf, FrameOf;
    ghost var input, stale := up.pending, buf[..];
    var r, got := ReceiveMsg(be, Indication, slave, up, buf);
    ReceiptLength(be, Indication, slave, input);
    if r.Message? {
      assert buf[..] == input[..r.length] + stale[r.length..];
      var _ := ModbusReply(be, buf, r.length, m, up, down);
    } else {
      assert old(down.pending) + [] == down.pending;
    }
  }

  /**
   * A call against a running server, whatever the sizes of the reads on both sides. Over reliable links the caller gets
   * the observed outcome, the tables become the observed memory and both links are empty again; and this is what the
   * reference says exactly if the call does not write below the register table. If a link fails, the caller may be told
   * so instead, and then the call has been carried out once or not at all.
   */
  method Perform(client: ModbusClient, c: Call, m: Mapping, up: Stream, down: Stream, buf: array<byte>)
    returns (o: Outcome)
    requires client.slave != BROADCAST
    requires m.Valid() && buf.Length == MAX_MESSAGE_LENGTH && buf !in {m.tabBits, m.tabInputBits}
    requires AllBits(m.tabBits[..]) && AllBits(m.tabInputBits[..])
    requires up != down && up.pending == [] && down.pending == []
    modifies client, m.tabBits, m.tabRegisters, up, down, buf
    ensures AllBits(m.tabBits[..])
    ensures client.tid == if InLimit(c) then NextTid(client.be, old(client.tid)) else old(client.tid)
    ensures up.reliable && down.reliable ==>
      Done(old(m.Contents()), c, m.Contents(), o) && up.pending == down.pending == []
    ensures Done(old(m.Contents()), c, m.Contents(), o) || DoneOrNot(old(m.Contents()), c, m.Contents(), o)
    ensures Done(old(m.Contents()), c, m.Contents(), o) ==>
      ((Abs(m.Contents()), o) == Apply(old(Abs(m.Contents())), c) <==> !WritesBelow(old(m.Contents()), c))
  {
    ObservedIff(m.Contents(), c);
    if InLimit(c) {
      o := PerformInLimit(client, c, m, up, down, buf);
    } else {
      o := Failure(EMBMDATA);
    }
  }

  /** The tables and the outcome are those observed for call c on tables t. */
  ghost predicate Done(t: Tables, c: Call, t': Tables, o: Outcome) {
    (Abs(t'), o) == Observed(t, c)
  }

  /** The link failed before the answer was complete, and before or after the server acted. */
  ghost predicate DoneOrNot(t: Tables, c: Call, t': Tables, o: Outcome) {
    o == Failure(ELINK) && (t' == t || Abs(t') == Observed(t, c).0)
  }

  method PerformInLimit(client: ModbusClient, c: Call, m: Mapping, up: Stream, down: Stream, buf: array<byte>)
    returns (o: Outcome)
    requires InLimit(c) && client.slave != BROADCAST
    requires m.Valid() && buf.Length == MAX_MESSAGE_LENGTH && buf !in {m.tabBits, m.tabInputBits}
    requires AllBits(m.tabBits[..]) && AllBits(m.tabInputBits[..])
    requires up != down && up.pending == [] && down.pending == []
    modifies client, m.tabBits, m.tabRegisters, up, down, buf
    ensures AllBits(m.tabBits[..]) && client.tid == NextTid(client.be, old(client.tid))
    ensures up.reliable && down.reliable ==>
      Done(old(m.Contents()), c, m.Contents(), o) && up.pending == down.pending == []
    ensures Done(old(m.Contents()), c, m.Contents(), o) || DoneOrNot(old(m.Contents()), c, m.Contents(), o)
  {
    hide Abs, Observed, RequestOf, ServerSide, ClientSide, RequestPdu, Adu, FrameOf, Holds, AllBits;
    var be, slave := client.be, client.slave;
    ghost var t, stale := m.Contents(), buf[..];
    var req, length := SendRequest(client, c, up);
    ghost var h := CanonicalHeader(be, client.tid, slave);
    ghost var wire := Anticipate(be, slave, h, t, c, stale);
    ServeOnce(be, slave, m, up, down, buf);
    assert down.pending == wire || (!up.reliable && down.pending == []);
    ghost var answered := down.pending == wire && m.Contents() == ServerSide(be, slave, t, req[..length], stale).0;
    o := ReceiveOutcome(be, slave, c, req, length, down);
    if !answered { NothingToRead(be, slave, c, req[..length]); }
  }

  lemma NothingToRead(be: Backend, slave: byte, c: Call, request: seq<byte>)
    requires InLimit(c) && Holds(be, request, c)
    ensures ClientSide(be, slave, c, request, []) == Failure(ELINK)
  {
  }

  method SendRequest(client: ModbusClient, c: Call, up: Stream) returns (req: array<byte>, length: nat)
    requires InLimit(c) && up.pending == []
    modifies client, up
    ensures fresh(req) && length <= req.Length
    ensures client.tid == NextTid(client.be, old(client.tid))
    ensures req[..length] == Adu(client.be, CanonicalHeader(client.be, client.tid, client.slave), RequestPdu(c))
    ensures up.pending == req[..length]
  {
    hide RequestPdu, Adu, HeaderOf;
    req := new byte[MAX_MESSAGE_LENGTH];
    length := client.BuildRequest(c, req);
    length := SendMsgPre(client.be, req, length);
    up.Send(req[..length]);
  }

  /** What the theorems about the two halves say about this round. */
  lemma Anticipate(be: Backend, slave: byte, h: Header, t: Tables, c: Call, stale: seq<byte>) returns (wire: seq<byte>)
    requires slave != BROADCAST && |stale| == MAX_MESSAGE_LENGTH
    requires h.slave == slave && h.protocol == 0 && (be.Rtu? ==> h.tid == 0)
    requires AllBits(t.bits) && AllBits(t.inputBits)
    requires InLimit(c)
    ensures var request := Adu(be, h, RequestPdu(c)); var t' := ServerSide(be, slave, t, request, stale).0;
      && Holds(be, request, c)
      && FrameOf(be, Indication, request) == Complete(|request|)
      && ServerSide(be, slave, t, request, stale).1 == wire
      && FrameOf(be, Confirmation, wire) == Complete(|wire|)
      && AllBits(t'.bits)
      && Observed(t, c) == (Abs(t'), ClientSide(be, slave, c, request, wire))
  {
    hide Abs, Observed, RequestOf, ServerSide, ClientSide, RequestPdu, Adu, FrameOf, Holds, Carries, RequestShape,
      ResponseShape;
    var request := Adu(be, h, RequestPdu(c));
    wire := ServerSide(be, slave, t, request, stale).1;
    RequestPduShape(c);
    RequestFrameExact(be, h, RequestPdu(c), []);
    assert request + [] == request && wire + [] == wire;
    ServerSideRefines(be, slave, h, t, c, stale);
    var o := Observed(t, c).1;
    var pdu :| ResponseShape(pdu) && |pdu| <= MAX_PDU_LENGTH && Carries(c, o, pdu) && wire == Adu(be, h, pdu);
    ResponseFrameExact(be, h, pdu, []);
    ClientSideDecodes(be, slave, h, c, o, pdu);
  }
}
