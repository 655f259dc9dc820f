/** A server that shares a serial line with other slaves and has to step over their conversations. */
module SharedBus {
  import Crc
  import opened Bytes
  import opened Backends
  import opened Pdus
  import opened Framing

  /**
   * One conversation on the line. A corrupted request is one for this slave or for everyone with any other checksum
   * than its own; the checksums of foreign frames are whatever they are.
   */
  datatype Traffic =
    | Mine(request: seq<byte>)
    | Everyone(request: seq<byte>)
    | Corrupted(to: byte, request: seq<byte>, crc: (byte, byte))
    | Foreign(other: byte, request: seq<byte>, requestCrc: (byte, byte), response: seq<byte>, responseCrc: (byte, byte))

  ghost predicate WellFormed(slave: byte, tr: Traffic) {
    && RequestShape(tr.request) && |tr.request| <= MAX_PDU_LENGTH
    && (tr.Corrupted? ==>
      (tr.to == slave || tr.to == BROADCAST) && [tr.crc.0, tr.crc.1] != Crc.CrcBytes([tr.to] + tr.request))
    && (tr.Foreign? ==>
      && tr.other != slave && tr.other != BROADCAST
      && ResponseShape(tr.response) && |tr.response| <= MAX_PDU_LENGTH)
  }

  function ForeignFrame(other: byte, pdu: seq<byte>, crc: (byte, byte)): (bs: seq<byte>) {
    [other] + pdu + [crc.0, crc.1]
  }

  function OwnFrame(slave: byte, pdu: seq<byte>): (bs: seq<byte>) {
    Adu(Rtu, Header(0, 0, slave), pdu)
  }

  function OnWire(slave: byte, tr: Traffic): (bs: seq<byte>) {
    match tr
    case Mine(request) => OwnFrame(slave, request)
    case Everyone(request) => OwnFrame(BROADCAST, request)
    case Corrupted(to, request, c) => ForeignFrame(to, request, c)
    case Foreign(other, request, c, response, d) => ForeignFrame(other, request, c) + ForeignFrame(other, response, d)
  }

  function LineOf(slave: byte, trace: seq<Traffic>): (bs: seq<byte>) {
    if trace == [] then [] else OnWire(slave, trace[0]) + LineOf(slave, trace[1..])
  }

  /** What one call of modbus_receive gives its caller: a request, nothing (return value 0), or an error. */
  datatype Returned = Request(bytes: seq<byte>) | Zero | Error

  function Returns(r: Receipt, s: seq<byte>): (x: Returned) {
    match r
    case Message(n) => if n <= |s| then Request(s[..n]) else Error
    case Ignored => Zero
    case _ => Error
  }

  /** One call: its result, the flag confirmation_to_ignore afterwards, and the number of bytes taken off the line. */
  function ReceiveStep(slave: byte, ignore: bool, s: seq<byte>): (r: (Returned, bool, nat))
    ensures r.2 <= |s| && (s != [] ==> r.2 > 0)
  {
    if ignore then (Zero, false, Consumed(FrameOf(Rtu, Confirmation, s)))
    else
      var receipt := ReceiptOf(Rtu, Indication, slave, s);
      (Returns(receipt, s), receipt.Ignored?, Consumed(FrameOf(Rtu, Indication, s)))
  }

  /** Repeated calls until the line is empty. */
  function Listen(slave: byte, ignore: bool, s: seq<byte>): (rs: seq<Returned>)
    decreases |s|
  {
    hide ReceiveStep;
    if s == [] then []
    else
      var (x, ignore', n) := ReceiveStep(slave, ignore, s);
      [x] + Listen(slave, ignore', s[n..])
  }

  /**
   * Own and broadcast requests once each, an error for every corrupted one, two zeros for every foreign conversation.
   */
  function ExpectedOf(slave: byte, tr: Traffic): (rs: seq<Returned>) {
    match tr
    case Mine(request) => [Request(OwnFrame(slave, request))]
    case Everyone(request) => [Request(OwnFrame(BROADCAST, request))]
    case Corrupted(_, _, _) => [Error]
    case Foreign(_, _, _, _, _) => [Zero, Zero]
  }

  function Expected(slave: byte, trace: seq<Traffic>): (rs: seq<Returned>) {
    if trace == [] then [] else ExpectedOf(slave, trace[0]) + Expected(slave, trace[1..])
  }

  lemma OwnStep(slave: byte, to: byte, pdu: seq<byte>, rest: seq<byte>)
    requires RequestShape(pdu) && |pdu| <= MAX_PDU_LENGTH && (to == slave || to == BROADCAST)
    ensures ReceiveStep(slave, false, OwnFrame(to, pdu) + rest)
      == (Request(OwnFrame(to, pdu)), false, |OwnFrame(to, pdu)|)
  {
    hide FrameOf, RequestShape, Adu, CheckIntegrity;
    var h, f := Header(0, 0, to), OwnFrame(to, pdu);
    RequestFrameExact(Rtu, h, pdu, rest);
    AduIntact(Rtu, slave, h, pdu);
    assert (f + rest)[..|f|] == f;
  }

  /** A corrupted request is an error; it is read to its end, and what follows is not taken for a confirmation. */
  lemma CorruptedStep(slave: byte, to: byte, pdu: seq<byte>, crc: (byte, byte), rest: seq<byte>)
    requires RequestShape(pdu) && |pdu| <= MAX_PDU_LENGTH && (to == slave || to == BROADCAST)
    requires [crc.0, crc.1] != Crc.CrcBytes([to] + pdu)
    ensures ReceiveStep(slave, false, ForeignFrame(to, pdu, crc) + rest) == (Error, false, |ForeignFrame(to, pdu, crc)|)
  {
    hide FrameOf, RequestShape, Crc.CrcBytes, Crc.BitSerial, CheckIntegrity;
    var f := ForeignFrame(to, pdu, crc);
    FrameExact(Rtu, Indication, f + rest, pdu);
    assert (f + rest)[..|f|] == f;
    Crc.ResidueZero([to] + pdu, crc.0, crc.1);
    NotAccepted(slave, f);
  }

  lemma ForeignRequestStep(slave: byte, other: byte, pdu: seq<byte>, crc: (byte, byte), rest: seq<byte>)
    requires RequestShape(pdu) && |pdu| <= MAX_PDU_LENGTH && other != slave && other != BROADCAST
    ensures ReceiveStep(slave, false, ForeignFrame(other, pdu, crc) + rest)
      == (Zero, true, |ForeignFrame(other, pdu, crc)|)
  {
    hide FrameOf, RequestShape;
    FrameExact(Rtu, Indication, ForeignFrame(other, pdu, crc) + rest, pdu);
  }

  lemma ForeignResponseStep(slave: byte, other: byte, pdu: seq<byte>, crc: (byte, byte), rest: seq<byte>)
    requires ResponseShape(pdu) && |pdu| <= MAX_PDU_LENGTH
    ensures ReceiveStep(slave, true, ForeignFrame(other, pdu, crc) + rest)
      == (Zero, false, |ForeignFrame(other, pdu, crc)|)
  {
    hide FrameOf, ResponseShape;
    FrameExact(Rtu, Confirmation, ForeignFrame(other, pdu, crc) + rest, pdu);
  }

  lemma ListenOne(slave: byte, ignore: bool, frame: seq<byte>, rest: seq<byte>, x: Returned, ignore': bool)
    requires frame != [] && ReceiveStep(slave, ignore, frame + rest) == (x, ignore', |frame|)
    ensures Listen(slave, ignore, frame + rest) == [x] + Listen(slave, ignore', rest)
  {
    hide ReceiveStep;
    assert (frame + rest)[|frame|..] == rest;
  }

  /**
   * Synchronisation: on every line made of well-formed conversations the calls return exactly the own and
   * broadcast requests, in order, an error for each corrupted one and zero for each foreign frame, and they are
   * aligned again at the end.
   */
  lemma {:induction false} StaysAligned(slave: byte, trace: seq<Traffic>, rest: seq<byte>)
    requires forall tr :: tr in trace ==> WellFormed(slave, tr)
    ensures Listen(slave, false, LineOf(slave, trace) + rest) == Expected(slave, trace) + Listen(slave, false, rest)
  {
    hide Listen, OnWire, ExpectedOf, WellFormed;
    if trace == [] {
      assert LineOf(slave, trace) + rest == rest;
    } else {
      var line := LineOf(slave, trace[1..]) + rest;
      StaysAligned(slave, trace[1..], rest);
      assert WellFormed(slave, trace[0]);
      StepOver(slave, trace[0], line);
      assert LineOf(slave, trace) + rest == OnWire(slave, trace[0]) + line;
      calc {
        Listen(slave, false, OnWire(slave, trace[0]) + line);
        ExpectedOf(slave, trace[0]) + (Expected(slave, trace[1..]) + Listen(slave, false, rest));
        Expected(slave, trace) + Listen(slave, false, rest);
      }
    }
  }

  lemma StepOver(slave: byte, tr: Traffic, line: seq<byte>)
    requires WellFormed(slave, tr)
    ensures Listen(slave, false, OnWire(slave, tr) + line) == ExpectedOf(slave, tr) + Listen(slave, false, line)
  {
    hide ReceiveStep, Listen, RequestShape, ResponseShape, Adu;
    match tr
    case Mine(request) =>
      OwnStep(slave, slave, request, line);
      ListenOne(slave, false, OwnFrame(slave, request), line, Request(OwnFrame(slave, request)), false);
    case Everyone(request) =>
      OwnStep(slave, BROADCAST, request, line);
      ListenOne(slave, false, OwnFrame(BROADCAST, request), line, Request(OwnFrame(BROADCAST, request)), false);
    case Corrupted(to, request, c) =>
      CorruptedStep(slave, to, request, c, line);
      ListenOne(slave, false, ForeignFrame(to, request, c), line, Error, false);
    case Foreign(other, request, c, response, d) =>
      var a, b := ForeignFrame(other, request, c), ForeignFrame(other, response, d);
      assert a + b + line == a + (b + line);
      ForeignRequestStep(slave, other, request, c, b + line);
      ListenOne(slave, false, a, b + line, Zero, true);
      ForeignResponseStep(slave, other, response, d, line);
      ListenOne(slave, true, b, line, Zero, false);
      assert [Zero] + ([Zero] + Listen(slave, false, line)) == [Zero, Zero] + Listen(slave, false, line);
  }

  class Listener {
    const slave: byte
    var confirmationToIgnore: bool

    constructor (slave: byte)
      ensures this.slave == slave && !confirmationToIgnore
    {
      this.slave, confirmationToIgnore := slave, false;
    }

    /** _modbus_rtu_receive. */
    method Receive(line: Stream, req: array<byte>) returns (rc: Returned)
      requires line.reliable && req.Length >= MAX_MESSAGE_LENGTH
      modifies this, line, req
      ensures var (x, ignore, n) := ReceiveStep(slave, old(confirmationToIgnore), old(line.pending));
        rc == x && confirmationToIgnore == ignore && line.pending == old(line.pending)[n..]
    {
      hide FrameOf, ReceiptOf;
      ghost var s := line.pending;
      if confirmationToIgnore {
        var _, _ := ReceiveMsg(Rtu, Confirmation, slave, line, req);
        confirmationToIgnore := false;
        rc := Zero;
      } else {
        var r, got := ReceiveMsg(Rtu, Indication, slave, line, req);
        ReceiptCut(slave, s);
        SplicedPrefix(old(req[..]), s[..got]);
        assert req[..][..got] == req[..got];
        match r
        case Message(n) => rc := Request(req[..n]);
        case Ignored => rc := Zero; confirmationToIgnore := true;
        case _ => rc := Error;
      }
    }
  }

  /** Calls Receive until the line is empty: the results are those of Listen, however the bytes trickle in. */
  method Drain(listener: Listener, line: Stream, req: array<byte>) returns (rs: seq<Returned>)
    requires line.reliable && req.Length >= MAX_MESSAGE_LENGTH
    modifies listener, line, req
    ensures rs == Listen(listener.slave, old(listener.confirmationToIgnore), old(line.pending))
    ensures line.pending == []
  {
    hide ReceiveStep;
    ghost var all := Listen(listener.slave, listener.confirmationToIgnore, line.pending);
    rs := [];
    while line.pending != []
      invariant all == rs + Listen(listener.slave, listener.confirmationToIgnore, line.pending)
      decreases |line.pending|
    {
      var x := listener.Receive(line, req);
      rs := rs + [x];
    }
  }

  lemma ReceiptCut(slave: byte, s: seq<byte>)
    ensures var r := ReceiptOf(Rtu, Indication, slave, s);
      r.Message? ==> r.length == Consumed(FrameOf(Rtu, Indication, s)) <= |s|
  {
    hide Crc.CrcBytes;
  }
}
