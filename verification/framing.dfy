/** Function codes, and the shape of request and response PDUs in the MODBUS Application Protocol V1.1b. */
module Pdus {
  import opened Bytes

  const READ_COILS: byte := 0x01
  const READ_DISCRETE_INPUTS: byte := 0x02
  const READ_HOLDING_REGISTERS: byte := 0x03
  const READ_INPUT_REGISTERS: byte := 0x04
  const WRITE_SINGLE_COIL: byte := 0x05
  const WRITE_SINGLE_REGISTER: byte := 0x06
  const READ_EXCEPTION_STATUS: byte := 0x07
  const WRITE_MULTIPLE_COILS: byte := 0x0F
  const WRITE_MULTIPLE_REGISTERS: byte := 0x10
  const REPORT_SLAVE_ID: byte := 0x11
  const MASK_WRITE_REGISTER: byte := 0x16
  const WRITE_AND_READ_REGISTERS: byte := 0x17

  /** Sections 6.1 to 6.17: fixed fields, then as many bytes as the byte count says. */
  predicate RequestShape(pdu: seq<byte>) {
    && pdu != []
    && var f := pdu[0];
       if 1 <= f <= WRITE_SINGLE_REGISTER then |pdu| == 5
       else if f == WRITE_MULTIPLE_COILS || f == WRITE_MULTIPLE_REGISTERS then |pdu| >= 6 && |pdu| - 6 == pdu[5]
       else if f == MASK_WRITE_REGISTER then |pdu| == 7
       else if f == WRITE_AND_READ_REGISTERS then |pdu| >= 10 && |pdu| - 10 == pdu[9]
       else if f == READ_EXCEPTION_STATUS || f == REPORT_SLAVE_ID then |pdu| == 1
       else false
  }

  /** The matching responses, and the two-byte exception response of section 7. */
  predicate ResponseShape(pdu: seq<byte>) {
    && |pdu| >= 2
    && var f := pdu[0];
       if 1 <= f <= READ_INPUT_REGISTERS || f == REPORT_SLAVE_ID || f == WRITE_AND_READ_REGISTERS then
         |pdu| - 2 == pdu[1]
       else if f == WRITE_SINGLE_COIL || f == WRITE_SINGLE_REGISTER then |pdu| == 5
       else if f == WRITE_MULTIPLE_COILS || f == WRITE_MULTIPLE_REGISTERS then |pdu| == 5
       else if f == MASK_WRITE_REGISTER then |pdu| == 7
       else if f == READ_EXCEPTION_STATUS || f >= 0x80 then |pdu| == 2
       else false
  }
}

/** The three-step reader that finds where a message ends while it is still arriving. */
module Framing {
  import opened Bytes
  import opened Backends
  import opened Pdus

  datatype MsgType = Indication | Confirmation

  datatype Step = StepFunction | StepMeta | StepData

  function MetaLength(f: byte, mt: MsgType): (n: nat)
    ensures n <= 9
  {
    match mt
    case Indication =>
      if f <= WRITE_SINGLE_REGISTER then 4
      else if f == WRITE_MULTIPLE_COILS || f == WRITE_MULTIPLE_REGISTERS then 5
      else if f == MASK_WRITE_REGISTER then 6
      else if f == WRITE_AND_READ_REGISTERS then 9
      else 0
    case Confirmation =>
      if f == WRITE_SINGLE_COIL || f == WRITE_SINGLE_REGISTER
         || f == WRITE_MULTIPLE_COILS || f == WRITE_MULTIPLE_REGISTERS then 4
      else if f == MASK_WRITE_REGISTER then 6
      else 1
  }

  function DataLength(be: Backend, mt: MsgType, msg: seq<byte>): (n: nat)
    requires be.HeaderLength() < |msg|
    requires be.HeaderLength() + 1 + MetaLength(msg[be.HeaderLength()], mt) <= |msg|
  {
    var h := be.HeaderLength();
    var f := msg[h];
    be.ChecksumLength() +
    match mt
    case Indication =>
      if f == WRITE_MULTIPLE_COILS || f == WRITE_MULTIPLE_REGISTERS then msg[h + 5]
      else if f == WRITE_AND_READ_REGISTERS then msg[h + 9]
      else 0
    case Confirmation =>
      if f <= READ_INPUT_REGISTERS || f == REPORT_SLAVE_ID || f == WRITE_AND_READ_REGISTERS then msg[h + 1]
      else 0
  }

  /** What the reader makes of a byte stream, told without steps. */
  datatype Extent = Complete(length: nat) | TooLong(consumed: nat) | Starved(consumed: nat)

  function FrameOf(be: Backend, mt: MsgType, s: seq<byte>): (e: Extent)
    ensures match e
      case Complete(n) => be.HeaderLength() + be.ChecksumLength() < n <= |s| && n <= be.MaxAduLength()
      case TooLong(n) => n <= |s| && n <= be.MaxAduLength()
      case Starved(n) => n == |s| < be.MaxAduLength()
  {
    var h := be.HeaderLength();
    if |s| < h + 1 then Starved(|s|)
    else
      var meta := h + 1 + MetaLength(s[h], mt);
      if |s| < meta then Starved(|s|)
      else
        var total := meta + DataLength(be, mt, s);
        if total > be.MaxAduLength() then TooLong(meta)
        else if |s| < total then Starved(|s|)
        else Complete(total)
  }

  function Consumed(e: Extent): (n: nat) {
    match e
    case Complete(n) => n
    case TooLong(n) => n
    case Starved(n) => n
  }

  /** The outcome of one receive on a stream, for a context that answers to slave. */
  function ReceiptOf(be: Backend, mt: MsgType, slave: int, s: seq<byte>): (r: Receipt) {
    match FrameOf(be, mt, s)
    case Complete(n) => CheckIntegrity(be, slave, s[..n])
    case TooLong(_) => Rejected(EMBBADDATA)
    case Starved(_) => LinkDown
  }

  /** A stream that begins with some header, a well-shaped PDU and some checksum is cut off exactly behind them. */
  lemma FrameExact(be: Backend, mt: MsgType, s: seq<byte>, pdu: seq<byte>)
    requires |pdu| <= MAX_PDU_LENGTH && (if mt.Indication? then RequestShape(pdu) else ResponseShape(pdu))
    requires |s| >= be.HeaderLength() + |pdu| + be.ChecksumLength()
    requires forall i :: 0 <= i < |pdu| ==> s[be.HeaderLength() + i] == pdu[i]
    ensures FrameOf(be, mt, s) == Complete(be.HeaderLength() + |pdu| + be.ChecksumLength())
  {
    assert s[be.HeaderLength() + 0] == pdu[0];
    if |pdu| > 1 { assert s[be.HeaderLength() + 1] == pdu[1]; }
    if |pdu| > 5 { assert s[be.HeaderLength() + 5] == pdu[5]; }
    if |pdu| > 9 { assert s[be.HeaderLength() + 9] == pdu[9]; }
  }

  /** Every well-shaped request that fits is cut off exactly at its last byte, whatever follows it on the line. */
  lemma RequestFrameExact(be: Backend, h: Header, pdu: seq<byte>, rest: seq<byte>)
    requires RequestShape(pdu) && |pdu| <= MAX_PDU_LENGTH
    ensures FrameOf(be, Indication, Adu(be, h, pdu) + rest) == Complete(|Adu(be, h, pdu)|)
  {
    hide FrameOf, RequestShape, Adu;
    FrameReadsPdu(be, h, pdu, rest);
    FrameExact(be, Indication, Adu(be, h, pdu) + rest, pdu);
  }

  /** Every well-shaped response that fits, normal or exception, is cut off exactly at its last byte. */
  lemma ResponseFrameExact(be: Backend, h: Header, pdu: seq<byte>, rest: seq<byte>)
    requires ResponseShape(pdu) && |pdu| <= MAX_PDU_LENGTH
    ensures FrameOf(be, Confirmation, Adu(be, h, pdu) + rest) == Complete(|Adu(be, h, pdu)|)
  {
    hide FrameOf, ResponseShape, Adu;
    FrameReadsPdu(be, h, pdu, rest);
    FrameExact(be, Confirmation, Adu(be, h, pdu) + rest, pdu);
  }

  lemma FrameReadsPdu(be: Backend, h: Header, pdu: seq<byte>, rest: seq<byte>)
    ensures forall i :: 0 <= i < |pdu| ==> (Adu(be, h, pdu) + rest)[be.HeaderLength() + i] == pdu[i]
  {
    hide Crc.CrcBytes;
  }

  /** The functions whose normal response is longer than two bytes, or is taken to be: a byte count of 1 follows. */
  predicate ClaimsMore(f: byte) {
    || f <= WRITE_SINGLE_REGISTER || f == WRITE_MULTIPLE_COILS || f == WRITE_MULTIPLE_REGISTERS || f == REPORT_SLAVE_ID
    || f == MASK_WRITE_REGISTER || f == WRITE_AND_READ_REGISTERS
  }

  /** A response of a function code and the byte 1 ends at its last byte exactly if the function claims no more. */
  lemma ShortResponseIff(be: Backend, h: Header, f: byte, rest: seq<byte>)
    ensures var wire := Adu(be, h, [f, 1]);
      FrameOf(be, Confirmation, wire + rest) == Complete(|wire|) <==> !ClaimsMore(f)
  {
    hide Crc.CrcBytes;
    FrameReadsPdu(be, h, [f, 1], rest);
    var s := Adu(be, h, [f, 1]) + rest;
    assert s[be.HeaderLength() + 0] == f && s[be.HeaderLength() + 1] == 1;
  }

  /** The bytes behind the header that an indication has when the reader is done with it, checksum not counted. */
  predicate Received(p: seq<byte>, n: nat)
    requires |p| >= 10
  {
    var f := p[0];
    && n <= MAX_PDU_LENGTH
    && if f <= WRITE_SINGLE_REGISTER then n == 5
       else if f == WRITE_MULTIPLE_COILS || f == WRITE_MULTIPLE_REGISTERS then n - 6 == p[5]
       else if f == MASK_WRITE_REGISTER then n == 7
       else if f == WRITE_AND_READ_REGISTERS then n - 10 == p[9]
       else n == 1
  }

  /** That is what a complete indication is, in a buffer that still holds anything behind it. */
  lemma CompleteIsReceived(be: Backend, s: seq<byte>, stale: seq<byte>)
    requires |stale| == MAX_MESSAGE_LENGTH && FrameOf(be, Indication, s).Complete?
    ensures var n, h := FrameOf(be, Indication, s).length, be.HeaderLength();
      var p := (s[..n] + stale[n..])[h..];
      |p| >= MAX_PDU_LENGTH && p[0] == s[h] && Received(p, n - h - be.ChecksumLength())
  {
    var n, h := FrameOf(be, Indication, s).length, be.HeaderLength();
    var buf := s[..n] + stale[n..];
    assert forall i :: 0 <= i < n ==> buf[i] == s[i];
  }

  /** The length of the PDU that a message announces, once its fixed fields are there. */
  function Announced(mt: MsgType, p: seq<byte>): (n: nat)
    requires p != [] && |p| >= 1 + MetaLength(p[0], mt)
  {
    var f := p[0];
    match mt
    case Indication =>
      if f <= 6 then 5 else if f == 15 || f == 16 then 6 + (p[5] as int) else if f == 22 then 7
      else if f == 23 then 10 + (p[9] as int) else 1
    case Confirmation =>
      if f <= 4 || f == 17 || f == 23 then 2 + (p[1] as int) else if f == 5 || f == 6 || f == 15 || f == 16 then 5
      else if f == 22 then 7 else 2
  }

  /**
   * What the reader makes of any stream, told by the length announced: it waits until the message is whole, and refuses
   * it, as soon as the length is known, exactly if the PDU would be longer than 253 bytes.
   */
  lemma FrameOfAnnounced(be: Backend, mt: MsgType, s: seq<byte>)
    requires |s| > be.HeaderLength()
    ensures var (h, f) := (be.HeaderLength(), s[be.HeaderLength()]); var p := s[h..];
      if |p| < 1 + MetaLength(f, mt) then FrameOf(be, mt, s) == Starved(|s|)
      else
        var total := h + Announced(mt, p) + be.ChecksumLength();
        if Announced(mt, p) > 253 then FrameOf(be, mt, s) == TooLong(h + 1 + MetaLength(f, mt))
        else FrameOf(be, mt, s) == if |s| < total then Starved(|s|) else Complete(total)
  {
    var h := be.HeaderLength();
    var p := s[h..];
    assert p[0] == s[h];
    if |p| >= 2 { assert p[1] == s[h + 1]; }
    if |p| >= 6 { assert p[5] == s[h + 5]; }
    if |p| >= 10 { assert p[9] == s[h + 9]; }
  }

  /** Such a message is refused as bad data, and nothing behind its fixed fields is read. */
  lemma OversizedRefused(be: Backend, mt: MsgType, slave: int, s: seq<byte>)
    requires |s| > be.HeaderLength()
    requires |s| >= be.HeaderLength() + 1 + MetaLength(s[be.HeaderLength()], mt)
    requires Announced(mt, s[be.HeaderLength()..]) > 253
    ensures ReceiptOf(be, mt, slave, s) == Rejected(EMBBADDATA)
  {
    hide FrameOf;
    FrameOfAnnounced(be, mt, s);
  }

  /** Every confirmation has at least one byte behind its function code. */
  lemma ConfirmationLength(be: Backend, s: seq<byte>)
    ensures FrameOf(be, Confirmation, s).Complete? ==>
      FrameOf(be, Confirmation, s).length >= be.HeaderLength() + 2 + be.ChecksumLength()
  {
  }

  /** Bytes that arrive after the end of a message do not change how it is read. */
  lemma FrameStable(be: Backend, mt: MsgType, s: seq<byte>, rest: seq<byte>)
    requires !FrameOf(be, mt, s).Starved?
    ensures FrameOf(be, mt, s + rest) == FrameOf(be, mt, s)
  {
  }

  // ----- The reader itself -----

  /** m with the bytes from index at on replaced by bs. */
  function Spliced(m: seq<byte>, at: nat, bs: seq<byte>): (r: seq<byte>)
    requires at + |bs| <= |m|
  {
    m[..at] + bs + m[at + |bs|..]
  }

  lemma SplicedTwice(m: seq<byte>, s: seq<byte>, got: nat, rc: nat)
    requires got + rc <= |s| && got + rc <= |m|
    ensures Spliced(Spliced(m, 0, s[..got]), got, s[got..][..rc]) == Spliced(m, 0, s[..got + rc])
  {
  }

  lemma SplicedPrefix(m: seq<byte>, bs: seq<byte>)
    requires |bs| <= |m|
    ensures |Spliced(m, 0, bs)| == |m| && Spliced(m, 0, bs)[..|bs|] == bs
  {
  }

  /** One direction of a link. A reliable link delivers while it has bytes; any read may return fewer than asked for. */
  class Stream {
    var pending: seq<byte>
    const reliable: bool

    constructor (bytes: seq<byte>, reliable: bool)
      ensures pending == bytes && this.reliable == reliable
    {
      pending := bytes;
      this.reliable := reliable;
    }

    method Send(bytes: seq<byte>)
      modifies this
      ensures pending == old(pending) + bytes
    {
      pending := pending + bytes;
    }

    method Flush()
      modifies this
      ensures pending == []
    {
      pending := [];
    }

    /** select followed by recv: any non-empty prefix of at most max bytes, or failure (-1 or 0). */
    method Recv(msg: array<byte>, at: nat, max: nat) returns (rc: int)
      requires 0 < max && at + max <= msg.Length
      modifies this, msg
      ensures rc <= max && rc <= |old(pending)|
      ensures reliable && old(pending) != [] ==> rc > 0
      ensures pending == old(pending)[if rc > 0 then rc else 0..]
      ensures msg[..] == Spliced(old(msg[..]), at, old(pending)[..if rc > 0 then rc else 0])
    {
      if pending == [] {
        rc := 0;
      } else {
        rc :| -1 <= rc <= max && rc <= |pending| && (reliable ==> rc > 0);
        if rc > 0 {
          forall k | 0 <= k < rc { msg[at + k] := pending[k]; }
          pending := pending[rc..];
        }
      }
    }
  }

  /** How far the current step reads, given the whole stream s. */
  ghost function Target(be: Backend, mt: MsgType, s: seq<byte>, step: Step): (n: nat)
    requires !step.StepFunction? ==> be.HeaderLength() < |s|
    requires step.StepData? ==> be.HeaderLength() + 1 + MetaLength(s[be.HeaderLength()], mt) <= |s|
  {
    var h := be.HeaderLength();
    match step
    case StepFunction => h + 1
    case StepMeta => h + 1 + MetaLength(s[h], mt)
    case StepData => h + 1 + MetaLength(s[h], mt) + DataLength(be, mt, s)
  }

  ghost predicate Reading(be: Backend, mt: MsgType, s: seq<byte>, step: Step, msgLength: nat, lengthToRead: nat) {
    && msgLength <= |s|
    && (!step.StepFunction? ==> be.HeaderLength() < |s|)
    && (step.StepData? ==> be.HeaderLength() + 1 + MetaLength(s[be.HeaderLength()], mt) <= |s|)
    && msgLength + lengthToRead == Target(be, mt, s, step)
    && msgLength + lengthToRead <= be.MaxAduLength()
  }

  function Rank(step: Step): nat {
    match step
    case StepFunction => 2
    case StepMeta => 1
    case StepData => 0
  }

  /**
   * Whatever sizes the reads come back with, a reliable link yields the message, the outcome and the remaining
   * bytes that FrameOf describes, and no more than the longest frame is ever stored. When the link fails, the
   * reader has taken a part of the same frame and nothing else.
   */
  method ReceiveMsg(be: Backend, mt: MsgType, slave: int, link: Stream, msg: array<byte>)
    returns (r: Receipt, got: nat)
    requires msg.Length >= be.MaxAduLength()
    modifies link, msg
    ensures got <= |old(link.pending)| && link.pending == old(link.pending)[got..]
    ensures got <= be.MaxAduLength()
    ensures msg[..] == Spliced(old(msg[..]), 0, old(link.pending)[..got])
    ensures link.reliable || r != LinkDown ==> r == ReceiptOf(be, mt, slave, old(link.pending))
    ensures link.reliable || r != LinkDown ==> got == Consumed(FrameOf(be, mt, old(link.pending)))
    ensures got <= Consumed(FrameOf(be, mt, old(link.pending)))
  {
    hide Reading, FrameOf, CheckIntegrity, Spliced;
    ghost var s, orig := link.pending, msg[..];
    got := 0;
    var step := StepFunction;
    var lengthToRead: nat := be.HeaderLength() + 1;
    ReadingStarts(be, mt, s);
    SplicedNothing(orig, s);
    while lengthToRead != 0
      invariant Reading(be, mt, s, step, got, lengthToRead)
      invariant lengthToRead == 0 ==> step == StepData
      invariant got <= |s| && link.pending == s[got..]
      invariant got + lengthToRead <= be.MaxAduLength()
      invariant msg[..] == Spliced(orig, 0, s[..got])
      decreases Rank(step), lengthToRead
    {
      var rc := link.Recv(msg, got, lengthToRead);
      if rc <= 0 {
        ReadingStops(be, mt, s, step, got, lengthToRead);
        SplicedTwice(orig, s, got, 0);
        r := LinkDown;
        return;
      }
      ReadingMore(be, mt, s, step, got, lengthToRead, rc);
      SplicedTwice(orig, s, got, rc);
      got := got + rc;
      lengthToRead := lengthToRead - rc;
      if lengthToRead == 0 && step != StepData {
        SplicedPrefix(orig, s[..got]);
        step, lengthToRead := Advance(be, mt, msg, got, step, s);
        if got + lengthToRead > be.MaxAduLength() {
          r := Rejected(EMBBADDATA);
          return;
        }
      }
    }
    ReadingEnds(be, mt, s, got);
    SplicedPrefix(orig, s[..got]);
    assert msg[..][..got] == msg[..got];
    r := CheckIntegrity(be, slave, msg[..got]);
  }

  lemma SplicedNothing(m: seq<byte>, s: seq<byte>)
    ensures Spliced(m, 0, s[..0]) == m
  {
  }

  lemma ReadingStarts(be: Backend, mt: MsgType, s: seq<byte>)
    ensures Reading(be, mt, s, StepFunction, 0, be.HeaderLength() + 1)
  {
  }

  lemma ReadingMore(be: Backend, mt: MsgType, s: seq<byte>, step: Step, got: nat, left: nat, rc: nat)
    requires Reading(be, mt, s, step, got, left) && rc <= left && got + rc <= |s|
    ensures Reading(be, mt, s, step, got + rc, left - rc)
  {
  }

  lemma ReadingStops(be: Backend, mt: MsgType, s: seq<byte>, step: Step, got: nat, left: nat)
    requires Reading(be, mt, s, step, got, left) && left > 0
    ensures got <= Consumed(FrameOf(be, mt, s))
    ensures got == |s| ==> FrameOf(be, mt, s) == Starved(|s|)
  {
  }

  lemma ReadingEnds(be: Backend, mt: MsgType, s: seq<byte>, got: nat)
    requires Reading(be, mt, s, StepData, got, 0)
    ensures FrameOf(be, mt, s) == Complete(got)
  {
  }

  /** The switch at the end of a step: what to read next. */
  method Advance(be: Backend, mt: MsgType, msg: array<byte>, got: nat, step: Step, ghost s: seq<byte>)
    returns (step': Step, lengthToRead: nat)
    requires step != StepData && got <= msg.Length && got <= |s| && msg[..][..got] == s[..got]
    requires Reading(be, mt, s, step, got, 0)
    ensures Rank(step') < Rank(step)
    ensures lengthToRead == 0 ==> step' == StepData
    ensures if got + lengthToRead > be.MaxAduLength() then FrameOf(be, mt, s) == TooLong(got)
            else Reading(be, mt, s, step', got, lengthToRead)
  {
    var h := be.HeaderLength();
    assert msg[..got] == msg[..][..got];
    assert msg[..got][h] == msg[h];
    lengthToRead := 0;
    if step == StepFunction {
      lengthToRead := MetaLength(msg[h], mt);
    }
    if lengthToRead != 0 {
      step' := StepMeta;
    } else {
      AgreeOnPrefix(be, mt, s, msg[..got]);
      lengthToRead := DataLength(be, mt, msg[..got]);
      step' := StepData;
    }
  }

  lemma AgreeOnPrefix(be: Backend, mt: MsgType, s: seq<byte>, m: seq<byte>)
    requires m <= s && be.HeaderLength() < |m|
    requires be.HeaderLength() + 1 + MetaLength(m[be.HeaderLength()], mt) <= |m|
    ensures DataLength(be, mt, s) == DataLength(be, mt, m)
  {
  }
}
