/** A client call run through builder, wire, server and confirmation check is a call on the reference memory. */
module EndToEnd {
  import opened Bytes
  import opened Bits
  import opened Packing
  import opened Backends
  import opened Pdus
  import opened Framing
  import opened Server
  import opened Client
  import opened ReferenceMemory

  // ----- The request as the server reads it -----

  /** The buffer holds the request of c, then anything. */
  ghost predicate Contains(p: Buffer, c: Call)
    requires InLimit(c)
  {
    RequestPdu(c) <= p
  }

  lemma FieldsOfRequest(p: Buffer, c: Call)
    requires InLimit(c) && Contains(p, c)
    ensures p[0] == FunctionCode(c)
    ensures !c.CallWriteAndRead? ==> Field(p, 1) == U16(c.addr)
    ensures c.CallReadBits? || c.CallReadInputBits? || c.CallReadRegisters? || c.CallReadInputRegisters? ==>
      Field(p, 3) == U16(c.nb)
    ensures c.CallWriteBit? ==> Field(p, 3) == if c.status then 0xFF00 else 0
    ensures c.CallWriteRegister? ==> Field(p, 3) == U16(c.value)
    ensures c.CallWriteBits? ==> Field(p, 3) == |c.bits|
    ensures c.CallWriteRegisters? ==> Field(p, 3) == |c.regs|
    ensures c.CallMaskWrite? ==> Field(p, 3) == c.andMask && Field(p, 5) == c.orMask
    ensures c.CallWriteAndRead? ==>
      && Field(p, 1) == U16(c.readAddr) && Field(p, 3) == U16(c.readNb)
      && Field(p, 5) == U16(c.writeAddr) && Field(p, 7) == |c.regs| && p[9] == 2 * |c.regs|
  {
    hide Hi, Lo, Word, PackCells, RegisterBytes, Truth;
    var q := RequestPdu(c);
    assert forall i :: 0 <= i < |q| ==> p[i] == q[i];
    match c
    case CallWriteAndRead(wa, regs, ra, rn) =>
      WordHiLo(ra); WordHiLo(rn); WordHiLo(wa); WordHiLo(|regs|);
    case CallWriteBit(a, s) => WordHiLo(a); WordHiLo(0xFF00); WordHiLo(0);
    case CallWriteRegister(a, v) => WordHiLo(a); WordHiLo(v);
    case CallWriteBits(a, bits) => WordHiLo(a); WordHiLo(|bits|);
    case CallWriteRegisters(a, regs) => WordHiLo(a); WordHiLo(|regs|);
    case CallMaskWrite(a, x, y) => WordHiLo(a); WordHiLo(x); WordHiLo(y);
    case _ => WordHiLo(c.addr); WordHiLo(c.nb);
  }

  lemma PayloadOfRequest(p: Buffer, c: Call)
    requires InLimit(c) && Contains(p, c)
    ensures c.CallWriteBits? ==> UnpackBits(p[6..], |c.bits|) == Truth(c.bits)
    ensures c.CallWriteRegisters? ==> Registers(p[6..], |c.regs|) == c.regs
    ensures c.CallWriteAndRead? ==> Registers(p[10..], |c.regs|) == c.regs
  {
    hide Hi, Lo, PackCells, RegisterBytes, UnpackBits, Registers;
    var q := RequestPdu(c);
    assert p == q + p[|q|..];
    match c
    case CallWriteBits(_, bits) =>
      assert p[6..] == PackCells(Truth(bits)) + p[|q|..];
      UnpackPack(Truth(bits), p[|q|..]);
    case CallWriteRegisters(_, regs) =>
      assert p[6..] == RegisterBytes(regs) + p[|q|..];
      RegistersRoundTrip(regs, p[|q|..]);
    case CallWriteAndRead(_, regs, _, _) =>
      assert p[10..] == RegisterBytes(regs) + p[|q|..];
      RegistersRoundTrip(regs, p[|q|..]);
    case _ =>
  }

  // ----- The answer as the client expects it -----

  /** The PDU that carries outcome o of call c. */
  ghost predicate Carries(c: Call, o: Outcome, pdu: seq<byte>)
    requires InLimit(c)
  {
    var f := FunctionCode(c);
    match o
    case Failure(e) => (e == EMBXILADD || e == EMBXILVAL) && pdu == [f + 0x80, e - ENOBASE]
    case Success(rc, dest) =>
      && |pdu| >= 2 && pdu[0] == f
      && match c
         case CallReadBits(_, nb) => CarriesBits(nb, o, pdu)
         case CallReadInputBits(_, nb) => CarriesBits(nb, o, pdu)
         case CallReadRegisters(_, nb) => CarriesRegisters(nb, o, pdu)
         case CallReadInputRegisters(_, nb) => CarriesRegisters(nb, o, pdu)
         case CallWriteAndRead(_, _, _, nb) => CarriesRegisters(nb, o, pdu)
         case CallWriteBits(_, bits) => |pdu| == 5 && Word(pdu[3], pdu[4]) == |bits| && o == Success(|bits|, [])
         case CallWriteRegisters(_, regs) => |pdu| == 5 && Word(pdu[3], pdu[4]) == |regs| && o == Success(|regs|, [])
         case CallMaskWrite(_, _, _) => |pdu| == 7 && o == Success(1, [])
         case _ => |pdu| == 5 && o == Success(1, [])
  }

  ghost predicate CarriesBits(nb: int, o: Outcome, pdu: seq<byte>)
    requires nb <= MAX_READ_BITS
  {
    var count := ByteCount(U16(nb));
    |pdu| == 2 + count && pdu[1] == count && o == Success(nb, UnpackBits(pdu[2..], Delivered(nb)))
  }

  ghost predicate CarriesRegisters(nb: int, o: Outcome, pdu: seq<byte>) {
    |pdu| == 2 + 2 * U16(nb) && pdu[1] == 2 * U16(nb) && o == Success(U16(nb), Registers(pdu[2..], U16(nb)))
  }

  /**
   * The response header passes the transport's check against the request: the slave on the serial line; on TCP the
   * transaction id, and a protocol id of which one byte is zero.
   */
  predicate Passes(be: Backend, request: Header, response: Header) {
    match be
    case Rtu => response.slave == request.slave || request.slave == BROADCAST
    case Tcp => response.tid == request.tid && (Hi(response.protocol) == 0 || Lo(response.protocol) == 0)
  }

  lemma PreCheckIff(be: Backend, h: Header, pdu: seq<byte>, req: seq<byte>)
    requires |req| >= be.HeaderLength()
    ensures PreCheck(be, req, Adu(be, h, pdu)).Confirmed? <==> Passes(be, HeaderOf(be, req), h)
    ensures PreCheck(be, req, Adu(be, h, pdu)) ==
      if Passes(be, HeaderOf(be, req), h) then Confirmed(0) else Refused(if be.Rtu? then EMBBADSLAVE else EMBBADDATA)
  {
    if be.Tcp? {
      HiLoWord(req[0], req[1]);
      WordHiLo(h.tid);
    }
  }

  /**
   * Whatever the server put in the answer, the client takes out again (values, quantity or error number) exactly if
   * the response header passes; otherwise it reports the error of the transport's check.
   */
  lemma DecodeCarried(be: Backend, h: Header, c: Call, o: Outcome, pdu: seq<byte>, req: seq<byte>)
    requires InLimit(c) && Holds(be, req, c) && Carries(c, o, pdu)
    ensures Decode(be, c, req, Adu(be, h, pdu)) == o <==> Passes(be, HeaderOf(be, req), h)
    ensures Decode(be, c, req, Adu(be, h, pdu)) ==
      if Passes(be, HeaderOf(be, req), h) then o else Failure(if be.Rtu? then EMBBADSLAVE else EMBBADDATA)
  {
    hide Holds, UnpackBits, Registers, HeaderOf, CheckConfirmation, Adu, ByteCount, Passes;
    var rsp := Adu(be, h, pdu);
    var k := be.HeaderLength();
    HoldsRoom(be, req, c);
    ConfirmCarried(be, h, c, o, pdu, req);
    AduTail(be, h, pdu);
    if Passes(be, HeaderOf(be, req), h) && o.Success? {
      ConfirmedRoom(be, c, req, rsp);
      if c.CallReadBits? || c.CallReadInputBits? {
        PrefixBits(pdu[2..], rsp[k + 2..], Delivered(c.nb));
      } else if c.CallReadRegisters? || c.CallReadInputRegisters? {
        PrefixRegisters(pdu[2..], rsp[k + 2..], U16(c.nb));
      } else if c.CallWriteAndRead? {
        PrefixRegisters(pdu[2..], rsp[k + 2..], U16(c.readNb));
      }
    }
  }

  lemma HoldsRoom(be: Backend, req: seq<byte>, c: Call)
    requires InLimit(c) && Holds(be, req, c)
    ensures |req| >= be.HeaderLength() + 5
  {
  }

  lemma CarriedRoom(c: Call, o: Outcome, pdu: seq<byte>)
    requires InLimit(c) && Carries(c, o, pdu)
    ensures |pdu| >= 2
  {
  }

  /** A response of another protocol than MODBUS, for instance number 0x0100, is taken for the answer. */
  lemma OtherProtocolAccepted(c: Call, o: Outcome, pdu: seq<byte>, req: seq<byte>)
    requires InLimit(c) && Holds(Tcp, req, c) && Carries(c, o, pdu)
    ensures var h := HeaderOf(Tcp, req).(protocol := 0x0100); Decode(Tcp, c, req, Adu(Tcp, h, pdu)) == o
    ensures var h := HeaderOf(Tcp, req).(protocol := 0x0101);
      Decode(Tcp, c, req, Adu(Tcp, h, pdu)) == Failure(EMBBADDATA)
  {
    hide Decode, Holds, Carries, HeaderOf, Adu;
    HoldsRoom(Tcp, req, c);
    DecodeCarried(Tcp, HeaderOf(Tcp, req).(protocol := 0x0100), c, o, pdu, req);
    DecodeCarried(Tcp, HeaderOf(Tcp, req).(protocol := 0x0101), c, o, pdu, req);
  }

  lemma AduTail(be: Backend, h: Header, pdu: seq<byte>)
    requires |pdu| >= 2
    ensures pdu[2..] <= Adu(be, h, pdu)[be.HeaderLength() + 2..]
  {
    hide Crc.CrcBytes, Hi, Lo;
  }

  /** rsp is some frame around pdu that passed the transport's own check. */
  ghost predicate Wraps(be: Backend, req: seq<byte>, rsp: seq<byte>, pdu: seq<byte>) {
    var k := be.HeaderLength();
    && |rsp| == k + |pdu| + be.ChecksumLength()
    && |req| >= k && PreCheck(be, req, rsp) == Confirmed(0)
    && (forall i :: 0 <= i < |pdu| ==> rsp[k + i] == pdu[i])
  }

  lemma ConfirmFailure(be: Backend, c: Call, e: int, pdu: seq<byte>, req: seq<byte>, rsp: seq<byte>)
    requires InLimit(c) && Holds(be, req, c) && Wraps(be, req, rsp, pdu) && Carries(c, Failure(e), pdu)
    ensures CheckConfirmation(be, req, rsp) == Refused(e)
  {
    hide Hi, Lo, Word, PackCells, RegisterBytes, PreCheck, Truth, ResponseLength;
    assert rsp[be.HeaderLength() + 0] == pdu[0] && rsp[be.HeaderLength() + 1] == pdu[1];
  }

  predicate IsWrite(c: Call) {
    c.CallWriteBit? || c.CallWriteRegister? || c.CallWriteBits? || c.CallWriteRegisters? || c.CallMaskWrite?
  }

  lemma ConfirmWrite(be: Backend, c: Call, o: Outcome, pdu: seq<byte>, req: seq<byte>, rsp: seq<byte>)
    requires InLimit(c) && Holds(be, req, c) && Wraps(be, req, rsp, pdu) && Carries(c, o, pdu)
    requires o.Success? && IsWrite(c)
    ensures CheckConfirmation(be, req, rsp) == Confirmed(o.rc)
  {
    hide Hi, Lo, Word, PackCells, RegisterBytes, PreCheck, Truth;
    var k := be.HeaderLength();
    assert rsp[k + 0] == pdu[0] && rsp[k + 3] == pdu[3] && rsp[k + 4] == pdu[4];
    if c.CallWriteBits? { WordHiLo(|c.bits|); } else if c.CallWriteRegisters? { WordHiLo(|c.regs|); }
  }

  lemma ConfirmRead(be: Backend, c: Call, o: Outcome, pdu: seq<byte>, req: seq<byte>, rsp: seq<byte>)
    requires InLimit(c) && Holds(be, req, c) && Wraps(be, req, rsp, pdu) && Carries(c, o, pdu)
    requires o.Success? && !IsWrite(c)
    ensures CheckConfirmation(be, req, rsp) ==
      Confirmed(if c.CallReadBits? || c.CallReadInputBits? then ByteCount(U16(c.nb)) else o.rc)
  {
    hide Hi, Lo, Word, RegisterBytes, PreCheck, UnpackBits, Registers;
    var k := be.HeaderLength();
    assert rsp[k + 0] == pdu[0] && rsp[k + 1] == pdu[1];
    if c.CallWriteAndRead? { WordHiLo(c.readNb); } else { WordHiLo(c.nb); }
  }

  /** The check of a confirmation: a carried answer is confirmed with its count, or gives its error number. */
  lemma ConfirmCarried(be: Backend, h: Header, c: Call, o: Outcome, pdu: seq<byte>, req: seq<byte>)
    requires InLimit(c) && Holds(be, req, c) && Carries(c, o, pdu)
    ensures CheckConfirmation(be, req, Adu(be, h, pdu)) ==
      if !Passes(be, HeaderOf(be, req), h) then Refused(if be.Rtu? then EMBBADSLAVE else EMBBADDATA)
      else match o
        case Failure(e) => Refused(e)
        case Success(rc, _) => Confirmed(if c.CallReadBits? || c.CallReadInputBits? then ByteCount(U16(c.nb)) else rc)
  {
    hide Carries, HeaderOf, PreCheck, CheckConfirmation, Adu, Passes;
    PreCheckIff(be, h, pdu, req);
    var rsp := Adu(be, h, pdu);
    FrameReadsPdu(be, h, pdu, []);
    assert rsp + [] == rsp;
    if !Passes(be, HeaderOf(be, req), h) {
      CarriedRoom(c, o, pdu);
      NotConfirmed(be, req, rsp);
    } else if o.Failure? {
      ConfirmFailure(be, c, o.errno, pdu, req, rsp);
    } else if IsWrite(c) {
      ConfirmWrite(be, c, o, pdu, req, rsp);
    } else {
      ConfirmRead(be, c, o, pdu, req, rsp);
    }
  }

  lemma NotConfirmed(be: Backend, req: seq<byte>, rsp: seq<byte>)
    requires |req| >= be.HeaderLength() + 5 && |rsp| >= be.HeaderLength() + 2 && PreCheck(be, req, rsp).Refused?
    ensures CheckConfirmation(be, req, rsp) == PreCheck(be, req, rsp)
  {
    hide PreCheck;
  }

  lemma PrefixBits(a: seq<byte>, b: seq<byte>, n: nat)
    requires a <= b && n <= 8 * |a|
    ensures UnpackBits(a, n) == UnpackBits(b, n)
  {
    hide BitAt;
  }

  lemma PrefixRegisters(a: seq<byte>, b: seq<byte>, n: nat)
    requires a <= b && 2 * n <= |a|
    ensures Registers(a, n) == Registers(b, n)
  {
    hide Word;
  }

  // ----- The server against the reference, one kind of call at a time -----

  lemma ReadBitsCarries(start: int, cells: seq<byte>, p: Buffer, c: Call)
    requires AllBits(cells) && (c.CallReadBits? || c.CallReadInputBits?) && InLimit(c)
    requires p[0] == FunctionCode(c) && Field(p, 1) == U16(c.addr) && Field(p, 3) == U16(c.nb)
    ensures var r := ReadBits(start, cells, p);
      r.Answer? && !r.echo && Carries(c, ReadCells(SpaceOf(start, cells), U16(c.addr), c.nb), r.pdu)
  {
    hide PackCells, UnpackBits, SpaceOf, Has, Field;
    var a, nb := U16(c.addr), U16(c.nb);
    if 0 < nb <= MAX_READ_BITS {
      HasIffInside(start, cells, a, nb);
      if !Outside(start, |cells|, a, nb) {
        FetchIsSlice(start, cells, a, nb);
        var slice := cells[a - start..a - start + nb];
        UnpackPack(slice, []);
        var pdu := ReadBits(start, cells, p).pdu;
        assert pdu[2..] == PackCells(slice) == PackCells(slice) + [];
        if c.nb <= 0 { NoBits(pdu[2..]); }
      }
    }
  }

  lemma NoBits(bs: seq<byte>)
    ensures UnpackBits(bs, 0) == []
  {
  }

  lemma ReadRegistersCarries(start: int, regs: seq<word>, p: Buffer, c: Call)
    requires (c.CallReadRegisters? || c.CallReadInputRegisters?) && InLimit(c)
    requires p[0] == FunctionCode(c) && Field(p, 1) == U16(c.addr) && Field(p, 3) == U16(c.nb)
    ensures var r := ReadRegisters(start, regs, p);
      r.Answer? && !r.echo && Carries(c, ReadWords(SpaceOf(start, regs), U16(c.addr), c.nb), r.pdu)
  {
    hide RegisterBytes, Registers, SpaceOf, Has, Field;
    var a, nb := U16(c.addr), U16(c.nb);
    if 0 < nb <= MAX_READ_REGISTERS {
      HasIffInside(start, regs, a, nb);
      if !Outside(start, |regs|, a, nb) {
        FetchIsSlice(start, regs, a, nb);
        var slice := regs[a - start..a - start + nb];
        RegistersRoundTrip(slice, []);
        var pdu := ReadRegisters(start, regs, p).pdu;
        assert pdu[2..] == RegisterBytes(slice) == RegisterBytes(slice) + [];
      }
    }
  }

  lemma OverwriteOne(s: seq<word>, i: nat, x: word)
    requires i < |s|
    ensures Overwrite(s, i, [x]) == s[i := x]
  {
  }

  lemma OverwriteBytes(s: seq<byte>, i: nat, xs: seq<byte>)
    requires i + |xs| <= |s|
    ensures Overwrite<byte>(s, i, xs) == Overwrite<word>(s, i, xs)
  {
  }

  lemma WriteCoilCarries(start: int, cells: seq<byte>, p: Buffer, c: Call)
    requires c.CallWriteBit?
    requires p[0] == FunctionCode(c) && Field(p, 1) == U16(c.addr) && Field(p, 3) == if c.status then 0xFF00 else 0
    ensures var (cells', r) := WriteSingleCoil(start, cells, p, 5);
      var (s, o) := Write(SpaceOf(start, cells), U16(c.addr), [if c.status then 1 else 0]);
      r.Answer? && SpaceOf(start, cells') == s && Carries(c, o, r.pdu)
  {
    hide SpaceOf, Has, Field, Store;
    var a, x := U16(c.addr), if c.status then 1 else 0;
    HasIffInside(start, cells, a, 1);
    if !Outside(start, |cells|, a, 1) {
      StoreIsOverwrite(start, cells, a, [x]);
      OverwriteOne(cells, a - start, x);
    }
  }

  lemma WriteRegisterCarries(start: int, regs: seq<word>, p: Buffer, c: Call)
    requires c.CallWriteRegister?
    requires p[0] == FunctionCode(c) && Field(p, 1) == U16(c.addr) && Field(p, 3) == U16(c.value)
    ensures var (regs', r) := WriteSingleRegister(start, regs, p, 5);
      var (s, o) := Write(SpaceOf(start, regs), U16(c.addr), [U16(c.value)]);
      r.Answer? && SpaceOf(start, regs') == s && Carries(c, o, r.pdu)
  {
    hide SpaceOf, Has, Field, Store;
    var a := U16(c.addr);
    HasIffInside(start, regs, a, 1);
    if !Outside(start, |regs|, a, 1) {
      StoreIsOverwrite(start, regs, a, [U16(c.value)]);
      OverwriteOne(regs, a - start, U16(c.value));
    }
  }

  lemma MaskWriteCarries(start: int, regs: seq<word>, p: Buffer, c: Call)
    requires c.CallMaskWrite?
    requires p[0] == FunctionCode(c) && Field(p, 1) == U16(c.addr) && Field(p, 3) == c.andMask
      && Field(p, 5) == c.orMask
    ensures var (regs', r) := MaskWriteRegister(start, regs, p, 7);
      var m := SpaceOf(start, regs);
      var v := if U16(c.addr) in m then m[U16(c.addr)] else 0;
      var (s, o) := Write(m, U16(c.addr), [MaskMerge(v, c.andMask, c.orMask)]);
      r.Answer? && SpaceOf(start, regs') == s && Carries(c, o, r.pdu)
  {
    hide Field, Store, MaskMerge;
    var a := U16(c.addr);
    var m := SpaceOf(start, regs);
    HasIffInside(start, regs, a, 1);
    if !Outside(start, |regs|, a, 1) {
      var v := MaskMerge(m[a], c.andMask, c.orMask);
      StoreIsOverwrite(start, regs, a, [v]);
      OverwriteOne(regs, a - start, v);
    }
  }

  lemma WriteCoilsCarries(start: int, cells: seq<byte>, p: Buffer, c: Call)
    requires c.CallWriteBits? && InLimit(c)
    requires p[0] == FunctionCode(c) && Field(p, 1) == U16(c.addr) && Field(p, 3) == |c.bits|
    requires UnpackBits(p[6..], |c.bits|) == Truth(c.bits)
    ensures var (cells', r) := WriteMultipleCoils(start, cells, p);
      var (s, o) := Write(SpaceOf(start, cells), U16(c.addr), Truth(c.bits));
      r.Answer? && !r.echo && SpaceOf(start, cells') == s && Carries(c, o, r.pdu)
  {
    hide SpaceOf, Has, Store, UnpackBits, Truth, Word, Overwrite;
    var a := U16(c.addr);
    if c.bits != [] {
      HasIffInside(start, cells, a, |c.bits|);
      if !Outside(start, |cells|, a, |c.bits|) {
        StoreIsOverwrite(start, cells, a, Truth(c.bits));
        OverwriteBytes(cells, a - start, Truth(c.bits));
      }
    }
  }

  lemma WriteRegistersCarries(start: int, regs: seq<word>, p: Buffer, c: Call)
    requires c.CallWriteRegisters? && InLimit(c)
    requires p[0] == FunctionCode(c) && Field(p, 1) == U16(c.addr) && Field(p, 3) == |c.regs|
    requires Registers(p[6..], |c.regs|) == c.regs
    ensures var (regs', r) := WriteMultipleRegisters(start, regs, p);
      var (s, o) := Write(SpaceOf(start, regs), U16(c.addr), c.regs);
      r.Answer? && !r.echo && SpaceOf(start, regs') == s && Carries(c, o, r.pdu)
  {
    hide SpaceOf, Has, Store, Registers, Word, Overwrite;
    var a := U16(c.addr);
    if c.regs != [] {
      HasIffInside(start, regs, a, |c.regs|);
      if !Outside(start, |regs|, a, |c.regs|) {
        StoreIsOverwrite(start, regs, a, c.regs);
      }
    }
  }

  // ----- The one call that the server's guards do not cover -----

  /**
   * A write-and-read inside the limits whose read range exists and whose write range begins below the table and ends
   * inside or below it.
   */
  ghost predicate WritesBelow(t: Tables, c: Call) {
    && c.CallWriteAndRead? && InLimit(c) && c.regs != [] && 0 < U16(c.readNb) <= MAX_WR_READ_REGISTERS
    && !Outside(t.startRegisters, |t.registers|, U16(c.readAddr), U16(c.readNb))
    && U16(c.writeAddr) < t.startRegisters
    && U16(c.writeAddr) + |c.regs| <= t.startRegisters + |t.registers|
  }

  /** What such a call leaves in the register table: the part of the values that falls into it is stored. */
  ghost function StoredBelow(t: Tables, c: Call): (regs: seq<word>)
    requires WritesBelow(t, c)
    ensures |regs| == |t.registers|
  {
    StoreFrom<word>(t.registers, U16(c.writeAddr) - t.startRegisters, c.regs)
  }

  /** What the server and the client together really do: the reference, except that such a call succeeds. */
  ghost function Observed(t: Tables, c: Call): (r: (Memory, Outcome)) {
    if WritesBelow(t, c) then
      var regs, from, nb := StoredBelow(t, c), U16(c.readAddr) - t.startRegisters, U16(c.readNb);
      (Abs(t.(registers := regs)), Success(nb, regs[from..from + nb]))
    else Apply(Abs(t), c)
  }

  /** The reference refuses such a call. */
  lemma ReferenceRefuses(t: Tables, c: Call)
    requires WritesBelow(t, c)
    ensures Apply(Abs(t), c) == (Abs(t), Failure(EMBXILADD))
  {
    HasIffInside(t.startRegisters, t.registers, U16(c.writeAddr), |c.regs|);
  }

  /** So the code agrees with the reference exactly on the other calls. */
  lemma ObservedIff(t: Tables, c: Call)
    ensures Observed(t, c) == Apply(Abs(t), c) <==> !WritesBelow(t, c)
    ensures Observed(t, c).1 == Apply(Abs(t), c).1 <==> !WritesBelow(t, c)
  {
    hide Apply, Abs, WritesBelow, StoredBelow;
    if WritesBelow(t, c) { ReferenceRefuses(t, c); }
  }

  lemma WriteAndReadAnswers(t: Tables, p: Buffer, c: Call, regs': seq<word>)
    requires c.CallWriteAndRead? && InLimit(c) && c.regs != [] && 0 < U16(c.readNb) <= MAX_WR_READ_REGISTERS
    requires p[0] == FunctionCode(c) && Field(p, 1) == U16(c.readAddr) && Field(p, 3) == U16(c.readNb)
    requires Field(p, 5) == U16(c.writeAddr) && Field(p, 7) == |c.regs| && p[9] == 2 * |c.regs|
    requires Registers(p[10..], |c.regs|) == c.regs
    requires !Outside(t.startRegisters, |t.registers|, U16(c.readAddr), U16(c.readNb))
    requires U16(c.writeAddr) + |c.regs| <= t.startRegisters + |t.registers|
    requires regs' == StoreFrom<word>(t.registers, U16(c.writeAddr) - t.startRegisters, c.regs)
    ensures var r := WriteAndReadRegisters(t.startRegisters, t.registers, p).1;
      var from, nb := U16(c.readAddr) - t.startRegisters, U16(c.readNb);
      && WriteAndReadRegisters(t.startRegisters, t.registers, p).0 == regs'
      && r.Answer? && !r.echo && Carries(c, Success(nb, regs'[from..from + nb]), r.pdu)
      && r.front == InFront(U16(c.writeAddr) - t.startRegisters, c.regs)
  {
    hide Registers, RegisterBytes, Field, StoreFrom, InFront;
    var from, nb := U16(c.readAddr) - t.startRegisters, U16(c.readNb);
    var slice := regs'[from..from + nb];
    RegistersRoundTrip(slice, []);
    var pdu := WriteAndReadRegisters(t.startRegisters, t.registers, p).1.pdu;
    assert pdu[2..] == RegisterBytes(slice) == RegisterBytes(slice) + [];
  }

  lemma WriteAndReadCarries(t: Tables, p: Buffer, c: Call)
    requires c.CallWriteAndRead? && InLimit(c)
    requires p[0] == FunctionCode(c) && Field(p, 1) == U16(c.readAddr) && Field(p, 3) == U16(c.readNb)
    requires Field(p, 5) == U16(c.writeAddr) && Field(p, 7) == |c.regs| && p[9] == 2 * |c.regs|
    requires Registers(p[10..], |c.regs|) == c.regs
    ensures var (regs', r) := WriteAndReadRegisters(t.startRegisters, t.registers, p); var (m, o) := Observed(t, c);
      && r.Answer? && !r.echo && Abs(t.(registers := regs')) == m && Carries(c, o, r.pdu)
      && (r.front != [] <==> WritesBelow(t, c))
  {
    hide SpaceOf, Has, Store, Registers, RegisterBytes, Field, Overwrite, StoreFrom, InFront;
    var start, regs, ra, wa, nb := t.startRegisters, t.registers, U16(c.readAddr), U16(c.writeAddr), U16(c.readNb);
    if c.regs != [] && 0 < nb <= MAX_WR_READ_REGISTERS {
      HasIffInside(start, regs, ra, nb);
      HasIffInside(start, regs, wa, |c.regs|);
      if !Outside(start, |regs|, ra, nb) && wa + |c.regs| <= start + |regs| {
        var regs' := StoreFrom<word>(regs, wa - start, c.regs);
        WriteAndReadAnswers(t, p, c, regs');
        if wa >= start {
          StoredInside(regs, wa - start, c.regs);
          StoreIsOverwrite(start, regs, wa, c.regs);
          FetchIsSlice(start, regs', ra, nb);
        }
      }
    }
  }

  /**
   * One request: the answer carries the outcome and the tables become the memory that the reference says, except
   * when the server is asked to write below its register table; and then exactly it stores words in front of it.
   */
  lemma ServeRefines(t: Tables, p: Buffer, c: Call)
    requires InLimit(c) && Contains(p, c)
    requires AllBits(t.bits) && AllBits(t.inputBits)
    ensures var (t', r) := Serve(t, p, |RequestPdu(c)|); var (m, o) := Observed(t, c);
      && r.Answer? && Abs(t') == m && Carries(c, o, r.pdu)
      && (r.front != [] <==> WritesBelow(t, c))
      && AllBits(t'.bits) && t'.inputBits == t.inputBits
  {
    hide Field, Carries, ReadBits, ReadRegisters, WriteSingleCoil, WriteSingleRegister, WriteMultipleCoils,
      WriteMultipleRegisters, MaskWriteRegister, WriteAndReadRegisters, ReadCells, ReadWords, Write, UnpackBits,
      Registers, SpaceOf, MaskMerge, PackCells, RegisterBytes, Truth, ReachesBelow, StoredBelow;
    FieldsOfRequest(p, c);
    PayloadOfRequest(p, c);
    CoilsStayBits(t, p, |RequestPdu(c)|);
    ServeFrame(t, p, |RequestPdu(c)|);
    if !c.CallWriteAndRead? { FrontIff(t, p, |RequestPdu(c)|); NotWriteAndRead(t, p, c); }
    match c
    case CallReadBits(_, _) => ReadBitsCarries(t.startBits, t.bits, p, c);
    case CallReadInputBits(_, _) => ReadBitsCarries(t.startInputBits, t.inputBits, p, c);
    case CallReadRegisters(_, _) => ReadRegistersCarries(t.startRegisters, t.registers, p, c);
    case CallReadInputRegisters(_, _) => ReadRegistersCarries(t.startInputRegisters, t.inputRegisters, p, c);
    case CallWriteBit(_, _) => WriteCoilCarries(t.startBits, t.bits, p, c);
    case CallWriteRegister(_, _) => WriteRegisterCarries(t.startRegisters, t.registers, p, c);
    case CallWriteBits(_, _) => WriteCoilsCarries(t.startBits, t.bits, p, c);
    case CallWriteRegisters(_, _) => WriteRegistersCarries(t.startRegisters, t.registers, p, c);
    case CallMaskWrite(_, _, _) => MaskWriteCarries(t.startRegisters, t.registers, p, c);
    case CallWriteAndRead(_, _, _, _) => WriteAndReadCarries(t, p, c);
  }

  lemma NotWriteAndRead(t: Tables, p: Buffer, c: Call)
    requires p[0] == FunctionCode(c) && !c.CallWriteAndRead?
    ensures !ReachesBelow(t, p)
  {
  }

  // ----- The whole round -----

  /** The server's own answer to what it finds in its input. */
  ghost function RequestOf(be: Backend, slave: byte, t: Tables, input: seq<byte>, stale: seq<byte>)
      : (r: (Tables, Reply))
    requires |stale| == MAX_MESSAGE_LENGTH
  {
    hide Serve;
    match ReceiptOf(be, Indication, slave, input)
    case Message(n) =>
      ReceiptLength(be, Indication, slave, input);
      Serve(t, (input[..n] + stale[n..])[be.HeaderLength()..], n - be.HeaderLength() - be.ChecksumLength())
    case _ => (t, Silent)
  }

  /**
   * The server cuts the request out of its input into a buffer that still holds stale bytes, applies it and answers.
   */
  ghost function ServerSide(be: Backend, slave: byte, t: Tables, input: seq<byte>, stale: seq<byte>)
      : (r: (Tables, seq<byte>))
    requires |stale| == MAX_MESSAGE_LENGTH
  {
    match ReceiptOf(be, Indication, slave, input)
    case Message(n) =>
      ReceiptLength(be, Indication, slave, input);
      var (t', r) := RequestOf(be, slave, t, input, stale);
      (t', Outgoing(be, input[..n] + stale[n..], r))
    case _ => (t, [])
  }

  /** The client cuts the confirmation out of its input, checks it against the request and decodes it. */
  ghost function ClientSide(be: Backend, slave: byte, c: Call, request: seq<byte>, input: seq<byte>): (o: Outcome)
    requires InLimit(c) && Holds(be, request, c)
  {
    ReceiptLength(be, Confirmation, slave, input);
    ConfirmationLength(be, input);
    match ReceiptOf(be, Confirmation, slave, input)
    case Message(n) => Decode(be, c, request, input[..n])
    case Ignored =>
      CallIgnored(request, c, input[..FrameOf(be, Confirmation, input).length]);
      Failure(CheckWithLength(be, request, input[..FrameOf(be, Confirmation, input).length], 0).errno)
    case Rejected(errno) => Failure(errno)
    case LinkDown => Failure(ELINK)
  }

  lemma CallIgnored(request: seq<byte>, c: Call, rsp: seq<byte>)
    requires InLimit(c) && Holds(Rtu, request, c) && |rsp| >= Rtu.HeaderLength() + 2
    ensures CheckWithLength(Rtu, request, rsp, 0).Refused?
    ensures request[0] != rsp[0] && request[0] != BROADCAST ==>
      CheckWithLength(Rtu, request, rsp, 0) == Refused(EMBBADSLAVE)
  {
    hide CheckWithLength, PackCells, RegisterBytes, Truth;
    IgnoredRefused(request, rsp);
  }

  /** A response from another slave is refused as such. */
  lemma ForeignResponseRefused(slave: byte, c: Call, request: seq<byte>, input: seq<byte>)
    requires InLimit(c) && Holds(Rtu, request, c) && request[0] == slave && slave != BROADCAST
    requires FrameOf(Rtu, Confirmation, input).Complete? && input[0] != slave && input[0] != BROADCAST
    ensures ClientSide(Rtu, slave, c, request, input) == Failure(EMBBADSLAVE)
  {
    hide FrameOf, Decode, CheckWithLength, Holds, Crc.CrcBytes;
    ConfirmationLength(Rtu, input);
    CallIgnored(request, c, input[..FrameOf(Rtu, Confirmation, input).length]);
  }

  /** One call on a reliable link. */
  ghost function Exchange(be: Backend, slave: byte, tid: word, t: Tables, c: Call, stale: seq<byte>)
      : (r: (Outcome, Tables))
    requires |stale| == MAX_MESSAGE_LENGTH
  {
    hide ServerSide, ClientSide, Holds, Adu;
    if !InLimit(c) then (Failure(EMBMDATA), t)
    else
      var h := CanonicalHeader(be, tid, slave);
      var request := Adu(be, h, RequestPdu(c));
      var (t', wire) := ServerSide(be, slave, t, request, stale);
      RequestHolds(be, h, c);
      (ClientSide(be, slave, c, request, wire), t')
  }

  lemma ReceiptLength(be: Backend, mt: MsgType, slave: int, s: seq<byte>)
    ensures var r := ReceiptOf(be, mt, slave, s);
      && (r.Message? ==> FrameOf(be, mt, s) == Complete(r.length))
      && (r.Ignored? ==> FrameOf(be, mt, s).Complete? && be.Rtu?)
  {
    hide FrameOf, Crc.CrcBytes;
  }

  lemma RequestHolds(be: Backend, h: Header, c: Call)
    requires InLimit(c)
    ensures |RequestPdu(c)| >= 5 && Holds(be, Adu(be, h, RequestPdu(c)), c)
  {
    hide Crc.CrcBytes, Hi, Lo, PackCells, RegisterBytes, Truth;
    var p := RequestPdu(c);
    FrameReadsPdu(be, h, p, []);
    assert Adu(be, h, p) + [] == Adu(be, h, p);
  }

  /** A frame read by its receiver comes out whole, and nothing is left. */
  lemma WholeFrame(be: Backend, mt: MsgType, slave: byte, h: Header, pdu: seq<byte>)
    requires |pdu| <= MAX_PDU_LENGTH && (if mt.Indication? then RequestShape(pdu) else ResponseShape(pdu))
    requires h.slave == slave
    ensures ReceiptOf(be, mt, slave, Adu(be, h, pdu)) == Message(|Adu(be, h, pdu)|)
  {
    hide FrameOf, Adu, CheckIntegrity;
    var a := Adu(be, h, pdu);
    assert a + [] == a && a[..|a|] == a;
    AduIntact(be, slave, h, pdu);
    if mt.Indication? { RequestFrameExact(be, h, pdu, []); } else { ResponseFrameExact(be, h, pdu, []); }
  }

  lemma ShapeIsReceived(p: Buffer, pdu: seq<byte>)
    requires RequestShape(pdu) && |pdu| <= MAX_PDU_LENGTH && pdu <= p
    ensures Received(p, |pdu|) && p[0] < 0x80
  {
    assert forall i :: 0 <= i < |pdu| ==> p[i] == pdu[i];
  }

  /** The server's half: its answer is one frame with the client's own header, and carries the outcome. */
  lemma ServerSideRefines(be: Backend, slave: byte, h: Header, t: Tables, c: Call, stale: seq<byte>)
    requires slave != BROADCAST && |stale| == MAX_MESSAGE_LENGTH
    requires h.slave == slave && h.protocol == 0 && (be.Rtu? ==> h.tid == 0)
    requires AllBits(t.bits) && AllBits(t.inputBits) && InLimit(c)
    ensures var (t', wire) := ServerSide(be, slave, t, Adu(be, h, RequestPdu(c)), stale);
      var (m, o) := Observed(t, c);
      && Abs(t') == m && AllBits(t'.bits) && t'.inputBits == t.inputBits
      && t'.startRegisters == t.startRegisters && |t'.registers| == |t.registers|
      && exists pdu :: ResponseShape(pdu) && |pdu| <= MAX_PDU_LENGTH && Carries(c, o, pdu) && wire == Adu(be, h, pdu)
  {
    hide Serve, Observed, Abs, ReceiptOf, HeaderOf, Carries, Adu, RequestPdu, RequestShape, ResponseShape, Received;
    var k, pdu := be.HeaderLength(), RequestPdu(c);
    RequestPduShape(c);
    var request := Adu(be, h, pdu);
    WholeFrame(be, Indication, slave, h, pdu);
    var n := |request|;
    var buf := request[..n] + stale[n..];
    assert buf == request + stale[n..];
    AduParts(be, h, pdu, stale[n..]);
    var p: Buffer := buf[k..];
    assert p[..|pdu|] == pdu;
    ServeRefines(t, p, c);
    ShapeIsReceived(p, pdu);
    AnswerShape(t, p, |pdu|);
    ServeFrame(t, p, |pdu|);
    var (t', r) := Serve(t, p, |pdu|);
    assert Outgoing(be, buf, r) == Adu(be, h, r.pdu);
  }

  /** The client's half. */
  lemma ClientSideDecodes(be: Backend, slave: byte, h: Header, c: Call, o: Outcome, pdu: seq<byte>)
    requires InLimit(c) && Carries(c, o, pdu) && ResponseShape(pdu) && |pdu| <= MAX_PDU_LENGTH
    requires h.slave == slave && h.protocol == 0 && (be.Rtu? ==> h.tid == 0)
    ensures Holds(be, Adu(be, h, RequestPdu(c)), c)
    ensures ClientSide(be, slave, c, Adu(be, h, RequestPdu(c)), Adu(be, h, pdu)) == o
  {
    hide Decode, ReceiptOf, HeaderOf, Carries, Adu, RequestPdu, ResponseShape, Holds;
    var request, wire := Adu(be, h, RequestPdu(c)), Adu(be, h, pdu);
    RequestHolds(be, h, c);
    WholeFrame(be, Confirmation, slave, h, pdu);
    AduParts(be, h, RequestPdu(c), []);
    assert request + [] == request && wire[..|wire|] == wire;
    DecodeCarried(be, h, c, o, pdu, request);
  }

  /**
   * End to end: for either transport, any slave but broadcast and any call, in limit or not, what is returned and what
   * the tables become is what was observed; and it is what the reference says exactly if the call does not write below
   * the register table.
   */
  lemma ExchangeRefines(be: Backend, slave: byte, tid: word, t: Tables, c: Call, stale: seq<byte>)
    requires slave != BROADCAST && |stale| == MAX_MESSAGE_LENGTH
    requires AllBits(t.bits) && AllBits(t.inputBits)
    ensures var (o, t') := Exchange(be, slave, tid, t, c, stale);
      && (Abs(t'), o) == Observed(t, c)
      && ((Abs(t'), o) == Apply(Abs(t), c) <==> !WritesBelow(t, c))
      && AllBits(t'.bits) && t'.inputBits == t.inputBits
      && t'.startRegisters == t.startRegisters && |t'.registers| == |t.registers|
  {
    hide *;
    ObservedIff(t, c);
    if InLimit(c) {
      ExchangeInLimit(be, slave, tid, t, c, stale);
    } else {
      ExchangeOutside(be, slave, tid, t, c, stale);
    }
  }

  lemma ExchangeOutside(be: Backend, slave: byte, tid: word, t: Tables, c: Call, stale: seq<byte>)
    requires |stale| == MAX_MESSAGE_LENGTH && !InLimit(c)
    ensures Exchange(be, slave, tid, t, c, stale) == (Failure(EMBMDATA), t)
      && Observed(t, c) == (Abs(t), Failure(EMBMDATA))
  {
    hide Abs;
  }

  lemma ExchangeInLimit(be: Backend, slave: byte, tid: word, t: Tables, c: Call, stale: seq<byte>)
    requires slave != BROADCAST && |stale| == MAX_MESSAGE_LENGTH
    requires AllBits(t.bits) && AllBits(t.inputBits) && InLimit(c)
    ensures var (o, t') := Exchange(be, slave, tid, t, c, stale);
      && (Abs(t'), o) == Observed(t, c)
      && AllBits(t'.bits) && t'.inputBits == t.inputBits
      && t'.startRegisters == t.startRegisters && |t'.registers| == |t.registers|
  {
    hide ServerSide, ClientSide, Observed, Abs, Holds, Adu, RequestPdu, Carries, ResponseShape, InLimit, AllBits;
    var h := CanonicalHeader(be, tid, slave);
    ServerSideRefines(be, slave, h, t, c, stale);
    var (t', wire) := ServerSide(be, slave, t, Adu(be, h, RequestPdu(c)), stale);
    var o := Observed(t, c).1;
    var pdu :| ResponseShape(pdu) && |pdu| <= MAX_PDU_LENGTH && Carries(c, o, pdu) && wire == Adu(be, h, pdu);
    ClientSideDecodes(be, slave, h, c, o, pdu);
  }

  /**
   * Every request the server's reader delivers, well-shaped or not: the client's reader takes the reply to end at its
   * last byte exactly if the function code is below 0x80 or the code 0x80 below it claims no more than two bytes.
   */
  lemma RepliesEndIff(be: Backend, slave: byte, t: Tables, input: seq<byte>, stale: seq<byte>, rest: seq<byte>)
    requires |stale| == MAX_MESSAGE_LENGTH && ReceiptOf(be, Indication, slave, input).Message?
    ensures |input| > be.HeaderLength()
    ensures var (wire, f) := (ServerSide(be, slave, t, input, stale).1, input[be.HeaderLength()]);
      wire != [] ==> (FrameOf(be, Confirmation, wire + rest) == Complete(|wire|) <==> f < 0x80 || !ClaimsMore(f - 0x80))
  {
    hide Serve, ReceiptOf, HeaderOf, Adu, FrameOf, Received, ClaimsMore;
    var n := ReceiptOf(be, Indication, slave, input).length;
    ReceiptLength(be, Indication, slave, input);
    CompleteIsReceived(be, input, stale);
    var buf := input[..n] + stale[n..];
    var p: Buffer := buf[be.HeaderLength()..];
    var h, r := HeaderOf(be, buf), Serve(t, p, n - be.HeaderLength() - be.ChecksumLength()).1;
    if r.Answer? && h.slave != BROADCAST {
      var header := if r.echo then h else CanonicalHeader(be, h.tid, h.slave);
      AnswerEndsIff(be, header, t, p, n - be.HeaderLength() - be.ChecksumLength(), rest);
    }
  }

  /**
   * Function 0x83 is delivered and answered by two bytes that the client reads as the beginning of a register reply.
   */
  lemma HighFunctionExample(be: Backend, slave: byte, t: Tables, stale: seq<byte>)
    requires |stale| == MAX_MESSAGE_LENGTH && slave != BROADCAST
    ensures var h := Header(0, 0, slave);
      var (input, wire) := (Adu(be, h, [0x83]), Adu(be, h, [READ_HOLDING_REGISTERS, ILLEGAL_FUNCTION]));
      && ReceiptOf(be, Indication, slave, input) == Message(|input|)
      && ServerSide(be, slave, t, input, stale) == (t, wire)
      && FrameOf(be, Confirmation, wire) == Starved(|wire|)
  {
    hide Crc.CrcBytes, Serve, HeaderOf, CheckIntegrity;
    var h := Header(0, 0, slave);
    var input := Adu(be, h, [0x83]);
    FrameReadsPdu(be, h, [0x83], []);
    assert input + [] == input && input[be.HeaderLength() + 0] == 0x83 && input[..|input|] == input;
    AduIntact(be, slave, h, [0x83]);
    var buf := input[..|input|] + stale[|input|..];
    assert buf == input + stale[|input|..];
    AduParts(be, h, [0x83], stale[|input|..]);
    assert buf[be.HeaderLength()..][..1] == [0x83];
    AnswerToHigh(t, buf[be.HeaderLength()..], 1);
    var wire := Adu(be, h, [READ_HOLDING_REGISTERS, ILLEGAL_FUNCTION]);
    FrameReadsPdu(be, h, [READ_HOLDING_REGISTERS, ILLEGAL_FUNCTION], []);
    assert wire + [] == wire && wire[be.HeaderLength() + 0] == READ_HOLDING_REGISTERS
      && wire[be.HeaderLength() + 1] == 1;
  }

  /**
   * The report of the slave id: its length cannot be computed from the request, and the reader and the check still take
   * the reply to be exactly what the server sent; the check returns the byte count, behind which the data are found.
   */
  lemma ReportSlaveId(be: Backend, slave: byte, h: Header, t: Tables, stale: seq<byte>, req: seq<byte>)
    requires slave != BROADCAST && |stale| == MAX_MESSAGE_LENGTH
    requires h.slave == slave && h.protocol == 0 && (be.Rtu? ==> h.tid == 0)
    requires |req| >= be.HeaderLength() + 5 && HeaderOf(be, req) == h && req[be.HeaderLength()] == REPORT_SLAVE_ID
    ensures var (report, k) := ([180, 0xFF] + SLAVE_ID_TEXT, be.HeaderLength());
      var wire := ServerSide(be, slave, t, Adu(be, h, [REPORT_SLAVE_ID]), stale).1;
      && ServerSide(be, slave, t, Adu(be, h, [REPORT_SLAVE_ID]), stale).0 == t
      && ResponseLength(be, req) == -1
      && ReceiptOf(be, Confirmation, slave, wire) == Message(|wire|)
      && |wire| == k + 2 + |report| + be.ChecksumLength() && wire[k + 2..k + 2 + |report|] == report
      && CheckConfirmation(be, req, wire) == Confirmed(|report|)
  {
    hide ReceiptOf, HeaderOf, Adu, ServerSide, CheckConfirmation;
    var answer := [REPORT_SLAVE_ID, 2 + |SLAVE_ID_TEXT|, SLAVE_ID, 0xFF] + SLAVE_ID_TEXT;
    ReportServed(be, slave, h, t, stale);
    WholeFrame(be, Confirmation, slave, h, answer);
    ReportConfirmed(be, h, answer, req);
    ReportData(be, h, answer);
    assert answer[2..] == [SLAVE_ID, 0xFF] + SLAVE_ID_TEXT;
  }

  lemma ReportServed(be: Backend, slave: byte, h: Header, t: Tables, stale: seq<byte>)
    requires slave != BROADCAST && |stale| == MAX_MESSAGE_LENGTH
    requires h.slave == slave && h.protocol == 0 && (be.Rtu? ==> h.tid == 0)
    ensures ServerSide(be, slave, t, Adu(be, h, [REPORT_SLAVE_ID]), stale)
      == (t, Adu(be, h, [REPORT_SLAVE_ID, 2 + |SLAVE_ID_TEXT|, SLAVE_ID, 0xFF] + SLAVE_ID_TEXT))
  {
    hide ReceiptOf, HeaderOf, Adu;
    var pdu := [REPORT_SLAVE_ID];
    var request := Adu(be, h, pdu);
    WholeFrame(be, Indication, slave, h, pdu);
    var buf := request[..|request|] + stale[|request|..];
    assert buf == request + stale[|request|..];
    AduParts(be, h, pdu, stale[|request|..]);
    assert buf[be.HeaderLength()..][..1] == pdu;
  }

  lemma ReportData(be: Backend, h: Header, pdu: seq<byte>)
    requires |pdu| >= 2
    ensures var (wire, k) := (Adu(be, h, pdu), be.HeaderLength());
      |wire| == k + |pdu| + be.ChecksumLength() && wire[k + 2..k + |pdu|] == pdu[2..]
  {
    hide Crc.CrcBytes, Hi, Lo;
  }

  lemma ReportConfirmed(be: Backend, h: Header, pdu: seq<byte>, req: seq<byte>)
    requires |req| >= be.HeaderLength() + 5 && HeaderOf(be, req) == h && h.protocol == 0
    requires req[be.HeaderLength()] == REPORT_SLAVE_ID && |pdu| >= 2 && pdu[0] == REPORT_SLAVE_ID
    ensures CheckConfirmation(be, req, Adu(be, h, pdu)) == Confirmed(pdu[1])
  {
    hide Adu, PreCheck;
    PreCheckIff(be, h, pdu, req);
    FrameReadsPdu(be, h, pdu, []);
    var wire := Adu(be, h, pdu);
    assert wire + [] == wire && wire[be.HeaderLength() + 0] == pdu[0] && wire[be.HeaderLength() + 1] == pdu[1];
  }

  // ----- What else the client may find on the line -----

  /** The PDU of a frame. */
  function PduOf(be: Backend, frame: seq<byte>): (pdu: seq<byte>)
    requires |frame| >= be.HeaderLength() + be.ChecksumLength()
  {
    frame[be.HeaderLength()..|frame| - be.ChecksumLength()]
  }

  /**
   * Any response that was received whole and passes the transport's check, whoever made it. A call succeeds only with
   * an answer that carries just this success; an exception of the function asked for gives its error number, any
   * other one the bad-exception error; and everything else is bad data.
   */
  lemma DecodeSound(be: Backend, c: Call, req: seq<byte>, rsp: seq<byte>)
    requires InLimit(c) && Holds(be, req, c) && |rsp| >= be.HeaderLength() + 2 + be.ChecksumLength()
    requires FrameOf(be, Confirmation, rsp) == Complete(|rsp|) && PreCheck(be, req, rsp).Confirmed?
    ensures var (o, pdu) := (Decode(be, c, req, rsp), PduOf(be, rsp));
      if pdu[0] >= 0x80 then
        o == Failure(if pdu[0] - 0x80 == FunctionCode(c) && pdu[1] < 12 then ENOBASE + pdu[1] else EMBBADEXC)
      else o == Failure(EMBBADDATA) || (o.Success? && Carries(c, o, pdu))
  {
    hide PackCells, RegisterBytes, Truth, Hi, Lo, Word, PreCheck, UnpackBits, Registers, FrameOf;
    var k, pdu := be.HeaderLength(), PduOf(be, rsp);
    assert pdu[0] == rsp[k] && pdu[1] == rsp[k + 1];
    FrameOfAnnounced(be, Confirmation, rsp);
    if CheckConfirmation(be, req, rsp).Confirmed? { ConfirmedCarries(be, c, req, rsp); }
  }

  lemma ConfirmedCarries(be: Backend, c: Call, req: seq<byte>, rsp: seq<byte>)
    requires InLimit(c) && Holds(be, req, c) && |rsp| >= be.HeaderLength() + 2 + be.ChecksumLength()
    requires CheckConfirmation(be, req, rsp).Confirmed?
    requires rsp[be.HeaderLength()] < 0x80
    requires FrameOf(be, Confirmation, rsp) == Complete(|rsp|)
    ensures Carries(c, Decode(be, c, req, rsp), PduOf(be, rsp))
  {
    hide PackCells, RegisterBytes, Truth, Hi, Lo, Word, PreCheck, UnpackBits, Registers;
    var k, pdu := be.HeaderLength(), PduOf(be, rsp);
    ConfirmedRoom(be, c, req, rsp);
    assert pdu[0] == rsp[k] && pdu[1] == rsp[k + 1] && pdu[2..] <= rsp[k + 2..];
    if c.CallReadBits? || c.CallReadInputBits? {
      PrefixBits(pdu[2..], rsp[k + 2..], Delivered(c.nb));
    } else if c.CallReadRegisters? || c.CallReadInputRegisters? {
      PrefixRegisters(pdu[2..], rsp[k + 2..], U16(c.nb));
    } else if c.CallWriteAndRead? {
      PrefixRegisters(pdu[2..], rsp[k + 2..], U16(c.readNb));
    } else if c.CallWriteBits? {
      WordHiLo(|c.bits|);
    } else if c.CallWriteRegisters? {
      WordHiLo(|c.regs|);
    }
  }

  /** On the serial line a response of the slave asked with any other checksum is refused for it. */
  lemma CorruptResponseRefused(slave: byte, c: Call, request: seq<byte>, input: seq<byte>)
    requires InLimit(c) && Holds(Rtu, request, c) && FrameOf(Rtu, Confirmation, input).Complete?
    requires var frame := input[..FrameOf(Rtu, Confirmation, input).length];
      (frame[0] == slave || frame[0] == BROADCAST) && Crc.BitSerial(frame) != 0
    ensures ClientSide(Rtu, slave, c, request, input) == Failure(EMBBADCRC)
  {
    hide FrameOf, Decode, CheckWithLength, Holds, Crc.BitSerial, CheckIntegrity;
    NotAccepted(slave, input[..FrameOf(Rtu, Confirmation, input).length]);
  }

  /** And a server does nothing about a request that is corrupt or meant for another slave. */
  lemma BadRequestDropped(slave: byte, t: Tables, input: seq<byte>, stale: seq<byte>)
    requires |stale| == MAX_MESSAGE_LENGTH && FrameOf(Rtu, Indication, input).Complete?
    requires var frame := input[..FrameOf(Rtu, Indication, input).length];
      Crc.BitSerial(frame) != 0 || (frame[0] != slave && frame[0] != BROADCAST)
    ensures ServerSide(Rtu, slave, t, input, stale) == (t, [])
  {
    hide FrameOf, Crc.BitSerial, CheckIntegrity;
    AcceptedIffResidueZero(slave, input[..FrameOf(Rtu, Indication, input).length]);
    NotAccepted(slave, input[..FrameOf(Rtu, Indication, input).length]);
  }

  /** The answer to a write that was carried out repeats the beginning of the request. */
  lemma WritesEchoed(t: Tables, p: Buffer, c: Call)
    requires InLimit(c) && Contains(p, c) && IsWrite(c) && Observed(t, c).1.Success?
    requires AllBits(t.bits) && AllBits(t.inputBits)
    ensures var r := Serve(t, p, |RequestPdu(c)|).1;
      |RequestPdu(c)| >= 5 && r.Answer? && r.pdu == RequestPdu(c)[..if c.CallMaskWrite? then 7 else 5]
  {
    hide Observed, Carries, PackCells, RegisterBytes, UnpackBits, Registers, Truth, MaskMerge, Overwrite, Word, Hi, Lo;
    ServeRefines(t, p, c);
    SuccessIsNoException(c, Observed(t, c).1, Serve(t, p, |RequestPdu(c)|).1.pdu);
    assert p[..|RequestPdu(c)|] == RequestPdu(c);
    assert p[0] == RequestPdu(c)[0];
  }

  lemma SuccessIsNoException(c: Call, o: Outcome, pdu: seq<byte>)
    requires InLimit(c) && o.Success? && Carries(c, o, pdu)
    ensures |pdu| >= 2 && pdu[0] == FunctionCode(c) < 0x80
  {
  }

  // ----- Whole sessions -----

  /** _modbus_tcp_build_request_basis advances the transaction identifier and wraps it at 2^16. */
  function NextTid(be: Backend, tid: word): (w: word) {
    if be.Rtu? then tid else if tid < 0xFFFF then tid + 1 else 0
  }

  /** Call number i finds stales[i] in the server's buffer. */
  ghost function Session(be: Backend, slave: byte, tid: word, t: Tables, calls: seq<Call>,
                         stales: seq<seq<byte>>)
      : (r: (seq<Outcome>, Tables))
    requires |stales| == |calls| && forall s :: s in stales ==> |s| == MAX_MESSAGE_LENGTH
    decreases |calls|
  {
    hide Exchange;
    if calls == [] then ([], t)
    else
      var next := if InLimit(calls[0]) then NextTid(be, tid) else tid;
      var (o, t') := Exchange(be, slave, next, t, calls[0], stales[0]);
      var (os, t'') := Session(be, slave, next, t', calls[1..], stales[1..]);
      ([o] + os, t'')
  }

  ghost function ApplyAll(m: Memory, calls: seq<Call>): (r: (seq<Outcome>, Memory))
    decreases |calls|
  {
    if calls == [] then ([], m)
    else
      var (m', o) := Apply(m, calls[0]);
      var (os, m'') := ApplyAll(m', calls[1..]);
      ([o] + os, m'')
  }

  ghost predicate NoneBelow(t: Tables, calls: seq<Call>) {
    forall i :: 0 <= i < |calls| ==> !WritesBelow(t, calls[i])
  }

  lemma NoneBelowFirst(t: Tables, t': Tables, calls: seq<Call>)
    requires calls != [] && t'.startRegisters == t.startRegisters && |t'.registers| == |t.registers|
    ensures NoneBelow(t, calls) <==> !WritesBelow(t, calls[0]) && NoneBelow(t', calls[1..])
  {
    if !WritesBelow(t, calls[0]) && NoneBelow(t', calls[1..]) {
      forall i | 0 <= i < |calls| ensures !WritesBelow(t, calls[i]) {
        if i > 0 { assert calls[i] == calls[1..][i - 1] && !WritesBelow(t', calls[1..][i - 1]); }
      }
    }
    if NoneBelow(t, calls) {
      forall i | 0 <= i < |calls[1..]| ensures !WritesBelow(t', calls[1..][i]) {
        assert !WritesBelow(t, calls[i + 1]);
      }
    }
  }

  /**
   * Any sequence of calls returns exactly what the reference memory returns and leaves its contents behind, if and only
   * if none of them writes below the register table.
   */
  lemma {:induction false} SessionRefines(be: Backend, slave: byte, tid: word, t: Tables, calls: seq<Call>,
                                          stales: seq<seq<byte>>)
    requires slave != BROADCAST
    requires |stales| == |calls| && forall s :: s in stales ==> |s| == MAX_MESSAGE_LENGTH
    requires AllBits(t.bits) && AllBits(t.inputBits)
    ensures var (os, t') := Session(be, slave, tid, t, calls, stales);
      (os, Abs(t')) == ApplyAll(Abs(t), calls) <==> NoneBelow(t, calls)
    decreases |calls|
  {
    hide Exchange, Apply, Abs, WritesBelow, NoneBelow, Observed;
    if calls == [] {
      assert NoneBelow(t, []) by { NoCalls(t); }
    } else {
      var next := if InLimit(calls[0]) then NextTid(be, tid) else tid;
      ExchangeRefines(be, slave, next, t, calls[0], stales[0]);
      ObservedIff(t, calls[0]);
      var (o, t1) := Exchange(be, slave, next, t, calls[0], stales[0]);
      NoneBelowFirst(t, t1, calls);
      SessionRefines(be, slave, next, t1, calls[1..], stales[1..]);
      var os := Session(be, slave, next, t1, calls[1..], stales[1..]).0;
      var ref := ApplyAll(Apply(Abs(t), calls[0]).0, calls[1..]).0;
      assert ([o] + os)[0] == o && ([o] + os)[1..] == os;
      assert ([Apply(Abs(t), calls[0]).1] + ref)[0] == Apply(Abs(t), calls[0]).1
        && ([Apply(Abs(t), calls[0]).1] + ref)[1..] == ref;
    }
  }

  lemma NoCalls(t: Tables)
    ensures NoneBelow(t, [])
  {
  }

  /** Tables that start at address zero, as modbus_mapping_new makes them, are never written below. */
  lemma NothingBelowZero(t: Tables, c: Call)
    requires t.startRegisters <= 0
    ensures !WritesBelow(t, c)
  {
  }

  /**
   * Where the guard is missing: the server stores the first values in front of its table and the others in it, and
   * answers with what then is in the table, while the reference refuses the call and changes nothing.
   */
  lemma WritesBelowDiffers(t: Tables, p: Buffer, c: Call)
    requires InLimit(c) && Contains(p, c) && WritesBelow(t, c)
    ensures var (t', r) := Serve(t, p, |RequestPdu(c)|);
      var regs, from, nb := StoredBelow(t, c), U16(c.readAddr) - t.startRegisters, U16(c.readNb);
      && t' == t.(registers := regs)
      && r.Answer? && Carries(c, Success(nb, regs[from..from + nb]), r.pdu)
      && r.front == InFront(U16(c.writeAddr) - t.startRegisters, c.regs) && r.front != []
    ensures Apply(Abs(t), c) == (Abs(t), Failure(EMBXILADD))
  {
    hide Apply, Abs, Carries, Field, Registers, StoreFrom, InFront, WriteAndReadRegisters;
    FieldsOfRequest(p, c);
    PayloadOfRequest(p, c);
    ReferenceRefuses(t, c);
    WriteAndReadAnswers(t, p, c, StoredBelow(t, c));
  }

  /**
   * One such call: registers 10 to 14 exist, 9 and 10 are written while 10 is read. The call succeeds and register 10
   * is changed; the reference refuses the call.
   */
  lemma WritesBelowExample(be: Backend, slave: byte, tid: word, stale: seq<byte>)
    requires slave != BROADCAST && |stale| == MAX_MESSAGE_LENGTH
    ensures var t, c := Tables(0, [], 0, [], 10, [0, 0, 0, 0, 0], 0, []), CallWriteAndRead(9, [1, 2], 10, 1);
      var (o, t') := Exchange(be, slave, tid, t, c, stale);
      && o == Success(1, [2]) && Abs(t') == Abs(t.(registers := [2, 0, 0, 0, 0]))
      && Apply(Abs(t), c) == (Abs(t), Failure(EMBXILADD))
  {
    hide Exchange, Abs, Apply;
    var t, c := Tables(0, [], 0, [], 10, [0, 0, 0, 0, 0], 0, []), CallWriteAndRead(9, [1, 2], 10, 1);
    assert WritesBelow(t, c);
    ExchangeRefines(be, slave, tid, t, c, stale);
    ReferenceRefuses(t, c);
    assert StoredBelow(t, c) == [2, 0, 0, 0, 0];
    assert [2, 0, 0, 0, 0][0..1] == [2];
  }
}
