/** The server: four tables, and the answer to each request. */
module Server {
  import opened Bytes
  import opened Bits
  import opened Packing
  import opened Backends
  import opened Pdus
  import opened Framing

  const MAX_READ_BITS := 2000
  const MAX_WRITE_BITS := 1968
  const MAX_READ_REGISTERS := 125
  const MAX_WRITE_REGISTERS := 123
  const MAX_WR_WRITE_REGISTERS := 121
  const MAX_WR_READ_REGISTERS := 125

  const ILLEGAL_FUNCTION: byte := 1
  const ILLEGAL_DATA_ADDRESS: byte := 2
  const ILLEGAL_DATA_VALUE: byte := 3

  /** The values held by a modbus_mapping_t. */
  datatype Tables = Tables(
    startBits: int, bits: seq<byte>,
    startInputBits: int, inputBits: seq<byte>,
    startRegisters: int, registers: seq<word>,
    startInputRegisters: int, inputRegisters: seq<word>)

  /**
   * The answer to a request: nothing at all, or a PDU (echo: copied from the request with its header; flush: pending
   * input is discarded first; front: the words stored at addresses below the register table).
   */
  datatype Reply = Silent | Answer(pdu: seq<byte>, echo: bool, flush: bool, front: seq<word> := [])

  /** A request buffer from the function code on: at least the longest PDU, so that every field can be read. */
  type Buffer = p: seq<byte> | |p| >= MAX_PDU_LENGTH witness seq(MAX_PDU_LENGTH, _ => 0)

  /** The 16-bit field at index i. */
  function Field(p: Buffer, i: nat): (w: word)
    requires i <= 10
  {
    Word(p[i], p[i + 1])
  }

  function Exception(f: byte, code: byte, flush: bool): (r: Reply) {
    Answer([(f + 0x80) % 256, code], false, flush)
  }

  predicate Outside(start: int, size: nat, address: int, nb: int) {
    address - start < 0 || address - start + nb > size
  }

  /** s with the cells from index i on replaced by xs. */
  function Overwrite<T>(s: seq<T>, i: nat, xs: seq<T>): (r: seq<T>)
    requires i + |xs| <= |s|
    ensures |r| == |s|
    ensures forall k :: 0 <= k < |s| ==> r[k] == if i <= k < i + |xs| then xs[k - i] else s[k]
  {
    s[..i] + xs + s[i + |xs|..]
  }

  /** The same for an index that may lie in front of s: the part of xs that falls into s is stored. */
  function StoreFrom<T>(s: seq<T>, i: int, xs: seq<T>): (r: seq<T>)
    requires i + |xs| <= |s|
    ensures |r| == |s|
    ensures forall k :: 0 <= k < |s| ==> r[k] == if i <= k < i + |xs| then xs[k - i] else s[k]
  {
    seq(|s|, k requires 0 <= k < |s| => if i <= k < i + |xs| then xs[k - i] else s[k])
  }

  lemma StoredInside(s: seq<word>, i: nat, xs: seq<word>)
    requires i + |xs| <= |s|
    ensures StoreFrom<word>(s, i, xs) == Overwrite<word>(s, i, xs)
  {
  }

  /** And the part that falls in front of it. */
  function InFront<T>(i: int, xs: seq<T>): (r: seq<T>)
    ensures r == [] <==> i >= 0 || xs == []
  {
    if i >= 0 then [] else xs[..if -i < |xs| then -i else |xs|]
  }

  // ----- One function per function code -----

  function ReadBits(start: int, cells: seq<byte>, p: Buffer): (r: Reply) {
    var address, nb := Field(p, 1), Field(p, 3);
    if nb < 1 || MAX_READ_BITS < nb then Exception(p[0], ILLEGAL_DATA_VALUE, true)
    else if Outside(start, |cells|, address, nb) then Exception(p[0], ILLEGAL_DATA_ADDRESS, false)
    else Answer([p[0], ByteCount(nb)] + PackCells(cells[address - start..address - start + nb]), false, false)
  }

  function ReadRegisters(start: int, regs: seq<word>, p: Buffer): (r: Reply) {
    var address, nb := Field(p, 1), Field(p, 3);
    if nb < 1 || MAX_READ_REGISTERS < nb then Exception(p[0], ILLEGAL_DATA_VALUE, true)
    else if Outside(start, |regs|, address, nb) then Exception(p[0], ILLEGAL_DATA_ADDRESS, false)
    else Answer([p[0], 2 * nb] + RegisterBytes(regs[address - start..address - start + nb]), false, false)
  }

  function WriteSingleCoil(start: int, cells: seq<byte>, p: Buffer, n: nat): (r: (seq<byte>, Reply))
    requires n <= |p|
  {
    var address, data := Field(p, 1), Field(p, 3);
    if Outside(start, |cells|, address, 1) then (cells, Exception(p[0], ILLEGAL_DATA_ADDRESS, false))
    else if data == 0xFF00 || data == 0 then
      (cells[address - start := if data != 0 then 1 else 0], Answer(p[..n], true, false))
    else (cells, Exception(p[0], ILLEGAL_DATA_VALUE, false))
  }

  function WriteSingleRegister(start: int, regs: seq<word>, p: Buffer, n: nat): (r: (seq<word>, Reply))
    requires n <= |p|
  {
    var address, data := Field(p, 1), Field(p, 3);
    if Outside(start, |regs|, address, 1) then (regs, Exception(p[0], ILLEGAL_DATA_ADDRESS, false))
    else (regs[address - start := data], Answer(p[..n], true, false))
  }

  function WriteMultipleCoils(start: int, cells: seq<byte>, p: Buffer): (r: (seq<byte>, Reply)) {
    var address, nb := Field(p, 1), Field(p, 3);
    if nb < 1 || MAX_WRITE_BITS < nb then (cells, Exception(p[0], ILLEGAL_DATA_VALUE, true))
    else if Outside(start, |cells|, address, nb) then (cells, Exception(p[0], ILLEGAL_DATA_ADDRESS, false))
    else (Overwrite<byte>(cells, address - start, UnpackBits(p[6..], nb)), Answer(p[..5], false, false))
  }

  function WriteMultipleRegisters(start: int, regs: seq<word>, p: Buffer): (r: (seq<word>, Reply)) {
    var address, nb := Field(p, 1), Field(p, 3);
    if nb < 1 || MAX_WRITE_REGISTERS < nb then (regs, Exception(p[0], ILLEGAL_DATA_VALUE, true))
    else if Outside(start, |regs|, address, nb) then (regs, Exception(p[0], ILLEGAL_DATA_ADDRESS, false))
    else (Overwrite<word>(regs, address - start, Registers(p[6..], nb)), Answer(p[..5], false, false))
  }

  function MaskWriteRegister(start: int, regs: seq<word>, p: Buffer, n: nat): (r: (seq<word>, Reply))
    requires n <= |p|
  {
    var address := Field(p, 1);
    if Outside(start, |regs|, address, 1) then (regs, Exception(p[0], ILLEGAL_DATA_ADDRESS, false))
    else
      var i := address - start;
      (regs[i := MaskMerge(regs[i], Field(p, 3), Field(p, 5))], Answer(p[..n], true, false))
  }

  /** The guard tests the read address twice and never that the write address is not below the table. */
  function WriteAndReadRegisters(start: int, regs: seq<word>, p: Buffer): (r: (seq<word>, Reply)) {
    var address, nb, addressWrite, nbWrite := Field(p, 1), Field(p, 3), Field(p, 5), Field(p, 7);
    if nbWrite < 1 || MAX_WR_WRITE_REGISTERS < nbWrite || nb < 1 || MAX_WR_READ_REGISTERS < nb
      || p[9] != 2 * nbWrite then
      (regs, Exception(p[0], ILLEGAL_DATA_VALUE, true))
    else if Outside(start, |regs|, address, nb) || addressWrite - start + nbWrite > |regs| then
      (regs, Exception(p[0], ILLEGAL_DATA_ADDRESS, false))
    else
      var values := Registers(p[10..], nbWrite);
      var regs' := StoreFrom(regs, addressWrite - start, values);
      (regs', Answer([p[0], 2 * nb] + RegisterBytes(regs'[address - start..address - start + nb]), false, false,
                     InFront(addressWrite - start, values)))
  }

  /** "LMB" followed by the version string as the header spells it. */
  const SLAVE_ID_TEXT: seq<byte> := [
    76, 77, 66, 64, 76, 73, 66, 77, 79, 68, 66, 85, 83, 95, 86, 69, 82, 83, 73, 79, 78, 64]

  const SLAVE_ID: byte := 180

  /** The whole switch: new tables and answer for the request of n bytes at the front of p. */
  function Serve(t: Tables, p: Buffer, n: nat): (r: (Tables, Reply))
    requires n <= |p|
  {
    var f := p[0];
    if f == READ_COILS then (t, ReadBits(t.startBits, t.bits, p))
    else if f == READ_DISCRETE_INPUTS then (t, ReadBits(t.startInputBits, t.inputBits, p))
    else if f == READ_HOLDING_REGISTERS then (t, ReadRegisters(t.startRegisters, t.registers, p))
    else if f == READ_INPUT_REGISTERS then (t, ReadRegisters(t.startInputRegisters, t.inputRegisters, p))
    else if f == WRITE_SINGLE_COIL then
      var (bits', r) := WriteSingleCoil(t.startBits, t.bits, p, n);
      (t.(bits := bits'), r)
    else if f == WRITE_SINGLE_REGISTER then
      var (regs', r) := WriteSingleRegister(t.startRegisters, t.registers, p, n);
      (t.(registers := regs'), r)
    else if f == WRITE_MULTIPLE_COILS then
      var (bits', r) := WriteMultipleCoils(t.startBits, t.bits, p);
      (t.(bits := bits'), r)
    else if f == WRITE_MULTIPLE_REGISTERS then
      var (regs', r) := WriteMultipleRegisters(t.startRegisters, t.registers, p);
      (t.(registers := regs'), r)
    else if f == REPORT_SLAVE_ID then
      (t, Answer([f, 2 + |SLAVE_ID_TEXT|, SLAVE_ID, 0xFF] + SLAVE_ID_TEXT, false, false))
    else if f == READ_EXCEPTION_STATUS then (t, Silent)
    else if f == MASK_WRITE_REGISTER then
      var (regs', r) := MaskWriteRegister(t.startRegisters, t.registers, p, n);
      (t.(registers := regs'), r)
    else if f == WRITE_AND_READ_REGISTERS then
      var (regs', r) := WriteAndReadRegisters(t.startRegisters, t.registers, p);
      (t.(registers := regs'), r)
    else (t, Exception(f, ILLEGAL_FUNCTION, true))
  }

  /** What goes on the wire for an answer to the request in buf: nothing for a broadcast. */
  function Outgoing(be: Backend, buf: seq<byte>, r: Reply): (out: seq<byte>)
    requires be.HeaderLength() <= |buf|
  {
    var h := HeaderOf(be, buf);
    if !r.Answer? || h.slave == BROADCAST then []
    else Adu(be, if r.echo then h else CanonicalHeader(be, h.tid, h.slave), r.pdu)
  }

  // ----- Which requests are refused, and how -----

  /** The 16-bit number whose high byte is at index i. */
  function Number(p: Buffer, i: nat): (n: int)
    requires i <= 10
    ensures n == Field(p, i)
  {
    (p[i] as int) * 256 + p[i + 1]
  }

  /** The quantities of sections 6.1 to 6.17 of the MODBUS Application Protocol V1.1b. */
  predicate BadQuantity(p: Buffer) {
    var (f, nb, nbWrite) := (p[0], Number(p, 3), Number(p, 7));
    || ((f == 1 || f == 2) && !(1 <= nb <= 2000))
    || ((f == 3 || f == 4) && !(1 <= nb <= 125))
    || (f == 15 && !(1 <= nb <= 1968))
    || (f == 16 && !(1 <= nb <= 123))
    || (f == 23 && (!(1 <= nb <= 125) || !(1 <= nbWrite <= 121) || p[9] != 2 * nbWrite))
  }

  /** The cells from address on are not all in the table that begins at start. */
  predicate Missing(start: int, size: nat, address: int, nb: int) {
    address < start || address + nb > start + size
  }

  /** Some cell addressed does not exist; but a write-and-read is not refused for a write that begins too low. */
  predicate BadAddress(t: Tables, p: Buffer) {
    var (f, a, nb) := (p[0], Number(p, 1), Number(p, 3));
    || (f == 1 && Missing(t.startBits, |t.bits|, a, nb))
    || (f == 2 && Missing(t.startInputBits, |t.inputBits|, a, nb))
    || (f == 3 && Missing(t.startRegisters, |t.registers|, a, nb))
    || (f == 4 && Missing(t.startInputRegisters, |t.inputRegisters|, a, nb))
    || (f == 5 && Missing(t.startBits, |t.bits|, a, 1))
    || ((f == 6 || f == 22) && Missing(t.startRegisters, |t.registers|, a, 1))
    || (f == 15 && Missing(t.startBits, |t.bits|, a, nb))
    || (f == 16 && Missing(t.startRegisters, |t.registers|, a, nb))
    || (f == 23 && (Missing(t.startRegisters, |t.registers|, a, nb)
                    || Number(p, 5) + Number(p, 7) > t.startRegisters + |t.registers|))
  }

  predicate Known(f: byte) { 1 <= f <= 7 || f == 15 || f == 16 || f == 17 || f == 22 || f == 23 }

  /** The function code with its top bit changed. */
  function Flipped(f: byte): (g: byte) { if f < 0x80 then f + 0x80 else f - 0x80 }

  /** The exception code of a request, or 0 if it is carried out. */
  function Refusal(t: Tables, p: Buffer): (code: byte) {
    if !Known(p[0]) then 1
    else if BadQuantity(p) then 3
    else if BadAddress(t, p) then 2
    else if p[0] == 5 && Number(p, 3) != 0 && Number(p, 3) != 0xFF00 then 3
    else 0
  }

  /**
   * Every request, however malformed: it is refused exactly for an unknown function, a bad quantity, a missing cell
   * or a coil value that is neither 0 nor 0xFF00, in this order and with these codes, and then nothing changes;
   * pending input is discarded exactly with the codes 1 and 3, except for the coil value.
   */
  lemma RefusedIff(t: Tables, p: Buffer, n: nat)
    requires n <= |p|
    ensures var ((t', r), code) := (Serve(t, p, n), Refusal(t, p));
      && (code != 0 ==> t' == t && r == Answer([Flipped(p[0]), code], false, code != 2 && p[0] != 5))
      && (code == 0 && p[0] != 7 ==> r.Answer? && !r.flush)
      && (code == 0 && p[0] != 7 && n > 0 ==> r.Answer? && r.pdu != [] && r.pdu[0] == p[0])
      && (p[0] == 7 ==> t' == t && r == Silent)
  {
    hide PackCells, UnpackBits, Registers, RegisterBytes, MaskMerge, Overwrite, StoreFrom, Word;
  }

  // ----- What every request keeps -----

  /** Answers to requests with a function code below 0x80 are well-shaped, whatever else the request says. */
  lemma AnswerShape(t: Tables, p: Buffer, n: nat)
    requires Received(p, n) && p[0] < 0x80
    ensures Serve(t, p, n).1.Answer? ==> ResponseShape(Serve(t, p, n).1.pdu) && |Serve(t, p, n).1.pdu| <= MAX_PDU_LENGTH
  {
    hide PackCells, UnpackBits, Registers, RegisterBytes, MaskMerge, Overwrite, StoreFrom, Word;
  }

  /** From 0x80 on adding 0x80 wraps, and the exception looks like a normal response of the function 0x80 below. */
  lemma AnswerToHigh(t: Tables, p: Buffer, n: nat)
    requires n <= |p| && p[0] >= 0x80
    ensures Serve(t, p, n) == (t, Answer([p[0] - 0x80, ILLEGAL_FUNCTION], false, true))
  {
  }

  /**
   * Whatever request the reader delivers: confirmation framing of the reply stops at its last byte exactly if the
   * function code is below 0x80, or the code 0x80 below it claims no more than two bytes.
   */
  lemma AnswerEndsIff(be: Backend, h: Header, t: Tables, p: Buffer, n: nat, rest: seq<byte>)
    requires Received(p, n) && Serve(t, p, n).1.Answer?
    ensures var wire := Adu(be, h, Serve(t, p, n).1.pdu);
      FrameOf(be, Confirmation, wire + rest) == Complete(|wire|) <==> p[0] < 0x80 || !ClaimsMore(p[0] - 0x80)
  {
    hide Serve, Adu, FrameOf, ResponseShape, ClaimsMore;
    if p[0] < 0x80 {
      AnswerShape(t, p, n);
      ResponseFrameExact(be, h, Serve(t, p, n).1.pdu, rest);
    } else {
      AnswerToHigh(t, p, n);
      ShortResponseIff(be, h, p[0] - 0x80, rest);
    }
  }

  predicate IsException(r: Reply) {
    r.Answer? && |r.pdu| == 2 && r.pdu[0] >= 0x80
  }

  /** The request gets past the guards of function 0x17 with a write address below the register table. */
  predicate ReachesBelow(t: Tables, p: Buffer) {
    var address, nb, addressWrite, nbWrite := Field(p, 1), Field(p, 3), Field(p, 5), Field(p, 7);
    && p[0] == WRITE_AND_READ_REGISTERS
    && 1 <= nbWrite <= MAX_WR_WRITE_REGISTERS && 1 <= nb <= MAX_WR_READ_REGISTERS && p[9] == 2 * nbWrite
    && !Outside(t.startRegisters, |t.registers|, address, nb)
    && addressWrite < t.startRegisters && addressWrite + nbWrite <= t.startRegisters + |t.registers|
  }

  /** Exactly those requests store anything outside the tables. */
  lemma FrontIff(t: Tables, p: Buffer, n: nat)
    requires n <= |p|
    ensures var r := Serve(t, p, n).1; r.Answer? && r.front != [] <==> ReachesBelow(t, p)
  {
    hide PackCells, UnpackBits, RegisterBytes, MaskMerge, Overwrite, StoreFrom, Word;
  }

  /** An exception or a silent request changes nothing; no request changes the input tables or any table's place. */
  lemma ServeFrame(t: Tables, p: Buffer, n: nat)
    requires n <= |p|
    ensures var (t', r) := Serve(t, p, n);
      && (r.Silent? || IsException(r) ==> t' == t)
      && (IsException(r) ==> r.front == [])
      && t'.inputBits == t.inputBits && t'.inputRegisters == t.inputRegisters
      && |t'.bits| == |t.bits| && |t'.registers| == |t.registers|
      && t'.(bits := t.bits, registers := t.registers) == t
  {
    hide PackCells, UnpackBits, Registers, RegisterBytes, MaskMerge, Overwrite, StoreFrom, Word;
  }

  /** The cells a request is allowed to change: table, first address, count. */
  datatype Touched = Nothing | Coils(first: int, count: nat) | Holding(first: int, count: nat)

  function Addressed(p: Buffer): (a: Touched) {
    var f := p[0];
    if f == WRITE_SINGLE_COIL then Coils(Field(p, 1), 1)
    else if f == WRITE_MULTIPLE_COILS then Coils(Field(p, 1), Field(p, 3))
    else if f == WRITE_SINGLE_REGISTER || f == MASK_WRITE_REGISTER then Holding(Field(p, 1), 1)
    else if f == WRITE_MULTIPLE_REGISTERS then Holding(Field(p, 1), Field(p, 3))
    else if f == WRITE_AND_READ_REGISTERS then Holding(Field(p, 5), Field(p, 7))
    else Nothing
  }

  predicate TouchesCoil(p: Buffer, address: int) {
    var a := Addressed(p);
    a.Coils? && a.first <= address < a.first + a.count
  }

  predicate TouchesHolding(p: Buffer, address: int) {
    var a := Addressed(p);
    a.Holding? && a.first <= address < a.first + a.count
  }

  /** A request that stores nothing outside the tables changes only the cells it addresses. */
  lemma ServeTouches(t: Tables, p: Buffer, n: nat)
    requires n <= |p| && !ReachesBelow(t, p)
    ensures var t' := Serve(t, p, n).0;
      && |t'.bits| == |t.bits| && |t'.registers| == |t.registers|
      && (forall i :: 0 <= i < |t.bits| && !TouchesCoil(p, t.startBits + i) ==> t'.bits[i] == t.bits[i])
      && (forall i :: 0 <= i < |t.registers| && !TouchesHolding(p, t.startRegisters + i) ==>
            t'.registers[i] == t.registers[i])
  {
    hide PackCells, Registers, RegisterBytes, MaskMerge, Word;
  }

  /** Coils stay 0 or 1. */
  lemma CoilsStayBits(t: Tables, p: Buffer, n: nat)
    requires n <= |p| && AllBits(t.bits)
    ensures AllBits(Serve(t, p, n).0.bits)
  {
    hide PackCells, Registers, RegisterBytes, MaskMerge, StoreFrom, Word;
  }

  /** Every answer, its checksum included, fits in a frame of its transport; a broadcast sends nothing. */
  lemma OutgoingFits(be: Backend, t: Tables, buf: seq<byte>, n: nat)
    requires |buf| == MAX_MESSAGE_LENGTH && n <= MAX_PDU_LENGTH
    ensures |Outgoing(be, buf, Serve(t, buf[be.HeaderLength()..], n).1)| <= be.MaxAduLength()
    ensures HeaderOf(be, buf).slave == BROADCAST ==> Outgoing(be, buf, Serve(t, buf[be.HeaderLength()..], n).1) == []
  {
    hide Serve, HeaderOf;
    AnswerFits(t, buf[be.HeaderLength()..], n);
  }

  lemma AnswerFits(t: Tables, p: Buffer, n: nat)
    requires n <= MAX_PDU_LENGTH
    ensures Serve(t, p, n).1.Answer? ==> |Serve(t, p, n).1.pdu| <= MAX_PDU_LENGTH
  {
    hide PackCells, UnpackBits, Registers, RegisterBytes, MaskMerge, Overwrite, StoreFrom, Word;
  }

  // ----- Whole runs -----

  datatype Incoming = Incoming(p: Buffer, n: nat)

  function ServeAll(t: Tables, reqs: seq<Incoming>): (t': Tables)
    requires forall r :: r in reqs ==> r.n <= |r.p|
    decreases |reqs|
  {
    hide Serve;
    if reqs == [] then t else ServeAll(Serve(t, reqs[0].p, reqs[0].n).0, reqs[1..])
  }

  ghost predicate CoilUntouched(t: Tables, reqs: seq<Incoming>, i: int) {
    forall r :: r in reqs ==> !TouchesCoil(r.p, t.startBits + i)
  }

  ghost predicate HoldingUntouched(t: Tables, reqs: seq<Incoming>, i: int) {
    forall r :: r in reqs ==> !TouchesHolding(r.p, t.startRegisters + i)
  }

  /** No request of the run stores anything outside the tables, whose place and size do not change. */
  ghost predicate StaysInside(t: Tables, reqs: seq<Incoming>) {
    forall r :: r in reqs ==> !ReachesBelow(t, r.p)
  }

  lemma SamePlace(t: Tables, t': Tables, reqs: seq<Incoming>)
    requires StaysInside(t, reqs) && t'.startRegisters == t.startRegisters && |t'.registers| == |t.registers|
    ensures StaysInside(t', reqs)
  {
  }

  /**
   * Over any such run: inputs never change, coils stay 0 or 1, and a cell that no request addresses keeps its value.
   */
  lemma {:induction false} ServeAllKeeps(t: Tables, reqs: seq<Incoming>)
    requires forall r :: r in reqs ==> r.n <= |r.p|
    requires StaysInside(t, reqs)
    ensures var t' := ServeAll(t, reqs);
      && t'.(bits := t.bits, registers := t.registers) == t
      && |t'.bits| == |t.bits| && |t'.registers| == |t.registers|
      && (AllBits(t.bits) ==> AllBits(t'.bits))
      && (forall i :: 0 <= i < |t.bits| && CoilUntouched(t, reqs, i) ==> t'.bits[i] == t.bits[i])
      && (forall i :: 0 <= i < |t.registers| && HoldingUntouched(t, reqs, i) ==> t'.registers[i] == t.registers[i])
    decreases |reqs|
  {
    hide Serve, TouchesCoil, TouchesHolding, ReachesBelow, AllBits;
    if reqs != [] {
      var p, n := reqs[0].p, reqs[0].n;
      var t1 := Serve(t, p, n).0;
      assert reqs[0] in reqs;
      ServeFrame(t, p, n);
      ServeTouches(t, p, n);
      if AllBits(t.bits) { CoilsStayBits(t, p, n); }
      SamePlace(t, t1, reqs[1..]);
      ServeAllKeeps(t1, reqs[1..]);
      forall i | 0 <= i < |t.bits| && CoilUntouched(t, reqs, i) ensures CoilUntouched(t1, reqs[1..], i) { }
      forall i | 0 <= i < |t.registers| && HoldingUntouched(t, reqs, i) ensures HoldingUntouched(t1, reqs[1..], i) { }
    }
  }
}
