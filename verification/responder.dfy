/** The server as it runs: tables updated in place, the response assembled in a fixed buffer. */
module Responder {
  import opened Bytes
  import opened Bits
  import opened Packing
  import opened Backends
  import opened Pdus
  import opened Framing
  import opened Server

  class Mapping {
    const startBits: int
    const tabBits: array<byte>
    const startInputBits: int
    const tabInputBits: array<byte>
    const startRegisters: int
    const tabRegisters: array<word>
    const startInputRegisters: int
    const tabInputRegisters: array<word>

    /** A fresh mapping: the four tables are separate and all zero. */
    constructor (startBits: nat, nbBits: nat, startInputBits: nat, nbInputBits: nat,
                 startRegisters: nat, nbRegisters: nat, startInputRegisters: nat, nbInputRegisters: nat)
      ensures Valid()
      ensures fresh(tabBits) && fresh(tabInputBits) && fresh(tabRegisters) && fresh(tabInputRegisters)
      ensures Contents() == Tables(
        startBits, seq(nbBits, _ => 0), startInputBits, seq(nbInputBits, _ => 0),
        startRegisters, seq(nbRegisters, _ => 0), startInputRegisters, seq(nbInputRegisters, _ => 0))
    {
      this.startBits, this.startInputBits := startBits, startInputBits;
      this.startRegisters, this.startInputRegisters := startRegisters, startInputRegisters;
      tabBits := new byte[nbBits](_ => 0);
      tabInputBits := new byte[nbInputBits](_ => 0);
      tabRegisters := new word[nbRegisters](_ => 0);
      tabInputRegisters := new word[nbInputRegisters](_ => 0);
    }

    ghost predicate Valid() {
      tabBits != tabInputBits && tabRegisters != tabInputRegisters
    }

    ghost function Contents(): (t: Tables)
      reads tabBits, tabInputBits, tabRegisters, tabInputRegisters
    {
      Tables(startBits, tabBits[..], startInputBits, tabInputBits[..],
             startRegisters, tabRegisters[..], startInputRegisters, tabInputRegisters[..])
    }
  }

  /** A request buffer is as long as the longest message of either transport. */
  predicate RequestBuffer(be: Backend, req: array<byte>, reqLength: nat) {
    && req.Length == MAX_MESSAGE_LENGTH
    && be.HeaderLength() + be.ChecksumLength() < reqLength <= be.MaxAduLength()
  }

  ghost predicate Built(be: Backend, h: Header, rsp: array<byte>, length: nat, r: Reply)
    reads rsp
  {
    && rsp.Length == MAX_MESSAGE_LENGTH
    && be.HeaderLength() <= length <= MAX_MESSAGE_LENGTH - be.ChecksumLength()
    && HeaderOf(be, rsp[..]) == h
    && r.Answer? && rsp[be.HeaderLength()..length] == r.pdu
  }

  method ResponseException(be: Backend, slave: byte, tid: word, f: byte, code: byte, flush: bool, rsp: array<byte>)
    returns (length: nat)
    requires rsp.Length == MAX_MESSAGE_LENGTH
    modifies rsp
    ensures Built(be, CanonicalHeader(be, tid, slave), rsp, length, Exception(f, code, flush))
  {
    length := BuildResponseBasis(be, slave, tid, (f + 0x80) % 256, rsp);
    rsp[length] := code;
    length := length + 1;
  }

  lemma HeaderOfPrefix(be: Backend, a: seq<byte>, b: seq<byte>)
    requires be.HeaderLength() <= |a| && be.HeaderLength() <= |b|
    requires a[..be.HeaderLength()] == b[..be.HeaderLength()]
    ensures HeaderOf(be, a) == HeaderOf(be, b)
  {
    assert forall i :: 0 <= i < be.HeaderLength() ==> a[i] == a[..be.HeaderLength()][i] == b[i];
  }

  /** Header and function code in front of what has just been appended. */
  lemma BuiltFromBasis(be: Backend, h: Header, rsp: array<byte>, length: nat, f: byte, payload: seq<byte>,
                       basis: seq<byte>)
    requires rsp.Length == |basis| == MAX_MESSAGE_LENGTH
    requires be.HeaderLength() + 1 <= length <= MAX_MESSAGE_LENGTH - be.ChecksumLength()
    requires HeaderOf(be, basis) == h && basis[be.HeaderLength()] == f
    requires forall i :: 0 <= i <= be.HeaderLength() ==> rsp[i] == basis[i]
    requires rsp[be.HeaderLength() + 1..length] == payload
    ensures Built(be, h, rsp, length, Answer([f] + payload, false, false))
  {
    hide HeaderOf;
    var o := be.HeaderLength();
    assert rsp[..][..o] == basis[..o];
    HeaderOfPrefix(be, rsp[..], basis);
    assert rsp[o..length] == [rsp[o]] + rsp[o + 1..length];
  }

  /** Header, function code and byte count in front of the payload that a loop has just appended. */
  lemma BuiltFromParts(be: Backend, h: Header, rsp: array<byte>, length: nat, f: byte, count: byte,
                       payload: seq<byte>, before: seq<byte>)
    requires rsp.Length == MAX_MESSAGE_LENGTH && |before| >= be.HeaderLength() + 2
    requires be.HeaderLength() + 2 <= length <= MAX_MESSAGE_LENGTH - be.ChecksumLength()
    requires HeaderOf(be, before) == h && before[be.HeaderLength()] == f && before[be.HeaderLength() + 1] == count
    requires rsp[..be.HeaderLength() + 2] == before[..be.HeaderLength() + 2]
    requires rsp[be.HeaderLength() + 2..length] == payload
    ensures Built(be, h, rsp, length, Answer([f, count] + payload, false, false))
  {
    var o := be.HeaderLength();
    assert rsp[..o] == rsp[..o + 2][..o] == before[..o + 2][..o] == before[..o];
    HeaderOfPrefix(be, rsp[..], before);
    assert rsp[..o + 2][o] == before[..o + 2][o] && rsp[..o + 2][o + 1] == before[..o + 2][o + 1];
    assert rsp[o..length] == [rsp[o], rsp[o + 1]] + rsp[o + 2..length];
  }

  method ReplyReadBits(be: Backend, slave: byte, tid: word, start: int, tab: array<byte>, req: array<byte>,
                       rsp: array<byte>)
    returns (length: nat, flush: bool)
    requires req.Length == MAX_MESSAGE_LENGTH && rsp.Length == MAX_MESSAGE_LENGTH && rsp != req && rsp != tab
    modifies rsp
    ensures var r := ReadBits(start, tab[..], req[be.HeaderLength()..]);
      Built(be, CanonicalHeader(be, tid, slave), rsp, length, r) && flush == r.flush
  {
    hide PackCells, Built, Word;
    var o := be.HeaderLength();
    var f, address, nb := req[o], Word(req[o + 1], req[o + 2]), Word(req[o + 3], req[o + 4]);
    flush := false;
    if nb < 1 || MAX_READ_BITS < nb {
      length := ResponseException(be, slave, tid, f, ILLEGAL_DATA_VALUE, true, rsp);
      flush := true;
    } else if address - start < 0 || address - start + nb > tab.Length {
      length := ResponseException(be, slave, tid, f, ILLEGAL_DATA_ADDRESS, false, rsp);
    } else {
      length := BuildResponseBasis(be, slave, tid, f, rsp);
      rsp[length] := ByteCount(nb);
      length := length + 1;
      ghost var before := rsp[..];
      length := ResponseIoStatus(tab, address - start, nb, rsp, length);
      ghost var payload := tab[address - start..address - start + nb];
      assert tab[..][address - start..address - start + nb] == payload;
      BuiltFromParts(be, CanonicalHeader(be, tid, slave), rsp, length, f, ByteCount(nb), PackCells(payload), before);
    }
  }

  /** The loop that copies registers into the response, high byte first. */
  method AppendRegisters(tab: array<word>, first: nat, nb: nat, rsp: array<byte>, at: nat) returns (length: nat)
    requires first + nb <= tab.Length && at + 2 * nb <= rsp.Length
    modifies rsp
    ensures length == at + 2 * nb
    ensures rsp[..at] == old(rsp[..at])
    ensures rsp[at..length] == RegisterBytes(tab[first..first + nb])
  {
    hide Hi, Lo;
    length := at;
    var i := first;
    while i < first + nb
      invariant first <= i <= first + nb
      invariant length == at + 2 * (i - first)
      invariant rsp[..at] == old(rsp[..at])
      invariant rsp[at..length] == RegisterBytes(tab[first..i])
    {
      assert tab[first..i + 1][..i - first] == tab[first..i];
      ghost var before := rsp[at..length];
      rsp[length] := Hi(tab[i]);
      rsp[length + 1] := Lo(tab[i]);
      assert rsp[at..length + 2] == before + [Hi(tab[i]), Lo(tab[i])];
      length := length + 2;
      i := i + 1;
    }
  }

  method ReplyReadRegisters(be: Backend, slave: byte, tid: word, start: int, tab: array<word>, req: array<byte>,
                            rsp: array<byte>)
    returns (length: nat, flush: bool)
    requires req.Length == MAX_MESSAGE_LENGTH && rsp.Length == MAX_MESSAGE_LENGTH && rsp != req
    modifies rsp
    ensures var r := ReadRegisters(start, tab[..], req[be.HeaderLength()..]);
      Built(be, CanonicalHeader(be, tid, slave), rsp, length, r) && flush == r.flush
  {
    hide RegisterBytes, Built, Word;
    var o := be.HeaderLength();
    var f, address, nb := req[o], Word(req[o + 1], req[o + 2]), Word(req[o + 3], req[o + 4]);
    flush := false;
    if nb < 1 || MAX_READ_REGISTERS < nb {
      length := ResponseException(be, slave, tid, f, ILLEGAL_DATA_VALUE, true, rsp);
      flush := true;
    } else if address - start < 0 || address - start + nb > tab.Length {
      length := ResponseException(be, slave, tid, f, ILLEGAL_DATA_ADDRESS, false, rsp);
    } else {
      length := BuildResponseBasis(be, slave, tid, f, rsp);
      rsp[length] := 2 * nb;
      length := length + 1;
      ghost var before := rsp[..];
      length := AppendRegisters(tab, address - start, nb, rsp, length);
      ghost var payload := tab[address - start..address - start + nb];
      assert tab[..][address - start..address - start + nb] == payload;
      BuiltFromParts(be, CanonicalHeader(be, tid, slave), rsp, length, f, 2 * nb, RegisterBytes(payload), before);
    }
  }

  /** memcpy(rsp + from, req + from, count). */
  method CopyRange(req: array<byte>, rsp: array<byte>, from: nat, count: nat)
    requires from + count <= req.Length && from + count <= rsp.Length && req != rsp
    modifies rsp
    ensures forall k :: 0 <= k < from ==> rsp[k] == old(rsp[k])
    ensures rsp[from..from + count] == req[from..from + count]
  {
    forall k | from <= k < from + count { rsp[k] := req[k]; }
  }

  /** A response that repeats the first n bytes of the request. */
  method EchoRequest(be: Backend, req: array<byte>, n: nat, rsp: array<byte>) returns (length: nat)
    requires req.Length == MAX_MESSAGE_LENGTH && rsp.Length == MAX_MESSAGE_LENGTH && rsp != req
    requires be.HeaderLength() <= n <= MAX_MESSAGE_LENGTH - be.ChecksumLength()
    modifies rsp
    ensures Built(be, HeaderOf(be, req[..]), rsp, length,
                  Answer(req[be.HeaderLength()..][..n - be.HeaderLength()], true, false))
  {
    hide HeaderOf;
    var o := be.HeaderLength();
    CopyRange(req, rsp, 0, n);
    length := n;
    assert rsp[..n] == req[..n];
    assert rsp[..][..o] == rsp[..n][..o] == req[..n][..o] == req[..][..o];
    HeaderOfPrefix(be, rsp[..], req[..]);
    assert rsp[o..n] == rsp[..n][o..] == req[..n][o..] == req[o..][..n - o];
  }

  /** The response to a write of many cells: the function code and the first four bytes behind it. */
  method AcknowledgeRange(be: Backend, slave: byte, tid: word, req: array<byte>, rsp: array<byte>) returns (length: nat)
    requires req.Length == MAX_MESSAGE_LENGTH && rsp.Length == MAX_MESSAGE_LENGTH && rsp != req
    modifies rsp
    ensures Built(be, CanonicalHeader(be, tid, slave), rsp, length, Answer(req[be.HeaderLength()..][..5], false, false))
  {
    hide HeaderOf, Built;
    var o := be.HeaderLength();
    length := BuildResponseBasis(be, slave, tid, req[o], rsp);
    ghost var basis := rsp[..];
    CopyRange(req, rsp, length, 4);
    length := length + 4;
    BuiltFromBasis(be, CanonicalHeader(be, tid, slave), rsp, length, req[o], req[o + 1..o + 5], basis);
    assert req[o..][..5] == [req[o]] + req[o + 1..o + 5];
  }

  ghost function ReplyHeader(be: Backend, h: Header, r: Reply): Header {
    if r.Answer? && r.echo then h else CanonicalHeader(be, h.tid, h.slave)
  }

  method ReplyWriteSingleCoil(be: Backend, slave: byte, tid: word, start: int, tab: array<byte>, req: array<byte>,
                              n: nat, rsp: array<byte>)
    returns (length: nat)
    requires req.Length == MAX_MESSAGE_LENGTH && rsp.Length == MAX_MESSAGE_LENGTH && rsp != req && tab != req
      && tab != rsp
    requires be.HeaderLength() <= n <= MAX_MESSAGE_LENGTH - be.ChecksumLength()
    requires HeaderOf(be, req[..]).tid == tid && HeaderOf(be, req[..]).slave == slave
    modifies rsp, tab
    ensures var (cells, r) := WriteSingleCoil(start, old(tab[..]), req[be.HeaderLength()..], n - be.HeaderLength());
      tab[..] == cells && Built(be, ReplyHeader(be, HeaderOf(be, req[..]), r), rsp, length, r)
  {
    hide Built, Word, HeaderOf;
    var o := be.HeaderLength();
    var address := Word(req[o + 1], req[o + 2]);
    if address - start < 0 || address - start >= tab.Length {
      length := ResponseException(be, slave, tid, req[o], ILLEGAL_DATA_ADDRESS, false, rsp);
    } else {
      var data := Word(req[o + 3], req[o + 4]);
      if data == 0xFF00 || data == 0 {
        tab[address - start] := if data != 0 then 1 else 0;
        assert tab[..] == old(tab[..])[address - start := if data != 0 then 1 else 0];
        length := EchoRequest(be, req, n, rsp);
      } else {
        length := ResponseException(be, slave, tid, req[o], ILLEGAL_DATA_VALUE, false, rsp);
      }
    }
  }

  method ReplyWriteSingleRegister(be: Backend, slave: byte, tid: word, start: int, tab: array<word>, req: array<byte>,
                                  n: nat, rsp: array<byte>)
    returns (length: nat)
    requires req.Length == MAX_MESSAGE_LENGTH && rsp.Length == MAX_MESSAGE_LENGTH && rsp != req
    requires be.HeaderLength() <= n <= MAX_MESSAGE_LENGTH - be.ChecksumLength()
    requires HeaderOf(be, req[..]).tid == tid && HeaderOf(be, req[..]).slave == slave
    modifies rsp, tab
    ensures var (regs, r) := WriteSingleRegister(start, old(tab[..]), req[be.HeaderLength()..], n - be.HeaderLength());
      tab[..] == regs && Built(be, ReplyHeader(be, HeaderOf(be, req[..]), r), rsp, length, r)
  {
    hide Built, Word, HeaderOf;
    var o := be.HeaderLength();
    var address := Word(req[o + 1], req[o + 2]);
    if address - start < 0 || address - start >= tab.Length {
      length := ResponseException(be, slave, tid, req[o], ILLEGAL_DATA_ADDRESS, false, rsp);
    } else {
      tab[address - start] := Word(req[o + 3], req[o + 4]);
      assert tab[..] == old(tab[..])[address - start := Field(req[o..], 3)];
      length := EchoRequest(be, req, n, rsp);
    }
  }

  method ReplyMaskWriteRegister(be: Backend, slave: byte, tid: word, start: int, tab: array<word>, req: array<byte>,
                                n: nat, rsp: array<byte>)
    returns (length: nat)
    requires req.Length == MAX_MESSAGE_LENGTH && rsp.Length == MAX_MESSAGE_LENGTH && rsp != req
    requires be.HeaderLength() <= n <= MAX_MESSAGE_LENGTH - be.ChecksumLength()
    requires HeaderOf(be, req[..]).tid == tid && HeaderOf(be, req[..]).slave == slave
    modifies rsp, tab
    ensures var (regs, r) := MaskWriteRegister(start, old(tab[..]), req[be.HeaderLength()..], n - be.HeaderLength());
      tab[..] == regs && Built(be, ReplyHeader(be, HeaderOf(be, req[..]), r), rsp, length, r)
  {
    hide Built, Word, HeaderOf, MaskMerge;
    var o := be.HeaderLength();
    var address := Word(req[o + 1], req[o + 2]);
    if address - start < 0 || address - start >= tab.Length {
      length := ResponseException(be, slave, tid, req[o], ILLEGAL_DATA_ADDRESS, false, rsp);
    } else {
      var i := address - start;
      tab[i] := MaskMerge(tab[i], Word(req[o + 3], req[o + 4]), Word(req[o + 5], req[o + 6]));
      assert tab[..] == old(tab[..])[i := MaskMerge(old(tab[..])[i], Field(req[o..], 3), Field(req[o..], 5))];
      length := EchoRequest(be, req, n, rsp);
    }
  }

  lemma OverwriteIs(s: seq<byte>, i: nat, xs: seq<byte>)
    requires i + |xs| <= |s|
    ensures Overwrite<byte>(s, i, xs) == s[..i] + xs + s[i + |xs|..]
  {
  }

  method ReplyWriteMultipleCoils(be: Backend, slave: byte, tid: word, start: int, tab: array<byte>, req: array<byte>,
                                 rsp: array<byte>)
    returns (length: nat, flush: bool)
    requires req.Length == MAX_MESSAGE_LENGTH && rsp.Length == MAX_MESSAGE_LENGTH && rsp != req && tab != req
      && tab != rsp
    modifies rsp, tab
    ensures var (cells, r) := WriteMultipleCoils(start, old(tab[..]), req[be.HeaderLength()..]);
      tab[..] == cells && Built(be, CanonicalHeader(be, tid, slave), rsp, length, r) && flush == r.flush
  {
    hide Built, Word, UnpackBits, Overwrite;
    var o := be.HeaderLength();
    var address, nb := Word(req[o + 1], req[o + 2]), Word(req[o + 3], req[o + 4]);
    flush := false;
    if nb < 1 || MAX_WRITE_BITS < nb {
      length := ResponseException(be, slave, tid, req[o], ILLEGAL_DATA_VALUE, true, rsp);
      flush := true;
    } else if address - start < 0 || address - start + nb > tab.Length {
      length := ResponseException(be, slave, tid, req[o], ILLEGAL_DATA_ADDRESS, false, rsp);
    } else {
      assert req[o..][6..] == req[o + 6..];
      ghost var was, idx := tab[..], address - start;
      SetBitsFromBytes(tab, address - start, nb, req[o + 6..]);
      assert old(tab[..idx]) == was[..idx] && old(tab[idx + nb..]) == was[idx + nb..];
      OverwriteIs(was, idx, UnpackBits(req[o + 6..], nb));
      length := AcknowledgeRange(be, slave, tid, req, rsp);
    }
  }

  /**
   * The loop that stores nb registers found in the request from index at on. The first index may lie in front of the
   * table; what is stored there is handed back.
   */
  method StoreRegisters(tab: array<word>, first: int, nb: nat, req: array<byte>, at: nat) returns (front: seq<word>)
    requires first + nb <= tab.Length && at + 2 * nb <= req.Length
    modifies tab
    ensures tab[..] == StoreFrom(old(tab[..]), first, Registers(req[at..], nb))
    ensures front == InFront(first, Registers(req[at..], nb))
  {
    hide Word, Registers, StoreFrom;
    ghost var values := Registers(req[at..], nb);
    var i, j := first, at;
    front := [];
    while i < first + nb
      invariant first <= i <= first + nb && j == at + 2 * (i - first)
      invariant forall k :: 0 <= k < tab.Length ==> tab[k] == if first <= k < i then values[k - first] else old(tab[k])
      invariant front == if first >= 0 then [] else values[..(if i < 0 then i else 0) - first]
    {
      RegisterAt(req[..], at, nb, i - first);
      if i >= 0 {
        tab[i] := Word(req[j], req[j + 1]);
      } else {
        front := front + [Word(req[j], req[j + 1])];
      }
      i, j := i + 1, j + 2;
    }
  }

  lemma RegisterAt(req: seq<byte>, at: nat, nb: nat, k: nat)
    requires at + 2 * nb <= |req| && k < nb
    ensures Registers(req[at..], nb)[k] == Word(req[at + 2 * k], req[at + 2 * k + 1])
  {
    hide Word;
  }

  method ReplyWriteMultipleRegisters(be: Backend, slave: byte, tid: word, start: int, tab: array<word>,
                                     req: array<byte>, rsp: array<byte>)
    returns (length: nat, flush: bool)
    requires req.Length == MAX_MESSAGE_LENGTH && rsp.Length == MAX_MESSAGE_LENGTH && rsp != req
    modifies rsp, tab
    ensures var (regs, r) := WriteMultipleRegisters(start, old(tab[..]), req[be.HeaderLength()..]);
      tab[..] == regs && Built(be, CanonicalHeader(be, tid, slave), rsp, length, r) && flush == r.flush
  {
    hide Built, Word, Registers;
    var o := be.HeaderLength();
    var address, nb := Word(req[o + 1], req[o + 2]), Word(req[o + 3], req[o + 4]);
    flush := false;
    if nb < 1 || MAX_WRITE_REGISTERS < nb {
      length := ResponseException(be, slave, tid, req[o], ILLEGAL_DATA_VALUE, true, rsp);
      flush := true;
    } else if address - start < 0 || address - start + nb > tab.Length {
      length := ResponseException(be, slave, tid, req[o], ILLEGAL_DATA_ADDRESS, false, rsp);
    } else {
      assert req[o..][6..] == req[o + 6..];
      var _ := StoreRegisters(tab, address - start, nb, req, o + 6);
      StoredInside(old(tab[..]), address - start, Registers(req[o + 6..], nb));
      length := AcknowledgeRange(be, slave, tid, req, rsp);
    }
  }

  /** The accepted request: write first, then read the data for the response. */
  method AnswerWriteAndRead(be: Backend, slave: byte, tid: word, tab: array<word>, from: nat, nb: nat, first: int,
                            nbWrite: nat, req: array<byte>, rsp: array<byte>)
    returns (length: nat, front: seq<word>)
    requires req.Length == MAX_MESSAGE_LENGTH && rsp.Length == MAX_MESSAGE_LENGTH && rsp != req
    requires from + nb <= tab.Length && 1 <= nb <= MAX_WR_READ_REGISTERS
    requires first + nbWrite <= tab.Length && nbWrite <= MAX_WR_WRITE_REGISTERS
    modifies rsp, tab
    ensures var values := Registers(req[be.HeaderLength() + 10..], nbWrite);
      var regs := StoreFrom(old(tab[..]), first, values);
      && tab[..] == regs && front == InFront(first, values)
      && Built(be, CanonicalHeader(be, tid, slave), rsp, length,
               Answer([req[be.HeaderLength()], 2 * nb] + RegisterBytes(regs[from..from + nb]), false, false, front))
  {
    hide Built, Registers, RegisterBytes, StoreFrom, InFront;
    var o := be.HeaderLength();
    length := BuildResponseBasis(be, slave, tid, req[o], rsp);
    rsp[length] := 2 * nb;
    length := length + 1;
    ghost var before := rsp[..];
    front := StoreRegisters(tab, first, nbWrite, req, o + 10);
    length := AppendRegisters(tab, from, nb, rsp, length);
    ghost var payload := tab[from..from + nb];
    assert tab[..][from..from + nb] == payload;
    BuiltFromParts(be, CanonicalHeader(be, tid, slave), rsp, length, req[o], 2 * nb, RegisterBytes(payload), before);
    BuiltWithFront(be, CanonicalHeader(be, tid, slave), rsp, length, [req[o], 2 * nb] + RegisterBytes(payload), front);
  }

  method ReplyWriteAndRead(be: Backend, slave: byte, tid: word, start: int, tab: array<word>, req: array<byte>,
                           rsp: array<byte>)
    returns (length: nat, flush: bool, front: seq<word>)
    requires req.Length == MAX_MESSAGE_LENGTH && rsp.Length == MAX_MESSAGE_LENGTH && rsp != req
    modifies rsp, tab
    ensures var (regs, r) := WriteAndReadRegisters(start, old(tab[..]), req[be.HeaderLength()..]);
      && tab[..] == regs && Built(be, CanonicalHeader(be, tid, slave), rsp, length, r)
      && flush == r.flush && front == r.front
  {
    hide Built, Word, Registers, RegisterBytes, StoreFrom, InFront;
    var o := be.HeaderLength();
    var address: word, nb: word := Word(req[o + 1], req[o + 2]), Word(req[o + 3], req[o + 4]);
    var addressWrite, nbWrite := Word(req[o + 5], req[o + 6]), Word(req[o + 7], req[o + 8]);
    var nbWriteBytes := req[o + 9];
    flush, front := false, [];
    if nbWrite < 1 || MAX_WR_WRITE_REGISTERS < nbWrite || nb < 1 || MAX_WR_READ_REGISTERS < nb
       || nbWriteBytes != nbWrite * 2 {
      length := ResponseException(be, slave, tid, req[o], ILLEGAL_DATA_VALUE, true, rsp);
      flush := true;
    } else if address - start < 0 || address - start + nb > tab.Length || address - start < 0
              || addressWrite - start + nbWrite > tab.Length {
      length := ResponseException(be, slave, tid, req[o], ILLEGAL_DATA_ADDRESS, false, rsp);
    } else {
      assert req[o..][10..] == req[o + 10..];
      length, front := AnswerWriteAndRead(be, slave, tid, tab, address - start, nb, addressWrite - start, nbWrite,
        req, rsp);
    }
  }

  lemma BuiltWithFront(be: Backend, h: Header, rsp: array<byte>, length: nat, pdu: seq<byte>, front: seq<word>)
    requires Built(be, h, rsp, length, Answer(pdu, false, false))
    ensures Built(be, h, rsp, length, Answer(pdu, false, false, front))
  {
  }

  method CopyText(rsp: array<byte>, at: nat, text: seq<byte>)
    requires at + |text| <= rsp.Length
    modifies rsp
    ensures forall k :: 0 <= k < at ==> rsp[k] == old(rsp[k])
    ensures forall k :: at <= k < at + |text| ==> rsp[k] == text[k - at]
  {
    forall k | at <= k < at + |text| { rsp[k] := text[k - at]; }
  }

  lemma ReportTail(s: seq<byte>, at: nat, text: seq<byte>)
    requires at + 3 + |text| <= |s| && |text| <= 200
    requires s[at] == 2 + |text| && s[at + 1] == SLAVE_ID && s[at + 2] == 0xFF
    requires forall k :: at + 3 <= k < at + 3 + |text| ==> s[k] == text[k - (at + 3)]
    ensures s[at..at + 3 + |text|] == [2 + |text|, SLAVE_ID, 0xFF] + text
  {
  }

  /** The report: the slave id, the run indicator and the text, behind a byte count written last. */
  method BuildReport(be: Backend, slave: byte, tid: word, text: seq<byte>, rsp: array<byte>) returns (length: nat)
    requires rsp.Length == MAX_MESSAGE_LENGTH && |text| <= 200
    modifies rsp
    ensures Built(be, CanonicalHeader(be, tid, slave), rsp, length,
                  Answer([REPORT_SLAVE_ID, 2 + |text|, SLAVE_ID, 0xFF] + text, false, false))
  {
    hide HeaderOf, Built;
    var o := be.HeaderLength();
    length := BuildResponseBasis(be, slave, tid, REPORT_SLAVE_ID, rsp);
    ghost var basis := rsp[..];
    var byteCountPos := length;
    length := length + 1;
    rsp[length] := SLAVE_ID;
    rsp[length + 1] := 0xFF;
    length := length + 2;
    CopyText(rsp, length, text);
    length := length + |text|;
    rsp[byteCountPos] := length - byteCountPos - 1;
    ReportTail(rsp[..], o + 1, text);
    assert rsp[o + 1..length] == rsp[..][o + 1..length];
    BuiltFromBasis(be, CanonicalHeader(be, tid, slave), rsp, length, REPORT_SLAVE_ID,
                   [2 + |text|, SLAVE_ID, 0xFF] + text, basis);
    assert [REPORT_SLAVE_ID] + ([2 + |text|, SLAVE_ID, 0xFF] + text)
      == [REPORT_SLAVE_ID, 2 + |text|, SLAVE_ID, 0xFF] + text;
  }

  method ReplyReportSlaveId(be: Backend, slave: byte, tid: word, rsp: array<byte>) returns (length: nat)
    requires rsp.Length == MAX_MESSAGE_LENGTH
    modifies rsp
    ensures Built(be, CanonicalHeader(be, tid, slave), rsp, length,
                  Answer([REPORT_SLAVE_ID, 2 + |SLAVE_ID_TEXT|, SLAVE_ID, 0xFF] + SLAVE_ID_TEXT, false, false))
  {
    hide Built;
    length := BuildReport(be, slave, tid, SLAVE_ID_TEXT, rsp);
  }

  /** Builds the response to the request in req, updating the tables in place. No response for function 0x07. */
  method BuildReply(be: Backend, req: array<byte>, n: nat, m: Mapping, rsp: array<byte>)
    returns (silent: bool, length: nat, flush: bool, front: seq<word>)
    requires req.Length == MAX_MESSAGE_LENGTH && rsp.Length == MAX_MESSAGE_LENGTH && rsp != req
    requires m.Valid() && req !in {m.tabBits, m.tabInputBits} && rsp !in {m.tabBits, m.tabInputBits}
    requires be.HeaderLength() <= n <= MAX_MESSAGE_LENGTH - be.ChecksumLength()
    modifies rsp, m.tabBits, m.tabRegisters
    ensures var (t, r) := Serve(old(m.Contents()), req[be.HeaderLength()..], n - be.HeaderLength());
      && m.Contents() == t
      && silent == r.Silent?
      && (!silent ==> Built(be, ReplyHeader(be, HeaderOf(be, req[..]), r), rsp, length, r))
      && (!silent ==> flush == r.flush && front == r.front)
  {
    hide Built, HeaderOf, ReadBits, ReadRegisters, WriteSingleCoil, WriteSingleRegister, WriteMultipleCoils,
      WriteMultipleRegisters, MaskWriteRegister, WriteAndReadRegisters;
    var o := be.HeaderLength();
    var header := HeaderOf(be, req[..]);
    var slave, tid := header.slave, header.tid;
    var f := req[o];
    silent, length, flush, front := false, 0, false, [];
    AnswerKinds(m.Contents(), req[o..], n - o);
    if f == READ_COILS {
      length, flush := ReplyReadBits(be, slave, tid, m.startBits, m.tabBits, req, rsp);
    } else if f == READ_DISCRETE_INPUTS {
      length, flush := ReplyReadBits(be, slave, tid, m.startInputBits, m.tabInputBits, req, rsp);
    } else if f == READ_HOLDING_REGISTERS {
      length, flush := ReplyReadRegisters(be, slave, tid, m.startRegisters, m.tabRegisters, req, rsp);
    } else if f == READ_INPUT_REGISTERS {
      length, flush := ReplyReadRegisters(be, slave, tid, m.startInputRegisters, m.tabInputRegisters, req, rsp);
    } else if f == WRITE_SINGLE_COIL {
      length := ReplyWriteSingleCoil(be, slave, tid, m.startBits, m.tabBits, req, n, rsp);
    } else if f == WRITE_SINGLE_REGISTER {
      length := ReplyWriteSingleRegister(be, slave, tid, m.startRegisters, m.tabRegisters, req, n, rsp);
    } else if f == WRITE_MULTIPLE_COILS {
      length, flush := ReplyWriteMultipleCoils(be, slave, tid, m.startBits, m.tabBits, req, rsp);
    } else if f == WRITE_MULTIPLE_REGISTERS {
      length, flush := ReplyWriteMultipleRegisters(be, slave, tid, m.startRegisters, m.tabRegisters, req, rsp);
    } else if f == REPORT_SLAVE_ID {
      length := ReplyReportSlaveId(be, slave, tid, rsp);
    } else if f == READ_EXCEPTION_STATUS {
      silent := true;
    } else if f == MASK_WRITE_REGISTER {
      length := ReplyMaskWriteRegister(be, slave, tid, m.startRegisters, m.tabRegisters, req, n, rsp);
    } else if f == WRITE_AND_READ_REGISTERS {
      length, flush, front := ReplyWriteAndRead(be, slave, tid, m.startRegisters, m.tabRegisters, req, rsp);
    } else {
      length := ResponseException(be, slave, tid, f, ILLEGAL_FUNCTION, true, rsp);
      flush := true;
    }
  }

  /** Which answers repeat the request's header, and which never flush. */
  lemma AnswerKinds(t: Tables, p: Buffer, n: nat)
    requires n <= |p|
    ensures var f := p[0]; var r := Serve(t, p, n).1;
      && (r.Answer? && r.echo ==> f == WRITE_SINGLE_COIL || f == WRITE_SINGLE_REGISTER || f == MASK_WRITE_REGISTER)
      && (f == WRITE_SINGLE_COIL || f == WRITE_SINGLE_REGISTER || f == MASK_WRITE_REGISTER ==> r.Answer? && !r.flush)
      && (r.Silent? <==> f == READ_EXCEPTION_STATUS)
      && (r.Answer? && r.front != [] ==> f == WRITE_AND_READ_REGISTERS)
  {
    hide PackCells, UnpackBits, Registers, RegisterBytes, MaskMerge, Overwrite, StoreFrom, Word;
  }

  /**
   * modbus_reply: applies the request and hands the finished frame to the link, except for a broadcast. The words that
   * it stores in front of the register table are handed back.
   */
  method ModbusReply(be: Backend, req: array<byte>, reqLength: nat, m: Mapping, fromClient: Stream, toClient: Stream)
    returns (front: seq<word>)
    requires RequestBuffer(be, req, reqLength) && fromClient != toClient
    requires m.Valid() && req !in {m.tabBits, m.tabInputBits}
    modifies m.tabBits, m.tabRegisters, fromClient, toClient
    ensures var (t, r) := Serve(old(m.Contents()), req[be.HeaderLength()..],
      reqLength - be.HeaderLength() - be.ChecksumLength());
      && m.Contents() == t
      && toClient.pending == old(toClient.pending) + Outgoing(be, req[..], r)
      && fromClient.pending == (if r.Answer? && r.flush then [] else old(fromClient.pending))
      && front == if r.Answer? then r.front else []
  {
    hide Serve, HeaderOf;
    var n := reqLength - be.ChecksumLength();
    var rsp := new byte[MAX_MESSAGE_LENGTH];
    var silent, length, flush, stored := BuildReply(be, req, n, m, rsp);
    front := if silent then [] else stored;
    if silent {
      assert toClient.pending == toClient.pending + [];
      return;
    }
    if flush { fromClient.Flush(); }
    var slave := HeaderOf(be, req[..]).slave;
    if slave == BROADCAST {
      assert toClient.pending == toClient.pending + [];
    } else {
      length := SendMsgPre(be, rsp, length);
      toClient.Send(rsp[..length]);
    }
  }
}
