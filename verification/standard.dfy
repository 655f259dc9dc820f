/**
 * The examples of the MODBUS Application Protocol V1.1b, byte by byte: what a call sends and what the server answers.
 */
module Standard {
  import opened Bytes
  import opened Bits
  import opened Packing
  import opened Backends
  import opened Pdus
  import opened Server
  import opened Client

  // ----- Order of bytes and bits -----

  /** A register goes on the wire with its high byte first. */
  lemma HighByteFirst(regs: seq<word>, i: nat)
    requires i < |regs|
    ensures RegisterBytes(regs)[2 * i] == regs[i] / 256 && RegisterBytes(regs)[2 * i + 1] == regs[i] % 256
  {
    hide Hi, Lo, RegisterBytes;
    HighAndLow(regs[i]);
  }

  lemma HighAndLow(w: word)
    ensures Hi(w) == w / 256 && Lo(w) == w % 256
  {
  }

  lemma BitsCons(x: bit, s: seq<bit>)
    ensures FromBits([x] + s) == x + 2 * FromBits(s)
  {
    assert ([x] + s)[1..] == s;
  }

  /** The first coil is the least significant bit. */
  lemma PackByte(a: bit, b: bit, c: bit, d: bit, e: bit, f: bit, g: bit, h: bit)
    ensures OrPack([a, b, c, d, e, f, g, h]) == a + 2 * b + 4 * c + 8 * d + 16 * e + 32 * f + 64 * g + 128 * h
  {
    hide OrPack, FromBits;
    var bits: seq<bit> := [a, b, c, d, e, f, g, h];
    OrPackIsFromBits(bits);
    Four(e, f, g, h);
    BitsCons(d, [e, f, g, h]);
    assert [d] + [e, f, g, h] == [d, e, f, g, h];
    BitsCons(c, [d, e, f, g, h]);
    assert [c] + [d, e, f, g, h] == [c, d, e, f, g, h];
    BitsCons(b, [c, d, e, f, g, h]);
    assert [b] + [c, d, e, f, g, h] == [b, c, d, e, f, g, h];
    BitsCons(a, [b, c, d, e, f, g, h]);
    assert [a] + [b, c, d, e, f, g, h] == bits;
  }

  lemma Four(a: bit, b: bit, c: bit, d: bit)
    ensures FromBits([a, b, c, d]) == a + 2 * b + 4 * c + 8 * d
  {
    hide FromBits;
    Three(b, c, d);
    BitsCons(a, [b, c, d]);
    assert [a] + [b, c, d] == [a, b, c, d];
  }

  lemma Three(a: bit, b: bit, c: bit)
    ensures FromBits([a, b, c]) == a + 2 * b + 4 * c
  {
    BitsCons(c, []);
    BitsCons(b, [c]);
    BitsCons(a, [b, c]);
    assert [c] + [] == [c] && [b] + [c] == [b, c] && [a] + [b, c] == [a, b, c] && FromBits([]) == 0;
  }

  // ----- Requests as the builders make them -----

  lemma ReadRequests()
    ensures RequestPdu(CallReadBits(19, 19)) == [0x01, 0x00, 0x13, 0x00, 0x13]
    ensures RequestPdu(CallReadInputBits(196, 22)) == [0x02, 0x00, 0xC4, 0x00, 0x16]
    ensures RequestPdu(CallReadRegisters(107, 3)) == [0x03, 0x00, 0x6B, 0x00, 0x03]
    ensures RequestPdu(CallReadInputRegisters(8, 1)) == [0x04, 0x00, 0x08, 0x00, 0x01]
  {
  }

  lemma SingleRequests()
    ensures RequestPdu(CallWriteBit(172, true)) == [0x05, 0x00, 0xAC, 0xFF, 0x00]
    ensures RequestPdu(CallWriteBit(172, false)) == [0x05, 0x00, 0xAC, 0x00, 0x00]
    ensures RequestPdu(CallWriteRegister(1, 3)) == [0x06, 0x00, 0x01, 0x00, 0x03]
    ensures RequestPdu(CallMaskWrite(4, 0xF2, 0x25)) == [0x16, 0x00, 0x04, 0x00, 0xF2, 0x00, 0x25]
  {
  }

  const TEN: seq<bit> := [1, 0, 1, 1, 0, 0, 1, 1, 1, 0]

  lemma TenPacked()
    ensures PackCells(Truth(TEN)) == [0xCD, 0x01]
  {
    hide OrPack;
    assert Truth(TEN) == TEN;
    assert TEN[0..8] == [1, 0, 1, 1, 0, 0, 1, 1] && TEN[8..10] == [1, 0];
    PackByte(1, 0, 1, 1, 0, 0, 1, 1);
    OrPackIsFromBits([1, 0]);
    BitsCons(0, []);
    BitsCons(1, [0]);
    assert [0] + [] == [0] && [1] + [0] == [1, 0] && FromBits([]) == 0;
    PackedByte(TEN, 0);
    PackedByte(TEN, 1);
  }

  lemma RegisterImages()
    ensures RegisterBytes([0x000A, 0x0102]) == [0x00, 0x0A, 0x01, 0x02]
    ensures RegisterBytes([0x00FF, 0x00FF, 0x00FF]) == [0x00, 0xFF, 0x00, 0xFF, 0x00, 0xFF]
    ensures RegisterBytes([0x022B, 0x0000, 0x0064]) == [0x02, 0x2B, 0x00, 0x00, 0x00, 0x64]
    ensures RegisterBytes([0x00FE, 0x0ACD, 0x0001, 0x0003, 0x000D, 0x00FF])
      == [0x00, 0xFE, 0x0A, 0xCD, 0x00, 0x01, 0x00, 0x03, 0x00, 0x0D, 0x00, 0xFF]
  {
    RegisterImage([0x000A, 0x0102], [0x00, 0x0A, 0x01, 0x02]);
    RegisterImage([0x00FF, 0x00FF, 0x00FF], [0x00, 0xFF, 0x00, 0xFF, 0x00, 0xFF]);
    RegisterImage([0x022B, 0x0000, 0x0064], [0x02, 0x2B, 0x00, 0x00, 0x00, 0x64]);
    RegisterImage([0x00FE, 0x0ACD, 0x0001, 0x0003, 0x000D, 0x00FF],
                  [0x00, 0xFE, 0x0A, 0xCD, 0x00, 0x01, 0x00, 0x03, 0x00, 0x0D, 0x00, 0xFF]);
  }

  lemma RegisterImage(regs: seq<word>, bs: seq<byte>)
    requires |bs| == 2 * |regs|
    requires forall i :: 0 <= i < |regs| ==> bs[2 * i] == regs[i] / 256 && bs[2 * i + 1] == regs[i] % 256
    ensures RegisterBytes(regs) == bs
  {
    hide RegisterBytes;
    var image := RegisterBytes(regs);
    forall k | 0 <= k < |bs| ensures image[k] == bs[k] {
      HighByteFirst(regs, k / 2);
      assert k == 2 * (k / 2) || k == 2 * (k / 2) + 1;
    }
  }

  lemma MultipleRequests()
    ensures RequestPdu(CallWriteBits(19, TEN)) == [0x0F, 0x00, 0x13, 0x00, 0x0A, 0x02, 0xCD, 0x01]
    ensures RequestPdu(CallWriteRegisters(1, [0x000A, 0x0102]))
      == [0x10, 0x00, 0x01, 0x00, 0x02, 0x04, 0x00, 0x0A, 0x01, 0x02]
    ensures RequestPdu(CallWriteAndRead(14, [0x00FF, 0x00FF, 0x00FF], 3, 6))
      == [0x17, 0x00, 0x03, 0x00, 0x06, 0x00, 0x0E, 0x00, 0x03, 0x06, 0x00, 0xFF, 0x00, 0xFF, 0x00, 0xFF]
  {
    hide PackCells, RegisterBytes, Truth;
    TenPacked();
    RegisterImages();
  }

  // ----- Answers of the server -----

  const NOTHING := Tables(0, [], 0, [], 0, [], 0, [])

  lemma FieldOf(p: Buffer, request: seq<byte>, i: nat)
    requires request <= p && i + 1 < |request| && i <= 10
    ensures Field(p, i) == (request[i] as int) * 256 + request[i + 1]
  {
    assert p[i] == request[i] && p[i + 1] == request[i + 1];
  }

  const NINETEEN: seq<bit> := [1, 0, 1, 1, 0, 0, 1, 1, 1, 1, 0, 1, 0, 1, 1, 0, 1, 0, 1]

  lemma NineteenPacked()
    ensures PackCells(NINETEEN) == [0xCD, 0x6B, 0x05]
  {
    hide OrPack;
    var cells := NINETEEN;
    assert cells[0..8] == [1, 0, 1, 1, 0, 0, 1, 1] && cells[8..16] == [1, 1, 0, 1, 0, 1, 1, 0];
    assert cells[16..19] == [1, 0, 1];
    PackByte(1, 0, 1, 1, 0, 0, 1, 1);
    PackByte(1, 1, 0, 1, 0, 1, 1, 0);
    OrPackIsFromBits([1, 0, 1]);
    Three(1, 0, 1);
    PackedByte(cells, 0);
    PackedByte(cells, 1);
    PackedByte(cells, 2);
  }

  /** Section 6.1: coils 20 to 38. */
  lemma ReadCoils(p: Buffer)
    requires [0x01, 0x00, 0x13, 0x00, 0x13] <= p
    ensures var t := NOTHING.(startBits := 19, bits := NINETEEN);
      Serve(t, p, 5) == (t, Answer([0x01, 0x03, 0xCD, 0x6B, 0x05], false, false))
  {
    hide PackCells, Field, WriteAndReadRegisters, ReadRegisters;
    assert p[0] == 0x01;
    FieldOf(p, [0x01, 0x00, 0x13, 0x00, 0x13], 1);
    FieldOf(p, [0x01, 0x00, 0x13, 0x00, 0x13], 3);
    NineteenPacked();
    var cells: seq<byte> := NINETEEN;
    assert cells[Field(p, 1) - 19..Field(p, 1) - 19 + Field(p, 3)] == cells;
    assert ReadBits(19, cells, p) == Answer([0x01, 0x03] + PackCells(cells), false, false);
    assert [0x01, 0x03] + [0xCD, 0x6B, 0x05] == [0x01, 0x03, 0xCD, 0x6B, 0x05];
  }

  /** Section 6.3: registers 108 to 110. */
  lemma ReadHolding(p: Buffer)
    requires [0x03, 0x00, 0x6B, 0x00, 0x03] <= p
    ensures var t := NOTHING.(startRegisters := 107, registers := [0x022B, 0x0000, 0x0064]);
      Serve(t, p, 5) == (t, Answer([0x03, 0x06, 0x02, 0x2B, 0x00, 0x00, 0x00, 0x64], false, false))
  {
    hide RegisterBytes, Field, WriteAndReadRegisters, ReadBits;
    assert p[0] == 0x03;
    FieldOf(p, [0x03, 0x00, 0x6B, 0x00, 0x03], 1);
    FieldOf(p, [0x03, 0x00, 0x6B, 0x00, 0x03], 3);
    var regs: seq<word> := [0x022B, 0x0000, 0x0064];
    RegisterImages();
    assert regs[Field(p, 1) - 107..Field(p, 1) - 107 + Field(p, 3)] == regs;
    assert ReadRegisters(107, regs, p) == Answer([0x03, 0x06] + RegisterBytes(regs), false, false);
    assert [0x03, 0x06] + [0x02, 0x2B, 0x00, 0x00, 0x00, 0x64] == [0x03, 0x06, 0x02, 0x2B, 0x00, 0x00, 0x00, 0x64];
  }
}
