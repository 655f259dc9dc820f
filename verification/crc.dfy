/** The checksum of the serial backend: table-driven CRC, its bit-serial meaning and what it detects. */
module Crc {
  import opened Bytes

  /** Entry number j modulo 16 of one row of a table. */
  function Row(
    j: bv8, e0: bv8, e1: bv8, e2: bv8, e3: bv8, e4: bv8, e5: bv8, e6: bv8, e7: bv8,
    e8: bv8, e9: bv8, eA: bv8, eB: bv8, eC: bv8, eD: bv8, eE: bv8, eF: bv8): bv8
  {
    if j & 8 == 0 then
      if j & 4 == 0 then
        if j & 2 == 0 then
          if j & 1 == 0 then e0 else e1
        else
          if j & 1 == 0 then e2 else e3
      else
        if j & 2 == 0 then
          if j & 1 == 0 then e4 else e5
        else
          if j & 1 == 0 then e6 else e7
    else
      if j & 4 == 0 then
        if j & 2 == 0 then
          if j & 1 == 0 then e8 else e9
        else
          if j & 1 == 0 then eA else eB
      else
        if j & 2 == 0 then
          if j & 1 == 0 then eC else eD
        else
          if j & 1 == 0 then eE else eF
  }

  /** table_crc_hi, sixteen entries a row. */
  function TableHi(i: bv8): bv8 {
    match i >> 4
    case 0 => Row(i, 0x00, 0xC1, 0x81, 0x40, 0x01, 0xC0, 0x80, 0x41, 0x01, 0xC0, 0x80, 0x41, 0x00, 0xC1, 0x81, 0x40)
    case 1 => Row(i, 0x01, 0xC0, 0x80, 0x41, 0x00, 0xC1, 0x81, 0x40, 0x00, 0xC1, 0x81, 0x40, 0x01, 0xC0, 0x80, 0x41)
    case 2 => Row(i, 0x01, 0xC0, 0x80, 0x41, 0x00, 0xC1, 0x81, 0x40, 0x00, 0xC1, 0x81, 0x40, 0x01, 0xC0, 0x80, 0x41)
    case 3 => Row(i, 0x00, 0xC1, 0x81, 0x40, 0x01, 0xC0, 0x80, 0x41, 0x01, 0xC0, 0x80, 0x41, 0x00, 0xC1, 0x81, 0x40)
    case 4 => Row(i, 0x01, 0xC0, 0x80, 0x41, 0x00, 0xC1, 0x81, 0x40, 0x00, 0xC1, 0x81, 0x40, 0x01, 0xC0, 0x80, 0x41)
    case 5 => Row(i, 0x00, 0xC1, 0x81, 0x40, 0x01, 0xC0, 0x80, 0x41, 0x01, 0xC0, 0x80, 0x41, 0x00, 0xC1, 0x81, 0x40)
    case 6 => Row(i, 0x00, 0xC1, 0x81, 0x40, 0x01, 0xC0, 0x80, 0x41, 0x01, 0xC0, 0x80, 0x41, 0x00, 0xC1, 0x81, 0x40)
    case 7 => Row(i, 0x01, 0xC0, 0x80, 0x41, 0x00, 0xC1, 0x81, 0x40, 0x00, 0xC1, 0x81, 0x40, 0x01, 0xC0, 0x80, 0x41)
    case 8 => Row(i, 0x01, 0xC0, 0x80, 0x41, 0x00, 0xC1, 0x81, 0x40, 0x00, 0xC1, 0x81, 0x40, 0x01, 0xC0, 0x80, 0x41)
    case 9 => Row(i, 0x00, 0xC1, 0x81, 0x40, 0x01, 0xC0, 0x80, 0x41, 0x01, 0xC0, 0x80, 0x41, 0x00, 0xC1, 0x81, 0x40)
    case 10 => Row(i, 0x00, 0xC1, 0x81, 0x40, 0x01, 0xC0, 0x80, 0x41, 0x01, 0xC0, 0x80, 0x41, 0x00, 0xC1, 0x81, 0x40)
    case 11 => Row(i, 0x01, 0xC0, 0x80, 0x41, 0x00, 0xC1, 0x81, 0x40, 0x00, 0xC1, 0x81, 0x40, 0x01, 0xC0, 0x80, 0x41)
    case 12 => Row(i, 0x00, 0xC1, 0x81, 0x40, 0x01, 0xC0, 0x80, 0x41, 0x01, 0xC0, 0x80, 0x41, 0x00, 0xC1, 0x81, 0x40)
    case 13 => Row(i, 0x01, 0xC0, 0x80, 0x41, 0x00, 0xC1, 0x81, 0x40, 0x00, 0xC1, 0x81, 0x40, 0x01, 0xC0, 0x80, 0x41)
    case 14 => Row(i, 0x01, 0xC0, 0x80, 0x41, 0x00, 0xC1, 0x81, 0x40, 0x00, 0xC1, 0x81, 0x40, 0x01, 0xC0, 0x80, 0x41)
    case _ => Row(i, 0x00, 0xC1, 0x81, 0x40, 0x01, 0xC0, 0x80, 0x41, 0x01, 0xC0, 0x80, 0x41, 0x00, 0xC1, 0x81, 0x40)
  }

  /** table_crc_lo, sixteen entries a row. */
  function TableLo(i: bv8): bv8 {
    match i >> 4
    case 0 => Row(i, 0x00, 0xC0, 0xC1, 0x01, 0xC3, 0x03, 0x02, 0xC2, 0xC6, 0x06, 0x07, 0xC7, 0x05, 0xC5, 0xC4, 0x04)
    case 1 => Row(i, 0xCC, 0x0C, 0x0D, 0xCD, 0x0F, 0xCF, 0xCE, 0x0E, 0x0A, 0xCA, 0xCB, 0x0B, 0xC9, 0x09, 0x08, 0xC8)
    case 2 => Row(i, 0xD8, 0x18, 0x19, 0xD9, 0x1B, 0xDB, 0xDA, 0x1A, 0x1E, 0xDE, 0xDF, 0x1F, 0xDD, 0x1D, 0x1C, 0xDC)
    case 3 => Row(i, 0x14, 0xD4, 0xD5, 0x15, 0xD7, 0x17, 0x16, 0xD6, 0xD2, 0x12, 0x13, 0xD3, 0x11, 0xD1, 0xD0, 0x10)
    case 4 => Row(i, 0xF0, 0x30, 0x31, 0xF1, 0x33, 0xF3, 0xF2, 0x32, 0x36, 0xF6, 0xF7, 0x37, 0xF5, 0x35, 0x34, 0xF4)
    case 5 => Row(i, 0x3C, 0xFC, 0xFD, 0x3D, 0xFF, 0x3F, 0x3E, 0xFE, 0xFA, 0x3A, 0x3B, 0xFB, 0x39, 0xF9, 0xF8, 0x38)
    case 6 => Row(i, 0x28, 0xE8, 0xE9, 0x29, 0xEB, 0x2B, 0x2A, 0xEA, 0xEE, 0x2E, 0x2F, 0xEF, 0x2D, 0xED, 0xEC, 0x2C)
    case 7 => Row(i, 0xE4, 0x24, 0x25, 0xE5, 0x27, 0xE7, 0xE6, 0x26, 0x22, 0xE2, 0xE3, 0x23, 0xE1, 0x21, 0x20, 0xE0)
    case 8 => Row(i, 0xA0, 0x60, 0x61, 0xA1, 0x63, 0xA3, 0xA2, 0x62, 0x66, 0xA6, 0xA7, 0x67, 0xA5, 0x65, 0x64, 0xA4)
    case 9 => Row(i, 0x6C, 0xAC, 0xAD, 0x6D, 0xAF, 0x6F, 0x6E, 0xAE, 0xAA, 0x6A, 0x6B, 0xAB, 0x69, 0xA9, 0xA8, 0x68)
    case 10 => Row(i, 0x78, 0xB8, 0xB9, 0x79, 0xBB, 0x7B, 0x7A, 0xBA, 0xBE, 0x7E, 0x7F, 0xBF, 0x7D, 0xBD, 0xBC, 0x7C)
    case 11 => Row(i, 0xB4, 0x74, 0x75, 0xB5, 0x77, 0xB7, 0xB6, 0x76, 0x72, 0xB2, 0xB3, 0x73, 0xB1, 0x71, 0x70, 0xB0)
    case 12 => Row(i, 0x50, 0x90, 0x91, 0x51, 0x93, 0x53, 0x52, 0x92, 0x96, 0x56, 0x57, 0x97, 0x55, 0x95, 0x94, 0x54)
    case 13 => Row(i, 0x9C, 0x5C, 0x5D, 0x9D, 0x5F, 0x9F, 0x9E, 0x5E, 0x5A, 0x9A, 0x9B, 0x5B, 0x99, 0x59, 0x58, 0x98)
    case 14 => Row(i, 0x88, 0x48, 0x49, 0x89, 0x4B, 0x8B, 0x8A, 0x4A, 0x4E, 0x8E, 0x8F, 0x4F, 0x8D, 0x4D, 0x4C, 0x8C)
    case _ => Row(i, 0x44, 0x84, 0x85, 0x45, 0x87, 0x47, 0x46, 0x86, 0x82, 0x42, 0x43, 0x83, 0x41, 0x81, 0x80, 0x40)
  }

  function ToBits(b: byte): bv8 { b as bv8 }

  function ToByte(v: bv8): byte { v as int }

  // ----- The bit-serial definition (polynomial 0xA001, initial value 0xFFFF) -----

  function Shift(c: bv16): bv16 {
    (c >> 1) ^ ((c & 1) * 0xA001)
  }

  function Shift2(c: bv16): bv16 { Shift(Shift(c)) }

  function Shift4(c: bv16): bv16 { Shift2(Shift2(c)) }

  function Shift8(c: bv16): bv16 { Shift4(Shift4(c)) }

  /** The register after one more byte: exclusive-or into the low byte, then eight shifts. */
  function Feed(c: bv16, b: bv8): bv16 {
    Shift8(c ^ (b as bv16))
  }

  /** Section 6.2.2 of MODBUS over Serial Line V1.02. */
  function BitSerial(msg: seq<byte>): (c: bv16) {
    if msg == [] then 0xFFFF else Feed(BitSerial(msg[..|msg| - 1]), ToBits(msg[|msg| - 1]))
  }

  /** The register that holds crc_hi in its low byte and crc_lo in its high byte. */
  function Join(hi: bv8, lo: bv8): bv16 {
    ((lo as bv16) << 8) | (hi as bv16)
  }

  function LowByte(c: bv16): bv8 { (c & 0xFF) as bv8 }

  function HighByte(c: bv16): bv8 { (c >> 8) as bv8 }

  /** The two checksum bytes in transmission order: low byte of the register first. */
  function CrcBytes(msg: seq<byte>): (bs: seq<byte>)
    ensures |bs| == 2
  {
    [ToByte(LowByte(BitSerial(msg))), ToByte(HighByte(BitSerial(msg)))]
  }

  lemma CheckSteps()
    ensures Feed(0xFFFF, 0x31) == 0x947E
    ensures Feed(0x947E, 0x32) == 0xF595
    ensures Feed(0xF595, 0x33) == 0x7A75
    ensures Feed(0x7A75, 0x34) == 0x30BA
    ensures Feed(0x30BA, 0x35) == 0xA471
    ensures Feed(0xA471, 0x36) == 0x32E4
    ensures Feed(0x32E4, 0x37) == 0x9D73
    ensures Feed(0x9D73, 0x38) == 0x37DD
    ensures Feed(0x37DD, 0x39) == 0x4B37
  {
  }

  lemma CheckBits()
    ensures ToBits(0x31) == 0x31
    ensures ToBits(0x32) == 0x32
    ensures ToBits(0x33) == 0x33
    ensures ToBits(0x34) == 0x34
    ensures ToBits(0x35) == 0x35
    ensures ToBits(0x36) == 0x36
    ensures ToBits(0x37) == 0x37
    ensures ToBits(0x38) == 0x38
    ensures ToBits(0x39) == 0x39
  {
  }

  /** The check value of the nine digits, by which CRC-16/MODBUS is known. */
  lemma CheckValue()
    ensures BitSerial([0x31, 0x32, 0x33, 0x34, 0x35, 0x36, 0x37, 0x38, 0x39]) == 0x4B37
  {
    hide Feed, BitSerial, ToBits;
    var m: seq<byte> := [0x31, 0x32, 0x33, 0x34, 0x35, 0x36, 0x37, 0x38, 0x39];
    CheckSteps();
    CheckBits();
    assert m[..0] == [] && m[..9] == m;
    assert BitSerial([]) == 0xFFFF by { NothingFed(); }
    BitSerialStep(m, 0, 0x31);
    BitSerialStep(m, 1, 0x32);
    BitSerialStep(m, 2, 0x33);
    BitSerialStep(m, 3, 0x34);
    BitSerialStep(m, 4, 0x35);
    BitSerialStep(m, 5, 0x36);
    BitSerialStep(m, 6, 0x37);
    BitSerialStep(m, 7, 0x38);
    BitSerialStep(m, 8, 0x39);
  }

  lemma BitSerialStep(m: seq<byte>, k: nat, b: bv8)
    requires k < |m| && b == ToBits(m[k])
    ensures BitSerial(m[..k + 1]) == Feed(BitSerial(m[..k]), b)
  {
    hide Feed;
    assert m[..k + 1][..k] == m[..k];
  }

  lemma ExampleSteps()
    ensures Feed(0xFFFF, 0x11) == 0x4C7F
    ensures Feed(0x4C7F, 0x03) == 0xE14D
    ensures Feed(0xE14D, 0x00) == 0x3521
    ensures Feed(0x3521, 0x6B) == 0xF7B4
    ensures Feed(0xF7B4, 0x00) == 0x77F7
    ensures Feed(0x77F7, 0x03) == 0x8776
  {
  }

  /** The checksum of a request for registers 107 to 109 of slave 17, in transmission order. */
  lemma CrcExample()
    ensures CrcBytes([0x11, 0x03, 0x00, 0x6B, 0x00, 0x03]) == [0x76, 0x87]
  {
    hide Feed, BitSerial;
    var m: seq<byte> := [0x11, 0x03, 0x00, 0x6B, 0x00, 0x03];
    ExampleSteps();
    assert m[..0] == [] && m[..6] == m;
    assert BitSerial([]) == 0xFFFF by { NothingFed(); }
    BitSerialStep(m, 0, 0x11);
    BitSerialStep(m, 1, 0x03);
    BitSerialStep(m, 2, 0x00);
    BitSerialStep(m, 3, 0x6B);
    BitSerialStep(m, 4, 0x00);
    BitSerialStep(m, 5, 0x03);
    assert LowByte(0x8776) == 0x76 && HighByte(0x8776) == 0x87;
  }

  lemma NothingFed()
    ensures BitSerial([]) == 0xFFFF
  {
  }

  // ----- The table-driven loops compute it -----

  lemma TableHiIsFeed(i: bv8)
    ensures TableHi(i) == LowByte(Feed(0, i))
  {
  }

  lemma TableLoIsFeed(i: bv8)
    ensures TableLo(i) == HighByte(Feed(0, i))
  {
  }

  lemma FeedByTable(hi: bv8, lo: bv8, b: bv8)
    ensures Join(lo ^ LowByte(Feed(0, hi ^ b)), HighByte(Feed(0, hi ^ b))) == Feed(Join(hi, lo), b)
  {
  }

  lemma JoinOfParts(c: bv16)
    ensures Join(LowByte(c), HighByte(c)) == c
  {
  }

  /** One round of the loop is one bit-serial byte. */
  lemma TableStep(hi: bv8, lo: bv8, b: bv8)
    ensures Join(lo ^ TableHi(hi ^ b), TableLo(hi ^ b)) == Feed(Join(hi, lo), b)
  {
    hide *;
    TableHiIsFeed(hi ^ b);
    TableLoIsFeed(hi ^ b);
    FeedByTable(hi, lo, b);
  }

  lemma JoinParts(hi: bv8, lo: bv8)
    ensures LowByte(Join(hi, lo)) == hi && HighByte(Join(hi, lo)) == lo
  {
  }

  lemma JoinInitial()
    ensures Join(0xFF, 0xFF) == 0xFFFF
  {
  }

  method Crc16(buffer: array<byte>, length: nat) returns (crc: word)
    requires length <= buffer.Length
    ensures [Hi(crc), Lo(crc)] == CrcBytes(buffer[..length])
  {
    hide TableHi, TableLo, ToBits, ToByte, Feed, Join, LowByte, HighByte;
    var hi: bv8, lo: bv8 := 0xFF, 0xFF;
    JoinInitial();
    var n := 0;
    while n < length
      invariant n <= length
      invariant Join(hi, lo) == BitSerial(buffer[..n])
    {
      var i := hi ^ ToBits(buffer[n]);
      TableStep(hi, lo, ToBits(buffer[n]));
      hi, lo := lo ^ TableHi(i), TableLo(i);
      assert buffer[..n + 1][..n] == buffer[..n];
      n := n + 1;
    }
    JoinParts(hi, lo);
    crc := Word(ToByte(hi), ToByte(lo));
    HiLoWord(ToByte(hi), ToByte(lo));
  }

  method CalcCrcFast(message: seq<byte>) returns (crc: word)
    ensures [Hi(crc), Lo(crc)] == CrcBytes(message)
  {
    hide TableHi, TableLo, ToBits, ToByte, Feed, Join, LowByte, HighByte;
    var hi: bv8, lo: bv8 := 0xFF, 0xFF;
    JoinInitial();
    var n := 0;
    while n < |message|
      invariant n <= |message|
      invariant Join(hi, lo) == BitSerial(message[..n])
    {
      var i := hi ^ ToBits(message[n]);
      TableStep(hi, lo, ToBits(message[n]));
      hi, lo := lo ^ TableHi(i), TableLo(i);
      assert message[..n + 1][..n] == message[..n];
      n := n + 1;
    }
    assert message[..n] == message;
    JoinParts(hi, lo);
    crc := Word(ToByte(hi), ToByte(lo));
    HiLoWord(ToByte(hi), ToByte(lo));
  }

  // ----- What the checksum detects -----

  lemma ConvertBack(b: byte)
    ensures (b as bv8) as int == b
  {
    if b < 128 {
      if b < 64 { } else { }
    } else {
      if b < 192 { } else { }
    }
  }

  lemma ToByteToBits(b: byte)
    ensures ToByte(ToBits(b)) == b
  {
    ConvertBack(b);
  }

  lemma ToBitsInjective(a: byte, b: byte)
    requires ToBits(a) == ToBits(b)
    ensures a == b
  {
    hide *;
    ToByteToBits(a);
    ToByteToBits(b);
  }

  lemma ToBitsToByte(v: bv8)
    ensures ToBits(ToByte(v)) == v
  {
  }

  lemma ShiftInjective(c: bv16, d: bv16)
    requires Shift(c) == Shift(d)
    ensures c == d
  {
  }

  lemma Shift4Injective(c: bv16, d: bv16)
    requires Shift4(c) == Shift4(d)
    ensures c == d
  {
    hide Shift;
    ShiftInjective(Shift(Shift2(c)), Shift(Shift2(d)));
    ShiftInjective(Shift2(c), Shift2(d));
    ShiftInjective(Shift(c), Shift(d));
    ShiftInjective(c, d);
  }

  /** A register value and a byte together determine the next register one to one. */
  lemma FeedCancel(c: bv16, d: bv16, x: bv8, y: bv8)
    requires Feed(c, x) == Feed(d, y)
    ensures c ^ (x as bv16) == d ^ (y as bv16)
  {
    hide Shift4;
    Shift4Injective(Shift4(c ^ (x as bv16)), Shift4(d ^ (y as bv16)));
    Shift4Injective(c ^ (x as bv16), d ^ (y as bv16));
  }

  lemma HighByteInjective(z: bv8, z': bv8)
    requires HighByte(Feed(0, z)) == HighByte(Feed(0, z'))
    ensures z == z'
  {
  }

  lemma HighByteOfFeed(c: bv16, x: bv8)
    ensures HighByte(Feed(c, x)) == HighByte(Feed(0, LowByte(c) ^ x))
  {
    hide *;
    var f := Feed(0, LowByte(c) ^ x);
    JoinOfParts(c);
    FeedByTable(LowByte(c), HighByte(c), x);
    JoinParts(HighByte(c) ^ LowByte(f), HighByte(f));
  }

  lemma XorLowByte(c: bv16, d: bv16, y: bv8, y': bv8)
    requires c ^ (y as bv16) == d ^ (y' as bv16)
    ensures HighByte(c) == HighByte(d)
    ensures c == d ==> y == y'
  {
  }

  lemma XorCancel(a: bv8, x: bv8, y: bv8)
    requires a ^ x == a ^ y
    ensures x == y
  {
  }

  /** From any register, two bytes determine the register after them one to one. */
  lemma FeedTwoInjective(c: bv16, x: bv8, y: bv8, x': bv8, y': bv8)
    requires Feed(Feed(c, x), y) == Feed(Feed(c, x'), y')
    ensures x == x' && y == y'
  {
    hide *;
    FeedCancel(Feed(c, x), Feed(c, x'), y, y');
    XorLowByte(Feed(c, x), Feed(c, x'), y, y');
    HighByteOfFeed(c, x);
    HighByteOfFeed(c, x');
    HighByteInjective(LowByte(c) ^ x, LowByte(c) ^ x');
    XorCancel(LowByte(c), x, x');
  }

  lemma FeedInjective(c: bv16, d: bv16, b: bv8)
    requires Feed(c, b) == Feed(d, b)
    ensures c == d
  {
    hide Feed;
    FeedCancel(c, d, b, b);
  }

  lemma FeedTwoZero(c: bv16)
    ensures Feed(Feed(c, LowByte(c)), HighByte(c)) == 0
  {
  }

  // ----- Whole messages -----

  function FeedAll(c: bv16, msg: seq<byte>): bv16
    decreases |msg|
  {
    if msg == [] then c else FeedAll(Feed(c, ToBits(msg[0])), msg[1..])
  }

  lemma {:induction false} BitSerialAppend(a: seq<byte>, b: seq<byte>)
    ensures BitSerial(a + b) == FeedAll(BitSerial(a), b)
    decreases |b|
  {
    hide Feed, ToBits;
    if b == [] {
      assert a + b == a;
    } else {
      assert a + b == (a + [b[0]]) + b[1..];
      assert (a + [b[0]])[..|a|] == a;
      BitSerialAppend(a + [b[0]], b[1..]);
    }
  }

  lemma {:induction false} FeedAllInjective(c: bv16, d: bv16, msg: seq<byte>)
    requires FeedAll(c, msg) == FeedAll(d, msg)
    ensures c == d
    decreases |msg|
  {
    hide Feed, ToBits;
    if msg != [] {
      FeedAllInjective(Feed(c, ToBits(msg[0])), Feed(d, ToBits(msg[0])), msg[1..]);
      FeedInjective(c, d, ToBits(msg[0]));
    }
  }

  lemma FeedAllTwo(c: bv16, x: byte, y: byte)
    ensures FeedAll(c, [x, y]) == Feed(Feed(c, ToBits(x)), ToBits(y))
  {
    hide Feed, ToBits;
    assert [x, y][1..] == [y] && [y][1..] == [];
    var d := Feed(c, ToBits(x));
    assert FeedAll(d, [y]) == Feed(d, ToBits(y));
  }

  /** A message followed by its checksum bytes has residue zero, and no other two bytes do that. */
  lemma ResidueZero(msg: seq<byte>, x: byte, y: byte)
    ensures BitSerial(msg + [x, y]) == 0 <==> [x, y] == CrcBytes(msg)
  {
    hide Feed, ToBits, ToByte, LowByte, HighByte;
    var c := BitSerial(msg);
    var l, h := LowByte(c), HighByte(c);
    BitSerialAppend(msg, [x, y]);
    FeedAllTwo(c, x, y);
    FeedTwoZero(c);
    ToBitsToByte(l);
    ToBitsToByte(h);
    if BitSerial(msg + [x, y]) == 0 {
      FeedTwoInjective(c, ToBits(x), ToBits(y), l, h);
      ToByteToBits(x);
      ToByteToBits(y);
    }
  }

  /**
   * Two messages of the same length that differ only inside two adjacent bytes never have the same register,
   * however long they are.
   */
  lemma AdjacentChangeDetected(pre: seq<byte>, x: byte, y: byte, x': byte, y': byte, post: seq<byte>)
    requires [x, y] != [x', y']
    ensures BitSerial(pre + [x, y] + post) != BitSerial(pre + [x', y'] + post)
  {
    hide Feed, ToBits;
    var c := BitSerial(pre);
    FeedAllTwo(c, x, y);
    FeedAllTwo(c, x', y');
    BitSerialAppend(pre, [x, y]);
    BitSerialAppend(pre, [x', y']);
    BitSerialAppend(pre + [x, y], post);
    BitSerialAppend(pre + [x', y'], post);
    var d := Feed(Feed(c, ToBits(x)), ToBits(y));
    var d' := Feed(Feed(c, ToBits(x')), ToBits(y'));
    if BitSerial(pre + [x, y] + post) == BitSerial(pre + [x', y'] + post) {
      FeedAllInjective(d, d', post);
      FeedTwoInjective(c, ToBits(x), ToBits(y), ToBits(x'), ToBits(y'));
      ToBitsInjective(x, x');
      ToBitsInjective(y, y');
      assert false;
    }
  }
}
