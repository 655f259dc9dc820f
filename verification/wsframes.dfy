/** WebSocket frames: the printer and the incremental parser (sections 5.2 to 5.5 of RFC 6455). */
module WsFrames {
  import opened Bytes
  import opened Bits

  const CONTINUATION: byte := 0x0
  const TEXT_FRAME: byte := 0x1
  const BINARY_FRAME: byte := 0x2
  const CLOSE: byte := 8
  const PING: byte := 9
  const PONG: byte := 0xA

  const TWO_63: nat := 0x8000_0000_0000_0000
  const TWO_64: nat := 0x1_0000_0000_0000_0000

  /** The fixed key of sendData. */
  const MASKING_KEY: Key := [0x12, 0x34, 0x56, 0x78]

  type Key = k: seq<byte> | |k| == 4 witness [0, 0, 0, 0]

  // ----- Big-endian numbers -----

  function Pow256(k: nat): (p: nat)
    ensures p > 0
  {
    if k == 0 then 1 else 256 * Pow256(k - 1)
  }

  /** The k bytes `(n >> 8(k-1)) & 0xff`, ..., `n & 0xff`. */
  function BigEndian(n: nat, k: nat): (bs: seq<byte>)
    ensures |bs| == k
  {
    if k == 0 then [] else BigEndian(n / 256, k - 1) + [n % 256]
  }

  function FromBigEndian(bs: seq<byte>): (n: nat) {
    if bs == [] then 0 else 256 * FromBigEndian(bs[..|bs| - 1]) + bs[|bs| - 1]
  }

  lemma {:induction false} BigEndianRoundTrip(n: nat, k: nat)
    requires n < Pow256(k)
    ensures FromBigEndian(BigEndian(n, k)) == n
  {
    if k > 0 {
      BigEndianRoundTrip(n / 256, k - 1);
      assert BigEndian(n, k)[..k - 1] == BigEndian(n / 256, k - 1);
    }
  }

  /** The most significant byte comes first. */
  lemma {:induction false} BigEndianDigit(n: nat, k: nat, i: nat)
    requires i < k
    ensures BigEndian(n, k)[i] == n / Pow256(k - 1 - i) % 256
    decreases k
  {
    if i < k - 1 {
      BigEndianDigit(n / 256, k - 1, i);
      DivideTwice(n, Pow256(k - 2 - i));
    }
  }

  lemma DivideTwice(n: nat, d: nat)
    requires d > 0
    ensures n / 256 / d == n / (256 * d)
  {
    var q := n / 256 / d;
    var r := n / 256 % d;
    assert n / 256 == d * q + r && n == 256 * (n / 256) + n % 256;
    assert n == (256 * d) * q + (256 * r + n % 256) by { assert 256 * (d * q) == (256 * d) * q; }
    assert 256 * r + n % 256 < 256 * d by { assert r <= d - 1; }
    QuotientIs(n, 256 * d, q, 256 * r + n % 256);
  }

  lemma Above(d: nat, a: nat, b: nat)
    requires a < b
    ensures d * a + d <= d * b
  {
    assert d * b == d * a + d * (b - a);
    assert d * (b - a) == d + d * (b - a - 1);
  }

  lemma QuotientIs(n: nat, d: nat, q: nat, r: nat)
    requires d > 0 && n == d * q + r && r < d
    ensures n / d == q
  {
    var q' := n / d;
    assert n == d * q' + n % d;
    if q' > q { Above(d, q, q'); }
    if q' < q { Above(d, q', q); }
  }

  lemma Pow256Values()
    ensures Pow256(2) == 65536 && Pow256(8) == TWO_64
  {
    assert Pow256(4) == 0x1_0000_0000;
  }

  // ----- Masking -----

  function Masked(data: seq<byte>, key: Key): (r: seq<byte>)
    ensures |r| == |data|
  {
    seq(|data|, i requires 0 <= i < |data| => Xor(data[i], key[i % 4]))
  }

  lemma MaskedTwice(data: seq<byte>, key: Key)
    ensures Masked(Masked(data, key), key) == data
  {
    hide Xor;
    forall i | 0 <= i < |data| ensures Masked(Masked(data, key), key)[i] == data[i] {
      XorInvolution(data[i], key[i % 4]);
    }
  }

  // ----- The printer -----

  datatype MaskOption = Unmasked | WithKey(key: Key)

  /** One frame before it is encoded. */
  datatype Frame = Frame(fin: bool, opcode: byte, mask: MaskOption, payload: seq<byte>)

  predicate ValidFrame(f: Frame) {
    f.opcode < 16 && |f.payload| < TWO_63
  }

  /** The payload length in its shortest form, with the mask bit. */
  function LengthBytes(n: nat, masked: bool): (bs: seq<byte>)
    requires n < TWO_64
    ensures |bs| == 1 + (if n >= 126 then 2 else 0) + (if n >= 65536 then 6 else 0)
  {
    var bit := if masked then 0x80 else 0;
    if n < 126 then [n + bit]
    else if n < 65536 then [126 + bit] + BigEndian(n, 2)
    else [127 + bit] + BigEndian(n, 8)
  }

  function Encode(f: Frame): (bs: seq<byte>)
    requires f.opcode < 16 && |f.payload| < TWO_64
    ensures |bs| >= 2
  {
    [(if f.fin then 0x80 else 0) + f.opcode] + LengthBytes(|f.payload|, f.mask.WithKey?)
    + match f.mask
      case Unmasked => f.payload
      case WithKey(key) => key + Masked(f.payload, key)
  }

  // ----- The parser -----

  datatype Parsed = NeedMore | BadLength | Whole(frame: Frame, size: nat)

  function ExtraLength(n0: nat): (n: nat) { if n0 == 126 then 2 else if n0 == 127 then 8 else 0 }

  function HeaderSize(b: byte): (n: nat) {
    2 + ExtraLength(b % 128) + if b >= 0x80 then 4 else 0
  }

  /** The payload length announced by a complete header. */
  function PayloadLength(rx: seq<byte>): (n: nat)
    requires |rx| >= 2 && |rx| >= HeaderSize(rx[1])
  {
    var n0 := rx[1] % 128;
    if n0 < 126 then n0 else FromBigEndian(rx[2..2 + ExtraLength(n0)])
  }

  function Parse(rx: seq<byte>): (p: Parsed)
    ensures p.Whole? ==> 2 <= p.size <= |rx| && p.frame.opcode < 16 && |p.frame.payload| < TWO_63
  {
    if |rx| < 2 then NeedMore
    else
      var h := HeaderSize(rx[1]);
      if |rx| < h then NeedMore
      else
        var n := PayloadLength(rx);
        if rx[1] % 128 == 127 && n >= TWO_63 then BadLength
        else if |rx| < h + n then NeedMore
        else
          ShortLength(rx);
          var data := rx[h..h + n];
          Whole(
            if rx[1] >= 0x80 then
              Frame(rx[0] >= 0x80, rx[0] % 16, WithKey(rx[h - 4..h]), Masked(data, rx[h - 4..h]))
            else Frame(rx[0] >= 0x80, rx[0] % 16, Unmasked, data),
            h + n)
  }

  lemma ShortLength(rx: seq<byte>)
    requires |rx| >= 2 && |rx| >= HeaderSize(rx[1])
    ensures rx[1] % 128 != 127 ==> PayloadLength(rx) < 65536
  {
    if rx[1] % 128 == 126 {
      var bs := rx[2..4];
      assert bs[..1][..0] == [] && bs[..1][0] == bs[0];
      assert FromBigEndian(bs[..1]) == bs[0];
    }
  }

  /** More bytes do not change how a frame that is already complete, or already refused, is read. */
  lemma ParseStable(a: seq<byte>, b: seq<byte>)
    requires !Parse(a).NeedMore?
    ensures Parse(a + b) == Parse(a)
  {
    hide Masked, FromBigEndian;
    var h := HeaderSize(a[1]);
    var n0 := a[1] % 128;
    assert (a + b)[2..2 + ExtraLength(n0)] == a[2..2 + ExtraLength(n0)];
    var n := PayloadLength(a);
    assert PayloadLength(a + b) == n;
    if Parse(a).Whole? {
      assert (a + b)[h..h + n] == a[h..h + n];
      if a[1] >= 0x80 { assert (a + b)[h - 4..h] == a[h - 4..h]; }
    }
  }

  /** The header of an encoded frame announces its payload. */
  lemma EncodedHeader(f: Frame, rest: seq<byte>)
    requires ValidFrame(f)
    ensures var rx := Encode(f) + rest; var n := |f.payload|;
      && HeaderSize(rx[1]) == |Encode(f)| - n
      && PayloadLength(rx) == n
      && (rx[1] >= 0x80 <==> f.mask.WithKey?)
      && (rx[0] >= 0x80 <==> f.fin) && rx[0] % 16 == f.opcode
  {
    hide Masked, FromBigEndian, BigEndian;
    var rx, n := Encode(f) + rest, |f.payload|;
    var bit := if f.mask.WithKey? then 0x80 else 0;
    Pow256Values();
    if n < 126 {
      assert rx[1] == n + bit;
    } else if n < 65536 {
      assert rx[1] == 126 + bit;
      assert rx[2..4] == BigEndian(n, 2);
      BigEndianRoundTrip(n, 2);
    } else {
      assert rx[1] == 127 + bit;
      assert rx[2..10] == BigEndian(n, 8);
      BigEndianRoundTrip(n, 8);
    }
  }

  /** Parsing inverts printing, across all three length forms and whatever follows. */
  lemma ParseEncode(f: Frame, rest: seq<byte>)
    requires ValidFrame(f)
    ensures Parse(Encode(f) + rest) == Whole(f, |Encode(f)|)
  {
    hide Masked, FromBigEndian, BigEndian, HeaderSize, PayloadLength;
    EncodedHeader(f, rest);
    var rx := Encode(f) + rest;
    var h, n := |Encode(f)| - |f.payload|, |f.payload|;
    match f.mask
    case Unmasked => assert rx[h..h + n] == f.payload;
    case WithKey(key) =>
      assert rx[h..h + n] == Masked(f.payload, key);
      assert rx[h - 4..h] == key;
      MaskedTwice(f.payload, key);
  }

  /**
   * A length is refused exactly if it has the eight-byte form and its top bit is set, which can be told as soon as the
   * header is complete.
   */
  lemma BadLengthIff(rx: seq<byte>)
    ensures Parse(rx) == BadLength <==>
      |rx| >= 2 && rx[1] % 128 == 127 && |rx| >= (if rx[1] >= 0x80 then 14 else 10) && rx[2] >= 0x80
  {
    hide Masked, FromBigEndian;
    if |rx| >= 10 && rx[1] % 128 == 127 { TopBit(rx[2..10]); }
  }

  lemma {:induction false} FromBigEndianBound(bs: seq<byte>)
    ensures FromBigEndian(bs) < Pow256(|bs|)
    decreases |bs|
  {
    if bs != [] { FromBigEndianBound(bs[..|bs| - 1]); }
  }

  lemma {:induction false} FromBigEndianFront(b: byte, bs: seq<byte>)
    ensures FromBigEndian([b] + bs) == b * Pow256(|bs|) + FromBigEndian(bs)
    decreases |bs|
  {
    if bs == [] {
      assert [b] + bs == [b] && [b][..0] == [];
    } else {
      var n := |bs| - 1;
      assert ([b] + bs)[..n + 1] == [b] + bs[..n];
      FromBigEndianFront(b, bs[..n]);
    }
  }

  lemma TopBit(bs: seq<byte>)
    requires |bs| == 8
    ensures FromBigEndian(bs) >= TWO_63 <==> bs[0] >= 0x80
  {
    hide FromBigEndian;
    assert bs == [bs[0]] + bs[1..];
    FromBigEndianFront(bs[0], bs[1..]);
    FromBigEndianBound(bs[1..]);
    assert Pow256(7) == 0x100_0000_0000_0000 by { assert Pow256(4) == 0x1_0000_0000; }
  }

  // ----- The examples of section 5.7 of RFC 6455 -----

  const HELLO: seq<byte> := [0x48, 0x65, 0x6C, 0x6C, 0x6F]
  const EXAMPLE_KEY: Key := [0x37, 0xFA, 0x21, 0x3D]

  lemma XorExamples()
    ensures Xor(0x48, 0x37) == 0x7F && Xor(0x65, 0xFA) == 0x9F && Xor(0x6C, 0x21) == 0x4D
  {
  }

  lemma MoreXorExamples()
    ensures Xor(0x6C, 0x3D) == 0x51 && Xor(0x6F, 0x37) == 0x58
  {
  }

  lemma MaskedHello()
    ensures Masked(HELLO, EXAMPLE_KEY) == [0x7F, 0x9F, 0x4D, 0x51, 0x58]
  {
    hide Xor;
    XorExamples();
    MoreXorExamples();
  }

  /** A text message, unmasked and masked. */
  lemma TextExamples()
    ensures Encode(Frame(true, TEXT_FRAME, Unmasked, HELLO)) == [0x81, 0x05, 0x48, 0x65, 0x6C, 0x6C, 0x6F]
    ensures Encode(Frame(true, TEXT_FRAME, WithKey(EXAMPLE_KEY), HELLO))
      == [0x81, 0x85, 0x37, 0xFA, 0x21, 0x3D, 0x7F, 0x9F, 0x4D, 0x51, 0x58]
  {
    hide Masked;
    MaskedHello();
  }

  /** The message in two fragments. */
  lemma FragmentExamples()
    ensures Encode(Frame(false, TEXT_FRAME, Unmasked, HELLO[..3])) == [0x01, 0x03, 0x48, 0x65, 0x6C]
    ensures Encode(Frame(true, CONTINUATION, Unmasked, HELLO[3..])) == [0x80, 0x02, 0x6C, 0x6F]
  {
  }

  /** A ping and a masked pong. */
  lemma ControlExamples()
    ensures Encode(Frame(true, PING, Unmasked, HELLO)) == [0x89, 0x05, 0x48, 0x65, 0x6C, 0x6C, 0x6F]
    ensures Encode(Frame(true, PONG, WithKey(EXAMPLE_KEY), HELLO))
      == [0x8A, 0x85, 0x37, 0xFA, 0x21, 0x3D, 0x7F, 0x9F, 0x4D, 0x51, 0x58]
  {
    hide Masked;
    MaskedHello();
  }

  /** Binary messages of 256 bytes and of 64 KiB. */
  lemma LengthExamples(data: seq<byte>)
    requires |data| == 256 || |data| == 65536
    ensures Encode(Frame(true, BINARY_FRAME, Unmasked, data)) ==
      (if |data| == 256 then [0x82, 0x7E, 0x01, 0x00] else [0x82, 0x7F, 0x00, 0x00, 0x00, 0x00, 0x00, 0x01, 0x00, 0x00])
      + data
  {
    hide BigEndian;
    BigEndianExamples();
  }

  lemma BigEndianExamples()
    ensures BigEndian(256, 2) == [0x01, 0x00] && BigEndian(65536, 8) == [0, 0, 0, 0, 0, 1, 0, 0]
  {
    assert BigEndian(256, 2) == BigEndian(1, 1) + [0] && BigEndian(1, 1) == [1];
    assert BigEndian(65536, 8) == BigEndian(256, 7) + [0];
    assert BigEndian(256, 7) == BigEndian(1, 6) + [0];
    assert BigEndian(1, 6) == BigEndian(0, 5) + [1];
    assert BigEndian(0, 5) == BigEndian(0, 4) + [0] && BigEndian(0, 4) == BigEndian(0, 3) + [0];
    assert BigEndian(0, 3) == BigEndian(0, 2) + [0] && BigEndian(0, 2) == BigEndian(0, 1) + [0];
    assert BigEndian(0, 1) == [0];
  }
}
