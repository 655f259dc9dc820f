/** Coils on the wire: eight to a byte, least significant bit first. */
module Packing {
  import opened Bytes
  import opened Bits

  /** Bytes needed for n coils: `(n / 8) + ((n % 8) ? 1 : 0)`. */
  function ByteCount(n: nat): (c: nat)
    ensures 8 * c - 8 < n <= 8 * c
  {
    n / 8 + if n % 8 != 0 then 1 else 0
  }

  function Min(a: nat, b: nat): nat { if a < b then a else b }

  /** The byte that `one_byte |= cell << shift` accumulates, for cells of any value. */
  function OrPack(cells: seq<byte>): (b: byte)
    ensures cells == [] ==> b == 0
  {
    if cells == [] then 0
    else OrShift(OrPack(cells[..|cells| - 1]), cells[|cells| - 1], |cells| - 1)
  }

  /** The cells that go into byte j. */
  function Chunk(cells: seq<byte>, j: nat): (c: seq<byte>)
    requires j < ByteCount(|cells|)
    ensures 0 < |c| <= 8
  {
    cells[8 * j..Min(8 * j + 8, |cells|)]
  }

  /** The bytes of a status response. */
  function PackCells(cells: seq<byte>): (bs: seq<byte>)
    ensures |bs| == ByteCount(|cells|)
  {
    seq(ByteCount(|cells|), j requires 0 <= j < ByteCount(|cells|) => OrPack(Chunk(cells, j)))
  }

  /** The first n coils stored in bs. */
  function UnpackBits(bs: seq<byte>, n: nat): (cells: seq<bit>)
    requires n <= 8 * |bs|
    ensures |cells| == n
  {
    seq(n, i requires 0 <= i < n => BitAt(bs[i / 8], i % 8))
  }

  /** What C takes each cell for when it is used as a condition. */
  function Truth(cells: seq<byte>): (bits: seq<bit>)
    ensures |bits| == |cells|
  {
    seq(|cells|, i requires 0 <= i < |cells| => if cells[i] != 0 then 1 else 0)
  }

  ghost predicate AllBits(cells: seq<byte>) {
    forall i :: 0 <= i < |cells| ==> cells[i] <= 1
  }

  // ----- Both directions are the identity on coils -----

  lemma {:induction false} OrPackIsFromBits(cells: seq<bit>)
    requires |cells| <= 8
    ensures OrPack(cells) == FromBits(cells)
  {
    if cells != [] {
      var n := |cells| - 1;
      OrPackIsFromBits(cells[..n]);
      FromBitsBound(cells[..n]);
      FromBitsSnoc(cells[..n], cells[n]);
      assert cells[..n] + [cells[n]] == cells;
      OrAboveAdds(FromBits(cells[..n]), cells[n], n, 8);
    }
  }

  /** Bit k of packed byte j is coil 8j + k; the padding bits of the last byte are zero. */
  lemma {:induction false} PackedBit(cells: seq<bit>, j: nat, k: nat)
    requires j < ByteCount(|cells|) && k < 8
    ensures BitAt(PackCells(cells)[j], k) == if 8 * j + k < |cells| then cells[8 * j + k] else 0
  {
    hide OrPack, BitAt;
    OrPackIsFromBits(Chunk(cells, j));
    BitAtFromBits(Chunk(cells, j), k);
  }

  /** Packing and unpacking is the identity exactly on cells that hold 0 or 1, whatever follows the packed bytes. */
  lemma {:induction false} UnpackPack(cells: seq<byte>, rest: seq<byte>)
    ensures UnpackBits(PackCells(cells) + rest, |cells|) == cells <==> AllBits(cells)
  {
    hide PackCells, BitAt;
    var out := UnpackBits(PackCells(cells) + rest, |cells|);
    if AllBits(cells) {
      forall i | 0 <= i < |cells|
        ensures out[i] == cells[i]
      {
        UnpackPackAt(cells, rest, i);
      }
    }
  }

  lemma {:induction false} UnpackPackAt(cells: seq<bit>, rest: seq<byte>, i: nat)
    requires i < |cells|
    ensures UnpackBits(PackCells(cells) + rest, |cells|)[i] == cells[i]
  {
    hide PackCells, BitAt;
    var j, k := i / 8, i % 8;
    assert i == 8 * j + k;
    PackedBit(cells, j, k);
  }

  lemma {:induction false} ClearAbove(a: byte, k: nat)
    requires k < 8 && a < Pow2(k)
    ensures ClearBit(a, k) == a
  {
    assert Pow2(8) == 256;
    Pow2Below(k, 8);
    ClearAboveN(a, k, 8);
  }

  lemma {:induction false} Pow2Below(k: nat, n: nat)
    requires k < n
    ensures 2 * Pow2(k) <= Pow2(n)
  {
    if k + 1 < n { Pow2Below(k, n - 1); }
  }

  lemma {:induction false} ClearAboveN(a: nat, k: nat, n: nat)
    requires k < n && a < Pow2(k) && Pow2(k) < Pow2(n)
    ensures Bitwise(AndBit, a, Pow2(n) - 1 - Pow2(k), n) == a
  {
    if k == 0 {
      AndCommutesZero(Pow2(n) - 2, n);
    } else {
      assert (Pow2(n) - 1 - Pow2(k)) / 2 == Pow2(n - 1) - 1 - Pow2(k - 1);
      ClearAboveN(a / 2, k - 1, n - 1);
    }
  }

  lemma {:induction false} AndCommutesZero(b: nat, n: nat)
    ensures Bitwise(AndBit, 0, b, n) == 0
  {
    if n > 0 { AndCommutesZero(b / 2, n - 1); }
  }

  /** `b & ~(1 << k)` stored in a byte. */
  function ClearBit(b: byte, k: nat): (r: byte)
    requires k < 8
  {
    assert Pow2(8) == 256;
    Pow2Below(k, 8);
    Bitwise(AndBit, b, 255 - Pow2(k), 8)
  }

  // ----- The loops -----

  lemma {:induction false} OrPackStep(cells: seq<byte>, lo: nat, hi: nat)
    requires lo <= hi < |cells|
    ensures OrPack(cells[lo..hi + 1]) == OrShift(OrPack(cells[lo..hi]), cells[hi], hi - lo)
  {
    hide OrShift;
    assert cells[lo..hi + 1][..hi - lo] == cells[lo..hi];
  }

  /** Server side: packs nb cells of a table behind offset. */
  method ResponseIoStatus(tab: array<byte>, address: nat, nb: nat, rsp: array<byte>, offset: nat) returns (end: nat)
    requires tab != rsp
    requires address + nb <= tab.Length && offset + ByteCount(nb) <= rsp.Length
    modifies rsp
    ensures end == offset + ByteCount(nb)
    ensures rsp[..offset] == old(rsp[..offset])
    ensures rsp[offset..end] == PackCells(tab[address..address + nb])
  {
    hide OrShift, OrPack, PackCells;
    ghost var cells := tab[address..address + nb];
    ghost var packed := PackCells(cells);
    var shift := 0;
    var oneByte: byte := 0;
    end := offset;
    var i := address;
    while i < address + nb
      invariant address <= i <= address + nb
      invariant 0 <= shift < 8 && offset <= end
      invariant i - address == 8 * (end - offset) + shift
      invariant oneByte == OrPack(cells[8 * (end - offset)..i - address])
      invariant forall j :: offset <= j < end ==> rsp[j] == packed[j - offset]
      invariant forall j :: 0 <= j < offset ==> rsp[j] == old(rsp[j])
    {
      OrPackStep(cells, 8 * (end - offset), i - address);
      oneByte := OrShift(oneByte, tab[i], shift);
      i := i + 1;
      if shift == 7 {
        PackedByte(cells, end - offset);
        rsp[end] := oneByte;
        end := end + 1;
        oneByte, shift := 0, 0;
      } else {
        shift := shift + 1;
      }
    }
    if shift != 0 {
      PackedByte(cells, end - offset);
      rsp[end] := oneByte;
      end := end + 1;
    }
  }

  lemma PackedByte(cells: seq<byte>, j: nat)
    requires j < ByteCount(|cells|)
    ensures PackCells(cells)[j] == OrPack(cells[8 * j..Min(8 * j + 8, |cells|)])
  {
    hide OrPack;
  }

  /** Server side: stores nb coils of a write request from index idx on. */
  method SetBitsFromBytes(dest: array<byte>, idx: nat, nb: nat, tabByte: seq<byte>)
    requires idx + nb <= dest.Length && nb <= 8 * |tabByte|
    modifies dest
    ensures dest[..] == old(dest[..idx]) + UnpackBits(tabByte, nb) + old(dest[idx + nb..])
  {
    hide BitAt, TestBit;
    var shift := 0;
    var i := idx;
    while i < idx + nb
      invariant idx <= i <= idx + nb
      invariant shift == (i - idx) % 8
      invariant forall k :: 0 <= k < i - idx ==> dest[idx + k] == UnpackBits(tabByte, nb)[k]
      invariant forall k :: 0 <= k < idx || i <= k < dest.Length ==> dest[k] == old(dest[k])
    {
      TestBitIsBitAt(tabByte[(i - idx) / 8], shift);
      dest[i] := if TestBit(tabByte[(i - idx) / 8], shift) then 1 else 0;
      shift := (shift + 1) % 8;
      i := i + 1;
    }
  }

  /** Client side: packs the truth values of src behind reqLength. */
  method AppendPackedBits(src: seq<byte>, req: array<byte>, reqLength: nat) returns (end: nat)
    requires reqLength + ByteCount(|src|) <= req.Length
    modifies req
    ensures end == reqLength + ByteCount(|src|)
    ensures req[..reqLength] == old(req[..reqLength])
    ensures req[reqLength..end] == PackCells(Truth(src))
  {
    hide OrShift, ClearBit, OrPack;
    ghost var bits := Truth(src);
    var nb, byteCount := |src|, ByteCount(|src|);
    var pos := 0;
    end := reqLength;
    for i := 0 to byteCount
      invariant end == reqLength + i
      invariant pos == Min(8 * i, nb)
      invariant forall j :: reqLength <= j < end ==> req[j] == PackCells(bits)[j - reqLength]
      invariant forall j :: 0 <= j < reqLength ==> req[j] == old(req[j])
    {
      req[end] := 0;
      AppendByte(src, pos, req, end);
      pos := Min(pos + 8, nb);
      end := end + 1;
    }
  }

  method AppendByte(src: seq<byte>, start: nat, req: array<byte>, at: nat)
    requires start <= |src| && at < req.Length && req[at] == 0
    modifies req
    ensures req[at] == OrPack(Truth(src)[start..Min(start + 8, |src|)])
    ensures forall j :: 0 <= j < req.Length && j != at ==> req[j] == old(req[j])
  {
    hide OrShift, ClearBit, OrPack;
    ghost var bits := Truth(src);
    var pos, bit := start, 0;
    while bit < 8 && pos < |src|
      invariant 0 <= bit <= 8 && pos == start + bit <= |src|
      invariant req[at] == OrPack(bits[start..pos])
      invariant forall j :: 0 <= j < req.Length && j != at ==> req[j] == old(req[j])
    {
      AppendBit(bits[start..pos], bits[pos]);
      assert bits[start..pos + 1] == bits[start..pos] + [bits[pos]];
      if src[pos] != 0 {
        req[at] := OrShift(req[at], 1, bit);
      } else {
        req[at] := ClearBit(req[at], bit);
      }
      pos := pos + 1;
      bit := bit + 1;
    }
  }

  lemma {:induction false} AppendBit(done: seq<bit>, c: bit)
    requires |done| < 8
    ensures OrPack(done + [c]) == if c == 1 then OrShift(OrPack(done), 1, |done|) else ClearBit(OrPack(done), |done|)
  {
    hide OrShift, ClearBit;
    assert (done + [c])[..|done|] == done;
    if c == 0 {
      OrPackIsFromBits(done);
      OrPackIsFromBits(done + [c]);
      FromBitsBound(done);
      FromBitsSnoc(done, c);
      ClearAbove(OrPack(done), |done|);
    }
  }

  /** Client side: spreads the payload bytes of a status response over dest. */
  method UnpackReply(rsp: array<byte>, offset: nat, count: nat, nb: nat, dest: array<byte>)
    requires rsp != dest
    requires offset + count <= rsp.Length && nb <= dest.Length && nb <= 8 * count
    modifies dest
    ensures dest[..nb] == UnpackBits(rsp[offset..offset + count], nb)
    ensures dest[nb..] == old(dest[nb..])
  {
    hide BitAt, TestBit;
    ghost var bs := rsp[offset..offset + count];
    var pos := 0;
    for i := offset to offset + count
      invariant pos == Min(8 * (i - offset), nb)
      invariant forall k :: 0 <= k < pos ==> dest[k] == UnpackBits(bs, nb)[k]
      invariant forall k :: nb <= k < dest.Length ==> dest[k] == old(dest[k])
    {
      var temp := rsp[i];
      var bit := 0;
      while bit < 8 && pos < nb
        invariant 0 <= bit <= 8
        invariant pos <= nb && (pos == 8 * (i - offset) + bit || pos == nb < 8 * (i - offset) + 8)
        invariant forall k :: 0 <= k < pos ==> dest[k] == UnpackBits(bs, nb)[k]
        invariant forall k :: nb <= k < dest.Length ==> dest[k] == old(dest[k])
      {
        TestBitIsBitAt(temp, bit);
        assert pos / 8 == i - offset && pos % 8 == bit;
        dest[pos] := if TestBit(temp, bit) then 1 else 0;
        pos := pos + 1;
        bit := bit + 1;
      }
    }
  }
}
