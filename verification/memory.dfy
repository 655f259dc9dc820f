/** What the client interface means: four address spaces, with no frames, bytes or tables in sight. */
module ReferenceMemory {
  import opened Bytes
  import opened Bits
  import opened Packing
  import opened Backends
  import opened Server
  import opened Client

  type Space = map<int, word>

  datatype Memory = Memory(coils: Space, inputs: Space, holding: Space, inputRegisters: Space)

  /** The addresses a, ..., a + n - 1 all exist. */
  ghost predicate Has(m: Space, a: int, n: nat) {
    forall i :: a <= i < a + n ==> i in m
  }

  ghost function Fetch(m: Space, a: int, n: nat): (xs: seq<word>)
    requires Has(m, a, n)
    ensures |xs| == n
  {
    seq(n, i requires 0 <= i < n => m[a + i])
  }

  ghost function Store(m: Space, a: int, xs: seq<word>): (m': Space) {
    map k | k in m :: if a <= k < a + |xs| then xs[k - a] else m[k]
  }

  // Addresses, register values and quantities are taken modulo 2^16.

  /** Reading bits returns the quantity asked for; of a negative one, if the rest fits, nothing is delivered. */
  ghost function ReadCells(m: Space, a: word, nb: int): (o: Outcome)
    requires nb <= MAX_READ_BITS
  {
    if U16(nb) == 0 || U16(nb) > MAX_READ_BITS then Failure(EMBXILVAL)
    else if !Has(m, a, U16(nb)) then Failure(EMBXILADD)
    else Success(nb, if nb > 0 then Fetch(m, a, nb) else [])
  }

  ghost function ReadWords(m: Space, a: word, nb: int): (o: Outcome) {
    if U16(nb) == 0 || U16(nb) > MAX_READ_REGISTERS then Failure(EMBXILVAL)
    else if !Has(m, a, U16(nb)) then Failure(EMBXILADD)
    else Success(U16(nb), Fetch(m, a, U16(nb)))
  }

  ghost function Write(m: Space, a: word, xs: seq<word>): (r: (Space, Outcome)) {
    if xs == [] then (m, Failure(EMBXILVAL))
    else if !Has(m, a, |xs|) then (m, Failure(EMBXILADD))
    else (Store(m, a, xs), Success(|xs|, []))
  }

  /** The effect and the result of one call. */
  ghost function Apply(m: Memory, c: Call): (r: (Memory, Outcome)) {
    if !InLimit(c) then (m, Failure(EMBMDATA)) else
    match c
    case CallReadBits(addr, nb) => (m, ReadCells(m.coils, U16(addr), nb))
    case CallReadInputBits(addr, nb) => (m, ReadCells(m.inputs, U16(addr), nb))
    case CallReadRegisters(addr, nb) => (m, ReadWords(m.holding, U16(addr), nb))
    case CallReadInputRegisters(addr, nb) => (m, ReadWords(m.inputRegisters, U16(addr), nb))
    case CallWriteBit(addr, status) =>
      var (s, o) := Write(m.coils, U16(addr), [if status then 1 else 0]);
      (m.(coils := s), o)
    case CallWriteRegister(addr, value) =>
      var (s, o) := Write(m.holding, U16(addr), [U16(value)]);
      (m.(holding := s), o)
    case CallWriteBits(addr, bits) =>
      var (s, o) := Write(m.coils, U16(addr), Truth(bits));
      (m.(coils := s), o)
    case CallWriteRegisters(addr, regs) =>
      var (s, o) := Write(m.holding, U16(addr), regs);
      (m.(holding := s), o)
    case CallMaskWrite(addr, andMask, orMask) =>
      var old_ := if U16(addr) in m.holding then m.holding[U16(addr)] else 0;
      var (s, o) := Write(m.holding, U16(addr), [MaskMerge(old_, andMask, orMask)]);
      (m.(holding := s), o)
    case CallWriteAndRead(writeAddr, regs, readAddr, readNb) =>
      var nb := U16(readNb);
      if regs == [] || nb == 0 || nb > MAX_WR_READ_REGISTERS then (m, Failure(EMBXILVAL))
      else if !Has(m.holding, U16(readAddr), nb) || !Has(m.holding, U16(writeAddr), |regs|) then
        (m, Failure(EMBXILADD))
      else
        var s := Store(m.holding, U16(writeAddr), regs);
        (m.(holding := s), Success(nb, Fetch(s, U16(readAddr), nb)))
  }

  /** Reads see the last write: a fetched cell is the stored value inside the stored range, the old one outside. */
  lemma FetchAfterStore(m: Space, a: int, xs: seq<word>, b: int, n: nat, i: nat)
    requires Has(m, b, n) && i < n
    ensures Has(Store(m, a, xs), b, n)
    ensures Fetch(Store(m, a, xs), b, n)[i] == if a <= b + i < a + |xs| then xs[b + i - a] else m[b + i]
  {
  }

  // ----- The tables as address spaces -----

  ghost function CellAt(start: int, cells: seq<word>, a: int): (w: word)
    requires start <= a < start + |cells|
  {
    cells[a - start]
  }

  ghost function SpaceOf(start: int, cells: seq<word>): (m: Space) {
    map a | start <= a < start + |cells| :: CellAt(start, cells, a)
  }

  ghost function Abs(t: Tables): (m: Memory) {
    Memory(SpaceOf(t.startBits, t.bits), SpaceOf(t.startInputBits, t.inputBits),
           SpaceOf(t.startRegisters, t.registers), SpaceOf(t.startInputRegisters, t.inputRegisters))
  }

  /** The server's range guard is the existence of every addressed cell. */
  lemma HasIffInside(start: int, cells: seq<word>, a: int, n: nat)
    requires n > 0
    ensures Has(SpaceOf(start, cells), a, n) <==> !Outside(start, |cells|, a, n)
  {
    if Outside(start, |cells|, a, n) {
      assert a !in SpaceOf(start, cells) || a + n - 1 !in SpaceOf(start, cells);
    }
  }

  lemma FetchIsSlice(start: int, cells: seq<word>, a: int, n: nat)
    requires !Outside(start, |cells|, a, n)
    ensures Has(SpaceOf(start, cells), a, n)
    ensures Fetch(SpaceOf(start, cells), a, n) == cells[a - start..a - start + n]
  {
  }

  lemma StoreIsOverwrite(start: int, cells: seq<word>, a: int, xs: seq<word>)
    requires !Outside(start, |cells|, a, |xs|)
    ensures SpaceOf(start, Overwrite(cells, a - start, xs)) == Store(SpaceOf(start, cells), a, xs)
  {
  }
}
