/**
 Values scattered over memory and register pieces (cpudefs.c): reading gathers the bits of all
 pieces into one value, writing scatters them back, for either byte and bit order of the value
 and of each register.
 */
module LocationPieces {
  import opened Wrappers

  function Mask(k: nat): bv8
    requires k < 8
  {
    if k == 0 then 1 else if k == 1 then 2 else if k == 2 then 4 else if k == 3 then 8
    else if k == 4 then 16 else if k == 5 then 32 else if k == 6 then 64 else 128
  }

  /** Bit `k` of a byte, the least significant one being bit 0. */
  predicate Bit(b: bv8, k: nat)
    requires k < 8
  {
    b & Mask(k) != 0
  }

  /** A bit of a byte is what is left of it after a shift. */
  lemma BitShifted(b: bv8, k: nat)
    requires k < 8
    ensures Bit(b, k) <==> (b >> k) & 1 == 1
  {
    if k == 0 {
    } else if k == 1 {
    } else if k == 2 {
    } else if k == 3 {
    } else if k == 4 {
    } else if k == 5 {
    } else if k == 6 {
    }
  }

  lemma SetClearBit(b: bv8, k: nat, j: nat)
    requires k < 8 && j < 8
    ensures Bit(b | Mask(k), j) == (j == k || Bit(b, j))
    ensures Bit(b & !Mask(k), j) == (j != k && Bit(b, j))
  {
  }

  lemma SameBits(a: bv8, b: bv8)
    requires forall k :: 0 <= k < 8 ==> Bit(a, k) == Bit(b, k)
    ensures a == b
  {
    assert Bit(a, 0) == Bit(b, 0) && Bit(a, 1) == Bit(b, 1) && Bit(a, 2) == Bit(b, 2) && Bit(a, 3) == Bit(b, 3);
    assert Bit(a, 4) == Bit(b, 4) && Bit(a, 5) == Bit(b, 5) && Bit(a, 6) == Bit(b, 6) && Bit(a, 7) == Bit(b, 7);
  }

  /** The bit of its byte that the `i`-th bit of a buffer is, in either bit order. */
  function BitNo(i: nat, bigEndian: bool): (k: nat)
    ensures k < 8
  {
    if bigEndian then 7 - i % 8 else i % 8
  }

  /** The `i`-th bit of a buffer. */
  predicate BitAt(s: seq<bv8>, i: nat, bigEndian: bool) {
    i < 8 * |s| && Bit(s[i / 8], BitNo(i, bigEndian))
  }

  /** Two buffers with the same bits are the same. */
  lemma SameBuffer(a: seq<bv8>, b: seq<bv8>, bigEndian: bool)
    requires |a| == |b|
    requires forall i :: 0 <= i < 8 * |a| ==> BitAt(a, i, bigEndian) == BitAt(b, i, bigEndian)
    ensures a == b
  {
    forall x | 0 <= x < |a|
      ensures a[x] == b[x]
    {
      forall k | 0 <= k < 8
        ensures Bit(a[x], k) == Bit(b[x], k)
      {
        var i := 8 * x + if bigEndian then 7 - k else k;
        assert BitAt(a, i, bigEndian) == BitAt(b, i, bigEndian);
      }
      SameBits(a[x], b[x]);
    }
  }

  /** Storing one changed byte changes one bit. */
  lemma StoreBit(s: seq<bv8>, i: nat, bigEndian: bool, t: seq<bv8>, v: bool)
    requires i < 8 * |s|
    requires var m := Mask(BitNo(i, bigEndian));
      t == s[i / 8 := if v then s[i / 8] | m else s[i / 8] & !m]
    ensures forall x :: 0 <= x < 8 * |s| ==>
      BitAt(t, x, bigEndian) == if x == i then v else BitAt(s, x, bigEndian)
  {
    hide Bit, Mask;
    forall x | 0 <= x < 8 * |s|
      ensures BitAt(t, x, bigEndian) == if x == i then v else BitAt(s, x, bigEndian)
    {
      SetClearBit(s[i / 8], BitNo(i, bigEndian), BitNo(x, bigEndian));
    }
  }

  /** Copy `n` bits of `pbf`, from bit `from` on, to bit `offs` of the zeroed part of `bf`. */
  method GatherBits(pbf: seq<bv8>, from: nat, n: nat, bf: array<bv8>, offs: nat, bigEndian: bool)
    requires from + n <= 8 * |pbf| && offs + n <= 8 * bf.Length
    requires forall x :: offs <= x < offs + n ==> !BitAt(bf[..], x, bigEndian)
    modifies bf
    ensures forall x :: 0 <= x < 8 * bf.Length ==>
      BitAt(bf[..], x, bigEndian) ==
      if offs <= x < offs + n then BitAt(pbf, from + (x - offs), bigEndian) else old(BitAt(bf[..], x, bigEndian))
  {
    hide Bit, Mask, BitAt;
    var o := offs;
    for i := from to from + n
      invariant o == offs + (i - from)
      invariant forall x :: 0 <= x < 8 * bf.Length ==>
        BitAt(bf[..], x, bigEndian) ==
        if offs <= x < o then BitAt(pbf, from + (x - offs), bigEndian) else old(BitAt(bf[..], x, bigEndian))
    {
      if TestBit(pbf, i, bigEndian) {
        PutBit(bf, o, bigEndian, true);
      }
      o := o + 1;
    }
  }

  predicate TestBit(s: seq<bv8>, i: nat, bigEndian: bool)
    requires i < 8 * |s|
    ensures TestBit(s, i, bigEndian) == BitAt(s, i, bigEndian)
  {
    s[i / 8] & Mask(BitNo(i, bigEndian)) != 0
  }

  method PutBit(bf: array<bv8>, i: nat, bigEndian: bool, v: bool)
    requires i < 8 * bf.Length
    modifies bf
    ensures forall x :: 0 <= x < 8 * bf.Length ==>
      BitAt(bf[..], x, bigEndian) == if x == i then v else old(BitAt(bf[..], x, bigEndian))
  {
    hide Bit, Mask, BitAt;
    var m := Mask(BitNo(i, bigEndian));
    ghost var s := bf[..];
    if v {
      bf[i / 8] := bf[i / 8] | m;
    } else {
      bf[i / 8] := bf[i / 8] & !m;
    }
    StoreBit(s, i, bigEndian, bf[..], v);
  }

  /**
   Copy bits of the value `bf`, from bit `offs` on, over `n` bits of `pbf`; bits the value does
   not have leave `pbf` unchanged.
   */
  method ScatterBits(pbf: array<bv8>, from: nat, n: nat, bf: seq<bv8>, offs: nat, bigEndian: bool)
    requires from + n <= 8 * pbf.Length
    modifies pbf
    ensures forall x :: 0 <= x < 8 * pbf.Length ==>
      BitAt(pbf[..], x, bigEndian) ==
      if from <= x < from + n && offs + (x - from) < 8 * |bf| then BitAt(bf, offs + (x - from), bigEndian)
      else old(BitAt(pbf[..], x, bigEndian))
  {
    hide Bit, Mask, BitAt;
    var o := offs;
    for i := from to from + n
      invariant o == offs + (i - from)
      invariant forall x :: 0 <= x < 8 * pbf.Length ==>
        BitAt(pbf[..], x, bigEndian) ==
        if from <= x < i && offs + (x - from) < 8 * |bf| then BitAt(bf, offs + (x - from), bigEndian)
        else old(BitAt(pbf[..], x, bigEndian))
    {
      if o / 8 >= |bf| {
        // left unchanged
      } else {
        PutBit(pbf, i, bigEndian, TestBit(bf, o, bigEndian));
      }
      o := o + 1;
    }
  }

  /** Where byte `x` goes when `size` bytes from `lo` on are reversed. */
  function Mirror(lo: nat, size: nat, x: nat): nat {
    if lo <= x < lo + size then lo + (lo + size - 1 - x) else x
  }

  /** Reverse the bytes of a part of a buffer in place. */
  method SwapBytes(a: array<bv8>, lo: nat, size: nat)
    requires lo + size <= a.Length
    modifies a
    ensures forall x :: 0 <= x < a.Length ==> a[x] == old(a[Mirror(lo, size, x)])
  {
    var n := size / 2;
    ghost var was := a[..];
    for i := 0 to n
      invariant |was| == a.Length
      invariant forall x :: 0 <= x < a.Length ==>
        a[x] == if lo + i <= x < lo + size - i then was[x] else was[Mirror(lo, size, x)]
    {
      SwapTwo(a, lo + i, lo + size - 1 - i);
      assert Mirror(lo, size, lo + i) == lo + size - 1 - i && Mirror(lo, size, lo + size - 1 - i) == lo + i;
    }
  }

  method SwapTwo(a: array<bv8>, i: nat, j: nat)
    requires i < j < a.Length
    modifies a
    ensures forall x :: 0 <= x < a.Length ==> a[x] == old(a[if x == i then j else if x == j then i else x])
  {
    a[i], a[j] := a[j], a[i];
  }

  datatype Location = Register(id: nat) | Constant(bytes: seq<bv8>) | Memory(addr: nat)

  datatype Piece = Piece(optimizedAway: bool, implicitPointer: bool, loc: Location,
                         size: nat, bitOffs: nat, bitSize: nat)
  {
    function Size(): nat {
      if size != 0 then size else (bitOffs + bitSize + 7) / 8
    }

    function Bits(): nat {
      if bitSize != 0 then bitSize else size * 8
    }
  }

  datatype RegisterDef = RegisterDef(size: nat, bigEndian: bool)

  /** A bit of storage: a memory byte, or a byte of a register as it is stored, and a bit number. */
  datatype Cell = MemCell(addr: nat, bit: nat) | RegCell(id: nat, index: nat, bit: nat)

  /** Memory and registers, as values. */
  datatype Storage = Storage(mem: seq<bv8>, regs: seq<seq<bv8>>) {
    predicate Has(c: Cell) {
      match c
      case MemCell(a, bit) => a < |mem| && bit < 8
      case RegCell(id, index, bit) => id < |regs| && index < |regs[id]| && bit < 8
    }

    predicate Get(c: Cell) {
      Has(c) &&
      match c
      case MemCell(a, bit) => Bit(mem[a], bit)
      case RegCell(id, index, bit) => Bit(regs[id][index], bit)
    }

    ghost predicate Fits(defs: seq<RegisterDef>) {
      |regs| == |defs| && forall i :: 0 <= i < |defs| ==> |regs[i]| == defs[i].size
    }
  }

  datatype Error = OptimizedAway | ImplicitPointer | NotWritable | BadMemory
  datatype Result = Ok(value: seq<bv8>) | Failed(error: Error)

  /** The size of the buffer a piece is loaded into; a short register is padded. */
  function BufferSize(p: Piece, defs: seq<RegisterDef>): nat
  {
    match p.loc
    case Register(id) => if id >= |defs| then 0 else if defs[id].size < p.Size() then p.Size() else defs[id].size
    case Constant(bytes) => |bytes|
    case Memory(_) => p.Size()
  }

  /** Where the register starts in that buffer. */
  function RegStart(p: Piece, size: nat, bigEndian: bool): nat {
    if size < p.Size() && bigEndian then p.Size() - size else 0
  }

  /** What the source requires of its callers: the piece's bits lie in its buffer. */
  ghost predicate WellFormed(p: Piece, defs: seq<RegisterDef>) {
    (p.loc.Register? ==> p.loc.id < |defs|) && p.bitOffs + p.Bits() <= 8 * BufferSize(p, defs)
  }

  /** The stored byte that byte `b` of the buffer is a copy of; padding has none. */
  function Home(p: Piece, defs: seq<RegisterDef>, bigEndian: bool, b: nat): Option<nat>
  {
    match p.loc
    case Memory(addr) => if b < p.Size() then Some(addr + b) else None
    case Constant(_) => None
    case Register(id) =>
      if id >= |defs| then None else
      var size, start := defs[id].size, RegStart(p, defs[id].size, bigEndian);
      if b < start || start + size <= b then None
      else if defs[id].bigEndian != bigEndian then Some(size - 1 - (b - start))
      else Some(b - start)
  }

  /** The cell that bit `x` of the buffer is a copy of. */
  function CellOf(p: Piece, defs: seq<RegisterDef>, bigEndian: bool, x: nat): Option<Cell>
  {
    match Home(p, defs, bigEndian, x / 8)
    case None => None
    case Some(i) =>
      if p.loc.Register? then Some(RegCell(p.loc.id, i, BitNo(x, bigEndian)))
      else Some(MemCell(i, BitNo(x, bigEndian)))
  }

  /** The buffer byte that is a copy of the stored byte `i` of the piece's memory or register. */
  function Copy(p: Piece, defs: seq<RegisterDef>, bigEndian: bool, i: nat): Option<nat>
  {
    match p.loc
    case Memory(addr) => if addr <= i < addr + p.Size() then Some(i - addr) else None
    case Constant(_) => None
    case Register(id) =>
      if id >= |defs| then None else
      var size, start := defs[id].size, RegStart(p, defs[id].size, bigEndian);
      if i >= size then None
      else if defs[id].bigEndian != bigEndian then Some(start + (size - 1 - i))
      else Some(start + i)
  }

  /** The buffer bit that is a copy of a cell. */
  function IndexOf(p: Piece, defs: seq<RegisterDef>, bigEndian: bool, c: Cell): Option<nat>
  {
    if p.loc.Register? != c.RegCell? || (c.RegCell? && c.id != p.loc.id) || c.bit >= 8 then None
    else match Copy(p, defs, bigEndian, if c.RegCell? then c.index else c.addr)
      case None => None
      case Some(b) => Some(8 * b + if bigEndian then 7 - c.bit else c.bit)
  }

  /** Byte by byte, `Copy` is the inverse of `Home`. */
  lemma BytesOneToOne(p: Piece, defs: seq<RegisterDef>, bigEndian: bool, b: nat, i: nat)
    ensures Home(p, defs, bigEndian, b) == Some(i) <==> Copy(p, defs, bigEndian, i) == Some(b)
    ensures Copy(p, defs, bigEndian, i) == Some(b) ==> b < BufferSize(p, defs)
  {
  }

  /** `IndexOf` is the inverse of `CellOf`. */
  lemma CellsOneToOne(p: Piece, defs: seq<RegisterDef>, bigEndian: bool, x: nat, c: Cell)
    ensures CellOf(p, defs, bigEndian, x) == Some(c) <==> IndexOf(p, defs, bigEndian, c) == Some(x)
    ensures IndexOf(p, defs, bigEndian, c) == Some(x) ==> x < 8 * BufferSize(p, defs)
  {
    hide Home, Copy;
    BytesOneToOne(p, defs, bigEndian, x / 8, if c.RegCell? then c.index else c.addr);
    BitsOneToOne(x, c.bit, bigEndian);
  }

  lemma BitsOneToOne(x: nat, k: nat, bigEndian: bool)
    ensures forall b: nat ::
      x == 8 * b + (if bigEndian then 7 - k else k) && k < 8 <==> x / 8 == b && BitNo(x, bigEndian) == k
  {
  }

  /** The first reason, if any, why a piece cannot be read or written. */
  function PieceError(p: Piece, memSize: nat, writing: bool): Option<Error> {
    if p.optimizedAway then Some(OptimizedAway)
    else if p.implicitPointer then Some(ImplicitPointer)
    else match p.loc
      case Register(_) => None
      case Constant(_) => if writing then Some(NotWritable) else None
      case Memory(addr) => if addr + p.Size() > memSize then Some(BadMemory) else None
  }

  /** Bit `j` of a piece, as stored. */
  predicate PieceBit(st: Storage, p: Piece, defs: seq<RegisterDef>, bigEndian: bool, j: nat) {
    if p.loc.Constant? then BitAt(p.loc.bytes, p.bitOffs + j, bigEndian)
    else match CellOf(p, defs, bigEndian, p.bitOffs + j)
      case None => false
      case Some(c) => st.Get(c)
  }

  class Target {
    const defs: seq<RegisterDef>
    var mem: seq<bv8>
    var regs: seq<seq<bv8>>

    function Cells(): Storage
      reads this
    {
      Storage(mem, regs)
    }

    ghost predicate Valid()
      reads this
    {
      Cells().Fits(defs)
    }

    /** The buffer holds a copy of each stored byte of the piece, and zeros around it. */
    ghost predicate Loaded(p: Piece, bigEndian: bool, pbf: seq<bv8>)
      requires Valid() && WellFormed(p, defs) && !p.loc.Constant?
      requires PieceError(p, |mem|, true).None?
      reads this
    {
      && |pbf| == BufferSize(p, defs)
      && forall b :: 0 <= b < |pbf| ==>
        pbf[b] == match Home(p, defs, bigEndian, b)
          case None => 0
          case Some(i) => if p.loc.Register? then regs[p.loc.id][i] else mem[i]
    }

    method LoadRegister(p: Piece, bigEndian: bool) returns (pbf: array<bv8>)
      requires Valid() && WellFormed(p, defs) && p.loc.Register?
      requires PieceError(p, |mem|, true).None?
      ensures fresh(pbf) && Loaded(p, bigEndian, pbf[..])
    {
      var def := defs[p.loc.id];
      var start := RegStart(p, def.size, bigEndian);
      pbf := Padded(regs[p.loc.id], start, BufferSize(p, defs));
      ghost var padded := pbf[..];
      if def.bigEndian != bigEndian {
        SwapBytes(pbf, start, def.size);
      }
      RegisterLoaded(p, bigEndian, padded, pbf[..]);
    }

    lemma RegisterLoaded(p: Piece, bigEndian: bool, padded: seq<bv8>, pbf: seq<bv8>)
      requires Valid() && WellFormed(p, defs) && p.loc.Register?
      requires PieceError(p, |mem|, true).None?
      requires |pbf| == |padded| == BufferSize(p, defs)
      requires var reg, start := regs[p.loc.id], RegStart(p, defs[p.loc.id].size, bigEndian);
        && (forall b :: 0 <= b < |pbf| ==>
             padded[b] == if start <= b < start + |reg| then reg[b - start] else 0)
        && (forall x :: 0 <= x < |pbf| ==>
             pbf[x] == padded[if defs[p.loc.id].bigEndian != bigEndian then Mirror(start, |reg|, x) else x])
      ensures Loaded(p, bigEndian, pbf)
    {
    }

    static method Padded(reg: seq<bv8>, start: nat, size: nat) returns (pbf: array<bv8>)
      requires start + |reg| <= size
      ensures fresh(pbf) && pbf.Length == size
      ensures forall b :: 0 <= b < size ==> pbf[b] == if start <= b < start + |reg| then reg[b - start] else 0
    {
      pbf := new bv8[size](_ => 0);
      forall b | start <= b < start + |reg| {
        pbf[b] := reg[b - start];
      }
    }

    method LoadMemory(p: Piece, bigEndian: bool) returns (pbf: array<bv8>)
      requires Valid() && WellFormed(p, defs) && p.loc.Memory?
      requires PieceError(p, |mem|, true).None?
      ensures fresh(pbf) && Loaded(p, bigEndian, pbf[..])
    {
      var addr := p.loc.addr;
      pbf := new bv8[p.Size()](_ => 0);
      forall i | 0 <= i < p.Size() {
        pbf[i] := mem[addr + i];
      }
    }

    /** Read a whole register or the memory of a piece into a buffer, in the order of the value. */
    method Load(p: Piece, bigEndian: bool) returns (pbf: array<bv8>)
      requires Valid() && WellFormed(p, defs) && !p.loc.Constant?
      requires PieceError(p, |mem|, true).None?
      ensures fresh(pbf) && Loaded(p, bigEndian, pbf[..]) && pbf.Length == BufferSize(p, defs)
    {
      hide Loaded;
      if p.loc.Register? {
        pbf := LoadRegister(p, bigEndian);
      } else {
        pbf := LoadMemory(p, bigEndian);
      }
    }

    /** Storage byte `i` of the piece's register or memory, `was` being what was stored before. */
    ghost predicate Stored(p: Piece, bigEndian: bool, pbf: seq<bv8>, was: Storage)
      requires WellFormed(p, defs) && !p.loc.Constant? && |pbf| == BufferSize(p, defs)
      requires was.Fits(defs)
      reads this
    {
      && Valid() && |mem| == |was.mem|
      && (forall i :: 0 <= i < |mem| ==>
        mem[i] == if p.loc.Memory? && Copy(p, defs, bigEndian, i).Some?
                  then pbf[Copy(p, defs, bigEndian, i).value] else was.mem[i])
      && (forall r :: 0 <= r < |regs| && !(p.loc.Register? && p.loc.id == r) ==> regs[r] == was.regs[r])
      && (p.loc.Register? ==> forall i :: 0 <= i < |regs[p.loc.id]| ==>
        Copy(p, defs, bigEndian, i).Some? &&
        regs[p.loc.id][i] == pbf[Copy(p, defs, bigEndian, i).value])
    }

    /** The register's part of a buffer that was brought back into the register's byte order. */
    function CopyOut(p: Piece, bigEndian: bool, pbf: seq<bv8>, ghost was: seq<bv8>): (reg: seq<bv8>)
      requires WellFormed(p, defs) && p.loc.Register?
      requires |pbf| == |was| == BufferSize(p, defs)
      requires var start, size := RegStart(p, defs[p.loc.id].size, bigEndian), defs[p.loc.id].size;
        forall x :: start <= x < start + size ==>
          pbf[x] == was[if defs[p.loc.id].bigEndian != bigEndian then Mirror(start, size, x) else x]
      ensures |reg| == defs[p.loc.id].size
      ensures forall i :: 0 <= i < |reg| ==> reg[i] == was[Copy(p, defs, bigEndian, i).value]
    {
      var start := RegStart(p, defs[p.loc.id].size, bigEndian);
      pbf[start..start + defs[p.loc.id].size]
    }

    method StoreRegister(p: Piece, bigEndian: bool, pbf: array<bv8>)
      requires Valid() && WellFormed(p, defs) && p.loc.Register?
      requires pbf.Length == BufferSize(p, defs)
      modifies this, pbf
      ensures Stored(p, bigEndian, old(pbf[..]), old(Cells())) && Valid() && |mem| == old(|mem|)
    {
      var def := defs[p.loc.id];
      var start := RegStart(p, def.size, bigEndian);
      if def.bigEndian != bigEndian {
        SwapBytes(pbf, start, def.size);
      }
      regs := regs[p.loc.id := CopyOut(p, bigEndian, pbf[..], old(pbf[..]))];
    }

    method StoreMemory(p: Piece, bigEndian: bool, pbf: array<bv8>)
      requires Valid() && WellFormed(p, defs) && p.loc.Memory?
      requires PieceError(p, |mem|, true).None? && pbf.Length == BufferSize(p, defs)
      modifies this
      ensures Stored(p, bigEndian, old(pbf[..]), old(Cells())) && Valid() && |mem| == old(|mem|)
    {
      var addr := p.loc.addr;
      mem := mem[..addr] + pbf[..] + mem[addr + p.Size()..];
    }

    /** Write the buffer of a piece back to the register or memory it was loaded from. */
    method Store(p: Piece, bigEndian: bool, pbf: array<bv8>)
      requires Valid() && WellFormed(p, defs) && !p.loc.Constant?
      requires PieceError(p, |mem|, true).None? && pbf.Length == BufferSize(p, defs)
      modifies this, pbf
      ensures Stored(p, bigEndian, old(pbf[..]), old(Cells())) && Valid() && |mem| == old(|mem|)
    {
      hide Stored;
      if p.loc.Register? {
        StoreRegister(p, bigEndian, pbf);
      } else {
        StoreMemory(p, bigEndian, pbf);
      }
    }

    /** The same, cell by cell. */
    lemma StoredCell(p: Piece, bigEndian: bool, pbf: seq<bv8>, was: Storage, c: Cell)
      requires WellFormed(p, defs) && !p.loc.Constant? && |pbf| == BufferSize(p, defs)
      requires was.Fits(defs) && Stored(p, bigEndian, pbf, was) && Cells().Has(c)
      ensures was.Has(c)
      ensures Cells().Get(c) == match IndexOf(p, defs, bigEndian, c)
        case None => was.Get(c)
        case Some(x) => x < 8 * |pbf| && BitAt(pbf, x, bigEndian)
    {
      hide Bit;
      if IndexOf(p, defs, bigEndian, c).Some? {
        var x := IndexOf(p, defs, bigEndian, c).value;
        CellsOneToOne(p, defs, bigEndian, x, c);
        BitsOneToOne(x, c.bit, bigEndian);
      }
    }

    /** What was loaded, bit by bit. */
    lemma LoadedBit(p: Piece, bigEndian: bool, pbf: seq<bv8>, x: nat)
      requires Valid() && WellFormed(p, defs) && !p.loc.Constant?
      requires PieceError(p, |mem|, true).None?
      requires Loaded(p, bigEndian, pbf) && x < 8 * |pbf|
      ensures BitAt(pbf, x, bigEndian) == match CellOf(p, defs, bigEndian, x)
        case None => false
        case Some(c) => Cells().Get(c)
    {
      hide Bit;
      ZeroBit(BitNo(x, bigEndian));
    }

    /** Write one piece: its bits of the value, where the value has them, and nothing else. */
    method WritePiece(p: Piece, bigEndian: bool, value: seq<bv8>, offs: nat)
      requires Valid() && WellFormed(p, defs) && !p.loc.Constant?
      requires PieceError(p, |mem|, true).None?
      modifies this
      ensures Valid() && |mem| == old(|mem|)
      ensures PieceWritten(old(Cells()), Cells(), p, defs, bigEndian, value, offs)
    {
      hide Stored, Loaded, BitAt, Storage.Get, IndexOf, CellOf;
      var pbf := Load(p, bigEndian);
      ghost var loaded := pbf[..];
      forall x | 0 <= x < 8 * |loaded|
        ensures BitAt(loaded, x, bigEndian) == match CellOf(p, defs, bigEndian, x)
          case None => false
          case Some(c) => Cells().Get(c)
      {
        LoadedBit(p, bigEndian, loaded, x);
      }
      ScatterBits(pbf, p.bitOffs, p.Bits(), value, offs, bigEndian);
      ghost var scattered, was := pbf[..], Cells();
      Store(p, bigEndian, pbf);
      forall c | Cells().Has(c)
        ensures Cells().Get(c) == AfterPiece(was, p, defs, bigEndian, value, offs, c)
      {
        StoredCell(p, bigEndian, scattered, was, c);
        if IndexOf(p, defs, bigEndian, c).Some? {
          var x := IndexOf(p, defs, bigEndian, c).value;
          CellsOneToOne(p, defs, bigEndian, x, c);
        }
      }
    }

    /** Write a value over the pieces, in order, up to the first piece that cannot be written. */
    method WritePieces(pieces: seq<Piece>, bigEndian: bool, value: seq<bv8>) returns (error: Option<Error>)
      requires Valid() && Formed(pieces, defs)
      modifies this
      ensures Valid() && |mem| == old(|mem|)
      ensures error == FirstError(pieces, old(|mem|), true)
      ensures Written(old(Cells()), Cells(), pieces, Writable(pieces, old(|mem|)), defs, bigEndian, value)
    {
      var bits := 0;
      for i := 0 to |pieces|
        invariant bits == Offset(pieces, i)
      {
        bits := bits + pieces[i].Bits();
      }
      var size := (bits + 7) / 8;
      var offs := 0;
      if bigEndian && |value| >= size {
        offs := |value| * 8 - bits;
      }
      assert offs == WriteStart(pieces, bigEndian, |value|);
      ghost var was := Cells();
      hide BitAt, IndexOf, Storage.Get, Storage.Has, Written, PieceWritten, Piece.Size, WriteStart;
      NothingWritten(was, pieces, defs, bigEndian, value);
      for n := 0 to |pieces|
        invariant Valid() && |mem| == old(|mem|)
        invariant offs == WriteStart(pieces, bigEndian, |value|) + Offset(pieces, n)
        invariant forall k :: 0 <= k < n ==> PieceError(pieces[k], |mem|, true).None?
        invariant Written(was, Cells(), pieces, n, defs, bigEndian, value)
      {
        var p := pieces[n];
        error := PieceError(p, |mem|, true);
        if error.Some? {
          FirstErrorAt(pieces, |mem|, true, n);
          return;
        }
        ghost var mid := Cells();
        WritePiece(p, bigEndian, value, offs);
        WrittenStep(was, mid, Cells(), pieces, n, defs, bigEndian, value);
        offs := offs + p.Bits();
      }
      FirstErrorAt(pieces, |mem|, true, |pieces|);
      error := None;
    }

    /** Read the bits of all pieces into one value, padded to whole bytes. */
    method ReadPieces(pieces: seq<Piece>, bigEndian: bool) returns (r: Result)
      requires Valid() && Formed(pieces, defs)
      ensures match FirstError(pieces, |mem|, false)
        case Some(e) => r == Failed(e)
        case None =>
          r.Ok? && Readable(pieces, |mem|) && Read(Cells(), pieces, defs, bigEndian, r.value)
    {
      hide ReadSoFar, Piece.Size, WellFormed;
      var bits := 0;
      for i := 0 to |pieces|
        invariant bits == Offset(pieces, i)
      {
        bits := bits + pieces[i].Bits();
      }
      var size := (bits + 7) / 8;
      var bf := new bv8[size](_ => 0);
      var offs := if bigEndian then size * 8 - bits else 0;
      ghost var start := offs;
      NothingRead(Cells(), pieces, defs, bigEndian, bf[..], start);
      for n := 0 to |pieces|
        invariant offs == start + Offset(pieces, n)
        invariant forall k :: 0 <= k < n ==> PieceError(pieces[k], |mem|, false).None?
        invariant ReadSoFar(Cells(), pieces, n, defs, bigEndian, bf[..], start)
      {
        var p := pieces[n];
        var error := PieceError(p, |mem|, false);
        if error.Some? {
          FirstErrorAt(pieces, |mem|, false, n);
          return Failed(error.value);
        }
        OffsetGrows(pieces, n + 1);
        ReadPiece(p, bigEndian, bf, offs, start, pieces, n);
        offs := offs + p.Bits();
      }
      FirstErrorAt(pieces, |mem|, false, |pieces|);
      r := Ok(bf[..]);
    }

    /** Read one piece into the value, after the pieces before it. */
    method ReadPiece(p: Piece, bigEndian: bool, bf: array<bv8>, offs: nat,
                     ghost start: nat, ghost pieces: seq<Piece>, ghost n: nat)
      requires Valid() && Formed(pieces, defs) && n < |pieces| && p == pieces[n]
      requires forall k :: 0 <= k <= n ==> PieceError(pieces[k], |mem|, false).None?
      requires offs == start + Offset(pieces, n) && offs + p.Bits() <= 8 * bf.Length
      requires ReadSoFar(Cells(), pieces, n, defs, bigEndian, bf[..], start)
      modifies bf
      ensures ReadSoFar(Cells(), pieces, n + 1, defs, bigEndian, bf[..], start)
    {
      hide BitAt, Loaded, CellOf, Storage.Get, Home;
      var src: seq<bv8>;
      if p.loc.Constant? {
        src := p.loc.bytes;
      } else {
        var pbf := Load(p, bigEndian);
        src := pbf[..];
        LoadedBits(p, bigEndian, src);
      }
      ghost var was := bf[..];
      assert ReadSoFar(Cells(), pieces, n, defs, bigEndian, was, start);
      GatherBits(src, p.bitOffs, p.Bits(), bf, offs, bigEndian);
      if p.loc.Constant? {
        assert forall j :: 0 <= j < p.Bits() ==>
          BitAt(src, p.bitOffs + j, bigEndian) == PieceBit(Cells(), p, defs, bigEndian, j);
      }
      SourceRead(Cells(), p, defs, bigEndian, was, bf[..], offs, src);
      ReadStep(Cells(), pieces, n, defs, bigEndian, was, bf[..], start);
    }

    lemma LoadedSize(p: Piece, bigEndian: bool, src: seq<bv8>)
      requires Valid() && WellFormed(p, defs) && !p.loc.Constant?
      requires PieceError(p, |mem|, true).None? && Loaded(p, bigEndian, src)
      ensures |src| == BufferSize(p, defs)
    {
    }

    lemma LoadedBits(p: Piece, bigEndian: bool, src: seq<bv8>)
      requires Valid() && WellFormed(p, defs) && !p.loc.Constant?
      requires PieceError(p, |mem|, true).None? && PieceError(p, |mem|, false).None?
      requires Loaded(p, bigEndian, src)
      ensures forall j :: 0 <= j < p.Bits() ==>
        BitAt(src, p.bitOffs + j, bigEndian) == PieceBit(Cells(), p, defs, bigEndian, j)
    {
      hide BitAt, CellOf, Storage.Get, Home, Loaded;
      assert |src| == BufferSize(p, defs) by { LoadedSize(p, bigEndian, src); }
      forall j | 0 <= j < p.Bits()
        ensures BitAt(src, p.bitOffs + j, bigEndian) == PieceBit(Cells(), p, defs, bigEndian, j)
      {
        LoadedBit(p, bigEndian, src, p.bitOffs + j);
      }
    }
  }

  /** `now` is `was` with one piece written. */
  ghost predicate PieceWritten(was: Storage, now: Storage, p: Piece, defs: seq<RegisterDef>,
                               bigEndian: bool, value: seq<bv8>, offs: nat) {
    forall c :: now.Has(c) ==> now.Get(c) == AfterPiece(was, p, defs, bigEndian, value, offs, c)
  }

  /** The bit of a cell after one piece is written. */
  ghost predicate AfterPiece(was: Storage, p: Piece, defs: seq<RegisterDef>, bigEndian: bool,
                             value: seq<bv8>, offs: nat, c: Cell) {
    match IndexOf(p, defs, bigEndian, c)
    case None => was.Get(c)
    case Some(x) =>
      if p.bitOffs <= x < p.bitOffs + p.Bits() && offs + (x - p.bitOffs) < 8 * |value|
      then BitAt(value, offs + (x - p.bitOffs), bigEndian)
      else was.Get(c)
  }

  lemma ZeroBit(k: nat)
    requires k < 8
    ensures !Bit(0, k)
  {
  }

  ghost predicate Formed(pieces: seq<Piece>, defs: seq<RegisterDef>) {
    forall k {:trigger pieces[k]} :: 0 <= k < |pieces| ==> WellFormed(pieces[k], defs)
  }

  /** Where the bits of the `n`-th piece start in the value. */
  function Offset(pieces: seq<Piece>, n: nat): nat
    requires n <= |pieces|
  {
    if n == 0 then 0 else Offset(pieces, n - 1) + pieces[n - 1].Bits()
  }

  lemma {:induction false} OffsetGrows(pieces: seq<Piece>, n: nat)
    requires n <= |pieces|
    ensures Offset(pieces, n) <= Offset(pieces, |pieces|)
    decreases |pieces| - n
  {
    if n < |pieces| {
      OffsetGrows(pieces, n + 1);
    }
  }

  /** A big-endian value that is long enough is aligned at its end. */
  function WriteStart(pieces: seq<Piece>, bigEndian: bool, size: nat): (start: nat)
    ensures bigEndian && size >= (Offset(pieces, |pieces|) + 7) / 8 ==>
      start + Offset(pieces, |pieces|) == size * 8
  {
    var bits := Offset(pieces, |pieces|);
    if bigEndian && size >= (bits + 7) / 8 then size * 8 - bits else 0
  }

  function FirstError(pieces: seq<Piece>, memSize: nat, writing: bool): Option<Error> {
    if pieces == [] then None
    else if PieceError(pieces[0], memSize, writing).Some? then PieceError(pieces[0], memSize, writing)
    else FirstError(pieces[1..], memSize, writing)
  }

  /** How many pieces come before the first one that cannot be written. */
  function Writable(pieces: seq<Piece>, memSize: nat): (n: nat)
    ensures n <= |pieces|
  {
    if pieces == [] || PieceError(pieces[0], memSize, true).Some? then 0
    else 1 + Writable(pieces[1..], memSize)
  }

  ghost predicate Readable(pieces: seq<Piece>, memSize: nat) {
    forall n :: 0 <= n < |pieces| ==> PieceError(pieces[n], memSize, false).None?
  }

  lemma {:induction false} FirstErrorAt(pieces: seq<Piece>, memSize: nat, writing: bool, n: nat)
    requires n <= |pieces|
    requires forall k :: 0 <= k < n ==> PieceError(pieces[k], memSize, writing).None?
    requires n == |pieces| || PieceError(pieces[n], memSize, writing).Some?
    ensures FirstError(pieces, memSize, writing) ==
      if n == |pieces| then None else PieceError(pieces[n], memSize, writing)
    ensures writing ==> Writable(pieces, memSize) == n
  {
    if n > 0 {
      FirstErrorAt(pieces[1..], memSize, writing, n - 1);
    }
  }

  /** The bit of a cell after the first `n` pieces are written: the last one that has it decides. */
  ghost predicate AfterPieces(was: Storage, pieces: seq<Piece>, n: nat, defs: seq<RegisterDef>,
                              bigEndian: bool, value: seq<bv8>, c: Cell)
    requires n <= |pieces|
  {
    if n == 0 then was.Get(c)
    else
      var p, offs := pieces[n - 1], WriteStart(pieces, bigEndian, |value|) + Offset(pieces, n - 1);
      match IndexOf(p, defs, bigEndian, c)
      case None => AfterPieces(was, pieces, n - 1, defs, bigEndian, value, c)
      case Some(x) =>
        if p.bitOffs <= x < p.bitOffs + p.Bits() && offs + (x - p.bitOffs) < 8 * |value|
        then BitAt(value, offs + (x - p.bitOffs), bigEndian)
        else AfterPieces(was, pieces, n - 1, defs, bigEndian, value, c)
  }

  /** `now` is `was` with the first `n` pieces written. */
  ghost predicate Written(was: Storage, now: Storage, pieces: seq<Piece>, n: nat, defs: seq<RegisterDef>,
                          bigEndian: bool, value: seq<bv8>)
    requires n <= |pieces|
  {
    forall c :: now.Has(c) ==> now.Get(c) == AfterPieces(was, pieces, n, defs, bigEndian, value, c)
  }

  lemma NothingWritten(was: Storage, pieces: seq<Piece>, defs: seq<RegisterDef>, bigEndian: bool, value: seq<bv8>)
    ensures Written(was, was, pieces, 0, defs, bigEndian, value)
  {
  }

  lemma AfterStep(was: Storage, mid: Storage, pieces: seq<Piece>, n: nat, defs: seq<RegisterDef>,
                  bigEndian: bool, value: seq<bv8>, c: Cell)
    requires n < |pieces|
    requires mid.Get(c) == AfterPieces(was, pieces, n, defs, bigEndian, value, c)
    ensures AfterPieces(was, pieces, n + 1, defs, bigEndian, value, c) ==
      AfterPiece(mid, pieces[n], defs, bigEndian, value,
                 WriteStart(pieces, bigEndian, |value|) + Offset(pieces, n), c)
  {
    hide IndexOf, BitAt, Storage.Get, WriteStart;
  }

  lemma WrittenStep(was: Storage, mid: Storage, now: Storage, pieces: seq<Piece>, n: nat,
                    defs: seq<RegisterDef>, bigEndian: bool, value: seq<bv8>)
    requires n < |pieces| && mid.Fits(defs) && now.Fits(defs) && |mid.mem| == |now.mem|
    requires Written(was, mid, pieces, n, defs, bigEndian, value)
    requires PieceWritten(mid, now, pieces[n], defs, bigEndian, value,
                          WriteStart(pieces, bigEndian, |value|) + Offset(pieces, n))
    ensures Written(was, now, pieces, n + 1, defs, bigEndian, value)
  {
    hide AfterPieces, AfterPiece, Storage.Get, WriteStart, Offset;
    forall c | now.Has(c)
      ensures now.Get(c) == AfterPieces(was, pieces, n + 1, defs, bigEndian, value, c)
    {
      assert mid.Has(c);
      AfterStep(was, mid, pieces, n, defs, bigEndian, value, c);
    }
  }

  /** Bit `t` of the concatenated bits of the first `n` pieces. */
  ghost predicate Gathered(st: Storage, pieces: seq<Piece>, n: nat, defs: seq<RegisterDef>,
                           bigEndian: bool, t: nat)
    requires n <= |pieces| && t < Offset(pieces, n)
  {
    if t < Offset(pieces, n - 1) then Gathered(st, pieces, n - 1, defs, bigEndian, t)
    else PieceBit(st, pieces[n - 1], defs, bigEndian, t - Offset(pieces, n - 1))
  }

  /** From bit `start` on, `bf` holds the bits of the first `n` pieces, and zeros elsewhere. */
  ghost predicate ReadSoFar(st: Storage, pieces: seq<Piece>, n: nat, defs: seq<RegisterDef>,
                            bigEndian: bool, bf: seq<bv8>, start: nat)
    requires n <= |pieces|
  {
    forall x :: 0 <= x < 8 * |bf| ==>
      BitAt(bf, x, bigEndian) == GatheredAt(st, pieces, n, defs, bigEndian, start, x)
  }

  lemma NothingRead(st: Storage, pieces: seq<Piece>, defs: seq<RegisterDef>, bigEndian: bool,
                    bf: seq<bv8>, start: nat)
    requires forall b :: 0 <= b < |bf| ==> bf[b] == 0
    ensures ReadSoFar(st, pieces, 0, defs, bigEndian, bf, start)
  {
    forall x | 0 <= x < 8 * |bf|
      ensures !BitAt(bf, x, bigEndian)
    {
      ZeroBit(BitNo(x, bigEndian));
    }
  }

  /** `now` is `was` with the bits of one piece put in from bit `offs` on. */
  ghost predicate PieceRead(st: Storage, p: Piece, defs: seq<RegisterDef>, bigEndian: bool,
                            was: seq<bv8>, now: seq<bv8>, offs: nat) {
    |now| == |was| &&
    forall x :: 0 <= x < 8 * |now| ==>
      BitAt(now, x, bigEndian) ==
      if offs <= x < offs + p.Bits() then PieceBit(st, p, defs, bigEndian, x - offs)
      else BitAt(was, x, bigEndian)
  }

  lemma SourceRead(st: Storage, p: Piece, defs: seq<RegisterDef>, bigEndian: bool,
                   was: seq<bv8>, now: seq<bv8>, offs: nat, src: seq<bv8>)
    requires |now| == |was|
    requires forall j :: 0 <= j < p.Bits() ==>
      BitAt(src, p.bitOffs + j, bigEndian) == PieceBit(st, p, defs, bigEndian, j)
    requires forall x :: 0 <= x < 8 * |now| ==>
      (BitAt(now, x, bigEndian) <==>
        if offs <= x < offs + p.Bits() then BitAt(src, p.bitOffs + (x - offs), bigEndian)
        else BitAt(was, x, bigEndian))
    ensures PieceRead(st, p, defs, bigEndian, was, now, offs)
  {
    hide BitAt, PieceBit;
    forall x | 0 <= x < 8 * |now|
      ensures BitAt(now, x, bigEndian) <==>
        if offs <= x < offs + p.Bits() then PieceBit(st, p, defs, bigEndian, x - offs)
        else BitAt(was, x, bigEndian)
    {
      if offs <= x < offs + p.Bits() {
        assert BitAt(src, p.bitOffs + (x - offs), bigEndian) == PieceBit(st, p, defs, bigEndian, x - offs);
      }
    }
  }

  lemma ReadStep(st: Storage, pieces: seq<Piece>, n: nat, defs: seq<RegisterDef>, bigEndian: bool,
                 was: seq<bv8>, now: seq<bv8>, start: nat)
    requires n < |pieces|
    requires ReadSoFar(st, pieces, n, defs, bigEndian, was, start) && |was| == |now|
    requires PieceRead(st, pieces[n], defs, bigEndian, was, now, start + Offset(pieces, n))
    ensures ReadSoFar(st, pieces, n + 1, defs, bigEndian, now, start)
  {
    hide BitAt, PieceBit, Gathered, Offset, Piece.Bits;
    forall x | 0 <= x < 8 * |now|
      ensures BitAt(now, x, bigEndian) == GatheredAt(st, pieces, n + 1, defs, bigEndian, start, x)
    {
      assert BitAt(was, x, bigEndian) == GatheredAt(st, pieces, n, defs, bigEndian, start, x);
      GatheredAtStep(st, pieces, n, defs, bigEndian, start, x);
    }
  }

  /** The bit of the value that `x` is, once the first `n` pieces are read. */
  ghost predicate GatheredAt(st: Storage, pieces: seq<Piece>, n: nat, defs: seq<RegisterDef>,
                             bigEndian: bool, start: nat, x: nat)
    requires n <= |pieces|
  {
    start <= x < start + Offset(pieces, n) && Gathered(st, pieces, n, defs, bigEndian, x - start)
  }

  lemma GatheredAtStep(st: Storage, pieces: seq<Piece>, n: nat, defs: seq<RegisterDef>, bigEndian: bool,
                       start: nat, x: nat)
    requires n < |pieces|
    ensures var offs := start + Offset(pieces, n);
      GatheredAt(st, pieces, n + 1, defs, bigEndian, start, x) ==
      if offs <= x < offs + pieces[n].Bits() then PieceBit(st, pieces[n], defs, bigEndian, x - offs)
      else GatheredAt(st, pieces, n, defs, bigEndian, start, x)
  {
    hide PieceBit;
    if start <= x < start + Offset(pieces, n + 1) {
      GatheredStep(st, pieces, n, defs, bigEndian, x - start);
    }
  }

  lemma GatheredStep(st: Storage, pieces: seq<Piece>, n: nat, defs: seq<RegisterDef>, bigEndian: bool, t: nat)
    requires n < |pieces| && t < Offset(pieces, n + 1)
    ensures Gathered(st, pieces, n + 1, defs, bigEndian, t) ==
      if t < Offset(pieces, n) then Gathered(st, pieces, n, defs, bigEndian, t)
      else PieceBit(st, pieces[n], defs, bigEndian, t - Offset(pieces, n))
  {
  }

  /** `r` is the value of the pieces: their bits, one after the other, padded with zeros. */
  ghost predicate Read(st: Storage, pieces: seq<Piece>, defs: seq<RegisterDef>, bigEndian: bool, r: seq<bv8>) {
    var bits := Offset(pieces, |pieces|);
    |r| == (bits + 7) / 8 &&
    ReadSoFar(st, pieces, |pieces|, defs, bigEndian, r, if bigEndian then |r| * 8 - bits else 0)
  }

  /** The cell is one of the bits of the piece. */
  ghost predicate Touches(p: Piece, defs: seq<RegisterDef>, bigEndian: bool, c: Cell) {
    IndexOf(p, defs, bigEndian, c).Some? &&
    p.bitOffs <= IndexOf(p, defs, bigEndian, c).value < p.bitOffs + p.Bits()
  }

  ghost predicate AllStored(p: Piece, defs: seq<RegisterDef>, bigEndian: bool) {
    forall x :: p.bitOffs <= x < p.bitOffs + p.Bits() ==> CellOf(p, defs, bigEndian, x).Some?
  }

  /** No two pieces share a bit, and every bit of every piece is stored. */
  ghost predicate Disjoint(pieces: seq<Piece>, defs: seq<RegisterDef>, bigEndian: bool) {
    && (forall m, n, c :: 0 <= m < n < |pieces| && Touches(pieces[m], defs, bigEndian, c) ==>
         !Touches(pieces[n], defs, bigEndian, c))
    && (forall n {:trigger pieces[n]} :: 0 <= n < |pieces| ==> AllStored(pieces[n], defs, bigEndian))
  }

  /** Storage bits outside the pieces are unchanged. */
  lemma {:induction false} OutsideUnchanged(was: Storage, pieces: seq<Piece>, n: nat, defs: seq<RegisterDef>,
                                            bigEndian: bool, value: seq<bv8>, c: Cell)
    requires n <= |pieces|
    requires forall k :: 0 <= k < n ==> !Touches(pieces[k], defs, bigEndian, c)
    ensures AfterPieces(was, pieces, n, defs, bigEndian, value, c) == was.Get(c)
  {
    if n > 0 {
      OutsideUnchanged(was, pieces, n - 1, defs, bigEndian, value, c);
    }
  }

  /** After writing disjoint pieces, a bit of piece `m` is the bit of the value written to it. */
  lemma {:induction false} WrittenCell(was: Storage, pieces: seq<Piece>, n: nat, defs: seq<RegisterDef>,
                                       bigEndian: bool, value: seq<bv8>, m: nat, c: Cell)
    requires m < n <= |pieces| && Disjoint(pieces, defs, bigEndian)
    requires Touches(pieces[m], defs, bigEndian, c)
    ensures var t := WriteStart(pieces, bigEndian, |value|) + Offset(pieces, m) +
        (IndexOf(pieces[m], defs, bigEndian, c).value - pieces[m].bitOffs);
      AfterPieces(was, pieces, n, defs, bigEndian, value, c) ==
      if t < 8 * |value| then BitAt(value, t, bigEndian) else was.Get(c)
  {
    hide IndexOf, BitAt, Storage.Get, AllStored, WriteStart;
    if n == m + 1 {
      OutsideUnchanged(was, pieces, m, defs, bigEndian, value, c);
    } else {
      assert !Touches(pieces[n - 1], defs, bigEndian, c);
      WrittenCell(was, pieces, n - 1, defs, bigEndian, value, m, c);
    }
  }

  /** The cells of a piece that can be written exist. */
  lemma CellExists(st: Storage, p: Piece, defs: seq<RegisterDef>, bigEndian: bool, j: nat)
    requires st.Fits(defs) && WellFormed(p, defs) && PieceError(p, |st.mem|, true).None?
    requires j < p.Bits() && CellOf(p, defs, bigEndian, p.bitOffs + j).Some?
    ensures st.Has(CellOf(p, defs, bigEndian, p.bitOffs + j).value)
  {
  }

  lemma StoredPiece(pieces: seq<Piece>, defs: seq<RegisterDef>, bigEndian: bool, m: nat)
    requires m < |pieces| && Disjoint(pieces, defs, bigEndian)
    ensures AllStored(pieces[m], defs, bigEndian)
  {
  }

  /** The cell that holds bit `j` of a piece. */
  lemma CellOfBit(st: Storage, p: Piece, defs: seq<RegisterDef>, bigEndian: bool, j: nat) returns (c: Cell)
    requires st.Fits(defs) && WellFormed(p, defs) && PieceError(p, |st.mem|, true).None?
    requires j < p.Bits() && AllStored(p, defs, bigEndian)
    ensures CellOf(p, defs, bigEndian, p.bitOffs + j) == Some(c) && st.Has(c)
    ensures IndexOf(p, defs, bigEndian, c) == Some(p.bitOffs + j) && Touches(p, defs, bigEndian, c)
  {
    hide CellOf, IndexOf, Storage.Has;
    c := CellOf(p, defs, bigEndian, p.bitOffs + j).value;
    CellExists(st, p, defs, bigEndian, j);
    CellsOneToOne(p, defs, bigEndian, p.bitOffs + j, c);
  }

  /** Bit `j` of piece `m`, after disjoint pieces were written. */
  lemma WrittenBit(was: Storage, now: Storage, pieces: seq<Piece>, defs: seq<RegisterDef>, bigEndian: bool,
                   value: seq<bv8>, m: nat, j: nat)
    requires m < |pieces| && now.Fits(defs) && Formed(pieces, defs) && Disjoint(pieces, defs, bigEndian)
    requires PieceError(pieces[m], |now.mem|, true).None? && j < pieces[m].Bits()
    requires Written(was, now, pieces, |pieces|, defs, bigEndian, value)
    ensures var t := WriteStart(pieces, bigEndian, |value|) + Offset(pieces, m) + j;
      PieceBit(now, pieces[m], defs, bigEndian, j) ==
      if t < 8 * |value| then BitAt(value, t, bigEndian) else PieceBit(was, pieces[m], defs, bigEndian, j)
  {
    hide CellOf, IndexOf, BitAt, Storage.Get, Storage.Has, WriteStart, Disjoint, AfterPieces, Piece.Bits, Touches;
    var p := pieces[m];
    StoredPiece(pieces, defs, bigEndian, m);
    var c := CellOfBit(now, p, defs, bigEndian, j);
    WrittenCell(was, pieces, |pieces|, defs, bigEndian, value, m, c);
  }

  /** Reading what was written gives the bits of the value; bits it did not have are as before. */
  lemma {:induction false} RoundTripBits(was: Storage, now: Storage, pieces: seq<Piece>, n: nat,
                                         defs: seq<RegisterDef>, bigEndian: bool, value: seq<bv8>, t: nat)
    requires now.Fits(defs) && Formed(pieces, defs) && Disjoint(pieces, defs, bigEndian)
    requires FirstError(pieces, |now.mem|, true).None?
    requires Written(was, now, pieces, |pieces|, defs, bigEndian, value)
    requires n <= |pieces| && t < Offset(pieces, n)
    ensures var x := WriteStart(pieces, bigEndian, |value|) + t;
      Gathered(now, pieces, n, defs, bigEndian, t) ==
      if x < 8 * |value| then BitAt(value, x, bigEndian) else Gathered(was, pieces, n, defs, bigEndian, t)
  {
    hide Written, Disjoint, BitAt, PieceBit, WriteStart;
    if t < Offset(pieces, n - 1) {
      RoundTripBits(was, now, pieces, n - 1, defs, bigEndian, value, t);
    } else {
      NoErrorAt(pieces, |now.mem|, n - 1);
      WrittenBit(was, now, pieces, defs, bigEndian, value, n - 1, t - Offset(pieces, n - 1));
    }
  }

  lemma {:induction false} NoErrorAt(pieces: seq<Piece>, memSize: nat, n: nat)
    requires n < |pieces| && FirstError(pieces, memSize, true).None?
    ensures PieceError(pieces[n], memSize, true).None?
  {
    if n > 0 {
      NoErrorAt(pieces[1..], memSize, n - 1);
    }
  }

  /** The bits of `value` outside the `bits` ones from `start` on are zero. */
  ghost predicate ZeroPadded(value: seq<bv8>, bigEndian: bool, start: nat, bits: nat) {
    forall x :: 0 <= x < 8 * |value| && !(start <= x < start + bits) ==> !BitAt(value, x, bigEndian)
  }

  lemma RoundTripAt(was: Storage, now: Storage, pieces: seq<Piece>, defs: seq<RegisterDef>, bigEndian: bool,
                    value: seq<bv8>, x: nat)
    requires now.Fits(defs) && Formed(pieces, defs) && Disjoint(pieces, defs, bigEndian)
    requires FirstError(pieces, |now.mem|, true).None?
    requires Written(was, now, pieces, |pieces|, defs, bigEndian, value)
    requires x < 8 * |value|
    requires ZeroPadded(value, bigEndian, WriteStart(pieces, bigEndian, |value|), Offset(pieces, |pieces|))
    ensures GatheredAt(now, pieces, |pieces|, defs, bigEndian, WriteStart(pieces, bigEndian, |value|), x) ==
      BitAt(value, x, bigEndian)
  {
    hide BitAt, Gathered, Written, Disjoint, Formed, Offset, WriteStart, FirstError;
    var start := WriteStart(pieces, bigEndian, |value|);
    if start <= x < start + Offset(pieces, |pieces|) {
      RoundTripBits(was, now, pieces, |pieces|, defs, bigEndian, value, x - start);
    }
  }

  /**
   Writing a value of the right size with zero padding over disjoint pieces, and reading the
   pieces back, gives the value, whatever the bit order of the value and of the registers.
   */
  lemma RoundTrip(was: Storage, now: Storage, pieces: seq<Piece>, defs: seq<RegisterDef>, bigEndian: bool,
                  value: seq<bv8>, r: seq<bv8>)
    requires now.Fits(defs) && Formed(pieces, defs) && Disjoint(pieces, defs, bigEndian)
    requires FirstError(pieces, |now.mem|, true).None?
    requires Written(was, now, pieces, |pieces|, defs, bigEndian, value)
    requires Read(now, pieces, defs, bigEndian, r)
    requires |value| == (Offset(pieces, |pieces|) + 7) / 8
    requires ZeroPadded(value, bigEndian, WriteStart(pieces, bigEndian, |value|), Offset(pieces, |pieces|))
    ensures r == value
  {
    var start := WriteStart(pieces, bigEndian, |value|);
    assert start == if bigEndian then |r| * 8 - Offset(pieces, |pieces|) else 0;
    hide BitAt, GatheredAt, Written, Disjoint, Formed, Offset, WriteStart, ZeroPadded, FirstError;
    forall x | 0 <= x < 8 * |r|
      ensures BitAt(r, x, bigEndian) == BitAt(value, x, bigEndian)
    {
      RoundTripAt(was, now, pieces, defs, bigEndian, value, x);
    }
    SameBuffer(r, value, bigEndian);
  }

  // ---------- Single pieces ----------

  /** One piece gives its bits, at the end of a big-endian value and at the start of a little-endian one. */
  lemma SinglePiece(st: Storage, p: Piece, defs: seq<RegisterDef>, bigEndian: bool, r: seq<bv8>)
    requires Read(st, [p], defs, bigEndian, r)
    ensures
      var bits := if p.bitSize != 0 then p.bitSize else 8 * p.size;
      var start := if bigEndian then 8 * |r| - bits else 0;
      && |r| == (bits + 7) / 8
      && forall x :: 0 <= x < 8 * |r| ==>
           BitAt(r, x, bigEndian) ==
           if start <= x < start + bits then PieceBit(st, p, defs, bigEndian, x - start) else false
  {
    hide PieceBit, BitAt;
    var bits := p.Bits();
    assert Offset([p], 0) == 0 && Offset([p], 1) == bits;
    var start := if bigEndian then 8 * |r| - bits else 0;
    forall x | 0 <= x < 8 * |r|
      ensures BitAt(r, x, bigEndian) ==
              if start <= x < start + bits then PieceBit(st, p, defs, bigEndian, x - start) else false
    {
      assert BitAt(r, x, bigEndian) == GatheredAt(st, [p], 1, defs, bigEndian, start, x);
      GatheredAtStep(st, [p], 0, defs, bigEndian, start, x);
    }
  }

  /** A range of bits of memory: bit by bit, in the order of the value. */
  lemma MemoryBits(st: Storage, addr: nat, size: nat, bitOffs: nat, bitSize: nat, defs: seq<RegisterDef>,
                   bigEndian: bool, r: seq<bv8>, j: nat)
    requires j < bitSize && (size == 0 || (bitOffs + bitSize + 7) / 8 <= size)
    requires addr + (bitOffs + bitSize + 7) / 8 <= |st.mem|
    requires Read(st, [Piece(false, false, Memory(addr), size, bitOffs, bitSize)], defs, bigEndian, r)
    ensures |r| == (bitSize + 7) / 8
    ensures
      var x, y := (if bigEndian then 8 * |r| - bitSize else 0) + j, bitOffs + j;
      var m := st.mem[addr + y / 8];
      BitAt(r, x, bigEndian) <==> (if bigEndian then m >> (7 - y % 8) else m >> (y % 8)) & 1 == 1
  {
    hide PieceBit, BitAt, Read;
    var p := Piece(false, false, Memory(addr), size, bitOffs, bitSize);
    SinglePiece(st, p, defs, bigEndian, r);
    MemoryBit(st, p, defs, bigEndian, j);
    BitShifted(st.mem[addr + (bitOffs + j) / 8], BitNo(bitOffs + j, bigEndian));
  }

  lemma MemoryBit(st: Storage, p: Piece, defs: seq<RegisterDef>, bigEndian: bool, j: nat)
    requires p.loc.Memory? && (p.bitOffs + j) / 8 < p.Size() && p.loc.addr + (p.bitOffs + j) / 8 < |st.mem|
    ensures
      var y := p.bitOffs + j;
      PieceBit(st, p, defs, bigEndian, j) == Bit(st.mem[p.loc.addr + y / 8], BitNo(y, bigEndian))
  {
  }

  function Reversed(s: seq<bv8>): (r: seq<bv8>)
    ensures |r| == |s|
  {
    seq(|s|, i requires 0 <= i < |s| => s[|s| - 1 - i])
  }

  lemma WholeBit(st: Storage, addr: nat, size: nat, defs: seq<RegisterDef>, bigEndian: bool, x: nat)
    requires addr + size <= |st.mem| && x < 8 * size
    ensures
      PieceBit(st, Piece(false, false, Memory(addr), size, 0, 0), defs, bigEndian, x) ==
      BitAt(st.mem[addr..addr + size], x, bigEndian)
  {
    hide Bit, BitNo, PieceBit;
    MemoryBit(st, Piece(false, false, Memory(addr), size, 0, 0), defs, bigEndian, x);
    assert st.mem[addr..addr + size][x / 8] == st.mem[addr + x / 8];
  }

  lemma RegisterBit(st: Storage, id: nat, defs: seq<RegisterDef>, bigEndian: bool, x: nat)
    requires st.Fits(defs) && id < |defs| && x < 8 * defs[id].size
    ensures
      var p := Piece(false, false, Register(id), defs[id].size, 0, 0);
      PieceBit(st, p, defs, bigEndian, x) ==
      BitAt(if defs[id].bigEndian == bigEndian then st.regs[id] else Reversed(st.regs[id]), x, bigEndian)
  {
    hide Bit;
    assert |st.regs[id]| == defs[id].size;
  }

  /** When a piece cannot be read or written. */
  lemma PieceErrors(p: Piece, memSize: nat)
    ensures PieceError(p, memSize, false) == Some(OptimizedAway) <==> p.optimizedAway
    ensures PieceError(p, memSize, false) == Some(ImplicitPointer) <==> !p.optimizedAway && p.implicitPointer
    ensures !p.optimizedAway && !p.implicitPointer && p.loc.Memory? ==>
      (PieceError(p, memSize, false).None? <==>
         p.loc.addr + (if p.size == 0 then (p.bitOffs + p.bitSize + 7) / 8 else p.size) <= memSize) &&
      PieceError(p, memSize, true) == PieceError(p, memSize, false)
    ensures !p.optimizedAway && !p.implicitPointer && !p.loc.Memory? ==>
      PieceError(p, memSize, false).None? && (PieceError(p, memSize, true) == Some(NotWritable) <==> p.loc.Constant?)
  {
  }

  /** Whole bytes of memory are read as they are, */
  lemma WholeMemory(st: Storage, addr: nat, size: nat, defs: seq<RegisterDef>, bigEndian: bool, r: seq<bv8>)
    requires size > 0 && addr + size <= |st.mem|
    requires Read(st, [Piece(false, false, Memory(addr), size, 0, 0)], defs, bigEndian, r)
    ensures r == st.mem[addr..addr + size]
  {
    var p := Piece(false, false, Memory(addr), size, 0, 0);
    hide PieceBit, BitAt, Read;
    SinglePiece(st, p, defs, bigEndian, r);
    var m := st.mem[addr..addr + size];
    forall x | 0 <= x < 8 * size
      ensures BitAt(r, x, bigEndian) == BitAt(m, x, bigEndian)
    {
      WholeBit(st, addr, size, defs, bigEndian, x);
    }
    SameBuffer(r, m, bigEndian);
  }

  /** and a whole register in the byte order that is asked for. */
  lemma WholeRegister(st: Storage, id: nat, defs: seq<RegisterDef>, bigEndian: bool, r: seq<bv8>)
    requires st.Fits(defs) && id < |defs| && defs[id].size > 0
    requires Read(st, [Piece(false, false, Register(id), defs[id].size, 0, 0)], defs, bigEndian, r)
    ensures r == if defs[id].bigEndian == bigEndian then st.regs[id] else Reversed(st.regs[id])
  {
    var p := Piece(false, false, Register(id), defs[id].size, 0, 0);
    hide PieceBit, BitAt, Read, Reversed;
    SinglePiece(st, p, defs, bigEndian, r);
    var m := if defs[id].bigEndian == bigEndian then st.regs[id] else Reversed(st.regs[id]);
    forall x | 0 <= x < 8 * |m|
      ensures BitAt(r, x, bigEndian) == BitAt(m, x, bigEndian)
    {
      RegisterBit(st, id, defs, bigEndian, x);
    }
    SameBuffer(r, m, bigEndian);
  }

  /** The two orders of bits are those of a number written from either end. */
  lemma OrdersMirror(s: seq<bv8>, i: nat)
    requires i < 8 * |s|
    ensures BitAt(s, i, true) == BitAt(Reversed(s), 8 * |s| - 1 - i, false)
  {
    var j := 8 * |s| - 1 - i;
    assert j / 8 == |s| - 1 - i / 8 && j % 8 == 7 - i % 8;
  }
}
