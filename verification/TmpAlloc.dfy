/**
 Temporary memory (myalloc.c, the variant with pools): blocks are cut from a pool, full pools are
 retired, and a collection between events takes everything back.

 Addresses are numbers; the system allocator hands out regions that lie apart from all regions
 in use and are aligned.  Memory is bytes and, for the size words in front of blocks, words, by
 address; that no header overlaps a block is part of what is proved.
 */
module TmpAlloc {

  // sizeof(size_t *), also the alignment, sizeof(LINK), and the pool sizes, for a memory usage factor.
  const WORD := 8
  const LINK := 16

  function PoolSize(factor: nat): nat {
    0xfff0 * factor
  }

  /** A temporary block: the address the client has, and the size in its header. */
  datatype Block = Block(addr: nat, size: nat)

  /** A region of memory from the system allocator. */
  datatype Region = Region(base: nat, size: nat)

  /** A retired pool with the blocks in it. */
  datatype Pool = Pool(region: Region, end: nat, blocks: seq<Block>)

  ghost predicate Apart(a: Region, b: Region) {
    a.base + a.size <= b.base || b.base + b.size <= a.base
  }

  /** The part of memory that a block takes, with its header. */
  ghost function Extent(b: Block): Region
    requires b.addr >= WORD
  {
    Region(b.addr - WORD, WORD + b.size)
  }

  ghost predicate Inside(b: Block, base: nat, end: nat) {
    base + LINK + WORD <= b.addr && b.addr % WORD == 0 && b.addr + b.size <= base + end
  }

  ghost predicate Before(a: Block, b: Block) {
    a.addr + a.size + WORD <= b.addr
  }

  /** Blocks one after the other between the link area of a pool and offset `end`. */
  ghost predicate Laid(blocks: seq<Block>, base: nat, end: nat) {
    && base % WORD == 0
    && (forall i :: 0 <= i < |blocks| ==> Inside(blocks[i], base, end))
    && (forall i, j :: 0 <= i < j < |blocks| ==> Before(blocks[i], blocks[j]))
  }

  /** `(pos + ALIGNMENT - 1) & ~(ALIGNMENT - 1)`. */
  function AlignUp(pos: nat): (r: nat)
    ensures pos <= r < pos + WORD && r % WORD == 0
  {
    (pos + WORD - 1) / WORD * WORD
  }

  lemma LaidSnoc(blocks: seq<Block>, base: nat, end: nat, b: Block)
    requires Laid(blocks, base, end) && LINK <= end
    requires base + end + WORD <= b.addr && b.addr % WORD == 0
    ensures Laid(blocks + [b], base, b.addr + b.size - base)
  {
  }

  lemma LaidEmpty(base: nat, end: nat)
    requires base % WORD == 0
    ensures Laid([], base, end)
  {
  }

  ghost predicate InRetired(retired: seq<Pool>, b: Block) {
    exists i :: 0 <= i < |retired| && b in retired[i].blocks
  }

  lemma InRetiredSnoc(retired: seq<Pool>, pool: Pool)
    ensures forall b :: InRetired(retired + [pool], b) <==> b in pool.blocks || InRetired(retired, b)
  {
    var all := retired + [pool];
    forall b | b in pool.blocks || InRetired(retired, b)
      ensures InRetired(all, b)
    {
      if b in pool.blocks {
        assert all[|retired|] == pool;
      } else {
        var i :| 0 <= i < |retired| && b in retired[i].blocks;
        assert all[i] == retired[i];
      }
    }
  }

  /** Only the last block ends where the allocated part of the pool ends. */
  lemma LastEnds(blocks: seq<Block>, base: nat, end: nat, k: nat)
    requires Laid(blocks, base, end) && k < |blocks|
    ensures blocks[k].addr + blocks[k].size == base + end ==> k == |blocks| - 1
  {
    if k + 1 < |blocks| {
      assert Before(blocks[k], blocks[k + 1]) && Inside(blocks[k + 1], base, end);
    }
  }

  lemma LaidGrow(blocks: seq<Block>, base: nat, end: nat, size: nat)
    requires Laid(blocks, base, end) && blocks != [] && blocks[|blocks| - 1].size <= size
    ensures
      var b := blocks[|blocks| - 1];
      Laid(blocks[..|blocks| - 1] + [b.(size := size)], base, b.addr + size - base)
  {
    var k := |blocks| - 1;
    assert forall i :: 0 <= i < k ==> Before(blocks[i], blocks[k]);
  }

  /** The bytes used of retired pools. */
  ghost function Used(retired: seq<Pool>): nat {
    if retired == [] then 0 else Used(retired[..|retired| - 1]) + retired[|retired| - 1].end
  }

  lemma UsedSnoc(retired: seq<Pool>, pool: Pool)
    ensures Used(retired + [pool]) == Used(retired) + pool.end
  {
    assert (retired + [pool])[..|retired|] == retired;
  }

  /** Doubled until it is enough. */
  function Doubled(size: nat, enough: nat): (d: nat)
    requires size > 0
    ensures d >= enough && d >= size && (d == size || d < 2 * enough)
    decreases enough - size
  {
    if size >= enough then size else Doubled(2 * size, enough)
  }

  /** The size of the pool after a collection, from its size before it and the demand. */
  function Adapted(size: nat, demand: nat, factor: nat): nat
    requires factor > 0
  {
    var most, least := PoolSize(factor), PoolSize(factor) / 0x10;
    if size < demand && size < most then
      var d := Doubled(if size < least then least else size, demand);
      if d > most then most else d
    else if demand < size / 4 && size > least then size / 2
    else size
  }

  /** The pool then has room for the demand, up to the largest size, and not for much more; it stays so. */
  lemma AdaptedFits(size: nat, demand: nat, factor: nat)
    requires factor > 0
    ensures
      var most, least, d := PoolSize(factor), PoolSize(factor) / 0x10, Adapted(size, demand, factor);
      && (d >= demand || d >= most)
      && (d > size ==> d <= most && (d < 2 * demand || d == least) && Adapted(d, demand, factor) == d)
      && (d < size ==> d == size / 2 && 2 * demand <= d)
  {
  }

  class TmpPools {
    // 1 for the default configuration.
    const factor: nat
    var tmpPool: nat // 0 for none
    var tmpPoolPos: nat
    var tmpPoolMax: nat
    var tmpPoolAvr: nat
    var tmpAllocSize: nat
    var tmpGcPosted: bool
    // The size words and all other bytes.
    var words: nat -> nat
    var bytes: nat -> int
    // The first addresses of the retired pools.
    var tmpAllocList: seq<nat>
    // The retired pools themselves, and the blocks of the current pool.
    ghost var retired: seq<Pool>
    ghost var blocks: seq<Block>

    ghost predicate Live(b: Block)
      reads `blocks, `retired
    {
      b in blocks || InRetired(retired, b)
    }

    /** The current pool. */
    ghost predicate Current()
      reads `tmpPool, `tmpPoolPos, `tmpPoolMax, `blocks
    {
      if tmpPool == 0 then tmpPoolMax == 0 && blocks == []
      else LINK <= tmpPoolPos <= tmpPoolMax && Laid(blocks, tmpPool, tmpPoolPos)
    }

    ghost predicate Retired()
      reads `tmpPool, `tmpPoolMax, `retired, `tmpAllocList, `tmpAllocSize
    {
      && |tmpAllocList| == |retired| && tmpAllocSize == Used(retired)
      && (forall i :: 0 <= i < |retired| ==>
            && tmpAllocList[i] == retired[i].region.base
            && retired[i].end <= retired[i].region.size
            && Laid(retired[i].blocks, retired[i].region.base, retired[i].end))
      && (forall i, j :: 0 <= i < j < |retired| ==> Apart(retired[i].region, retired[j].region))
      && (tmpPool != 0 ==>
            forall i :: 0 <= i < |retired| ==> Apart(retired[i].region, Region(tmpPool, tmpPoolMax)))
    }

    /** The word in front of every live block is its size. */
    ghost predicate Headers()
      reads `words, `blocks, `retired
    {
      forall b :: Live(b) ==> b.addr >= WORD && words(b.addr - WORD) == b.size
    }

    ghost predicate Valid()
      reads this
    {
      && factor > 0
      && Current() && Retired() && Headers()
      && (blocks != [] || retired != [] ==> tmpGcPosted)
    }

    /** What the system allocator promises of a new region. */
    ghost predicate Fresh(region: Region)
      reads `tmpPool, `tmpPoolMax, `retired
    {
      && region.base > 0 && region.base % WORD == 0
      && (tmpPool != 0 ==> Apart(Region(tmpPool, tmpPoolMax), region))
      && (forall i :: 0 <= i < |retired| ==> Apart(retired[i].region, region))
    }

    constructor (factor: nat)
      requires factor > 0
      ensures Valid() && this.factor == factor && forall b :: !Live(b)
      ensures tmpPool == tmpPoolPos == tmpPoolMax == tmpPoolAvr == 0 && !tmpGcPosted
    {
      this.factor := factor;
      tmpPool, tmpPoolPos, tmpPoolMax, tmpPoolAvr, tmpAllocSize, tmpGcPosted := 0, 0, 0, 0, 0, false;
      words, bytes, tmpAllocList, retired, blocks := (k: nat) => 0, (k: nat) => 0, [], [], [];
    }

    // ---------- Operations ----------

    /** `tmp_alloc`; `addr` is where the system allocator puts a new pool if one is needed. */
    method Alloc(size: nat, addr: nat) returns (p: nat)
      requires Valid() && Fresh(Region(addr, PoolSize(factor) / 16 + size))
      modifies `tmpPool, `tmpPoolPos, `tmpPoolMax, `tmpAllocSize, `tmpGcPosted, `words, `tmpAllocList, `retired, `blocks
      ensures Valid() && tmpGcPosted
      ensures forall b :: Live(b) <==> old(Live(b)) || b == Block(p, size)
      ensures forall b :: old(Live(b)) ==> b.addr >= WORD && p >= WORD && Apart(Extent(b), Extent(Block(p, size)))
      ensures Block(p, size) in blocks
      ensures
        if old(tmpPoolPos) + size + 16 <= old(tmpPoolMax) then
          && tmpPool == old(tmpPool) && tmpPoolMax == old(tmpPoolMax) && tmpAllocList == old(tmpAllocList)
          && p == tmpPool + AlignUp(old(tmpPoolPos) + WORD) && tmpPoolPos == p + size - tmpPool
        else
          && tmpPool == addr && tmpPoolMax == 0xfff * factor + size
          && tmpAllocList == (if old(tmpPool) == 0 then old(tmpAllocList) else old(tmpAllocList) + [old(tmpPool)])
          && p == addr + 24 && tmpPoolPos == 24 + size
    {
      hide Laid, Retired, Headers, Fresh;
      tmpGcPosted := true;
      if tmpPoolPos + size + 2 * WORD > tmpPoolMax {
        NewPool(size, addr);
      }
      p := Cut(size);
    }

    /** The current pool is retired and a new one takes its place. */
    method NewPool(size: nat, addr: nat)
      requires factor > 0 && Current() && Retired() && Headers() && Fresh(Region(addr, PoolSize(factor) / 16 + size))
      modifies `tmpPool, `tmpPoolPos, `tmpPoolMax, `tmpAllocSize, `tmpAllocList, `retired, `blocks
      ensures Current() && Retired() && Headers()
      ensures tmpPool == addr && tmpPoolPos == LINK && tmpPoolMax == PoolSize(factor) / 16 + size
      ensures tmpPool != 0 && tmpPoolPos + size + 2 * WORD <= tmpPoolMax
      ensures tmpAllocList == if old(tmpPool) == 0 then old(tmpAllocList) else old(tmpAllocList) + [old(tmpPool)]
      ensures forall b :: Live(b) <==> old(Live(b))
    {
      hide Laid, InRetired, Used;
      UsedSnoc(retired, Pool(Region(tmpPool, tmpPoolMax), tmpPoolPos, blocks));
      LaidEmpty(addr, LINK);
      if tmpPool != 0 {
        InRetiredSnoc(retired, Pool(Region(tmpPool, tmpPoolMax), tmpPoolPos, blocks));
        retired := retired + [Pool(Region(tmpPool, tmpPoolMax), tmpPoolPos, blocks)];
        tmpAllocList := tmpAllocList + [tmpPool];
        tmpAllocSize := tmpAllocSize + tmpPoolPos;
      }
      blocks := [];
      tmpPoolMax := PoolSize(factor) / 16 + size;
      tmpPool := addr;
      tmpPoolPos := LINK;
    }

    /** The next block of the current pool. */
    method Cut(size: nat) returns (p: nat)
      requires Current() && Retired() && Headers() && tmpPool != 0 && tmpPoolPos + size + 2 * WORD <= tmpPoolMax
      modifies `tmpPoolPos, `words, `blocks
      ensures Current() && Retired() && Headers()
      ensures forall b :: Live(b) <==> old(Live(b)) || b == Block(p, size)
      ensures forall b :: old(Live(b)) ==> b.addr >= WORD && p >= WORD && Apart(Extent(b), Extent(Block(p, size)))
      ensures Block(p, size) in blocks
      ensures p == tmpPool + AlignUp(old(tmpPoolPos) + WORD) && tmpPoolPos == p + size - tmpPool
    {
      hide Retired, InRetired;
      ghost var end := tmpPoolPos;
      CutApart(tmpPool + AlignUp(end + WORD), size);
      tmpPoolPos := AlignUp(tmpPoolPos + WORD);
      p := tmpPool + tmpPoolPos;
      LaidSnoc(blocks, tmpPool, end, Block(p, size));
      tmpPoolPos := tmpPoolPos + size;
      blocks := blocks + [Block(p, size)];
      SetHeader(p, size);
    }

    /** What is cut from the rest of the pool is apart from all live blocks. */
    lemma CutApart(p: nat, size: nat)
      requires Current() && Retired() && tmpPool != 0
      requires tmpPool + tmpPoolPos + WORD <= p && p + size <= tmpPool + tmpPoolMax
      ensures forall b :: Live(b) ==> b.addr >= WORD && Apart(Extent(b), Extent(Block(p, size)))
    {
      hide Retired;
      forall b | Live(b)
        ensures b.addr >= WORD && Apart(Extent(b), Extent(Block(p, size)))
      {
        var r, k := LiveInside(b);
        if k < 0 {
          var i :| 0 <= i < |blocks| && blocks[i] == b;
          assert Inside(blocks[i], tmpPool, tmpPoolPos);
        } else {
          PoolsApart(k, -1);
        }
      }
    }

    /** `*((size_t *)p - 1) = size` for a block that has just been added. */
    method SetHeader(p: nat, size: nat)
      requires p >= WORD
      requires forall b :: Live(b) && b != Block(p, size) ==>
                 b.addr >= WORD && Apart(Extent(b), Extent(Block(p, size))) && words(b.addr - WORD) == b.size
      modifies `words
      ensures Headers() && forall k :: k != p - WORD ==> words(k) == old(words)(k)
    {
      var was := words;
      words := k => if k == p - WORD then size else was(k);
    }

    /**
     `tmp_realloc`: the bytes of the old block are kept, whether it stays where it is or moves; no
     other block changes.
     */
    method Realloc(ptr: nat, size: nat, addr: nat) returns (p: nat)
      requires Valid() && Fresh(Region(addr, PoolSize(factor) / 16 + size))
      requires ptr != 0 ==> exists m :: Live(Block(ptr, m))
      modifies `tmpPool, `tmpPoolPos, `tmpPoolMax, `tmpAllocSize, `tmpGcPosted, `words, `bytes,
               `tmpAllocList, `retired, `blocks
      ensures Valid()
      ensures ptr == 0 ==> Live(Block(p, size)) && forall b :: old(Live(b)) ==>
        Live(b) && SameBytes(old(bytes), bytes, b)
      ensures ptr != 0 ==> ptr >= WORD && Resized(ptr, old(words)(ptr - WORD), p, size)
      ensures ptr != 0 ==> InPlaceIfPossible(ptr, old(words)(ptr - WORD), p, size)
    {
      if ptr == 0 {
        p := Alloc(size, addr);
        return;
      }
      ghost var m' :| Live(Block(ptr, m'));
      var m := words(ptr - WORD);
      if m >= size {
        return ptr;
      }
      if tmpPool <= ptr <= tmpPool + tmpPoolMax {
        NoUnderflow(Block(ptr, m));
        var pos := tmpPoolPos - m;
        if ptr == tmpPool + pos && pos + size <= tmpPoolMax {
          Grow(ptr, m, size);
          return ptr;
        }
      }
      p := Move(ptr, m, size, addr);
    }

    /** `b`'s bytes are the same. */
    static ghost predicate SameBytes(before: nat -> int, after: nat -> int, b: Block) {
      forall k: nat :: b.addr <= k < b.addr + b.size ==> after(k) == before(k)
    }

    /** A block stays if it is large enough, grows if it is the last and there is room, and is copied otherwise. */
    twostate predicate InPlaceIfPossible(new ptr: nat, new m: nat, new p: nat, new size: nat)
      reads `blocks, `retired, `tmpPool, `tmpPoolPos
    {
      if m >= size then p == ptr && blocks == old(blocks) && retired == old(retired) && tmpPoolPos == old(tmpPoolPos)
      else if old(tmpPool <= ptr && ptr + m == tmpPool + tmpPoolPos && ptr + size <= tmpPool + tmpPoolMax) then
        p == ptr && tmpPool == old(tmpPool) && tmpPoolPos == ptr + size - tmpPool && retired == old(retired)
      else Live(Block(ptr, m)) && Live(Block(p, size))
    }

    /** The block of `m` bytes at `ptr` has become one at `p` of at least `size` bytes. */
    twostate predicate Resized(new ptr: nat, new m: nat, new p: nat, new size: nat)
      reads `blocks, `retired, `bytes
    {
      && Live(Block(p, if m >= size then m else size))
      && (forall k: nat :: p <= k < p + m ==> bytes(k) == old(bytes)(ptr + (k - p)))
      && (forall k: nat :: k < p || p + m <= k ==> bytes(k) == old(bytes)(k))
      && (forall b :: old(Live(b)) && b != Block(ptr, m) ==> Live(b) && SameBytes(old(bytes), bytes, b))
    }

    /** The position of a block that may be in the current pool is not negative. */
    lemma NoUnderflow(b: Block)
      requires Current() && Retired() && Live(b) && tmpPool <= b.addr <= tmpPool + tmpPoolMax
      ensures b.size <= tmpPoolPos
      ensures b.addr + b.size == tmpPool + tmpPoolPos ==> blocks != [] && b == blocks[|blocks| - 1]
    {
      hide Retired;
      var r, k := LiveInside(b);
      if k < 0 {
        var i :| 0 <= i < |blocks| && blocks[i] == b;
        LastEnds(blocks, tmpPool, tmpPoolPos, i);
        assert Inside(blocks[i], tmpPool, tmpPoolPos);
      } else if tmpPool != 0 {
        PoolsApart(k, -1);
      }
    }

    /** The last block of the pool grows where it is. */
    method Grow(ptr: nat, m: nat, size: nat)
      requires Valid() && Live(Block(ptr, m)) && m < size && blocks != [] && blocks[|blocks| - 1] == Block(ptr, m)
      requires ptr + m == tmpPool + tmpPoolPos && ptr + size <= tmpPool + tmpPoolMax && ptr >= WORD
      modifies `tmpPoolPos, `words, `blocks
      ensures Valid() && Resized(ptr, m, ptr, size) && tmpPoolPos == ptr + size - tmpPool
    {
      hide Retired, InRetired, Laid, Apart, Extent;
      ghost var was := blocks;
      LaidGrow(blocks, tmpPool, tmpPoolPos, size);
      tmpPoolPos := ptr + size - tmpPool;
      blocks := blocks[..|blocks| - 1] + [Block(ptr, size)];
      assert was == was[..|was| - 1] + [Block(ptr, m)];
      StillApart(ptr, size);
      SetHeader(ptr, size);
    }

    lemma StillApart(p: nat, size: nat)
      requires Current() && Retired() && Live(Block(p, size))
      ensures forall b :: Live(b) && b != Block(p, size) ==>
        b.addr >= WORD && p >= WORD && Apart(Extent(b), Extent(Block(p, size)))
    {
      hide Current, Retired;
      forall b | Live(b) && b != Block(p, size)
        ensures b.addr >= WORD && p >= WORD && Apart(Extent(b), Extent(Block(p, size)))
      {
        LiveApart(b, Block(p, size));
      }
    }

    /** A new block, and the old bytes copied to it. */
    method Move(ptr: nat, m: nat, size: nat, addr: nat) returns (p: nat)
      requires Valid() && Live(Block(ptr, m)) && m < size && Fresh(Region(addr, PoolSize(factor) / 16 + size))
      modifies `tmpPool, `tmpPoolPos, `tmpPoolMax, `tmpAllocSize, `tmpGcPosted, `words, `bytes,
               `tmpAllocList, `retired, `blocks
      ensures Valid() && Resized(ptr, m, p, size) && Live(Block(ptr, m)) && Live(Block(p, size))
    {
      hide Current, Retired, Headers, Fresh;
      p := Alloc(size, addr);
      var was := bytes;
      bytes := (k: nat) => if p <= k < p + m then was(ptr + (k - p)) else was(k);
    }

    /** `gc_event`: the posted collection. */
    method GcEvent(addr: nat) returns (freed: seq<nat>)
      requires Valid() && addr > 0 && addr % WORD == 0
      modifies `tmpPool, `tmpPoolPos, `tmpPoolMax, `tmpPoolAvr, `tmpAllocSize, `tmpGcPosted,
               `tmpAllocList, `retired, `blocks
      ensures Valid() && freed == old(tmpAllocList) && tmpAllocList == [] && !tmpGcPosted
      ensures tmpPoolMax == Adapted(old(tmpPoolMax), tmpPoolAvr, factor) && tmpPoolPos == LINK
      ensures forall b :: !Live(b)
    {
      tmpGcPosted := false;
      freed := Gc(addr);
    }

    /**
     `tmp_gc`; `addr` is where the pool is after a change of its size.  Nothing stays live, each
     retired pool is freed once, and the pool is adapted to a running maximum of the demand.
     */
    method Gc(addr: nat) returns (freed: seq<nat>)
      requires factor > 0 && Current() && Retired() && addr > 0 && addr % WORD == 0
      modifies `tmpPool, `tmpPoolPos, `tmpPoolMax, `tmpPoolAvr, `tmpAllocSize, `tmpAllocList, `retired, `blocks
      ensures Current() && Retired() && Headers() && forall b :: !Live(b)
      ensures blocks == [] && retired == []
      ensures freed == old(tmpAllocList) && tmpAllocList == [] && tmpAllocSize == 0
      ensures
        var demand := old(tmpPoolPos) + old(tmpAllocSize);
        if demand >= old(tmpPoolAvr) then tmpPoolAvr == demand
        else tmpPoolAvr == old(tmpPoolAvr) - if old(tmpPoolAvr) > PoolSize(factor) / 16 then
          PoolSize(factor) / 0x10000 else 0
      ensures tmpPoolMax == Adapted(old(tmpPoolMax), tmpPoolAvr, factor) && tmpPoolPos == LINK
      ensures tmpPool == if tmpPoolMax == old(tmpPoolMax) then old(tmpPool) else addr
    {
      AdaptAverage();
      blocks := [];
      AdaptPool(addr);
      tmpPoolPos := LINK;
      freed := FreeRetired();
      tmpAllocSize := 0;
    }

    method AdaptAverage()
      modifies `tmpPoolAvr
      ensures
        var demand := tmpPoolPos + tmpAllocSize;
        if demand >= old(tmpPoolAvr) then tmpPoolAvr == demand
        else tmpPoolAvr == old(tmpPoolAvr) - if old(tmpPoolAvr) > PoolSize(factor) / 16 then
          PoolSize(factor) / 0x10000 else 0
    {
      if tmpPoolPos + tmpAllocSize >= tmpPoolAvr {
        tmpPoolAvr := tmpPoolPos + tmpAllocSize;
      } else if tmpPoolAvr > PoolSize(factor) / 0x10 {
        tmpPoolAvr := tmpPoolAvr - PoolSize(factor) / 0x10000;
      }
    }

    method AdaptPool(addr: nat)
      requires factor > 0 && Current() && blocks == [] && addr > 0 && addr % WORD == 0
      modifies `tmpPool, `tmpPoolMax
      ensures tmpPool == 0 ==> tmpPoolMax == 0
      ensures tmpPool != 0 ==> tmpPoolMax >= LINK && tmpPool % WORD == 0
      ensures tmpPoolMax == Adapted(old(tmpPoolMax), tmpPoolAvr, factor)
      ensures tmpPool == if tmpPoolMax == old(tmpPoolMax) then old(tmpPool) else addr
    {
      Enough(factor);
      if tmpPoolMax < tmpPoolAvr && tmpPoolMax < PoolSize(factor) {
        if tmpPoolMax < PoolSize(factor) / 0x10 {
          tmpPoolMax := PoolSize(factor) / 0x10;
        }
        ghost var start := tmpPoolMax;
        while tmpPoolMax < tmpPoolAvr
          invariant tmpPoolMax >= LINK && Doubled(start, tmpPoolAvr) == Doubled(tmpPoolMax, tmpPoolAvr)
          decreases tmpPoolAvr - tmpPoolMax
        {
          tmpPoolMax := tmpPoolMax * 2;
        }
        if tmpPoolMax > PoolSize(factor) {
          tmpPoolMax := PoolSize(factor);
        }
        tmpPool := addr;
      } else if tmpPoolAvr < tmpPoolMax / 4 && tmpPoolMax > PoolSize(factor) / 0x10 {
        tmpPoolMax := tmpPoolMax / 2;
        tmpPool := addr;
      }
    }

    static lemma Enough(factor: nat)
      requires factor > 0
      ensures PoolSize(factor) / 0x10 >= 0xfff && PoolSize(factor) >= 0xfff0
    {
    }

    method FreeRetired() returns (freed: seq<nat>)
      modifies `tmpAllocList, `retired
      ensures freed == old(tmpAllocList) && tmpAllocList == [] && retired == []
    {
      freed := [];
      while |tmpAllocList| > 0
        invariant freed + tmpAllocList == old(tmpAllocList)
        decreases |tmpAllocList|
      {
        freed := freed + [tmpAllocList[0]];
        tmpAllocList := tmpAllocList[1..];
      }
      retired := [];
    }

    // ---------- Where blocks are ----------

    /** The pool of a live block: the block lies in it behind the link area. */
    lemma LiveInside(b: Block) returns (region: Region, k: int)
      requires Current() && Retired() && Live(b)
      ensures b.addr % WORD == 0 && region.base + LINK <= b.addr - WORD && b.addr + b.size <= region.base + region.size
      ensures -1 <= k < |retired|
      ensures if k < 0 then b in blocks && tmpPool != 0 && region == Region(tmpPool, tmpPoolMax)
              else b in retired[k].blocks && region == retired[k].region
    {
      if b in blocks {
        k, region := -1, Region(tmpPool, tmpPoolMax);
        var i :| 0 <= i < |blocks| && blocks[i] == b;
        assert Inside(blocks[i], tmpPool, tmpPoolPos);
      } else {
        k :| 0 <= k < |retired| && b in retired[k].blocks;
        region := retired[k].region;
        var i :| 0 <= i < |retired[k].blocks| && retired[k].blocks[i] == b;
        assert Inside(retired[k].blocks[i], region.base, retired[k].end);
      }
    }

    /** Live blocks, with their headers, do not overlap. */
    lemma LiveApart(b: Block, c: Block)
      requires Current() && Retired() && Live(b) && Live(c) && b != c
      ensures b.addr >= WORD && c.addr >= WORD && Apart(Extent(b), Extent(c))
    {
      hide Current, Retired;
      var r, k := LiveInside(b);
      var s, l := LiveInside(c);
      if k == l {
        LaidEverywhere(k);
        SamePool(if k < 0 then blocks else retired[k].blocks, b, c);
      } else {
        PoolsApart(k, l);
      }
    }

    lemma LaidEverywhere(k: int)
      requires Current() && Retired() && -1 <= k < |retired| && (k < 0 ==> tmpPool != 0)
      ensures if k < 0 then Laid(blocks, tmpPool, tmpPoolPos)
              else Laid(retired[k].blocks, retired[k].region.base, retired[k].end)
    {
    }

    lemma PoolsApart(k: int, l: int)
      requires Retired() && -1 <= k < |retired| && -1 <= l < |retired| && k != l
      requires k < 0 || l < 0 ==> tmpPool != 0
      ensures
        var current := Region(tmpPool, tmpPoolMax);
        Apart(if k < 0 then current else retired[k].region, if l < 0 then current else retired[l].region)
    {
    }
  }

  lemma SamePool(blocks: seq<Block>, b: Block, c: Block)
    requires b in blocks && c in blocks && b != c && b.addr >= WORD && c.addr >= WORD
    requires forall i, j :: 0 <= i < j < |blocks| ==> Before(blocks[i], blocks[j])
    ensures Apart(Extent(b), Extent(c))
  {
    var i :| 0 <= i < |blocks| && blocks[i] == b;
    var j :| 0 <= j < |blocks| && blocks[j] == c;
    assert if i < j then Before(blocks[i], blocks[j]) else Before(blocks[j], blocks[i]);
  }
}
