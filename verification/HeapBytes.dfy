/** How a chain of heap blocks lies in memory: an 8-byte header at the start of
    every block (units, free flag, one pad byte, address of the next header),
    then the payload. */
module HeapBytes {
  import opened Ram
  import opened HeapChain

  const HEAP_SIZE: nat := 0x10_0000
  const UNIT_SIZE: nat := 64
  const HEADER: nat := 8
  const NULL: word := 0

  function Addr(base: nat, u: nat): nat { base + UNIT_SIZE * u }

  function Payload(base: nat, u: nat): nat { Addr(base, u) + HEADER }

  datatype BlockHead = BlockHead(units: nat, free: bool, next: nat)

  function BlockHeader(m: Mem, p: nat): BlockHead
    requires p + HEADER <= |m|
  {
    BlockHead(HalfAt(m, p), m[p + 2] != 0, WordAt(m, p + 4))
  }

  function NextOf(base: nat, c: Chain, i: nat): nat
    requires i < |c|
  {
    if i + 1 < |c| then Addr(base, c[i + 1].start) else NULL
  }

  /** The header of block i is in memory. */
  ghost predicate BlockAt(m: Mem, base: nat, c: Chain, i: nat)
    requires i < |c|
  {
    var p := Addr(base, c[i].start);
    p + HEADER <= |m| && BlockHeader(m, p) == BlockHead(c[i].units, c[i].free, NextOf(base, c, i))
  }

  ghost predicate Represents(m: Mem, base: nat, c: Chain) {
    && 0 < base && base + HEAP_SIZE <= |m| <= WORD_MOD
    && forall i | 0 <= i < |c| :: BlockAt(m, base, c, i)
  }

  ghost predicate InPayload(base: nat, b: Block, a: int) {
    Payload(base, b.start) <= a < Addr(base, b.End())
  }

  /** What an operation promises about everything but the headers: no byte outside
      the heap and no byte of a live payload differs. */
  ghost predicate Framed(m: Mem, m': Mem, base: nat, live: set<Block>) {
    && SameOutside(m, m', base, base + HEAP_SIZE)
    && forall b, a: nat | b in live && InPayload(base, b, a) && a < |m| :: m'[a] == m[a]
  }

  /** The payload of the block has the bytes it had. */
  ghost predicate Untouched(m: Mem, m': Mem, base: nat, b: Block) {
    |m| == |m'| && forall a: nat | InPayload(base, b, a) && a < |m| :: m'[a] == m[a]
  }

  /** From m to m' the header at p became h, and no other byte changed. */
  ghost predicate Wrote(m: Mem, m': Mem, p: nat, h: BlockHead) {
    p + HEADER <= |m| == |m'| && BlockHeader(m', p) == h && SameOutside(m, m', p, p + HEADER)
  }

  // ----- writing one header, field by field

  method WriteHeader(ram: array<byte>, p: nat, units: nat, free: byte, next: word)
    requires p + HEADER <= ram.Length && units < 0x1_0000
    modifies ram
    ensures Wrote(old(ram[..]), ram[..], p, BlockHead(units, free != 0, next))
  {
    StoreHalf(ram, p, units);
    StoreByte(ram, p + 2, free);
    StoreWord(ram, p + 4, next);
  }

  method WriteFree(ram: array<byte>, p: nat, free: byte)
    requires p + HEADER <= ram.Length
    modifies ram
    ensures var h := BlockHeader(old(ram[..]), p);
            Wrote(old(ram[..]), ram[..], p, h.(free := free != 0))
  {
    ghost var m := ram[..];
    StoreByte(ram, p + 2, free);
    assert HalfAt(ram[..], p) == HalfAt(m, p) && WordAt(ram[..], p + 4) == WordAt(m, p + 4);
  }

  method WriteUnitsNext(ram: array<byte>, p: nat, units: nat, next: word)
    requires p + HEADER <= ram.Length && units < 0x1_0000
    modifies ram
    ensures var h := BlockHeader(old(ram[..]), p);
            Wrote(old(ram[..]), ram[..], p, BlockHead(units, h.free, next))
  {
    StoreHalf(ram, p, units);
    StoreWord(ram, p + 4, next);
  }

  lemma WroteTwice(m: Mem, m1: Mem, m2: Mem, p: nat, h1: BlockHead, h2: BlockHead)
    requires Wrote(m, m1, p, h1) && Wrote(m1, m2, p, h2)
    ensures Wrote(m, m2, p, h2)
  {
  }

  /** The headers at p agree. */
  ghost predicate SameHeader(m: Mem, m': Mem, p: nat) {
    p + HEADER <= |m| == |m'| && BlockHeader(m', p) == BlockHeader(m, p)
  }

  lemma HeaderKept(m: Mem, m': Mem, p: nat, lo: nat, hi: nat)
    requires SameOutside(m, m', lo, hi)
    requires p + HEADER <= |m| && (p + HEADER <= lo || hi <= p)
    ensures SameHeader(m, m', p)
  {
    assert HalfAt(m', p) == HalfAt(m, p);
    assert WordAt(m', p + 4) == WordAt(m, p + 4);
  }

  // ----- chains in memory

  lemma BlockPlace(m: Mem, base: nat, c: Chain, i: nat)
    requires Represents(m, base, c) && Tiles(c) && i < |c|
    ensures Addr(base, c[i].start) + UNIT_SIZE <= Addr(base, c[i].End()) <= base + HEAP_SIZE <= |m|
    ensures BlockHeader(m, Addr(base, c[i].start)) == BlockHead(c[i].units, c[i].free, NextOf(base, c, i))
  {
    assert BlockAt(m, base, c, i);
    InHeap(c, i);
  }

  lemma HeadersApart(base: nat, c: Chain, i: nat, k: nat)
    requires Tiles(c) && i < |c| && k < |c| && i != k
    ensures Addr(base, c[i].start) + UNIT_SIZE <= Addr(base, c[k].start)
         || Addr(base, c[k].start) + UNIT_SIZE <= Addr(base, c[i].start)
  {
    if i < k {
      Ordered(c, i, k);
    } else {
      Ordered(c, k, i);
    }
  }

  /** Every header of the chain but that of block k is as before. */
  ghost predicate HeadersKept(m: Mem, m': Mem, base: nat, c: Chain, k: int) {
    |m| == |m'| && forall i | 0 <= i < |c| && i != k :: SameHeader(m, m', Addr(base, c[i].start))
  }

  lemma OneHeaderWritten(m: Mem, m': Mem, base: nat, c: Chain, k: nat, h: BlockHead)
    requires Represents(m, base, c) && Tiles(c) && k < |c|
    requires Wrote(m, m', Addr(base, c[k].start), h)
    ensures HeadersKept(m, m', base, c, k)
  {
    forall i | 0 <= i < |c| && i != k
      ensures SameHeader(m, m', Addr(base, c[i].start))
    {
      BlockPlace(m, base, c, i);
      HeadersApart(base, c, i, k);
      HeaderKept(m, m', Addr(base, c[i].start), Addr(base, c[k].start), Addr(base, c[k].start) + HEADER);
    }
  }

  /** A write inside block k, away from its header, leaves all headers alone. */
  lemma WrittenInside(m: Mem, m': Mem, base: nat, c: Chain, k: nat, lo: nat, hi: nat)
    requires Represents(m, base, c) && Tiles(c) && k < |c|
    requires Addr(base, c[k].start) + HEADER <= lo && hi <= Addr(base, c[k].End())
    requires SameOutside(m, m', lo, hi)
    ensures HeadersKept(m, m', base, c, -1)
  {
    forall i | 0 <= i < |c|
      ensures SameHeader(m, m', Addr(base, c[i].start))
    {
      BlockPlace(m, base, c, i);
      if i > k {
        Ordered(c, k, i);
      } else if i < k {
        Ordered(c, i, k);
      }
      HeaderKept(m, m', Addr(base, c[i].start), lo, hi);
    }
  }

  lemma BlockMoved(m: Mem, m': Mem, base: nat, c: Chain, i: nat, d: Chain, j: nat)
    requires i < |c| && j < |d| && BlockAt(m, base, c, i) && SameHeader(m, m', Addr(base, c[i].start))
    requires d[j] == c[i] && NextOf(base, d, j) == NextOf(base, c, i)
    ensures BlockAt(m', base, d, j)
  {
  }

  lemma UnchangedChain(m: Mem, m': Mem, base: nat, c: Chain)
    requires Represents(m, base, c) && HeadersKept(m, m', base, c, -1)
    ensures Represents(m', base, c)
  {
    forall i | 0 <= i < |c|
      ensures BlockAt(m', base, c, i)
    {
      BlockMoved(m, m', base, c, i, c, i);
    }
  }

  lemma FlaggedAt(m: Mem, m': Mem, base: nat, c: Chain, k: nat, free: bool)
    requires Represents(m, base, c) && k < |c| && HeadersKept(m, m', base, c, k)
    requires Addr(base, c[k].start) + HEADER <= |m'|
    requires BlockHeader(m', Addr(base, c[k].start)) == BlockHead(c[k].units, free, NextOf(base, c, k))
    ensures Represents(m', base, c[k := c[k].(free := free)])
  {
    var d := c[k := c[k].(free := free)];
    forall i | 0 <= i < |d|
      ensures BlockAt(m', base, d, i)
    {
      if i != k {
        BlockMoved(m, m', base, c, i, d, i);
      }
    }
  }

  lemma MergedAt(m: Mem, m': Mem, base: nat, c: Chain, k: nat)
    requires Represents(m, base, c) && k + 1 < |c| && HeadersKept(m, m', base, c, k)
    requires Addr(base, c[k].start) + HEADER <= |m'|
    requires BlockHeader(m', Addr(base, c[k].start))
          == BlockHead(c[k].units + c[k + 1].units, c[k].free, NextOf(base, c, k + 1))
    ensures Represents(m', base, Merged(c, k))
  {
    var d := Merged(c, k);
    forall i | 0 <= i < |d|
      ensures BlockAt(m', base, d, i)
    {
      if i != k {
        BlockMoved(m, m', base, c, if i < k then i else i + 1, d, i);
      }
    }
  }

  lemma TakenIndex(base: nat, c: Chain, k: nat, n: nat, i: nat)
    requires k < |c| && 1 <= n < c[k].units && i <= |c|
    ensures var d := Taken(c, k, n);
            && |d| == |c| + 1
            && d[k] == Block(c[k].start, n, false) && NextOf(base, d, k) == Addr(base, c[k].start + n)
            && d[k + 1] == Block(c[k].start + n, c[k].units - n, true) && NextOf(base, d, k + 1) == NextOf(base, c, k)
            && (i < k ==> d[i] == c[i] && NextOf(base, d, i) == NextOf(base, c, i))
            && (i > k + 1 ==> d[i] == c[i - 1] && NextOf(base, d, i) == NextOf(base, c, i - 1))
  {
  }

  /** With the header of the remainder in place, shortening block k splits it. */
  lemma SplitAt(m: Mem, m': Mem, base: nat, c: Chain, k: nat, n: nat)
    requires Represents(m, base, c) && k < |c| && 1 <= n < c[k].units && HeadersKept(m, m', base, c, k)
    requires Addr(base, c[k].start + n) + HEADER <= |m'|
    requires BlockHeader(m', Addr(base, c[k].start)) == BlockHead(n, false, Addr(base, c[k].start + n))
    requires BlockHeader(m', Addr(base, c[k].start + n)) == BlockHead(c[k].units - n, true, NextOf(base, c, k))
    ensures Represents(m', base, Taken(c, k, n))
  {
    var d := Taken(c, k, n);
    TakenIndex(base, c, k, n, 0);
    forall i | 0 <= i < |d|
      ensures BlockAt(m', base, d, i)
    {
      TakenIndex(base, c, k, n, i);
      if i != k && i != k + 1 {
        BlockMoved(m, m', base, c, if i < k then i else i - 1, d, i);
      }
    }
  }

  // ----- payloads

  /** A header write in block k, at its start or inside it while it is free. */
  lemma HeaderWriteFramed(m: Mem, m': Mem, base: nat, c: Chain, k: nat, u: nat, h: BlockHead)
    requires Tiles(c) && k < |c| && c[k].start <= u < c[k].End()
    requires u == c[k].start || c[k].free
    requires Wrote(m, m', Addr(base, u), h)
    ensures Framed(m, m', base, Live(c))
  {
    InHeap(c, k);
    forall b, a: nat | b in Live(c) && InPayload(base, b, a) && a < |m|
      ensures m'[a] == m[a]
    {
      var j :| 0 <= j < |c| && c[j] == b;
      if j < k {
        Ordered(c, j, k);
      } else if j > k {
        Ordered(c, k, j);
      }
    }
  }

  lemma FramedTrans(m: Mem, m': Mem, m'': Mem, base: nat, live: set<Block>)
    requires Framed(m, m', base, live) && Framed(m', m'', base, live)
    ensures Framed(m, m'', base, live)
  {
    forall b, a: nat | b in live && InPayload(base, b, a) && a < |m|
      ensures m''[a] == m[a]
    {
      assert m'[a] == m[a] && m''[a] == m'[a];
    }
  }

  lemma FramedSub(m: Mem, m': Mem, base: nat, live: set<Block>, fewer: set<Block>)
    requires Framed(m, m', base, live) && fewer <= live
    ensures Framed(m, m', base, fewer)
  {
  }

  /** Writes outside the heap leave the chain as it is. */
  lemma ChainKeptOutside(m: Mem, m': Mem, base: nat, c: Chain)
    requires Represents(m, base, c) && Tiles(c) && Agree(m, m', base, base + HEAP_SIZE)
    ensures Represents(m', base, c)
  {
    forall i | 0 <= i < |c|
      ensures BlockAt(m', base, c, i)
    {
      BlockPlace(m, base, c, i);
      assert HalfAt(m', Addr(base, c[i].start)) == HalfAt(m, Addr(base, c[i].start));
    }
  }

  /** What a client writes into a live payload leaves the chain as it is. */
  lemma PayloadWriteKeepsChain(m: Mem, base: nat, c: Chain, b: Block, a: nat, v: byte)
    requires Represents(m, base, c) && Tiles(c) && b in Live(c) && InPayload(base, b, a) && a < |m|
    ensures Represents(m[a := v], base, c)
  {
    var k :| 0 <= k < |c| && c[k] == b;
    WrittenInside(m, m[a := v], base, c, k, a, a + 1);
    UnchangedChain(m, m[a := v], base, c);
  }

  /** Live payloads do not overlap and lie inside the heap. */
  lemma PayloadsDisjoint(base: nat, c: Chain, b: Block, d: Block, a: nat)
    requires Tiles(c) && b in Live(c) && d in Live(c) && InPayload(base, b, a) && InPayload(base, d, a)
    ensures b == d && base <= a < base + HEAP_SIZE
  {
    var i :| 0 <= i < |c| && c[i] == b;
    var j :| 0 <= j < |c| && c[j] == d;
    InHeap(c, i);
    SamePlace(c, i, j);
  }

  // ----- the writes of the operations

  lemma FirstChain(m: Mem, m': Mem, base: nat)
    requires 0 < base && base + HEAP_SIZE <= |m| <= WORD_MOD
    requires Wrote(m, m', base, BlockHead(TOTAL_UNITS, true, NULL))
    ensures Represents(m', base, WHOLE) && Framed(m, m', base, {})
  {
    assert BlockAt(m', base, WHOLE, 0);
  }

  lemma WholeEffect(m: Mem, m': Mem, base: nat, c: Chain, k: nat)
    requires Represents(m, base, c) && Tiles(c) && k < |c| && c[k].free
    requires Wrote(m, m', Addr(base, c[k].start), BlockHead(c[k].units, false, NextOf(base, c, k)))
    ensures Represents(m', base, Taken(c, k, c[k].units)) && Framed(m, m', base, Live(c))
    ensures Untouched(m, m', base, Block(c[k].start, c[k].units, false))
  {
    OneHeaderWritten(m, m', base, c, k, BlockHead(c[k].units, false, NextOf(base, c, k)));
    FlaggedAt(m, m', base, c, k, false);
    TakenWhole(c, k);
    HeaderWriteFramed(m, m', base, c, k, c[k].start, BlockHead(c[k].units, false, NextOf(base, c, k)));
  }

  /** First the header of the remainder, then that of the block. */
  lemma SplitEffect(m: Mem, m1: Mem, m2: Mem, base: nat, c: Chain, k: nat, n: nat)
    requires Represents(m, base, c) && Tiles(c) && k < |c| && c[k].free && 1 <= n < c[k].units
    requires Wrote(m, m1, Addr(base, c[k].start + n), BlockHead(c[k].units - n, true, NextOf(base, c, k)))
    requires Wrote(m1, m2, Addr(base, c[k].start), BlockHead(n, false, Addr(base, c[k].start + n)))
    ensures Represents(m2, base, Taken(c, k, n)) && Framed(m, m2, base, Live(c))
    ensures Untouched(m, m2, base, Block(c[k].start, n, false))
  {
    var p := Addr(base, c[k].start);
    var q := Addr(base, c[k].start + n);
    var h1 := BlockHead(c[k].units - n, true, NextOf(base, c, k));
    var h2 := BlockHead(n, false, q);
    WrittenInside(m, m1, base, c, k, q, q + HEADER);
    UnchangedChain(m, m1, base, c);
    HeaderWriteFramed(m, m1, base, c, k, c[k].start + n, h1);
    OneHeaderWritten(m1, m2, base, c, k, h2);
    HeaderKept(m1, m2, q, p, p + HEADER);
    SplitAt(m1, m2, base, c, k, n);
    HeaderWriteFramed(m1, m2, base, c, k, c[k].start, h2);
    FramedTrans(m, m1, m2, base, Live(c));
  }

  /** The block at p is live, has no units, and is its own successor. */
  ghost predicate SelfLinked(m: Mem, p: nat) {
    p + HEADER <= |m| && BlockHeader(m, p) == BlockHead(0, false, p)
  }

  lemma ZeroSplitEffect(m: Mem, m': Mem, base: nat, c: Chain, k: nat)
    requires Represents(m, base, c) && Tiles(c) && k < |c| && c[k].free
    requires Wrote(m, m', Addr(base, c[k].start), BlockHead(0, false, Addr(base, c[k].start)))
    ensures SelfLinked(m', Addr(base, c[k].start)) && HeadersKept(m, m', base, c, k) && Framed(m, m', base, Live(c))
  {
    var h := BlockHead(0, false, Addr(base, c[k].start));
    OneHeaderWritten(m, m', base, c, k, h);
    HeaderWriteFramed(m, m', base, c, k, c[k].start, h);
  }

  lemma FreedEffect(m: Mem, m': Mem, base: nat, c: Chain, k: nat)
    requires Represents(m, base, c) && Tiles(c) && k < |c|
    requires Wrote(m, m', Addr(base, c[k].start), BlockHead(c[k].units, true, NextOf(base, c, k)))
    ensures Represents(m', base, Freed(c, k)) && Framed(m, m', base, Live(c))
  {
    var h := BlockHead(c[k].units, true, NextOf(base, c, k));
    OneHeaderWritten(m, m', base, c, k, h);
    FlaggedAt(m, m', base, c, k, true);
    HeaderWriteFramed(m, m', base, c, k, c[k].start, h);
  }

  lemma MergeEffect(m: Mem, m': Mem, base: nat, c: Chain, k: nat)
    requires Represents(m, base, c) && Tiles(c) && k + 1 < |c|
    requires Wrote(m, m', Addr(base, c[k].start),
                   BlockHead(c[k].units + c[k + 1].units, c[k].free, NextOf(base, c, k + 1)))
    ensures Represents(m', base, Merged(c, k)) && Framed(m, m', base, Live(c))
  {
    var h := BlockHead(c[k].units + c[k + 1].units, c[k].free, NextOf(base, c, k + 1));
    OneHeaderWritten(m, m', base, c, k, h);
    MergedAt(m, m', base, c, k);
    HeaderWriteFramed(m, m', base, c, k, c[k].start, h);
  }

  // ----- a self-linked block is the end of the allocator

  lemma {:induction false} SamePath(m: Mem, m': Mem, base: nat, c: Chain, d: Chain, k: nat, i: nat)
    requires Represents(m, base, c) && Represents(m', base, d) && Tiles(c) && Tiles(d)
    requires i <= k < |c| && HeadersKept(m, m', base, c, k)
    ensures i < |d| && d[i].start == c[i].start
  {
    if i > 0 {
      SamePath(m, m', base, c, d, k, i - 1);
      assert BlockAt(m, base, c, i - 1) && BlockAt(m', base, d, i - 1);
      assert SameHeader(m, m', Addr(base, c[i - 1].start));
      assert NextOf(base, d, i - 1) == NextOf(base, c, i - 1) != NULL;
    }
  }

  /** Once a block is self-linked, memory represents no chain at all. */
  lemma SelfLinkedIsBroken(m: Mem, m': Mem, base: nat, c: Chain, k: nat, d: Chain)
    requires Represents(m, base, c) && Tiles(c) && k < |c|
    requires HeadersKept(m, m', base, c, k) && SelfLinked(m', Addr(base, c[k].start))
    ensures !(Tiles(d) && Represents(m', base, d))
  {
    if Tiles(d) && Represents(m', base, d) {
      SamePath(m, m', base, c, d, k, k);
      BlockPlace(m', base, d, k);
    }
  }
}
