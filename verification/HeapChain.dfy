/** The heap as a chain of blocks of 64-byte units, without its bytes.
    What an allocation or a release means is said with the set of live blocks
    alone; the chain turns out to be a function of that set. */
module HeapChain {

  const TOTAL_UNITS: nat := 0x10_0000 / 64

  datatype Block = Block(start: nat, units: nat, free: bool) {
    function End(): nat { start + units }
  }

  type Chain = seq<Block>

  const WHOLE: Chain := [Block(0, TOTAL_UNITS, true)]

  /** The blocks lie end to end from unit 0 to the end of the heap. */
  ghost predicate Tiles(c: Chain) {
    && c != []
    && c[0].start == 0
    && c[|c| - 1].End() == TOTAL_UNITS
    && (forall i | 0 <= i < |c| :: c[i].units >= 1)
    && (forall i, j | 0 <= i < j < |c| && j == i + 1 :: c[j].start == c[i].End())
  }

  /** No two neighbours are both free. */
  ghost predicate Coalesced(c: Chain) {
    forall i, j | 0 <= i < j < |c| && j == i + 1 :: !(c[i].free && c[j].free)
  }

  ghost predicate WellFormed(c: Chain) {
    Tiles(c) && Coalesced(c)
  }

  ghost function Live(c: Chain): set<Block> {
    set b | b in c && !b.free
  }

  /** No live block holds unit u. */
  ghost predicate UnitFree(live: set<Block>, u: int) {
    0 <= u < TOTAL_UNITS && forall b | b in live :: !(b.start <= u < b.End())
  }

  /** n consecutive free units start at u. */
  ghost predicate Window(live: set<Block>, u: nat, n: nat) {
    forall v | u <= v < u + n :: UnitFree(live, v)
  }

  ghost predicate LowestWindow(live: set<Block>, u: nat, n: nat) {
    Window(live, u, n) && forall w: nat | w < u :: !Window(live, w, n)
  }

  // ----- where blocks and units are

  lemma {:induction false} Ordered(c: Chain, i: nat, j: nat)
    requires Tiles(c) && i < j < |c|
    ensures c[i].End() <= c[j].start
    decreases j
  {
    if i < j - 1 {
      Ordered(c, i, j - 1);
    }
    assert c[j].start == c[j - 1].End();
  }

  lemma InHeap(c: Chain, i: nat)
    requires Tiles(c) && i < |c|
    ensures c[i].start < c[i].End() <= TOTAL_UNITS
  {
    if i < |c| - 1 {
      Ordered(c, i, |c| - 1);
    }
  }

  /** Blocks that share a unit are the same block. */
  lemma SamePlace(c: Chain, i: nat, j: nat)
    requires Tiles(c) && i < |c| && j < |c|
    requires c[i].start < c[j].End() && c[j].start < c[i].End()
    ensures i == j
  {
    if i < j {
      Ordered(c, i, j);
    } else if j < i {
      Ordered(c, j, i);
    }
  }

  lemma {:induction false} BlockHolding(c: Chain, u: nat, hi: nat) returns (k: nat)
    requires Tiles(c) && hi < |c| && u < c[hi].End()
    ensures k < |c| && c[k].start <= u < c[k].End()
    decreases hi
  {
    if c[hi].start <= u {
      k := hi;
    } else {
      assert c[hi].start == c[hi - 1].End();
      k := BlockHolding(c, u, hi - 1);
    }
  }

  lemma UnitFreeIff(c: Chain, u: nat, k: nat)
    requires Tiles(c) && k < |c| && c[k].start <= u < c[k].End()
    ensures UnitFree(Live(c), u) <==> c[k].free
  {
    InHeap(c, k);
    if !c[k].free {
      assert c[k] in Live(c);
    }
    forall b | b in Live(c) && b.start <= u < b.End()
      ensures b == c[k]
    {
      var j :| 0 <= j < |c| && c[j] == b;
      SamePlace(c, j, k);
    }
  }

  // ----- windows are exactly what fits into one free block

  lemma BlockIsWindow(c: Chain, k: nat, n: nat)
    requires Tiles(c) && k < |c| && c[k].free && n <= c[k].units
    ensures Window(Live(c), c[k].start, n)
  {
    forall v | c[k].start <= v < c[k].start + n
      ensures UnitFree(Live(c), v)
    {
      UnitFreeIff(c, v, k);
    }
  }

  /** Needs coalescing: a window never spans two blocks. */
  lemma WindowInBlock(c: Chain, u: nat, n: nat) returns (k: nat)
    requires WellFormed(c) && n >= 1 && Window(Live(c), u, n)
    ensures k < |c| && c[k].free && c[k].start <= u && u + n <= c[k].End()
  {
    assert UnitFree(Live(c), u);
    k := BlockHolding(c, u, |c| - 1);
    UnitFreeIff(c, u, k);
    var e := c[k].End();
    if e < u + n {
      assert UnitFree(Live(c), u + n - 1);
      assert k + 1 < |c|;
      assert c[k + 1].start == e && !c[k + 1].free;
      UnitFreeIff(c, e, k + 1);
      assert false;
    }
  }

  /** The first free block that is large enough starts the lowest window. */
  lemma FirstFitIsLowest(c: Chain, k: nat, n: nat)
    requires WellFormed(c) && k < |c| && n >= 1
    requires c[k].free && c[k].units >= n
    requires forall i | 0 <= i < k :: !(c[i].free && c[i].units >= n)
    ensures LowestWindow(Live(c), c[k].start, n)
  {
    BlockIsWindow(c, k, n);
    forall w: nat | w < c[k].start && Window(Live(c), w, n)
      ensures false
    {
      var j := WindowInBlock(c, w, n);
      if j > k {
        Ordered(c, k, j);
      }
    }
  }

  lemma NoFitNoWindow(c: Chain, n: nat)
    requires WellFormed(c) && n >= 1
    requires forall i | 0 <= i < |c| :: !(c[i].free && c[i].units >= n)
    ensures forall u: nat :: !Window(Live(c), u, n)
  {
    forall u: nat | Window(Live(c), u, n)
      ensures false
    {
      var j := WindowInBlock(c, u, n);
    }
  }

  // ----- the chain is determined by the live blocks

  lemma SameBlock(c: Chain, d: Chain, k: nat)
    requires WellFormed(c) && WellFormed(d) && Live(c) == Live(d)
    requires k < |c| && k < |d| && c[k].start == d[k].start
    ensures c[k] == d[k]
  {
    LiveBlockShared(c, d, k);
    LiveBlockShared(d, c, k);
    if c[k].free && d[k].free {
      FreeBlockNotLonger(c, d, k);
      FreeBlockNotLonger(d, c, k);
    }
  }

  lemma LiveBlockShared(c: Chain, d: Chain, k: nat)
    requires WellFormed(c) && WellFormed(d) && Live(c) == Live(d)
    requires k < |c| && k < |d| && c[k].start == d[k].start
    ensures !c[k].free ==> c[k] == d[k]
  {
    if !c[k].free {
      assert c[k] in Live(c);
      var j :| 0 <= j < |d| && d[j] == c[k];
      SamePlace(d, j, k);
    }
  }

  lemma FreeBlockNotLonger(c: Chain, d: Chain, k: nat)
    requires WellFormed(c) && WellFormed(d) && Live(c) == Live(d)
    requires k < |c| && k < |d| && c[k].start == d[k].start && c[k].free && d[k].free
    ensures d[k].units <= c[k].units
  {
    BlockIsWindow(d, k, d[k].units);
    var j := WindowInBlock(c, d[k].start, d[k].units);
    SamePlace(c, j, k);
  }

  lemma {:induction false} SamePrefix(c: Chain, d: Chain, k: nat)
    requires WellFormed(c) && WellFormed(d) && Live(c) == Live(d)
    requires k <= |c| && k <= |d|
    ensures c[..k] == d[..k]
  {
    if k > 0 {
      SamePrefix(c, d, k - 1);
      if k > 1 {
        assert c[k - 2] == c[..k - 1][k - 2] == d[k - 2];
        assert c[k - 1].start == c[k - 2].End() == d[k - 1].start;
      }
      SameBlock(c, d, k - 1);
      assert c[..k] == c[..k - 1] + [c[k - 1]] && d[..k] == d[..k - 1] + [d[k - 1]];
    }
  }

  lemma NotShorter(c: Chain, d: Chain)
    requires WellFormed(c) && WellFormed(d) && Live(c) == Live(d)
    ensures |d| <= |c|
  {
    var k := |c|;
    if k < |d| {
      SamePrefix(c, d, k);
      assert c[k - 1] == c[..k][k - 1] == d[k - 1];
      assert d[k].start == d[k - 1].End();
      InHeap(d, k);
    }
  }

  /** Two well-formed chains with the same live blocks are equal. */
  lemma Canonical(c: Chain, d: Chain)
    requires WellFormed(c) && WellFormed(d) && Live(c) == Live(d)
    ensures c == d
  {
    NotShorter(c, d);
    NotShorter(d, c);
    SamePrefix(c, d, |c|);
    assert c == c[..|c|] && d == d[..|c|];
  }

  // ----- what the allocator does to the chain

  /** Block k becomes live with n units; what is left over stays free after it. */
  function Taken(c: Chain, k: nat, n: nat): Chain
    requires k < |c| && n <= c[k].units
  {
    var b := c[k];
    c[..k] + [Block(b.start, n, false)]
    + (if b.units > n then [Block(b.start + n, b.units - n, true)] else [])
    + c[k + 1..]
  }

  /** Block k swallows block k + 1. */
  function Merged(c: Chain, k: nat): Chain
    requires k + 1 < |c|
  {
    c[..k] + [Block(c[k].start, c[k].units + c[k + 1].units, c[k].free)] + c[k + 2..]
  }

  function Freed(c: Chain, k: nat): Chain
    requires k < |c|
  {
    c[k := c[k].(free := true)]
  }

  function JoinedNext(c: Chain, k: nat): Chain
    requires k < |c|
  {
    if k + 1 < |c| && c[k + 1].free then Merged(c, k) else c
  }

  function JoinedPrevious(c: Chain, k: nat): Chain
    requires k < |c|
  {
    if k > 0 && c[k - 1].free then Merged(c, k - 1) else c
  }

  function Released(c: Chain, k: nat): Chain
    requires k < |c|
  {
    JoinedPrevious(JoinedNext(Freed(c, k), k), k)
  }

  lemma TakenWhole(c: Chain, k: nat)
    requires k < |c|
    ensures Taken(c, k, c[k].units) == c[k := c[k].(free := false)]
  {
  }

  lemma TakenWholeTiles(c: Chain, k: nat)
    requires WellFormed(c) && k < |c| && c[k].free
    ensures WellFormed(Taken(c, k, c[k].units))
  {
    TakenWhole(c, k);
  }

  lemma TakenPartTiles(c: Chain, k: nat, n: nat)
    requires WellFormed(c) && k < |c| && c[k].free && 1 <= n < c[k].units
    ensures WellFormed(Taken(c, k, n))
  {
    var t := Taken(c, k, n);
    assert |t| == |c| + 1 && t[k] == Block(c[k].start, n, false);
    assert t[k + 1] == Block(c[k].start + n, c[k].units - n, true);
    assert forall i | 0 <= i < k :: t[i] == c[i];
    assert forall i | k + 2 <= i < |t| :: t[i] == c[i - 1];
    forall i | 0 <= i < |t| - 1
      ensures t[i + 1].start == t[i].End() && !(t[i].free && t[i + 1].free)
    {
      if i < k {
        assert c[i + 1].start == c[i].End();
      } else if i > k {
        assert c[i].start == c[i - 1].End() && !(c[i - 1].free && c[i].free);
      }
    }
  }

  lemma TakenTiles(c: Chain, k: nat, n: nat)
    requires WellFormed(c) && k < |c| && c[k].free && 1 <= n <= c[k].units
    ensures WellFormed(Taken(c, k, n))
  {
    if n == c[k].units {
      TakenWholeTiles(c, k);
    } else {
      TakenPartTiles(c, k, n);
    }
  }

  lemma TakenLive(c: Chain, k: nat, n: nat)
    requires WellFormed(c) && k < |c| && c[k].free && 1 <= n <= c[k].units
    ensures Live(Taken(c, k, n)) == Live(c) + {Block(c[k].start, n, false)}
    ensures Block(c[k].start, n, false) !in Live(c)
  {
    var t := Taken(c, k, n);
    var b := Block(c[k].start, n, false);
    assert c == c[..k] + [c[k]] + c[k + 1..];
    forall x
      ensures x in Live(t) <==> x in Live(c) + {b}
    {
    }
    if b in Live(c) {
      var j :| 0 <= j < |c| && c[j] == b;
      SamePlace(c, j, k);
    }
  }

  lemma MergedTiles(c: Chain, k: nat)
    requires Tiles(c) && k + 1 < |c|
    ensures Tiles(Merged(c, k))
  {
    var t := Merged(c, k);
    assert forall i | 0 <= i < k :: t[i] == c[i];
    assert forall i | k + 1 <= i < |t| :: t[i] == c[i + 1];
  }

  lemma MergedLive(c: Chain, k: nat)
    requires k + 1 < |c| && c[k].free && c[k + 1].free
    ensures Live(Merged(c, k)) == Live(c)
  {
    assert c == c[..k] + [c[k], c[k + 1]] + c[k + 2..];
  }

  lemma FreedLive(c: Chain, k: nat)
    requires Tiles(c) && k < |c|
    ensures Tiles(Freed(c, k))
    ensures Live(Freed(c, k)) == Live(c) - {c[k]}
  {
    var f := Freed(c, k);
    forall x
      ensures x in Live(f) <==> x in Live(c) - {c[k]}
    {
      if x in Live(f) {
        var j :| 0 <= j < |f| && f[j] == x;
        assert c[j] == x;
        if x == c[k] {
          SamePlace(c, j, k);
        }
      }
      if x in Live(c) && x != c[k] {
        var j :| 0 <= j < |c| && c[j] == x;
        assert f[j] == x;
      }
    }
  }

  /** Only the neighbours of k may be free neighbours. */
  ghost predicate CoalescedBut(c: Chain, k: nat) {
    forall i, j | 0 <= i < j < |c| && j == i + 1 && i != k && j != k :: !(c[i].free && c[j].free)
  }

  lemma ReleasedStages(c: Chain, k: nat)
    requires WellFormed(c) && k < |c| && !c[k].free
    ensures Tiles(JoinedNext(Freed(c, k), k)) && k < |JoinedNext(Freed(c, k), k)|
    ensures Live(JoinedNext(Freed(c, k), k)) == Live(c) - {c[k]}
    ensures WellFormed(Released(c, k))
    ensures Live(Released(c, k)) == Live(c) - {c[k]}
  {
    FreedLive(c, k);
    var f := Freed(c, k);
    assert CoalescedBut(f, k);
    var j := JoinedNext(f, k);
    JoinNextStage(f, k);
    JoinPreviousStage(j, k);
  }

  lemma JoinNextStage(f: Chain, k: nat)
    requires Tiles(f) && k < |f| && f[k].free && CoalescedBut(f, k)
    ensures k < |JoinedNext(f, k)| && JoinedNext(f, k)[k].free
    ensures Tiles(JoinedNext(f, k)) && Live(JoinedNext(f, k)) == Live(f)
    ensures CoalescedBut(JoinedNext(f, k), k)
    ensures var j := JoinedNext(f, k); k + 1 < |j| ==> !j[k + 1].free
  {
    var j := JoinedNext(f, k);
    if k + 1 < |f| && f[k + 1].free {
      MergedTiles(f, k);
      MergedLive(f, k);
      assert forall i | 0 <= i < k :: j[i] == f[i];
      assert forall i | k + 1 <= i < |j| :: j[i] == f[i + 1];
    }
  }

  lemma MergedCoalesced(j: Chain, k: nat)
    requires 0 < k < |j| && j[k - 1].free && CoalescedBut(j, k)
    requires k + 1 < |j| ==> !j[k + 1].free
    ensures Coalesced(Merged(j, k - 1))
  {
    var p := Merged(j, k - 1);
    forall i | 0 <= i < |p| - 1
      ensures !(p[i].free && p[i + 1].free)
    {
      if i >= k {
        assert p[i] == j[i + 1] && p[i + 1] == j[i + 2];
      } else if i == k - 1 {
        assert p[k] == j[k + 1];
      } else {
        assert p[i] == j[i];
        assert !(j[i].free && j[i + 1].free);
      }
    }
  }

  lemma JoinPreviousStage(j: Chain, k: nat)
    requires Tiles(j) && k < |j| && j[k].free && CoalescedBut(j, k)
    requires k + 1 < |j| ==> !j[k + 1].free
    ensures WellFormed(JoinedPrevious(j, k)) && Live(JoinedPrevious(j, k)) == Live(j)
  {
    if k > 0 && j[k - 1].free {
      MergedTiles(j, k - 1);
      MergedLive(j, k - 1);
      MergedCoalesced(j, k);
    }
  }

  // ----- the meaning of an allocation and of a release

  datatype Placement = Nowhere | At(unit: nat)

  /** n units are asked for: the lowest window of n free units becomes live,
      and nothing happens exactly when there is no such window. */
  ghost predicate AllocStep(c: Chain, n: nat, c': Chain, r: Placement) {
    && WellFormed(c')
    && match r
       case Nowhere => c' == c && forall u: nat :: !Window(Live(c), u, n)
       case At(u) =>
         && LowestWindow(Live(c), u, n)
         && Block(u, n, false) !in Live(c)
         && Live(c') == Live(c) + {Block(u, n, false)}
  }

  ghost predicate FreeStep(c: Chain, b: Block, c': Chain) {
    WellFormed(c') && b in Live(c) && Live(c') == Live(c) - {b}
  }

  lemma TakenIsAllocStep(c: Chain, k: nat, n: nat)
    requires WellFormed(c) && k < |c| && n >= 1
    requires c[k].free && c[k].units >= n
    requires forall i | 0 <= i < k :: !(c[i].free && c[i].units >= n)
    ensures AllocStep(c, n, Taken(c, k, n), At(c[k].start))
  {
    TakenTiles(c, k, n);
    TakenLive(c, k, n);
    FirstFitIsLowest(c, k, n);
  }

  lemma ReleasedIsFreeStep(c: Chain, k: nat)
    requires WellFormed(c) && k < |c| && !c[k].free
    ensures FreeStep(c, c[k], Released(c, k))
  {
    ReleasedStages(c, k);
  }
}
