/** The memory manager: first fit over the chain of blocks, splitting on
    allocation and joining with both neighbours on release. */
module Heap {
  import opened Ram
  import opened HeapChain
  import opened HeapBytes

  /** Units for a payload and its header, in the 32-bit sum and 16-bit result of the source. */
  function BytesToUnits(payload: word): (n: nat)
    ensures n < 0x1_0000
  {
    var total := (payload + HEADER) % WORD_MOD;
    (total + UNIT_SIZE - 1) % WORD_MOD / UNIT_SIZE % 0x1_0000
  }

  const MAX_PAYLOAD: nat := 0xFFFF * UNIT_SIZE - HEADER

  /** The units hold the payload and its header exactly up to MAX_PAYLOAD bytes,
      and then there are no fewer that would. */
  lemma UnitsHoldPayload(payload: word)
    ensures payload + HEADER <= UNIT_SIZE * BytesToUnits(payload) <==> payload <= MAX_PAYLOAD
    ensures payload <= MAX_PAYLOAD ==> UNIT_SIZE * BytesToUnits(payload) < payload + HEADER + UNIT_SIZE
  {
  }

  /** The heap starts at or after the end of the bump area exactly when that end is small enough. */
  lemma HeapAfterBump(bumpEnd: word)
    ensures UNIT_SIZE * BytesToUnits(bumpEnd) >= bumpEnd <==> bumpEnd <= MAX_PAYLOAD
  {
  }

  /** First the header of the part split off, then that of the block. The two may be one block. */
  method WriteSplit(ram: array<byte>, cur: word, split: word, req: nat, rest: nat) returns (ghost mid: Mem)
    requires cur + HEADER <= ram.Length && split + HEADER <= ram.Length && req < 0x1_0000 && rest < 0x1_0000
    requires cur == split || cur + HEADER <= split
    modifies ram
    ensures Wrote(old(ram[..]), mid, split, BlockHead(rest, true, BlockHeader(old(ram[..]), cur).next))
    ensures Wrote(mid, ram[..], cur, BlockHead(req, false, split))
  {
    ghost var m := ram[..];
    var next := LoadWord(ram, cur + 4);
    WriteHeader(ram, split, rest, 1, next);
    mid := ram[..];
    WriteHeader(ram, cur, req, 0, split);
  }

  class Heap {
    const ram: array<byte>
    var heap: word
    ghost var chain: Chain

    ghost predicate Valid()
      reads this, ram
    {
      WellFormed(chain) && Represents(ram[..], heap, chain)
    }

    /** bee_init: one free block over the whole heap, right after the bump area. */
    constructor (ram: array<byte>, bumpEnd: word)
      requires bumpEnd <= MAX_PAYLOAD
      requires UNIT_SIZE * BytesToUnits(bumpEnd) + HEAP_SIZE <= ram.Length <= WORD_MOD
      modifies ram
      ensures Valid() && this.ram == ram && chain == WHOLE
      ensures bumpEnd < heap == UNIT_SIZE * BytesToUnits(bumpEnd)
      ensures Framed(old(ram[..]), ram[..], heap, {})
    {
      this.ram := ram;
      UnitsHoldPayload(bumpEnd);
      heap := BytesToUnits(bumpEnd) * UNIT_SIZE;
      chain := WHOLE;
      new;
      WriteHeader(ram, heap, TOTAL_UNITS, 1, NULL);
      FirstChain(old(ram[..]), ram[..], heap);
    }

    /** The block at cur becomes live with req units, the rest split off as a
        free block. With req == 0 the block is split from itself. */
    method Claim(cur: word, req: nat, ghost k: nat)
      requires Valid() && k < |chain| && cur == Addr(heap, chain[k].start)
      requires chain[k].free && req <= chain[k].units
      modifies this`chain, ram
      ensures Framed(old(ram[..]), ram[..], heap, Live(old(chain)))
      ensures req >= 1 ==> Valid() && chain == Taken(old(chain), k, req)
      ensures req >= 1 ==> Untouched(old(ram[..]), ram[..], heap, Block(old(chain)[k].start, req, false))
      ensures req == 0 ==> chain == old(chain) && SelfLinked(ram[..], cur)
      ensures req == 0 ==> HeadersKept(old(ram[..]), ram[..], heap, chain, k)
    {
      ghost var m := ram[..];
      ghost var c := chain;
      BlockPlace(m, heap, c, k);
      var units := LoadHalf(ram, cur);
      if units > req {
        ghost var mid := WriteSplit(ram, cur, cur + req * UNIT_SIZE, req, units - req);
        if req >= 1 {
          SplitEffect(m, mid, ram[..], heap, c, k, req);
        } else {
          WroteTwice(m, mid, ram[..], cur, BlockHead(units, true, NextOf(heap, c, k)), BlockHead(0, false, cur));
          ZeroSplitEffect(m, ram[..], heap, c, k);
        }
      } else {
        WriteFree(ram, cur, 0);
        WholeEffect(m, ram[..], heap, c, k);
      }
      if req >= 1 {
        TakenTiles(c, k, req);
        chain := Taken(c, k, req);
      }
    }

    /** What the caller gets back for a placement. */
    function DataOf(r: Placement): nat
      reads this`heap
    {
      match r
      case Nowhere => NULL
      case At(u) => Payload(heap, u)
    }

    /** The heap's memory represents no chain any more. */
    ghost predicate Broken()
      reads this, ram
    {
      forall d | Tiles(d) :: !Represents(ram[..], heap, d)
    }

    method Kmalloc(size: word) returns (data: word, ghost r: Placement)
      requires Valid()
      modifies this`chain, ram
      ensures size == 0 ==> r == Nowhere
      ensures data == DataOf(r)
      ensures r == Nowhere ==> Valid() && chain == old(chain) && ram[..] == old(ram[..])
      ensures size != 0 && BytesToUnits(size) != 0 ==>
                Valid() && AllocStep(old(chain), BytesToUnits(size), chain, r)
      ensures r.At? && BytesToUnits(size) != 0 ==>
                Untouched(old(ram[..]), ram[..], heap, Block(r.unit, BytesToUnits(size), false))
      ensures size != 0 && BytesToUnits(size) == 0 ==>
                if exists b :: b in old(chain) && b.free then Broken() else r == Nowhere
      ensures Framed(old(ram[..]), ram[..], heap, Live(old(chain)))
    {
      r := Nowhere;
      if size == 0 {
        return 0, r;
      }
      var req := BytesToUnits(size);
      var cur := heap;
      ghost var k := 0;
      ghost var m := ram[..];
      while cur != NULL
        invariant k <= |chain|
        invariant Valid() && chain == old(chain) && ram[..] == m
        invariant cur == if k < |chain| then Addr(heap, chain[k].start) else NULL
        invariant forall i | 0 <= i < k :: !(chain[i].free && chain[i].units >= req)
        decreases |chain| - k
      {
        BlockPlace(m, heap, chain, k);
        var free := LoadByte(ram, cur + 2);
        var units := LoadHalf(ram, cur);
        if free != 0 && units >= req {
          ghost var c := chain;
          Claim(cur, req, k);
          r := At(c[k].start);
          if req >= 1 {
            TakenIsAllocStep(c, k, req);
          } else {
            ZeroBreaks(m, c, k);
          }
          return cur + HEADER, r;
        }
        cur := LoadWord(ram, cur + 4);
        k := k + 1;
      }
      data := NULL;
      if req >= 1 {
        NoFitNoWindow(chain, req);
      }
    }

    /** Joins block k with its free successor. */
    method JoinNext(block: word, ghost k: nat)
      requires Tiles(chain) && Represents(ram[..], heap, chain)
      requires k < |chain| && block == Addr(heap, chain[k].start)
      modifies this`chain, ram
      ensures Tiles(old(chain)) && chain == JoinedNext(old(chain), k)
      ensures Represents(ram[..], heap, chain)
      ensures Framed(old(ram[..]), ram[..], heap, Live(old(chain)))
    {
      ghost var m := ram[..];
      ghost var c := chain;
      BlockPlace(m, heap, c, k);
      var next := LoadWord(ram, block + 4);
      if next != NULL {
        BlockPlace(m, heap, c, k + 1);
        var free := LoadByte(ram, next + 2);
        if free != 0 {
          Swallow(block, next, k);
        }
      }
    }

    /** A block takes over the units and the successor of the next one. */
    method Swallow(block: word, next: word, ghost k: nat)
      requires Tiles(chain) && Represents(ram[..], heap, chain)
      requires k + 1 < |chain| && block == Addr(heap, chain[k].start) && next == Addr(heap, chain[k + 1].start)
      modifies this`chain, ram
      ensures chain == Merged(old(chain), k)
      ensures Represents(ram[..], heap, chain)
      ensures Framed(old(ram[..]), ram[..], heap, Live(old(chain)))
    {
      ghost var m := ram[..];
      ghost var c := chain;
      BlockPlace(m, heap, c, k);
      BlockPlace(m, heap, c, k + 1);
      var units := LoadHalf(ram, block);
      var more := LoadHalf(ram, next);
      var after := LoadWord(ram, next + 4);
      WriteUnitsNext(ram, block, (units + more) % 0x1_0000, after);
      MergeEffect(m, ram[..], heap, c, k);
      chain := Merged(c, k);
    }

    /** Joins the block just marked free with its neighbours. */
    method JoinBoth(block: word, ghost m: Mem, ghost c: Chain, ghost k: nat)
      requires chain == c && WellFormed(c) && k < |c| && !c[k].free && block == Addr(heap, c[k].start)
      requires Represents(ram[..], heap, Freed(c, k)) && Framed(m, ram[..], heap, Live(c))
      modifies this`chain, ram
      ensures Valid() && FreeStep(c, c[k], chain)
      ensures Framed(m, ram[..], heap, Live(chain))
    {
      ghost var live := Live(c) - {c[k]};
      ReleasedStages(c, k);
      FreedLive(c, k);
      ghost var m1 := ram[..];
      FramedSub(m, m1, heap, Live(c), live);
      chain := Freed(c, k);
      JoinNext(block, k);
      FramedTrans(m, m1, ram[..], heap, live);
      ghost var m2 := ram[..];
      JoinPrevious(block, k);
      FramedTrans(m, m2, ram[..], heap, live);
    }

    method Kfree(ptr: word, ghost k: nat) returns (spins: bool)
      requires Valid()
      requires ptr != NULL ==> k < |chain| && ptr == Payload(heap, chain[k].start)
      modifies this`chain, ram
      ensures Valid()
      ensures spins <==> ptr != NULL && old(chain)[k].free
      ensures ptr == NULL || spins ==> chain == old(chain) && ram[..] == old(ram[..])
      ensures ptr != NULL && !spins ==> FreeStep(old(chain), old(chain)[k], chain)
      ensures Framed(old(ram[..]), ram[..], heap, Live(chain))
    {
      if ptr == NULL {
        return false;
      }
      ghost var m := ram[..];
      ghost var c := chain;
      BlockPlace(m, heap, c, k);
      var block := ptr - HEADER;
      var free := LoadByte(ram, block + 2);
      if free != 0 {
        return true;
      }
      WriteFree(ram, block, 1);
      FreedEffect(m, ram[..], heap, c, k);
      JoinBoth(block, m, c, k);
      spins := false;
    }

    /** The walk from the heap's start to the block, then the join with a free predecessor. */
    method JoinPrevious(block: word, ghost k: nat)
      requires Tiles(chain) && Represents(ram[..], heap, chain)
      requires k < |chain| && block == Addr(heap, chain[k].start)
      modifies this`chain, ram
      ensures chain == JoinedPrevious(old(chain), k)
      ensures Represents(ram[..], heap, chain)
      ensures Framed(old(ram[..]), ram[..], heap, Live(old(chain)))
    {
      ghost var m := ram[..];
      ghost var c := chain;
      var last := NULL;
      var cur := heap;
      ghost var i := 0;
      while cur != block
        invariant i <= k && chain == c && ram[..] == m
        invariant cur == Addr(heap, c[i].start)
        invariant last == if i == 0 then NULL else Addr(heap, c[i - 1].start)
        decreases k - i
      {
        if i == k {
          assert false;
        }
        BlockPlace(m, heap, c, i);
        last := cur;
        cur := LoadWord(ram, cur + 4);
        i := i + 1;
      }
      if i < k {
        HeadersApart(heap, c, i, k);
        assert false;
      }
      if last != NULL {
        BlockPlace(m, heap, c, k - 1);
        var free := LoadByte(ram, last + 2);
        if free != 0 {
          Swallow(last, block, k - 1);
        }
      }
    }

    lemma ZeroBreaks(m: Mem, c: Chain, k: nat)
      requires Represents(m, heap, c) && Tiles(c) && k < |c|
      requires HeadersKept(m, ram[..], heap, c, k) && SelfLinked(ram[..], Addr(heap, c[k].start))
      ensures Broken()
    {
      forall d | Tiles(d)
        ensures !Represents(ram[..], heap, d)
      {
        SelfLinkedIsBroken(m, ram[..], heap, c, k, d);
      }
    }
  }
}
