/** What holds over whole runs of the memory manager. */
module HeapRuns {
  import opened Ram
  import opened HeapChain
  import opened HeapBytes
  import opened Heap

  /** Units asked for, or the unit at which the block to release starts. */
  datatype Op = Alloc(units: nat) | Free(unit: nat)

  // ----- one operation

  function FirstFit(c: Chain, n: nat): (k: nat)
    ensures k <= |c|
    ensures k < |c| ==> c[k].free && c[k].units >= n
    ensures forall i | 0 <= i < k :: !(c[i].free && c[i].units >= n)
  {
    if c == [] then 0 else if c[0].free && c[0].units >= n then 0 else FirstFit(c[1..], n) + 1
  }

  function IndexOf(c: Chain, u: nat): (k: nat)
    ensures k <= |c|
    ensures k < |c| ==> c[k].start == u
    ensures forall i | 0 <= i < k :: c[i].start != u
  {
    if c == [] || c[0].start == u then 0 else IndexOf(c[1..], u) + 1
  }

  ghost predicate IsLive(c: Chain, u: nat) {
    var k := IndexOf(c, u);
    k < |c| && !c[k].free
  }

  /** First fit and split, or mark free and join; nothing here asks what chain comes out. */
  function Next(c: Chain, op: Op): Chain {
    match op
    case Alloc(n) =>
      var k := FirstFit(c, n);
      if k < |c| then Taken(c, k, n) else c
    case Free(u) =>
      var k := IndexOf(c, u);
      if k < |c| && !c[k].free then Released(c, k) else c
  }

  function Placed(c: Chain, n: nat): Placement {
    var k := FirstFit(c, n);
    if k < |c| then At(c[k].start) else Nowhere
  }

  lemma AllocIsStep(c: Chain, n: nat)
    requires WellFormed(c) && n >= 1
    ensures AllocStep(c, n, Next(c, Alloc(n)), Placed(c, n))
  {
    if FirstFit(c, n) < |c| {
      TakenIsAllocStep(c, FirstFit(c, n), n);
    } else {
      NoFitNoWindow(c, n);
    }
  }

  lemma FreeIsStep(c: Chain, u: nat)
    requires WellFormed(c) && IsLive(c, u)
    ensures FreeStep(c, c[IndexOf(c, u)], Next(c, Free(u)))
  {
    ReleasedIsFreeStep(c, IndexOf(c, u));
  }

  /** A request has one outcome: the one of first fit. */
  lemma AllocDetermined(c: Chain, n: nat, c': Chain, r: Placement)
    requires WellFormed(c) && n >= 1 && AllocStep(c, n, c', r)
    ensures r == Placed(c, n) && c' == Next(c, Alloc(n))
  {
    AllocIsStep(c, n);
    AllocDeterministic(c, n, c', r, Next(c, Alloc(n)), Placed(c, n));
  }

  lemma AllocDeterministic(c: Chain, n: nat, c1: Chain, r1: Placement, c2: Chain, r2: Placement)
    requires WellFormed(c) && n >= 1 && AllocStep(c, n, c1, r1) && AllocStep(c, n, c2, r2)
    ensures r1 == r2 && c1 == c2
  {
    if r1.At? && r2.At? {
      assert r1.unit == r2.unit;
      Canonical(c1, c2);
    }
  }

  lemma FreeDetermined(c: Chain, k: nat, c': Chain)
    requires WellFormed(c) && k < |c| && !c[k].free && FreeStep(c, c[k], c')
    ensures IsLive(c, c[k].start) && c' == Next(c, Free(c[k].start))
  {
    StartIndex(c, k);
    FreeIsStep(c, c[k].start);
    Canonical(c', Next(c, Free(c[k].start)));
  }

  lemma StartIndex(c: Chain, k: nat)
    requires Tiles(c) && k < |c|
    ensures IndexOf(c, c[k].start) == k
  {
    var i := IndexOf(c, c[k].start);
    if i < k {
      Ordered(c, i, k);
    }
  }

  // ----- runs from bee_init

  function After(ops: seq<Op>): Chain {
    if ops == [] then WHOLE else Next(After(ops[..|ops| - 1]), ops[|ops| - 1])
  }

  ghost predicate Asked(ops: seq<Op>) { forall i | 0 <= i < |ops| :: ops[i].Alloc? ==> ops[i].units >= 1 }

  function UnitsOf(c: Chain): nat {
    if c == [] then 0 else UnitsOf(c[..|c| - 1]) + c[|c| - 1].units
  }

  lemma {:induction false} UnitsUpTo(c: Chain, i: nat)
    requires Tiles(c) && 1 <= i <= |c|
    ensures UnitsOf(c[..i]) == c[i - 1].End()
  {
    assert c[..i][..i - 1] == c[..i - 1];
    if i > 1 {
      UnitsUpTo(c, i - 1);
      assert c[i - 1].start == c[i - 2].End();
    }
  }

  lemma UnitsTotal(c: Chain)
    requires Tiles(c)
    ensures UnitsOf(c) == TOTAL_UNITS
  {
    UnitsUpTo(c, |c|);
    assert c[..|c|] == c;
  }

  lemma NextKeepsChain(c: Chain, op: Op)
    requires WellFormed(c) && (op.Alloc? ==> op.units >= 1)
    ensures WellFormed(Next(c, op))
  {
    match op
    case Alloc(n) => AllocIsStep(c, n);
    case Free(u) =>
      if IsLive(c, u) {
        FreeIsStep(c, u);
      }
  }

  /** After any requests and releases from the start on, the blocks lie end to end over the whole heap,
      their units sum up to it, and no two neighbours are both free. */
  lemma {:induction false} RunKeepsChain(ops: seq<Op>)
    requires Asked(ops)
    ensures WellFormed(After(ops)) && UnitsOf(After(ops)) == TOTAL_UNITS
  {
    if ops != [] {
      RunKeepsChain(ops[..|ops| - 1]);
      NextKeepsChain(After(ops[..|ops| - 1]), ops[|ops| - 1]);
    }
    UnitsTotal(After(ops));
  }

  /** However two runs went: the same blocks live means the same chain. */
  lemma RunsAgree(ops: seq<Op>, qs: seq<Op>)
    requires Asked(ops) && Asked(qs) && Live(After(ops)) == Live(After(qs))
    ensures After(ops) == After(qs)
  {
    RunKeepsChain(ops);
    RunKeepsChain(qs);
    Canonical(After(ops), After(qs));
  }

  // ----- the manager itself

  datatype Request = Kmalloc(size: word) | Kfree(unit: nat)

  function OpOf(r: Request): Op {
    match r
    case Kmalloc(size) => Alloc(BytesToUnits(size))
    case Kfree(u) => Free(u)
  }

  function OpsOf(rs: seq<Request>): (ops: seq<Op>)
    ensures |ops| == |rs| && forall i | 0 <= i < |rs| :: ops[i] == OpOf(rs[i])
  {
    seq(|rs|, i requires 0 <= i < |rs| => OpOf(rs[i]))
  }

  /** What the manager asks of its callers: sizes that do not wrap, and releases of live blocks. */
  ghost predicate Fair(rs: seq<Request>) {
    forall i | 0 <= i < |rs| ::
      match rs[i]
      case Kmalloc(size) => 1 <= size <= MAX_PAYLOAD
      case Kfree(u) => IsLive(After(OpsOf(rs[..i])), u)
  }

  /** The bytes of the manager follow such a run, whatever its length. */
  method Serve(heap: Heap, rs: seq<Request>)
    requires heap.Valid() && heap.chain == WHOLE && Fair(rs)
    modifies heap, heap.ram
    ensures heap.Valid() && heap.heap == old(heap.heap) && heap.chain == After(OpsOf(rs))
  {
    assert OpsOf(rs[..0]) == [];
    for i := 0 to |rs|
      invariant heap.Valid() && heap.heap == old(heap.heap) && heap.chain == After(OpsOf(rs[..i]))
    {
      ServeOne(heap, rs[i]);
      assert OpsOf(rs[..i + 1])[..i] == OpsOf(rs[..i]);
    }
    assert rs[..|rs|] == rs;
  }

  method ServeOne(heap: Heap, r: Request)
    requires heap.Valid()
    requires match r case Kmalloc(size) => 1 <= size <= MAX_PAYLOAD case Kfree(u) => IsLive(heap.chain, u)
    modifies heap, heap.ram
    ensures heap.Valid() && heap.heap == old(heap.heap) && heap.chain == Next(old(heap.chain), OpOf(r))
  {
    ghost var c := heap.chain;
    match r {
      case Kmalloc(size) =>
        UnitsHoldPayload(size);
        var _, p := heap.Kmalloc(size);
        AllocDetermined(c, BytesToUnits(size), heap.chain, p);
      case Kfree(u) =>
        ghost var k := IndexOf(c, u);
        BlockPlace(heap.ram[..], heap.heap, c, k);
        var _ := heap.Kfree(heap.heap + UNIT_SIZE * u + HEADER, k);
        FreeDetermined(c, k, heap.chain);
    }
  }

  // ----- what runs leave alike

  lemma FreesCommute(c: Chain, a: Block, b: Block, ca: Chain, cab: Chain, cb: Chain, cba: Chain)
    requires FreeStep(c, a, ca) && FreeStep(ca, b, cab)
    requires FreeStep(c, b, cb) && FreeStep(cb, a, cba)
    ensures cab == cba
  {
    assert Live(cab) == Live(cba);
    Canonical(cab, cba);
  }

  lemma AllocThenFree(c: Chain, n: nat, u: nat, c1: Chain, c2: Chain)
    requires WellFormed(c) && AllocStep(c, n, c1, At(u)) && FreeStep(c1, Block(u, n, false), c2)
    ensures c2 == c
  {
    assert Live(c2) == Live(c);
    Canonical(c2, c);
  }

  lemma {:induction false} LiveAfterFrees(cs: seq<Chain>, order: seq<Block>, i: nat)
    requires |cs| == |order| + 1 && i <= |order|
    requires forall j | 0 <= j < |order| :: FreeStep(cs[j], order[j], cs[j + 1])
    ensures Live(cs[i]) == Live(cs[0]) - (set b | b in order[..i])
  {
    if i > 0 {
      LiveAfterFrees(cs, order, i - 1);
      assert FreeStep(cs[i - 1], order[i - 1], cs[i]);
      assert order[..i] == order[..i - 1] + [order[i - 1]];
    }
  }

  /** Releasing all live blocks, in whatever order, leaves the one free block of bee_init. */
  lemma FreeAll(cs: seq<Chain>, order: seq<Block>)
    requires |cs| == |order| + 1 && WellFormed(cs[0])
    requires forall j | 0 <= j < |order| :: FreeStep(cs[j], order[j], cs[j + 1])
    requires (set b | b in order) == Live(cs[0])
    ensures cs[|order|] == WHOLE
  {
    var n := |order|;
    LiveAfterFrees(cs, order, n);
    assert order[..n] == order;
    assert Live(cs[n]) == {};
    if n > 0 {
      assert FreeStep(cs[n - 1], order[n - 1], cs[n]);
    }
    assert Live(WHOLE) == {};
    Canonical(cs[n], WHOLE);
  }

  /** Not only the chain: the headers in memory are a function of the live blocks. */
  lemma HeadersDetermined(m: Mem, m': Mem, base: nat, c: Chain, d: Chain, i: nat)
    requires WellFormed(c) && WellFormed(d) && Live(c) == Live(d)
    requires Represents(m, base, c) && Represents(m', base, d) && i < |c|
    requires c[i].End() <= TOTAL_UNITS && c[i].units >= 1
    ensures BlockHeader(m, Addr(base, c[i].start)) == BlockHeader(m', Addr(base, c[i].start))
  {
    Canonical(c, d);
    BlockPlace(m, base, c, i);
    BlockPlace(m', base, d, i);
  }

  /** The payload of a new block has room for the bytes asked for, exactly up to MAX_PAYLOAD. */
  lemma PayloadHoldsRequest(base: nat, size: word, u: nat)
    requires size >= 1 && BytesToUnits(size) >= 1
    ensures (forall a | Payload(base, u) <= a < Payload(base, u) + size ::
               InPayload(base, Block(u, BytesToUnits(size), false), a)) <==> size <= MAX_PAYLOAD
  {
    UnitsHoldPayload(size);
    assert Payload(base, u) <= Payload(base, u) + size - 1;
    if size > MAX_PAYLOAD {
      assert !InPayload(base, Block(u, BytesToUnits(size), false), Payload(base, u) + size - 1);
    }
  }

  /** The smallest request that breaks the chain: one byte too many asks for no unit at all. */
  lemma FirstWrappedRequest()
    ensures BytesToUnits(4194233) == 0 && BytesToUnits(4194232) == 0xFFFF
    ensures forall size: word | 1 <= size <= 4194232 :: BytesToUnits(size) >= 1
  {
  }

  /** A fresh heap has room for any request of up to 1048568 bytes, which it serves at its start, and for no
      larger one that the units can hold. */
  lemma FreshHeapServes(size: word, c: Chain, r: Placement)
    requires 1 <= size <= 4194232 && AllocStep(WHOLE, BytesToUnits(size), c, r)
    ensures r == (if size <= 1048568 then At(0) else Nowhere)
  {
    UnitsHoldPayload(size);
    AllocDetermined(WHOLE, BytesToUnits(size), c, r);
    assert FirstFit(WHOLE, BytesToUnits(size)) == if BytesToUnits(size) <= TOTAL_UNITS then 0 else 1;
  }

  /** The header of a block in memory, byte by byte: two bytes for its units, one that is 0 unless it is free,
      one unused, and the address of the next header; then the payload. */
  lemma HeaderBytes(m: Mem, base: nat, c: Chain, i: nat)
    requires Represents(m, base, c) && i < |c|
    ensures var p := base + 64 * c[i].start;
            && p + 8 <= |m| && Payload(base, c[i].start) == p + 8
            && c[i].units == m[p] as int + 0x100 * m[p + 1] as int && (c[i].free <==> m[p + 2] != 0)
            && WordAt(m, p + 4) == if i == |c| - 1 then 0 else base + 64 * c[i + 1].start
  {
    assert BlockAt(m, base, c, i);
  }
}
