/** The commands of the core itself (module 0), and how the memory manager takes
    over from the bump allocator. */
module CoreCalls {
  import opened Ram
  import opened Wrappers
  import opened HeapChain
  import opened HeapBytes
  import Heap
  import opened ModuleFormat
  import opened KernelLayout
  import opened KernelTables
  import opened HandlerWord
  import opened Answers
  import Kernel

  const MEMORY_MANAGER: word := 7

  /** Where the global storage of a module is. */
  datatype Owner = Nobody | Bump(size: nat) | InHeap(block: Block, size: nat)

  function SizeOf(o: Owner): nat {
    match o
    case Nobody => 0
    case Bump(size) => size
    case InHeap(_, size) => size
  }

  ghost predicate OwnerOk(rs: set<Region>, base: nat, live: set<Block>, g: word, o: Owner) {
    match o
    case Nobody => g == 0
    case Bump(size) => g != 0 && GlobalRegion(g, size) in rs
    case InHeap(b, size) => b in live && g == Payload(base, b.start) && HEADER + size <= UNIT_SIZE * b.units
  }

  ghost predicate Apart(g: word, o: Owner, h: word, q: Owner) {
    o == Nobody || q == Nobody || g + SizeOf(o) <= h || h + SizeOf(q) <= g
  }

  /** Every global storage is where it belongs, and no two overlap. */
  ghost predicate OwnersOk(rs: set<Region>, base: nat, live: set<Block>, globals: seq<word>, owners: seq<Owner>) {
    && |owners| == |globals|
    && (forall i | 0 <= i < |owners| :: OwnerOk(rs, base, live, globals[i], owners[i]))
    && (forall i, j | 0 <= i < j < |owners| :: Apart(globals[i], owners[i], globals[j], owners[j]))
  }

  /** Whoever has storage keeps it. */
  ghost predicate Stay(gs: seq<word>, os: seq<Owner>, gs': seq<word>, os': seq<Owner>) {
    && |gs| == |os| == |gs'| == |os'|
    && forall i | 0 <= i < |gs| && gs[i] != 0 :: gs'[i] == gs[i] && os'[i] == os[i]
  }

  lemma UpdateStays(gs: seq<word>, os: seq<Owner>, gs': seq<word>, os': seq<Owner>, i: nat)
    requires |gs| == |os| && i < |gs| && gs[i] == 0 && |gs'| == |gs| && |os'| == |os|
    requires gs' == gs[i := gs'[i]] && os' == os[i := os'[i]]
    ensures Stay(gs, os, gs', os')
  {
  }

  lemma StayTrans(gs: seq<word>, os: seq<Owner>, gs1: seq<word>, os1: seq<Owner>, gs2: seq<word>, os2: seq<Owner>)
    requires Stay(gs, os, gs1, os1) && Stay(gs1, os1, gs2, os2)
    ensures Stay(gs, os, gs2, os2)
  {
  }

  ghost predicate InBump(owners: seq<Owner>) {
    forall i | 0 <= i < |owners| :: !owners[i].InHeap?
  }

  /** Storage from the bump pointer is apart from all that was handed out before. */
  lemma BumpOwned(l: Layout, base: nat, live: set<Block>, globals: seq<word>, owners: seq<Owner>, i: nat, size: nat)
    requires OwnersOk(l.regions, base, live, globals, owners) && i < |owners|
    requires InBump(owners) || l.memory + size <= base
    requires Separate(l.regions, l.memory) && 0 < l.memory < WORD_MOD
    ensures OwnersOk(WithGlobal(l, size).regions, base, live, globals[i := l.memory], owners[i := Bump(size)])
    ensures InBump(owners) ==> InBump(owners[i := Bump(size)])
  {
    var gs, os := globals[i := l.memory], owners[i := Bump(size)];
    forall j | 0 <= j < |os|
      ensures OwnerOk(WithGlobal(l, size).regions, base, live, gs[j], os[j])
    {
      if j != i {
        assert OwnerOk(l.regions, base, live, globals[j], owners[j]);
      }
    }
    forall j, j' | 0 <= j < j' < |os|
      ensures Apart(gs[j], os[j], gs[j'], os[j'])
    {
      var o := if j == i then j' else j;
      assert OwnerOk(l.regions, base, live, globals[o], owners[o]);
      if j != i && j' != i {
        assert Apart(globals[j], owners[j], globals[j'], owners[j']);
      }
    }
  }

  /** Live blocks do not overlap. */
  lemma BlocksApart(c: Chain, b: Block, d: Block)
    requires Tiles(c) && b in Live(c) && d in Live(c) && b != d
    ensures b.End() <= d.start || d.End() <= b.start
  {
    var i :| 0 <= i < |c| && c[i] == b;
    var j :| 0 <= j < |c| && c[j] == d;
    if i < j {
      Ordered(c, i, j);
    } else {
      Ordered(c, j, i);
    }
  }

  /** So is a block just taken from a heap above the bump area. */
  lemma HeapOwned(l: Layout, base: nat, c: Chain, c': Chain, globals: seq<word>, owners: seq<Owner>,
                  i: nat, size: nat, b: Block)
    requires OwnersOk(l.regions, base, Live(c), globals, owners) && i < |owners|
    requires Separate(l.regions, l.memory) && l.memory <= base && Tiles(c')
    requires b !in Live(c) && Live(c') == Live(c) + {b}
    requires HEADER + size <= UNIT_SIZE * b.units && Payload(base, b.start) < WORD_MOD
    ensures OwnersOk(l.regions, base, Live(c'), globals[i := Payload(base, b.start)], owners[i := InHeap(b, size)])
  {
    var g, o := Payload(base, b.start), InHeap(b, size);
    var gs, os := globals[i := g], owners[i := o];
    forall j | 0 <= j < |os|
      ensures OwnerOk(l.regions, base, Live(c'), gs[j], os[j])
      ensures j != i ==> Apart(gs[j], os[j], g, o)
    {
      if j != i {
        assert OwnerOk(l.regions, base, Live(c), globals[j], owners[j]);
        if owners[j].InHeap? {
          BlocksApart(c', owners[j].block, b);
        }
      }
    }
    forall j, j' | 0 <= j < j' < |os|
      ensures Apart(gs[j], os[j], gs[j'], os[j'])
    {
      if j != i && j' != i {
        assert Apart(globals[j], owners[j], globals[j'], owners[j']);
      }
    }
  }

  /** Owners need nothing but their regions and blocks. */
  lemma OwnersKept(rs: set<Region>, base: nat, live: set<Block>, live': set<Block>,
                   globals: seq<word>, owners: seq<Owner>)
    requires OwnersOk(rs, base, live, globals, owners)
    requires forall i | 0 <= i < |owners| :: owners[i].InHeap? ==> owners[i].block in live'
    ensures OwnersOk(rs, base, live', globals, owners)
  {
    forall i | 0 <= i < |owners|
      ensures OwnerOk(rs, base, live', globals[i], owners[i])
    {
      assert OwnerOk(rs, base, live, globals[i], owners[i]);
    }
  }

  /** What was loaded, and what modules keep in storage and heap blocks, has the bytes it had. */
  ghost predicate Preserved(m: Mem, m': Mem, rs: set<Region>, base: nat, live: set<Block>) {
    RegionsKept(m, m', rs) && forall b | b in live :: Untouched(m, m', base, b)
  }

  lemma PreservedTrans(m: Mem, m1: Mem, m2: Mem, rs: set<Region>, rs': set<Region>, base: nat,
                       live: set<Block>, live': set<Block>)
    requires Preserved(m, m1, rs, base, live) && Preserved(m1, m2, rs', base, live') && rs <= rs'
    ensures Preserved(m, m2, rs, base, live * live')
  {
    forall r | r in rs && r.kind != Node
      ensures Agree(m, m2, r.lo, r.hi)
    {
      AgreeTrans(m, m1, m2, r.lo, r.hi);
    }
    forall b | b in live * live'
      ensures Untouched(m, m2, base, b)
    {
      assert Untouched(m, m1, base, b) && Untouched(m1, m2, base, b);
    }
  }

  /** Writes below the heap touch no block of it. */
  lemma BelowPreserves(m: Mem, m': Mem, rs: set<Region>, memory: nat, base: nat, live: set<Block>)
    requires RegionsKept(m, m', rs) && SameOutside(m, m', 0, memory) && memory <= base
    ensures Preserved(m, m', rs, base, live)
  {
  }

  /** What the heap does touches nothing in the bump area. */
  lemma FramePreserves(m: Mem, m': Mem, rs: set<Region>, memory: nat, base: nat, live: set<Block>)
    requires Separate(rs, memory) && memory <= base && Framed(m, m', base, live)
    ensures Preserved(m, m', rs, base, live)
  {
    AboveSpares(m, m', rs, memory);
  }

  /** So does what alloc does, if what it clears ends below the heap. */
  lemma AllottedPreserves(m: Mem, m': Mem, irt: word, l: Layout, i: nat, n: nat, base: nat, live: set<Block>)
    requires Linked(m, irt, l) && i < |l.nodes| && Allotted(m, m', l.nodes[i], l.memory, n)
    requires live == {} || l.memory + n <= base
    ensures Preserved(m, m', l.regions, base, live)
  {
    NodeBelow(m, irt, l, i);
    NodeWriteSpares(m, m', irt, l, i);
  }

  lemma AllottedChain(m: Mem, m': Mem, irt: word, l: Layout, i: nat, n: nat, base: nat, c: Chain)
    requires Linked(m, irt, l) && i < |l.nodes| && Allotted(m, m', l.nodes[i], l.memory, n)
    requires Represents(m, base, c) && Tiles(c) && l.memory + n <= base
    ensures Represents(m', base, c)
  {
    NodeBelow(m, irt, l, i);
    ChainKeptOutside(m, m', base, c);
  }

  /** Clearing four times the size of a storage can clear the handler's address. */
  lemma AllottedHandlerIff(m: Mem, m': Mem, irt: word, l: Layout, i: nat, n: nat)
    requires i < |l.nodes| && NodesClear(l.nodes) && Allotted(m, m', l.nodes[i], l.memory, n)
    requires CORE_GLOBAL_MEMORY + 4 <= |m| && WordAt(m, CORE_GLOBAL_MEMORY) == irt
    ensures WordAt(m', CORE_GLOBAL_MEMORY) == irt <==> ClearSpares(l.memory, n, irt)
  {
    ClearedHandlerIff(m, m', l.memory, n, irt);
  }

  /** Storage in the bump area stays where it is when a heap is built. */
  lemma OwnersInBump(rs: set<Region>, base: nat, live: set<Block>, globals: seq<word>, owners: seq<Owner>)
    requires OwnersOk(rs, 0, {}, globals, owners) && InBump(owners)
    ensures OwnersOk(rs, base, live, globals, owners)
  {
    forall i | 0 <= i < |owners|
      ensures OwnerOk(rs, base, live, globals[i], owners[i])
    {
      assert OwnerOk(rs, 0, {}, globals[i], owners[i]);
    }
  }

  /** Where the arguments of a call to id are stored. */
  ghost predicate StoredArgs(m: Mem, m': Mem, l: Layout, id: word) {
    && |m| >= 4 && |l.nodes| <= |l.bees|
    && match NodeFor(m, l, id)
       case None => m' == m
       case Some(p) => SameOutside(m, m', p + 12, p + 20)
  }

  /** Nodes that all lie behind the handler word leave it as it was stored. */
  lemma BehindIsSafe(l: Layout, irt: word)
    requires Joined(l)
    ensures (l.nodes != [] ==> CORE_GLOBAL_MEMORY + 4 <= l.nodes[0]) ==>
              NodesClear(l.nodes) && WordLeft(l.nodes, l.bees, |l.nodes|, irt) == irt
  {
    if l.nodes != [] ==> CORE_GLOBAL_MEMORY + 4 <= l.nodes[0] {
      NodesBehind(l);
      NoneCovers(l.nodes, l.bees, |l.nodes|, irt);
    }
  }

  lemma NodeForIs(m: Mem, irt: word, l: Layout, id: word) returns (i: nat)
    requires Linked(m, irt, l) && |m| >= 4 && NodeFor(m, l, id).Some?
    ensures NodeFor(m, l, id) == Some(if i < |l.nodes| then l.nodes[i] else 0)
  {
    i := Slot(l.bees, |l.nodes|, id, WordAt(m, 0)) - 1;
  }

  /** Arguments of calls go into nodes, or below the bump area. */
  lemma ArgsPreserve(m: Mem, m': Mem, irt: word, l: Layout, id: word, base: nat, live: set<Block>)
    requires Linked(m, irt, l) && StoredArgs(m, m', l, id) && (live == {} || l.memory <= base)
    ensures Preserved(m, m', l.regions, base, live) && SameOutside(m, m', 0, l.memory)
  {
    if NodeFor(m, l, id).Some? {
      var i := NodeForIs(m, irt, l, id);
      if i < |l.nodes| {
        NodeBelow(m, irt, l, i);
        NodeWriteSpares(m, m', irt, l, i);
      } else {
        LowWriteSpares(m, m', l.regions, l.memory, 12, 20);
      }
    }
  }

  lemma ArgsMissHandler(m: Mem, irt: word, l: Layout, id: word)
    requires Linked(m, irt, l) && |m| >= 4 && NodeFor(m, l, id).Some? && NodesClear(l.nodes)
    ensures var p := NodeFor(m, l, id).value;
            p + 20 <= CORE_GLOBAL_MEMORY || CORE_GLOBAL_MEMORY + 4 <= p + 12
  {
    var i := NodeForIs(m, irt, l, id);
  }

  /** The contents of a module's storage are among it. */
  lemma StoragePreserved(m: Mem, m': Mem, rs: set<Region>, base: nat, live: set<Block>, g: word, o: Owner, a: nat)
    requires Preserved(m, m', rs, base, live) && OwnerOk(rs, base, live, g, o)
    requires g <= a < g + SizeOf(o) && a < |m|
    ensures m'[a] == m[a]
  {
    match o
    case Nobody =>
    case Bump(size) => assert Agree(m, m', GlobalRegion(g, size).lo, GlobalRegion(g, size).hi);
    case InHeap(b, _) => assert InPayload(base, b, a);
  }

  /** The module is registered and exports the command at an address other than 0. */
  ghost predicate Provides(l: Layout, id: word, cmd: word) {
    && |l.nodes| <= |l.bees|
    && var i := FirstWith(l.bees, |l.nodes|, id);
       && i < |l.nodes| && cmd <= MaxId(l.bees[i].mod.exports)
       && SlotValue(l.bees[i].Base(), l.bees[i].mod.exports, cmd) != 0
  }

  /** The memory manager has global storage already. */
  ghost predicate ManagerStored(l: Layout, globals: seq<word>) {
    var i := if |l.nodes| <= |l.bees| then FirstWith(l.bees, |l.nodes|, MEMORY_MANAGER) else 0;
    i < |globals| && globals[i] != 0
  }

  /** Writes from lo to hi, away from the handler word. */
  lemma HandlerKept(m: Mem, m': Mem, lo: nat, hi: nat)
    requires SameOutside(m, m', lo, hi)
    ensures CORE_GLOBAL_MEMORY + 4 <= |m| && (hi <= CORE_GLOBAL_MEMORY || CORE_GLOBAL_MEMORY + 4 <= lo) ==>
              WordAt(m', CORE_GLOBAL_MEMORY) == WordAt(m, CORE_GLOBAL_MEMORY)
  {
    if CORE_GLOBAL_MEMORY + 4 <= |m| && (hi <= CORE_GLOBAL_MEMORY || CORE_GLOBAL_MEMORY + 4 <= lo) {
      WordKept(m, m', CORE_GLOBAL_MEMORY, lo, hi);
    }
  }

  /** The heap begins behind the handler word exactly if the bump area ends close enough to it. */
  lemma HeapClearIff(bumpEnd: word)
    requires bumpEnd <= Heap.MAX_PAYLOAD
    ensures 0x6004 <= 64 * Heap.BytesToUnits(bumpEnd) <==> bumpEnd > 0x5FF8
  {
  }

  /** The function the core gets global storage from: its own, that of the memory manager, or any other. */
  datatype Allocator = BumpAlloc | ManagerAlloc | OtherAlloc(address: word)

  /** What a caller of the core finds: an error code, a value stored through its pointer,
      the code for success, or its own register as it was. */
  datatype Reply = NoModule | NoCmd | Value(v: nat) | Done | AsItWas

  class Core {
    const k: Kernel.Kernel
    var heap: Heap.Heap?
    var allocF: Allocator
    ghost var owners: seq<Owner>

    ghost function Base(): nat
      reads this, heap
    {
      if heap == null then 0 else heap.heap
    }

    ghost function LiveBlocks(): set<Block>
      reads this, heap
    {
      if heap == null then {} else Live(heap.chain)
    }

    /** The heap lies above the bump area, and its calls reach the memory manager. */
    ghost predicate HeapOk()
      reads this, k, k.ram, heap
      requires heap != null
    {
      && heap.ram == k.ram && heap.Valid() && k.lay.memory <= heap.heap
      && Provides(k.lay, MEMORY_MANAGER, 1)
    }

    ghost predicate Valid()
      reads this, k, k.ram, k.idNodes, heap
    {
      && k.Running() && k.lay.memory == k.memory
      && OwnersOk(k.lay.regions, Base(), LiveBlocks(), k.globals, owners)
      && if heap == null then InBump(owners) && !allocF.ManagerAlloc? else HeapOk()
    }

    /** The core's own address can be read where the memory manager looks for it. */
    ghost predicate HandlerReadable()
      reads k, k.ram
    {
      CORE_GLOBAL_MEMORY + 4 <= k.ram.Length && WordAt(k.ram[..], CORE_GLOBAL_MEMORY) == k.irt
    }

    /** It is the word at 0x6000. */
    lemma ReadableIs()
      ensures HandlerReadable() <==> k.ram.Length >= 0x6004 && WordAt(k.ram[..], 0x6000) == k.irt
    {
    }

    /** With a heap, module 7 can be called for more of it, by its command 1. */
    lemma ManagerCallable(count: word, ptr: word)
      requires Valid() && heap != null
      ensures CallInMemory(k.ram[..], k.lay, 7, 1) && Answer(k.ram[..], k.lay, 7, 1, count, ptr).Called?
    {
      CallableIsAnswered(k.ram[..], k.irt, k.lay, k.globals, MEMORY_MANAGER, 1, count, ptr);
    }

    /** And nothing that calls or the heap write meets it. */
    ghost predicate HandlerSafe()
      reads this, k, k.ram, heap
    {
      HandlerReadable() && NodesClear(k.lay.nodes) && (heap != null ==> CORE_GLOBAL_MEMORY + 4 <= heap.heap)
    }

    /** Storage comes from the bump area, and no module has any yet. */
    constructor (k: Kernel.Kernel)
      requires k.Linking()
      ensures Valid() && this.k == k && heap == null && allocF == BumpAlloc
      ensures HandlerSafe() <==>
              WordLeft(k.lay.nodes, k.lay.bees, |k.lay.nodes|, k.irt) == k.irt && NodesClear(k.lay.nodes)
      ensures (k.lay.nodes != [] ==> CORE_GLOBAL_MEMORY + 4 <= k.lay.nodes[0]) ==> HandlerSafe()
    {
      this.k := k;
      heap, allocF := null, BumpAlloc;
      owners := seq(|k.globals|, i => Nobody);
      BehindIsSafe(k.lay, k.irt);
    }

    /** The tables stay as they are. */
    twostate predicate SameTables()
      reads this, k
    {
      && k.lay.bees == old(k.lay.bees) && k.lay.nodes == old(k.lay.nodes) && k.lay.pages == old(k.lay.pages)
      && |k.globals| == old(|k.globals|) && k.page0 == old(k.page0) && k.lay.regions >= old(k.lay.regions)
    }

    /** Where the bump area has to end. */
    ghost function BumpLimit(): nat
      reads this, k, heap
    {
      if heap == null then k.ram.Length else heap.heap
    }

    /** Command 1 on the bump allocator. */
    method BumpGlobal(i: nat, size: word) returns (data: word)
      requires Valid() && i < |k.lay.nodes|
      requires k.memory < WORD_MOD && k.memory + 4 * size as int <= BumpLimit()
      modifies this`owners, k, k.ram
      ensures Valid() && SameTables() && data == old(k.memory) && k.memory == old(k.memory) + size
      ensures k.globals == old(k.globals)[i := data] && owners == old(owners)[i := Bump(size)]
      ensures forall a | data <= a < data + size :: k.ram[a] == 0
      ensures Preserved(old(k.ram[..]), k.ram[..], old(k.lay.regions), Base(), LiveBlocks())
      ensures k.lay.regions >= old(k.lay.regions)
      ensures old(HandlerSafe()) ==> (HandlerSafe() <==> ClearSpares(data, 4 * size as int, k.irt))
    {
      BumpOwned(k.lay, Base(), LiveBlocks(), k.globals, owners, i, size);
      data := TakeFromBump(i, size);
      owners := owners[i := Bump(size)];
    }

    /** The bytes for it. */
    method TakeFromBump(i: nat, size: word) returns (data: word)
      requires Valid() && i < |k.lay.nodes|
      requires k.memory < WORD_MOD && k.memory + 4 * size as int <= BumpLimit()
      modifies k, k.ram
      ensures k.Running() && k.lay == WithGlobal(old(k.lay), size) && k.lay.memory == k.memory
      ensures heap != null ==> HeapOk()
      ensures data == old(k.memory) && k.memory == old(k.memory) + size && k.globals == old(k.globals)[i := data]
      ensures k.page0 == old(k.page0)
      ensures forall a | data <= a < data + size :: k.ram[a] == 0
      ensures Preserved(old(k.ram[..]), k.ram[..], old(k.lay.regions), Base(), LiveBlocks())
      ensures old(HandlerSafe()) ==> (HandlerSafe() <==> ClearSpares(data, 4 * size as int, k.irt))
    {
      ghost var m, l := k.ram[..], k.lay;
      var p := k.idNodes[i];
      assert p == k.idNodes[..][i];
      data := k.Alloc(size, i, p);
      AllottedPreserves(m, k.ram[..], k.irt, l, i, 4 * size as int, Base(), LiveBlocks());
      if heap != null {
        AllottedChain(m, k.ram[..], k.irt, l, i, 4 * size as int, heap.heap, heap.chain);
      }
      if old(HandlerSafe()) {
        AllottedHandlerIff(m, k.ram[..], k.irt, l, i, 4 * size as int);
      }
    }

    /** core_interrupt_handler for any other module: the answer, and no more than arguments stored. */
    method Call(id: word, cmd: word, argsSize: word, ptr: word) returns (o: Outcome)
      requires Valid() && id != 0 && CallInMemory(k.ram[..], k.lay, id, cmd)
      modifies k.ram
      ensures Valid() && o == Answer(old(k.ram[..]), k.lay, id, cmd, argsSize, ptr)
      ensures SameOutside(old(k.ram[..]), k.ram[..], 0, k.memory)
      ensures Preserved(old(k.ram[..]), k.ram[..], k.lay.regions, Base(), LiveBlocks())
      ensures old(HandlerSafe()) ==> HandlerSafe()
    {
      ghost var m := k.ram[..];
      o := k.Dispatch(id, cmd, argsSize, ptr);
      if o.Called? {
        ArgsPreserve(m, k.ram[..], k.irt, k.lay, id, Base(), LiveBlocks());
        HandlerKept(m, k.ram[..], o.coreData + 8, o.coreData + 16);
        if NodesClear(k.lay.nodes) {
          ArgsMissHandler(m, k.irt, k.lay, id);
        }
      }
      if heap != null {
        ChainKeptOutside(m, k.ram[..], heap.heap, heap.chain);
      }
    }

    /** A call of the memory manager, when it has a heap. */
    method Through(cmd: word, args: word)
      requires Valid() && heap != null && Provides(k.lay, MEMORY_MANAGER, cmd)
      modifies k.ram
      ensures Valid() && SameOutside(old(k.ram[..]), k.ram[..], 0, k.memory)
      ensures Preserved(old(k.ram[..]), k.ram[..], k.lay.regions, heap.heap, LiveBlocks())
      ensures old(HandlerSafe()) ==> HandlerSafe()
    {
      CallableIsAnswered(k.ram[..], k.irt, k.lay, k.globals, MEMORY_MANAGER, cmd, 0, args);
      var o := Call(MEMORY_MANAGER, cmd, 0, args);
      // Its allocator, or its release, is what runs now.
      assert o.Called?;
    }

    /** kmalloc, called as command 1 of the memory manager. */
    method Malloc(size: word, args: word) returns (data: word, ghost r: Placement)
      requires Valid() && heap != null && size <= Heap.MAX_PAYLOAD
      modifies k.ram, heap
      ensures Valid() && heap.heap == old(heap.heap)
      ensures if size == 0 then r == Nowhere && heap.chain == old(heap.chain)
              else AllocStep(old(heap.chain), Heap.BytesToUnits(size), heap.chain, r)
      ensures data == heap.DataOf(r)
      ensures r.At? ==> Untouched(old(k.ram[..]), k.ram[..], heap.heap, Block(r.unit, Heap.BytesToUnits(size), false))
      ensures Preserved(old(k.ram[..]), k.ram[..], k.lay.regions, heap.heap, old(LiveBlocks()))
      ensures old(HandlerSafe()) ==> HandlerSafe()
    {
      ghost var was := k.ram[..];
      Through(1, args);
      ghost var m := k.ram[..];
      ghost var c := heap.chain;
      Heap.UnitsHoldPayload(size);
      data, r := heap.Kmalloc(size);
      HandlerKept(m, k.ram[..], heap.heap, heap.heap + HEAP_SIZE);
      FramePreserves(m, k.ram[..], k.lay.regions, k.memory, heap.heap, Live(c));
      PreservedTrans(was, m, k.ram[..], k.lay.regions, k.lay.regions, heap.heap, Live(c), Live(c));
      TablesKept(m, k.ram[..], k.irt, k.lay, k.globals);
      OwnersKept(k.lay.regions, heap.heap, Live(c), Live(heap.chain), k.globals, owners);
    }

    /** core_alloc: looks up where the core is, and calls the memory manager through it. */
    method CoreAlloc(size: word, args: word) returns (data: word, ghost r: Placement)
      requires Valid() && heap != null && size <= Heap.MAX_PAYLOAD && HandlerReadable()
      modifies k.ram, heap
      ensures Valid() && heap.heap == old(heap.heap)
      ensures if size == 0 then r == Nowhere && heap.chain == old(heap.chain)
              else AllocStep(old(heap.chain), Heap.BytesToUnits(size), heap.chain, r)
      ensures data == heap.DataOf(r)
      ensures r.At? ==> Untouched(old(k.ram[..]), k.ram[..], heap.heap, Block(r.unit, Heap.BytesToUnits(size), false))
      ensures Preserved(old(k.ram[..]), k.ram[..], k.lay.regions, heap.heap, old(LiveBlocks()))
      ensures old(HandlerSafe()) ==> HandlerSafe()
    {
      var core := LoadWord(k.ram, CORE_GLOBAL_MEMORY);
      // The call goes to the address read.
      assert core == k.irt;
      data, r := Malloc(size, args);
    }

    /** kfree of block n, called as command 2 of the memory manager. Global storage stays. */
    method Release(ptr: word, args: word, ghost n: nat) returns (spins: bool)
      requires Valid() && heap != null && Provides(k.lay, MEMORY_MANAGER, 2)
      requires ptr != NULL ==> n < |heap.chain| && ptr == Payload(heap.heap, heap.chain[n].start)
      requires ptr != NULL ==> forall i | 0 <= i < |owners| :: owners[i].InHeap? ==> owners[i].block != heap.chain[n]
      modifies k.ram, heap
      ensures Valid() && heap.heap == old(heap.heap)
      ensures spins <==> ptr != NULL && old(heap.chain)[n].free
      ensures ptr == NULL || spins ==> heap.chain == old(heap.chain)
      ensures ptr != NULL && !spins ==> FreeStep(old(heap.chain), old(heap.chain)[n], heap.chain)
      ensures Preserved(old(k.ram[..]), k.ram[..], k.lay.regions, heap.heap, LiveBlocks())
      ensures old(HandlerSafe()) ==> HandlerSafe()
    {
      ghost var was := k.ram[..];
      Through(2, args);
      ghost var m := k.ram[..];
      ghost var c := heap.chain;
      spins := heap.Kfree(ptr, n);
      HandlerKept(m, k.ram[..], heap.heap, heap.heap + HEAP_SIZE);
      FramePreserves(m, k.ram[..], k.lay.regions, k.memory, heap.heap, LiveBlocks());
      PreservedTrans(was, m, k.ram[..], k.lay.regions, k.lay.regions, heap.heap, Live(c), LiveBlocks());
      assert Live(c) * LiveBlocks() == LiveBlocks();
      TablesKept(m, k.ram[..], k.irt, k.lay, k.globals);
      forall i | 0 <= i < |owners| && owners[i].InHeap?
        ensures owners[i].block in Live(heap.chain)
      {
        assert OwnerOk(k.lay.regions, heap.heap, Live(c), k.globals[i], owners[i]);
      }
      OwnersKept(k.lay.regions, heap.heap, Live(c), Live(heap.chain), k.globals, owners);
    }

    /** The node of the module gets the pointer to its storage from the heap. */
    method KeepGlobal(i: nat, size: word, data: word, ghost c: Chain, ghost r: Placement)
      requires Valid() && heap != null && i < |k.lay.nodes| && owners[i] == Nobody
      requires k.globals[i] == 0 && data == heap.DataOf(r)
      requires OwnersOk(k.lay.regions, heap.heap, Live(c), k.globals, owners)
      requires r.At? ==> AllocStep(c, Heap.BytesToUnits(size), heap.chain, r) && 1 <= size <= Heap.MAX_PAYLOAD
      modifies this`owners, k, k.ram
      ensures Valid() && heap == old(heap) && SameTables() && k.memory == old(k.memory)
      ensures k.globals == old(k.globals)[i := data] && k.lay.regions == old(k.lay.regions)
      ensures owners == old(owners)[i := OwnerFor(size, r)]
      ensures SameOutside(old(k.ram[..]), k.ram[..], 0, k.memory)
      ensures Preserved(old(k.ram[..]), k.ram[..], k.lay.regions, heap.heap, LiveBlocks())
      ensures old(HandlerSafe()) ==> HandlerSafe()
    {
      var p := k.idNodes[i];
      assert p == k.idNodes[..][i];
      ghost var m, os, gs := k.ram[..], owners, k.globals;
      k.StoreGlobal(i, p, data);
      HandlerKept(m, k.ram[..], p + 20, p + 24);
      NodeWriteSpares(m, k.ram[..], k.irt, k.lay, i);
      BelowPreserves(m, k.ram[..], k.lay.regions, k.memory, heap.heap, LiveBlocks());
      ChainKeptOutside(m, k.ram[..], heap.heap, heap.chain);
      owners := owners[i := OwnerFor(size, r)];
      if r.At? {
        Heap.UnitsHoldPayload(size);
        HeapOwned(k.lay, heap.heap, c, heap.chain, gs, os, i, size, Block(r.unit, Heap.BytesToUnits(size), false));
      } else {
        assert owners == os && k.globals == gs;
      }
    }

    /** Command 1 on the heap. The storage keeps the bytes the heap had there. */
    method HeapGlobal(i: nat, size: word, args: word) returns (data: word, ghost r: Placement)
      requires Valid() && heap != null && i < |k.lay.nodes| && size <= Heap.MAX_PAYLOAD
      requires k.globals[i] == 0 && owners[i] == Nobody && HandlerReadable()
      modifies this`owners, k, k.ram, heap
      ensures Valid() && heap == old(heap) && heap.heap == old(heap.heap) && SameTables() && k.memory == old(k.memory)
      ensures LiveBlocks() >= old(LiveBlocks())
      ensures data == heap.DataOf(r) && k.globals == old(k.globals)[i := data]
      ensures owners == old(owners)[i := OwnerFor(size, r)]
      ensures if size == 0 then r == Nowhere && heap.chain == old(heap.chain)
              else AllocStep(old(heap.chain), Heap.BytesToUnits(size), heap.chain, r)
      ensures r.At? ==> Untouched(old(k.ram[..]), k.ram[..], heap.heap, Block(r.unit, Heap.BytesToUnits(size), false))
      ensures k.lay.regions == old(k.lay.regions)
      ensures Preserved(old(k.ram[..]), k.ram[..], k.lay.regions, heap.heap, old(LiveBlocks()))
      ensures old(HandlerSafe()) ==> HandlerSafe()
    {
      ghost var was, c := k.ram[..], heap.chain;
      data, r := CoreAlloc(size, args);
      ghost var m := k.ram[..];
      KeepGlobal(i, size, data, c, r);
      PreservedTrans(was, m, k.ram[..], k.lay.regions, k.lay.regions, heap.heap, Live(c), LiveBlocks());
      assert Live(c) * LiveBlocks() == Live(c);
      if r.At? {
        assert Untouched(m, k.ram[..], heap.heap, Block(r.unit, Heap.BytesToUnits(size), false));
      }
    }

    /** What command 1 asks of its caller. */
    ghost predicate RoomForGlobal(size: word)
      reads this, k, k.ram, heap
    {
      match allocF
      case BumpAlloc => k.memory < WORD_MOD && k.memory + 4 * size as int <= BumpLimit()
      case ManagerAlloc => size <= Heap.MAX_PAYLOAD && HandlerReadable()
      case OtherAlloc(_) => false
    }

    /** Command 1: global storage for a module, once. */
    method NewGlobal(id: word, size: word, args: word) returns (reply: Reply, ghost data: word, ghost r: Placement)
      requires Valid() && Sought(k.ram[..], k.lay, id) && RoomForGlobal(size)
      modifies this`owners, k, k.ram, heap
      ensures Valid() && heap == old(heap) && Base() == old(Base()) && SameTables()
      ensures Stay(old(k.globals), old(owners), k.globals, owners) && LiveBlocks() >= old(LiveBlocks())
      ensures reply == NewGlobalReply(k.lay, old(k.globals), id) && k.lay.regions >= old(k.lay.regions)
      ensures Preserved(old(k.ram[..]), k.ram[..], old(k.lay.regions), Base(), old(LiveBlocks()))
      ensures old(HandlerSafe()) ==>
                (HandlerSafe() <==>
                 allocF.ManagerAlloc? || reply != Done || ClearSpares(old(k.memory), 4 * size as int, k.irt))
      ensures reply != Done ==> k.ram[..] == old(k.ram[..]) && k.globals == old(k.globals) && owners == old(owners)
                                && k.memory == old(k.memory) && (heap != null ==> heap.chain == old(heap.chain))
      ensures reply == Done && allocF.BumpAlloc? ==>
                && var i := FirstWith(k.lay.bees, |k.lay.nodes|, id);
                && i < |owners| && data == old(k.memory)
                && k.globals == old(k.globals)[i := data] && owners == old(owners)[i := Bump(size)]
                && k.memory == old(k.memory) + size && (heap != null ==> heap.chain == old(heap.chain))
                && forall a | old(k.memory) <= a < k.memory :: k.ram[a] == 0
      ensures reply == Done && allocF.ManagerAlloc? ==>
                && var i := FirstWith(k.lay.bees, |k.lay.nodes|, id);
                && i < |owners| && data == heap.DataOf(r)
                && k.globals == old(k.globals)[i := data] && owners == old(owners)[i := OwnerFor(size, r)]
                && k.memory == old(k.memory)
                && if size == 0 then r == Nowhere && heap.chain == old(heap.chain)
                   else AllocStep(old(heap.chain), Heap.BytesToUnits(size), heap.chain, r)
      ensures reply == Done && allocF.ManagerAlloc? && r.At? ==>
                Untouched(old(k.ram[..]), k.ram[..], heap.heap, Block(r.unit, Heap.BytesToUnits(size), false))
    {
      data, r := 0, Nowhere;
      var i;
      reply, i := WantsGlobal(id);
      if reply == Done {
        data, r := GiveGlobal(i, size, args);
      }
    }

    /** From whichever allocator it is. */
    method GiveGlobal(i: nat, size: word, args: word) returns (data: word, ghost r: Placement)
      requires Valid() && RoomForGlobal(size) && i < |k.lay.nodes| && k.globals[i] == 0 && owners[i] == Nobody
      modifies this`owners, k, k.ram, heap
      ensures Valid() && heap == old(heap) && Base() == old(Base()) && SameTables()
      ensures Stay(old(k.globals), old(owners), k.globals, owners) && LiveBlocks() >= old(LiveBlocks())
      ensures Preserved(old(k.ram[..]), k.ram[..], old(k.lay.regions), Base(), old(LiveBlocks()))
      ensures old(HandlerSafe()) ==>
                (HandlerSafe() <==> allocF.ManagerAlloc? || ClearSpares(old(k.memory), 4 * size as int, k.irt))
      ensures k.globals == old(k.globals)[i := data]
      ensures owners == old(owners)[i := if allocF.BumpAlloc? then Bump(size) else OwnerFor(size, r)]
      ensures allocF.BumpAlloc? ==>
                && data == old(k.memory) && k.memory == old(k.memory) + size
                && (heap != null ==> heap.chain == old(heap.chain))
                && forall a | old(k.memory) <= a < k.memory :: k.ram[a] == 0
      ensures allocF.ManagerAlloc? ==>
                && data == heap.DataOf(r) && k.memory == old(k.memory)
                && (if size == 0 then r == Nowhere && heap.chain == old(heap.chain)
                    else AllocStep(old(heap.chain), Heap.BytesToUnits(size), heap.chain, r))
                && (r.At? ==> Untouched(old(k.ram[..]), k.ram[..], heap.heap,
                                        Block(r.unit, Heap.BytesToUnits(size), false)))
    {
      r := Nowhere;
      ghost var gs, os := k.globals, owners;
      if allocF == BumpAlloc {
        data := BumpGlobal(i, size);
      } else {
        data, r := HeapGlobal(i, size, args);
      }
      UpdateStays(gs, os, k.globals, owners, i);
    }

    /** Whether the module is known and has no global storage, and then its place in the lookup array. */
    method WantsGlobal(id: word) returns (reply: Reply, i: nat)
      requires Valid() && Sought(k.ram[..], k.lay, id)
      ensures reply == NewGlobalReply(k.lay, k.globals, id)
      ensures reply == Done ==> i == FirstWith(k.lay.bees, |k.lay.nodes|, id) < |owners|
                                && k.globals[i] == 0 && owners[i] == Nobody
    {
      var node := k.LookupID(id);
      if node == 0 {
        return Reply.NoModule, 0;
      }
      i := node - 1;
      var p := k.idNodes[i];
      assert p == k.idNodes[..][i];
      NodeBelow(k.ram[..], k.irt, k.lay, i);
      var global := LoadWord(k.ram, p + 20);
      if global != 0 {
        return AsItWas, i;
      }
      NoOwner(i);
      reply := Done;
    }

    /** A module without a pointer owns nothing. */
    lemma NoOwner(i: nat)
      requires Valid() && i < |owners| && k.globals[i] == 0
      ensures owners[i] == Nobody
    {
      assert OwnerOk(k.lay.regions, Base(), LiveBlocks(), k.globals[i], owners[i]);
      if heap != null && owners[i].InHeap? {
        assert heap.heap > 0;
      }
    }

    /** Commands 2 to 4: the pointers to a module's global storage and CoreData, and the end
        of the bump area. */
    method Query(cmd: word, id: word) returns (reply: Reply)
      requires Valid() && 2 <= cmd <= 4 && (cmd != 4 ==> Sought(k.ram[..], k.lay, id))
      ensures reply == QueryReply(k.lay, k.globals, cmd, id)
    {
      if cmd == 4 {
        return Value(k.memory);
      }
      var node := k.LookupID(id);
      if node == 0 {
        return Reply.NoModule;
      }
      var p := k.idNodes[node - 1];
      assert p == k.idNodes[..][node - 1];
      NodeBelow(k.ram[..], k.irt, k.lay, node - 1);
      if cmd == 2 {
        var global := LoadWord(k.ram, p + 20);
        reply := Value(global);
      } else {
        reply := Value(p + 4);
      }
    }

    /** Command 5, with any function. That of the memory manager is of no use before it has its heap. */
    method SetAllocator(alloc: Allocator)
      requires Valid() && (alloc.ManagerAlloc? ==> heap != null)
      modifies this`allocF
      ensures Valid() && allocF == alloc && (HandlerSafe() <==> old(HandlerSafe()))
    {
      allocF := alloc;
    }

    /** The heap of the memory manager, right above the bump area. */
    method BuildHeap(end: word)
      requires Valid() && heap == null && Provides(k.lay, MEMORY_MANAGER, 1)
      requires end == k.memory && k.memory <= Heap.MAX_PAYLOAD
      requires k.memory + UNIT_SIZE + HEADER + HEAP_SIZE <= k.ram.Length
      modifies this`heap, k.ram
      ensures Valid() && heap != null && fresh(heap) && heap.chain == WHOLE && k.memory < heap.heap
      ensures heap.heap == UNIT_SIZE * Heap.BytesToUnits(k.memory)
      ensures Preserved(old(k.ram[..]), k.ram[..], k.lay.regions, heap.heap, {})
      ensures HandlerSafe() <==> old(HandlerSafe()) && CORE_GLOBAL_MEMORY + 4 <= heap.heap
    {
      Heap.UnitsHoldPayload(end);
      ghost var m := k.ram[..];
      var h := new Heap.Heap(k.ram, end);
      HandlerKept(m, k.ram[..], h.heap, h.heap + HEAP_SIZE);
      FramePreserves(m, k.ram[..], k.lay.regions, k.memory, h.heap, {});
      TablesKept(m, k.ram[..], k.irt, k.lay, k.globals);
      OwnersInBump(k.lay.regions, h.heap, Live(h.chain), k.globals, owners);
      heap := h;
    }

    /** bee_init of the memory manager: its own global storage, the end of the bump area, one
        free block after that, and then the core allocates from there. */
    method TakeOver(args: word)
      requires Valid() && heap == null && allocF == BumpAlloc && Provides(k.lay, MEMORY_MANAGER, 1)
      requires k.memory + 4 <= Heap.MAX_PAYLOAD
      requires k.memory + 4 + UNIT_SIZE + HEADER + HEAP_SIZE <= k.ram.Length
      modifies this, k, k.ram
      ensures Valid() && heap != null && fresh(heap) && heap.chain == WHOLE && SameTables() && allocF == ManagerAlloc
      ensures k.memory <= old(k.memory) + 4 && k.memory < heap.heap
      ensures heap.heap == UNIT_SIZE * Heap.BytesToUnits(k.memory)
      ensures old(HandlerSafe()) ==>
                (HandlerSafe() <==>
                 && CORE_GLOBAL_MEMORY + 4 <= heap.heap
                 && (ManagerStored(k.lay, old(k.globals)) || ClearSpares(old(k.memory), 16, k.irt)))
      ensures RegionsKept(old(k.ram[..]), k.ram[..], old(k.lay.regions))
      ensures Owning(FirstWith(k.lay.bees, |k.lay.nodes|, MEMORY_MANAGER),
                     old(k.globals), old(owners), k.globals, owners)
    {
      ghost var was, rs := k.ram[..], k.lay.regions;
      OwnStorage(args);
      ghost var m := k.ram[..];
      InstallHeap();
      PreservedTrans(was, m, k.ram[..], rs, k.lay.regions, heap.heap, {}, {});
    }

    /** The rest of it: the heap above the end of the bump area, and its allocator for the core. */
    method InstallHeap()
      requires Valid() && heap == null && Provides(k.lay, MEMORY_MANAGER, 1)
      requires k.memory <= Heap.MAX_PAYLOAD && k.memory + UNIT_SIZE + HEADER + HEAP_SIZE <= k.ram.Length
      modifies this`heap, this`allocF, k.ram
      ensures Valid() && heap != null && fresh(heap) && heap.chain == WHOLE
      ensures k.memory < heap.heap && allocF == ManagerAlloc
      ensures heap.heap == UNIT_SIZE * Heap.BytesToUnits(k.memory)
      ensures Preserved(old(k.ram[..]), k.ram[..], k.lay.regions, heap.heap, {})
      ensures HandlerSafe() <==> old(HandlerSafe()) && CORE_GLOBAL_MEMORY + 4 <= heap.heap
    {
      var end := Query(4, 0);
      assert end == Value(k.memory);
      BuildHeap(end.v);
      SetAllocator(ManagerAlloc);
    }

    /** The global storage of the memory manager itself. */
    method OwnStorage(args: word)
      requires Valid() && heap == null && allocF == BumpAlloc && Provides(k.lay, MEMORY_MANAGER, 1)
      requires k.memory + 16 <= k.ram.Length && k.memory < WORD_MOD
      modifies this`owners, k, k.ram
      ensures Valid() && heap == null && SameTables() && old(k.memory) <= k.memory <= old(k.memory) + 4
      ensures old(HandlerSafe()) ==>
                (HandlerSafe() <==> ManagerStored(k.lay, old(k.globals)) || ClearSpares(old(k.memory), 16, k.irt))
      ensures RegionsKept(old(k.ram[..]), k.ram[..], old(k.lay.regions)) && k.lay.regions >= old(k.lay.regions)
      ensures Owning(FirstWith(k.lay.bees, |k.lay.nodes|, MEMORY_MANAGER),
                     old(k.globals), old(owners), k.globals, owners)
    {
      var _, _, _ := NewGlobal(MEMORY_MANAGER, 4, args);
    }

    /** What a module does for its storage: it asks for it, and then where it is. What it is told is what the
        allocator gave it, or what it had before. */
    method ObtainGlobal(id: word, size: word, args: word) returns (given: Reply, global: Reply, ghost data: word)
      requires Valid() && Sought(k.ram[..], k.lay, id) && RoomForGlobal(size)
      modifies this`owners, k, k.ram, heap
      ensures Valid() && SameTables() && given == CommandReply(k.lay, old(k.globals), 1, id)
      ensures given == Done ==> global == Value(data) && (allocF.BumpAlloc? ==> data == old(k.memory))
      ensures given == AsItWas ==> global == CommandReply(k.lay, old(k.globals), 2, id) && global != Value(0)
      ensures given == Reply.NoModule ==> global == Reply.NoModule
    {
      ghost var m, l, gs := k.ram[..], k.lay, k.globals;
      ghost var r;
      given, data, r := NewGlobal(id, size, args);
      GivenThenAsked(l, gs, k.lay, k.globals, id, given, data);
      StillSought(m, l, k.ram[..], k.lay, id);
      global := Query(2, id);
    }

    /** core_interrupt_handler for module 0, by command; arg0 and arg1 are the words at args. */
    method CoreCommand(cmd: word, arg0: word, arg1: word, args: word, alloc: Allocator) returns (reply: Reply)
      requires Valid() && (cmd == 1 || cmd == 2 || cmd == 3 ==> Sought(k.ram[..], k.lay, arg0))
      requires cmd == 1 ==> RoomForGlobal(arg1)
      requires cmd == 5 && alloc.ManagerAlloc? ==> heap != null
      modifies this, k, k.ram, heap
      ensures Valid() && SameTables() && heap == old(heap) && allocF == (if cmd == 5 then alloc else old(allocF))
      ensures Stay(old(k.globals), old(owners), k.globals, owners)
      ensures Base() == old(Base()) && LiveBlocks() >= old(LiveBlocks())
      ensures Preserved(old(k.ram[..]), k.ram[..], old(k.lay.regions), old(Base()), old(LiveBlocks()))
      ensures old(HandlerSafe()) ==>
                (HandlerSafe() <==>
                 cmd != 1 || allocF.ManagerAlloc? || reply != Done
                 || ClearSpares(old(k.memory), 4 * arg1 as int, k.irt))
      ensures cmd != 1 ==> k.globals == old(k.globals) && k.memory == old(k.memory) && k.ram[..] == old(k.ram[..])
      ensures reply == CommandReply(old(k.lay), old(k.globals), cmd, arg0)
    {
      if cmd == 1 {
        var done, _, _ := NewGlobal(arg0, arg1, args);
        reply := done;
      } else if 2 <= cmd <= 4 {
        reply := Query(cmd, arg0);
      } else if cmd == 5 {
        SetAllocator(alloc);
        reply := Done;
      } else {
        reply := Reply.NoCmd;
      }
    }

    /** core_interrupt_handler, all of it: id 0 is the core, any other id a module or none. */
    method Handle(id: word, cmd: word, argsSize: word, ptr: word, arg0: word, arg1: word, alloc: Allocator)
      returns (o: Outcome, reply: Reply)
      requires Valid()
      requires id == 0 ==> (cmd == 1 || cmd == 2 || cmd == 3 ==> Sought(k.ram[..], k.lay, arg0))
      requires id == 0 && cmd == 1 ==> RoomForGlobal(arg1)
      requires id == 0 && cmd == 5 && alloc.ManagerAlloc? ==> heap != null
      requires id != 0 ==> CallInMemory(k.ram[..], k.lay, id, cmd)
      modifies this, k, k.ram, heap
      ensures Valid() && SameTables() && heap == old(heap) && Base() == old(Base())
      ensures Stay(old(k.globals), old(owners), k.globals, owners) && LiveBlocks() >= old(LiveBlocks())
      ensures Preserved(old(k.ram[..]), k.ram[..], old(k.lay.regions), old(Base()), old(LiveBlocks()))
      ensures id == 0 ==> o == Own && reply == CommandReply(old(k.lay), old(k.globals), cmd, arg0)
      ensures id != 0 ==> o == Answer(old(k.ram[..]), k.lay, id, cmd, argsSize, ptr) && k.globals == old(k.globals)
    {
      reply := Done;
      if id == 0 {
        o := Own;
        reply := CoreCommand(cmd, arg0, arg1, ptr, alloc);
      } else {
        o := Call(id, cmd, argsSize, ptr);
      }
    }

    /** No byte of the heap is in an image, a page, a node or a bump storage. */
    lemma HeapApart(r: Region, a: nat)
      requires Valid() && heap != null && r in k.lay.regions && r.lo <= a < r.hi
      ensures !(heap.heap <= a < heap.heap + HEAP_SIZE)
    {
      assert r.hi <= k.lay.memory;
    }

    /** A byte of a loaded module is in no other module, page, node, storage or block. */
    lemma ImageApart(i: nat, r: Region, j: nat, a: nat)
      requires Valid() && i < |k.lay.bees| && j < |owners|
      requires k.lay.bees[i].Base() <= a < k.lay.bees[i].Base() + (k.lay.bees[i].span.end - k.lay.bees[i].span.start)
      ensures heap != null ==> a < heap.heap
      ensures r in k.lay.regions && r.lo <= a < r.hi ==> r == k.lay.bees[i].ImageRegion()
      ensures !(k.globals[j] <= a < k.globals[j] + SizeOf(owners[j]))
    {
      var b := k.lay.bees[i];
      assert BeeKnown(k.ram[..], k.lay.regions, k.lay.bees[i]);
      ImageInRegion(b);
      assert OwnerOk(k.lay.regions, Base(), LiveBlocks(), k.globals[j], owners[j]);
      if owners[j].Bump? {
        assert GlobalRegion(k.globals[j], SizeOf(owners[j])) != b.ImageRegion();
      }
    }

    /** A byte of the storage of module i is in no other storage, and in no region but its own. */
    lemma StorageApart(i: nat, j: nat, r: Region, a: nat)
      requires Valid() && i < |owners| && j < |owners| && k.globals[i] <= a < k.globals[i] + SizeOf(owners[i])
      ensures i != j ==> !(k.globals[j] <= a < k.globals[j] + SizeOf(owners[j]))
      ensures r in k.lay.regions && r.lo <= a < r.hi ==> r == GlobalRegion(k.globals[i], SizeOf(owners[i]))
    {
      assert OwnerOk(k.lay.regions, Base(), LiveBlocks(), k.globals[i], owners[i]);
      assert OwnerOk(k.lay.regions, Base(), LiveBlocks(), k.globals[j], owners[j]);
      if i < j {
        assert Apart(k.globals[i], owners[i], k.globals[j], owners[j]);
      } else if j < i {
        assert Apart(k.globals[j], owners[j], k.globals[i], owners[i]);
      }
    }
  }

  /** Module i has storage now, and whoever had some still has it. */
  ghost predicate Owning(i: nat, gs: seq<word>, os: seq<Owner>, gs': seq<word>, os': seq<Owner>) {
    && |gs| == |gs'| == |os| == |os'|
    && i < |gs'| && gs'[i] != 0
    && forall j | 0 <= j < |gs| && gs[j] != 0 :: gs'[j] == gs[j] && os'[j] == os[j]
  }

  function NewGlobalReply(l: Layout, globals: seq<word>, id: word): Reply
    requires |globals| == |l.nodes| <= |l.bees|
  {
    var i := FirstWith(l.bees, |l.nodes|, id);
    if i == |l.nodes| then Reply.NoModule else if globals[i] != 0 then AsItWas else Done
  }

  function CommandReply(l: Layout, globals: seq<word>, cmd: word, arg0: word): Reply
    requires |globals| == |l.nodes| <= |l.bees|
  {
    if cmd == 1 then NewGlobalReply(l, globals, arg0)
    else if 2 <= cmd <= 4 then QueryReply(l, globals, cmd, arg0)
    else if cmd == 5 then Done
    else Reply.NoCmd
  }

  function QueryReply(l: Layout, globals: seq<word>, cmd: word, id: word): Reply
    requires |globals| == |l.nodes| <= |l.bees|
  {
    var i := FirstWith(l.bees, |l.nodes|, id);
    if cmd == 4 then Value(l.memory)
    else if i == |l.nodes| then Reply.NoModule
    else if cmd == 2 then Value(globals[i])
    else Value(l.nodes[i] + 4)
  }

  lemma StillSought(m: Mem, l: Layout, m': Mem, l': Layout, id: word)
    requires |m| >= 4 && |l.nodes| <= |l.bees| && l'.bees == l.bees && l'.nodes == l.nodes && |m'| == |m|
    requires Sought(m, l, id) && (FirstWith(l.bees, |l.nodes|, id) == |l.nodes| ==> m' == m)
    ensures Sought(m', l', id)
  {
  }

  lemma GivenThenAsked(l: Layout, gs: seq<word>, l': Layout, gs': seq<word>, id: word, given: Reply, data: word)
    requires |gs| == |gs'| == |l.nodes| <= |l.bees| && l'.bees == l.bees && l'.nodes == l.nodes
    requires given == NewGlobalReply(l', gs, id)
    requires given == Done ==> gs' == gs[FirstWith(l'.bees, |l'.nodes|, id) := data]
    requires given != Done ==> gs' == gs
    ensures given == Reply.NoModule <==> FirstWith(l.bees, |l.nodes|, id) == |l.nodes|
    ensures given == Done ==> QueryReply(l', gs', 2, id) == Value(data)
    ensures given == AsItWas ==> QueryReply(l', gs', 2, id) == QueryReply(l', gs, 2, id) != Value(0)
    ensures given == Reply.NoModule ==> QueryReply(l', gs', 2, id) == Reply.NoModule
  {
  }

  // ----- what the replies mean

  /** Commands 2 and 3 answer with what a call of the module would hand to it: the pointer to its storage, and
      the address of its CoreData. */
  lemma QueriesAnswerCalls(m: Mem, irt: word, l: Layout, gs: seq<word>, id: word, cmd: word, count: word, ptr: word)
    requires Linked(m, irt, l) && GlobalsHold(m, l.nodes, gs) && CallInMemory(m, l, id, cmd)
    requires Answer(m, l, id, cmd, count, ptr).Called? && FirstWith(l.bees, |l.nodes|, id) < |l.nodes|
    ensures CommandReply(l, gs, 2, id) == Value(Answer(m, l, id, cmd, count, ptr).global)
    ensures CommandReply(l, gs, 3, id) == Value(Answer(m, l, id, cmd, count, ptr).coreData)
  {
    NodeForKnown(m, irt, l, id);
  }

  /** In memory, whether or not the module can be called: command 3 answers where the address of the handler
      and the module's own load base are, behind its id, and command 2 with the word 16 bytes further. */
  lemma QueriesInMemory(m: Mem, irt: word, l: Layout, gs: seq<word>, id: word)
    requires Linked(m, irt, l) && GlobalsHold(m, l.nodes, gs) && FirstWith(l.bees, |l.nodes|, id) < |l.nodes|
    ensures var global, data := CommandReply(l, gs, 2, id), CommandReply(l, gs, 3, id);
            && global.Value? && data.Value? && 4 <= data.v && data.v + 20 <= |m|
            && WordAt(m, data.v - 4) == id && WordAt(m, data.v) == irt
            && WordAt(m, data.v + 4) == l.bees[FirstWith(l.bees, |l.nodes|, id)].Base()
            && WordAt(m, data.v + 16) == global.v
  {
    var i := FirstWith(l.bees, |l.nodes|, id);
    assert NodeKnown(m, irt, l.regions, l.nodes[i], l.bees[i]);
    assert l.nodes[i] + 24 <= |m|;
  }

  /** Commands 1 to 3 report an unknown module exactly when none is registered with the id. Command 1 serves a
      module exactly if command 2 would answer 0, and leaves the pointer as it is exactly if it would answer
      with another. */
  lemma NewGlobalIff(l: Layout, gs: seq<word>, id: word)
    requires |gs| == |l.nodes| <= |l.bees|
    ensures var given, global := CommandReply(l, gs, 1, id), CommandReply(l, gs, 2, id);
            && (given == Reply.NoModule <==> forall i | 0 <= i < |l.nodes| :: l.bees[i].mod.id != id)
            && (given == Reply.NoModule <==> global == Reply.NoModule)
            && (given == Reply.NoModule <==> CommandReply(l, gs, 3, id) == Reply.NoModule)
            && (given == Done <==> global == Value(0))
            && (given == AsItWas <==> global.Value? && global.v != 0)
  {
  }

  /** Command 4 answers with the end of all that was loaded and handed out so far. */
  lemma EndIsFree(l: Layout, gs: seq<word>, id: word, r: Region)
    requires |gs| == |l.nodes| <= |l.bees| && Separate(l.regions, l.memory) && r in l.regions
    ensures var end := CommandReply(l, gs, 4, id);
            end.Value? && r.hi <= end.v
  {
  }

  /** There are five commands. */
  lemma CommandsAre(l: Layout, gs: seq<word>, cmd: word, id: word)
    requires |gs| == |l.nodes| <= |l.bees|
    ensures CommandReply(l, gs, cmd, id) == Reply.NoCmd <==> cmd == 0 || cmd > 5
    ensures cmd == 5 ==> CommandReply(l, gs, cmd, id) == Done
  {
  }

  ghost function OwnerFor(size: word, r: Placement): Owner {
    match r
    case Nowhere => Nobody
    case At(u) => InHeap(Block(u, Heap.BytesToUnits(size), false), size)
  }
}
