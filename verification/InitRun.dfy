/** The inits again, now that they may give commands to the core while the walk over them goes on. */
module InitRun {
  import opened Ram
  import opened ModuleFormat
  import opened NamePages
  import opened KernelLayout
  import opened KernelTables
  import opened HandlerWord
  import opened Answers
  import opened HeapChain
  import opened HeapBytes
  import Heap
  import Kernel
  import opened Disk
  import opened BootScan
  import opened Linkage
  import opened CoreCalls

  /** What an init does: a command to the core, a call to another module, or what the init of the memory
      manager does. */
  datatype Action =
    | Command(cmd: word, arg0: word, arg1: word, args: word, alloc: Allocator)
    | Call(id: word, command: word, argsSize: word, ptr: word)
    | Manage(args: word)

  // ----- what stays through all of it

  /** All that there is to see of the core. */
  datatype State = State(ram: Mem, lay: Layout, page0: nat, globals: seq<word>, owners: seq<Owner>,
                         base: nat, live: set<Block>)

  ghost function Now(core: Core): State
    reads core, core.k, core.k.ram, core.heap
  {
    State(core.k.ram[..], core.k.lay, core.k.page0, core.k.globals, core.owners, core.Base(), core.LiveBlocks())
  }

  /** The modules are the same, whoever had storage has it still, and what was loaded, stored or in a live
      block has the bytes it had. */
  ghost predicate Kept(s: State, t: State) {
    && SameModules(s.lay, t.lay) && t.page0 == s.page0 && s.lay.regions <= t.lay.regions
    && Stay(s.globals, s.owners, t.globals, t.owners)
    && (s.live != {} ==> t.base == s.base) && s.live <= t.live
    && Preserved(s.ram, t.ram, s.lay.regions, s.base, s.live)
  }

  lemma KeptSelf(s: State)
    requires |s.globals| == |s.owners|
    ensures Kept(s, s)
  {
  }

  lemma KeptTrans(s: State, t: State, u: State)
    requires Kept(s, t) && Kept(t, u)
    ensures Kept(s, u)
  {
    StayTrans(s.globals, s.owners, t.globals, t.owners, u.globals, u.owners);
    forall r | r in s.lay.regions && r.kind != Node
      ensures Agree(s.ram, u.ram, r.lo, r.hi)
    {
      AgreeTrans(s.ram, t.ram, u.ram, r.lo, r.hi);
    }
    forall b | b in s.live
      ensures Untouched(s.ram, u.ram, s.base, b)
    {
      assert Untouched(s.ram, t.ram, s.base, b) && Untouched(t.ram, u.ram, s.base, b);
    }
  }

  /** Every module's storage is at the same place with the same contents. */
  ghost predicate ContentsKept(s: State, t: State) {
    && |s.globals| == |s.owners| == |t.globals| == |t.owners| && |s.ram| == |t.ram|
    && forall i | 0 <= i < |s.globals| && s.globals[i] != 0 ::
         && t.globals[i] == s.globals[i] && t.owners[i] == s.owners[i]
         && Agree(s.ram, t.ram, s.globals[i], s.globals[i] + SizeOf(s.owners[i]))
  }

  lemma ContentsStay(s: State, t: State)
    requires Kept(s, t) && OwnersOk(s.lay.regions, s.base, s.live, s.globals, s.owners)
    ensures ContentsKept(s, t)
  {
    forall i | 0 <= i < |s.globals| && s.globals[i] != 0
      ensures Agree(s.ram, t.ram, s.globals[i], s.globals[i] + SizeOf(s.owners[i]))
    {
      assert OwnerOk(s.lay.regions, s.base, s.live, s.globals[i], s.owners[i]);
      forall a | 0 <= a < |s.ram| && s.globals[i] <= a < s.globals[i] + SizeOf(s.owners[i])
        ensures t.ram[a] == s.ram[a]
      {
        StoragePreserved(s.ram, t.ram, s.lay.regions, s.base, s.live, s.globals[i], s.owners[i], a);
      }
    }
  }

  /** A module with storage is told the same place by command 2 ever after, and the same CoreData by command 3;
      and command 1 gives it no other. */
  lemma AnswersStay(s: State, t: State, id: word)
    requires Kept(s, t) && |s.globals| == |s.lay.nodes| <= |s.lay.bees|
    requires FirstWith(s.lay.bees, |s.lay.nodes|, id) < |s.lay.nodes|
    requires CommandReply(s.lay, s.globals, 2, id) != Value(0)
    ensures CommandReply(t.lay, t.globals, 2, id) == CommandReply(s.lay, s.globals, 2, id)
    ensures CommandReply(t.lay, t.globals, 3, id) == CommandReply(s.lay, s.globals, 3, id)
    ensures CommandReply(t.lay, t.globals, 1, id) == AsItWas
  {
  }

  ghost predicate SameModules(l: Layout, l': Layout) {
    l'.bees == l.bees && l'.nodes == l.nodes && l'.pages == l.pages
  }

  lemma CallsSame(calls: seq<InitCall>, l: Layout, l': Layout, order: seq<nat>)
    requires SameModules(l, l') && CallsAre(calls, l, order)
    ensures CallsAre(calls, l', order)
  {
    forall j | 0 <= j < |calls|
      ensures CallIs(calls[j], l', order[j])
    {
      assert CallIs(calls[j], l, order[j]);
    }
  }

  /** The walk finds the names where it left them. */
  lemma WalkPreserved(m: Mem, m': Mem, l: Layout, pg: nat, start: nat)
    requires PagesPlaced(l) && RegionsKept(m, m', l.regions) && pg <= |l.pages|
    requires WalkAt(m, l.pages[pg..], l.bees, start)
    ensures WalkAt(m', l.pages[pg..], l.bees, start)
  {
    var ps := l.pages[pg..];
    forall j | 0 <= j < |ps|
      ensures Agree(m, m', ps[j], ps[j] + PAGE_SIZE)
    {
      var r := PageRegion(l.pages[pg + j]);
      assert r in l.regions && Agree(m, m', r.lo, r.hi);
    }
    NamesKept(m, m', ps, l.bees[start..]);
  }

  /** The core is as sound as before, and nothing was lost. */
  twostate predicate Quiet(core: Core)
    reads core, core.k, core.k.ram, core.k.idNodes, core.heap
  {
    core.Valid() && Kept(old(Now(core)), Now(core)) && (core.heap == old(core.heap) || fresh(core.heap))
  }

  /** Whether the core can do what the command asks for. */
  method Permitted(core: Core, a: Action) returns (ok: bool)
    requires core.Valid() && a.Command?
    ensures ok && 1 <= a.cmd <= 3 ==> Sought(core.k.ram[..], core.k.lay, a.arg0)
    ensures ok && a.cmd == 1 ==> core.RoomForGlobal(a.arg1)
    ensures ok && a.cmd == 5 && a.alloc.ManagerAlloc? ==> core.heap != null
  {
    ok := true;
    if 1 <= a.cmd <= 3 {
      var node := core.k.LookupID(a.arg0);
      if node != 0 {
        var p := core.k.idNodes[node - 1];
        assert p == core.k.idNodes[..][node - 1];
        ok := p != 0;
      }
    }
    if a.cmd == 1 {
      var room := HasRoom(core, a.arg1);
      ok := ok && room;
    }
    if a.cmd == 5 && a.alloc == ManagerAlloc && core.heap == null {
      ok := false;
    }
  }

  method HasRoom(core: Core, size: word) returns (room: bool)
    requires core.Valid()
    ensures room ==> core.RoomForGlobal(size)
  {
    match core.allocF {
      case BumpAlloc =>
        var limit := if core.heap == null then core.k.ram.Length else core.heap.heap;
        room := core.k.memory < WORD_MOD && core.k.memory + 4 * size as int <= limit;
      case ManagerAlloc =>
        room := size <= Heap.MAX_PAYLOAD && CORE_GLOBAL_MEMORY + 4 <= core.k.ram.Length;
        if room {
          var handler := LoadWord(core.k.ram, CORE_GLOBAL_MEMORY);
          room := handler == core.k.irt;
        }
      case OtherAlloc(_) => room := false;
    }
  }

  /** Whether the memory manager can take over. */
  method CanManage(core: Core) returns (ok: bool)
    requires core.Valid()
    ensures ok ==> core.heap == null && core.allocF == BumpAlloc && Provides(core.k.lay, MEMORY_MANAGER, 1)
    ensures ok ==> core.k.memory + 4 <= Heap.MAX_PAYLOAD
                   && core.k.memory + 4 + UNIT_SIZE + HEADER + HEAP_SIZE <= core.k.ram.Length
  {
    ok := false;
    if core.heap == null && core.allocF == BumpAlloc && core.k.memory + 4 <= Heap.MAX_PAYLOAD
       && core.k.memory + 4 + UNIT_SIZE + HEADER + HEAP_SIZE <= core.k.ram.Length {
      ok := HasAllocator(core.k);
    }
  }

  /** Whether the memory manager is registered and exports its allocator. */
  method HasAllocator(k: Kernel.Kernel) returns (ok: bool)
    requires k.Running()
    ensures ok ==> Provides(k.lay, MEMORY_MANAGER, 1)
  {
    var node := k.LookupID(MEMORY_MANAGER);
    if node == 0 {
      return false;
    }
    ghost var l, i := k.lay, node - 1;
    var p := k.idNodes[node - 1];
    assert p == k.idNodes[..][i];
    if p == 0 {
      return false;
    }
    assert NodeKnown(k.ram[..], k.irt, l.regions, l.nodes[i], l.bees[i]);
    var count := LoadWord(k.ram, p + 24);
    if count == 0 || count == 0xFFFF_FFFF {
      return false;
    }
    TableHolds(MaxId(l.bees[i].mod.exports), count);
    assert SlotAt(k.ram[..], p + SLOTS_AT, l.bees[i].Base(), l.bees[i].mod.exports, 1);
    var func := LoadWord(k.ram, p + SLOTS_AT + 4);
    ok := func != 0;
  }

  lemma TableHolds(max: int, count: word)
    requires -1 <= max < 0x8000_0000 && count == max % WORD_MOD && count != 0 && count != 0xFFFF_FFFF
    ensures 1 <= max
  {
  }

  /** Whether there is memory where a call would be looked up. */
  method CanCall(core: Core, id: word, cmd: word) returns (ok: bool)
    requires core.Valid()
    ensures ok ==> id != 0 && CallInMemory(core.k.ram[..], core.k.lay, id, cmd)
  {
    ok := id != 0;
    if ok {
      var node := core.k.LookupID(id);
      if node != 0 {
        var p := core.k.idNodes[node - 1];
        assert p == core.k.idNodes[..][node - 1];
        ok := (p + SLOTS_AT + 4 * cmd as int) % WORD_MOD + 4 <= core.k.ram.Length && p + 24 <= core.k.ram.Length;
      }
    }
  }

  /** One action of an init; one that the core cannot serve is not taken. */
  method Obey(core: Core, a: Action)
    requires core.Valid()
    modifies core, core.k, core.k.ram, core.heap
    ensures Quiet(core)
  {
    match a {
      case Command(_, _, _, _, _) => Ask(core, a);
      case Call(id, cmd, argsSize, ptr) =>
        var ok := CanCall(core, id, cmd);
        if ok {
          var _ := core.Call(id, cmd, argsSize, ptr);
        }
      case Manage(args) => Manage(core, args);
    }
  }

  method Ask(core: Core, a: Action)
    requires core.Valid() && a.Command?
    modifies core, core.k, core.k.ram, core.heap
    ensures Quiet(core)
  {
    var ok := Permitted(core, a);
    if ok {
      var _ := core.CoreCommand(a.cmd, a.arg0, a.arg1, a.args, a.alloc);
    }
  }

  method Manage(core: Core, args: word)
    requires core.Valid()
    modifies core, core.k, core.k.ram, core.heap
    ensures Quiet(core)
  {
    var ok := CanManage(core);
    if ok {
      core.TakeOver(args);
    }
  }

  method ObeyAll(core: Core, script: seq<Action>)
    requires core.Valid()
    modifies core, core.k, core.k.ram, core.heap
    ensures Quiet(core)
  {
    ghost var start := Now(core);
    for i := 0 to |script|
      invariant core.Valid() && Kept(start, Now(core)) && (core.heap == old(core.heap) || fresh(core.heap))
    {
      ghost var now := Now(core);
      Obey(core, script[i]);
      KeptTrans(start, now, Now(core));
    }
  }

  // ----- the walk

  lemma PassSame(calls: seq<InitCall>, l: Layout, l': Layout, n: nat, s: nat)
    requires SameModules(l, l') && PassIs(calls, l, n, s)
    ensures PassIs(calls, l', n, s)
  {
    CallsSame(calls, l, l', WithPriority(l.bees, n, s));
  }

  /** The script of the init that is called next, if it has one. */
  function ScriptOf(scripts: seq<seq<Action>>, i: nat): seq<Action> {
    if i < |scripts| then scripts[i] else []
  }

  /** The bee in this slot: its init is called if its priority is s, and takes its actions. */
  method StepOver(core: Core, slot: nat, s: nat, ghost n: nat, calls: seq<InitCall>, script: seq<Action>)
    returns (calls': seq<InitCall>)
    requires core.Valid() && n < |core.k.lay.nodes| && slot + SLOT_SIZE <= core.k.ram.Length
    requires WordAt(core.k.ram[..], slot + NAME_SIZE) == core.k.lay.bees[n].data
    requires PassIs(calls, core.k.lay, n, s)
    modifies core, core.k, core.k.ram, core.heap
    ensures Quiet(core) && PassIs(calls', core.k.lay, n + 1, s)
  {
    calls' := core.k.PassOne(slot, s, n, calls);
    ghost var l := core.k.lay;
    if |calls'| > |calls| {
      ObeyAll(core, script);
    }
    PassSame(calls', l, core.k.lay, n + 1, s);
  }

  /** The walk stands at slot i of page pg, in front of bee n. */
  ghost predicate Standing(core: Core, l: Layout, pg: nat, cur: nat, start: nat, i: nat, n: nat)
    reads core, core.k, core.k.ram
  {
    && SameModules(l, core.k.lay)
    && pg < |l.pages| && l.pages[pg] == cur && cur + PAGE_SIZE <= core.k.ram.Length
    && i < PAGE_SLOTS && n == start + i <= |l.nodes| == RegCount(l.bees)
    && WalkAt(core.k.ram[..], l.pages[pg..], l.bees, start)
  }

  /** One slot further, on this page or the next, and whether there is a name. */
  method Advance(core: Core, ghost l: Layout, ghost pg: nat, cur: nat, ghost start: nat, i: nat, ghost n: nat)
    returns (more: bool, ghost pg': nat, cur': nat, ghost start': nat, i': nat)
    requires Standing(core, l, pg, cur, start, i, n) && n < |l.nodes|
    ensures more <==> n + 1 < |l.nodes|
    ensures more ==> Standing(core, l, pg', cur', start', i', n + 1)
  {
    pg', cur', start', i', more := pg, cur, start, i + 1, true;
    if i' == 14 {
      WalkNext(core.k.ram[..], l.pages[pg..], l.bees, start);
      var next := LoadWord(core.k.ram, cur + NEXT_AT);
      if next == 0 {
        more := false;
      } else {
        assert l.pages[pg..][1..] == l.pages[pg + 1..];
        pg', cur', start', i' := pg + 1, next, start + PAGE_SLOTS, 0;
      }
    }
    if more {
      more := MoreNames(core, l, pg', cur', start', i', n + 1);
    }
  }

  /** Whether the name in slot i is not empty. */
  method MoreNames(core: Core, ghost l: Layout, ghost pg: nat, cur: nat, ghost start: nat, i: nat, ghost n: nat)
    returns (more: bool)
    requires Standing(core, l, pg, cur, start, i, n)
    ensures more <==> n < |l.nodes|
  {
    WalkSlot(core.k.ram[..], l.pages[pg..], l.bees, start, i, n);
    more := core.k.ram[SlotAddr(cur, i)] != 0;
  }

  /** The bee in slot i, and all that was kept since the state `was`. */
  method StepKept(core: Core, ghost l: Layout, ghost pg: nat, cur: nat, ghost start: nat, i: nat, ghost n: nat, s: nat,
                  calls: seq<InitCall>, script: seq<Action>, ghost was: State)
    returns (calls': seq<InitCall>)
    requires core.Valid() && Standing(core, l, pg, cur, start, i, n) && n < |l.nodes| && PassIs(calls, l, n, s)
    requires Kept(was, Now(core))
    modifies core, core.k, core.k.ram, core.heap
    ensures core.Valid() && Kept(was, Now(core)) && (core.heap == old(core.heap) || fresh(core.heap))
    ensures PassIs(calls', l, n + 1, s) && Standing(core, l, pg, cur, start, i, n)
  {
    ghost var now := Now(core);
    calls' := StepThere(core, l, pg, cur, start, i, n, s, calls, script);
    KeptTrans(was, now, Now(core));
  }

  /** The bee in slot i; the walk still stands there afterwards. */
  method StepThere(core: Core, ghost l: Layout, ghost pg: nat, cur: nat, ghost start: nat, i: nat, ghost n: nat, s: nat,
                   calls: seq<InitCall>, script: seq<Action>)
    returns (calls': seq<InitCall>)
    requires core.Valid() && Standing(core, l, pg, cur, start, i, n) && n < |l.nodes| && PassIs(calls, l, n, s)
    modifies core, core.k, core.k.ram, core.heap
    ensures Quiet(core) && PassIs(calls', l, n + 1, s) && Standing(core, l, pg, cur, start, i, n)
  {
    ghost var m, now := core.k.ram[..], core.k.lay;
    WalkSlot(m, l.pages[pg..], l.bees, start, i, n);
    PassSame(calls, l, now, n, s);
    calls' := StepOver(core, SlotAddr(cur, i), s, n, calls, script);
    PassSame(calls', core.k.lay, l, n + 1, s);
    WalkPreserved(m, core.k.ram[..], now, pg, start);
  }

  /** The walk begins at the first page. */
  method StartWalk(core: Core, page: nat) returns (more: bool)
    requires core.Valid() && core.k.AllLinked() && page == core.k.page0
    ensures more <==> 0 < |core.k.lay.nodes|
    ensures Standing(core, core.k.lay, 0, page, 0, 0, 0)
  {
    ghost var l := core.k.lay;
    WalkStart(core.k.ram[..], l);
    assert l.pages[0..] == l.pages;
    WalkSlot(core.k.ram[..], l.pages, l.bees, 0, 0, 0);
    more := MoreNames(core, l, 0, page, 0, 0, 0);
  }

  /** One bee, and one slot further. */
  method PassOver(core: Core, ghost l: Layout, ghost pg: nat, cur: nat, ghost start: nat, i: nat, ghost n: nat, s: nat,
                  calls: seq<InitCall>, script: seq<Action>, ghost was: State)
    returns (more: bool, ghost pg': nat, cur': nat, ghost start': nat, i': nat, calls': seq<InitCall>)
    requires core.Valid() && Standing(core, l, pg, cur, start, i, n) && n < |l.nodes| && PassIs(calls, l, n, s)
    requires Kept(was, Now(core))
    modifies core, core.k, core.k.ram, core.heap
    ensures core.Valid() && Kept(was, Now(core)) && (core.heap == old(core.heap) || fresh(core.heap))
    ensures PassIs(calls', l, n + 1, s)
    ensures more <==> n + 1 < |l.nodes|
    ensures more ==> Standing(core, l, pg', cur', start', i', n + 1)
  {
    calls' := StepKept(core, l, pg, cur, start, i, n, s, calls, script, was);
    more, pg', cur', start', i' := Advance(core, l, pg, cur, start, i, n);
  }

  /** The inits of one priority. */
  method InitPass(core: Core, page: nat, s: nat, done: nat, scripts: seq<seq<Action>>) returns (calls: seq<InitCall>)
    requires core.Valid() && core.k.AllLinked() && page == core.k.page0
    modifies core, core.k, core.k.ram, core.heap
    ensures Quiet(core) && PassIs(calls, old(core.k.lay), |core.k.lay.nodes|, s)
  {
    calls := [];
    ghost var l, was := core.k.lay, Now(core);
    KeptSelf(was);
    var cur, i := page, 0;
    ghost var pg: nat, start: nat, n: nat := 0, 0, 0;
    var more := StartWalk(core, page);
    while more
      invariant core.Valid() && Kept(was, Now(core)) && (core.heap == old(core.heap) || fresh(core.heap))
      invariant more ==> n < |l.nodes| && Standing(core, l, pg, cur, start, i, n)
      invariant PassIs(calls, l, if more then n else |l.nodes|, s)
      decreases |l.nodes| - n, more
    {
      var script := ScriptOf(scripts, done + |calls|);
      more, pg, cur, start, i, calls := PassOver(core, l, pg, cur, start, i, n, s, calls, script, was);
      n := if more then n + 1 else n;
    }
  }

  /** One priority more. */
  method NextPriority(core: Core, page: nat, s: nat, calls: seq<InitCall>, scripts: seq<seq<Action>>, ghost l: Layout)
    returns (calls': seq<InitCall>)
    requires core.Valid() && core.k.AllLinked() && page == core.k.page0 && SameModules(l, core.k.lay)
    requires CallsAre(calls, l, InitOrder(l.bees, |l.nodes|, s))
    modifies core, core.k, core.k.ram, core.heap
    ensures Quiet(core) && SameModules(l, core.k.lay)
    ensures CallsAre(calls', l, InitOrder(l.bees, |l.nodes|, s + 1))
  {
    ghost var now := core.k.lay;
    var more := InitPass(core, page, s, |calls|, scripts);
    PassSame(more, now, l, |l.nodes|, s);
    CallsGrow(calls, more, l, InitOrder(l.bees, |l.nodes|, s), WithPriority(l.bees, |l.nodes|, s));
    calls' := calls + more;
  }

  method AllInits(core: Core, page: nat, scripts: seq<seq<Action>>) returns (calls: seq<InitCall>)
    requires core.Valid() && core.k.AllLinked() && page == core.k.page0
    modifies core, core.k, core.k.ram, core.heap
    ensures Quiet(core)
    ensures CallsAre(calls, old(core.k.lay), InitOrder(core.k.lay.bees, |core.k.lay.nodes|, 256))
  {
    calls := [];
    ghost var l, was := core.k.lay, Now(core);
    KeptSelf(was);
    for s := 0 to 256
      invariant core.Valid() && Kept(was, Now(core)) && (core.heap == old(core.heap) || fresh(core.heap))
      invariant CallsAre(calls, l, InitOrder(l.bees, |l.nodes|, s))
    {
      ghost var now := Now(core);
      calls := NextPriority(core, page, s, calls, scripts, l);
      KeptTrans(was, now, Now(core));
    }
  }

  /** Whatever the inits ask of the core: every registered module's init is called once, in the order of a
      stable sort by priority, with its own CoreData. When all have returned the core is sound, and every
      pointer and all contents that there were before are unchanged. */
  method RunInits(core: Core, page: nat, scripts: seq<seq<Action>>) returns (calls: seq<InitCall>)
    requires core.Valid() && core.k.AllLinked() && page == core.k.page0
    modifies core, core.k, core.k.ram, core.heap
    ensures Quiet(core) && ContentsKept(old(Now(core)), Now(core))
    ensures CallsAre(calls, old(core.k.lay), InitOrder(core.k.lay.bees, |core.k.lay.nodes|, 256))
  {
    ghost var was := Now(core);
    assert OwnersOk(was.lay.regions, was.base, was.live, was.globals, was.owners);
    calls := AllInits(core, page, scripts);
    ContentsStay(was, Now(core));
  }

  /** main: a disk becomes a running core. What the inits ask for keeps everything that calls rely on, the
      images included. */
  method Boot(k: Kernel.Kernel, scripts: seq<seq<Action>>) returns (core: Core, calls: seq<InitCall>)
    requires k.memory == BUMP_START && k.lastEnd == 512 && k.CanBoot()
    modifies k, k.idNodes, k.ram
    ensures fresh(core) && core.k == k && core.Valid()
    ensures Booted(k.ram[..], k.disk, k.irt, k.lay, k.globals)
    ensures ImagesAre(k.ram[..], k.disk, k.lay.bees, k.irt)
    ensures k.lay.bees == LayoutAfter(k.disk, Spans(k.disk, 512), |Spans(k.disk, 512)|).bees
    ensures CallsAre(calls, k.lay, InitOrder(k.lay.bees, |k.lay.nodes|, 256))
  {
    k.LoadAndLink();
    core := new Core(k);
    ghost var l, m := k.lay, k.ram[..];
    calls := RunInits(core, k.page0, scripts);
    CallsSame(calls, l, k.lay, InitOrder(l.bees, |l.nodes|, 256));
    ImagesStay(m, k.ram[..], k.disk, l, k.irt);
  }
}
