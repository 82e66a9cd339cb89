/** The core: finds modules on disk, loads them, links them, and passes calls on. */
module Kernel {
  import opened Ram
  import opened Wrappers
  import opened Disk
  import opened ModuleFormat
  import opened NamePages
  import opened Loader
  import opened KernelLayout
  import opened BootScan
  import opened KernelTables
  import opened Linker
  import opened HandlerWord
  import opened Answers

  class Kernel {
    const ram: array<byte>
    const disk: Disk
    const irt: word
    const idNodes: array<nat>
    var memory: nat
    var lastEnd: nat
    var page0: nat
    ghost var lay: Layout
    ghost var globals: seq<word>

    constructor (ram: array<byte>, disk: Disk, irt: word)
      ensures this.ram == ram && this.disk == disk && this.irt == irt
      ensures memory == BUMP_START && lastEnd == 512 && idNodes.Length == MAX_BEES && fresh(idNodes)
    {
      this.ram, this.disk, this.irt := ram, disk, irt;
      idNodes := new nat[MAX_BEES];
      memory, lastEnd, page0 := BUMP_START, 512, 0;
      lay := Layout([], [], [], {}, BUMP_START);
      globals := [];
    }

    /** BEE_SCAN_AND_LOAD: the address of the next module, 0 when there is none. */
    method ScanAndLoad() returns (r: nat)
      requires 512 <= lastEnd && |disk.bytes| < WORD_MOD && BUMP_START <= memory
      requires memory + |disk.bytes| <= ram.Length
      modifies `memory, `lastEnd, ram
      ensures Agree(old(ram[..]), ram[..], 0, old(memory))
      ensures Scanned(ram[..], disk, old(lastEnd), old(memory), lastEnd, memory, r)
    {
      var start, end := FindSpan();
      if start == 0 {
        return 0;
      }
      r := CopySpan(start, end);
    }

    /** The first half of BEE_SCAN_AND_LOAD: where the next module starts, and where it ends. */
    method FindSpan() returns (start: nat, end: nat)
      requires 512 <= lastEnd && |disk.bytes| < WORD_MOD
      modifies `lastEnd
      ensures start == Next(disk, old(lastEnd))
      ensures start == 0 ==> lastEnd == old(lastEnd)
      ensures start != 0 ==> 512 <= start < WORD_MOD && lastEnd == end == Next(disk, start + 4) + 4
      ensures start != 0 && end != 4 ==> SpanOk(disk, Span(start, end))
    {
      start := FindBee(disk, lastEnd);
      if start == 0 {
        return 0, 0;
      }
      NextZero(disk, lastEnd);
      NextZero(disk, start + 4);
      var found := FindBee(disk, start + 4);
      end := (found + 4) % WORD_MOD;
      lastEnd := end;
      // The test for end == 0 that follows here in the source can never succeed.
      assert end >= 4;
      if found != 0 {
        SpanReadable(disk, old(lastEnd), start, found);
      }
    }

    /** makeBeeData with the move of the bump pointer. */
    method MakeData(address: nat, ghost b: Bee)
      requires Loaded(ram[..], disk, lay) && NewImage(ram[..], disk, lay, b) && address == b.Base()
      requires memory == b.data && memory + DataRoom(b.mod) <= ram.Length
      modifies `memory, ram
      ensures Loaded(ram[..], disk, lay) && memory == b.data + DataRoom(b.mod)
      ensures SameLow(old(ram[..]), ram[..])
      ensures BeeLoaded(ram[..], disk, RegionsWith(lay, b), b)
    {
      ghost var m := ram[..];
      HeaderCopied(disk.bytes, b.span.start, m, address, b.span.end - b.span.start, b.mod);
      var room := MakeBeeData(ram, address, memory, b.mod);
      LoadedKept(m, ram[..], disk, lay);
      ImageKept(m, ram[..], disk, b.span, b.Base());
      memory := memory + room;
    }

    /** addNameToPage for the module just loaded: memory is as it has to be for the layout with that module. */
    method RecordName(e: Entry, pageIndex: nat, ghost b: Bee)
      requires Loaded(ram[..], disk, lay) && lay.pages != [] && page0 == lay.pages[0] && pageIndex == |lay.bees|
      requires BeeLoaded(ram[..], disk, RegionsWith(lay, b), b)
      requires b.lo == lay.memory && b.data == b.lo + ImageSize(b.span) && memory == b.data + DataRoom(b.mod)
      requires e.name == b.mod.name && e.data == b.data
      requires memory + PAGE_SIZE <= ram.Length
      modifies `memory, ram
      ensures Loaded(ram[..], disk, Grown(lay, b)) && Grown(lay, b).memory == memory <= old(memory) + PAGE_SIZE
      ensures Grown(lay, b).pages != [] && Grown(lay, b).pages[0] == page0
      ensures SameLow(old(ram[..]), ram[..])
    {
      ghost var m, lo := ram[..], memory;
      ghost var pages' := StoreName(e, pageIndex);
      NameAdded(m, ram[..], disk, lay, b, e, pages', lo, memory);
    }

    /** The call of addNameToPage. */
    method StoreName(e: Entry, pageIndex: nat) returns (ghost pages': seq<nat>)
      requires NamesHeld(ram[..], lay.pages, lay.bees) && Ascending(lay.pages, memory)
      requires lay.pages != [] && page0 == lay.pages[0] && pageIndex == |lay.bees| && |e.name| == NAME_SIZE
      requires memory + PAGE_SIZE <= ram.Length <= WORD_MOD
      modifies `memory, ram
      ensures Named(old(ram[..]), ram[..], lay.pages, pages', lay.bees, e, old(memory), memory)
      ensures memory <= ram.Length
    {
      ghost var es := EntriesOf(lay.bees);
      memory, pages' := AddNameToPage(ram, memory, page0, pageIndex, e, lay.pages, es, true);
    }

    /** An empty name page at the start of the bump area. */
    method FirstPage()
      requires memory == BUMP_START && BUMP_START + PAGE_SIZE <= ram.Length <= WORD_MOD
      modifies `page0, `memory, `lay, ram
      ensures Loaded(ram[..], disk, lay) && lay.memory == memory == BUMP_START + PAGE_SIZE
      ensures lay.pages == [page0]
      ensures lay == Layout([BUMP_START], [], [], {PageRegion(BUMP_START)}, BUMP_START + PAGE_SIZE)
      ensures SameLow(old(ram[..]), ram[..])
    {
      page0 := memory;
      StoreWord(ram, page0 + NEXT_AT, 0);
      ghost var m := ram[..];
      StoreByte(ram, page0, 0);
      WordKept(m, ram[..], page0 + NEXT_AT, page0, page0 + 1);
      memory := memory + PAGE_SIZE;
      lay := Layout([page0], [], [], {PageRegion(page0)}, memory);
      assert ChainHolds(ram[..], [page0], [], true);
    }

    /** The first half of main: every module on the disk is loaded and registered, in disk order. */
    method LoadModules()
      requires memory == BUMP_START && lastEnd == 512 && ram.Length <= WORD_MOD && |disk.bytes| < WORD_MOD
      requires HeadersOk(disk, Spans(disk, 512))
      requires Dangling(disk, 512) == 0 || 1024 <= Dangling(disk, 512)
      requires BUMP_START + PAGE_SIZE + RoomFor(disk, Spans(disk, 512), 0) + |disk.bytes| <= ram.Length
      modifies this, ram
      ensures Loaded(ram[..], disk, lay) && lay.memory == memory && lay.pages != [] && page0 == lay.pages[0]
      ensures BeesAre(disk, lay.bees, Spans(disk, 512)) && |lay.bees| == |Spans(disk, 512)|
      ensures lay == LayoutAfter(disk, Spans(disk, 512), |Spans(disk, 512)|) && Spread(lay)
      ensures SameLow(old(ram[..]), ram[..])
    {
      ghost var ss := Spans(disk, 512);
      forall i | 0 <= i <= |ss|
        ensures Findable(disk, ss, i)
      {
        SpansFindable(disk, ss, i);
      }
      FirstPage();
      LoadRest(ss);
    }

    /** The first n modules are loaded, and there is room for the others. */
    ghost predicate Reached(ss: seq<Span>, n: nat)
      reads this, ram
    {
      && Spread(lay)
      && Loaded(ram[..], disk, lay) && lay.memory == memory && lay.pages != [] && page0 == lay.pages[0]
      && HeadersOk(disk, ss) && n == |lay.bees| <= |ss| && BeesAre(disk, lay.bees, ss)
      && lay == LayoutAfter(disk, ss, n)
      && memory + RoomFor(disk, ss, n) + |disk.bytes| <= ram.Length
    }

    /** The boot loop. */
    method LoadRest(ghost ss: seq<Span>)
      requires Reached(ss, 0) && lastEnd == 512 && |disk.bytes| < WORD_MOD && AllFindable(disk, ss)
      modifies this, ram
      ensures Reached(ss, |ss|) && SameLow(old(ram[..]), ram[..])
    {
      var pageIndex := 0;
      while true
        invariant SameLow(old(ram[..]), ram[..]) && pageIndex <= |ss|
        invariant Reached(ss, pageIndex) && lastEnd == From(ss, pageIndex)
        decreases |ss| - pageIndex
      {
        var more := LoadNext(pageIndex, ss);
        if !more {
          return;
        }
        pageIndex := pageIndex + 1;
      }
    }

    /** The body of the boot loop. */
    method LoadNext(pageIndex: nat, ghost ss: seq<Span>) returns (more: bool)
      requires pageIndex <= |ss| && Reached(ss, pageIndex) && lastEnd == From(ss, pageIndex)
      requires |disk.bytes| < WORD_MOD && AllFindable(disk, ss)
      modifies this, ram
      ensures SameLow(old(ram[..]), ram[..])
      ensures more <==> pageIndex < |ss|
      ensures more ==> Reached(ss, pageIndex + 1) && lastEnd == From(ss, pageIndex + 1)
      ensures !more ==> Reached(ss, |ss|)
    {
      var address := NextImage(ss, pageIndex);
      more := address != 0;
      if more {
        RegisterNext(address, pageIndex, ss);
      }
    }

    /** Registers the image just fetched as module pageIndex. */
    method RegisterNext(address: nat, pageIndex: nat, ghost ss: seq<Span>)
      requires Loaded(ram[..], disk, lay) && lay.pages != [] && page0 == lay.pages[0]
      requires pageIndex == |lay.bees| < |ss| && BeesAre(disk, lay.bees, ss)
      requires Fetched(ram[..], disk, lay, ss, pageIndex, lastEnd, memory, address)
      requires HeadersOk(disk, ss) && lay.memory + RoomFor(disk, ss, pageIndex) + |disk.bytes| <= ram.Length
      requires lay == LayoutAfter(disk, ss, pageIndex) && Spread(lay)
      modifies `memory, `lay, ram
      ensures Reached(ss, pageIndex + 1) && SameLow(old(ram[..]), ram[..])
    {
      ghost var b, bees := NextBee(disk, lay, ss[pageIndex]), lay.bees;
      ImageTakesSector(disk, ss[pageIndex]);
      SpreadGrows(lay, b);
      RoomStep(disk, ss, pageIndex, ram.Length - |disk.bytes| - lay.memory);
      Register(address, pageIndex, b);
      BeesFollow(disk, ss, bees, lay.bees, b);
    }

    /** Data page and name for the image just loaded. */
    method Register(address: nat, pageIndex: nat, ghost b: Bee)
      requires Loaded(ram[..], disk, lay) && lay.pages != [] && page0 == lay.pages[0] && pageIndex == |lay.bees|
      requires NewImage(ram[..], disk, lay, b) && address == b.Base() && memory == b.data
      requires memory + DataRoom(b.mod) + PAGE_SIZE <= ram.Length
      modifies `memory, `lay, ram
      ensures Loaded(ram[..], disk, lay) && lay.memory == memory && lay.pages != [] && page0 == lay.pages[0]
      ensures SameLow(old(ram[..]), ram[..])
      ensures lay == Grown(old(lay), b) && memory <= old(memory) + DataRoom(b.mod) + PAGE_SIZE
    {
      NameCopied(ram[..], disk, b);
      var name := ram[address + 9..address + 9 + NAME_SIZE];
      var data := memory;
      MakeData(address, b);
      RecordName(Entry(name, data), pageIndex, b);
      lay := Grown(lay, b);
    }

    /** The scan as the boot loop uses it. */
    method NextImage(ghost ss: seq<Span>, ghost i: nat) returns (r: nat)
      requires Loaded(ram[..], disk, lay) && lay.memory == memory && |disk.bytes| < WORD_MOD
      requires i <= |ss| && AllFindable(disk, ss) && lastEnd == From(ss, i)
      requires memory + RoomFor(disk, ss, i) + |disk.bytes| <= ram.Length
      modifies `memory, `lastEnd, ram
      ensures Loaded(ram[..], disk, lay)
      ensures SameLow(old(ram[..]), ram[..])
      ensures Fetched(ram[..], disk, lay, ss, i, lastEnd, memory, r)
    {
      ghost var m := ram[..];
      assert Findable(disk, ss, i);
      if i < |ss| {
        RoomStep(disk, ss, i, ram.Length - memory);
      }
      r := ScanAndLoad();
      LoadedKept(m, ram[..], disk, lay);
      LowKept(m, ram[..]);
      ScanFetches(ram[..], disk, lay, ss, i, lastEnd, memory, r);
    }

    /** The second half of BEE_SCAN_AND_LOAD: the sectors from start to end into memory. */
    method CopySpan(start: nat, end: nat) returns (r: nat)
      requires 512 <= start < WORD_MOD && |disk.bytes| < WORD_MOD && BUMP_START <= memory
      requires memory + |disk.bytes| <= ram.Length
      requires end == 4 || SpanOk(disk, Span(start, end))
      modifies `memory, ram
      ensures Agree(old(ram[..]), ram[..], 0, old(memory))
      ensures end == 4 ==> memory == old(memory) && r == if start < 1024 then old(memory) + start % 512 else 0
      ensures end != 4 ==> r == old(memory) + start % 512 && memory == old(memory) + ImageSize(Span(start, end))
      ensures end != 4 ==> ImageAt(ram[..], disk, Span(start, end), r)
    {
      var sectorStart := start / SECTOR;
      var sectorEnd := end / SECTOR + (if end % SECTOR > 0 then 1 else 0);
      var count := if sectorEnd >= sectorStart then sectorEnd - sectorStart else sectorEnd - sectorStart + WORD_MOD;
      var failed := CopySectors(ram, disk, sectorStart, count, memory);
      if end == 4 {
        NoSuchRun(disk, sectorStart, count);
      }
      if failed {
        return 0;
      }
      r := memory + start % SECTOR;
      memory := memory + SECTOR * count;
      if end != 4 {
        SectorsHoldImage(ram[..], disk, Span(start, end), old(memory));
      }
    }

    // ----- linking

    ghost predicate Running()
      reads this, ram, idNodes
    {
      && Linked(ram[..], irt, lay)
      && ArrayHolds(idNodes[..], lay.nodes) && GlobalsHold(ram[..], lay.nodes, globals)
    }

    /** While nodes are made, nobody has global storage yet. */
    ghost predicate Building()
      reads this, ram, idNodes
    {
      Running() && AllZero(globals) && lay.memory == memory && lay.pages != [] && page0 == lay.pages[0]
    }

    ghost predicate Linking()
      reads this, ram, idNodes
    {
      Building() && Growing(lay) && HandlerIs(ram[..], lay, irt)
    }

    /** The node for the module whose data page is given. */
    method BuildNode(data: word, n: nat)
      requires Building() && n == |lay.nodes| < |lay.bees| && n < MAX_BEES && data == lay.bees[n].data
      requires memory + NodeSize(lay.bees[n].mod) <= ram.Length && SmallIds(lay.bees[n].mod.exports)
      modifies `memory, `lay, `globals, idNodes, ram
      ensures Building() && lay.bees == old(lay.bees) && lay.pages == old(lay.pages)
      ensures lay.nodes == old(lay.nodes) + [old(memory)]
      ensures memory == old(memory) + NodeSize(lay.bees[n].mod)
      ensures SameOutside(old(ram[..]), ram[..], old(memory), memory)
      ensures NodeAt(ram[..], old(memory), irt, lay.bees[n].Base(), lay.bees[n].mod)
      ensures NodeHeadAt(ram[..], old(memory), lay.bees[n].mod.id, irt, lay.bees[n].Base())
    {
      ghost var m := ram[..];
      var size := StoreNode(data, n);
      lay := NodeBuilt(m, ram[..], irt, lay, globals);
      memory := memory + size;
      globals := globals + [0];
    }

    /** The node itself, and its address in the lookup array. */
    method StoreNode(data: word, n: nat) returns (size: nat)
      requires Building() && n == |lay.nodes| < |lay.bees| && n < MAX_BEES && data == lay.bees[n].data
      requires memory + NodeSize(lay.bees[n].mod) <= ram.Length && SmallIds(lay.bees[n].mod.exports)
      modifies idNodes, ram
      ensures size == NodeSize(lay.bees[n].mod) && ArrayHolds(idNodes[..], lay.nodes + [memory])
      ensures SameOutside(old(ram[..]), ram[..], memory, memory + size)
      ensures NodeAt(ram[..], memory, irt, lay.bees[n].Base(), lay.bees[n].mod)
      ensures NodeHeadAt(ram[..], memory, lay.bees[n].mod.id, irt, lay.bees[n].Base())
    {
      ghost var b := lay.bees[n];
      assert BeeKnown(ram[..], lay.regions, lay.bees[n]);
      idNodes[n] := memory;
      size := MakeNode(ram, data, memory, irt, b.Base(), b.mod);
    }

    /** The body of the loop of setupLookupArray. */
    method LinkOne(data: word, n: nat)
      requires Linking() && n == |lay.nodes| < |lay.bees| && n < MAX_BEES && data == lay.bees[n].data
      requires memory + NodeSize(lay.bees[n].mod) <= ram.Length && SmallIds(lay.bees[n].mod.exports)
      modifies `memory, `lay, `globals, idNodes, ram
      ensures Linking() && lay.bees == old(lay.bees) && lay.pages == old(lay.pages) && |lay.nodes| == n + 1
      ensures memory == old(memory) + NodeSize(lay.bees[n].mod)
      ensures SameOutside(old(ram[..]), ram[..], old(memory), memory)
    {
      ghost var m, l := ram[..], lay;
      BuildNode(data, n);
      HandlerNext(m, ram[..], irt, l, lay);
      GrowingNext(l, lay);
    }

    /** The node for the module with the name in slot i, if the slot is not empty; outside the nodes from
        lo on, memory is as the walk found it. */
    method SetupSlot(page: nat, i: nat, n: nat, ghost was: Mem, ghost lo: nat, ghost ps: seq<nat>, ghost depth: nat,
                     ghost k: nat) returns (more: bool)
      requires Linking() && n == |lay.nodes| == depth + i <= k && Linkable(lay.bees, k) && i < PAGE_SLOTS
      requires WalkAt(was, ps, lay.bees, depth) && ps != [] && ps[0] == page && page + PAGE_SIZE <= lo <= memory
      requires SameOutside(was, ram[..], lo, memory)
      requires memory + NodesRoom(lay.bees, n, k) <= ram.Length
      modifies `memory, `lay, `globals, idNodes, ram
      ensures Linking() && lay.bees == old(lay.bees) && lay.pages == old(lay.pages)
      ensures more <==> n < k
      ensures |lay.nodes| == (if more then n + 1 else n) && lo <= memory
      ensures memory + NodesRoom(lay.bees, |lay.nodes|, k) <= ram.Length
      ensures SameOutside(was, ram[..], lo, memory)
    {
      ghost var m, mid := ram[..], memory;
      WalkSlot(was, ps, lay.bees, depth, i, n);
      more := ram[SlotAddr(page, i)] != 0;
      if more {
        WordKept(was, m, SlotAddr(page, i) + NAME_SIZE, lo, memory);
        NodesStep(lay.bees, n, k, ram.Length - memory);
        var data := LoadWord(ram, SlotAddr(page, i) + NAME_SIZE);
        LinkOne(data, n);
        SameOutsideTrans(was, m, ram[..], lo, mid, memory);
      }
    }

    /** One page of setupLookupArray: nodes for its names up to the first empty one. */
    method SetupPage(page: nat, depth: nat, ghost ps: seq<nat>, ghost k: nat) returns (i: nat)
      requires Linking() && depth == |lay.nodes| <= k && Linkable(lay.bees, k)
      requires WalkAt(ram[..], ps, lay.bees, depth) && ps != [] && ps[0] == page && PagesBelow(ps, memory)
      requires memory + NodesRoom(lay.bees, depth, k) <= ram.Length
      modifies `memory, `lay, `globals, idNodes, ram
      ensures Linking() && lay.bees == old(lay.bees) && lay.pages == old(lay.pages)
      ensures |lay.nodes| == depth + i <= k && i <= PAGE_SLOTS
      ensures i < PAGE_SLOTS ==> depth + i == k
      ensures memory + NodesRoom(lay.bees, depth + i, k) <= ram.Length && old(memory) <= memory
      ensures SameOutside(old(ram[..]), ram[..], old(memory), memory)
      ensures WalkAt(ram[..], ps, lay.bees, depth)
    {
      i := 0;
      ghost var was, bees, lo := ram[..], lay.bees, memory;
      var n := depth;
      while i < 14
        invariant Linking() && lay.bees == bees && lay.pages == old(lay.pages) && lo <= memory
        invariant |lay.nodes| == n == depth + i <= k && i <= PAGE_SLOTS
        invariant memory + NodesRoom(bees, n, k) <= ram.Length
        invariant SameOutside(was, ram[..], lo, memory)
      {
        var more := SetupSlot(page, i, n, was, lo, ps, depth, k);
        if !more {
          break;
        }
        i, n := i + 1, n + 1;
      }
      WalkKept(was, ram[..], ps, bees, depth, lo);
    }

    method SetupLookupArray(page: nat, depth: nat, ghost ps: seq<nat>, ghost k: nat)
      requires Linking() && depth == |lay.nodes| <= k && Linkable(lay.bees, k)
      requires WalkAt(ram[..], ps, lay.bees, depth) && ps != [] && ps[0] == page && PagesBelow(ps, memory)
      requires memory + NodesRoom(lay.bees, depth, k) <= ram.Length
      modifies `memory, `lay, `globals, idNodes, ram
      ensures Linking() && lay.bees == old(lay.bees) && lay.pages == old(lay.pages)
      ensures |lay.nodes| == k && old(memory) <= memory
      ensures SameOutside(old(ram[..]), ram[..], old(memory), memory)
      decreases |ps|, 1
    {
      ghost var was, lo := ram[..], memory;
      var i := SetupPage(page, depth, ps, k);
      if i >= 14 {
        ghost var m, mid := ram[..], memory;
        SetupBehind(page, depth, ps, k);
        SameOutsideTrans(was, m, ram[..], lo, mid, memory);
      }
    }

    /** The pages behind a full one. */
    method SetupBehind(page: nat, depth: nat, ghost ps: seq<nat>, ghost k: nat)
      requires Linking() && depth + 14 == |lay.nodes| <= k && Linkable(lay.bees, k)
      requires WalkAt(ram[..], ps, lay.bees, depth) && ps != [] && ps[0] == page && PagesBelow(ps, memory)
      requires memory + NodesRoom(lay.bees, depth + 14, k) <= ram.Length
      modifies `memory, `lay, `globals, idNodes, ram
      ensures Linking() && lay.bees == old(lay.bees) && lay.pages == old(lay.pages)
      ensures |lay.nodes| == k && old(memory) <= memory
      ensures SameOutside(old(ram[..]), ram[..], old(memory), memory)
      decreases |ps|, 0
    {
      var next := FollowPage(page, ps, depth, k);
      if next == 0 {
        return;
      }
      SetupLookupArray(next, depth + 14, ps[1..], k);
    }

    /** What a full page says comes next. */
    method FollowPage(page: nat, ghost ps: seq<nat>, ghost n: nat, ghost k: nat) returns (next: word)
      requires WalkAt(ram[..], ps, lay.bees, n) && ps != [] && ps[0] == page
      requires k == RegCount(lay.bees) && n + PAGE_SLOTS <= k
      ensures page + PAGE_SIZE <= ram.Length
      ensures next == 0 ==> n + PAGE_SLOTS == k
      ensures next != 0 ==> |ps| > 1 && next == ps[1] && ps[1] + PAGE_SIZE <= ram.Length
                            && WalkAt(ram[..], ps[1..], lay.bees, n + PAGE_SLOTS)
    {
      WalkNext(ram[..], ps, lay.bees, n);
      next := LoadWord(ram, page + NEXT_AT);
    }

    /** The second half of main up to the inits: the handler word, then a node for every registered module. */
    method Link()
      requires Loaded(ram[..], disk, lay) && lay.memory == memory && lay.pages != [] && page0 == lay.pages[0]
      requires Spread(lay) && Aligned(memory) && AllDataSpared(lay.bees, irt) && Linkable(lay.bees, RegCount(lay.bees))
      requires CORE_GLOBAL_MEMORY + 4 <= ram.Length && idNodes.Length == MAX_BEES
      requires memory + NodesRoom(lay.bees, 0, RegCount(lay.bees)) <= ram.Length
      modifies `memory, `lay, `globals, idNodes, ram
      ensures Linking() && AllLinked() && lay.bees == old(lay.bees)
      ensures SameButHandler(old(ram[..]), ram[..], old(memory), irt)
    {
      StartLinking();
      ghost var m := ram[..];
      SetupLookupArray(page0, 0, lay.pages, RegCount(lay.bees));
      if CORE_GLOBAL_MEMORY + 4 <= old(memory) {
        WordKept(m, ram[..], CORE_GLOBAL_MEMORY, old(memory), memory);
      }
    }

    /** The handler word is stored, and no module has a node yet. */
    method StartLinking()
      requires Loaded(ram[..], disk, lay) && lay.memory == memory && lay.pages != [] && page0 == lay.pages[0]
      requires Spread(lay) && Aligned(memory) && AllDataSpared(lay.bees, irt)
      requires CORE_GLOBAL_MEMORY + 4 <= ram.Length && idNodes.Length == MAX_BEES
      modifies `lay, `globals, idNodes, ram
      ensures Linking() && lay == old(lay).(nodes := [])
      ensures WalkAt(ram[..], lay.pages, lay.bees, 0) && PagesBelow(lay.pages, memory)
      ensures WordAt(ram[..], CORE_GLOBAL_MEMORY) == irt
      ensures SameOutside(old(ram[..]), ram[..], CORE_GLOBAL_MEMORY, CORE_GLOBAL_MEMORY + 4)
    {
      LoadedIsTabled(ram[..], disk, lay);
      ghost var m := ram[..];
      StoreWord(ram, CORE_GLOBAL_MEMORY, irt);
      HandlerStoredIff(m, ram[..], lay, irt);
      ClearNodes();
      lay := lay.(nodes := []);
      globals := [];
      WalkStart(ram[..], lay);
    }

    method ClearNodes()
      requires idNodes.Length == MAX_BEES
      modifies idNodes
      ensures ArrayHolds(idNodes[..], [])
    {
      for s := 0 to MAX_BEES
        invariant forall i | 0 <= i < s :: idNodes[i] == 0
      {
        idNodes[s] := 0;
      }
    }

    /** What a boot asks of the disk and the memory: all headers fit, an odd magic at the end lies
        behind the second sector, the handler word damages no data page, the linker can do with what
        the modules export, and there is room. */
    ghost predicate CanBoot()
      reads this
    {
      var ss := Spans(disk, 512);
      && ram.Length <= WORD_MOD && |disk.bytes| < WORD_MOD && idNodes.Length == MAX_BEES
      && HeadersOk(disk, ss) && (Dangling(disk, 512) == 0 || 1024 <= Dangling(disk, 512))
      && BUMP_START + PAGE_SIZE + RoomFor(disk, ss, 0) + |disk.bytes| <= ram.Length
      && var l := LayoutAfter(disk, ss, |ss|);
      && AllDataSpared(l.bees, irt) && CORE_GLOBAL_MEMORY + 4 <= ram.Length && Linkable(l.bees, RegCount(l.bees))
      && l.memory + NodesRoom(l.bees, 0, RegCount(l.bees)) <= ram.Length
    }

    /** main up to the inits: every module on the disk is loaded and linked. */
    method LoadAndLink()
      requires memory == BUMP_START && lastEnd == 512 && CanBoot()
      modifies this, idNodes, ram
      ensures Linking() && AllLinked()
      ensures lay.bees == LayoutAfter(disk, Spans(disk, 512), |Spans(disk, 512)|).bees
      ensures |lay.bees| == |Spans(disk, 512)| && BeesAre(disk, lay.bees, Spans(disk, 512))
      ensures ImagesAre(ram[..], disk, lay.bees, irt) && HandlerIs(ram[..], lay, irt)
    {
      LoadModules();
      ghost var m, l := ram[..], lay;
      ghost var q := LayoutAligned(disk, Spans(disk, 512), |Spans(disk, 512)|);
      OnWord(q);
      Link();
      ImagesLinked(m, ram[..], disk, l, irt);
    }

    // ----- calls

    method LookupID(id: word) returns (r: nat)
      requires Running()
      ensures r == Slot(lay.bees, |lay.nodes|, id, WordAt(ram[..], 0))
    {
      ghost var k := |lay.nodes|;
      for s := 0 to MAX_BEES
        invariant s <= k ==> s <= FirstWith(lay.bees, k, id)
        invariant s > k ==> FirstWith(lay.bees, k, id) == k && WordAt(ram[..], 0) != id
      {
        if s < k {
          assert NodeKnown(ram[..], irt, lay.regions, lay.nodes[s], lay.bees[s]);
        }
        var p := idNodes[s];
        assert p == idNodes[..][s];
        var word := LoadWord(ram, p);
        if word == id {
          return s + 1;
        }
      }
      r := 0;
    }

    /** core_interrupt_handler for a module: finds the function and the arguments of the jump. */
    method Dispatch(id: word, cmd: word, argsSize: word, ptr: word) returns (o: Outcome)
      requires Running() && id != 0 && CallInMemory(ram[..], lay, id, cmd)
      modifies ram
      ensures Running()
      ensures o == Answer(old(ram[..]), lay, id, cmd, argsSize, ptr)
      ensures o.Called? ==> WordAt(ram[..], o.coreData + 8) == argsSize && WordAt(ram[..], o.coreData + 12) == ptr
      ensures o.Called? ==> SameOutside(old(ram[..]), ram[..], o.coreData + 8, o.coreData + 16)
      ensures o.Called? ==> NodeFor(old(ram[..]), lay, id) == Some(o.coreData - 4)
      ensures !o.Called? ==> ram[..] == old(ram[..])
    {
      var node := LookupID(id);
      if node == 0 {
        o := NoModule;
      } else {
        o := CallNode(node - 1, cmd, argsSize, ptr);
      }
    }

    /** The call of a module in the lookup array, or of an empty slot of it. */
    method CallNode(i: nat, cmd: word, argsSize: word, ptr: word) returns (o: Outcome)
      requires Running() && i < MAX_BEES
      requires var p := if i < |lay.nodes| then lay.nodes[i] else 0;
               SlotAddress(p, cmd) + 4 <= ram.Length && p + 24 <= ram.Length
      modifies ram
      ensures Running()
      ensures var p := if i < |lay.nodes| then lay.nodes[i] else 0;
              o == NodeAnswer(old(ram[..]), p, cmd, argsSize, ptr)
      ensures o.Called? ==> WordAt(ram[..], o.coreData + 8) == argsSize && WordAt(ram[..], o.coreData + 12) == ptr
      ensures o.Called? ==> SameOutside(old(ram[..]), ram[..], o.coreData + 8, o.coreData + 16)
      ensures !o.Called? ==> ram[..] == old(ram[..])
    {
      var p := idNodes[i];
      assert p == idNodes[..][i];
      var func := LoadWord(ram, (p + SLOTS_AT + 4 * cmd as int) % WORD_MOD);
      if func == 0 {
        o := NoCmd;
      } else {
        var global := LoadWord(ram, p + 20);
        func := StoreAndReload(i, p, cmd, argsSize, ptr);
        o := Called(func, p + 4, global);
      }
    }

    /** Stores the arguments, and reads the function to jump to once more. */
    method StoreAndReload(ghost i: nat, p: nat, cmd: word, argsSize: word, ptr: word) returns (func: word)
      requires Running() && p == if i < |lay.nodes| then lay.nodes[i] else 0
      requires SlotAddress(p, cmd) + 4 <= ram.Length && p + 24 <= ram.Length
      modifies ram
      ensures Running() && func == JumpWord(old(ram[..]), p, cmd, argsSize, ptr)
      ensures WordAt(ram[..], p + 12) == argsSize && WordAt(ram[..], p + 16) == ptr
      ensures SameOutside(old(ram[..]), ram[..], p + 12, p + 20)
    {
      ghost var m := ram[..];
      StoreArgs(i, p, argsSize, ptr);
      JumpWordIs(m, ram[..], p, cmd, argsSize, ptr);
      func := LoadWord(ram, (p + SLOTS_AT + 4 * cmd as int) % WORD_MOD);
    }

    /** The size and the address of the arguments go into the CoreData of the node; for an empty slot
        that is in low memory. */
    method StoreArgs(ghost i: nat, p: nat, count: word, ptr: word)
      requires Running() && p == if i < |lay.nodes| then lay.nodes[i] else 0
      modifies ram
      ensures Running()
      ensures p + 20 <= ram.Length && WordAt(ram[..], p + 12) == count && WordAt(ram[..], p + 16) == ptr
      ensures SameOutside(old(ram[..]), ram[..], p + 12, p + 20)
    {
      ghost var m := ram[..];
      if i < |lay.nodes| {
        assert NodeKnown(m, irt, lay.regions, lay.nodes[i], lay.bees[i]);
      }
      StoreTwo(ram, p + 12, count, ptr);
      if i < |lay.nodes| {
        NodeTouched(m, ram[..], irt, lay, i, p + 12, p + 20);
        GlobalsKept(m, ram[..], irt, lay, globals, i);
      } else {
        LowTouched(m, ram[..], irt, lay, globals, 12, 20);
      }
    }

    /** The pointer to its global storage goes into the node of the module. */
    method StoreGlobal(ghost i: nat, p: nat, v: word)
      requires Running() && i < |lay.nodes| && p == lay.nodes[i]
      modifies `globals, ram
      ensures Running() && globals == old(globals)[i := v]
      ensures SameOutside(old(ram[..]), ram[..], p + 20, p + 24) && p + SLOTS_AT <= lay.memory
    {
      ghost var m := ram[..];
      assert NodeKnown(m, irt, lay.regions, lay.nodes[i], lay.bees[i]);
      StoreWord(ram, p + 20, v);
      NodeTouched(m, ram[..], irt, lay, i, p + 20, p + 24);
      GlobalSet(m, ram[..], irt, lay, globals, i, v);
      globals := globals[i := v];
    }

    /** alloc: clears size words, though the bump pointer moves by size bytes only. */
    method Alloc(size: word, ghost i: nat, p: nat) returns (data: word)
      requires Running() && lay.memory == memory < WORD_MOD && memory + 4 * size as int <= ram.Length
      requires i < |lay.nodes| && p == lay.nodes[i]
      modifies `memory, `lay, `globals, ram
      ensures Running() && lay == WithGlobal(old(lay), size) && memory == old(memory) + size
      ensures data == old(memory) && globals == old(globals)[i := data]
      ensures Allotted(old(ram[..]), ram[..], p, data, 4 * size as int)
    {
      data := memory;
      StoreGlobal(i, p, data);
      ghost var m := ram[..];
      ZeroWords(ram, data, size);
      GlobalAdded(m, ram[..], irt, lay, globals, size);
      lay := WithGlobal(lay, size);
      memory := memory + size;
    }

    // ----- inits

    ghost predicate AllLinked()
      reads this
    {
      |lay.nodes| == RegCount(lay.bees) && lay.pages != [] && page0 == lay.pages[0]
    }

    /** Calls the init of the bee in this slot if its priority is s. */
    method PassOne(slot: nat, s: nat, ghost n: nat, calls: seq<InitCall>) returns (calls': seq<InitCall>)
      requires Running() && n < |lay.nodes| && slot + SLOT_SIZE <= ram.Length
      requires WordAt(ram[..], slot + NAME_SIZE) == lay.bees[n].data
      requires PassIs(calls, lay, n, s)
      ensures PassIs(calls', lay, n + 1, s)
    {
      var data := LoadWord(ram, slot + NAME_SIZE);
      assert BeeKnown(ram[..], lay.regions, lay.bees[n]);
      var pry := LoadByte(ram, data + 8);
      var more := [];
      if pry == s {
        var call := CallInit(data, n);
        more := [call];
      }
      PassGrows(calls, more, lay, n, s);
      calls' := calls + more;
    }

    method CallInit(data: word, ghost n: nat) returns (call: InitCall)
      requires Running() && n < |lay.nodes| && data == lay.bees[n].data
      ensures call == InitOf(lay, n)
    {
      assert BeeKnown(ram[..], lay.regions, lay.bees[n]);
      var id := LoadWord(ram, data + 4);
      var node := LookupID(id);
      assert FirstWith(lay.bees, |lay.nodes|, id) <= n;
      var p := idNodes[node - 1];
      assert p == idNodes[..][node - 1];
      var init := LoadWord(ram, data + 14);
      call := InitCall(init, p + 4);
    }

    /** The list-bees command: two names to a line, up to the first empty one. */
    method ListBees(page: nat) returns (shown: seq<seq<byte>>)
      requires Running() && AllLinked() && page == page0
      ensures NamesAre(shown, lay.bees, RegCount(lay.bees))
    {
      shown := [];
      ghost var m, bees, k := ram[..], lay.bees, |lay.nodes|;
      WalkStart(m, lay);
      var cur, s := page, 0;
      ghost var ps, start: nat, n: nat, line: nat := lay.pages, 0, 0, 0;
      WalkSlot(m, ps, bees, start, s, n);
      while true
        invariant s == 2 * line <= PAGE_SLOTS && ps != [] && ps[0] == cur && cur + PAGE_SIZE <= ram.Length
        invariant n == start + s <= k && WalkAt(m, ps, bees, start)
        invariant NamesAre(shown, bees, n)
        decreases k - n, s
      {
        if s == 14 {
          WalkNext(m, ps, bees, start);
          var next := LoadWord(ram, cur + NEXT_AT);
          if next == 0 {
            return;
          }
          s, cur, ps, start, line := 0, next, ps[1..], start + PAGE_SLOTS, 0;
        }
        var more;
        more, shown := ShowLine(cur, s, shown, ps, start, n);
        if !more {
          return;
        }
        s, n, line := s + 2, n + 2, line + 1;
      }
    }

    /** One line of the list: the names in slots s and s + 1, if they are not empty. */
    method ShowLine(cur: nat, s: nat, shown: seq<seq<byte>>, ghost ps: seq<nat>, ghost start: nat, ghost n: nat)
      returns (more: bool, shown': seq<seq<byte>>)
      requires Running() && AllLinked() && s + 1 < PAGE_SLOTS && ps != []
      requires ps[0] == cur && cur + PAGE_SIZE <= ram.Length
      requires n == start + s <= RegCount(lay.bees)
      requires WalkAt(ram[..], ps, lay.bees, start) && NamesAre(shown, lay.bees, n)
      ensures more ==> n + 2 <= RegCount(lay.bees) && NamesAre(shown', lay.bees, n + 2)
      ensures !more ==> NamesAre(shown', lay.bees, RegCount(lay.bees))
    {
      more, shown' := ShowName(cur, s, shown, ps, start, n);
      if more {
        more, shown' := ShowName(cur, s + 1, shown', ps, start, n + 1);
      }
    }

    /** The name in slot s, if it is not empty. */
    method ShowName(cur: nat, s: nat, shown: seq<seq<byte>>, ghost ps: seq<nat>, ghost start: nat, ghost n: nat)
      returns (more: bool, shown': seq<seq<byte>>)
      requires Running() && s < PAGE_SLOTS && ps != [] && ps[0] == cur && cur + PAGE_SIZE <= ram.Length
      requires n == start + s <= RegCount(lay.bees)
      requires WalkAt(ram[..], ps, lay.bees, start) && NamesAre(shown, lay.bees, n)
      ensures more ==> n + 1 <= RegCount(lay.bees) && NamesAre(shown', lay.bees, n + 1)
      ensures !more ==> NamesAre(shown', lay.bees, RegCount(lay.bees))
    {
      WalkSlot(ram[..], ps, lay.bees, start, s, n);
      if ram[SlotAddr(cur, s)] == 0 {
        return false, shown;
      }
      more := true;
      shown' := shown + [ram[SlotAddr(cur, s)..SlotAddr(cur, s) + NAME_SIZE]];
    }
  }
}
