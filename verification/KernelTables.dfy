/** The linked kernel: name pages, data pages and lookup nodes in the bump area. */
module KernelTables {
  import opened Ram
  import opened Disk
  import opened ModuleFormat
  import opened NamePages
  import opened KernelLayout

  const MAX_BEES: nat := 1024

  /** The image of the bee has its place, and its data page is in memory. */
  ghost predicate BeeKnown(m: Mem, rs: set<Region>, b: Bee) {
    && b.ImageRegion() in rs && b.DataRegion() in rs && |b.mod.name| == NAME_SIZE
    && DataAt(m, b.data, b.Base(), b.mod)
  }

  /** Name pages and data pages are in place, and images have theirs, though their bytes may have changed. */
  ghost predicate Tabled(m: Mem, l: Layout) {
    && BUMP_START <= l.memory <= |m| <= WORD_MOD
    && Separate(l.regions, l.memory)
    && PagesPlaced(l)
    && (forall i {:trigger BeeKnown(m, l.regions, l.bees[i])} | 0 <= i < |l.bees| :: BeeKnown(m, l.regions, l.bees[i]))
    && NamesHeld(m, l.pages, l.bees)
  }

  lemma LoadedIsTabled(m: Mem, d: Disk, l: Layout)
    requires Loaded(m, d, l)
    ensures Tabled(m, l)
  {
    forall i | 0 <= i < |l.bees|
      ensures BeeKnown(m, l.regions, l.bees[i])
    {
      assert BeeLoaded(m, d, l.regions, l.bees[i]);
    }
  }

  function NodeRegion(p: nat, b: Bee): Region { Region(Node, p, p + NodeSize(b.mod)) }

  ghost predicate NodeKnown(m: Mem, irt: word, rs: set<Region>, p: nat, b: Bee) {
    NodeRegion(p, b) in rs && SmallIds(b.mod.exports) && NodeAt(m, p, irt, b.Base(), b.mod)
  }

  ghost predicate NodesAscend(nodes: seq<nat>) {
    forall i, j | 0 <= i < j < |nodes| :: nodes[i] < nodes[j]
  }

  /** The first bees have their nodes. */
  ghost predicate Linked(m: Mem, irt: word, l: Layout) {
    && Tabled(m, l)
    && |l.nodes| <= |l.bees| && |l.nodes| <= MAX_BEES && NodesAscend(l.nodes)
    && (forall i {:trigger NodeKnown(m, irt, l.regions, l.nodes[i], l.bees[i])} | 0 <= i < |l.nodes| ::
          NodeKnown(m, irt, l.regions, l.nodes[i], l.bees[i]))
  }

  /** Every node begins where the one before it ends. */
  ghost predicate Joined(l: Layout) {
    && |l.nodes| <= |l.bees|
    && forall i, j | 0 <= i < j < |l.nodes| && j == i + 1 :: l.nodes[j] == l.nodes[i] + NodeSize(l.bees[i].mod)
  }

  predicate Aligned(p: nat) { p % 4 == 0 }

  /** While linking, the bump pointer stands behind the last node, and all are on word boundaries. */
  ghost predicate Growing(l: Layout) {
    && Joined(l) && Aligned(l.memory)
    && (forall i | 0 <= i < |l.nodes| :: Aligned(l.nodes[i]))
    && (l.nodes != [] ==> l.nodes[|l.nodes| - 1] + NodeSize(l.bees[|l.nodes| - 1].mod) == l.memory)
  }

  lemma GrowingNext(l: Layout, l': Layout)
    requires Growing(l) && |l.nodes| < |l.bees| && l'.bees == l.bees
    requires l'.nodes == l.nodes + [l.memory] && l'.memory == l.memory + NodeSize(l.bees[|l.nodes|].mod)
    ensures Growing(l')
  {
  }

  lemma {:induction false} NodesOrdered(l: Layout, i: nat, j: nat)
    requires Joined(l) && i < j < |l.nodes|
    ensures l.nodes[i] + NodeSize(l.bees[i].mod) <= l.nodes[j]
    decreases j
  {
    if i < j - 1 {
      NodesOrdered(l, i, j - 1);
    }
    assert l.nodes[j] == l.nodes[j - 1] + NodeSize(l.bees[j - 1].mod);
  }

  /** The entries of the lookup array. */
  ghost predicate ArrayHolds(ids: seq<nat>, nodes: seq<nat>) {
    && |ids| == MAX_BEES && |nodes| <= MAX_BEES
    && (forall i | 0 <= i < |nodes| :: ids[i] == nodes[i])
    && (forall i | |nodes| <= i < MAX_BEES :: ids[i] == 0)
  }

  /** How many modules a walk over the names sees: it ends at the first empty name. */
  function RegCount(bees: seq<Bee>): (k: nat)
    ensures k <= |bees|
    ensures forall i | 0 <= i < k :: bees[i].mod.name != [] && bees[i].mod.name[0] != 0
    ensures k < |bees| ==> bees[k].mod.name == [] || bees[k].mod.name[0] == 0
  {
    if bees == [] || bees[0].mod.name == [] || bees[0].mod.name[0] == 0 then 0 else 1 + RegCount(bees[1..])
  }

  /** An empty name hides its own module and all behind it. */
  lemma EmptyNameHides(bees: seq<Bee>, i: nat)
    requires i < |bees| && (bees[i].mod.name == [] || bees[i].mod.name[0] == 0)
    ensures RegCount(bees) <= i
  {
  }

  /** A walk over the names sees k modules, not more than the linker has places for, and none of them
      exports an id with the sign bit. */
  ghost predicate Linkable(bees: seq<Bee>, k: nat) {
    k == RegCount(bees) <= MAX_BEES && forall i | 0 <= i < k :: SmallIds(bees[i].mod.exports)
  }

  /** Bytes for the nodes of bees i <= n < k. */
  function NodesRoom(bees: seq<Bee>, i: nat, k: nat): nat
    requires i <= k <= |bees|
    decreases k - i
  {
    if i == k then 0 else NodeSize(bees[i].mod) + NodesRoom(bees, i + 1, k)
  }

  /** globalValues of every node. */
  ghost predicate GlobalsHold(m: Mem, nodes: seq<nat>, globals: seq<word>) {
    && |globals| == |nodes|
    && forall i | 0 <= i < |nodes| :: nodes[i] + 24 <= |m| && WordAt(m, nodes[i] + 20) == globals[i]
  }

  /** The walk stands at page ps[0], which starts with the name of bee n. */
  ghost predicate WalkAt(m: Mem, ps: seq<nat>, bees: seq<Bee>, n: nat) {
    n <= |bees| && NamesHeld(m, ps, bees[n..])
  }

  // ----- framing

  lemma BeeStaysKnown(m: Mem, m': Mem, rs: set<Region>, rs': set<Region>, b: Bee)
    requires BeeKnown(m, rs, b) && rs <= rs' && Agree(m, m', b.DataRegion().lo, b.DataRegion().hi)
    ensures BeeKnown(m', rs', b)
  {
    DataKept(m, m', b.data, b.Base(), b.mod);
  }

  lemma TabledKept(m: Mem, m': Mem, l: Layout, rs': set<Region>, memory': nat)
    requires Tabled(m, l) && |m| == |m'| && l.regions <= rs' && Separate(rs', memory') && l.memory <= memory' <= |m|
    requires forall r | r in l.regions && (r.kind == NamePage || r.kind == DataPage) :: Agree(m, m', r.lo, r.hi)
    ensures Tabled(m', l.(regions := rs', memory := memory'))
  {
    forall i | 0 <= i < |l.bees|
      ensures BeeKnown(m', rs', l.bees[i])
    {
      assert BeeKnown(m, l.regions, l.bees[i]);
      BeeStaysKnown(m, m', l.regions, rs', l.bees[i]);
    }
    forall j | 0 <= j < |l.pages|
      ensures Agree(m, m', l.pages[j], l.pages[j] + PAGE_SIZE)
    {
      assert PageRegion(l.pages[j]) in l.regions;
    }
    NamesKept(m, m', l.pages, l.bees);
  }

  lemma LinkedKept(m: Mem, m': Mem, irt: word, l: Layout, rs': set<Region>, memory': nat)
    requires Linked(m, irt, l) && |m| == |m'| && l.regions <= rs'
    requires Separate(rs', memory') && l.memory <= memory' <= |m|
    requires forall r | r in l.regions && r.kind != Image && r.kind != Global :: Agree(m, m', r.lo, r.hi)
    ensures Linked(m', irt, l.(regions := rs', memory := memory'))
  {
    TabledKept(m, m', l, rs', memory');
    forall i | 0 <= i < |l.nodes|
      ensures NodeKnown(m', irt, rs', l.nodes[i], l.bees[i])
    {
      assert NodeKnown(m, irt, l.regions, l.nodes[i], l.bees[i]);
      NodeKept(m, m', l.nodes[i], irt, l.bees[i].Base(), l.bees[i].mod);
    }
  }

  /** One more node at the bump pointer. */
  lemma NodeAdded(m: Mem, m': Mem, irt: word, l: Layout) returns (l': Layout)
    requires Linked(m, irt, l) && |l.nodes| < |l.bees| && |l.nodes| < MAX_BEES
    requires var b := l.bees[|l.nodes|];
             && l.memory + NodeSize(b.mod) <= |m| && SmallIds(b.mod.exports)
             && SameOutside(m, m', l.memory, l.memory + NodeSize(b.mod))
             && NodeAt(m', l.memory, irt, b.Base(), b.mod)
    ensures Linked(m', irt, l') && l'.nodes == l.nodes + [l.memory]
    ensures l'.bees == l.bees && l'.pages == l.pages
    ensures l'.memory == l.memory + NodeSize(l.bees[|l.nodes|].mod)
  {
    var n := |l.nodes|;
    var r := NodeRegion(l.memory, l.bees[n]);
    var rs' := l.regions + {r};
    AddRegion(l.regions, l.memory, r);
    LinkedKept(m, m', irt, l, rs', r.hi);
    l' := l.(regions := rs', memory := r.hi, nodes := l.nodes + [l.memory]);
    forall i | 0 <= i < |l'.nodes|
      ensures NodeKnown(m', irt, rs', l'.nodes[i], l'.bees[i])
    {
      if i < n {
        assert NodeKnown(m', irt, rs', l.nodes[i], l.bees[i]);
      }
    }
    forall i | 0 <= i < n
      ensures l.nodes[i] < l.memory
    {
      assert NodeKnown(m, irt, l.regions, l.nodes[i], l.bees[i]);
    }
  }

  lemma GlobalsGrow(m: Mem, m': Mem, irt: word, l: Layout, globals: seq<word>)
    requires Linked(m, irt, l) && GlobalsHold(m, l.nodes, globals) && Agree(m, m', 0, l.memory)
    requires l.memory + 24 <= |m| && WordAt(m', l.memory + 20) == 0
    ensures GlobalsHold(m', l.nodes + [l.memory], globals + [0])
  {
    var nodes := l.nodes + [l.memory];
    forall i | 0 <= i < |nodes|
      ensures nodes[i] + 24 <= |m'| && WordAt(m', nodes[i] + 20) == (globals + [0])[i]
    {
      if i < |l.nodes| {
        assert NodeKnown(m, irt, l.regions, l.nodes[i], l.bees[i]);
        WordAgrees(m, m', l.nodes[i] + 20, 0, l.memory);
      }
    }
  }

  /** One more node, whose module has no global storage yet. */
  lemma NodeBuilt(m: Mem, m': Mem, irt: word, l: Layout, globals: seq<word>) returns (l': Layout)
    requires Linked(m, irt, l) && |l.nodes| < |l.bees| && |l.nodes| < MAX_BEES && GlobalsHold(m, l.nodes, globals)
    requires var b := l.bees[|l.nodes|];
             && l.memory + NodeSize(b.mod) <= |m| && SmallIds(b.mod.exports)
             && SameOutside(m, m', l.memory, l.memory + NodeSize(b.mod))
             && NodeAt(m', l.memory, irt, b.Base(), b.mod) && WordAt(m', l.memory + 20) == 0
    ensures Linked(m', irt, l') && l'.nodes == l.nodes + [l.memory] && GlobalsHold(m', l'.nodes, globals + [0])
    ensures l'.bees == l.bees && l'.pages == l.pages
    ensures l'.memory == l.memory + NodeSize(l.bees[|l.nodes|].mod)
  {
    l' := NodeAdded(m, m', irt, l);
    GlobalsGrow(m, m', irt, l, globals);
  }

  // ----- walking the names

  lemma WalkStart(m: Mem, l: Layout)
    requires Tabled(m, l)
    ensures WalkAt(m, l.pages, l.bees, 0)
  {
    assert l.bees[0..] == l.bees;
  }

  /** The first byte of slot i tells whether the walk goes on, and then its data page is that of bee n. */
  lemma WalkSlot(m: Mem, ps: seq<nat>, bees: seq<Bee>, start: nat, i: nat, n: nat)
    requires WalkAt(m, ps, bees, start) && i < PAGE_SLOTS && n == start + i <= RegCount(bees)
    ensures ps != [] && SlotAddr(ps[0], i) + SLOT_SIZE <= |m|
    ensures m[SlotAddr(ps[0], i)] != 0 <==> n < RegCount(bees)
    ensures n < RegCount(bees) ==> WordAt(m, SlotAddr(ps[0], i) + NAME_SIZE) == bees[n].data
    ensures n < RegCount(bees) ==> m[SlotAddr(ps[0], i)..SlotAddr(ps[0], i) + NAME_SIZE] == bees[n].mod.name
  {
    var es := EntriesOf(bees[start..]);
    SlotOfChain(m, ps, es, i);
    if i < |es| {
      assert es[i].name == bees[start..][i].mod.name;
    }
  }

  /** After a full page the walk goes on at the next one, if there are more names. */
  lemma WalkNext(m: Mem, ps: seq<nat>, bees: seq<Bee>, n: nat)
    requires WalkAt(m, ps, bees, n) && n + PAGE_SLOTS <= RegCount(bees)
    ensures ps != [] && ps[0] + PAGE_SIZE <= |m|
    ensures WordAt(m, ps[0] + NEXT_AT) == 0 ==> n + PAGE_SLOTS == RegCount(bees)
    ensures WordAt(m, ps[0] + NEXT_AT) != 0 ==>
              && |ps| > 1 && WordAt(m, ps[0] + NEXT_AT) == ps[1] && ps[1] + PAGE_SIZE <= |m|
              && WalkAt(m, ps[1..], bees, n + PAGE_SLOTS)
  {
    var es := EntriesOf(bees[n..]);
    NextOfChain(m, ps, es);
    if |es| > PAGE_SLOTS {
      assert bees[n..][PAGE_SLOTS..] == bees[n + PAGE_SLOTS..];
      forall fs | AreEntries(fs, bees[n + PAGE_SLOTS..])
        ensures ChainHolds(m, ps[1..], fs, true)
      {
        assert fs == es[PAGE_SLOTS..];
      }
      assert ChainHolds(m, ps[1..], es[PAGE_SLOTS..], true);
    }
  }

  ghost predicate PagesBelow(ps: seq<nat>, hi: nat) {
    forall j | 0 <= j < |ps| :: ps[j] + PAGE_SIZE <= hi
  }

  lemma WalkKept(m: Mem, m': Mem, ps: seq<nat>, bees: seq<Bee>, n: nat, hi: nat)
    requires WalkAt(m, ps, bees, n) && PagesBelow(ps, hi) && Agree(m, m', 0, hi)
    ensures WalkAt(m', ps, bees, n)
  {
    NamesKept(m, m', ps, bees[n..]);
  }

  lemma NodesStep(bees: seq<Bee>, i: nat, k: nat, room: int)
    requires i < k <= |bees| && NodesRoom(bees, i, k) <= room
    ensures NodeSize(bees[i].mod) + NodesRoom(bees, i + 1, k) <= room
  {
  }

  ghost predicate AllZero(globals: seq<word>) {
    forall i | 0 <= i < |globals| :: globals[i] == 0
  }

  // ----- resolving calls

  /** The first of the k bees with this id, k if there is none. */
  function FirstWith(bees: seq<Bee>, k: nat, id: word): (i: nat)
    requires k <= |bees|
    ensures i <= k
    ensures i < k ==> bees[i].mod.id == id
    ensures forall j | 0 <= j < i :: bees[j].mod.id != id
  {
    if k == 0 then 0
    else
      var i := FirstWith(bees, k - 1, id);
      if i < k - 1 then i else if bees[k - 1].mod.id == id then k - 1 else k
  }

  /** What lookupID returns: the number of the slot from 1 on, 0 for none. An empty slot
      is read through a null pointer, so its id is the word at address 0. */
  function Slot(bees: seq<Bee>, k: nat, id: word, zero: word): nat
    requires k <= |bees|
  {
    var i := FirstWith(bees, k, id);
    if i < k then i + 1 else if zero == id && k < MAX_BEES then k + 1 else 0
  }

  /** The words count, ptr and globalValues of node i may be written. */
  lemma NodeTouched(m: Mem, m': Mem, irt: word, l: Layout, i: nat, lo: nat, hi: nat)
    requires Linked(m, irt, l) && i < |l.nodes|
    requires l.nodes[i] + 12 <= lo <= hi <= l.nodes[i] + 24 && SameOutside(m, m', lo, hi)
    ensures Linked(m', irt, l)
  {
    assert NodeKnown(m, irt, l.regions, l.nodes[i], l.bees[i]);
    var own := NodeRegion(l.nodes[i], l.bees[i]);
    forall r | r in l.regions && (r.kind == NamePage || r.kind == DataPage)
      ensures Agree(m, m', r.lo, r.hi)
    {
      assert r != own;
    }
    TabledKept(m, m', l, l.regions, l.memory);
    assert l.(regions := l.regions, memory := l.memory) == l;
    forall j | 0 <= j < |l.nodes|
      ensures NodeKnown(m', irt, l.regions, l.nodes[j], l.bees[j])
    {
      assert NodeKnown(m, irt, l.regions, l.nodes[j], l.bees[j]);
      var r := NodeRegion(l.nodes[j], l.bees[j]);
      assert r == own || r.hi <= own.lo || own.hi <= r.lo;
      NodeKept(m, m', l.nodes[j], irt, l.bees[j].Base(), l.bees[j].mod);
    }
  }

  /** So may memory below the bump area. */
  lemma LowTouched(m: Mem, m': Mem, irt: word, l: Layout, globals: seq<word>, lo: nat, hi: nat)
    requires Linked(m, irt, l) && GlobalsHold(m, l.nodes, globals) && SameOutside(m, m', lo, hi) && hi <= BUMP_START
    ensures Linked(m', irt, l) && GlobalsHold(m', l.nodes, globals)
  {
    LinkedKept(m, m', irt, l, l.regions, l.memory);
    assert l.(regions := l.regions, memory := l.memory) == l;
    forall j | 0 <= j < |l.nodes|
      ensures l.nodes[j] + 24 <= |m'| && WordAt(m', l.nodes[j] + 20) == globals[j]
    {
      assert NodeKnown(m, irt, l.regions, l.nodes[j], l.bees[j]);
      WordKept(m, m', l.nodes[j] + 20, lo, hi);
    }
  }

  /** A node's words lie inside it, apart from those of every other node. */
  lemma NodesApart(m: Mem, irt: word, l: Layout, i: nat, j: nat)
    requires Linked(m, irt, l) && i < |l.nodes| && j < |l.nodes| && i != j
    ensures l.nodes[i] + SLOTS_AT <= l.nodes[j] || l.nodes[j] + SLOTS_AT <= l.nodes[i]
  {
    assert NodeKnown(m, irt, l.regions, l.nodes[i], l.bees[i]);
    assert NodeKnown(m, irt, l.regions, l.nodes[j], l.bees[j]);
    assert l.nodes[i] != l.nodes[j] by {
      if i < j {
        assert l.nodes[i] < l.nodes[j];
      } else {
        assert l.nodes[j] < l.nodes[i];
      }
    }
    assert NodeRegion(l.nodes[i], l.bees[i]) != NodeRegion(l.nodes[j], l.bees[j]);
  }

  lemma GlobalsKept(m: Mem, m': Mem, irt: word, l: Layout, globals: seq<word>, i: nat)
    requires Linked(m, irt, l) && GlobalsHold(m, l.nodes, globals) && i < |l.nodes|
    requires SameOutside(m, m', l.nodes[i] + 12, l.nodes[i] + 20)
    ensures GlobalsHold(m', l.nodes, globals)
  {
    forall j | 0 <= j < |l.nodes|
      ensures l.nodes[j] + 24 <= |m'| && WordAt(m', l.nodes[j] + 20) == globals[j]
    {
      if j != i {
        NodesApart(m, irt, l, i, j);
      }
      WordKept(m, m', l.nodes[j] + 20, l.nodes[i] + 12, l.nodes[i] + 20);
    }
  }

  lemma GlobalSet(m: Mem, m': Mem, irt: word, l: Layout, globals: seq<word>, i: nat, v: word)
    requires Linked(m, irt, l) && GlobalsHold(m, l.nodes, globals) && i < |l.nodes|
    requires SameOutside(m, m', l.nodes[i] + 20, l.nodes[i] + 24) && l.nodes[i] + 24 <= |m'|
    requires WordAt(m', l.nodes[i] + 20) == v
    ensures GlobalsHold(m', l.nodes, globals[i := v])
  {
    forall j | 0 <= j < |l.nodes|
      ensures l.nodes[j] + 24 <= |m'| && WordAt(m', l.nodes[j] + 20) == globals[i := v][j]
    {
      if j != i {
        NodesApart(m, irt, l, i, j);
        WordKept(m, m', l.nodes[j] + 20, l.nodes[i] + 20, l.nodes[i] + 24);
      }
    }
  }

  /** Writes to the free part of the bump area change no table. */
  lemma TablesKept(m: Mem, m': Mem, irt: word, l: Layout, globals: seq<word>)
    requires Linked(m, irt, l) && GlobalsHold(m, l.nodes, globals) && Agree(m, m', 0, l.memory)
    ensures Linked(m', irt, l) && GlobalsHold(m', l.nodes, globals)
  {
    LinkedKept(m, m', irt, l, l.regions, l.memory);
    assert l.(regions := l.regions, memory := l.memory) == l;
    GlobalsKeptBelow(m, m', irt, l, globals);
  }

  lemma NodeBelow(m: Mem, irt: word, l: Layout, i: nat)
    requires Linked(m, irt, l) && i < |l.nodes|
    ensures BUMP_START <= l.nodes[i] && l.nodes[i] + SLOTS_AT <= l.memory
  {
    assert NodeKnown(m, irt, l.regions, l.nodes[i], l.bees[i]);
  }

  /** Images, pages and storage keep their bytes. */
  ghost predicate RegionsKept(m: Mem, m': Mem, rs: set<Region>) {
    |m| == |m'| && forall r | r in rs && r.kind != Node :: Agree(m, m', r.lo, r.hi)
  }

  /** Writes inside a node, and above the bump pointer, spare them. */
  lemma NodeWriteSpares(m: Mem, m': Mem, irt: word, l: Layout, i: nat)
    requires Linked(m, irt, l) && i < |l.nodes| && |m| == |m'|
    requires forall a | 0 <= a < |m| && a < l.memory && !(l.nodes[i] <= a < l.nodes[i] + SLOTS_AT) :: m'[a] == m[a]
    ensures RegionsKept(m, m', l.regions)
  {
    assert NodeKnown(m, irt, l.regions, l.nodes[i], l.bees[i]);
    var own := NodeRegion(l.nodes[i], l.bees[i]);
    forall r | r in l.regions && r.kind != Node
      ensures Agree(m, m', r.lo, r.hi)
    {
      assert r != own;
    }
  }

  lemma LowWriteSpares(m: Mem, m': Mem, rs: set<Region>, memory: nat, lo: nat, hi: nat)
    requires Separate(rs, memory) && SameOutside(m, m', lo, hi) && hi <= BUMP_START
    ensures RegionsKept(m, m', rs)
  {
  }

  lemma AboveSpares(m: Mem, m': Mem, rs: set<Region>, memory: nat)
    requires Separate(rs, memory) && Agree(m, m', 0, memory)
    ensures RegionsKept(m, m', rs)
  {
  }

  /** Writes to the free part of the bump area change no node. */
  lemma GlobalsKeptBelow(m: Mem, m': Mem, irt: word, l: Layout, globals: seq<word>)
    requires Linked(m, irt, l) && GlobalsHold(m, l.nodes, globals) && Agree(m, m', 0, l.memory)
    ensures GlobalsHold(m', l.nodes, globals)
  {
    forall j | 0 <= j < |l.nodes|
      ensures l.nodes[j] + 24 <= |m'| && WordAt(m', l.nodes[j] + 20) == globals[j]
    {
      assert NodeKnown(m, irt, l.regions, l.nodes[j], l.bees[j]);
      WordAgrees(m, m', l.nodes[j] + 20, 0, l.memory);
    }
  }

  function GlobalRegion(p: nat, size: nat): Region { Region(Global, p, p + size) }

  /** The layout after alloc. */
  function WithGlobal(l: Layout, size: nat): Layout {
    l.(regions := l.regions + {GlobalRegion(l.memory, size)}, memory := l.memory + size)
  }

  /** What alloc does to memory: n bytes from data on are cleared, and the pointer goes into the node at p. */
  ghost predicate Allotted(m: Mem, m': Mem, p: nat, data: nat, n: nat) {
    && |m| == |m'|
    && (forall a | 0 <= a < |m| && data <= a < data + n :: m'[a] == 0)
    && (forall a | 0 <= a < |m| && !(p + 20 <= a < p + 24) && !(data <= a < data + n) :: m'[a] == m[a])
  }

  lemma GlobalAdded(m: Mem, m': Mem, irt: word, l: Layout, globals: seq<word>, size: nat)
    requires Linked(m, irt, l) && GlobalsHold(m, l.nodes, globals)
    requires Agree(m, m', 0, l.memory) && l.memory + size <= |m|
    ensures Linked(m', irt, WithGlobal(l, size)) && GlobalsHold(m', l.nodes, globals)
  {
    AddRegion(l.regions, l.memory, GlobalRegion(l.memory, size));
    LinkedKept(m, m', irt, l, WithGlobal(l, size).regions, l.memory + size);
    GlobalsKeptBelow(m, m', irt, l, globals);
  }

  // ----- the order of the inits

  datatype InitCall = InitCall(func: word, coreData: nat)

  /** The init of bee i, with the CoreData of the node its id leads to. */
  function InitOf(l: Layout, i: nat): InitCall
    requires i < |l.nodes| <= |l.bees|
  {
    var n := FirstWith(l.bees, |l.nodes|, l.bees[i].mod.id);
    InitCall(Relocate(l.bees[i].Base(), l.bees[i].mod.init), if n < |l.nodes| then l.nodes[n] + 4 else 4)
  }

  /** The bees before k with this priority, in their order. */
  function WithPriority(bees: seq<Bee>, k: nat, p: nat): (order: seq<nat>)
    requires k <= |bees|
    ensures forall j | 0 <= j < |order| :: order[j] < k && bees[order[j]].mod.priority == p
  {
    if k == 0 then []
    else WithPriority(bees, k - 1, p) + (if bees[k - 1].mod.priority == p then [k - 1] else [])
  }

  /** Priority by priority below hi. */
  function InitOrder(bees: seq<Bee>, k: nat, hi: nat): (order: seq<nat>)
    requires k <= |bees|
    ensures forall j | 0 <= j < |order| :: order[j] < k && bees[order[j]].mod.priority < hi
  {
    if hi == 0 then [] else InitOrder(bees, k, hi - 1) + WithPriority(bees, k, hi - 1)
  }

  ghost predicate CallIs(call: InitCall, l: Layout, i: nat) { i < |l.nodes| <= |l.bees| && call == InitOf(l, i) }

  /** The calls are the inits of these bees. */
  ghost predicate CallsAre(calls: seq<InitCall>, l: Layout, order: seq<nat>) {
    && |calls| == |order|
    && forall j | 0 <= j < |calls| :: CallIs(calls[j], l, order[j])
  }

  /** The inits of priority s among the first n bees. */
  ghost predicate PassIs(calls: seq<InitCall>, l: Layout, n: nat, s: nat) {
    n <= |l.bees| && CallsAre(calls, l, WithPriority(l.bees, n, s))
  }

  /** a comes before b in a stable sort by priority. */
  ghost predicate Before(bees: seq<Bee>, a: nat, b: nat)
    requires a < |bees| && b < |bees|
  {
    bees[a].mod.priority < bees[b].mod.priority || (bees[a].mod.priority == bees[b].mod.priority && a < b)
  }

  ghost predicate SortedBefore(bees: seq<Bee>, order: seq<nat>)
    requires forall j | 0 <= j < |order| :: order[j] < |bees|
  {
    forall i, j | 0 <= i < j < |order| :: Before(bees, order[i], order[j])
  }

  lemma {:induction false} WithPriorityComplete(bees: seq<Bee>, k: nat, p: nat)
    requires k <= |bees|
    ensures SortedBefore(bees, WithPriority(bees, k, p))
    ensures forall i: nat | i < k && bees[i].mod.priority == p :: i in WithPriority(bees, k, p)
  {
    if k > 0 {
      WithPriorityComplete(bees, k - 1, p);
      var order := WithPriority(bees, k, p);
      if bees[k - 1].mod.priority == p {
        assert order[|order| - 1] == k - 1;
      }
    }
  }

  lemma SortedConcat(bees: seq<Bee>, a: seq<nat>, b: seq<nat>, p: nat)
    requires forall j | 0 <= j < |a| :: a[j] < |bees| && bees[a[j]].mod.priority < p
    requires forall j | 0 <= j < |b| :: b[j] < |bees| && bees[b[j]].mod.priority == p
    requires SortedBefore(bees, a) && SortedBefore(bees, b)
    ensures forall j | 0 <= j < |a + b| :: (a + b)[j] < |bees|
    ensures SortedBefore(bees, a + b)
  {
  }

  lemma {:induction false} InitOrderSorted(bees: seq<Bee>, k: nat, hi: nat)
    requires k <= |bees|
    ensures SortedBefore(bees, InitOrder(bees, k, hi))
    ensures forall i: nat | i < k && bees[i].mod.priority < hi :: i in InitOrder(bees, k, hi)
  {
    if hi > 0 {
      InitOrderSorted(bees, k, hi - 1);
      WithPriorityComplete(bees, k, hi - 1);
      SortedConcat(bees, InitOrder(bees, k, hi - 1), WithPriority(bees, k, hi - 1), hi - 1);
    }
  }

  /** The inits are a stable sort of the modules by priority: every registered module once,
      a lower priority first, and the order of discovery among equals. */
  lemma InitsAreStableSort(bees: seq<Bee>, k: nat)
    requires k <= |bees|
    ensures var order := InitOrder(bees, k, 256);
            forall i, j | 0 <= i < j < |order| ::
              var p, q := bees[order[i]].mod.priority, bees[order[j]].mod.priority;
              p < q || (p == q && order[i] < order[j])
    ensures forall i: nat | i < k :: i in InitOrder(bees, k, 256)
  {
    InitOrderSorted(bees, k, 256);
    var order := InitOrder(bees, k, 256);
    forall i, j | 0 <= i < j < |order|
      ensures bees[order[i]].mod.priority < bees[order[j]].mod.priority
              || (bees[order[i]].mod.priority == bees[order[j]].mod.priority && order[i] < order[j])
    {
      assert Before(bees, order[i], order[j]);
    }
  }

  /** The walk over the names passes bee n and calls its init if the priority is right. */
  lemma PassGrows(calls: seq<InitCall>, more: seq<InitCall>, l: Layout, n: nat, s: nat)
    requires n < |l.nodes| <= |l.bees| && PassIs(calls, l, n, s)
    requires more == if l.bees[n].mod.priority == s then [InitOf(l, n)] else []
    ensures PassIs(calls + more, l, n + 1, s)
  {
    var rest := if l.bees[n].mod.priority == s then [n] else [];
    assert CallsAre(more, l, rest);
    CallsGrow(calls, more, l, WithPriority(l.bees, n, s), rest);
  }

  lemma CallsGrow(calls: seq<InitCall>, more: seq<InitCall>, l: Layout, order: seq<nat>, rest: seq<nat>)
    requires CallsAre(calls, l, order) && CallsAre(more, l, rest)
    ensures CallsAre(calls + more, l, order + rest)
  {
    var all := order + rest;
    forall j | 0 <= j < |calls + more|
      ensures CallIs((calls + more)[j], l, all[j])
    {
      if j < |calls| {
        assert CallIs(calls[j], l, order[j]);
      } else {
        assert CallIs(more[j - |calls|], l, rest[j - |calls|]);
      }
    }
  }

  /** The names of the first n bees. */
  ghost predicate NamesAre(shown: seq<seq<byte>>, bees: seq<Bee>, n: nat) {
    |shown| == n <= |bees| && forall i | 0 <= i < n :: shown[i] == bees[i].mod.name
  }
}
