/** The address of the interrupt handler, kept at a fixed place in the middle of the bump area:
    what storing it damages, and what damages it. */
module HandlerWord {
  import opened Ram
  import opened Disk
  import opened ModuleFormat
  import opened NamePages
  import opened Loader
  import opened Linker
  import opened KernelLayout
  import opened KernelTables

  /** Where modules that were not passed the handler's address look for it. */
  const CORE_GLOBAL_MEMORY: nat := 0x6000

  // ----- name pages and data pages

  ghost predicate Overlaps(r: Region, lo: nat, hi: nat) {
    r.lo < hi && lo < r.hi
  }

  /** No name page lies at the handler word: the first page is before it, and all others are behind it. */
  lemma NamePagesClear(l: Layout, r: Region)
    requires Spread(l) && r in l.regions && r.kind == NamePage
    ensures !Overlaps(r, CORE_GLOBAL_MEMORY, CORE_GLOBAL_MEMORY + 4)
  {
  }

  lemma ByteOfWord(m: Mem, p: nat, v: word, k: nat)
    requires p + 4 <= |m| && WordAt(m, p) == v && k < 4
    ensures m[p + k] == Bytes4(v)[k]
  {
    WordHolds(m, p, v);
  }

  /** Byte o of the data page of a module loaded at base. */
  function DataByte(base: nat, mod: Module, o: nat): byte
    requires o < DataSize(mod) && |mod.exports| < WORD_MOD
  {
    if o < 4 then Bytes4(Relocate(base, 0))[o]
    else if o < 8 then Bytes4(mod.id)[o - 4]
    else if o == 8 then mod.priority
    else if o == 9 then mod.format
    else if o < 14 then Bytes4(|mod.exports|)[o - 10]
    else if o < 18 then Bytes4(Relocate(base, mod.init))[o - 14]
    else
      var e := mod.exports[(o - 18) / 8];
      if (o - 18) % 8 < 4 then Bytes4(e.id)[(o - 18) % 8] else Bytes4(Relocate(base, e.offset))[(o - 18) % 8 - 4]
  }

  lemma FuncByte(m: Mem, p: nat, base: nat, es: seq<Export>, f: nat, k: nat)
    requires FuncsAt(m, p, base, es) && f < |es| && k < 8
    ensures p + 8 * f + k < |m|
    ensures m[p + 8 * f + k] == if k < 4 then Bytes4(es[f].id)[k] else Bytes4(Relocate(base, es[f].offset))[k - 4]
  {
    assert FuncAt(m, p + 8 * f, base, es[f]);
    if k < 4 {
      ByteOfWord(m, p + 8 * f, es[f].id, k);
    } else {
      ByteOfWord(m, p + 8 * f + 4, Relocate(base, es[f].offset), k - 4);
    }
  }

  lemma HeadByte(m: Mem, p: nat, base: nat, mod: Module, o: nat)
    requires DataHeadAt(m, p, base, mod) && o < 14 && |mod.exports| < WORD_MOD
    ensures m[p + o] == DataByte(base, mod, o)
  {
    if o < 4 {
      ByteOfWord(m, p, Relocate(base, 0), o);
    } else if o < 8 {
      ByteOfWord(m, p + 4, mod.id, o - 4);
    } else if 10 <= o {
      ByteOfWord(m, p + 10, |mod.exports|, o - 10);
    }
  }

  lemma TailByte(m: Mem, p: nat, base: nat, mod: Module, o: nat)
    requires p + DataSize(mod) <= |m| && FuncsAt(m, p + FUNCS_AT, base, mod.exports)
    requires 18 <= o < DataSize(mod) && |mod.exports| < WORD_MOD
    ensures m[p + o] == DataByte(base, mod, o)
  {
    var f, k := (o - 18) / 8, (o - 18) % 8;
    assert o == 18 + 8 * f + k;
    FuncByte(m, p + FUNCS_AT, base, mod.exports, f, k);
  }

  /** A data page determines all of its bytes. */
  lemma DataByteAt(m: Mem, p: nat, base: nat, mod: Module, o: nat)
    requires DataAt(m, p, base, mod) && o < DataSize(mod) && |mod.exports| < WORD_MOD
    ensures m[p + o] == DataByte(base, mod, o)
  {
    if o < 14 {
      HeadByte(m, p, base, mod, o);
    } else if o < 18 {
      ByteOfWord(m, p + 14, Relocate(base, mod.init), o - 14);
    } else {
      TailByte(m, p, base, mod, o);
    }
  }

  /** The bytes of the data page that come to lie at the handler word, if any, are those of the word. */
  ghost predicate DataSpared(b: Bee, irt: word) {
    && |b.mod.exports| < WORD_MOD
    && forall k | 0 <= k < 4 && 0 <= CORE_GLOBAL_MEMORY + k - b.data < DataSize(b.mod) ::
         DataByte(b.Base(), b.mod, CORE_GLOBAL_MEMORY + k - b.data) == Bytes4(irt)[k]
  }

  ghost predicate AllDataSpared(bees: seq<Bee>, irt: word) {
    forall i {:trigger DataSpared(bees[i], irt)} | 0 <= i < |bees| :: DataSpared(bees[i], irt)
  }

  lemma DataPageDamaged(m: Mem, m': Mem, rs: set<Region>, b: Bee, irt: word)
    requires BeeKnown(m, rs, b) && SameOutside(m, m', CORE_GLOBAL_MEMORY, CORE_GLOBAL_MEMORY + 4)
    requires CORE_GLOBAL_MEMORY + 4 <= |m| && WordAt(m', CORE_GLOBAL_MEMORY) == irt
    ensures BeeKnown(m', rs, b) ==> DataSpared(b, irt)
  {
    if BeeKnown(m', rs, b) {
      forall k | 0 <= k < 4 && 0 <= CORE_GLOBAL_MEMORY + k - b.data < DataSize(b.mod)
        ensures DataByte(b.Base(), b.mod, CORE_GLOBAL_MEMORY + k - b.data) == Bytes4(irt)[k]
      {
        DataByteAt(m', b.data, b.Base(), b.mod, CORE_GLOBAL_MEMORY + k - b.data);
        ByteOfWord(m', CORE_GLOBAL_MEMORY, irt, k);
      }
    }
  }

  lemma DataPageSpared(m: Mem, m': Mem, rs: set<Region>, b: Bee, irt: word)
    requires BeeKnown(m, rs, b) && SameOutside(m, m', CORE_GLOBAL_MEMORY, CORE_GLOBAL_MEMORY + 4)
    requires CORE_GLOBAL_MEMORY + 4 <= |m| && WordAt(m', CORE_GLOBAL_MEMORY) == irt
    requires DataSpared(b, irt)
    ensures BeeKnown(m', rs, b)
  {
    forall a | b.data <= a < b.data + DataSize(b.mod)
      ensures m'[a] == m[a]
    {
      if CORE_GLOBAL_MEMORY <= a < CORE_GLOBAL_MEMORY + 4 {
        var k := a - CORE_GLOBAL_MEMORY;
        DataByteAt(m, b.data, b.Base(), b.mod, a - b.data);
        ByteOfWord(m', CORE_GLOBAL_MEMORY, irt, k);
        assert DataByte(b.Base(), b.mod, CORE_GLOBAL_MEMORY + k - b.data) == Bytes4(irt)[k];
      }
    }
    DataKept(m, m', b.data, b.Base(), b.mod);
  }

  /** Storing the handler word leaves the tables as they describe the modules exactly when every data
      page has the bytes of the word already where it meets it. */
  lemma HandlerStoredIff(m: Mem, m': Mem, l: Layout, irt: word)
    requires Tabled(m, l) && Spread(l) && CORE_GLOBAL_MEMORY + 4 <= |m|
    requires SameOutside(m, m', CORE_GLOBAL_MEMORY, CORE_GLOBAL_MEMORY + 4) && WordAt(m', CORE_GLOBAL_MEMORY) == irt
    ensures Tabled(m', l) <==> AllDataSpared(l.bees, irt)
  {
    forall i | 0 <= i < |l.bees|
      ensures BeeKnown(m', l.regions, l.bees[i]) <==> DataSpared(l.bees[i], irt)
    {
      assert BeeKnown(m, l.regions, l.bees[i]);
      DataPageDamaged(m, m', l.regions, l.bees[i], irt);
      if DataSpared(l.bees[i], irt) {
        DataPageSpared(m, m', l.regions, l.bees[i], irt);
      }
    }
    forall j | 0 <= j < |l.pages|
      ensures Agree(m, m', l.pages[j], l.pages[j] + PAGE_SIZE)
    {
      NamePagesClear(l, PageRegion(l.pages[j]));
    }
    NamesKept(m, m', l.pages, l.bees);
  }

  /** A data page right at the handler word is read as it was exactly if the module was loaded at the
      handler's own address. */
  lemma DataPageAtHandler(b: Bee, irt: word)
    requires b.data == CORE_GLOBAL_MEMORY && b.Base() < WORD_MOD && |b.mod.exports| < WORD_MOD
    ensures DataSpared(b, irt) <==> b.Base() == irt
  {
    var base := Bytes4(Relocate(b.Base(), 0));
    assert Relocate(b.Base(), 0) == b.Base();
    if DataSpared(b, irt) {
      assert DataByte(b.Base(), b.mod, CORE_GLOBAL_MEMORY + 0 - b.data) == base[0];
      assert DataByte(b.Base(), b.mod, CORE_GLOBAL_MEMORY + 1 - b.data) == base[1];
      assert DataByte(b.Base(), b.mod, CORE_GLOBAL_MEMORY + 2 - b.data) == base[2];
      assert DataByte(b.Base(), b.mod, CORE_GLOBAL_MEMORY + 3 - b.data) == base[3];
      SameBytes(b.Base(), irt);
    }
  }

  lemma SameBytes(v: word, w: word)
    requires Bytes4(v)[0] == Bytes4(w)[0] && Bytes4(v)[1] == Bytes4(w)[1]
    requires Bytes4(v)[2] == Bytes4(w)[2] && Bytes4(v)[3] == Bytes4(w)[3]
    ensures v == w
  {
    WordDigits(v);
    WordDigits(w);
  }

  // ----- images

  lemma WordHolds(m: Mem, p: nat, v: word)
    requires p + 4 <= |m| && WordAt(m, p) == v
    ensures Holds(m, p, Bytes4(v))
  {
    var rest2 := m[p + 2] as int + 0x100 * m[p + 3] as int;
    var rest := m[p + 1] as int + 0x100 * rest2;
    assert v == m[p] as int + 0x100 * rest;
    assert v / 0x100 == rest && v / 0x1_0000 == rest2;
  }

  /** The bytes of the module that come to lie at the handler word, if any, are those of the word. */
  ghost predicate HandlerSpares(d: Disk, b: Bee, irt: word)
    requires b.span.end <= |d.bytes|
  {
    forall k | 0 <= k < 4 && 0 <= CORE_GLOBAL_MEMORY + k - b.Base() < b.span.end - b.span.start ::
      d.bytes[b.span.start + (CORE_GLOBAL_MEMORY + k - b.Base())] == Bytes4(irt)[k]
  }

  /** The bytes of the bump area that was in use are as they were, but for the handler word. */
  ghost predicate SameButHandler(m: Mem, m': Mem, memory: nat, irt: word) {
    && |m| == |m'|
    && (forall a | 0 <= a < |m| && a < memory && !(CORE_GLOBAL_MEMORY <= a < CORE_GLOBAL_MEMORY + 4) :: m'[a] == m[a])
    && (CORE_GLOBAL_MEMORY + 4 <= memory <= |m| ==> WordAt(m', CORE_GLOBAL_MEMORY) == irt)
  }

  /** The handler word goes into the bump area: a module's image survives it exactly when its
      own bytes at that place, if it has any, are those of the handler's address. */
  lemma HandlerWordInImage(m: Mem, m': Mem, d: Disk, b: Bee, memory: nat, irt: word)
    requires ImageAt(m, d, b.span, b.Base()) && SameButHandler(m, m', memory, irt)
    requires CORE_GLOBAL_MEMORY + 4 <= memory <= |m| && b.Base() + (b.span.end - b.span.start) <= memory
    ensures ImageAt(m', d, b.span, b.Base()) <==> HandlerSpares(d, b, irt)
  {
    WordHolds(m', CORE_GLOBAL_MEMORY, irt);
    var bytes := Bytes4(irt);
    forall k | 0 <= k < 4
      ensures m'[CORE_GLOBAL_MEMORY + k] == bytes[k]
    {
    }
    if ImageAt(m', d, b.span, b.Base()) {
      forall k | 0 <= k < 4 && 0 <= CORE_GLOBAL_MEMORY + k - b.Base() < b.span.end - b.span.start
        ensures d.bytes[b.span.start + (CORE_GLOBAL_MEMORY + k - b.Base())] == bytes[k]
      {
        var a := CORE_GLOBAL_MEMORY + k;
        assert b.Base() <= a < b.Base() + (b.span.end - b.span.start);
      }
    } else if HandlerSpares(d, b, irt) {
      forall a | b.Base() <= a < b.Base() + (b.span.end - b.span.start)
        ensures m'[a] == d.bytes[b.span.start + (a - b.Base())]
      {
        if CORE_GLOBAL_MEMORY <= a < CORE_GLOBAL_MEMORY + 4 {
          var k := a - CORE_GLOBAL_MEMORY;
          assert m'[CORE_GLOBAL_MEMORY + k] == bytes[k];
        }
      }
    }
  }

  /** After linking, exactly the modules that the handler word spares are in memory as on disk. */
  lemma ImagesAfterLinking(m: Mem, m': Mem, d: Disk, l: Layout, irt: word, i: nat)
    requires Loaded(m, d, l) && i < |l.bees| && SameButHandler(m, m', l.memory, irt)
    requires CORE_GLOBAL_MEMORY + 4 <= l.memory || l.memory <= CORE_GLOBAL_MEMORY
    ensures l.bees[i].span.end <= |d.bytes|
    ensures ImageAt(m', d, l.bees[i].span, l.bees[i].Base()) <==> HandlerSpares(d, l.bees[i], irt)
  {
    var b := l.bees[i];
    assert BeeLoaded(m, d, l.regions, l.bees[i]);
    if CORE_GLOBAL_MEMORY + 4 <= l.memory {
      HandlerWordInImage(m, m', d, b, l.memory, irt);
    } else {
      ImageKept(m, m', d, b.span, b.Base());
    }
  }

  /** The image of the bee is in memory, unless the handler word lies in it and is not what was there. */
  ghost predicate ImageIs(m: Mem, d: Disk, b: Bee, irt: word) {
    b.span.end <= |d.bytes| && (ImageAt(m, d, b.span, b.Base()) <==> HandlerSpares(d, b, irt))
  }

  ghost predicate ImagesAre(m: Mem, d: Disk, bees: seq<Bee>, irt: word) {
    forall i {:trigger ImageIs(m, d, bees[i], irt)} | 0 <= i < |bees| :: ImageIs(m, d, bees[i], irt)
  }

  lemma ImagesLinked(m: Mem, m': Mem, d: Disk, l: Layout, irt: word)
    requires Loaded(m, d, l) && SameButHandler(m, m', l.memory, irt)
    requires CORE_GLOBAL_MEMORY + 4 <= l.memory || l.memory <= CORE_GLOBAL_MEMORY
    ensures ImagesAre(m', d, l.bees, irt)
  {
    forall i | 0 <= i < |l.bees|
      ensures ImageIs(m', d, l.bees[i], irt)
    {
      ImagesAfterLinking(m, m', d, l, irt, i);
    }
  }

  /** What leaves the regions alone leaves the images as they are. */
  lemma ImagesStay(m: Mem, m': Mem, d: Disk, l: Layout, irt: word)
    requires Tabled(m, l) && RegionsKept(m, m', l.regions) && ImagesAre(m, d, l.bees, irt)
    ensures ImagesAre(m', d, l.bees, irt)
  {
    forall i | 0 <= i < |l.bees|
      ensures ImageIs(m', d, l.bees[i], irt)
    {
      var b := l.bees[i];
      assert BeeKnown(m, l.regions, l.bees[i]) && ImageIs(m, d, l.bees[i], irt);
      if b.span.start <= b.span.end {
        ImageInRegion(b);
        var r := b.ImageRegion();
        assert Agree(m, m', r.lo, r.hi);
        if ImageAt(m, d, b.span, b.Base()) {
          ImageKept(m, m', d, b.span, b.Base());
        }
        if ImageAt(m', d, b.span, b.Base()) {
          ImageKept(m', m, d, b.span, b.Base());
        }
      }
    }
  }

  // ----- what becomes of the word

  /** The node at p meets the handler word. */
  predicate Covers(p: nat, mod: Module) {
    p <= CORE_GLOBAL_MEMORY < p + NodeSize(mod)
  }

  /** The word at offset o of a node just made. */
  function NodeWord(b: Bee, irt: word, o: nat): nat {
    if o == 0 then b.mod.id
    else if o == 4 then irt
    else if o == 8 then b.Base()
    else if o < SLOTS_AT - 4 then 0
    else if o < SLOTS_AT then MaxId(b.mod.exports) % WORD_MOD
    else SlotValue(b.Base(), b.mod.exports, (o - SLOTS_AT) / 4)
  }

  /** What linking leaves at the handler word. */
  function WordLeft(nodes: seq<nat>, bees: seq<Bee>, k: nat, irt: word): nat
    requires k <= |nodes| <= |bees|
  {
    if k == 0 then irt
    else if Covers(nodes[k - 1], bees[k - 1].mod) then NodeWord(bees[k - 1], irt, CORE_GLOBAL_MEMORY - nodes[k - 1])
    else WordLeft(nodes, bees, k - 1, irt)
  }

  ghost predicate HandlerIs(m: Mem, l: Layout, irt: word) {
    && CORE_GLOBAL_MEMORY + 4 <= |m| && |l.nodes| <= |l.bees|
    && WordAt(m, CORE_GLOBAL_MEMORY) == WordLeft(l.nodes, l.bees, |l.nodes|, irt)
  }

  lemma OffsetInNode(p: nat, mod: Module) returns (o: nat)
    requires Aligned(p) && Covers(p, mod)
    ensures o == CORE_GLOBAL_MEMORY - p && o + 4 <= NodeSize(mod)
    ensures o in {0, 4, 8, 12, 16, 20, 24} || (SLOTS_AT <= o && o == SLOTS_AT + 4 * ((o - SLOTS_AT) / 4))
  {
    o := CORE_GLOBAL_MEMORY - p;
    var q := p / 4;
    assert p == 4 * q;
    assert o == 4 * (0x1800 - q);
  }

  lemma NodeWordIs(m: Mem, p: nat, irt: word, b: Bee)
    requires NodeAt(m, p, irt, b.Base(), b.mod) && NodeHeadAt(m, p, b.mod.id, irt, b.Base())
    requires Aligned(p) && Covers(p, b.mod)
    ensures CORE_GLOBAL_MEMORY + 4 <= |m| && WordAt(m, CORE_GLOBAL_MEMORY) == NodeWord(b, irt, CORE_GLOBAL_MEMORY - p)
  {
    var o := OffsetInNode(p, b.mod);
    if SLOTS_AT <= o {
      assert SlotAt(m, p + SLOTS_AT, b.Base(), b.mod.exports, (o - SLOTS_AT) / 4);
    }
  }

  lemma OnWord(q: int)
    requires SECTOR * q >= 0
    ensures Aligned(SECTOR * q)
    ensures SECTOR * q <= CORE_GLOBAL_MEMORY || CORE_GLOBAL_MEMORY + 4 <= SECTOR * q
  {
  }

  lemma AlignedApart(p: nat, size: nat)
    requires Aligned(p) && Aligned(size) && !(p <= CORE_GLOBAL_MEMORY < p + size)
    ensures CORE_GLOBAL_MEMORY + 4 <= p || p + size <= CORE_GLOBAL_MEMORY
  {
  }

  /** Making one more node. */
  lemma HandlerNext(m: Mem, m': Mem, irt: word, l: Layout, l': Layout)
    requires HandlerIs(m, l, irt) && Growing(l) && |l.nodes| < |l.bees|
    requires l'.bees == l.bees && l'.nodes == l.nodes + [l.memory]
    requires var b := l.bees[|l.nodes|];
             && SameOutside(m, m', l.memory, l.memory + NodeSize(b.mod))
             && NodeAt(m', l.memory, irt, b.Base(), b.mod) && NodeHeadAt(m', l.memory, b.mod.id, irt, b.Base())
    ensures HandlerIs(m', l', irt)
  {
    var k := |l.nodes|;
    var b := l.bees[k];
    WordLeftPrefix(l.nodes, l'.nodes, l.bees, k, irt);
    if Covers(l.memory, b.mod) {
      NodeWordIs(m', l.memory, irt, b);
    } else {
      AlignedApart(l.memory, NodeSize(b.mod));
      WordKept(m, m', CORE_GLOBAL_MEMORY, l.memory, l.memory + NodeSize(b.mod));
    }
  }

  lemma {:induction false} WordLeftPrefix(nodes: seq<nat>, nodes': seq<nat>, bees: seq<Bee>, k: nat, irt: word)
    requires k <= |nodes| <= |bees| && k <= |nodes'| <= |bees|
    requires forall i | 0 <= i < k :: nodes[i] == nodes'[i]
    ensures WordLeft(nodes, bees, k, irt) == WordLeft(nodes', bees, k, irt)
  {
    if k > 0 {
      WordLeftPrefix(nodes, nodes', bees, k - 1, irt);
    }
  }

  /** After linking, the handler's address can still be read exactly if no node meets its place, or the
      one that does has the same word there. */
  lemma HandlerIntactIff(l: Layout, irt: word)
    requires Joined(l)
    ensures WordLeft(l.nodes, l.bees, |l.nodes|, irt) == irt <==>
            forall i | 0 <= i < |l.nodes| && Covers(l.nodes[i], l.bees[i].mod) ::
              NodeWord(l.bees[i], irt, CORE_GLOBAL_MEMORY - l.nodes[i]) == irt
  {
    var n := |l.nodes|;
    if i :| 0 <= i < n && Covers(l.nodes[i], l.bees[i].mod) {
      WordLeftIs(l, i, n, irt);
      forall j | 0 <= j < n && Covers(l.nodes[j], l.bees[j].mod)
        ensures j == i
      {
        OneCovers(l, i, j);
      }
    } else {
      NoneCovers(l.nodes, l.bees, n, irt);
    }
  }

  lemma OneCovers(l: Layout, i: nat, j: nat)
    requires Joined(l) && i < |l.nodes| && j < |l.nodes|
    requires Covers(l.nodes[i], l.bees[i].mod) && Covers(l.nodes[j], l.bees[j].mod)
    ensures i == j
  {
    if i < j {
      NodesOrdered(l, i, j);
    } else if j < i {
      NodesOrdered(l, j, i);
    }
  }

  lemma {:induction false} WordLeftIs(l: Layout, i: nat, k: nat, irt: word)
    requires Joined(l) && i < k <= |l.nodes| && Covers(l.nodes[i], l.bees[i].mod)
    ensures WordLeft(l.nodes, l.bees, k, irt) == NodeWord(l.bees[i], irt, CORE_GLOBAL_MEMORY - l.nodes[i])
    decreases k
  {
    if i < k - 1 {
      if Covers(l.nodes[k - 1], l.bees[k - 1].mod) {
        OneCovers(l, i, k - 1);
      }
      WordLeftIs(l, i, k - 1, irt);
    }
  }

  lemma {:induction false} NoneCovers(nodes: seq<nat>, bees: seq<Bee>, k: nat, irt: word)
    requires k <= |nodes| <= |bees|
    requires forall i | 0 <= i < k :: !Covers(nodes[i], bees[i].mod)
    ensures WordLeft(nodes, bees, k, irt) == irt
  {
    if k > 0 {
      NoneCovers(nodes, bees, k - 1, irt);
    }
  }

  /** Where all nodes lie behind the place, nothing the core stores in them meets it. */
  lemma NodesBehind(l: Layout)
    requires Joined(l) && (l.nodes != [] ==> CORE_GLOBAL_MEMORY + 4 <= l.nodes[0])
    ensures NodesClear(l.nodes) && forall i | 0 <= i < |l.nodes| :: !Covers(l.nodes[i], l.bees[i].mod)
  {
    forall i | 0 < i < |l.nodes|
      ensures l.nodes[0] <= l.nodes[i]
    {
      NodesOrdered(l, 0, i);
    }
  }

  /** A node meets the place exactly if it lies between the bump pointers before and after linking. */
  lemma SomeNodeCovers(l: Layout)
    requires Growing(l) && l.nodes != []
    ensures (exists i :: 0 <= i < |l.nodes| && Covers(l.nodes[i], l.bees[i].mod))
            <==> l.nodes[0] <= CORE_GLOBAL_MEMORY < l.memory
  {
    var n := |l.nodes|;
    if i :| 0 <= i < n && Covers(l.nodes[i], l.bees[i].mod) {
      if i > 0 {
        NodesOrdered(l, 0, i);
      }
      if i < n - 1 {
        NodesOrdered(l, i, n - 1);
      }
    }
    if l.nodes[0] <= CORE_GLOBAL_MEMORY < l.memory {
      var i := CoveringNode(l, n - 1);
    }
  }

  lemma {:induction false} CoveringNode(l: Layout, k: nat) returns (i: nat)
    requires Joined(l) && k < |l.nodes|
    requires l.nodes[0] <= CORE_GLOBAL_MEMORY < l.nodes[k] + NodeSize(l.bees[k].mod)
    ensures i < |l.nodes| && Covers(l.nodes[i], l.bees[i].mod)
  {
    if l.nodes[k] <= CORE_GLOBAL_MEMORY {
      i := k;
    } else {
      assert l.nodes[k] == l.nodes[k - 1] + NodeSize(l.bees[k - 1].mod);
      i := CoveringNode(l, k - 1);
    }
  }

  /** Clearing n bytes from p clears nothing of the word but what is 0 already. */
  ghost predicate ClearSpares(p: nat, n: nat, irt: word) {
    forall k | 0 <= k < 4 && p <= CORE_GLOBAL_MEMORY + k < p + n :: Bytes4(irt)[k] == 0
  }

  /** Clearing memory leaves the handler's address intact exactly if what it clears of it was 0. */
  lemma ClearedHandlerIff(m: Mem, m': Mem, p: nat, n: nat, irt: word)
    requires CORE_GLOBAL_MEMORY + 4 <= |m| == |m'| && WordAt(m, CORE_GLOBAL_MEMORY) == irt
    requires forall a | CORE_GLOBAL_MEMORY <= a < CORE_GLOBAL_MEMORY + 4 :: m'[a] == if p <= a < p + n then 0 else m[a]
    ensures WordAt(m', CORE_GLOBAL_MEMORY) == irt <==> ClearSpares(p, n, irt)
  {
    var q := CORE_GLOBAL_MEMORY;
    WordHolds(m, q, irt);
    if WordAt(m', q) == irt {
      WordHolds(m', q, irt);
      forall k | 0 <= k < 4 && p <= q + k < p + n
        ensures Bytes4(irt)[k] == 0
      {
        assert m'[q + k] == Bytes4(irt)[k];
      }
    }
    if ClearSpares(p, n, irt) {
      assert m[q + 0] == Bytes4(irt)[0] && m[q + 1] == Bytes4(irt)[1];
      assert m[q + 2] == Bytes4(irt)[2] && m[q + 3] == Bytes4(irt)[3];
      assert m'[q + 0] == m[q + 0] && m'[q + 1] == m[q + 1] && m'[q + 2] == m[q + 2] && m'[q + 3] == m[q + 3];
    }
  }

  /** What the core stores in nodes while running, the arguments of calls and the pointers to storage,
      does not meet the word. */
  ghost predicate NodesClear(nodes: seq<nat>) {
    forall i | 0 <= i < |nodes| :: nodes[i] + 24 <= CORE_GLOBAL_MEMORY || CORE_GLOBAL_MEMORY + 4 <= nodes[i] + 12
  }
}
