/** What a call means, without addresses: a module and an offset in it. */
module Linkage {
  import opened Ram
  import opened Wrappers
  import opened Disk
  import opened ModuleFormat
  import opened NamePages
  import opened Loader
  import opened KernelLayout
  import opened BootScan
  import opened KernelTables
  import opened Answers

  datatype Target = OwnCommand | UnknownModule | UnknownCmd | Exported(mod: Module, offset: word)

  function Find(mods: seq<Module>, id: word): (m: Option<Module>)
    ensures m.Some? ==> m.value in mods && m.value.id == id
    ensures m.None? ==> forall i | 0 <= i < |mods| :: mods[i].id != id
  {
    if mods == [] then None else if mods[0].id == id then Some(mods[0]) else Find(mods[1..], id)
  }

  /** What the linker promises for a call. */
  function Resolve(mods: seq<Module>, id: word, cmd: nat): Target {
    if id == 0 then OwnCommand
    else
      match Find(mods, id)
      case None => UnknownModule
      case Some(mod) =>
        match OffsetOf(mod.exports, cmd)
        case None => UnknownCmd
        case Some(offset) => Exported(mod, offset)
  }

  ghost predicate DistinctIds(mods: seq<Module>) {
    forall i, j | 0 <= i < j < |mods| :: mods[i].id != mods[j].id
  }

  lemma FindIs(mods: seq<Module>, mod: Module)
    requires DistinctIds(mods) && mod in mods
    ensures Find(mods, mod.id) == Some(mod)
  {
    var i :| 0 <= i < |mods| && mods[i] == mod;
    var found := Find(mods, mod.id).value;
    var j :| 0 <= j < |mods| && mods[j] == found;
  }

  /** With distinct ids, calls mean the same in whatever order the modules come. */
  lemma OrderIrrelevant(mods: seq<Module>, others: seq<Module>, id: word, cmd: nat)
    requires DistinctIds(mods) && multiset(mods) == multiset(others)
    ensures Find(mods, id) == Find(others, id)
    ensures Resolve(mods, id, cmd) == Resolve(others, id, cmd)
  {
    var m, o := Find(mods, id), Find(others, id);
    if m.Some? {
      assert m.value in multiset(others);
      assert m.value in others;
    }
    if o.Some? {
      assert o.value in multiset(mods);
      FindIs(mods, o.value);
    }
  }

  /** With distinct export ids, an offset is found exactly when it is exported under that id. */
  lemma {:induction false} OffsetOfIff(es: seq<Export>, cmd: word, offset: word)
    requires forall i, j | 0 <= i < j < |es| :: es[i].id != es[j].id
    ensures OffsetOf(es, cmd) == Some(offset) <==> Export(cmd, offset) in es
  {
    if es != [] {
      var rest := es[..|es| - 1];
      OffsetOfIff(rest, cmd, offset);
      assert es == rest + [es[|es| - 1]];
    }
  }

  // ----- addresses

  /** The registered modules. */
  function ModulesOf(bees: seq<Bee>): (mods: seq<Module>)
    ensures |mods| == |bees| && forall i | 0 <= i < |mods| :: mods[i] == bees[i].mod
  {
    seq(|bees|, i requires 0 <= i < |bees| => bees[i].mod)
  }

  /** What address a target has, for the bee that is its module. */
  function Place(l: Layout, globals: seq<word>, i: nat, offset: word): Outcome
    requires i < |globals| == |l.nodes| <= |l.bees|
  {
    var func := Relocate(l.bees[i].Base(), offset);
    if func == 0 then NoCmd else Called(func, l.nodes[i] + 4, globals[i])
  }

  lemma FirstWithFinds(bees: seq<Bee>, k: nat, id: word)
    requires k <= |bees|
    ensures var i := FirstWith(bees, k, id);
            Find(ModulesOf(bees[..k]), id) == if i < k then Some(bees[i].mod) else None
  {
    var mods := ModulesOf(bees[..k]);
    FindFirst(mods, id, FirstWith(bees, k, id));
  }

  lemma {:induction false} FindFirst(mods: seq<Module>, id: word, i: nat)
    requires i <= |mods| && forall j | 0 <= j < i :: mods[j].id != id
    requires i < |mods| ==> mods[i].id == id
    ensures Find(mods, id) == if i < |mods| then Some(mods[i]) else None
  {
    if i > 0 {
      FindFirst(mods[1..], id, i - 1);
    }
  }

  /** Any call at all. Id 0 is the core itself. Elsewhere, an exported command reaches the load base of its
      module plus the offset, with the module's own CoreData and storage; only a sum that wraps round to 0
      reads as an empty slot. An unknown command or module is refused exactly within the limits of the tables. */
  lemma CallMeans(m: Mem, irt: word, l: Layout, globals: seq<word>, id: word, cmd: word, count: word, ptr: word)
    requires Linked(m, irt, l) && GlobalsHold(m, l.nodes, globals) && CallInMemory(m, l, id, cmd)
    ensures var i, a := FirstWith(l.bees, |l.nodes|, id), Answer(m, l, id, cmd, count, ptr);
            match Resolve(ModulesOf(l.bees[..|l.nodes|]), id, cmd)
            case OwnCommand => id == 0 && a == Own
            case UnknownModule => i == |l.nodes| && (a == NoModule <==> Sought(m, l, id))
            case UnknownCmd =>
              && i < |l.nodes|
              && (a == NoCmd <==>
                  cmd <= MaxId(l.bees[i].mod.exports) || WordAt(m, SlotAddress(l.nodes[i], cmd)) == 0)
            case Exported(mod, offset) =>
              i < |l.nodes| && l.bees[i].mod == mod && a == Place(l, globals, i, offset)
  {
    FirstWithFinds(l.bees, |l.nodes|, id);
    AnswerIff(m, irt, l, globals, id, cmd, count, ptr);
    NodeForKnown(m, irt, l, id);
  }

  /** An offset inside the image never wraps round: such a call succeeds exactly when the command is exported. */
  lemma InsideImageIsCalled(m: Mem, d: Disk, l: Layout, i: nat, globals: seq<word>, offset: word)
    requires i < |globals| == |l.nodes| <= |l.bees| && BUMP_START <= l.bees[i].Base()
    requires ImageAt(m, d, l.bees[i].span, l.bees[i].Base()) && |m| <= WORD_MOD
    requires offset < l.bees[i].span.end - l.bees[i].span.start
    ensures Place(l, globals, i, offset) == Called(l.bees[i].Base() + offset, l.nodes[i] + 4, globals[i])
    ensures m[l.bees[i].Base() + offset] == d.bytes[l.bees[i].span.start + offset]
  {
  }

  /** The core itself, the same module, or none answers on both machines. */
  ghost predicate Alike(m: Mem, l: Layout, globals: seq<word>, m': Mem, l': Layout, globals': seq<word>,
                        id: word, cmd: word, count: word, ptr: word) {
    && |globals| == |l.nodes| <= |l.bees| && |globals'| == |l'.nodes| <= |l'.bees|
    && CallInMemory(m, l, id, cmd) && CallInMemory(m', l', id, cmd)
    && var o, o' := Answer(m, l, id, cmd, count, ptr), Answer(m', l', id, cmd, count, ptr);
    && (o.Own? <==> o'.Own?) && (o.NoModule? <==> o'.NoModule?)
    && (!o.Own? && !o.NoModule? ==>
          && var i, i' := FirstWith(l.bees, |l.nodes|, id), FirstWith(l'.bees, |l'.nodes|, id);
          && i < |l.nodes| && i' < |l'.nodes| && l.bees[i].mod == l'.bees[i'].mod
          && match OffsetOf(l.bees[i].mod.exports, cmd)
             case None => o == o' == NoCmd
             case Some(offset) => o == Place(l, globals, i, offset) && o' == Place(l', globals', i', offset))
  }

  /** Two machines with the same modules in different orders answer alike every call that one of them can
      answer, if an unknown id is one on both. Behind the tables they need not (BehindTheTable). */
  lemma SameAnswers(m: Mem, irt: word, l: Layout, globals: seq<word>,
                    m': Mem, irt': word, l': Layout, globals': seq<word>, id: word, cmd: word, count: word, ptr: word)
    requires Linked(m, irt, l) && GlobalsHold(m, l.nodes, globals)
    requires Linked(m', irt', l') && GlobalsHold(m', l'.nodes, globals')
    requires Callable(m, l, id, cmd) && (id == 0 || Sought(m', l', id))
    requires DistinctIds(ModulesOf(l.bees[..|l.nodes|]))
    requires multiset(ModulesOf(l.bees[..|l.nodes|])) == multiset(ModulesOf(l'.bees[..|l'.nodes|]))
    ensures Callable(m', l', id, cmd) && Alike(m, l, globals, m', l', globals', id, cmd, count, ptr)
  {
    SameModule(l, l', id);
    CallableIsAnswered(m, irt, l, globals, id, cmd, count, ptr);
    CallableIsAnswered(m', irt', l', globals', id, cmd, count, ptr);
  }

  /** The module that an id leads to is the same on both. */
  lemma SameModule(l: Layout, l': Layout, id: word)
    requires |l.nodes| <= |l.bees| && |l'.nodes| <= |l'.bees|
    requires DistinctIds(ModulesOf(l.bees[..|l.nodes|]))
    requires multiset(ModulesOf(l.bees[..|l.nodes|])) == multiset(ModulesOf(l'.bees[..|l'.nodes|]))
    ensures var i, i' := FirstWith(l.bees, |l.nodes|, id), FirstWith(l'.bees, |l'.nodes|, id);
            (i < |l.nodes| <==> i' < |l'.nodes|) && (i < |l.nodes| ==> l.bees[i].mod == l'.bees[i'].mod)
  {
    FirstWithFinds(l.bees, |l.nodes|, id);
    FirstWithFinds(l'.bees, |l'.nodes|, id);
    OrderIrrelevant(ModulesOf(l.bees[..|l.nodes|]), ModulesOf(l'.bees[..|l'.nodes|]), id, 0);
  }

  /** With distinct ids, every init gets its own address and its own CoreData. */
  lemma InitMeans(l: Layout, i: nat)
    requires i < |l.nodes| <= |l.bees| && DistinctIds(ModulesOf(l.bees[..|l.nodes|]))
    ensures InitOf(l, i) == InitCall(Relocate(l.bees[i].Base(), l.bees[i].mod.init), l.nodes[i] + 4)
  {
    var mods, n := ModulesOf(l.bees[..|l.nodes|]), FirstWith(l.bees, |l.nodes|, l.bees[i].mod.id);
    assert mods[i].id == l.bees[i].mod.id;
    assert forall j | 0 <= j < |mods| :: mods[j].id == l.bees[j].mod.id;
  }

  // ----- from module files

  /** The span of the disk holds the file of the module. */
  ghost predicate FileAt(d: Disk, span: Span, mod: Module, code: seq<byte>) {
    && |mod.name| == NAME_SIZE && |mod.exports| < WORD_MOD
    && Holds(d.bytes, span.start, Serialise(mod, code))
    && span.end == span.start + |Serialise(mod, code)|
  }

  /** The four bytes that the scan looks for open and close every module file. */
  lemma FileHasMagics(d: Disk, span: Span, mod: Module, code: seq<byte>)
    requires FileAt(d, span, mod, code)
    ensures span.start + 54 <= span.end <= |d.bytes|
    ensures d.bytes[span.start..span.start + 4] == d.bytes[span.end - 4..span.end] == [0x3A, 0x44, 0xBE, 0xE0]
    ensures IsMagic(d.bytes, span.start) && IsMagic(d.bytes, span.end - 4)
  {
    HoldsBoth(d.bytes, span.start, Header(mod) + code, MAGIC);
    HoldsBoth(d.bytes, span.start, Header(mod), code);
    var rest := Header(mod)[4..];
    assert Header(mod) == MAGIC + rest;
    HoldsBoth(d.bytes, span.start, MAGIC, rest);
    MagicHeld(d.bytes, span.start);
    MagicHeld(d.bytes, span.end - 4);
  }

  lemma MagicHeld(b: seq<byte>, p: nat)
    requires Holds(b, p, MAGIC)
    ensures IsMagic(b, p) && b[p..p + 4] == [0x3A, 0x44, 0xBE, 0xE0]
  {
    assert b[p] == b[p + 0] == MAGIC[0] && b[p + 1] == MAGIC[1] && b[p + 2] == MAGIC[2] && b[p + 3] == MAGIC[3];
  }

  /** Whatever a module file was made from is what the boot scan reads from it. */
  lemma FileIsModule(d: Disk, span: Span, mod: Module, code: seq<byte>)
    requires FileAt(d, span, mod, code)
    ensures HeaderOk(d, span) && ModuleOf(d, span) == mod
  {
    HoldsBoth(d.bytes, span.start, Header(mod) + code, MAGIC);
    HoldsBoth(d.bytes, span.start, Header(mod), code);
    HeaderRoundTrip(d.bytes, span.start, mod);
    var n := span.end - span.start;
    assert n == HeaderSize(mod) + |code| + 4;
    ParseHeader(d.bytes, span.start, n);
    HeaderUnique(d.bytes, span.start, mod, ModuleOf(d, span));
  }

  ghost predicate FilesAt(d: Disk, ss: seq<Span>, mods: seq<Module>, codes: seq<seq<byte>>) {
    && |ss| == |mods| == |codes|
    && forall i {:trigger FileAt(d, ss[i], mods[i], codes[i])} | 0 <= i < |ss| :: FileAt(d, ss[i], mods[i], codes[i])
  }

  ghost predicate AllNamed(mods: seq<Module>) {
    forall i | 0 <= i < |mods| :: mods[i].name != [] && mods[i].name[0] != 0
  }

  lemma AllRegistered(bees: seq<Bee>)
    requires forall i | 0 <= i < |bees| :: bees[i].mod.name != [] && bees[i].mod.name[0] != 0
    ensures RegCount(bees) == |bees|
  {
  }

  /** Where module files lie between the magics of a disk, and names are not empty, exactly these
      modules are booted and registered, in this order. */
  lemma BootedFromFiles(d: Disk, ms: seq<nat>, mods: seq<Module>, codes: seq<seq<byte>>, bees: seq<Bee>)
    requires MagicsAre(d, 512, ms) && Gaps(d, 512, ms) && FilesAt(d, Pairs(ms), mods, codes)
    requires BeesAre(d, bees, Spans(d, 512)) && |bees| == |Spans(d, 512)|
    ensures HeadersOk(d, Spans(d, 512)) && ModulesOf(bees) == mods
    ensures AllNamed(mods) ==> RegCount(bees) == |mods|
  {
    SpansPairMagics(d, 512, ms);
    var ss := Spans(d, 512);
    forall i | 0 <= i < |ss|
      ensures HeaderOk(d, ss[i]) && ModuleOf(d, ss[i]) == mods[i]
    {
      assert FileAt(d, ss[i], mods[i], codes[i]);
      FileIsModule(d, ss[i], mods[i], codes[i]);
    }
    forall i | 0 <= i < |bees|
      ensures ModulesOf(bees)[i] == mods[i]
    {
      assert BeeIs(d, bees[i], ss[i]);
    }
    if AllNamed(mods) {
      assert forall i | 0 <= i < |bees| :: bees[i].mod == mods[i];
      AllRegistered(bees);
    }
  }

  /** What a boot leaves behind. */
  ghost predicate Booted(m: Mem, d: Disk, irt: word, l: Layout, globals: seq<word>) {
    && Linked(m, irt, l) && GlobalsHold(m, l.nodes, globals) && |l.nodes| == RegCount(l.bees)
    && BeesAre(d, l.bees, Spans(d, 512)) && |l.bees| == |Spans(d, 512)|
  }

  /** The files of the modules lie between the magics of the disk, in this order. */
  ghost predicate DiskHolds(d: Disk, ms: seq<nat>, mods: seq<Module>, codes: seq<seq<byte>>) {
    MagicsAre(d, 512, ms) && Gaps(d, 512, ms) && FilesAt(d, Pairs(ms), mods, codes) && AllNamed(mods)
  }

  lemma BootedModules(m: Mem, d: Disk, irt: word, l: Layout, globals: seq<word>,
                      ms: seq<nat>, mods: seq<Module>, codes: seq<seq<byte>>)
    requires DiskHolds(d, ms, mods, codes) && Booted(m, d, irt, l, globals)
    ensures |l.nodes| == |l.bees| && ModulesOf(l.bees[..|l.nodes|]) == mods
  {
    BootedFromFiles(d, ms, mods, codes, l.bees);
    assert l.bees[..|l.bees|] == l.bees;
  }

  /** From the disks to the calls: machines booted from the same module files in different orders answer
      every call alike. */
  lemma DisksAlike(d: Disk, ms: seq<nat>, mods: seq<Module>, codes: seq<seq<byte>>,
                   d': Disk, ms': seq<nat>, mods': seq<Module>, codes': seq<seq<byte>>,
                   m: Mem, irt: word, l: Layout, globals: seq<word>,
                   m': Mem, irt': word, l': Layout, globals': seq<word>,
                   id: word, cmd: word, count: word, ptr: word)
    requires DiskHolds(d, ms, mods, codes) && DiskHolds(d', ms', mods', codes')
    requires DistinctIds(mods) && multiset(mods) == multiset(mods')
    requires Booted(m, d, irt, l, globals) && Booted(m', d', irt', l', globals')
    requires Callable(m, l, id, cmd) && (id == 0 || Sought(m', l', id))
    ensures Alike(m, l, globals, m', l', globals', id, cmd, count, ptr)
  {
    BootedModules(m, d, irt, l, globals, ms, mods, codes);
    BootedModules(m', d', irt', l', globals', ms', mods', codes');
    SameAnswers(m, irt, l, globals, m', irt', l', globals', id, cmd, count, ptr);
  }

  // ----- from the bytes on the disk

  /** The word at byte a of the disk. */
  function WordOn(d: Disk, a: nat): word { if a + 4 <= |d.bytes| then WordAt(d.bytes, a) else 0 }

  /** Every field of a module, by its place behind the opening magic. */
  lemma FieldsOnDisk(d: Disk, span: Span)
    requires HeaderOk(d, span)
    ensures span.start + 50 <= |d.bytes|
    ensures var mod, s := ModuleOf(d, span), span.start;
            && mod.format == d.bytes[s + 4] && mod.id == WordOn(d, s + 5)
            && mod.name == d.bytes[s + 9..s + 41] && mod.priority == d.bytes[s + 41]
            && |mod.exports| == WordOn(d, s + 42)
            && (forall j: nat | j < |mod.exports| ::
                  mod.exports[j] == Export(WordOn(d, s + 46 + 8 * j), WordOn(d, s + 50 + 8 * j)))
            && mod.init == WordOn(d, s + 46 + 8 * |mod.exports|)
  {
    var mod := ModuleOf(d, span);
    ParseHeader(d.bytes, span.start, span.end - span.start);
    forall j: nat | j < |mod.exports|
      ensures mod.exports[j] == Export(WordOn(d, span.start + 46 + 8 * j), WordOn(d, span.start + 50 + 8 * j))
    {
      assert ExportAt(d.bytes, span.start + EXPORTS_AT + 8 * j, mod.exports[j]);
    }
  }

  /** Of several exports with one id the last counts. */
  lemma {:induction false} LastExportCounts(es: seq<Export>, j: nat)
    requires j < |es| && forall k | j < k < |es| :: es[k].id != es[j].id
    ensures OffsetOf(es, es[j].id) == Some(es[j].offset)
    decreases |es|
  {
    if j < |es| - 1 {
      LastExportCounts(es[..|es| - 1], j);
    }
  }

  /** Export j of module i, by its bytes: the last one with its id, in the first module with its own. */
  ghost predicate ExportOf(d: Disk, l: Layout, i: nat, j: nat, cmd: word, offset: word) {
    && i < |l.bees| && var s := l.bees[i].span.start;
    && j < WordOn(d, s + 42) && cmd == WordOn(d, s + 46 + 8 * j) && offset == WordOn(d, s + 50 + 8 * j)
    && (forall k: nat | j < k < WordOn(d, s + 42) :: WordOn(d, s + 46 + 8 * k) != cmd)
    && (forall k: nat | k < i :: WordOn(d, l.bees[k].span.start + 5) != WordOn(d, s + 5))
  }

  lemma ExportOnDisk(d: Disk, l: Layout, i: nat, j: nat, cmd: word, offset: word)
    requires ExportOf(d, l, i, j, cmd, offset)
    requires HeaderOk(d, l.bees[i].span) && l.bees[i].mod == ModuleOf(d, l.bees[i].span)
    ensures OffsetOf(l.bees[i].mod.exports, cmd) == Some(offset)
    ensures l.bees[i].mod.id == WordOn(d, l.bees[i].span.start + 5)
  {
    FieldsOnDisk(d, l.bees[i].span);
    LastExportCounts(l.bees[i].mod.exports, j);
  }

  lemma FirstOnDisk(m: Mem, d: Disk, irt: word, l: Layout, globals: seq<word>, i: nat)
    requires Booted(m, d, irt, l, globals) && i < |l.nodes|
    requires forall k: nat | k < i :: WordOn(d, l.bees[k].span.start + 5) != WordOn(d, l.bees[i].span.start + 5)
    ensures HeaderOk(d, l.bees[i].span) && l.bees[i].mod == ModuleOf(d, l.bees[i].span)
    ensures FirstWith(l.bees, |l.nodes|, WordOn(d, l.bees[i].span.start + 5)) == i
  {
    var ss := Spans(d, 512);
    forall k: nat | k <= i
      ensures HeaderOk(d, l.bees[k].span) && l.bees[k].mod == ModuleOf(d, l.bees[k].span)
      ensures l.bees[k].mod.id == WordOn(d, l.bees[k].span.start + 5)
    {
      assert BeeIs(d, l.bees[k], ss[k]);
      FieldsOnDisk(d, l.bees[k].span);
    }
  }

  /** From the bytes of a disk to a call, through loading, linking and looking up: whoever calls the id that is
      at byte 5 of a module with the id of one of its exports is led to the place where the module was loaded
      plus the word behind that id. */
  lemma BytesToCalls(m: Mem, d: Disk, irt: word, l: Layout, globals: seq<word>, i: nat, j: nat,
                     cmd: word, offset: word, count: word, ptr: word)
    requires Booted(m, d, irt, l, globals) && i < |l.nodes| && ExportOf(d, l, i, j, cmd, offset)
    requires WordOn(d, l.bees[i].span.start + 5) != 0
    ensures var id, func := WordOn(d, l.bees[i].span.start + 5), (l.bees[i].Base() + offset) % 0x1_0000_0000;
            && CallInMemory(m, l, id, cmd)
            && Answer(m, l, id, cmd, count, ptr)
               == if func == 0 then NoCmd else Called(func, l.nodes[i] + 4, globals[i])
  {
    FirstOnDisk(m, d, irt, l, globals, i);
    ExportOnDisk(d, l, i, j, cmd, offset);
    CallOfExport(m, irt, l, globals, i, cmd, offset, count, ptr);
  }

  lemma CallOfExport(m: Mem, irt: word, l: Layout, globals: seq<word>, i: nat, cmd: word, offset: word,
                     count: word, ptr: word)
    requires Linked(m, irt, l) && GlobalsHold(m, l.nodes, globals) && i < |l.nodes| && |m| >= 4
    requires FirstWith(l.bees, |l.nodes|, l.bees[i].mod.id) == i && l.bees[i].mod.id != 0
    requires OffsetOf(l.bees[i].mod.exports, cmd) == Some(offset)
    ensures var id, func := l.bees[i].mod.id, (l.bees[i].Base() + offset) % 0x1_0000_0000;
            && CallInMemory(m, l, id, cmd)
            && Answer(m, l, id, cmd, count, ptr)
               == if func == 0 then NoCmd else Called(func, l.nodes[i] + 4, globals[i])
  {
    assert NodeKnown(m, irt, l.regions, l.nodes[i], l.bees[i]);
    ExportedInTable(l.bees[i].mod.exports, cmd);
    CallableIsAnswered(m, irt, l, globals, l.bees[i].mod.id, cmd, count, ptr);
  }

  /** And its init is the word behind its exports, from the same place on. */
  lemma BytesToInit(m: Mem, d: Disk, irt: word, l: Layout, globals: seq<word>, i: nat)
    requires Booted(m, d, irt, l, globals) && i < |l.nodes|
    requires forall k: nat | k < i :: WordOn(d, l.bees[k].span.start + 5) != WordOn(d, l.bees[i].span.start + 5)
    ensures var s := l.bees[i].span.start;
            && s + 50 <= |d.bytes| && l.bees[i].mod.priority == d.bytes[s + 41]
            && InitOf(l, i) == InitCall((l.bees[i].Base() + WordOn(d, s + 46 + 8 * WordOn(d, s + 42))) % 0x1_0000_0000,
                                        l.nodes[i] + 4)
  {
    FirstOnDisk(m, d, irt, l, globals, i);
    FieldsOnDisk(d, l.bees[i].span);
  }
}
