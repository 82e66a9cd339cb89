/** What lies in the bump area, and why later writes leave it alone. */
module KernelLayout {
  import opened Ram
  import opened Disk
  import opened ModuleFormat
  import opened NamePages
  import opened Loader

  const BUMP_START: nat := 16 * 1024

  /** Memory below the bump area, where nothing is ever written. */
  ghost predicate SameLow(m: Mem, m': Mem) {
    BUMP_START <= |m| == |m'| && m[..BUMP_START] == m'[..BUMP_START]
  }

  lemma LowKept(m: Mem, m': Mem)
    requires BUMP_START <= |m| && Agree(m, m', 0, BUMP_START)
    ensures SameLow(m, m')
  {
  }

  datatype Kind = NamePage | Image | DataPage | Node | Global

  /** The bytes lo <= a < hi, handed out by one move of the bump pointer. */
  datatype Region = Region(kind: Kind, lo: nat, hi: nat)

  /** The regions lie between the start of the bump area and the bump pointer and do not overlap. */
  ghost predicate Separate(rs: set<Region>, memory: nat) {
    && (forall r | r in rs :: BUMP_START <= r.lo <= r.hi <= memory)
    && (forall r, s | r in rs && s in rs && r != s :: r.hi <= s.lo || s.hi <= r.lo)
  }

  lemma AddRegion(rs: set<Region>, memory: nat, r: Region)
    requires Separate(rs, memory) && r.lo == memory <= r.hi && BUMP_START <= memory
    ensures Separate(rs + {r}, r.hi)
  {
  }

  /** A loaded module: where on disk, where its sectors start, where its data page is. */
  datatype Bee = Bee(span: Span, lo: nat, data: word, mod: Module) {
    function Base(): nat { lo + span.start % SECTOR }
    function ImageRegion(): Region { Region(Image, lo, lo + (if ImageSize(span) < 0 then 0 else ImageSize(span))) }
    function DataRegion(): Region { Region(DataPage, data, data + DataRoom(mod)) }
  }

  datatype Layout = Layout(pages: seq<nat>, bees: seq<Bee>, nodes: seq<nat>, regions: set<Region>, memory: nat)

  /** The names and data pages of the bees. */
  ghost predicate AreEntries(es: seq<Entry>, bees: seq<Bee>) {
    |es| == |bees| && forall i | 0 <= i < |bees| :: es[i].name == bees[i].mod.name && es[i].data == bees[i].data
  }

  /** There is just one such list. */
  function EntriesOf(bees: seq<Bee>): (es: seq<Entry>)
    ensures AreEntries(es, bees)
  {
    seq(|bees|, i requires 0 <= i < |bees| => Entry(bees[i].mod.name, bees[i].data))
  }

  /** The chain of name pages holds the names of the bees in their order. */
  ghost predicate NamesHeld(m: Mem, pages: seq<nat>, bees: seq<Bee>) {
    forall es {:trigger AreEntries(es, bees)} | AreEntries(es, bees) :: ChainHolds(m, pages, es, true)
  }

  function PageRegion(page: nat): Region { Region(NamePage, page, page + PAGE_SIZE) }

  /** The module is in memory: its bytes as on disk, its data page as its header says. */
  ghost predicate BeeLoaded(m: Mem, d: Disk, rs: set<Region>, b: Bee) {
    && b.ImageRegion() in rs && b.DataRegion() in rs
    && 0 <= ImageSize(b.span) && b.Base() + (b.span.end - b.span.start) <= b.lo + ImageSize(b.span)
    && ImageAt(m, d, b.span, b.Base())
    && HeaderAt(d.bytes, b.span.start, b.mod)
    && DataAt(m, b.data, b.Base(), b.mod)
  }

  ghost predicate PagesPlaced(l: Layout) {
    Ascending(l.pages, l.memory) && forall j | 0 <= j < |l.pages| :: PageRegion(l.pages[j]) in l.regions
  }

  ghost predicate BeesLoaded(m: Mem, d: Disk, rs: set<Region>, bees: seq<Bee>) {
    forall i | 0 <= i < |bees| :: BeeLoaded(m, d, rs, bees[i])
  }

  ghost predicate Loaded(m: Mem, d: Disk, l: Layout) {
    && BUMP_START <= l.memory <= |m| <= WORD_MOD
    && Separate(l.regions, l.memory)
    && PagesPlaced(l)
    && BeesLoaded(m, d, l.regions, l.bees)
    && NamesHeld(m, l.pages, l.bees)
  }

  // ----- framing

  lemma ImageKept(m: Mem, m': Mem, d: Disk, span: Span, base: nat)
    requires ImageAt(m, d, span, base) && Agree(m, m', base, base + (span.end - span.start))
    ensures ImageAt(m', d, span, base)
  {
  }

  /** An image lies inside its region. */
  lemma ImageInRegion(b: Bee)
    requires b.span.start <= b.span.end
    ensures b.Base() + (b.span.end - b.span.start) <= b.ImageRegion().hi && b.ImageRegion().lo <= b.Base()
  {
  }

  lemma BeeKept(m: Mem, m': Mem, d: Disk, rs: set<Region>, rs': set<Region>, b: Bee)
    requires BeeLoaded(m, d, rs, b) && rs <= rs'
    requires Agree(m, m', b.ImageRegion().lo, b.ImageRegion().hi)
    requires Agree(m, m', b.DataRegion().lo, b.DataRegion().hi)
    ensures BeeLoaded(m', d, rs', b)
  {
    ImageKept(m, m', d, b.span, b.Base());
    DataKept(m, m', b.data, b.Base(), b.mod);
  }

  /** Writes to name pages and above lo touch no other region below lo. */
  lemma PagesSpareRegion(m: Mem, m': Mem, pages: seq<nat>, rs: set<Region>, memory: nat, r: Region, lo: nat, hi: nat)
    requires Separate(rs, memory) && r in rs && r.kind != NamePage && r.hi <= lo
    requires forall j | 0 <= j < |pages| :: PageRegion(pages[j]) in rs
    requires OnlyPages(m, m', pages, lo, hi)
    ensures Agree(m, m', r.lo, r.hi)
  {
    forall a | 0 <= a < |m| && r.lo <= a < r.hi
      ensures m'[a] == m[a]
    {
      forall j | 0 <= j < |pages|
        ensures !(pages[j] <= a < pages[j] + PAGE_SIZE)
      {
        assert PageRegion(pages[j]) in rs;
      }
      assert !InPages(pages, a);
    }
  }

  lemma AgreeTrans(m: Mem, m': Mem, m'': Mem, lo: int, hi: int)
    requires Agree(m, m', lo, hi) && Agree(m', m'', lo, hi)
    ensures Agree(m, m'', lo, hi)
  {
  }

  lemma NamesKept(m: Mem, m': Mem, pages: seq<nat>, bees: seq<Bee>)
    requires NamesHeld(m, pages, bees) && |m| == |m'|
    requires forall j | 0 <= j < |pages| :: Agree(m, m', pages[j], pages[j] + PAGE_SIZE)
    ensures NamesHeld(m', pages, bees)
  {
    forall es | AreEntries(es, bees)
      ensures ChainHolds(m', pages, es, true)
    {
      ChainKept(m, m', pages, es, true);
    }
  }

  /** Writes at or above the bump pointer leave everything loaded. */
  lemma LoadedKept(m: Mem, m': Mem, d: Disk, l: Layout)
    requires Loaded(m, d, l) && Agree(m, m', 0, l.memory)
    ensures Loaded(m', d, l)
  {
    forall i | 0 <= i < |l.bees|
      ensures BeeLoaded(m', d, l.regions, l.bees[i])
    {
      assert BeeLoaded(m, d, l.regions, l.bees[i]);
      BeeKept(m, m', d, l.regions, l.regions, l.bees[i]);
    }
    NamesKept(m, m', l.pages, l.bees);
  }

  // ----- loading one more module

  /** The regions with those of one more module. */
  function RegionsWith(l: Layout, b: Bee): set<Region> { l.regions + {b.ImageRegion()} + {b.DataRegion()} }

  /** The layout with one more module: its image, then its data page, then perhaps a name page. */
  function WithBee(l: Layout, b: Bee, pages': seq<nat>, memory': nat): Layout {
    var rs := RegionsWith(l, b);
    Layout(pages', l.bees + [b], l.nodes,
           if |pages'| > |l.pages| then rs + {PageRegion(pages'[|l.pages|])} else rs,
           memory')
  }

  /** The layout after registering b: a further name page when all others are full. */
  function Grown(l: Layout, b: Bee): Layout {
    var lo := b.data + DataRoom(b.mod);
    if |l.bees| == PAGE_SLOTS * |l.pages| then WithBee(l, b, l.pages + [lo], lo + PAGE_SIZE)
    else WithBee(l, b, l.pages, lo)
  }

  /** Every module takes at least two sectors, and no further name page comes before the fifteenth. */
  ghost predicate Spread(l: Layout) {
    && BUMP_START + PAGE_SIZE + 1024 * |l.bees| <= l.memory
    && forall r | r in l.regions && r.kind == NamePage ::
         r == PageRegion(r.lo) && (r.lo == BUMP_START || BUMP_START + PAGE_SIZE + 1024 * (PAGE_SLOTS + 1) <= r.lo)
  }

  lemma SpreadGrows(l: Layout, b: Bee)
    requires Spread(l) && l.pages != [] && b.lo == l.memory && b.data == b.lo + ImageSize(b.span)
    requires 512 <= ImageSize(b.span)
    ensures Spread(Grown(l, b))
  {
    assert DataRoom(b.mod) >= 512;
  }

  lemma GrownIs(l: Layout, b: Bee, pages': seq<nat>, lo: nat)
    requires lo == b.data + DataRoom(b.mod)
    requires Extends(l.pages, pages', |l.bees| == PAGE_SLOTS * |l.pages|, lo)
    ensures WithBee(l, b, pages', if |l.bees| == PAGE_SLOTS * |l.pages| then lo + PAGE_SIZE else lo) == Grown(l, b)
  {
    assert pages' == if |l.bees| == PAGE_SLOTS * |l.pages| then l.pages + [lo] else l.pages;
  }

  lemma RegionsGrow(l: Layout, b: Bee, pages': seq<nat>)
    requires Separate(l.regions, l.memory) && BUMP_START <= l.memory
    requires b.lo == l.memory && 0 <= ImageSize(b.span) && b.data == b.lo + ImageSize(b.span)
    requires Extends(l.pages, pages', |pages'| > |l.pages|, b.data + DataRoom(b.mod))
    ensures Separate(WithBee(l, b, pages', 0).regions,
                     b.data + DataRoom(b.mod) + if |pages'| > |l.pages| then PAGE_SIZE else 0)
  {
    AddRegion(l.regions, l.memory, b.ImageRegion());
    var r1 := l.regions + {b.ImageRegion()};
    AddRegion(r1, b.data, b.DataRegion());
    var r2 := r1 + {b.DataRegion()};
    if |pages'| > |l.pages| {
      AddRegion(r2, b.data + DataRoom(b.mod), PageRegion(pages'[|l.pages|]));
    }
  }

  lemma PagesGrow(l: Layout, b: Bee, pages': seq<nat>, lo: nat, memory': nat)
    requires PagesPlaced(l) && l.memory <= lo
    requires Extends(l.pages, pages', |pages'| > |l.pages|, lo)
    requires memory' == if |pages'| > |l.pages| then lo + PAGE_SIZE else lo
    ensures PagesPlaced(WithBee(l, b, pages', memory'))
  {
  }

  /** Memory before (m), with image and data page (m2), with the name (m3). */
  lemma OldBeesKept(m: Mem, m2: Mem, m3: Mem, d: Disk, l: Layout, rs': set<Region>, lo: nat, hi: nat)
    requires Loaded(m, d, l) && l.regions <= rs'
    requires Agree(m, m2, 0, l.memory) && OnlyPages(m2, m3, l.pages, lo, hi) && l.memory <= lo
    ensures BeesLoaded(m3, d, rs', l.bees)
  {
    forall i | 0 <= i < |l.bees|
      ensures BeeLoaded(m3, d, rs', l.bees[i])
    {
      var b := l.bees[i];
      assert BeeLoaded(m, d, l.regions, l.bees[i]);
      PagesSpareRegion(m2, m3, l.pages, l.regions, l.memory, b.ImageRegion(), lo, hi);
      PagesSpareRegion(m2, m3, l.pages, l.regions, l.memory, b.DataRegion(), lo, hi);
      AgreeTrans(m, m2, m3, b.ImageRegion().lo, b.ImageRegion().hi);
      AgreeTrans(m, m2, m3, b.DataRegion().lo, b.DataRegion().hi);
      BeeKept(m, m3, d, l.regions, rs', b);
    }
  }

  /** The new module survives the writing of its name. */
  lemma NewBeeKept(m2: Mem, m3: Mem, d: Disk, rs: set<Region>, rs': set<Region>, memory: nat, pages: seq<nat>,
                   b: Bee, lo: nat, hi: nat)
    requires Separate(rs, memory) && b.lo == memory && BUMP_START <= memory && rs <= rs'
    requires forall j | 0 <= j < |pages| :: PageRegion(pages[j]) in rs
    requires BeeLoaded(m2, d, rs + {b.ImageRegion()} + {b.DataRegion()}, b) && b.data == b.ImageRegion().hi
    requires b.ImageRegion() in rs' && b.DataRegion() in rs'
    requires OnlyPages(m2, m3, pages, lo, hi) && lo == b.DataRegion().hi
    ensures BeeLoaded(m3, d, rs', b)
  {
    AddRegion(rs, memory, b.ImageRegion());
    AddRegion(rs + {b.ImageRegion()}, b.data, b.DataRegion());
    var all := rs + {b.ImageRegion()} + {b.DataRegion()};
    PagesSpareRegion(m2, m3, pages, all, lo, b.ImageRegion(), lo, hi);
    PagesSpareRegion(m2, m3, pages, all, lo, b.DataRegion(), lo, hi);
    BeeKept(m2, m3, d, all, all, b);
  }

  lemma PagesSpareBelow(m: Mem, m': Mem, l: Layout, lo: nat, hi: nat)
    requires Separate(l.regions, l.memory) && PagesPlaced(l) && BUMP_START <= l.memory <= lo
    requires OnlyPages(m, m', l.pages, lo, hi)
    ensures Agree(m, m', 0, BUMP_START)
  {
    forall a | 0 <= a < |m| && a < BUMP_START
      ensures m'[a] == m[a]
    {
      forall j | 0 <= j < |l.pages|
        ensures !(l.pages[j] <= a < l.pages[j] + PAGE_SIZE)
      {
        assert PageRegion(l.pages[j]) in l.regions;
      }
      assert !InPages(l.pages, a);
    }
  }

  lemma NamesGrow(m: Mem, m': Mem, pages: seq<nat>, pages': seq<nat>, es: seq<Entry>, e: Entry, lo: nat,
                  bees: seq<Bee>, b: Bee)
    requires Added(m, m', pages, pages', es, e, lo) && AreEntries(es, bees)
    requires e.name == b.mod.name && e.data == b.data
    ensures NamesHeld(m', pages', bees + [b])
  {
    forall fs | AreEntries(fs, bees + [b])
      ensures ChainHolds(m', pages', fs, true)
    {
      assert fs == es + [e];
    }
  }

  /** The image of b is in memory at the bump pointer; its data page will follow it. */
  ghost predicate NewImage(m: Mem, d: Disk, l: Layout, b: Bee) {
    && b.lo == l.memory && 0 <= ImageSize(b.span) && b.data == b.lo + ImageSize(b.span)
    && b.Base() + (b.span.end - b.span.start) <= b.data
    && ImageAt(m, d, b.span, b.Base())
    && HeaderAt(d.bytes, b.span.start, b.mod) && HeaderSize(b.mod) <= b.span.end - b.span.start
  }

  /** The name was added behind those of the bees. */
  ghost predicate Named(m: Mem, m': Mem, pages: seq<nat>, pages': seq<nat>, bees: seq<Bee>, e: Entry,
                        lo: nat, memory': nat) {
    var es := EntriesOf(bees);
    Added(m, m', pages, pages', es, e, lo) && memory' == BumpAfter(pages, es, lo)
  }

  lemma NameAdded(m: Mem, m': Mem, d: Disk, l: Layout, b: Bee, e: Entry, pages': seq<nat>, lo: nat, memory': nat)
    requires Loaded(m, d, l) && b.lo == l.memory && memory' <= |m|
    requires BeeLoaded(m, d, RegionsWith(l, b), b)
    requires b.data == b.lo + ImageSize(b.span) && lo == b.data + DataRoom(b.mod)
    requires Named(m, m', l.pages, pages', l.bees, e, lo, memory') && e.name == b.mod.name && e.data == b.data
    ensures Loaded(m', d, Grown(l, b)) && Grown(l, b).memory == memory'
    ensures memory' <= lo + PAGE_SIZE && Grown(l, b).pages != [] && Grown(l, b).pages[0] == l.pages[0]
    ensures SameLow(m, m')
  {
    var es := EntriesOf(l.bees);
    var l' := WithBee(l, b, pages', memory');
    GrownIs(l, b, pages', lo);
    RegionsGrow(l, b, pages');
    PagesGrow(l, b, pages', lo, memory');
    OldBeesKept(m, m, m', d, l, l'.regions, lo, memory');
    NewBeeKept(m, m', d, l.regions, l'.regions, l.memory, l.pages, b, lo, memory');
    PagesSpareBelow(m, m', l, lo, memory');
    LowKept(m, m');
    NamesGrow(m, m', l.pages, pages', es, e, lo, l.bees, b);
    BeesGrow(m', d, l'.regions, l.bees, b);
  }

  lemma BeesGrow(m: Mem, d: Disk, rs: set<Region>, bees: seq<Bee>, b: Bee)
    requires BeesLoaded(m, d, rs, bees) && BeeLoaded(m, d, rs, b)
    ensures BeesLoaded(m, d, rs, bees + [b])
  {
    var all := bees + [b];
    forall i | 0 <= i < |all|
      ensures BeeLoaded(m, d, rs, all[i])
    {
      if i < |bees| {
        assert BeeLoaded(m, d, rs, bees[i]);
      }
    }
  }
}
