/** What the boot loop finds on a disk, and how far it has come. */
module BootScan {
  import opened Ram
  import opened Disk
  import opened ModuleFormat
  import opened NamePages
  import opened Loader
  import opened KernelLayout

  /** The sectors of the span can be read, and its header fits between its magics. */
  ghost predicate SpanOk(d: Disk, span: Span) {
    && span.start <= span.end <= |d.bytes| && 1 <= SectorCount(span)
    && forall k | FirstSector(span) <= k < FirstSector(span) + SectorCount(span) :: Readable(d, k)
  }

  predicate HeaderOk(d: Disk, span: Span) {
    span.start <= span.end && HeaderFits(d.bytes, span.start, span.end - span.start)
  }

  ghost predicate HeadersOk(d: Disk, ss: seq<Span>) {
    forall i {:trigger HeaderOk(d, ss[i])} | 0 <= i < |ss| :: HeaderOk(d, ss[i])
  }

  function ModuleOf(d: Disk, span: Span): Module
    requires HeaderOk(d, span)
  {
    Parse(d.bytes, span.start, span.end - span.start)
  }

  lemma NameCopied(m: Mem, d: Disk, b: Bee)
    requires ImageAt(m, d, b.span, b.Base()) && HeaderAt(d.bytes, b.span.start, b.mod)
    requires HeaderSize(b.mod) <= b.span.end - b.span.start
    ensures m[b.Base() + 9..b.Base() + 9 + NAME_SIZE] == b.mod.name
  {
    HeaderCopied(d.bytes, b.span.start, m, b.Base(), b.span.end - b.span.start, b.mod);
  }

  /** One step of the scan. */
  lemma ScanStep(d: Disk, from: nat)
    requires from >= 1
    ensures var s := Next(d, from); var e := Next(d, s + 4); var ss := Spans(d, from);
            if s == 0 then ss == [] && Dangling(d, from) == 0
            else if e == 0 then ss == [] && Dangling(d, from) == s
            else
              && ss == [Span(s, e + 4)] + Spans(d, e + 4) && Dangling(d, from) == Dangling(d, e + 4)
              && SpanOk(d, ss[0])
  {
    NextZero(d, from);
    var s := Next(d, from);
    NextZero(d, s + 4);
    var e := Next(d, s + 4);
    if s != 0 && e != 0 {
      SpanReadable(d, from, s, e);
    }
  }

  /** A run of sectors as long as the disk has bytes meets one that cannot be read. */
  lemma NoSuchRun(d: Disk, first: nat, count: nat)
    ensures count == 0 || count < |d.bytes| || exists k :: first <= k < first + count && !Readable(d, k)
  {
    if count > 0 && count >= |d.bytes| {
      assert !Readable(d, first + count - 1);
    }
  }

  /** All sectors that hold a module found by two searches can be read. */
  lemma SpanReadable(d: Disk, from: nat, s: nat, e: nat)
    requires from >= 1 && FirstAt(d, from, s) && FirstAt(d, s + 4, e)
    ensures SpanOk(d, Span(s, e + 4))
  {
    forall k | s / SECTOR <= k < s / SECTOR + SectorCount(Span(s, e + 4))
      ensures Readable(d, k)
    {
      if k < (s + 4) / SECTOR {
        assert Readable(d, k);
      } else {
        assert k <= e / SECTOR + 1;
      }
    }
  }

  /** The bee that the image at the bump pointer will be. */
  function NextBee(d: Disk, l: Layout, span: Span): Bee
    requires HeaderOk(d, span)
  {
    Bee(span, l.memory, (l.memory + ImageSize(span)) % WORD_MOD, ModuleOf(d, span))
  }

  lemma ImageTakesSector(d: Disk, span: Span)
    requires HeaderOk(d, span)
    ensures 512 <= ImageSize(span)
  {
    assert span.end > span.start;
  }

  lemma ImageReady(m: Mem, d: Disk, l: Layout, span: Span)
    requires HeaderOk(d, span) && 0 <= ImageSize(span) && l.memory + ImageSize(span) < WORD_MOD
    requires span.start % SECTOR + (span.end - span.start) <= ImageSize(span)
    requires ImageAt(m, d, span, l.memory + span.start % SECTOR)
    ensures NewImage(m, d, l, NextBee(d, l, span))
  {
    ParseHeader(d.bytes, span.start, span.end - span.start);
  }

  /** What one scan from `from` does to the end of the last module, the bump pointer and memory. */
  ghost predicate Scanned(m: Mem, d: Disk, from: nat, memory: nat, from': nat, memory': nat, r: nat)
    requires from >= 1
  {
    var s := Next(d, from);
    var e := Next(d, s + 4);
    var size := ImageSize(Span(s, e + 4));
    if s == 0 then r == 0 && memory' == memory && from' == from
    else if e == 0 then memory' == memory && from' == 4 && r == if s < 1024 then memory + s % 512 else 0
    else
      && from' == e + 4 && r == memory + s % 512 && 0 <= size && memory' == memory + size
      && ImageAt(m, d, Span(s, e + 4), r) && s % 512 + (e + 4 - s) <= size
  }

  /** Where the scan stands before module i. */
  function From(ss: seq<Span>, i: nat): nat
    requires i <= |ss|
  {
    if i == 0 then 512 else ss[i - 1].end
  }

  /** The scan from there finds module i, or after the last one nothing that would be loaded. */
  ghost predicate Findable(d: Disk, ss: seq<Span>, i: nat)
    requires i <= |ss|
  {
    && 512 <= From(ss, i)
    && var s := Next(d, From(ss, i));
       var e := Next(d, s + 4);
       if i == |ss| then s == 0 || (e == 0 && 1024 <= s)
       else s != 0 && e != 0 && ss[i] == Span(s, e + 4) && HeaderOk(d, ss[i]) && 0 <= ImageSize(ss[i])
  }

  ghost predicate AllFindable(d: Disk, ss: seq<Span>) {
    HeadersOk(d, ss) && forall i | 0 <= i <= |ss| :: Findable(d, ss, i)
  }

  /** Memory after loading the first n modules, starting from one name page: where everything
      is depends on the disk alone. */
  ghost function LayoutAfter(d: Disk, ss: seq<Span>, n: nat): Layout
    requires HeadersOk(d, ss) && n <= |ss|
  {
    if n == 0 then Layout([BUMP_START], [], [], {PageRegion(BUMP_START)}, BUMP_START + PAGE_SIZE)
    else
      assert HeaderOk(d, ss[n - 1]);
      var l := LayoutAfter(d, ss, n - 1);
      Grown(l, NextBee(d, l, ss[n - 1]))
  }

  lemma NextAligned(d: Disk, l: Layout, span: Span, q: int) returns (r: int)
    requires HeaderOk(d, span) && l.memory == SECTOR * q
    ensures NextBee(d, l, span).data == SECTOR * r
  {
    var q' := q + SectorCount(span);
    assert l.memory + ImageSize(span) == SECTOR * q';
    r := q' - 0x80_0000 * (SECTOR * q' / WORD_MOD);
  }

  lemma GrownAligned(l: Layout, b: Bee, r: int) returns (q: int)
    requires b.data == SECTOR * r
    ensures Grown(l, b).memory == SECTOR * q
  {
    var n := (DataSize(b.mod) + 511) / 512;
    assert DataRoom(b.mod) == SECTOR * n;
    q := r + n + if |l.bees| == PAGE_SLOTS * |l.pages| then 1 else 0;
  }

  /** The bump pointer stays on a sector boundary. */
  lemma {:induction false} LayoutAligned(d: Disk, ss: seq<Span>, n: nat) returns (q: int)
    requires HeadersOk(d, ss) && n <= |ss|
    ensures LayoutAfter(d, ss, n).memory == SECTOR * q
  {
    if n == 0 {
      q := BUMP_START / SECTOR + 1;
    } else {
      assert HeaderOk(d, ss[n - 1]);
      var l := LayoutAfter(d, ss, n - 1);
      q := LayoutAligned(d, ss, n - 1);
      q := NextAligned(d, l, ss[n - 1], q);
      q := GrownAligned(l, NextBee(d, l, ss[n - 1]), q);
    }
  }

  /** A name page for every fourteen modules, and one from the start. */
  lemma {:induction false} PagesAfter(d: Disk, ss: seq<Span>, n: nat)
    requires HeadersOk(d, ss) && n <= |ss|
    ensures var l := LayoutAfter(d, ss, n);
            |l.bees| == n && |l.pages| == if n == 0 then 1 else (n + 13) / 14
  {
    if n > 0 {
      assert HeaderOk(d, ss[n - 1]);
      PagesAfter(d, ss, n - 1);
      var l := LayoutAfter(d, ss, n - 1);
      FullPages(n - 1, |l.pages|);
      NextPages(n - 1);
      GrownPages(l, NextBee(d, l, ss[n - 1]));
    }
  }

  /** One more module: at the bump pointer the sectors it touches, then its data page in whole sectors, and one
      sector more for names behind every fourteenth module. */
  ghost predicate PlacedNext(d: Disk, l: Layout, l': Layout, span: Span, n: nat) {
    && |l.bees| == n && |l'.bees| == n + 1 && l'.bees[..n] == l.bees && span.start + 46 <= |d.bytes|
    && var b := l'.bees[n];
    && b.span == span && b.lo == l.memory && b.Base() == l.memory + span.start % 512
    && b.data == l.memory + 512 * Sectors(span.start, span.end)
    && l'.memory == b.data + 512 * Sectors(0, 18 + 8 * WordAt(d.bytes, span.start + 42))
                    + if n > 0 && n % 14 == 0 then 512 else 0
  }

  /** The sectors that the bytes from a up to b are in. */
  function Sectors(a: nat, b: nat): int { (b + 511) / 512 - a / 512 }

  /** Where every module is loaded, from the lengths of the modules before it: the first at 0x4200. */
  lemma PlacesAre(d: Disk, ss: seq<Span>, n: nat)
    requires HeadersOk(d, ss) && n < |ss|
    requires 0 <= LayoutAfter(d, ss, n).memory + 512 * Sectors(ss[n].start, ss[n].end) < 0x1_0000_0000
    ensures LayoutAfter(d, ss, 0).memory == 0x4200
    ensures PlacedNext(d, LayoutAfter(d, ss, n), LayoutAfter(d, ss, n + 1), ss[n], n)
  {
    assert HeaderOk(d, ss[n]);
    PagesAfter(d, ss, n);
    GrownPlaced(d, LayoutAfter(d, ss, n), ss[n], n);
  }

  lemma GrownPlaced(d: Disk, l: Layout, span: Span, n: nat)
    requires HeaderOk(d, span) && |l.bees| == n && |l.pages| == if n == 0 then 1 else (n + 13) / 14
    requires 0 <= l.memory + 512 * Sectors(span.start, span.end) < 0x1_0000_0000
    ensures PlacedNext(d, l, Grown(l, NextBee(d, l, span)), span, n)
  {
    SectorsAre(span);
    FullPages(n, |l.pages|);
  }

  lemma SectorsAre(span: Span)
    ensures SectorCount(span) == Sectors(span.start, span.end)
  {
  }

  lemma GrownPages(l: Layout, b: Bee)
    ensures |Grown(l, b).bees| == |l.bees| + 1
    ensures |Grown(l, b).pages| == |l.pages| + if |l.bees| == 14 * |l.pages| then 1 else 0
  {
  }

  lemma NextPages(n: nat)
    ensures (n + 14) / 14 == if n > 0 && n % 14 != 0 then (n + 13) / 14 else (n + 13) / 14 + 1
  {
  }

  lemma FullPages(n: nat, pages: nat)
    requires pages == if n == 0 then 1 else (n + 13) / 14
    ensures n == 14 * pages <==> n > 0 && n % 14 == 0
  {
  }

  /** What loading one module takes of the bump area at most. */
  function Need(d: Disk, span: Span): (n: nat)
    requires HeaderOk(d, span)
  {
    (if ImageSize(span) < 0 then 0 else ImageSize(span)) + DataRoom(ModuleOf(d, span)) + PAGE_SIZE
  }

  /** What the modules from i on take at most. */
  ghost function RoomFor(d: Disk, ss: seq<Span>, i: nat): nat
    requires HeadersOk(d, ss) && i <= |ss|
    decreases |ss| - i
  {
    if i == |ss| then 0
    else
      assert HeaderOk(d, ss[i]);
      Need(d, ss[i]) + RoomFor(d, ss, i + 1)
  }

  lemma RoomStep(d: Disk, ss: seq<Span>, i: nat, room: int)
    requires HeadersOk(d, ss) && i < |ss| && RoomFor(d, ss, i) <= room
    ensures HeaderOk(d, ss[i])
    ensures Need(d, ss[i]) + RoomFor(d, ss, i + 1) <= room
  {
  }

  lemma {:induction false} SpansFindable(d: Disk, ss: seq<Span>, i: nat)
    requires ss == Spans(d, 512) && HeadersOk(d, ss) && i <= |ss|
    requires Dangling(d, 512) == 0 || 1024 <= Dangling(d, 512)
    ensures 512 <= From(ss, i) && Spans(d, From(ss, i)) == ss[i..] && Dangling(d, From(ss, i)) == Dangling(d, 512)
    ensures Findable(d, ss, i)
  {
    if i > 0 {
      SpansFindable(d, ss, i - 1);
      ScanStep(d, From(ss, i - 1));
      NextZero(d, From(ss, i - 1));
      assert ss[i - 1..][0] == ss[i - 1] && ss[i - 1..][1..] == ss[i..];
    }
    ScanStep(d, From(ss, i));
    if i < |ss| {
      assert ss[i..][0] == ss[i];
      assert HeaderOk(d, ss[i]);
    }
  }

  /** The next module is in memory at the bump pointer, or there is none. */
  ghost predicate Fetched(m: Mem, d: Disk, l: Layout, ss: seq<Span>, i: nat, from': nat, memory': nat, r: nat)
    requires i <= |ss|
  {
    if i == |ss| then r == 0 && memory' == l.memory
    else
      && HeaderOk(d, ss[i]) && NewImage(m, d, l, NextBee(d, l, ss[i])) && from' == From(ss, i + 1)
      && r == NextBee(d, l, ss[i]).Base() != 0 && memory' == NextBee(d, l, ss[i]).data
      && memory' + DataRoom(ModuleOf(d, ss[i])) + PAGE_SIZE == l.memory + Need(d, ss[i])
  }

  lemma ScanFetches(m: Mem, d: Disk, l: Layout, ss: seq<Span>, i: nat, from': nat, memory': nat, r: nat)
    requires i <= |ss| && Findable(d, ss, i) && BUMP_START <= l.memory
    requires i < |ss| ==> l.memory + Need(d, ss[i]) <= WORD_MOD
    requires Scanned(m, d, From(ss, i), l.memory, from', memory', r)
    ensures Fetched(m, d, l, ss, i, from', memory', r)
  {
    if i < |ss| {
      ImageReady(m, d, l, ss[i]);
    }
  }

  /** The bee is the module of the span, as its header says. */
  ghost predicate BeeIs(d: Disk, b: Bee, span: Span) {
    HeaderOk(d, span) && b.span == span && b.mod == ModuleOf(d, span)
  }

  /** The bees are the first modules on the disk. */
  ghost predicate BeesAre(d: Disk, bees: seq<Bee>, ss: seq<Span>) {
    |bees| <= |ss| && forall i {:trigger BeeIs(d, bees[i], ss[i])} | 0 <= i < |bees| :: BeeIs(d, bees[i], ss[i])
  }

  lemma BeesFollow(d: Disk, ss: seq<Span>, bees: seq<Bee>, bees': seq<Bee>, b: Bee)
    requires BeesAre(d, bees, ss) && |bees| < |ss|
    requires BeeIs(d, b, ss[|bees|])
    requires bees' == bees + [b]
    ensures BeesAre(d, bees', ss)
  {
    forall i | 0 <= i < |bees'|
      ensures BeeIs(d, bees'[i], ss[i])
    {
      if i < |bees| {
        assert BeeIs(d, bees[i], ss[i]);
      }
    }
  }

  // ----- an odd magic near the start of the disk

  /** Four sectors with nothing on them but an opening magic at the start of the second. */
  function LoneMagic(): (d: Disk)
    ensures |d.bytes| == 2048 && d.bad == {}
    ensures forall p: nat :: IsMagic(d.bytes, p) <==> p == 512
  {
    Disk(seq(2048, i =>
               if i == 512 then 0x3A
               else if i == 513 then 0x44
               else if i == 514 then 0xBE
               else if i == 515 then 0xE0
               else 0), {})
  }

  lemma LoneMagicFound(from: nat)
    requires 1 <= from <= 512
    ensures Next(LoneMagic(), from) == 512 && Next(LoneMagic(), 516) == 0
  {
    var d := LoneMagic();
    NextIs(d, from, 512);
    NextZero(d, 516);
  }

  /** What a scan does when no closing magic follows the opening one at s. */
  lemma ScannedWithoutEnd(m: Mem, d: Disk, from: nat, memory: nat, from': nat, memory': nat, r: nat, s: nat)
    requires from >= 1 && s == Next(d, from) != 0 && Next(d, s + 4) == 0
    requires Scanned(m, d, from, memory, from', memory', r) && memory > 0
    ensures from' == 4 && memory' == memory && (r != 0 <==> s < 1024)
  {
  }

  /** Every scan of that disk reports a module though nothing is loaded, and the next one starts over from
      byte 4: the boot loop never ends. */
  lemma LoneMagicLoops(m: Mem, from: nat, memory: nat, from': nat, memory': nat, r: nat)
    requires from == 512 || from == 4
    requires Scanned(m, LoneMagic(), from, memory, from', memory', r) && memory > 0
    ensures r != 0 && memory' == memory && from' == 4
  {
    LoneMagicFound(from);
    ScannedWithoutEnd(m, LoneMagic(), from, memory, from', memory', r, 512);
  }
}
