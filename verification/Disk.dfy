/** The boot disk: 512-byte sectors, some of which may not be readable, and the
    search for the magic bytes that open and close a module. */
module Disk {
  import opened Ram

  const SECTOR: nat := 512
  const SEARCH_LIMIT: nat := 1024 * 100

  datatype Disk = Disk(bytes: seq<byte>, bad: set<nat>)

  predicate Readable(d: Disk, s: nat) {
    SECTOR * (s + 1) <= |d.bytes| && s !in d.bad
  }

  predicate IsMagic(b: seq<byte>, p: nat) {
    p + 4 <= |b| && b[p] == 0x3A && b[p + 1] == 0x44 && b[p + 2] == 0xBE && b[p + 3] == 0xE0
  }

  /** A magic at p that a search from `from` can reach: it starts within the limit
      and every sector from the first one to the one after it is readable. */
  ghost predicate Reachable(d: Disk, from: nat, p: nat) {
    && from <= p && IsMagic(d.bytes, p)
    && p / SECTOR - from / SECTOR < SEARCH_LIMIT
    && forall s: nat | from / SECTOR <= s <= p / SECTOR + 1 :: Readable(d, s)
  }

  /** No magic starts at from <= q < to. */
  ghost predicate Clear(d: Disk, from: nat, to: nat) {
    forall q: nat | from <= q < to :: !IsMagic(d.bytes, q)
  }

  /** The search from `from` stops at p with a match. */
  ghost predicate FirstAt(d: Disk, from: nat, p: nat) {
    Reachable(d, from, p) && Clear(d, from, p)
  }

  /** The first magic at or after p, if a search from `from` can reach it. */
  ghost function Search(d: Disk, from: nat, p: nat): nat
    decreases |d.bytes| - p
  {
    if |d.bytes| < p then 0
    else if IsMagic(d.bytes, p) then (if Reachable(d, from, p) then p else 0)
    else Search(d, from, p + 1)
  }

  /** The first magic at or after `from`, 0 when the search does not reach it. */
  ghost function Next(d: Disk, from: nat): nat {
    Search(d, from, from)
  }

  lemma {:induction false} SearchIs(d: Disk, from: nat, p: nat, at: nat)
    requires from <= at <= p && FirstAt(d, from, p)
    ensures Search(d, from, at) == p
    decreases p - at
  {
    if at < p {
      SearchIs(d, from, p, at + 1);
    }
  }

  lemma NextIs(d: Disk, from: nat, p: nat)
    requires FirstAt(d, from, p)
    ensures Next(d, from) == p
  {
    SearchIs(d, from, p, from);
  }

  lemma {:induction false} SearchFinds(d: Disk, from: nat, at: nat)
    requires 1 <= from <= at && Clear(d, from, at)
    ensures var p := Search(d, from, at);
            if p == 0 then forall q: nat :: !Reachable(d, from, q) else FirstAt(d, from, p)
    decreases |d.bytes| - at
  {
    if |d.bytes| < at {
    } else if IsMagic(d.bytes, at) {
      if !Reachable(d, from, at) {
        BlockedBy(d, from, at);
      }
    } else {
      SearchFinds(d, from, at + 1);
    }
  }

  /** A magic that cannot be reached hides everything after it. */
  lemma BlockedBy(d: Disk, from: nat, p: nat)
    requires from <= p && Clear(d, from, p) && IsMagic(d.bytes, p) && !Reachable(d, from, p)
    ensures forall q: nat :: !Reachable(d, from, q)
  {
    forall q: nat | Reachable(d, from, q)
      ensures false
    {
    }
  }

  lemma NextZero(d: Disk, from: nat)
    requires from >= 1
    ensures Next(d, from) == 0 <==> forall p: nat :: !Reachable(d, from, p)
    ensures Next(d, from) != 0 ==> FirstAt(d, from, Next(d, from))
  {
    SearchFinds(d, from, from);
  }

  /** Two magics do not overlap. */
  lemma MagicsApart(b: seq<byte>, p: nat, q: nat)
    requires IsMagic(b, p) && IsMagic(b, q) && p < q
    ensures p + 4 <= q
  {
  }

  // ----- the search itself

  /** ata_read_sector_safe: 512 bytes into buf, or an error and nothing. */
  method ReadSector(d: Disk, lba: nat, buf: array<byte>, at: nat) returns (failed: bool)
    requires Readable(d, lba) ==> at + SECTOR <= buf.Length
    modifies buf
    ensures failed <==> !Readable(d, lba)
    ensures SameOutside(old(buf[..]), buf[..], at, if failed then at else at + SECTOR)
    ensures !failed ==> buf[at..at + SECTOR] == d.bytes[SECTOR * lba..SECTOR * (lba + 1)]
  {
    if !Readable(d, lba) {
      return true;
    }
    ghost var was := buf[..];
    for i := 0 to SECTOR
      invariant SameOutside(was, buf[..], at, at + i)
      invariant buf[at..at + i] == d.bytes[SECTOR * lba..SECTOR * lba + i]
    {
      buf[at + i] := d.bytes[SECTOR * lba + i];
    }
    failed := false;
  }

  /** Looks through the first of the two sectors in buf, from byte `start` of it. */
  method ScanBuffer(d: Disk, sector: nat, start: nat, buf: array<byte>) returns (r: nat)
    requires start < SECTOR && 1 <= SECTOR * sector + start && SECTOR * (sector + 2) <= |d.bytes|
    requires buf.Length == 2 * SECTOR && buf[..] == d.bytes[SECTOR * sector..SECTOR * (sector + 2)]
    ensures r == 0 ==> Clear(d, SECTOR * sector + start, SECTOR * (sector + 1))
    ensures r != 0 ==> SECTOR * sector + start <= r < SECTOR * (sector + 1) && IsMagic(d.bytes, r)
    ensures r != 0 ==> Clear(d, SECTOR * sector + start, r)
  {
    var base := SECTOR * sector;
    for j := start to SECTOR
      invariant Clear(d, base + start, base + j)
    {
      if buf[j] == 0x3A && buf[j + 1] == 0x44 && buf[j + 2] == 0xBE && buf[j + 3] == 0xE0 {
        assert d.bytes[base + j] == 0x3A && d.bytes[base + j + 1] == 0x44;
        return base + j;
      }
      assert !IsMagic(d.bytes, base + j) by {
        assert d.bytes[base + j] == buf[j] && d.bytes[base + j + 1] == buf[j + 1];
        assert d.bytes[base + j + 2] == buf[j + 2] && d.bytes[base + j + 3] == buf[j + 3];
      }
    }
    r := 0;
  }

  lemma NothingReachable(d: Disk, from: nat, sector: nat)
    requires 1 <= from && from / SECTOR <= sector && Clear(d, from, SECTOR * sector)
    requires sector - from / SECTOR >= SEARCH_LIMIT || !Readable(d, sector) || !Readable(d, sector + 1)
    ensures Next(d, from) == 0
  {
    forall p: nat
      ensures !Reachable(d, from, p)
    {
      if from <= p && IsMagic(d.bytes, p) {
        assert p / SECTOR >= sector;
      }
    }
    NextZero(d, from);
  }

  lemma FoundInSector(d: Disk, from: nat, sector: nat, p: nat)
    requires 1 <= from && from / SECTOR <= sector && Clear(d, from, p)
    requires sector - from / SECTOR < SEARCH_LIMIT && from <= p && SECTOR * sector <= p < SECTOR * (sector + 1)
    requires forall s: nat | from / SECTOR <= s <= sector + 1 :: Readable(d, s)
    requires IsMagic(d.bytes, p)
    ensures Next(d, from) == p
  {
    assert p / SECTOR == sector;
    NextIs(d, from, p);
  }

  method FindBee(d: Disk, byteAddress: nat) returns (r: nat)
    requires 1 <= byteAddress
    ensures r == Next(d, byteAddress)
  {
    var buf := new byte[2 * SECTOR];
    var startSector := byteAddress / SECTOR;
    for i := 0 to SEARCH_LIMIT
      invariant Clear(d, byteAddress, SECTOR * (startSector + i))
      invariant forall s: nat | startSector <= s < startSector + i :: Readable(d, s)
    {
      var sector := startSector + i;
      var failed := ReadTwo(d, sector, buf);
      if failed {
        NothingReachable(d, byteAddress, sector);
        return 0;
      }
      r := ScanBuffer(d, sector, if i == 0 then byteAddress % SECTOR else 0, buf);
      if r != 0 {
        FoundInSector(d, byteAddress, sector, r);
        return;
      }
    }
    NothingReachable(d, byteAddress, startSector + SEARCH_LIMIT);
    return 0;
  }

  /** The sector and the one after it, so that a match may straddle the two. */
  method ReadTwo(d: Disk, sector: nat, buf: array<byte>) returns (failed: bool)
    requires buf.Length == 2 * SECTOR
    modifies buf
    ensures failed <==> !Readable(d, sector) || !Readable(d, sector + 1)
    ensures !failed ==> SECTOR * (sector + 2) <= |d.bytes|
    ensures !failed ==> buf[..] == d.bytes[SECTOR * sector..SECTOR * (sector + 2)]
  {
    failed := ReadSector(d, sector, buf, 0);
    if failed {
      return;
    }
    ghost var first := buf[..SECTOR];
    failed := ReadSector(d, sector + 1, buf, SECTOR);
    if !failed {
      assert buf[..SECTOR] == first;
      assert buf[..] == buf[..SECTOR] + buf[SECTOR..SECTOR + SECTOR];
    }
  }

  // ----- modules on the disk

  /** A module from its opening magic up to the byte after its closing magic. */
  datatype Span = Span(start: nat, end: nat)

  /** What repeated scanning from `from` finds, until a magic is missing. */
  ghost function Spans(d: Disk, from: nat): (ss: seq<Span>)
    requires from >= 1
    decreases |d.bytes| - from
  {
    var s := Next(d, from);
    NextZero(d, from);
    NextZero(d, s + 4);
    var e := Next(d, s + 4);
    if s == 0 || e == 0 then [] else [Span(s, e + 4)] + Spans(d, e + 4)
  }

  /** The opening magic that no closing magic follows, 0 if there is none. */
  ghost function Dangling(d: Disk, from: nat): (p: nat)
    requires from >= 1
    ensures p == 0 || from <= p
    decreases |d.bytes| - from
  {
    var s := Next(d, from);
    NextZero(d, from);
    NextZero(d, s + 4);
    var e := Next(d, s + 4);
    if s == 0 then 0 else if e == 0 then s else Dangling(d, e + 4)
  }

  /** ms are the positions at or after `from` where the magic occurs. */
  ghost predicate MagicsAre(d: Disk, from: nat, ms: seq<nat>) {
    && (forall i | 0 <= i < |ms| :: from <= ms[i] && IsMagic(d.bytes, ms[i]))
    && (forall i, j | 0 <= i < j < |ms| :: ms[i] < ms[j])
    && (forall q: nat | from <= q && IsMagic(d.bytes, q) :: q in ms)
  }

  /** The search that should find ms[i] can reach it. */
  ghost predicate GapOk(d: Disk, from: nat, ms: seq<nat>, i: nat)
    requires i < |ms|
  {
    Reachable(d, if i == 0 then from else ms[i - 1] + 4, ms[i])
  }

  ghost function Pairs(ms: seq<nat>): seq<Span> {
    if |ms| < 2 then [] else [Span(ms[0], ms[1] + 4)] + Pairs(ms[2..])
  }

  ghost predicate Gaps(d: Disk, from: nat, ms: seq<nat>) {
    forall i | 0 <= i < |ms| :: GapOk(d, from, ms, i)
  }

  /** Searching again from behind each match finds ms and then nothing. */
  ghost predicate Chained(d: Disk, from: nat, ms: seq<nat>)
    decreases |ms|
  {
    if ms == [] then Next(d, from) == 0
    else ms[0] != 0 && Next(d, from) == ms[0] && Chained(d, ms[0] + 4, ms[1..])
  }

  lemma LaterMagics(d: Disk, from: nat, ms: seq<nat>)
    requires MagicsAre(d, from, ms) && ms != []
    ensures MagicsAre(d, ms[0] + 4, ms[1..])
  {
    forall i | 1 <= i < |ms|
      ensures ms[0] + 4 <= ms[i]
    {
      MagicsApart(d.bytes, ms[0], ms[i]);
    }
    forall q: nat | ms[0] + 4 <= q && IsMagic(d.bytes, q)
      ensures q in ms[1..]
    {
      assert q in ms;
    }
  }

  lemma LaterGaps(d: Disk, from: nat, ms: seq<nat>)
    requires Gaps(d, from, ms) && ms != []
    ensures Gaps(d, ms[0] + 4, ms[1..])
  {
    var next, rest := ms[0] + 4, ms[1..];
    forall i | 0 <= i < |rest|
      ensures GapOk(d, next, rest, i)
    {
      var k := i + 1;
      assert GapOk(d, from, ms, k);
    }
  }

  lemma RestOfMagics(d: Disk, from: nat, ms: seq<nat>)
    requires from >= 1 && MagicsAre(d, from, ms) && Gaps(d, from, ms) && ms != []
    ensures Next(d, from) == ms[0] != 0
    ensures MagicsAre(d, ms[0] + 4, ms[1..]) && Gaps(d, ms[0] + 4, ms[1..])
  {
    assert GapOk(d, from, ms, 0);
    NextIs(d, from, ms[0]);
    LaterMagics(d, from, ms);
    LaterGaps(d, from, ms);
  }

  lemma {:induction false} MagicsChained(d: Disk, from: nat, ms: seq<nat>)
    requires from >= 1 && MagicsAre(d, from, ms) && Gaps(d, from, ms)
    ensures Chained(d, from, ms)
    decreases |ms|
  {
    if ms == [] {
      NextZero(d, from);
    } else {
      RestOfMagics(d, from, ms);
      MagicsChained(d, ms[0] + 4, ms[1..]);
    }
  }

  /** Two searches with a match each make the first span. */
  lemma SpansUnfold(d: Disk, from: nat)
    requires from >= 1
    ensures var s := Next(d, from); var e := Next(d, s + 4);
            if s == 0 then Spans(d, from) == [] && Dangling(d, from) == 0
            else if e == 0 then Spans(d, from) == [] && Dangling(d, from) == s
            else Spans(d, from) == [Span(s, e + 4)] + Spans(d, e + 4) && Dangling(d, from) == Dangling(d, e + 4)
  {
  }

  /** The last of an odd number of magics. */
  function OddOne(ms: seq<nat>): nat { if |ms| % 2 == 0 then 0 else ms[|ms| - 1] }

  lemma OddOneRest(ms: seq<nat>)
    requires |ms| >= 2
    ensures OddOne(ms) == OddOne(ms[2..])
  {
  }

  lemma {:induction false} ChainedPairs(d: Disk, from: nat, ms: seq<nat>)
    requires from >= 1 && Chained(d, from, ms)
    ensures Spans(d, from) == Pairs(ms) && Dangling(d, from) == OddOne(ms)
    decreases |ms|
  {
    SpansUnfold(d, from);
    if |ms| >= 2 {
      var rest := ms[2..];
      assert Chained(d, ms[0] + 4, ms[1..]) && ms[1..][1..] == rest && ms[1..][0] == ms[1];
      ChainedPairs(d, ms[1] + 4, rest);
      OddOneRest(ms);
    }
  }

  /** When every gap can be searched, scanning pairs up all magics on the disk in order,
      and an odd one is left dangling. */
  lemma SpansPairMagics(d: Disk, from: nat, ms: seq<nat>)
    requires from >= 1 && MagicsAre(d, from, ms) && Gaps(d, from, ms)
    ensures Spans(d, from) == Pairs(ms) && Dangling(d, from) == OddOne(ms)
  {
    MagicsChained(d, from, ms);
    ChainedPairs(d, from, ms);
  }

  /** Every sector from a to b can be read. */
  ghost predicate SectorsRead(d: Disk, a: nat, b: nat) {
    forall s: nat | a <= s <= b :: s !in d.bad && SectorInside(d, s)
  }

  predicate SectorInside(d: Disk, s: nat) { 512 * (s + 1) <= |d.bytes| }

  /** Of the first magic behind `from`: it is found exactly if it is fewer than 102400 sectors away and all
      sectors up to the one after it can be read; otherwise nothing is. */
  lemma FoundIff(d: Disk, from: nat, p: nat)
    requires 1 <= from <= p && IsMagic(d.bytes, p) && forall q: nat | from <= q < p :: !IsMagic(d.bytes, q)
    ensures Next(d, from) ==
            if p / 512 - from / 512 < 102400 && SectorsRead(d, from / 512, p / 512 + 1) then p else 0
  {
    if p / 512 - from / 512 < 102400 && SectorsRead(d, from / 512, p / 512 + 1) {
      forall s: nat | from / SECTOR <= s <= p / SECTOR + 1
        ensures Readable(d, s)
      {
        assert SectorInside(d, s);
      }
      NextIs(d, from, p);
    } else {
      forall s: nat | from / 512 <= s <= p / 512 + 1 && Reachable(d, from, p)
        ensures s !in d.bad && SectorInside(d, s)
      {
        assert Readable(d, s);
      }
      BlockedBy(d, from, p);
      NextZero(d, from);
    }
  }

  /** On a disk that can be read up to the sector after the last magic, all magics are paired if no two in a
      row are 102400 sectors apart. */
  lemma NearMagicsPaired(d: Disk, from: nat, ms: seq<nat>)
    requires from >= 1 && MagicsAre(d, from, ms) && ms != [] && SectorsRead(d, from / 512, ms[|ms| - 1] / 512 + 1)
    requires forall i, j | 0 <= i < j < |ms| && j == i + 1 :: ms[j] / 512 - (ms[i] + 4) / 512 < 102400
    requires ms[0] / 512 - from / 512 < 102400
    ensures Spans(d, from) == Pairs(ms) && Dangling(d, from) == OddOne(ms)
  {
    forall i | 0 <= i < |ms|
      ensures GapOk(d, from, ms, i)
    {
      var back := if i == 0 then from else ms[i - 1] + 4;
      if i > 0 {
        MagicsApart(d.bytes, ms[i - 1], ms[i]);
      }
      assert i < |ms| - 1 ==> ms[i] < ms[|ms| - 1];
      NearIsReachable(d, from, back, ms[i], ms[|ms| - 1]);
    }
    SpansPairMagics(d, from, ms);
  }

  lemma NearIsReachable(d: Disk, from: nat, back: nat, p: nat, last: nat)
    requires from <= back <= p <= last && IsMagic(d.bytes, p) && SectorsRead(d, from / 512, last / 512 + 1)
    requires p / 512 - back / 512 < 102400
    ensures Reachable(d, back, p)
  {
    forall s: nat | back / SECTOR <= s <= p / SECTOR + 1
      ensures Readable(d, s)
    {
      assert from / 512 <= s <= last / 512 + 1;
      assert s !in d.bad && SectorInside(d, s);
    }
  }
}
