/** Copying modules from disk into memory and making data pages of their headers. */
module Loader {
  import opened Ram
  import opened Disk
  import opened ModuleFormat

  /** Whole sectors that hold a span. */
  function FirstSector(span: Span): nat { span.start / SECTOR }

  function SectorCount(span: Span): int {
    span.end / SECTOR + (if span.end % SECTOR > 0 then 1 else 0) - FirstSector(span)
  }

  function ImageSize(span: Span): int { SECTOR * SectorCount(span) }

  /** The bytes of a span, loaded with its first byte at base. */
  ghost predicate ImageAt(m: Mem, d: Disk, span: Span, base: nat) {
    span.start <= span.end && Copied(d.bytes, span.start, m, base, span.end - span.start)
  }

  lemma SectorsHoldImage(m: Mem, d: Disk, span: Span, at: nat)
    requires span.start <= span.end <= |d.bytes| && SectorCount(span) >= 0
    requires Copied(d.bytes, SECTOR * FirstSector(span), m, at, ImageSize(span))
    ensures ImageAt(m, d, span, at + span.start % SECTOR)
    ensures span.start % SECTOR + (span.end - span.start) <= ImageSize(span)
  {
  }

  /** One more sector behind the ones already copied. */
  lemma SectorsGrow(m: Mem, m': Mem, d: Disk, q: nat, n: nat, at: nat)
    requires Copied(d.bytes, q, m, at, n) && at + n + SECTOR <= |m| && q + n + SECTOR <= |d.bytes|
    requires SameOutside(m, m', at + n, at + n + SECTOR)
    requires m'[at + n..at + n + SECTOR] == d.bytes[q + n..q + n + SECTOR]
    ensures Copied(d.bytes, q, m', at, n + SECTOR)
  {
    forall a | at <= a < at + n + SECTOR
      ensures m'[a] == d.bytes[q + (a - at)]
    {
      if a >= at + n {
        assert m'[a] == m'[at + n..at + n + SECTOR][a - at - n];
      }
    }
  }

  /** The read loop of the loader: stops at the first sector that cannot be read. */
  method CopySectors(ram: array<byte>, d: Disk, first: nat, count: nat, at: nat) returns (failed: bool)
    requires at + |d.bytes| <= ram.Length
    modifies ram
    ensures failed <==> exists s :: first <= s < first + count && !Readable(d, s)
    ensures SameOutside(old(ram[..]), ram[..], at, if failed then ram.Length else at + SECTOR * count)
    ensures !failed && count > 0 ==> Copied(d.bytes, SECTOR * first, ram[..], at, SECTOR * count)
  {
    ghost var was := ram[..];
    var i := 0;
    while i < count
      invariant i <= count
      invariant forall s | first <= s < first + i :: Readable(d, s)
      invariant SameOutside(was, ram[..], at, at + SECTOR * i)
      invariant i > 0 ==> Copied(d.bytes, SECTOR * first, ram[..], at, SECTOR * i)
    {
      ghost var before := ram[..];
      var bad := ReadSector(d, first + i, ram, at + SECTOR * i);
      if bad {
        return true;
      }
      assert Copied(d.bytes, SECTOR * first, before, at, SECTOR * i);
      SectorsGrow(before, ram[..], d, SECTOR * first, SECTOR * i, at);
      i := i + 1;
    }
    failed := false;
  }

  // ----- data pages

  method CopyExport(ram: array<byte>, src: nat, dst: nat, base: word, ghost e: Export)
    requires ExportAt(ram[..], src, e) && dst + 8 <= ram.Length
    modifies ram
    ensures FuncAt(ram[..], dst, base, e)
    ensures SameOutside(old(ram[..]), ram[..], dst, dst + 8)
  {
    var id := LoadWord(ram, src);
    var offset := LoadWord(ram, src + 4);
    StoreWord(ram, dst, id);
    ghost var mid := ram[..];
    StoreWord(ram, dst + 4, (base + offset) % WORD_MOD);
    WordKept(mid, ram[..], dst, dst + 4, dst + 8);
  }

  method WriteDataHead(ram: array<byte>, buf: word, at: nat, ghost mod: Module)
    requires HeaderAt(ram[..], buf, mod) && buf + HeaderSize(mod) <= at && at + FUNCS_AT <= ram.Length
    modifies ram
    ensures DataHeadAt(ram[..], at, buf, mod)
    ensures SameOutside(old(ram[..]), ram[..], at, at + 14)
  {
    var format := LoadByte(ram, buf + 4);
    var id := LoadWord(ram, buf + 5);
    var priority := LoadByte(ram, buf + 41);
    var count := LoadWord(ram, buf + 42);
    WriteHeadFields(ram, at, buf, format, id, priority, count);
  }

  method WriteHeadFields(ram: array<byte>, at: nat, base: word, format: byte, id: word, priority: byte, count: word)
    requires at + FUNCS_AT <= ram.Length
    modifies ram
    ensures WordAt(ram[..], at) == base && WordAt(ram[..], at + 4) == id && WordAt(ram[..], at + 10) == count
    ensures ram[..][at + 8] == priority && ram[..][at + 9] == format
    ensures SameOutside(old(ram[..]), ram[..], at, at + 14)
  {
    StoreWord(ram, at, base);
    StoreByte(ram, at + 9, format);
    ghost var m1 := ram[..];
    assert WordAt(m1, at) == base;
    StoreWord(ram, at + 4, id);
    StoreByte(ram, at + 8, priority);
    ghost var m2 := ram[..];
    assert WordAt(m2, at) == base && WordAt(m2, at + 4) == id;
    StoreWord(ram, at + 10, count);
    WordKept(m2, ram[..], at, at + 10, at + 14);
    WordKept(m2, ram[..], at + 4, at + 10, at + 14);
  }

  /** Copies the exports behind the header to the data page, each function relocated. */
  method CopyExports(ram: array<byte>, src: nat, dst: nat, base: word, n: nat, ghost es: seq<Export>)
    requires n == |es| && ExportsAt(ram[..], src, es) && src + 8 * n <= dst && dst + 8 * n <= ram.Length
    modifies ram
    ensures FuncsAt(ram[..], dst, base, es)
    ensures SameOutside(old(ram[..]), ram[..], dst, dst + 8 * n)
  {
    ghost var was := ram[..];
    for i := 0 to n
      invariant SameOutside(was, ram[..], dst, dst + 8 * i)
      invariant FuncsAt(ram[..], dst, base, es[..i])
    {
      ghost var before := ram[..];
      ExportKept(was, before, src + 8 * i, dst, dst + 8 * i, es[i]);
      CopyExport(ram, src + 8 * i, dst + 8 * i, base, es[i]);
      FuncsGrow(before, ram[..], dst, base, es, i);
    }
    assert es[..n] == es;
  }

  lemma ExportKept(m: Mem, m': Mem, p: nat, lo: nat, hi: nat, e: Export)
    requires ExportAt(m, p, e) && SameOutside(m, m', lo, hi) && p + 8 <= lo
    ensures ExportAt(m', p, e)
  {
    WordKept(m, m', p, lo, hi);
    WordKept(m, m', p + 4, lo, hi);
  }

  lemma FuncsGrow(m: Mem, m': Mem, dst: nat, base: nat, es: seq<Export>, i: nat)
    requires i < |es| && FuncsAt(m, dst, base, es[..i])
    requires SameOutside(m, m', dst + 8 * i, dst + 8 * i + 8) && FuncAt(m', dst + 8 * i, base, es[i])
    ensures FuncsAt(m', dst, base, es[..i + 1])
  {
    FuncsKept(m, m', dst, base, es[..i]);
    forall j | 0 <= j < i + 1
      ensures FuncAt(m', dst + 8 * j, base, es[..i + 1][j])
    {
      if j < i {
        assert FuncAt(m', dst + 8 * j, base, es[..i][j]);
      }
    }
  }

  /** All of a data page but the address of the init function. */
  method WriteDataPage(ram: array<byte>, buf: word, at: nat, ghost mod: Module)
    requires HeaderAt(ram[..], buf, mod) && buf + HeaderSize(mod) <= at && at + DataSize(mod) <= ram.Length
    modifies ram
    ensures DataHeadAt(ram[..], at, buf, mod) && FuncsAt(ram[..], at + FUNCS_AT, buf, mod.exports)
    ensures SameOutside(old(ram[..]), ram[..], at, at + DataSize(mod))
  {
    ghost var was := ram[..];
    assert |mod.exports| < WORD_MOD;
    var count := LoadWord(ram, buf + 42);
    WriteDataHead(ram, buf, at, mod);
    ghost var mid := ram[..];
    ExportsKept(was, mid, buf + EXPORTS_AT, at, at + 14, mod.exports);
    CopyExports(ram, buf + EXPORTS_AT, at + FUNCS_AT, buf, count, mod.exports);
    DataHeadKept(mid, ram[..], at, buf, mod);
  }

  /** makeBeeData: the data page at `at` for the module loaded at buf, and the room it takes. */
  method MakeBeeData(ram: array<byte>, buf: word, at: nat, ghost mod: Module) returns (room: nat)
    requires HeaderAt(ram[..], buf, mod) && buf + HeaderSize(mod) <= at && at + DataSize(mod) <= ram.Length
    modifies ram
    ensures DataAt(ram[..], at, buf, mod) && room == DataRoom(mod)
    ensures SameOutside(old(ram[..]), ram[..], at, at + DataSize(mod))
  {
    assert |mod.exports| < WORD_MOD;
    var count := LoadWord(ram, buf + 42);
    var init := LoadWord(ram, buf as int + EXPORTS_AT + 8 * count as int);
    WriteDataPage(ram, buf, at, mod);
    ghost var mid := ram[..];
    StoreWord(ram, at + 14, (buf + init) % WORD_MOD);
    DataDone(mid, ram[..], at, buf, mod);
    room := (FUNCS_AT + 8 * count as int + 511) / 512 * 512;
  }

  lemma DataDone(m: Mem, m': Mem, at: nat, base: nat, mod: Module)
    requires DataHeadAt(m, at, base, mod) && FuncsAt(m, at + FUNCS_AT, base, mod.exports)
    requires at + DataSize(mod) <= |m| && SameOutside(m, m', at + 14, at + 18)
    requires WordAt(m', at + 14) == Relocate(base, mod.init)
    ensures DataAt(m', at, base, mod)
  {
    DataHeadKept(m, m', at, base, mod);
    FuncsKept(m, m', at + FUNCS_AT, base, mod.exports);
  }

  lemma ExportsKept(m: Mem, m': Mem, p: nat, lo: nat, hi: nat, es: seq<Export>)
    requires ExportsAt(m, p, es) && SameOutside(m, m', lo, hi) && p + 8 * |es| <= lo
    ensures ExportsAt(m', p, es)
  {
    forall i | 0 <= i < |es|
      ensures ExportAt(m', p + 8 * i, es[i])
    {
      ExportKept(m, m', p + 8 * i, lo, hi, es[i]);
    }
  }
}
