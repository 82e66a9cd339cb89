/** The module file format, the data page the core makes from a module's header,
    and the lookup node it makes from the data page. */
module ModuleFormat {
  import opened Ram
  import opened Wrappers
  import opened NamePages

  /** Offset of the exports, and size of the header without them. */
  const EXPORTS_AT: nat := 46
  const HEADER_SIZE: nat := 50

  datatype Export = Export(id: word, offset: word)

  datatype Module = Module(format: byte, id: word, name: seq<byte>, priority: byte,
                           exports: seq<Export>, init: word)

  function HeaderSize(mod: Module): nat { HEADER_SIZE + 8 * |mod.exports| }

  // ----- on disk

  function Bytes4(v: word): (s: seq<byte>)
    ensures |s| == 4
  {
    [v % 0x100, v / 0x100 % 0x100, v / 0x1_0000 % 0x100, v / 0x100_0000]
  }

  function ExportBytes(es: seq<Export>): (s: seq<byte>)
    ensures |s| == 8 * |es|
  {
    if es == [] then [] else Bytes4(es[0].id) + Bytes4(es[0].offset) + ExportBytes(es[1..])
  }

  const MAGIC: seq<byte> := [0x3A, 0x44, 0xBE, 0xE0]

  function Header(mod: Module): (s: seq<byte>)
    requires |mod.name| == NAME_SIZE && |mod.exports| < WORD_MOD
    ensures |s| == HeaderSize(mod)
  {
    Prefix(mod) + (ExportBytes(mod.exports) + Bytes4(mod.init))
  }

  function Prefix(mod: Module): (s: seq<byte>)
    requires |mod.name| == NAME_SIZE && |mod.exports| < WORD_MOD
    ensures |s| == EXPORTS_AT
  {
    MAGIC + [mod.format] + Bytes4(mod.id) + mod.name + [mod.priority] + Bytes4(|mod.exports|)
  }

  /** A module file: header, code, closing magic. */
  function Serialise(mod: Module, code: seq<byte>): seq<byte>
    requires |mod.name| == NAME_SIZE && |mod.exports| < WORD_MOD
  {
    Header(mod) + code + MAGIC
  }

  // ----- in memory

  ghost predicate ExportAt(m: Mem, p: nat, e: Export) {
    p + 8 <= |m| && WordAt(m, p) == e.id && WordAt(m, p + 4) == e.offset
  }

  ghost predicate ExportsAt(m: Mem, p: nat, es: seq<Export>) {
    forall i | 0 <= i < |es| :: ExportAt(m, p + 8 * i, es[i])
  }

  /** The bytes at b are the header of mod. */
  ghost predicate HeaderAt(m: Mem, b: nat, mod: Module) {
    && b + HeaderSize(mod) <= |m|
    && m[b + 4] == mod.format
    && WordAt(m, b + 5) == mod.id
    && m[b + 9..b + 9 + NAME_SIZE] == mod.name
    && m[b + 41] == mod.priority
    && WordAt(m, b + 42) == |mod.exports|
    && ExportsAt(m, b + EXPORTS_AT, mod.exports)
    && WordAt(m, b + EXPORTS_AT + 8 * |mod.exports|) == mod.init
  }

  /** The bytes s are in memory at p. */
  ghost predicate Holds(m: Mem, p: nat, s: seq<byte>) {
    p + |s| <= |m| && forall i | 0 <= i < |s| :: m[p + i] == s[i]
  }

  /** Where two pieces lie in a row, each lies in its place. */
  lemma HoldsBoth(m: Mem, p: nat, s: seq<byte>, t: seq<byte>)
    requires Holds(m, p, s + t)
    ensures Holds(m, p, s) && Holds(m, p + |s|, t)
  {
    forall i | 0 <= i < |s|
      ensures m[p + i] == s[i]
    {
      assert (s + t)[i] == s[i];
    }
    forall i | 0 <= i < |t|
      ensures m[p + |s| + i] == t[i]
    {
      assert (s + t)[|s| + i] == t[i];
    }
  }

  /** The number of exports the header at b announces fits into n bytes. */
  predicate HeaderFits(m: Mem, b: nat, n: nat) {
    n >= HEADER_SIZE && b + n <= |m| && HEADER_SIZE + 8 * WordAt(m, b + 42) <= n
  }

  function ParseExports(m: Mem, p: nat, n: nat): (es: seq<Export>)
    requires p + 8 * n <= |m|
    ensures |es| == n
  {
    if n == 0 then []
    else ParseExports(m, p, n - 1) + [Export(WordAt(m, p + 8 * n - 8), WordAt(m, p + 8 * n - 4))]
  }

  lemma {:induction false} ParsedExports(m: Mem, p: nat, n: nat)
    requires p + 8 * n <= |m|
    ensures ExportsAt(m, p, ParseExports(m, p, n))
  {
    if n > 0 {
      ParsedExports(m, p, n - 1);
      var es := ParseExports(m, p, n - 1);
      forall i | 0 <= i < n
        ensures ExportAt(m, p + 8 * i, ParseExports(m, p, n)[i])
      {
        if i < n - 1 {
          assert ExportAt(m, p + 8 * i, es[i]);
        }
      }
    }
  }

  /** What the header at b says. */
  function Parse(m: Mem, b: nat, n: nat): Module
    requires HeaderFits(m, b, n)
  {
    var count := WordAt(m, b + 42);
    Module(m[b + 4], WordAt(m, b + 5), m[b + 9..b + 9 + NAME_SIZE], m[b + 41],
           ParseExports(m, b + EXPORTS_AT, count),
           WordAt(m, b + EXPORTS_AT + 8 * count))
  }

  lemma ParseHeader(m: Mem, b: nat, n: nat)
    requires HeaderFits(m, b, n)
    ensures HeaderAt(m, b, Parse(m, b, n)) && HeaderSize(Parse(m, b, n)) <= n
  {
    ParsedExports(m, b + EXPORTS_AT, WordAt(m, b + 42));
  }

  /** There is only one way to read a header. */
  lemma HeaderUnique(m: Mem, b: nat, mod: Module, mod': Module)
    requires HeaderAt(m, b, mod) && HeaderAt(m, b, mod')
    ensures mod == mod'
  {
    forall i | 0 <= i < |mod.exports|
      ensures mod.exports[i] == mod'.exports[i]
    {
      assert ExportAt(m, b + EXPORTS_AT + 8 * i, mod.exports[i]);
      assert ExportAt(m, b + EXPORTS_AT + 8 * i, mod'.exports[i]);
    }
  }

  /** A header copied elsewhere is still that header. */
  lemma HeaderCopied(src: Mem, q: nat, m: Mem, p: nat, n: nat, mod: Module)
    requires HeaderAt(src, q, mod) && Copied(src, q, m, p, n) && HeaderSize(mod) <= n
    ensures HeaderAt(m, p, mod)
  {
    WordCopied(src, q, m, p, n, 5);
    WordCopied(src, q, m, p, n, 42);
    WordCopied(src, q, m, p, n, EXPORTS_AT + 8 * |mod.exports|);
    assert m[p + 9..p + 9 + NAME_SIZE] == src[q + 9..q + 9 + NAME_SIZE];
    forall i | 0 <= i < |mod.exports|
      ensures ExportAt(m, p + EXPORTS_AT + 8 * i, mod.exports[i])
    {
      assert ExportAt(src, q + EXPORTS_AT + 8 * i, mod.exports[i]);
      WordCopied(src, q, m, p, n, EXPORTS_AT + 8 * i);
      WordCopied(src, q, m, p, n, EXPORTS_AT + 8 * i + 4);
    }
  }

  lemma WordCopied(src: Mem, q: nat, m: Mem, p: nat, n: nat, o: nat)
    requires Copied(src, q, m, p, n) && o + 4 <= n
    ensures WordAt(m, p + o) == WordAt(src, q + o)
  {
  }

  lemma Bytes4Word(m: Mem, p: nat, v: word)
    requires Holds(m, p, Bytes4(v))
    ensures WordAt(m, p) == v
  {
    WordDigits(v);
    var s := Bytes4(v);
    assert m[p + 0] == s[0] && m[p + 1] == s[1] && m[p + 2] == s[2] && m[p + 3] == s[3];
  }

  lemma ExportBytesFirst(m: Mem, p: nat, es: seq<Export>)
    requires es != [] && Holds(m, p, ExportBytes(es))
    ensures ExportAt(m, p, es[0]) && Holds(m, p + 8, ExportBytes(es[1..]))
  {
    var rest := Bytes4(es[0].offset) + ExportBytes(es[1..]);
    assert ExportBytes(es) == Bytes4(es[0].id) + rest;
    HoldsBoth(m, p, Bytes4(es[0].id), rest);
    Bytes4Word(m, p, es[0].id);
    HoldsBoth(m, p + 4, Bytes4(es[0].offset), ExportBytes(es[1..]));
    Bytes4Word(m, p + 4, es[0].offset);
  }

  lemma {:induction false} ExportBytesAt(m: Mem, p: nat, es: seq<Export>, i: nat)
    requires Holds(m, p, ExportBytes(es)) && i < |es|
    ensures ExportAt(m, p + 8 * i, es[i])
    decreases i
  {
    ExportBytesFirst(m, p, es);
    if i > 0 {
      ExportBytesAt(m, p + 8, es[1..], i - 1);
    }
  }

  lemma PrefixAt(m: Mem, b: nat, mod: Module)
    requires |mod.name| == NAME_SIZE && |mod.exports| < WORD_MOD
    requires Holds(m, b, Prefix(mod))
    ensures m[b + 4] == mod.format && WordAt(m, b + 5) == mod.id
    ensures m[b + 9..b + 9 + NAME_SIZE] == mod.name
    ensures m[b + 41] == mod.priority && WordAt(m, b + 42) == |mod.exports|
  {
    var n := Bytes4(|mod.exports|);
    var t3 := [mod.priority] + n;
    var t2 := mod.name + t3;
    var t1 := Bytes4(mod.id) + t2;
    var t0 := [mod.format] + t1;
    assert Prefix(mod) == MAGIC + t0;
    HoldsBoth(m, b, MAGIC, t0);
    HoldsBoth(m, b + 4, [mod.format], t1);
    HoldsBoth(m, b + 5, Bytes4(mod.id), t2);
    Bytes4Word(m, b + 5, mod.id);
    HoldsBoth(m, b + 9, mod.name, t3);
    HoldsBoth(m, b + 41, [mod.priority], n);
    Bytes4Word(m, b + 42, |mod.exports|);
    assert m[b + 4 + 0] == [mod.format][0] && m[b + 41 + 0] == [mod.priority][0];
  }

  /** Reading a serialised header gives back every field. */
  lemma HeaderRoundTrip(m: Mem, b: nat, mod: Module)
    requires |mod.name| == NAME_SIZE && |mod.exports| < WORD_MOD
    requires Holds(m, b, Header(mod))
    ensures HeaderAt(m, b, mod)
  {
    var es := ExportBytes(mod.exports);
    HoldsBoth(m, b, Prefix(mod), es + Bytes4(mod.init));
    PrefixAt(m, b, mod);
    HoldsBoth(m, b + EXPORTS_AT, es, Bytes4(mod.init));
    forall i | 0 <= i < |mod.exports|
      ensures ExportAt(m, b + EXPORTS_AT + 8 * i, mod.exports[i])
    {
      ExportBytesAt(m, b + EXPORTS_AT, mod.exports, i);
    }
    Bytes4Word(m, b + EXPORTS_AT + |es|, mod.init);
  }

  // ----- what the core makes of a header

  /** An offset of a module loaded at base, as an address. */
  function Relocate(base: nat, offset: word): word { (base + offset) % WORD_MOD }

  /** baseAddress 4, BeeID 4, priority 1, format 1, exportCount 4, initFunc 4, then the functions. */
  const FUNCS_AT: nat := 18

  function DataSize(mod: Module): nat { FUNCS_AT + 8 * |mod.exports| }

  /** Whole sectors for a data page. */
  function DataRoom(mod: Module): (n: nat)
    ensures DataSize(mod) <= n < DataSize(mod) + 512
  {
    (DataSize(mod) + 511) / 512 * 512
  }

  ghost predicate FuncAt(m: Mem, p: nat, base: nat, e: Export) {
    p + 8 <= |m| && WordAt(m, p) == e.id && WordAt(m, p + 4) == Relocate(base, e.offset)
  }

  ghost predicate FuncsAt(m: Mem, p: nat, base: nat, es: seq<Export>) {
    forall i | 0 <= i < |es| :: FuncAt(m, p + 8 * i, base, es[i])
  }

  ghost predicate DataHeadAt(m: Mem, p: nat, base: nat, mod: Module) {
    && p + FUNCS_AT <= |m|
    && WordAt(m, p) == base
    && WordAt(m, p + 4) == mod.id
    && m[p + 8] == mod.priority
    && m[p + 9] == mod.format
    && WordAt(m, p + 10) == |mod.exports|
  }

  /** The data page at p describes mod, loaded at base. */
  ghost predicate DataAt(m: Mem, p: nat, base: nat, mod: Module) {
    && p + DataSize(mod) <= |m|
    && DataHeadAt(m, p, base, mod)
    && WordAt(m, p + 14) == Relocate(base, mod.init)
    && FuncsAt(m, p + FUNCS_AT, base, mod.exports)
  }

  lemma WordAgrees(m: Mem, m': Mem, p: nat, lo: nat, hi: nat)
    requires Agree(m, m', lo, hi) && lo <= p && p + 4 <= hi && p + 4 <= |m|
    ensures WordAt(m', p) == WordAt(m, p)
  {
  }

  lemma DataHeadKept(m: Mem, m': Mem, p: nat, base: nat, mod: Module)
    requires DataHeadAt(m, p, base, mod) && Agree(m, m', p, p + 14)
    ensures DataHeadAt(m', p, base, mod)
  {
    WordAgrees(m, m', p, p, p + 14);
    WordAgrees(m, m', p + 4, p, p + 14);
    WordAgrees(m, m', p + 10, p, p + 14);
  }

  lemma FuncsKept(m: Mem, m': Mem, q: nat, base: nat, es: seq<Export>)
    requires FuncsAt(m, q, base, es) && Agree(m, m', q, q + 8 * |es|)
    ensures FuncsAt(m', q, base, es)
  {
    forall i | 0 <= i < |es|
      ensures FuncAt(m', q + 8 * i, base, es[i])
    {
      assert FuncAt(m, q + 8 * i, base, es[i]);
      WordAgrees(m, m', q + 8 * i, q, q + 8 * |es|);
      WordAgrees(m, m', q + 8 * i + 4, q, q + 8 * |es|);
    }
  }

  lemma DataKept(m: Mem, m': Mem, p: nat, base: nat, mod: Module)
    requires DataAt(m, p, base, mod) && Agree(m, m', p, p + DataSize(mod))
    ensures DataAt(m', p, base, mod)
  {
    DataHeadKept(m, m', p, base, mod);
    WordAgrees(m, m', p + 14, p, p + 18);
    FuncsKept(m, m', p + FUNCS_AT, base, mod.exports);
  }

  // ----- lookup nodes

  /** An id as the signed integer the linker compares. */
  function AsInt(id: word): int { if id < 0x8000_0000 then id else id - WORD_MOD }

  /** The largest export id in signed comparison, -1 if there is none from 0 on. */
  function MaxId(es: seq<Export>): (max: int)
    ensures -1 <= max < 0x8000_0000
    ensures forall i | 0 <= i < |es| :: AsInt(es[i].id) <= max
  {
    if es == [] then -1
    else
      var rest := MaxId(es[..|es| - 1]);
      var id := AsInt(es[|es| - 1].id);
      if rest < id then id else rest
  }

  /** No id has the sign bit. */
  predicate SmallIds(es: seq<Export>) {
    forall i | 0 <= i < |es| :: es[i].id < 0x8000_0000
  }

  /** The offset exported for a command, the last one if there are several. */
  function OffsetOf(es: seq<Export>, cmd: nat): Option<word> {
    if es == [] then None
    else if es[|es| - 1].id == cmd then Some(es[|es| - 1].offset)
    else OffsetOf(es[..|es| - 1], cmd)
  }

  function SlotValue(base: nat, es: seq<Export>, cmd: nat): word {
    match OffsetOf(es, cmd)
    case None => 0
    case Some(offset) => Relocate(base, offset)
  }

  /** id 4, CoreData 16 (irt, baseAdr, count, ptr), globalValues 4, numFuncs 4, then the slots. */
  const SLOTS_AT: nat := 28

  function NodeSize(mod: Module): nat { SLOTS_AT + 4 * (MaxId(mod.exports) + 1) }

  /** Where the slot of a command is taken to be: in 32 bits, and whatever the size of the table. */
  function SlotAddress(p: nat, cmd: word): (q: nat)
    ensures q < WORD_MOD
  {
    (p + SLOTS_AT + 4 * cmd) % WORD_MOD
  }

  /** The upper two bits of the command do not matter. */
  lemma SlotAlias(p: nat, cmd: word)
    ensures SlotAddress(p, cmd % 0x4000_0000) == SlotAddress(p, cmd)
  {
    var turns, low := cmd / 0x4000_0000, cmd % 0x4000_0000;
    assert cmd == 0x4000_0000 * turns + low;
    WholeTurns(p + SLOTS_AT + 4 * low, turns);
  }

  lemma WholeTurns(n: int, q: int)
    ensures (n + WORD_MOD * q) % WORD_MOD == n % WORD_MOD
  {
  }

  lemma Unwrapped(n: int)
    requires 0 <= n < WORD_MOD
    ensures n % WORD_MOD == n
  {
  }

  ghost predicate SlotAt(m: Mem, p: nat, base: nat, es: seq<Export>, cmd: nat) {
    p + 4 * cmd + 4 <= |m| && WordAt(m, p + 4 * cmd) == SlotValue(base, es, cmd)
  }

  ghost predicate SlotsAt(m: Mem, p: nat, base: nat, es: seq<Export>, hi: int) {
    forall cmd: nat | cmd <= hi :: SlotAt(m, p, base, es, cmd)
  }

  /** The node at p, but for count, ptr and globalValues. */
  ghost predicate NodeAt(m: Mem, p: nat, irt: word, base: nat, mod: Module) {
    && p + NodeSize(mod) <= |m|
    && WordAt(m, p) == mod.id
    && WordAt(m, p + 4) == irt
    && WordAt(m, p + 8) == base
    && WordAt(m, p + 24) == MaxId(mod.exports) % WORD_MOD
    && SlotsAt(m, p + SLOTS_AT, base, mod.exports, MaxId(mod.exports))
  }

  lemma NodeKept(m: Mem, m': Mem, p: nat, irt: word, base: nat, mod: Module)
    requires NodeAt(m, p, irt, base, mod)
    requires Agree(m, m', p, p + 12) && Agree(m, m', p + 24, p + NodeSize(mod))
    ensures NodeAt(m', p, irt, base, mod)
  {
    var hi := p + NodeSize(mod);
    WordAgrees(m, m', p, p, p + 12);
    WordAgrees(m, m', p + 4, p, p + 12);
    WordAgrees(m, m', p + 8, p, p + 12);
    WordAgrees(m, m', p + 24, p + 24, hi);
    var q := p + SLOTS_AT;
    forall cmd: nat | cmd <= MaxId(mod.exports)
      ensures SlotAt(m', q, base, mod.exports, cmd)
    {
      assert SlotAt(m, q, base, mod.exports, cmd);
      WordAgrees(m, m', q + 4 * cmd, p + 24, hi);
    }
  }
}
