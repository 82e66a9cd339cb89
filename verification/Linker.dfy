/** Lookup nodes: the per-module tables through which calls are resolved. */
module Linker {
  import opened Ram
  import opened Wrappers
  import opened ModuleFormat

  // ----- the largest export id

  lemma MaxIdGrows(es: seq<Export>, s: nat)
    requires s < |es|
    ensures MaxId(es[..s + 1]) == if MaxId(es[..s]) < AsInt(es[s].id) then AsInt(es[s].id) else MaxId(es[..s])
  {
    assert es[..s + 1][..s] == es[..s];
  }

  lemma OffsetOfGrows(es: seq<Export>, s: nat, cmd: nat)
    requires s < |es|
    ensures OffsetOf(es[..s + 1], cmd) == if es[s].id == cmd then Some(es[s].offset) else OffsetOf(es[..s], cmd)
  {
    assert es[..s + 1][..s] == es[..s];
  }

  /** The largest id is exported, unless all ids have the sign bit. */
  lemma {:induction false} MaxIdExported(es: seq<Export>)
    ensures MaxId(es) >= 0 ==> OffsetOf(es, MaxId(es)).Some?
    ensures MaxId(es) == -1 <==> forall i | 0 <= i < |es| :: es[i].id >= 0x8000_0000
    decreases |es|
  {
    if es != [] {
      MaxIdExported(es[..|es| - 1]);
    }
  }

  method FindMaxId(ram: array<byte>, funcs: nat, n: nat, ghost base: nat, ghost es: seq<Export>) returns (max: int)
    requires n == |es| && FuncsAt(ram[..], funcs, base, es)
    ensures max == MaxId(es)
  {
    max := -1;
    for s := 0 to n
      invariant max == MaxId(es[..s])
    {
      assert FuncAt(ram[..], funcs + 8 * s, base, es[s]);
      var id := LoadWord(ram, funcs + 8 * s);
      MaxIdGrows(es, s);
      if max < AsInt(id) {
        max := AsInt(id);
      }
    }
    assert es[..n] == es;
  }

  // ----- the slots

  /** All slots up to max, but the last one only once it has been exported. */
  ghost predicate SlotsSoFar(m: Mem, p: nat, base: nat, es: seq<Export>, max: int) {
    forall cmd: nat | cmd < max || (cmd == max && OffsetOf(es, cmd).Some?) :: SlotAt(m, p, base, es, cmd)
  }

  method ClearSlots(ram: array<byte>, p: nat, max: int)
    requires -1 <= max && p + 4 * (max + 1) <= ram.Length
    modifies ram
    ensures SlotsSoFar(ram[..], p, 0, [], max)
    ensures SameOutside(old(ram[..]), ram[..], p, p + 4 * (max + 1))
  {
    ghost var was := ram[..];
    var s := 0;
    while s < max
      invariant 0 <= s && (s <= max || s == 0)
      invariant SameOutside(was, ram[..], p, p + 4 * s)
      invariant forall cmd: nat | cmd < s :: SlotAt(ram[..], p, 0, [], cmd)
    {
      ghost var before := ram[..];
      StoreWord(ram, p + 4 * s, 0);
      forall cmd: nat | cmd < s + 1
        ensures SlotAt(ram[..], p, 0, [], cmd)
      {
        if cmd < s {
          assert SlotAt(before, p, 0, [], cmd);
          WordKept(before, ram[..], p + 4 * cmd, p + 4 * s, p + 4 * s + 4);
        }
      }
      s := s + 1;
    }
  }

  lemma SlotStored(m: Mem, m': Mem, p: nat, base: nat, es: seq<Export>, s: nat, max: int)
    requires s < |es| && es[s].id <= max && SlotsSoFar(m, p, base, es[..s], max)
    requires var q := p + 4 * es[s].id;
             q + 4 <= |m| && SameOutside(m, m', q, q + 4) && WordAt(m', q) == Relocate(base, es[s].offset)
    ensures SlotsSoFar(m', p, base, es[..s + 1], max)
  {
    var q := p + 4 * es[s].id;
    var es' := es[..s + 1];
    forall cmd: nat | cmd < max || (cmd == max && OffsetOf(es', cmd).Some?)
      ensures SlotAt(m', p, base, es', cmd)
    {
      OffsetOfGrows(es, s, cmd);
      if cmd != es[s].id {
        assert SlotAt(m, p, base, es[..s], cmd);
        WordKept(m, m', p + 4 * cmd, q, q + 4);
      }
    }
  }

  /** Enters every export of the data page into the slot of its id, in order. */
  method FillSlots(ram: array<byte>, funcs: nat, n: nat, p: nat, ghost base: nat, ghost es: seq<Export>)
    requires n == |es| && FuncsAt(ram[..], funcs, base, es) && funcs + 8 * n <= p && SmallIds(es)
    requires p + 4 * (MaxId(es) + 1) <= ram.Length
    requires SlotsSoFar(ram[..], p, base, [], MaxId(es))
    modifies ram
    ensures SlotsSoFar(ram[..], p, base, es, MaxId(es))
    ensures SameOutside(old(ram[..]), ram[..], p, p + 4 * (MaxId(es) + 1))
  {
    ghost var was, hi := ram[..], p + 4 * (MaxId(es) + 1);
    for s := 0 to n
      invariant SameOutside(was, ram[..], p, hi)
      invariant SlotsSoFar(ram[..], p, base, es[..s], MaxId(es))
    {
      FuncsKept(was, ram[..], funcs, base, es);
      FillSlot(ram, funcs, s, p, base, es);
    }
    assert es[..n] == es;
  }

  /** The export in place s. */
  method FillSlot(ram: array<byte>, funcs: nat, s: nat, p: nat, ghost base: nat, ghost es: seq<Export>)
    requires s < |es| && FuncsAt(ram[..], funcs, base, es) && funcs + 8 * |es| <= p && SmallIds(es)
    requires p + 4 * (MaxId(es) + 1) <= ram.Length
    requires SlotsSoFar(ram[..], p, base, es[..s], MaxId(es))
    modifies ram
    ensures SlotsSoFar(ram[..], p, base, es[..s + 1], MaxId(es))
    ensures SameOutside(old(ram[..]), ram[..], p, p + 4 * (MaxId(es) + 1))
  {
    ghost var before := ram[..];
    assert FuncAt(before, funcs + 8 * s, base, es[s]);
    var id := LoadWord(ram, funcs + 8 * s);
    var func := LoadWord(ram, funcs + 8 * s + 4);
    assert AsInt(es[s].id) <= MaxId(es);
    StoreWord(ram, p + 4 * id as int, func);
    SlotStored(before, ram[..], p, base, es, s, MaxId(es));
  }

  lemma AllSlots(m: Mem, p: nat, base: nat, es: seq<Export>)
    requires SlotsSoFar(m, p, base, es, MaxId(es))
    ensures SlotsAt(m, p, base, es, MaxId(es))
  {
    MaxIdExported(es);
  }

  // ----- a whole node

  /** The fixed part of a node in front of globalValues and numFuncs. */
  ghost predicate NodeHeadAt(m: Mem, p: nat, id: word, irt: word, base: nat) {
    && p + 24 <= |m|
    && WordAt(m, p) == id && WordAt(m, p + 4) == irt && WordAt(m, p + 8) == base
    && WordAt(m, p + 12) == 0 && WordAt(m, p + 16) == 0 && WordAt(m, p + 20) == 0
  }

  method WriteNodeHead(ram: array<byte>, p: nat, id: word, irt: word, base: word)
    requires p + 24 <= ram.Length
    modifies ram
    ensures NodeHeadAt(ram[..], p, id, irt, base)
    ensures SameOutside(old(ram[..]), ram[..], p, p + 24)
  {
    WriteThree(ram, p, id, irt, base);
    ghost var m := ram[..];
    WriteThree(ram, p + 12, 0, 0, 0);
    WordKept(m, ram[..], p, p + 12, p + 24);
    WordKept(m, ram[..], p + 4, p + 12, p + 24);
    WordKept(m, ram[..], p + 8, p + 12, p + 24);
  }

  method WriteThree(ram: array<byte>, p: nat, a: word, b: word, c: word)
    requires p + 12 <= ram.Length
    modifies ram
    ensures WordAt(ram[..], p) == a && WordAt(ram[..], p + 4) == b && WordAt(ram[..], p + 8) == c
    ensures SameOutside(old(ram[..]), ram[..], p, p + 12)
  {
    StoreWord(ram, p, a);
    ghost var m1 := ram[..];
    StoreWord(ram, p + 4, b);
    ghost var m2 := ram[..];
    WordKept(m1, m2, p, p + 4, p + 8);
    StoreWord(ram, p + 8, c);
    WordKept(m2, ram[..], p, p + 8, p + 12);
    WordKept(m2, ram[..], p + 4, p + 8, p + 12);
  }

  lemma NodeHeadKept(m: Mem, m': Mem, p: nat, id: word, irt: word, base: nat, hi: nat)
    requires NodeHeadAt(m, p, id, irt, base) && SameOutside(m, m', p + 24, hi)
    ensures NodeHeadAt(m', p, id, irt, base)
  {
    WordKept(m, m', p, p + 24, hi);
    WordKept(m, m', p + 4, p + 24, hi);
    WordKept(m, m', p + 8, p + 24, hi);
    WordKept(m, m', p + 12, p + 24, hi);
    WordKept(m, m', p + 16, p + 24, hi);
    WordKept(m, m', p + 20, p + 24, hi);
  }

  /** Clears and fills the slots of a node from a data page. */
  method MakeSlots(ram: array<byte>, data: nat, p: nat, ghost base: nat, ghost mod: Module) returns (max: int)
    requires DataAt(ram[..], data, base, mod) && data + DataSize(mod) <= p && SmallIds(mod.exports)
    requires p + 4 * (MaxId(mod.exports) + 1) <= ram.Length
    modifies ram
    ensures max == MaxId(mod.exports)
    ensures SlotsAt(ram[..], p, base, mod.exports, max)
    ensures SameOutside(old(ram[..]), ram[..], p, p + 4 * (max + 1))
  {
    ghost var was := ram[..];
    var n := LoadWord(ram, data + 10);
    max := FindMaxId(ram, data + FUNCS_AT, n, base, mod.exports);
    ClearSlots(ram, p, max);
    ghost var mid := ram[..];
    FuncsKept(was, mid, data + FUNCS_AT, base, mod.exports);
    assert SlotsSoFar(mid, p, base, [], max) by {
      EmptySlots(mid, p, base, max);
    }
    FillSlots(ram, data + FUNCS_AT, n, p, base, mod.exports);
    AllSlots(ram[..], p, base, mod.exports);
  }

  lemma EmptySlots(m: Mem, p: nat, base: nat, max: int)
    requires SlotsSoFar(m, p, 0, [], max)
    ensures SlotsSoFar(m, p, base, [], max)
  {
    forall cmd: nat | cmd < max
      ensures SlotAt(m, p, base, [], cmd)
    {
      assert SlotAt(m, p, 0, [], cmd);
    }
  }

  /** One node of the lookup array, made from a data page; every write is inside the node. */
  method MakeNode(ram: array<byte>, data: nat, p: nat, irt: word, ghost base: nat, ghost mod: Module)
    returns (size: nat)
    requires DataAt(ram[..], data, base, mod) && data + DataSize(mod) <= p && SmallIds(mod.exports)
    requires p + NodeSize(mod) <= ram.Length
    modifies ram
    ensures size == NodeSize(mod)
    ensures NodeAt(ram[..], p, irt, base, mod) && NodeHeadAt(ram[..], p, mod.id, irt, base)
    ensures SameOutside(old(ram[..]), ram[..], p, p + size)
  {
    ghost var m0 := ram[..];
    var id := LoadWord(ram, data + 4);
    var address := LoadWord(ram, data);
    WriteNodeHead(ram, p, id, irt, address);
    ghost var m1 := ram[..];
    DataKept(m0, m1, data, base, mod);
    var max := MakeSlots(ram, data, p + SLOTS_AT, base, mod);
    ghost var m2 := ram[..];
    size := (max + 1) * 4 + 4 + 16 + 4 + 4;
    NodeHeadKept(m1, m2, p, mod.id, irt, base, p + size);
    StoreWord(ram, p + 24, max % WORD_MOD);
    NodeDone(m2, ram[..], p, irt, base, mod);
  }

  lemma NodeDone(m: Mem, m': Mem, p: nat, irt: word, base: nat, mod: Module)
    requires NodeHeadAt(m, p, mod.id, irt, base) && p + NodeSize(mod) <= |m|
    requires SlotsAt(m, p + SLOTS_AT, base, mod.exports, MaxId(mod.exports))
    requires SameOutside(m, m', p + 24, p + 28) && WordAt(m', p + 24) == MaxId(mod.exports) % WORD_MOD
    ensures NodeAt(m', p, irt, base, mod) && NodeHeadAt(m', p, mod.id, irt, base)
  {
    NodeHeadKept(m, m', p, mod.id, irt, base, p + 28);
    var q := p + SLOTS_AT;
    forall cmd: nat | cmd <= MaxId(mod.exports)
      ensures SlotAt(m', q, base, mod.exports, cmd)
    {
      assert SlotAt(m, q, base, mod.exports, cmd);
      WordKept(m, m', q + 4 * cmd, p + 24, p + 28);
    }
  }

  // ----- ids that do not belong into a table

  /** The entry of an id lies in the node: in a slot, or in one of the seven words before the slots. */
  predicate InNode(max: int, id: word) {
    id % 0x4000_0000 <= max || id % 0x4000_0000 >= 0x3FFF_FFF9
  }

  /** An entry is written inside the node exactly for such ids. */
  lemma EntryInsideIff(p: nat, max: int, id: word)
    requires -1 <= max && p + SLOTS_AT + 4 * (max + 1) <= WORD_MOD
    ensures p <= SlotAddress(p, id) && SlotAddress(p, id) + 4 <= p + SLOTS_AT + 4 * (max + 1) <==> InNode(max, id)
  {
    SlotAlias(p, id);
    var low := id % 0x4000_0000;
    var n := p + SLOTS_AT + 4 * low;
    var q := if n < WORD_MOD then 0 else if n < 2 * WORD_MOD then 1 else 2;
    WholeTurns(n - WORD_MOD * q, q);
    assert SlotAddress(p, id) == n - WORD_MOD * q;
  }

  /** All entries of a module are written inside its node exactly if all of its ids are such ids. */
  lemma EntriesInsideIff(p: nat, es: seq<Export>)
    requires p + SLOTS_AT + 4 * (MaxId(es) + 1) <= WORD_MOD
    ensures (forall i | 0 <= i < |es| ::
               p <= SlotAddress(p, es[i].id) && SlotAddress(p, es[i].id) + 4 <= p + SLOTS_AT + 4 * (MaxId(es) + 1))
            <==> forall i | 0 <= i < |es| :: InNode(MaxId(es), es[i].id)
  {
    forall i | 0 <= i < |es|
      ensures p <= SlotAddress(p, es[i].id) && SlotAddress(p, es[i].id) + 4 <= p + SLOTS_AT + 4 * (MaxId(es) + 1)
              <==> InNode(MaxId(es), es[i].id)
    {
      EntryInsideIff(p, MaxId(es), es[i].id);
    }
  }

  /** Inside is not enough: one id takes the slot of command 1, another the pointer to global storage. */
  lemma WrongEntries(p: nat)
    requires p + SLOTS_AT + 8 <= WORD_MOD
    ensures SlotAddress(p, 0x8000_0001) == p + SLOTS_AT + 4
    ensures SlotAddress(p, 0xFFFF_FFFE) == p + 20
  {
    SlotAlias(p, 0x8000_0001);
    SlotAlias(p, 0xFFFF_FFFE);
    WholeTurns(p + SLOTS_AT + 4, 0);
    WholeTurns(p + 20, 1);
  }

  /** With ids below 2^31 every entry has its own slot. */
  lemma SmallIdsInside(p: nat, es: seq<Export>, i: nat)
    requires SmallIds(es) && i < |es| && p + SLOTS_AT + 4 * (MaxId(es) + 1) <= WORD_MOD
    ensures InNode(MaxId(es), es[i].id) && SlotAddress(p, es[i].id) == p + SLOTS_AT + 4 * es[i].id
  {
    assert AsInt(es[i].id) <= MaxId(es);
    WholeTurns(p + SLOTS_AT + 4 * es[i].id, 0);
  }
}
