/** What the core answers to a call: as the code reads it from memory, and as the tables promise it. */
module Answers {
  import opened Ram
  import opened Wrappers
  import opened ModuleFormat
  import opened KernelLayout
  import opened KernelTables

  /** Id 0 is the core itself, which has commands of its own. For any other id there are the error codes,
      or a jump with CoreData and the module's global storage (0 when it has none). */
  datatype Outcome = Own | NoModule | NoCmd | Called(func: word, coreData: nat, global: word)

  // ----- from memory

  /** The node that lookupID leads to; an empty slot leads to address 0. */
  function NodeFor(m: Mem, l: Layout, id: word): Option<nat>
    requires |m| >= 4 && |l.nodes| <= |l.bees|
  {
    var s := Slot(l.bees, |l.nodes|, id, WordAt(m, 0));
    if s == 0 then None else Some(if s - 1 < |l.nodes| then l.nodes[s - 1] else 0)
  }

  /** There is memory where the call is looked up. */
  ghost predicate CallInMemory(m: Mem, l: Layout, id: word, cmd: word) {
    && |m| >= 4 && |l.nodes| <= |l.bees|
    && (id != 0 ==>
          match NodeFor(m, l, id)
          case None => true
          case Some(p) => SlotAddress(p, cmd) + 4 <= |m| && p + 24 <= |m|)
  }

  /** The function that is jumped to is read once more after the arguments were stored at p + 12 and p + 16. */
  function JumpWord(m: Mem, p: nat, cmd: word, count: word, ptr: word): word
    requires SlotAddress(p, cmd) + 4 <= |m|
  {
    if SlotAddress(p, cmd) == p + 12 then count
    else if SlotAddress(p, cmd) == p + 16 then ptr
    else WordAt(m, SlotAddress(p, cmd))
  }

  /** The answer of the node at p to a call with count arguments at ptr. */
  function NodeAnswer(m: Mem, p: nat, cmd: word, count: word, ptr: word): Outcome
    requires SlotAddress(p, cmd) + 4 <= |m| && p + 24 <= |m|
  {
    if WordAt(m, SlotAddress(p, cmd)) == 0 then NoCmd
    else Called(JumpWord(m, p, cmd, count, ptr), p + 4, WordAt(m, p + 20))
  }

  /** The answer to such a call of the module with this id. */
  function Answer(m: Mem, l: Layout, id: word, cmd: word, count: word, ptr: word): Outcome
    requires CallInMemory(m, l, id, cmd)
  {
    if id == 0 then Own
    else
      match NodeFor(m, l, id)
      case None => NoModule
      case Some(p) => NodeAnswer(m, p, cmd, count, ptr)
  }

  lemma SlotOnWord(p: nat, cmd: word) returns (t: int)
    ensures SlotAddress(p, cmd) == p + 4 * t
  {
    var n := p + SLOTS_AT + 4 * cmd;
    var q := n / WORD_MOD;
    assert n == WORD_MOD * q + n % WORD_MOD;
    t := 7 + cmd - 0x4000_0000 * q;
  }

  /** That is what memory holds after storing them. */
  lemma JumpWordIs(m: Mem, m': Mem, p: nat, cmd: word, count: word, ptr: word)
    requires SlotAddress(p, cmd) + 4 <= |m| && p + 20 <= |m| && SameOutside(m, m', p + 12, p + 20)
    requires WordAt(m', p + 12) == count && WordAt(m', p + 16) == ptr
    ensures WordAt(m', SlotAddress(p, cmd)) == JumpWord(m, p, cmd, count, ptr)
  {
    var t := SlotOnWord(p, cmd);
    var q := SlotAddress(p, cmd);
    if q != p + 12 && q != p + 16 {
      assert t != 3 && t != 4;
      assert q + 4 <= p + 12 || p + 20 <= q;
      WordKept(m, m', q, p + 12, p + 20);
    }
  }

  /** The word jumped to is the one that was tested exactly if the slot is none of the two words stored, or
      the word stored there is the same. */
  lemma JumpIsTestedIff(m: Mem, m': Mem, p: nat, cmd: word, count: word, ptr: word)
    requires SlotAddress(p, cmd) + 4 <= |m| && p + 20 <= |m| && SameOutside(m, m', p + 12, p + 20)
    requires WordAt(m', p + 12) == count && WordAt(m', p + 16) == ptr
    ensures WordAt(m', SlotAddress(p, cmd)) == WordAt(m, SlotAddress(p, cmd)) <==>
            && (SlotAddress(p, cmd) == p + 12 ==> count == WordAt(m, p + 12))
            && (SlotAddress(p, cmd) == p + 16 ==> ptr == WordAt(m, p + 16))
  {
    JumpWordIs(m, m', p, cmd, count, ptr);
  }

  /** Two commands, up to their upper two bits, have the slots that are stored to. */
  lemma StoredSlotIff(p: nat, cmd: word)
    requires p + 20 <= WORD_MOD
    ensures SlotAddress(p, cmd) == p + 12 <==> cmd % 0x4000_0000 == 0x3FFF_FFFC
    ensures SlotAddress(p, cmd) == p + 16 <==> cmd % 0x4000_0000 == 0x3FFF_FFFD
  {
    var low, turns := cmd % 0x4000_0000, cmd / 0x4000_0000;
    assert cmd == 0x4000_0000 * turns + low;
    SlotAlias(p, cmd);
    var n := p + SLOTS_AT + 4 * low;
    var q := if n < WORD_MOD then 0 else if n < 2 * WORD_MOD then 1 else 2;
    WholeTurns(n - WORD_MOD * q, q);
    Unwrapped(n - WORD_MOD * q);
  }

  // ----- from the tables

  function OutcomeOf(l: Layout, globals: seq<word>, id: word, cmd: word): Outcome
    requires |globals| == |l.nodes| <= |l.bees|
  {
    var i := FirstWith(l.bees, |l.nodes|, id);
    if id == 0 then Own
    else if i == |l.nodes| then NoModule
    else
      var func := SlotValue(l.bees[i].Base(), l.bees[i].mod.exports, cmd);
      if func == 0 then NoCmd else Called(func, l.nodes[i] + 4, globals[i])
  }

  /** An unknown id does not read as the id of an empty slot. */
  ghost predicate Sought(m: Mem, l: Layout, id: word)
    requires |m| >= 4 && |l.nodes| <= |l.bees|
  {
    FirstWith(l.bees, |l.nodes|, id) < |l.nodes| || WordAt(m, 0) != id || |l.nodes| == MAX_BEES
  }

  /** The core answers unknown modules as such, and the command does not lie beyond the table of the module. */
  ghost predicate Callable(m: Mem, l: Layout, id: word, cmd: word)
    requires |m| >= 4 && |l.nodes| <= |l.bees|
  {
    var i := FirstWith(l.bees, |l.nodes|, id);
    id == 0 || (Sought(m, l, id) && (i < |l.nodes| ==> cmd <= MaxId(l.bees[i].mod.exports)))
  }

  // ----- how the two compare

  lemma InsideTable(p: nat, mod: Module, cmd: word, limit: nat)
    requires cmd <= MaxId(mod.exports) && p + NodeSize(mod) <= limit <= WORD_MOD
    ensures SlotAddress(p, cmd) == p + SLOTS_AT + 4 * cmd && SlotAddress(p, cmd) + 4 <= limit
  {
  }

  /** A command within the table reads its own slot. */
  lemma SlotRead(m: Mem, irt: word, l: Layout, i: nat, cmd: word)
    requires Linked(m, irt, l) && i < |l.nodes| && cmd <= MaxId(l.bees[i].mod.exports)
    ensures SlotAddress(l.nodes[i], cmd) + 4 <= |m|
    ensures WordAt(m, SlotAddress(l.nodes[i], cmd)) == SlotValue(l.bees[i].Base(), l.bees[i].mod.exports, cmd)
  {
    assert NodeKnown(m, irt, l.regions, l.nodes[i], l.bees[i]);
    InsideTable(l.nodes[i], l.bees[i].mod, cmd, |m|);
    assert SlotAt(m, l.nodes[i] + SLOTS_AT, l.bees[i].Base(), l.bees[i].mod.exports, cmd);
  }

  /** What is exported lies within the table. */
  lemma {:induction false} ExportedInTable(es: seq<Export>, cmd: word)
    requires SmallIds(es) && OffsetOf(es, cmd).Some?
    ensures cmd <= MaxId(es)
    decreases |es|
  {
    if es[|es| - 1].id != cmd {
      ExportedInTable(es[..|es| - 1], cmd);
    }
  }

  lemma NodeForKnown(m: Mem, irt: word, l: Layout, id: word)
    requires Linked(m, irt, l)
    ensures var i := FirstWith(l.bees, |l.nodes|, id);
            NodeFor(m, l, id) == if i < |l.nodes| then Some(l.nodes[i]) else if Sought(m, l, id) then None else Some(0)
  {
  }

  /** Whatever the caller may ask for: the core's own id is the core; an exported command of a known module
      is found; any other command of it is refused exactly within its table, or where the memory behind the
      table holds 0; an unknown module is reported exactly if its id is not read in an empty slot. */
  lemma AnswerIff(m: Mem, irt: word, l: Layout, globals: seq<word>, id: word, cmd: word, count: word, ptr: word)
    requires Linked(m, irt, l) && GlobalsHold(m, l.nodes, globals) && CallInMemory(m, l, id, cmd)
    ensures var i := FirstWith(l.bees, |l.nodes|, id);
            Answer(m, l, id, cmd, count, ptr) == OutcomeOf(l, globals, id, cmd) <==>
              || id == 0
              || if i == |l.nodes| then Sought(m, l, id)
                 else
                   || OffsetOf(l.bees[i].mod.exports, cmd).Some?
                   || cmd <= MaxId(l.bees[i].mod.exports)
                   || WordAt(m, SlotAddress(l.nodes[i], cmd)) == 0
  {
    NodeForKnown(m, irt, l, id);
    var i := FirstWith(l.bees, |l.nodes|, id);
    if id != 0 && i < |l.nodes| {
      assert NodeKnown(m, irt, l.regions, l.nodes[i], l.bees[i]);
      if OffsetOf(l.bees[i].mod.exports, cmd).Some? {
        ExportedInTable(l.bees[i].mod.exports, cmd);
      }
      if cmd <= MaxId(l.bees[i].mod.exports) {
        InsideTable(l.nodes[i], l.bees[i].mod, cmd, |m|);
        SlotRead(m, irt, l, i, cmd);
      }
    }
  }

  lemma CallableIsAnswered(m: Mem, irt: word, l: Layout, globals: seq<word>, id: word, cmd: word,
                           count: word, ptr: word)
    requires Linked(m, irt, l) && GlobalsHold(m, l.nodes, globals) && |m| >= 4 && Callable(m, l, id, cmd)
    ensures CallInMemory(m, l, id, cmd) && Answer(m, l, id, cmd, count, ptr) == OutcomeOf(l, globals, id, cmd)
  {
    NodeForKnown(m, irt, l, id);
    var i := FirstWith(l.bees, |l.nodes|, id);
    if id != 0 && i < |l.nodes| {
      SlotRead(m, irt, l, i, cmd);
      assert l.nodes[i] + 24 <= |m|;
    }
    AnswerIff(m, irt, l, globals, id, cmd, count, ptr);
  }

  /** The call ends up in the node of bee i. */
  ghost predicate LeadsTo(m: Mem, l: Layout, id: word, i: nat)
    requires |m| >= 4 && i < |l.nodes| <= |l.bees|
  {
    id != 0 && NodeFor(m, l, id) == Some(l.nodes[i])
  }

  /** A registered module can be called exactly if its id is not 0 and no module before it has the same. */
  lemma ReachableIff(m: Mem, irt: word, l: Layout, i: nat)
    requires Linked(m, irt, l) && i < |l.nodes| && |m| >= 4
    ensures (exists id: word :: LeadsTo(m, l, id, i)) <==>
            l.bees[i].mod.id != 0 && FirstWith(l.bees, |l.nodes|, l.bees[i].mod.id) == i
  {
    var own := l.bees[i].mod.id;
    NodeForKnown(m, irt, l, own);
    if id: word :| LeadsTo(m, l, id, i) {
      NodeForKnown(m, irt, l, id);
      var k := FirstWith(l.bees, |l.nodes|, id);
      NodeBelow(m, irt, l, i);
      NodesDiffer(l, i, k);
    }
    if own != 0 && FirstWith(l.bees, |l.nodes|, own) == i {
      assert LeadsTo(m, l, own, i);
    }
  }

  lemma NodesDiffer(l: Layout, i: nat, k: nat)
    requires NodesAscend(l.nodes) && i < |l.nodes|
    ensures i != k && k < |l.nodes| ==> l.nodes[i] != l.nodes[k]
  {
    if k < |l.nodes| {
      if i < k {
        assert l.nodes[i] < l.nodes[k];
      } else if k < i {
        assert l.nodes[k] < l.nodes[i];
      }
    }
  }

  /** A module registered with id 0 is never called: its commands are those of the core. */
  lemma IdZeroIsTheCore(m: Mem, l: Layout, cmd: word, count: word, ptr: word)
    requires CallInMemory(m, l, 0, cmd)
    ensures Answer(m, l, 0, cmd, count, ptr) == Own
  {
  }

  /** An id that no module has is reported as such exactly if it is not the word at address 0, or all 1024 places
      of the lookup array are taken. Otherwise whatever lies at address 0 is called. */
  lemma UnknownIff(m: Mem, irt: word, l: Layout, id: word, cmd: word, count: word, ptr: word)
    requires Linked(m, irt, l) && CallInMemory(m, l, id, cmd) && id != 0
    requires forall i | 0 <= i < |l.nodes| :: l.bees[i].mod.id != id
    ensures Answer(m, l, id, cmd, count, ptr) == NoModule <==> WordAt(m, 0) != id || |l.nodes| == 1024
    ensures WordAt(m, 0) == id && |l.nodes| != 1024 ==>
              NodeFor(m, l, id) == Some(0) && Answer(m, l, id, cmd, count, ptr) == NodeAnswer(m, 0, cmd, count, ptr)
  {
    NodeForKnown(m, irt, l, id);
  }

  /** What a module finds where its CoreData is, however it was called: its id in front of it, the address of
      the handler, where it was loaded itself, and four and five words on the pointer to its storage and its
      last command. */
  lemma CoreDataIs(m: Mem, irt: word, l: Layout, globals: seq<word>, id: word, cmd: word, count: word, ptr: word)
    requires Linked(m, irt, l) && GlobalsHold(m, l.nodes, globals) && CallInMemory(m, l, id, cmd)
    requires Answer(m, l, id, cmd, count, ptr).Called? && FirstWith(l.bees, |l.nodes|, id) < |l.nodes|
    ensures var cd, b := Answer(m, l, id, cmd, count, ptr).coreData, l.bees[FirstWith(l.bees, |l.nodes|, id)];
            && 4 <= cd && cd + 24 <= |m|
            && WordAt(m, cd - 4) == b.mod.id == id
            && WordAt(m, cd) == irt && WordAt(m, cd + 4) == b.Base()
            && WordAt(m, cd + 20) == MaxId(b.mod.exports) % 0x1_0000_0000
            && WordAt(m, cd + 16) == Answer(m, l, id, cmd, count, ptr).global
  {
    NodeForKnown(m, irt, l, id);
    var i := FirstWith(l.bees, |l.nodes|, id);
    assert NodeKnown(m, irt, l.regions, l.nodes[i], l.bees[i]);
    assert l.nodes[i] + 24 <= |m|;
  }

  lemma SlotBehind(m: Mem, irt: word, l: Layout, i: nat, cmd: word)
    requires Linked(m, irt, l) && Joined(l) && i + 1 < |l.nodes| && cmd == MaxId(l.bees[i].mod.exports) + 1
    ensures OffsetOf(l.bees[i].mod.exports, cmd) == None
    ensures SlotAddress(l.nodes[i], cmd) == l.nodes[i + 1] >= l.nodes[i] + SLOTS_AT
    ensures l.nodes[i + 1] + 4 <= |m| && WordAt(m, l.nodes[i + 1]) == l.bees[i + 1].mod.id
  {
    var p := l.nodes[i];
    assert NodeKnown(m, irt, l.regions, p, l.bees[i]);
    assert NodeKnown(m, irt, l.regions, l.nodes[i + 1], l.bees[i + 1]);
    assert l.nodes[i + 1] == p + NodeSize(l.bees[i].mod);
    Unwrapped(p + SLOTS_AT + 4 * cmd);
    if OffsetOf(l.bees[i].mod.exports, cmd).Some? {
      ExportedInTable(l.bees[i].mod.exports, cmd);
    }
  }

  /** The first command behind the table of a module jumps to the id of the next module. */
  lemma BehindTheTable(m: Mem, irt: word, l: Layout, globals: seq<word>, i: nat, cmd: word, count: word, ptr: word)
    requires Linked(m, irt, l) && GlobalsHold(m, l.nodes, globals) && Joined(l) && i + 1 < |l.nodes|
    requires i == FirstWith(l.bees, |l.nodes|, l.bees[i].mod.id) && cmd == MaxId(l.bees[i].mod.exports) + 1
    requires l.bees[i].mod.id != 0
    ensures CallInMemory(m, l, l.bees[i].mod.id, cmd)
    ensures OutcomeOf(l, globals, l.bees[i].mod.id, cmd) == NoCmd
    ensures l.bees[i + 1].mod.id != 0 ==>
              Answer(m, l, l.bees[i].mod.id, cmd, count, ptr) ==
              Called(l.bees[i + 1].mod.id, l.nodes[i] + 4, globals[i])
  {
    SlotBehind(m, irt, l, i, cmd);
    NodeForKnown(m, irt, l, l.bees[i].mod.id);
    assert l.nodes[i] + 24 <= |m|;
  }

  /** The upper two bits of a command do not matter. */
  lemma CommandsAlias(m: Mem, l: Layout, id: word, cmd: word, count: word, ptr: word)
    requires CallInMemory(m, l, id, cmd)
    ensures var low := cmd % 0x4000_0000;
            CallInMemory(m, l, id, low) && Answer(m, l, id, low, count, ptr) == Answer(m, l, id, cmd, count, ptr)
  {
    match NodeFor(m, l, id)
    case None =>
    case Some(p) => SlotAlias(p, cmd);
  }
}
