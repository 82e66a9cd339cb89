/** The chain of name pages: 14 slots of a 32-byte name and the address of a data
    page, then the address of the next page. */
module NamePages {
  import opened Ram

  const PAGE_SIZE: nat := 512
  const PAGE_SLOTS: nat := 14
  const SLOT_SIZE: nat := 36
  const NAME_SIZE: nat := 32
  const NEXT_AT: nat := 504

  datatype Entry = Entry(name: seq<byte>, data: word)

  function SlotAddr(page: nat, i: nat): nat { page + SLOT_SIZE * i }

  ghost predicate SlotHolds(m: Mem, q: nat, e: Entry) {
    && q + SLOT_SIZE <= |m| && |e.name| == NAME_SIZE
    && m[q..q + NAME_SIZE] == e.name
    && WordAt(m, q + NAME_SIZE) == e.data
  }

  /** The first slots of the page are es; an empty name ends a page that is not full. */
  ghost predicate PageHolds(m: Mem, page: nat, es: seq<Entry>, closed: bool) {
    && |es| <= PAGE_SLOTS && page + PAGE_SIZE <= |m|
    && (forall i | 0 <= i < |es| :: SlotHolds(m, SlotAddr(page, i), es[i]))
    && (closed && |es| < PAGE_SLOTS ==> m[SlotAddr(page, |es|)] == 0)
  }

  /** The chain of pages holds exactly es, 14 to a page. An open chain may lack
      the empty name at its end. */
  ghost predicate ChainHolds(m: Mem, pages: seq<nat>, es: seq<Entry>, closed: bool)
    decreases |pages|
  {
    && pages != [] && pages[0] != 0 && pages[0] + PAGE_SIZE <= |m|
    && if |es| <= PAGE_SLOTS then
         |pages| == 1 && PageHolds(m, pages[0], es, closed) && WordAt(m, pages[0] + NEXT_AT) == 0
       else
         && |pages| > 1
         && PageHolds(m, pages[0], es[..PAGE_SLOTS], closed)
         && WordAt(m, pages[0] + NEXT_AT) == pages[1]
         && ChainHolds(m, pages[1..], es[PAGE_SLOTS..], closed)
  }

  /** Page addresses, each below the next. */
  ghost predicate Ascending(pages: seq<nat>, hi: nat) {
    && (forall j | 0 <= j < |pages| :: pages[j] + PAGE_SIZE <= hi)
    && (forall i, j | 0 <= i < j < |pages| :: pages[i] + PAGE_SIZE <= pages[j])
  }

  ghost predicate InPages(pages: seq<nat>, a: int) {
    exists j | 0 <= j < |pages| :: pages[j] <= a < pages[j] + PAGE_SIZE
  }

  // ----- framing

  lemma SlotKept(m: Mem, m': Mem, q: nat, e: Entry)
    requires SlotHolds(m, q, e) && Agree(m, m', q, q + SLOT_SIZE)
    ensures SlotHolds(m', q, e)
  {
    assert m'[q..q + NAME_SIZE] == m[q..q + NAME_SIZE];
  }

  lemma PageKept(m: Mem, m': Mem, page: nat, es: seq<Entry>, closed: bool)
    requires PageHolds(m, page, es, closed) && Agree(m, m', page, page + NEXT_AT)
    ensures PageHolds(m', page, es, closed)
  {
    forall i | 0 <= i < |es|
      ensures SlotHolds(m', SlotAddr(page, i), es[i])
    {
      SlotKept(m, m', SlotAddr(page, i), es[i]);
    }
  }

  lemma NextKept(m: Mem, m': Mem, page: nat)
    requires page + PAGE_SIZE <= |m| && Agree(m, m', page, page + PAGE_SIZE)
    ensures WordAt(m', page + NEXT_AT) == WordAt(m, page + NEXT_AT)
  {
  }

  lemma {:induction false} ChainKept(m: Mem, m': Mem, pages: seq<nat>, es: seq<Entry>, closed: bool)
    requires ChainHolds(m, pages, es, closed) && |m| == |m'|
    requires forall j | 0 <= j < |pages| :: Agree(m, m', pages[j], pages[j] + PAGE_SIZE)
    ensures ChainHolds(m', pages, es, closed)
    decreases |pages|
  {
    NextKept(m, m', pages[0]);
    if |es| <= PAGE_SLOTS {
      PageKept(m, m', pages[0], es, closed);
    } else {
      PageKept(m, m', pages[0], es[..PAGE_SLOTS], closed);
      ChainKept(m, m', pages[1..], es[PAGE_SLOTS..], closed);
    }
  }

  // ----- adding a name

  method WriteSlot(ram: array<byte>, q: nat, e: Entry)
    requires q + SLOT_SIZE <= ram.Length && |e.name| == NAME_SIZE
    modifies ram
    ensures SlotHolds(ram[..], q, e)
    ensures SameOutside(old(ram[..]), ram[..], q, q + SLOT_SIZE)
  {
    ghost var was := ram[..];
    for i := 0 to NAME_SIZE
      invariant SameOutside(was, ram[..], q, q + i)
      invariant ram[q..q + i] == e.name[..i]
    {
      ram[q + i] := e.name[i];
    }
    StoreWord(ram, q + NAME_SIZE, e.data);
    assert ram[..][q..q + NAME_SIZE] == ram[q..q + NAME_SIZE] == e.name[..NAME_SIZE] == e.name;
  }

  /** Slot `index` of the page, and the empty name behind it. */
  method WriteEntry(ram: array<byte>, page: nat, index: nat, e: Entry, ghost es: seq<Entry>)
    requires index == |es| < PAGE_SLOTS && PageHolds(ram[..], page, es, false) && |e.name| == NAME_SIZE
    modifies ram
    ensures PageHolds(ram[..], page, es + [e], true)
    ensures SameOutside(old(ram[..]), ram[..], page, page + NEXT_AT)
  {
    ghost var was := ram[..];
    WriteSlot(ram, SlotAddr(page, index), e);
    ghost var mid := ram[..];
    if index + 1 < PAGE_SLOTS {
      StoreByte(ram, SlotAddr(page, index + 1), 0);
    }
    forall i | 0 <= i < |es + [e]|
      ensures SlotHolds(ram[..], SlotAddr(page, i), (es + [e])[i])
    {
      if i < index {
        SlotKept(was, ram[..], SlotAddr(page, i), es[i]);
      } else {
        SlotKept(mid, ram[..], SlotAddr(page, i), e);
      }
    }
  }

  /** Bytes outside the pages and outside lo <= a < hi are as before. */
  ghost predicate OnlyPages(m: Mem, m': Mem, pages: seq<nat>, lo: nat, hi: nat) {
    |m| == |m'| && forall a | 0 <= a < |m| && !(lo <= a < hi) && !InPages(pages, a) :: m'[a] == m[a]
  }

  lemma ChainFrom(m: Mem, page: nat, tail: seq<nat>, es: seq<Entry>, e: Entry, closed: bool)
    requires |es| >= PAGE_SLOTS && PageHolds(m, page, es[..PAGE_SLOTS], closed) && page != 0
    requires tail != [] && WordAt(m, page + NEXT_AT) == tail[0]
    requires ChainHolds(m, tail, es[PAGE_SLOTS..] + [e], true)
    ensures ChainHolds(m, [page] + tail, es + [e], true)
  {
    assert (es + [e])[..PAGE_SLOTS] == es[..PAGE_SLOTS];
    assert (es + [e])[PAGE_SLOTS..] == es[PAGE_SLOTS..] + [e];
    assert ([page] + tail)[1..] == tail;
  }

  /** A page gets a successor, which has none itself. */
  method LinkNewPage(ram: array<byte>, page: nat, added: word)
    requires page + PAGE_SIZE <= added && added + PAGE_SIZE <= ram.Length
    modifies ram
    ensures WordAt(ram[..], page + NEXT_AT) == added && WordAt(ram[..], added + NEXT_AT) == 0
    ensures OnlyPages(old(ram[..]), ram[..], [page], added, added + PAGE_SIZE)
    ensures Agree(old(ram[..]), ram[..], page, page + NEXT_AT)
  {
    ghost var was := ram[..];
    StoreWord(ram, page + NEXT_AT, added);
    ghost var mid := ram[..];
    StoreWord(ram, added + NEXT_AT, 0);
    WordKept(mid, ram[..], page + NEXT_AT, added + NEXT_AT, added + PAGE_SIZE);
    forall a | 0 <= a < |was| && !(added <= a < added + PAGE_SIZE) && !InPages([page], a)
      ensures ram[..][a] == was[a]
    {
      assert a < [page][0] || [page][0] + PAGE_SIZE <= a;
      assert mid[a] == was[a];
    }
  }

  /** All pages are full. */
  ghost predicate NeedsPage(pages: seq<nat>, es: seq<Entry>) {
    |es| == PAGE_SLOTS * |pages|
  }

  /** pages' is pages, with the page at memory behind them if one was added. */
  ghost predicate Extends(pages: seq<nat>, pages': seq<nat>, added: bool, memory: nat) {
    && |pages'| == |pages| + (if added then 1 else 0)
    && (forall j | 0 <= j < |pages| :: pages'[j] == pages[j])
    && (added ==> pages'[|pages|] == memory)
  }

  /** What is behind the first page after it was given a successor. */
  function TailOf(pages: seq<nat>, es: seq<Entry>, memory: nat): seq<nat>
    requires pages != []
  {
    if |es| == PAGE_SLOTS then [memory] else pages[1..]
  }

  /** The page after a full page, made if it is missing. */
  method NextPage(ram: array<byte>, memory: nat, page: nat,
                  ghost pages: seq<nat>, ghost es: seq<Entry>, ghost closed: bool)
    returns (next: nat, memory': nat, ghost tail: seq<nat>, ghost tailClosed: bool)
    requires ChainHolds(ram[..], pages, es, closed) && page == pages[0] && |es| >= PAGE_SLOTS
    requires Ascending(pages, memory) && memory <= ram.Length <= WORD_MOD
    requires NeedsPage(pages, es) ==> memory + PAGE_SIZE <= ram.Length
    modifies ram
    ensures PageHolds(ram[..], page, es[..PAGE_SLOTS], closed) && WordAt(ram[..], page + NEXT_AT) == next
    ensures ChainHolds(ram[..], tail, es[PAGE_SLOTS..], tailClosed) && next == tail[0]
    ensures tail == TailOf(pages, es, memory)
    ensures memory' == if |es| == PAGE_SLOTS then memory + PAGE_SIZE else memory
    ensures OnlyPages(old(ram[..]), ram[..], [page], memory, memory')
  {
    ghost var was := ram[..];
    next := LoadWord(ram, page + NEXT_AT);
    memory', tail, tailClosed := memory, pages[1..], closed;
    if next == 0 {
      next := memory;
      LinkNewPage(ram, page, next);
      assert es[..PAGE_SLOTS] == es;
      PageKept(was, ram[..], page, es, closed);
      memory', tail, tailClosed := memory + PAGE_SIZE, [memory], false;
    }
  }

  lemma PageUntouched(m: Mem, m': Mem, page: nat, tail: seq<nat>, lo: nat, hi: nat)
    requires OnlyPages(m, m', tail, lo, hi) && page + PAGE_SIZE <= lo
    requires forall j | 0 <= j < |tail| :: page + PAGE_SIZE <= tail[j]
    ensures Agree(m, m', page, page + PAGE_SIZE)
  {
  }

  /** First the head page or a new page changed, then the pages behind it. */
  lemma OnlyPagesJoin(m: Mem, m1: Mem, m2: Mem, pages: seq<nat>, tail: seq<nat>, lo: nat, mid: nat, hi: nat)
    requires pages != [] && lo <= mid <= hi
    requires OnlyPages(m, m1, [pages[0]], lo, mid) && OnlyPages(m1, m2, tail, mid, hi)
    requires tail == pages[1..] || (tail == [lo] && mid == lo + PAGE_SIZE)
    ensures OnlyPages(m, m2, pages, lo, hi)
  {
    forall a | 0 <= a < |m| && !(lo <= a < hi) && !InPages(pages, a)
      ensures m2[a] == m[a]
    {
      assert !InPages([pages[0]], a) by {
        assert !(pages[0] <= a < pages[0] + PAGE_SIZE);
      }
    }
  }

  lemma TailAscends(pages: seq<nat>, memory: nat, es: seq<Entry>)
    requires pages != [] && Ascending(pages, memory) && (|es| == PAGE_SLOTS ==> |pages| == 1)
    ensures Ascending(TailOf(pages, es, memory), if |es| == PAGE_SLOTS then memory + PAGE_SIZE else memory)
    ensures forall j | 0 <= j < |TailOf(pages, es, memory)| :: pages[0] + PAGE_SIZE <= TailOf(pages, es, memory)[j]
  {
  }

  /** The bump pointer after the call. */
  function BumpAfter(pages: seq<nat>, es: seq<Entry>, memory: nat): nat {
    if |es| == PAGE_SLOTS * |pages| then memory + PAGE_SIZE else memory
  }

  /** What adding a name does to the chain. */
  ghost predicate Added(m: Mem, m': Mem, pages: seq<nat>, pages': seq<nat>, es: seq<Entry>, e: Entry, memory: nat) {
    && ChainHolds(m', pages', es + [e], true)
    && Extends(pages, pages', NeedsPage(pages, es), memory)
    && OnlyPages(m, m', pages, memory, BumpAfter(pages, es, memory))
  }

  /** addNameToPage, with the bump pointer as an in- and out-parameter. */
  method AddNameToPage(ram: array<byte>, memory: nat, page: nat, index: nat, e: Entry,
                       ghost pages: seq<nat>, ghost es: seq<Entry>, ghost closed: bool)
    returns (memory': nat, ghost pages': seq<nat>)
    requires ChainHolds(ram[..], pages, es, closed) && page == pages[0] && index == |es|
    requires |e.name| == NAME_SIZE
    requires Ascending(pages, memory) && memory <= ram.Length <= WORD_MOD
    requires BumpAfter(pages, es, memory) <= ram.Length
    modifies ram
    ensures Added(old(ram[..]), ram[..], pages, pages', es, e, memory)
    ensures memory' == BumpAfter(pages, es, memory)
    decreases index
  {
    if index > 13 {
      memory', pages' := AddBehind(ram, memory, page, index, e, pages, es, closed);
    } else {
      WriteEntry(ram, page, index, e, es);
      memory', pages' := memory, pages;
    }
  }

  method AddBehind(ram: array<byte>, memory: nat, page: nat, index: nat, e: Entry,
                   ghost pages: seq<nat>, ghost es: seq<Entry>, ghost closed: bool)
    returns (memory': nat, ghost pages': seq<nat>)
    requires ChainHolds(ram[..], pages, es, closed) && page == pages[0] && index == |es| > 13
    requires |e.name| == NAME_SIZE
    requires Ascending(pages, memory) && memory <= ram.Length <= WORD_MOD
    requires BumpAfter(pages, es, memory) <= ram.Length
    modifies ram
    ensures Added(old(ram[..]), ram[..], pages, pages', es, e, memory)
    ensures memory' == BumpAfter(pages, es, memory)
    decreases index, 0
  {
    ghost var was := ram[..];
    var next, memory1; ghost var tail, tailClosed;
    next, memory1, tail, tailClosed := NextPage(ram, memory, page, pages, es, closed);
    ghost var mid := ram[..];
    TailAscends(pages, memory, es);
    ghost var tail';
    memory', tail' := AddNameToPage(ram, memory1, next, index - 14, e, tail, es[PAGE_SLOTS..], tailClosed);
    pages' := [page] + tail';
    BehindDone(was, mid, ram[..], pages, tail, tail', memory, memory1, es, e, closed);
  }

  lemma BehindDone(m: Mem, m1: Mem, m2: Mem, pages: seq<nat>, tail: seq<nat>, tail': seq<nat>,
                   memory: nat, memory1: nat, es: seq<Entry>, e: Entry, closed: bool)
    requires |es| >= PAGE_SLOTS && pages != [] && pages[0] != 0 && Ascending(pages, memory)
    requires tail == TailOf(pages, es, memory) && tail != [] && (|es| == PAGE_SLOTS ==> |pages| == 1)
    requires memory1 == if |es| == PAGE_SLOTS then memory + PAGE_SIZE else memory
    requires OnlyPages(m, m1, [pages[0]], memory, memory1)
    requires PageHolds(m1, pages[0], es[..PAGE_SLOTS], closed)
    requires WordAt(m1, pages[0] + NEXT_AT) == tail[0]
    requires Added(m1, m2, tail, tail', es[PAGE_SLOTS..], e, memory1)
    ensures Added(m, m2, pages, [pages[0]] + tail', es, e, memory)
  {
    TailAscends(pages, memory, es);
    var hi := BumpAfter(tail, es[PAGE_SLOTS..], memory1);
    BehindChain(m1, m2, pages[0], tail, tail', memory1, hi, es, e, closed);
    BehindPages(pages, tail, tail', es, memory, memory1);
    OnlyPagesJoin(m, m1, m2, pages, tail, memory, memory1, hi);
  }

  lemma BehindPages(pages: seq<nat>, tail: seq<nat>, tail': seq<nat>, es: seq<Entry>, memory: nat, memory1: nat)
    requires |es| >= PAGE_SLOTS && pages != [] && (|es| == PAGE_SLOTS ==> |pages| == 1)
    requires tail == TailOf(pages, es, memory)
    requires memory1 == if |es| == PAGE_SLOTS then memory + PAGE_SIZE else memory
    requires Extends(tail, tail', NeedsPage(tail, es[PAGE_SLOTS..]), memory1)
    ensures Extends(pages, [pages[0]] + tail', NeedsPage(pages, es), memory)
    ensures BumpAfter(tail, es[PAGE_SLOTS..], memory1) == BumpAfter(pages, es, memory)
  {
    assert NeedsPage(pages, es) <==> |es| == PAGE_SLOTS || NeedsPage(tail, es[PAGE_SLOTS..]);
  }

  lemma BehindChain(m: Mem, m': Mem, page: nat, tail: seq<nat>, tail': seq<nat>, lo: nat, hi: nat,
                    es: seq<Entry>, e: Entry, closed: bool)
    requires |es| >= PAGE_SLOTS && page != 0 && page + PAGE_SIZE <= lo
    requires forall j | 0 <= j < |tail| :: page + PAGE_SIZE <= tail[j]
    requires PageHolds(m, page, es[..PAGE_SLOTS], closed) && OnlyPages(m, m', tail, lo, hi)
    requires tail != [] && tail' != [] && WordAt(m, page + NEXT_AT) == tail[0] == tail'[0]
    requires ChainHolds(m', tail', es[PAGE_SLOTS..] + [e], true)
    ensures ChainHolds(m', [page] + tail', es + [e], true)
  {
    HeadKept(m, m', page, tail, lo, hi, es, closed);
    ChainFrom(m', page, tail', es, e, closed);
  }

  lemma HeadKept(m: Mem, m': Mem, page: nat, tail: seq<nat>, lo: nat, hi: nat, es: seq<Entry>, closed: bool)
    requires |es| >= PAGE_SLOTS && PageHolds(m, page, es[..PAGE_SLOTS], closed)
    requires OnlyPages(m, m', tail, lo, hi) && page + PAGE_SIZE <= lo
    requires forall j | 0 <= j < |tail| :: page + PAGE_SIZE <= tail[j]
    ensures PageHolds(m', page, es[..PAGE_SLOTS], closed)
    ensures WordAt(m', page + NEXT_AT) == WordAt(m, page + NEXT_AT)
  {
    PageUntouched(m, m', page, tail, lo, hi);
    PageKept(m, m', page, es[..PAGE_SLOTS], closed);
    NextKept(m, m', page);
  }

  /** 14 names to a page, the last page never empty but when there is no name. */
  lemma {:induction false} PageCount(m: Mem, pages: seq<nat>, es: seq<Entry>, closed: bool)
    requires ChainHolds(m, pages, es, closed)
    ensures PAGE_SLOTS * (|pages| - 1) <= |es| <= PAGE_SLOTS * |pages|
    ensures |pages| > 1 ==> PAGE_SLOTS * (|pages| - 1) < |es|
    decreases |pages|
  {
    if |es| > PAGE_SLOTS {
      PageCount(m, pages[1..], es[PAGE_SLOTS..], closed);
    }
  }

  // ----- walking the pages

  /** What slot i of the first page of a chain holds. */
  lemma SlotOfChain(m: Mem, pages: seq<nat>, es: seq<Entry>, i: nat)
    requires ChainHolds(m, pages, es, true) && i < PAGE_SLOTS && i <= |es|
    ensures SlotAddr(pages[0], i) + SLOT_SIZE <= |m|
    ensures i < |es| ==> SlotHolds(m, SlotAddr(pages[0], i), es[i])
    ensures i < |es| ==> m[SlotAddr(pages[0], i)] == es[i].name[0]
    ensures i == |es| ==> m[SlotAddr(pages[0], i)] == 0
  {
    if i < |es| {
      var head := if |es| <= PAGE_SLOTS then es else es[..PAGE_SLOTS];
      var q := SlotAddr(pages[0], i);
      assert SlotHolds(m, q, head[i]);
      assert m[q] == m[q..q + NAME_SIZE][0];
    }
  }

  /** Where a full first page leads. */
  lemma NextOfChain(m: Mem, pages: seq<nat>, es: seq<Entry>)
    requires ChainHolds(m, pages, es, true)
    ensures WordAt(m, pages[0] + NEXT_AT) == 0 <==> |es| <= PAGE_SLOTS
    ensures |es| > PAGE_SLOTS ==> WordAt(m, pages[0] + NEXT_AT) == pages[1]
    ensures |es| > PAGE_SLOTS ==> ChainHolds(m, pages[1..], es[PAGE_SLOTS..], true)
  {
    if |es| > PAGE_SLOTS {
      assert ChainHolds(m, pages[1..], es[PAGE_SLOTS..], true);
    }
  }

  /** Name i is in slot i % 14 of page i / 14: 32 bytes, and behind them the address of the data page. */
  lemma {:induction false} EntryPlace(m: Mem, pages: seq<nat>, es: seq<Entry>, i: nat)
    requires ChainHolds(m, pages, es, true) && i < |es|
    ensures i / 14 < |pages| && pages[i / 14] + 36 * (i % 14) + 36 <= |m|
    ensures var q := pages[i / 14] + 36 * (i % 14);
            m[q..q + 32] == es[i].name && WordAt(m, q + 32) == es[i].data
    decreases |pages|
  {
    if i < 14 {
      SlotOfChain(m, pages, es, i);
    } else {
      NextOfChain(m, pages, es);
      EntryPlace(m, pages[1..], es[PAGE_SLOTS..], i - 14);
    }
  }

  /** The word at 504 of each page is the address of the next, and 0 in the last. */
  lemma {:induction false} PageLinks(m: Mem, pages: seq<nat>, es: seq<Entry>, k: nat)
    requires ChainHolds(m, pages, es, true) && k < |pages|
    ensures pages[k] + 512 <= |m|
    ensures WordAt(m, pages[k] + 504) == if k == |pages| - 1 then 0 else pages[k + 1]
    decreases |pages|
  {
    NextOfChain(m, pages, es);
    if k > 0 {
      PageLinks(m, pages[1..], es[PAGE_SLOTS..], k - 1);
    }
  }
}
