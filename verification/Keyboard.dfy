/** The keyboard driver: scan codes become key events in a ring of 64, from which
    modules take them. Nothing checks whether the ring is full. */
module Keyboard {
  import opened Ram

  const SIZE: nat := 64

  // ----- events

  function MakeKeyEvent(ascii: byte, scancode: byte, mods: byte, flags: byte): word {
    ascii as int + 0x100 * scancode as int + 0x1_0000 * mods as int + 0x100_0000 * flags as int
  }

  /** No two different key presses make the same event. */
  lemma EventsDiffer(a: byte, s: byte, m: byte, f: byte, a': byte, s': byte, m': byte, f': byte)
    requires MakeKeyEvent(a, s, m, f) == MakeKeyEvent(a', s', m', f')
    ensures a == a' && s == s' && m == m' && f == f'
  {
    var high, high' := m as int + 0x100 * f as int, m' as int + 0x100 * f' as int;
    LowByte(a, s as int + 0x100 * high, a', s' as int + 0x100 * high');
    LowByte(s, high, s', high');
    LowByte(m, f, m', f');
  }

  lemma LowByte(a: byte, x: int, a': byte, x': int)
    requires a as int + 0x100 * x == a' as int + 0x100 * x'
    ensures a == a' && x == x'
  {
  }

  /** The shift key: left is 42, right is 54. */
  function ShiftAfter(shift: bool, scancode: byte): bool {
    var sc := scancode % 0x80;
    if sc == 42 || sc == 54 then scancode < 0x80 else shift
  }

  /** The event for a scan code, given the two key tables. */
  function EventOf(keyMap: byte -> byte, shiftMap: byte -> byte, shift: bool, scancode: byte): word {
    var sc := scancode % 0x80;
    var held := ShiftAfter(shift, scancode);
    MakeKeyEvent(if held then shiftMap(sc) else keyMap(sc), sc,
                 if held then 1 else 0, if scancode >= 0x80 then 1 else 0)
  }

  /** Four bytes: the character, the scan code without its top bit, whether shift is held, and whether the
      key was released. */
  predicate EventShows(keyMap: byte -> byte, shiftMap: byte -> byte, held: bool, code: byte, event: word) {
    && event % 0x100 == (if held then shiftMap(code % 0x80) else keyMap(code % 0x80))
    && event / 0x100 % 0x100 == code % 0x80
    && event / 0x1_0000 % 0x100 == (if held then 1 else 0)
    && event / 0x100_0000 == (if code >= 0x80 then 1 else 0)
  }

  lemma FourBytes(a: byte, s: byte, m: byte, f: byte)
    ensures var e := MakeKeyEvent(a, s, m, f);
            e % 0x100 == a && e / 0x100 % 0x100 == s && e / 0x1_0000 % 0x100 == m && e / 0x100_0000 == f
  {
    var e, half := MakeKeyEvent(a, s, m, f), m as int + 0x100 * f as int;
    LowAndRest(a, s as int + 0x100 * half);
    LowAndRest(s, half);
    LowAndRest(m, f);
    assert e / 0x1_0000 == half;
    assert e / 0x100_0000 == f;
  }

  lemma LowAndRest(a: byte, x: int)
    ensures (a as int + 0x100 * x) % 0x100 == a && (a as int + 0x100 * x) / 0x100 == x
  {
  }

  lemma EventIs(keyMap: byte -> byte, shiftMap: byte -> byte, shift: bool, scancode: byte)
    ensures EventShows(keyMap, shiftMap, ShiftAfter(shift, scancode), scancode,
                       EventOf(keyMap, shiftMap, shift, scancode))
  {
    var sc, held := scancode % 0x80, ShiftAfter(shift, scancode);
    FourBytes(if held then shiftMap(sc) else keyMap(sc), sc, if held then 1 else 0, if scancode >= 0x80 then 1 else 0);
  }

  /** An event is 0, which is what a taker sees when there is none, only for scan code 0. */
  lemma EventIsZero(keyMap: byte -> byte, shiftMap: byte -> byte, shift: bool, scancode: byte)
    ensures EventOf(keyMap, shiftMap, shift, scancode) == 0 <==> scancode == 0 && !shift && keyMap(0) == 0
  {
    var sc: byte, held := scancode % 0x80, ShiftAfter(shift, scancode);
    assert sc == if scancode < 0x80 then scancode else scancode - 0x80;
    var ascii, mods: byte, flags: byte :=
      if held then shiftMap(sc) else keyMap(sc), if held then 1 else 0, if scancode >= 0x80 then 1 else 0;
    assert EventOf(keyMap, shiftMap, shift, scancode) == MakeKeyEvent(ascii, sc, mods, flags);
    ZeroEvent(ascii, sc, mods, flags);
  }

  lemma ZeroEvent(a: byte, s: byte, m: byte, f: byte)
    ensures MakeKeyEvent(a, s, m, f) == 0 <==> a == 0 && s == 0 && m == 0 && f == 0
  {
  }

  /** Shift is held exactly when the last shift key to move went down, whatever else was typed. */
  function ShiftRun(shift: bool, codes: seq<byte>): bool {
    if codes == [] then shift else ShiftAfter(ShiftRun(shift, codes[..|codes| - 1]), codes[|codes| - 1])
  }

  predicate IsShift(code: byte) { code % 0x80 == 42 || code % 0x80 == 54 }

  lemma {:induction false} LastShiftDecides(codes: seq<byte>, i: nat)
    requires i < |codes| && IsShift(codes[i]) && forall j | i < j < |codes| :: !IsShift(codes[j])
    ensures ShiftRun(false, codes) <==> codes[i] < 0x80
    decreases |codes|
  {
    if i < |codes| - 1 {
      LastShiftDecides(codes[..|codes| - 1], i);
    }
  }

  /** Scan code number i is that of a shift key, and there is none after it. */
  predicate LastShift(codes: seq<byte>, i: nat) {
    i < |codes| && IsShift(codes[i]) && forall j | i < j < |codes| :: !IsShift(codes[j])
  }

  /** So it is held exactly if some shift key has moved, and the last one that did went down. */
  lemma HeldIff(codes: seq<byte>)
    ensures ShiftRun(false, codes) <==> exists i: nat :: LastShift(codes, i) && codes[i] < 0x80
  {
    if forall j | 0 <= j < |codes| :: !IsShift(codes[j]) {
      NoShiftYet(codes);
    } else {
      var i := FindLastShift(codes);
      LastShiftDecides(codes, i);
    }
  }

  lemma {:induction false} FindLastShift(codes: seq<byte>) returns (i: nat)
    requires exists j :: 0 <= j < |codes| && IsShift(codes[j])
    ensures LastShift(codes, i)
    decreases |codes|
  {
    i := |codes| - 1;
    if !IsShift(codes[i]) {
      var j :| 0 <= j < |codes| && IsShift(codes[j]);
      assert IsShift(codes[..i][j]);
      i := FindLastShift(codes[..i]);
    }
  }

  lemma {:induction false} NoShiftYet(codes: seq<byte>)
    requires forall j | 0 <= j < |codes| :: !IsShift(codes[j])
    ensures !ShiftRun(false, codes)
  {
    if codes != [] {
      NoShiftYet(codes[..|codes| - 1]);
    }
  }

  /** The events are those of the scan codes, one for each. */
  ghost predicate Typed(keyMap: byte -> byte, shiftMap: byte -> byte, codes: seq<byte>, events: seq<word>) {
    && |events| == |codes|
    && forall i | 0 <= i < |codes| :: TypedAt(keyMap, shiftMap, codes, i, events[i])
  }

  /** Event number i: shift counts as it is after that scan code. */
  ghost predicate TypedAt(keyMap: byte -> byte, shiftMap: byte -> byte, codes: seq<byte>, i: nat, event: word)
    requires i < |codes|
  {
    EventShows(keyMap, shiftMap, ShiftRun(false, codes[..i + 1]), codes[i], event)
  }

  lemma TypeOne(keyMap: byte -> byte, shiftMap: byte -> byte, codes: seq<byte>, events: seq<word>, code: byte)
    requires Typed(keyMap, shiftMap, codes, events)
    ensures ShiftRun(false, codes + [code]) == ShiftAfter(ShiftRun(false, codes), code)
    ensures Typed(keyMap, shiftMap, codes + [code],
                  events + [EventOf(keyMap, shiftMap, ShiftRun(false, codes), code)])
  {
    var codes', events' := codes + [code], events + [EventOf(keyMap, shiftMap, ShiftRun(false, codes), code)];
    assert codes'[..|codes|] == codes && codes'[..|codes| + 1] == codes';
    EventIs(keyMap, shiftMap, ShiftRun(false, codes), code);
    forall i | 0 <= i < |codes'|
      ensures TypedAt(keyMap, shiftMap, codes', i, events'[i])
    {
      if i < |codes| {
        assert TypedAt(keyMap, shiftMap, codes, i, events[i]);
        assert codes'[..i + 1] == codes[..i + 1];
      }
    }
  }

  // ----- the ring, run by run

  /** The ring with the numbers of events in its slots, all events ever pushed, the numbers of those
      delivered, and how often head has caught up with tail. */
  datatype Ring = Ring(slots: seq<nat>, head: nat, tail: nat, pushed: seq<word>, taken: seq<nat>, laps: nat)

  function Unused(): (slots: seq<nat>)
    ensures |slots| == SIZE
  {
    seq(SIZE, i => 0)
  }

  function Empty(): Ring { Ring(Unused(), 0, 0, [], [], 0) }

  datatype Op = Push(event: word) | Take

  ghost predicate InRange(r: Ring) { |r.slots| == SIZE && r.head < SIZE && r.tail < SIZE }

  /** Nothing here looks at the history: the next slot is written, or the oldest one read if there is one. */
  function Next(r: Ring, op: Op): (r': Ring)
    requires InRange(r)
    ensures InRange(r')
  {
    match op
    case Push(e) =>
      var head := (r.head + 1) % SIZE;
      Ring(r.slots[r.head := |r.pushed|], head, r.tail, r.pushed + [e], r.taken,
           if head == r.tail then r.laps + 1 else r.laps)
    case Take =>
      if r.head == r.tail then r
      else r.(taken := r.taken + [r.slots[r.tail]], tail := (r.tail + 1) % SIZE)
  }

  function Run(ops: seq<Op>): (r: Ring)
    ensures InRange(r)
  {
    if ops == [] then Empty() else Next(Run(ops[..|ops| - 1]), ops[|ops| - 1])
  }

  /** How many events a taker could still get. */
  function Seen(r: Ring): nat { (r.head - r.tail) % SIZE }

  /** Every event pushed was delivered, or can still be, or is among those lost when head caught up. */
  ghost predicate Conserved(r: Ring) {
    |r.pushed| == |r.taken| + Seen(r) + SIZE * r.laps
  }

  /** A multiple of the size of the ring. */
  predicate Laps(n: int) { n % SIZE == 0 }

  ghost predicate TakenInOrder(r: Ring) {
    && (forall j | 0 <= j < |r.taken| :: j <= r.taken[j] < |r.pushed| && r.taken[j] <= j + SIZE * r.laps)
    && (forall i, j | 0 <= i < j < |r.taken| :: r.taken[i] < r.taken[j])
    && (forall j | 0 <= j < |r.taken| :: Laps(r.taken[j] - j))
  }

  /** Slot of event number i. */
  function SlotOf(i: int): nat { i % SIZE }

  /** The last 64 events are where they were put. */
  ghost predicate Kept(r: Ring) {
    |r.slots| == SIZE
    && forall i {:trigger SlotOf(i)} | |r.pushed| - SIZE <= i < |r.pushed| && 0 <= i :: r.slots[SlotOf(i)] == i
  }

  ghost predicate Reached(r: Ring) {
    && InRange(r) && r.head == SlotOf(|r.pushed|) && r.tail == SlotOf(|r.taken|)
    && Conserved(r) && TakenInOrder(r) && Kept(r)
  }

  lemma SlotsDiffer(i: int, n: int)
    requires i < n < i + SIZE
    ensures SlotOf(i) != SlotOf(n)
  {
  }

  lemma SlotNext(n: nat)
    ensures (SlotOf(n) + 1) % SIZE == SlotOf(n + 1)
  {
  }

  lemma FirstRound(n: nat)
    ensures n < SIZE ==> SlotOf(n) == n
  {
  }

  lemma SlotLaps(n: nat, laps: nat)
    ensures SlotOf(n + SIZE * laps) == SlotOf(n)
  {
  }

  lemma KeptPush(r: Ring, e: word)
    requires Reached(r)
    ensures Kept(Next(r, Push(e)))
  {
    var n, r' := |r.pushed|, Next(r, Push(e));
    forall i {:trigger SlotOf(i)} | n + 1 - SIZE <= i < n + 1 && 0 <= i
      ensures r'.slots[SlotOf(i)] == i
    {
      if i < n {
        SlotsDiffer(i, n);
      }
    }
  }

  /** Counting and stepping on the circle. */
  lemma Circle(h: nat, t: nat)
    requires h < SIZE && t < SIZE
    ensures (h - t) % SIZE == if h >= t then h - t else h - t + SIZE
    ensures (h + 1) % SIZE == if h == SIZE - 1 then 0 else h + 1
  {
  }

  /** Head catches up with tail exactly by a push onto 63 events that could still be taken. */
  lemma PushSeen(r: Ring, e: word)
    requires InRange(r)
    ensures Next(r, Push(e)).head == r.tail <==> Seen(r) == SIZE - 1
    ensures Seen(Next(r, Push(e))) == if Seen(r) == SIZE - 1 then 0 else Seen(r) + 1
  {
    Circle(r.head, r.tail);
    Circle(Next(r, Push(e)).head, r.tail);
  }

  lemma TakeSeen(r: Ring)
    requires InRange(r)
    ensures Seen(r) == 0 <==> r.head == r.tail
    ensures r.head != r.tail ==> Seen(Next(r, Take)) == Seen(r) - 1
  {
    Circle(r.head, r.tail);
    Circle(r.tail, 0);
    Circle(r.head, Next(r, Take).tail);
  }

  /** What the next taker gets is determined by how much was delivered and lost before. */
  lemma OldestIs(r: Ring)
    requires Reached(r) && Seen(r) > 0
    ensures r.slots[r.tail] == |r.taken| + SIZE * r.laps < |r.pushed|
  {
    var i := |r.taken| + SIZE * r.laps;
    SlotLaps(|r.taken|, r.laps);
    assert r.slots[SlotOf(i)] == i;
  }

  lemma TailUsed(r: Ring)
    requires Reached(r) && Seen(r) > 0
    ensures r.tail < |r.pushed|
  {
  }

  lemma LapsAre(n: nat, laps: nat)
    ensures Laps(n + SIZE * laps - n)
  {
  }

  lemma NextReached(r: Ring, op: Op)
    requires Reached(r)
    ensures Reached(Next(r, op))
  {
    match op
    case Push(e) => PushReached(r, e);
    case Take => TakeReached(r);
  }

  lemma PushReached(r: Ring, e: word)
    requires Reached(r)
    ensures Reached(Next(r, Push(e)))
  {
    KeptPush(r, e);
    PushSeen(r, e);
    SlotNext(|r.pushed|);
  }

  lemma TakeReached(r: Ring)
    requires Reached(r)
    ensures Reached(Next(r, Take))
  {
    TakeSeen(r);
    if r.head != r.tail {
      OldestIs(r);
      SlotNext(|r.taken|);
      LapsAre(|r.taken|, r.laps);
      TakenGrows(r);
    }
  }

  lemma TakenGrows(r: Ring)
    requires Reached(r) && r.head != r.tail
    requires r.slots[r.tail] == |r.taken| + SIZE * r.laps < |r.pushed| && Laps(r.slots[r.tail] - |r.taken|)
    ensures TakenInOrder(Next(r, Take))
  {
  }

  lemma StartReached()
    ensures Reached(Empty())
  {
  }

  lemma {:induction false} RunReached(ops: seq<Op>)
    ensures Reached(Run(ops))
  {
    if ops == [] {
      StartReached();
    } else {
      RunReached(ops[..|ops| - 1]);
      NextReached(Run(ops[..|ops| - 1]), ops[|ops| - 1]);
    }
  }

  /** In every run: pushed = delivered + the distance from tail to head + 64k with k the times head caught up
      with tail, nothing is delivered twice or out of order, and what is delivered as number j comes after a
      multiple of 64 lost events. */
  lemma RunConserves(ops: seq<Op>)
    ensures var r := Run(ops);
            && |r.pushed| - |r.taken| == (r.head - r.tail) % SIZE + SIZE * r.laps
            && TakenInOrder(r)
  {
    RunReached(ops);
  }

  lemma RunNext(ops: seq<Op>, op: Op)
    ensures Run(ops + [op]) == Next(Run(ops), op)
  {
    assert (ops + [op])[..|ops|] == ops;
  }

  lemma LostInLaps(r: Ring, j: nat)
    requires TakenInOrder(r) && j + 1 < |r.taken|
    ensures Laps(r.taken[j + 1] - r.taken[j] - 1)
  {
    var a, b := r.taken[j] - j, r.taken[j + 1] - (j + 1);
    assert Laps(a) && Laps(b);
    assert Laps(b - a);
  }

  /** Events pushed and not delivered after the first n operations. */
  function Pending(ops: seq<Op>, n: nat): int
    requires n <= |ops|
  {
    |Run(ops[..n]).pushed| - |Run(ops[..n]).taken|
  }

  lemma {:induction false} LapsGrow(ops: seq<Op>, n: nat)
    requires n <= |ops|
    ensures Run(ops[..n]).laps <= Run(ops).laps
    decreases |ops|
  {
    if n == |ops| {
      assert ops[..n] == ops;
    } else {
      LapsGrow(ops[..|ops| - 1], n);
      assert ops[..|ops| - 1][..n] == ops[..n];
    }
  }

  /** The ring is a first-in first-out queue exactly as long as never more than 63 events are pending. */
  lemma FifoIff(ops: seq<Op>)
    ensures Run(ops).laps == 0 <==> forall n | 0 <= n <= |ops| :: Pending(ops, n) < SIZE
    ensures Run(ops).laps == 0 ==> forall j | 0 <= j < |Run(ops).taken| :: Run(ops).taken[j] == j
  {
    RunReached(ops);
    if Run(ops).laps == 0 {
      forall n | 0 <= n <= |ops|
        ensures Pending(ops, n) < SIZE
      {
        LapsGrow(ops, n);
        RunReached(ops[..n]);
      }
    } else {
      FirstLap(ops);
    }
  }

  /** The first overrun happens with 64 events pending. */
  lemma {:induction false} FirstLap(ops: seq<Op>)
    requires Run(ops).laps > 0
    ensures exists n :: 0 <= n <= |ops| && Pending(ops, n) >= SIZE
  {
    var last := ops[..|ops| - 1];
    if Run(last).laps == 0 {
      RunReached(ops);
      assert ops[..|ops|] == ops;
      assert Pending(ops, |ops|) >= SIZE;
    } else {
      FirstLap(last);
      var n :| 0 <= n <= |last| && Pending(last, n) >= SIZE;
      assert last[..n] == ops[..n];
      assert Pending(ops, n) >= SIZE;
    }
  }

  function Pushes(e: word, n: nat): seq<Op> { seq(n, i => Push(e)) }

  lemma {:induction false} AfterPushes(e: word, n: nat)
    requires n <= SIZE
    ensures |Run(Pushes(e, n)).pushed| == n && Run(Pushes(e, n)).taken == []
    ensures Seen(Run(Pushes(e, n))) == if n == SIZE then 0 else n
  {
    if n > 0 {
      assert Pushes(e, n)[..n - 1] == Pushes(e, n - 1);
      AfterPushes(e, n - 1);
      RunReached(Pushes(e, n - 1));
      PushSeen(Run(Pushes(e, n - 1)), e);
    }
  }

  /** Sixty-four key presses that nobody takes look like none at all. */
  lemma SixtyFourPushes(e: word)
    ensures var r := Run(Pushes(e, 64)); |r.pushed| == 64 && Seen(r) == 0 && Next(r, Take) == r
  {
    AfterPushes(e, 64);
    RunReached(Pushes(e, 64));
    TakeSeen(Run(Pushes(e, 64)));
  }

  // ----- the driver

  /** The slots that were used hold the events themselves. */
  ghost predicate Stored(buffer: seq<word>, r: Ring) {
    && |buffer| == |r.slots| == SIZE
    && forall s | 0 <= s < SIZE && s < |r.pushed| :: r.slots[s] < |r.pushed| && buffer[s] == r.pushed[r.slots[s]]
  }

  lemma StoredPush(buffer: seq<word>, r: Ring, e: word)
    requires Reached(r) && Stored(buffer, r)
    ensures Stored(buffer[r.head := e], Next(r, Push(e)))
  {
    FirstRound(|r.pushed|);
  }

  /** What one more push does to a run. */
  lemma PushEffect(buffer: seq<word>, ops: seq<Op>, e: word)
    requires Stored(buffer, Run(ops))
    ensures var r, r' := Run(ops), Run(ops + [Push(e)]);
            && r'.head == (r.head + 1) % SIZE && r'.tail == r.tail && r'.pushed == r.pushed + [e]
            && Stored(buffer[r.head := e], r')
  {
    RunReached(ops);
    StoredPush(buffer, Run(ops), e);
    RunNext(ops, Push(e));
  }

  /** What one more take does to a run. */
  lemma TakeEffect(ops: seq<Op>)
    ensures var r, r' := Run(ops), Run(ops + [Take]);
            && (Seen(r) == 0 <==> r.head == r.tail)
            && r'.slots == r.slots && r'.pushed == r.pushed && r'.head == r.head
            && r'.tail == (if r.head == r.tail then r.tail else (r.tail + 1) % SIZE)
            && (r.head != r.tail ==> r.tail < |r.pushed| && r.slots[r.tail] == |r.taken| + SIZE * r.laps < |r.pushed|)
  {
    var r := Run(ops);
    RunReached(ops);
    RunNext(ops, Take);
    TakeSeen(r);
    if r.head != r.tail {
      OldestIs(r);
      TailUsed(r);
    }
  }

  class Keyboard {
    const keyMap: byte -> byte
    const shiftMap: byte -> byte
    const buffer: array<word>
    var head: nat
    var tail: nat
    var shift: bool
    ghost var ops: seq<Op>
    ghost var codes: seq<byte>

    /** The ring stands where the operations so far lead. */
    ghost predicate RingOk()
      reads this, buffer
    {
      var r := Run(ops);
      buffer.Length == SIZE && head == r.head && tail == r.tail && Stored(buffer[..], r)
    }

    /** And the events pushed are those of the scan codes so far. */
    ghost predicate Valid()
      reads this, buffer
    {
      RingOk() && shift == ShiftRun(false, codes) && Typed(keyMap, shiftMap, codes, Run(ops).pushed)
    }

    constructor (keyMap: byte -> byte, shiftMap: byte -> byte)
      ensures Valid() && fresh(buffer) && ops == [] && codes == []
      ensures this.keyMap == keyMap && this.shiftMap == shiftMap
    {
      this.keyMap, this.shiftMap := keyMap, shiftMap;
      buffer := new word[64];
      head, tail, shift := 0, 0, false;
      ops, codes := [], [];
    }

    /** Whatever was typed and taken: the events between tail and head, and whole laps, are all that was
        pushed and not delivered. */
    lemma RingConserves()
      requires Valid()
      ensures |Run(ops).pushed| - |Run(ops).taken| == (head - tail) % SIZE + SIZE * Run(ops).laps
      ensures head == |Run(ops).pushed| % SIZE && tail == |Run(ops).taken| % SIZE
    {
      RunReached(ops);
      RunConserves(ops);
    }

    method InterruptHandler(scancode: byte)
      requires Valid()
      modifies this, buffer
      ensures Valid() && codes == old(codes) + [scancode]
      ensures |ops| == |old(ops)| + 1 && ops[..|ops| - 1] == old(ops) && ops[|ops| - 1].Push?
      ensures EventShows(keyMap, shiftMap, shift, scancode, ops[|ops| - 1].event)
      ensures shift == if scancode % 0x80 == 42 || scancode % 0x80 == 54 then scancode < 0x80 else old(shift)
    {
      TypeOne(keyMap, shiftMap, codes, Run(ops).pushed, scancode);
      EventIs(keyMap, shiftMap, shift, scancode);
      var released := scancode >= 0x80;
      var sc := scancode % 0x80;
      if sc == 42 || sc == 54 {
        shift := !released;
      }
      var ascii := if shift then shiftMap(sc) else keyMap(sc);
      var mods := if shift then 1 else 0;
      var flags := if released then 1 else 0;
      Store(MakeKeyEvent(ascii, sc, mods, flags));
      codes := codes + [scancode];
    }

    /** Puts the event into the next slot, whether or not that is free. */
    method Store(key: word)
      requires RingOk()
      modifies this`head, this`ops, buffer
      ensures RingOk() && ops == old(ops) + [Push(key)] && Run(ops).pushed == Run(old(ops)).pushed + [key]
    {
      PushEffect(buffer[..], ops, key);
      buffer[head] := key;
      head := (head + 1) % 64;
      ops := ops + [Push(key)];
    }

    /** The next event, 0 if there is none: the one whose number is the events delivered before, and 64
        for every time the ring was overrun; and so the event of the scan code with that number. */
    method GetKey() returns (output: word)
      requires Valid()
      modifies this`tail, this`ops
      ensures Valid() && ops == old(ops) + [Take]
      ensures var r := Run(old(ops));
              var n := |r.taken| + SIZE * r.laps;
              if Seen(r) == 0 then output == 0
              else n < |codes| == |r.pushed| && output == r.pushed[n] && TypedAt(keyMap, shiftMap, codes, n, output)
    {
      output := Fetch();
    }

    /** The event at tail. */
    method Fetch() returns (output: word)
      requires RingOk()
      modifies this`tail, this`ops
      ensures RingOk() && ops == old(ops) + [Take] && Run(ops).pushed == Run(old(ops)).pushed
      ensures var r := Run(old(ops));
              var n := |r.taken| + SIZE * r.laps;
              if Seen(r) == 0 then output == 0 else n < |r.pushed| && output == r.pushed[n]
    {
      TakeEffect(ops);
      ops := ops + [Take];
      if head == tail {
        output := 0;
      } else {
        output := buffer[tail];
        tail := (tail + 1) % 64;
      }
    }

    method IsThereData() returns (output: word)
      requires Valid()
      ensures output == if Seen(Run(ops)) == 0 then 0 else 1
    {
      TakeSeen(Run(ops));
      if head == tail {
        output := 0;
      } else {
        output := 1;
      }
    }
  }
}
