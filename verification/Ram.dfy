/** Physical memory of the 32-bit machine: bytes, and the little-endian
    halfwords and words that C structs are made of. */
module Ram {

  type byte = x: int | 0 <= x < 0x100
  type word = x: int | 0 <= x < 0x1_0000_0000

  const WORD_MOD := 0x1_0000_0000

  /** A snapshot of memory. */
  type Mem = seq<byte>

  function HalfAt(m: Mem, p: nat): (r: nat)
    requires p + 2 <= |m|
    ensures r < 0x1_0000
  {
    m[p] as int + 0x100 * m[p + 1] as int
  }

  function WordAt(m: Mem, p: nat): word
    requires p + 4 <= |m|
  {
    m[p] as int + 0x100 * m[p + 1] as int + 0x1_0000 * m[p + 2] as int + 0x100_0000 * m[p + 3] as int
  }

  /** The two snapshots have the same bytes at lo <= i < hi. */
  ghost predicate Agree(m: Mem, m': Mem, lo: int, hi: int)
  {
    |m| == |m'| && forall i | 0 <= i < |m| && lo <= i < hi :: m'[i] == m[i]
  }

  /** The two snapshots differ at most at lo <= i < hi. */
  ghost predicate SameOutside(m: Mem, m': Mem, lo: int, hi: int)
  {
    |m| == |m'| && forall i | 0 <= i < |m| && !(lo <= i < hi) :: m'[i] == m[i]
  }

  /** The n bytes of m at p are those of src at q. */
  ghost predicate Copied(src: Mem, q: nat, m: Mem, p: nat, n: nat) {
    q + n <= |src| && p + n <= |m| && forall a | p <= a < p + n :: m[a] == src[q + (a - p)]
  }

  lemma SameOutsideTrans(m: Mem, m': Mem, m'': Mem, lo: int, mid: int, hi: int)
    requires SameOutside(m, m', lo, mid) && SameOutside(m', m'', mid, hi) && lo <= mid <= hi
    ensures SameOutside(m, m'', lo, hi)
  {
  }

  lemma WordKept(m: Mem, m': Mem, p: nat, lo: int, hi: int)
    requires SameOutside(m, m', lo, hi)
    requires p + 4 <= |m| && (p + 4 <= lo || hi <= p)
    ensures WordAt(m', p) == WordAt(m, p)
  {
  }

  lemma ZeroBytes(m: Mem, p: nat)
    requires p + 4 <= |m| && WordAt(m, p) == 0
    ensures forall a | p <= a < p + 4 :: m[a] == 0
  {
  }

  lemma WordDigits(v: word)
    ensures v == v % 0x100 + 0x100 * (v / 0x100 % 0x100)
                 + 0x1_0000 * (v / 0x1_0000 % 0x100) + 0x100_0000 * (v / 0x100_0000)
  {
    var h := v / 0x100;
    var g := h / 0x100;
    assert v / 0x1_0000 == g && v / 0x100_0000 == g / 0x100;
  }

  /** A word in memory, the lowest byte first. */
  lemma LittleEndian(m: Mem, p: nat, v: word)
    requires p + 4 <= |m|
    ensures WordAt(m, p) == v <==>
            && m[p] == v % 0x100 && m[p + 1] == v / 0x100 % 0x100
            && m[p + 2] == v / 0x1_0000 % 0x100 && m[p + 3] == v / 0x100_0000
  {
    WordDigits(v);
    var half, upper := m[p] as int + 0x100 * m[p + 1] as int, m[p + 2] as int + 0x100 * m[p + 3] as int;
    if WordAt(m, p) == v {
      assert v / 0x1_0000 == upper && v % 0x1_0000 == half;
      assert v / 0x100 == m[p + 1] as int + 0x100 * upper;
    }
  }

  method StoreByte(ram: array<byte>, p: nat, v: byte)
    requires p < ram.Length
    modifies ram
    ensures ram[..][p] == v
    ensures SameOutside(old(ram[..]), ram[..], p, p + 1)
  {
    ram[p] := v;
  }

  method StoreHalf(ram: array<byte>, p: nat, v: nat)
    requires p + 2 <= ram.Length && v < 0x1_0000
    modifies ram
    ensures HalfAt(ram[..], p) == v
    ensures SameOutside(old(ram[..]), ram[..], p, p + 2)
  {
    ram[p] := v % 0x100;
    ram[p + 1] := v / 0x100;
  }

  method StoreWord(ram: array<byte>, p: nat, v: word)
    requires p + 4 <= ram.Length
    modifies ram
    ensures WordAt(ram[..], p) == v
    ensures SameOutside(old(ram[..]), ram[..], p, p + 4)
  {
    ram[p] := v % 0x100;
    ram[p + 1] := v / 0x100 % 0x100;
    ram[p + 2] := v / 0x1_0000 % 0x100;
    ram[p + 3] := v / 0x100_0000;
    WordDigits(v);
  }

  method StoreTwo(ram: array<byte>, p: nat, v: word, w: word)
    requires p + 8 <= ram.Length
    modifies ram
    ensures WordAt(ram[..], p) == v && WordAt(ram[..], p + 4) == w
    ensures SameOutside(old(ram[..]), ram[..], p, p + 8)
  {
    StoreWord(ram, p, v);
    ghost var mid := ram[..];
    StoreWord(ram, p + 4, w);
    WordKept(mid, ram[..], p, p + 4, p + 8);
  }

  method LoadByte(ram: array<byte>, p: nat) returns (v: byte)
    requires p < ram.Length
    ensures v == ram[..][p]
  {
    v := ram[p];
  }

  method LoadHalf(ram: array<byte>, p: nat) returns (v: nat)
    requires p + 2 <= ram.Length
    ensures v == HalfAt(ram[..], p)
  {
    v := ram[p] as int + 0x100 * ram[p + 1] as int;
  }

  method LoadWord(ram: array<byte>, p: nat) returns (v: word)
    requires p + 4 <= ram.Length
    ensures v == WordAt(ram[..], p)
  {
    v := ram[p] as int + 0x100 * ram[p + 1] as int + 0x1_0000 * ram[p + 2] as int + 0x100_0000 * ram[p + 3] as int;
  }

  /** Clears size words. */
  method ZeroWords(ram: array<byte>, data: nat, size: word)
    requires data + 4 * size as int <= ram.Length
    modifies ram
    ensures forall a | data <= a < data + 4 * size as int :: ram[a] == 0
    ensures SameOutside(old(ram[..]), ram[..], data, data + 4 * size as int)
  {
    ghost var m := ram[..];
    for s := 0 to size
      invariant forall a | data <= a < data + 4 * s :: ram[a] == 0
      invariant SameOutside(m, ram[..], data, data + 4 * s)
    {
      ghost var was := ram[..];
      StoreWord(ram, data + 4 * s, 0);
      SameOutsideTrans(m, was, ram[..], data, data + 4 * s, data + 4 * s + 4);
      ZeroBytes(ram[..], data + 4 * s);
    }
  }
}
