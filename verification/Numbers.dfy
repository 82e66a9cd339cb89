/** Numbers as text: decimal, hexadecimal and binary. */
module Numbers {
  import opened Ram

  const ZERO: byte := '0' as int
  const MINUS: byte := '-' as int
  const NUL: byte := 0

  // ----- what the text is

  function DigitChar(d: nat): byte
    requires d < 16
  {
    if d < 10 then ZERO + d else 'A' as int + (d - 10)
  }

  /** The digits of n, the most significant first; none for 0. */
  function Digits(n: nat, base: nat): (s: seq<byte>)
    requires 2 <= base <= 16
    ensures s == [] <==> n == 0
    decreases n
  {
    if n == 0 then []
    else
      Smaller(n, base);
      Digits(n / base, base) + [DigitChar(n % base)]
  }

  lemma Smaller(n: nat, base: nat)
    requires n > 0 && base >= 2
    ensures 0 <= n / base < n
  {
    assert n / base * base <= n;
  }

  function Zeros(k: nat): (s: seq<byte>)
    ensures |s| == k && forall i | 0 <= i < k :: s[i] == ZERO
  {
    seq(k, i => ZERO)
  }

  /** At least width digits. */
  function Padded(s: seq<byte>, width: nat): seq<byte> {
    Zeros(if |s| < width then width - |s| else 0) + s
  }

  function UnsignedText(n: nat): seq<byte> {
    if n == 0 then [ZERO] else Digits(n, 10)
  }

  function SignedText(v: int): seq<byte> {
    if v < 0 then [MINUS] + Digits(-v, 10) else UnsignedText(v)
  }

  /** Zero is one digit however wide the type. */
  function HexText(n: nat, width: nat): seq<byte> {
    if n == 0 then [ZERO] else Padded(Digits(n, 16), width)
  }

  function BinText(n: nat, width: nat): seq<byte> {
    Padded(Digits(n, 2), width)
  }

  // ----- reading it back

  function DigitValue(c: byte): int {
    if ZERO <= c < ZERO + 10 then c - ZERO else c - 'A' as int + 10
  }

  function Value(s: seq<byte>, base: nat): int {
    if s == [] then 0 else base * Value(s[..|s| - 1], base) + DigitValue(s[|s| - 1])
  }

  function ParseSigned(s: seq<byte>): int {
    if s != [] && s[0] == MINUS then -Value(s[1..], 10) else Value(s, 10)
  }

  lemma ValueSnoc(s: seq<byte>, c: byte, base: nat)
    ensures Value(s + [c], base) == base * Value(s, base) + DigitValue(c)
  {
    assert (s + [c])[..|s|] == s;
  }

  /** The first part of a numeral counts for as many powers of the base as there are digits behind it. */
  lemma {:induction false} PlaceValue(s: seq<byte>, t: seq<byte>, base: nat)
    ensures Value(s + t, base) == Value(s, base) * Power(base, |t|) + Value(t, base)
    decreases |t|
  {
    if t == [] {
      assert s + t == s;
    } else {
      var u, c := t[..|t| - 1], t[|t| - 1];
      assert s + t == (s + u) + [c];
      ValueSnoc(s + u, c, base);
      PlaceValue(s, u, base);
      OneMorePlace(base, Value(s, base), Power(base, |u|), Value(u, base));
    }
  }

  lemma OneMorePlace(b: int, x: int, p: int, y: int)
    ensures b * (x * p + y) == x * (b * p) + b * y
  {
  }

  lemma DigitBack(d: nat)
    requires d < 16
    ensures DigitValue(DigitChar(d)) == d
  {
  }

  lemma DivMod(n: nat, base: nat)
    requires base > 0
    ensures base * (n / base) + n % base == n && 0 <= n % base < base
  {
  }

  lemma {:induction false} DigitsValue(n: nat, base: nat)
    requires 2 <= base <= 16
    ensures Value(Digits(n, base), base) == n
    decreases n
  {
    if n > 0 {
      Smaller(n, base);
      var q, d := n / base, n % base;
      DivMod(n, base);
      DigitsValue(q, base);
      ValueSnoc(Digits(q, base), DigitChar(d), base);
      DigitBack(d);
    }
  }

  lemma {:induction false} ZerosValue(k: nat, s: seq<byte>, base: nat)
    ensures Value(Zeros(k) + s, base) == Value(s, base)
    decreases |s|, k
  {
    if s != [] {
      var t := s[..|s| - 1];
      assert Zeros(k) + s == (Zeros(k) + t) + [s[|s| - 1]];
      ValueSnoc(Zeros(k) + t, s[|s| - 1], base);
      ZerosValue(k, t, base);
    } else if k > 0 {
      assert Zeros(k) + s == Zeros(k - 1) + [] + [ZERO];
      ValueSnoc(Zeros(k - 1) + [], ZERO, base);
      ZerosValue(k - 1, [], base);
    }
  }

  /** Leading digits are not zeros, and every character is a digit of the base. */
  lemma {:induction false} DigitsProper(n: nat, base: nat)
    requires 2 <= base <= 16 && n > 0
    ensures Digits(n, base)[0] != ZERO
    ensures forall i | 0 <= i < |Digits(n, base)| :: 0 <= DigitValue(Digits(n, base)[i]) < base
    ensures forall i | 0 <= i < |Digits(n, base)| :: Digits(n, base)[i] !in {NUL, MINUS}
    decreases n
  {
    Smaller(n, base);
    if n / base > 0 {
      DigitsProper(n / base, base);
    } else {
      assert n % base == n;
    }
  }

  function Power(base: nat, k: nat): nat {
    if k == 0 then 1 else base * Power(base, k - 1)
  }

  lemma LessFactor(b: nat, x: nat, y: nat)
    requires b * x < b * y
    ensures x < y
  {
  }

  /** A number below base^k has at most k digits. */
  lemma {:induction false} DigitsFit(n: nat, base: nat, k: nat)
    requires 2 <= base <= 16 && n < Power(base, k)
    ensures |Digits(n, base)| <= k
    decreases n
  {
    if n > 0 {
      Smaller(n, base);
      DivMod(n, base);
      LessFactor(base, n / base, Power(base, k - 1));
      DigitsFit(n / base, base, k - 1);
    }
  }

  /** Decimal text reads back as the number, and has no superfluous zero. */
  lemma UnsignedRoundTrip(n: nat)
    ensures Value(UnsignedText(n), 10) == n
    ensures n != 0 ==> UnsignedText(n)[0] != ZERO
  {
    if n == 0 {
      ValueSnoc([], ZERO, 10);
      assert [] + [ZERO] == [ZERO];
    } else {
      DigitsValue(n, 10);
      DigitsProper(n, 10);
    }
  }

  lemma SignedRoundTrip(v: int)
    ensures ParseSigned(SignedText(v)) == v
    ensures SignedText(v)[0] == MINUS <==> v < 0
  {
    if v < 0 {
      DigitsValue(-v, 10);
      assert SignedText(v)[1..] == Digits(-v, 10);
    } else {
      UnsignedRoundTrip(v);
      if v > 0 {
        DigitsProper(v, 10);
      }
    }
  }

  lemma PaddedText(n: nat, base: nat, width: nat)
    requires 2 <= base <= 16 && n < Power(base, width)
    ensures Value(Padded(Digits(n, base), width), base) == n
    ensures |Padded(Digits(n, base), width)| == width
  {
    DigitsFit(n, base, width);
    DigitsValue(n, base);
    ZerosValue(width - |Digits(n, base)|, Digits(n, base), base);
  }

  /** Hexadecimal text reads back as the number; it has full width but for 0. */
  lemma HexRoundTrip(n: nat, width: nat)
    requires n < Power(16, width)
    ensures Value(HexText(n, width), 16) == n
    ensures |HexText(n, width)| == if n == 0 then 1 else width
  {
    if n == 0 {
      ValueSnoc([], ZERO, 16);
      assert [] + [ZERO] == [ZERO];
    } else {
      PaddedText(n, 16, width);
    }
  }

  lemma BinRoundTrip(n: nat, width: nat)
    requires n < Power(2, width)
    ensures Value(BinText(n, width), 2) == n && |BinText(n, width)| == width
  {
    PaddedText(n, 2, width);
  }

  /** Widths of the types the module converts. */
  lemma Widths()
    ensures Power(10, 10) > WORD_MOD
    ensures Power(16, 8) == WORD_MOD && Power(16, 4) == 0x1_0000 && Power(16, 2) == 0x100
    ensures Power(2, 32) == WORD_MOD && Power(2, 16) == 0x1_0000 && Power(2, 8) == 0x100
  {
    assert Power(16, 4) == 0x1_0000;
    assert Power(2, 8) == 0x100;
    assert Power(2, 16) == 0x1_0000;
    assert Power(2, 24) == 0x100_0000;
    assert Power(10, 5) == 100000;
  }

  // ----- the conversions

  function Rev(s: seq<byte>): (r: seq<byte>)
    ensures |r| == |s| && forall i | 0 <= i < |r| :: r[i] == s[|s| - 1 - i]
  {
    seq(|s|, i requires 0 <= i < |s| => s[|s| - 1 - i])
  }

  /** The buffer holds the text and its NUL, and nothing behind them changed. */
  ghost predicate BufferHolds(was: seq<byte>, now: seq<byte>, text: seq<byte>) {
    && |text| < |now| == |was|
    && now[..|text|] == text && now[|text|] == NUL
    && now[|text| + 1..] == was[|text| + 1..]
  }

  lemma RevSnoc(s: seq<byte>, c: byte)
    ensures Rev(s + [c]) == [c] + Rev(s)
  {
  }

  lemma Regroup(s: seq<byte>, c: byte, t: seq<byte>)
    ensures (s + [c]) + t == s + ([c] + t)
  {
  }

  /** num % base and num / base. */
  method DivideStep(n: nat, base: nat) returns (q: nat, d: nat)
    requires n > 0 && 2 <= base <= 16
    ensures q < n && d < base && Digits(n, base) == Digits(q, base) + [DigitChar(d)]
  {
    Smaller(n, base);
    DivMod(n, base);
    q, d := n / base, n % base;
  }

  /** The digits of a number, the least significant first. */
  method Extract(num: nat, base: nat, temp: array<byte>) returns (i: nat)
    requires 2 <= base <= 16 && |Digits(num, base)| <= temp.Length
    modifies temp
    ensures i == |Digits(num, base)| && Rev(temp[..i]) == Digits(num, base)
  {
    var n := num;
    i := 0;
    while n > 0
      invariant i + |Digits(n, base)| == |Digits(num, base)| && i <= temp.Length
      invariant Digits(n, base) + Rev(temp[..i]) == Digits(num, base)
      decreases n
    {
      ghost var was, rest := temp[..i], Digits(n, base);
      var d;
      n, d := DivideStep(n, base);
      temp[i] := DigitChar(d);
      assert temp[..i + 1] == was + [DigitChar(d)];
      RevSnoc(was, DigitChar(d));
      Regroup(Digits(n, base), DigitChar(d), Rev(was));
      i := i + 1;
    }
  }

  /** Copies the characters the other way round, and a NUL behind them. */
  method Deliver(temp: array<byte>, count: nat, buf: array<byte>) returns (j: nat)
    requires temp != buf && count <= temp.Length && count < buf.Length
    modifies buf
    ensures j == count && BufferHolds(old(buf[..]), buf[..], Rev(temp[..count]))
  {
    var i := count;
    j := 0;
    while i > 0
      invariant 0 <= i <= count && i + j == count
      invariant forall k | 0 <= k < j :: buf[k] == temp[count - 1 - k]
      invariant forall k | j <= k < buf.Length :: buf[k] == old(buf[k])
    {
      i := i - 1;
      buf[j] := temp[i];
      j := j + 1;
    }
    buf[j] := NUL;
    assert buf[..count] == Rev(temp[..count]);
  }

  method StoreZero(buf: array<byte>)
    requires buf.Length >= 2
    modifies buf
    ensures BufferHolds(old(buf[..]), buf[..], [ZERO])
  {
    buf[0] := ZERO;
    buf[1] := NUL;
  }

  lemma WordFits(num: word)
    ensures |Digits(num, 10)| <= 10 && |Digits(num, 16)| <= 8 && |Digits(num, 2)| <= 32
  {
    Widths();
    DigitsFit(num, 10, 10);
    DigitsFit(num, 16, 8);
    DigitsFit(num, 2, 32);
  }

  method NumToStrUnsigned(num: word, buf: array<byte>)
    requires |UnsignedText(num)| < buf.Length
    modifies buf
    ensures BufferHolds(old(buf[..]), buf[..], UnsignedText(num))
  {
    if num == 0 {
      StoreZero(buf);
      return;
    }
    var temp := new byte[32];
    WordFits(num);
    var i := Extract(num, 10, temp);
    var _ := Deliver(temp, i, buf);
  }

  // ----- signed numbers

  type int32 = x: int | -0x8000_0000 <= x < 0x8000_0000

  /** The same 32 bits without and with sign. */
  function AsWord(v: int32): word { v % WORD_MOD }

  function AsSigned(w: word): int32 { if w < 0x8000_0000 then w else w - WORD_MOD }

  /** num & size, for a mask of low bits. */
  function Masked(num: int32, size: word): int32 { AsSigned(num % (size + 1)) }

  predicate IsMask(size: word) { size == 0xFF || size == 0xFFFF || size == 0xFFFF_FFFF }

  /** The digits of the largest number with one added to the last, behind a minus. */
  function MinText(max: word): seq<byte>
    requires 0 < max && max % 10 < 9
  {
    var s := Digits(max, 10);
    [MINUS] + s[|s| - 1 := (s[|s| - 1] + 1) % 0x100]
  }

  /** It is the smallest number, for any maximum that does not end in 9. */
  lemma MinTextIs(max: word)
    requires 0 < max && max % 10 < 9
    ensures MinText(max) == SignedText(-(max + 1))
  {
    var q, d := max / 10, max % 10;
    assert (max + 1) / 10 == q && (max + 1) % 10 == d + 1;
    var s := Digits(max, 10);
    assert s == Digits(q, 10) + [ZERO + d];
    assert s[|s| - 1 := ZERO + d + 1] == Digits(q, 10) + [ZERO + d + 1];
  }

  /** The digits of num, behind a minus if sign. */
  function Signed(sign: bool, num: nat): seq<byte> {
    if sign then [MINUS] + Digits(num, 10) else Digits(num, 10)
  }

  method WriteSigned(sign: bool, num: word, buf: array<byte>) returns (j: nat)
    requires num > 0 && |Signed(sign, num)| < buf.Length
    modifies buf
    ensures j == |Signed(sign, num)| > 0 && BufferHolds(old(buf[..]), buf[..], Signed(sign, num))
  {
    var temp := new byte[32];
    var i := ExtractSigned(sign, num, temp);
    j := Deliver(temp, i, buf);
  }

  /** The digits, the least significant first, and then the sign. */
  method ExtractSigned(sign: bool, num: word, temp: array<byte>) returns (i: nat)
    requires num > 0 && temp.Length == 32
    modifies temp
    ensures i == |Signed(sign, num)| <= temp.Length && i > 0 && Rev(temp[..i]) == Signed(sign, num)
  {
    WordFits(num);
    i := Extract(num, 10, temp);
    if sign {
      ghost var digits := temp[..i];
      temp[i] := MINUS;
      i := i + 1;
      assert temp[..i] == digits + [MINUS];
      RevSnoc(digits, MINUS);
    }
  }

  /** The tests for the smallest number and for negative ones. */
  function SignedResult(num: int32, min: word, max: word): seq<byte>
    requires 0 < max && max % 10 < 9
  {
    if num != 0 && AsWord(num) == min then MinText(max) else SignedText(num)
  }

  method NumToStrSigned(number: int32, buf: array<byte>, min: word, max: word, size: word)
    requires IsMask(size) && 0 < max < 0x8000_0000 && max % 10 < 9
    requires size == 0xFFFF_FFFF ==> min == 0x8000_0000
    requires |SignedResult(Masked(number, size), min, max)| < buf.Length
    modifies buf
    ensures BufferHolds(old(buf[..]), buf[..], SignedResult(Masked(number, size), min, max))
  {
    var num: int := Masked(number, size);
    if num == 0 {
      StoreZero(buf);
      return;
    }
    var sign, add1, size' := SplitSign(num, min, max);
    ghost var was := buf[..];
    var j := WriteSigned(sign, size', buf);
    AddToLast(was, buf[..], Signed(sign, size'), add1);
    buf[j - 1] := (buf[j - 1] + add1) % 0x100;
  }

  /** text with add on its last character. */
  function Added(text: seq<byte>, add: nat): seq<byte>
    requires text != [] && add <= 1
  {
    text[|text| - 1 := (text[|text| - 1] + add) % 0x100]
  }

  method SplitSign(num: int32, min: word, max: word) returns (sign: bool, add1: nat, size: word)
    requires num != 0 && 0 < max && max % 10 < 9
    requires num == -0x8000_0000 ==> min == 0x8000_0000
    ensures size > 0 && add1 <= 1 && Added(Signed(sign, size), add1) == SignedResult(num, min, max)
  {
    sign, add1 := false, 0;
    if num % WORD_MOD == min {
      sign, add1, size := true, 1, max;
      var s := Digits(max, 10);
      assert ([MINUS] + s)[|s| := (s[|s| - 1] + 1) % 0x100] == [MINUS] + s[|s| - 1 := (s[|s| - 1] + 1) % 0x100];
    } else if num < 0 {
      sign, size := true, -num;
    } else {
      size := num;
    }
    if add1 == 0 {
      AddNothing(Signed(sign, size));
    }
  }

  lemma AddNothing(text: seq<byte>)
    requires text != []
    ensures Added(text, 0) == text
  {
  }

  lemma AddToLast(was: seq<byte>, now: seq<byte>, text: seq<byte>, add: nat)
    requires BufferHolds(was, now, text) && text != [] && add <= 1
    ensures now[|text| - 1] == text[|text| - 1]
    ensures BufferHolds(was, now[|text| - 1 := (text[|text| - 1] + add) % 0x100], Added(text, add))
  {
    var c := (text[|text| - 1] + add) % 0x100;
    assert now[..|text|][|text| - 1] == text[|text| - 1];
    assert now[|text| - 1 := c][..|text|] == now[..|text|][|text| - 1 := c];
  }

  // ----- by type

  datatype NumType = I32 | U32 | I16 | U16 | I8 | U8

  predicate IsSigned(t: NumType) { t == I32 || t == I16 || t == I8 }

  function Bits(t: NumType): nat {
    match t
    case I32 | U32 => 32
    case I16 | U16 => 16
    case I8 | U8 => 8
  }

  /** The bits of arg that the type has. */
  function Low(t: NumType, arg: word): (n: nat)
    ensures n < Power(2, Bits(t)) && n < Power(16, Bits(t) / 4)
  {
    Widths();
    match t
    case I32 | U32 => arg
    case I16 | U16 => arg % 0x1_0000
    case I8 | U8 => arg % 0x100
  }

  /** What a variable of the type holds after arg was stored in it. */
  function Stored(t: NumType, arg: word): (v: int)
    ensures if IsSigned(t) then -0x8000_0000 <= v < 0x8000_0000 else 0 <= v < WORD_MOD
  {
    match t
    case U32 | U16 | U8 => Low(t, arg)
    case I32 => AsSigned(arg)
    case I16 => if Low(t, arg) < 0x8000 then Low(t, arg) else Low(t, arg) - 0x1_0000
    case I8 => if Low(t, arg) < 0x80 then Low(t, arg) else Low(t, arg) - 0x100
  }

  /** The decimal text the module makes. */
  function DecimalText(t: NumType, arg: word): seq<byte> {
    if t == I32 then SignedText(AsSigned(arg)) else UnsignedText(Low(t, arg))
  }

  /** The hexadecimal and the binary text. */
  function HexOf(t: NumType, arg: word): seq<byte> { HexText(Low(t, arg), Bits(t) / 4) }

  function BinOf(t: NumType, arg: word): seq<byte> { BinText(Low(t, arg), Bits(t)) }

  /** Reading the text gives the number back for all unsigned types and for 32 bits with sign;
      for the shorter signed types exactly when the number is not negative. */
  lemma DecimalCorrectIff(t: NumType, arg: word)
    ensures ParseSigned(DecimalText(t, arg)) == Stored(t, arg) <==> (t == I16 || t == I8 ==> Stored(t, arg) >= 0)
  {
    if t == I32 {
      SignedRoundTrip(AsSigned(arg));
    } else {
      SignedRoundTrip(Low(t, arg));
    }
  }

  function MinOf(t: NumType): word {
    if t == I32 then 0x8000_0000 else if t == I16 then 0xFFFF_8000 else 0xFFFF_FF80
  }

  function MaxOf(t: NumType): (max: word)
    ensures 0 < max < 0x8000_0000 && max % 10 < 9
  {
    if t == I32 then 0x7FFF_FFFF else if t == I16 then 0x7FFF else 0x7F
  }

  function MaskOf(t: NumType): (mask: word)
    ensures IsMask(mask)
  {
    if t == I32 then 0xFFFF_FFFF else if t == I16 then 0xFFFF else 0xFF
  }

  lemma MaskedAs(t: NumType, arg: word)
    requires IsSigned(t)
    ensures Masked(Stored(t, arg), MaskOf(t)) == if t == I32 then AsSigned(arg) else Low(t, arg)
  {
  }

  lemma Signed32(v: int32)
    ensures SignedResult(v, 0x8000_0000, 0x7FFF_FFFF) == SignedText(v)
  {
    if AsWord(v) == 0x8000_0000 {
      MinTextIs(0x7FFF_FFFF);
      assert v == -0x8000_0000;
    }
  }

  lemma SignedShort(n: nat, min: word, max: word)
    requires n < 0x1_0000 <= min && 0 < max && max % 10 < 9
    ensures SignedResult(n, min, max) == UnsignedText(n)
  {
    assert AsWord(n) == n;
  }

  /** What mask, smallest and largest number of a signed type come to. */
  lemma SignedConfig(t: NumType, arg: word)
    requires IsSigned(t)
    ensures SignedResult(Masked(Stored(t, arg), MaskOf(t)), MinOf(t), MaxOf(t)) == DecimalText(t, arg)
  {
    MaskedAs(t, arg);
    if t == I32 {
      Signed32(AsSigned(arg));
    } else {
      SignedShort(Low(t, arg), MinOf(t), MaxOf(t));
    }
  }

  method NumToStr(t: NumType, arg: word, buf: array<byte>)
    requires |DecimalText(t, arg)| < buf.Length
    modifies buf
    ensures BufferHolds(old(buf[..]), buf[..], DecimalText(t, arg))
  {
    var num := Stored(t, arg);
    if IsSigned(t) {
      SignedConfig(t, arg);
      NumToStrSigned(num, buf, MinOf(t), MaxOf(t), MaskOf(t));
    } else {
      WordFits(num);
      NumToStrUnsigned(num, buf);
    }
  }

  /** Zeros up to the width, behind the least significant digits. */
  method Pad(temp: array<byte>, count: nat, width: nat, ghost digits: seq<byte>) returns (i: nat)
    requires count <= temp.Length && width <= temp.Length && Rev(temp[..count]) == digits
    modifies temp
    ensures i == (if count < width then width else count) <= temp.Length
    ensures Rev(temp[..i]) == Padded(digits, width)
  {
    i := count;
    while i < width
      invariant count <= i <= temp.Length && (i <= width || i == count)
      invariant temp[..count] == old(temp[..count])
      invariant forall k | count <= k < i :: temp[k] == ZERO
    {
      temp[i] := ZERO;
      i := i + 1;
    }
    assert forall k | 0 <= k < count :: temp[..i][k] == temp[..count][k];
    assert Rev(temp[..i]) == Zeros(i - count) + Rev(temp[..count]);
  }

  method NumToHex(t: NumType, arg: word, buf: array<byte>)
    requires |HexOf(t, arg)| < buf.Length
    modifies buf
    ensures BufferHolds(old(buf[..]), buf[..], HexOf(t, arg))
  {
    var num := Low(t, arg);
    if num == 0 {
      StoreZero(buf);
      return;
    }
    var temp := new byte[32];
    WordFits(num);
    var i := Extract(num, 16, temp);
    i := Pad(temp, i, Bits(t) / 4, Digits(num, 16));
    var _ := Deliver(temp, i, buf);
  }

  /** 32 bits take 33 characters with the NUL. */
  method NumToBin(t: NumType, arg: word, buf: array<byte>)
    requires |BinOf(t, arg)| < buf.Length
    modifies buf
    ensures BufferHolds(old(buf[..]), buf[..], BinOf(t, arg))
  {
    var num := Low(t, arg);
    if num == 0 {
      for s := 0 to Bits(t)
        invariant forall k | 0 <= k < s :: buf[k] == ZERO
        invariant forall k | s <= k < buf.Length :: buf[k] == old(buf[k])
      {
        buf[s] := ZERO;
      }
      buf[Bits(t)] := NUL;
      assert buf[..Bits(t)] == BinText(0, Bits(t));
      return;
    }
    var temp := new byte[70];
    WordFits(num);
    var i := Extract(num, 2, temp);
    i := Pad(temp, i, Bits(t), Digits(num, 2));
    var _ := Deliver(temp, i, buf);
  }

  /** How long the texts of 32 bits can be. */
  lemma LongestTexts(arg: word)
    ensures |DecimalText(I32, arg)| <= 11 && |DecimalText(U32, arg)| <= 10
    ensures |HexOf(U32, arg)| <= 8 && |BinOf(U32, arg)| == 32
  {
    WordFits(arg);
    var v: int := AsSigned(arg);
    WordFits(if v < 0 then -v else v);
  }

  // ----- from the argument to what is read

  /** All characters are digits of the base: 0 to 9, and then the capital letters. */
  predicate Numeral(s: seq<byte>, base: nat) {
    s != [] && forall i | 0 <= i < |s| :: DigitOf(s[i], base)
  }

  predicate DigitOf(c: byte, base: nat) {
    || ('0' as int <= c <= '9' as int && c - '0' as int < base)
    || ('A' as int <= c <= 'F' as int && c - 'A' as int + 10 < base)
  }

  /** A numeral without superfluous zeros. */
  predicate Plain(s: seq<byte>) { Numeral(s, 10) && (s[0] == '0' as int ==> |s| == 1) }

  lemma {:induction false} DigitsNumeral(n: nat, base: nat)
    requires 2 <= base <= 16 && n > 0
    ensures Numeral(Digits(n, base), base)
    decreases n
  {
    Smaller(n, base);
    if n / base > 0 {
      DigitsNumeral(n / base, base);
    }
  }

  lemma PaddedNumeral(n: nat, base: nat, width: nat)
    requires 2 <= base <= 16 && width > 0
    ensures Numeral(Padded(Digits(n, base), width), base)
  {
    if n > 0 {
      DigitsNumeral(n, base);
    }
  }

  lemma PlainDigits(n: nat)
    requires n > 0
    ensures Plain(Digits(n, 10))
  {
    DigitsNumeral(n, 10);
    DigitsProper(n, 10);
  }

  /** Signed text is a plain numeral, behind a minus exactly for a negative number. */
  lemma SignedNumeral(v: int)
    ensures var s := SignedText(v);
            s != [] && (s[0] == '-' as int <==> v < 0) && Plain(if v < 0 then s[1..] else s)
  {
    if v != 0 {
      PlainDigits(if v < 0 then -v else v);
    }
    if v < 0 {
      assert SignedText(v)[1..] == Digits(-v, 10);
    }
  }

  /** The digits are the characters of the table in the source, and the sign is a minus. */
  lemma DigitsOfTable(d: nat)
    requires d < 16
    ensures DigitChar(d) == "0123456789ABCDEF"[d] as int && DigitValue("0123456789ABCDEF"[d] as int) == d
    ensures MINUS == '-' as int && ZERO == '0' as int && NUL == 0
  {
  }

  /** v and arg have the same lowest bits. */
  predicate Congruent(v: int, arg: int, modulus: nat)
    requires modulus > 0
  {
    (v - arg) % modulus == 0
  }

  /** The two readings of 32 bits are each other's inverse. */
  lemma SignedReadings(w: word, v: int32)
    ensures Congruent(AsSigned(w), w, 0x1_0000_0000) && AsWord(AsSigned(w)) == w
    ensures Congruent(AsWord(v), v, 0x1_0000_0000) && AsSigned(AsWord(v)) == v
  {
  }

  lemma LowIs(t: NumType, arg: word)
    ensures t == U32 || t == I32 ==> Low(t, arg) == arg
    ensures t == U16 || t == I16 ==> 0 <= Low(t, arg) < 0x1_0000 && Congruent(Low(t, arg), arg, 0x1_0000)
    ensures t == U8 || t == I8 ==> 0 <= Low(t, arg) < 0x100 && Congruent(Low(t, arg), arg, 0x100)
  {
    match t
    case U32 | I32 =>
    case U16 | I16 => RestCongruent(arg, 0x1_0000);
    case U8 | I8 => RestCongruent(arg, 0x100);
  }

  lemma RestCongruent(n: nat, modulus: nat)
    requires modulus > 0
    ensures Congruent(n % modulus, n, modulus)
  {
    DivMod(n, modulus);
    Multiple(modulus, -(n / modulus));
    assert n % modulus - n == modulus * -(n / modulus);
  }

  /** A variable of the type holds the number of its range that has the lowest bits of the argument. */
  lemma StoredIs(t: NumType, arg: word)
    ensures var v := Stored(t, arg);
            match t
            case U32 => v == arg
            case I32 => -0x8000_0000 <= v < 0x8000_0000 && Congruent(v, arg, 0x1_0000_0000)
            case U16 => 0 <= v < 0x1_0000 && Congruent(v, arg, 0x1_0000)
            case I16 => -0x8000 <= v < 0x8000 && Congruent(v, arg, 0x1_0000)
            case U8 => 0 <= v < 0x100 && Congruent(v, arg, 0x100)
            case I8 => -0x80 <= v < 0x80 && Congruent(v, arg, 0x100)
  {
    LowIs(t, arg);
    match t
    case I32 => SignedReadings(arg, 0);
    case I16 => OneTurn(Low(t, arg), arg, 0x1_0000);
    case I8 => OneTurn(Low(t, arg), arg, 0x100);
    case _ =>
  }

  lemma OneTurn(v: int, arg: int, modulus: nat)
    requires modulus > 0 && Congruent(v, arg, modulus)
    ensures Congruent(v - modulus, arg, modulus)
  {
    var q := (v - arg) / modulus;
    assert v - arg == modulus * q;
    Multiple(modulus, q - 1);
    assert v - modulus - arg == modulus * (q - 1);
  }

  lemma Multiple(d: nat, q: int)
    requires d > 0
    ensures (d * q) % d == 0
  {
    var n := d * q;
    assert n == d * (n / d) + n % d;
    assert n % d == d * (q - n / d);
    Between(d, q - n / d);
  }

  lemma Between(d: nat, x: int)
    requires 0 <= d * x < d
    ensures x == 0
  {
  }

  /** From the argument to the number that is read in the decimal text: the number with the lowest bits of
      the argument, with sign for I32 and without for all other types. */
  lemma DecimalMeans(t: NumType, arg: word)
    ensures var v := ParseSigned(DecimalText(t, arg));
            match t
            case U32 => v == arg
            case I32 => -0x8000_0000 <= v < 0x8000_0000 && Congruent(v, arg, 0x1_0000_0000)
            case U16 | I16 => 0 <= v < 0x1_0000 && Congruent(v, arg, 0x1_0000)
            case U8 | I8 => 0 <= v < 0x100 && Congruent(v, arg, 0x100)
    ensures var s := DecimalText(t, arg);
            s != [] && (s[0] == '-' as int <==> ParseSigned(s) < 0)
            && Plain(if s[0] == '-' as int then s[1..] else s)
  {
    LowIs(t, arg);
    if t == I32 {
      SignedReadings(arg, 0);
      SignedRoundTrip(AsSigned(arg));
      SignedNumeral(AsSigned(arg));
    } else {
      SignedRoundTrip(Low(t, arg));
      SignedNumeral(Low(t, arg));
    }
  }

  /** From the argument to the number that is read in the hexadecimal text, and its length: full width but
      for zero. */
  lemma HexMeans(t: NumType, arg: word)
    ensures var v, n := Value(HexOf(t, arg), 16), |HexOf(t, arg)|;
            match t
            case U32 | I32 => v == arg && n == (if arg == 0 then 1 else 8)
            case U16 | I16 => 0 <= v < 0x1_0000 && Congruent(v, arg, 0x1_0000) && n == (if v == 0 then 1 else 4)
            case U8 | I8 => 0 <= v < 0x100 && Congruent(v, arg, 0x100) && n == (if v == 0 then 1 else 2)
    ensures Numeral(HexOf(t, arg), 16)
  {
    LowIs(t, arg);
    PaddedNumeral(Low(t, arg), 16, Bits(t) / 4);
    HexRoundTrip(Low(t, arg), Bits(t) / 4);
  }

  /** And in the binary text, which has a character for every bit of the type. */
  lemma BinMeans(t: NumType, arg: word)
    ensures var v, n := Value(BinOf(t, arg), 2), |BinOf(t, arg)|;
            match t
            case U32 | I32 => v == arg && n == 32
            case U16 | I16 => 0 <= v < 0x1_0000 && Congruent(v, arg, 0x1_0000) && n == 16
            case U8 | I8 => 0 <= v < 0x100 && Congruent(v, arg, 0x100) && n == 8
    ensures Numeral(BinOf(t, arg), 2)
  {
    LowIs(t, arg);
    PaddedNumeral(Low(t, arg), 2, Bits(t));
    BinRoundTrip(Low(t, arg), Bits(t));
  }
}
