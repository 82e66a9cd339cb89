/** print: a format string becomes tokens, and the tokens with the arguments become characters. */
module Format {
  import opened Ram
  import opened Terminal
  import opened Numbers

  const PERCENT: byte := '%' as int
  const HASH: byte := '#' as int
  const DOLLAR: byte := '$' as int

  datatype Kind = Character | Text | Signed | Unsigned | Hex | Bin | Pointer

  datatype Token = Lit(ch: byte) | Arg(kind: Kind) | Color(color: byte)

  // ----- tokens

  predicate IsHexDigit(c: byte) {
    '0' as int <= c <= '9' as int || 'a' as int <= c <= 'f' as int || 'A' as int <= c <= 'F' as int
  }

  function HexToInt(c: byte): (v: int)
    ensures IsHexDigit(c) ==> 0 <= v < 16
    ensures !IsHexDigit(c) ==> v == -1
  {
    if '0' as int <= c <= '9' as int then c - '0' as int
    else if 'a' as int <= c <= 'f' as int then c - 'a' as int + 10
    else if 'A' as int <= c <= 'F' as int then c - 'A' as int + 10
    else -1
  }

  /** The directive that takes an argument, if c is one. */
  function KindOf(c: byte): Kind
    requires IsArg(c)
  {
    if c == 'c' as int then Character
    else if c == 's' as int then Text
    else if c == 'd' as int || c == 'i' as int then Signed
    else if c == 'u' as int then Unsigned
    else if c == 'x' as int then Hex
    else if c == 'b' as int then Bin
    else Pointer
  }

  predicate IsArg(c: byte) {
    c in {'c' as int, 's' as int, 'd' as int, 'i' as int, 'u' as int, 'x' as int, 'b' as int, 'p' as int}
  }

  /** How many characters of s, which follows %#, choose a color. A dollar chooses the default, but is
      left to be printed. */
  function ColorLength(s: seq<byte>): (n: nat)
    ensures n <= |s|
  {
    if s == [] || !IsHexDigit(s[0]) then 0
    else if |s| == 1 || !IsHexDigit(s[1]) then 1
    else 2
  }

  /** The color tokens at the start of s: the first digit is the text, the second the background. */
  function ColorTokens(s: seq<byte>): seq<Token> {
    if s != [] && s[0] == DOLLAR then [Color(DEFAULT_COLOR)]
    else if ColorLength(s) == 0 then []
    else if ColorLength(s) == 1 then [Color(HexToInt(s[0]))]
    else [Color(16 * HexToInt(s[1]) + HexToInt(s[0]))]
  }

  /** What a format string asks for. */
  function Tokens(s: seq<byte>): seq<Token>
    decreases |s|
  {
    if s == [] then []
    else if s[0] != PERCENT then [Lit(s[0])] + Tokens(s[1..])
    else if |s| == 1 then [Lit(PERCENT)]
    else if IsArg(s[1]) then [Arg(KindOf(s[1]))] + Tokens(s[2..])
    else if s[1] == PERCENT then [Lit(PERCENT)] + Tokens(s[2..])
    else if s[1] == HASH then ColorTokens(s[2..]) + Tokens(s[2..][ColorLength(s[2..])..])
    else [Lit(PERCENT)] + Tokens(s[1..])
  }

  // ----- rendering

  /** An argument can be rendered: text must end. */
  ghost predicate ArgOk(m: Mem, kind: Kind, arg: word) {
    kind == Text ==> Terminated(m, arg)
  }

  function ArgText(m: Mem, kind: Kind, arg: word): seq<byte>
    requires ArgOk(m, kind, arg)
  {
    match kind
    case Character => [arg % 0x100]
    case Text => CString(m, arg)
    case Signed => DecimalText(I32, arg)
    case Unsigned => DecimalText(U32, arg)
    case Hex => HexOf(U32, arg)
    case Bin => BinOf(U32, arg)
    case Pointer => ['0' as int, 'x' as int] + HexOf(U32, arg)
  }

  /** One argument for every directive that takes one. */
  ghost predicate ArgsOk(m: Mem, ts: seq<Token>, args: seq<word>)
    decreases |ts|
  {
    ts == []
    || if ts[0].Arg? then args != [] && ArgOk(m, ts[0].kind, args[0]) && ArgsOk(m, ts[1..], args[1..])
       else ArgsOk(m, ts[1..], args)
  }

  function Render(m: Mem, ts: seq<Token>, args: seq<word>, color: byte): seq<Glyph>
    requires ArgsOk(m, ts, args)
    decreases |ts|
  {
    if ts == [] then []
    else
      match ts[0]
      case Lit(ch) => [Glyph(ch, color)] + Render(m, ts[1..], args, color)
      case Arg(kind) => Colored(ArgText(m, kind, args[0]), color) + Render(m, ts[1..], args[1..], color)
      case Color(c) => Render(m, ts[1..], args, c)
  }

  /** What is still to be printed may be printed and leads to the view w. */
  ghost predicate Remains(v: View, m: Mem, ts: seq<Token>, args: seq<word>, color: byte, w: View) {
    && ArgsOk(m, ts, args)
    && AllAllowed(v, Render(m, ts, args, color)) && Run(v, Render(m, ts, args, color)) == w
  }

  lemma LitRemains(v: View, m: Mem, ts: seq<Token>, ch: byte, args: seq<word>, color: byte, w: View)
    requires Remains(v, m, [Lit(ch)] + ts, args, color, w)
    ensures Allowed(v, Glyph(ch, color)) && Remains(Step(v, Glyph(ch, color)), m, ts, args, color, w)
  {
    var all := [Lit(ch)] + ts;
    assert all[1..] == ts;
    var gs := Render(m, all, args, color);
    assert gs[1..] == Render(m, ts, args, color);
  }

  lemma ArgRemains(v: View, m: Mem, ts: seq<Token>, kind: Kind, args: seq<word>, color: byte, w: View)
    requires Remains(v, m, [Arg(kind)] + ts, args, color, w)
    ensures args != [] && ArgOk(m, kind, args[0])
    ensures AllAllowed(v, Colored(ArgText(m, kind, args[0]), color))
    ensures Remains(Run(v, Colored(ArgText(m, kind, args[0]), color)), m, ts, args[1..], color, w)
  {
    var all := [Arg(kind)] + ts;
    assert all[1..] == ts;
    RunConcat(v, Colored(ArgText(m, kind, args[0]), color), Render(m, ts, args[1..], color));
  }

  lemma ColorRemains(v: View, m: Mem, ts: seq<Token>, c: byte, args: seq<word>, color: byte, w: View)
    requires Remains(v, m, [Color(c)] + ts, args, color, w)
    ensures Remains(v, m, ts, args, c, w)
  {
    var all := [Color(c)] + ts;
    assert all[1..] == ts;
  }

  // ----- print

  /** Where the NUL is. */
  function EndOf(m: Mem, q: nat): nat
    requires Terminated(m, q)
  {
    q + |CString(m, q)|
  }

  lemma CStringStep(m: Mem, q: nat)
    requires Terminated(m, q) && m[q] != 0
    ensures Terminated(m, q + 1)
    ensures CString(m, q) != [] && CString(m, q)[0] == m[q] && CString(m, q)[1..] == CString(m, q + 1)
    ensures EndOf(m, q + 1) == EndOf(m, q)
  {
  }

  /** What the character after a percent sign decides. */
  lemma PercentTokens(m: Mem, q: nat)
    requires Terminated(m, q) && m[q] == PERCENT
    ensures Terminated(m, q + 1) && EndOf(m, q + 1) == EndOf(m, q)
    ensures m[q + 1] != 0 ==> Terminated(m, q + 2) && EndOf(m, q + 2) == EndOf(m, q)
    ensures var c := m[q + 1]; var ts := Tokens(CString(m, q));
            if IsArg(c) then Terminated(m, q + 2) && ts == [Arg(KindOf(c))] + Tokens(CString(m, q + 2))
            else if c == PERCENT then Terminated(m, q + 2) && ts == [Lit(PERCENT)] + Tokens(CString(m, q + 2))
            else if c == HASH then
              && Terminated(m, q + 2)
              && var s := CString(m, q + 2);
                 ts == ColorTokens(s) + Tokens(s[ColorLength(s)..])
            else ts == [Lit(PERCENT)] + Tokens(CString(m, q + 1))
  {
    CStringStep(m, q);
    var s, t := CString(m, q), CString(m, q + 1);
    if m[q + 1] != 0 {
      CStringStep(m, q + 1);
      assert s[2..] == t[1..] && s[1] == t[0];
    } else {
      assert t == [] && |s| == 1;
      assert Tokens(t) == [];
    }
  }

  lemma PlainTokens(m: Mem, q: nat)
    requires Terminated(m, q) && m[q] != 0 && m[q] != PERCENT
    ensures Terminated(m, q + 1) && EndOf(m, q + 1) == EndOf(m, q)
    ensures Tokens(CString(m, q)) == [Lit(m[q])] + Tokens(CString(m, q + 1))
  {
    CStringStep(m, q);
  }

  lemma HeldString(was: seq<byte>, m: Mem, text: seq<byte>, p: nat)
    requires BufferHolds(was, m, text) && 0 !in text && p <= |text|
    ensures Terminated(m, p) && CString(m, p) == text[p..]
    decreases |text| - p
  {
    if p < |text| {
      assert m[..|text|][p] == text[p];
      HeldString(was, m, text, p + 1);
    }
  }

  lemma NoNul(arg: word)
    ensures 0 !in DecimalText(I32, arg) && 0 !in DecimalText(U32, arg)
    ensures 0 !in HexOf(U32, arg) && 0 !in BinOf(U32, arg)
  {
    if arg != 0 {
      DigitsProper(arg, 10);
      DigitsProper(arg, 16);
      DigitsProper(arg, 2);
      var v: int := AsSigned(arg);
      DigitsProper(if v < 0 then -v else v, 10);
    }
  }

  /** The text of a number, made in a buffer. Binary text would overrun the 32 bytes of the source. */
  method PrintNumber(screen: Screen, m: Mem, kind: Kind, num: word, color: byte)
    requires kind == Signed || kind == Unsigned || kind == Hex || kind == Bin
    requires screen.Valid() && AllAllowed(screen.view, Colored(ArgText(m, kind, num), color))
    modifies screen, screen.vid
    ensures screen.Valid() && screen.view == Run(old(screen.view), Colored(ArgText(m, kind, num), color))
  {
    LongestTexts(num);
    var buf := new byte[33];
    ghost var was := buf[..];
    if kind == Signed {
      NumToStr(I32, num, buf);
    } else if kind == Unsigned {
      NumToStr(U32, num, buf);
    } else if kind == Hex {
      NumToHex(U32, num, buf);
    } else {
      NumToBin(U32, num, buf);
    }
    NoNul(num);
    HeldString(was, buf[..], ArgText(m, kind, num), 0);
    screen.PrintStr(buf[..], 0, color);
  }

  method PrintArg(screen: Screen, m: Mem, kind: Kind, arg: word, color: byte)
    requires screen.Valid() && ArgOk(m, kind, arg)
    requires AllAllowed(screen.view, Colored(ArgText(m, kind, arg), color))
    modifies screen, screen.vid
    ensures screen.Valid() && screen.view == Run(old(screen.view), Colored(ArgText(m, kind, arg), color))
  {
    match kind {
      case Character => screen.PrintChar(arg % 0x100, color);
      case Text => screen.PrintStr(m, arg, color);
      case Pointer =>
        var gs := Colored(ArgText(m, kind, arg), color);
        assert gs[1..][1..] == Colored(HexOf(U32, arg), color);
        screen.PrintChar('0' as int, color);
        screen.PrintChar('x' as int, color);
        PrintNumber(screen, m, Hex, arg, color);
      case _ => PrintNumber(screen, m, kind, arg, color);
    }
  }

  /** After %#: the new color, and where reading goes on. */
  method ChooseColor(m: Mem, p: nat, color: byte) returns (q: nat, color': byte)
    requires Terminated(m, p)
    ensures Terminated(m, q) && p <= q && EndOf(m, q) == EndOf(m, p)
    ensures CString(m, q) == CString(m, p)[ColorLength(CString(m, p))..]
    ensures ColorTokens(CString(m, p)) == if m[p] == DOLLAR || IsHexDigit(m[p]) then [Color(color')] else []
    ensures !(m[p] == DOLLAR || IsHexDigit(m[p])) ==> color' == color
  {
    q, color' := p, color;
    if m[q] == DOLLAR {
      CStringStep(m, p);
      color' := DEFAULT_COLOR;
    } else if IsHexDigit(m[q]) {
      CStringStep(m, p);
      var txtColor := HexToInt(m[q]);
      q := q + 1;
      if IsHexDigit(m[q]) {
        CStringStep(m, p + 1);
        assert CString(m, p)[1] == m[p + 1] && CString(m, p)[2..] == CString(m, p + 2);
        var bgColor := HexToInt(m[q]);
        q := q + 1;
        color' := 16 * bgColor + txtColor;
      } else {
        color' := DEFAULT_COLOR / 16 * 16 + txtColor;
      }
    }
  }

  /** %, and the character at q after it. */
  method Directive(screen: Screen, m: Mem, q: nat, args: seq<word>, argsIndex: nat, color: byte, ghost w: View)
    returns (q': nat, argsIndex': nat, color': byte)
    requires screen.Valid() && q >= 1 && Terminated(m, q - 1) && m[q - 1] == PERCENT && argsIndex <= |args|
    requires Remains(screen.view, m, Tokens(CString(m, q - 1)), args[argsIndex..], color, w)
    modifies screen, screen.vid
    ensures screen.Valid() && Terminated(m, q') && q <= q' && EndOf(m, q') == EndOf(m, q - 1) && argsIndex' <= |args|
    ensures Remains(screen.view, m, Tokens(CString(m, q')), args[argsIndex'..], color', w)
  {
    PercentTokens(m, q - 1);
    q', argsIndex', color' := q, argsIndex, color;
    ghost var rest := args[argsIndex..];
    if IsArg(m[q]) {
      ArgRemains(screen.view, m, Tokens(CString(m, q + 1)), KindOf(m[q]), rest, color, w);
      PrintArg(screen, m, KindOf(m[q]), args[argsIndex], color);
      assert rest[1..] == args[argsIndex + 1..];
      q', argsIndex' := q + 1, argsIndex + 1;
    } else if m[q] == HASH {
      ghost var ts := Tokens(CString(m, q - 1));
      q', color' := ChooseColor(m, q + 1, color);
      if ColorTokens(CString(m, q + 1)) != [] {
        ColorRemains(screen.view, m, Tokens(CString(m, q')), color', rest, color, w);
      } else {
        assert ts == Tokens(CString(m, q'));
      }
    } else if m[q] == PERCENT {
      LitRemains(screen.view, m, Tokens(CString(m, q + 1)), PERCENT, rest, color, w);
      screen.PrintChar(PERCENT, color);
      q' := q + 1;
    } else {
      LitRemains(screen.view, m, Tokens(CString(m, q)), PERCENT, rest, color, w);
      screen.PrintChar(PERCENT, color);
    }
  }

  /** The body of the loop of print. */
  method PrintNext(screen: Screen, m: Mem, q: nat, args: seq<word>, argsIndex: nat, color: byte, ghost w: View)
    returns (q': nat, argsIndex': nat, color': byte)
    requires screen.Valid() && Terminated(m, q) && m[q] != 0 && argsIndex <= |args|
    requires Remains(screen.view, m, Tokens(CString(m, q)), args[argsIndex..], color, w)
    modifies screen, screen.vid
    ensures screen.Valid() && Terminated(m, q') && q < q' && EndOf(m, q') == EndOf(m, q) && argsIndex' <= |args|
    ensures Remains(screen.view, m, Tokens(CString(m, q')), args[argsIndex'..], color', w)
  {
    if m[q] == PERCENT {
      q', argsIndex', color' := Directive(screen, m, q + 1, args, argsIndex, color, w);
    } else {
      PlainTokens(m, q);
      LitRemains(screen.view, m, Tokens(CString(m, q + 1)), m[q], args[argsIndex..], color, w);
      screen.PrintChar(m[q], color);
      q', argsIndex', color' := q + 1, argsIndex, color;
    }
  }

  lemma NothingRemains(v: View, m: Mem, q: nat, args: seq<word>, color: byte, w: View)
    requires Terminated(m, q) && m[q] == 0 && Remains(v, m, Tokens(CString(m, q)), args, color, w)
    ensures v == w
  {
  }

  /** print: the format string is args[0], its arguments follow. Reading goes up to the NUL of
      the string and never past it, whatever the string ends in. */
  method Print(screen: Screen, m: Mem, args: seq<word>)
    requires screen.Valid() && args != [] && Terminated(m, args[0])
    requires ArgsOk(m, Tokens(CString(m, args[0])), args[1..])
    requires AllAllowed(screen.view, Render(m, Tokens(CString(m, args[0])), args[1..], DEFAULT_COLOR))
    modifies screen, screen.vid
    ensures screen.Valid()
    ensures screen.view == Run(old(screen.view), Render(m, Tokens(CString(m, args[0])), args[1..], DEFAULT_COLOR))
  {
    var color := DEFAULT_COLOR;
    var q: nat, argsIndex: nat := args[0], 1;
    ghost var w := Run(screen.view, Render(m, Tokens(CString(m, args[0])), args[1..], DEFAULT_COLOR));
    while m[q] != 0
      invariant screen.Valid() && Terminated(m, q) && EndOf(m, q) == EndOf(m, args[0]) && argsIndex <= |args|
      invariant Remains(screen.view, m, Tokens(CString(m, q)), args[argsIndex..], color, w)
      decreases |m| - q
    {
      q, argsIndex, color := PrintNext(screen, m, q, args, argsIndex, color, w);
    }
    NothingRemains(screen.view, m, q, args[argsIndex..], color, w);
  }

  // ----- what format strings mean

  /** The color in force behind the tokens. */
  function ColorAfter(ts: seq<Token>, color: byte): byte {
    if ts == [] then color else ColorAfter(ts[1..], if ts[0].Color? then ts[0].color else color)
  }

  /** How many arguments the tokens use up. */
  function ArgCount(ts: seq<Token>): (n: nat) {
    if ts == [] then 0 else (if ts[0].Arg? then 1 else 0) + ArgCount(ts[1..])
  }

  /** The second half goes on with the color and the arguments the first half leaves. */
  lemma {:induction false} RenderConcat(m: Mem, ts: seq<Token>, us: seq<Token>, args: seq<word>, color: byte)
    requires ArgsOk(m, ts + us, args)
    ensures ArgsOk(m, ts, args) && ArgCount(ts) <= |args| && ArgsOk(m, us, args[ArgCount(ts)..])
    ensures Render(m, ts + us, args, color)
            == Render(m, ts, args, color) + Render(m, us, args[ArgCount(ts)..], ColorAfter(ts, color))
    decreases |ts|
  {
    if ts == [] {
      assert ts + us == us && args[0..] == args;
    } else {
      assert (ts + us)[0] == ts[0] && (ts + us)[1..] == ts[1..] + us;
      match ts[0]
      case Lit(_) => RenderConcat(m, ts[1..], us, args, color);
      case Color(c) => RenderConcat(m, ts[1..], us, args, c);
      case Arg(_) =>
        RenderConcat(m, ts[1..], us, args[1..], color);
        assert args[1..][ArgCount(ts[1..])..] == args[ArgCount(ts)..];
    }
  }

  /** Arguments behind those used up do not matter. */
  lemma {:induction false} UnusedArgs(m: Mem, ts: seq<Token>, args: seq<word>, more: seq<word>, color: byte)
    requires ArgsOk(m, ts, args)
    ensures ArgsOk(m, ts, args + more) && Render(m, ts, args + more, color) == Render(m, ts, args, color)
    decreases |ts|
  {
    if ts != [] {
      match ts[0]
      case Lit(_) => UnusedArgs(m, ts[1..], args, more, color);
      case Color(c) => UnusedArgs(m, ts[1..], args, more, c);
      case Arg(_) =>
        UnusedArgs(m, ts[1..], args[1..], more, color);
        assert (args + more)[1..] == args[1..] + more;
    }
  }

  /** text with every percent sign doubled. */
  function Escaped(text: seq<byte>): seq<byte> {
    if text == [] then []
    else (if text[0] == PERCENT then [PERCENT, PERCENT] else [text[0]]) + Escaped(text[1..])
  }

  /** Any text at all can be printed as it is: by doubling its percent signs. */
  lemma {:induction false} EscapedPrintsAsIs(m: Mem, text: seq<byte>, args: seq<word>, color: byte)
    ensures ArgsOk(m, Tokens(Escaped(text)), args)
    ensures Render(m, Tokens(Escaped(text)), args, color) == Colored(text, color)
    decreases |text|
  {
    if text != [] {
      var rest := Escaped(text[1..]);
      EscapedPrintsAsIs(m, text[1..], args, color);
      assert Escaped(text)[if text[0] == PERCENT then 2 else 1..] == rest;
      var ts := Tokens(Escaped(text));
      assert ts == [Lit(text[0])] + Tokens(rest);
      assert ts[1..] == Tokens(rest);
    }
  }

  /** %#$ goes back to the default color, as documented, and then prints the dollar, which is not. */
  lemma DollarIsPrinted(m: Mem, s: seq<byte>, args: seq<word>, color: byte)
    requires ArgsOk(m, Tokens(s), args)
    ensures ArgsOk(m, Tokens(['%' as int, '#' as int, '$' as int] + s), args)
    ensures Render(m, Tokens(['%' as int, '#' as int, '$' as int] + s), args, color)
            == [Glyph('$' as int, 0x02)] + Render(m, Tokens(s), args, 0x02)
  {
    var all := ['%' as int, '#' as int, '$' as int] + s;
    assert all[2..] == [DOLLAR] + s && all[2..][0..] == [DOLLAR] + s;
    PlainPrinted(m, DOLLAR, s, args, 0x02);
    ColorFirst(m, DEFAULT_COLOR, [DOLLAR] + s, args, color);
    assert Tokens(all) == [Color(DEFAULT_COLOR)] + Tokens([DOLLAR] + s);
  }

  /** Strings that stop in the middle of a directive. */
  lemma CutShort(text: byte)
    requires IsHexDigit(text)
    ensures Tokens([PERCENT]) == [Lit(PERCENT)]
    ensures Tokens([PERCENT, HASH]) == []
    ensures Tokens([PERCENT, HASH, text]) == [Color(HexToInt(text))]
  {
    var s := [PERCENT, HASH, text];
    assert s[2..] == [text] && [text][1..] == [];
    assert [PERCENT, HASH][2..] == [] && Tokens([]) == [];
  }

  // ----- what each directive prints

  /** The characters of what is printed. */
  function Chars(gs: seq<Glyph>): (text: seq<byte>)
    ensures |text| == |gs| && forall i | 0 <= i < |gs| :: text[i] == gs[i].ch
  {
    seq(|gs|, i requires 0 <= i < |gs| => gs[i].ch)
  }

  predicate AllIn(gs: seq<Glyph>, color: byte) { forall i | 0 <= i < |gs| :: gs[i].color == color }

  lemma ColoredIs(text: seq<byte>, color: byte)
    ensures Chars(Colored(text, color)) == text && AllIn(Colored(text, color), color)
  {
  }

  /** Any character but a percent sign is printed as it is. */
  lemma PlainPrinted(m: Mem, c: byte, s: seq<byte>, args: seq<word>, color: byte)
    requires c != '%' as int && ArgsOk(m, Tokens(s), args)
    ensures ArgsOk(m, Tokens([c] + s), args)
    ensures Render(m, Tokens([c] + s), args, color) == [Glyph(c, color)] + Render(m, Tokens(s), args, color)
  {
    assert ([c] + s)[1..] == s;
    assert Tokens([c] + s)[1..] == Tokens(s);
  }

  /** So is a doubled one, once. */
  lemma PercentPrinted(m: Mem, s: seq<byte>, args: seq<word>, color: byte)
    requires ArgsOk(m, Tokens(s), args)
    ensures ArgsOk(m, Tokens(['%' as int, '%' as int] + s), args)
    ensures Render(m, Tokens(['%' as int, '%' as int] + s), args, color)
            == [Glyph('%' as int, color)] + Render(m, Tokens(s), args, color)
  {
    assert (['%' as int, '%' as int] + s)[2..] == s;
    assert Tokens(['%' as int, '%' as int] + s)[1..] == Tokens(s);
  }

  /** And one in front of a character that is no directive. */
  lemma UnknownPrinted(m: Mem, c: byte, s: seq<byte>, args: seq<word>, color: byte)
    requires c !in {'c' as int, 's' as int, 'd' as int, 'i' as int, 'u' as int, 'x' as int, 'b' as int, 'p' as int}
    requires c != '%' as int && c != '#' as int && ArgsOk(m, Tokens(s), args)
    ensures ArgsOk(m, Tokens(['%' as int, c] + s), args)
    ensures Render(m, Tokens(['%' as int, c] + s), args, color)
            == [Glyph('%' as int, color), Glyph(c, color)] + Render(m, Tokens(s), args, color)
  {
    PlainPrinted(m, c, s, args, color);
    assert (['%' as int, c] + s)[1..] == [c] + s;
    var ts := Tokens(['%' as int, c] + s);
    assert ts == [Lit(PERCENT)] + Tokens([c] + s) && ts[1..] == Tokens([c] + s);
    assert Render(m, ts, args, color) == [Glyph('%' as int, color)] + Render(m, Tokens([c] + s), args, color);
  }

  /** A directive with an argument is printed in front of what the rest of the string prints with the rest
      of the arguments. */
  lemma DirectiveFirst(m: Mem, c: byte, s: seq<byte>, args: seq<word>, color: byte)
    requires IsArg(c) && args != []
    requires ArgsOk(m, Tokens(['%' as int, c]), args[..1]) && ArgsOk(m, Tokens(s), args[1..])
    ensures ArgsOk(m, Tokens(['%' as int, c] + s), args)
    ensures Render(m, Tokens(['%' as int, c] + s), args, color)
            == Render(m, Tokens(['%' as int, c]), args[..1], color) + Render(m, Tokens(s), args[1..], color)
  {
    var t, ts := ['%' as int, c], Tokens(['%' as int, c] + s);
    assert (t + s)[2..] == s && t[2..] == [];
    assert Tokens(t) == [Arg(KindOf(c))] && ts == [Arg(KindOf(c))] + Tokens(s);
    assert ts[1..] == Tokens(s) && Tokens(t)[1..] == [] && Tokens([]) == [];
  }

  /** A single directive. */
  lemma ArgPrinted(m: Mem, c: byte, v: word, color: byte)
    requires IsArg(c) && ArgOk(m, KindOf(c), v)
    ensures ArgsOk(m, Tokens(['%' as int, c]), [v])
    ensures var gs := Render(m, Tokens(['%' as int, c]), [v], color);
            Chars(gs) == ArgText(m, KindOf(c), v) && AllIn(gs, color)
  {
    var t := ['%' as int, c];
    assert t[2..] == [] && Tokens([]) == [];
    var ts := Tokens(t);
    assert ts == [Arg(KindOf(c))] && ts[1..] == [];
    ColoredIs(ArgText(m, KindOf(c), v), color);
    assert Render(m, ts, [v], color) == Colored(ArgText(m, KindOf(c), v), color);
  }

  /** %x: the argument in base 16, with all eight digits, but only one for 0. */
  lemma HexPrinted(m: Mem, v: word, color: byte)
    ensures ArgsOk(m, Tokens(['%' as int, 'x' as int]), [v])
    ensures var gs := Render(m, Tokens(['%' as int, 'x' as int]), [v], color);
            && AllIn(gs, color) && |gs| == (if v == 0 then 1 else 8)
            && Numeral(Chars(gs), 16) && Value(Chars(gs), 16) == v
  {
    ArgPrinted(m, 'x' as int, v, color);
    HexMeans(U32, v);
  }

  /** %b: in base 2, with all 32 digits. */
  lemma BinPrinted(m: Mem, v: word, color: byte)
    ensures ArgsOk(m, Tokens(['%' as int, 'b' as int]), [v])
    ensures var gs := Render(m, Tokens(['%' as int, 'b' as int]), [v], color);
            AllIn(gs, color) && |gs| == 32 && Numeral(Chars(gs), 2) && Value(Chars(gs), 2) == v
  {
    ArgPrinted(m, 'b' as int, v, color);
    BinMeans(U32, v);
  }

  /** %u: in base 10, without superfluous zeros. */
  lemma UnsignedPrinted(m: Mem, v: word, color: byte)
    ensures ArgsOk(m, Tokens(['%' as int, 'u' as int]), [v])
    ensures var gs := Render(m, Tokens(['%' as int, 'u' as int]), [v], color);
            AllIn(gs, color) && Plain(Chars(gs)) && Value(Chars(gs), 10) == v
  {
    ArgPrinted(m, 'u' as int, v, color);
    DecimalMeans(U32, v);
  }

  /** %d and %i: in base 10, behind a minus if the upper bit is set, as the number that has these 32 bits. */
  lemma SignedPrinted(m: Mem, v: word, color: byte, c: byte)
    requires c == 'd' as int || c == 'i' as int
    ensures ArgsOk(m, Tokens(['%' as int, c]), [v])
    ensures var gs := Render(m, Tokens(['%' as int, c]), [v], color);
            var s := Chars(gs);
            && AllIn(gs, color) && s != [] && (s[0] == '-' as int <==> v >= 0x8000_0000)
            && Plain(if v >= 0x8000_0000 then s[1..] else s)
            && Value(if v >= 0x8000_0000 then s[1..] else s, 10)
               == if v >= 0x8000_0000 then 0x1_0000_0000 - v else v
  {
    ArgPrinted(m, c, v, color);
    DecimalMeans(I32, v);
    NearestTurn(v, ParseSigned(DecimalText(I32, v)));
  }

  lemma NearestTurn(v: word, n: int)
    requires -0x8000_0000 <= n < 0x8000_0000 && Congruent(n, v, 0x1_0000_0000)
    ensures n == if v >= 0x8000_0000 then v - 0x1_0000_0000 else v
  {
  }

  /** %p: what %x prints, behind 0x. */
  lemma PointerPrinted(m: Mem, v: word, color: byte)
    ensures ArgsOk(m, Tokens(['%' as int, 'p' as int]), [v]) && ArgsOk(m, Tokens(['%' as int, 'x' as int]), [v])
    ensures Render(m, Tokens(['%' as int, 'p' as int]), [v], color)
            == [Glyph('0' as int, color), Glyph('x' as int, color)]
               + Render(m, Tokens(['%' as int, 'x' as int]), [v], color)
  {
    ArgPrinted(m, 'p' as int, v, color);
    ArgPrinted(m, 'x' as int, v, color);
    Behind(Render(m, Tokens(['%' as int, 'p' as int]), [v], color), '0' as int, 'x' as int,
           Render(m, Tokens(['%' as int, 'x' as int]), [v], color), color);
  }

  lemma Behind(all: seq<Glyph>, c: byte, d: byte, rest: seq<Glyph>, color: byte)
    requires Chars(all) == [c, d] + Chars(rest) && AllIn(all, color) && AllIn(rest, color)
    ensures all == [Glyph(c, color), Glyph(d, color)] + rest
  {
    var gs := [Glyph(c, color), Glyph(d, color)] + rest;
    assert Chars(gs) == [c, d] + Chars(rest);
    SameGlyphs(all, gs, color);
  }

  lemma SameGlyphs(a: seq<Glyph>, b: seq<Glyph>, color: byte)
    requires Chars(a) == Chars(b) && AllIn(a, color) && AllIn(b, color)
    ensures a == b
  {
    forall i | 0 <= i < |a|
      ensures a[i] == b[i]
    {
      assert Chars(a)[i] == Chars(b)[i];
    }
  }

  /** %c: the lowest byte. */
  lemma CharacterPrinted(m: Mem, v: word, color: byte)
    ensures ArgsOk(m, Tokens(['%' as int, 'c' as int]), [v])
    ensures Render(m, Tokens(['%' as int, 'c' as int]), [v], color) == [Glyph(v % 0x100, color)]
  {
    ArgPrinted(m, 'c' as int, v, color);
    SameGlyphs(Render(m, Tokens(['%' as int, 'c' as int]), [v], color), [Glyph(v % 0x100, color)], color);
  }

  /** %s: the bytes in memory from there up to the first that is 0. */
  lemma TextPrinted(m: Mem, v: word, color: byte)
    requires Terminated(m, v)
    ensures ArgsOk(m, Tokens(['%' as int, 's' as int]), [v])
    ensures var gs := Render(m, Tokens(['%' as int, 's' as int]), [v], color);
            && v + |gs| < |m| && m[v + |gs|] == 0
            && forall i | 0 <= i < |gs| :: m[v + i] != 0 && gs[i] == Glyph(m[v + i], color)
  {
    ArgPrinted(m, 's' as int, v, color);
    GlyphsAt(m, v, Render(m, Tokens(['%' as int, 's' as int]), [v], color), color);
  }

  lemma GlyphsAt(m: Mem, p: nat, gs: seq<Glyph>, color: byte)
    requires Terminated(m, p) && Chars(gs) == CString(m, p) && AllIn(gs, color)
    ensures p + |gs| < |m| && m[p + |gs|] == 0
    ensures forall i | 0 <= i < |gs| :: m[p + i] != 0 && gs[i] == Glyph(m[p + i], color)
  {
    var text := CString(m, p);
    forall i | 0 <= i < |gs|
      ensures m[p + i] != 0 && gs[i] == Glyph(m[p + i], color)
    {
      assert gs[i].ch == text[i] && text[i] in text;
      assert m[p..p + |text|][i] == text[i];
    }
  }

  // ----- colors

  /** c is the hexadecimal digit for d, in capitals or not. */
  predicate HexChar(c: byte, d: nat) {
    d < 16 && (c == "0123456789ABCDEF"[d] as int || c == "0123456789abcdef"[d] as int)
  }

  lemma HexCharIs(c: byte, d: nat)
    ensures HexChar(c, d) <==> IsHexDigit(c) && HexToInt(c) == d
  {
  }

  lemma NoHexChar(s: seq<byte>)
    requires s == [] || forall d :: !HexChar(s[0], d)
    ensures s == [] || !IsHexDigit(s[0])
  {
    if s != [] && IsHexDigit(s[0]) {
      HexCharIs(s[0], HexToInt(s[0]));
    }
  }

  lemma ColorFirst(m: Mem, c: byte, s: seq<byte>, args: seq<word>, color: byte)
    requires ArgsOk(m, Tokens(s), args)
    ensures ArgsOk(m, [Color(c)] + Tokens(s), args)
    ensures Render(m, [Color(c)] + Tokens(s), args, color) == Render(m, Tokens(s), args, c)
  {
    assert ([Color(c)] + Tokens(s))[1..] == Tokens(s);
  }

  /** %# and two digits: the first is the color of the text, the second that of the background, for all that
      follows. */
  lemma TwoColors(m: Mem, a: byte, text: nat, b: byte, background: nat, s: seq<byte>, args: seq<word>, color: byte)
    requires HexChar(a, text) && HexChar(b, background) && ArgsOk(m, Tokens(s), args)
    ensures ArgsOk(m, Tokens(['%' as int, '#' as int, a, b] + s), args)
    ensures Render(m, Tokens(['%' as int, '#' as int, a, b] + s), args, color)
            == Render(m, Tokens(s), args, 16 * background + text)
  {
    TwoColorTokens(a, text, b, background, s);
    ColorFirst(m, 16 * background + text, s, args, color);
  }

  lemma TwoColorTokens(a: byte, text: nat, b: byte, background: nat, s: seq<byte>)
    requires HexChar(a, text) && HexChar(b, background)
    ensures Tokens(['%' as int, '#' as int, a, b] + s) == [Color(16 * background + text)] + Tokens(s)
  {
    var all, behind := ['%' as int, '#' as int, a, b] + s, [a, b] + s;
    assert all[2..] == behind && behind[2..] == s;
    HashTokens(all);
    TwoDigits(behind, text, background);
  }

  lemma TwoDigits(s: seq<byte>, text: nat, background: nat)
    requires |s| >= 2 && HexChar(s[0], text) && HexChar(s[1], background)
    ensures ColorLength(s) == 2 && ColorTokens(s) == [Color(16 * background + text)]
  {
    HexCharIs(s[0], text);
    HexCharIs(s[1], background);
  }

  lemma HashTokens(all: seq<byte>)
    requires |all| >= 2 && all[0] == PERCENT && all[1] == HASH
    ensures Tokens(all) == ColorTokens(all[2..]) + Tokens(all[2..][ColorLength(all[2..])..])
  {
  }

  /** %# and one digit: the color of the text, on black. */
  lemma OneColor(m: Mem, a: byte, text: nat, s: seq<byte>, args: seq<word>, color: byte)
    requires HexChar(a, text) && (s == [] || forall d :: !HexChar(s[0], d)) && ArgsOk(m, Tokens(s), args)
    ensures ArgsOk(m, Tokens(['%' as int, '#' as int, a] + s), args)
    ensures Render(m, Tokens(['%' as int, '#' as int, a] + s), args, color) == Render(m, Tokens(s), args, text)
  {
    HexCharIs(a, text);
    NoHexChar(s);
    var all := ['%' as int, '#' as int, a] + s;
    assert all[2..] == [a] + s && ([a] + s)[1..] == s;
    HashTokens(all);
    ColorFirst(m, text, s, args, color);
  }

  /** %# and neither a digit nor a dollar is not printed, and changes nothing. */
  lemma NoColor(m: Mem, s: seq<byte>, args: seq<word>, color: byte)
    requires s == [] || (s[0] != '$' as int && forall d :: !HexChar(s[0], d))
    requires ArgsOk(m, Tokens(s), args)
    ensures ArgsOk(m, Tokens(['%' as int, '#' as int] + s), args)
    ensures Render(m, Tokens(['%' as int, '#' as int] + s), args, color) == Render(m, Tokens(s), args, color)
  {
    NoHexChar(s);
    var all := ['%' as int, '#' as int] + s;
    assert all[2..] == s && s[0..] == s;
    HashTokens(all);
    assert ColorTokens(s) == [] && Tokens(all) == Tokens(s);
  }
}
