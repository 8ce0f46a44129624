/** printf and sprintf of stdio/printf.c: one interpreter of formats, two places for its characters to go. */
module Printf {
  import opened Words
  import opened Options
  import opened Numerals
  import opened Formats
  import Fields

  /** Where printchar sends characters: into a string, or to putchar when there is none. */
  class Out {
    const str: array?<char>
    var cursor: nat
    /** All that putchar has been given. */
    var console: string
    ghost const before: string
    ghost const start: nat
    /** What has been printed so far. */
    ghost var emitted: string

    ghost function Target(): (t: set<object>) {
      if str == null then {} else {str}
    }

    ghost predicate Valid()
      reads this, Target()
    {
      if str == null then console == before + emitted
      else
        && console == [] && start + |emitted| == cursor <= str.Length == |before|
        && str[..] == before[..start] + emitted + before[cursor..]
    }

    predicate Room(n: nat)
      reads this
    {
      str == null || cursor + n <= str.Length
    }

    constructor Console(printed: string)
      ensures Valid() && emitted == [] && str == null && before == console == printed
    {
      str := null;
      cursor := 0;
      console := printed;
      before := printed;
      start := 0;
      emitted := [];
    }

    constructor Buffer(buffer: array<char>, at: nat)
      requires at <= buffer.Length
      ensures Valid() && emitted == [] && str == buffer && before == buffer[..] && start == at == cursor
    {
      str := buffer;
      cursor := at;
      console := [];
      before := buffer[..];
      start := at;
      emitted := [];
    }

    /** printchar. */
    method PrintChar(c: char)
      requires Valid() && Room(1)
      modifies this, Target()
      ensures Valid() && emitted == old(emitted) + [c] && (str == null || cursor == old(cursor) + 1)
    {
      if str != null {
        str[cursor] := c;
        cursor := cursor + 1;
      } else {
        console := console + [c];
      }
      emitted := emitted + [c];
    }
  }

  /** The padding loop of prints. */
  method PrintPadding(out: Out, c: char, n: nat)
    requires out.Valid() && out.Room(n)
    modifies out, out.Target()
    ensures out.Valid() && out.emitted == old(out.emitted) + Repeat(c, n) && (out.str == null || out.cursor == old(out.cursor) + n)
  {
    for k := 0 to n
      invariant out.Valid() && out.emitted == old(out.emitted) + Repeat(c, k) && (out.str == null || out.cursor == old(out.cursor) + k)
    {
      out.PrintChar(c);
    }
  }

  /** The first lines of prints: how much to pad, and with what. */
  method Padding(s: string, width: nat, pad: Pad) returns (n: nat, padchar: char)
    ensures n == Max(width, |s|) - |s|
    ensures Padded(s, width, pad) == if pad.right then s + Repeat(padchar, n) else Repeat(padchar, n) + s
  {
    padchar, n := ' ', width;
    if n > 0 {
      var len := 0;
      while len < |s|
        invariant len <= |s|
      {
        len := len + 1;
      }
      n := if len >= n then 0 else n - len;
      padchar := if pad.zero then '0' else ' ';
    }
  }

  /** prints. */
  method Prints(out: Out, s: string, width: nat, pad: Pad) returns (pc: nat)
    requires out.Valid() && out.Room(Max(width, |s|))
    modifies out, out.Target()
    ensures out.Valid() && out.emitted == old(out.emitted) + Padded(s, width, pad) && pc == |Padded(s, width, pad)|
    ensures out.str == null || out.cursor == old(out.cursor) + pc
  {
    hide Out.Valid, Padded, Repeat;
    var n, padchar := Padding(s, width, pad);
    Concatenated(out.emitted, s, padchar, n);
    pc := 0;
    if !pad.right {
      PrintPadding(out, padchar, n);
      pc, n := pc + n, 0;
    }
    ghost var e, c0, pc0 := out.emitted, out.cursor, pc;
    for k := 0 to |s|
      invariant out.Valid() && out.emitted == e + s[..k] && pc == pc0 + k && (out.str == null || out.cursor == c0 + k)
    {
      out.PrintChar(s[k]);
      pc := pc + 1;
    }
    assert s[..|s|] == s;
    PrintPadding(out, padchar, n);
    pc := pc + n;
  }

  lemma Concatenated(e: string, s: string, c: char, n: nat)
    ensures e + s + Repeat(c, n) == e + (s + Repeat(c, n)) && e + Repeat(c, n) + s + Repeat(c, 0) == e + (Repeat(c, n) + s)
  {
  }

  /** One turn of the loop below. */
  lemma DigitsStep(u: uint32, b: Base, letbase: char)
    requires letbase in "aA" && u > 0
    ensures 0 <= u / b < u && 0 <= u % b < 16
    ensures Digits(u, b, letbase) == Digits(u / b, b, letbase) + [DigitChar(u % b, letbase)]
  {
    hide DigitChar;
    var q, r := QuotientRemainder(u, b);
  }

  /** The digit's character, as the loop computes it. */
  lemma DigitCode(t: nat, letbase: char)
    requires letbase in "aA" && t < 16
    ensures DigitChar(t, letbase) == ((if t >= 10 then t + (letbase as int) - ('0' as int) - 10 else t) + '0' as int) as char
  {
  }

  lemma NoMoreDigits(b: Base, letbase: char)
    requires letbase in "aA"
    ensures Digits(0, b, letbase) == []
  {
  }

  /** The digit loop of printi, from the end of print_buf towards its front, leaving room for a sign. */
  method WriteDigits(printBuf: array<char>, m: uint32, b: Base, letbase: char) returns (s: nat)
    requires printBuf.Length == 12 && letbase in "aA"
    modifies printBuf
    ensures 1 <= s <= 11 && printBuf[s..11] == Digits(m, b, letbase) && printBuf[11] == NUL
  {
    hide Digits, DigitChar;
    WordHasTenDigits(m, b, letbase);
    NoMoreDigits(b, letbase);
    var u: uint32 := m;
    s := 11;
    printBuf[s] := NUL;
    while u > 0
      invariant s + |Digits(m, b, letbase)| == 11 + |Digits(u, b, letbase)| && 1 <= s <= 11
      invariant Digits(m, b, letbase) == Digits(u, b, letbase) + printBuf[s..11] && printBuf[11] == NUL
    {
      DigitsStep(u, b, letbase);
      DigitCode(u % b, letbase);
      ghost var digit := DigitChar(u % b, letbase);
      var t := u % b;
      if t >= 10 {
        t := t + (letbase as int) - ('0' as int) - 10;
      }
      s := s - 1;
      printBuf[s] := (t + '0' as int) as char;
      assert printBuf[s..11] == [digit] + printBuf[s + 1..11];
      u := u / b;
    }
  }

  lemma AfterSign(e: string, r: string)
    ensures e + ['-'] + r == e + ("-" + r)
  {
  }

  /** The end of printi: the sign, in front of the padding or of the digits in print_buf, and the rest. */
  method PrintFigures(out: Out, printBuf: array<char>, at: nat, neg: bool, width: nat, pad: Pad) returns (pc: nat)
    requires out.Valid() && printBuf.Length == 12 && 1 <= at <= 11 && printBuf !in out.Target()
    requires out.Room(|SignedField(printBuf[at..11], neg, width, pad)|)
    modifies out, out.Target(), printBuf
    ensures out.Valid() && out.emitted == old(out.emitted) + SignedField(old(printBuf[at..11]), neg, width, pad)
    ensures pc == |SignedField(old(printBuf[at..11]), neg, width, pad)| && (out.str == null || out.cursor == old(out.cursor) + pc)
  {
    hide Padded, Out.Valid;
    var s, n := at, width;
    pc := 0;
    if neg {
      if n > 0 && pad.zero {
        out.PrintChar('-');
        pc := pc + 1;
        n := n - 1;
      } else {
        s := s - 1;
        printBuf[s] := '-';
        assert printBuf[s..11] == "-" + old(printBuf[at..11]);
      }
    }
    var text := printBuf[s..11];
    var rest := Prints(out, text, n, pad);
    pc := pc + rest;
    AfterSign(old(out.emitted), Padded(text, n, pad));
  }

  /** printi; the bounds of print_buf are checked where it is written. */
  method Printi(out: Out, i: int32, b: Base, signed: bool, width: nat, pad: Pad, letbase: char) returns (pc: nat)
    requires letbase in "aA" && out.Valid() && out.Room(|NumberField(i, b, signed, width, pad, letbase)|)
    modifies out, out.Target()
    ensures out.Valid() && out.emitted == old(out.emitted) + NumberField(i, b, signed, width, pad, letbase)
    ensures pc == |NumberField(i, b, signed, width, pad, letbase)| && (out.str == null || out.cursor == old(out.cursor) + pc)
  {
    hide Digits, Padded, Out.Valid;
    var printBuf := new char[12];
    if i == 0 {
      printBuf[0] := '0';
      printBuf[1] := NUL;
      assert printBuf[..1] == "0";
      pc := Prints(out, printBuf[..1], width, pad);
      return;
    }
    var neg := false;
    var u: uint32 := Wrap(i);
    if signed && b == 10 && i < 0 {
      neg := true;
      u := Wrap(0 - (i as int));
    }
    assert u == Magnitude(i, b, signed);
    var s := WriteDigits(printBuf, u, b, letbase);
    pc := PrintFigures(out, printBuf, s, neg, width, pad);
  }

  /** The flags and the width of a conversion, up to its letter. */
  method ScanConversion(format: string, f: nat, ghost d: Directive) returns (g: nat, width: nat, pad: Pad)
    requires d.Conversion? && DirectiveOk(d) && StandsAt(format, f, Tail(d))
    ensures g == f + |Tail(d)| - 1 && g < |format| && format[g] == d.conv
    ensures width == Width(d) && pad == Pad(d.left, d.zeros > 0)
  {
    hide Tail, Value;
    TailAt(format, f, d);
    g, width, pad := f, 0, Pad(false, false);
    if format[g] == '-' {
      g := g + 1;
      pad := Pad(true, false);
    }
    ghost var z := g;
    while format[g] == '0'
      invariant z <= g <= z + d.zeros && pad == Pad(d.left, g > z)
      decreases z + d.zeros - g
    {
      g := g + 1;
      pad := Pad(pad.right, true);
    }
    ghost var w := g;
    assert d.width[g - w..] == d.width;
    while IsDigit(format[g])
      invariant w <= g <= w + |d.width| && Value(d.width[g - w..], 10, width) == Width(d)
      decreases w + |d.width| - g
    {
      WidthStep(d.width[g - w..], width);
      width := width * 10;
      width := width + (format[g] as int - '0' as int);
      g := g + 1;
      assert d.width[g - 1 - w..][1..] == d.width[g - w..];
    }
    WidthEnd(width);
  }

  lemma WidthStep(s: string, acc: nat)
    requires s != [] && IsDigit(s[0])
    ensures Value(s, 10, acc) == Value(s[1..], 10, acc * 10 + (s[0] as int - '0' as int))
  {
  }

  lemma WidthEnd(acc: nat)
    ensures Value([], 10, acc) == acc
  {
  }

  /** The conversion letters of print, once flags and width are read; an unknown letter prints nothing. */
  method Convert(out: Out, conv: char, width: nat, pad: Pad, args: seq<Arg>, n: nat, ghost d: Directive) returns (pc: nat, m: nat)
    requires d.Conversion? && d.conv == conv && Width(d) == width && Pad(d.left, d.zeros > 0) == pad
    requires out.Valid() && (TakesArgument(d) ==> n < |args| && Fits(d, args[n]) && out.Room(|Field(d, args[n])|))
    modifies out, out.Target()
    ensures m == (if TakesArgument(d) then n + 1 else n) && out.Valid()
    ensures out.emitted == old(out.emitted) + (if TakesArgument(d) then Field(d, args[n]) else [])
    ensures pc == (if TakesArgument(d) then |Field(d, args[n])| else 0) && (out.str == null || out.cursor == old(out.cursor) + pc)
  {
    hide Out.Valid, Padded, NumberField, Natural, Width;
    pc, m := 0, n;
    if conv == 's' {
      var s := args[m].s;
      m := m + 1;
      pc := Prints(out, if s.Some? then s.value else "(null)", width, pad);
    } else if conv == 'd' {
      m := m + 1;
      pc := Printi(out, args[n].i, 10, true, width, pad, 'a');
    } else if conv == 'x' {
      m := m + 1;
      pc := Printi(out, args[n].i, 16, false, width, pad, 'a');
    } else if conv == 'X' {
      m := m + 1;
      pc := Printi(out, args[n].i, 16, false, width, pad, 'A');
    } else if conv == 'u' {
      m := m + 1;
      pc := Printi(out, args[n].i, 10, false, width, pad, 'a');
    } else if conv == 'c' {
      m := m + 1;
      var scr := [(args[n].i % 0x100) as char, NUL];
      assert scr[..1] == [scr[0]];
      pc := Prints(out, if scr[0] == NUL then [] else scr[..1], width, pad);
    } else {
      assert out.emitted + [] == out.emitted;
    }
  }

  /** One conversion, from behind its percent sign to its letter. */
  method DoConversion(out: Out, format: string, f: nat, args: seq<Arg>, n: nat, ghost d: Directive) returns (g: nat, pc: nat, m: nat)
    requires d.Conversion? && DirectiveOk(d) && StandsAt(format, f, Tail(d))
    requires out.Valid() && (TakesArgument(d) ==> n < |args| && Fits(d, args[n]) && out.Room(|Field(d, args[n])|))
    modifies out, out.Target()
    ensures g == f + |Tail(d)| - 1 && m == (if TakesArgument(d) then n + 1 else n) && out.Valid()
    ensures out.emitted == old(out.emitted) + (if TakesArgument(d) then Field(d, args[n]) else Fixed(d))
    ensures pc == (if TakesArgument(d) then |Field(d, args[n])| else 0) && (out.str == null || out.cursor == old(out.cursor) + pc)
  {
    hide Out.Valid, Field, Fits, DirectiveOk, Width, Tail, StandsAt;
    var width, pad;
    g, width, pad := ScanConversion(format, f, d);
    pc, m := Convert(out, format[g], width, pad, args, n, d);
  }

  /** What is left of the output once the first directive is printed. */
  lemma OutputStep(ds: seq<Directive>, args: seq<Arg>, n: nat)
    requires ds != [] && n <= |args| && Matches(ds, args[n..])
    ensures var taken := TakesArgument(ds[0]);
      && (taken ==> n < |args| && Fits(ds[0], args[n]))
      && Matches(ds[1..], args[if taken then n + 1 else n..])
      && Output(ds, args[n..]) == First(ds[0], args, n) + Output(ds[1..], args[if taken then n + 1 else n..])
  {
    hide Field, Fixed, Fits;
    if TakesArgument(ds[0]) {
      assert args[n..][1..] == args[n + 1..] && args[n..][0] == args[n];
    }
  }

  /** The end of the format is the end of the directives. */
  lemma NothingLeft(rest: seq<Directive>, end: string, args: seq<Arg>)
    ensures Texts(rest) + end == [] ==> rest == []
    ensures rest == [] ==> Matches(rest, args) && Output(rest, args) == []
  {
    if rest != [] {
      assert |Text(rest[0])| > 0;
    }
  }

  /** One turn of the interpreter's loop, at the first directive of rest; done when the format ends in a lone percent sign. */
  method InterpretOne(out: Out, format: string, f: nat, args: seq<Arg>, n: nat, ghost rest: seq<Directive>, ghost end: string)
    returns (done: bool, g: nat, m: nat, pc: nat)
    requires f < |format| && format[f..] == Texts(rest) + end && end in ["", "%"] && (rest != [] ==> DirectiveOk(rest[0]))
    requires rest != [] && TakesArgument(rest[0]) ==> n < |args| && Fits(rest[0], args[n])
    requires out.Valid() && (rest != [] ==> out.Room(|First(rest[0], args, n)|))
    modifies out, out.Target()
    ensures out.Valid() && (done <==> rest == [])
    ensures done ==> out.emitted == old(out.emitted) && pc == 0 && m == n && out.cursor == old(out.cursor)
    ensures !done ==> out.emitted == old(out.emitted) + First(rest[0], args, n) && pc == |First(rest[0], args, n)|
    ensures !done ==> g == f + |Text(rest[0])| && m == if TakesArgument(rest[0]) then n + 1 else n
    ensures out.str == null || out.cursor == old(out.cursor) + pc
  {
    hide Out.Valid, Field, Fits, DirectiveOk, Texts, Width, Tail, StandsAt;
    NextDirective(format, f, rest, end);
    done, g, m, pc := false, f, n, 0;
    if format[g] == '%' {
      g := g + 1;
      if g == |format| {
        done := true;
        return;
      }
      if format[g] == '%' {
        out.PrintChar(format[g]);
        pc := pc + 1;
      } else {
        g, pc, m := DoConversion(out, format, g, args, n, rest[0]);
      }
    } else {
      out.PrintChar(format[g]);
      pc := pc + 1;
    }
    g := g + 1;
  }

  /** What the directive d prints, with the next argument if it takes one. */
  ghost function First(d: Directive, args: seq<Arg>, n: nat): string
    requires TakesArgument(d) ==> n < |args| && Fits(d, args[n])
  {
    if TakesArgument(d) then Field(d, args[n]) else Fixed(d)
  }

  /** The interpreter's loop, on a format that spells ds, or ds and a last percent sign that is ignored. */
  method Interpret(out: Out, format: string, ghost ds: seq<Directive>, ghost end: string, args: seq<Arg>) returns (pc: nat)
    requires format == Texts(ds) + end && end in ["", "%"] && (forall d :: d in ds ==> DirectiveOk(d)) && Matches(ds, args)
    requires out.Valid() && out.Room(|Output(ds, args)|)
    modifies out, out.Target()
    ensures out.Valid() && out.emitted == old(out.emitted) + Output(ds, args) && pc == |Output(ds, args)|
    ensures out.str == null || out.cursor == old(out.cursor) + pc
  {
    hide Out.Valid, Field, Fits, Output, Matches, DirectiveOk, Texts, TakesArgument, First;
    ghost var rest, goal := ds, old(out.emitted) + Output(ds, args);
    var f: nat, n: nat := 0, 0;
    pc := 0;
    assert args[0..] == args && format[0..] == format;
    while f < |format|
      invariant f <= |format| && format[f..] == Texts(rest) + end && (forall d :: d in rest ==> DirectiveOk(d))
      invariant n <= |args| && Matches(rest, args[n..])
      invariant out.Valid() && out.emitted + Output(rest, args[n..]) == goal && pc + |Output(rest, args[n..])| == |Output(ds, args)|
      invariant out.str == null || out.cursor == old(out.cursor) + pc
      decreases |format| - f
    {
      NextDirective(format, f, rest, end);
      NothingLeft(rest, end, args[n..]);
      if rest != [] {
        OutputStep(rest, args, n);
      }
      var done, more;
      done, f, n, more := InterpretOne(out, format, f, args, n, rest, end);
      if done {
        break;
      }
      pc := pc + more;
      rest := rest[1..];
    }
    NothingLeft(rest, end, args[n..]);
  }

  /** print: the interpreter, and the terminating NUL when the output goes into a string. */
  method Print(out: Out, format: string, ghost ds: seq<Directive>, ghost end: string, args: seq<Arg>) returns (pc: nat)
    requires format == Texts(ds) + end && end in ["", "%"] && (forall d :: d in ds ==> DirectiveOk(d)) && Matches(ds, args)
    requires out.Valid() && out.emitted == [] && out.Room(|Output(ds, args)| + 1)
    modifies out, out.Target()
    ensures pc == |Output(ds, args)|
    ensures out.str == null ==> out.console == out.before + Output(ds, args)
    ensures out.str != null ==> out.start + pc < out.str.Length == |out.before|
    ensures out.str != null ==> out.str[..] == out.before[..out.start] + Output(ds, args) + [NUL] + out.before[out.start + pc + 1..]
  {
    hide Output, Matches, DirectiveOk, Texts;
    pc := Interpret(out, format, ds, end, args);
    if out.str != null {
      out.str[out.cursor] := NUL;
    }
  }

  /** printf, with what the console showed before. */
  method Printf(console: string, format: string, ghost ds: seq<Directive>, ghost end: string, args: seq<Arg>)
    returns (pc: nat, shown: string)
    requires format == Texts(ds) + end && end in ["", "%"] && (forall d :: d in ds ==> DirectiveOk(d)) && Matches(ds, args)
    ensures shown == console + Output(ds, args) && pc == |Output(ds, args)|
  {
    hide Output, Matches, DirectiveOk, Texts;
    var out := new Out.Console(console);
    pc := Print(out, format, ds, end, args);
    shown := out.console;
  }

  /** sprintf, into a string with room for the output and its NUL. */
  method Sprintf(buffer: array<char>, format: string, ghost ds: seq<Directive>, ghost end: string, args: seq<Arg>) returns (pc: nat)
    requires format == Texts(ds) + end && end in ["", "%"] && (forall d :: d in ds ==> DirectiveOk(d)) && Matches(ds, args)
    requires |Output(ds, args)| < buffer.Length
    modifies buffer
    ensures pc == |Output(ds, args)| < buffer.Length
    ensures buffer[..pc] == Output(ds, args) && buffer[pc] == NUL && buffer[pc + 1..] == old(buffer[pc + 1..])
  {
    hide Output, Matches, DirectiveOk, Texts;
    hide Out.Valid;
    var out := new Out.Buffer(buffer, 0);
    pc := Print(out, format, ds, end, args);
    Terminated(buffer[..], Output(ds, args), old(buffer[..]));
  }

  lemma Terminated(b: string, o: string, before: string)
    requires |o| < |before| && b == before[..0] + o + [NUL] + before[|o| + 1..]
    ensures |b| == |before| && b[..|o|] == o && b[|o|] == NUL && b[|o| + 1..] == before[|o| + 1..]
  {
  }

  // A whole call, from the format to the buffer.

  function SampleDirectives(): seq<Directive> {
    [Conversion(true, 0, "4", 's'), Literal('|'), Conversion(false, 1, "4", 'd'), Literal('|'), Conversion(false, 0, "", 'X'), Percent]
  }

  function SampleArguments(): seq<Arg> {
    [Pointer(Some("ab")), Number(-7), Number(255)]
  }

  lemma SampleSpelling()
    ensures Texts(SampleDirectives()) == "%-4s|%04d|%X%%" && forall d :: d in SampleDirectives() ==> DirectiveOk(d)
  {
    hide Text;
    var ds := SampleDirectives();
    assert Texts(ds[6..]) == "";
    assert Texts(ds[5..]) == Text(ds[5]) + Texts(ds[6..]) by { assert ds[5..][1..] == ds[6..]; }
    assert Texts(ds[4..]) == Text(ds[4]) + Texts(ds[5..]) by { assert ds[4..][1..] == ds[5..]; }
    assert Texts(ds[3..]) == Text(ds[3]) + Texts(ds[4..]) by { assert ds[3..][1..] == ds[4..]; }
    assert Texts(ds[2..]) == Text(ds[2]) + Texts(ds[3..]) by { assert ds[2..][1..] == ds[3..]; }
    assert Texts(ds[1..]) == Text(ds[1]) + Texts(ds[2..]);
    assert Texts(ds) == Text(ds[0]) + Texts(ds[1..]);
    SampleTexts();
  }

  lemma SampleTexts()
    ensures Text(Conversion(true, 0, "4", 's')) == "%-4s" && Text(Conversion(false, 1, "4", 'd')) == "%04d"
    ensures Text(Conversion(false, 0, "", 'X')) == "%X" && Text(Literal('|')) == "|" && Text(Percent) == "%%"
  {
  }

  lemma SampleWidths()
    ensures Width(Conversion(true, 0, "4", 's')) == Width(Conversion(false, 1, "4", 'd')) == 4
    ensures Width(Conversion(false, 0, "", 'X')) == 0
  {
    Fields.WidthIs(Conversion(true, 0, "4", 's'), 4);
    Fields.WidthIs(Conversion(false, 1, "4", 'd'), 4);
    Fields.WidthIs(Conversion(false, 0, "", 'X'), 0);
  }

  lemma SampleFields()
    ensures Field(Conversion(true, 0, "4", 's'), Pointer(Some("ab"))) == "ab  "
    ensures Field(Conversion(false, 1, "4", 'd'), Number(-7)) == "-007"
    ensures Field(Conversion(false, 0, "", 'X'), Number(255)) == "FF"
  {
    hide Field, Width;
    SampleWidths();
    Fields.StringField(Conversion(true, 0, "4", 's'), Pointer(Some("ab")));
    var seven := Fields.NumericField(Conversion(false, 1, "4", 'd'), Number(-7));
    assert seven == "7";
    var f := Field(Conversion(false, 1, "4", 'd'), Number(-7));
    assert f == [f[0]] + f[1..] && f[1..] == "007";
    var ff := Fields.NumericField(Conversion(false, 0, "", 'X'), Number(255));
    assert ff[..|ff| - 1] == "F" && ff == ff[..|ff| - 1] + [ff[|ff| - 1]];
  }

  lemma SampleEnd()
    ensures var ds := [Literal('|'), Conversion(false, 0, "", 'X'), Percent];
      Matches(ds, [Number(255)]) && Output(ds, [Number(255)]) == "|FF%"
  {
    hide Field, Output, Matches, Fits;
    SampleFields();
    SampleFits();
    NoDirectives();
    var hex := Conversion(false, 0, "", 'X');
    assert [Percent] + [] == [Percent] && [hex] + [Percent] == [hex, Percent] && [Number(255)][1..] == [];
    Next(Percent, [], [], "");
    Next(hex, [Percent], [Number(255)], "%");
    Next(Literal('|'), [hex, Percent], [Number(255)], "FF%");
    assert [Literal('|')] + [hex, Percent] == [Literal('|'), hex, Percent];
  }

  lemma SampleOutput()
    ensures Matches(SampleDirectives(), SampleArguments())
    ensures Output(SampleDirectives(), SampleArguments()) == "ab  |-007|FF%"
  {
    hide Field, Output, Matches, Fits;
    var word, number := Conversion(true, 0, "4", 's'), Conversion(false, 1, "4", 'd');
    var end := [Literal('|'), Conversion(false, 0, "", 'X'), Percent];
    SampleFields();
    SampleFits();
    SampleEnd();
    var numbers := [Number(-7), Number(255)];
    assert numbers[1..] == [Number(255)] && SampleArguments()[1..] == numbers;
    Next(number, end, numbers, "|FF%");
    Next(Literal('|'), [number] + end, numbers, "-007|FF%");
    Next(word, [Literal('|')] + ([number] + end), SampleArguments(), "|-007|FF%");
    assert SampleDirectives() == [word] + ([Literal('|')] + ([number] + end));
  }

  lemma SampleFits()
    ensures Fits(Conversion(true, 0, "4", 's'), Pointer(Some("ab"))) && Fits(Conversion(false, 1, "4", 'd'), Number(-7))
    ensures Fits(Conversion(false, 0, "", 'X'), Number(255))
  {
  }

  lemma NoDirectives()
    ensures Matches([], []) && Output([], []) == ""
  {
  }

  /** One step of the output, from the back. */
  lemma Next(d: Directive, ds: seq<Directive>, args: seq<Arg>, o: string)
    requires TakesArgument(d) ==> args != [] && Fits(d, args[0])
    requires var rest := if TakesArgument(d) then args[1..] else args;
      Matches(ds, rest) && Output(ds, rest) == o
    ensures Matches([d] + ds, args)
    ensures Output([d] + ds, args) ==
      (if TakesArgument(d) then Field(d, args[0]) else match d case Literal(c) => [c] case Percent => "%" case _ => "") + o
  {
    hide Field, Fits;
    assert ([d] + ds)[1..] == ds;
    Fields.OutputIs(d, ds, args);
  }

  /** sprintf(buffer, "%-4s|%04d|%X%%", "ab", -7, 255). */
  method Sample(buffer: array<char>) returns (pc: nat)
    requires buffer.Length > 13
    modifies buffer
    ensures pc == 13 && buffer[..14] == "ab  |-007|FF%" + [NUL] && buffer[14..] == old(buffer[14..])
  {
    hide Output, Matches, DirectiveOk, Texts, SampleDirectives, SampleArguments;
    SampleSpelling();
    SampleOutput();
    pc := Sprintf(buffer, "%-4s|%04d|%X%%", SampleDirectives(), "", SampleArguments());
    assert buffer[..14] == buffer[..13] + [buffer[13]];
  }
}
