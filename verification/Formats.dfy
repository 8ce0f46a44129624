/** The formats print understands, as the directives they spell and the output those ask for. */
module Formats {
  import opened Words
  import opened Options
  import opened Numerals

  /** An argument: an int, or a string pointer that may be NULL; the string ends in front of its NUL. */
  datatype Arg = Number(i: int32) | Pointer(s: Option<string>)

  /** Ordinary characters, a percent sign, or a conversion with its flags and its field width. */
  datatype Directive = Literal(c: char) | Percent | Conversion(left: bool, zeros: nat, width: string, conv: char)

  const NUL: char := 0 as char

  predicate IsDigit(c: char) {
    '0' <= c <= '9'
  }

  /** What can stand in a format at all; a conversion with an unknown letter is read and prints nothing. */
  ghost predicate DirectiveOk(d: Directive) {
    match d
    case Literal(c) => c != '%' && c != NUL
    case Percent => true
    case Conversion(left, zeros, width, conv) =>
      && (forall k :: 0 <= k < |width| ==> IsDigit(width[k])) && (width != [] ==> width[0] != '0')
      && !IsDigit(conv) && conv != NUL && (!left && zeros == 0 && width == [] ==> conv != '%' && conv != '-')
  }

  /** How a directive is written, behind its percent sign if it has one. */
  function Tail(d: Directive): string
    requires d.Conversion?
  {
    (if d.left then "-" else "") + Repeat('0', d.zeros) + d.width + [d.conv]
  }

  function Text(d: Directive): string {
    match d
    case Literal(c) => [c]
    case Percent => "%%"
    case Conversion(_, _, _, _) => "%" + Tail(d)
  }

  function Texts(ds: seq<Directive>): string {
    if ds == [] then [] else Text(ds[0]) + Texts(ds[1..])
  }

  function Width(d: Directive): nat
    requires d.Conversion?
  {
    Value(d.width, 10, 0)
  }

  predicate TakesArgument(d: Directive) {
    d.Conversion? && d.conv in "sdxXuc"
  }

  predicate Fits(d: Directive, a: Arg) {
    && TakesArgument(d) && (d.conv == 's' <==> a.Pointer?)
    && (a.Pointer? && a.s.Some? ==> NUL !in a.s.value)
  }

  /** The arguments suit the directives; further ones are ignored. */
  ghost predicate Matches(ds: seq<Directive>, args: seq<Arg>) {
    if ds == [] then true
    else if TakesArgument(ds[0]) then args != [] && Fits(ds[0], args[0]) && Matches(ds[1..], args[1..])
    else Matches(ds[1..], args)
  }

  /** The characters of the argument alone. A character is the argument's low byte, and nothing for zero. */
  function Plain(d: Directive, a: Arg): string
    requires Fits(d, a)
  {
    match d.conv
    case 's' => if a.s.Some? then a.s.value else "(null)"
    case 'd' => Natural(a.i, 10, true, 'a')
    case 'x' => Natural(a.i, 16, false, 'a')
    case 'X' => Natural(a.i, 16, false, 'A')
    case 'u' => Natural(a.i, 10, false, 'a')
    case _ => if a.i % 0x100 == 0 then [] else [(a.i % 0x100) as char]
  }

  /** The field an argument is printed in. */
  function Field(d: Directive, a: Arg): string
    requires Fits(d, a)
  {
    var pad := Pad(d.left, d.zeros > 0);
    match d.conv
    case 'd' => NumberField(a.i, 10, true, Width(d), pad, 'a')
    case 'x' => NumberField(a.i, 16, false, Width(d), pad, 'a')
    case 'X' => NumberField(a.i, 16, false, Width(d), pad, 'A')
    case 'u' => NumberField(a.i, 10, false, Width(d), pad, 'a')
    case _ => Padded(Plain(d, a), Width(d), pad)
  }

  /** The output of one directive that takes no argument. */
  function Fixed(d: Directive): string {
    match d
    case Literal(c) => [c]
    case Percent => "%"
    case _ => []
  }

  /** The output of a format. */
  function Output(ds: seq<Directive>, args: seq<Arg>): string
    requires Matches(ds, args)
  {
    if ds == [] then []
    else if TakesArgument(ds[0]) then Field(ds[0], args[0]) + Output(ds[1..], args[1..])
    else Fixed(ds[0]) + Output(ds[1..], args)
  }

  /** Every field has the length asked for, or that of the argument where it is longer. */
  lemma FieldIsWideEnough(d: Directive, a: Arg)
    requires Fits(d, a)
    ensures |Field(d, a)| == Max(Width(d), |Plain(d, a)|)
  {
  }

  /** A number printed by a format can be read back, unless the flags put zeros behind it. */
  lemma FormatRoundTrip(d: Directive, a: Arg)
    requires Fits(d, a) && d.conv in "dxXu"
    ensures var b := if d.conv in "xX" then 16 else 10;
      var pad, letbase := Pad(d.left, d.zeros > 0), if d.conv == 'X' then 'A' else 'a';
      Parse(Field(d, a), b) == (if d.conv == 'd' then a.i else Wrap(a.i))
      <==> !ZerosBehind(a.i, b, d.conv == 'd', Width(d), pad, letbase)
  {
    hide NumberField, ZerosBehind, Parse, Width;
    var b, letbase := if d.conv in "xX" then 16 else 10, if d.conv == 'X' then 'A' else 'a';
    RoundTrip(a.i, b, d.conv == 'd', Width(d), Pad(d.left, d.zeros > 0), letbase);
  }

  /** Directives print one after the other. */
  lemma {:induction false} OutputAppend(ds: seq<Directive>, es: seq<Directive>, args: seq<Arg>, more: seq<Arg>)
    requires Matches(ds, args) && Matches(es, more) && |args| == Arguments(ds)
    ensures Matches(ds + es, args + more) && Output(ds + es, args + more) == Output(ds, args) + Output(es, more)
    decreases |ds|
  {
    hide Field, Fixed, Fits;
    if ds == [] {
      assert ds + es == es && args + more == more;
    } else {
      assert (ds + es)[1..] == ds[1..] + es;
      if TakesArgument(ds[0]) {
        assert (args + more)[1..] == args[1..] + more;
        OutputAppend(ds[1..], es, args[1..], more);
      } else {
        OutputAppend(ds[1..], es, args, more);
      }
    }
  }

  function Arguments(ds: seq<Directive>): nat {
    if ds == [] then 0 else (if TakesArgument(ds[0]) then 1 else 0) + Arguments(ds[1..])
  }

  // Where the interpreter is in a format.

  /** s stands in format at position f. */
  predicate StandsAt(format: string, f: nat, s: string) {
    f + |s| <= |format| && format[f..f + |s|] == s
  }

  lemma Pieces(format: string, f: nat, s: string, t: string)
    requires StandsAt(format, f, s + t)
    ensures StandsAt(format, f, s) && StandsAt(format, f + |s|, t)
  {
    var u := s + t;
    assert format[f..f + |u|][..|s|] == u[..|s|] == s && format[f..f + |u|][|s|..] == u[|s|..] == t;
    assert format[f..f + |s|] == format[f..f + |u|][..|s|] && format[f + |s|..f + |u|] == format[f..f + |u|][|s|..];
  }

  lemma CharactersAt(format: string, f: nat, s: string)
    requires StandsAt(format, f, s)
    ensures forall k {:trigger format[k]} :: f <= k < f + |s| ==> format[k] == s[k - f]
  {
    forall k {:trigger format[k]} | f <= k < f + |s|
      ensures format[k] == s[k - f]
    {
      assert format[f..f + |s|][k - f] == format[k];
    }
  }

  lemma TailAt(format: string, f: nat, d: Directive)
    requires d.Conversion? && StandsAt(format, f, Tail(d))
    ensures var z := f + if d.left then 1 else 0;
      && |Tail(d)| == z - f + d.zeros + |d.width| + 1
      && (d.left ==> format[f] == '-')
      && (forall k {:trigger format[k]} :: z <= k < z + d.zeros ==> format[k] == '0')
      && (forall k {:trigger format[k]} :: z + d.zeros <= k < z + d.zeros + |d.width| ==> format[k] == d.width[k - z - d.zeros])
      && format[z + d.zeros + |d.width|] == d.conv
  {
    hide StandsAt;
    var sign, zs := if d.left then "-" else "", Repeat('0', d.zeros);
    assert Tail(d) == sign + zs + d.width + [d.conv];
    Pieces(format, f, sign + zs + d.width, [d.conv]);
    Pieces(format, f, sign + zs, d.width);
    Pieces(format, f, sign, zs);
    CharactersAt(format, f, sign);
    CharactersAt(format, f + |sign|, zs);
    CharactersAt(format, f + |sign| + d.zeros, d.width);
    CharactersAt(format, f + |sign| + d.zeros + |d.width|, [d.conv]);
    StandsInside(format, f, Tail(d));
  }

  lemma StandsInside(format: string, f: nat, s: string)
    ensures StandsAt(format, f, s) ==> f + |s| <= |format|
  {
  }

  /** What the interpreter finds at position f. */
  lemma NextDirective(format: string, f: nat, rest: seq<Directive>, end: string)
    requires f < |format| && format[f..] == Texts(rest) + end && end in ["", "%"] && (rest != [] ==> DirectiveOk(rest[0]))
    ensures rest == [] ==> format[f] == '%' && f + 1 == |format|
    ensures rest != [] ==> f + |Text(rest[0])| <= |format| && format[f + |Text(rest[0])|..] == Texts(rest[1..]) + end
    ensures rest != [] && rest[0].Literal? ==> format[f] == rest[0].c != '%'
    ensures rest != [] && rest[0].Percent? ==> format[f] == '%' && f + 1 < |format| && format[f + 1] == '%'
    ensures rest != [] && rest[0].Conversion? ==>
      format[f] == '%' && f + 1 < |format| && format[f + 1] != '%' && StandsAt(format, f + 1, Tail(rest[0]))
  {
    hide Text, Texts, Tail, DirectiveOk, StandsAt;
    if rest == [] {
      TextsStep(rest, end);
      assert format[f..][0] == end[0];
    } else {
      var d, r := rest[0], Texts(rest[1..]) + end;
      TextsStep(rest, end);
      Front(format, f, Text(d), r);
      FirstCharacter(d);
      if d.Conversion? {
        ConversionAt(format, f, d, r);
      }
    }
  }

  lemma TextsStep(rest: seq<Directive>, end: string)
    ensures Texts(rest) + end == if rest == [] then end else Text(rest[0]) + (Texts(rest[1..]) + end)
  {
    hide Text;
  }

  lemma ConversionAt(format: string, f: nat, d: Directive, r: string)
    requires f <= |format| && d.Conversion? && DirectiveOk(d) && format[f..] == Text(d) + r
    ensures f + 1 < |format| && format[f] == '%' && format[f + 1] != '%' && StandsAt(format, f + 1, Tail(d))
  {
    hide Tail, DirectiveOk;
    FirstCharacter(d);
    assert Text(d) + r == "%" + (Tail(d) + r);
    Front(format, f, "%", Tail(d) + r);
    Front(format, f + 1, Tail(d), r);
    assert format[f + 1 + 0] == Tail(d)[0] && format[f + 0] == "%"[0];
  }

  lemma Front(format: string, f: nat, t: string, r: string)
    requires f <= |format| && format[f..] == t + r
    ensures StandsAt(format, f, t) && f + |t| <= |format| && format[f + |t|..] == r
    ensures forall k {:trigger t[k]} :: 0 <= k < |t| ==> format[f + k] == t[k]
  {
    assert format[f..][..|t|] == t && format[f..][|t|..] == r;
    forall k | 0 <= k < |t|
      ensures format[f + k] == t[k]
    {
      assert format[f..][k] == t[k];
    }
  }

  lemma FirstCharacter(d: Directive)
    requires DirectiveOk(d)
    ensures d.Literal? ==> d.c != '%' && Text(d)[0] == d.c
    ensures Text(d) != [] && (d.Percent? ==> |Text(d)| == 2 && Text(d)[0] == Text(d)[1] == '%')
    ensures d.Conversion? ==> Text(d)[0] == '%' && |Tail(d)| > 0 && Tail(d)[0] != '%'
  {
  }

  // Which strings are formats: a string spells at most one list of directives, and spells one unless it breaks off.

  function LeadingZeros(s: string): (n: nat)
    ensures n <= |s| && (forall k :: 0 <= k < n ==> s[k] == '0') && (n < |s| ==> s[n] != '0')
  {
    if s == [] || s[0] != '0' then 0 else
      var n := LeadingZeros(s[1..]);
      assert forall k :: 1 <= k < n + 1 ==> s[k] == s[1..][k - 1];
      n + 1
  }

  function LeadingDigits(s: string): (n: nat)
    ensures n <= |s| && (forall k :: 0 <= k < n ==> IsDigit(s[k])) && (n < |s| ==> !IsDigit(s[n]))
  {
    if s == [] || !IsDigit(s[0]) then 0 else
      var n := LeadingDigits(s[1..]);
      assert forall k :: 1 <= k < n + 1 ==> s[k] == s[1..][k - 1];
      n + 1
  }

  /** A conversion that breaks off: a percent sign, flags and digits, at least one of them, and no letter. */
  ghost predicate BrokenOff(s: string) {
    exists left: bool, zeros: nat, width: string {:trigger Stump(left, zeros, width)} ::
      && s == Stump(left, zeros, width) && |s| > 1
      && (forall k :: 0 <= k < |width| ==> IsDigit(width[k])) && (width != [] ==> width[0] != '0')
  }

  function Stump(left: bool, zeros: nat, width: string): string {
    "%" + (if left then "-" else "") + Repeat('0', zeros) + width
  }

  lemma SplitZeros(s: string) returns (zeros: nat, r: string)
    ensures s == Repeat('0', zeros) + r && (r != [] ==> r[0] != '0')
  {
    zeros := LeadingZeros(s);
    r := s[zeros..];
    assert s[..zeros] == Repeat('0', zeros);
  }

  lemma SplitDigits(s: string) returns (width: string, tail: string)
    ensures s == width + tail && (forall k :: 0 <= k < |width| ==> IsDigit(width[k]))
    ensures (tail != [] ==> !IsDigit(tail[0])) && (width != [] ==> width[0] == s[0])
  {
    var n := LeadingDigits(s);
    width, tail := s[..n], s[n..];
  }

  lemma Regroup(sign: string, zs: string, width: string, tail: string)
    ensures "%" + (sign + (zs + (width + tail))) == "%" + sign + zs + width + tail
  {
  }

  /** A string after a percent sign falls into a sign, zeros, digits and the rest. */
  lemma SplitFlags(s: string) returns (left: bool, zeros: nat, width: string, tail: string)
    requires s != []
    ensures "%" + s == Stump(left, zeros, width) + tail && |tail| <= |s|
    ensures (forall k :: 0 <= k < |width| ==> IsDigit(width[k])) && (width != [] ==> width[0] != '0')
    ensures tail != [] ==> !IsDigit(tail[0])
    ensures tail != [] && !left && zeros == 0 && width == [] ==> tail == s && s[0] != '-'
  {
    hide Repeat;
    left := s[0] == '-';
    var sign, after := if left then "-" else "", if left then s[1..] else s;
    assert s == sign + after;
    var digits;
    zeros, digits := SplitZeros(after);
    width, tail := SplitDigits(digits);
    Regroup(sign, Repeat('0', zeros), width, tail);
  }

  /** One conversion at the front of s, or its stump. */
  lemma ReadConversion(s: string) returns (d: Directive, rest: string, broken: bool)
    requires |s| > 1 && s[0] == '%' && s[1] != '%' && NUL !in s
    ensures broken ==> BrokenOff(s)
    ensures !broken ==> d.Conversion? && DirectiveOk(d) && s == Text(d) + rest && |rest| < |s| && NUL !in rest
  {
    hide Stump;
    assert s == "%" + s[1..];
    var left, zeros, width, tail := SplitFlags(s[1..]);
    broken := tail == [];
    d, rest := Percent, [];
    if broken {
      assert s == Stump(left, zeros, width);
    } else {
      SuffixOf(s, Stump(left, zeros, width), tail);
      d, rest := Conversion(left, zeros, width, tail[0]), tail[1..];
      assert tail == [tail[0]] + rest;
      StumpText(d, rest);
    }
  }

  lemma SuffixOf(s: string, a: string, t: string)
    requires s == a + t
    ensures forall c :: c in t ==> c in s
  {
  }

  lemma StumpText(d: Directive, rest: string)
    requires d.Conversion?
    ensures Text(d) + rest == Stump(d.left, d.zeros, d.width) + ([d.conv] + rest)
  {
    var sign, zs := if d.left then "-" else "", Repeat('0', d.zeros);
    assert Text(d) == "%" + sign + zs + d.width + [d.conv];
  }

  /** One directive at the front of s, or the stump of one. */
  lemma ReadOne(s: string) returns (d: Directive, rest: string, broken: bool)
    requires s != [] && s != "%" && NUL !in s
    ensures broken ==> BrokenOff(s)
    ensures !broken ==> DirectiveOk(d) && s == Text(d) + rest && |rest| < |s| && NUL !in rest
  {
    hide BrokenOff, DirectiveOk;
    if s[0] != '%' {
      d, rest, broken := Literal(s[0]), s[1..], false;
      SimpleOk(d);
    } else if s[1] == '%' {
      d, rest, broken := Percent, s[2..], false;
      SimpleOk(d);
    } else {
      d, rest, broken := ReadConversion(s);
    }
  }

  /** Every NUL-terminated string is a format, possibly with a lone percent sign at its end, unless it breaks off. */
  lemma ReadFormat(s: string) returns (ds: seq<Directive>, end: string)
    requires NUL !in s
    ensures s == Texts(ds) + end && (forall d :: d in ds ==> DirectiveOk(d)) && (end in ["", "%"] || BrokenOff(end))
    decreases |s|
  {
    hide BrokenOff, DirectiveOk, Text;
    ds, end := [], s;
    if s != [] && s != "%" {
      var d, rest, broken := ReadOne(s);
      if !broken {
        var more;
        more, end := ReadFormat(rest);
        ds := [d] + more;
        assert ds[1..] == more;
        TextsStep(ds, end);
      }
    }
  }

  lemma SimpleOk(d: Directive)
    requires d.Percent? || (d.Literal? && d.c != '%' && d.c != NUL)
    ensures DirectiveOk(d)
  {
  }

  /** Two conversions that stand at the same place are the same. */
  lemma TailUnique(format: string, f: nat, d: Directive, e: Directive)
    requires d.Conversion? && e.Conversion? && DirectiveOk(d) && DirectiveOk(e)
    requires StandsAt(format, f, Tail(d)) && StandsAt(format, f, Tail(e))
    ensures d == e
  {
    hide StandsAt, Tail;
    TailAt(format, f, d);
    TailAt(format, f, e);
    StandsInside(format, f, Tail(d));
    StandsInside(format, f, Tail(e));
    SameSign(format, f, d, e);
    var z := f + if d.left then 1 else 0;
    assert format[z + d.zeros] != '0' && format[z + e.zeros] != '0';
    assert d.zeros == e.zeros;
    var w := z + d.zeros;
    assert !IsDigit(format[w + |d.width|]) && !IsDigit(format[w + |e.width|]);
    assert |d.width| == |e.width|;
    forall k | 0 <= k < |d.width|
      ensures d.width[k] == e.width[k]
    {
      assert format[w + k] == d.width[k];
    }
  }

  lemma SameSign(format: string, f: nat, d: Directive, e: Directive)
    requires d.Conversion? && e.Conversion? && DirectiveOk(d) && DirectiveOk(e)
    requires StandsAt(format, f, Tail(d)) && StandsAt(format, f, Tail(e))
    ensures d.left == e.left
  {
    hide StandsAt, Tail;
    TailAt(format, f, d);
    TailAt(format, f, e);
    StandsInside(format, f, Tail(d));
    StandsInside(format, f, Tail(e));
  }

  /** A string spells directives in one way only, so its output is a function of the string. */
  lemma {:induction false} SpelledOnce(format: string, f: nat, ds: seq<Directive>, end: string, es: seq<Directive>, end': string)
    requires f <= |format| && format[f..] == Texts(ds) + end == Texts(es) + end' && end in ["", "%"] && end' in ["", "%"]
    requires (forall d :: d in ds ==> DirectiveOk(d)) && (forall e :: e in es ==> DirectiveOk(e))
    ensures ds == es && end == end'
    decreases |ds|
  {
    hide StandsAt, Tail, Text, Texts, DirectiveOk;
    TextsStep(ds, end);
    TextsStep(es, end');
    if f == |format| {
      Nonempty(ds, end);
      Nonempty(es, end');
    } else {
      NextDirective(format, f, ds, end);
      NextDirective(format, f, es, end');
      if ds != [] && es != [] {
        if ds[0].Conversion? {
          TailUnique(format, f + 1, ds[0], es[0]);
        }
        SpelledOnce(format, f + |Text(ds[0])|, ds[1..], end, es[1..], end');
      } else {
        Nonempty(ds, end);
        Nonempty(es, end');
        LongerThanPercent(ds, end);
        LongerThanPercent(es, end');
      }
    }
  }

  lemma Nonempty(ds: seq<Directive>, end: string)
    ensures Texts(ds) + end == [] ==> ds == [] && end == []
  {
    if ds != [] {
      assert |Text(ds[0])| > 0;
    }
  }

  /** A percent sign that ends the format is not the start of a directive. */
  lemma LongerThanPercent(ds: seq<Directive>, end: string)
    requires forall d :: d in ds ==> DirectiveOk(d)
    ensures ds != [] ==> |Texts(ds) + end| > 1 || (Texts(ds) + end)[0] != '%'
    ensures ds == [] ==> Texts(ds) + end == end
  {
    if ds != [] {
      assert ds[0] in ds;
      FirstCharacter(ds[0]);
      assert (Texts(ds) + end)[0] == Text(ds[0])[0];
      assert |Texts(ds) + end| >= |Text(ds[0])|;
    }
  }
}
