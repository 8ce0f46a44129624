/**
 What the fields of a format look like, character by character: the argument's text as a reader would write it down, at
 the left or the right end of the field, with spaces or zeros in the rest.
 */
module Fields {
  import opened Words
  import opened Options
  import opened Numerals
  import opened Formats

  /** s at one end of a field of the given width, or alone if it is longer; the rest is zeros or spaces. */
  predicate Justified(f: string, s: string, width: nat, left: bool, zeros: bool) {
    var fill := if zeros then '0' else ' ';
    && |f| == (if width > |s| then width else |s|)
    && (if left then f[..|s|] == s && forall k :: |s| <= k < |f| ==> f[k] == fill
        else f[|f| - |s|..] == s && forall k :: 0 <= k < |f| - |s| ==> f[k] == fill)
  }

  /** t is u in base b, with these digits and no leading zero. */
  predicate Numeral(t: string, u: nat, b: nat, digits: string)
    requires 1 < b <= |digits|
    decreases |t|
  {
    && t != [] && t[|t| - 1] == digits[u % b]
    && if |t| == 1 then u < b else u >= b && Numeral(t[..|t| - 1], u / b, b, digits)
  }

  lemma PaddedIsJustified(s: string, width: nat, pad: Pad)
    ensures Justified(Padded(s, width, pad), s, width, pad.right, pad.zero)
  {
  }

  /** The text of %s is the string, or (null) for NULL. */
  lemma StringField(d: Directive, a: Arg)
    requires d.Conversion? && d.conv == 's' && Fits(d, a)
    ensures a.Pointer? && Justified(Field(d, a), match a.s case Some(s) => s case None => "(null)", Width(d), d.left, d.zeros > 0)
  {
    hide Padded, Justified, Width;
    PaddedIsJustified(Plain(d, a), Width(d), Pad(d.left, d.zeros > 0));
  }

  /** The text of %c is the character that is the argument's low byte, and empty for NUL. */
  lemma CharacterField(d: Directive, a: Arg)
    requires d.Conversion? && d.conv == 'c' && Fits(d, a)
    ensures a.Number? && a.i % 0x100 == 0 ==> Justified(Field(d, a), "", Width(d), d.left, d.zeros > 0)
    ensures a.Number? && a.i % 0x100 != 0 ==> Justified(Field(d, a), [(a.i % 0x100) as char], Width(d), d.left, d.zeros > 0)
    ensures a.Number?
  {
    hide Padded, Justified, Width;
    PaddedIsJustified(Plain(d, a), Width(d), Pad(d.left, d.zeros > 0));
  }

  lemma DigitOfTable(t: nat, letbase: char)
    requires t < 16 && letbase in "aA"
    ensures DigitChar(t, letbase) == if letbase == 'a' then "0123456789abcdef"[t] else "0123456789ABCDEF"[t]
  {
  }

  lemma OneMoreDigit(s: string, u: nat, b: Base, digits: string)
    requires b <= |digits| && if u < b then s == [] else Numeral(s, u / b, b, digits)
    ensures Numeral(s + [digits[u % b]], u, b, digits)
  {
    var t := s + [digits[u % b]];
    assert t[..|t| - 1] == s;
  }

  lemma Quotients(u: nat, b: Base)
    ensures u < b <==> u / b == 0
    ensures u > 0 ==> u / b < u
  {
  }

  lemma {:induction false} DigitsAreNumeral(u: nat, b: Base, letbase: char)
    requires letbase in "aA" && u > 0
    ensures Numeral(Digits(u, b, letbase), u, b, if letbase == 'a' then "0123456789abcdef" else "0123456789ABCDEF")
    decreases u
  {
    hide DigitChar, Numeral;
    var q := u / b;
    Quotients(u, b);
    DigitOfTable(u % b, letbase);
    if q > 0 {
      DigitsAreNumeral(q, b, letbase);
    }
    OneMoreDigit(Digits(q, b, letbase), u, b, if letbase == 'a' then "0123456789abcdef" else "0123456789ABCDEF");
  }

  lemma FiguresAreNumeral(i: int32, b: Base, signed: bool, letbase: char)
    requires letbase in "aA"
    ensures Numeral(Figures(i, b, signed, letbase), Magnitude(i, b, signed), b,
                    if letbase == 'a' then "0123456789abcdef" else "0123456789ABCDEF")
  {
    hide Numeral, Digits;
    if i == 0 {
      ZeroIsNumeral(b, if letbase == 'a' then "0123456789abcdef" else "0123456789ABCDEF");
    } else {
      DigitsAreNumeral(Magnitude(i, b, signed), b, letbase);
    }
  }

  /**
   The text of %d, %u, %x and %X: the number in base ten or sixteen, %x with small and %X with capital letters; %d puts a
   minus sign in front of a negative number, and in front of the zeros if it is filled with them; the others print it
   modulo 2^32.
   */
  lemma NumericField(d: Directive, a: Arg) returns (t: string)
    requires d.Conversion? && d.conv in "dxXu" && Fits(d, a)
    ensures a.Number? &&
      Numeral(t, if a.i >= 0 then a.i else if d.conv == 'd' then 0 - (a.i as int) else a.i as int + 0x1_0000_0000,
              if d.conv in "xX" then 16 else 10, if d.conv == 'X' then "0123456789ABCDEF" else "0123456789abcdef")
    ensures d.conv != 'd' || a.i >= 0 ==> Justified(Field(d, a), t, Width(d), d.left, d.zeros > 0)
    ensures d.conv == 'd' && a.i < 0 && !(d.zeros > 0 && Width(d) > 0) ==> Justified(Field(d, a), "-" + t, Width(d), d.left, false)
    ensures d.conv == 'd' && a.i < 0 && d.zeros > 0 && Width(d) > 0 ==>
      Field(d, a) != [] && Field(d, a)[0] == '-' && Justified(Field(d, a)[1..], t, Width(d) - 1, d.left, true)
  {
    hide Padded, Justified, Width, Figures, Numeral, SignedField, Magnitude;
    var b, signed, letbase := if d.conv in "xX" then 16 else 10, d.conv == 'd', if d.conv == 'X' then 'A' else 'a';
    t := Figures(a.i, b, signed, letbase);
    FiguresAreNumeral(a.i, b, signed, letbase);
    MagnitudeIs(a.i, b, signed);
    SignedIsJustified(t, Negative(a.i, b, signed), Width(d), Pad(d.left, d.zeros > 0));
  }

  lemma MagnitudeIs(i: int32, b: Base, signed: bool)
    ensures Magnitude(i, b, signed) ==
      if i >= 0 then i else if signed && b == 10 then 0 - (i as int) else i as int + 0x1_0000_0000
  {
  }

  lemma SignedIsJustified(t: string, negative: bool, width: nat, pad: Pad)
    ensures var f := SignedField(t, negative, width, pad);
      && (!negative ==> Justified(f, t, width, pad.right, pad.zero))
      && (negative && !(pad.zero && width > 0) ==> Justified(f, "-" + t, width, pad.right, false))
      && (negative && pad.zero && width > 0 ==> f != [] && f[0] == '-' && Justified(f[1..], t, width - 1, pad.right, true))
  {
    hide Padded, Justified;
    PaddedIsJustified(t, width, pad);
    UnfilledIsJustified("-" + t, width, pad);
    if width > 0 {
      PaddedIsJustified(t, width - 1, pad);
      assert ("-" + Padded(t, width - 1, pad))[1..] == Padded(t, width - 1, pad);
    }
  }

  lemma ZeroIsNumeral(b: Base, digits: string)
    requires b <= |digits| && digits[0] == '0'
    ensures Numeral("0", 0, b, digits)
  {
  }

  lemma UnfilledIsJustified(s: string, width: nat, pad: Pad)
    ensures !(pad.zero && width > 0) ==> Justified(Padded(s, width, pad), s, width, pad.right, false)
  {
  }

  /** Positional notation is unique, so that a numeral is what Digits spells, and reads back as its number. */
  lemma {:induction false} NumeralIsDigits(t: string, u: nat, b: Base)
    requires Numeral(t, u, b, "0123456789abcdef") && u > 0
    ensures t == Digits(u, b, 'a')
    decreases |t|
  {
    hide DigitChar;
    DigitOfTable(u % b, 'a');
    Quotients(u, b);
    assert t == t[..|t| - 1] + [t[|t| - 1]];
    if |t| == 1 {
      assert u / b == 0 && Digits(0, b, 'a') == [];
    } else {
      NumeralIsDigits(t[..|t| - 1], u / b, b);
    }
  }

  /** The width of a field is the number that its decimal digits spell. */
  lemma WidthIs(d: Directive, n: nat)
    requires d.Conversion?
    ensures d.width == [] ==> Width(d) == 0
    ensures n > 0 && Numeral(d.width, n, 10, "0123456789abcdef") ==> Width(d) == n
  {
    if n > 0 && Numeral(d.width, n, 10, "0123456789abcdef") {
      NumeralIsDigits(d.width, n, 10);
      ValueOfDigits(n, 10, 'a');
    }
  }

  /** What each directive adds to the output: itself, a percent sign, the field of its argument, or nothing. */
  lemma OutputIs(d: Directive, ds: seq<Directive>, args: seq<Arg>)
    requires Matches([d] + ds, args)
    ensures Output([], args) == ""
    ensures d.Literal? ==> Matches(ds, args) && Output([d] + ds, args) == [d.c] + Output(ds, args)
    ensures d.Percent? ==> Matches(ds, args) && Output([d] + ds, args) == "%" + Output(ds, args)
    ensures d.Conversion? && d.conv !in "sdxXuc" ==> Matches(ds, args) && Output([d] + ds, args) == Output(ds, args)
    ensures d.Conversion? && d.conv in "sdxXuc" ==>
      args != [] && Fits(d, args[0]) && Matches(ds, args[1..]) && Output([d] + ds, args) == Field(d, args[0]) + Output(ds, args[1..])
  {
    hide Field, Fits;
    assert ([d] + ds)[1..] == ds;
  }

  /** What can stand in a format, in characters. */
  lemma WellFormed(d: Directive)
    ensures d.Conversion? ==> (DirectiveOk(d) <==>
              && (forall k :: 0 <= k < |d.width| ==> 48 <= d.width[k] as int <= 57) && (d.width != [] ==> d.width[0] as int != 48)
              && !(48 <= d.conv as int <= 57) && d.conv != 0 as char
              && (!d.left && d.zeros == 0 && d.width == [] ==> d.conv as int != 37 && d.conv as int != 45))
    ensures d.Literal? ==> (DirectiveOk(d) <==> d.c != '%' && d.c != 0 as char)
    ensures d.Percent? ==> DirectiveOk(d)
  {
  }
}
