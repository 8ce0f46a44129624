/** The text printf.c produces for one number or string, and how to read a number back from it. */
module Numerals {
  import opened Words

  type int32 = x: int | -0x8000_0000 <= x < 0x8000_0000

  /** PAD_RIGHT and PAD_ZERO. */
  datatype Pad = Pad(right: bool, zero: bool)

  type Base = b: int | 10 <= b <= 16 witness 10

  function Repeat(c: char, n: nat): (s: string)
    ensures |s| == n
  {
    seq(n, _ => c)
  }

  function Max(a: int, b: int): int {
    if a > b then a else b
  }

  /** What prints writes. */
  function Padded(s: string, width: nat, pad: Pad): (r: string)
    ensures |r| == Max(width, |s|)
  {
    var fill := Repeat(if pad.zero && width > 0 then '0' else ' ', Max(width, |s|) - |s|);
    if pad.right then s + fill else fill + s
  }

  /** A digit below 16, with letters from letbase on. */
  function DigitChar(t: nat, letbase: char): char
    requires t < 16 && letbase in "aA"
  {
    if t < 10 then '0' + t as char else letbase + (t - 10) as char
  }

  /** Positional notation, most significant digit first; nothing for zero. */
  function Digits(u: nat, b: Base, letbase: char): (s: string)
    requires letbase in "aA"
    ensures u > 0 ==> s != []
  {
    if u == 0 then [] else Digits(u / b, b, letbase) + [DigitChar(u % b, letbase)]
  }

  /** The magnitude that is printed: of the negative number for signed decimals, else of the unsigned word. */
  function Magnitude(i: int32, b: Base, signed: bool): uint32 {
    var n: int := i;
    Wrap(if signed && b == 10 && n < 0 then -n else n)
  }

  predicate Negative(i: int32, b: Base, signed: bool) {
    signed && b == 10 && i < 0
  }

  /** The digits printed for i. */
  function Figures(i: int32, b: Base, signed: bool, letbase: char): (d: string)
    requires letbase in "aA"
    ensures d != []
  {
    if i == 0 then "0" else Digits(Magnitude(i, b, signed), b, letbase)
  }

  /** The number without padding. */
  function Natural(i: int32, b: Base, signed: bool, letbase: char): string
    requires letbase in "aA"
  {
    (if Negative(i, b, signed) then "-" else "") + Figures(i, b, signed, letbase)
  }

  /** A number's digits with its sign and padding; zero padding goes between the two. */
  function SignedField(digits: string, negative: bool, width: nat, pad: Pad): string {
    if !negative then Padded(digits, width, pad)
    else if width > 0 && pad.zero then "-" + Padded(digits, width - 1, pad)
    else Padded("-" + digits, width, pad)
  }

  /** What printi writes. */
  function NumberField(i: int32, b: Base, signed: bool, width: nat, pad: Pad, letbase: char): string
    requires letbase in "aA"
  {
    SignedField(Figures(i, b, signed, letbase), Negative(i, b, signed), width, pad)
  }

  /** A field is as wide as asked for, or as the number needs. */
  lemma FieldWidth(i: int32, b: Base, signed: bool, width: nat, pad: Pad, letbase: char)
    requires letbase in "aA"
    ensures |NumberField(i, b, signed, width, pad, letbase)| == Max(width, |Natural(i, b, signed, letbase)|)
  {
  }

  /** A number of k digits is at least b^(k-1); with b >= 10 a 32-bit word has at most ten. */
  function Power(b: nat, k: nat): nat {
    if k == 0 then 1 else b * Power(b, k - 1)
  }

  lemma {:induction false} DigitsAreFew(u: nat, b: Base, letbase: char, k: nat)
    requires letbase in "aA" && u < Power(10, k)
    ensures |Digits(u, b, letbase)| <= k
    decreases k
  {
    if u > 0 {
      assert u / b <= u / 10 by {
        DivMono(u, b);
      }
      assert u / 10 < Power(10, k - 1);
      DigitsAreFew(u / b, b, letbase, k - 1);
    }
  }

  lemma DivMono(u: nat, b: Base)
    ensures u / b <= u / 10
  {
    assert u / b * 10 <= u / b * b <= u;
  }

  lemma WordHasTenDigits(u: uint32, b: Base, letbase: char)
    requires letbase in "aA"
    ensures |Digits(u, b, letbase)| <= 10
  {
    assert Power(10, 10) == 10_000_000_000 by {
      assert Power(10, 5) == 100_000;
      assert Power(10, 8) == 100_000_000;
    }
    DigitsAreFew(u, b, letbase, 10);
  }

  // Reading a number back, as a C library reads one: spaces, a sign, digits up to the first other character.

  function DigitValue(c: char): int {
    if '0' <= c <= '9' then c as int - '0' as int
    else if 'a' <= c <= 'f' then c as int - 'a' as int + 10
    else if 'A' <= c <= 'F' then c as int - 'A' as int + 10
    else 99
  }

  /** The value of the digits at the front of s, behind digits worth acc. */
  function Value(s: string, b: Base, acc: nat): nat {
    if s == [] || DigitValue(s[0]) >= b then acc else Value(s[1..], b, acc * b + DigitValue(s[0]))
  }

  function Parse(s: string, b: Base): int {
    if s == [] then 0
    else if s[0] == ' ' then Parse(s[1..], b)
    else if s[0] == '-' then 0 - (Value(s[1..], b, 0) as int)
    else Value(s, b, 0)
  }

  ghost predicate AllDigits(s: string, b: Base) {
    forall k :: 0 <= k < |s| ==> DigitValue(s[k]) < b
  }

  lemma {:induction false} ValueAppend(s: string, t: string, b: Base, acc: nat)
    requires AllDigits(s, b)
    ensures Value(s + t, b, acc) == Value(t, b, Value(s, b, acc))
    decreases |s|
  {
    if s == [] {
      assert s + t == t;
    } else {
      assert (s + t)[1..] == s[1..] + t;
      ValueAppend(s[1..], t, b, acc * b + DigitValue(s[0]));
    }
  }

  lemma {:induction false} ValueOfDigits(u: nat, b: Base, letbase: char)
    requires letbase in "aA"
    ensures AllDigits(Digits(u, b, letbase), b) && Value(Digits(u, b, letbase), b, 0) == u
    decreases u
  {
    hide DigitChar, DigitValue, Value, AllDigits;
    if u == 0 {
      NoDigits(b);
    } else {
      var q, r := QuotientRemainder(u, b);
      ValueOfDigits(q, b, letbase);
      DigitOf(r, letbase);
      ValueAppend(Digits(q, b, letbase), [DigitChar(r, letbase)], b, 0);
      OneDigit(DigitChar(r, letbase), b, q);
    }
  }

  lemma QuotientRemainder(u: nat, b: Base) returns (q: nat, r: nat)
    ensures q == u / b && r == u % b && q * b + r == u && (u > 0 ==> q < u)
  {
    q, r := u / b, u % b;
  }

  lemma NoDigits(b: Base)
    ensures Value([], b, 0) == 0 && AllDigits([], b)
  {
  }

  lemma DigitOf(t: nat, letbase: char)
    requires t < 16 && letbase in "aA"
    ensures DigitValue(DigitChar(t, letbase)) == t
  {
  }

  lemma OneDigit(c: char, b: Base, acc: nat)
    requires DigitValue(c) < b
    ensures Value([c], b, acc) == acc * b + DigitValue(c)
    ensures forall s :: AllDigits(s, b) ==> AllDigits(s + [c], b)
  {
    assert [c][1..] == [];
  }

  /** Zeros behind a number multiply it; zeros in front of it do nothing. */
  lemma {:induction false} ValueOfZeros(n: nat, b: Base, acc: nat)
    ensures AllDigits(Repeat('0', n), b) && Value(Repeat('0', n), b, acc) == acc * Power(b, n)
    decreases n
  {
    if n > 0 {
      assert Repeat('0', n)[1..] == Repeat('0', n - 1);
      ValueOfZeros(n - 1, b, acc * b);
      assert acc * b * Power(b, n - 1) == acc * Power(b, n);
    }
  }

  lemma PowerGrows(b: Base, n: nat)
    ensures n > 0 ==> Power(b, n) > 1
  {
    if n > 0 {
      PowerGrows(b, n - 1);
      assert b * Power(b, n - 1) >= b by {
        assert Power(b, n - 1) >= 1;
      }
    }
  }

  lemma {:induction false} ParseSpaces(n: nat, s: string, b: Base)
    ensures Parse(Repeat(' ', n) + s, b) == Parse(s, b)
    decreases n
  {
    if n == 0 {
      assert Repeat(' ', n) + s == s;
    } else {
      assert (Repeat(' ', n) + s)[1..] == Repeat(' ', n - 1) + s;
      ParseSpaces(n - 1, s, b);
    }
  }

  lemma StopsAtSpaces(s: string, n: nat, b: Base)
    requires AllDigits(s, b)
    ensures Value(s + Repeat(' ', n), b, 0) == Value(s, b, 0)
  {
    ValueAppend(s, Repeat(' ', n), b, 0);
  }

  /** What zero padding makes of the value of digits. */
  lemma ZeroPaddedValue(d: string, w: nat, pad: Pad, b: Base)
    requires AllDigits(d, b) && pad.zero && w > 0
    ensures AllDigits(Padded(d, w, pad), b)
    ensures Value(Padded(d, w, pad), b, 0) == Value(d, b, 0) * if pad.right then Power(b, Max(w, |d|) - |d|) else 1
  {
    var n := Max(w, |d|) - |d|;
    ValueOfZeros(n, b, if pad.right then Value(d, b, 0) else 0);
    if pad.right {
      ValueAppend(d, Repeat('0', n), b, 0);
    } else {
      ValueAppend(Repeat('0', n), d, b, 0);
    }
  }

  lemma ParseDigits(d: string, b: Base)
    requires d != [] && AllDigits(d, b)
    ensures Parse(d, b) == Value(d, b, 0)
  {
    assert DigitValue(d[0]) < b;
  }

  /** Space padding is not seen by the reader, for a number with or without its sign. */
  lemma SpacePaddedValue(d: string, w: nat, pad: Pad, b: Base)
    requires d != [] && AllDigits(d, b) && !(pad.zero && w > 0)
    ensures Parse(Padded(d, w, pad), b) == Value(d, b, 0)
    ensures Parse(Padded("-" + d, w, pad), b) == -(Value(d, b, 0) as int)
  {
    var n, m := Max(w, |d|) - |d|, Max(w, |d| + 1) - |d| - 1;
    var e := "-" + d;
    assert e[1..] == d;
    if pad.right {
      StopsAtSpaces(d, n, b);
      StopsAtSpaces(d, m, b);
      assert DigitValue(d[0]) < b && (d + Repeat(' ', n))[0] == d[0];
      assert (e + Repeat(' ', m))[1..] == d + Repeat(' ', m);
    } else {
      ParseSpaces(n, d, b);
      ParseSpaces(m, e, b);
      ParseDigits(d, b);
    }
  }

  lemma FiguresValue(i: int32, b: Base, signed: bool, letbase: char)
    requires letbase in "aA"
    ensures AllDigits(Figures(i, b, signed, letbase), b)
    ensures Value(Figures(i, b, signed, letbase), b, 0) == Magnitude(i, b, signed)
    ensures Magnitude(i, b, signed) == 0 <==> i == 0
  {
    if i == 0 {
      assert Value("0", b, 0) == 0 by {
        assert "0"[1..] == [];
      }
    } else {
      ValueOfDigits(Magnitude(i, b, signed), b, letbase);
    }
  }

  /** The number a field stands for. */
  function Meaning(i: int32, b: Base, signed: bool): int {
    if Negative(i, b, signed) then i else Wrap(i)
  }

  /** Zeros written behind the number: the one way in which a field misleads its reader. */
  predicate ZerosBehind(i: int32, b: Base, signed: bool, width: nat, pad: Pad, letbase: char)
    requires letbase in "aA"
  {
    pad.right && pad.zero && i != 0 && width > |Natural(i, b, signed, letbase)|
  }

  /** Reading a printed field gives back the number, for every 32-bit value, exactly unless zeros were put behind it. */
  lemma RoundTrip(i: int32, b: Base, signed: bool, width: nat, pad: Pad, letbase: char)
    requires letbase in "aA"
    ensures Parse(NumberField(i, b, signed, width, pad, letbase), b) == Meaning(i, b, signed)
       <==> !ZerosBehind(i, b, signed, width, pad, letbase)
  {
    hide Figures, Value, Power, Padded, Digits, AllDigits;
    var d, m := Figures(i, b, signed, letbase), Magnitude(i, b, signed);
    FiguresValue(i, b, signed, letbase);
    var neg := Negative(i, b, signed);
    var w := if neg then width - 1 else width;
    if !(pad.zero && width > 0) {
      SpacePaddedValue(d, width, pad, b);
    } else if w > 0 {
      ZeroPaddedValue(d, w, pad, b);
      ZeroPaddedField(d, w, pad, b);
      PowerGrows(b, Max(w, |d|) - |d|);
      Scaled(m, Power(b, Max(w, |d|) - |d|));
    } else {
      Unpadded(d, pad, b);
    }
  }

  lemma Scaled(m: nat, p: nat)
    ensures m > 0 && p > 1 ==> m * p != m
    ensures m * 1 == m && 0 * p == 0
  {
  }

  lemma ZeroPaddedField(d: string, w: nat, pad: Pad, b: Base)
    requires d != [] && AllDigits(d, b) && AllDigits(Padded(d, w, pad), b)
    ensures Parse(Padded(d, w, pad), b) == Value(Padded(d, w, pad), b, 0)
    ensures Parse("-" + Padded(d, w, pad), b) == 0 - (Value(Padded(d, w, pad), b, 0) as int)
    ensures w <= |d| ==> Padded(d, w, pad) == d
  {
    ParseDigits(Padded(d, w, pad), b);
    assert ("-" + Padded(d, w, pad))[1..] == Padded(d, w, pad);
  }

  lemma Unpadded(d: string, pad: Pad, b: Base)
    requires d != [] && AllDigits(d, b)
    ensures Padded(d, 0, pad) == d && Parse("-" + d, b) == 0 - (Value(d, b, 0) as int)
  {
    assert ("-" + d)[1..] == d;
  }

  /** One, printed left-justified with zeros in two columns, reads as ten. */
  lemma OneReadsAsTen()
    ensures Parse(NumberField(1, 10, true, 2, Pad(true, true), 'a'), 10) == 10
  {
    assert Digits(1, 10, 'a') == "1" by {
      assert Digits(0, 10, 'a') == [];
    }
    assert NumberField(1, 10, true, 2, Pad(true, true), 'a') == "10";
    assert "10"[1..] == "0" && "0"[1..] == [];
    assert Value("10", 10, 0) == Value("0", 10, 1) == Value([], 10, 10) == 10;
  }
}
