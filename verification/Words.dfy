/** Machine words of the i686 target and the arithmetic shared by the kernel files. */
module Words {
  const WORD: nat := 0x1_0000_0000

  type pos = x: int | 0 < x witness 1
  type uint8 = x: int | 0 <= x < 0x100
  type uint32 = x: int | 0 <= x < 0x1_0000_0000

  /** Reduction of an unbounded intermediate result to 32 bits. */
  function Wrap(x: int): (w: uint32) {
    x % WORD
  }

  lemma WrapAdd(a: int, b: int)
    ensures Wrap(Wrap(a) + b) == Wrap(a + b)
  {
    var q := a / WORD;
    assert a == q * WORD + Wrap(a);
    WrapMultiple(Wrap(a) + b, q);
  }

  lemma WrapSmall(x: int)
    requires 0 <= x < WORD
    ensures Wrap(x) == x
  {
  }

  lemma WrapMultiple(x: int, q: int)
    ensures Wrap(q * WORD + x) == Wrap(x)
  {
  }

  /** CEILING(x, y) of helpers.h, on operands small enough not to wrap. */
  function Ceil(x: nat, y: pos): (c: nat) {
    (x + y - 1) / y
  }

  /** Product and quotient under a name, so that a proof can keep nonlinear terms out of sight. */
  function Mul(a: nat, b: nat): (r: nat) {
    a * b
  }

  function Div(a: nat, b: pos): (r: nat) {
    a / b
  }

  lemma MulMono(a: nat, b: nat, y: nat)
    requires a <= b
    ensures Mul(a, y) <= Mul(b, y)
  {
  }

  lemma MulAdd(a: nat, b: nat, y: nat)
    ensures Mul(a + b, y) == Mul(a, y) + Mul(b, y)
  {
  }

  lemma MulOne(y: nat)
    ensures Mul(1, y) == y && Mul(y, 1) == y && Mul(0, y) == 0
  {
  }

  lemma DivBounds(a: nat, b: pos)
    ensures Mul(Div(a, b), b) <= a < Mul(Div(a, b), b) + b
  {
  }

  lemma DivExact(s: nat, b: pos)
    ensures Div(Mul(s, b), b) == s
  {
    hide Mul, Div;
    var q := Div(Mul(s, b), b);
    DivBounds(Mul(s, b), b);
    MulOne(b);
    MulAdd(q, 1, b);
    MulAdd(s, 1, b);
    if q < s {
      MulMono(q + 1, s, b);
    } else if s < q {
      MulMono(s + 1, q, b);
    }
  }

  /** Ceil(x, y) is the least c with x <= c * y. */
  lemma CeilBounds(x: nat, y: pos)
    ensures x <= Mul(Ceil(x, y), y) < x + y
    ensures forall c: nat :: x <= Mul(c, y) ==> Ceil(x, y) <= c
  {
    assert Ceil(x, y) == Div(x + y - 1, y);
    hide Mul, Div, Ceil;
    DivBounds(x + y - 1, y);
    forall c: nat | x <= Mul(c, y)
      ensures Ceil(x, y) <= c
    {
      if c < Ceil(x, y) {
        MulMono(c + 1, Ceil(x, y), y);
        MulAdd(c, 1, y);
        MulOne(y);
      }
    }
  }
}
