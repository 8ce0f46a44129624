/**
 What the processor makes of a page directory: 32-bit paging with 4 MB pages, section 4.3 of volume 3A of the Intel 64
 and IA-32 Architectures Software Developer's Manual. A word of the directory covers 4 MB of addresses. Its bit 0 says that
 they are mapped, bit 1 that they may be written, bit 7 that they are one page rather than a table of pages, and the bits
 from 22 on give the frame.
 */
module Paging {
  import opened Words

  datatype Access = Fault | Table(at: nat) | Physical(at: nat, writable: bool)

  type Directory = s: seq<uint32> | |s| == 1024 witness seq(1024, _ => 0)

  function Translate(dir: Directory, a: uint32): Access {
    var w := dir[a / 0x40_0000];
    if w % 2 == 0 then Fault
    else if w / 0x80 % 2 == 0 then Table(w / 0x1000 * 0x1000)
    else Physical(w / 0x40_0000 * 0x40_0000 + a % 0x40_0000, w / 2 % 2 == 1)
  }

  /** Bits 0, 1 and 7: a page of 4 MB that may be written. */
  predicate IsWritablePage(w: uint32) {
    w % 2 == 1 && w / 2 % 2 == 1 && w / 0x80 % 2 == 1
  }

  /** No other bit below the frame is set: 2 to 6 and 8 to 21. */
  predicate HasNoOtherBits(w: uint32) {
    w / 4 % 0x20 == 0 && w / 0x100 % 0x4000 == 0
  }

  /** The 4 MB from page on translate to a frame, each address to the same offset, and may be written. */
  ghost predicate MapsPage(dir: Directory, page: nat, frame: nat) {
    forall a: uint32 {:trigger Translate(dir, a)} :: page <= a < page + 0x40_0000 ==>
      Translate(dir, a) == Physical(frame * 0x40_0000 + (a - page), true)
  }

  lemma PageIsMapped(dir: Directory, slot: nat)
    requires slot < 1024 && IsWritablePage(dir[slot])
    ensures MapsPage(dir, slot * 0x40_0000, dir[slot] / 0x40_0000)
  {
    forall a: uint32 | slot * 0x40_0000 <= a < slot * 0x40_0000 + 0x40_0000
      ensures Translate(dir, a) == Physical(dir[slot] / 0x40_0000 * 0x40_0000 + (a - slot * 0x40_0000), true)
    {
      InSlot(a, slot);
    }
  }

  lemma DivMod(w: nat, d: pos, q: nat, r: nat)
    requires r < d && w == Mul(q, d) + r
    ensures w / d == q && w % d == r
  {
    DivModIs(w, d);
    hide Mul, Div;
    var p := Div(w, d);
    DivBounds(w, d);
    MulOne(d);
    MulAdd(q, 1, d);
    MulAdd(p, 1, d);
    if p < q {
      MulMono(p + 1, q, d);
    } else if q < p {
      MulMono(q + 1, p, d);
    }
  }

  lemma DivModIs(w: nat, d: pos)
    ensures w / d == Div(w, d) && w % d == w - Mul(Div(w, d), d)
  {
  }

  /** The bits of a frame's address with PAGE_MB, PRESENT and READ_WRITE. */
  lemma FlagBits(frame: nat, w: uint32)
    requires frame < 1024 && w == frame * 0x40_0000 + 0x83
    ensures IsWritablePage(w) && HasNoOtherBits(w) && w / 0x40_0000 == frame
  {
    DivMod(w, 0x40_0000, frame, 0x83);
    DivMod(w, 2, frame * 0x20_0000 + 0x41, 1);
    DivMod(frame * 0x20_0000 + 0x41, 2, frame * 0x10_0000 + 0x20, 1);
    DivMod(w, 0x80, frame * 0x8000 + 1, 3);
    DivMod(frame * 0x8000 + 1, 2, frame * 0x4000, 1);
    DivMod(w, 4, frame * 0x10_0000 + 0x20, 3);
    DivMod(frame * 0x10_0000 + 0x20, 0x20, frame * 0x8000 + 1, 0);
    DivMod(w, 0x100, frame * 0x4000, 0x83);
    DivMod(frame * 0x4000, 0x4000, frame, 0);
  }

  lemma InSlot(a: nat, slot: nat)
    requires slot * 0x40_0000 <= a < slot * 0x40_0000 + 0x40_0000
    ensures a / 0x40_0000 == slot && a % 0x40_0000 == a - slot * 0x40_0000
  {
  }

  /** Another word of the directory does not concern an address. */
  lemma OtherWord(dir: Directory, slot: nat, w: uint32, a: uint32)
    requires slot < 1024 && !(slot * 0x40_0000 <= a < slot * 0x40_0000 + 0x40_0000)
    ensures Translate(dir[slot := w], a) == Translate(dir, a)
  {
  }

  /** The processor sets accessed and dirty bits (5 and 6) of words in use; translation does not depend on them. */
  lemma UseKeepsTranslation(dir: Directory, dir': Directory, a: uint32)
    requires var w, w' := dir[a / 0x40_0000], dir'[a / 0x40_0000];
      w' % 0x20 == w % 0x20 && w' / 0x80 == w / 0x80
    ensures Translate(dir', a) == Translate(dir, a)
  {
    var w, w' := dir[a / 0x40_0000], dir'[a / 0x40_0000];
    LowBits(w);
    LowBits(w');
    HighBits(w);
    HighBits(w');
    assert w' / 0x80 % 2 == w / 0x80 % 2;
  }

  lemma LowBits(w: uint32)
    ensures w % 2 == w % 0x20 % 2 && w / 2 % 2 == w % 0x20 / 2 % 2
  {
    var q, r := w / 0x20, w % 0x20;
    var s, t := r / 2, r % 2;
    DivMod(w, 2, 0x10 * q + s, t);
    DivMod(0x10 * q + s, 2, 8 * q + s / 2, s % 2);
  }

  lemma HighBits(w: uint32)
    ensures w / 0x1000 == w / 0x80 / 0x20 && w / 0x40_0000 == w / 0x80 / 0x8000
  {
    var q, r := w / 0x80, w % 0x80;
    DivMod(w, 0x1000, q / 0x20, q % 0x20 * 0x80 + r);
    DivMod(w, 0x40_0000, q / 0x8000, q % 0x8000 * 0x80 + r);
  }

  /** Two addresses whose words name different frames, or that share a word, have different physical addresses. */
  lemma DifferentAddresses(dir: Directory, a: uint32, b: uint32)
    requires a != b && Translate(dir, a).Physical? && Translate(dir, b).Physical?
    requires a / 0x40_0000 != b / 0x40_0000 ==>
      dir[a / 0x40_0000] / 0x40_0000 != dir[b / 0x40_0000] / 0x40_0000
    ensures Translate(dir, a).at != Translate(dir, b).at
  {
    var u, v := dir[a / 0x40_0000] / 0x40_0000, dir[b / 0x40_0000] / 0x40_0000;
    Quotient(u, a % 0x40_0000);
    Quotient(v, b % 0x40_0000);
  }

  lemma Quotient(q: nat, r: nat)
    requires r < 0x40_0000
    ensures (q * 0x40_0000 + r) / 0x40_0000 == q && (q * 0x40_0000 + r) % 0x40_0000 == r
  {
  }
}
