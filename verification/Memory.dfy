/** The 32-bit address space as one array of bytes. */
module Memory {
  import opened Words
  import opened ByteMap

  type Bytes = seq<uint8>

  /** The number of aligned words in the address space. */
  const WORDS: nat := 0x4000_0000

  /** memset on in-range memory. */
  method Memset(mem: array<uint8>, a: nat, v: uint8, n: nat)
    requires a + n <= mem.Length
    modifies mem
    ensures mem[..] == Fill(old(mem[..]), a, n, v)
  {
    ghost var before := mem[..];
    for j := 0 to n
      invariant forall k :: 0 <= k < mem.Length ==> mem[k] == if a <= k < a + j then v else before[k]
    {
      mem[a + j] := v;
    }
  }

  /** A byte load; the address wraps to 32 bits. */
  function Load(mem: array<uint8>, a: nat): (v: uint8)
    requires mem.Length == WORD
    reads mem
    ensures a < WORD ==> v == mem[a]
  {
    mem[Wrap(a)]
  }

  /** Nothing differs outside [at, at + n). */
  ghost predicate SameOutside(bytes: Bytes, bytes': Bytes, at: nat, n: nat) {
    |bytes| == |bytes'| && forall a {:trigger bytes'[a]} :: 0 <= a < |bytes| && !(at <= a < at + n) ==> bytes'[a] == bytes[a]
  }

  lemma FillIsInside(bytes: Bytes, at: nat, n: nat, c: uint8)
    requires at + n <= |bytes|
    ensures SameOutside(bytes, Fill(bytes, at, n, c), at, n)
  {
  }

  function LittleEndian(b0: int, b1: int, b2: int, b3: int): int {
    b0 + 0x100 * b1 + 0x1_0000 * b2 + 0x100_0000 * b3
  }

  lemma BytesOfWord(v: uint32)
    ensures LittleEndian(v % 0x100, v / 0x100 % 0x100, v / 0x1_0000 % 0x100, v / 0x100_0000) == v && v / 0x100_0000 < 0x100
  {
    var q, r := v / 0x100, v % 0x100;
    var q2, r2 := q / 0x100, q % 0x100;
    assert v / 0x1_0000 == q2 && v / 0x100_0000 == q2 / 0x100;
  }

  /** The little-endian word at a. */
  function WordAt(bytes: Bytes, a: nat): (w: uint32)
    requires a + 4 <= |bytes|
  {
    LittleEndian(bytes[a], bytes[a + 1], bytes[a + 2], bytes[a + 3])
  }

  /** Memory as its aligned words. */
  ghost function WordsOf(bytes: Bytes): (m: seq<uint32>)
    requires |bytes| == WORD
    ensures |m| == WORDS && forall k {:trigger m[k]} :: 0 <= k < WORDS ==> m[k] == WordAt(bytes, 4 * k)
  {
    seq(WORDS, k requires 0 <= k < WORDS => WordAt(bytes, 4 * k))
  }

  method LoadWord(mem: array<uint8>, a: uint32) returns (w: uint32)
    requires mem.Length == WORD && a % 4 == 0
    ensures w == WordsOf(mem[..])[a / 4]
  {
    w := LittleEndian(mem[a], mem[a + 1], mem[a + 2], mem[a + 3]);
    assert w == WordAt(mem[..], 4 * (a / 4));
  }

  /** The four bytes from a on are those of v, the lowest first. */
  ghost predicate HasBytesOf(bytes: Bytes, a: nat, v: uint32) {
    && a + 4 <= |bytes|
    && bytes[a] == v % 0x100 && bytes[a + 1] == v / 0x100 % 0x100 && bytes[a + 2] == v / 0x1_0000 % 0x100 && bytes[a + 3] == v / 0x100_0000
  }

  method StoreWord(mem: array<uint8>, a: uint32, v: uint32)
    requires mem.Length == WORD && a % 4 == 0
    modifies mem
    ensures WordsOf(mem[..]) == WordsOf(old(mem[..]))[a / 4 := v]
    ensures SameOutside(old(mem[..]), mem[..], a, 4)
    ensures HasBytesOf(mem[..], a, v)
  {
    hide LittleEndian;
    ghost var bytes := mem[..];
    BytesOfWord(v);
    mem[a] := v % 0x100;
    mem[a + 1] := v / 0x100 % 0x100;
    mem[a + 2] := v / 0x1_0000 % 0x100;
    mem[a + 3] := v / 0x100_0000;
    WordStored(bytes, mem[..], a, v);
  }

  lemma WordStored(bytes: Bytes, bytes': Bytes, a: uint32, v: uint32)
    requires |bytes| == WORD && a % 4 == 0 && SameOutside(bytes, bytes', a, 4) && WordAt(bytes', a) == v
    ensures WordsOf(bytes') == WordsOf(bytes)[a / 4 := v]
  {
    forall k | 0 <= k < WORDS
      ensures WordsOf(bytes')[k] == WordsOf(bytes)[a / 4 := v][k]
    {
      hide WordAt;
      if k == a / 4 {
        assert 4 * k == a;
      } else {
        WordKept(bytes, bytes', a, 4 * k);
      }
    }
  }

  lemma WordKept(bytes: Bytes, bytes': Bytes, a: nat, b: nat)
    requires SameOutside(bytes, bytes', a, 4) && (b + 4 <= a || a + 4 <= b) && b + 4 <= |bytes|
    ensures WordAt(bytes', b) == WordAt(bytes, b)
  {
    assert bytes'[b] == bytes[b] && bytes'[b + 1] == bytes[b + 1] && bytes'[b + 2] == bytes[b + 2] && bytes'[b + 3] == bytes[b + 3];
  }
}
