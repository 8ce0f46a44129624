/**
 The byte map of a superblock as a value: one identifier per block, 0 for free. No allocation length is stored
 anywhere: the allocations of a map ARE its maximal runs of one non-free identifier.
 */
module ByteMap {
  import opened Words

  const FREE: uint8 := 0

  /** The blocks [s, s+n) are a maximal run of one non-free identifier. */
  ghost predicate Run(m: seq<uint8>, s: nat, n: nat) {
    && 0 < n
    && s + n <= |m|
    && m[s] != FREE
    && (forall k :: s <= k < s + n ==> m[k] == m[s])
    && (s > 0 ==> m[s - 1] != m[s])
    && (s + n < |m| ==> m[s + n] != m[s])
  }

  /** The blocks [i, i+n) exist and are free. */
  ghost predicate FreeRun(m: seq<uint8>, i: nat, n: nat) {
    i + n <= |m| && forall k :: i <= k < i + n ==> m[k] == FREE
  }

  /** i is the lowest position with n free blocks. */
  ghost predicate FirstFit(m: seq<uint8>, n: nat, i: nat) {
    FreeRun(m, i, n) && forall j: nat :: j < i ==> !FreeRun(m, j, n)
  }

  ghost predicate Full(m: seq<uint8>, n: nat) {
    forall j: nat :: !FreeRun(m, j, n)
  }

  /** An identifier that cannot be confused with either neighbour of [i, i+n). */
  ghost predicate Distinguishes(m: seq<uint8>, i: nat, n: nat, id: uint8)
    requires i + n <= |m|
  {
    && 1 <= id <= 3
    && (i > 0 ==> id != m[i - 1])
    && (i + n < |m| ==> id != m[i + n])
  }

  ghost function Fill(m: seq<uint8>, i: nat, n: nat, c: uint8): (r: seq<uint8>)
    requires i + n <= |m|
    ensures |r| == |m|
    ensures forall k :: 0 <= k < |m| ==> r[k] == if i <= k < i + n then c else m[k]
  {
    m[..i] + seq(n, _ => c) + m[i + n..]
  }

  /** Number of entries that are not free. */
  ghost function Used(m: seq<uint8>): (u: nat)
    ensures u <= |m|
  {
    if m == [] then 0 else Used(m[..|m| - 1]) + if m[|m| - 1] != FREE then 1 else 0
  }

  /** Number of entries from s on that repeat the identifier at s: what memheap_free walks over. */
  ghost function SameFrom(m: seq<uint8>, s: nat): (n: nat)
    requires s < |m|
    ensures 1 <= n && s + n <= |m|
    ensures forall k :: s <= k < s + n ==> m[k] == m[s]
    ensures s + n < |m| ==> m[s + n] != m[s]
    decreases |m| - s
  {
    if s + 1 < |m| && m[s + 1] == m[s] then 1 + SameFrom(m, s + 1) else 1
  }

  // ----- counting ---------------------------------------------------------------------------

  lemma {:induction false} UsedConcat(a: seq<uint8>, b: seq<uint8>)
    ensures Used(a + b) == Used(a) + Used(b)
  {
    if b == [] {
      assert a + b == a;
    } else {
      UsedConcat(a, b[..|b| - 1]);
      assert (a + b)[..|a + b| - 1] == a + b[..|b| - 1];
    }
  }

  lemma {:induction false} UsedConst(m: seq<uint8>, c: uint8)
    requires forall k :: 0 <= k < |m| ==> m[k] == c
    ensures Used(m) == if c == FREE then 0 else |m|
  {
    if m != [] {
      UsedConst(m[..|m| - 1], c);
    }
  }

  lemma UsedSplit(m: seq<uint8>, i: nat, n: nat)
    requires i + n <= |m|
    ensures Used(m) == Used(m[..i]) + Used(m[i..i + n]) + Used(m[i + n..])
  {
    assert m == m[..i + n] + m[i + n..];
    UsedConcat(m[..i + n], m[i + n..]);
    assert m[..i + n] == m[..i] + m[i..i + n];
    UsedConcat(m[..i], m[i..i + n]);
  }

  /** Overwriting a uniform stretch by a uniform stretch. */
  lemma UsedFill(m: seq<uint8>, i: nat, n: nat, c: uint8)
    requires i + n <= |m|
    requires forall k :: i <= k < i + n ==> m[k] == m[i]
    ensures Used(Fill(m, i, n, c)) ==
            Used(m) + (if c == FREE then 0 else n) - (if n > 0 && m[i] != FREE then n else 0)
  {
    hide Used;
    var a, b, d := m[..i], m[i..i + n], m[i + n..];
    var filled := seq(n, _ => c);
    UsedSplit(m, i, n);
    UsedSplit(Fill(m, i, n, c), i, n);
    assert Fill(m, i, n, c)[..i] == a;
    assert Fill(m, i, n, c)[i..i + n] == filled;
    assert Fill(m, i, n, c)[i + n..] == d;
    UsedConst(b, if n > 0 then m[i] else c);
    UsedConst(filled, c);
  }

  /** A free run is room that `used` does not count. */
  lemma FreeRunIsUnused(m: seq<uint8>, i: nat, n: nat)
    requires FreeRun(m, i, n)
    ensures Used(m) + n <= |m|
  {
    UsedFill(m, i, n, 1);
  }

  // ----- runs --------------------------------------------------------------------------------

  /** Two runs are the same run or have no block in common. */
  lemma RunsAreDisjoint(m: seq<uint8>, s: nat, n: nat, t: nat, k: nat)
    requires Run(m, s, n) && Run(m, t, k)
    ensures (s == t && n == k) || s + n <= t || t + k <= s
  {
  }

  /** The walk stops at the first entry that differs. */
  lemma SameFromIs(m: seq<uint8>, s: nat, n: nat)
    requires 0 < n && s + n <= |m| && (forall k :: s <= k < s + n ==> m[k] == m[s])
    requires s + n == |m| || m[s + n] != m[s]
    ensures SameFrom(m, s) == n
  {
  }

  /** Claiming free blocks under a distinguishing identifier adds exactly that run and disturbs no other. */
  lemma ClaimAddsOneRun(m: seq<uint8>, i: nat, n: nat, id: uint8)
    requires 0 < n && FreeRun(m, i, n) && Distinguishes(m, i, n, id)
    ensures forall s: nat, k: nat :: Run(Fill(m, i, n, id), s, k) <==> Run(m, s, k) || (s == i && k == n)
  {
    var m' := Fill(m, i, n, id);
    assert Run(m', i, n);
    forall s: nat, k: nat
      ensures Run(m', s, k) <==> Run(m, s, k) || (s == i && k == n)
    {
      if Run(m', s, k) {
        RunsAreDisjoint(m', s, k, i, n);
        if !(s == i && k == n) { KeptRun(m', m, i, n, s, k); }
      }
      if Run(m, s, k) {
        var common := m[if s < i then i else s];
        KeptRun(m, m', i, n, s, k);
      }
    }
  }

  /** Freeing a run removes exactly that run and disturbs no other. */
  lemma ReleaseRemovesOneRun(m: seq<uint8>, i: nat, n: nat)
    requires Run(m, i, n)
    ensures forall s: nat, k: nat :: Run(Fill(m, i, n, FREE), s, k) <==> Run(m, s, k) && !(s == i && k == n)
  {
    var m' := Fill(m, i, n, FREE);
    forall s: nat, k: nat
      ensures Run(m', s, k) <==> Run(m, s, k) && !(s == i && k == n)
    {
      if Run(m', s, k) {
        KeptRun(m', m, i, n, s, k);
      }
      if Run(m, s, k) && !(s == i && k == n) {
        RunsAreDisjoint(m, s, k, i, n);
        KeptRun(m, m', i, n, s, k);
      }
    }
  }

  /** A run outside [i, i+n) survives a change inside it, as long as the new border still differs. */
  lemma KeptRun(m: seq<uint8>, m': seq<uint8>, i: nat, n: nat, s: nat, k: nat)
    requires |m| == |m'| && i + n <= |m| && 0 < n
    requires forall j :: 0 <= j < |m| && !(i <= j < i + n) ==> m'[j] == m[j]
    requires Run(m, s, k)
    requires s + k <= i || i + n <= s
    requires s + k == i ==> m'[i] != m[s]
    requires i + n == s ==> m'[s - 1] != m[s]
    ensures Run(m', s, k)
  {
    assert m'[s] == m[s];
    assert forall j :: s <= j < s + k ==> m'[j] == m[j];
  }

  /** Allocating and freeing again restores the map exactly. */
  lemma ClaimThenRelease(m: seq<uint8>, i: nat, n: nat, id: uint8)
    requires 0 < n && FreeRun(m, i, n) && Distinguishes(m, i, n, id)
    ensures var m' := Fill(m, i, n, id);
      SameFrom(m', i) == n && Fill(m', i, SameFrom(m', i), FREE) == m
  {
    var m' := Fill(m, i, n, id);
    assert Run(m', i, n);
    SameFromIs(m', i, n);
    assert Fill(m', i, n, FREE) == m;
  }

  /**
   `used - blocks walked over` is again the number of non-free entries exactly when the block handed to
   memheap_free is not free; a pointer obtained by a zero-size request designates a free block.
   */
  lemma FreeKeepsCountIff(m: seq<uint8>, s: nat)
    requires s < |m|
    ensures Used(Fill(m, s, SameFrom(m, s), FREE)) == Used(m) - SameFrom(m, s) <==> m[s] != FREE
  {
    UsedFill(m, s, SameFrom(m, s), FREE);
  }

  /** Freeing a free block: the count of this map is 1 before and after, but the walk over two blocks is subtracted. */
  lemma FreeingAFreeBlock()
    ensures Used(Fill([1, FREE, FREE], 1, SameFrom([1, FREE, FREE], 1), FREE)) != Used([1, FREE, FREE]) - SameFrom([1, FREE, FREE], 1)
  {
    FreeKeepsCountIff([1, FREE, FREE], 1);
  }

  /** The map of a new superblock: its own reservation, then free blocks. */
  ghost function FreshMap(count: nat, reserved: nat): (m: seq<uint8>)
    requires reserved <= count
    ensures |m| == count
  {
    seq(count, k => if 0 <= k < reserved then 1 else FREE)
  }

  lemma FreshMapIs(m: seq<uint8>, reserved: nat)
    requires reserved <= |m|
    ensures Fill(Fill(m, 0, |m|, FREE), 0, reserved, 1) == FreshMap(|m|, reserved)
  {
  }

  lemma FreshMapFacts(count: nat, reserved: nat)
    requires reserved <= count
    ensures Used(FreshMap(count, reserved)) == reserved
    ensures reserved > 0 ==> Run(FreshMap(count, reserved), 0, reserved)
  {
    var free := seq(count, _ => FREE);
    UsedConst(free, FREE);
    UsedFill(free, 0, reserved, 1);
    assert FreshMap(count, reserved) == Fill(free, 0, reserved, 1);
  }

  lemma FreshMapHasNoAllocation(count: nat, reserved: nat)
    requires reserved <= count
    ensures forall s: nat, n: nat :: 0 < s ==> !Run(FreshMap(count, reserved), s, n)
  {
  }

  /** A fresh map serves exactly the requests that fit in what its own reservation leaves over. */
  lemma FreshMapCapacity(count: nat, reserved: nat, wanted: nat)
    requires reserved <= count && 0 < wanted
    ensures Full(FreshMap(count, reserved), wanted) <==> wanted > count - reserved
    ensures wanted <= count - reserved ==> FirstFit(FreshMap(count, reserved), wanted, reserved)
  {
    var m := FreshMap(count, reserved);
    forall j: nat | j < reserved || j + wanted > count
      ensures !FreeRun(m, j, wanted)
    {
      if j < reserved {
        assert m[j] != FREE;
      }
    }
    if wanted <= count - reserved {
      assert FreeRun(m, reserved, wanted);
    }
  }
}
