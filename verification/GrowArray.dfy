/** The growable array of ds/array.c, created with a size of at least one. */
module GrowArray {
  import opened Options

  predicate Hit<T(==)>(e: T, elem: T, cmp: T -> bool) {
    cmp(e) || e == elem
  }

  /** The first position whose element matches, or the length. */
  ghost function FirstMatch<T>(s: seq<T>, elem: T, cmp: T -> bool): (i: nat)
    ensures i <= |s| && (forall k :: 0 <= k < i ==> !Hit(s[k], elem, cmp)) && (i < |s| ==> Hit(s[i], elem, cmp))
  {
    if s == [] || Hit(s[0], elem, cmp) then 0 else
      var i := FirstMatch(s[1..], elem, cmp);
      assert forall k :: 1 <= k < i + 1 ==> s[k] == s[1..][k - 1];
      i + 1
  }

  lemma FirstMatchIs<T>(s: seq<T>, elem: T, cmp: T -> bool, i: nat)
    requires i <= |s| && (forall k :: 0 <= k < i ==> !Hit(s[k], elem, cmp)) && (i < |s| ==> Hit(s[i], elem, cmp))
    ensures FirstMatch(s, elem, cmp) == i
  {
    var j := FirstMatch(s, elem, cmp);
  }

  class Array<T(0, ==)> {
    var size: nat
    var used: nat
    var data: array<T>

    predicate Valid()
      reads this
    {
      0 < size == data.Length && used <= size
    }

    function Contents(): (s: seq<T>)
      requires Valid()
      reads this, data
      ensures |s| == used
    {
      data[..used]
    }

    /** array_create. */
    constructor (initialSize: nat)
      requires 0 < initialSize
      ensures Valid() && Contents() == [] && fresh(data)
    {
      used := 0;
      size := initialSize;
      data := new T[initialSize];
    }

    /** array_add. */
    method Add(elem: T)
      requires Valid()
      modifies this, data
      ensures Valid() && Contents() == old(Contents()) + [elem]
      ensures data == old(data) || fresh(data)
      ensures size == if old(used) == old(size) then 2 * old(size) else old(size)
    {
      if used == size {
        size := size * 2;
        var tmp := new T[size];
        for k := 0 to used
          modifies tmp
          invariant forall i :: 0 <= i < k ==> tmp[i] == data[i]
        {
          tmp[k] := data[k];
        }
        assert tmp[..used] == data[..used];
        data := tmp;
      }
      data[used] := elem;
      used := used + 1;
    }

    /** array_get. It lets one index past the end through, to what the first unused slot holds, if there is one. */
    method Get(idx: nat) returns (e: Option<T>)
      requires Valid() && (idx == used ==> used < size)
      ensures e == if idx < used then Some(Contents()[idx]) else if idx == used then Some(data[used]) else None
    {
      if idx > used {
        return None;
      }
      e := Some(data[idx]);
    }

    /** The shift of remove_elem, over the whole capacity. */
    method ShiftDown(i: nat)
      requires Valid() && i < used
      modifies data
      ensures Contents()[..used - 1] == old(Contents())[..i] + old(Contents())[i + 1..]
    {
      ghost var d := data[..];
      var idx := i;
      while idx < size - 1
        invariant i <= idx <= size - 1
        invariant forall k {:trigger data[k]} :: 0 <= k < size ==> data[k] == d[if i <= k < idx then k + 1 else k]
      {
        data[idx] := data[idx + 1];
        idx := idx + 1;
      }
      ghost var s := d[..used];
      forall k | 0 <= k < used - 1
        ensures data[k] == (s[..i] + s[i + 1..])[k]
      {
        assert data[k] == d[if i <= k then k + 1 else k];
      }
      assert data[..used][..used - 1] == s[..i] + s[i + 1..];
    }

    /**
     remove_elem with its comparison, or none, as a predicate on the elements: the first match goes, the order stays, and
     what is handed to the destructor is the element that went.
     */
    method RemoveElem(elem: T, cmp: T -> bool) returns (deleted: Option<T>)
      requires Valid()
      modifies this, data
      ensures Valid() && data == old(data)
      ensures var s, i := old(Contents()), FirstMatch(old(Contents()), elem, cmp);
        && Contents() == (if i < |s| then s[..i] + s[i + 1..] else s)
        && deleted == if i < |s| then Some(s[i]) else None
      ensures deleted == None ==> forall e :: e in old(Contents()) ==> !cmp(e) && e != elem
      ensures deleted.Some? ==> |Contents()| + 1 == |old(Contents())| && exists i: nat {:trigger old(Contents())[i]} ::
        && i < |old(Contents())| && old(Contents())[i] == deleted.value && (cmp(deleted.value) || deleted.value == elem)
        && (forall k {:trigger old(Contents())[k]} :: 0 <= k < i ==> !cmp(old(Contents())[k]) && old(Contents())[k] != elem)
        && Contents() == old(Contents())[..i] + old(Contents())[i + 1..]
    {
      hide FirstMatch;
      var idx := 0;
      while idx < used
        invariant idx <= used && forall k :: 0 <= k < idx ==> !Hit(data[k], elem, cmp)
      {
        if Hit(data[idx], elem, cmp) {
          break;
        }
        idx := idx + 1;
      }
      FirstMatchIs(Contents(), elem, cmp, idx);
      if idx == used {
        return None;
      }
      deleted := Some(data[idx]);
      ShiftDown(idx);
      used := used - 1;
    }
  }
}
