/** The handle manager: a bit vector of handles in use and the index of the first unused
    one, proved against a set of natural numbers. */
module Handles {

  /** h is the handle that allocation must return next. */
  ghost predicate IsSmallestFree(s: set<nat>, h: nat) {
    h !in s && forall k: nat :: k < h ==> k in s
  }

  lemma SmallestFreeUnique(s: set<nat>, h: nat, k: nat)
    requires IsSmallestFree(s, h) && IsSmallestFree(s, k)
    ensures h == k
  {
    assert !(h < k) && !(k < h);
  }

  /** The smallest natural number outside s; s contains everything below n. */
  ghost function SmallestFreeFrom(s: set<nat>, n: nat): (h: nat)
    requires forall k: nat :: k < n ==> k in s
    ensures IsSmallestFree(s, h)
    decreases AtLeast(s, n)
  {
    if n !in s then n
    else
      assert n in AtLeast(s, n) && n !in AtLeast(s, n + 1);
      SmallestFreeFrom(s, n + 1)
  }

  ghost function AtLeast(s: set<nat>, n: nat): set<nat> {
    set k | k in s && k >= n
  }

  /** A bit index, or npos. */
  datatype BitIndex = Found(pos: nat) | NotFound

  function FindUnsetFrom(bits: seq<bool>, from: nat): (r: BitIndex)
    ensures r.Found? ==> from <= r.pos < |bits| && !bits[r.pos]
    ensures r.Found? ==> forall i :: from <= i < r.pos ==> bits[i]
    ensures r.NotFound? ==> forall i :: from <= i < |bits| ==> bits[i]
    decreases |bits| - from
  {
    if from >= |bits| then NotFound
    else if !bits[from] then Found(from)
    else FindUnsetFrom(bits, from + 1)
  }

  const BLOCK_WIDTH := 64

  /** DynamicBitset::find_unset_next: the first unset bit after idx. When there is none the
      scan meets the zero padding of the last word, whose index is the size, and only a full
      last word makes it return npos. */
  function FindUnsetNext(bits: seq<bool>, idx: nat): (r: BitIndex)
    ensures r.Found? ==> idx < r.pos <= |bits| && (r.pos < |bits| ==> !bits[r.pos])
    ensures r.Found? ==> forall i :: idx < i < r.pos ==> bits[i]
    ensures r.NotFound? ==> forall i :: idx < i < |bits| ==> bits[i]
    ensures r.NotFound? <==> idx + 1 >= |bits| || (|bits| % BLOCK_WIDTH == 0 && forall i :: idx < i < |bits| ==> bits[i])
  {
    if idx + 1 >= |bits| then NotFound
    else
      var r := FindUnsetFrom(bits, idx + 1);
      if r.Found? || |bits| % BLOCK_WIDTH == 0 then r else Found(|bits|)
  }

  class HandleMgr {
    var handles: seq<bool>
    var firstUnset: nat

    /** The handles in use. */
    ghost function Live(): (s: set<nat>)
      reads this
    {
      set i: nat | 0 <= i < |handles| && handles[i]
    }

    /** firstUnset is within the vector, as the assertion of get_handle demands. */
    ghost predicate InRange()
      reads this
    {
      firstUnset <= |handles|
    }

    /** firstUnset is the first unused handle. */
    ghost predicate Valid()
      reads this
    {
      InRange() && IsSmallestFree(Live(), firstUnset)
    }

    constructor ()
      ensures Valid() && Live() == {} && handles == []
    {
      handles, firstUnset := [], 0;
    }

    /** Returns firstUnset, which is the smallest unused handle in every valid state. Where
        firstUnset is in use, the same handle is handed out a second time. */
    method GetHandle() returns (handle: nat)
      requires InRange()
      modifies this
      ensures handle == old(firstUnset)
      ensures Live() == old(Live()) + {handle}
      ensures InRange()
      ensures old(Valid()) ==> Valid() && IsSmallestFree(old(Live()), handle)
      ensures handle in old(Live()) <==> !old(Valid()) && handle < |old(handles)| && old(handles)[handle]
    {
      var pos, s := firstUnset, |handles|;
      handle := pos;
      if pos < s {
        handles := handles[pos := true];
        var next := FindUnsetNext(handles, pos);
        firstUnset := if next.NotFound? then s else next.pos;
      } else {
        assert pos == s;
        firstUnset := firstUnset + 1;
        handles := handles + [true];
      }
      if old(Valid()) {
        forall k: nat | k < firstUnset ensures k in Live() {
          assert k < handle ==> k in old(Live());
        }
      }
    }

    method ReleaseHandle(handle: nat) returns (rc: int)
      modifies this
      ensures rc == (if handle in old(Live()) then 0 else -1)
      ensures Live() == old(Live()) - {handle}
      ensures old(Valid()) ==> Valid()
    {
      if handle >= |handles| || !handles[handle] { return -1; }
      handles := handles[handle := false];
      if firstUnset > handle { firstUnset := handle; }
      if old(Valid()) {
        forall k: nat | k < firstUnset ensures k in Live() { assert k in old(Live()); }
      }
      return 0;
    }

    /** Claims a given handle. The first-unused index moves only when that handle is claimed, and
        it stays right except in one case: when every bit is set and the handle is the one just
        past them. */
    method SetHandle(handle: nat) returns (rc: int)
      requires InRange()
      modifies this
      ensures rc == (if handle in old(Live()) then -1 else 0)
      ensures Live() == old(Live()) + {handle}
      ensures InRange() && |handles| > handle
      ensures handle != old(firstUnset) || handle in old(Live()) ==> firstUnset == old(firstUnset)
      ensures handle == |old(handles)| && old(firstUnset) == |old(handles)| ==> firstUnset == handle
      ensures old(Valid()) ==>
        (Valid() <==> !(handle == |old(handles)| && old(firstUnset) == |old(handles)|))
    {
      var pos, s := handle, |handles|;
      if pos >= s {
        handles := handles + seq(pos + 1 - s, _ => false);
      }
      if handles[pos] {
        return -1;
      }
      handles := handles[pos := true];
      if firstUnset == pos {
        var next := FindUnsetNext(handles, pos);
        firstUnset := if next.NotFound? then s else next.pos;
      }
      assert Live() == old(Live()) + {handle};
      if old(Valid()) {
        forall k: nat | k < firstUnset ensures k in Live() {
          assert k < old(firstUnset) ==> k in old(Live());
        }
        assert firstUnset in Live() <==> handle == |old(handles)| && old(firstUnset) == |old(handles)|;
      }
      return 0;
    }

    method ValidHandle(handle: nat) returns (valid: bool)
      ensures valid <==> handle in Live()
    {
      valid := handle < |handles| && handles[handle];
    }

    method Clear()
      modifies this
      ensures Valid() && Live() == {}
    {
      handles, firstUnset := [], 0;
    }
  }

  /** Claiming a handle and then allocating one: the allocation collides with a handle in
      use in exactly that case. */
  method ClaimThenAllocate(m: HandleMgr, handle: nat) returns (next: nat)
    requires m.Valid()
    modifies m
    ensures next in old(m.Live()) + {handle}
       <==> handle == |old(m.handles)| && old(m.firstUnset) == |old(m.handles)|
  {
    var rc := m.SetHandle(handle);
    next := m.GetHandle();
  }

  /** Handles claimed in ascending order from 0 on an empty manager, as deserialization does:
      all of them are in use, and the next allocation hands out 0 again. */
  method ClaimAscending(claimed: seq<nat>) returns (m: HandleMgr, next: nat)
    requires claimed != [] && claimed[0] == 0
    requires forall i, j :: 0 <= i < j < |claimed| ==> claimed[i] < claimed[j]
    ensures forall h :: h in m.Live() <==> h in claimed
    ensures next == 0
  {
    m := new HandleMgr();
    for i := 0 to |claimed|
      invariant m.InRange() && m.firstUnset == 0 && fresh(m)
      invariant i == 0 ==> m.handles == []
      invariant forall h :: h in m.Live() <==> h in claimed[..i]
    {
      assert claimed[..i + 1] == claimed[..i] + [claimed[i]];
      var rc := m.SetHandle(claimed[i]);
    }
    assert claimed[..|claimed|] == claimed;
    assert 0 in m.Live();
    next := m.GetHandle();
  }
}
