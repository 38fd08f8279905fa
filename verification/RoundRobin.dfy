/** The two counting hash functors, and group member selection driven by the first. */
module RoundRobin {
  import opened Common
  import opened Bits
  import opened UIntSets

  class Counter {
    var idx: nat

    constructor ()
      ensures idx == 0
    {
      idx := 0;
    }

    /** Ignores its input. */
    method Hash(buf: seq<byte>) returns (h: nat)
      requires idx < TWO64
      modifies this
      ensures h == old(idx) && idx == (old(idx) + 1) % 0x1_0000_0000_0000_0000
    {
      h := idx;
      idx := (idx + 1) % TWO64;
    }

    /** choose_from_group with this functor as the profile's hash: the output is narrowed to
        a 32-bit hash_t before the modulo. */
    method ChooseFromGroup(group: UIntSet, pkt: seq<byte>) returns (m: nat)
      requires idx < TWO64 && group != []
      modifies this
      ensures m == group[Pick(old(idx), 0, |group|)]
      ensures m in Members(group) && |Smaller(Members(group), m)| == old(idx) % 0x1_0000_0000 % |group|
      ensures idx == (old(idx) + 1) % TWO64
    {
      NthIsRank(group, idx % TWO32 % |group|);
      var h := Hash(pkt);
      m := group[h % TWO32 % |group|];
    }

    /** s calls in a row on a group of s members pick every member exactly once, if and only if
        the narrowed counter does not wrap around among them or s divides 2^32. */
    method Round(group: UIntSet, pkts: seq<seq<byte>>) returns (ms: seq<nat>)
      requires idx < TWO64 && group != [] && |pkts| == |group|
      modifies this
      ensures |ms| == |group| && forall k :: 0 <= k < |ms| ==> ms[k] == group[Pick(old(idx), k, |group|)]
      ensures forall k :: 0 <= k < |ms| ==>
        |Smaller(Members(group), ms[k])| == (old(idx) + k) % 0x1_0000_0000 % |group|
      ensures multiset(ms) == multiset(group) <==> NoWrap(old(idx), |group|) || TWO32 % |group| == 0
    {
      hide Pick, EachOnce, NoWrap;
      ms := [];
      for k := 0 to |pkts|
        invariant |ms| == k && idx == (old(idx) + k) % TWO64
        invariant forall j :: 0 <= j < k ==> ms[j] == group[Pick(old(idx), j, |group|)]
      {
        PickAfterWrap(old(idx), k, |group|);
        var m := ChooseFromGroup(group, pkts[k]);
        ms := ms + [m];
      }
      PicksAscend(old(idx), group, ms);
      EachOnceIff(old(idx), |group|);
      PicksPermute(old(idx), group, ms);
    }
  }

  /** The index chosen by the k-th call after idx was i. */
  function Pick(i: nat, k: nat, s: nat): (r: nat)
    requires s > 0
    ensures r < s
  {
    (i + k) % TWO32 % s
  }

  /** The calls count the members off in ascending order. */
  lemma PicksAscend(i: nat, group: UIntSet, ms: seq<nat>)
    requires group != [] && |ms| == |group|
    requires forall k :: 0 <= k < |ms| ==> ms[k] == group[Pick(i, k, |group|)]
    ensures forall k :: 0 <= k < |ms| ==> |Smaller(Members(group), ms[k])| == (i + k) % 0x1_0000_0000 % |group|
  {
    hide Smaller;
    forall k | 0 <= k < |ms| ensures |Smaller(Members(group), ms[k])| == (i + k) % 0x1_0000_0000 % |group| {
      NthIsRank(group, Pick(i, k, |group|));
    }
  }

  /** The member picked next has one smaller member more, or none after the largest. */
  lemma NextPick(i: nat, k: nat, s: nat)
    requires s > 0 && (i + k) % 0x1_0000_0000 != 0xFFFF_FFFF
    ensures Pick(i, k + 1, s) == if Pick(i, k, s) == s - 1 then 0 else Pick(i, k, s) + 1
    ensures (i + k) % 0x1_0000_0000 == 0 ==> Pick(i, k, s) == 0
  {
    var n := (i + k) % TWO32;
    assert (i + k + 1) % TWO32 == n + 1;
    var q, r := n / s, n % s;
    assert n == s * q + r;
    if r == s - 1 {
      assert n + 1 == s * (q + 1) by { assert s * (q + 1) == s * q + s; }
      ModUnique(n + 1, s, q + 1, 0);
    } else {
      ModUnique(n + 1, s, q, r + 1);
    }
  }

  lemma NarrowAfterWrap(n: nat)
    ensures n % TWO64 % TWO32 == n % TWO32
  {
    var q, r := n / TWO64, n % TWO64;
    assert n == TWO32 * (TWO32 * q + r / TWO32) + r % TWO32;
  }

  lemma PickAfterWrap(i: nat, k: nat, s: nat)
    requires s > 0
    ensures Pick((i + k) % TWO64, 0, s) == Pick(i, k, s)
    ensures (i + k + 1) % TWO64 == ((i + k) % TWO64 + 1) % TWO64
  {
    NarrowAfterWrap(i + k);
  }

  /** No two of s calls choose the same index. */
  ghost predicate EachOnce(i: nat, s: nat)
    requires s > 0
  {
    NoneRepeats(i, s, s)
  }

  /** Every index is chosen by one of s calls. */
  ghost predicate EachTaken(i: nat, s: nat)
    requires s > 0
  {
    forall r :: 0 <= r < s ==> IsTaken(i, s, s, r)
  }

  /** One of the first n calls chooses index r. */
  ghost predicate IsTaken(i: nat, s: nat, n: nat, r: nat)
    requires s > 0
  {
    exists k :: 0 <= k < n && Pick(i, k, s) == r
  }

  ghost function Taken(i: nat, s: nat, n: nat): (t: set<nat>)
    requires s > 0
    ensures forall r :: r in t <==> IsTaken(i, s, n, r)
  {
    set k | 0 <= k < n :: Pick(i, k, s)
  }

  ghost predicate NoneRepeats(i: nat, s: nat, n: nat)
    requires s > 0
  {
    forall k, l :: 0 <= k < l < n ==> Pick(i, k, s) != Pick(i, l, s)
  }

  lemma NoneRepeatsNext(i: nat, s: nat, n: nat)
    requires s > 0
    ensures NoneRepeats(i, s, n + 1) <==> NoneRepeats(i, s, n) && !IsTaken(i, s, n, Pick(i, n, s))
  {
    hide Pick;
  }

  lemma TakenNone(i: nat, s: nat)
    requires s > 0
    ensures Taken(i, s, 0) == {}
  {
  }

  lemma TakenNext(i: nat, s: nat, n: nat)
    requires s > 0
    ensures Taken(i, s, n + 1) == Taken(i, s, n) + {Pick(i, n, s)}
  {
    hide Pick;
  }

  /** n calls choose n indices exactly when no two choose the same. */
  lemma {:induction false} TakenSize(i: nat, s: nat, n: nat)
    requires s > 0
    ensures |Taken(i, s, n)| <= n
    ensures |Taken(i, s, n)| == n <==> NoneRepeats(i, s, n)
  {
    hide Pick, IsTaken, Taken;
    if n == 0 {
      assert Taken(i, s, 0) == {} by { TakenNone(i, s); }
    } else {
      hide NoneRepeats;
      var before, last := Taken(i, s, n - 1), Pick(i, n - 1, s);
      TakenSize(i, s, n - 1);
      NoneRepeatsNext(i, s, n - 1);
      TakenNext(i, s, n - 1);
      if last in before { assert before + {last} == before; }
    }
  }

  /** s calls choose s different indices exactly when they choose them all. */
  lemma EachTakenIff(i: nat, s: nat)
    requires s > 0
    ensures EachOnce(i, s) <==> EachTaken(i, s)
  {
    hide Pick, IsTaken;
    var taken, all := Taken(i, s, s), Range(s);
    TakenSize(i, s, s);
    TakenInRange(i, s);
    if EachOnce(i, s) {
      SubsetOfSameSize(taken, all);
    } else {
      assert taken != all;
      var r :| r in all && r !in taken;
      assert !IsTaken(i, s, s, r);
    }
  }

  lemma TakenInRange(i: nat, s: nat)
    requires s > 0
    ensures Taken(i, s, s) <= Range(s)
  {
    hide Pick;
  }

  lemma SubsetOfSameSize(a: set<nat>, b: set<nat>)
    requires a <= b && |a| == |b|
    ensures a == b
  {
    assert |b - a| == |b| - |a|;
    assert b == a + (b - a);
  }

  lemma {:induction false} CountDistinct(s: seq<nat>, x: nat)
    requires forall k, l :: 0 <= k < l < |s| ==> s[k] != s[l]
    ensures multiset(s)[x] == if x in s then 1 else 0
  {
    if s != [] {
      var front, last := s[..|s| - 1], s[|s| - 1];
      assert s == front + [last];
      CountDistinct(front, x);
    }
  }

  lemma CountTwice(s: seq<nat>, k: nat, l: nat)
    requires k < l < |s| && s[k] == s[l]
    ensures multiset(s)[s[k]] >= 2
  {
    assert s == s[..l] + s[l..] && s[..l][k] == s[k] && s[l..][0] == s[l];
    assert s[k] in multiset(s[..l]) && s[k] in multiset(s[l..]);
  }

  /** The members picked are the members of the group, each as often, exactly when no index is
      chosen twice. */
  lemma PicksPermute(i: nat, group: UIntSet, ms: seq<nat>)
    requires group != [] && |ms| == |group|
    requires forall k :: 0 <= k < |ms| ==> ms[k] == group[Pick(i, k, |group|)]
    ensures multiset(ms) == multiset(group) <==> EachOnce(i, |group|)
  {
    hide Pick;
    var s := |group|;
    if EachOnce(i, s) {
      EachTakenIff(i, s);
      forall x ensures multiset(ms)[x] == multiset(group)[x] {
        CountDistinct(ms, x);
        CountDistinct(group, x);
        if x in group {
          var r :| 0 <= r < s && group[r] == x;
          assert IsTaken(i, s, s, r);
          var k :| 0 <= k < s && Pick(i, k, s) == r;
          assert ms[k] == x;
        }
      }
    } else {
      var k, l :| 0 <= k < l < s && Pick(i, k, s) == Pick(i, l, s);
      CountTwice(ms, k, l);
      CountDistinct(group, ms[k]);
    }
  }

  /** The narrowed counter does not wrap around during the calls. */
  predicate NoWrap(i: nat, s: nat) {
    i % TWO32 + s <= TWO32
  }

  /** s calls visit every member of a group of s exactly once if and only if the narrowed
      counter does not wrap around among them, or the group size divides 2^32. */
  lemma EachOnceIff(i: nat, s: nat)
    requires 0 < s
    ensures EachOnce(i, s) <==> NoWrap(i, s) || TWO32 % s == 0
    ensures EachOnce(i, s) <==> EachTaken(i, s)
  {
    EachTakenIff(i, s);
    hide EachTaken;
    if s > TWO32 {
      FullTurn(i, s);
    } else if NoWrap(i, s) {
      StraightRun(i, s);
    } else if TWO32 % s == 0 {
      WrapIsSeamless(i, s);
    } else {
      var k, l := Collision(i, s);
    }
  }

  /** x and y leave the same remainder only when s divides their difference. */
  lemma SameRemainder(x: nat, y: nat, s: nat)
    requires 0 < s && x < y < x + s
    ensures x % s != y % s
  {
    var q, r, m := x / s, y / s, x % s;
    assert x == s * q + m;
    if m == y % s {
      assert y == s * r + m;
      Distribute(s, r, q);
      if r > q { MulGrows(s, r - q); } else if r < q { MulGrows(s, q - r); }
    }
  }

  lemma Distribute(s: nat, r: nat, q: nat)
    ensures s * r - s * q == s * (r - q)
    ensures s * q - s * r == s * (q - r)
  {
  }

  /** After 2^32 calls the narrowed counter is back where it was. */
  lemma FullTurn(i: nat, s: nat)
    requires s > TWO32
    ensures Pick(i, 0, s) == Pick(i, TWO32, s)
    ensures !NoWrap(i, s) && TWO32 % s != 0
  {
  }

  lemma StraightRun(i: nat, s: nat)
    requires 0 < s && NoWrap(i, s)
    ensures EachOnce(i, s)
  {
    var a := i % TWO32;
    forall k, l | 0 <= k < l < s ensures Pick(i, k, s) != Pick(i, l, s) {
      Narrow(i, k);
      Narrow(i, l);
      SameRemainder(a + k, a + l, s);
    }
  }

  lemma Narrow(i: nat, k: nat)
    requires k < TWO32
    ensures (i + k) % TWO32 == if i % TWO32 + k < TWO32 then i % TWO32 + k else i % TWO32 + k - TWO32
  {
  }

  lemma WrapIsSeamless(i: nat, s: nat)
    requires 0 < s <= TWO32 && TWO32 % s == 0
    ensures EachOnce(i, s)
  {
    var a := i % TWO32;
    forall k | 0 <= k < s ensures Pick(i, k, s) == (a + k) % s {
      Narrow(i, k);
      if a + k >= TWO32 { DropMultiple(a + k, TWO32, s); }
    }
    forall k, l | 0 <= k < l < s ensures Pick(i, k, s) != Pick(i, l, s) {
      SameRemainder(a + k, a + l, s);
    }
  }

  lemma DropMultiple(n: nat, m: nat, s: nat)
    requires 0 < s && m <= n && m % s == 0
    ensures (n - m) % s == n % s
  {
    var q := m / s;
    assert m == s * q;
    var p, r := (n - m) / s, (n - m) % s;
    assert n == s * (q + p) + r by { assert s * (q + p) == s * q + s * p; }
    ModUnique(n, s, q + p, r);
  }

  /** A wrap in the middle of a round repeats some index, R = 2^32 mod s calls apart. */
  lemma Collision(i: nat, s: nat) returns (k: nat, l: nat)
    requires 0 < s <= TWO32 && !NoWrap(i, s) && TWO32 % s != 0
    ensures k < l < s && Pick(i, k, s) == Pick(i, l, s)
  {
    var a, r, q := i % TWO32, TWO32 % s, TWO32 / s;
    var j := TWO32 - a;
    var d := if r > j then r - j else 0;
    k := if r > j then 0 else j - r;
    l := k + r;
    Narrow(i, k);
    Narrow(i, l);
    assert TWO32 == s * q + r;
    assert (i + k) % TWO32 == s * q + d && (i + l) % TWO32 == d;
    ModUnique(s * q + d, s, q, d);
    ModUnique(d, s, 0, d);
  }

  // ----- the consistent variant

  class ConsistentCounter {
    var idx: nat
    var hashes: map<seq<byte>, nat>
    /** The distinct inputs so far, in order of first appearance. */
    ghost var seen: seq<seq<byte>>

    ghost predicate Valid()
      reads this
    {
      idx == |seen| && Numbers(hashes, seen)
    }

    constructor ()
      ensures Valid() && seen == []
    {
      idx, hashes, seen := 0, map[], [];
    }

    /** The output numbers the inputs in order of first appearance. */
    method Hash(buf: seq<byte>) returns (h: nat)
      requires Valid() && idx < TWO64 - 1
      modifies this
      ensures Valid() && seen == Noted(old(seen), buf)
      ensures h < |seen| && seen[h] == buf
    {
      if buf !in hashes {
        hashes := hashes[buf := idx];
        h := idx;
        idx := idx + 1;
        seen := seen + [buf];
      } else {
        h := hashes[buf];
      }
    }
  }

  /** A sequence of calls on a new functor: every output is the number of its input, and together
      they are exactly the numbers below the number of distinct inputs. */
  method HashAll(calls: seq<seq<byte>>) returns (outs: seq<nat>)
    requires |calls| < TWO64
    ensures |outs| == |calls|
    ensures forall i :: 0 <= i < |calls| ==> IsOutput(calls, i, outs[i])
    ensures forall h :: h in outs <==> 0 <= h < |Seen(calls)|
  {
    hide Seen, IsOutput;
    var counter := new ConsistentCounter();
    SeenNone();
    outs := [];
    for i := 0 to |calls|
      invariant counter.Valid() && counter.seen == Seen(calls[..i]) && |outs| == i
      invariant counter.idx <= i
      invariant fresh(counter)
      invariant forall j :: 0 <= j < i ==> IsOutput(calls, j, outs[j])
    {
      SeenNext(calls, i);
      var h := counter.Hash(calls[i]);
      OutputIs(calls, i, h);
      outs := outs + [h];
    }
    assert calls[..|calls|] == calls;
    OutputsFill(calls, outs);
  }

  lemma SeenNone()
    ensures Seen([]) == []
    ensures forall calls: seq<seq<byte>> :: Seen(calls[..0]) == []
  {
  }

  lemma SeenNext(calls: seq<seq<byte>>, i: nat)
    requires i < |calls|
    ensures Seen(calls[..i + 1]) == Noted(Seen(calls[..i]), calls[i])
  {
    assert calls[..i + 1][..i] == calls[..i];
  }

  lemma OutputIs(calls: seq<seq<byte>>, i: nat, h: nat)
    requires i < |calls|
    requires h < |Seen(calls[..i + 1])| && Seen(calls[..i + 1])[h] == calls[i]
    ensures IsOutput(calls, i, h)
  {
  }

  /** Every number below the number of distinct inputs is an output, and nothing else is. */
  lemma OutputsFill(calls: seq<seq<byte>>, outs: seq<nat>)
    requires |outs| == |calls| && forall i :: 0 <= i < |calls| ==> IsOutput(calls, i, outs[i])
    ensures forall h :: h in outs <==> 0 <= h < |Seen(calls)|
  {
    SeenIsDistinct(calls);
    forall i | 0 <= i < |calls| ensures outs[i] < |Seen(calls)| && Seen(calls)[outs[i]] == calls[i] {
      assert IsOutput(calls, i, outs[i]);
      SeenGrows(calls, i + 1);
    }
    hide Seen, IsOutput;
    forall h | 0 <= h < |Seen(calls)| ensures h in outs {
      assert Seen(calls)[h] in calls;
      var i :| 0 <= i < |calls| && calls[i] == Seen(calls)[h];
      assert outs[i] == h;
    }
  }

  /** hashes numbers the distinct inputs seen. */
  ghost predicate Numbers(hashes: map<seq<byte>, nat>, seen: seq<seq<byte>>) {
    && (forall b :: b in hashes ==> hashes[b] < |seen| && seen[hashes[b]] == b)
    && forall i :: 0 <= i < |seen| ==> seen[i] in hashes && hashes[seen[i]] == i
  }

  function Noted(seen: seq<seq<byte>>, b: seq<byte>): (r: seq<seq<byte>>)
    ensures seen <= r && b in r
  {
    if b in seen then seen else seen + [b]
  }

  function Seen(calls: seq<seq<byte>>): (r: seq<seq<byte>>) {
    if calls == [] then [] else Noted(Seen(calls[..|calls| - 1]), calls[|calls| - 1])
  }

  ghost predicate Distinct(s: seq<seq<byte>>) {
    forall i, j :: 0 <= i < j < |s| ==> s[i] != s[j]
  }

  lemma {:induction false} SeenIsDistinct(calls: seq<seq<byte>>)
    ensures Distinct(Seen(calls)) && forall b :: b in Seen(calls) <==> b in calls
  {
    if calls != [] {
      SeenIsDistinct(calls[..|calls| - 1]);
      assert calls == calls[..|calls| - 1] + [calls[|calls| - 1]];
    }
  }

  /** Later calls only append to the numbering. */
  lemma {:induction false} SeenGrows(calls: seq<seq<byte>>, n: nat)
    requires n <= |calls|
    ensures Seen(calls[..n]) <= Seen(calls)
    decreases |calls|
  {
    if n < |calls| {
      SeenGrows(calls[..|calls| - 1], n);
      assert calls[..|calls| - 1][..n] == calls[..n];
    } else {
      assert calls[..n] == calls;
    }
  }

  /** h is what the functor returns for the call at index i of a sequence of calls. */
  ghost predicate IsOutput(calls: seq<seq<byte>>, i: nat, h: nat)
    requires i < |calls|
  {
    h < |Seen(calls[..i + 1])| && Seen(calls[..i + 1])[h] == calls[i]
  }

  /** Equal inputs get equal outputs and distinct inputs distinct ones, however far apart. */
  lemma OutputsIdentifyInputs(calls: seq<seq<byte>>, i: nat, j: nat, h: nat, k: nat)
    requires i < |calls| && j < |calls| && IsOutput(calls, i, h) && IsOutput(calls, j, k)
    ensures h == k <==> calls[i] == calls[j]
    ensures h < |Seen(calls)|
  {
    hide Seen;
    SeenGrows(calls, i + 1);
    SeenGrows(calls, j + 1);
    SeenIsDistinct(calls);
    assert Seen(calls)[h] == calls[i] && Seen(calls)[k] == calls[j];
  }
}
