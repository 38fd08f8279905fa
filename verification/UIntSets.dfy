/** RandAccessUIntSet: a set kept as an ascending sequence, so that its members can be
    counted off by index. */
module UIntSets {

  ghost predicate Ascending(s: seq<nat>) {
    forall i, j :: 0 <= i < j < |s| ==> s[i] < s[j]
  }

  type UIntSet = s: seq<nat> | Ascending(s)

  function Snoc(s: UIntSet, x: nat): (r: UIntSet)
    requires forall y :: y in s ==> y < x
    ensures r == s + [x]
  {
    assert forall i :: 0 <= i < |s| ==> s[i] in s;
    s + [x]
  }

  /** add: 1 (true) when the element was new. */
  function Add(s: UIntSet, x: nat): (r: UIntSet)
    ensures forall y :: y in r <==> y in s || y == x
    ensures |r| == |s| + if x in s then 0 else 1
  {
    if s == [] then [x]
    else if x == s[|s| - 1] then s
    else if x > s[|s| - 1] then s + [x]
    else
      var front := s[..|s| - 1];
      assert s == front + [s[|s| - 1]];
      Snoc(Add(front, x), s[|s| - 1])
  }

  /** remove: 1 (true) when the element was there. */
  function Remove(s: UIntSet, x: nat): (r: UIntSet)
    ensures forall y :: y in r <==> y in s && y != x
    ensures |r| == |s| - if x in s then 1 else 0
  {
    if s == [] then s
    else
      var front := s[..|s| - 1];
      assert s == front + [s[|s| - 1]];
      if x == s[|s| - 1] then front
      else
        Snoc(Remove(front, x), s[|s| - 1])
  }

  /** The members of s that are smaller than x. */
  ghost function Smaller(s: set<nat>, x: nat): set<nat> {
    set y | y in s && y < x
  }

  ghost function Members(s: UIntSet): (r: set<nat>)
    ensures forall y :: y in r <==> y in s
  {
    set y | y in s
  }

  lemma PrefixIsSmaller(s: UIntSet, n: nat)
    requires n < |s|
    ensures Ascending(s[..n]) && Members(s[..n]) == Smaller(Members(s), s[n])
  {
    forall y ensures y in s[..n] <==> y in s && y < s[n] {
      if y in s {
        var i :| 0 <= i < |s| && s[i] == y;
        assert i < n ==> s[..n][i] == y;
      }
    }
  }

  lemma {:induction false} Size(s: UIntSet)
    ensures |Members(s)| == |s|
  {
    if s == [] {
      assert Members(s) == {};
    } else {
      var n := |s| - 1;
      PrefixIsSmaller(s, n);
      Size(s[..n]);
      assert s == s[..n] + [s[n]];
      assert Members(s) == Members(s[..n]) + {s[n]};
    }
  }

  /** get_nth counts the members off in ascending order: exactly n of them are smaller. */
  lemma NthIsRank(s: UIntSet, n: nat)
    requires n < |s|
    ensures |Members(s)| == |s|
    ensures s[n] in Members(s) && |Smaller(Members(s), s[n])| == n
  {
    PrefixIsSmaller(s, n);
    Size(s[..n]);
    Size(s);
  }

  /** A member is determined by the number of smaller ones. */
  lemma RankIsUnique(s: set<nat>, x: nat, y: nat)
    requires x in s && y in s && |Smaller(s, x)| == |Smaller(s, y)|
    ensures x == y
  {
    if x < y { MoreBelow(s, x, y); }
    if y < x { MoreBelow(s, y, x); }
  }

  lemma MoreBelow(s: set<nat>, x: nat, y: nat)
    requires x in s && x < y
    ensures |Smaller(s, x)| < |Smaller(s, y)|
  {
    var rest := Smaller(s, y) - Smaller(s, x);
    assert Smaller(s, y) == Smaller(s, x) + rest && x in rest;
  }
}
