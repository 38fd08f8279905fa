/** Small definitions that several modules share. */
module Common {

  datatype Option<T> = None | Some(value: T)

  const TWO32 := 0x1_0000_0000
  const TWO64 := 0x1_0000_0000_0000_0000

  function Reverse<T>(a: seq<T>): (r: seq<T>)
    ensures |r| == |a|
    ensures forall i :: 0 <= i < |r| ==> r[i] == a[|a| - 1 - i]
  {
    seq(|a|, i requires 0 <= i < |a| => a[|a| - 1 - i])
  }

  /** A vector with a gap opened at index at and filled with x. */
  function InsertAt<T>(xs: seq<T>, at: nat, x: T): (r: seq<T>)
    requires at <= |xs|
    ensures |r| == |xs| + 1
    ensures forall i :: 0 <= i < |r| ==> r[i] == if i < at then xs[i] else if i == at then x else xs[i - 1]
  {
    xs[..at] + [x] + xs[at..]
  }

  lemma InsertAtMembers<T>(xs: seq<T>, at: nat, x: T)
    requires at <= |xs|
    ensures forall y :: y in InsertAt(xs, at, x) <==> y in xs || y == x
  {
    assert xs == xs[..at] + xs[at..];
  }

  /** The numbers below n. */
  ghost function Range(n: nat): (t: set<nat>)
    ensures forall r :: r in t <==> 0 <= r < n
    ensures |t| == n
  {
    if n == 0 then {} else Range(n - 1) + {n - 1}
  }
}
