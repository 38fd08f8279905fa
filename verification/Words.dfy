/** Fixed-width unsigned machine words as bit sequences, most significant bit first, with
    the C++ operators the hash functions use on them. */
module Words {
  import opened Common
  import opened Bits

  type Word = seq<bool>

  function Zeros(n: nat): (r: Word)
    ensures |r| == n
  {
    seq(n, _ => false)
  }

  /** a ^ b */
  function Xor(a: Word, b: Word): (r: Word)
    requires |a| == |b|
    ensures |r| == |a|
    ensures forall i :: 0 <= i < |r| ==> r[i] == (a[i] != b[i])
  {
    seq(|a|, i requires 0 <= i < |a| => a[i] != b[i])
  }

  /** a & b */
  function And(a: Word, b: Word): (r: Word)
    requires |a| == |b|
    ensures |r| == |a|
    ensures forall i :: 0 <= i < |r| ==> r[i] == (a[i] && b[i])
  {
    seq(|a|, i requires 0 <= i < |a| => a[i] && b[i])
  }

  /** a | b */
  function Or(a: Word, b: Word): (r: Word)
    requires |a| == |b|
    ensures |r| == |a|
    ensures forall i :: 0 <= i < |r| ==> r[i] == (a[i] || b[i])
  {
    seq(|a|, i requires 0 <= i < |a| => a[i] || b[i])
  }

  /** a << n, truncated to the width of a. */
  function ShiftLeft(a: Word, n: nat): (r: Word)
    requires n <= |a|
    ensures |r| == |a|
  {
    a[n..] + Zeros(n)
  }

  /** a >> n */
  function ShiftRight(a: Word, n: nat): (r: Word)
    requires n <= |a|
    ensures |r| == |a|
  {
    Zeros(n) + a[..|a| - n]
  }

  function ToNat(a: Word): nat {
    if a == [] then 0 else 2 * ToNat(a[..|a| - 1]) + if a[|a| - 1] then 1 else 0
  }

  lemma ToNatSnoc(front: Word, last: bool)
    ensures ToNat(front + [last]) == 2 * ToNat(front) + if last then 1 else 0
  {
    assert (front + [last])[..|front|] == front;
  }

  lemma {:induction false} ToNatBound(a: Word)
    ensures ToNat(a) < Pow2(|a|)
  {
    if a != [] { ToNatBound(a[..|a| - 1]); }
  }

  lemma {:induction false} BitsOfToNat(a: Word)
    ensures BitsOf(ToNat(a), |a|) == a
  {
    if a != [] {
      BitsOfToNat(a[..|a| - 1]);
      assert a == a[..|a| - 1] + [a[|a| - 1]];
    }
  }

  lemma {:induction false} ToNatOfBits(k: nat, n: nat)
    requires k < Pow2(n)
    ensures ToNat(BitsOf(k, n)) == k
  {
    if n > 0 {
      ToNatOfBits(k / 2, n - 1);
      ToNatSnoc(BitsOf(k / 2, n - 1), k % 2 == 1);
    }
  }

  /** Leading zeros do not change the number. */
  lemma {:induction false} ToNatZeros(n: nat, a: Word)
    ensures ToNat(Zeros(n) + a) == ToNat(a)
    decreases n + |a|
  {
    if a != [] {
      assert (Zeros(n) + a)[..n + |a| - 1] == Zeros(n) + a[..|a| - 1];
      ToNatZeros(n, a[..|a| - 1]);
    } else if n > 0 {
      assert Zeros(n) + a == Zeros(n) && Zeros(n)[..n - 1] == Zeros(n - 1) == Zeros(n - 1) + a;
      ToNatZeros(n - 1, a);
    }
  }

  lemma {:induction false} BitsOfWide(k: nat, n: nat, w: nat)
    requires n <= w && k < Pow2(n)
    ensures BitsOf(k, w) == Zeros(w - n) + BitsOf(k, n)
    decreases w
  {
    if n == w {
    } else if n == 0 {
      BitsOfWide(0, 0, w - 1);
    } else {
      BitsOfWide(k / 2, n - 1, w - 1);
    }
  }
}
