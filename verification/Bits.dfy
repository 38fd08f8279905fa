/** Bit strings, most significant bit first: the common language in which routing
    prefixes, keys and messages are compared. */
module Bits {

  type byte = x: int | 0 <= x < 256

  function Pow2(n: nat): (r: nat)
    ensures r >= 1
  {
    if n == 0 then 1 else 2 * Pow2(n - 1)
  }

  /** k >> m. */
  function Shr(k: nat, m: nat): (r: nat)
    ensures r <= k
  {
    if m == 0 then k else Shr(k / 2, m - 1)
  }

  /** The low n bits of k, most significant first. */
  function BitsOf(k: nat, n: nat): (r: seq<bool>)
    ensures |r| == n
  {
    if n == 0 then [] else BitsOf(k / 2, n - 1) + [k % 2 == 1]
  }

  /** The bits of a byte string, in transmission order. */
  function BytesBits(s: seq<byte>): (r: seq<bool>)
    ensures |r| == 8 * |s|
  {
    if s == [] then [] else BytesBits(s[..|s| - 1]) + BitsOf(s[|s| - 1], 8)
  }

  /** Shifting right drops the least significant bits and nothing else. */
  lemma {:induction false} ShiftDropsBits(k: nat, n: nat, l: nat)
    requires l <= n
    ensures BitsOf(k, n)[..l] == BitsOf(Shr(k, n - l), l)
    decreases n - l
  {
    if l < n {
      ShiftDropsBits(k / 2, n - 1, l);
      assert BitsOf(k, n)[..l] == BitsOf(k / 2, n - 1)[..l];
    } else {
      assert BitsOf(k, n)[..l] == BitsOf(k, n);
    }
  }

  lemma {:induction false} ShiftBound(k: nat, n: nat, l: nat)
    requires l <= n && k < Pow2(n)
    ensures Shr(k, n - l) < Pow2(l)
    decreases n - l
  {
    if l < n {
      ShiftBound(k / 2, n - 1, l);
    }
  }

  /** n bits determine a number below 2^n. */
  lemma {:induction false} BitsInjective(a: nat, b: nat, n: nat)
    requires a < Pow2(n) && b < Pow2(n) && BitsOf(a, n) == BitsOf(b, n)
    ensures a == b
  {
    if n > 0 {
      var x, y := BitsOf(a, n), BitsOf(b, n);
      assert x[..n - 1] == BitsOf(a / 2, n - 1) && y[..n - 1] == BitsOf(b / 2, n - 1);
      assert x[n - 1] == (a % 2 == 1) && y[n - 1] == (b % 2 == 1);
      BitsInjective(a / 2, b / 2, n - 1);
    }
  }

  lemma {:induction false} BytesBitsTake(s: seq<byte>, n: nat)
    requires n <= |s|
    ensures BytesBits(s)[..8 * n] == BytesBits(s[..n])
    decreases |s|
  {
    if n == |s| {
      assert s[..n] == s;
      assert BytesBits(s)[..8 * n] == BytesBits(s);
    } else {
      var front := s[..|s| - 1];
      BytesBitsTake(front, n);
      assert front[..n] == s[..n];
      assert BytesBits(s)[..8 * n] == BytesBits(front)[..8 * n];
    }
  }

  lemma {:induction false} BytesBitsConcat(a: seq<byte>, b: seq<byte>)
    ensures BytesBits(a + b) == BytesBits(a) + BytesBits(b)
    decreases |b|
  {
    if b == [] {
      assert a + b == a;
    } else {
      assert (a + b)[..|a| + |b| - 1] == a + b[..|b| - 1];
      BytesBitsConcat(a, b[..|b| - 1]);
    }
  }

  /** The first 8n+l bits are n whole bytes and the top l bits of the next one. */
  lemma BytesBitsSplit(s: seq<byte>, n: nat, l: nat)
    requires n < |s| && l <= 8
    ensures BytesBits(s)[..8 * n + l] == BytesBits(s[..n]) + BitsOf(s[n], 8)[..l]
  {
    BytesBitsTake(s, n + 1);
    assert s[..n + 1][..n] == s[..n];
    var t := BytesBits(s[..n + 1]);
    assert t == BytesBits(s[..n]) + BitsOf(s[n], 8);
    assert BytesBits(s)[..8 * n + l] == t[..8 * n + l];
    assert t[..8 * n + l] == BytesBits(s[..n]) + BitsOf(s[n], 8)[..l];
  }

  // ----- division with remainder

  lemma ModUnique(a: nat, m: nat, q: nat, r: nat)
    requires 0 < m && a == m * q + r && r < m
    ensures a % m == r
  {
    var q', r' := a / m, a % m;
    assert m * (q' - q) == r - r' by { assert a == m * q' + r'; }
    if q' - q >= 1 { MulGrows(m, q' - q); }
    if q - q' >= 1 { MulGrows(m, q - q'); }
  }

  lemma MulGrows(m: nat, d: nat)
    requires d >= 1
    ensures m * d >= m
  {
  }
}
