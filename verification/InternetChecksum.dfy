/** The Internet checksum: a 64-bit deferred-carry loop proved against the 16-bit ones'
    complement sum, and the IPv4 header checksum built on it. */
module InternetChecksum {
  import opened Common
  import opened Bits

  function Join(hi: nat, lo: nat): nat { 256 * hi + lo }

  // ----- the reference: sections 1 and 2 of RFC 1071

  /** 16-bit ones' complement addition: the carry out is added back in. */
  function OnesAdd(a: nat, b: nat): (r: nat)
    requires a <= 0xFFFF && b <= 0xFFFF
    ensures r <= 0xFFFF
  {
    if a + b > 0xFFFF then a + b - 0xFFFF else a + b
  }

  /** The ones' complement sum of the big-endian 16-bit words of buf, the last one padded
      with a zero byte when the length is odd. */
  function OnesSum(buf: seq<byte>): (r: nat)
    ensures r <= 0xFFFF
  {
    if buf == [] then 0
    else if |buf| == 1 then Join(buf[0], 0)
    else OnesAdd(Join(buf[0], buf[1]), OnesSum(buf[2..]))
  }

  function Checksum(buf: seq<byte>): (r: nat)
    ensures r <= 0xFFFF
  {
    0xFFFF - OnesSum(buf)
  }

  // ----- sums before any carry is folded

  /** The plain sum of the big-endian words. */
  function WordSum(buf: seq<byte>): nat {
    if buf == [] then 0
    else if |buf| == 1 then Join(buf[0], 0)
    else Join(buf[0], buf[1]) + WordSum(buf[2..])
  }

  /** What the loop adds up on a host of the given byte order; an odd byte is added as is. */
  function HostSum(buf: seq<byte>, little: bool): nat {
    if buf == [] then 0
    else if |buf| == 1 then buf[0]
    else Load16(buf, 0, little) + HostSum(buf[2..], little)
  }

  /** The unsigned integers a host reads from memory: a little-endian host takes the first
      half as the low one. */
  function Load16(s: seq<byte>, at: nat, little: bool): (r: nat)
    requires at + 2 <= |s|
    ensures r < TWO16
  {
    if little then Join(s[at + 1], s[at]) else Join(s[at], s[at + 1])
  }

  function Load32(s: seq<byte>, at: nat, little: bool): (r: nat)
    requires at + 4 <= |s|
    ensures r < TWO32
  {
    var a, b := Load16(s, at, little), Load16(s, at + 2, little);
    if little then a + TWO16 * b else TWO16 * a + b
  }

  function Load64(s: seq<byte>, at: nat, little: bool): (r: nat)
    requires at + 8 <= |s|
    ensures r < TWO64
  {
    var a, b := Load32(s, at, little), Load32(s, at + 4, little);
    if little then a + TWO32 * b else TWO32 * a + b
  }

  const TWO16 := 0x1_0000

  /** r is the 16-bit ones' complement value of the sum n: congruent to it modulo 65535,
      and 0 only when n is. */
  ghost predicate Represents(r: nat, n: nat) {
    && Congruent(n, r)
    && (r == 0 <==> n == 0)
  }

  /** n and r are congruent modulo 65535. */
  ghost predicate Congruent(n: int, r: int) {
    exists k: int {:trigger Multiple(k)} :: n - r == Multiple(k)
  }

  function Multiple(k: int): int { 65535 * k }

  lemma Quotient(n: int, r: int) returns (k: int)
    requires Congruent(n, r)
    ensures n - r == Multiple(k)
  {
    k :| n - r == Multiple(k);
  }

  lemma Same(r: nat, s: nat, n: nat)
    requires r <= 0xFFFF && s <= 0xFFFF && Represents(r, n) && Represents(s, n)
    ensures r == s
  {
    var k :| n - r == Multiple(k);
    var l :| n - s == Multiple(l);
    assert r - s == 65535 * (l - k);
  }

  /** Closed form: 0 for 0, otherwise ((n-1) mod 65535) + 1. */
  lemma ClosedForm(r: nat, n: nat)
    requires r <= 0xFFFF && Represents(r, n)
    ensures r == if n == 0 then 0 else (n - 1) % 65535 + 1
  {
    if n > 0 {
      var s := (n - 1) % 65535 + 1;
      assert n - s == Multiple((n - 1) / 65535);
      Same(r, s, n);
    }
  }

  /** Folding takes 65535 off the plain sum once for every carry, k times in all. */
  lemma {:induction false} OnesSumCarries(buf: seq<byte>) returns (k: int)
    ensures WordSum(buf) - OnesSum(buf) == Multiple(k)
    ensures OnesSum(buf) == 0 <==> WordSum(buf) == 0
  {
    k := 0;
    if |buf| > 1 {
      k := OnesSumCarries(buf[2..]);
      if Join(buf[0], buf[1]) + OnesSum(buf[2..]) > 0xFFFF { k := k + 1; }
    }
  }

  lemma Witnessed(r: nat, n: nat, k: int)
    requires n - r == Multiple(k) && (r == 0 <==> n == 0)
    ensures Represents(r, n)
  {
  }

  // ----- byte order

  /** x >> 8: how often 256 can be taken off. */
  function High(x: nat): (hi: nat)
    ensures 256 * hi <= x < 256 * hi + 256
  {
    if x < 256 then 0 else 1 + High(x - 256)
  }

  /** x & 0xFF */
  function Low(x: nat): (lo: nat)
    ensures lo < 256 && x == 256 * High(x) + lo
  {
    x - 256 * High(x)
  }

  /** The bytes of a 16-bit value, as the other byte order reads them. */
  function Swap(x: nat): (r: nat)
    requires x <= 0xFFFF
    ensures r <= 0xFFFF
  {
    256 * Low(x) + High(x)
  }

  /** ntohs */
  function NetworkToHost(x: nat, little: bool): (r: nat)
    requires x <= 0xFFFF
    ensures r <= 0xFFFF
  {
    if little then Swap(x) else x
  }

  /** Swapping the bytes multiplies by 256 modulo 65535, for words and for whole sums. */
  lemma {:induction false} LittleSum(buf: seq<byte>)
    ensures Congruent(256 * HostSum(buf, true), WordSum(buf))
    ensures HostSum(buf, true) == 0 <==> WordSum(buf) == 0
  {
    if |buf| <= 1 {
      assert 256 * HostSum(buf, true) - WordSum(buf) == Multiple(0);
    } else {
      LittleSum(buf[2..]);
      var k := Quotient(256 * HostSum(buf[2..], true), WordSum(buf[2..]));
      assert 256 * HostSum(buf, true) - WordSum(buf) == Multiple(k + buf[1] as int);
    }
  }

  lemma {:induction false} BigSum(buf: seq<byte>)
    ensures |buf| % 2 == 0 ==> HostSum(buf, false) == WordSum(buf)
    ensures |buf| % 2 == 1 ==> WordSum(buf) == HostSum(buf, false) + 255 * (buf[|buf| - 1] as int)
  {
    if |buf| > 1 {
      BigSum(buf[2..]);
    }
  }

  lemma SwapRepresents(r: nat, buf: seq<byte>)
    requires r <= 0xFFFF && Represents(r, HostSum(buf, true))
    ensures Represents(Swap(r), WordSum(buf))
  {
    LittleSum(buf);
    var k :| HostSum(buf, true) - r == Multiple(k);
    var l := Quotient(256 * HostSum(buf, true), WordSum(buf));
    assert 256 * r - Swap(r) == Multiple(High(r));
    assert WordSum(buf) - Swap(r) == Multiple(256 * k - l + High(r));
  }

  // ----- the code

  /** a + b on unsigned integers below limit, which wrap around. */
  function WrapAdd(a: nat, b: nat, limit: nat): (r: nat)
    requires a < limit && b < limit
    ensures r < limit
  {
    if a + b < limit then a + b else a + b - limit
  }

  /** sum += s; if (sum < s) sum++: the carry out is not lost but added back. */
  function AddWithCarry(sum: nat, s: nat, limit: nat): (r: nat)
    requires sum < limit && s < limit
    ensures r < limit
    ensures r == sum + s || r == sum + s - (limit - 1)
    ensures r == 0 <==> sum == 0 && s == 0
  {
    var t := WrapAdd(sum, s, limit);
    if t < s then t + 1 else t
  }

  lemma {:induction false} HostSumSplit(buf: seq<byte>, n: nat, little: bool)
    requires n <= |buf| && n % 2 == 0
    ensures HostSum(buf, little) == HostSum(buf[..n], little) + HostSum(buf[n..], little)
    decreases n
  {
    if n > 0 {
      hide Load16, Load32, Load64;
      HostSumSplit(buf[2..], n - 2, little);
      assert buf[2..][..n - 2] == buf[..n][2..] && buf[2..][n - 2..] == buf[n..];
    } else {
      assert buf[n..] == buf;
    }
  }

  lemma Sum2(buf: seq<byte>, at: nat, little: bool)
    requires at + 2 <= |buf| && at % 2 == 0
    ensures HostSum(buf[..at + 2], little) == HostSum(buf[..at], little) + Load16(buf, at, little)
  {
    HostSumSplit(buf[..at + 2], at, little);
    assert buf[..at + 2][..at] == buf[..at];
    var w := buf[..at + 2][at..];
    assert w == buf[at..at + 2] && w[2..] == [];
  }

  /** Wider loads are congruent to the sums of their words, and vanish with them. */
  function Words4(buf: seq<byte>, at: nat, little: bool): nat
    requires at + 4 <= |buf|
  {
    Load16(buf, at, little) + Load16(buf, at + 2, little)
  }

  lemma Load32Represents(buf: seq<byte>, at: nat, little: bool)
    requires at + 4 <= |buf|
    ensures Represents(Load32(buf, at, little), Words4(buf, at, little))
  {
    var a, b := Load16(buf, at, little), Load16(buf, at + 2, little);
    assert a + b - Load32(buf, at, little) == Multiple(if little then -b else -a);
  }

  lemma Load64Represents(buf: seq<byte>, at: nat, little: bool)
    requires at + 8 <= |buf|
    ensures Represents(Load64(buf, at, little), Words4(buf, at, little) + Words4(buf, at + 4, little))
  {
    hide Load32;
    Load32Represents(buf, at, little);
    Load32Represents(buf, at + 4, little);
    var a, b := Load32(buf, at, little), Load32(buf, at + 4, little);
    var n, m := Words4(buf, at, little), Words4(buf, at + 4, little);
    var k := Quotient(n, a);
    var l := Quotient(m, b);
    var h := if little then b else a;
    assert n + m - Load64(buf, at, little) == Multiple(k + l - 65537 * h);
  }

  lemma Sum4(buf: seq<byte>, at: nat, little: bool)
    requires at + 4 <= |buf| && at % 2 == 0
    ensures HostSum(buf[..at + 4], little) == HostSum(buf[..at], little) + Words4(buf, at, little)
  {
    Sum2(buf, at, little);
    Sum2(buf, at + 2, little);
  }

  /** Adding with end-around carry below 2^16, 2^32 or 2^64 keeps the congruence. */
  lemma AddRepresents(sum: nat, s: nat, limit: nat, n: nat, m: nat)
    requires limit in {TWO16, TWO32, TWO64} && sum < limit && s < limit
    requires Represents(sum, n) && Represents(s, m)
    ensures Represents(AddWithCarry(sum, s, limit), n + m)
  {
    var k := Quotient(n, sum);
    var l := Quotient(m, s);
    var f := if limit == TWO16 then 1 else if limit == TWO32 then 0x1_0001 else 0x1_0001_0001_0001;
    assert limit - 1 == Multiple(f);
    var c := if AddWithCarry(sum, s, limit) == sum + s then 0 else f;
    assert n + m - AddWithCarry(sum, s, limit) == Multiple(k + l + c);
  }

  lemma Itself(n: nat)
    ensures Represents(n, n)
  {
    assert n - n == Multiple(0);
  }

  /** Folding a wide sum to half its width keeps it too. */
  lemma FoldRepresents(sum: nat, limit: nat, n: nat)
    requires limit in {TWO16, TWO32} && sum < limit * limit && Represents(sum, n)
    ensures sum / limit < limit
    ensures Represents(AddWithCarry(sum % limit, sum / limit, limit), n)
  {
    var lo, hi := sum % limit, sum / limit;
    Itself(lo);
    Itself(hi);
    AddRepresents(lo, hi, limit, lo, hi);
    var r := AddWithCarry(lo, hi, limit);
    var k := Quotient(n, sum);
    var l := Quotient(lo + hi, r);
    var f := if limit == TWO16 then 1 else 0x1_0001;
    assert sum == lo + limit * hi;
    assert n - r == Multiple(k + l + f * hi);
  }

  /** Everything before at has been added in. */
  ghost predicate Summed(sum: nat, buf: seq<byte>, at: nat, little: bool) {
    at <= |buf| && sum < TWO64 && Represents(sum, HostSum(buf[..at], little))
  }

  /** One load: s stands for the words up to to, whose plain sum is w. */
  lemma TakeWord(sum: nat, buf: seq<byte>, at: nat, to: nat, little: bool, s: nat, w: nat)
    requires Summed(sum, buf, at, little) && s < TWO64 && Represents(s, w)
    requires to <= |buf| && HostSum(buf[..to], little) == HostSum(buf[..at], little) + w
    ensures Summed(AddWithCarry(sum, s, TWO64), buf, to, little)
  {
    hide Represents, HostSum, AddWithCarry;
    AddRepresents(sum, s, TWO64, HostSum(buf[..at], little), w);
  }

  lemma Take1(sum: nat, buf: seq<byte>, at: nat, little: bool)
    requires Summed(sum, buf, at, little) && at + 1 == |buf| && at % 2 == 0
    ensures Summed(AddWithCarry(sum, buf[at], TWO64), buf, |buf|, little)
  {
    hide Represents, HostSum, AddWithCarry, Summed;
    LastByte(buf, little);
    assert buf[..|buf|] == buf;
    Itself(buf[at]);
    TakeWord(sum, buf, at, |buf|, little, buf[at], buf[at]);
  }

  /** t1 and t3 of the code. */
  function Fold32(sum: nat): nat
    requires sum < TWO64
  {
    AddWithCarry(sum % TWO32, sum / TWO32, TWO32)
  }

  function Fold16(t1: nat): nat
    requires t1 < TWO32
  {
    AddWithCarry(t1 % TWO16, t1 / TWO16, TWO16)
  }

  lemma FoldsRepresent(sum: nat, n: nat)
    requires sum < TWO64 && Represents(sum, n)
    ensures Fold32(sum) < TWO32 && Fold16(Fold32(sum)) < TWO16 && Represents(Fold16(Fold32(sum)), n)
  {
    hide Represents;
    FoldRepresents(sum, TWO32, n);
    FoldRepresents(Fold32(sum), TWO16, n);
  }

  /** The accumulator of cksum16, folded to 16 bits (t3), before the complement. */
  method FoldedSum(buf: seq<byte>, little: bool) returns (t3: nat)
    ensures t3 <= 0xFFFF && Represents(t3, HostSum(buf, little))
  {
    hide Load64, Load32, Load16, Words4, HostSum, AddWithCarry, Summed, Represents, Fold32, Fold16;
    var sum: nat, at: nat, len: nat := 0, 0, |buf|;
    Nothing(buf, little);
    while len >= 8
      invariant at + len == |buf| && at % 2 == 0
      invariant sum < TWO64 && Summed(sum, buf, at, little)
    {
      var s := Load64(buf, at, little);
      Load64Represents(buf, at, little);
      Sum4(buf, at, little);
      Sum4(buf, at + 4, little);
      TakeWord(sum, buf, at, at + 8, little, s, Words4(buf, at, little) + Words4(buf, at + 4, little));
      sum := AddWithCarry(sum, s, TWO64);
      at := at + 8;
      len := len - 8;
    }
    if len / 4 % 2 == 1 {
      var s := Load32(buf, at, little);
      Load32Represents(buf, at, little);
      Sum4(buf, at, little);
      TakeWord(sum, buf, at, at + 4, little, s, Words4(buf, at, little));
      sum := AddWithCarry(sum, s, TWO64);
      at := at + 4;
    }
    if len / 2 % 2 == 1 {
      var s := Load16(buf, at, little);
      Sum2(buf, at, little);
      Itself(s);
      TakeWord(sum, buf, at, at + 2, little, s, s);
      sum := AddWithCarry(sum, s, TWO64);
      at := at + 2;
    }
    if len % 2 == 1 {
      Take1(sum, buf, at, little);
      sum := AddWithCarry(sum, buf[at], TWO64);
    }
    SummedUp(sum, buf, little);
    FoldsRepresent(sum, HostSum(buf, little));
    var t1 := Fold32(sum);
    t3 := Fold16(t1);
  }

  lemma SummedUp(sum: nat, buf: seq<byte>, little: bool)
    requires Summed(sum, buf, |buf|, little)
    ensures sum < TWO64 && Represents(sum, HostSum(buf, little))
  {
    assert buf[..|buf|] == buf;
  }

  lemma Nothing(buf: seq<byte>, little: bool)
    ensures Summed(0, buf, 0, little)
  {
    Itself(0);
  }

  lemma LastByte(buf: seq<byte>, little: bool)
    requires |buf| % 2 == 1
    ensures HostSum(buf, little) == HostSum(buf[..|buf| - 1], little) + buf[|buf| - 1]
  {
    HostSumSplit(buf, |buf| - 1, little);
    assert buf[|buf| - 1..] == [buf[|buf| - 1]];
  }

  /** The sum with 65535 taken off until 16 bits are left: 0 only for 0. */
  function Folded(n: nat): (r: nat)
    ensures r <= 0xFFFF && (r == 0 <==> n == 0)
  {
    if n <= 0xFFFF then n else Folded(n - 0xFFFF)
  }

  /** cksum16 of checksums.cpp: the complement, as a host integer. */
  method Cksum16Host(buf: seq<byte>, little: bool) returns (r: nat)
    ensures r == 0xFFFF - Folded(HostSum(buf, little))
  {
    var t3 := FoldedSum(buf, little);
    FoldedRepresents(HostSum(buf, little));
    Same(t3, Folded(HostSum(buf, little)), HostSum(buf, little));
    r := 0xFFFF - t3;
  }

  /** The host's loop adds up what the network does. */
  predicate SumsAlike(buf: seq<byte>, little: bool) {
    little || |buf| % 2 == 0 || buf[|buf| - 1] == 0
  }

  /** cksum16 of calculations.cpp: the same, through ntohs. On a little-endian host it is
      the checksum of RFC 1071 for every buffer; on a big-endian one exactly when no
      non-zero odd byte is left over. */
  method Cksum16(buf: seq<byte>, little: bool) returns (r: nat)
    ensures r <= 0xFFFF
    ensures r == Checksum(buf) <==> SumsAlike(buf, little)
  {
    var host := Cksum16Host(buf, little);
    HostIsNetwork(buf, little);
    r := NetworkToHost(host, little);
  }

  lemma {:induction false} FoldedRepresents(n: nat)
    ensures Represents(Folded(n), n)
  {
    if n <= 0xFFFF {
      Itself(n);
    } else {
      FoldedRepresents(n - 0xFFFF);
      var k := Quotient(n - 0xFFFF, Folded(n - 0xFFFF));
      Witnessed(Folded(n), n, k + 1);
    }
  }

  lemma ComplementSwaps(t: nat, little: bool)
    requires t <= 0xFFFF
    ensures NetworkToHost(0xFFFF - t, little) == 0xFFFF - NetworkToHost(t, little)
  {
    hide High;
    assert High(0xFFFF - t) == 255 - High(t) && Low(0xFFFF - t) == 255 - Low(t);
  }

  lemma HostIsNetwork(buf: seq<byte>, little: bool)
    ensures NetworkToHost(0xFFFF - Folded(HostSum(buf, little)), little) == Checksum(buf)
       <==> SumsAlike(buf, little)
  {
    var t3 := Folded(HostSum(buf, little));
    hide Folded;
    FoldedRepresents(HostSum(buf, little));
    ComplementSwaps(t3, little);
    var k := OnesSumCarries(buf);
    Witnessed(OnesSum(buf), WordSum(buf), k);
    if little {
      SwapRepresents(t3, buf);
      Same(Swap(t3), OnesSum(buf), WordSum(buf));
    } else {
      BigSum(buf);
      if |buf| % 2 == 0 || buf[|buf| - 1] == 0 {
        Same(t3, OnesSum(buf), WordSum(buf));
      } else if t3 == OnesSum(buf) {
        OddByteMatters(t3, HostSum(buf, little), buf[|buf| - 1]);
      }
    }
  }

  /** Moving an odd byte to the other half of its word changes the sum modulo 65535. */
  lemma OddByteMatters(t: nat, n: nat, b: nat)
    requires b < 256 && Represents(t, n) && Represents(t, n + 255 * b)
    ensures b == 0
  {
    var k := Quotient(n, t);
    var l := Quotient(n + 255 * b, t);
    assert 255 * b == 65535 * (l - k);
  }

  // ----- the IPv4 header checksum

  const CKSUM_OFFSET := 10
  const HDR_MAX_LEN := 60

  /** The header with its checksum bytes replaced. */
  function WithChecksum(h: seq<byte>, b0: byte, b1: byte): (r: seq<byte>)
    requires 12 <= |h|
    ensures |r| == |h| && r[10] == b0 && r[11] == b1
    ensures forall i :: 0 <= i < |h| && i != 10 && i != 11 ==> r[i] == h[i]
  {
    h[CKSUM_OFFSET := b0][CKSUM_OFFSET + 1 := b1]
  }

  /** The two bytes of a 16-bit host integer in memory. */
  function MemoryBytes(x: nat, little: bool): (r: (byte, byte))
    requires x <= 0xFFFF
    ensures Join(r.0, r.1) == NetworkToHost(x, little)
  {
    if little then (Low(x), High(x)) else (High(x), Low(x))
  }

  /** The bytes that update_ writes and verify_ expects. */
  function ExpectedBytes(h: seq<byte>, little: bool): (byte, byte)
    requires 12 <= |h|
  {
    MemoryBytes(0xFFFF - Folded(HostSum(WithChecksum(h, 0, 0), little)), little)
  }

  function Updated(h: seq<byte>, little: bool): (r: seq<byte>)
    requires 12 <= |h|
    ensures |r| == |h|
  {
    var e := ExpectedBytes(h, little);
    WithChecksum(h, e.0, e.1)
  }

  /** Both methods start by copying the header and clearing the checksum in the copy. */
  method HeaderChecksum(hdr: array<byte>, little: bool) returns (cksum: nat)
    requires 12 <= hdr.Length <= HDR_MAX_LEN
    ensures cksum <= 0xFFFF && MemoryBytes(cksum, little) == ExpectedBytes(hdr[..], little)
  {
    var buffer := new byte[HDR_MAX_LEN](_ => 0);
    forall i | 0 <= i < hdr.Length { buffer[i] := hdr[i]; }
    buffer[CKSUM_OFFSET] := 0;
    buffer[CKSUM_OFFSET + 1] := 0;
    assert buffer[..hdr.Length] == WithChecksum(hdr[..], 0, 0);
    cksum := Cksum16Host(buffer[..hdr.Length], little);
  }

  /** IPv4Checksum::update_ */
  method Update(isValid: bool, hdr: array<byte>, little: bool)
    requires 12 <= hdr.Length <= HDR_MAX_LEN
    modifies hdr
    ensures !isValid ==> hdr[..] == old(hdr[..])
    ensures isValid ==> hdr[..] == Updated(old(hdr[..]), little)
  {
    if !isValid { return; }
    var cksum := HeaderChecksum(hdr, little);
    var bytes := MemoryBytes(cksum, little);
    hdr[CKSUM_OFFSET] := bytes.0;
    hdr[CKSUM_OFFSET + 1] := bytes.1;
  }

  /** IPv4Checksum::verify_ */
  method Verify(isValid: bool, hdr: array<byte>, little: bool) returns (accepted: bool)
    requires 12 <= hdr.Length <= HDR_MAX_LEN
    ensures accepted <==> !isValid || (hdr[10], hdr[11]) == ExpectedBytes(hdr[..], little)
  {
    if !isValid { return true; }
    var cksum := HeaderChecksum(hdr, little);
    var bytes := MemoryBytes(cksum, little);
    accepted := bytes.0 == hdr[CKSUM_OFFSET] && bytes.1 == hdr[CKSUM_OFFSET + 1];
  }

  lemma WordSumFirst(h: seq<byte>)
    requires |h| >= 2
    ensures WordSum(h) == Join(h[0], h[1]) + WordSum(h[2..])
  {
  }

  lemma {:induction false} WordSumAt(h: seq<byte>, i: nat)
    requires i % 2 == 0 && i + 2 <= |h|
    ensures WordSum(h) == WordSum(h[i := 0][i + 1 := 0]) + Join(h[i], h[i + 1])
    decreases i
  {
    hide WordSum;
    var z := h[i := 0][i + 1 := 0];
    WordSumFirst(h);
    WordSumFirst(z);
    if i > 0 {
      WordSumAt(h[2..], i - 2);
      assert z[2..] == h[2..][i - 2 := 0][i - 1 := 0];
    } else {
      assert z[2..] == h[2..];
    }
  }

  /** What is expected does not depend on what is stored. */
  lemma ExpectedIgnores(h: seq<byte>, k: seq<byte>, little: bool)
    requires 12 <= |h| == |k| && WithChecksum(h, 0, 0) == WithChecksum(k, 0, 0)
    ensures ExpectedBytes(h, little) == ExpectedBytes(k, little)
  {
    hide WithChecksum, HostSum, Folded, MemoryBytes;
  }

  /** After update_, verify_ accepts, on any host and for any header length. */
  lemma UpdatedIsAccepted(h: seq<byte>, little: bool)
    requires 12 <= |h|
    ensures
      var u := Updated(h, little);
      (u[10], u[11]) == ExpectedBytes(u, little)
  {
    hide ExpectedBytes;
    assert WithChecksum(Updated(h, little), 0, 0) == WithChecksum(h, 0, 0);
    ExpectedIgnores(Updated(h, little), h, little);
  }

  /** z is the sum without the stored value c, s the sum with it. */
  lemma AllOnesIff(z: nat, c: nat, s: nat, n: nat, m: nat)
    requires z <= 0xFFFF && c <= 0xFFFF && s <= 0xFFFF
    requires Represents(z, n) && Represents(s, m) && m == n + c
    ensures c == 0xFFFF - z <==> s == 0xFFFF && !(c == 0xFFFF && n > 0)
  {
    var k := Quotient(n, z);
    var l := Quotient(m, s);
    assert z + c - s == 65535 * (l - k);
  }

  lemma ExpectedIsChecksum(h: seq<byte>, little: bool)
    requires 12 <= |h| && (little || |h| % 2 == 0)
    ensures (h[10], h[11]) == ExpectedBytes(h, little) <==> Join(h[10], h[11]) == Checksum(WithChecksum(h, 0, 0))
  {
    hide HostSum, Folded, OnesSum;
    HostIsNetwork(WithChecksum(h, 0, 0), little);
  }

  lemma AcceptedEven(h: seq<byte>, little: bool)
    requires 12 <= |h| && (little || |h| % 2 == 0)
    ensures (h[10], h[11]) == ExpectedBytes(h, little)
       <==> OnesSum(h) == 0xFFFF && !(h[10] == 0xFF && h[11] == 0xFF && WordSum(WithChecksum(h, 0, 0)) > 0)
  {
    hide OnesSum, WordSum, HostSum, ExpectedBytes, Represents;
    var z := WithChecksum(h, 0, 0);
    ExpectedIsChecksum(h, little);
    WordSumAt(h, 10);
    var k := OnesSumCarries(h);
    var l := OnesSumCarries(z);
    Witnessed(OnesSum(h), WordSum(h), k);
    Witnessed(OnesSum(z), WordSum(z), l);
    AllOnesIff(OnesSum(z), Join(h[10], h[11]), OnesSum(h), WordSum(z), WordSum(h));
  }

  /** The loop adds an odd last byte to the right half of a word. */
  function AsSummed(h: seq<byte>, little: bool): (r: seq<byte>)
    ensures little || |r| % 2 == 0
    ensures little || |h| % 2 == 0 ==> r == h
    ensures |h| <= |r| && r[..|h| / 2 * 2] == h[..|h| / 2 * 2]
  {
    if little || |h| % 2 == 0 then h else h[..|h| - 1] + [0, h[|h| - 1]]
  }

  lemma LastPair(b: byte)
    ensures HostSum([0, b], false) == b
  {
  }

  lemma AsSummedSum(h: seq<byte>)
    requires |h| % 2 == 1
    ensures HostSum(AsSummed(h, false), false) == HostSum(h, false)
    ensures WordSum(h) == WordSum(AsSummed(h, false)) + 255 * (h[|h| - 1] as int)
  {
    var r, n := AsSummed(h, false), |h| - 1;
    LastPair(h[n]);
    hide HostSum, WordSum;
    LastByte(h, false);
    HostSumSplit(r, n, false);
    assert r[..n] == h[..n] && r[n..] == [0, h[n]];
    BigSum(h);
    BigSum(r);
  }

  lemma ExpectedAsSummed(h: seq<byte>, little: bool)
    requires 12 <= |h|
    ensures ExpectedBytes(AsSummed(h, little), little) == ExpectedBytes(h, little)
  {
    if !little && |h| % 2 == 1 {
      var z := WithChecksum(h, 0, 0);
      AsSummedSum(z);
      assert AsSummed(z, false) == WithChecksum(AsSummed(h, false), 0, 0);
    }
  }

  /** verify_ accepts a header exactly when it sums to all ones, an odd last byte taken as the
      host takes it, except that it refuses a stored 0xFFFF (the other zero) unless the rest of
      the header is zero. */
  lemma AcceptedIffAllOnes(h: seq<byte>, little: bool)
    requires 12 <= |h|
    ensures
      var r := AsSummed(h, little);
      (h[10], h[11]) == ExpectedBytes(h, little)
      <==> OnesSum(r) == 0xFFFF && !(h[10] == 0xFF && h[11] == 0xFF && WordSum(WithChecksum(r, 0, 0)) > 0)
  {
    hide OnesSum, WordSum, ExpectedBytes;
    var r := AsSummed(h, little);
    assert r[..12] == h[..12];
    assert r[10] == r[..12][10] == h[10] && r[11] == r[..12][11] == h[11];
    ExpectedAsSummed(h, little);
    AcceptedEven(r, little);
  }

  /** Where an odd last byte is not zero, the network's sum and a big-endian host's cannot both
      be all ones. */
  lemma AllOnesAlike(h: seq<byte>, little: bool)
    ensures SumsAlike(h, little) ==> OnesSum(AsSummed(h, little)) == OnesSum(h)
    ensures OnesSum(AsSummed(h, little)) == 0xFFFF == OnesSum(h) ==> SumsAlike(h, little)
  {
    if !little && |h| % 2 == 1 {
      hide OnesSum, WordSum, HostSum, Represents;
      var r, b := AsSummed(h, false), h[|h| - 1];
      AsSummedSum(h);
      var k := OnesSumCarries(h);
      var l := OnesSumCarries(r);
      Witnessed(OnesSum(h), WordSum(h), k);
      Witnessed(OnesSum(r), WordSum(r), l);
      if b == 0 {
        Same(OnesSum(h), OnesSum(r), WordSum(h));
      } else if OnesSum(r) == OnesSum(h) {
        OddByteMatters(OnesSum(r), WordSum(r), b);
      }
    }
  }

  /** The updated header sums to all ones, the receiver's check of section 3.1 of RFC 791, on
      every little-endian host, and on a big-endian one exactly when no non-zero odd byte is
      left over. The same holds of every header that verify_ accepts. */
  lemma AcceptedSumsToAllOnes(h: seq<byte>, little: bool)
    requires 12 <= |h| && (h[10], h[11]) == ExpectedBytes(h, little)
    ensures OnesSum(h) == 0xFFFF <==> SumsAlike(h, little)
  {
    hide ExpectedBytes, OnesSum, SumsAlike, AsSummed, WordSum;
    AcceptedIffAllOnes(h, little);
    AllOnesAlike(h, little);
  }

  /** The update leaves the length and an odd last byte alone. */
  lemma UpdatedSumsAlike(h: seq<byte>, little: bool)
    requires 12 <= |h|
    ensures SumsAlike(Updated(h, little), little) <==> SumsAlike(h, little)
  {
    hide ExpectedBytes;
  }

  lemma UpdatedSumsToAllOnes(h: seq<byte>, little: bool)
    requires 12 <= |h|
    ensures OnesSum(Updated(h, little)) == 0xFFFF <==> SumsAlike(h, little)
  {
    hide ExpectedBytes, OnesSum, SumsAlike;
    UpdatedIsAccepted(h, little);
    AcceptedSumsToAllOnes(Updated(h, little), little);
    UpdatedSumsAlike(h, little);
  }
}
