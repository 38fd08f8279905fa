/** The configurable table-driven CRC, proved against long division of the message
    polynomial over GF(2). */
module Crc {
  import opened Common
  import opened Bits
  import opened Words

  datatype Config = Config(polynomial: Word, initialRemainder: Word, finalXorValue: Word,
                           dataReflected: bool, remainderReflected: bool) {
    predicate Fits(w: nat) {
      8 <= w && |polynomial| == w && |initialRemainder| == w && |finalXorValue| == w
    }
  }

  // ----- the reference: long division

  /** The remainder of a polynomial (coefficients by descending degree) modulo
      x^w + generator, w = |generator|: while the degree allows it, subtract the divisor
      under a leading one and drop the leading coefficient. */
  function Divide(dividend: seq<bool>, generator: Word): (r: Word)
    requires |dividend| >= |generator|
    ensures |r| == |generator|
    decreases |dividend|
  {
    var w := |generator|;
    if |dividend| == w then dividend
    else if dividend[0] then Divide(Xor(dividend[1..w + 1], generator) + dividend[w + 1..], generator)
    else Divide(dividend[1..], generator)
  }

  function XorFront(m: seq<bool>, r: Word): (d: seq<bool>)
    requires |r| <= |m|
    ensures |d| == |m|
  {
    Xor(m[..|r|], r) + m[|r|..]
  }

  function ByteBits(b: byte, reflected: bool): (r: seq<bool>)
    ensures |r| == 8
  {
    if reflected then Reverse(BitsOf(b, 8)) else BitsOf(b, 8)
  }

  function MessageBits(buf: seq<byte>, reflected: bool): (r: seq<bool>)
    ensures |r| == 8 * |buf|
  {
    if buf == [] then [] else MessageBits(buf[..|buf| - 1], reflected) + ByteBits(buf[|buf| - 1], reflected)
  }

  /** The remainder left by a whole message: the message followed by w zeros, with the
      initial remainder added to its first w bits, divided by the generator. */
  function MessageRemainder(c: Config, bits: seq<bool>): (r: Word)
    requires c.Fits(|c.polynomial|)
    ensures |r| == |c.polynomial|
  {
    Divide(XorFront(bits + Zeros(|c.polynomial|), c.initialRemainder), c.polynomial)
  }

  function Finish(c: Config, r: Word): (out: Word)
    requires c.Fits(|r|)
    ensures |out| == |r|
  {
    Xor(if c.remainderReflected then Reverse(r) else r, c.finalXorValue)
  }

  function CrcOf(c: Config, buf: seq<byte>): (out: Word)
    requires c.Fits(|c.polynomial|)
    ensures |out| == |c.polynomial|
  {
    Finish(c, MessageRemainder(c, MessageBits(buf, c.dataReflected)))
  }

  // ----- the shift register

  /** One turn of the division loop of the table builder. */
  function Step(g: Word, r: Word): (s: Word)
    requires |r| == |g| >= 1
    ensures |s| == |g|
  {
    if r[0] then Xor(ShiftLeft(r, 1), g) else ShiftLeft(r, 1)
  }

  function Steps(g: Word, r: Word, n: nat): (s: Word)
    requires |r| == |g| >= 1
    ensures |s| == |g|
    decreases n
  {
    if n == 0 then r else Steps(g, Step(g, r), n - 1)
  }

  lemma StepsOnce(g: Word, r: Word, n: nat)
    requires |r| == |g| >= 1
    ensures Steps(g, r, n + 1) == Steps(g, Step(g, r), n)
    ensures Steps(g, r, 0) == r
  {
  }

  /** The register after the message bits m have been shifted through it. */
  function Feed(g: Word, r: Word, m: seq<bool>): (s: Word)
    requires |r| == |g| >= 1
    ensures |s| == |g|
    decreases |m|
  {
    if m == [] then r else Feed(g, Step(g, r[0 := r[0] != m[0]]), m[1..])
  }

  lemma ShiftIn(r: Word, g: Word)
    requires |r| == |g| >= 1
    ensures forall i :: 0 <= i < |g| ==>
      Step(g, r)[i] == ((i < |g| - 1 && r[1 + i]) != (r[0] && g[i]))
  {
  }

  lemma Assemble(e: seq<bool>, d: seq<bool>, g: Word)
    requires |e| + 1 == |d| > |g| && e[|g|..] == d[|g| + 1..]
    requires forall i :: 0 <= i < |g| ==> e[i] == if d[0] then d[1 + i] != g[i] else d[1 + i]
    ensures e == if d[0] then Xor(d[1..|g| + 1], g) + d[|g| + 1..] else d[1..]
  {
    var w := |g|;
    assert e[..w] == if d[0] then Xor(d[1..w + 1], g) else d[1..w + 1];
    assert e == e[..w] + e[w..];
    assert d[1..] == d[1..w + 1] + d[w + 1..];
  }

  /** The dividend that is left when the register takes its next bit. */
  lemma DividendStep(g: Word, r: Word, m: seq<bool>)
    requires |r| == |g| >= 1 && m != []
    ensures
      var w, d := |g|, XorFront(m + Zeros(|g|), r);
      XorFront(m[1..] + Zeros(w), Step(g, r[0 := r[0] != m[0]]))
      == if d[0] then Xor(d[1..w + 1], g) + d[w + 1..] else d[1..]
  {
    var w, d, s := |g|, XorFront(m + Zeros(|g|), r), Step(g, r[0 := r[0] != m[0]]);
    var e := XorFront(m[1..] + Zeros(w), s);
    var x := m + Zeros(w);
    assert m[1..] + Zeros(w) == x[1..];
    assert d[0] == (r[0] != m[0]);
    assert e[w..] == x[1..][w..] == d[w + 1..];
    ShiftIn(r[0 := r[0] != m[0]], g);
    forall i | 0 <= i < w ensures e[i] == if d[0] then d[1 + i] != g[i] else d[1 + i] {
      assert e[i] == (x[1 + i] != s[i]);
      assert i < w - 1 ==> d[1 + i] == (x[1 + i] != r[1 + i]);
      assert i == w - 1 ==> d[1 + i] == x[1 + i];
    }
    hide Step, Zeros, XorFront;
    Assemble(e, d, g);
  }

  /** Feeding a message is dividing it: the bit-serial register computes the remainder. */
  lemma {:induction false} FeedDivides(g: Word, r: Word, m: seq<bool>)
    requires |r| == |g| >= 1
    ensures Feed(g, r, m) == Divide(XorFront(m + Zeros(|g|), r), g)
    decreases |m|
  {
    if m == [] {
      assert XorFront(m + Zeros(|g|), r) == r;
    } else {
      hide XorFront, Step, Xor, Zeros;
      DividendStep(g, r, m);
      FeedDivides(g, Step(g, r[0 := r[0] != m[0]]), m[1..]);
    }
  }

  /** Streaming: a message can be processed in pieces. */
  lemma {:induction false} FeedConcat(g: Word, r: Word, a: seq<bool>, b: seq<bool>)
    requires |r| == |g| >= 1
    ensures Feed(g, r, a + b) == Feed(g, Feed(g, r, a), b)
    decreases |a|
  {
    if a == [] {
      assert a + b == b;
    } else {
      assert (a + b)[1..] == a[1..] + b;
      FeedConcat(g, Step(g, r[0 := r[0] != a[0]]), a[1..], b);
    }
  }

  lemma StepLinear(g: Word, r: Word, s: Word)
    requires |r| == |s| == |g| >= 1
    ensures Step(g, Xor(r, s)) == Xor(Step(g, r), Step(g, s))
  {
  }

  lemma {:induction false} StepsLinear(g: Word, r: Word, s: Word, n: nat)
    requires |r| == |s| == |g| >= 1
    ensures Steps(g, Xor(r, s), n) == Xor(Steps(g, r, n), Steps(g, s, n))
    decreases n
  {
    if n > 0 {
      StepLinear(g, r, s);
      StepsLinear(g, Step(g, r), Step(g, s), n - 1);
    }
  }

  /** Linearity over GF(2) in the register and the message together. */
  lemma {:induction false} FeedLinear(g: Word, r: Word, s: Word, a: seq<bool>, b: seq<bool>)
    requires |r| == |s| == |g| >= 1 && |a| == |b|
    ensures Feed(g, Xor(r, s), Xor(a, b)) == Xor(Feed(g, r, a), Feed(g, s, b))
    decreases |a|
  {
    if a != [] {
      var r', s' := r[0 := r[0] != a[0]], s[0 := s[0] != b[0]];
      assert Xor(r, s)[0 := Xor(r, s)[0] != Xor(a, b)[0]] == Xor(r', s');
      assert Xor(a, b)[1..] == Xor(a[1..], b[1..]);
      StepLinear(g, r', s');
      FeedLinear(g, Step(g, r'), Step(g, s'), a[1..], b[1..]);
    }
  }

  lemma FeedNext(g: Word, r: Word, m: seq<bool>)
    requires |r| == |g| >= 1 && m != []
    ensures Feed(g, r, m) == Feed(g, Step(g, r[0 := r[0] != m[0]]), m[1..])
  {
  }

  lemma XorRest(r: Word, m: seq<bool>)
    requires 1 <= |m| <= |r|
    ensures Xor(r, m + Zeros(|r| - |m|)) == Xor(r[0 := r[0] != m[0]], [false] + m[1..] + Zeros(|r| - |m|))
  {
  }

  lemma ShiftRest(g: Word, m: seq<bool>)
    requires 1 <= |m| <= |g|
    ensures Step(g, [false] + m[1..] + Zeros(|g| - |m|)) == m[1..] + Zeros(|g| - |m[1..]|)
  {
  }

  /** Bits whose turn has not come can be added to the register at once. */
  lemma {:induction false} FeedAtOnce(g: Word, r: Word, m: seq<bool>)
    requires |m| <= |r| == |g| && |g| >= 1
    ensures Feed(g, r, m) == Steps(g, Xor(r, m + Zeros(|g| - |m|)), |m|)
    decreases |m|
  {
    var w := |g|;
    if m == [] {
      assert Xor(r, m + Zeros(w)) == r;
    } else {
      var r' := r[0 := r[0] != m[0]];
      var rest := [false] + m[1..] + Zeros(w - |m|);
      hide Xor, Steps, Feed, Step, Zeros;
      XorRest(r, m);
      StepLinear(g, r', rest);
      ShiftRest(g, m);
      FeedNext(g, r, m);
      StepsOnce(g, Xor(r', rest), |m| - 1);
      FeedAtOnce(g, Step(g, r'), m[1..]);
    }
  }

  lemma {:induction false} StepsShift(g: Word, r: Word, n: nat)
    requires n <= |r| == |g| && |g| >= 1
    requires forall i :: 0 <= i < n ==> !r[i]
    ensures Steps(g, r, n) == ShiftLeft(r, n)
    decreases n
  {
    if n > 0 {
      var s := Step(g, r);
      assert s == ShiftLeft(r, 1);
      StepsShift(g, s, n - 1);
      assert ShiftLeft(s, n - 1) == ShiftLeft(r, n);
    } else {
      assert ShiftLeft(r, 0) == r;
    }
  }

  // ----- the table

  /** What the table holds for dividend d. */
  function TableEntry(g: Word, d: nat): (r: Word)
    requires |g| >= 8
    ensures |r| == |g|
  {
    Steps(g, BitsOf(d, 8) + Zeros(|g| - 8), 8)
  }

  /** The index data that the loop computes from a byte's bits and the remainder. */
  function Index(bits: Word, r: Word): nat
    requires |bits| == 8 <= |r|
  {
    ToNat(Xor(bits, r[..8]))
  }

  /** One table look-up does the work of eight turns of the register. */
  lemma TableStep(g: Word, r: Word, bits: Word)
    requires |r| == |g| >= 8 && |bits| == 8
    ensures Index(bits, r) < 256
    ensures Feed(g, r, bits) == Xor(TableEntry(g, Index(bits, r)), ShiftLeft(r, 8))
  {
    var w := |g|;
    var top := Xor(bits, r[..8]);
    ToNatBound(top);
    assert Pow2(8) == 256;
    BitsOfToNat(top);
    hide Steps, Feed, BitsOf, ToNat, Pow2, Xor, Zeros, ShiftLeft;
    var hi, lo := top + Zeros(w - 8), Zeros(8) + r[8..];
    FeedAtOnce(g, r, bits);
    SplitTop(r, bits);
    StepsLinear(g, hi, lo, 8);
    TopIsZero(lo);
    StepsShift(g, lo, 8);
  }

  lemma TopIsZero(r: Word)
    requires 8 <= |r| && r[..8] == Zeros(8)
    ensures forall i :: 0 <= i < 8 ==> !r[i]
  {
    forall i | 0 <= i < 8 ensures !r[i] { assert r[i] == r[..8][i]; }
  }

  /** The top byte with the message bits added, and the rest. */
  lemma SplitTop(r: Word, bits: Word)
    requires |bits| == 8 <= |r|
    ensures
      var hi, lo := Xor(bits, r[..8]) + Zeros(|r| - 8), Zeros(8) + r[8..];
      Xor(r, bits + Zeros(|r| - 8)) == Xor(hi, lo) && ShiftLeft(lo, 8) == ShiftLeft(r, 8)
  {
  }

  /** The low nBits of data in reverse order; the bits above them are cleared. */
  function Reflected(data: Word, nBits: nat): (r: Word)
    requires nBits <= |data|
    ensures |r| == |data|
  {
    Zeros(|data| - nBits) + Reverse(data[|data| - nBits..])
  }

  /** reflect<T>: walks data from its lowest bit, setting the mirrored bit of the result. */
  method Reflect(data: Word, nBits: nat) returns (reflection: Word)
    requires nBits <= |data|
    ensures reflection == Reflected(data, nBits)
  {
    var w := |data|;
    var rest := data;
    reflection := Zeros(w);
    assert ShiftRight(data, 0) == data;
    hide ShiftRight, Reflected;
    for bit := 0 to nBits
      invariant |rest| == |reflection| == w
      invariant rest == ShiftRight(data, bit)
      invariant forall i :: 0 <= i < w ==>
        reflection[i] == (w - nBits <= i && i < w - nBits + bit && data[2 * w - nBits - 1 - i])
    {
      LastAfterShift(data, bit);
      if rest[w - 1] {
        reflection := reflection[w - 1 - (nBits - 1 - bit) := true];
      }
      rest := ShiftRight(rest, 1);
    }
    MirrorIsReflected(data, nBits, reflection);
  }

  lemma MirrorIsReflected(data: Word, nBits: nat, mirror: Word)
    requires nBits <= |data| == |mirror|
    requires forall i :: 0 <= i < |data| ==> mirror[i] == (|data| - nBits <= i && data[2 * |data| - nBits - 1 - i])
    ensures mirror == Reflected(data, nBits)
  {
    var r := Reflected(data, nBits);
    forall i | 0 <= i < |data| ensures r[i] == mirror[i] {
    }
  }

  lemma LastAfterShift(data: Word, n: nat)
    requires n < |data|
    ensures ShiftRight(data, n)[|data| - 1] == data[|data| - 1 - n]
    ensures ShiftRight(ShiftRight(data, n), 1) == ShiftRight(data, n + 1)
  {
  }

  class CrcCustom {
    const width: nat
    const crcTable: array<Word>
    var config: Config

    ghost predicate Valid()
      reads this, crcTable
    {
      && width >= 8 && crcTable.Length == 256 && config.Fits(width)
      && forall d :: 0 <= d < 256 ==> crcTable[d] == TableEntry(config.polynomial, d)
    }

    constructor (initial: Config)
      requires initial.Fits(|initial.polynomial|)
      ensures Valid() && fresh(crcTable)
      ensures config == initial && width == |initial.polynomial|
    {
      width, config := |initial.polynomial|, initial;
      crcTable := new Word[256](_ => []);
      new;
      RecomputeCrcTable(initial, crcTable);
    }

    /** Divides each possible leading byte, a bit at a time. */
    method RecomputeCrcTable(newConfig: Config, newTable: array<Word>)
      requires newTable.Length == 256 && newConfig.Fits(width)
      modifies newTable
      ensures forall d :: 0 <= d < 256 ==> newTable[d] == TableEntry(newConfig.polynomial, d)
    {
      hide Steps, BitsOf, Xor;
      ghost var g := newConfig.polynomial;
      for dividend := 0 to 256
        invariant forall d :: 0 <= d < dividend ==> newTable[d] == TableEntry(g, d)
      {
        var remainder := ShiftLeft(BitsOf(dividend, width), width - 8);
        DividendOnTop(dividend, width);
        ghost var start := remainder;
        for bit := 8 downto 0
          invariant |remainder| == width
          invariant Steps(g, start, 8) == Steps(g, remainder, bit)
          invariant forall d :: 0 <= d < dividend ==> newTable[d] == TableEntry(g, d)
        {
          StepsOnce(g, remainder, bit);
          if remainder[0] {
            remainder := Xor(ShiftLeft(remainder, 1), newConfig.polynomial);
          } else {
            remainder := ShiftLeft(remainder, 1);
          }
        }
        StepsOnce(g, remainder, 0);
        newTable[dividend] := remainder;
      }
    }

    method UpdateConfig(newConfig: Config)
      requires Valid() && newConfig.Fits(width)
      modifies this, crcTable
      ensures Valid() && config == newConfig
    {
      var crcTableNew := new Word[256](_ => []);
      RecomputeCrcTable(newConfig, crcTableNew);
      config := newConfig;
      forall i | 0 <= i < 256 {
        crcTable[i] := crcTableNew[i];
      }
    }

    /** The hash of a buffer is its CRC by long division. */
    method Compute(buf: seq<byte>) returns (out: Word)
      requires Valid()
      ensures out == CrcOf(config, buf)
    {
      hide Feed, Divide, TableEntry, BitsOf, ToNat, MessageBits, ByteBits, XorFront, Index;
      ghost var g, refl := config.polynomial, config.dataReflected;
      var remainder := config.initialRemainder;
      MessageStart(g, remainder, buf, refl);
      for i := 0 to |buf|
        invariant |remainder| == width
        invariant remainder == Feed(g, config.initialRemainder, MessageBits(buf[..i], refl))
      {
        var uchar := BitsOf(buf[i], width);
        if config.dataReflected { uchar := Reflect(uchar, 8); }
        ByteOnBottom(buf[i], refl, remainder);
        TableStep(g, remainder, ByteBits(buf[i], refl));
        var data := ToNat(Xor(uchar, ShiftRight(remainder, width - 8)));
        FeedConcat(g, config.initialRemainder, MessageBits(buf[..i], refl), ByteBits(buf[i], refl));
        MessageStep(buf, i, refl);
        remainder := Xor(crcTable[data], ShiftLeft(remainder, 8));
      }
      assert buf[..|buf|] == buf;
      FeedDivides(g, config.initialRemainder, MessageBits(buf, refl));
      if config.remainderReflected {
        remainder := Reflect(remainder, width);
      }
      out := Xor(remainder, config.finalXorValue);
    }
  }

  lemma MessageStart(g: Word, r: Word, buf: seq<byte>, reflected: bool)
    requires |r| == |g| >= 1
    ensures Feed(g, r, MessageBits(buf[..0], reflected)) == r
  {
  }

  lemma MessageStep(buf: seq<byte>, i: nat, reflected: bool)
    requires i < |buf|
    ensures MessageBits(buf[..i + 1], reflected) == MessageBits(buf[..i], reflected) + ByteBits(buf[i], reflected)
  {
    assert buf[..i + 1][..i] == buf[..i];
  }

  lemma DividendOnTop(d: nat, w: nat)
    requires d < 256 && 8 <= w
    ensures ShiftLeft(BitsOf(d, w), w - 8) == BitsOf(d, 8) + Zeros(w - 8)
  {
    assert Pow2(8) == 256;
    BitsOfWide(d, 8, w);
  }

  lemma WideByte(b: byte, w: nat)
    requires 8 <= w
    ensures BitsOf(b, w) == Zeros(w - 8) + BitsOf(b, 8)
  {
    assert Pow2(8) == 256;
    BitsOfWide(b, 8, w);
  }

  lemma PaddedByte(b: byte, uchar: Word, reflected: bool)
    requires 8 <= |uchar| && uchar == Zeros(|uchar| - 8) + BitsOf(b, 8)
    ensures (if reflected then Reflected(uchar, 8) else uchar) == Zeros(|uchar| - 8) + ByteBits(b, reflected)
  {
    hide BitsOf;
    assert uchar[|uchar| - 8..] == BitsOf(b, 8);
  }

  /** The w-bit expression for data in the loop is the 8-bit one. */
  lemma ByteOnBottom(b: byte, reflected: bool, r: Word)
    requires 8 <= |r|
    ensures
      var uchar := BitsOf(b, |r|);
      ToNat(Xor(if reflected then Reflected(uchar, 8) else uchar, ShiftRight(r, |r| - 8)))
      == Index(ByteBits(b, reflected), r)
  {
    hide BitsOf, ToNat, Pow2, Xor, Zeros, ShiftRight, ByteBits, Reflected;
    var w := |r|;
    WideByte(b, w);
    var uchar, bits := BitsOf(b, w), ByteBits(b, reflected);
    PaddedByte(b, uchar, reflected);
    XorPadded(w - 8, bits, r);
    ToNatZeros(w - 8, Xor(bits, r[..8]));
  }

  lemma XorPadded(n: nat, bits: Word, r: Word)
    requires |r| == n + |bits|
    ensures Xor(Zeros(n) + bits, ShiftRight(r, n)) == Zeros(n) + Xor(bits, r[..|bits|])
  {
  }

  // ----- what the CRC is good for

  function XorBytes(x: seq<byte>, y: seq<byte>): (z: seq<byte>)
    requires |x| == |y|
    ensures |z| == |x|
  {
    seq(|x|, i requires 0 <= i < |x| => ByteXor(x[i], y[i]))
  }

  function ByteXor(a: byte, b: byte): byte {
    ToNatBound(Xor(BitsOf(a, 8), BitsOf(b, 8)));
    assert Pow2(8) == 256;
    ToNat(Xor(BitsOf(a, 8), BitsOf(b, 8)))
  }

  lemma XorByteBits(a: byte, b: byte, reflected: bool)
    ensures ByteBits(ByteXor(a, b), reflected) == Xor(ByteBits(a, reflected), ByteBits(b, reflected))
  {
    BitsOfToNat(Xor(BitsOf(a, 8), BitsOf(b, 8)));
    hide BitsOf;
    assert Reverse(Xor(BitsOf(a, 8), BitsOf(b, 8))) == Xor(Reverse(BitsOf(a, 8)), Reverse(BitsOf(b, 8)));
  }

  lemma {:induction false} XorBytesBits(x: seq<byte>, y: seq<byte>, reflected: bool)
    requires |x| == |y|
    ensures MessageBits(XorBytes(x, y), reflected) == Xor(MessageBits(x, reflected), MessageBits(y, reflected))
    decreases |x|
  {
    hide ByteBits, ByteXor;
    if x != [] {
      var n := |x| - 1;
      XorBytesBits(x[..n], y[..n], reflected);
      assert XorBytes(x, y)[..n] == XorBytes(x[..n], y[..n]);
      XorByteBits(x[n], y[n], reflected);
    }
  }

  lemma FeedAffine(g: Word, r: Word, x: seq<bool>, y: seq<bool>)
    requires |r| == |g| >= 1 && |x| == |y|
    ensures Feed(g, r, Xor(x, y)) == Xor(Xor(Feed(g, r, x), Feed(g, r, y)), Feed(g, r, Zeros(|x|)))
  {
    hide Feed;
    FeedLinear(g, r, r, x, y);
    FeedLinear(g, Xor(r, r), r, Xor(x, y), Zeros(|x|));
    assert Xor(Xor(r, r), r) == r;
    assert Xor(Xor(x, y), Zeros(|x|)) == Xor(x, y);
  }

  lemma FinishAffine(c: Config, a: Word, b: Word, z: Word)
    requires c.Fits(|a|) && |a| == |b| == |z|
    ensures Finish(c, Xor(Xor(a, b), z)) == Xor(Xor(Finish(c, a), Finish(c, b)), Finish(c, z))
  {
    hide Xor, Reverse;
    var f := c.finalXorValue;
    if c.remainderReflected {
      ReverseXor(a, b, z);
      XorThrice(Reverse(a), Reverse(b), Reverse(z), f);
    } else {
      XorThrice(a, b, z, f);
    }
  }

  lemma ReverseXor(a: Word, b: Word, z: Word)
    requires |a| == |b| == |z|
    ensures Reverse(Xor(Xor(a, b), z)) == Xor(Xor(Reverse(a), Reverse(b)), Reverse(z))
  {
  }

  lemma XorThrice(a: Word, b: Word, z: Word, f: Word)
    requires |a| == |b| == |z| == |f|
    ensures Xor(Xor(Xor(a, b), z), f) == Xor(Xor(Xor(a, f), Xor(b, f)), Xor(z, f))
  {
  }

  /** The CRC is affine: for messages of one length, crc(x) ^ crc(y) ^ crc(0) = crc(x ^ y),
      through both reflections, the initial remainder and the final xor. */
  lemma CrcAffine(c: Config, x: seq<byte>, y: seq<byte>)
    requires c.Fits(|c.polynomial|) && |x| == |y|
    ensures CrcOf(c, XorBytes(x, y)) == Xor(Xor(CrcOf(c, x), CrcOf(c, y)), CrcOf(c, seq(|x|, _ => 0)))
  {
    var g, i0, d := c.polynomial, c.initialRemainder, c.dataReflected;
    var mx, my, mz := MessageBits(x, d), MessageBits(y, d), Zeros(8 * |x|);
    XorBytesBits(x, y, d);
    ZeroBytes(|x|, d);
    hide Feed, Divide, MessageBits, XorFront, XorBytes, Finish, Xor;
    FeedDivides(g, i0, mx);
    FeedDivides(g, i0, my);
    FeedDivides(g, i0, mz);
    FeedDivides(g, i0, Xor(mx, my));
    FeedAffine(g, i0, mx, my);
    FinishAffine(c, Feed(g, i0, mx), Feed(g, i0, my), Feed(g, i0, mz));
  }

  lemma {:induction false} ZeroBytes(n: nat, reflected: bool)
    ensures MessageBits(seq(n, _ => 0), reflected) == Zeros(8 * n)
  {
    if n > 0 {
      assert seq<byte>(n, _ => 0)[..n - 1] == seq<byte>(n - 1, _ => 0);
      ZeroBytes(n - 1, reflected);
      ZeroBits(8);
      assert ByteBits(0, reflected) == Zeros(8);
    }
  }

  lemma {:induction false} ZeroBits(n: nat)
    ensures BitsOf(0, n) == Zeros(n)
  {
    if n > 0 { ZeroBits(n - 1); }
  }

  // ----- error detection

  /** With an odd generator (constant term 1) a turn of the register can be undone. */
  lemma StepInjective(g: Word, r: Word, s: Word)
    requires |r| == |s| == |g| >= 1 && g[|g| - 1] && Step(g, r) == Step(g, s)
    ensures r == s
  {
    var w := |g|;
    assert Step(g, r)[w - 1] == r[0] && Step(g, s)[w - 1] == s[0];
    assert ShiftLeft(r, 1) == if r[0] then Xor(Step(g, r), g) else Step(g, r);
    assert ShiftLeft(s, 1) == if r[0] then Xor(Step(g, r), g) else Step(g, r);
    assert r[1..] == ShiftLeft(r, 1)[..w - 1] == s[1..];
    assert r == [r[0]] + r[1..] && s == [s[0]] + s[1..];
  }

  lemma {:induction false} StepsInjective(g: Word, r: Word, s: Word, n: nat)
    requires |r| == |s| == |g| >= 1 && g[|g| - 1] && Steps(g, r, n) == Steps(g, s, n)
    ensures r == s
    decreases n
  {
    if n > 0 {
      StepsInjective(g, Step(g, r), Step(g, s), n - 1);
      StepInjective(g, r, s);
    }
  }

  lemma {:induction false} FeedZeros(g: Word, r: Word, n: nat)
    requires |r| == |g| >= 1
    ensures Feed(g, r, Zeros(n)) == Steps(g, r, n)
    decreases n
  {
    if n > 0 {
      assert r[0 := r[0] != Zeros(n)[0]] == r && Zeros(n)[1..] == Zeros(n - 1);
      FeedZeros(g, Step(g, r), n - 1);
    }
  }

  lemma StepsOfZero(g: Word, n: nat)
    requires |g| >= 1
    ensures Steps(g, Zeros(|g|), n) == Zeros(|g|)
  {
    if n > 0 {
      assert Step(g, Zeros(|g|)) == Zeros(|g|);
      StepsOfZero(g, n - 1);
    }
  }

  lemma PaddedIsNotZero(burst: seq<bool>, w: nat)
    requires |burst| <= w && true in burst
    ensures burst + Zeros(w - |burst|) != Zeros(w)
  {
    var i :| 0 <= i < |burst| && burst[i];
    assert (burst + Zeros(w - |burst|))[i] && !Zeros(w)[i];
  }

  /** A non-zero burst no longer than the register leaves a non-zero remainder. */
  lemma BurstRemainder(g: Word, before: nat, burst: seq<bool>, after: nat)
    requires 1 <= |g| && g[|g| - 1] && |burst| <= |g| && true in burst
    ensures Feed(g, Zeros(|g|), Zeros(before) + burst + Zeros(after)) != Zeros(|g|)
  {
    hide Feed, Steps, Zeros;
    var padded := burst + Zeros(|g| - |burst|);
    PaddedIsNotZero(burst, |g|);
    BurstFed(g, before, burst, after, padded);
    StaysNotZero(g, padded, |burst|);
    StaysNotZero(g, Steps(g, padded, |burst|), after);
  }

  /** The zeros before the burst leave the register alone, those after it turn it on. */
  lemma BurstFed(g: Word, before: nat, burst: seq<bool>, after: nat, padded: Word)
    requires 1 <= |g| && |burst| <= |g| && padded == burst + Zeros(|g| - |burst|)
    ensures Feed(g, Zeros(|g|), Zeros(before) + burst + Zeros(after)) == Steps(g, Steps(g, padded, |burst|), after)
  {
    hide Feed, Steps, Zeros, Xor;
    var z := Zeros(|g|);
    FeedConcat(g, z, Zeros(before) + burst, Zeros(after));
    FeedConcat(g, z, Zeros(before), burst);
    FeedZeros(g, z, before);
    StepsOfZero(g, before);
    FeedAtOnce(g, z, burst);
    XorZeros(padded);
    FeedZeros(g, Steps(g, padded, |burst|), after);
  }

  lemma StaysNotZero(g: Word, r: Word, n: nat)
    requires |r| == |g| >= 1 && g[|g| - 1] && r != Zeros(|g|)
    ensures Steps(g, r, n) != Zeros(|g|)
  {
    hide Steps, Zeros;
    StepsOfZero(g, n);
    if Steps(g, r, n) == Zeros(|g|) { StepsInjective(g, r, Zeros(|g|), n); }
  }

  lemma XorZeros(a: Word)
    ensures Xor(Zeros(|a|), a) == a && Xor(a, Zeros(|a|)) == a
  {
  }

  /** Two messages that differ by one burst of at most w bits, anywhere, have different CRCs. */
  lemma BurstDetected(c: Config, x: seq<byte>, y: seq<byte>, before: nat, burst: seq<bool>, after: nat)
    requires c.Fits(|c.polynomial|) && c.polynomial[|c.polynomial| - 1]
    requires |x| == |y| && 8 * |x| == before + |burst| + after
    requires |burst| <= |c.polynomial| && true in burst
    requires MessageBits(y, c.dataReflected)
          == Xor(MessageBits(x, c.dataReflected), Zeros(before) + burst + Zeros(after))
    ensures CrcOf(c, x) != CrcOf(c, y)
  {
    var g, i0 := c.polynomial, c.initialRemainder;
    var mx, my := MessageBits(x, c.dataReflected), MessageBits(y, c.dataReflected);
    var e := Zeros(before) + burst + Zeros(after);
    hide Feed, Divide, MessageBits, XorFront, Finish, Xor, Zeros;
    BurstRemainder(g, before, burst, after);
    FeedDivides(g, i0, mx);
    FeedDivides(g, i0, my);
    FeedLinear(g, i0, Zeros(|g|), mx, e);
    XorZeros(i0);
    var a, d := Feed(g, i0, mx), Feed(g, Zeros(|g|), e);
    if CrcOf(c, x) == CrcOf(c, y) {
      FinishInjective(c, a, Xor(a, d));
      XorCancels(a, d);
    }
  }

  lemma XorCancels(a: Word, d: Word)
    requires |a| == |d| && Xor(a, d) == a
    ensures d == Zeros(|d|)
  {
    forall i | 0 <= i < |d| ensures !d[i] { assert Xor(a, d)[i] == a[i]; }
  }

  lemma FinishInjective(c: Config, a: Word, b: Word)
    requires c.Fits(|a|) && |a| == |b| && Finish(c, a) == Finish(c, b)
    ensures a == b
  {
    var f := c.finalXorValue;
    if c.remainderReflected {
      XorRightInjective(Reverse(a), Reverse(b), f);
      ReverseInjective(a, b);
    } else {
      XorRightInjective(a, b, f);
    }
  }

  lemma ReverseInjective(a: Word, b: Word)
    requires |a| == |b| && Reverse(a) == Reverse(b)
    ensures a == b
  {
    forall i | 0 <= i < |a| ensures a[i] == b[i] { assert Reverse(a)[|a| - 1 - i] == Reverse(b)[|a| - 1 - i]; }
  }

  lemma XorRightInjective(a: Word, b: Word, f: Word)
    requires |a| == |b| == |f| && Xor(a, f) == Xor(b, f)
    ensures a == b
  {
    forall i | 0 <= i < |a| ensures a[i] == b[i] { assert Xor(a, f)[i] == Xor(b, f)[i]; }
  }

  // ----- the order of the bits

  /** Bit i of a number, counted from the highest of n. */
  lemma {:induction false} BitAt(k: nat, n: nat, i: nat)
    requires i < n
    ensures BitsOf(k, n)[i] == (Shr(k, n - 1 - i) % 2 == 1)
    decreases n
  {
    if i < n - 1 { BitAt(k / 2, n - 1, i); }
  }

  /** A message is fed byte by byte, each from its lowest bit when the data are reflected and
      from its highest otherwise. */
  lemma {:induction false} MessageBitAt(buf: seq<byte>, reflected: bool, i: nat)
    requires i < 8 * |buf|
    ensures MessageBits(buf, reflected)[i] == (Shr(buf[i / 8], if reflected then i % 8 else 7 - i % 8) % 2 == 1)
    decreases |buf|
  {
    var n := |buf| - 1;
    if i < 8 * n {
      MessageBitAt(buf[..n], reflected, i);
    } else {
      BitAt(buf[n], 8, if reflected then 7 - i % 8 else i % 8);
    }
  }

  /** The CRC of nothing is the initial remainder, in the order the CRC is given in and with the
      final value added. */
  lemma CrcOfNothing(c: Config, i: nat)
    requires c.Fits(|c.polynomial|) && i < |c.polynomial|
    ensures CrcOf(c, [])[i] ==
      (c.initialRemainder[if c.remainderReflected then |c.polynomial| - 1 - i else i] != c.finalXorValue[i])
  {
    hide MessageRemainder, Xor;
    RemainderOfNothing(c);
    assert MessageBits([], c.dataReflected) == [];
  }

  lemma RemainderOfNothing(c: Config)
    requires c.Fits(|c.polynomial|)
    ensures MessageRemainder(c, []) == c.initialRemainder
  {
    assert XorFront([] + Zeros(|c.polynomial|), c.initialRemainder) == c.initialRemainder;
  }

  // ----- the configurations the hash functors start with

  function Crc8Init(): Config {
    Config(BitsOf(0x07, 8), BitsOf(0, 8), BitsOf(0, 8), false, false)
  }

  function Crc16Init(): Config {
    Config(BitsOf(0x8005, 16), BitsOf(0, 16), BitsOf(0, 16), true, true)
  }

  function Crc32Init(): Config {
    Config(BitsOf(0x04c11db7, 32), BitsOf(0xffffffff, 32), BitsOf(0xffffffff, 32), true, true)
  }

  function Crc64Init(): Config {
    Config(BitsOf(0x1b, 64), BitsOf(0, 64), BitsOf(0, 64), true, true)
  }

  /** The coefficient of x^i is set exactly for the exponents i among terms; that of x^w is implied. */
  ghost predicate HasTerms(polynomial: Word, terms: set<int>) {
    forall j :: 0 <= j < |polynomial| ==> (polynomial[j] <==> |polynomial| - 1 - j in terms)
  }

  ghost predicate AllBits(word: Word, value: bool) {
    forall j :: 0 <= j < |word| ==> word[j] == value
  }

  ghost predicate IsConfig(c: Config, w: nat, terms: set<int>, initial: bool, final: bool, reflected: bool) {
    c.Fits(w) && HasTerms(c.polynomial, terms) &&
    AllBits(c.initialRemainder, initial) && AllBits(c.finalXorValue, final) &&
    c.dataReflected == reflected && c.remainderReflected == reflected
  }

  /** The number with these hexadecimal digits, most significant first. */
  function Hex(digits: seq<nat>): nat {
    if digits == [] then 0 else 16 * Hex(digits[..|digits| - 1]) + digits[|digits| - 1]
  }

  ghost predicate IsHex(digits: seq<nat>) {
    forall i :: 0 <= i < |digits| ==> digits[i] < 16
  }

  /** Bit b of a hexadecimal digit, from the highest. */
  predicate DigitBit(d: nat, b: nat) {
    if b == 0 then d >= 8 else if b == 1 then d % 8 >= 4 else if b == 2 then d % 4 >= 2 else d % 2 == 1
  }

  lemma BitsOfDigit(k: nat, d: nat, n: nat)
    requires d < 16
    ensures BitsOf(16 * k + d, n + 4) == BitsOf(k, n) + [DigitBit(d, 0), DigitBit(d, 1), DigitBit(d, 2), DigitBit(d, 3)]
  {
    hide BitsOf;
    var p, q, r, t := d / 8, d / 4 % 2, d / 2 % 2, d % 2;
    assert d == 8 * p + 4 * q + 2 * r + t;
    BitsOfPair(k, p, n);
    BitsOfPair(2 * k + p, q, n + 1);
    BitsOfPair(2 * (2 * k + p) + q, r, n + 2);
    BitsOfPair(2 * (2 * (2 * k + p) + q) + r, t, n + 3);
    assert 16 * k + d == 2 * (2 * (2 * (2 * k + p) + q) + r) + t;
  }

  lemma BitsOfPair(k: nat, bit: nat, n: nat)
    requires bit < 2
    ensures BitsOf(2 * k + bit, n + 1) == BitsOf(k, n) + [bit == 1]
  {
  }

  lemma {:induction false} HexBits(digits: seq<nat>, j: nat)
    requires IsHex(digits) && j < 4 * |digits|
    ensures BitsOf(Hex(digits), 4 * |digits|)[j] == DigitBit(digits[j / 4], j % 4)
  {
    hide BitsOf, DigitBit;
    var n := |digits| - 1;
    BitsOfDigit(Hex(digits[..n]), digits[n], 4 * n);
    if j < 4 * n { HexBits(digits[..n], j); }
  }

  lemma HexSnoc(s: seq<nat>, d: nat)
    ensures Hex(s + [d]) == 16 * Hex(s) + d
  {
    assert (s + [d])[..|s|] == s;
  }

  lemma HexNothing()
    ensures Hex([]) == 0
  {
  }

  lemma HexFour(s: seq<nat>, a: nat, b: nat, c: nat, d: nat)
    ensures Hex(s + [a, b, c, d]) == 0x1_0000 * Hex(s) + 0x1000 * a + 0x100 * b + 0x10 * c + d
  {
    hide Hex;
    HexSnoc(s, a);
    HexSnoc(s + [a], b);
    HexSnoc(s + [a] + [b], c);
    HexSnoc(s + [a] + [b] + [c], d);
    assert s + [a] + [b] + [c] + [d] == s + [a, b, c, d];
  }

  lemma ManyDigits(digits: seq<nat>, value: nat, w: nat)
    requires IsHex(digits) && Hex(digits) == value && 4 * |digits| == w
    ensures forall j :: 0 <= j < w ==> BitsOf(value, w)[j] == DigitBit(digits[j / 4], j % 4)
  {
    forall j | 0 <= j < w ensures BitsOf(value, w)[j] == DigitBit(digits[j / 4], j % 4) { HexBits(digits, j); }
  }

  /** The generators and the other parameters of the four functors. The 32-bit generator, initial
      value, final value and bit order are those of section 3.2.9 of IEEE 802.3. */
  lemma Crc8Is()
    ensures IsConfig(Crc8Init(), 8, {2, 1, 0}, false, false, false)
  {
    hide BitsOf;
    HexSnoc([0], 7);
    ManyDigits([0, 7], 0x07, 8);
    ZeroBits(8);
  }

  lemma Crc16Is()
    ensures IsConfig(Crc16Init(), 16, {15, 2, 0}, false, false, true)
  {
    hide BitsOf, Hex;
    HexValues();
    ManyDigits([8, 0, 0, 5], 0x8005, 16);
    ZeroBits(16);
  }

  lemma Crc32Is()
    ensures IsConfig(Crc32Init(), 32, {26, 23, 22, 16, 12, 11, 10, 8, 7, 5, 4, 2, 1, 0}, true, true, true)
  {
    Crc32Terms();
    Crc32Words();
    hide BitsOf, HasTerms, AllBits;
  }

  lemma Crc32Terms()
    ensures HasTerms(Crc32Init().polynomial, {26, 23, 22, 16, 12, 11, 10, 8, 7, 5, 4, 2, 1, 0})
  {
    hide BitsOf, Hex;
    HexValues();
    ManyDigits([0, 4, 12, 1, 1, 13, 11, 7], 0x04c11db7, 32);
  }

  lemma Crc32Words()
    ensures AllBits(BitsOf(0xffffffff, 32), true)
  {
    hide BitsOf, Hex;
    HexValues();
    ManyDigits([15, 15, 15, 15, 15, 15, 15, 15], 0xffffffff, 32);
  }

  lemma Crc64Is()
    ensures IsConfig(Crc64Init(), 64, {4, 3, 1, 0}, false, false, true)
  {
    hide BitsOf, Hex;
    HexValue64();
    ManyDigits([0, 0, 0, 0, 0, 0, 0, 0, 0, 0, 0, 0, 0, 0, 1, 11], 0x1b, 64);
    ZeroBits(64);
  }

  lemma HexValues()
    ensures Hex([8, 0, 0, 5]) == 0x8005
    ensures Hex([0, 4, 12, 1, 1, 13, 11, 7]) == 0x04c11db7
    ensures Hex([15, 15, 15, 15, 15, 15, 15, 15]) == 0xffffffff
  {
    hide Hex;
    HexNothing();
    HexFour([], 8, 0, 0, 5);
    assert [] + [8, 0, 0, 5] == [8, 0, 0, 5];
    HexFour([], 0, 4, 12, 1);
    HexFour([] + [0, 4, 12, 1], 1, 13, 11, 7);
    assert [] + [0, 4, 12, 1] + [1, 13, 11, 7] == [0, 4, 12, 1, 1, 13, 11, 7];
    HexFour([], 15, 15, 15, 15);
    HexFour([] + [15, 15, 15, 15], 15, 15, 15, 15);
    assert [] + [15, 15, 15, 15] + [15, 15, 15, 15] == [15, 15, 15, 15, 15, 15, 15, 15];
  }

  lemma HexValue64()
    ensures Hex([0, 0, 0, 0, 0, 0, 0, 0, 0, 0, 0, 0, 0, 0, 1, 11]) == 0x1b
  {
    hide Hex;
    HexNothing();
    HexFour([], 0, 0, 0, 0);
    HexFour([] + [0, 0, 0, 0], 0, 0, 0, 0);
    HexFour([] + [0, 0, 0, 0] + [0, 0, 0, 0], 0, 0, 0, 0);
    HexFour([] + [0, 0, 0, 0] + [0, 0, 0, 0] + [0, 0, 0, 0], 0, 0, 1, 11);
    assert [] + [0, 0, 0, 0] + [0, 0, 0, 0] + [0, 0, 0, 0] + [0, 0, 1, 11] ==
           [0, 0, 0, 0, 0, 0, 0, 0, 0, 0, 0, 0, 0, 0, 1, 11];
  }

  lemma OddBit(k: nat, n: nat)
    requires n > 0
    ensures BitsOf(k, n)[n - 1] == (k % 2 == 1)
  {
  }

  /** Each default generator is odd, so each default CRC detects every such burst. */
  lemma DefaultsDetectBursts(c: Config)
    requires c == Crc8Init() || c == Crc16Init() || c == Crc32Init() || c == Crc64Init()
    ensures c.Fits(|c.polynomial|) && c.polynomial[|c.polynomial| - 1]
  {
    hide BitsOf;
    OddBit(0x07, 8);
    OddBit(0x8005, 16);
    OddBit(0x04c11db7, 32);
    OddBit(0x1b, 64);
  }
}
