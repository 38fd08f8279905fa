/** Frame checking with the configurable CRC, as in section 3.2.9 of IEEE 802.3: a frame is a
    message followed by its CRC, in the order in which the register takes bits. */
module CrcFrames {
  import opened Common
  import opened Bits
  import opened Words
  import opened Crc

  /** Both reflections agree, and the CRC fills whole bytes. */
  predicate CanFrame(c: Config) {
    c.Fits(|c.polynomial|) && |c.polynomial| % 8 == 0 && c.dataReflected == c.remainderReflected
  }

  function InOrder(bits: seq<bool>, reflected: bool): (r: seq<bool>)
    ensures |r| == |bits|
  {
    if reflected then Reverse(bits) else bits
  }

  /** The bits of a register value in the order they follow the message. */
  function Sent(c: Config, r: Word): (bits: seq<bool>)
    ensures |bits| == |r|
  {
    InOrder(r, c.remainderReflected)
  }

  function ByteOf(bits: seq<bool>, reflected: bool): byte
    requires |bits| == 8
  {
    ToNatBound(InOrder(bits, reflected));
    assert Pow2(8) == 256;
    ToNat(InOrder(bits, reflected))
  }

  /** The bytes whose bits, in the order of transmission, are these. */
  function BytesOf(bits: seq<bool>, reflected: bool): (s: seq<byte>)
    requires |bits| % 8 == 0
    ensures 8 * |s| == |bits|
  {
    if bits == [] then []
    else
      var n := |bits| - 8;
      BytesOf(bits[..n], reflected) + [ByteOf(bits[n..], reflected)]
  }

  /** The bytes that follow a message: its CRC, the byte with the first bits first. */
  function Trailer(c: Config, msg: seq<byte>): (t: seq<byte>)
    requires CanFrame(c)
    ensures 8 * |t| == |c.polynomial|
  {
    BytesOf(Sent(c, CrcOf(c, msg)), c.dataReflected)
  }

  function Frame(c: Config, msg: seq<byte>): seq<byte>
    requires CanFrame(c)
  {
    msg + Trailer(c, msg)
  }

  /** The CRC of every correct frame: it depends on the configuration alone. */
  function Residue(c: Config): (r: Word)
    requires CanFrame(c)
    ensures |r| == |c.polynomial|
  {
    Finish(c, Steps(c.polynomial, Sent(c, c.finalXorValue), |c.polynomial|))
  }

  // ----- bytes and their bits

  lemma ByteOfBits(bits: seq<bool>, reflected: bool)
    requires |bits| == 8
    ensures ByteBits(ByteOf(bits, reflected), reflected) == bits
  {
    BitsOfToNat(InOrder(bits, reflected));
    hide BitsOf, ToNat;
    assert Reverse(Reverse(bits)) == bits;
  }

  lemma {:induction false} BitsOfBytes(bits: seq<bool>, reflected: bool)
    requires |bits| % 8 == 0
    ensures MessageBits(BytesOf(bits, reflected), reflected) == bits
    decreases |bits|
  {
    if bits == [] {
      assert BytesOf(bits, reflected) == [];
    } else {
      hide ByteBits, ByteOf, MessageBits;
      var n := |bits| - 8;
      BitsOfBytes(bits[..n], reflected);
      ByteOfBits(bits[n..], reflected);
      MessageBitsSnoc(BytesOf(bits[..n], reflected), ByteOf(bits[n..], reflected), reflected);
      assert bits == bits[..n] + bits[n..];
    }
  }

  lemma MessageBitsSnoc(s: seq<byte>, b: byte, reflected: bool)
    ensures MessageBits(s + [b], reflected) == MessageBits(s, reflected) + ByteBits(b, reflected)
  {
    hide ByteBits;
    assert (s + [b])[..|s|] == s;
  }

  lemma ByteBitsInjective(a: byte, b: byte, reflected: bool)
    requires ByteBits(a, reflected) == ByteBits(b, reflected)
    ensures a == b
  {
    assert Pow2(8) == 256;
    hide BitsOf, Pow2;
    var x, y := BitsOf(a, 8), BitsOf(b, 8);
    assert Reverse(Reverse(x)) == x && Reverse(Reverse(y)) == y;
    BitsInjective(a, b, 8);
  }

  lemma {:induction false} MessageBitsInjective(a: seq<byte>, b: seq<byte>, reflected: bool)
    requires |a| == |b| && MessageBits(a, reflected) == MessageBits(b, reflected)
    ensures a == b
    decreases |a|
  {
    hide ByteBits;
    if a != [] {
      var n := |a| - 1;
      var x, y := MessageBits(a, reflected), MessageBits(b, reflected);
      assert x[..8 * n] == MessageBits(a[..n], reflected) && x[8 * n..] == ByteBits(a[n], reflected);
      assert y[..8 * n] == MessageBits(b[..n], reflected) && y[8 * n..] == ByteBits(b[n], reflected);
      MessageBitsInjective(a[..n], b[..n], reflected);
      ByteBitsInjective(a[n], b[n], reflected);
      assert a == a[..n] + [a[n]] && b == b[..n] + [b[n]];
    }
  }

  lemma {:induction false} MessageBitsConcat(a: seq<byte>, b: seq<byte>, reflected: bool)
    ensures MessageBits(a + b, reflected) == MessageBits(a, reflected) + MessageBits(b, reflected)
    decreases |b|
  {
    hide ByteBits;
    if b == [] {
      assert a + b == a;
    } else {
      var n := |b| - 1;
      assert (a + b)[..|a| + n] == a + b[..n];
      MessageBitsConcat(a, b[..n], reflected);
    }
  }

  // ----- what the register holds after a frame

  /** The trailer is taken in at once on top of what the message left. */
  lemma FrameRemainder(c: Config, msg: seq<byte>, t: seq<byte>)
    requires CanFrame(c) && 8 * |t| == |c.polynomial|
    ensures
      var g, r := c.polynomial, Feed(c.polynomial, c.initialRemainder, MessageBits(msg, c.dataReflected));
      CrcOf(c, msg) == Finish(c, r) &&
      CrcOf(c, msg + t) == Finish(c, Steps(g, Xor(r, MessageBits(t, c.dataReflected)), |g|))
  {
    hide Feed, Steps, Divide, XorFront, MessageBits, Finish, Xor;
    var g, i0, d := c.polynomial, c.initialRemainder, c.dataReflected;
    var m, tb := MessageBits(msg, d), MessageBits(t, d);
    MessageBitsConcat(msg, t, d);
    FeedDivides(g, i0, m);
    FeedDivides(g, i0, m + tb);
    FeedConcat(g, i0, m, tb);
    FeedAtOnce(g, Feed(g, i0, m), tb);
    assert tb + Zeros(0) == tb;
  }

  /** What the message left and the bits of its CRC add up to the final value alone. */
  lemma SentCancels(c: Config, r: Word)
    requires c.Fits(|r|)
    ensures |r| == |Sent(c, Finish(c, r))|
    ensures Xor(r, Sent(c, Finish(c, r))) == Sent(c, c.finalXorValue)
  {
  }

  lemma XorLeftInjective(r: Word, a: Word, b: Word)
    requires |r| == |a| == |b| && Xor(r, a) == Xor(r, b)
    ensures a == b
  {
    forall i | 0 <= i < |a| ensures a[i] == b[i] { assert Xor(r, a)[i] == Xor(r, b)[i]; }
  }

  /** Every correct frame has the same CRC, whatever the message. */
  lemma FrameHasResidue(c: Config, msg: seq<byte>)
    requires CanFrame(c)
    ensures CrcOf(c, Frame(c, msg)) == Residue(c)
  {
    var r := Feed(c.polynomial, c.initialRemainder, MessageBits(msg, c.dataReflected));
    hide Feed, Steps, CrcOf, MessageBits, Xor, Finish, Sent, BytesOf;
    FrameRemainder(c, msg, Trailer(c, msg));
    BitsOfBytes(Sent(c, CrcOf(c, msg)), c.dataReflected);
    SentCancels(c, r);
  }

  /** Under an odd generator a receiver that compares with the residue accepts exactly the
      messages that are followed by their own CRC. */
  lemma FrameAcceptedIff(c: Config, msg: seq<byte>, t: seq<byte>)
    requires CanFrame(c) && c.polynomial[|c.polynomial| - 1] && 8 * |t| == |c.polynomial|
    ensures CrcOf(c, msg + t) == Residue(c) <==> t == Trailer(c, msg)
  {
    hide Feed, Steps, CrcOf, MessageBits, Xor, Finish, Sent, BytesOf, Residue;
    FrameHasResidue(c, msg);
    var g, d := c.polynomial, c.dataReflected;
    if CrcOf(c, msg + t) == Residue(c) {
      FrameRemainder(c, msg, t);
      var own := Sent(c, CrcOf(c, msg));
      OnlyTrailer(c, Feed(g, c.initialRemainder, MessageBits(msg, d)), MessageBits(t, d), |g|);
      BitsOfBytes(own, d);
      MessageBitsInjective(t, Trailer(c, msg), d);
    }
  }

  /** Only the bits of its own CRC take the register to the residue. */
  lemma OnlyTrailer(c: Config, r: Word, bits: Word, n: nat)
    requires CanFrame(c) && c.polynomial[|c.polynomial| - 1] && |r| == |bits| == |c.polynomial| == n
    requires Finish(c, Steps(c.polynomial, Xor(r, bits), n)) == Residue(c)
    ensures bits == Sent(c, Finish(c, r))
  {
    hide Steps, Xor, Finish, Sent;
    SentCancels(c, r);
    SameInput(c, Xor(r, bits), Sent(c, c.finalXorValue), n);
    XorLeftInjective(r, bits, Sent(c, Finish(c, r)));
  }

  lemma SameInput(c: Config, u: Word, v: Word, n: nat)
    requires c.Fits(|u|) && c.polynomial[|c.polynomial| - 1] && |u| == |v|
    requires Finish(c, Steps(c.polynomial, u, n)) == Finish(c, Steps(c.polynomial, v, n))
    ensures u == v
  {
    hide Steps, Finish;
    FinishInjective(c, Steps(c.polynomial, u, n), Steps(c.polynomial, v, n));
    StepsInjective(c.polynomial, u, v, n);
  }

  /** A frame damaged by one burst of at most w bits is never accepted, wherever the burst falls:
      in the message, in the CRC or across the two. */
  lemma FrameBurstDetected(c: Config, msg: seq<byte>, damaged: seq<byte>, before: nat, burst: seq<bool>, after: nat)
    requires CanFrame(c) && c.polynomial[|c.polynomial| - 1]
    requires |damaged| == |Frame(c, msg)| && 8 * |damaged| == before + |burst| + after
    requires |burst| <= |c.polynomial| && true in burst
    requires MessageBits(damaged, c.dataReflected)
          == Xor(MessageBits(Frame(c, msg), c.dataReflected), Zeros(before) + burst + Zeros(after))
    ensures CrcOf(c, damaged) != Residue(c)
  {
    hide Frame, CrcOf, MessageBits, Xor, Residue;
    FrameHasResidue(c, msg);
    BurstDetected(c, Frame(c, msg), damaged, before, burst, after);
  }

  /** The default configurations frame messages, the 32-bit one as Ethernet does. */
  lemma DefaultsCanFrame(c: Config)
    requires c == Crc8Init() || c == Crc16Init() || c == Crc32Init() || c == Crc64Init()
    ensures CanFrame(c) && c.polynomial[|c.polynomial| - 1]
  {
    DefaultsDetectBursts(c);
    hide BitsOf;
  }
}
