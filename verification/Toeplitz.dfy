/** The Toeplitz hash, computed word by word over the set bits of the input, proved against
    the sliding-window definition on bit strings. */
module Toeplitz {
  import opened Bits
  import opened Words

  // ----- the reference: a 32-bit window slides over the cyclically repeated key

  function Window(key: seq<bool>, t: nat): (r: Word)
    requires key != []
    ensures |r| == 32
  {
    seq(32, j requires 0 <= j < 32 => key[(t + j) % |key|])
  }

  /** The xor of the windows at the set bits of x, the first of which is input bit t. */
  function HashBits(key: seq<bool>, t: nat, x: seq<bool>): (r: Word)
    requires key != []
    ensures |r| == 32
    decreases |x|
  {
    if x == [] then Zeros(32)
    else Xor(if x[0] then Window(key, t) else Zeros(32), HashBits(key, t + 1, x[1..]))
  }

  // ----- algebra of xor

  lemma XorAssoc(a: Word, b: Word, c: Word)
    requires |a| == |b| == |c|
    ensures Xor(Xor(a, b), c) == Xor(a, Xor(b, c))
  {
  }

  lemma XorComm(a: Word, b: Word)
    requires |a| == |b|
    ensures Xor(a, b) == Xor(b, a)
  {
  }

  lemma XorZero(a: Word)
    ensures Xor(a, Zeros(|a|)) == a && Xor(Zeros(|a|), a) == a && Xor(a, a) == Zeros(|a|)
  {
  }

  /** (a ^ b) ^ (c ^ d) = (a ^ c) ^ (b ^ d) */
  lemma XorSwap(a: Word, b: Word, c: Word, d: Word)
    requires |a| == |b| == |c| == |d|
    ensures Xor(Xor(a, b), Xor(c, d)) == Xor(Xor(a, c), Xor(b, d))
  {
  }

  // ----- properties of the reference

  lemma {:induction false} HashConcat(key: seq<bool>, t: nat, a: seq<bool>, b: seq<bool>)
    requires key != []
    ensures HashBits(key, t, a + b) == Xor(HashBits(key, t, a), HashBits(key, t + |a|, b))
    decreases |a|
  {
    hide Window, Xor;
    if a == [] {
      assert a + b == b;
      XorZero(HashBits(key, t, b));
    } else {
      assert (a + b)[1..] == a[1..] + b;
      HashConcat(key, t + 1, a[1..], b);
      var w := if a[0] then Window(key, t) else Zeros(32);
      XorAssoc(w, HashBits(key, t + 1, a[1..]), HashBits(key, t + |a|, b));
    }
  }

  /** The hash is linear over GF(2): for inputs of one length, h(a ^ b) = h(a) ^ h(b). */
  lemma {:induction false} HashLinear(key: seq<bool>, t: nat, a: seq<bool>, b: seq<bool>)
    requires key != [] && |a| == |b|
    ensures HashBits(key, t, Xor(a, b)) == Xor(HashBits(key, t, a), HashBits(key, t, b))
    decreases |a|
  {
    if a == [] {
      XorZero(Zeros(32));
    } else {
      assert Xor(a, b)[1..] == Xor(a[1..], b[1..]) && Xor(a, b)[0] == (a[0] != b[0]);
      hide Xor, Window;
      HashLinear(key, t + 1, a[1..], b[1..]);
      var w, z := Window(key, t), Zeros(32);
      var u, v := if a[0] then w else z, if b[0] then w else z;
      XorSwap(u, HashBits(key, t + 1, a[1..]), v, HashBits(key, t + 1, b[1..]));
      XorZero(w);
      XorZero(z);
    }
  }

  lemma {:induction false} HashZeros(key: seq<bool>, t: nat, n: nat)
    requires key != []
    ensures HashBits(key, t, Zeros(n)) == Zeros(32)
    decreases n
  {
    if n > 0 {
      assert Zeros(n)[1..] == Zeros(n - 1);
      HashZeros(key, t + 1, n - 1);
      XorZero(Zeros(32));
    }
  }

  lemma {:induction false} HashClearBit(key: seq<bool>, t: nat, x: seq<bool>, p: nat)
    requires key != [] && p < |x| && x[p]
    ensures HashBits(key, t, x) == Xor(HashBits(key, t, x[p := false]), Window(key, t + p))
    decreases p
  {
    hide Window, Xor;
    var y := x[p := false];
    if p == 0 {
      assert y[1..] == x[1..];
      XorZero(HashBits(key, t + 1, x[1..]));
      XorComm(Window(key, t), HashBits(key, t + 1, x[1..]));
    } else {
      assert y[1..] == x[1..][p - 1 := false];
      HashClearBit(key, t + 1, x[1..], p - 1);
      var w := if x[0] then Window(key, t) else Zeros(32);
      XorAssoc(w, HashBits(key, t + 1, y[1..]), Window(key, t + p));
    }
  }

  // ----- the bit tricks of the inner loop

  /** __builtin_ctz: the number of zeros below the lowest set bit. */
  function CountTrailingZeros(x: Word): (n: nat)
    requires true in x
    ensures n < |x| && x[|x| - 1 - n]
    ensures forall i :: |x| - 1 - n < i < |x| ==> !x[i]
  {
    if x[|x| - 1] then 0
    else
      assert x == x[..|x| - 1] + [x[|x| - 1]];
      CountTrailingZeros(x[..|x| - 1]) + 1
  }

  /** x - 1 for a word that is not zero. */
  function Decrement(x: Word): (r: Word)
    requires ToNat(x) > 0
    ensures |r| == |x|
  {
    BitsOf(ToNat(x) - 1, |x|)
  }

  lemma {:induction false} PositiveIffSet(x: Word)
    ensures ToNat(x) > 0 <==> true in x
  {
    if x != [] {
      PositiveIffSet(x[..|x| - 1]);
      assert x == x[..|x| - 1] + [x[|x| - 1]];
    }
  }

  lemma BitsOfSnoc(x: nat, last: bool, n: nat)
    ensures BitsOf(2 * x + if last then 1 else 0, n + 1) == BitsOf(x, n) + [last]
  {
  }

  lemma DecrementLast(front: Word, last: bool)
    requires last || ToNat(front) > 0
    ensures ToNat(front + [last]) > 0
    ensures Decrement(front + [last]) == if last then front + [false] else Decrement(front) + [true]
  {
    ToNatSnoc(front, last);
    BitsOfToNat(front);
    hide ToNat, BitsOf;
    var x := ToNat(front);
    if last { BitsOfSnoc(x, false, |front|); } else { BitsOfSnoc(x - 1, true, |front|); }
  }

  /** Subtracting one flips the lowest set bit and the zeros below it. */
  lemma {:induction false} DecrementFlips(x: Word)
    requires true in x
    ensures ToNat(x) > 0
    ensures
      var p := |x| - 1 - CountTrailingZeros(x);
      Decrement(x)[..p] == x[..p] && !Decrement(x)[p]
  {
    PositiveIffSet(x);
    var n := |x| - 1;
    var front := x[..n];
    assert x == front + [x[n]];
    hide Decrement, ToNat;
    if !x[n] {
      DecrementFlips(front);
      DecrementLast(front, false);
      var p := n - CountTrailingZeros(x);
      assert x[..p] == front[..p] && Decrement(x)[..p] == Decrement(front)[..p];
    } else {
      DecrementLast(front, true);
    }
  }

  /** input_word &= input_word - 1 clears the lowest set bit and nothing else. */
  lemma ClearsLowest(x: Word)
    requires true in x
    ensures ToNat(x) > 0
    ensures And(x, Decrement(x)) == x[|x| - 1 - CountTrailingZeros(x) := false]
  {
    hide Decrement, ToNat, CountTrailingZeros, BitsOf;
    DecrementFlips(x);
    AndClears(x, Decrement(x), |x| - 1 - CountTrailingZeros(x));
  }

  lemma AndClears(x: Word, d: Word, p: nat)
    requires |d| == |x| && p < |x| && d[..p] == x[..p] && !d[p]
    requires forall i :: p < i < |x| ==> !x[i]
    ensures And(x, d) == x[p := false]
  {
    forall i | 0 <= i < p ensures d[i] == x[i] { assert d[..p][i] == x[..p][i]; }
  }

  // ----- the key words

  /** Word i of the cyclic key. */
  ghost predicate AreKeyWords(words: seq<Word>, key: seq<bool>) {
    && words != [] && |key| == 32 * |words|
    && forall i :: 0 <= i < |words| ==> words[i] == key[32 * i..32 * i + 32]
  }

  lemma CyclicIndex(i: nat, k: nat, n: nat)
    requires 0 < n && k < 32
    ensures (32 * i + k) % (32 * n) == 32 * (i % n) + k
  {
    var q, r := i / n, i % n;
    assert 32 * i + k == (32 * n) * q + (32 * r + k) by {
      assert i == n * q + r;
      assert 32 * (n * q) == (32 * n) * q;
    }
    ModUnique(32 * i + k, 32 * n, q, 32 * r + k);
  }

  /** key_l | key_r is the window: the left word moved up, filled from the right word. */
  lemma WindowFromWords(words: seq<Word>, key: seq<bool>, i: nat, b: nat)
    requires AreKeyWords(words, key) && b < 32
    ensures words[i % |words|][b..] + words[(i + 1) % |words|][..b] == Window(key, 32 * i + b)
  {
    var n := |words|;
    var w := words[i % n][b..] + words[(i + 1) % n][..b];
    forall j | 0 <= j < 32 ensures w[j] == key[(32 * i + b + j) % |key|] {
      if b + j < 32 {
        CyclicIndex(i, b + j, n);
        assert w[j] == words[i % n][b + j];
      } else {
        CyclicIndex(i + 1, b + j - 32, n);
        assert w[j] == words[(i + 1) % n][b + j - 32];
      }
    }
  }

  // ----- the code

  /** emitAsInteger<uint32_t>: the bytes on top, zeros below. */
  method EmitAsInteger(bytes: seq<byte>) returns (res: Word)
    requires |bytes| <= 4
    ensures res == BytesBits(bytes) + Zeros(32 - 8 * |bytes|)
  {
    res := Zeros(32);
    if |bytes| > 0 {
      for offset := 0 to |bytes|
        invariant res == Zeros(32 - 8 * offset) + BytesBits(bytes[..offset])
      {
        hide BitsOf, BytesBits, Zeros, Or, ShiftLeft;
        ByteAsWord(bytes[offset]);
        AppendByte(24 - 8 * offset, BytesBits(bytes[..offset]), BitsOf(bytes[offset], 8));
        BytesBitsNext(bytes, offset);
        res := Or(ShiftLeft(res, 8), BitsOf(bytes[offset], 32));
      }
      assert bytes[..|bytes|] == bytes;
      res := ShiftLeft(res, (4 - |bytes|) * 8);
    }
  }

  lemma BytesBitsNext(s: seq<byte>, i: nat)
    requires i < |s|
    ensures BytesBits(s[..i + 1]) == BytesBits(s[..i]) + BitsOf(s[i], 8)
  {
    hide BitsOf;
    assert s[..i + 1][..i] == s[..i];
  }

  /** Shifting the word left makes room for the next byte. */
  lemma AppendByte(n: nat, before: seq<bool>, last: seq<bool>)
    requires n + |before| == 24 && |last| == 8
    ensures Or(ShiftLeft(Zeros(n + 8) + before, 8), Zeros(24) + last) == Zeros(n) + (before + last)
  {
    assert ShiftLeft(Zeros(n + 8) + before, 8) == Zeros(n) + before + Zeros(8);
  }

  lemma ByteAsWord(b: byte)
    ensures BitsOf(b, 32) == Zeros(24) + BitsOf(b, 8)
  {
    assert Pow2(8) == 256;
    BitsOfWide(b, 8, 32);
  }

  lemma Tail(all: seq<bool>, front: seq<bool>, word: seq<bool>)
    requires |front| + |word| <= |all| && all[..|front| + |word|] == front + word
    ensures all[|front|..|front| + |word|] == word
  {
    assert all[|front|..|front| + |word|] == (front + word)[|front|..];
  }

  /** Word i of a byte buffer, read in network byte order, is its bits 32i to 32i+31. */
  lemma WordBits(s: seq<byte>, i: nat)
    requires 4 * i + 4 <= |s|
    ensures BytesBits(s[4 * i..4 * i + 4]) == BytesBits(s)[32 * i..32 * i + 32]
  {
    WordBitsAt(s, 4 * i, 32 * i);
  }

  lemma WordBitsAt(s: seq<byte>, n: nat, at: nat)
    requires n + 4 <= |s| && at == 8 * n
    ensures at + 32 <= 8 * |s| && BytesBits(s[n..n + 4]) == BytesBits(s)[at..at + 32]
  {
    hide BytesBits;
    var front, word := s[..n], s[n..n + 4];
    BytesBitsTake(s, n + 4);
    assert s[..n + 4] == front + word;
    BytesBitsConcat(front, word);
    Tail(BytesBits(s), BytesBits(front), BytesBits(word));
  }

  /** The input bits, filled up with zeros to a whole number of words. */
  ghost function Padded(buf: seq<byte>): (r: seq<bool>)
    ensures |r| % 32 == 0 && 8 * |buf| <= |r| < 8 * |buf| + 32
  {
    BytesBits(buf) + Zeros(8 * ((4 - |buf| % 4) % 4))
  }

  /** The input as words, the last one padded with zeros. */
  method InputWords(buf: seq<byte>) returns (words: seq<Word>)
    ensures 32 * |words| == |Padded(buf)|
    ensures forall i :: 0 <= i < |words| ==> words[i] == Padded(buf)[32 * i..32 * i + 32]
  {
    hide BytesBits, Padded;
    var nWords, nBytesRemain := |buf| / 4, |buf| % 4;
    words := [];
    PaddedWords(buf, nWords);
    for i := 0 to nWords
      invariant |words| == i
      invariant forall j :: 0 <= j < i ==> words[j] == Padded(buf)[32 * j..32 * j + 32]
    {
      words := words + [BytesBits(buf[4 * i..4 * i + 4])];
    }
    if nBytesRemain > 0 {
      var tail := buf[|buf| - nBytesRemain..];
      var last := EmitAsInteger(tail);
      PaddedTail(buf, nWords, tail);
      words := words + [last];
    }
  }

  lemma PaddedWords(buf: seq<byte>, n: nat)
    requires n == |buf| / 4
    ensures forall i :: 0 <= i < n ==> BytesBits(buf[4 * i..4 * i + 4]) == Padded(buf)[32 * i..32 * i + 32]
    ensures |buf| % 4 == 0 ==> |Padded(buf)| == 32 * n
  {
    hide BytesBits;
    forall i | 0 <= i < n ensures BytesBits(buf[4 * i..4 * i + 4]) == Padded(buf)[32 * i..32 * i + 32] {
      WordBits(buf, i);
    }
  }

  lemma PaddedTail(buf: seq<byte>, n: nat, tail: seq<byte>)
    requires n == |buf| / 4 && |buf| % 4 > 0 && tail == buf[4 * n..]
    ensures |Padded(buf)| == 32 * n + 32 && |tail| <= 4
    ensures Padded(buf)[32 * n..32 * n + 32] == BytesBits(tail) + Zeros(32 - 8 * |tail|)
  {
    hide BytesBits;
    BytesBitsConcat(buf[..4 * n], tail);
    assert buf == buf[..4 * n] + tail;
  }

  class ToeplitzHash {
    var hostKey: seq<Word>
    ghost var key: seq<byte>

    ghost predicate Valid()
      reads this
    {
      AreKeyWords(hostKey, BytesBits(key))
    }

    constructor ()
      ensures Valid() && key == [0, 0, 0, 0]
    {
      hostKey, key := [], [];
      new;
      var ok := UpdateKey([0, 0, 0, 0]);
    }

    /** Accepts only non-empty keys of whole words; any other leaves the key alone. */
    method UpdateKey(newKey: seq<byte>) returns (ok: bool)
      modifies this
      ensures ok <==> |newKey| >= 4 && |newKey| % 4 == 0
      ensures ok ==> Valid() && key == newKey
      ensures !ok ==> hostKey == old(hostKey) && key == old(key)
    {
      if |newKey| < 4 || |newKey| % 4 != 0 { return false; }
      var nWords := |newKey| / 4;
      hostKey := [];
      for i := 0 to nWords
        invariant |hostKey| == i
        invariant forall j :: 0 <= j < i ==> hostKey[j] == BytesBits(newKey)[32 * j..32 * j + 32]
      {
        WordBits(newKey, i);
        hostKey := hostKey + [BytesBits(newKey[4 * i..4 * i + 4])];
      }
      key := newKey;
      return true;
    }

    /** The hash of a buffer is the xor of the key windows at its set bits. */
    method Compute(buf: seq<byte>) returns (finalXorValue: Word)
      requires Valid()
      ensures finalXorValue == HashBits(BytesBits(key), 0, BytesBits(buf))
    {
      hide BytesBits, Window, AreKeyWords, Xor, Padded, HashBits, Zeros;
      ghost var k := BytesBits(key);
      KeyWordsAre32(hostKey, k);
      HashNothing(k);
      ghost var padded := Padded(buf);
      var inputWords := InputWords(buf);
      finalXorValue := Zeros(32);
      for i := 0 to |inputWords|
        invariant finalXorValue == HashBits(k, 0, padded[..32 * i])
      {
        assert padded[..32 * (i + 1)] == padded[..32 * i] + inputWords[i];
        HashConcat(k, 0, padded[..32 * i], inputWords[i]);
        finalXorValue := HashWord(i, inputWords[i], finalXorValue);
      }
      assert padded[..|padded|] == padded;
      HashPadded(k, buf);
    }

    /** The inner loop: visits the set bits of a word from the lowest up. */
    method HashWord(i: nat, word: Word, acc: Word) returns (finalXorValue: Word)
      requires Valid() && |word| == |acc| == 32
      ensures finalXorValue == Xor(acc, HashBits(BytesBits(key), 32 * i, word))
    {
      hide BytesBits, HashBits, Window, Xor, ToNat, Decrement, And, Or;
      ghost var k := BytesBits(key);
      KeyWordsAre32(hostKey, k);
      var baseKeyL, baseKeyR := hostKey[i % |hostKey|], hostKey[(i + 1) % |hostKey|];
      var inputWord := word;
      finalXorValue := acc;
      ghost var bound := 32;
      PositiveIffSet(inputWord);
      while ToNat(inputWord) > 0
        invariant |finalXorValue| == |inputWord| == 32
        invariant 0 <= bound <= 32 && forall b :: bound <= b < 32 ==> !inputWord[b]
        invariant ToNat(inputWord) > 0 <==> true in inputWord
        invariant Xor(finalXorValue, HashBits(k, 32 * i, inputWord)) == Xor(acc, HashBits(k, 32 * i, word))
        decreases bound
      {
        var iBit := 31 - CountTrailingZeros(inputWord);
        var keyL := ShiftLeft(baseKeyL, iBit);
        var keyR := HighPart(baseKeyR, iBit);
        OrIsWindow(hostKey, k, i, iBit);
        HashClearBit(k, 32 * i, inputWord, iBit);
        ClearsLowest(inputWord);
        XorAssoc(finalXorValue, Window(k, 32 * i + iBit), HashBits(k, 32 * i, inputWord[iBit := false]));
        XorComm(Window(k, 32 * i + iBit), HashBits(k, 32 * i, inputWord[iBit := false]));
        finalXorValue := Xor(finalXorValue, Or(keyL, keyR));
        inputWord := And(inputWord, Decrement(inputWord));
        PositiveIffSet(inputWord);
        bound := iBit;
      }
      AllClear(k, 32 * i, inputWord);
      XorZero(finalXorValue);
    }
  }

  lemma HashNothing(key: seq<bool>)
    requires key != []
    ensures HashBits(key, 0, []) == Zeros(32)
  {
  }

  lemma HashPadded(key: seq<bool>, buf: seq<byte>)
    requires key != []
    ensures HashBits(key, 0, Padded(buf)) == HashBits(key, 0, BytesBits(buf))
  {
    hide BytesBits, HashBits, Xor, Zeros;
    var n := |Padded(buf)| - 8 * |buf|;
    HashConcat(key, 0, BytesBits(buf), Zeros(n));
    HashZeros(key, 8 * |buf|, n);
    XorZero(HashBits(key, 0, BytesBits(buf)));
  }

  /** (uint64_t) r >> (32 - b), truncated to 32 bits; b = 0 shifts everything out. */
  function HighPart(r: Word, b: nat): (h: Word)
    requires |r| == 32 && b < 32
    ensures |h| == 32
  {
    ShiftRight(Zeros(32) + r, 32 - b)[32..]
  }

  lemma KeyWordsAre32(words: seq<Word>, key: seq<bool>)
    requires AreKeyWords(words, key)
    ensures words != [] && key != [] && forall i :: 0 <= i < |words| ==> |words[i]| == 32
  {
  }

  lemma OrIsWindow(words: seq<Word>, key: seq<bool>, i: nat, b: nat)
    requires AreKeyWords(words, key) && b < 32
    ensures Or(ShiftLeft(words[i % |words|], b), HighPart(words[(i + 1) % |words|], b)) == Window(key, 32 * i + b)
  {
    WindowFromWords(words, key, i, b);
    var l, r := words[i % |words|], words[(i + 1) % |words|];
    assert HighPart(r, b) == Zeros(32 - b) + r[..b];
    assert Or(ShiftLeft(l, b), HighPart(r, b)) == l[b..] + r[..b];
  }

  lemma AllClear(key: seq<bool>, t: nat, x: Word)
    requires key != [] && |x| == 32 && true !in x
    ensures HashBits(key, t, x) == Zeros(32)
  {
    forall i | 0 <= i < 32 ensures !x[i] { assert x[i] in x; }
    assert x == Zeros(32);
    HashZeros(key, t, 32);
  }
}
