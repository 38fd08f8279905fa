/** The match key codec of the table interface: build_key reads a flat key buffer field by
    field, emit_match_key writes it back. */
module MatchKey {
  import opened Common
  import opened Bits

  type uint32 = x: int | 0 <= x < TWO32
  type int32 = x: int | -0x8000_0000 <= x < 0x8000_0000

  datatype MatchType = VALID | EXACT | LPM | TERNARY | OPTIONAL | RANGE

  datatype Field = Field(matchType: MatchType, bitwidth: nat) {
    /** The least number of bytes that holds the field. */
    function Bytes(): (n: nat)
      ensures bitwidth <= 8 * n < bitwidth + 8
    {
      (bitwidth + 7) / 8
    }

    /** The number of bytes this field takes in the key buffer. */
    function Size(): nat {
      match matchType
      case VALID => 1
      case EXACT => Bytes()
      case LPM => Bytes() + 4
      case TERNARY => 2 * Bytes()
      case OPTIONAL => 2 * Bytes()
      case RANGE => 2 * Bytes()
    }

    predicate HasPriority() { matchType.TERNARY? || matchType.OPTIONAL? || matchType.RANGE? }
  }

  datatype ParamType = PValid | PExact | PLpm | PTernary | PRange

  datatype Param = Param(kind: ParamType, key: seq<byte>, mask: seq<byte>, prefixLength: int32)

  // ----- 32-bit integers in a buffer, in the byte order of the host

  /** Unsigned value of bytes, least significant first. */
  function Value(s: seq<byte>): nat {
    if s == [] then 0 else s[0] + 256 * Value(s[1..])
  }

  function Digits(v: nat, n: nat): (s: seq<byte>)
    ensures |s| == n
  {
    if n == 0 then [] else [v % 256] + Digits(v / 256, n - 1)
  }

  function RetrieveUint32(s: seq<byte>, little: bool): uint32
    requires |s| == 4
  {
    ValueBound(if little then s else Reverse(s));
    assert Pow256(4) == TWO32;
    Value(if little then s else Reverse(s))
  }

  function EmitUint32(v: uint32, little: bool): (s: seq<byte>)
    ensures |s| == 4
  {
    if little then Digits(v, 4) else Reverse(Digits(v, 4))
  }

  /** uint32_t stored in an int, and back. */
  function ToInt(v: uint32): (r: int32)
    ensures (v - r) % 0x1_0000_0000 == 0
  {
    if v < 0x8000_0000 then v else v - TWO32
  }

  function ToUint(v: int32): (r: uint32)
    ensures (v - r) % 0x1_0000_0000 == 0
  {
    if v < 0 then v + TWO32 else v
  }

  lemma {:induction false} DigitsOfValue(s: seq<byte>)
    ensures Digits(Value(s), |s|) == s
  {
    if s != [] {
      DigitsOfValue(s[1..]);
      assert Value(s) % 256 == s[0] && Value(s) / 256 == Value(s[1..]);
    }
  }

  function Pow256(n: nat): nat {
    if n == 0 then 1 else 256 * Pow256(n - 1)
  }

  lemma {:induction false} ValueOfDigits(v: nat, n: nat)
    requires v < Pow256(n)
    ensures Value(Digits(v, n)) == v
  {
    if n > 0 {
      ValueOfDigits(v / 256, n - 1);
      assert Digits(v, n)[1..] == Digits(v / 256, n - 1);
    }
  }

  lemma {:induction false} ValueBound(s: seq<byte>)
    ensures Value(s) < Pow256(|s|)
  {
    if s != [] { ValueBound(s[1..]); }
  }

  lemma Uint32RoundTrips(s: seq<byte>, v: uint32, little: bool)
    requires |s| == 4
    ensures EmitUint32(RetrieveUint32(s, little), little) == s
    ensures RetrieveUint32(EmitUint32(v, little), little) == v
  {
    DigitsOfValue(s);
    DigitsOfValue(Reverse(s));
    assert Reverse(Reverse(s)) == s;
    assert Pow256(4) == TWO32;
    ValueOfDigits(v, 4);
    assert Reverse(Reverse(Digits(v, 4))) == Digits(v, 4);
  }

  // ----- the meaning of one field and of a whole key

  function KeySize(schema: seq<Field>): nat {
    if schema == [] then 0 else schema[0].Size() + KeySize(schema[1..])
  }

  function DecodeField(f: Field, s: seq<byte>, little: bool): Param
    requires |s| == f.Size()
  {
    var n := f.Bytes();
    match f.matchType
    case VALID => Param(PValid, if s[0] != 0 then [1] else [0], [], 0)
    case EXACT => Param(PExact, s, [], 0)
    case LPM => Param(PLpm, s[..n], [], ToInt(RetrieveUint32(s[n..], little)))
    case TERNARY => Param(PTernary, s[..n], s[n..], 0)
    case OPTIONAL => Param(PTernary, s[..n], s[n..], 0)
    case RANGE => Param(PRange, s[..n], s[n..], 0)
  }

  function Decode(schema: seq<Field>, s: seq<byte>, little: bool): (r: seq<Param>)
    requires |s| >= KeySize(schema)
    ensures |r| == |schema|
    decreases |schema|
  {
    if schema == [] then []
    else
      var n := schema[0].Size();
      [DecodeField(schema[0], s[..n], little)] + Decode(schema[1..], s[n..], little)
  }

  /** Where field i starts, and what is read there. */
  lemma {:induction false} DecodeAt(schema: seq<Field>, s: seq<byte>, i: nat, little: bool)
    requires |s| >= KeySize(schema) && i < |schema|
    ensures
      var at, n := KeySize(schema[..i]), schema[i].Size();
      at + n <= KeySize(schema) && Decode(schema, s, little)[i] == DecodeField(schema[i], s[at..at + n], little)
    decreases |schema|
  {
    hide DecodeField, Decode, KeySize;
    DecodeFirst(schema, s, little);
    if i == 0 {
      assert schema[..0] == [];
    } else {
      var n := schema[0].Size();
      var rest, front := schema[1..], schema[..i];
      DecodeAt(rest, s[n..], i - 1, little);
      KeySizeFirst(front);
      assert front[1..] == rest[..i - 1];
      var at := KeySize(rest[..i - 1]);
      SliceOfTail(s, n, at, at + schema[i].Size());
    }
  }

  lemma SliceOfTail(s: seq<byte>, n: nat, i: nat, j: nat)
    requires n <= |s| && i <= j <= |s| - n
    ensures s[n..][i..j] == s[n + i..n + j]
  {
  }

  lemma KeySizeFirst(schema: seq<Field>)
    ensures KeySize([]) == 0
    ensures schema != [] ==> KeySize(schema) == schema[0].Size() + KeySize(schema[1..])
  {
  }

  lemma DecodeFirst(schema: seq<Field>, s: seq<byte>, little: bool)
    requires |s| >= KeySize(schema) && schema != []
    ensures
      var n := schema[0].Size();
      n <= KeySize(schema) == n + KeySize(schema[1..]) && KeySize([]) == 0 &&
      Decode(schema, s, little)[0] == DecodeField(schema[0], s[0..n], little) &&
      Decode(schema, s, little)[1..] == Decode(schema[1..], s[n..], little)
  {
    hide DecodeField;
    assert s[0..schema[0].Size()] == s[..schema[0].Size()];
  }

  /** The four bytes of a 32-bit integer. */
  function Weighed(a: byte, b: byte, c: byte, d: byte): nat {
    a + 0x100 * b + 0x1_0000 * c + 0x100_0000 * d
  }

  lemma RetrievedIs(s: seq<byte>, little: bool)
    requires |s| == 4
    ensures RetrieveUint32(s, little) == if little then Weighed(s[0], s[1], s[2], s[3]) else Weighed(s[3], s[2], s[1], s[0])
  {
    FourBytes(s);
    FourBytes(Reverse(s));
  }

  lemma FourBytes(s: seq<byte>)
    requires |s| == 4
    ensures Value(s) == Weighed(s[0], s[1], s[2], s[3])
  {
    assert s[1..][1..] == s[2..] && s[2..][1..] == s[3..] && s[3..][1..] == [];
    assert Value(s[3..]) == s[3];
    assert Value(s[2..]) == s[2] + 256 * Value(s[3..]);
    assert Value(s[1..]) == s[1] + 256 * Value(s[2..]);
  }

  /** What a field's bytes mean: the value first, then the mask, the upper end or the prefix length. */
  lemma FieldMeans(f: Field, s: seq<byte>, little: bool)
    requires |s| == f.Size()
    ensures KindOf(f.matchType) == DecodeField(f, s, little).kind
    ensures f.matchType == VALID ==> |s| == 1 && DecodeField(f, s, little).key == [if s[0] == 0 then 0 else 1]
    ensures f.matchType != VALID ==> ValueFirst(f, s, DecodeField(f, s, little).key)
    ensures f.matchType == EXACT ==> |s| == |DecodeField(f, s, little).key|
    ensures f.matchType == LPM ==> PrefixLengthLast(s, DecodeField(f, s, little), little)
    ensures f.matchType in {TERNARY, OPTIONAL, RANGE} ==> MaskLast(s, DecodeField(f, s, little))
    ensures f.matchType in {VALID, EXACT, LPM} ==> DecodeField(f, s, little).mask == []
  {
    hide RetrieveUint32, Weighed;
    if f.matchType == LPM { RetrievedIs(s[f.Bytes()..], little); }
  }

  function KindOf(t: MatchType): ParamType {
    match t
    case VALID => PValid
    case EXACT => PExact
    case LPM => PLpm
    case TERNARY => PTernary
    case OPTIONAL => PTernary
    case RANGE => PRange
  }

  /** The value takes the least number of whole bytes. */
  ghost predicate ValueFirst(f: Field, s: seq<byte>, key: seq<byte>) {
    f.bitwidth <= 8 * |key| < f.bitwidth + 8 && |key| <= |s| && forall i :: 0 <= i < |key| ==> key[i] == s[i]
  }

  ghost predicate PrefixLengthLast(s: seq<byte>, p: Param, little: bool) {
    var n := |p.key|;
    |s| == n + 4 &&
    ToUint(p.prefixLength) ==
      if little then Weighed(s[n], s[n + 1], s[n + 2], s[n + 3]) else Weighed(s[n + 3], s[n + 2], s[n + 1], s[n])
  }

  ghost predicate MaskLast(s: seq<byte>, p: Param) {
    |s| == 2 * |p.key| && |p.mask| == |p.key| && forall i :: 0 <= i < |p.key| ==> p.mask[i] == s[|p.key| + i]
  }

  function EncodeParam(p: Param, little: bool): seq<byte> {
    match p.kind
    case PExact => p.key
    case PLpm => p.key + EmitUint32(ToUint(p.prefixLength), little)
    case PTernary => p.key + p.mask
    case PRange => p.key + p.mask
    case PValid => [if p.key == [1] then 1 else 0]
  }

  function Encode(key: seq<Param>, little: bool): seq<byte> {
    if key == [] then [] else Encode(key[..|key| - 1], little) + EncodeParam(key[|key| - 1], little)
  }

  /** The buffer with each VALID byte reduced to 0 or 1. */
  function Normalized(schema: seq<Field>, s: seq<byte>): (r: seq<byte>)
    requires |s| >= KeySize(schema)
    ensures |r| == KeySize(schema)
    decreases |schema|
  {
    if schema == [] then []
    else
      var n := schema[0].Size();
      (if schema[0].matchType.VALID? then [if s[0] != 0 then 1 else 0] else s[..n])
        + Normalized(schema[1..], s[n..])
  }

  // ----- the code

  const INT_MAX: nat := 0x7FFF_FFFF

  /** BM_MAX_PRIORITY for a priority type whose largest value is piMax. */
  function MaxPriority(piMax: nat): (r: nat)
    ensures r <= 0x7FFF_FFFF && r <= piMax && (r == 0x7FFF_FFFF || r == piMax)
  {
    if piMax >= INT_MAX then INT_MAX else piMax
  }

  /** pi_to_bm and bm_to_pi: the same expression on different integer types. */
  function Inverted(piMax: nat, from: nat): (r: nat)
    requires from <= MaxPriority(piMax)
    ensures r <= MaxPriority(piMax)
  {
    MaxPriority(piMax) - from
  }

  /** Inversion loses nothing and reverses the order. */
  lemma PriorityInversion(piMax: nat, a: nat, b: nat)
    requires a <= MaxPriority(piMax) && b <= MaxPriority(piMax)
    ensures Inverted(piMax, Inverted(piMax, a)) == a
    ensures a < b <==> Inverted(piMax, a) > Inverted(piMax, b)
    ensures Inverted(piMax, 0) == MaxPriority(piMax) && Inverted(piMax, MaxPriority(piMax)) == 0
  {
  }

  /** A priority is set for the kinds of match that can overlap, and for no other. */
  lemma PriorityTypes(schema: seq<Field>)
    ensures NeedsPriority(schema) <==>
      exists i :: 0 <= i < |schema| &&
        schema[i].matchType != VALID && schema[i].matchType != EXACT && schema[i].matchType != LPM
  {
    if i :| 0 <= i < |schema| && schema[i].matchType != VALID && schema[i].matchType != EXACT && schema[i].matchType != LPM {
      assert schema[i].HasPriority();
    }
  }

  predicate NeedsPriority(schema: seq<Field>) {
    exists i :: 0 <= i < |schema| && schema[i].HasPriority()
  }

  lemma KeySizeStep(schema: seq<Field>, i: nat)
    requires i < |schema|
    ensures KeySize(schema[i..]) == schema[i].Size() + KeySize(schema[i + 1..])
  {
    assert schema[i..][1..] == schema[i + 1..];
  }

  /** Reading field i at at moves its parameter from what is to come to what was read. */
  lemma DecodeStep(key: seq<Param>, schema: seq<Field>, i: nat, s: seq<byte>, at: nat, little: bool)
    requires i < |schema| && at + KeySize(schema[i..]) <= |s|
    ensures KeySize(schema[i..]) == schema[i].Size() + KeySize(schema[i + 1..])
    ensures
      var n := schema[i].Size();
      key + Decode(schema[i..], s[at..], little)
        == (key + [DecodeField(schema[i], s[at..at + n], little)]) + Decode(schema[i + 1..], s[at + n..], little)
  {
    hide DecodeField;
    KeySizeStep(schema, i);
    var n := schema[i].Size();
    assert schema[i..][1..] == schema[i + 1..];
    assert s[at..][..n] == s[at..at + n] && s[at..][n..] == s[at + n..];
  }

  lemma NothingToRead(data: seq<byte>, little: bool)
    ensures KeySize([]) == 0 && !NeedsPriority([])
    ensures forall i :: 0 <= i <= |data| ==> Decode([], data[i..], little) == []
  {
  }

  method BuildKey(schema: seq<Field>, data: seq<byte>, piMax: nat, piPriority: nat, little: bool)
    returns (key: seq<Param>, priority: nat, ghost consumed: nat)
    requires |data| >= KeySize(schema)
    requires NeedsPriority(schema) ==> piPriority <= MaxPriority(piMax)
    ensures key == Decode(schema, data, little)
    ensures consumed == KeySize(schema)
    ensures priority == if NeedsPriority(schema) then Inverted(piMax, piPriority) else 0
  {
    NothingToRead(data, little);
    hide Decode, DecodeField, KeySize, NeedsPriority, Inverted, MaxPriority;
    key, priority := [], 0;
    var mk: nat := 0;
    assert data[0..] == data && schema[0..] == schema && schema[..0] == [];
    assert key + Decode(schema, data, little) == Decode(schema, data, little);
    for i := 0 to |schema|
      invariant mk + KeySize(schema[i..]) == KeySize(schema)
      invariant key + Decode(schema[i..], data[mk..], little) == Decode(schema, data, little)
      invariant NeedsPriority(schema[..i]) ==> NeedsPriority(schema)
      invariant priority == if NeedsPriority(schema[..i]) then Inverted(piMax, piPriority) else 0
    {
      DecodeStep(key, schema, i, data, mk, little);
      PriorityStep(schema, i);
      var p, n := ReadField(schema[i], data, mk, little);
      if schema[i].HasPriority() { priority := Inverted(piMax, piPriority); }
      key := key + [p];
      mk := mk + n;
    }
    assert schema[..|schema|] == schema && schema[|schema|..] == [];
    assert key + [] == key;
    consumed := mk;
  }

  lemma PriorityStep(schema: seq<Field>, i: nat)
    requires i < |schema|
    ensures NeedsPriority(schema[..i + 1]) <==> NeedsPriority(schema[..i]) || schema[i].HasPriority()
    ensures NeedsPriority(schema[..i + 1]) ==> NeedsPriority(schema)
  {
    var a, b := schema[..i], schema[..i + 1];
    if NeedsPriority(a) {
      var k :| 0 <= k < |a| && a[k].HasPriority();
      assert b[k].HasPriority();
    }
    if schema[i].HasPriority() { assert b[i].HasPriority(); }
    if NeedsPriority(b) {
      var k :| 0 <= k < |b| && b[k].HasPriority();
      assert schema[k].HasPriority() && (k < i ==> a[k].HasPriority());
    }
  }

  /** The switch on the match type: the parameter read at mk and how far mk_data moves. */
  method ReadField(f: Field, data: seq<byte>, mk: nat, little: bool) returns (p: Param, n: nat)
    requires mk + f.Size() <= |data|
    ensures n == f.Size() && p == DecodeField(f, data[mk..mk + n], little)
  {
    var nbytes, at := f.Bytes(), mk;
    hide RetrieveUint32, ToInt;
    match f.matchType {
    case VALID =>
      p := Param(PValid, if data[at] != 0 then [1] else [0], [], 0);
      at := at + 1;
    case EXACT =>
      p := Param(PExact, data[at..at + nbytes], [], 0);
      at := at + nbytes;
    case LPM =>
      p, at := ReadPrefix(data, at, nbytes, little);
    case TERNARY =>
      p, at := ReadPair(PTernary, data, at, nbytes);
    case OPTIONAL =>
      p, at := ReadPair(PTernary, data, at, nbytes);
    case RANGE =>
      p, at := ReadPair(PRange, data, at, nbytes);
    }
    n := at - mk;
  }

  method ReadPrefix(data: seq<byte>, mk: nat, nbytes: nat, little: bool) returns (p: Param, at: nat)
    requires mk + nbytes + 4 <= |data|
    ensures at == mk + nbytes + 4
    ensures p == Param(PLpm, data[mk..at][..nbytes], [], ToInt(RetrieveUint32(data[mk..at][nbytes..], little)))
  {
    hide RetrieveUint32, ToInt;
    at := mk;
    var k := data[at..at + nbytes];
    at := at + nbytes;
    var pLen := RetrieveUint32(data[at..at + 4], little);
    at := at + 4;
    p := Param(PLpm, k, [], ToInt(pLen));
    assert data[mk..at][..nbytes] == k && data[mk..at][nbytes..] == data[mk + nbytes..at];
  }

  method ReadPair(kind: ParamType, data: seq<byte>, mk: nat, nbytes: nat) returns (p: Param, at: nat)
    requires mk + 2 * nbytes <= |data|
    ensures at == mk + 2 * nbytes
    ensures p == Param(kind, data[mk..at][..nbytes], data[mk..at][nbytes..], 0)
  {
    at := mk;
    var k := data[at..at + nbytes];
    at := at + nbytes;
    var mask := data[at..at + nbytes];
    at := at + nbytes;
    p := Param(kind, k, mask, 0);
    assert data[mk..at][..nbytes] == k && data[mk..at][nbytes..] == mask;
  }

  lemma EncodeStep(key: seq<Param>, little: bool)
    ensures Encode(key[..0], little) == []
    ensures forall i :: 0 <= i < |key| ==>
      Encode(key[..i + 1], little) == Encode(key[..i], little) + EncodeParam(key[i], little)
  {
    hide EncodeParam;
    forall i | 0 <= i < |key|
      ensures Encode(key[..i + 1], little) == Encode(key[..i], little) + EncodeParam(key[i], little)
    {
      assert key[..i + 1][..i] == key[..i];
    }
  }

  method EmitMatchKey(key: seq<Param>, little: bool) returns (buffer: seq<byte>)
    ensures buffer == Encode(key, little)
  {
    buffer := [];
    hide Encode, EmitUint32, ToUint;
    EncodeStep(key, little);
    for i := 0 to |key|
      invariant buffer == Encode(key[..i], little)
    {
      var p := key[i];
      match p.kind {
      case PExact =>
        buffer := buffer + p.key;
      case PLpm =>
        buffer := buffer + p.key;
        buffer := buffer + EmitUint32(ToUint(p.prefixLength), little);
      case PTernary =>
        buffer := buffer + p.key;
        buffer := buffer + p.mask;
      case PRange =>
        buffer := buffer + p.key;
        buffer := buffer + p.mask;
      case PValid =>
        buffer := buffer + [if p.key == [1] then 1 else 0];
      }
    }
    assert key[..|key|] == key;
  }

  // ----- round trips

  lemma {:induction false} EncodeConcat(a: seq<Param>, b: seq<Param>, little: bool)
    ensures Encode(a + b, little) == Encode(a, little) + Encode(b, little)
    decreases |b|
  {
    hide EncodeParam;
    if b == [] {
      assert a + b == a;
    } else {
      assert (a + b)[..|a| + |b| - 1] == a + b[..|b| - 1];
      EncodeConcat(a, b[..|b| - 1], little);
    }
  }

  lemma FieldRoundTrips(f: Field, s: seq<byte>, little: bool)
    requires |s| == f.Size()
    ensures EncodeParam(DecodeField(f, s, little), little)
         == if f.matchType.VALID? then [if s[0] != 0 then 1 else 0] else s
  {
    hide EmitUint32, RetrieveUint32;
    var n := f.Bytes();
    if f.matchType.LPM? {
      Uint32RoundTrips(s[n..], 0, little);
      assert s == s[..n] + s[n..];
    } else if f.matchType.TERNARY? || f.matchType.OPTIONAL? || f.matchType.RANGE? {
      assert s == s[..n] + s[n..];
    }
  }

  /** Reading a key buffer and writing the key back reproduces the buffer, byte for byte, up
      to the normalization of VALID bytes, and uses exactly the schema's size. */
  lemma {:induction false} BufferRoundTrips(schema: seq<Field>, s: seq<byte>, little: bool)
    requires |s| >= KeySize(schema)
    ensures Encode(Decode(schema, s, little), little) == Normalized(schema, s)
    decreases |schema|
  {
    if schema != [] {
      hide DecodeField, EncodeParam;
      var n := schema[0].Size();
      var p := DecodeField(schema[0], s[..n], little);
      BufferRoundTrips(schema[1..], s[n..], little);
      FieldRoundTrips(schema[0], s[..n], little);
      EncodeConcat([p], Decode(schema[1..], s[n..], little), little);
      assert Encode([p], little) == EncodeParam(p, little);
    }
  }

  /** A parameter that the table accepts for a field. */
  predicate FitsField(p: Param, f: Field) {
    match f.matchType
    case VALID => p.kind == PValid && p.key in {[0], [1]} && p.mask == [] && p.prefixLength == 0
    case EXACT => p.kind == PExact && |p.key| == f.Bytes() && p.mask == [] && p.prefixLength == 0
    case LPM => p.kind == PLpm && |p.key| == f.Bytes() && p.mask == []
    case TERNARY => p.kind == PTernary && |p.key| == |p.mask| == f.Bytes() && p.prefixLength == 0
    case OPTIONAL => p.kind == PTernary && |p.key| == |p.mask| == f.Bytes() && p.prefixLength == 0
    case RANGE => p.kind == PRange && |p.key| == |p.mask| == f.Bytes() && p.prefixLength == 0
  }

  ghost predicate FitsSchema(key: seq<Param>, schema: seq<Field>) {
    |key| == |schema| && forall i :: 0 <= i < |key| ==> FitsField(key[i], schema[i])
  }

  lemma ParamRoundTrips(p: Param, f: Field, little: bool)
    requires FitsField(p, f)
    ensures |EncodeParam(p, little)| == f.Size()
    ensures DecodeField(f, EncodeParam(p, little), little) == p
  {
    hide EmitUint32, RetrieveUint32;
    var n, s := f.Bytes(), EncodeParam(p, little);
    if f.matchType.LPM? {
      Uint32RoundTrips([0, 0, 0, 0], ToUint(p.prefixLength), little);
      assert s[..n] == p.key && s[n..] == EmitUint32(ToUint(p.prefixLength), little);
    } else if f.matchType.TERNARY? || f.matchType.OPTIONAL? || f.matchType.RANGE? {
      assert s[..n] == p.key && s[n..] == p.mask;
    }
  }

  /** The other way round: writing a key that fits the schema and reading it gives the key. */
  lemma {:induction false} KeyRoundTrips(schema: seq<Field>, key: seq<Param>, little: bool)
    requires FitsSchema(key, schema)
    ensures |Encode(key, little)| == KeySize(schema)
    ensures Decode(schema, Encode(key, little), little) == key
    decreases |schema|
  {
    if schema != [] {
      hide DecodeField, EncodeParam, FitsField;
      var p := key[0];
      assert key == [p] + key[1..];
      KeyRoundTrips(schema[1..], key[1..], little);
      EncodeConcat([p], key[1..], little);
      assert Encode([p], little) == EncodeParam(p, little);
      ParamRoundTrips(p, schema[0], little);
      var s, n := Encode(key, little), schema[0].Size();
      assert s[..n] == EncodeParam(p, little) && s[n..] == Encode(key[1..], little);
    } else {
      assert key == [];
    }
  }
}
