/** What the trie denotes: a finite map from bit strings to values, and the meaning of
    "longest matching prefix" in it. */
module RouteTable {
  import opened Bits
  import opened TrieNode

  /** One stored prefix: the whole bytes that lead to its node and the remainder kept there. */
  datatype Route = Route(path: Path, slot: Slot)

  type Table = t: map<Route, Value> | forall r :: r in t ==> r.slot.Valid()

  function PathOf(s: seq<byte>): Path {
    if s == [] then Root else Snoc(PathOf(s[..|s| - 1]), s[|s| - 1])
  }

  lemma PathOfStep(s: seq<byte>, i: nat)
    requires i < |s|
    ensures PathOf(s[..i + 1]) == Snoc(PathOf(s[..i]), s[i])
  {
    assert s[..i + 1][..i] == s[..i];
  }

  /** The route of a prefix given as a byte buffer and a length in bits. */
  function RouteOf(prefix: seq<byte>, prefixLength: nat): (r: Route)
    requires prefixLength <= 8 * |prefix|
  {
    var n, l := prefixLength / 8, prefixLength % 8;
    Route(PathOf(prefix[..n]), Slot(l, if l == 0 then 0 else Shr(prefix[n], 8 - l)))
  }

  lemma {:induction false} ShrAll(b: nat, n: nat)
    requires b < Pow2(n)
    ensures Shr(b, n) == 0
  {
    if n > 0 { ShrAll(b / 2, n - 1); }
  }

  lemma SlotIsValid(b: byte, l: nat)
    requires l < 8
    ensures Slot(l, Shr(b, 8 - l)).Valid()
    ensures l == 0 ==> Shr(b, 8 - l) == 0
  {
    assert Pow2(8) == 256;
    ShiftBound(b, 8, l);
  }

  function Depth(p: Path): nat {
    if p.Root? then 0 else Depth(p.up) + 1
  }

  /** p lies on the way from the root to q. */
  predicate IsAbove(p: Path, q: Path) {
    p == q || (q.Snoc? && IsAbove(p, q.up))
  }

  lemma {:induction false} AboveStep(p: Path, v: byte, q: Path)
    requires IsAbove(Snoc(p, v), q)
    ensures IsAbove(p, q)
  {
    if q != Snoc(p, v) { AboveStep(p, v, q.up); }
  }

  function PathBits(p: Path): (r: seq<bool>)
    ensures |r| == 8 * Depth(p)
  {
    if p.Root? then [] else PathBits(p.up) + BitsOf(p.v, 8)
  }

  function RouteBits(r: Route): (b: seq<bool>)
    ensures |b| == 8 * Depth(r.path) + r.slot.len
  {
    PathBits(r.path) + BitsOf(r.slot.key, r.slot.len)
  }

  /** The first prefixLength bits of a byte buffer. */
  function PrefixBits(prefix: seq<byte>, prefixLength: nat): (r: seq<bool>)
    requires prefixLength <= 8 * |prefix|
    ensures |r| == prefixLength && r <= BytesBits(prefix)
  {
    BytesBits(prefix)[..prefixLength]
  }

  lemma {:induction false} PathOfBits(s: seq<byte>)
    ensures PathBits(PathOf(s)) == BytesBits(s) && Depth(PathOf(s)) == |s|
  {
    if s != [] { PathOfBits(s[..|s| - 1]); }
  }

  lemma {:induction false} PathBitsInjective(p: Path, q: Path)
    requires PathBits(p) == PathBits(q)
    ensures p == q
  {
    if p.Snoc? {
      assert Depth(p) == Depth(q) == Depth(p.up) + 1;
      var x, n := PathBits(p), 8 * Depth(p.up);
      assert x[..n] == PathBits(p.up) && x[n..] == BitsOf(p.v, 8);
      assert x[..n] == PathBits(q.up) && x[n..] == BitsOf(q.v, 8);
      PathBitsInjective(p.up, q.up);
      assert Pow2(8) == 256;
      BitsInjective(p.v, q.v, 8);
    }
  }

  /** Distinct stored prefixes are distinct bit strings. */
  lemma RouteBitsInjective(r: Route, s: Route)
    requires r.slot.Valid() && s.slot.Valid() && RouteBits(r) == RouteBits(s)
    ensures r == s
  {
    hide RouteBits, PathBits, BitsOf, Pow2, Depth;
    RouteBitsParts(r);
    RouteBitsParts(s);
    assert 8 * Depth(r.path) + r.slot.len == 8 * Depth(s.path) + s.slot.len;
    PathBitsInjective(r.path, s.path);
    BitsInjective(r.slot.key, s.slot.key, r.slot.len);
  }

  lemma RouteBitsParts(r: Route)
    ensures RouteBits(r)[..8 * Depth(r.path)] == PathBits(r.path)
    ensures RouteBits(r)[8 * Depth(r.path)..] == BitsOf(r.slot.key, r.slot.len)
  {
    hide PathBits, BitsOf, Depth;
  }

  /** Splitting off whole bytes and shifting the remainder loses nothing and adds nothing:
      the route of a buffer denotes exactly its first prefixLength bits, so bits past
      prefixLength never matter. */
  lemma RouteOfBits(prefix: seq<byte>, prefixLength: nat)
    requires prefixLength <= 8 * |prefix|
    ensures RouteOf(prefix, prefixLength).slot.Valid()
    ensures RouteBits(RouteOf(prefix, prefixLength)) == PrefixBits(prefix, prefixLength)
  {
    var n, l := prefixLength / 8, prefixLength % 8;
    PathOfBits(prefix[..n]);
    if l == 0 {
      BytesBitsTake(prefix, n);
    } else {
      SlotIsValid(prefix[n], l);
      ShiftDropsBits(prefix[n], 8, l);
      BytesBitsSplit(prefix, n, l);
    }
  }

  /** The bit strings stored in a table, with their values. */
  ghost function Denotes(t: Table): map<seq<bool>, Value>
  {
    assert forall r, s :: r in t && s in t && RouteBits(r) == RouteBits(s) ==> r == s by {
      forall r, s | r in t && s in t && RouteBits(r) == RouteBits(s) ensures r == s { RouteBitsInjective(r, s); }
    }
    map r | r in t :: RouteBits(r) := t[r]
  }

  lemma DenotesMember(t: Table, r: Route)
    requires r.slot.Valid()
    ensures RouteBits(r) in Denotes(t) <==> r in t
    ensures r in t ==> Denotes(t)[RouteBits(r)] == t[r]
  {
    hide RouteBits, Slot.Valid, PathBits, BitsOf;
    if RouteBits(r) in Denotes(t) {
      var s :| s in t && RouteBits(s) == RouteBits(r) && Denotes(t)[RouteBits(r)] == t[s];
      RouteBitsInjective(r, s);
    }
  }

  lemma DenotesInsert(t: Table, r: Route, v: Value)
    requires r.slot.Valid()
    ensures Denotes(t[r := v]) == Denotes(t)[RouteBits(r) := v]
  {
    hide RouteBits, Slot.Valid, PathBits, BitsOf;
    var t': Table := t[r := v];
    DenotesMember(t', r);
    forall s | s in t && s != r ensures RouteBits(s) != RouteBits(r) {
      if RouteBits(s) == RouteBits(r) { RouteBitsInjective(r, s); }
    }
    forall s | s in t && s != r ensures RouteBits(s) in Denotes(t') && Denotes(t')[RouteBits(s)] == Denotes(t)[RouteBits(s)] {
      DenotesMember(t, s);
      DenotesMember(t', s);
    }
  }

  lemma DenotesRemove(t: Table, r: Route)
    requires r.slot.Valid()
    ensures Denotes(t - {r}) == Denotes(t) - {RouteBits(r)}
  {
    hide RouteBits, Slot.Valid, PathBits, BitsOf;
    var t': Table := t - {r};
    DenotesMember(t', r);
    forall s | s in t' ensures RouteBits(s) in Denotes(t) && Denotes(t')[RouteBits(s)] == Denotes(t)[RouteBits(s)] {
      DenotesMember(t, s);
      DenotesMember(t', s);
    }
  }

  lemma InsertDenotes(t: Table, prefix: seq<byte>, prefixLength: nat, v: Value)
    requires prefixLength <= 8 * |prefix|
    ensures RouteOf(prefix, prefixLength).slot.Valid()
    ensures Denotes(t[RouteOf(prefix, prefixLength) := v]) == Denotes(t)[PrefixBits(prefix, prefixLength) := v]
  {
    RouteOfBits(prefix, prefixLength);
    DenotesInsert(t, RouteOf(prefix, prefixLength), v);
  }

  lemma RemoveDenotes(t: Table, prefix: seq<byte>, prefixLength: nat)
    requires prefixLength <= 8 * |prefix|
    ensures PrefixBits(prefix, prefixLength) in Denotes(t) <==> RouteOf(prefix, prefixLength) in t
    ensures Denotes(t - {RouteOf(prefix, prefixLength)}) == Denotes(t) - {PrefixBits(prefix, prefixLength)}
  {
    RouteOfBits(prefix, prefixLength);
    DenotesMember(t, RouteOf(prefix, prefixLength));
    DenotesRemove(t, RouteOf(prefix, prefixLength));
  }

  /** b is the longest stored prefix of key. */
  ghost predicate IsLongestMatch(m: map<seq<bool>, Value>, key: seq<bool>, b: seq<bool>) {
    b in m && b <= key && forall c :: c in m && c <= key ==> |c| <= |b|
  }

  /** What a longest-prefix-match query must answer. */
  ghost predicate IsAnswer(m: map<seq<bool>, Value>, key: seq<bool>, found: bool, value: Value) {
    && (found ==> exists b :: IsLongestMatch(m, key, b) && value == m[b])
    && (!found ==> forall b :: b in m ==> !(b <= key))
  }

  lemma LongestMatchUnique(m: map<seq<bool>, Value>, key: seq<bool>, b: seq<bool>, c: seq<bool>)
    requires IsLongestMatch(m, key, b) && IsLongestMatch(m, key, c)
    ensures b == c
  {
    assert b == key[..|b|] && c == key[..|c|];
  }

  /** The byte-wise test of the lookup on a key of w bytes. */
  predicate Matches(r: Route, key: seq<byte>, w: nat)
    requires w <= |key|
  {
    var d := Depth(r.path);
    && d <= w && r.path == PathOf(key[..d])
    && if d < w then r.slot.StartsByte(key[d]) else r.slot.len == 0
  }

  /** The test at a node of the key's own path. */
  lemma MatchesAt(key: seq<byte>, w: nat, n: nat)
    requires n <= w <= |key|
    ensures forall s :: Matches(Route(PathOf(key[..n]), s), key, w) <==> if n < w then s.StartsByte(key[n]) else s.len == 0
  {
    PathOfBits(key[..n]);
  }

  /** The route that a key spells at depth d with remainder l. */
  lemma KeyRouteBits(key: seq<byte>, d: nat, l: nat)
    requires d < |key| && l < 8
    ensures RouteBits(Route(PathOf(key[..d]), Slot(l, Shr(key[d], 8 - l)))) == BytesBits(key)[..8 * d + l]
  {
    hide BitsOf, Shr, PathBits, BytesBits, PathOf, Depth;
    PathOfBits(key[..d]);
    ShiftDropsBits(key[d], 8, l);
    BytesBitsSplit(key, d, l);
  }

  /** Inside the key the test compares whole bytes, then the shifted next byte. */
  lemma MatchesInside(r: Route, key: seq<byte>)
    requires r.slot.Valid() && Depth(r.path) < |key|
    ensures Matches(r, key, |key|) <==> RouteBits(r) == BytesBits(key)[..|RouteBits(r)|]
  {
    hide BitsOf, Shr, Pow2, PathBits, BytesBits, PathOf, RouteBits, Depth;
    var d, l := Depth(r.path), r.slot.len;
    var s := Route(PathOf(key[..d]), Slot(l, Shr(key[d], 8 - l)));
    SlotIsValid(key[d], l);
    PathOfBits(key[..d]);
    KeyRouteBits(key, d, l);
    if RouteBits(r) == RouteBits(s) { RouteBitsInjective(r, s); }
  }

  /** The test of the lookup is the bit-wise prefix test. */
  lemma MatchesIsPrefix(r: Route, key: seq<byte>, w: nat)
    requires w <= |key| && r.slot.Valid()
    ensures Matches(r, key, w) <==> RouteBits(r) <= BytesBits(key[..w])
  {
    hide BitsOf, Shr, Pow2, PathBits, BytesBits;
    var d, k := Depth(r.path), key[..w];
    if d < w {
      assert k[..d] == key[..d];
      MatchesInside(r, k);
    } else if d == w {
      PathOfBits(k);
      var whole := Route(PathOf(k), Slot(0, 0));
      assert RouteBits(whole) == BytesBits(k);
      if r.slot.len == 0 && RouteBits(r) == BytesBits(k) { RouteBitsInjective(r, whole); }
    }
  }

  function Length(r: Route): nat { 8 * Depth(r.path) + r.slot.len }

  /** Among the matching routes less than n bytes deep, best is a longest one, with its value. */
  ghost predicate BestAbove(t: Table, key: seq<byte>, w: nat, n: nat, found: bool, value: Value, best: Route)
    requires w <= |key|
  {
    && (found ==> best in t && Matches(best, key, w) && Depth(best.path) < n && value == t[best])
    && forall r :: r in t && Matches(r, key, w) && Depth(r.path) < n ==> found && Length(r) <= Length(best)
  }

  /** A hit at depth n overwrites every shallower one, and rightly so. */
  lemma DeeperHitIsBetter(t: Table, key: seq<byte>, w: nat, n: nat, found: bool, value: Value, best: Route, hit: Slot)
    requires n <= w <= |key| && BestAbove(t, key, w, n, found, value, best)
    requires Route(PathOf(key[..n]), hit) in t && Matches(Route(PathOf(key[..n]), hit), key, w)
    requires forall s :: Route(PathOf(key[..n]), s) in t && Matches(Route(PathOf(key[..n]), s), key, w) ==> s.len <= hit.len
    ensures BestAbove(t, key, w, n + 1, true, t[Route(PathOf(key[..n]), hit)], Route(PathOf(key[..n]), hit))
  {
    PathOfBits(key[..n]);
    forall r | r in t && Matches(r, key, w) && Depth(r.path) < n + 1
      ensures Length(r) <= 8 * n + hit.len
    {
      if Depth(r.path) == n { assert r == Route(PathOf(key[..n]), r.slot); }
    }
  }

  lemma NoHitKeepsBest(t: Table, key: seq<byte>, w: nat, n: nat, found: bool, value: Value, best: Route)
    requires n <= w <= |key| && BestAbove(t, key, w, n, found, value, best)
    requires forall s :: Route(PathOf(key[..n]), s) in t ==> !Matches(Route(PathOf(key[..n]), s), key, w)
    ensures BestAbove(t, key, w, n + 1, found, value, best)
  {
    forall r | r in t && Matches(r, key, w) ensures Depth(r.path) != n {
      assert r == Route(PathOf(key[..Depth(r.path)]), r.slot);
    }
  }

  /** The best route over all depths is the longest stored bit string that starts the key. */
  lemma BestIsLongestMatch(t: Table, key: seq<byte>, w: nat, found: bool, value: Value, best: Route)
    requires w <= |key| && BestAbove(t, key, w, w + 1, found, value, best)
    ensures IsAnswer(Denotes(t), BytesBits(key[..w]), found, value)
  {
    if found {
      DenotesMember(t, best);
      MatchesIsPrefix(best, key, w);
    }
    forall b | b in Denotes(t) && b <= BytesBits(key[..w]) ensures found && |b| <= |RouteBits(best)| {
      var r :| r in t && RouteBits(r) == b;
      MatchesIsPrefix(r, key, w);
    }
    assert found ==> IsLongestMatch(Denotes(t), BytesBits(key[..w]), RouteBits(best));
  }
}
