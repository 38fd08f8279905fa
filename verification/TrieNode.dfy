/** One node of the longest-prefix-match trie: a branch vector sorted by byte and a prefix
    vector sorted by descending length, both searched by bisection and shifted in place. */
module TrieNode {
  import opened Common
  import opened Bits

  type Value = nat

  /** A prefix remainder: the top len bits (fewer than 8) of a byte, as a number. */
  datatype Slot = Slot(len: nat, key: nat) {
    predicate Valid() { len < 8 && key < Pow2(len) }

    /** The test of the lookup: key is the top len bits of b. */
    predicate StartsByte(b: byte) { len <= 8 && key == Shr(b, 8 - len) }
  }

  datatype Prefix = Prefix(slot: Slot, value: Value)

  /** The bytes on the way from the root to a node. */
  datatype Path = Root | Snoc(up: Path, v: byte)

  datatype Branch = Branch(v: byte, next: Node)

  function PrefixCmp(p: Slot, q: Slot): int {
    if p.len == q.len then p.key - q.key else q.len - p.len
  }

  /** The place of a slot among the 255 possible ones: longer first, then smaller key. */
  function Rank(s: Slot): int
  {
    256 - 2 * Pow2(s.len) + s.key
  }

  /** PrefixCmp is the order of an injective numbering of the slots by 0..254. */
  lemma CmpIsRankOrder(p: Slot, q: Slot)
    requires p.Valid() && q.Valid()
    ensures 0 <= Rank(p) < 255
    ensures PrefixCmp(p, q) < 0 <==> Rank(p) < Rank(q)
    ensures PrefixCmp(p, q) == 0 <==> p == q
    ensures Rank(p) == Rank(q) <==> p == q
  {
    Pow2Doubles(p.len, q.len);
    Pow2Doubles(q.len, p.len);
    Pow2Doubles(p.len, 7);
    assert Pow2(7) == 128;
  }

  lemma {:induction false} Pow2Doubles(m: nat, n: nat)
    ensures m < n ==> 2 * Pow2(m) <= Pow2(n)
    ensures m <= n ==> Pow2(m) <= Pow2(n)
    decreases n
  {
    if m < n { Pow2Doubles(m, n - 1); }
  }

  ghost predicate SortedBranches(bs: seq<Branch>) {
    forall i, j :: 0 <= i < j < |bs| ==> bs[i].v < bs[j].v
  }

  ghost predicate SortedPrefixes(ps: seq<Prefix>) {
    && (forall i :: 0 <= i < |ps| ==> ps[i].slot.Valid())
    && forall i, j :: 0 <= i < j < |ps| ==> PrefixCmp(ps[i].slot, ps[j].slot) < 0
  }

  /** kids is exactly what the branch vector says. */
  ghost predicate BranchesAre(bs: seq<Branch>, kids: map<byte, Node>) {
    && (forall b :: b in bs ==> b.v in kids && kids[b.v] == b.next)
    && forall v :: v in kids ==> Branch(v, kids[v]) in bs
  }

  ghost predicate PrefixesAre(ps: seq<Prefix>, slots: map<Slot, Value>) {
    && (forall p :: p in ps ==> p.slot in slots && slots[p.slot] == p.value)
    && forall s :: s in slots ==> s.Valid() && Prefix(s, slots[s]) in ps
  }

  /** The vector after a memmove that closes the gap at index at. */
  function RemoveAt<T>(xs: seq<T>, at: nat): (r: seq<T>)
    requires at < |xs|
    ensures |r| == |xs| - 1
    ensures forall i :: 0 <= i < |r| ==> r[i] == if i < at then xs[i] else xs[i + 1]
  {
    xs[..at] + xs[at + 1..]
  }

  lemma RemoveAtMembers<T>(xs: seq<T>, at: nat)
    requires at < |xs|
    ensures forall y :: y in RemoveAt(xs, at) ==> y in xs
    ensures forall y :: y in xs ==> y in RemoveAt(xs, at) || y == xs[at]
  {
    assert xs == xs[..at] + [xs[at]] + xs[at + 1..];
  }

  /** Strictly sorted bytes: at most 256 branches, so an int16 size cannot overflow. */
  lemma {:induction false} BranchCount(bs: seq<Branch>)
    requires SortedBranches(bs)
    ensures |bs| <= 256
    ensures forall i :: 0 <= i < |bs| ==> i <= bs[i].v
  {
    var i := 0;
    while i < |bs|
      invariant 0 <= i <= |bs|
      invariant forall j :: 0 <= j < i ==> j <= bs[j].v
    {
      if i > 0 { assert bs[i - 1].v < bs[i].v; }
      i := i + 1;
    }
    if |bs| > 0 { assert bs[|bs| - 1].v <= 255; }
  }

  /** Likewise at most 255 prefixes. */
  lemma {:induction false} PrefixCount(ps: seq<Prefix>)
    requires SortedPrefixes(ps)
    ensures |ps| <= 255
  {
    var i := 0;
    while i < |ps|
      invariant 0 <= i <= |ps|
      invariant forall j :: 0 <= j < i ==> j <= Rank(ps[j].slot)
    {
      if i > 0 { CmpIsRankOrder(ps[i - 1].slot, ps[i].slot); } else { CmpIsRankOrder(ps[0].slot, ps[0].slot); }
      i := i + 1;
    }
    if |ps| > 0 {
      CmpIsRankOrder(ps[|ps| - 1].slot, ps[|ps| - 1].slot);
    }
  }

  /** The bisection every branch operation starts with: the index of byte b, or the index
      at which it belongs. */
  method BisectBranches(bs: seq<Branch>, b: byte) returns (found: bool, at: nat)
    requires SortedBranches(bs)
    ensures at <= |bs|
    ensures found ==> at < |bs| && bs[at].v == b
    ensures !found ==> forall i :: 0 <= i < at ==> bs[i].v < b
    ensures !found ==> forall i :: at <= i < |bs| ==> b < bs[i].v
  {
    var lo, hi := 0, |bs|;
    while lo < hi
      invariant 0 <= lo <= hi <= |bs|
      invariant forall i :: 0 <= i < lo ==> bs[i].v < b
      invariant forall i :: hi <= i < |bs| ==> b < bs[i].v
    {
      var idx := lo + (hi - lo) / 2;
      var v := bs[idx].v;
      if b < v {
        hi := idx;
      } else if b > v {
        lo := idx + 1;
      } else {
        return true, idx;
      }
    }
    return false, lo;
  }

  /** The same bisection under prefix_cmp. */
  method BisectPrefixes(ps: seq<Prefix>, slot: Slot) returns (found: bool, at: nat)
    requires SortedPrefixes(ps) && slot.Valid()
    ensures at <= |ps|
    ensures found ==> at < |ps| && ps[at].slot == slot
    ensures !found ==> forall i :: 0 <= i < at ==> PrefixCmp(ps[i].slot, slot) < 0
    ensures !found ==> forall i :: at <= i < |ps| ==> PrefixCmp(slot, ps[i].slot) < 0
  {
    var lo, hi := 0, |ps|;
    while lo < hi
      invariant 0 <= lo <= hi <= |ps|
      invariant forall i :: 0 <= i < lo ==> PrefixCmp(ps[i].slot, slot) < 0
      invariant forall i :: hi <= i < |ps| ==> PrefixCmp(slot, ps[i].slot) < 0
    {
      var idx := lo + (hi - lo) / 2;
      var c := PrefixCmp(slot, ps[idx].slot);
      if c < 0 {
        hi := idx;
      } else if c > 0 {
        lo := idx + 1;
      } else {
        return true, idx;
      }
    }
    return false, lo;
  }

  /** What the rest of the trie sees of a node. */
  datatype NodeView = NodeView(path: Path, parent: Node?, childId: byte, kids: map<byte, Node>, slots: map<Slot, Value>)

  class Node {
    var branches: seq<Branch>
    var prefixes: seq<Prefix>
    var parent: Node?
    var childId: byte
    ghost var path: Path
    ghost var kids: map<byte, Node>
    ghost var slots: map<Slot, Value>

    ghost predicate Valid()
      reads `branches, `prefixes, `kids, `slots
    {
      && SortedBranches(branches) && BranchesAre(branches, kids)
      && SortedPrefixes(prefixes) && PrefixesAre(prefixes, slots)
    }

    ghost function View(): NodeView
      reads this
    {
      NodeView(path, parent, childId, kids, slots)
    }

    /** allocate_node zeroes everything; a child is then told its parent and its byte. */
    constructor (ghost at: Path, parent: Node?, childId: byte)
      ensures Valid() && View() == NodeView(at, parent, childId, map[], map[])
    {
      path, kids, slots := at, map[], map[];
      branches, prefixes := [], [];
      this.parent, this.childId := parent, childId;
    }

    lemma EmptyVectors()
      requires Valid()
      ensures |prefixes| == 0 <==> slots == map[]
      ensures |branches| == 0 <==> kids == map[]
    {
      if |prefixes| > 0 { assert prefixes[0] in prefixes; }
      if |branches| > 0 { assert branches[0] in branches; }
    }

    method GetNextNode(b: byte) returns (r: Node?)
      requires Valid()
      ensures r == (if b in kids then kids[b] else null)
    {
      hide SortedBranches, BranchesAre, SortedPrefixes, PrefixesAre;
      var found, at := BisectBranches(branches, b);
      if !found {
        BranchNotBetween(branches, at, b, kids);
        return null;
      }
      BranchFound(branches, at, kids);
      return branches[at].next;
    }

    /** Adds a branch; a byte that already has one keeps it. */
    method SetNextNode(b: byte, next: Node)
      requires Valid()
      modifies this`branches, this`kids
      ensures Valid()
      ensures kids == if b in old(kids) then old(kids) else old(kids)[b := next]
    {
      hide SortedBranches, BranchesAre, SortedPrefixes, PrefixesAre;
      var found, at := BisectBranches(branches, b);
      if found {
        BranchFound(branches, at, kids);
        return;
      }
      BranchNotBetween(branches, at, b, kids);
      InsertedBranchSorted(branches, at, Branch(b, next));
      InsertedBranch(branches, at, Branch(b, next), kids);
      branches := InsertAt(branches, at, Branch(b, next));
      kids := kids[b := next];
    }

    /** Returns 1 when the branch was there and has been removed, 0 otherwise. */
    method DeleteBranch(b: byte) returns (removed: int)
      requires Valid()
      modifies this`branches, this`kids
      ensures Valid()
      ensures removed == (if b in old(kids) then 1 else 0)
      ensures kids == old(kids) - {b}
    {
      hide SortedBranches, BranchesAre, SortedPrefixes, PrefixesAre;
      var found, at := BisectBranches(branches, b);
      if !found {
        BranchNotBetween(branches, at, b, kids);
        assert kids - {b} == kids;
        return 0;
      }
      BranchFound(branches, at, kids);
      RemovedBranch(branches, at, kids);
      branches := RemoveAt(branches, at);
      kids := kids - {b};
      return 1;
    }

    /** Overwrites the value of a prefix that is there (1) or adds the prefix (0). */
    method InsertPrefix(slot: Slot, value: Value) returns (present: int)
      requires Valid() && slot.Valid()
      modifies this`prefixes, this`slots
      ensures Valid()
      ensures present == (if slot in old(slots) then 1 else 0)
      ensures slots == old(slots)[slot := value]
    {
      hide SortedBranches, BranchesAre, SortedPrefixes, PrefixesAre;
      var found, at := BisectPrefixes(prefixes, slot);
      if found {
        PrefixFound(prefixes, at, slots);
        OverwrittenPrefix(prefixes, at, value, slots);
        prefixes := prefixes[at := Prefix(slot, value)];
        present := 1;
      } else {
        NotBetween(prefixes, at, slot, slots);
        InsertedSorted(prefixes, at, Prefix(slot, value));
        InsertedPrefix(prefixes, at, Prefix(slot, value), slots);
        prefixes := InsertAt(prefixes, at, Prefix(slot, value));
        present := 0;
      }
      slots := slots[slot := value];
    }

    /** The value stored under slot, if any. */
    method GetPrefix(slot: Slot) returns (found: bool, value: Value)
      requires Valid() && slot.Valid()
      ensures found == (slot in slots)
      ensures found ==> value == slots[slot]
    {
      hide SortedBranches, BranchesAre, SortedPrefixes, PrefixesAre;
      var at;
      found, at := BisectPrefixes(prefixes, slot);
      if found {
        PrefixFound(prefixes, at, slots);
        value := prefixes[at].value;
      } else {
        NotBetween(prefixes, at, slot, slots);
        value := 0;
      }
    }

    /** The value of the zero-length prefix, which the ordering puts last. */
    method GetEmptyPrefix() returns (found: bool, value: Value)
      requires Valid()
      ensures found == (Slot(0, 0) in slots)
      ensures found ==> value == slots[Slot(0, 0)]
      ensures !found ==> forall s :: s in slots ==> s.len > 0
    {
      if |prefixes| == 0 { return false, 0; }
      var p := prefixes[|prefixes| - 1];
      assert p in prefixes;
      if p.slot.len == 0 {
        assert p.slot == Slot(0, 0);
        return true, p.value;
      }
      NotBetween(prefixes, |prefixes|, Slot(0, 0), slots);
      return false, 0;
    }

    method DeletePrefix(slot: Slot) returns (removed: int)
      requires Valid() && slot.Valid()
      modifies this`prefixes, this`slots
      ensures Valid()
      ensures removed == (if slot in old(slots) then 1 else 0)
      ensures slots == old(slots) - {slot}
    {
      hide SortedBranches, BranchesAre, SortedPrefixes, PrefixesAre;
      var found, at := BisectPrefixes(prefixes, slot);
      if !found {
        NotBetween(prefixes, at, slot, slots);
        assert slots - {slot} == slots;
        return 0;
      }
      PrefixFound(prefixes, at, slots);
      RemovedPrefix(prefixes, at, slots);
      prefixes := RemoveAt(prefixes, at);
      slots := slots - {slot};
      return 1;
    }

    /** The scan of the lookup: the first prefix of the vector whose bits start the byte b. */
    method ScanPrefixes(b: byte) returns (found: bool, value: Value, ghost hit: Slot)
      requires Valid()
      ensures found <==> exists s :: s in slots && s.StartsByte(b)
      ensures found ==> hit in slots && hit.StartsByte(b) && value == slots[hit]
      ensures found ==> forall s :: s in slots && s.StartsByte(b) ==> s.len <= hit.len
    {
      hit := Slot(0, 0);
      for i := 0 to |prefixes|
        invariant forall j :: 0 <= j < i ==> !prefixes[j].slot.StartsByte(b)
      {
        var p := prefixes[i];
        if p.slot.key == Shr(b, 8 - p.slot.len) {
          assert p in prefixes;
          hit := p.slot;
          FirstHitIsLongest(prefixes, i, b, slots);
          return true, p.value, hit;
        }
      }
      forall s | s in slots ensures !s.StartsByte(b) {
        assert Prefix(s, slots[s]) in prefixes;
      }
      return false, 0, hit;
    }
  }

  lemma FirstHitIsLongest(ps: seq<Prefix>, at: nat, b: byte, slots: map<Slot, Value>)
    requires at < |ps| && SortedPrefixes(ps) && PrefixesAre(ps, slots)
    requires forall j :: 0 <= j < at ==> !ps[j].slot.StartsByte(b)
    ensures forall s :: s in slots && s.StartsByte(b) ==> s.len <= ps[at].slot.len
  {
    forall s | s in slots && s.StartsByte(b) ensures s.len <= ps[at].slot.len {
      var i :| 0 <= i < |ps| && ps[i] == Prefix(s, slots[s]);
      assert i > at ==> PrefixCmp(ps[at].slot, ps[i].slot) < 0;
    }
  }

  lemma BranchFound(bs: seq<Branch>, at: nat, kids: map<byte, Node>)
    requires at < |bs| && BranchesAre(bs, kids)
    ensures bs[at].v in kids && kids[bs[at].v] == bs[at].next
  {
    assert bs[at] in bs;
  }

  lemma PrefixFound(ps: seq<Prefix>, at: nat, slots: map<Slot, Value>)
    requires at < |ps| && PrefixesAre(ps, slots)
    ensures ps[at].slot in slots && slots[ps[at].slot] == ps[at].value
  {
    assert ps[at] in ps;
  }

  lemma BranchNotBetween(bs: seq<Branch>, at: nat, b: byte, kids: map<byte, Node>)
    requires at <= |bs| && BranchesAre(bs, kids)
    requires forall i :: 0 <= i < at ==> bs[i].v < b
    requires forall i :: at <= i < |bs| ==> b < bs[i].v
    ensures b !in kids
  {
  }

  lemma InsertedBranchSorted(bs: seq<Branch>, at: nat, b: Branch)
    requires at <= |bs| && SortedBranches(bs)
    requires forall i :: 0 <= i < at ==> bs[i].v < b.v
    requires forall i :: at <= i < |bs| ==> b.v < bs[i].v
    ensures SortedBranches(InsertAt(bs, at, b))
  {
  }

  lemma InsertedBranch(bs: seq<Branch>, at: nat, b: Branch, kids: map<byte, Node>)
    requires at <= |bs| && BranchesAre(bs, kids) && b.v !in kids
    ensures BranchesAre(InsertAt(bs, at, b), kids[b.v := b.next])
  {
    InsertAtMembers(bs, at, b);
  }

  lemma RemovedBranch(bs: seq<Branch>, at: nat, kids: map<byte, Node>)
    requires at < |bs| && SortedBranches(bs) && BranchesAre(bs, kids)
    ensures SortedBranches(RemoveAt(bs, at))
    ensures BranchesAre(RemoveAt(bs, at), kids - {bs[at].v})
  {
    RemoveAtMembers(bs, at);
    assert bs[at] in bs;
  }

  lemma InsertedSorted(ps: seq<Prefix>, at: nat, p: Prefix)
    requires at <= |ps| && SortedPrefixes(ps) && p.slot.Valid()
    requires forall i :: 0 <= i < at ==> PrefixCmp(ps[i].slot, p.slot) < 0
    requires forall i :: at <= i < |ps| ==> PrefixCmp(p.slot, ps[i].slot) < 0
    ensures SortedPrefixes(InsertAt(ps, at, p))
  {
  }

  lemma NotBetween(ps: seq<Prefix>, at: nat, slot: Slot, slots: map<Slot, Value>)
    requires at <= |ps| && PrefixesAre(ps, slots)
    requires forall i :: 0 <= i < at ==> PrefixCmp(ps[i].slot, slot) < 0
    requires forall i :: at <= i < |ps| ==> PrefixCmp(slot, ps[i].slot) < 0
    ensures slot !in slots
  {
  }

  lemma InsertedPrefix(ps: seq<Prefix>, at: nat, p: Prefix, slots: map<Slot, Value>)
    requires at <= |ps| && PrefixesAre(ps, slots) && p.slot.Valid() && p.slot !in slots
    ensures PrefixesAre(InsertAt(ps, at, p), slots[p.slot := p.value])
  {
    InsertAtMembers(ps, at, p);
  }

  lemma RemovedPrefix(ps: seq<Prefix>, at: nat, slots: map<Slot, Value>)
    requires at < |ps| && SortedPrefixes(ps) && PrefixesAre(ps, slots)
    ensures SortedPrefixes(RemoveAt(ps, at))
    ensures PrefixesAre(RemoveAt(ps, at), slots - {ps[at].slot})
  {
    RemoveAtMembers(ps, at);
    assert ps[at] in ps;
  }

  lemma OverwrittenPrefix(ps: seq<Prefix>, at: nat, value: Value, slots: map<Slot, Value>)
    requires at < |ps| && SortedPrefixes(ps) && PrefixesAre(ps, slots)
    ensures SortedPrefixes(ps[at := Prefix(ps[at].slot, value)])
    ensures PrefixesAre(ps[at := Prefix(ps[at].slot, value)], slots[ps[at].slot := value])
  {
    var qs := ps[at := Prefix(ps[at].slot, value)];
    var slots' := slots[ps[at].slot := value];
    assert qs[at] in qs;
    forall s | s in slots' && s != ps[at].slot
      ensures Prefix(s, slots'[s]) in qs
    {
      var i :| 0 <= i < |ps| && ps[i] == Prefix(s, slots[s]);
      assert qs[i] in qs;
    }
    forall q | q in qs ensures q.slot in slots' && slots'[q.slot] == q.value {
      var i :| 0 <= i < |qs| && qs[i] == q;
      assert ps[i] in ps;
    }
  }
}
