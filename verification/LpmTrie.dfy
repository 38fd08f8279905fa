/** The longest-prefix-match trie, a tree of nodes linked by branch vectors and parent
    pointers, proved against a finite map from bit strings to values. */
module LpmTrie {
  import opened Bits
  import opened RouteTable
  import opened TrieNode

  /** *p, where p may be one past the end: any byte at all can be there. */
  method PeekByte(s: seq<byte>, i: nat) returns (b: byte)
    ensures i < |s| ==> b == s[i]
  {
    if i < |s| {
      b := s[i];
    } else {
      b := *;
    }
  }

  type Nodes = map<Path, Node>
  type Views = map<Path, NodeView>

  /** The node at p is linked to its neighbours and to the table, and only to them. */
  ghost predicate Linked(nodes: Nodes, views: Views, table: Table, p: Path)
    requires p in nodes && nodes.Keys == views.Keys
  {
    var w := views[p];
    && (p.Root? ==> w.parent == null)
    && (p.Snoc? ==> p.up in nodes && w.parent == nodes[p.up] && w.childId == p.v && p.v in views[p.up].kids)
    && (forall v :: v in w.kids ==> Snoc(p, v) in nodes && nodes[Snoc(p, v)] == w.kids[v])
    && (forall s :: s in w.slots ==> Route(p, s) in table && table[Route(p, s)] == w.slots[s])
  }

  ghost predicate Tree(nodes: Nodes, views: Views, table: Table)
  {
    && nodes.Keys == views.Keys && Root in nodes
    && (forall p {:trigger Linked(nodes, views, table, p)} :: p in nodes ==> Linked(nodes, views, table, p))
    && forall r :: r in table ==> r.path in nodes && r.slot in views[r.path].slots
  }

  /** Every node but the root, and but the one at q, holds a prefix or a branch. */
  ghost predicate PrunedBut(views: Views, q: Path)
  {
    forall p :: p in views && p.Snoc? && p != q ==> views[p].slots != map[] || views[p].kids != map[]
  }

  ghost function GrownViews(nodes: Nodes, views: Views, up: Path, b: byte, node: Node): Views
    requires up in nodes && up in views
  {
    views[up := views[up].(kids := views[up].kids[b := node])][Snoc(up, b) := NodeView(Snoc(up, b), nodes[up], b, map[], map[])]
  }

  lemma GrowKeepsLink(nodes: Nodes, views: Views, table: Table, up: Path, b: byte, node: Node, p: Path)
    requires nodes.Keys == views.Keys && up in nodes && Snoc(up, b) !in nodes
    requires p in nodes && Linked(nodes, views, table, p)
    ensures Linked(nodes[Snoc(up, b) := node], GrownViews(nodes, views, up, b, node), table, p)
  {
  }

  lemma GrowKeepsTree(nodes: Nodes, views: Views, table: Table, up: Path, b: byte, node: Node)
    requires Tree(nodes, views, table) && PrunedBut(views, up)
    requires up in nodes && b !in views[up].kids
    ensures Snoc(up, b) !in nodes
    ensures Tree(nodes[Snoc(up, b) := node], GrownViews(nodes, views, up, b, node), table)
    ensures PrunedBut(GrownViews(nodes, views, up, b, node), Snoc(up, b))
  {
    hide Linked;
    var q := Snoc(up, b);
    var nodes', views' := nodes[q := node], GrownViews(nodes, views, up, b, node);
    NotLinked(nodes, views, table, up, b);
    forall p | p in nodes ensures Linked(nodes', views', table, p) {
      GrowKeepsLink(nodes, views, table, up, b, node, p);
    }
    GrownLink(nodes, views, table, up, b, node);
  }

  /** Below a missing branch there is no node. */
  lemma NotLinked(nodes: Nodes, views: Views, table: Table, up: Path, b: byte)
    requires Tree(nodes, views, table) && up in nodes && b !in views[up].kids
    ensures Snoc(up, b) !in nodes
  {
    assert Snoc(up, b) in nodes ==> Linked(nodes, views, table, Snoc(up, b));
  }

  lemma GrownLink(nodes: Nodes, views: Views, table: Table, up: Path, b: byte, node: Node)
    requires nodes.Keys == views.Keys && up in nodes && Snoc(up, b) !in nodes
    ensures Linked(nodes[Snoc(up, b) := node], GrownViews(nodes, views, up, b, node), table, Snoc(up, b))
  {
    var q := Snoc(up, b);
    assert q != up && b in GrownViews(nodes, views, up, b, node)[up].kids;
  }

  ghost function StoredViews(views: Views, p: Path, s: Slot, v: Value): Views
    requires p in views
  {
    views[p := views[p].(slots := views[p].slots[s := v])]
  }

  lemma StoreKeepsLink(nodes: Nodes, views: Views, table: Table, p: Path, s: Slot, v: Value, q: Path)
    requires q in nodes && nodes.Keys == views.Keys && Linked(nodes, views, table, q)
    requires p in nodes && s.Valid()
    ensures Linked(nodes, StoredViews(views, p, s, v), table[Route(p, s) := v], q)
  {
    hide Slot.Valid;
  }

  lemma StoreKeepsTree(nodes: Nodes, views: Views, table: Table, p: Path, s: Slot, v: Value)
    requires Tree(nodes, views, table) && PrunedBut(views, p)
    requires p in nodes && s.Valid()
    ensures Tree(nodes, StoredViews(views, p, s, v), table[Route(p, s) := v])
    ensures PrunedBut(StoredViews(views, p, s, v), Root)
  {
    hide Slot.Valid, Linked;
    assert s in StoredViews(views, p, s, v)[p].slots;
    forall q | q in nodes ensures Linked(nodes, StoredViews(views, p, s, v), table[Route(p, s) := v], q) {
      StoreKeepsLink(nodes, views, table, p, s, v, q);
    }
  }

  ghost function ErasedViews(views: Views, p: Path, s: Slot): Views
    requires p in views
  {
    views[p := views[p].(slots := views[p].slots - {s})]
  }

  lemma EraseKeepsLink(nodes: Nodes, views: Views, table: Table, p: Path, s: Slot, q: Path)
    requires q in nodes && nodes.Keys == views.Keys && Linked(nodes, views, table, q)
    requires p in nodes
    ensures Linked(nodes, ErasedViews(views, p, s), table - {Route(p, s)}, q)
  {
    hide Slot.Valid;
  }

  lemma EraseKeepsTree(nodes: Nodes, views: Views, table: Table, p: Path, s: Slot)
    requires Tree(nodes, views, table) && PrunedBut(views, Root)
    requires p in nodes
    ensures Tree(nodes, ErasedViews(views, p, s), table - {Route(p, s)})
    ensures PrunedBut(ErasedViews(views, p, s), p)
  {
    hide Slot.Valid, Linked;
    forall q | q in nodes ensures Linked(nodes, ErasedViews(views, p, s), table - {Route(p, s)}, q) {
      EraseKeepsLink(nodes, views, table, p, s, q);
    }
  }

  ghost function ShrunkViews(views: Views, q: Path): Views
    requires q.Snoc? && q.up in views
  {
    (views - {q})[q.up := views[q.up].(kids := views[q.up].kids - {q.v})]
  }

  lemma ShrinkKeepsTree(nodes: Nodes, views: Views, table: Table, q: Path)
    requires Tree(nodes, views, table) && PrunedBut(views, q)
    requires q in nodes && q.Snoc? && views[q].slots == map[] && views[q].kids == map[]
    ensures q.up in nodes && views[q].parent == nodes[q.up] && views[q].childId == q.v && q.v in views[q.up].kids
    ensures Tree(nodes - {q}, ShrunkViews(views, q), table)
    ensures PrunedBut(ShrunkViews(views, q), q.up)
  {
    assert Linked(nodes, views, table, q);
    var nodes', views' := nodes - {q}, ShrunkViews(views, q);
    forall p | p in nodes' ensures Linked(nodes', views', table, p) {
      assert Linked(nodes, views, table, p);
    }
  }

  class Trie {
    const root: Node
    const keyWidth: nat
    const autoShrink: bool
    ghost var nodes: Nodes
    ghost var views: Views
    ghost var table: Table

    /** What the trie stores: bit strings and their values. */
    ghost function Contents(): map<seq<bool>, Value>
      reads this
    {
      Denotes(table)
    }

    /** The node at p is valid and looks as recorded in views. */
    ghost predicate SeenAt(p: Path)
      requires p in nodes && p in views
      reads this, nodes[p]
    {
      nodes[p].path == p && nodes[p].Valid() && nodes[p].View() == views[p]
    }

    ghost predicate Seen()
      reads this, nodes.Values
    {
      nodes.Keys == views.Keys && forall p {:trigger SeenAt(p)} :: p in nodes ==> SeenAt(p)
    }

    ghost predicate Valid()
      reads this, nodes.Values
    {
      && Seen() && Tree(nodes, views, table) && PrunedBut(views, Root)
      && nodes[Root] == root
    }

    constructor (keyWidth: nat, autoShrink: bool)
      ensures Valid() && fresh(nodes.Values)
      ensures this.keyWidth == keyWidth && this.autoShrink == autoShrink
      ensures table == map[]
    {
      this.keyWidth, this.autoShrink := keyWidth, autoShrink;
      var n := new Node(Root, null, 0);
      root := n;
      nodes := map[Root := n];
      table := map[];
      views := map[Root := NodeView(Root, null, 0, map[], map[])];
    }

    /** Allocates the child of current for byte b and links it in both directions. */
    method Grow(current: Node, b: byte) returns (node: Node)
      requires Seen() && Tree(nodes, views, table)
      requires current.path in nodes && nodes[current.path] == current
      requires PrunedBut(views, current.path)
      requires b !in current.kids
      modifies this`nodes, this`views, current`branches, current`kids
      ensures Seen() && Tree(nodes, views, table)
      ensures fresh(node) && PrunedBut(views, Snoc(current.path, b))
      ensures node.path == Snoc(current.path, b)
      ensures nodes == old(nodes)[Snoc(current.path, b) := node]
    {
      hide Node.Valid, Linked;
      ghost var path, q := current.path, Snoc(current.path, b);
      assert SeenAt(path);
      node := new Node(q, current, b);
      current.SetNextNode(b, node);
      GrowKeepsTree(nodes, views, table, path, b, node);
      views := GrownViews(nodes, views, path, b, node);
      nodes := nodes[q := node];
      forall p | p in nodes
        ensures SeenAt(p)
      {
        if p != q { assert old(SeenAt(p)); }
      }
    }

    lemma PathOfRoot(s: seq<byte>)
      ensures PathOf(s[..0]) == Root
    {
    }

    /** Following an existing branch. */
    lemma Step(p: Path, b: byte)
      requires Seen() && Tree(nodes, views, table) && PrunedBut(views, p)
      requires p in nodes && b in nodes[p].kids
      ensures Snoc(p, b) in nodes && nodes[Snoc(p, b)] == nodes[p].kids[b]
      ensures nodes[p].kids[b].path == Snoc(p, b)
      ensures PrunedBut(views, Snoc(p, b))
    {
      assert SeenAt(p) && Linked(nodes, views, table, p);
      assert SeenAt(Snoc(p, b));
    }

    /** insert_prefix on the node the walk ended at. */
    method Store(current: Node, slot: Slot, value: Value)
      requires Seen() && Tree(nodes, views, table)
      requires current.path in nodes && nodes[current.path] == current
      requires PrunedBut(views, current.path) && slot.Valid()
      modifies this`views, this`table, current`prefixes, current`slots
      ensures Seen() && Tree(nodes, views, table) && PrunedBut(views, Root)
      ensures table == old(table)[Route(current.path, slot) := value]
    {
      hide Node.Valid, Linked, PrunedBut;
      ghost var p := current.path;
      assert SeenAt(p);
      var _ := current.InsertPrefix(slot, value);
      StoreKeepsTree(nodes, views, table, p, slot, value);
      views := StoredViews(views, p, slot, value);
      table := table[Route(p, slot) := value];
      forall q | q in nodes
        ensures SeenAt(q)
      {
        assert old(SeenAt(q));
      }
    }

    lemma AtRoot()
      requires Valid()
      ensures Root in nodes && root.path == Root
    {
      assert SeenAt(Root);
    }

    /** The child of current for byte b, allocated when it is not there yet. */
    method NextOrNew(current: Node, b: byte) returns (node: Node)
      requires Seen() && Tree(nodes, views, table) && PrunedBut(views, current.path)
      requires current.path in nodes && nodes[current.path] == current
      modifies this`nodes, this`views, current`branches, current`kids
      ensures Seen() && Tree(nodes, views, table) && PrunedBut(views, node.path)
      ensures node.path == Snoc(current.path, b)
      ensures node.path in nodes && nodes[node.path] == node
      ensures nodes == old(nodes) || (fresh(node) && nodes == old(nodes)[node.path := node])
    {
      hide Node.Valid, Linked, PrunedBut;
      assert SeenAt(current.path);
      var next := current.GetNextNode(b);
      if next == null {
        node := Grow(current, b);
      } else {
        Step(current.path, b);
        node := next;
      }
    }

    method Insert(prefix: seq<byte>, prefixLength: nat, value: Value)
      requires Valid() && prefixLength <= 8 * |prefix|
      modifies this, nodes.Values
      ensures Valid() && fresh(nodes.Values - old(nodes.Values))
      ensures Contents() == old(Contents())[PrefixBits(prefix, prefixLength) := value]
    {
      hide Node.Valid, Linked, PrunedBut, Tree, Seen, Slot.Valid, Denotes, RouteBits, PrefixBits, PathOf;
      AtRoot();
      PathOfRoot(prefix);
      var current: Node, i, rest := root, 0, prefixLength;
      while rest >= 8
        invariant rest == prefixLength - 8 * i && 8 * i <= prefixLength
        invariant Seen() && Tree(nodes, views, table) && PrunedBut(views, current.path)
        invariant Root in nodes && nodes[Root] == root
        invariant current.path == PathOf(prefix[..i])
        invariant current.path in nodes && nodes[current.path] == current
        invariant fresh(nodes.Values - old(nodes.Values))
        invariant table == old(table)
      {
        PathOfStep(prefix, i);
        current := NextOrNew(current, prefix[i]);
        i := i + 1;
        rest := rest - 8;
      }
      var c := PeekByte(prefix, i);
      SlotIsValid(c, rest);
      Store(current, Slot(rest, Shr(c, 8 - rest)), value);
      InsertDenotes(old(table), prefix, prefixLength, value);
    }

    /** Below a missing branch there is nothing. */
    lemma NoStep(p: Path, b: byte)
      requires Seen() && Tree(nodes, views, table)
      requires p in nodes && b !in nodes[p].kids
      ensures Snoc(p, b) !in nodes
    {
      assert SeenAt(p);
      assert Snoc(p, b) in nodes ==> Linked(nodes, views, table, Snoc(p, b));
    }

    lemma {:induction false} AncestorsExist(s: seq<byte>, i: nat, j: nat)
      requires Seen() && Tree(nodes, views, table)
      requires i <= j <= |s| && PathOf(s[..j]) in nodes
      ensures PathOf(s[..i]) in nodes
      decreases j
    {
      if i < j {
        PathOfStep(s, j - 1);
        assert Linked(nodes, views, table, PathOf(s[..j]));
        AncestorsExist(s, i, j - 1);
      }
    }

    /** The table is what the nodes hold. */
    lemma TableAt(p: Path, s: Slot)
      requires Seen() && Tree(nodes, views, table)
      ensures Route(p, s) in table <==> p in nodes && s in nodes[p].slots
      ensures Route(p, s) in table ==> table[Route(p, s)] == nodes[p].slots[s]
    {
      if p in nodes { assert SeenAt(p) && Linked(nodes, views, table, p); }
    }

    /** The descent shared by retrieve_value and delete. */
    method Walk(prefix: seq<byte>, prefixLength: nat) returns (current: Node?, rest: nat, i: nat)
      requires Valid() && prefixLength <= 8 * |prefix|
      ensures current == null ==> PathOf(prefix[..prefixLength / 8]) !in nodes
      ensures current != null ==> i == prefixLength / 8 && rest == prefixLength % 8
      ensures current != null ==> current.path == PathOf(prefix[..i])
      ensures current != null ==> current.path in nodes && nodes[current.path] == current && current.Valid()
    {
      hide Node.Valid, Linked, PrunedBut, Tree, Seen;
      AtRoot();
      var at: Node := root;
      i, rest := 0, prefixLength;
      while rest >= 8
        invariant rest == prefixLength - 8 * i && 8 * i <= prefixLength
        invariant at.path == PathOf(prefix[..i])
        invariant at.path in nodes && nodes[at.path] == at
      {
        ValidAt(at.path);
        var next := at.GetNextNode(prefix[i]);
        PathOfStep(prefix, i);
        if next == null {
          NoStep(at.path, prefix[i]);
          if PathOf(prefix[..prefixLength / 8]) in nodes { AncestorsExist(prefix, i + 1, prefixLength / 8); }
          return null, rest, i;
        }
        StepTo(at.path, prefix[i]);
        i := i + 1;
        rest := rest - 8;
        at := next;
      }
      ValidAt(at.path);
      current := at;
    }

    lemma ValidAt(p: Path)
      requires Seen() && p in nodes
      ensures nodes[p].Valid() && nodes[p].path == p
    {
      assert SeenAt(p);
    }

    lemma StepTo(p: Path, b: byte)
      requires Seen() && Tree(nodes, views, table)
      requires p in nodes && b in nodes[p].kids
      ensures Snoc(p, b) in nodes && nodes[Snoc(p, b)] == nodes[p].kids[b]
      ensures nodes[p].kids[b].path == Snoc(p, b)
    {
      assert SeenAt(p) && Linked(nodes, views, table, p);
      assert SeenAt(Snoc(p, b));
    }

    method RetrieveValue(prefix: seq<byte>, prefixLength: nat) returns (found: bool, value: Value)
      requires Valid() && prefixLength <= 8 * |prefix|
      ensures found <==> PrefixBits(prefix, prefixLength) in Contents()
      ensures found ==> value == Contents()[PrefixBits(prefix, prefixLength)]
    {
      hide Node.Valid, Linked, PrunedBut, Tree, Seen;
      var current, rest, i := Walk(prefix, prefixLength);
      ghost var r := RouteOf(prefix, prefixLength);
      TableAt(r.path, r.slot);
      RouteOfBits(prefix, prefixLength);
      DenotesMember(table, r);
      if current == null { return false, 0; }
      var c := PeekByte(prefix, i);
      SlotIsValid(c, rest);
      found, value := current.GetPrefix(Slot(rest, Shr(c, 8 - rest)));
    }

    method HasPrefix(prefix: seq<byte>, prefixLength: nat) returns (found: bool)
      requires Valid() && prefixLength <= 8 * |prefix|
      ensures found <==> PrefixBits(prefix, prefixLength) in Contents()
    {
      var value;
      found, value := RetrieveValue(prefix, prefixLength);
    }

    /** delete_prefix on the node the walk ended at. */
    method Erase(current: Node, slot: Slot)
      requires Seen() && Tree(nodes, views, table)
      requires current.path in nodes && nodes[current.path] == current
      requires PrunedBut(views, Root) && slot.Valid() && slot in current.slots
      modifies this`views, this`table, current`prefixes, current`slots
      ensures Seen() && Tree(nodes, views, table) && PrunedBut(views, current.path)
      ensures table == old(table) - {Route(current.path, slot)}
    {
      hide Node.Valid, Linked, PrunedBut;
      ghost var p := current.path;
      assert SeenAt(p);
      var removed := current.DeletePrefix(slot);
      assert removed == 1;
      EraseKeepsTree(nodes, views, table, p, slot);
      views := ErasedViews(views, p, slot);
      table := table - {Route(p, slot)};
      forall q | q in nodes
        ensures SeenAt(q)
      {
        assert old(SeenAt(q));
      }
    }

    /** One turn of the pruning loop: unlinks the empty node current and returns its parent. */
    method Unlink(current: Node) returns (up: Node)
      requires Seen() && Tree(nodes, views, table) && PrunedBut(views, current.path)
      requires current.path in nodes && nodes[current.path] == current
      requires current.slots == map[] && current.kids == map[]
      requires current.parent != null && current.path.Snoc?
      requires current.parent in nodes.Values
      modifies this`nodes, this`views, current.parent`branches, current.parent`kids
      ensures Seen() && Tree(nodes, views, table) && PrunedBut(views, up.path)
      ensures up == current.parent && up.path == current.path.up
      ensures up.path in nodes && nodes[up.path] == up
      ensures nodes == old(nodes) - {current.path}
    {
      hide Node.Valid, Linked, PrunedBut;
      ghost var q := current.path;
      assert SeenAt(q);
      ShrinkKeepsTree(nodes, views, table, q);
      assert SeenAt(q.up);
      up := current.parent;
      var removed := up.DeleteBranch(current.childId);
      assert removed == 1;
      views := ShrunkViews(views, q);
      nodes := nodes - {q};
      forall p | p in nodes
        ensures SeenAt(p)
      {
        assert old(SeenAt(p));
      }
    }

    /** The upward loop of delete: frees empty nodes until one is not, or the root is reached. */
    method Prune(start: Node)
      requires Seen() && Tree(nodes, views, table) && PrunedBut(views, start.path)
      requires Root in nodes && nodes[Root] == root
      requires start.path in nodes && nodes[start.path] == start
      modifies this`nodes, this`views, nodes.Values
      ensures Valid()
      ensures nodes.Keys <= old(nodes.Keys) && nodes.Values <= old(nodes.Values)
    {
      hide Node.Valid, Linked, PrunedBut, Tree, Seen;
      var current: Node? := start;
      while |current.prefixes| == 0 && |current.branches| == 0
        invariant current != null
        invariant Seen() && Tree(nodes, views, table) && PrunedBut(views, current.path)
        invariant Root in nodes && nodes[Root] == root
        invariant current.path in nodes && nodes[current.path] == current
        invariant nodes.Keys <= old(nodes.Keys) && nodes.Values <= old(nodes.Values)
        decreases current.path
      {
        ValidAt(current.path);
        current.EmptyVectors();
        ParentOf(current.path);
        if current.parent == null { break; }
        current := Unlink(current);
      }
      ValidAt(current.path);
      current.EmptyVectors();
      NowPruned(current.path);
    }

    lemma ParentOf(p: Path)
      requires Seen() && Tree(nodes, views, table) && p in nodes
      ensures nodes[p].parent == null <==> p == Root
      ensures p.Snoc? ==> p.up in nodes && nodes[p].parent == nodes[p.up]
    {
      assert SeenAt(p) && Linked(nodes, views, table, p);
    }

    lemma NowPruned(p: Path)
      requires Seen() && p in nodes && PrunedBut(views, p)
      requires p == Root || nodes[p].slots != map[] || nodes[p].kids != map[]
      ensures PrunedBut(views, Root)
    {
      assert SeenAt(p);
    }

    method Delete(prefix: seq<byte>, prefixLength: nat) returns (ok: bool)
      requires Valid() && prefixLength <= 8 * |prefix|
      modifies this, nodes.Values
      ensures Valid() && nodes.Values <= old(nodes.Values)
      ensures ok <==> PrefixBits(prefix, prefixLength) in old(Contents())
      ensures Contents() ==
        if autoShrink then old(Contents()) - {PrefixBits(prefix, prefixLength)} else old(Contents())
      ensures !autoShrink ==> nodes == old(nodes) && views == old(views)
    {
      hide Node.Valid, Linked, PrunedBut, Tree, Seen, Slot.Valid, Denotes, RouteBits, PrefixBits, PathOf;
      ghost var r := RouteOf(prefix, prefixLength);
      AtRoot();
      RemoveDenotes(table, prefix, prefixLength);
      TableAt(r.path, r.slot);
      var current, rest, i := Walk(prefix, prefixLength);
      if current == null { return false; }
      var c := PeekByte(prefix, i);
      SlotIsValid(c, rest);
      var slot := Slot(rest, Shr(c, 8 - rest));
      var present, _ := current.GetPrefix(slot);
      if !present { return false; }
      if autoShrink {
        Erase(current, slot);
        Prune(current);
      }
      return true;
    }

    /** Once a node of the key's path is missing, no deeper route can match. */
    lemma NothingDeeper(key: seq<byte>, n: nat, found: bool, value: Value, best: Route)
      requires Seen() && Tree(nodes, views, table)
      requires n <= keyWidth <= |key| && PathOf(key[..n]) !in nodes
      requires BestAbove(table, key, keyWidth, n, found, value, best)
      ensures BestAbove(table, key, keyWidth, keyWidth + 1, found, value, best)
    {
      forall r | r in table && Matches(r, key, keyWidth) ensures Depth(r.path) < n {
        if Depth(r.path) >= n { AncestorsExist(key, n, Depth(r.path)); }
      }
    }

    /** Before the first node nothing has been found. */
    lemma PathOfNothing(key: seq<byte>)
      requires keyWidth <= |key|
      ensures PathOf(key[..0]) == Root
      ensures BestAbove(table, key, keyWidth, 0, false, 0, Route(Root, Slot(0, 0)))
    {
    }

    /** What the scan of the node at depth n contributes. */
    lemma AfterScan(node: Node, key: seq<byte>, n: nat, found: bool, value: Value, best: Route,
                    hit: bool, slot: Slot)
      requires Seen() && Tree(nodes, views, table)
      requires n <= keyWidth <= |key| && BestAbove(table, key, keyWidth, n, found, value, best)
      requires node.path == PathOf(key[..n]) && node.path in nodes && nodes[node.path] == node
      requires hit ==> slot in node.slots && Matches(Route(node.path, slot), key, keyWidth)
      requires hit ==> forall s :: s in node.slots && Matches(Route(node.path, s), key, keyWidth) ==> s.len <= slot.len
      requires !hit ==> forall s :: s in node.slots ==> !Matches(Route(node.path, s), key, keyWidth)
      ensures hit ==> BestAbove(table, key, keyWidth, n + 1, true, node.slots[slot], Route(node.path, slot))
      ensures !hit ==> BestAbove(table, key, keyWidth, n + 1, found, value, best)
    {
      forall s ensures Route(node.path, s) in table <==> s in node.slots
               ensures s in node.slots ==> table[Route(node.path, s)] == node.slots[s] {
        TableAt(node.path, s);
      }
      if hit {
        DeeperHitIsBetter(table, key, keyWidth, n, found, value, best, slot);
      } else {
        NoHitKeepsBest(table, key, keyWidth, n, found, value, best);
      }
    }

    method Lookup(key: seq<byte>) returns (found: bool, value: Value)
      requires Valid() && keyWidth <= |key|
      ensures IsAnswer(Contents(), BytesBits(key[..keyWidth]), found, value)
    {
      hide Node.Valid, Linked, PrunedBut, Tree, Seen, BestAbove, Matches, PathOf, Slot.StartsByte, IsAnswer;
      AtRoot();
      PathOfNothing(key);
      var current: Node?, i, width := root, 0, keyWidth;
      found, value := false, 0;
      ghost var best, n := Route(Root, Slot(0, 0)), 0;
      while current != null
        invariant i + width == keyWidth && n == (if current == null then keyWidth + 1 else i)
        invariant BestAbove(table, key, keyWidth, n, found, value, best)
        invariant current != null ==>
          current.path == PathOf(key[..i]) && current.path in nodes && nodes[current.path] == current
        decreases width, current
      {
        ValidAt(current.path);
        MatchesAt(key, keyWidth, i);
        if width == 0 {
          var hit, v := current.GetEmptyPrefix();
          AfterScan(current, key, i, found, value, best, hit, Slot(0, 0));
          if hit { found, value, best := true, v, Route(current.path, Slot(0, 0)); }
          n := keyWidth + 1;
          break;
        }
        var hit, v, slot := current.ScanPrefixes(key[i]);
        AfterScan(current, key, i, found, value, best, hit, slot);
        if hit { found, value, best := true, v, Route(current.path, slot); }
        var next := current.GetNextNode(key[i]);
        PathOfStep(key, i);
        if next == null {
          NoStep(current.path, key[i]);
          NothingDeeper(key, i + 1, found, value, best);
          n := keyWidth + 1;
        } else {
          StepTo(current.path, key[i]);
          n := i + 1;
        }
        current := next;
        i := i + 1;
        width := width - 1;
      }
      BestIsLongestMatch(table, key, keyWidth, found, value, best);
    }

    /** The sizes of both vectors fit their int16 fields in every reachable state. */
    lemma VectorsFit(p: Path)
      requires Valid() && p in nodes
      ensures |nodes[p].branches| <= 256 && |nodes[p].prefixes| <= 255
    {
      assert SeenAt(p);
      BranchCount(nodes[p].branches);
      PrefixCount(nodes[p].prefixes);
    }

    /** No node outlives the prefixes stored under it, and every stored prefix has its node. */
    lemma NodesAreThePathsInUse(p: Path)
      requires Valid()
      ensures p in nodes <==> p == Root || exists r :: r in table && IsAbove(p, r.path)
    {
      if p in nodes && p != Root {
        var r := SomeRouteBelow(p);
      }
      if exists r :: r in table && IsAbove(p, r.path) {
        var r :| r in table && IsAbove(p, r.path);
        AboveExists(p, r.path);
      }
    }

    lemma {:induction false} AboveExists(p: Path, q: Path)
      requires Valid() && q in nodes && IsAbove(p, q)
      ensures p in nodes
    {
      if p != q {
        assert Linked(nodes, views, table, q);
        AboveExists(p, q.up);
      }
    }

    ghost function Deeper(p: Path): set<Path>
      reads this
    {
      set q | q in nodes && Depth(q) > Depth(p)
    }

    lemma {:induction false} SomeRouteBelow(p: Path) returns (r: Route)
      requires Valid() && p in nodes && p != Root
      ensures r in table && IsAbove(p, r.path)
      decreases Deeper(p)
    {
      assert Linked(nodes, views, table, p);
      if views[p].slots != map[] {
        var s :| s in views[p].slots;
        r := Route(p, s);
      } else {
        var v :| v in views[p].kids;
        var q := Snoc(p, v);
        assert q in Deeper(p) && q !in Deeper(q);
        r := SomeRouteBelow(q);
        AboveStep(p, v, r.path);
      }
    }
  }
}
