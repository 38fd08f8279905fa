/** Whole runs of a longest-prefix-match trie: what is stored after any sequence of inserts and
    deletes, and what a lookup then answers. */
module TrieRuns {
  import opened Bits
  import opened TrieNode
  import opened RouteTable
  import opened LpmTrie

  datatype Command =
    | Insert(prefix: seq<byte>, length: nat, value: Value)
    | Delete(prefix: seq<byte>, length: nat)
  {
    predicate WellFormed() { length <= 8 * |prefix| }

    function Bits(): seq<bool>
      requires WellFormed()
    {
      PrefixBits(prefix, length)
    }
  }

  type Commands = s: seq<Command> | forall i :: 0 <= i < |s| ==> s[i].WellFormed()

  /** The last command about bit string b counts. */
  ghost predicate IsStored(cmds: Commands, b: seq<bool>, v: Value) {
    exists i ::
      0 <= i < |cmds| && cmds[i].Insert? && cmds[i].Bits() == b && cmds[i].value == v &&
      forall j :: i < j < |cmds| ==> cmds[j].Bits() != b
  }

  /** The contents are what the last commands about each bit string say. */
  ghost predicate Stores(m: map<seq<bool>, Value>, cmds: Commands) {
    forall b, v :: (b in m && m[b] == v) <==> IsStored(cmds, b, v)
  }

  lemma StoresNext(m: map<seq<bool>, Value>, cmds: Commands, c: Command)
    requires Stores(m, cmds) && c.WellFormed()
    ensures
      var longer: Commands := cmds + [c];
      Stores(if c.Insert? then m[c.Bits() := c.value] else m - {c.Bits()}, longer)
  {
    hide Stores, IsStored, PrefixBits;
    var longer: Commands := cmds + [c];
    var next := if c.Insert? then m[c.Bits() := c.value] else m - {c.Bits()};
    forall b, v ensures (b in next && next[b] == v) <==> IsStored(longer, b, v) {
      StoredNext(cmds, c, b, v);
      StoresAt(m, cmds, b, v);
    }
    AllStores(next, longer);
  }

  lemma StoresAt(m: map<seq<bool>, Value>, cmds: Commands, b: seq<bool>, v: Value)
    requires Stores(m, cmds)
    ensures (b in m && m[b] == v) <==> IsStored(cmds, b, v)
  {
  }

  lemma AllStores(m: map<seq<bool>, Value>, cmds: Commands)
    requires forall b, v :: (b in m && m[b] == v) <==> IsStored(cmds, b, v)
    ensures Stores(m, cmds)
  {
  }

  lemma StoredNext(cmds: Commands, c: Command, b: seq<bool>, v: Value)
    requires c.WellFormed()
    ensures
      var longer: Commands := cmds + [c];
      IsStored(longer, b, v) <==>
        if c.Bits() == b then c.Insert? && c.value == v else IsStored(cmds, b, v)
  {
    hide PrefixBits;
    var longer: Commands := cmds + [c];
    var n := |cmds|;
    assert longer[n] == c;
    if c.Bits() == b {
      assert c.Insert? && c.value == v ==> longer[n].Insert? && longer[n].Bits() == b;
    } else {
      if IsStored(cmds, b, v) {
        var i :| 0 <= i < n && cmds[i].Insert? && cmds[i].Bits() == b && cmds[i].value == v &&
                 forall j :: i < j < n ==> cmds[j].Bits() != b;
        assert longer[i] == cmds[i];
        forall j | i < j < |longer| ensures longer[j].Bits() != b {
          if j < n { assert longer[j] == cmds[j]; }
        }
      }
      if IsStored(longer, b, v) {
        var i :| 0 <= i < |longer| && longer[i].Insert? && longer[i].Bits() == b && longer[i].value == v &&
                 forall j :: i < j < |longer| ==> longer[j].Bits() != b;
        assert i < n && cmds[i] == longer[i];
        forall j | i < j < n ensures cmds[j].Bits() != b { assert cmds[j] == longer[j]; }
      }
    }
  }

  /** A trie that shrinks, after any run of inserts and deletes from empty. */
  method Run(keyWidth: nat, cmds: Commands) returns (trie: Trie)
    ensures trie.Valid() && trie.keyWidth == keyWidth
    ensures Stores(trie.Contents(), cmds)
  {
    hide Stores, PrefixBits, Trie.Contents, Trie.Valid;
    trie := new Trie(keyWidth, true);
    NothingStored(trie);
    for i := 0 to |cmds|
      invariant trie.Valid() && trie.keyWidth == keyWidth && trie.autoShrink
      invariant fresh(trie) && fresh(trie.nodes.Values)
      invariant Stores(trie.Contents(), cmds[..i])
    {
      var c := cmds[i];
      StoresNext(trie.Contents(), cmds[..i], c);
      assert cmds[..i + 1] == cmds[..i] + [c];
      match c {
        case Insert(prefix, length, value) => trie.Insert(prefix, length, value);
        case Delete(prefix, length) => var ok := trie.Delete(prefix, length);
      }
    }
    assert cmds[..|cmds|] == cmds;
  }

  lemma NothingStored(trie: Trie)
    requires trie.table == map[]
    ensures forall cmds: Commands :: |cmds| == 0 ==> Stores(trie.Contents(), cmds)
  {
  }

  /** The longest bit string that starts the key among those whose last command is an insert,
      with the value of that insert. */
  ghost predicate Answers(cmds: Commands, key: seq<bool>, found: bool, value: Value) {
    if found then
      exists b ::
        b <= key && IsStored(cmds, b, value) &&
        forall c, v :: c <= key && IsStored(cmds, c, v) ==> |c| <= |b|
    else
      forall c, v :: IsStored(cmds, c, v) ==> !(c <= key)
  }

  /** Over every run a lookup of a key of the full width answers the longest match. */
  method RunThenLookup(keyWidth: nat, cmds: Commands, key: seq<byte>) returns (found: bool, value: Value)
    requires |key| == keyWidth
    ensures Answers(cmds, BytesBits(key), found, value)
  {
    hide Stores, IsStored, IsAnswer, Answers, BytesBits;
    var trie := Run(keyWidth, cmds);
    found, value := trie.Lookup(key);
    assert key[..keyWidth] == key;
    AnswerOfRun(trie.Contents(), cmds, BytesBits(key), found, value);
  }

  lemma AnswerOfRun(m: map<seq<bool>, Value>, cmds: Commands, key: seq<bool>, found: bool, value: Value)
    requires Stores(m, cmds) && IsAnswer(m, key, found, value)
    ensures Answers(cmds, key, found, value)
  {
    hide IsStored;
    if found {
      var b :| IsLongestMatch(m, key, b) && value == m[b];
      assert IsStored(cmds, b, value);
    }
  }
}
