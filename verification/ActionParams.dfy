/** The parameters of an action: a tree of parameters, vectors and field lists is built call by
    call into two flat vectors, which the calls that open and close a slice swap. */
module ActionParams {
  import opened Common

  datatype Kind = ParamsVector | FieldList

  /** One element of the flat encoding. A string parameter points into the vector of strings as
      it was when that vector had epoch elements: every later push may move the strings. */
  datatype Param =
    | Plain(tag: nat, value: int)
    | Expression(register: nat, e: int)
    | Str(epoch: nat, index: nat)
    | Slice(kind: Kind, start: nat, end: nat)

  /** What the caller pushes. A plain item is any parameter that is stored by value. */
  datatype Item =
    | Simple(tag: nat, value: int)
    | Value(e: int)
    | Text(s: string)

  datatype Call = Push(item: Item) | Start(kind: Kind) | End(kind: Kind)

  datatype Flat = Flat(params: seq<Param>, subParams: seq<Param>, strings: seq<string>)

  const Fresh: Flat := Flat([], [], [])

  // ----- the reference: the nested list that the calls spell out

  datatype Arg = One(item: Item) | Many(kind: Kind, items: seq<Item>)

  /** The list so far; while a slice is open, it is the last argument and receives the pushes. */
  datatype Nest = Nest(args: seq<Arg>, open: bool)

  /** The calls of a balanced, un-nested sequence. */
  ghost predicate Permitted(n: Nest, c: Call) {
    match c
    case Push(_) => n.open ==> n.args != [] && Last(n.args).Many?
    case Start(_) => !n.open
    case End(kind) => n.open && n.args != [] && Last(n.args).Many? && Last(n.args).kind == kind
  }

  function Last<T>(s: seq<T>): T
    requires s != []
  {
    s[|s| - 1]
  }

  function Front<T>(s: seq<T>): (r: seq<T>)
    requires s != []
    ensures s == r + [Last(s)]
  {
    s[..|s| - 1]
  }

  ghost function Apply(n: Nest, c: Call): Nest
    requires Permitted(n, c)
  {
    match c
    case Start(kind) => Nest(n.args + [Many(kind, [])], true)
    case End(_) => n.(open := false)
    case Push(item) =>
      if n.open then
        n.(args := Front(n.args) + [Many(Last(n.args).kind, Last(n.args).items + [item])])
      else
        n.(args := n.args + [One(item)])
  }

  /** Some string was pushed outside every slice. */
  ghost predicate TextOutside(args: seq<Arg>) {
    exists i :: 0 <= i < |args| && args[i].One? && args[i].item.Text?
  }

  /** Some string was pushed inside a slice. */
  ghost predicate TextInside(args: seq<Arg>) {
    exists i :: 0 <= i < |args| && args[i].Many? && HasText(args[i].items)
  }

  ghost predicate HasText(items: seq<Item>) {
    exists j :: 0 <= j < |items| && items[j].Text?
  }

  // ----- the encoding

  function CountStr(ps: seq<Param>): (r: nat)
    ensures r <= |ps|
  {
    if ps == [] then 0 else CountStr(Front(ps)) + if Last(ps).Str? then 1 else 0
  }

  function CountExpr(ps: seq<Param>): (r: nat)
    ensures r <= |ps|
  {
    if ps == [] then 0 else CountExpr(Front(ps)) + if Last(ps).Expression? then 1 else 0
  }

  /** Every string parameter of the current list is pointed at the next string. */
  function Repoint(ps: seq<Param>, epoch: nat): (r: seq<Param>)
    ensures |r| == |ps|
  {
    seq(|ps|, i requires 0 <= i < |ps| =>
      if ps[i].Str? then Str(epoch, CountStr(ps[..i])) else ps[i])
  }

  /** What the code asserts before it carries out a call. */
  predicate Guarded(f: Flat, c: Call) {
    match c
    case Push(item) => item.Text? ==> CountStr(f.params) == |f.strings|
    case Start(_) => true
    case End(kind) => f.subParams != [] && Last(f.subParams).Slice? && Last(f.subParams).kind == kind
  }

  function Do(f: Flat, c: Call): Flat
    requires Guarded(f, c)
  {
    match c
    case Push(Simple(tag, value)) => f.(params := f.params + [Plain(tag, value)])
    case Push(Value(e)) => f.(params := f.params + [Expression(1 + CountExpr(f.params), e)])
    case Push(Text(s)) =>
      var n := |f.strings| + 1;
      Flat(Repoint(f.params, n) + [Str(n, n - 1)], f.subParams, f.strings + [s])
    case Start(kind) =>
      Flat(f.subParams, f.params + [Slice(kind, |f.subParams|, |f.subParams|)], f.strings)
    case End(kind) =>
      Flat(Front(f.subParams) + [Last(f.subParams).(end := |f.params|)], f.params, f.strings)
  }

  // ----- reading the encoding back

  /** A string can be read through a pointer that was set after the last push of a string. */
  predicate IsItem(p: Param, strings: seq<string>) {
    !p.Slice? && (p.Str? ==> p.epoch == |strings| && p.index < |strings|)
  }

  predicate Readable(p: Param, sub: seq<Param>, strings: seq<string>) {
    IsItem(p, strings) ||
    (p.Slice? && p.start <= p.end <= |sub| && forall i :: p.start <= i < p.end ==> IsItem(sub[i], strings))
  }

  function ItemOf(p: Param, strings: seq<string>): Item
    requires IsItem(p, strings)
  {
    match p
    case Plain(tag, value) => Simple(tag, value)
    case Expression(_, e) => Value(e)
    case Str(_, index) => Text(strings[index])
  }

  function ArgOf(p: Param, sub: seq<Param>, strings: seq<string>): Arg
    requires Readable(p, sub, strings)
  {
    if p.Slice? then
      Many(p.kind, seq(p.end - p.start, i requires 0 <= i < p.end - p.start => ItemOf(sub[p.start + i], strings)))
    else
      One(ItemOf(p, strings))
  }

  ghost predicate AllReadable(ps: seq<Param>, sub: seq<Param>, strings: seq<string>) {
    forall i :: 0 <= i < |ps| ==> Readable(ps[i], sub, strings)
  }

  function Decode(ps: seq<Param>, sub: seq<Param>, strings: seq<string>): (r: seq<Arg>)
    requires AllReadable(ps, sub, strings)
    ensures |r| == |ps|
  {
    seq(|ps|, i requires 0 <= i < |ps| => ArgOf(ps[i], sub, strings))
  }

  // ----- what every call keeps

  /** The slices follow each other through the second vector without a gap. */
  function Reach(ps: seq<Param>): nat {
    if ps == [] then 0 else if Last(ps).Slice? then Last(ps).end else Reach(Front(ps))
  }

  ghost predicate Tiled(ps: seq<Param>) {
    ps == [] ||
    (Tiled(Front(ps)) && (Last(ps).Slice? ==> Reach(Front(ps)) == Last(ps).start <= Last(ps).end))
  }

  /** The k-th expression of a list, counted from 1, evaluates into temporary register k. */
  ghost predicate Numbered(ps: seq<Param>) {
    forall i :: 0 <= i < |ps| && ps[i].Expression? ==> ps[i].register == 1 + CountExpr(ps[..i])
  }

  ghost predicate Unsliced(ps: seq<Param>) {
    forall i :: 0 <= i < |ps| ==> !ps[i].Slice?
  }

  /** The k-th string parameter of the list, counted from 0, points to string k of n. */
  ghost predicate Pointed(ps: seq<Param>, n: nat) {
    forall i :: 0 <= i < |ps| && ps[i].Str? ==> ps[i] == Str(n, CountStr(ps[..i]))
  }

  ghost function Outer(f: Flat, open: bool): seq<Param> {
    if open then f.subParams else f.params
  }

  ghost function Sub(f: Flat, open: bool): seq<Param> {
    if open then f.params else f.subParams
  }

  /** The outer list as it stands once an open slice is closed. */
  ghost function Settled(f: Flat, open: bool): seq<Param> {
    if open && f.subParams != [] && Last(f.subParams).Slice? then
      Front(f.subParams) + [Last(f.subParams).(end := |f.params|)]
    else Outer(f, open)
  }

  ghost predicate OpenIsLast(f: Flat, n: Nest) {
    n.open ==>
      f.subParams != [] && Last(f.subParams).Slice? &&
      n.args != [] && Last(n.args).Many? && Last(n.args).kind == Last(f.subParams).kind
  }

  ghost predicate Layout(outer: seq<Param>, sub: seq<Param>) {
    Tiled(outer) && Reach(outer) == |sub| && Unsliced(sub)
  }

  /** All strings are in one of the two lists. */
  ghost predicate Strung(outer: seq<Param>, sub: seq<Param>, n: nat) {
    Pointed(outer, n) && Pointed(sub, n) && CountStr(outer) + CountStr(sub) == n &&
    (CountStr(outer) == 0 || CountStr(sub) == 0)
  }

  ghost predicate Spells(outer: seq<Param>, sub: seq<Param>, strings: seq<string>, args: seq<Arg>) {
    AllReadable(outer, sub, strings) && Decode(outer, sub, strings) == args
  }

  ghost predicate Encodes(f: Flat, n: Nest) {
    var outer, sub := Settled(f, n.open), Sub(f, n.open);
    OpenIsLast(f, n) && Layout(outer, sub) && Strung(outer, sub, |f.strings|) &&
    Spells(outer, sub, f.strings, n.args) && Numbered(outer) && Numbered(sub)
  }

  lemma CountStrSnoc(ps: seq<Param>, p: Param)
    ensures CountStr(ps + [p]) == CountStr(ps) + if p.Str? then 1 else 0
  {
    assert Front(ps + [p]) == ps;
  }

  lemma PointedMore(ps: seq<Param>, n: nat, p: Param)
    requires Pointed(ps, n) && (p.Str? ==> p == Str(n, CountStr(ps)))
    ensures Pointed(ps + [p], n)
  {
    hide CountStr;
    var qs := ps + [p];
    forall i | 0 <= i < |qs| && qs[i].Str? ensures qs[i] == Str(n, CountStr(qs[..i])) {
      if i < |ps| {
        assert qs[i] == ps[i] && qs[..i] == ps[..i];
      } else {
        assert qs[..i] == ps;
      }
    }
  }

  lemma StrungMore(ps: seq<Param>, other: seq<Param>, n: nat, p: Param)
    requires Strung(ps, other, n) && !p.Str?
    ensures Strung(ps + [p], other, n)
  {
    hide CountStr, Pointed;
    PointedMore(ps, n, p);
    CountStrSnoc(ps, p);
  }

  lemma StrungSwaps(ps: seq<Param>, other: seq<Param>, n: nat)
    requires Strung(ps, other, n)
    ensures Strung(other, ps, n)
  {
  }

  /** The end of a slice does not matter to the strings. */
  lemma StrungSlice(front: seq<Param>, sl: Param, other: seq<Param>, n: nat, end: nat)
    requires sl.Slice? && Strung(front + [sl], other, n)
    ensures Strung(front + [sl.(end := end)], other, n)
  {
    hide CountStr;
    var ps, qs := front + [sl], front + [sl.(end := end)];
    CountStrSnoc(front, sl);
    CountStrSnoc(front, sl.(end := end));
    forall i | 0 <= i < |qs| && qs[i].Str? ensures qs[i] == Str(n, CountStr(qs[..i])) {
      assert qs[i] == ps[i] && qs[..i] == ps[..i];
    }
  }

  lemma DecodeSnoc(ps: seq<Param>, p: Param, sub: seq<Param>, strings: seq<string>)
    requires AllReadable(ps, sub, strings) && Readable(p, sub, strings)
    ensures AllReadable(ps + [p], sub, strings)
    ensures Decode(ps + [p], sub, strings) == Decode(ps, sub, strings) + [ArgOf(p, sub, strings)]
  {
    var qs := ps + [p];
    forall i | 0 <= i < |qs| ensures Readable(qs[i], sub, strings) {
      assert qs[i] == p || (i < |ps| && qs[i] == ps[i]);
    }
    assert Decode(qs, sub, strings) == Decode(ps, sub, strings) + [ArgOf(p, sub, strings)];
  }

  /** An item at the end of the outer list. */
  lemma SnocOuter(outer: seq<Param>, sub: seq<Param>, strings: seq<string>, args: seq<Arg>, p: Param)
    requires IsItem(p, strings)
    requires Layout(outer, sub) && Spells(outer, sub, strings, args)
    ensures Layout(outer + [p], sub)
    ensures Spells(outer + [p], sub, strings, args + [One(ItemOf(p, strings))])
  {
    hide AllReadable, Decode, Unsliced, ItemOf;
    DecodeSnoc(outer, p, sub, strings);
    assert Front(outer + [p]) == outer;
  }

  lemma SnocNumbered(ps: seq<Param>, p: Param)
    requires Numbered(ps) && (p.Expression? ==> p.register == 1 + CountExpr(ps))
    ensures Numbered(ps + [p])
    ensures CountExpr(ps + [p]) == CountExpr(ps) + if p.Expression? then 1 else 0
  {
    var qs := ps + [p];
    assert Front(qs) == ps;
    forall i | 0 <= i < |qs| && qs[i].Expression? ensures qs[i].register == 1 + CountExpr(qs[..i]) {
      assert qs[..i] == ps[..i];
      assert i == |ps| ==> ps[..i] == ps;
    }
  }

  /** Changing parameters that are not expressions leaves the temporary registers alone. */
  lemma {:induction false} SameCount(ps: seq<Param>, qs: seq<Param>)
    requires |ps| == |qs|
    requires forall i :: 0 <= i < |ps| ==> ps[i].Expression? == qs[i].Expression?
    ensures CountExpr(ps) == CountExpr(qs)
  {
    if ps != [] {
      assert ps[|ps| - 1] == Last(ps) && qs[|ps| - 1] == Last(qs);
      SameCount(Front(ps), Front(qs));
    }
  }

  lemma SameExpressions(ps: seq<Param>, qs: seq<Param>)
    requires |ps| == |qs| && Numbered(ps)
    requires forall i :: 0 <= i < |ps| ==> ps[i] == qs[i] || (!ps[i].Expression? && !qs[i].Expression?)
    ensures Numbered(qs) && CountExpr(ps) == CountExpr(qs)
  {
    SameCount(ps, qs);
    forall i | 0 <= i < |qs| && qs[i].Expression? ensures qs[i].register == 1 + CountExpr(qs[..i]) {
      SameCount(ps[..i], qs[..i]);
    }
  }

  /** Changing the ends of slices, or what strings point to, leaves the number of strings alone. */
  lemma {:induction false} SameStrings(ps: seq<Param>, qs: seq<Param>)
    requires |ps| == |qs|
    requires forall i :: 0 <= i < |ps| ==> ps[i].Str? == qs[i].Str?
    ensures CountStr(ps) == CountStr(qs)
  {
    if ps != [] {
      assert ps[|ps| - 1] == Last(ps) && qs[|ps| - 1] == Last(qs);
      SameStrings(Front(ps), Front(qs));
    }
  }

  /** Changing what strings point to leaves the slices alone. */
  lemma {:induction false} SameSlices(ps: seq<Param>, qs: seq<Param>)
    requires |ps| == |qs|
    requires forall i :: 0 <= i < |ps| ==> ps[i] == qs[i] || (!ps[i].Slice? && !qs[i].Slice?)
    ensures Reach(ps) == Reach(qs) && (Tiled(ps) ==> Tiled(qs))
  {
    if ps != [] {
      assert ps[|ps| - 1] == Last(ps) && qs[|ps| - 1] == Last(qs);
      SameSlices(Front(ps), Front(qs));
    }
  }

  lemma {:induction false} CountStrMonotone(ps: seq<Param>, i: nat)
    requires i < |ps| && ps[i].Str?
    ensures CountStr(ps[..i]) < CountStr(ps)
  {
    if i < |ps| - 1 {
      CountStrMonotone(Front(ps), i);
      assert Front(ps)[..i] == ps[..i];
    } else {
      assert Front(ps) == ps[..i];
    }
  }

  lemma RepointCounts(ps: seq<Param>, n: nat, i: nat)
    requires i <= |ps|
    ensures CountStr(Repoint(ps, n)[..i]) == CountStr(ps[..i])
  {
    SameStrings(ps[..i], Repoint(ps, n)[..i]);
  }

  /** The same list after another string was pushed and its pointers were set anew. */
  ghost predicate Refreshed(ps: seq<Param>, qs: seq<Param>, epoch: nat) {
    |ps| == |qs| && forall i :: 0 <= i < |ps| ==> qs[i] == if ps[i].Str? then Str(epoch, ps[i].index) else ps[i]
  }

  lemma RepointRefreshes(ps: seq<Param>, n: nat)
    requires Pointed(ps, n)
    ensures Refreshed(ps, Repoint(ps, n + 1), n + 1)
  {
    hide CountStr;
  }

  lemma {:induction false} FindString(ps: seq<Param>) returns (i: nat)
    requires CountStr(ps) > 0
    ensures i < |ps| && ps[i].Str?
  {
    if Last(ps).Str? {
      i := |ps| - 1;
    } else {
      i := FindString(Front(ps));
      assert Front(ps)[i] == ps[i];
    }
  }

  lemma NoStrings(ps: seq<Param>)
    ensures CountStr(ps) == 0 <==> forall i :: 0 <= i < |ps| ==> !ps[i].Str?
  {
    hide CountStr;
    if i :| 0 <= i < |ps| && ps[i].Str? { CountStrMonotone(ps, i); }
    if CountStr(ps) > 0 { var i := FindString(ps); }
  }

  lemma NothingToRefresh(ps: seq<Param>, n: nat, epoch: nat)
    requires CountStr(ps) == 0
    ensures Refreshed(ps, ps, epoch) && Pointed(ps, n)
  {
    hide CountStr;
    NoStrings(ps);
  }

  lemma RefreshKeeps(ps: seq<Param>, qs: seq<Param>, epoch: nat)
    requires Refreshed(ps, qs, epoch)
    ensures CountStr(qs) == CountStr(ps) && Reach(qs) == Reach(ps)
    ensures (Tiled(ps) ==> Tiled(qs)) && (Unsliced(ps) ==> Unsliced(qs)) && (Numbered(ps) ==> Numbered(qs))
  {
    hide CountStr, CountExpr, Reach, Tiled, Numbered;
    SameStrings(ps, qs);
    SameSlices(ps, qs);
    if Numbered(ps) { SameExpressions(ps, qs); }
  }

  lemma ItemRefreshed(p: Param, q: Param, strings: seq<string>, s: string)
    requires IsItem(p, strings) && q == if p.Str? then Str(|strings| + 1, p.index) else p
    ensures IsItem(q, strings + [s]) && ItemOf(q, strings + [s]) == ItemOf(p, strings)
  {
  }

  lemma ArgRefreshed(p: Param, q: Param, sub: seq<Param>, sub1: seq<Param>, strings: seq<string>, s: string)
    requires Readable(p, sub, strings) && q == if p.Str? then Str(|strings| + 1, p.index) else p
    requires Refreshed(sub, sub1, |strings| + 1)
    ensures Readable(q, sub1, strings + [s])
    ensures ArgOf(q, sub1, strings + [s]) == ArgOf(p, sub, strings)
  {
    hide IsItem, ItemOf;
    if p.Slice? && !IsItem(p, strings) {
      forall i | p.start <= i < p.end
        ensures IsItem(sub1[i], strings + [s]) && ItemOf(sub1[i], strings + [s]) == ItemOf(sub[i], strings)
      {
        ItemRefreshed(sub[i], sub1[i], strings, s);
      }
      assert ArgOf(q, sub1, strings + [s]).items == ArgOf(p, sub, strings).items;
    } else {
      NotSlice(p, strings);
      ItemRefreshed(p, q, strings, s);
      NotSlice(q, strings + [s]);
    }
  }

  lemma NotSlice(p: Param, strings: seq<string>)
    requires IsItem(p, strings)
    ensures !p.Slice?
  {
  }

  /** Refreshed lists read the same over the longer vector of strings. */
  lemma RefreshSpells(outer: seq<Param>, outer1: seq<Param>, sub: seq<Param>, sub1: seq<Param>,
                      strings: seq<string>, s: string, args: seq<Arg>)
    requires Refreshed(outer, outer1, |strings| + 1) && Refreshed(sub, sub1, |strings| + 1)
    requires Spells(outer, sub, strings, args)
    ensures Spells(outer1, sub1, strings + [s], args)
  {
    hide Readable, ArgOf;
    forall i | 0 <= i < |outer|
      ensures Readable(outer1[i], sub1, strings + [s])
      ensures ArgOf(outer1[i], sub1, strings + [s]) == ArgOf(outer[i], sub, strings)
    {
      ArgRefreshed(outer[i], outer1[i], sub, sub1, strings, s);
    }
    assert Decode(outer1, sub1, strings + [s]) == Decode(outer, sub, strings);
  }

  /** Pushing a string on the list that has them all. */
  lemma StrungText(ps: seq<Param>, other: seq<Param>, n: nat)
    requires Strung(ps, other, n) && CountStr(ps) == n
    ensures Strung(Repoint(ps, n + 1) + [Str(n + 1, n)], other, n + 1)
    ensures Refreshed(ps, Repoint(ps, n + 1), n + 1) && Refreshed(other, other, n + 1)
  {
    hide CountStr, Repoint, Refreshed;
    var rs, p := Repoint(ps, n + 1), Str(n + 1, n);
    RepointRefreshes(ps, n);
    RefreshKeeps(ps, rs, n + 1);
    NothingToRefresh(other, n + 1, n + 1);
    RepointPoints(ps, n);
    PointedMore(rs, n + 1, p);
    CountStrSnoc(rs, p);
  }

  lemma RepointPoints(ps: seq<Param>, n: nat)
    ensures Pointed(Repoint(ps, n + 1), n + 1)
  {
    hide CountStr;
    var rs := Repoint(ps, n + 1);
    forall i | 0 <= i < |rs| && rs[i].Str? ensures rs[i] == Str(n + 1, CountStr(rs[..i])) {
      RepointCounts(ps, n + 1, i);
    }
  }

  lemma SameEnd<T>(a: seq<T>, x: T, b: seq<T>, y: T)
    requires a + [x] == b + [y]
    ensures a == b && x == y
  {
    assert a == (a + [x])[..|a|] && b == (b + [y])[..|b|];
    assert (a + [x])[|a|] == x && (b + [y])[|b|] == y;
  }

  lemma InnerLayout(front: seq<Param>, sl: Param, sub: seq<Param>, p: Param)
    requires !p.Slice?
    requires sl.Slice? && sl.end == |sub| && Layout(front + [sl], sub)
    ensures Layout(front + [sl.(end := |sub| + 1)], sub + [p])
  {
    var ps, qs := front + [sl], front + [sl.(end := |sub| + 1)];
    assert Front(ps) == front && Front(qs) == front;
  }

  /** What was readable reads the same when the second vector grows. */
  lemma LongerSub(q: Param, sub: seq<Param>, strings: seq<string>, p: Param)
    requires Readable(q, sub, strings)
    ensures Readable(q, sub + [p], strings)
    ensures ArgOf(q, sub + [p], strings) == ArgOf(q, sub, strings)
  {
    var sub1 := sub + [p];
    assert forall j :: 0 <= j < |sub| ==> sub1[j] == sub[j];
    if q.Slice? {
      assert ArgOf(q, sub1, strings).items == ArgOf(q, sub, strings).items;
    }
  }

  lemma LongerSlice(sl: Param, sub: seq<Param>, strings: seq<string>, p: Param)
    requires sl.Slice? && sl.end == |sub| && Readable(sl, sub, strings) && IsItem(p, strings)
    ensures Readable(sl.(end := |sub| + 1), sub + [p], strings)
    ensures ArgOf(sl.(end := |sub| + 1), sub + [p], strings) ==
            Many(sl.kind, ArgOf(sl, sub, strings).items + [ItemOf(p, strings)])
  {
    var s1, sub1 := sl.(end := |sub| + 1), sub + [p];
    assert forall j :: 0 <= j < |sub| ==> sub1[j] == sub[j];
    assert ArgOf(s1, sub1, strings).items == ArgOf(sl, sub, strings).items + [ItemOf(p, strings)];
  }

  /** An element at the end of the open slice. */
  lemma SnocInner(front: seq<Param>, sl: Param, sub: seq<Param>, strings: seq<string>,
                  args: seq<Arg>, items: seq<Item>, p: Param)
    requires IsItem(p, strings)
    requires sl.Slice? && sl.end == |sub|
    requires Layout(front + [sl], sub)
    requires Spells(front + [sl], sub, strings, args + [Many(sl.kind, items)])
    ensures Layout(front + [sl.(end := |sub| + 1)], sub + [p])
    ensures Spells(front + [sl.(end := |sub| + 1)], sub + [p], strings,
                   args + [Many(sl.kind, items + [ItemOf(p, strings)])])
  {
    hide Readable, IsItem, ArgOf, ItemOf, Layout;
    NotSlice(p, strings);
    InnerLayout(front, sl, sub, p);
    var x := ItemOf(p, strings);
    var s1, sub1 := sl.(end := |sub| + 1), sub + [p];
    assert (front + [sl])[|front|] == sl;
    forall i | 0 <= i < |front|
      ensures Readable(front[i], sub, strings) && Readable(front[i], sub1, strings)
      ensures ArgOf(front[i], sub1, strings) == ArgOf(front[i], sub, strings)
    {
      assert (front + [sl])[i] == front[i];
      LongerSub(front[i], sub, strings, p);
    }
    LongerSlice(sl, sub, strings, p);
    DecodeSnoc(front, sl, sub, strings);
    assert Decode(front, sub1, strings) == Decode(front, sub, strings);
    DecodeSnoc(front, s1, sub1, strings);
    SameEnd(Decode(front, sub, strings), ArgOf(sl, sub, strings), args, Many(sl.kind, items));
  }

  /** An empty slice at the end of the outer list. */
  lemma OpenSlice(outer: seq<Param>, sub: seq<Param>, strings: seq<string>, args: seq<Arg>, kind: Kind)
    requires Layout(outer, sub) && Spells(outer, sub, strings, args)
    ensures Layout(outer + [Slice(kind, |sub|, |sub|)], sub)
    ensures Spells(outer + [Slice(kind, |sub|, |sub|)], sub, strings, args + [Many(kind, [])])
  {
    hide AllReadable, Decode, Unsliced;
    var p := Slice(kind, |sub|, |sub|);
    assert ArgOf(p, sub, strings) == Many(kind, []);
    DecodeSnoc(outer, p, sub, strings);
    assert Front(outer + [p]) == outer;
  }

  function ParamOf(f: Flat, item: Item): Param
    requires !item.Text?
  {
    match item
    case Simple(tag, value) => Plain(tag, value)
    case Value(e) => Expression(1 + CountExpr(f.params), e)
  }

  /** What Encodes says while no slice is open. */
  lemma ClosedEncodes(f: Flat, n: Nest)
    requires !n.open
    ensures Encodes(f, n) <==>
      Layout(f.params, f.subParams) && Strung(f.params, f.subParams, |f.strings|) &&
      Spells(f.params, f.subParams, f.strings, n.args) && Numbered(f.params) && Numbered(f.subParams)
  {
    hide Layout, Strung, Spells, Numbered;
  }

  lemma PushOutsideKeeps(f: Flat, n: Nest, item: Item)
    requires Encodes(f, n) && !n.open && !item.Text?
    ensures Encodes(f.(params := f.params + [ParamOf(f, item)]), Apply(n, Push(item)))
  {
    hide Encodes, Layout, Strung, Spells, Numbered, CountExpr;
    var p := ParamOf(f, item);
    ClosedEncodes(f, n);
    SnocNumbered(f.params, p);
    SnocOuter(f.params, f.subParams, f.strings, n.args, p);
    StrungMore(f.params, f.subParams, |f.strings|, p);
    ClosedEncodes(f.(params := f.params + [p]), Apply(n, Push(item)));
  }

  lemma PushInsideKeeps(f: Flat, n: Nest, item: Item)
    requires Encodes(f, n) && n.open && Permitted(n, Push(item)) && !item.Text?
    ensures Encodes(f.(params := f.params + [ParamOf(f, item)]), Apply(n, Push(item)))
  {
    hide Layout, Strung, Spells, Numbered, CountExpr;
    var p := ParamOf(f, item);
    SnocNumbered(f.params, p);
    var front, sl := Front(f.subParams), Last(f.subParams).(end := |f.params|);
    SnocInner(front, sl, f.params, f.strings, Front(n.args), Last(n.args).items, p);
    StrungSlice(front, sl, f.params, |f.strings|, |f.params| + 1);
    InnerMore(front + [sl.(end := |f.params| + 1)], f.params, |f.strings|, p);
    SameExpressions(front + [sl], front + [sl.(end := |f.params| + 1)]);
  }

  lemma InnerMore(outer: seq<Param>, sub: seq<Param>, n: nat, p: Param)
    requires Strung(outer, sub, n) && !p.Str?
    ensures Strung(outer, sub + [p], n)
  {
    hide Strung;
    StrungSwaps(outer, sub, n);
    StrungMore(sub, outer, n, p);
    StrungSwaps(sub + [p], outer, n);
  }

  lemma NewString(strings: seq<string>, s: string)
    ensures IsItem(Str(|strings| + 1, |strings|), strings + [s])
    ensures ItemOf(Str(|strings| + 1, |strings|), strings + [s]) == Text(s)
  {
  }

  /** A string at the end of the outer list. */
  lemma TextOuter(outer: seq<Param>, sub: seq<Param>, strings: seq<string>, s: string, args: seq<Arg>,
                  rs: seq<Param>, m: nat)
    requires m == |strings| + 1 && rs == Repoint(outer, m) && CountStr(outer) == |strings|
    requires Layout(outer, sub) && Strung(outer, sub, |strings|) && Spells(outer, sub, strings, args)
    ensures Layout(rs + [Str(m, m - 1)], sub) && Strung(rs + [Str(m, m - 1)], sub, m)
    ensures Spells(rs + [Str(m, m - 1)], sub, strings + [s], args + [One(Text(s))])
  {
    hide Layout, Strung, Spells, Numbered, CountExpr, CountStr, Repoint, Refreshed, IsItem, ItemOf, Tiled, Reach, Unsliced;
    NewString(strings, s);
    StrungText(outer, sub, m - 1);
    RefreshKeeps(outer, rs, m);
    RefreshSpells(outer, rs, sub, sub, strings, s, args);
    LayoutSame(outer, rs, sub, sub);
    SnocOuter(rs, sub, strings + [s], args, Str(m, m - 1));
  }

  lemma TextNumbered(ps: seq<Param>, m: nat)
    requires Numbered(ps) && m > 0
    ensures Numbered(Repoint(ps, m) + [Str(m, m - 1)])
  {
    hide Numbered, CountStr, CountExpr;
    SameExpressions(ps, Repoint(ps, m));
    SnocNumbered(Repoint(ps, m), Str(m, m - 1));
  }

  lemma TextOutsideKeeps(f: Flat, n: Nest, s: string)
    requires Encodes(f, n) && !n.open && Guarded(f, Push(Text(s)))
    ensures Encodes(Do(f, Push(Text(s))), Apply(n, Push(Text(s))))
  {
    hide Encodes, Layout, Strung, Spells, Numbered, CountStr, Repoint;
    var m := |f.strings| + 1;
    ClosedEncodes(f, n);
    TextOuter(f.params, f.subParams, f.strings, s, n.args, Repoint(f.params, m), m);
    TextNumbered(f.params, m);
    ClosedEncodes(Do(f, Push(Text(s))), Apply(n, Push(Text(s))));
  }

  lemma LayoutSame(outer: seq<Param>, outer1: seq<Param>, sub: seq<Param>, sub1: seq<Param>)
    requires Layout(outer, sub) && |sub1| == |sub| && Reach(outer1) == Reach(outer)
    requires (Tiled(outer) ==> Tiled(outer1)) && (Unsliced(sub) ==> Unsliced(sub1))
    ensures Layout(outer1, sub1)
  {
    hide Tiled, Unsliced, Reach;
  }

  lemma TextInsideKeeps(f: Flat, n: Nest, s: string)
    requires Encodes(f, n) && n.open && Permitted(n, Push(Text(s))) && Guarded(f, Push(Text(s)))
    ensures Encodes(Do(f, Push(Text(s))), Apply(n, Push(Text(s))))
  {
    hide Layout, Strung, Spells, Numbered, CountExpr, CountStr, Repoint, Refreshed;
    var m := |f.strings| + 1;
    var rs := Repoint(f.params, m);
    var front, sl := Front(f.subParams), Last(f.subParams).(end := |f.params|);
    assert n.args == Front(n.args) + [Many(sl.kind, Last(n.args).items)];
    TextInner(front, sl, f.params, f.strings, s, Front(n.args), Last(n.args).items, rs, m);
    SameExpressions(front + [sl], front + [sl.(end := |f.params| + 1)]);
    TextNumbered(f.params, m);
  }

  /** A string at the end of the open slice. */
  lemma TextInner(front: seq<Param>, sl: Param, sub: seq<Param>, strings: seq<string>, s: string,
                  args: seq<Arg>, items: seq<Item>, rs: seq<Param>, m: nat)
    requires m == |strings| + 1 && rs == Repoint(sub, m) && CountStr(sub) == |strings|
    requires sl.Slice? && sl.end == |sub| && Layout(front + [sl], sub) && Strung(front + [sl], sub, |strings|)
    requires Spells(front + [sl], sub, strings, args + [Many(sl.kind, items)])
    ensures
      var outer := front + [sl.(end := |sub| + 1)];
      Layout(outer, rs + [Str(m, m - 1)]) && Strung(outer, rs + [Str(m, m - 1)], m) &&
      Spells(outer, rs + [Str(m, m - 1)], strings + [s], args + [Many(sl.kind, items + [Text(s)])])
  {
    hide Layout, Strung, Spells, Numbered, CountExpr, CountStr, Repoint, Refreshed, IsItem, ItemOf, Tiled, Reach, Unsliced;
    NewString(strings, s);
    var outer, p := front + [sl], Str(m, m - 1);
    StrungSwaps(outer, sub, m - 1);
    StrungText(sub, outer, m - 1);
    StrungSwaps(rs + [p], outer, m);
    StrungSlice(front, sl, rs + [p], m, |sub| + 1);
    RefreshKeeps(sub, rs, m);
    RefreshSpells(outer, outer, sub, rs, strings, s, args + [Many(sl.kind, items)]);
    LayoutSame(outer, outer, sub, rs);
    SnocInner(front, sl, rs, strings + [s], args, items, p);
  }

  lemma StartKeeps(f: Flat, n: Nest, kind: Kind)
    requires Encodes(f, n) && !n.open
    ensures Encodes(Do(f, Start(kind)), Apply(n, Start(kind)))
  {
    hide Layout, Strung, Spells, Numbered, CountExpr;
    var p := Slice(kind, |f.subParams|, |f.subParams|);
    OpenSlice(f.params, f.subParams, f.strings, n.args, kind);
    StrungMore(f.params, f.subParams, |f.strings|, p);
    SnocNumbered(f.params, p);
    var g := Do(f, Start(kind));
    assert Settled(g, true) == f.params + [p];
  }

  lemma EndKeeps(f: Flat, n: Nest, kind: Kind)
    requires Encodes(f, n) && Permitted(n, End(kind)) && Guarded(f, End(kind))
    ensures Encodes(Do(f, End(kind)), Apply(n, End(kind)))
  {
    hide Layout, Strung, Spells, Numbered, CountExpr;
  }

  /** Every permitted call that passes its assertions takes an encoding of a nested list to the
      encoding of the longer list. */
  lemma CallKeeps(f: Flat, n: Nest, c: Call)
    requires Encodes(f, n) && Permitted(n, c) && Guarded(f, c)
    ensures Encodes(Do(f, c), Apply(n, c))
  {
    hide Layout, Strung, Spells, Numbered, CountExpr, Encodes;
    match c {
      case Push(item) => {
        if item.Text? {
          if n.open { TextInsideKeeps(f, n, item.s); } else { TextOutsideKeeps(f, n, item.s); }
        } else {
          if n.open { PushInsideKeeps(f, n, item); } else { PushOutsideKeeps(f, n, item); }
        }
      }
      case Start(kind) => StartKeeps(f, n, kind);
      case End(kind) => EndKeeps(f, n, kind);
    }
  }

  // ----- when the assertions hold

  /** The strings of the two lists are those pushed outside and inside the slices. */
  lemma TextsMatch(outer: seq<Param>, sub: seq<Param>, strings: seq<string>, args: seq<Arg>)
    requires Layout(outer, sub) && Spells(outer, sub, strings, args)
    ensures CountStr(outer) > 0 <==> TextOutside(args)
    ensures CountStr(sub) > 0 <==> TextInside(args)
  {
    hide CountStr, Reach, Tiled;
    NoStrings(outer);
    NoStrings(sub);
    forall i | 0 <= i < |outer| ensures outer[i].Str? <==> args[i].One? && args[i].item.Text? {
      assert args[i] == ArgOf(outer[i], sub, strings);
    }
    if k :| 0 <= k < |sub| && sub[k].Str? {
      TiledCovers(outer, k);
      var i :| 0 <= i < |outer| && Covers(outer[i], k);
      SliceItem(outer[i], sub, strings, k);
    }
    if i :| 0 <= i < |args| && args[i].Many? && HasText(args[i].items) {
      var j :| 0 <= j < |args[i].items| && args[i].items[j].Text?;
      SliceItem(outer[i], sub, strings, outer[i].start + j);
    }
  }

  lemma SliceItem(p: Param, sub: seq<Param>, strings: seq<string>, k: nat)
    requires Readable(p, sub, strings) && Covers(p, k)
    ensures var arg := ArgOf(p, sub, strings);
            arg.Many? && k - p.start < |arg.items| && (arg.items[k - p.start].Text? <==> sub[k].Str?)
  {
    var j := k - p.start;
    assert sub[p.start + j] == sub[k] && IsItem(sub[k], strings);
    assert ArgOf(p, sub, strings).items[j] == ItemOf(sub[p.start + j], strings);
  }

  lemma ApplyTexts(n: Nest, c: Call)
    requires Permitted(n, c)
    ensures TextOutside(Apply(n, c).args) <==> TextOutside(n.args) || (c.Push? && c.item.Text? && !n.open)
    ensures TextInside(Apply(n, c).args) <==> TextInside(n.args) || (c.Push? && c.item.Text? && n.open)
  {
    var was, now := n.args, Apply(n, c).args;
    if c.Push? && n.open {
      var k := |was| - 1;
      assert was[k] == Last(was) && now[k] == Last(now);
      assert forall i :: 0 <= i < k ==> now[i] == was[i];
      HasTextSnoc(was[k].items, c.item);
    } else if !c.End? {
      assert forall i :: 0 <= i < |was| ==> now[i] == was[i];
      assert now[|was|] == if c.Push? then One(c.item) else Many(c.kind, []);
    }
  }

  lemma HasTextSnoc(items: seq<Item>, x: Item)
    ensures HasText(items + [x]) <==> HasText(items) || x.Text?
  {
    var longer := items + [x];
    assert longer[|items|] == x;
    assert forall j :: 0 <= j < |items| ==> longer[j] == items[j];
  }

  /** The next call passes its assertions exactly when it does not put strings in both lists. */
  lemma GuardIff(f: Flat, n: Nest, c: Call)
    requires Encodes(f, n) && Permitted(n, c)
    ensures Guarded(f, c) <==> !(TextOutside(Apply(n, c).args) && TextInside(Apply(n, c).args))
  {
    hide Layout, Spells, Pointed, Numbered, CountStr, Apply, TextOutside, TextInside;
    TextsMatch(Settled(f, n.open), Sub(f, n.open), f.strings, n.args);
    ApplyTexts(n, c);
    SettledStrings(f, n.open);
  }

  lemma SettledStrings(f: Flat, open: bool)
    ensures CountStr(Settled(f, open)) == CountStr(Outer(f, open))
  {
    hide CountStr;
    SameStrings(Settled(f, open), Outer(f, open));
  }

  // ----- whole sequences of calls

  ghost predicate Balanced(n: Nest, calls: seq<Call>)
    decreases |calls|
  {
    if calls == [] then !n.open
    else Permitted(n, calls[0]) && Balanced(Apply(n, calls[0]), calls[1..])
  }

  ghost function Spelled(n: Nest, calls: seq<Call>): (r: Nest)
    requires Balanced(n, calls)
    ensures !r.open
    decreases |calls|
  {
    if calls == [] then n else Spelled(Apply(n, calls[0]), calls[1..])
  }

  /** The encoding after the calls; None where an assertion of the builder fails. */
  function Build(f: Flat, calls: seq<Call>): Option<Flat>
    decreases |calls|
  {
    if calls == [] then Some(f)
    else if !Guarded(f, calls[0]) then None
    else Build(Do(f, calls[0]), calls[1..])
  }

  lemma {:induction false} SpelledTexts(n: Nest, calls: seq<Call>)
    requires Balanced(n, calls)
    ensures TextOutside(n.args) ==> TextOutside(Spelled(n, calls).args)
    ensures TextInside(n.args) ==> TextInside(Spelled(n, calls).args)
    decreases |calls|
  {
    hide Permitted, Apply, TextOutside, TextInside;
    if calls != [] {
      ApplyTexts(n, calls[0]);
      SpelledTexts(Apply(n, calls[0]), calls[1..]);
    }
  }

  /** The builder passes all its assertions if and only if strings are pushed only outside the
      slices or only inside them. */
  lemma {:induction false} BuildIff(f: Flat, n: Nest, calls: seq<Call>)
    requires Encodes(f, n) && Balanced(n, calls)
    ensures
      var args := Spelled(n, calls).args;
      Build(f, calls).Some? <==> !(TextOutside(args) && TextInside(args))
    ensures Build(f, calls).Some? ==> Encodes(Build(f, calls).value, Spelled(n, calls))
    decreases |calls|
  {
    if calls == [] {
      NotMixed(f, n);
    } else {
      GuardIff(f, n, calls[0]);
      SpelledTexts(Apply(n, calls[0]), calls[1..]);
      if Guarded(f, calls[0]) {
        CallKeeps(f, n, calls[0]);
        hide Encodes, Permitted, Guarded, Do, Apply, TextOutside, TextInside;
        BuildIff(Do(f, calls[0]), Apply(n, calls[0]), calls[1..]);
      }
    }
  }

  lemma NotMixed(f: Flat, n: Nest)
    requires Encodes(f, n)
    ensures !(TextOutside(n.args) && TextInside(n.args))
  {
    hide Layout, Spells, Pointed, Numbered, CountStr, TextOutside, TextInside;
    TextsMatch(Settled(f, n.open), Sub(f, n.open), f.strings, n.args);
  }

  const Empty: Nest := Nest([], false)

  lemma FreshEncodes()
    ensures Encodes(Fresh, Empty)
  {
    assert Decode([], [], []) == [];
  }

  /** The builder passes all its assertions exactly when not both some string was pushed outside
      the slices and some string inside one, and decoding what it left then gives back the
      nested list that was pushed. */
  lemma RoundTrip(calls: seq<Call>)
    requires Balanced(Empty, calls)
    ensures
      var args := Spelled(Empty, calls).args;
      Build(Fresh, calls).Some? <==> !(TextOutside(args) && TextInside(args))
    ensures Build(Fresh, calls).Some? ==>
      var f := Build(Fresh, calls).value;
      AllReadable(f.params, f.subParams, f.strings) &&
      Decode(f.params, f.subParams, f.strings) == Spelled(Empty, calls).args
  {
    hide Layout, Strung, Numbered, TextOutside, TextInside, Permitted, Apply, Decode, AllReadable;
    FreshEncodes();
    BuildIff(Fresh, Empty, calls);
  }

  // ----- the slices partition the second vector

  predicate Covers(p: Param, k: nat) {
    p.Slice? && p.start <= k < p.end
  }

  lemma {:induction false} TiledCovers(ps: seq<Param>, k: nat)
    requires Tiled(ps)
    ensures k < Reach(ps) <==> exists i :: 0 <= i < |ps| && Covers(ps[i], k)
    ensures forall i, j :: 0 <= i < |ps| && 0 <= j < |ps| && Covers(ps[i], k) && Covers(ps[j], k) ==> i == j
  {
    if ps != [] {
      var front, last := Front(ps), |ps| - 1;
      TiledCovers(front, k);
      assert forall i :: 0 <= i < last ==> ps[i] == front[i];
      assert ps[last] == Last(ps);
      if k < Reach(front) {
        var i :| 0 <= i < |front| && Covers(front[i], k);
        assert Covers(ps[i], k);
      }
    }
  }

  /** After a balanced sequence every element of the second vector is in exactly one slice. */
  lemma SlicesPartition(calls: seq<Call>, k: nat)
    requires Balanced(Empty, calls) && Build(Fresh, calls).Some?
    ensures var f := Build(Fresh, calls).value;
            (k < |f.subParams| <==> exists i :: 0 <= i < |f.params| && Covers(f.params[i], k)) &&
            forall i, j ::
              (0 <= i < |f.params| && 0 <= j < |f.params| && Covers(f.params[i], k) && Covers(f.params[j], k))
              ==> i == j
  {
    FreshEncodes();
    BuildIff(Fresh, Empty, calls);
    TiledCovers(Build(Fresh, calls).value.params, k);
  }

  // ----- the temporary registers

  /** Distinct expressions of one list evaluate into distinct registers, none of them register 0. */
  lemma RegistersDistinct(ps: seq<Param>, i: nat, j: nat)
    requires Numbered(ps) && i < j < |ps| && ps[i].Expression? && ps[j].Expression?
    ensures 0 < ps[i].register < ps[j].register <= CountExpr(ps)
  {
    CountExprMonotone(ps[..j], i);
    assert ps[..j][..i] == ps[..i];
    CountExprMonotone(ps, j);
  }

  lemma {:induction false} CountExprMonotone(ps: seq<Param>, i: nat)
    requires i < |ps| && ps[i].Expression?
    ensures CountExpr(ps[..i]) < CountExpr(ps)
  {
    if i < |ps| - 1 {
      CountExprMonotone(Front(ps), i);
      assert Front(ps)[..i] == ps[..i];
    } else {
      assert Front(ps) == ps[..i];
    }
  }

  /** Every register up to the number of expressions is in use. */
  lemma {:induction false} RegistersUsed(ps: seq<Param>, r: nat) returns (i: nat)
    requires Numbered(ps) && 1 <= r <= CountExpr(ps)
    ensures i < |ps| && ps[i].Expression? && ps[i].register == r
  {
    i := |ps| - 1;
    assert Front(ps) == ps[..i];
    if !(Last(ps).Expression? && r == CountExpr(ps)) {
      assert Numbered(Front(ps)) by {
        assert forall j :: 0 <= j < i ==> Front(ps)[..j] == ps[..j] && Front(ps)[j] == ps[j];
      }
      i := RegistersUsed(Front(ps), r);
      assert Front(ps)[i] == ps[i];
    }
  }

  /** The two lists number their registers separately: an expression of the outer list has a
      register to itself for the whole call exactly when the slices hold no expression. */
  lemma SharedRegisterIff(outer: seq<Param>, sub: seq<Param>)
    requires Numbered(outer) && Numbered(sub) && CountExpr(outer) > 0
    ensures CountExpr(sub) > 0 <==>
            exists i, j :: 0 <= i < |outer| && 0 <= j < |sub| && outer[i].Expression? && sub[j].Expression? &&
                           outer[i].register == sub[j].register
  {
    if CountExpr(sub) > 0 {
      var i := RegistersUsed(outer, 1);
      var j := RegistersUsed(sub, 1);
      assert outer[i].register == sub[j].register;
    }
    if i, j :| 0 <= i < |outer| && 0 <= j < |sub| && outer[i].Expression? && sub[j].Expression? &&
               outer[i].register == sub[j].register {
      CountExprMonotone(sub, j);
    }
  }

  // ----- all actions together, with the register count they share

  /** Every action under construction, and the number of registers set aside for all of them. */
  datatype Switch = Switch(fns: seq<Flat>, registers: nat)

  const NoActions: Switch := Switch([], 1)

  datatype Edit = NewAction | On(fn: nat, call: Call)

  /** What the code asserts, over the guards of the builder itself. */
  predicate EditGuarded(s: Switch, e: Edit) {
    e.On? ==>
      e.fn < |s.fns| && Guarded(s.fns[e.fn], e.call) &&
      (e.call.Push? && e.call.item.Value? ==> 1 + CountExpr(s.fns[e.fn].params) <= s.registers)
  }

  /** The shared count after a call. */
  function Claimed(f: Flat, c: Call, registers: nat): nat {
    if c.Push? && c.item.Value? && 1 + CountExpr(f.params) == registers then registers + 1 else registers
  }

  function DoEdit(s: Switch, e: Edit): Switch
    requires EditGuarded(s, e)
  {
    match e
    case NewAction => s.(fns := s.fns + [Fresh])
    case On(i, c) =>
      Switch(s.fns[i := Do(s.fns[i], c)], Claimed(s.fns[i], c, s.registers))
  }

  ghost predicate Fits(f: Flat, registers: nat) {
    CountExpr(f.params) < registers && CountExpr(f.subParams) < registers
  }

  ghost predicate Reaches(f: Flat, registers: nat) {
    CountExpr(f.params) + 1 == registers || CountExpr(f.subParams) + 1 == registers
  }

  /** Registers are set aside for the list with the most expressions, and no more. */
  ghost predicate Enough(s: Switch) {
    s.registers >= 1 &&
    (forall i :: 0 <= i < |s.fns| ==> Fits(s.fns[i], s.registers)) &&
    (s.registers == 1 || exists i :: 0 <= i < |s.fns| && Reaches(s.fns[i], s.registers))
  }

  lemma DoCounts(f: Flat, c: Call)
    requires Guarded(f, c)
    ensures var g := Do(f, c);
            var n := CountExpr(f.params) + if c.Push? && c.item.Value? then 1 else 0;
            if c.Push? then CountExpr(g.params) == n && g.subParams == f.subParams
            else CountExpr(g.params) == CountExpr(f.subParams) && CountExpr(g.subParams) == n
  {
    hide CountExpr, CountStr;
    match c {
      case Push(item) => {
        if item.Text? {
          var n := |f.strings| + 1;
          SameCount(f.params, Repoint(f.params, n));
          CountSnoc(Repoint(f.params, n), Str(n, n - 1));
        } else {
          CountSnoc(f.params, ParamOf(f, item));
        }
      }
      case Start(kind) => CountSnoc(f.params, Slice(kind, |f.subParams|, |f.subParams|));
      case End(kind) => SameCount(f.subParams, Do(f, c).params);
    }
  }

  lemma CountSnoc(ps: seq<Param>, p: Param)
    ensures CountExpr(ps + [p]) == CountExpr(ps) + if p.Expression? then 1 else 0
  {
    assert Front(ps + [p]) == ps;
  }

  /** The assertion on the shared count never fails, whatever the other actions did before. */
  lemma EnoughIsGuarded(s: Switch, e: Edit)
    requires Enough(s)
    requires e.On? ==> e.fn < |s.fns| && Guarded(s.fns[e.fn], e.call)
    ensures EditGuarded(s, e)
  {
    if e.On? { assert Fits(s.fns[e.fn], s.registers); }
  }

  lemma CallFits(f: Flat, c: Call, registers: nat)
    requires Guarded(f, c) && Fits(f, registers)
    ensures registers <= Claimed(f, c, registers) && Fits(Do(f, c), Claimed(f, c, registers))
    ensures Claimed(f, c, registers) > registers || Reaches(f, registers)
            ==> Reaches(Do(f, c), Claimed(f, c, registers))
  {
    hide CountExpr, CountStr, Do, Guarded;
    DoCounts(f, c);
  }

  lemma FitsMore(f: Flat, n: nat, m: nat)
    requires Fits(f, n) && n <= m
    ensures Fits(f, m)
  {
  }

  lemma EditFits(s: Switch, e: Edit)
    requires Enough(s) && EditGuarded(s, e) && e.On?
    ensures forall i :: 0 <= i < |s.fns| ==> Fits(DoEdit(s, e).fns[i], DoEdit(s, e).registers)
  {
    hide Do, Guarded, Claimed, CountExpr, CountStr, Fits;
    CallFits(s.fns[e.fn], e.call, s.registers);
    var t := DoEdit(s, e);
    forall i | 0 <= i < |s.fns| ensures Fits(t.fns[i], t.registers) {
      if i != e.fn { FitsMore(s.fns[i], s.registers, t.registers); }
    }
  }

  lemma EditReaches(s: Switch, e: Edit)
    requires Enough(s) && EditGuarded(s, e) && e.On? && DoEdit(s, e).registers > 1
    ensures exists i :: 0 <= i < |s.fns| && Reaches(DoEdit(s, e).fns[i], DoEdit(s, e).registers)
  {
    hide Do, Guarded, Claimed, CountExpr, CountStr, Reaches, Fits;
    CallFits(s.fns[e.fn], e.call, s.registers);
    var t := DoEdit(s, e);
    if t.registers > s.registers {
      assert Reaches(t.fns[e.fn], t.registers);
    } else {
      var i :| 0 <= i < |s.fns| && Reaches(s.fns[i], s.registers);
      assert Reaches(t.fns[i], t.registers);
    }
  }

  lemma EditKeeps(s: Switch, e: Edit)
    requires Enough(s) && EditGuarded(s, e)
    ensures Enough(DoEdit(s, e)) && DoEdit(s, e).registers >= s.registers
  {
    var t := DoEdit(s, e);
    if e.On? {
      EditFits(s, e);
      if t.registers > 1 { EditReaches(s, e); }
    } else {
      assert t.fns[|s.fns|] == Fresh && t.fns[..|s.fns|] == s.fns;
      assert forall i :: 0 <= i < |s.fns| ==> t.fns[i] == s.fns[i];
    }
  }

  /** A run of edits in which every action's own calls obey its own guards. */
  ghost predicate Admissible(s: Switch, edits: seq<Edit>)
    decreases |edits|
  {
    edits == [] ||
    ((edits[0].On? ==> edits[0].fn < |s.fns| && Guarded(s.fns[edits[0].fn], edits[0].call)) &&
     (EditGuarded(s, edits[0]) ==> Admissible(DoEdit(s, edits[0]), edits[1..])))
  }

  function RunEdits(s: Switch, edits: seq<Edit>): Option<Switch>
    decreases |edits|
  {
    if edits == [] then Some(s)
    else if !EditGuarded(s, edits[0]) then None
    else RunEdits(DoEdit(s, edits[0]), edits[1..])
  }

  ghost predicate AllNumbered(s: Switch) {
    forall i :: 0 <= i < |s.fns| ==> Numbered(s.fns[i].params) && Numbered(s.fns[i].subParams)
  }

  lemma DoNumbered(f: Flat, c: Call)
    requires Guarded(f, c) && Numbered(f.params) && Numbered(f.subParams)
    ensures Numbered(Do(f, c).params) && Numbered(Do(f, c).subParams)
  {
    hide Numbered, CountExpr, CountStr;
    match c {
      case Push(item) => {
        if item.Text? {
          var n := |f.strings| + 1;
          SameExpressions(f.params, Repoint(f.params, n));
          SnocNumbered(Repoint(f.params, n), Str(n, n - 1));
        } else {
          SnocNumbered(f.params, ParamOf(f, item));
        }
      }
      case Start(kind) => SnocNumbered(f.params, Slice(kind, |f.subParams|, |f.subParams|));
      case End(kind) => SameExpressions(f.subParams, Do(f, c).params);
    }
  }

  lemma EditNumbered(s: Switch, e: Edit)
    requires AllNumbered(s) && EditGuarded(s, e)
    ensures AllNumbered(DoEdit(s, e))
  {
    if e.On? { DoNumbered(s.fns[e.fn], e.call); }
    hide Numbered, Do, Guarded;
    assert Numbered([]) by { NumberedNone(); }
  }

  lemma NumberedNone()
    ensures Numbered([])
  {
  }

  /** However the construction of the actions is interleaved, no run stops on the shared count,
      and what it leaves has enough registers and numbers them in order in every list. */
  lemma {:induction false} RegistersSuffice(s: Switch, edits: seq<Edit>)
    requires Enough(s) && AllNumbered(s) && Admissible(s, edits)
    ensures RunEdits(s, edits).Some?
    ensures var t := RunEdits(s, edits).value;
            Enough(t) && AllNumbered(t) && t.registers >= s.registers
    decreases |edits|
  {
    hide Enough, AllNumbered, EditGuarded, DoEdit;
    if edits != [] {
      EnoughIsGuarded(s, edits[0]);
      EditKeeps(s, edits[0]);
      EditNumbered(s, edits[0]);
      RegistersSuffice(DoEdit(s, edits[0]), edits[1..]);
    }
  }

  /** After any run, two expressions of one list have different registers, both set aside. */
  lemma RegistersApart(edits: seq<Edit>, k: nat, inSub: bool, i: nat, j: nat)
    requires Admissible(NoActions, edits)
    requires RunEdits(NoActions, edits).Some?
    requires k < |RunEdits(NoActions, edits).value.fns|
    requires var f := RunEdits(NoActions, edits).value.fns[k];
             var ps := if inSub then f.subParams else f.params;
             i < j < |ps| && ps[i].Expression? && ps[j].Expression?
    ensures var t := RunEdits(NoActions, edits).value;
            var ps := if inSub then t.fns[k].subParams else t.fns[k].params;
            0 < ps[i].register < ps[j].register < t.registers
  {
    RegistersSuffice(NoActions, edits);
    var t := RunEdits(NoActions, edits).value;
    var f := t.fns[k];
    assert Fits(f, t.registers);
    RegistersDistinct(if inSub then f.subParams else f.params, i, j);
  }

  // ----- the parameters of each primitive

  datatype Primitive = Primitive(offset: nat, numParams: nat)

  /** Where the parameters of the primitives before k end. */
  function EndBefore(ps: seq<Primitive>, k: nat): nat
    requires k <= |ps|
  {
    if k == 0 then 0 else ps[k - 1].offset + ps[k - 1].numParams
  }

  ghost predicate Packed(ps: seq<Primitive>) {
    forall k :: 0 <= k < |ps| ==> ps[k].offset == EndBefore(ps, k)
  }

  function Flatten<T>(lists: seq<seq<T>>): seq<T> {
    if lists == [] then [] else Flatten(Front(lists)) + Last(lists)
  }

  ghost predicate Sized<T>(ps: seq<Primitive>, lists: seq<seq<T>>) {
    |lists| == |ps| && forall k :: 0 <= k < |ps| ==> |lists[k]| == ps[k].numParams
  }

  lemma FrontPacked(ps: seq<Primitive>)
    requires Packed(ps) && ps != []
    ensures Packed(Front(ps))
    ensures |ps| == 1 ==> Last(ps).offset == 0
    ensures |ps| > 1 ==> Last(ps).offset == Last(Front(ps)).offset + Last(Front(ps)).numParams
  {
    var n, front := |ps| - 1, Front(ps);
    assert ps[n] == Last(ps) && ps[n].offset == EndBefore(ps, n);
    forall k | 0 <= k < n ensures front[k].offset == EndBefore(front, k) {
      assert front[k] == ps[k] && ps[k].offset == EndBefore(ps, k);
      assert EndBefore(front, k) == EndBefore(ps, k);
    }
  }

  lemma FrontSized<T>(ps: seq<Primitive>, lists: seq<seq<T>>)
    requires Sized(ps, lists) && ps != []
    ensures |lists| == |ps| && Last(ps).numParams == |Last(lists)|
    ensures Sized(Front(ps), Front(lists))
  {
    var n := |ps| - 1;
    assert ps[n] == Last(ps) && lists[n] == Last(lists);
    forall k | 0 <= k < n ensures |Front(lists)[k]| == Front(ps)[k].numParams {
      assert Front(ps)[k] == ps[k] && Front(lists)[k] == lists[k];
    }
  }

  lemma {:induction false} NextOffset<T>(ps: seq<Primitive>, lists: seq<seq<T>>)
    requires Packed(ps) && Sized(ps, lists) && ps != []
    ensures |lists| == |ps| && Last(ps).offset == |Flatten(Front(lists))|
  {
    hide Packed, Sized;
    FrontPacked(ps);
    FrontSized(ps, lists);
    if |ps| > 1 {
      FrontSized(Front(ps), Front(lists));
      NextOffset(Front(ps), Front(lists));
    }
  }

  lemma SliceOfFront<T>(a: seq<T>, b: seq<T>, i: nat, j: nat)
    requires i <= j <= |a|
    ensures (a + b)[i..j] == a[i..j]
    ensures (a + b)[|a|..|a| + |b|] == b
  {
  }

  /** Each primitive reads its own parameters, in whatever order the primitives are executed. */
  lemma {:induction false} WindowIsOwn<T>(ps: seq<Primitive>, lists: seq<seq<T>>, k: nat)
    requires Packed(ps) && Sized(ps, lists) && k < |ps|
    ensures |lists| == |ps| && ps[k].offset + ps[k].numParams <= |Flatten(lists)|
    ensures Flatten(lists)[ps[k].offset..ps[k].offset + ps[k].numParams] == lists[k]
  {
    hide Packed, Sized, Flatten;
    NextOffset(ps, lists);
    FrontPacked(ps);
    FrontSized(ps, lists);
    FlattenLast(lists);
    var front, last, p := Flatten(Front(lists)), Last(lists), ps[k];
    if k < |ps| - 1 {
      var rest, restLists := Front(ps), Front(lists);
      assert rest[k] == p && restLists[k] == lists[k];
      WindowIsOwn(rest, restLists, k);
      SliceOfFront(front, last, p.offset, p.offset + p.numParams);
    } else {
      assert p == Last(ps) && lists[k] == last;
      SliceOfFront(front, last, 0, 0);
    }
  }

  lemma FlattenLast<T>(lists: seq<seq<T>>)
    requires lists != []
    ensures Flatten(lists) == Flatten(Front(lists)) + Last(lists)
  {
  }

  // ----- the code

  /** The list while its strings are being pointed anew: the first i elements are done. */
  ghost function Repointing(ps: seq<Param>, epoch: nat, i: nat): (r: seq<Param>)
    requires i <= |ps|
    ensures i == 0 ==> r == ps
    ensures i == |ps| ==> r == Repoint(ps, epoch)
  {
    Repoint(ps, epoch)[..i] + ps[i..]
  }

  lemma CountNone()
    ensures forall ps: seq<Param> :: CountStr(ps[..0]) == 0
  {
  }

  lemma RepointStep(ps: seq<Param>, epoch: nat, i: nat)
    requires i < |ps|
    ensures |Repointing(ps, epoch, i)| == |ps| && Repointing(ps, epoch, i)[i] == ps[i]
    ensures CountStr(ps[..i + 1]) == CountStr(ps[..i]) + if ps[i].Str? then 1 else 0
    ensures Repointing(ps, epoch, i + 1) ==
            if ps[i].Str? then Repointing(ps, epoch, i)[i := Str(epoch, CountStr(ps[..i]))]
            else Repointing(ps, epoch, i)
  {
    assert Front(ps[..i + 1]) == ps[..i] && Last(ps[..i + 1]) == ps[i];
    hide CountStr;
    var now := Repointing(ps, epoch, i);
    assert Repointing(ps, epoch, i + 1)[..i] == now[..i];
    assert Repointing(ps, epoch, i + 1)[i + 1..] == now[i + 1..];
  }

  /** The number of temporary registers, one for the whole program. Register 0 is reserved. */
  class DataTmps {
    var count: nat

    constructor ()
      ensures count == 1
    {
      count := 1;
    }
  }

  class ActionFn {
    const tmps: DataTmps
    var params: seq<Param>
    var subParams: seq<Param>
    var strings: seq<string>
    var primitives: seq<Primitive>

    constructor (tmps: DataTmps)
      ensures this.tmps == tmps && Contents() == Fresh && primitives == []
    {
      this.tmps := tmps;
      params, subParams, strings, primitives := [], [], [], [];
    }

    ghost function Contents(): Flat
      reads this
    {
      Flat(params, subParams, strings)
    }

    /** Any parameter that is stored by value: a field, a header, a constant, a counter array. */
    method PushBackPlain(tag: nat, value: int)
      modifies this`params
      ensures Contents() == Do(old(Contents()), Push(Simple(tag, value)))
    {
      params := params + [Plain(tag, value)];
    }

    method PushBackExpression(e: int)
      requires EditGuarded(Switch([Contents()], tmps.count), On(0, Push(Value(e))))
      modifies this`params, tmps
      ensures Switch([Contents()], tmps.count) ==
              old(DoEdit(Switch([Contents()], tmps.count), On(0, Push(Value(e)))))
    {
      var used := 1;
      for i := 0 to |params|
        invariant used == 1 + CountExpr(params[..i])
      {
        assert Front(params[..i + 1]) == params[..i];
        if params[i].Expression? { used := used + 1; }
      }
      assert params[..|params|] == params;
      if used == tmps.count { tmps.count := tmps.count + 1; }
      params := params + [Expression(used, e)];
    }

    /** The pointers of the current list, after the strings may have moved. */
    method PointAnew() returns (idx: nat)
      modifies this`params
      ensures params == Repoint(old(params), |strings|) && idx == CountStr(old(params))
    {
      ghost var was := params;
      hide Repoint, Repointing, CountStr;
      idx := 0;
      CountNone();
      for i := 0 to |params|
        invariant |params| == |was| && idx == CountStr(was[..i])
        invariant params == Repointing(was, |strings|, i)
      {
        RepointStep(was, |strings|, i);
        if params[i].Str? {
          params := params[i := Str(|strings|, idx)];
          idx := idx + 1;
        }
      }
      assert was[..|was|] == was;
    }

    method PushBackString(s: string)
      requires Guarded(Contents(), Push(Text(s)))
      modifies this`params, this`strings
      ensures Contents() == Do(old(Contents()), Push(Text(s)))
    {
      strings := strings + [s];
      var idx := PointAnew();
      assert |strings| - 1 == idx;
      params := params + [Str(|strings|, |strings| - 1)];
    }

    method StartSlice(kind: Kind)
      modifies this`params, this`subParams
      ensures Contents() == Do(old(Contents()), Start(kind))
    {
      params := params + [Slice(kind, |subParams|, |subParams|)];
      params, subParams := subParams, params;
    }

    method EndSlice(kind: Kind)
      requires Guarded(Contents(), End(kind))
      modifies this`params, this`subParams
      ensures Contents() == Do(old(Contents()), End(kind))
    {
      params, subParams := subParams, params;
      var last := |params| - 1;
      params := params[last := params[last].(end := |subParams|)];
    }

    method PushBackPrimitive(numParams: nat)
      requires Packed(primitives)
      modifies this`primitives
      ensures Packed(primitives)
      ensures |primitives| == |old(primitives)| + 1 && primitives[..|old(primitives)|] == old(primitives)
      ensures primitives[|old(primitives)|].numParams == numParams
    {
      var offset := 0;
      if primitives != [] {
        var back := primitives[|primitives| - 1];
        offset := back.offset + back.numParams;
      }
      primitives := primitives + [Primitive(offset, numParams)];
    }

    /** A slice argument as a primitive receives it. */
    method ReadSlice(p: Param) returns (items: seq<Item>)
      requires p.Slice? && Readable(p, subParams, strings)
      ensures Many(p.kind, items) == ArgOf(p, subParams, strings)
    {
      items := [];
      for i := p.start to p.end
        invariant |items| == i - p.start
        invariant forall j :: 0 <= j < |items| ==> items[j] == ItemOf(subParams[p.start + j], strings)
      {
        items := items + [ItemOf(subParams[i], strings)];
      }
    }
  }
}
