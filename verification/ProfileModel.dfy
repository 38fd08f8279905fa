/** The action profile as a state machine: members, groups, reference counts and the shadow
    copy kept by a pluggable group selector, over every run of control-plane operations. */
module ProfileModel {
  import opened Common
  import opened Bits
  import opened Handles
  import opened UIntSets

  const COUNT_LIMIT := TWO32        // count_t is a 32-bit unsigned int
  const INDEX_MASK := 0x00FF_FFFF     // handles share an index word with a tag byte

  datatype ActionFn = ActionFn(id: nat, numParams: nat)

  datatype Entry = Entry(fn: ActionFn, data: seq<int>)

  datatype Code =
    | SUCCESS | BAD_ACTION_DATA | INVALID_MBR_HANDLE | INVALID_GRP_HANDLE | MBR_STILL_USED
    | GRP_STILL_USED | MBR_ALREADY_IN_GRP | MBR_NOT_IN_GRP | ERROR

  /** A reference held by a match table entry. */
  datatype Index = Mbr(m: nat) | Grp(g: nat)

  datatype SelGroup = SelGroup(members: set<nat>, active: UIntSet)

  type SelGroups = map<nat, SelGroup>

  /** The profile's fields; mbrs and grps are the handles in use. The last two record the
      references that tables hold on live members and groups. */
  datatype Profile = Profile(
    entries: seq<Entry>, mbrCount: seq<nat>, grpCount: seq<nat>,
    mbrs: set<nat>, grps: set<nat>, numMembers: int, numGroups: int,
    groups: seq<UIntSet>, selector: Option<SelGroups>,
    mbrRefs: map<nat, nat>, grpRefs: map<nat, nat>)

  datatype Op =
    | AddMember(entry: Entry) | DeleteMember(m: nat) | ModifyMember(m: nat, entry: Entry)
    | CreateGroup | DeleteGroup(g: nat) | AddToGroup(m: nat, g: nat) | RemoveFromGroup(m: nat, g: nat)
    | RefIncrease(index: Index) | RefDecrease(index: Index)
    | Activate(g: nat, m: nat) | Deactivate(g: nat, m: nat) | Reset

  // ----- counters and vectors

  function Inc(c: nat): nat { (c + 1) % COUNT_LIMIT }

  function Dec(c: nat): nat { (c + COUNT_LIMIT - 1) % COUNT_LIMIT }

  /** What a wrapping counter shows after n more increments than decrements. */
  function Shown(n: nat): nat { n % COUNT_LIMIT }

  lemma ShownCounts(n: nat)
    ensures Shown(0) == 0
    ensures Inc(Shown(n)) == Shown(n + 1)
    ensures n > 0 ==> Dec(Shown(n)) == Shown(n - 1)
    ensures n < COUNT_LIMIT ==> Shown(n) == n
  {
  }

  /** Shows zero without being zero. */
  predicate Wrapped(n: nat) { n > 0 && n % COUNT_LIMIT == 0 }

  /** v[i] = x, or push_back when i is the size. */
  function Put<T>(v: seq<T>, i: nat, x: T): (r: seq<T>)
    requires i <= |v|
    ensures |r| == (if i == |v| then |v| + 1 else |v|) && r[i] == x
    ensures forall k :: 0 <= k < |v| && k != i ==> r[k] == v[k]
  {
    if i == |v| then v + [x] else v[i := x]
  }

  // ----- the selector's own copy of the groups

  function SelAdd(s: SelGroups, g: nat, m: nat): SelGroups {
    var was := if g in s then s[g] else SelGroup({}, []);
    s[g := SelGroup(was.members + {m}, Add(was.active, m))]
  }

  /** Empty groups are dropped from the map. */
  function SelRemove(s: SelGroups, g: nat, m: nat): SelGroups {
    var was := if g in s then s[g] else SelGroup({}, []);
    var members := was.members - {m};
    if members == {} then s - {g} else s[g := SelGroup(members, Remove(was.active, m))]
  }

  function SelRemoveAll(s: SelGroups, g: nat, ms: seq<nat>): SelGroups {
    if ms == [] then s else SelRemove(SelRemoveAll(s, g, ms[..|ms| - 1]), g, ms[|ms| - 1])
  }

  function SelActivate(s: SelGroups, g: nat, m: nat): (SelGroups, Code) {
    if g !in s || m !in s[g].members then (s, MBR_NOT_IN_GRP)
    else if m in s[g].active then (s, ERROR)
    else (s[g := s[g].(active := Add(s[g].active, m))], SUCCESS)
  }

  function SelDeactivate(s: SelGroups, g: nat, m: nat): (SelGroups, Code) {
    if g !in s || m !in s[g].members then (s, MBR_NOT_IN_GRP)
    else if m !in s[g].active then (s, ERROR)
    else (s[g := s[g].(active := Remove(s[g].active, m))], SUCCESS)
  }

  function MapSel(s: Option<SelGroups>, f: SelGroups -> SelGroups): Option<SelGroups> {
    match s case None => None case Some(v) => Some(f(v))
  }

  // ----- the operations

  ghost function Init(selector: Option<SelGroups>): Profile {
    Profile([], [], [], {}, {}, 0, 0, [], selector, map[], map[])
  }

  function DecAll(counts: seq<nat>, ms: seq<nat>): (r: seq<nat>)
    requires forall m :: m in ms ==> m < |counts|
    ensures |r| == |counts|
  {
    if ms == [] then counts
    else
      var front := ms[..|ms| - 1];
      assert ms == front + [ms[|ms| - 1]];
      assert forall m :: m in front ==> m in ms;
      assert ms[|ms| - 1] in ms;
      var c, m := DecAll(counts, front), ms[|ms| - 1];
      c[m := Dec(c[m])]
  }

  /** Every live handle indexes inside its vectors, and the vectors agree in length. */
  ghost predicate Shaped(p: Profile) {
    && |p.entries| == |p.mbrCount| && |p.groups| == |p.grpCount|
    && (forall m :: m in p.mbrs ==> m < |p.entries|)
    && (forall g :: g in p.grps ==> g < |p.groups|)
    && (forall g, m :: g in p.grps && m in p.groups[g] ==> m in p.mbrs)
    && p.mbrRefs.Keys == p.mbrs && p.grpRefs.Keys == p.grps
  }

  lemma SmallestFits(s: set<nat>, h: nat, n: nat)
    requires IsSmallestFree(s, h) && forall m :: m in s ==> m < n
    ensures h <= n
  {
    assert n < h ==> n in s;
  }

  ghost function Fresh(s: set<nat>): (h: nat)
    ensures IsSmallestFree(s, h)
  {
    SmallestFreeFrom(s, 0)
  }

  function NewMember(p: Profile, m: nat, e: Entry): Profile
    requires m <= |p.entries| == |p.mbrCount|
  {
    p.(entries := Put(p.entries, m, e), mbrCount := Put(p.mbrCount, m, 0),
       mbrs := p.mbrs + {m}, numMembers := p.numMembers + 1, mbrRefs := p.mbrRefs[m := 0])
  }

  ghost function DoAddMember(p: Profile, e: Entry): (Profile, Code)
    requires Shaped(p)
  {
    if |e.data| != e.fn.numParams then (p, BAD_ACTION_DATA)
    else
      var m := Fresh(p.mbrs);
      SmallestFits(p.mbrs, m, |p.entries|);
      (NewMember(p, m, e), SUCCESS)
  }

  ghost function DoDeleteMember(p: Profile, m: nat): (Profile, Code)
    requires Shaped(p)
  {
    if m !in p.mbrs then (p, INVALID_MBR_HANDLE)
    else if p.mbrCount[m] > 0 then (p, MBR_STILL_USED)
    else (p.(mbrs := p.mbrs - {m}, numMembers := p.numMembers - 1, mbrRefs := p.mbrRefs - {m}), SUCCESS)
  }

  ghost function DoModifyMember(p: Profile, m: nat, e: Entry): (Profile, Code)
    requires Shaped(p)
  {
    if |e.data| != e.fn.numParams then (p, BAD_ACTION_DATA)
    else if m !in p.mbrs then (p, INVALID_MBR_HANDLE)
    else (p.(entries := p.entries[m := e]), SUCCESS)
  }

  function NewGroup(p: Profile, g: nat): Profile
    requires g <= |p.groups| == |p.grpCount|
  {
    p.(groups := Put(p.groups, g, []), grpCount := Put(p.grpCount, g, 0),
       grps := p.grps + {g}, numGroups := p.numGroups + 1, grpRefs := p.grpRefs[g := 0])
  }

  ghost function DoCreateGroup(p: Profile): (Profile, Code)
    requires Shaped(p)
  {
    var g := Fresh(p.grps);
    SmallestFits(p.grps, g, |p.groups|);
    (NewGroup(p, g), SUCCESS)
  }

  ghost function WithoutGroup(p: Profile, g: nat): Profile
    requires Shaped(p) && g in p.grps
  {
    var ms: UIntSet := p.groups[g];
    assert forall m :: m in ms ==> m in p.mbrs;
    p.(mbrCount := DecAll(p.mbrCount, ms), grps := p.grps - {g}, numGroups := p.numGroups - 1,
       selector := MapSel(p.selector, s => SelRemoveAll(s, g, ms)), grpRefs := p.grpRefs - {g})
  }

  ghost function DoDeleteGroup(p: Profile, g: nat): (Profile, Code)
    requires Shaped(p)
  {
    if g !in p.grps then (p, INVALID_GRP_HANDLE)
    else if p.grpCount[g] > 0 then (p, GRP_STILL_USED)
    else (WithoutGroup(p, g), SUCCESS)
  }

  function Joined(p: Profile, m: nat, g: nat): Profile
    requires g < |p.groups| && m < |p.mbrCount|
  {
    p.(groups := p.groups[g := Add(p.groups[g], m)], mbrCount := p.mbrCount[m := Inc(p.mbrCount[m])],
       selector := MapSel(p.selector, s => SelAdd(s, g, m)))
  }

  ghost function DoAddToGroup(p: Profile, m: nat, g: nat): (Profile, Code)
    requires Shaped(p)
  {
    if m !in p.mbrs then (p, INVALID_MBR_HANDLE)
    else if g !in p.grps then (p, INVALID_GRP_HANDLE)
    else if m in p.groups[g] then (p, MBR_ALREADY_IN_GRP)
    else (Joined(p, m, g), SUCCESS)
  }

  function Parted(p: Profile, m: nat, g: nat): Profile
    requires g < |p.groups| && m < |p.mbrCount|
  {
    p.(groups := p.groups[g := Remove(p.groups[g], m)], mbrCount := p.mbrCount[m := Dec(p.mbrCount[m])],
       selector := MapSel(p.selector, s => SelRemove(s, g, m)))
  }

  ghost function DoRemoveFromGroup(p: Profile, m: nat, g: nat): (Profile, Code)
    requires Shaped(p)
  {
    if m !in p.mbrs then (p, INVALID_MBR_HANDLE)
    else if g !in p.grps then (p, INVALID_GRP_HANDLE)
    else if m !in p.groups[g] then (p, MBR_NOT_IN_GRP)
    else (Parted(p, m, g), SUCCESS)
  }

  /** The table code calls these on live handles only, and gives back what it took. */
  ghost predicate Holds(p: Profile, i: Index, n: nat) {
    match i
    case Mbr(m) => m in p.mbrRefs && p.mbrRefs[m] >= n
    case Grp(g) => g in p.grpRefs && p.grpRefs[g] >= n
  }

  ghost function DoRefIncrease(p: Profile, i: Index): Profile
    requires Shaped(p) && Holds(p, i, 0)
  {
    match i
    case Mbr(m) => p.(mbrCount := p.mbrCount[m := Inc(p.mbrCount[m])], mbrRefs := p.mbrRefs[m := p.mbrRefs[m] + 1])
    case Grp(g) => p.(grpCount := p.grpCount[g := Inc(p.grpCount[g])], grpRefs := p.grpRefs[g := p.grpRefs[g] + 1])
  }

  ghost function DoRefDecrease(p: Profile, i: Index): Profile
    requires Shaped(p) && Holds(p, i, 1)
  {
    match i
    case Mbr(m) => p.(mbrCount := p.mbrCount[m := Dec(p.mbrCount[m])], mbrRefs := p.mbrRefs[m := p.mbrRefs[m] - 1])
    case Grp(g) => p.(grpCount := p.grpCount[g := Dec(p.grpCount[g])], grpRefs := p.grpRefs[g := p.grpRefs[g] - 1])
  }

  function DoActivate(p: Profile, g: nat, m: nat): (Profile, Code)
    requires p.selector.Some?
  {
    var r := SelActivate(p.selector.value, g, m);
    (p.(selector := Some(r.0)), r.1)
  }

  function DoDeactivate(p: Profile, g: nat, m: nat): (Profile, Code)
    requires p.selector.Some?
  {
    var r := SelDeactivate(p.selector.value, g, m);
    (p.(selector := Some(r.0)), r.1)
  }

  /** reset_state: everything is cleared except the group handles. */
  ghost function DoReset(p: Profile): Profile {
    p.(entries := [], mbrCount := [], grpCount := [], mbrs := {}, numMembers := 0, numGroups := 0,
       groups := [], selector := MapSel(p.selector, s => map[]), mbrRefs := map[], grpRefs := map[])
  }

  // ----- the invariant

  /** The live groups that contain m. */
  ghost function Holders(p: Profile, m: nat): set<nat>
    requires Shaped(p)
  {
    set g | g in p.grps && m in p.groups[g]
  }

  /** All references to m: from groups and from tables. */
  ghost function Total(p: Profile, m: nat): nat
    requires Shaped(p) && m in p.mbrs
  {
    |Holders(p, m)| + p.mbrRefs[m]
  }

  ghost predicate MbrsCounted(p: Profile)
    requires Shaped(p)
  {
    forall m :: m in p.mbrs ==> p.mbrCount[m] == Shown(Total(p, m))
  }

  ghost predicate GrpsCounted(p: Profile)
    requires Shaped(p)
  {
    forall g :: g in p.grps ==> p.grpCount[g] == Shown(p.grpRefs[g])
  }

  ghost predicate Numbered(p: Profile) {
    p.numMembers == |p.mbrs| && p.numGroups == |p.grps|
  }

  /** The selector knows exactly the non-empty live groups, with exactly their members, and
      activates only members. */
  ghost predicate Shadowed(p: Profile, s: SelGroups)
    requires Shaped(p)
  {
    && (forall g :: g in s <==> g in p.grps && p.groups[g] != [])
    && (forall g, m :: g in s ==> (m in s[g].members <==> m in p.groups[g]))
    && (forall g, m :: g in s && m in s[g].active ==> m in s[g].members)
  }

  ghost predicate Inv(p: Profile) {
    Shaped(p) && MbrsCounted(p) && GrpsCounted(p) && Numbered(p) && (p.selector.Some? ==> Shadowed(p, p.selector.value))
  }

  // ----- what every operation keeps

  /** Holders depend on the live groups only. */
  lemma HoldersSame(p: Profile, q: Profile, m: nat)
    requires Shaped(p) && Shaped(q) && p.grps == q.grps
    requires forall g :: g in p.grps ==> p.groups[g] == q.groups[g]
    ensures Holders(q, m) == Holders(p, m)
  {
  }

  lemma TotalSame(p: Profile, q: Profile, m: nat)
    requires Shaped(p) && Shaped(q) && p.grps == q.grps && m in p.mbrs && m in q.mbrs
    requires forall g :: g in p.grps ==> p.groups[g] == q.groups[g]
    requires p.mbrRefs[m] == q.mbrRefs[m]
    ensures Total(q, m) == Total(p, m)
  {
    HoldersSame(p, q, m);
  }

  lemma ShadowSame(p: Profile, q: Profile)
    requires Shaped(p) && Shaped(q) && p.grps == q.grps && p.selector == q.selector
    requires forall g :: g in p.grps ==> p.groups[g] == q.groups[g]
    requires p.selector.Some? ==> Shadowed(p, p.selector.value)
    ensures q.selector.Some? ==> Shadowed(q, q.selector.value)
  {
  }

  lemma GrpsSame(p: Profile, q: Profile)
    requires Shaped(p) && Shaped(q) && GrpsCounted(p)
    requires p.grps == q.grps && p.grpCount == q.grpCount && p.grpRefs == q.grpRefs
    ensures GrpsCounted(q)
  {
  }

  lemma NewMemberTotal(p: Profile, q: Profile, m: nat)
    requires Shaped(p) && Shaped(q) && p.grps == q.grps && p.groups == q.groups
    requires m !in p.mbrs && m in q.mbrs && q.mbrRefs[m] == 0
    ensures Total(q, m) == 0
  {
    HoldersSame(p, q, m);
    assert Holders(p, m) == {};
  }

  lemma NewMemberShaped(p: Profile, m: nat, e: Entry)
    requires Shaped(p) && m !in p.mbrs && m <= |p.entries|
    ensures Shaped(NewMember(p, m, e))
  {
  }

  lemma NewMemberCounted(p: Profile, m: nat, e: Entry)
    requires Shaped(p) && MbrsCounted(p) && m !in p.mbrs && m <= |p.entries|
    requires Shaped(NewMember(p, m, e))
    ensures MbrsCounted(NewMember(p, m, e))
  {
    hide Shown, Total;
    ShownCounts(0);
    var q := NewMember(p, m, e);
    NewMemberTotal(p, q, m);
    forall k | k in p.mbrs ensures q.mbrCount[k] == Shown(Total(q, k)) {
      TotalSame(p, q, k);
    }
  }

  lemma NewMemberKeeps(p: Profile, m: nat, e: Entry)
    requires Inv(p) && m !in p.mbrs && m <= |p.entries|
    ensures Inv(NewMember(p, m, e))
  {
    NewMemberShaped(p, m, e);
    hide MbrsCounted, GrpsCounted, Shadowed;
    NewMemberCounted(p, m, e);
    GrpsSame(p, NewMember(p, m, e));
    ShadowSame(p, NewMember(p, m, e));
  }

  /** A member whose counter shows zero is referenced by nothing, unless the counter has
      wrapped around to zero. */
  lemma UnusedMember(p: Profile, m: nat)
    requires Shaped(p) && MbrsCounted(p) && m in p.mbrs
    ensures p.mbrCount[m] == 0 <==> Total(p, m) % COUNT_LIMIT == 0
    ensures Total(p, m) == 0 <==> p.mbrRefs[m] == 0 && forall g :: g in p.grps ==> m !in p.groups[g]
  {
    if Total(p, m) == 0 {
      forall g | g in p.grps ensures m !in p.groups[g] { assert g !in Holders(p, m); }
    }
    if forall g :: g in p.grps ==> m !in p.groups[g] { assert Holders(p, m) == {}; }
  }

  /** Deleting m would take a member out of a live group. */
  ghost predicate TornOut(p: Profile, m: nat)
    requires Shaped(p)
  {
    m in p.mbrs && Wrapped(Total(p, m)) && exists g :: g in p.grps && m in p.groups[g]
  }

  /** Deleting a member leaves a consistent profile exactly when it does not leave a live group
      with a dead member, which takes a counter that has wrapped around to zero. */
  lemma DeleteMemberKeeps(p: Profile, m: nat)
    requires Inv(p)
    ensures Inv(DoDeleteMember(p, m).0) <==> !TornOut(p, m)
  {
    hide Total, Shown, Shadowed, GrpsCounted;
    if m in p.mbrs {
      UnusedMember(p, m);
      if p.mbrCount[m] == 0 {
        var q := DoDeleteMember(p, m).0;
        if TornOut(p, m) {
          var g :| g in p.grps && m in p.groups[g];
          assert m !in q.mbrs && g in q.grps && m in q.groups[g];
        } else {
          TakeOutKeeps(p, m);
        }
      }
    }
  }

  lemma TakeOutKeeps(p: Profile, m: nat)
    requires Inv(p) && m in p.mbrs && p.mbrCount[m] == 0 && forall g :: g in p.grps ==> m !in p.groups[g]
    ensures Inv(DoDeleteMember(p, m).0)
  {
    var q := DoDeleteMember(p, m).0;
    hide Shown, Shadowed, GrpsCounted, Total;
    assert Shaped(q);
    ShadowSame(p, q);
    GrpsSame(p, q);
    forall k | k in q.mbrs ensures q.mbrCount[k] == Shown(Total(q, k)) {
      TotalSame(p, q, k);
    }
  }

  lemma ModifyMemberKeeps(p: Profile, m: nat, e: Entry)
    requires Inv(p)
    ensures Inv(DoModifyMember(p, m, e).0)
  {
    hide Shown, Shadowed, Total;
    var q := DoModifyMember(p, m, e).0;
    ShadowSame(p, q);
    forall k | k in q.mbrs ensures q.mbrCount[k] == Shown(Total(q, k)) {
      TotalSame(p, q, k);
    }
  }

  /** The effect of a change of holders on the total. */
  lemma TotalWith(p: Profile, q: Profile, m: nat, lost: set<nat>)
    requires Shaped(p) && Shaped(q) && m in p.mbrs && m in q.mbrs && p.mbrRefs[m] == q.mbrRefs[m]
    requires Holders(q, m) == Holders(p, m) - lost && lost <= Holders(p, m)
    ensures Total(q, m) == Total(p, m) - |lost|
  {
    assert Holders(p, m) == Holders(q, m) + lost && Holders(q, m) !! lost;
  }

  lemma NewGroupShaped(p: Profile, g: nat)
    requires Shaped(p) && g !in p.grps && g <= |p.groups|
    ensures Shaped(NewGroup(p, g))
  {
  }

  lemma NewGroupCounted(p: Profile, g: nat)
    requires Shaped(p) && MbrsCounted(p) && g !in p.grps && g <= |p.groups|
    requires Shaped(NewGroup(p, g))
    ensures MbrsCounted(NewGroup(p, g))
  {
    hide Shown, Total, Inc, Dec;
    var q := NewGroup(p, g);
    forall k | k in q.mbrs ensures q.mbrCount[k] == Shown(Total(q, k)) {
      assert Holders(q, k) == Holders(p, k) - {};
      TotalWith(p, q, k, {});
    }
  }

  lemma NewGroupGrpsCounted(p: Profile, g: nat)
    requires Shaped(p) && GrpsCounted(p) && g !in p.grps && g <= |p.groups|
    requires Shaped(NewGroup(p, g))
    ensures GrpsCounted(NewGroup(p, g))
  {
    hide Shown;
    ShownCounts(0);
  }

  lemma NewGroupShadowed(p: Profile, g: nat, s: SelGroups)
    requires Shaped(p) && Shadowed(p, s) && g !in p.grps && g <= |p.groups|
    requires Shaped(NewGroup(p, g))
    ensures Shadowed(NewGroup(p, g), s)
  {
    hide Put;
  }

  lemma NewGroupKeeps(p: Profile, g: nat)
    requires Inv(p) && g !in p.grps && g <= |p.groups|
    ensures Inv(NewGroup(p, g))
  {
    NewGroupShaped(p, g);
    hide MbrsCounted, GrpsCounted, Shadowed;
    NewGroupCounted(p, g);
    NewGroupGrpsCounted(p, g);
    if p.selector.Some? { NewGroupShadowed(p, g, p.selector.value); }
  }

  lemma JoinedShaped(p: Profile, m: nat, g: nat)
    requires Shaped(p) && m in p.mbrs && g in p.grps
    ensures Shaped(Joined(p, m, g))
  {
  }

  lemma JoinedCounted(p: Profile, m: nat, g: nat)
    requires Shaped(p) && MbrsCounted(p) && m in p.mbrs && g in p.grps && m !in p.groups[g]
    requires Shaped(Joined(p, m, g))
    ensures MbrsCounted(Joined(p, m, g))
  {
    hide Shown, Total, Inc, MapSel;
    var q := Joined(p, m, g);
    forall k | k in q.mbrs ensures q.mbrCount[k] == Shown(Total(q, k)) {
      if k == m {
        assert Holders(p, m) == Holders(q, m) - {g};
        TotalWith(q, p, m, {g});
        ShownCounts(Total(p, m));
      } else {
        assert Holders(q, k) == Holders(p, k) - {};
        TotalWith(p, q, k, {});
      }
    }
  }

  lemma JoinedShadowed(p: Profile, m: nat, g: nat, s: SelGroups)
    requires Shaped(p) && Shadowed(p, s) && m in p.mbrs && g in p.grps
    requires Shaped(Joined(p, m, g))
    ensures Shadowed(Joined(p, m, g), SelAdd(s, g, m))
  {
    hide Inc;
    assert m in Add(p.groups[g], m);
  }

  lemma JoinedKeeps(p: Profile, m: nat, g: nat)
    requires Inv(p) && m in p.mbrs && g in p.grps && m !in p.groups[g]
    ensures Inv(Joined(p, m, g))
  {
    JoinedShaped(p, m, g);
    hide MbrsCounted, GrpsCounted, Shadowed;
    JoinedCounted(p, m, g);
    GrpsSame(p, Joined(p, m, g));
    if p.selector.Some? { JoinedShadowed(p, m, g, p.selector.value); }
  }

  lemma PartedShaped(p: Profile, m: nat, g: nat)
    requires Shaped(p) && m in p.mbrs && g in p.grps
    ensures Shaped(Parted(p, m, g))
  {
  }

  lemma PartedCounted(p: Profile, m: nat, g: nat)
    requires Shaped(p) && MbrsCounted(p) && m in p.mbrs && g in p.grps && m in p.groups[g]
    requires Shaped(Parted(p, m, g))
    ensures MbrsCounted(Parted(p, m, g))
  {
    hide Shown, Total, Dec, MapSel;
    var q := Parted(p, m, g);
    forall k | k in q.mbrs ensures q.mbrCount[k] == Shown(Total(q, k)) {
      if k == m {
        assert Holders(q, m) == Holders(p, m) - {g};
        TotalWith(p, q, m, {g});
        ShownCounts(Total(p, m));
      } else {
        assert Holders(q, k) == Holders(p, k) - {};
        TotalWith(p, q, k, {});
      }
    }
  }

  lemma PartedShadowed(p: Profile, m: nat, g: nat, s: SelGroups)
    requires Shaped(p) && Shadowed(p, s) && m in p.mbrs && g in p.grps && m in p.groups[g]
    requires Shaped(Parted(p, m, g))
    ensures Shadowed(Parted(p, m, g), SelRemove(s, g, m))
  {
    hide Dec, Remove, SelRemove, MapSel;
    var left := Remove(p.groups[g], m);
    SelRemoveAt(s, g, m);
    if left != [] { assert left[0] in left && left[0] in s[g].members; }
    if k :| k in s[g].members && k != m { assert k in left; }
  }

  /** What the selector knows after m has left g. */
  lemma SelRemoveAt(s: SelGroups, g: nat, m: nat)
    requires g in s
    ensures
      var r := SelRemove(s, g, m);
      && (forall k :: k != g ==> (k in r <==> k in s) && (k in s ==> r[k] == s[k]))
      && (g in r <==> exists k :: k in s[g].members && k != m)
      && (g in r ==> forall k :: k in r[g].members <==> k in s[g].members && k != m)
      && (g in r ==> forall k :: k in r[g].active <==> k in s[g].active && k != m)
  {
    var left := s[g].members - {m};
    if left == {} {
      assert forall k :: k in s[g].members && k != m ==> k in left;
    } else {
      var k :| k in left;
    }
  }

  lemma PartedKeeps(p: Profile, m: nat, g: nat)
    requires Inv(p) && m in p.mbrs && g in p.grps && m in p.groups[g]
    ensures Inv(Parted(p, m, g))
  {
    PartedShaped(p, m, g);
    hide MbrsCounted, GrpsCounted, Shadowed;
    PartedCounted(p, m, g);
    GrpsSame(p, Parted(p, m, g));
    if p.selector.Some? { PartedShadowed(p, m, g, p.selector.value); }
  }

  lemma {:induction false} DecAllAt(counts: seq<nat>, ms: UIntSet, k: nat)
    requires (forall m :: m in ms ==> m < |counts|) && k < |counts|
    ensures DecAll(counts, ms)[k] == if k in ms then Dec(counts[k]) else counts[k]
    decreases |ms|
  {
    hide Dec;
    if ms != [] {
      var front: UIntSet := ms[..|ms| - 1];
      assert ms == front + [ms[|ms| - 1]];
      assert forall m :: m in front ==> m in ms;
      DecAllAt(counts, front, k);
    }
  }

  /** r is s after the members ms have left group g: the entry is dropped when none is left. */
  ghost predicate Emptied(s: SelGroups, r: SelGroups, g: nat, ms: seq<nat>)
    requires g in s
  {
    && (forall k :: k != g ==> (k in r <==> k in s) && (k in s ==> r[k] == s[k]))
    && (g in r <==> exists m :: m in s[g].members && m !in ms)
    && (g in r ==> forall m :: m in r[g].members <==> m in s[g].members && m !in ms)
  }

  lemma EmptiedStep(s: SelGroups, before: SelGroups, g: nat, front: seq<nat>, last: nat)
    requires g in s && Emptied(s, before, g, front) && last in s[g].members && last !in front
    ensures Emptied(s, SelRemove(before, g, last), g, front + [last])
  {
    var ms := front + [last];
    assert last in before[g].members;
    var left := before[g].members - {last};
    assert forall m :: m in left <==> m in s[g].members && m !in ms;
    if left != {} { var m :| m in left; }
  }

  /** Removing a group's members one by one empties its entry and then drops it. */
  lemma {:induction false} SelRemoveAllEffect(s: SelGroups, g: nat, ms: UIntSet)
    requires g in s && s[g].members != {}
    requires forall m :: m in ms ==> m in s[g].members
    ensures Emptied(s, SelRemoveAll(s, g, ms), g, ms)
    decreases |ms|
  {
    if ms == [] {
      var m :| m in s[g].members;
    } else {
      var front: UIntSet, last := ms[..|ms| - 1], ms[|ms| - 1];
      assert ms == front + [last];
      assert (forall m :: m in front ==> m in ms) && last in ms && last !in front;
      hide Emptied, SelRemove;
      SelRemoveAllEffect(s, g, front);
      EmptiedStep(s, SelRemoveAll(s, g, front), g, front, last);
    }
  }

  lemma WithoutGroupShaped(p: Profile, g: nat)
    requires Shaped(p) && g in p.grps
    ensures Shaped(WithoutGroup(p, g))
  {
  }

  lemma WithoutGroupCounted(p: Profile, g: nat)
    requires Shaped(p) && MbrsCounted(p) && g in p.grps
    requires Shaped(WithoutGroup(p, g))
    ensures MbrsCounted(WithoutGroup(p, g))
  {
    hide Shown, Total, Dec, DecAll, MapSel;
    var q := WithoutGroup(p, g);
    assert forall m :: m in p.groups[g] ==> m in p.mbrs;
    forall k | k in q.mbrs ensures q.mbrCount[k] == Shown(Total(q, k)) {
      DecAllAt(p.mbrCount, p.groups[g], k);
      var lost := if k in p.groups[g] then {g} else {};
      assert Holders(q, k) == Holders(p, k) - lost;
      TotalWith(p, q, k, lost);
      ShownCounts(Total(p, k));
    }
  }

  lemma SelRemoveAllDrops(p: Profile, g: nat, s: SelGroups)
    requires Shaped(p) && Shadowed(p, s) && g in p.grps
    ensures
      var r := SelRemoveAll(s, g, p.groups[g]);
      g !in r && forall k :: k != g ==> (k in r <==> k in s) && (k in s ==> r[k] == s[k])
  {
    if p.groups[g] != [] {
      hide SelRemoveAll;
      assert p.groups[g][0] in s[g].members;
      SelRemoveAllEffect(s, g, p.groups[g]);
    }
  }

  lemma WithoutGroupShadowed(p: Profile, g: nat, s: SelGroups)
    requires Shaped(p) && Shadowed(p, s) && g in p.grps
    requires Shaped(WithoutGroup(p, g))
    ensures Shadowed(WithoutGroup(p, g), SelRemoveAll(s, g, p.groups[g]))
  {
    hide DecAll, SelRemoveAll, MapSel;
    SelRemoveAllDrops(p, g, s);
    assert WithoutGroup(p, g).groups == p.groups && WithoutGroup(p, g).grps == p.grps - {g};
    hide WithoutGroup;
  }

  lemma WithoutGroupGrps(p: Profile, g: nat)
    requires Shaped(p) && GrpsCounted(p) && Numbered(p) && g in p.grps
    requires Shaped(WithoutGroup(p, g))
    ensures GrpsCounted(WithoutGroup(p, g)) && Numbered(WithoutGroup(p, g))
  {
    hide DecAll, MapSel, Shown;
  }

  lemma WithoutGroupKeeps(p: Profile, g: nat)
    requires Inv(p) && g in p.grps
    ensures Inv(WithoutGroup(p, g))
  {
    WithoutGroupShaped(p, g);
    hide MbrsCounted, GrpsCounted, Numbered, Shadowed;
    WithoutGroupCounted(p, g);
    WithoutGroupGrps(p, g);
    if p.selector.Some? { WithoutGroupShadowed(p, g, p.selector.value); }
  }

  ghost predicate MbrRefStep(p: Profile, q: Profile, m: nat)
    requires Shaped(p) && m in p.mbrs
  {
    && q == p.(mbrCount := q.mbrCount, mbrRefs := q.mbrRefs)
    && (|| (q.mbrRefs == p.mbrRefs[m := p.mbrRefs[m] + 1] && q.mbrCount == p.mbrCount[m := Inc(p.mbrCount[m])])
        || (p.mbrRefs[m] > 0 && q.mbrRefs == p.mbrRefs[m := p.mbrRefs[m] - 1]
            && q.mbrCount == p.mbrCount[m := Dec(p.mbrCount[m])]))
  }

  lemma MbrRefCounted(p: Profile, q: Profile, m: nat)
    requires Shaped(p) && MbrsCounted(p) && m in p.mbrs && MbrRefStep(p, q, m) && Shaped(q)
    ensures MbrsCounted(q)
  {
    hide Shown, Inc, Dec;
    ShownCounts(Total(p, m));
    forall k | k in q.mbrs ensures q.mbrCount[k] == Shown(Total(q, k)) {
      HoldersSame(p, q, k);
      assert k != m ==> Total(q, k) == Total(p, k);
    }
  }

  lemma MbrRefKeeps(p: Profile, q: Profile, m: nat)
    requires Inv(p) && m in p.mbrs && MbrRefStep(p, q, m)
    ensures Inv(q)
  {
    hide MbrsCounted, GrpsCounted, Shadowed, Inc, Dec;
    assert Shaped(q);
    ShadowSame(p, q);
    GrpsSame(p, q);
    MbrRefCounted(p, q, m);
  }

  lemma GrpRefKeeps(p: Profile, q: Profile, g: nat)
    requires Inv(p) && g in p.grps && g < |p.grpCount|
    requires q == p.(grpCount := q.grpCount, grpRefs := q.grpRefs)
    requires
      || (q.grpRefs == p.grpRefs[g := p.grpRefs[g] + 1] && q.grpCount == p.grpCount[g := Inc(p.grpCount[g])])
      || (p.grpRefs[g] > 0 && q.grpRefs == p.grpRefs[g := p.grpRefs[g] - 1]
          && q.grpCount == p.grpCount[g := Dec(p.grpCount[g])])
    ensures Inv(q)
  {
    hide Shown, Inc, Dec, Shadowed, Total;
    assert Shaped(q);
    ShadowSame(p, q);
    hide Shaped;
    GrpRefCounted(p, q, g);
    forall k | k in q.mbrs ensures q.mbrCount[k] == Shown(Total(q, k)) {
      TotalSame(p, q, k);
    }
  }

  lemma GrpRefCounted(p: Profile, q: Profile, g: nat)
    requires Shaped(p) && Shaped(q) && GrpsCounted(p) && g in p.grps && g < |p.grpCount| && q.grps == p.grps
    requires
      || (q.grpRefs == p.grpRefs[g := p.grpRefs[g] + 1] && q.grpCount == p.grpCount[g := Inc(p.grpCount[g])])
      || (p.grpRefs[g] > 0 && q.grpRefs == p.grpRefs[g := p.grpRefs[g] - 1]
          && q.grpCount == p.grpCount[g := Dec(p.grpCount[g])])
    ensures GrpsCounted(q)
  {
    hide Shown, Inc, Dec;
    ShownCounts(p.grpRefs[g]);
  }

  lemma SelectorKeeps(p: Profile, q: Profile)
    requires Inv(p) && q == p.(selector := q.selector)
    requires q.selector.Some? ==> Shadowed(q, q.selector.value)
    ensures Inv(q)
  {
    assert Shaped(q);
    hide Shown, Total, Shadowed;
    GrpsSame(p, q);
    forall k | k in q.mbrs ensures q.mbrCount[k] == Shown(Total(q, k)) {
      TotalSame(p, q, k);
    }
  }

  lemma ActivateShadowed(p: Profile, s: SelGroups, g: nat, m: nat)
    requires Shaped(p) && Shadowed(p, s)
    ensures Shadowed(p, SelActivate(s, g, m).0) && Shadowed(p, SelDeactivate(s, g, m).0)
  {
  }

  /** reset_state forgets to clear the group handles: it leaves a consistent state exactly
      when no group is live. */
  lemma ResetKeepsIff(p: Profile)
    requires Inv(p)
    ensures Inv(DoReset(p)) <==> p.grps == {}
  {
    var q := DoReset(p);
    if p.grps == {} {
      assert Shaped(q);
    } else {
      var g :| g in p.grps;
      assert Inv(q) ==> g < |q.groups|;
    }
  }

  /** After a reset with live groups whose handles start at 0, the next group would be put
      past the end of the group vector: the assertion in insert_group fails. */
  lemma ResetThenCreateGroupAsserts(p: Profile)
    requires 0 in p.grps
    ensures Fresh(DoReset(p).grps) > |DoReset(p).groups|
  {
  }

  // ----- every run

  /** What callers and tables may do: table references go to live handles and are given
      back at most once, and handles fit the index word. */
  ghost predicate Allowed(p: Profile, op: Op)
    requires Shaped(p)
  {
    match op
    case AddMember(e) => Fresh(p.mbrs) <= INDEX_MASK
    case DeleteMember(m) => true
    case ModifyMember(m, e) => true
    case CreateGroup => Fresh(p.grps) <= INDEX_MASK
    case DeleteGroup(g) => true
    case AddToGroup(m, g) => true
    case RemoveFromGroup(m, g) => true
    case RefIncrease(i) => Holds(p, i, 0)
    case RefDecrease(i) => Holds(p, i, 1)
    case Activate(g, m) => p.selector.Some?
    case Deactivate(g, m) => p.selector.Some?
    case Reset => true
  }

  /** Two operations can leave an inconsistent profile: reset_state while a group is live, and
      the deletion of a member whose counter has wrapped around to zero under a live group. */
  ghost predicate Safe(p: Profile, op: Op)
    requires Shaped(p)
  {
    match op
    case DeleteMember(m) => !TornOut(p, m)
    case Reset => p.grps == {}
    case _ => true
  }

  ghost function Step(p: Profile, op: Op): (Profile, Code)
    requires Shaped(p) && Allowed(p, op)
  {
    match op
    case AddMember(e) => DoAddMember(p, e)
    case DeleteMember(m) => DoDeleteMember(p, m)
    case ModifyMember(m, e) => DoModifyMember(p, m, e)
    case CreateGroup => DoCreateGroup(p)
    case DeleteGroup(g) => DoDeleteGroup(p, g)
    case AddToGroup(m, g) => DoAddToGroup(p, m, g)
    case RemoveFromGroup(m, g) => DoRemoveFromGroup(p, m, g)
    case RefIncrease(i) => (DoRefIncrease(p, i), SUCCESS)
    case RefDecrease(i) => (DoRefDecrease(p, i), SUCCESS)
    case Activate(g, m) => DoActivate(p, g, m)
    case Deactivate(g, m) => DoDeactivate(p, g, m)
    case Reset => (DoReset(p), SUCCESS)
  }

  lemma MembershipKeeps(p: Profile, op: Op)
    requires Inv(p) && Allowed(p, op)
    requires op.AddMember? || op.ModifyMember? || op.CreateGroup? || op.DeleteGroup? || op.AddToGroup? || op.RemoveFromGroup?
    ensures Inv(Step(p, op).0)
  {
    assert Shaped(p);
    hide Inv, Shaped, TornOut, Holds, IsSmallestFree;
    hide DoAddMember, DoDeleteMember, DoModifyMember, DoCreateGroup, DoDeleteGroup, DoAddToGroup, DoRemoveFromGroup,
         DoRefIncrease, DoRefDecrease, DoActivate, DoDeactivate, DoReset;
    if op.AddMember? { AddMemberKeeps(p, op.entry); }
    else if op.ModifyMember? { ModifyMemberKeeps(p, op.m, op.entry); }
    else if op.CreateGroup? { CreateGroupKeeps(p); }
    else if op.DeleteGroup? { DeleteGroupKeeps(p, op.g); }
    else if op.AddToGroup? { AddToGroupKeeps(p, op.m, op.g); }
    else { RemoveFromGroupKeeps(p, op.m, op.g); }
  }

  lemma ReferencesKeep(p: Profile, op: Op)
    requires Inv(p) && Allowed(p, op)
    requires op.RefIncrease? || op.RefDecrease? || op.Activate? || op.Deactivate?
    ensures Inv(Step(p, op).0)
  {
    assert Shaped(p);
    hide Inv, Shaped, TornOut, Holds, IsSmallestFree;
    hide DoAddMember, DoDeleteMember, DoModifyMember, DoCreateGroup, DoDeleteGroup, DoAddToGroup, DoRemoveFromGroup,
         DoRefIncrease, DoRefDecrease, DoActivate, DoDeactivate, DoReset;
    if op.RefIncrease? || op.RefDecrease? { RefKeeps(p, op.index); }
    else { ActivationKeeps(p, op.g, op.m); }
  }

  /** Every operation keeps the profile consistent if and only if it is safe. */
  lemma StepKeeps(p: Profile, op: Op)
    requires Inv(p) && Allowed(p, op)
    ensures Inv(Step(p, op).0) <==> Safe(p, op)
  {
    assert Shaped(p);
    hide Inv, Shaped, Allowed, TornOut, DoDeleteMember, DoReset;
    if op.DeleteMember? {
      DeleteMemberKeeps(p, op.m);
    } else if op.Reset? {
      ResetKeepsIff(p);
    } else {
      hide Step;
      if op.RefIncrease? || op.RefDecrease? || op.Activate? || op.Deactivate? {
        ReferencesKeep(p, op);
      } else {
        MembershipKeeps(p, op);
      }
    }
  }

  lemma DeleteGroupKeeps(p: Profile, g: nat)
    requires Inv(p)
    ensures Inv(DoDeleteGroup(p, g).0)
  {
    hide MbrsCounted, GrpsCounted, Numbered, Shadowed, WithoutGroup;
    if g in p.grps { WithoutGroupKeeps(p, g); }
  }

  lemma AddToGroupKeeps(p: Profile, m: nat, g: nat)
    requires Inv(p)
    ensures Inv(DoAddToGroup(p, m, g).0)
  {
    hide MbrsCounted, GrpsCounted, Numbered, Shadowed, Joined;
    if m in p.mbrs && g in p.grps && m !in p.groups[g] { JoinedKeeps(p, m, g); }
  }

  lemma RemoveFromGroupKeeps(p: Profile, m: nat, g: nat)
    requires Inv(p)
    ensures Inv(DoRemoveFromGroup(p, m, g).0)
  {
    hide MbrsCounted, GrpsCounted, Numbered, Shadowed, Parted;
    if m in p.mbrs && g in p.grps && m in p.groups[g] { PartedKeeps(p, m, g); }
  }

  lemma AddMemberKeeps(p: Profile, e: Entry)
    requires Inv(p)
    ensures Inv(DoAddMember(p, e).0)
  {
    var m := Fresh(p.mbrs);
    SmallestFits(p.mbrs, m, |p.entries|);
    NewMemberKeeps(p, m, e);
  }

  lemma CreateGroupKeeps(p: Profile)
    requires Inv(p)
    ensures Inv(DoCreateGroup(p).0)
  {
    var g := Fresh(p.grps);
    SmallestFits(p.grps, g, |p.groups|);
    NewGroupKeeps(p, g);
  }

  lemma RefKeeps(p: Profile, i: Index)
    requires Inv(p)
    ensures Holds(p, i, 0) ==> Inv(DoRefIncrease(p, i))
    ensures Holds(p, i, 1) ==> Inv(DoRefDecrease(p, i))
  {
    hide MbrsCounted, GrpsCounted, Numbered, Shadowed, Inc, Dec;
    match i
    case Mbr(m) =>
      if Holds(p, i, 0) { MbrRefKeeps(p, DoRefIncrease(p, i), m); }
      if Holds(p, i, 1) { MbrRefKeeps(p, DoRefDecrease(p, i), m); }
    case Grp(g) =>
      if Holds(p, i, 0) { GrpRefKeeps(p, DoRefIncrease(p, i), g); }
      if Holds(p, i, 1) { GrpRefKeeps(p, DoRefDecrease(p, i), g); }
  }

  lemma ActivationKeeps(p: Profile, g: nat, m: nat)
    requires Inv(p) && p.selector.Some?
    ensures Inv(DoActivate(p, g, m).0) && Inv(DoDeactivate(p, g, m).0)
  {
    hide MbrsCounted, GrpsCounted, Numbered, SelActivate, SelDeactivate;
    var s := p.selector.value;
    ActivateShadowed(p, s, g, m);
    var q, r := p.(selector := Some(SelActivate(s, g, m).0)), p.(selector := Some(SelDeactivate(s, g, m).0));
    assert Shaped(q) && Shaped(r);
    ShadowFrame(p, q, q.selector.value);
    ShadowFrame(p, r, r.selector.value);
    SelectorKeeps(p, q);
    SelectorKeeps(p, r);
  }

  lemma ShadowFrame(p: Profile, q: Profile, s: SelGroups)
    requires Shaped(p) && Shaped(q) && p.grps == q.grps && p.groups == q.groups && Shadowed(p, s)
    ensures Shadowed(q, s)
  {
  }

  /** p after the operations, each allowed and safe where it is made. */
  ghost predicate Runs(p: Profile, ops: seq<Op>, q: Profile)
    decreases |ops|
  {
    if ops == [] then p == q
    else Shaped(p) && Allowed(p, ops[0]) && Safe(p, ops[0]) && Runs(Step(p, ops[0]).0, ops[1..], q)
  }

  /** Whatever the control plane and the tables do, the profile stays consistent: counters
      count references, handles index their vectors, num_members and num_groups are exact,
      and the selector mirrors the groups. */
  lemma {:induction false} RunKeeps(p: Profile, ops: seq<Op>, q: Profile)
    requires Inv(p) && Runs(p, ops, q)
    ensures Inv(q)
    decreases |ops|
  {
    hide Inv, Shaped, Allowed, Safe, Step;
    if ops != [] {
      StepKeeps(p, ops[0]);
      RunKeeps(Step(p, ops[0]).0, ops[1..], q);
    }
  }

  /** A new profile, with the built-in selector or a freshly installed one. */
  lemma InitHolds(installed: bool)
    ensures Inv(Init(if installed then Some(map[]) else None))
  {
    assert Shaped(Init(if installed then Some(map[]) else None));
  }

  // ----- what the invariant is for

  /** The handles below the smallest unused one are all in use. */
  lemma SmallestIsFew(s: set<nat>, h: nat)
    requires IsSmallestFree(s, h)
    ensures h <= |s|
  {
    var rest := s - Range(h);
    assert s == Range(h) + rest;
  }

  /** There is room in the index word for 2^24 members and as many groups. */
  lemma RoomInIndexWord(p: Profile, e: Entry)
    requires Shaped(p)
    ensures |p.mbrs| < 0x100_0000 ==> Allowed(p, Op.AddMember(e))
    ensures |p.grps| < 0x100_0000 ==> Allowed(p, Op.CreateGroup)
  {
    SmallestIsFew(p.mbrs, Fresh(p.mbrs));
    SmallestIsFew(p.grps, Fresh(p.grps));
  }

  /** When delete_member succeeds. */
  lemma DeleteMemberIff(p: Profile, m: nat)
    requires Inv(p)
    ensures DoDeleteMember(p, m).1 == SUCCESS <==> m in p.mbrs && Total(p, m) % 0x1_0000_0000 == 0
  {
    hide Total, Shadowed, GrpsCounted, Numbered, Shown;
    if m in p.mbrs { UnusedMember(p, m); }
  }

  /** With fewer than 2^32 references a member in use is always refused. */
  lemma MemberInUseIsRefused(p: Profile, m: nat)
    requires Inv(p) && m in p.mbrs && 0 < Total(p, m) < 0x1_0000_0000
    ensures DoDeleteMember(p, m) == (p, MBR_STILL_USED)
  {
    hide Total, Shadowed, GrpsCounted, Numbered;
    UnusedMember(p, m);
  }

  /** It succeeds for exactly the live members that nothing refers to, unless m has a non-zero
      multiple of 2^32 references: then, and only then, a referenced member is deleted. */
  lemma DeleteMemberRightIff(p: Profile, m: nat)
    requires Inv(p)
    ensures
      (DoDeleteMember(p, m).1 == SUCCESS <==>
        m in p.mbrs && p.mbrRefs[m] == 0 && forall g :: g in p.grps ==> m !in p.groups[g])
      <==> !(m in p.mbrs && Wrapped(Total(p, m)))
  {
    DeleteMemberIff(p, m);
    hide Total, Shadowed, GrpsCounted, DoDeleteMember;
    if m in p.mbrs { UnusedMember(p, m); }
  }

  /** When delete_group succeeds, and when that is for exactly the live groups that no table
      refers to. */
  lemma DeleteGroupRightIff(p: Profile, g: nat)
    requires Inv(p)
    ensures DoDeleteGroup(p, g).1 == SUCCESS <==> g in p.grps && p.grpRefs[g] % 0x1_0000_0000 == 0
    ensures g in p.grps && 0 < p.grpRefs[g] < 0x1_0000_0000 ==> DoDeleteGroup(p, g) == (p, GRP_STILL_USED)
    ensures
      (DoDeleteGroup(p, g).1 == SUCCESS <==> g in p.grps && p.grpRefs[g] == 0)
      <==> !(g in p.grps && Wrapped(p.grpRefs[g]))
  {
    hide Shadowed, MbrsCounted, WithoutGroup;
    if g in p.grps { assert p.grpCount[g] == Shown(p.grpRefs[g]); }
  }

  /** choose_from_group: the member at index h modulo the group's size, or modulo the number
      of activated members when a selector is installed; None where the code divides by zero
      or throws. */
  function Choose(p: Profile, g: nat, h: nat): Option<nat>
    requires g < |p.groups|
  {
    match p.selector
    case None => if p.groups[g] == [] then None else Some(p.groups[g][h % |p.groups[g]|])
    case Some(s) =>
      if g !in s || s[g].active == [] then None else Some(s[g].active[h % |s[g].active|])
  }

  /** The members of a group that lookup may choose: all of them, or under a selector those
      that are activated. */
  ghost function Eligible(p: Profile, g: nat): set<nat>
    requires Shaped(p) && g in p.grps
  {
    set m | m in p.mbrs && m in p.groups[g] &&
            (p.selector.Some? ==> g in p.selector.value && m in p.selector.value[g].active)
  }

  /** The sequence that the code counts off. */
  ghost function Counted(p: Profile, g: nat): UIntSet
    requires Shaped(p) && g in p.grps
  {
    match p.selector
    case None => p.groups[g]
    case Some(s) => if g in s then s[g].active else []
  }

  lemma CountedIsEligible(p: Profile, g: nat)
    requires Inv(p) && g in p.grps
    ensures Members(Counted(p, g)) == Eligible(p, g)
  {
    hide MbrsCounted, GrpsCounted, Numbered;
  }

  lemma ChoosesNth(p: Profile, g: nat, h: nat)
    requires Shaped(p) && g in p.grps
    ensures Choose(p, g, h) == if Counted(p, g) == [] then None else Some(Counted(p, g)[h % |Counted(p, g)|])
  {
  }

  /** lookup through a live group chooses whenever some member is eligible, and then a live
      eligible member with an entry: the one with h smaller ones for a hash h below their
      number, and for a larger hash the one for what is left over. */
  lemma ChooseMeans(p: Profile, g: nat, h: nat)
    requires Inv(p) && g in p.grps
    ensures Choose(p, g, h).Some? <==> Eligible(p, g) != {}
    ensures Choose(p, g, h).Some? ==> IsChoice(p, g, h, Choose(p, g, h).value)
    ensures Choose(p, g, h + |Eligible(p, g)|) == Choose(p, g, h)
  {
    hide MbrsCounted, GrpsCounted, Numbered, Shadowed, Choose, Counted, Smaller;
    CountedIsEligible(p, g);
    var s, n := Counted(p, g), |Eligible(p, g)|;
    Size(s);
    ChoosesNth(p, g, h);
    ChoosesNth(p, g, h + n);
    if s == [] {
      assert Eligible(p, g) == {};
    } else {
      assert s[0] in s;
      NthIsRank(s, h % n);
      assert (h + n) % n == h % n by { DropOne(h, n); }
    }
  }

  /** m is the member that group g offers for hash h. */
  ghost predicate IsChoice(p: Profile, g: nat, h: nat, m: nat)
    requires Shaped(p) && g in p.grps
  {
    m in Eligible(p, g) && m in p.mbrs && m < |p.entries| && m in p.groups[g] &&
    |Smaller(Eligible(p, g), m)| == h % |Eligible(p, g)|
  }

  lemma DropOne(h: nat, n: nat)
    requires n > 0
    ensures (h + n) % n == h % n
  {
    var q, r := h / n, h % n;
    assert h + n == n * (q + 1) + r;
    ModUnique(h + n, n, q + 1, r);
  }

  /** The member a table index leads to, directly or through a group; None where lookup
      asserts, divides by zero or throws. */
  ghost function Target(p: Profile, i: Index, h: nat): Option<nat>
    requires Shaped(p)
  {
    match i
    case Mbr(m) => if m in p.mbrs then Some(m) else None
    case Grp(g) => if g in p.grps then Choose(p, g, h) else None
  }
}
