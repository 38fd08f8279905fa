/** The action profile as its users see it: maps of members and groups, without counters,
    vectors, handle bit sets or the selector's own copy. The state machine of ProfileModel
    refines it, result codes included. */
module ProfileRefinement {
  import opened Common
  import opened Handles
  import opened UIntSets
  import opened ProfileModel

  /** The live members with their entries, the live groups with their members, what tables
      hold, and under a selector the activated members of every live group. */
  datatype View = View(
    members: map<nat, Entry>, groups: map<nat, set<nat>>,
    mbrRefs: map<nat, nat>, grpRefs: map<nat, nat>, active: Option<map<nat, set<nat>>>)

  ghost predicate IsMemberOf(v: View, m: nat, g: nat) {
    g in v.groups && m in v.groups[g]
  }

  ghost predicate InSomeGroup(v: View, m: nat) {
    exists g: nat :: IsMemberOf(v, m, g)
  }

  /** The activated members after a change of group g. */
  ghost function Activation(v: View, g: nat, ms: set<nat>): Option<map<nat, set<nat>>> {
    match v.active case None => None case Some(a) => Some(a[g := ms])
  }

  ghost function Active(v: View, g: nat): set<nat> {
    if v.active.Some? && g in v.active.value then v.active.value[g] else {}
  }

  ghost function SpecAddMember(v: View, e: Entry): (View, Code) {
    if |e.data| != e.fn.numParams then (v, BAD_ACTION_DATA)
    else
      var m := Fresh(v.members.Keys);
      (v.(members := v.members[m := e], mbrRefs := v.mbrRefs[m := 0]), SUCCESS)
  }

  ghost function SpecDeleteMember(v: View, m: nat): (View, Code) {
    if m !in v.members then (v, INVALID_MBR_HANDLE)
    else if (m in v.mbrRefs && v.mbrRefs[m] > 0) || InSomeGroup(v, m) then (v, MBR_STILL_USED)
    else (v.(members := v.members - {m}, mbrRefs := v.mbrRefs - {m}), SUCCESS)
  }

  ghost function SpecModifyMember(v: View, m: nat, e: Entry): (View, Code) {
    if |e.data| != e.fn.numParams then (v, BAD_ACTION_DATA)
    else if m !in v.members then (v, INVALID_MBR_HANDLE)
    else (v.(members := v.members[m := e]), SUCCESS)
  }

  ghost function SpecCreateGroup(v: View): (View, Code) {
    var g := Fresh(v.groups.Keys);
    (v.(groups := v.groups[g := {}], grpRefs := v.grpRefs[g := 0], active := Activation(v, g, {})), SUCCESS)
  }

  ghost function SpecDeleteGroup(v: View, g: nat): (View, Code) {
    if g !in v.groups then (v, INVALID_GRP_HANDLE)
    else if g in v.grpRefs && v.grpRefs[g] > 0 then (v, GRP_STILL_USED)
    else
      (v.(groups := v.groups - {g}, grpRefs := v.grpRefs - {g},
          active := if v.active.Some? then Some(v.active.value - {g}) else None), SUCCESS)
  }

  ghost function SpecAddToGroup(v: View, m: nat, g: nat): (View, Code) {
    if m !in v.members then (v, INVALID_MBR_HANDLE)
    else if g !in v.groups then (v, INVALID_GRP_HANDLE)
    else if m in v.groups[g] then (v, MBR_ALREADY_IN_GRP)
    else
      (v.(groups := v.groups[g := v.groups[g] + {m}], active := Activation(v, g, Active(v, g) + {m})), SUCCESS)
  }

  ghost function SpecRemoveFromGroup(v: View, m: nat, g: nat): (View, Code) {
    if m !in v.members then (v, INVALID_MBR_HANDLE)
    else if g !in v.groups then (v, INVALID_GRP_HANDLE)
    else if m !in v.groups[g] then (v, MBR_NOT_IN_GRP)
    else
      (v.(groups := v.groups[g := v.groups[g] - {m}], active := Activation(v, g, Active(v, g) - {m})), SUCCESS)
  }

  ghost function SpecRef(v: View, i: Index, change: int): View {
    match i
    case Mbr(m) => if m in v.mbrRefs && v.mbrRefs[m] + change >= 0 then v.(mbrRefs := v.mbrRefs[m := v.mbrRefs[m] + change]) else v
    case Grp(g) => if g in v.grpRefs && v.grpRefs[g] + change >= 0 then v.(grpRefs := v.grpRefs[g := v.grpRefs[g] + change]) else v
  }

  ghost function SpecActivate(v: View, g: nat, m: nat, on: bool): (View, Code) {
    if !IsMemberOf(v, m, g) then (v, MBR_NOT_IN_GRP)
    else if (m in Active(v, g)) == on then (v, ERROR)
    else (v.(active := Activation(v, g, if on then Active(v, g) + {m} else Active(v, g) - {m})), SUCCESS)
  }

  ghost function SpecReset(v: View): View {
    View(map[], map[], map[], map[], if v.active.Some? then Some(map[]) else None)
  }

  ghost function Spec(v: View, op: Op): (View, Code) {
    match op
    case AddMember(e) => SpecAddMember(v, e)
    case DeleteMember(m) => SpecDeleteMember(v, m)
    case ModifyMember(m, e) => SpecModifyMember(v, m, e)
    case CreateGroup => SpecCreateGroup(v)
    case DeleteGroup(g) => SpecDeleteGroup(v, g)
    case AddToGroup(m, g) => SpecAddToGroup(v, m, g)
    case RemoveFromGroup(m, g) => SpecRemoveFromGroup(v, m, g)
    case RefIncrease(i) => (SpecRef(v, i, 1), SUCCESS)
    case RefDecrease(i) => (SpecRef(v, i, -1), SUCCESS)
    case Activate(g, m) => SpecActivate(v, g, m, true)
    case Deactivate(g, m) => SpecActivate(v, g, m, false)
    case Reset => (SpecReset(v), SUCCESS)
  }

  // ----- what a state shows

  ghost function Elems(s: seq<nat>): (r: set<nat>)
    ensures forall x :: x in r <==> x in s
  {
    set x | x in s
  }

  ghost function ActiveIn(s: SelGroups, g: nat): set<nat> {
    if g in s then Elems(s[g].active) else {}
  }

  ghost function ActiveOf(selector: Option<SelGroups>, grps: set<nat>): (r: Option<map<nat, set<nat>>>)
    ensures r.Some? <==> selector.Some?
  {
    match selector case None => None case Some(s) => Some(map g | g in grps :: ActiveIn(s, g))
  }

  ghost function MembersOf(p: Profile): map<nat, Entry>
    requires Shaped(p)
  {
    map m | m in p.mbrs :: p.entries[m]
  }

  ghost function GroupsOf(p: Profile): map<nat, set<nat>>
    requires Shaped(p)
  {
    map g | g in p.grps :: Elems(p.groups[g])
  }

  ghost function ViewOf(p: Profile): View
    requires Shaped(p)
  {
    View(MembersOf(p), GroupsOf(p), p.mbrRefs, p.grpRefs, ActiveOf(p.selector, p.grps))
  }

  /** The counter of the member or group that is to be deleted has not wrapped around to zero. */
  ghost predicate Unwrapped(p: Profile, op: Op)
    requires Shaped(p)
  {
    (op.DeleteMember? && op.m in p.mbrs ==> !Wrapped(Total(p, op.m))) &&
    (op.DeleteGroup? && op.g in p.grps ==> !Wrapped(p.grpRefs[op.g]))
  }

  // ----- how the view follows the fields

  lemma MembersPut(p: Profile, q: Profile, m: nat, e: Entry)
    requires Shaped(p) && Shaped(q) && q.mbrs == p.mbrs + {m} && q.entries[m] == e
    requires forall k :: k in p.mbrs && k != m ==> q.entries[k] == p.entries[k]
    ensures MembersOf(q) == MembersOf(p)[m := e]
  {
  }

  /** Members are those that are kept. */
  lemma MembersKept(p: Profile, q: Profile, gone: set<nat>)
    requires Shaped(p) && Shaped(q) && q.mbrs == p.mbrs - gone && q.entries == p.entries
    ensures MembersOf(q) == MembersOf(p) - gone
    ensures gone == {} ==> MembersOf(q) == MembersOf(p)
  {
  }

  lemma GroupsPut(p: Profile, q: Profile, g: nat, ms: set<nat>)
    requires Shaped(p) && Shaped(q) && q.grps == p.grps + {g} && Elems(q.groups[g]) == ms
    requires forall k :: k in p.grps && k != g ==> q.groups[k] == p.groups[k]
    ensures GroupsOf(q) == GroupsOf(p)[g := ms]
  {
  }

  lemma GroupsKept(p: Profile, q: Profile, gone: set<nat>)
    requires Shaped(p) && Shaped(q) && q.grps == p.grps - gone && q.groups == p.groups
    ensures GroupsOf(q) == GroupsOf(p) - gone
    ensures gone == {} ==> GroupsOf(q) == GroupsOf(p)
  {
  }

  lemma ActivePut(s: SelGroups, r: SelGroups, grps: set<nat>, g: nat, ms: set<nat>)
    requires ActiveIn(r, g) == ms
    requires forall k :: k in grps && k != g ==> ActiveIn(r, k) == ActiveIn(s, k)
    ensures ActiveOf(Some(r), grps + {g}).value == ActiveOf(Some(s), grps).value[g := ms]
  {
    hide ActiveIn;
  }

  lemma ActiveKept(s: SelGroups, r: SelGroups, grps: set<nat>, g: nat)
    requires forall k :: k in grps && k != g ==> ActiveIn(r, k) == ActiveIn(s, k)
    ensures ActiveOf(Some(r), grps - {g}).value == ActiveOf(Some(s), grps).value - {g}
  {
    hide ActiveIn;
  }

  /** What the view lists is what is live. */
  lemma ViewKeys(p: Profile)
    requires Shaped(p)
    ensures MembersOf(p).Keys == p.mbrs && GroupsOf(p).Keys == p.grps
    ensures forall g :: g in p.grps ==> GroupsOf(p)[g] == Elems(p.groups[g])
    ensures p.selector.Some? ==> forall g :: Active(ViewOf(p), g) == if g in p.grps then ActiveIn(p.selector.value, g) else {}
  {
    hide Elems, ActiveIn;
  }

  // ----- every operation

  lemma AddMemberRefines(p: Profile, e: Entry)
    requires Inv(p) && Shaped(DoAddMember(p, e).0)
    ensures (ViewOf(DoAddMember(p, e).0), DoAddMember(p, e).1) == SpecAddMember(ViewOf(p), e)
  {
    hide MbrsCounted, GrpsCounted, Shadowed, Numbered, IsSmallestFree, MembersOf, GroupsOf, ActiveOf;
    ViewKeys(p);
    var q := DoAddMember(p, e).0;
    if |e.data| == e.fn.numParams {
      var m := Fresh(p.mbrs);
      SmallestFits(p.mbrs, m, |p.entries|);
      MembersPut(p, q, m, e);
      GroupsKept(p, q, {});
    }
  }

  lemma InUse(p: Profile, m: nat)
    requires Shaped(p)
    ensures InSomeGroup(ViewOf(p), m) <==> exists g :: g in p.grps && m in p.groups[g]
  {
    ViewKeys(p);
    hide GroupsOf, MembersOf, ActiveOf;
    if g: nat :| IsMemberOf(ViewOf(p), m, g) { assert g in p.grps && m in p.groups[g]; }
    if g :| g in p.grps && m in p.groups[g] { assert IsMemberOf(ViewOf(p), m, g); }
  }

  /** Right exactly when the counter has not wrapped around to zero; otherwise a member in use is
      reported as deleted. */
  lemma DeleteMemberRefines(p: Profile, m: nat)
    requires Inv(p)
    ensures DoDeleteMember(p, m).1 == SpecDeleteMember(ViewOf(p), m).1 <==> Unwrapped(p, Op.DeleteMember(m))
    ensures Unwrapped(p, Op.DeleteMember(m)) ==>
      Shaped(DoDeleteMember(p, m).0) && ViewOf(DoDeleteMember(p, m).0) == SpecDeleteMember(ViewOf(p), m).0
  {
    assert Shaped(p);
    hide Inv, Shaped, Total, Wrapped, MembersOf, GroupsOf, ActiveOf, InSomeGroup;
    DeleteMemberCode(p, m);
    DeleteMemberKeeps(p, m);
    if Unwrapped(p, Op.DeleteMember(m)) {
      assert Inv(DoDeleteMember(p, m).0);
      TakenOutShows(p, m);
    }
  }

  lemma TakenOutShows(p: Profile, m: nat)
    requires Shaped(p) && Inv(DoDeleteMember(p, m).0)
    ensures
      var (q, rc) := DoDeleteMember(p, m);
      Shaped(q) && ViewOf(q) == if rc == SUCCESS then
        ViewOf(p).(members := ViewOf(p).members - {m}, mbrRefs := ViewOf(p).mbrRefs - {m}) else ViewOf(p)
  {
    var q := DoDeleteMember(p, m).0;
    assert Shaped(q);
    hide Inv, Shaped, MembersOf, GroupsOf, ActiveOf;
    if DoDeleteMember(p, m).1 == SUCCESS {
      GroupsKept(p, q, {});
      MembersKept(p, q, {m});
    } else {
      assert q == p;
    }
  }

  lemma DeleteMemberCode(p: Profile, m: nat)
    requires Inv(p)
    ensures DoDeleteMember(p, m).1 == SpecDeleteMember(ViewOf(p), m).1 <==> Unwrapped(p, Op.DeleteMember(m))
  {
    ViewKeys(p);
    InUse(p, m);
    DeleteMemberRightIff(p, m);
    hide Inv, Total, MembersOf, GroupsOf, ActiveOf, InSomeGroup, Wrapped;
  }

  lemma ModifyMemberRefines(p: Profile, m: nat, e: Entry)
    requires Inv(p) && Shaped(DoModifyMember(p, m, e).0)
    ensures (ViewOf(DoModifyMember(p, m, e).0), DoModifyMember(p, m, e).1) == SpecModifyMember(ViewOf(p), m, e)
  {
    hide MbrsCounted, GrpsCounted, Shadowed, Numbered, MembersOf, GroupsOf, ActiveOf;
    ViewKeys(p);
    var q := DoModifyMember(p, m, e).0;
    GroupsKept(p, q, {});
    if DoModifyMember(p, m, e).1 == SUCCESS {
      assert p.mbrs + {m} == p.mbrs;
      MembersPut(p, q, m, e);
    }
  }

  lemma CreateGroupRefines(p: Profile)
    requires Inv(p) && Shaped(DoCreateGroup(p).0)
    ensures (ViewOf(DoCreateGroup(p).0), DoCreateGroup(p).1) == SpecCreateGroup(ViewOf(p))
  {
    hide MbrsCounted, GrpsCounted, Numbered, MembersOf, GroupsOf, ActiveOf;
    ViewKeys(p);
    var q, g := DoCreateGroup(p).0, Fresh(p.grps);
    SmallestFits(p.grps, g, |p.groups|);
    MembersKept(p, q, {});
    GroupsPut(p, q, g, {});
    if p.selector.Some? {
      assert g !in p.selector.value;
      ActivePut(p.selector.value, p.selector.value, p.grps, g, {});
    }
  }

  /** Right exactly when the counter has not wrapped around to zero. */
  lemma DeleteGroupRefines(p: Profile, g: nat)
    requires Inv(p) && Shaped(DoDeleteGroup(p, g).0)
    ensures DoDeleteGroup(p, g).1 == SpecDeleteGroup(ViewOf(p), g).1 <==> Unwrapped(p, Op.DeleteGroup(g))
    ensures Unwrapped(p, Op.DeleteGroup(g)) ==> ViewOf(DoDeleteGroup(p, g).0) == SpecDeleteGroup(ViewOf(p), g).0
  {
    ViewKeys(p);
    DeleteGroupRightIff(p, g);
    hide MbrsCounted, Numbered, GrpsCounted, Shadowed, WithoutGroup, MembersOf, GroupsOf, ActiveOf, Wrapped;
    if g in p.grps { WithoutGroupShows(p, g); }
  }

  lemma WithoutGroupShows(p: Profile, g: nat)
    requires Inv(p) && g in p.grps
    ensures Shaped(WithoutGroup(p, g))
    ensures
      var v, w := ViewOf(p), ViewOf(WithoutGroup(p, g));
      w == v.(groups := v.groups - {g}, grpRefs := v.grpRefs - {g},
              active := if v.active.Some? then Some(v.active.value - {g}) else None)
  {
    hide MbrsCounted, Numbered, GrpsCounted, Shadowed, DecAll, SelRemoveAll, MembersOf, GroupsOf, ActiveOf;
    WithoutGroupShaped(p, g);
    var q := WithoutGroup(p, g);
    if p.selector.Some? {
      var s := p.selector.value;
      SelRemoveAllDrops(p, g, s);
      ActiveKept(s, SelRemoveAll(s, g, p.groups[g]), p.grps, g);
    }
    MembersKept(p, q, {});
    GroupsKept(p, q, {g});
  }

  lemma AddToGroupRefines(p: Profile, m: nat, g: nat)
    requires Inv(p) && Shaped(DoAddToGroup(p, m, g).0)
    ensures (ViewOf(DoAddToGroup(p, m, g).0), DoAddToGroup(p, m, g).1) == SpecAddToGroup(ViewOf(p), m, g)
  {
    hide MbrsCounted, GrpsCounted, Numbered, Shadowed, MembersOf, GroupsOf, ActiveOf, ActiveIn, SelAdd, Add, Inc;
    ViewKeys(p);
    var q := DoAddToGroup(p, m, g).0;
    if DoAddToGroup(p, m, g).1 == SUCCESS {
      assert p.grps + {g} == p.grps;
      MembersKept(p, q, {});
      GroupsPut(p, q, g, Elems(p.groups[g]) + {m});
      if p.selector.Some? {
        var s := p.selector.value;
        JoinedActive(s, m, g);
        ActivePut(s, SelAdd(s, g, m), p.grps, g, ActiveIn(s, g) + {m});
      }
    }
  }

  lemma JoinedActive(s: SelGroups, m: nat, g: nat)
    ensures ActiveIn(SelAdd(s, g, m), g) == ActiveIn(s, g) + {m}
    ensures forall k :: k != g ==> ActiveIn(SelAdd(s, g, m), k) == ActiveIn(s, k)
  {
  }

  lemma RemoveFromGroupRefines(p: Profile, m: nat, g: nat)
    requires Inv(p) && Shaped(DoRemoveFromGroup(p, m, g).0)
    ensures (ViewOf(DoRemoveFromGroup(p, m, g).0), DoRemoveFromGroup(p, m, g).1)
         == SpecRemoveFromGroup(ViewOf(p), m, g)
  {
    hide MbrsCounted, GrpsCounted, Numbered, Shadowed, MembersOf, GroupsOf, ActiveOf, ActiveIn, SelRemove, Remove, Dec;
    ViewKeys(p);
    var q := DoRemoveFromGroup(p, m, g).0;
    if DoRemoveFromGroup(p, m, g).1 == SUCCESS {
      assert p.grps + {g} == p.grps;
      MembersKept(p, q, {});
      GroupsPut(p, q, g, Elems(p.groups[g]) - {m});
      if p.selector.Some? {
        var s := p.selector.value;
        PartedActive(p, s, m, g);
        ActivePut(s, SelRemove(s, g, m), p.grps, g, ActiveIn(s, g) - {m});
      }
    }
  }

  lemma PartedActive(p: Profile, s: SelGroups, m: nat, g: nat)
    requires Shaped(p) && Shadowed(p, s)
    ensures ActiveIn(SelRemove(s, g, m), g) == ActiveIn(s, g) - {m}
    ensures forall k :: k != g ==> ActiveIn(SelRemove(s, g, m), k) == ActiveIn(s, k)
  {
  }

  /** The selector's answer to activation (on) or deactivation. */
  ghost function SelSet(s: SelGroups, g: nat, m: nat, on: bool): (SelGroups, Code) {
    if on then SelActivate(s, g, m) else SelDeactivate(s, g, m)
  }

  lemma SetActive(s: SelGroups, g: nat, m: nat, on: bool)
    requires g in s && m in s[g].members
    ensures SelSet(s, g, m, on).1 == if (m in ActiveIn(s, g)) == on then ERROR else SUCCESS
    ensures (m in ActiveIn(s, g)) == on ==> SelSet(s, g, m, on).0 == s
    ensures ActiveIn(SelSet(s, g, m, on).0, g) == if on then ActiveIn(s, g) + {m} else ActiveIn(s, g) - {m}
    ensures forall k :: k != g ==> ActiveIn(SelSet(s, g, m, on).0, k) == ActiveIn(s, k)
  {
  }

  lemma ShadowMember(p: Profile, s: SelGroups, m: nat, g: nat)
    requires Inv(p) && p.selector == Some(s)
    ensures IsMemberOf(ViewOf(p), m, g) <==> g in s && m in s[g].members
    ensures g in s ==> g in p.grps
    ensures Shaped(p)
  {
    hide MbrsCounted, GrpsCounted, Numbered;
  }

  lemma SetNothing(s: SelGroups, g: nat, m: nat, on: bool)
    requires !(g in s && m in s[g].members)
    ensures SelSet(s, g, m, on) == (s, MBR_NOT_IN_GRP)
  {
  }

  lemma SelectorShaped(p: Profile, t: SelGroups)
    requires Shaped(p)
    ensures Shaped(p.(selector := Some(t)))
  {
  }

  lemma ActivateRefines(p: Profile, g: nat, m: nat, on: bool)
    requires Inv(p) && p.selector.Some?
    ensures
      var (q, rc) := if on then DoActivate(p, g, m) else DoDeactivate(p, g, m);
      Shaped(q) && (ViewOf(q), rc) == SpecActivate(ViewOf(p), g, m, on)
  {
    var s := p.selector.value;
    ShadowMember(p, s, m, g);
    ViewKeys(p);
    hide Inv, Shaped, MembersOf, GroupsOf, ActiveOf, ActiveIn, IsMemberOf, Active, SelSet;
    if g in s && m in s[g].members {
      SetActive(s, g, m, on);
      if SelSet(s, g, m, on).1 == SUCCESS { SetShows(p, s, g, m, on); }
    } else {
      SetNothing(s, g, m, on);
    }
    if SelSet(s, g, m, on).0 == s { assert p.(selector := Some(s)) == p; }
  }

  /** A changed selector shows in the activated members alone. */
  lemma SelectorShows(p: Profile, s: SelGroups, t: SelGroups, g: nat, ms: set<nat>)
    requires Shaped(p) && p.selector == Some(s) && g in p.grps && ActiveIn(t, g) == ms
    requires forall k :: k != g ==> ActiveIn(t, k) == ActiveIn(s, k)
    ensures Shaped(p.(selector := Some(t)))
    ensures ViewOf(p.(selector := Some(t))) == ViewOf(p).(active := Activation(ViewOf(p), g, ms))
  {
    SelectorShaped(p, t);
    hide Shaped, MembersOf, GroupsOf, ActiveOf, ActiveIn;
    var q := p.(selector := Some(t));
    MembersKept(p, q, {});
    GroupsKept(p, q, {});
    assert p.grps + {g} == p.grps;
    ActivePut(s, t, p.grps, g, ms);
  }

  lemma SetShows(p: Profile, s: SelGroups, g: nat, m: nat, on: bool)
    requires Inv(p) && p.selector == Some(s) && g in s && m in s[g].members
    ensures
      var t, ms := SelSet(s, g, m, on).0, if on then ActiveIn(s, g) + {m} else ActiveIn(s, g) - {m};
      Shaped(p.(selector := Some(t))) &&
      ViewOf(p.(selector := Some(t))) == ViewOf(p).(active := Activation(ViewOf(p), g, ms))
  {
    hide Inv, Shaped, MembersOf, GroupsOf, ActiveOf, ActiveIn, SelSet, SelActivate, SelDeactivate;
    ShadowMember(p, s, m, g);
    var ms := if on then ActiveIn(s, g) + {m} else ActiveIn(s, g) - {m};
    SetActive(s, g, m, on);
    SelectorShows(p, s, SelSet(s, g, m, on).0, g, ms);
  }

  lemma RefRefines(p: Profile, i: Index)
    requires Shaped(p)
    ensures Holds(p, i, 0) && Shaped(DoRefIncrease(p, i)) ==> ViewOf(DoRefIncrease(p, i)) == SpecRef(ViewOf(p), i, 1)
    ensures Holds(p, i, 1) && Shaped(DoRefDecrease(p, i)) ==> ViewOf(DoRefDecrease(p, i)) == SpecRef(ViewOf(p), i, -1)
  {
    hide Shaped, MembersOf, GroupsOf, ActiveOf, Inc, Dec;
    if Holds(p, i, 0) && Shaped(DoRefIncrease(p, i)) {
      MembersKept(p, DoRefIncrease(p, i), {});
      GroupsKept(p, DoRefIncrease(p, i), {});
    }
    if Holds(p, i, 1) && Shaped(DoRefDecrease(p, i)) {
      MembersKept(p, DoRefDecrease(p, i), {});
      GroupsKept(p, DoRefDecrease(p, i), {});
    }
  }

  lemma ResetRefines(p: Profile)
    requires Shaped(p) && p.grps == {} && Shaped(DoReset(p))
    ensures ViewOf(DoReset(p)) == SpecReset(ViewOf(p))
  {
    var q := DoReset(p);
    assert MembersOf(q) == map[] && GroupsOf(q) == map[];
    assert q.selector.Some? ==> ActiveOf(q.selector, q.grps).value == map[];
  }

  /** What the operations on members and groups show, deletions apart. */
  lemma MembershipRefines(p: Profile, op: Op)
    requires Inv(p) && Allowed(p, op) && Shaped(Step(p, op).0)
    requires op.AddMember? || op.ModifyMember? || op.CreateGroup? || op.AddToGroup? || op.RemoveFromGroup?
    ensures (ViewOf(Step(p, op).0), Step(p, op).1) == Spec(ViewOf(p), op)
  {
    assert Shaped(p);
    hide Inv, Shaped, ViewOf, Holds, IsSmallestFree;
    hide DoAddMember, DoDeleteMember, DoModifyMember, DoCreateGroup, DoDeleteGroup, DoAddToGroup, DoRemoveFromGroup,
         DoRefIncrease, DoRefDecrease, DoActivate, DoDeactivate, DoReset;
    hide SpecAddMember, SpecDeleteMember, SpecModifyMember, SpecCreateGroup, SpecDeleteGroup,
         SpecAddToGroup, SpecRemoveFromGroup, SpecRef, SpecActivate, SpecReset;
    if op.AddMember? { AddMemberRefines(p, op.entry); }
    else if op.ModifyMember? { ModifyMemberRefines(p, op.m, op.entry); }
    else if op.CreateGroup? { CreateGroupRefines(p); }
    else if op.AddToGroup? { AddToGroupRefines(p, op.m, op.g); }
    else { RemoveFromGroupRefines(p, op.m, op.g); }
  }

  /** What references, activations and a reset show. */
  lemma ReferencesRefine(p: Profile, op: Op)
    requires Inv(p) && Allowed(p, op) && Safe(p, op) && Shaped(Step(p, op).0)
    requires op.RefIncrease? || op.RefDecrease? || op.Activate? || op.Deactivate? || op.Reset?
    ensures (ViewOf(Step(p, op).0), Step(p, op).1) == Spec(ViewOf(p), op)
  {
    assert Shaped(p);
    hide Inv, Shaped, ViewOf, Holds, IsSmallestFree;
    hide DoAddMember, DoDeleteMember, DoModifyMember, DoCreateGroup, DoDeleteGroup, DoAddToGroup, DoRemoveFromGroup,
         DoRefIncrease, DoRefDecrease, DoActivate, DoDeactivate, DoReset;
    hide SpecAddMember, SpecDeleteMember, SpecModifyMember, SpecCreateGroup, SpecDeleteGroup,
         SpecAddToGroup, SpecRemoveFromGroup, SpecRef, SpecActivate, SpecReset;
    if op.RefIncrease? || op.RefDecrease? { RefRefines(p, op.index); }
    else if op.Activate? { ActivateRefines(p, op.g, op.m, true); }
    else if op.Deactivate? { ActivateRefines(p, op.g, op.m, false); }
    else { ResetRefines(p); }
  }

  /** One operation on the counters, vectors, handles and the selector's copy gives the result
      code of the operation on plain maps if and only if no wrapped counter guards it, and then
      shows as that operation. */
  lemma StepRefines(p: Profile, op: Op)
    requires Inv(p) && Allowed(p, op) && Safe(p, op)
    ensures Shaped(Step(p, op).0)
    ensures Step(p, op).1 == Spec(ViewOf(p), op).1 <==> Unwrapped(p, op)
    ensures Unwrapped(p, op) ==> ViewOf(Step(p, op).0) == Spec(ViewOf(p), op).0
  {
    StepKeeps(p, op);
    assert Shaped(p) && Shaped(Step(p, op).0);
    hide Inv, Shaped, ViewOf, Allowed, Safe, Wrapped, Total;
    hide DoDeleteMember, DoDeleteGroup, SpecDeleteMember, SpecDeleteGroup;
    if op.DeleteMember? {
      DeleteMemberRefines(p, op.m);
    } else if op.DeleteGroup? {
      DeleteGroupRefines(p, op.g);
    } else {
      hide Step, Spec;
      if op.RefIncrease? || op.RefDecrease? || op.Activate? || op.Deactivate? || op.Reset? {
        ReferencesRefine(p, op);
      } else {
        MembershipRefines(p, op);
      }
    }
  }

  // ----- every run

  ghost predicate UnwrappedRun(p: Profile, ops: seq<Op>, q: Profile)
    requires Runs(p, ops, q)
    decreases |ops|
  {
    ops == [] || (Unwrapped(p, ops[0]) && UnwrappedRun(Step(p, ops[0]).0, ops[1..], q))
  }

  /** The result codes of a run. */
  ghost function Codes(p: Profile, ops: seq<Op>, q: Profile): seq<Code>
    requires Runs(p, ops, q)
    decreases |ops|
  {
    if ops == [] then [] else [Step(p, ops[0]).1] + Codes(Step(p, ops[0]).0, ops[1..], q)
  }

  ghost function SpecRun(v: View, ops: seq<Op>): View
    decreases |ops|
  {
    if ops == [] then v else SpecRun(Spec(v, ops[0]).0, ops[1..])
  }

  ghost function SpecCodes(v: View, ops: seq<Op>): seq<Code>
    decreases |ops|
  {
    if ops == [] then [] else [Spec(v, ops[0]).1] + SpecCodes(Spec(v, ops[0]).0, ops[1..])
  }

  /** Over every run all result codes are those of the plain maps if and only if no deletion
      meets a counter that has wrapped around to zero; and then the profile shows at the end
      what the plain maps would. */
  lemma {:induction false} RunRefines(p: Profile, ops: seq<Op>, q: Profile)
    requires Inv(p) && Runs(p, ops, q)
    ensures Inv(q)
    ensures Codes(p, ops, q) == SpecCodes(ViewOf(p), ops) <==> UnwrappedRun(p, ops, q)
    ensures UnwrappedRun(p, ops, q) ==> ViewOf(q) == SpecRun(ViewOf(p), ops)
    decreases |ops|
  {
    assert Shaped(p);
    hide Inv, Allowed, Safe, Unwrapped, Step, Spec, ViewOf, Shaped;
    if ops != [] {
      var next := Step(p, ops[0]).0;
      StepKeeps(p, ops[0]);
      StepRefines(p, ops[0]);
      RunRefines(next, ops[1..], q);
      var codes, spec := Codes(p, ops, q), SpecCodes(ViewOf(p), ops);
      assert codes[0] == Step(p, ops[0]).1 && codes[1..] == Codes(next, ops[1..], q);
      assert spec[0] == Spec(ViewOf(p), ops[0]).1 && spec[1..] == SpecCodes(Spec(ViewOf(p), ops[0]).0, ops[1..]);
      assert codes == [codes[0]] + codes[1..] && spec == [spec[0]] + spec[1..];
    }
  }
}
