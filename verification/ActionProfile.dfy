/** The action profile and the pluggable group selector as objects: every method is one step
    of the state machine of ProfileModel. */
module ActionProfile {
  import opened Common
  import opened Handles
  import opened UIntSets
  import opened ProfileModel

  /** The selector's shadow copy of every group, with the members it may choose from. */
  class GroupSelection {
    var groups: SelGroups

    constructor ()
      ensures groups == map[]
    {
      groups := map[];
    }

    method ActivateMember(g: nat, m: nat) returns (rc: Code)
      modifies this
      ensures (groups, rc) == SelActivate(old(groups), g, m)
    {
      if g !in groups || m !in groups[g].members { return MBR_NOT_IN_GRP; }
      if m in groups[g].active { return ERROR; }
      groups := groups[g := groups[g].(active := Add(groups[g].active, m))];
      return SUCCESS;
    }

    method DeactivateMember(g: nat, m: nat) returns (rc: Code)
      modifies this
      ensures (groups, rc) == SelDeactivate(old(groups), g, m)
    {
      if g !in groups || m !in groups[g].members { return MBR_NOT_IN_GRP; }
      if m !in groups[g].active { return ERROR; }
      groups := groups[g := groups[g].(active := Remove(groups[g].active, m))];
      return SUCCESS;
    }

    method AddMemberToGroup(g: nat, m: nat)
      modifies this
      ensures groups == SelAdd(old(groups), g, m)
    {
      var group := if g in groups then groups[g] else SelGroup({}, []);
      groups := groups[g := SelGroup(group.members + {m}, Add(group.active, m))];
    }

    method RemoveMemberFromGroup(g: nat, m: nat)
      modifies this
      ensures groups == SelRemove(old(groups), g, m)
    {
      var group := if g in groups then groups[g] else SelGroup({}, []);
      group := SelGroup(group.members - {m}, Remove(group.active, m));
      groups := groups[g := group];
      if |group.members| == 0 {
        groups := groups - {g};
        assert groups == old(groups) - {g};
      }
    }

    method GetFromHash(g: nat, h: nat) returns (m: nat)
      requires g in groups && groups[g].active != []
      ensures m == groups[g].active[h % |groups[g].active|]
    {
      var activeCount := |groups[g].active|;
      m := groups[g].active[h % activeCount];
    }

    method Reset()
      modifies this
      ensures groups == map[]
    {
      groups := map[];
    }
  }

  datatype Member = Member(mbr: nat, entry: Entry)

  datatype Group = Group(grp: nat, mbrs: seq<nat>)

  class ActionProfile {
    var entries: seq<Entry>
    var mbrCount: seq<nat>
    var grpCount: seq<nat>
    const mbrHandles: HandleMgr
    const grpHandles: HandleMgr
    var numMembers: int
    var numGroups: int
    var groups: seq<UIntSet>
    var selector: GroupSelection?
    ghost var mbrRefs: map<nat, nat>
    ghost var grpRefs: map<nat, nat>

    ghost function State(): Profile
      reads this, mbrHandles, grpHandles, selector
    {
      Profile(entries, mbrCount, grpCount, mbrHandles.Live(), grpHandles.Live(), numMembers, numGroups,
              groups, if selector == null then None else Some(selector.groups), mbrRefs, grpRefs)
    }

    ghost predicate Valid()
      reads this, mbrHandles, grpHandles, selector
    {
      mbrHandles != grpHandles && mbrHandles.Valid() && grpHandles.Valid() && Inv(State())
    }

    constructor ()
      ensures Valid() && fresh(mbrHandles) && fresh(grpHandles)
      ensures State() == Init(None)
    {
      entries, mbrCount, grpCount, groups := [], [], [], [];
      mbrHandles := new HandleMgr();
      grpHandles := new HandleMgr();
      numMembers, numGroups, selector := 0, 0, null;
      mbrRefs, grpRefs := map[], map[];
      new;
      InitHolds(false);
    }

    /** Installing an empty selector is sound exactly when no live group has a member. */
    method SetGroupSelector(s: GroupSelection)
      requires Valid() && s.groups == map[]
      modifies this`selector
      ensures State() == old(State()).(selector := Some(map[]))
      ensures Valid() <==> forall g :: g in State().grps ==> State().groups[g] == []
    {
      selector := s;
      InstallIff(old(State()));
    }

    method AddMember(e: Entry) returns (rc: Code, mbr: nat)
      requires Valid() && Allowed(State(), Op.AddMember(e))
      modifies this, mbrHandles
      ensures Valid() && selector == old(selector)
      ensures (State(), rc) == Step(old(State()), Op.AddMember(e))
      ensures rc == SUCCESS ==> IsSmallestFree(old(mbrHandles.Live()), mbr)
    {
      hide HandleMgr.Live, Inv, Shaped, Step, Safe, Allowed, IsSmallestFree, Put, Inc, Dec, DecAll,
           SelAdd, SelRemove, SelRemoveAll;
      AddMemberStep(State(), e, mbrHandles.firstUnset);
      if |e.data| != e.fn.numParams { return BAD_ACTION_DATA, 0; }
      mbr := mbrHandles.GetHandle();
      entries := Put(entries, mbr, e);
      mbrCount := Put(mbrCount, mbr, 0);
      numMembers := numMembers + 1;
      mbrRefs := mbrRefs[mbr := 0];
      rc := SUCCESS;
    }

    /** Refuses a member whose counter is not zero; a counter that has wrapped around to zero
        under a live group is the one case that leaves an inconsistent profile. */
    method DeleteMember(m: nat) returns (rc: Code)
      requires Valid()
      modifies this, mbrHandles
      ensures selector == old(selector)
      ensures Valid() <==> Safe(old(State()), Op.DeleteMember(m))
      ensures (State(), rc) == Step(old(State()), Op.DeleteMember(m))
    {
      hide HandleMgr.Live, HandleMgr.Valid, Inv, Shaped, Step, Safe, Allowed, IsSmallestFree, Put, Inc, Dec, DecAll,
           SelAdd, SelRemove, SelRemoveAll;
      DeleteMemberStep(State(), m);
      var live := mbrHandles.ValidHandle(m);
      if !live { return INVALID_MBR_HANDLE; }
      if mbrCount[m] > 0 { return MBR_STILL_USED; }
      var error := mbrHandles.ReleaseHandle(m);
      assert error == 0;
      numMembers := numMembers - 1;
      mbrRefs := mbrRefs - {m};
      return SUCCESS;
    }

    method ModifyMember(m: nat, e: Entry) returns (rc: Code)
      requires Valid()
      modifies this`entries
      ensures Valid()
      ensures (State(), rc) == Step(old(State()), Op.ModifyMember(m, e))
    {
      hide HandleMgr.Live, HandleMgr.Valid, Inv, Shaped, Step, Safe, Allowed, IsSmallestFree, Put, Inc, Dec, DecAll,
           SelAdd, SelRemove, SelRemoveAll;
      ModifyMemberStep(State(), m, e);
      if |e.data| != e.fn.numParams { return BAD_ACTION_DATA; }
      var live := mbrHandles.ValidHandle(m);
      if !live { return INVALID_MBR_HANDLE; }
      entries := entries[m := e];
      return SUCCESS;
    }

    method CreateGroup() returns (rc: Code, grp: nat)
      requires Valid() && Allowed(State(), Op.CreateGroup)
      modifies this, grpHandles
      ensures Valid() && selector == old(selector)
      ensures (State(), rc) == Step(old(State()), Op.CreateGroup)
      ensures rc == SUCCESS && IsSmallestFree(old(grpHandles.Live()), grp)
    {
      hide HandleMgr.Live, Inv, Shaped, Step, Safe, Allowed, IsSmallestFree, Put, Inc, Dec, DecAll,
           SelAdd, SelRemove, SelRemoveAll;
      CreateGroupStep(State(), grpHandles.firstUnset);
      grp := grpHandles.GetHandle();
      groups := Put(groups, grp, []);
      grpCount := Put(grpCount, grp, 0);
      numGroups := numGroups + 1;
      grpRefs := grpRefs[grp := 0];
      rc := SUCCESS;
    }

    /** A group may be deleted with members in it: each gives up one reference, and the
        selector is told of each. */
    method DeleteGroup(g: nat) returns (rc: Code)
      requires Valid()
      modifies this, grpHandles, selector
      ensures Valid() && selector == old(selector)
      ensures (State(), rc) == Step(old(State()), Op.DeleteGroup(g))
    {
      hide HandleMgr.Live, HandleMgr.Valid, Inv, Shaped, Step, Safe, Allowed, IsSmallestFree, Put, Inc, Dec, DecAll,
           SelAdd, SelRemove, SelRemoveAll;
      DeleteGroupStep(State(), g);
      var live := grpHandles.ValidHandle(g);
      if !live { return INVALID_GRP_HANDLE; }
      if grpCount[g] > 0 { return GRP_STILL_USED; }
      ReleaseMembers(g, groups[g]);
      var error := grpHandles.ReleaseHandle(g);
      assert error == 0;
      numGroups := numGroups - 1;
      grpRefs := grpRefs - {g};
      return SUCCESS;
    }

    method ReleaseMembers(g: nat, ms: UIntSet)
      requires forall m :: m in ms ==> m < |mbrCount|
      modifies this`mbrCount, selector
      ensures mbrCount == DecAll(old(mbrCount), ms)
      ensures selector != null ==> selector.groups == SelRemoveAll(old(selector.groups), g, ms)
    {
      for i := 0 to |ms|
        invariant |mbrCount| == |old(mbrCount)|
        invariant forall m :: m in ms[..i] ==> m in ms
        invariant mbrCount == DecAll(old(mbrCount), ms[..i])
        invariant selector != null ==> selector.groups == SelRemoveAll(old(selector.groups), g, ms[..i])
      {
        assert ms[..i + 1][..i] == ms[..i] && ms[i] in ms;
        assert forall m :: m in ms[..i + 1] ==> m in ms;
        mbrCount := mbrCount[ms[i] := Dec(mbrCount[ms[i]])];
        if selector != null { selector.RemoveMemberFromGroup(g, ms[i]); }
      }
      assert ms[..|ms|] == ms;
    }

    method AddMemberToGroup(m: nat, g: nat) returns (rc: Code)
      requires Valid()
      modifies this, selector
      ensures Valid() && selector == old(selector)
      ensures (State(), rc) == Step(old(State()), Op.AddToGroup(m, g))
    {
      hide HandleMgr.Live, HandleMgr.Valid, Inv, Shaped, Step, Safe, Allowed, IsSmallestFree, Put, Inc, Dec, DecAll,
           SelAdd, SelRemove, SelRemoveAll;
      MemberStep(State(), m, g);
      var live := mbrHandles.ValidHandle(m);
      if !live { return INVALID_MBR_HANDLE; }
      live := grpHandles.ValidHandle(g);
      if !live { return INVALID_GRP_HANDLE; }
      if m in groups[g] { return MBR_ALREADY_IN_GRP; }
      groups := groups[g := Add(groups[g], m)];
      mbrCount := mbrCount[m := Inc(mbrCount[m])];
      if selector != null { selector.AddMemberToGroup(g, m); }
      return SUCCESS;
    }

    method RemoveMemberFromGroup(m: nat, g: nat) returns (rc: Code)
      requires Valid()
      modifies this, selector
      ensures Valid() && selector == old(selector)
      ensures (State(), rc) == Step(old(State()), Op.RemoveFromGroup(m, g))
    {
      hide HandleMgr.Live, HandleMgr.Valid, Inv, Shaped, Step, Safe, Allowed, IsSmallestFree, Put, Inc, Dec, DecAll,
           SelAdd, SelRemove, SelRemoveAll;
      MemberStep(State(), m, g);
      var live := mbrHandles.ValidHandle(m);
      if !live { return INVALID_MBR_HANDLE; }
      live := grpHandles.ValidHandle(g);
      if !live { return INVALID_GRP_HANDLE; }
      if m !in groups[g] { return MBR_NOT_IN_GRP; }
      groups := groups[g := Remove(groups[g], m)];
      mbrCount := mbrCount[m := Dec(mbrCount[m])];
      if selector != null { selector.RemoveMemberFromGroup(g, m); }
      return SUCCESS;
    }

    method RefCountIncrease(i: Index)
      requires Valid() && Allowed(State(), RefIncrease(i))
      modifies this
      ensures Valid() && selector == old(selector)
      ensures State() == Step(old(State()), RefIncrease(i)).0
    {
      hide HandleMgr.Live, HandleMgr.Valid, Inv, Shaped, Step, Safe, IsSmallestFree, Put, Inc, Dec, DecAll,
           SelAdd, SelRemove, SelRemoveAll;
      RefStep(State(), i, RefIncrease(i));
      match i
      case Mbr(m) =>
        mbrCount := mbrCount[m := Inc(mbrCount[m])];
        mbrRefs := mbrRefs[m := mbrRefs[m] + 1];
      case Grp(g) =>
        grpCount := grpCount[g := Inc(grpCount[g])];
        grpRefs := grpRefs[g := grpRefs[g] + 1];
    }

    method RefCountDecrease(i: Index)
      requires Valid() && Allowed(State(), RefDecrease(i))
      modifies this
      ensures Valid() && selector == old(selector)
      ensures State() == Step(old(State()), RefDecrease(i)).0
    {
      hide HandleMgr.Live, HandleMgr.Valid, Inv, Shaped, Step, Safe, IsSmallestFree, Put, Inc, Dec, DecAll,
           SelAdd, SelRemove, SelRemoveAll;
      RefStep(State(), i, RefDecrease(i));
      match i
      case Mbr(m) =>
        mbrCount := mbrCount[m := Dec(mbrCount[m])];
        mbrRefs := mbrRefs[m := mbrRefs[m] - 1];
      case Grp(g) =>
        grpCount := grpCount[g := Dec(grpCount[g])];
        grpRefs := grpRefs[g := grpRefs[g] - 1];
    }

    /** Clears everything but the group handles, so the state is consistent afterwards
        exactly when there were none. */
    method ResetState()
      requires Valid()
      modifies this, mbrHandles, selector
      ensures State() == Step(old(State()), Op.Reset).0 && selector == old(selector)
      ensures Valid() <==> Safe(old(State()), Op.Reset)
      ensures mbrHandles.Live() == {} && grpHandles.Live() == old(grpHandles.Live())
      ensures entries == [] && mbrCount == [] && grpCount == [] && groups == [] && numMembers == numGroups == 0
      ensures selector != null ==> selector.groups == map[]
    {
      hide Inv, Shaped, Allowed, IsSmallestFree;
      ResetStep(State());
      mbrCount, grpCount := [], [];
      mbrHandles.Clear();
      entries := [];
      numMembers, numGroups := 0, 0;
      groups := [];
      mbrRefs, grpRefs := map[], map[];
      if selector != null { selector.Reset(); }
    }

    /** lookup through a member index, or through a group and the packet's hash: the eligible
        member with as many smaller ones as the hash leaves over when divided by their number. */
    method Lookup(i: Index, h: nat) returns (e: Entry)
      requires Valid() && Target(State(), i, h).Some?
      ensures var m := Target(State(), i, h).value; m in State().mbrs && e == entries[m]
      ensures i.Mbr? ==> i.m in State().mbrs && e == entries[i.m]
      ensures i.Grp? ==> i.g in State().grps && exists m: nat :: IsChoice(State(), i.g, h, m) && e == entries[m]
    {
      hide MbrsCounted, GrpsCounted, Shadowed, IsSmallestFree, Eligible, Smaller;
      var mbr: nat;
      if i.Mbr? {
        mbr := i.m;
      } else {
        ChooseMeans(State(), i.g, h);
        if selector == null {
          mbr := groups[i.g][h % |groups[i.g]|];
        } else {
          mbr := selector.GetFromHash(i.g, h);
        }
      }
      assert mbr in State().mbrs;
      e := entries[mbr];
      assert i.Grp? ==> IsChoice(State(), i.g, h, mbr);
    }

    /** The result vector, sized by num_members, is filled exactly, in handle order. */
    method GetMembers() returns (members: array<Member>)
      requires Valid()
      ensures members.Length == |State().mbrs|
      ensures forall i :: 0 <= i < members.Length ==>
        members[i].mbr in State().mbrs && members[i].entry == entries[members[i].mbr]
      ensures forall i, j :: 0 <= i < j < members.Length ==> members[i].mbr < members[j].mbr
    {
      hide Inv, Shaped, IsSmallestFree, Smaller;
      Listable(State());
      ghost var live := mbrHandles.Live();
      SmallerStep(live, 0);
      members := new Member[numMembers](_ => Member(0, Entry(ActionFn(0, 0), [])));
      var idx := 0;
      for h := 0 to |mbrHandles.handles|
        invariant 0 <= idx <= members.Length && idx == |Smaller(live, h)|
        invariant forall i :: 0 <= i < idx ==>
          members[i].mbr < h && members[i].mbr in live && members[i].entry == entries[members[i].mbr]
        invariant forall i, j :: 0 <= i < j < idx ==> members[i].mbr < members[j].mbr
      {
        SmallerStep(live, h);
        if mbrHandles.handles[h] {
          assert h in live;
          members[idx] := Member(h, entries[h]);
          idx := idx + 1;
        }
      }
      SmallerAll(live, |mbrHandles.handles|);
    }

    /** Likewise the vector of groups, sized by num_groups. */
    method GetGroups() returns (result: array<Group>)
      requires Valid()
      ensures result.Length == |State().grps|
      ensures forall i :: 0 <= i < result.Length ==>
        result[i].grp in State().grps && result[i].mbrs == groups[result[i].grp]
      ensures forall i, j :: 0 <= i < j < result.Length ==> result[i].grp < result[j].grp
    {
      hide Inv, Shaped, IsSmallestFree, Smaller;
      Listable(State());
      ghost var live := grpHandles.Live();
      SmallerStep(live, 0);
      result := new Group[numGroups](_ => Group(0, []));
      var idx := 0;
      for h := 0 to |grpHandles.handles|
        invariant 0 <= idx <= result.Length && idx == |Smaller(live, h)|
        invariant forall i :: 0 <= i < idx ==>
          result[i].grp < h && result[i].grp in live && result[i].mbrs == groups[result[i].grp]
        invariant forall i, j :: 0 <= i < j < idx ==> result[i].grp < result[j].grp
      {
        SmallerStep(live, h);
        if grpHandles.handles[h] {
          assert h in live;
          result[idx] := Group(h, groups[h]);
          idx := idx + 1;
        }
      }
      SmallerAll(live, |grpHandles.handles|);
    }
  }

  // ----- one step, without its invariant

  lemma AddMemberStep(p: Profile, e: Entry, m: nat)
    requires Inv(p) && Allowed(p, Op.AddMember(e)) && IsSmallestFree(p.mbrs, m)
    ensures Inv(Step(p, Op.AddMember(e)).0) && m <= |p.entries| == |p.mbrCount|
    ensures Step(p, Op.AddMember(e)) ==
      if |e.data| != e.fn.numParams then (p, BAD_ACTION_DATA) else (NewMember(p, m, e), SUCCESS)
  {
    hide MbrsCounted, GrpsCounted, Shadowed, Numbered, NewMember;
    StepKeeps(p, Op.AddMember(e));
    SmallestFreeUnique(p.mbrs, m, Fresh(p.mbrs));
    SmallestFits(p.mbrs, m, |p.entries|);
  }

  lemma DeleteMemberStep(p: Profile, m: nat)
    requires Inv(p)
    ensures Inv(Step(p, Op.DeleteMember(m)).0) <==> Safe(p, Op.DeleteMember(m))
    ensures m in p.mbrs ==> m < |p.mbrCount|
    ensures Step(p, Op.DeleteMember(m)) ==
      if m !in p.mbrs then (p, INVALID_MBR_HANDLE)
      else if p.mbrCount[m] > 0 then (p, MBR_STILL_USED)
      else (p.(mbrs := p.mbrs - {m}, numMembers := p.numMembers - 1, mbrRefs := p.mbrRefs - {m}), SUCCESS)
  {
    hide MbrsCounted, GrpsCounted, Shadowed, Numbered, TornOut;
    StepKeeps(p, Op.DeleteMember(m));
  }

  lemma ModifyMemberStep(p: Profile, m: nat, e: Entry)
    requires Inv(p)
    ensures Inv(Step(p, Op.ModifyMember(m, e)).0) && (m in p.mbrs ==> m < |p.entries|)
    ensures Step(p, Op.ModifyMember(m, e)) ==
      if |e.data| != e.fn.numParams then (p, BAD_ACTION_DATA)
      else if m !in p.mbrs then (p, INVALID_MBR_HANDLE)
      else (p.(entries := p.entries[m := e]), SUCCESS)
  {
    hide MbrsCounted, GrpsCounted, Shadowed, Numbered;
    StepKeeps(p, Op.ModifyMember(m, e));
  }

  lemma CreateGroupStep(p: Profile, g: nat)
    requires Inv(p) && Allowed(p, Op.CreateGroup) && IsSmallestFree(p.grps, g)
    ensures Inv(Step(p, Op.CreateGroup).0) && g <= |p.groups| == |p.grpCount|
    ensures Step(p, Op.CreateGroup) == (NewGroup(p, g), SUCCESS)
  {
    hide MbrsCounted, GrpsCounted, Shadowed, Numbered, NewGroup;
    StepKeeps(p, Op.CreateGroup);
    SmallestFreeUnique(p.grps, g, Fresh(p.grps));
    SmallestFits(p.grps, g, |p.groups|);
  }

  lemma DeleteGroupStep(p: Profile, g: nat)
    requires Inv(p)
    ensures Inv(Step(p, Op.DeleteGroup(g)).0)
    ensures g in p.grps ==> g < |p.groups| == |p.grpCount| && forall m :: m in p.groups[g] ==> m < |p.mbrCount|
    ensures Step(p, Op.DeleteGroup(g)) ==
      if g !in p.grps then (p, INVALID_GRP_HANDLE)
      else if p.grpCount[g] > 0 then (p, GRP_STILL_USED)
      else (p.(mbrCount := DecAll(p.mbrCount, p.groups[g]), grps := p.grps - {g}, numGroups := p.numGroups - 1,
               selector := if p.selector.None? then None else Some(SelRemoveAll(p.selector.value, g, p.groups[g])),
               grpRefs := p.grpRefs - {g}), SUCCESS)
  {
    hide MbrsCounted, GrpsCounted, Shadowed, Numbered, DecAll, SelRemoveAll;
    StepKeeps(p, Op.DeleteGroup(g));
    if g in p.grps {
      forall m | m in p.groups[g] ensures m < |p.mbrCount| { assert m in p.mbrs; }
    }
  }

  lemma ResetStep(p: Profile)
    requires Inv(p)
    ensures Shaped(p) && Allowed(p, Op.Reset)
    ensures Inv(DoReset(p)) <==> Safe(p, Op.Reset)
  {
    hide Inv, DoReset;
    assert Shaped(p) by { Bare(p); }
    StepKeeps(p, Op.Reset);
  }

  lemma Bare(p: Profile)
    requires Inv(p)
    ensures Shaped(p)
  {
  }

  /** A member joins or leaves a group. */
  lemma MemberStep(p: Profile, m: nat, g: nat)
    requires Inv(p)
    ensures Inv(Step(p, Op.AddToGroup(m, g)).0) && Inv(Step(p, Op.RemoveFromGroup(m, g)).0)
    ensures (m in p.mbrs ==> m < |p.mbrCount|) && (g in p.grps ==> g < |p.groups|)
    ensures Step(p, Op.AddToGroup(m, g)) ==
      if m !in p.mbrs then (p, INVALID_MBR_HANDLE)
      else if g !in p.grps then (p, INVALID_GRP_HANDLE)
      else if m in p.groups[g] then (p, MBR_ALREADY_IN_GRP)
      else (Joined(p, m, g), SUCCESS)
    ensures Step(p, Op.RemoveFromGroup(m, g)) ==
      if m !in p.mbrs then (p, INVALID_MBR_HANDLE)
      else if g !in p.grps then (p, INVALID_GRP_HANDLE)
      else if m !in p.groups[g] then (p, MBR_NOT_IN_GRP)
      else (Parted(p, m, g), SUCCESS)
  {
    hide MbrsCounted, GrpsCounted, Shadowed, Numbered, Joined, Parted;
    StepKeeps(p, Op.AddToGroup(m, g));
    StepKeeps(p, Op.RemoveFromGroup(m, g));
  }

  lemma RefStep(p: Profile, i: Index, op: Op)
    requires Inv(p) && (op == RefIncrease(i) || op == RefDecrease(i)) && Allowed(p, op)
    ensures i.Mbr? ==> i.m in p.mbrs && i.m < |p.mbrCount| && i.m in p.mbrRefs
    ensures i.Grp? ==> i.g in p.grps && i.g < |p.grpCount| && i.g in p.grpRefs
    ensures Inv(Step(p, op).0)
    ensures Step(p, op).0 == if op.RefIncrease? then DoRefIncrease(p, i) else DoRefDecrease(p, i)
  {
    hide MbrsCounted, GrpsCounted, Shadowed, Numbered, Inc, Dec;
    StepKeeps(p, op);
  }

  lemma SmallerAll(s: set<nat>, n: nat)
    requires forall x :: x in s ==> x < n
    ensures Smaller(s, n) == s
  {
  }

  /** What the listings rely on: exact counts, and an element for every live handle. */
  lemma Listable(p: Profile)
    requires Inv(p)
    ensures p.numMembers == |p.mbrs| && p.numGroups == |p.grps|
    ensures forall m :: m in p.mbrs ==> m < |p.entries|
    ensures forall g :: g in p.grps ==> g < |p.groups|
  {
    hide MbrsCounted, GrpsCounted, Shadowed;
  }

  lemma SmallerStep(s: set<nat>, h: nat)
    ensures |Smaller(s, h + 1)| == |Smaller(s, h)| + if h in s then 1 else 0
    ensures |Smaller(s, h + 1)| <= |s|
    ensures |Smaller(s, 0)| == 0
  {
    assert Smaller(s, 0) == {};
    SubsetSize(Smaller(s, h + 1), s);
    if h in s {
      assert Smaller(s, h + 1) == Smaller(s, h) + {h};
    } else {
      assert Smaller(s, h + 1) == Smaller(s, h);
    }
  }

  lemma {:induction false} SubsetSize(a: set<nat>, b: set<nat>)
    requires a <= b
    ensures |a| <= |b|
  {
    if a != {} {
      var x :| x in a;
      SubsetSize(a - {x}, b - {x});
    }
  }

  lemma InstallIff(p: Profile)
    requires Inv(p)
    ensures Inv(p.(selector := Some(map[]))) <==> forall g :: g in p.grps ==> p.groups[g] == []
  {
    var q := p.(selector := Some(map[]));
    assert Shaped(q);
    if Shadowed(q, map[]) {
      SelectorKeeps(p, q);
    }
  }
}
