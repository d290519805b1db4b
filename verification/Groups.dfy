/** Multi-room groups: members with one elected leader per group, and the index
    from devices to groups that must agree with them. */
module Groups {
  import opened Common

  type Device = nat
  type GroupId = nat

  datatype Member = Member(device: Device, isLeader: bool)

  datatype Group = Group(members: seq<Member>, leader: Option<Device>)

  datatype Manager = Manager(groups: map<GroupId, Group>, owner: map<Device, GroupId>)

  datatype Failure = AlreadyGrouped | GroupNotFound

  // --------------------------------------------------------------------- groups

  predicate Has(g: Group, d: Device) {
    exists i :: 0 <= i < |g.members| && g.members[i].device == d
  }

  function IndexOf(members: seq<Member>, d: Device): (r: Option<nat>)
    ensures r.Some? ==> r.value < |members| && members[r.value].device == d
    ensures r.None? ==> forall i :: 0 <= i < |members| ==> members[i].device != d
  {
    if members == [] then None
    else if members[0].device == d then Some(0)
    else
      var r := IndexOf(members[1..], d);
      if r.Some? then Some(r.value + 1) else None
  }

  function AddMember(g: Group, d: Device): Group {
    if Has(g, d) then g
    else if g.members == [] then Group([Member(d, true)], Some(d))
    else g.(members := g.members + [Member(d, false)])
  }

  function RemoveMember(g: Group, d: Device): (r: (Group, Option<Member>)) {
    var at := IndexOf(g.members, d);
    if at.None? then (g, None) else
      var member := g.members[at.value];
      var rest := Without(g.members, at.value);
      var h :=
        if member.isLeader && rest != [] then
          Group([rest[0].(isLeader := true)] + rest[1..], Some(rest[0].device))
        else if rest == [] then Group(rest, None)
        else g.(members := rest);
      (h, Some(member))
  }

  /** Members differ, and a group has exactly one leader, the one it names, unless it is empty. */
  ghost predicate GoodGroup(g: Group) {
    && (forall i, j :: 0 <= i < j < |g.members| ==> g.members[i].device != g.members[j].device)
    && (g.members == [] <==> g.leader.None?)
    && (g.members != [] ==>
          exists i :: 0 <= i < |g.members| && LedBy(g, i))
  }

  /** The i-th member is the only leader and the one the group names. */
  ghost predicate LedBy(g: Group, i: nat)
    requires i < |g.members|
  {
    && g.leader == Some(g.members[i].device)
    && forall j :: 0 <= j < |g.members| ==> (g.members[j].isLeader <==> j == i)
  }

  lemma AddMemberCorrect(g: Group, d: Device)
    requires GoodGroup(g)
    ensures var h := AddMember(g, d);
            && GoodGroup(h) && Has(h, d) && (forall e: Device :: e != d ==> (Has(h, e) <==> Has(g, e)))
            && (g.members != [] ==> h.leader == g.leader)
  {
    var h := AddMember(g, d);
    if Has(g, d) {
    } else if g.members == [] {
      assert h.members[0].device == d && LedBy(h, 0);
    } else {
      assert h.members[|g.members|].device == d;
      var i :| 0 <= i < |g.members| && LedBy(g, i);
      assert h.members[i] == g.members[i];
      assert LedBy(h, i);
      forall e: Device | e != d ensures Has(h, e) <==> Has(g, e) {
        if Has(g, e) {
          var k :| 0 <= k < |g.members| && g.members[k].device == e;
          assert h.members[k].device == e;
        }
      }
    }
  }

  lemma RemainingMembers(g: Group, d: Device, at: nat, e: Device)
    requires GoodGroup(g) && at < |g.members| && g.members[at].device == d
    ensures var rest := Without(g.members, at);
            (exists i :: 0 <= i < |rest| && rest[i].device == e) <==> e != d && Has(g, e)
  {
    var rest := Without(g.members, at);
    if e != d && Has(g, e) {
      var k :| 0 <= k < |g.members| && g.members[k].device == e;
      assert rest[if k < at then k else k - 1].device == e;
    }
    if i :| 0 <= i < |rest| && rest[i].device == e {
      assert rest[i] == g.members[if i < at then i else i + 1];
    }
  }

  function Without(members: seq<Member>, at: nat): (rest: seq<Member>)
    requires at < |members|
    ensures |rest| == |members| - 1
    ensures forall i :: 0 <= i < |rest| ==> rest[i] == members[if i < at then i else i + 1]
  {
    members[..at] + members[at + 1..]
  }

  lemma LeaderRemoved(g: Group, at: nat, h: Group)
    requires GoodGroup(g) && at < |g.members| && |g.members| > 1 && g.members[at].isLeader
    requires var rest := Without(g.members, at);
             h == Group([rest[0].(isLeader := true)] + rest[1..], Some(rest[0].device))
    ensures GoodGroup(h)
  {
    var i :| 0 <= i < |g.members| && LedBy(g, i);
    assert LedBy(h, 0);
  }

  lemma FollowerRemoved(g: Group, at: nat, h: Group)
    requires GoodGroup(g) && at < |g.members| && !g.members[at].isLeader
    requires h == g.(members := Without(g.members, at))
    ensures GoodGroup(h) && h.members != []
  {
    var i :| 0 <= i < |g.members| && LedBy(g, i);
    var k := if i < at then i else i - 1;
    assert h.members[k] == g.members[i];
    assert LedBy(h, k);
  }

  /** Removing keeps the leader unless it is the one removed; then the first of the rest is promoted. */
  lemma RemoveMemberCorrect(g: Group, d: Device)
    requires GoodGroup(g)
    ensures var (h, out) := RemoveMember(g, d);
            && GoodGroup(h) && (out.Some? <==> Has(g, d))
            && (out.None? ==> h == g)
            && (g.leader != Some(d) ==> h.leader == g.leader)
            && (g.leader == Some(d) && |g.members| > 1 ==>
                  h.leader == Some(g.members[if g.members[0].device == d then 1 else 0].device))
  {
    var at := IndexOf(g.members, d);
    if at.Some? {
      assert Has(g, d);
      var h := RemoveMember(g, d).0;
      var i :| 0 <= i < |g.members| && LedBy(g, i);
      if |g.members| == 1 {
        assert h == Group([], None);
      } else if g.members[at.value].isLeader {
        LeaderRemoved(g, at.value, h);
      } else {
        FollowerRemoved(g, at.value, h);
      }
    }
  }

  lemma RemoveMemberHas(g: Group, d: Device, e: Device)
    requires GoodGroup(g)
    ensures Has(RemoveMember(g, d).0, e) <==> e != d && Has(g, e)
  {
    var at := IndexOf(g.members, d);
    if at.Some? {
      var h, rest := RemoveMember(g, d).0, Without(g.members, at.value);
      RemainingMembers(g, d, at.value, e);
      assert |h.members| == |rest| && forall i :: 0 <= i < |rest| ==> h.members[i].device == rest[i].device;
    } else if Has(g, e) {
      var k :| 0 <= k < |g.members| && g.members[k].device == e;
    }
  }

  // -------------------------------------------------------------------- manager

  function AddAll(g: Group, devices: seq<Device>): Group
    decreases |devices|
  {
    if devices == [] then g else AddAll(AddMember(g, devices[0]), devices[1..])
  }

  function OwnAll(owner: map<Device, GroupId>, devices: seq<Device>, id: GroupId): map<Device, GroupId>
    decreases |devices|
  {
    if devices == [] then owner else OwnAll(owner[devices[0] := id], devices[1..], id)
  }

  datatype Op =
    | Create(id: GroupId)
    | CreateWith(id: GroupId, devices: seq<Device>)
    | Delete(id: GroupId)
    | AddDevice(id: GroupId, device: Device)
    | RemoveDevice(device: Device)

  /** An operation on both maps, or the error it returns. */
  function Apply(m: Manager, op: Op): (r: Result<Manager, Failure>) {
    match op
    case Create(id) => Ok(m.(groups := m.groups[id := Group([], None)]))
    case CreateWith(id, devices) =>
      if exists i :: 0 <= i < |devices| && devices[i] in m.owner then Err(AlreadyGrouped)
      else Ok(Manager(m.groups[id := AddAll(Group([], None), devices)], OwnAll(m.owner, devices, id)))
    case Delete(id) =>
      if id !in m.groups then Ok(m)
      else
        var members := m.groups[id].members;
        Ok(Manager(m.groups - {id}, m.owner - set i | 0 <= i < |members| :: members[i].device))
    case AddDevice(id, d) =>
      if d in m.owner then Err(AlreadyGrouped)
      else if id !in m.groups then Err(GroupNotFound)
      else Ok(Manager(m.groups[id := AddMember(m.groups[id], d)], m.owner[d := id]))
    case RemoveDevice(d) =>
      if d !in m.owner then Ok(m) else
        var id := m.owner[d];
        var owner := m.owner - {d};
        if id !in m.groups then Ok(m.(owner := owner)) else
          var g := RemoveMember(m.groups[id], d).0;
          Ok(Manager(if g.members == [] then m.groups - {id} else m.groups[id := g], owner))
  }

  /** New groups get new ids. */
  predicate Allowed(m: Manager, op: Op) {
    match op
    case Create(id) => id !in m.groups
    case CreateWith(id, _) => id !in m.groups
    case _ => true
  }

  /** Failed operations leave the manager as it was. */
  function After(m: Manager, op: Op): Manager {
    var r := Apply(m, op);
    if r.Ok? then r.value else m
  }

  ghost predicate IsMember(m: Manager, d: Device, id: GroupId) {
    id in m.groups && Has(m.groups[id], d)
  }

  /** The two maps agree in both directions and every group is in order. */
  ghost predicate Consistent(m: Manager) {
    && (forall id :: id in m.groups ==> GoodGroup(m.groups[id]))
    && (forall d, id :: IsMember(m, d, id) <==> d in m.owner && m.owner[d] == id)
  }

  lemma {:induction false} AddAllCorrect(g: Group, owner: map<Device, GroupId>, devices: seq<Device>, id: GroupId)
    requires GoodGroup(g)
    ensures GoodGroup(AddAll(g, devices))
    ensures forall d: Device :: Has(AddAll(g, devices), d) <==> Has(g, d) || d in devices
    ensures forall d: Device :: d in OwnAll(owner, devices, id) <==> d in owner || d in devices
    ensures forall d: Device :: d in OwnAll(owner, devices, id) ==>
              OwnAll(owner, devices, id)[d] == if d in devices then id else owner[d]
    decreases |devices|
  {
    if devices != [] {
      var first := devices[0];
      AddMemberCorrect(g, first);
      AddAllCorrect(AddMember(g, first), owner[first := id], devices[1..], id);
      forall d: Device ensures d in devices <==> d == first || d in devices[1..] {
        if d in devices {
          var i :| 0 <= i < |devices| && devices[i] == d;
          if i > 0 { assert devices[1..][i - 1] == d; }
        }
      }
    }
  }

  lemma CreateKeeps(m: Manager, id: GroupId, devices: seq<Device>)
    requires Consistent(m) && id !in m.groups && forall i :: 0 <= i < |devices| ==> devices[i] !in m.owner
    ensures Consistent(Manager(m.groups[id := AddAll(Group([], None), devices)], OwnAll(m.owner, devices, id)))
  {
    AddAllCorrect(Group([], None), m.owner, devices, id);
    var n := Manager(m.groups[id := AddAll(Group([], None), devices)], OwnAll(m.owner, devices, id));
    forall d, k ensures IsMember(n, d, k) <==> d in n.owner && n.owner[d] == k {
      assert IsMember(m, d, k) <==> d in m.owner && m.owner[d] == k;
      assert !IsMember(m, d, id);
    }
  }

  lemma DeleteKeeps(m: Manager, id: GroupId)
    requires Consistent(m) && id in m.groups
    ensures Consistent(After(m, Delete(id)))
  {
    var n := After(m, Delete(id));
    forall d, k ensures IsMember(n, d, k) <==> d in n.owner && n.owner[d] == k {
      assert IsMember(m, d, k) <==> d in m.owner && m.owner[d] == k;
      assert IsMember(m, d, id) <==> d in m.owner && m.owner[d] == id;
    }
  }

  lemma AddDeviceKeeps(m: Manager, id: GroupId, dev: Device)
    requires Consistent(m) && id in m.groups && dev !in m.owner
    ensures Consistent(After(m, AddDevice(id, dev)))
  {
    var n := After(m, AddDevice(id, dev));
    AddMemberCorrect(m.groups[id], dev);
    forall d, k ensures IsMember(n, d, k) <==> d in n.owner && n.owner[d] == k {
      assert IsMember(m, d, k) <==> d in m.owner && m.owner[d] == k;
      assert !IsMember(m, dev, k);
    }
  }

  lemma RemoveDeviceKeeps(m: Manager, dev: Device)
    requires Consistent(m) && dev in m.owner
    ensures Consistent(After(m, RemoveDevice(dev)))
  {
    var id := m.owner[dev];
    assert IsMember(m, dev, id);
    var n, g := After(m, RemoveDevice(dev)), RemoveMember(m.groups[id], dev).0;
    RemoveMemberCorrect(m.groups[id], dev);
    forall d, k ensures IsMember(n, d, k) <==> d in n.owner && n.owner[d] == k {
      assert IsMember(m, d, k) <==> d in m.owner && m.owner[d] == k;
      RemoveMemberHas(m.groups[id], dev, d);
    }
  }

  lemma StepKeeps(m: Manager, op: Op)
    requires Consistent(m) && Allowed(m, op)
    ensures Consistent(After(m, op))
  {
    match op
    case Create(id) =>
      CreateKeeps(m, id, []);
      assert OwnAll(m.owner, [], id) == m.owner;
    case CreateWith(id, devices) =>
      if forall i :: 0 <= i < |devices| ==> devices[i] !in m.owner { CreateKeeps(m, id, devices); }
    case Delete(id) => if id in m.groups { DeleteKeeps(m, id); }
    case AddDevice(id, d) => if id in m.groups && d !in m.owner { AddDeviceKeeps(m, id, d); }
    case RemoveDevice(d) => if d in m.owner { RemoveDeviceKeeps(m, d); }
  }

  function Run(m: Manager, ops: seq<Op>): Manager
    decreases |ops|
  {
    if ops == [] then m else Run(After(m, ops[0]), ops[1..])
  }

  ghost predicate AllowedRun(m: Manager, ops: seq<Op>)
    decreases |ops|
  {
    ops != [] ==> Allowed(m, ops[0]) && AllowedRun(After(m, ops[0]), ops[1..])
  }

  lemma {:induction false} RunKeeps(m: Manager, ops: seq<Op>)
    requires Consistent(m) && AllowedRun(m, ops)
    ensures Consistent(Run(m, ops))
    decreases |ops|
  {
    if ops != [] {
      StepKeeps(m, ops[0]);
      RunKeeps(After(m, ops[0]), ops[1..]);
    }
  }

  /** In every reachable state a device is mapped to a group exactly when it is a
      member of it, so no device is in two; members of a group differ; and each
      non-empty group has exactly one leader, the one it names. */
  lemma AlwaysConsistent(ops: seq<Op>)
    requires AllowedRun(Manager(map[], map[]), ops)
    ensures var m := Run(Manager(map[], map[]), ops);
            && Consistent(m)
            && forall d, i, j :: IsMember(m, d, i) && IsMember(m, d, j) ==> i == j
  {
    RunKeeps(Manager(map[], map[]), ops);
  }

  // --------------------------------------------------------------------- object

  class GroupManager {
    var groups: map<GroupId, Group>
    var deviceGroups: map<Device, GroupId>

    ghost function View(): Manager
      reads this
    {
      Manager(groups, deviceGroups)
    }

    constructor ()
      ensures View() == Manager(map[], map[])
    {
      groups := map[];
      deviceGroups := map[];
    }

    method CreateGroup(id: GroupId)
      modifies this`groups
      ensures View() == After(old(View()), Create(id))
    {
      groups := groups[id := Group([], None)];
    }

    method CreateGroupWithDevices(id: GroupId, devices: seq<Device>) returns (r: Result<GroupId, Failure>)
      modifies this
      ensures View() == After(old(View()), CreateWith(id, devices))
      ensures r == if Apply(old(View()), CreateWith(id, devices)).Ok? then Ok(id) else Err(AlreadyGrouped)
    {
      for i := 0 to |devices|
        invariant View() == old(View())
        invariant forall j :: 0 <= j < i ==> devices[j] !in deviceGroups
      {
        if devices[i] in deviceGroups {
          return Err(AlreadyGrouped);
        }
      }
      var group := Group([], None);
      for i := 0 to |devices|
        invariant groups == old(groups)
        invariant AddAll(group, devices[i..]) == AddAll(Group([], None), devices)
        invariant OwnAll(deviceGroups, devices[i..], id) == OwnAll(old(deviceGroups), devices, id)
      {
        assert devices[i..][0] == devices[i] && devices[i..][1..] == devices[i + 1..];
        group := AddMember(group, devices[i]);
        deviceGroups := deviceGroups[devices[i] := id];
      }
      groups := groups[id := group];
      r := Ok(id);
    }

    method DeleteGroup(id: GroupId) returns (out: Option<Group>)
      modifies this
      ensures View() == After(old(View()), Delete(id))
      ensures out == if id in old(groups) then Some(old(groups)[id]) else None
    {
      if id !in groups {
        return None;
      }
      var group := groups[id];
      groups := groups - {id};
      for i := 0 to |group.members|
        invariant groups == old(groups) - {id}
        invariant deviceGroups == old(deviceGroups) - set j | 0 <= j < i :: group.members[j].device
      {
        deviceGroups := deviceGroups - {group.members[i].device};
      }
      out := Some(group);
    }

    method AddDeviceToGroup(id: GroupId, device: Device) returns (r: Option<Failure>)
      modifies this
      ensures View() == After(old(View()), AddDevice(id, device))
      ensures var a := Apply(old(View()), AddDevice(id, device));
              r == if a.Ok? then None else Some(a.error)
    {
      if device in deviceGroups {
        return Some(AlreadyGrouped);
      }
      if id !in groups {
        return Some(GroupNotFound);
      }
      groups := groups[id := AddMember(groups[id], device)];
      deviceGroups := deviceGroups[device := id];
      r := None;
    }

    method RemoveDeviceFromGroup(device: Device)
      modifies this
      ensures View() == After(old(View()), RemoveDevice(device))
    {
      if device in deviceGroups {
        var id := deviceGroups[device];
        deviceGroups := deviceGroups - {device};
        if id in groups {
          var (group, _) := RemoveMember(groups[id], device);
          groups := groups[id := group];
          if |group.members| == 0 {
            groups := groups - {id};
          }
        }
      }
    }
  }
}
