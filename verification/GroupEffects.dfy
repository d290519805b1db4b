/** What each operation on groups changes and leaves alone, and who leads. */
module GroupEffects {
  import opened Common
  import opened Groups

  // ---------------------------------------------------------------- memberships

  /** A new group has exactly the given devices; with any of them taken nothing is created. */
  lemma CreateWithEffect(m: Manager, id: GroupId, devices: seq<Device>)
    requires Consistent(m) && id !in m.groups
    ensures var r := Apply(m, CreateWith(id, devices));
            && (r.Err? <==> exists d :: d in devices && d in m.owner)
            && (r.Err? ==> r == Err(AlreadyGrouped))
            && (r.Ok? ==>
                  && r.value.groups.Keys == m.groups.Keys + {id}
                  && (forall k :: k in m.groups ==> r.value.groups[k] == m.groups[k])
                  && (forall d, k :: IsMember(r.value, d, k) <==> (k == id && d in devices) || IsMember(m, d, k)))
  {
    var r := Apply(m, CreateWith(id, devices));
    if r.Ok? {
      AddAllCorrect(Group([], None), m.owner, devices, id);
    } else {
      var i :| 0 <= i < |devices| && devices[i] in m.owner;
      assert devices[i] in devices;
    }
  }

  lemma CreateEffect(m: Manager, id: GroupId)
    requires Consistent(m) && id !in m.groups
    ensures var n := After(m, Create(id));
            && n.groups.Keys == m.groups.Keys + {id} && n.groups[id].members == [] && n.owner == m.owner
            && (forall k :: k in m.groups ==> n.groups[k] == m.groups[k])
  {
  }

  /** Deleting ends the group and exactly its memberships. */
  lemma DeleteEffect(m: Manager, id: GroupId)
    requires Consistent(m)
    ensures var n := After(m, Delete(id));
            && n.groups == m.groups - {id}
            && (forall d, k :: IsMember(n, d, k) <==> k != id && IsMember(m, d, k))
            && (forall d: Device :: d in n.owner <==> d in m.owner && m.owner[d] != id)
            && (forall d: Device :: d in n.owner ==> n.owner[d] == m.owner[d])
  {
    var n := After(m, Delete(id));
    if id in m.groups {
      forall d: Device ensures d in n.owner <==> d in m.owner && m.owner[d] != id {
        assert IsMember(m, d, id) <==> d in m.owner && m.owner[d] == id;
      }
    } else {
      forall d: Device | d in m.owner ensures m.owner[d] != id { assert !IsMember(m, d, id); }
    }
  }

  /** Adding fails for a device that is in a group, else for a group that is not there, and
      otherwise begins exactly the one membership. */
  lemma AddDeviceEffect(m: Manager, id: GroupId, dev: Device)
    requires Consistent(m)
    ensures var r := Apply(m, AddDevice(id, dev));
            && (r == Err(AlreadyGrouped) <==> dev in m.owner)
            && (r == Err(GroupNotFound) <==> dev !in m.owner && id !in m.groups)
            && (r.Ok? ==>
                  && r.value.groups.Keys == m.groups.Keys
                  && (forall k :: k in m.groups && k != id ==> r.value.groups[k] == m.groups[k])
                  && (forall d, k :: IsMember(r.value, d, k) <==> (k == id && d == dev) || IsMember(m, d, k)))
  {
    if id in m.groups { AddMemberCorrect(m.groups[id], dev); }
  }

  /** Removing a device ends its membership and no other, and the group only if it was the last. */
  lemma RemoveDeviceEffect(m: Manager, dev: Device)
    requires Consistent(m)
    ensures var n := After(m, RemoveDevice(dev));
            && n.owner == m.owner - {dev}
            && (forall d, k :: IsMember(n, d, k) <==> d != dev && IsMember(m, d, k))
            && (forall k :: k in m.groups && !IsMember(m, dev, k) ==> k in n.groups && n.groups[k] == m.groups[k])
            && (forall k :: k in m.groups && IsMember(m, dev, k) ==>
                  (k in n.groups <==> exists d: Device :: d != dev && IsMember(m, d, k)))
            && n.groups.Keys <= m.groups.Keys
  {
    if dev in m.owner {
      var id := m.owner[dev];
      assert IsMember(m, dev, id);
      var g, n := RemoveMember(m.groups[id], dev).0, After(m, RemoveDevice(dev));
      forall d: Device ensures Has(g, d) <==> d != dev && Has(m.groups[id], d) {
        RemoveMemberHas(m.groups[id], dev, d);
      }
      forall d, k ensures IsMember(n, d, k) <==> d != dev && IsMember(m, d, k) {
        assert IsMember(m, dev, k) <==> k == id;
        if k == id && Has(g, d) { assert g.members != []; }
      }
      if g.members != [] {
        var first := g.members[0].device;
        assert Has(g, first);
        assert first != dev && IsMember(m, first, id);
      }
    } else {
      forall k ensures !IsMember(m, dev, k) { }
    }
  }

  // --------------------------------------------------------------------- leaders

  function Devices(g: Group): (ds: seq<Device>)
    ensures |ds| == |g.members| && forall i :: 0 <= i < |ds| ==> ds[i] == g.members[i].device
  {
    seq(|g.members|, i requires 0 <= i < |g.members| => g.members[i].device)
  }

  /** Members stand in the order in which they joined: a new one goes last, and those that
      stay keep their order when one leaves. */
  lemma JoiningOrder(g: Group, d: Device)
    requires GoodGroup(g)
    ensures !Has(g, d) ==> Devices(AddMember(g, d)) == Devices(g) + [d]
    ensures Has(g, d) ==> AddMember(g, d) == g
    ensures Has(g, d) ==>
              (exists k :: 0 <= k < |g.members| && Devices(g)[k] == d
                           && Devices(RemoveMember(g, d).0) == Devices(g)[..k] + Devices(g)[k + 1..])
    ensures !Has(g, d) ==> RemoveMember(g, d).0 == g
  {
    var at := IndexOf(g.members, d);
    if at.Some? {
      assert g.members[at.value].device == d && Has(g, d);
      OthersStay(g, d, at.value);
    } else {
      assert !Has(g, d);
      LastJoins(g, d);
    }
  }

  lemma LastJoins(g: Group, d: Device)
    requires !Has(g, d)
    ensures Devices(AddMember(g, d)) == Devices(g) + [d]
  {
  }

  lemma OthersStay(g: Group, d: Device, k: nat)
    requires IndexOf(g.members, d) == Some(k)
    ensures k < |g.members| && Devices(RemoveMember(g, d).0) == Devices(g)[..k] + Devices(g)[k + 1..]
  {
    var rest, h := Without(g.members, k), RemoveMember(g, d).0;
    RestStays(g, d, k);
    hide RemoveMember, IndexOf, Without;
    var ds, left := Devices(g), Devices(h);
    forall i | 0 <= i < |left| ensures left[i] == (ds[..k] + ds[k + 1..])[i] {
      assert left[i] == rest[i].device == g.members[if i < k then i else i + 1].device;
    }
    assert |left| == |ds[..k] + ds[k + 1..]|;
  }

  /** Promotion changes a flag and no device. */
  lemma RestStays(g: Group, d: Device, k: nat)
    requires IndexOf(g.members, d) == Some(k)
    ensures var rest, h := Without(g.members, k), RemoveMember(g, d).0;
            |h.members| == |rest| && forall i :: 0 <= i < |rest| ==> h.members[i].device == rest[i].device
  {
    var rest := Without(g.members, k);
    assert RemoveMember(g, d).0.members
        == if g.members[k].isLeader && rest != [] then [rest[0].(isLeader := true)] + rest[1..] else rest;
    hide RemoveMember, IndexOf, Without;
    if rest != [] { Promoted(rest); }
  }

  lemma Promoted(rest: seq<Member>)
    requires rest != []
    ensures var up := [rest[0].(isLeader := true)] + rest[1..];
            |up| == |rest| && forall i :: 0 <= i < |rest| ==> up[i].device == rest[i].device
  {
  }

  /** The leader is the first in the list, and so of those present the one that joined first. */
  ghost predicate LedByFirst(g: Group) {
    g.members != [] ==> LedBy(g, 0)
  }

  lemma AddKeepsFirst(g: Group, d: Device)
    requires LedByFirst(g)
    ensures LedByFirst(AddMember(g, d))
  {
  }

  lemma RemoveKeepsFirst(g: Group, d: Device)
    requires LedByFirst(g)
    ensures LedByFirst(RemoveMember(g, d).0)
  {
    var at := IndexOf(g.members, d);
    if at.Some? {
      var h := RemoveMember(g, d).0;
      if h.members != [] {
        if at.value == 0 { assert g.members[0].isLeader; } else { assert !g.members[at.value].isLeader; }
        assert LedBy(h, 0);
      }
    }
  }

  lemma {:induction false} AddAllKeepsFirst(g: Group, devices: seq<Device>)
    requires LedByFirst(g)
    ensures LedByFirst(AddAll(g, devices))
    decreases |devices|
  {
    if devices != [] {
      AddKeepsFirst(g, devices[0]);
      AddAllKeepsFirst(AddMember(g, devices[0]), devices[1..]);
    }
  }

  ghost predicate AllLedByFirst(m: Manager) {
    forall id :: id in m.groups ==> LedByFirst(m.groups[id])
  }

  lemma StepKeepsFirst(m: Manager, op: Op)
    requires AllLedByFirst(m)
    ensures AllLedByFirst(After(m, op))
  {
    hide LedByFirst, AddMember, RemoveMember;
    EmptyLed();
    match op
    case CreateWith(id, devices) => AddAllKeepsFirst(Group([], None), devices);
    case AddDevice(id, d) => if id in m.groups { AddKeepsFirst(m.groups[id], d); }
    case RemoveDevice(d) =>
      if d in m.owner && m.owner[d] in m.groups { RemoveKeepsFirst(m.groups[m.owner[d]], d); }
    case _ =>
  }

  lemma EmptyLed()
    ensures LedByFirst(Group([], None))
  {
  }

  lemma {:induction false} RunKeepsFirst(m: Manager, ops: seq<Op>)
    requires AllLedByFirst(m)
    ensures AllLedByFirst(Run(m, ops))
    decreases |ops|
  {
    if ops != [] {
      StepKeepsFirst(m, ops[0]);
      RunKeepsFirst(After(m, ops[0]), ops[1..]);
    }
  }

  /** In every reachable state each group is led by its longest-standing member. */
  lemma LeaderIsLongestStanding(ops: seq<Op>)
    ensures AllLedByFirst(Run(Manager(map[], map[]), ops))
  {
    RunKeepsFirst(Manager(map[], map[]), ops);
  }
}
