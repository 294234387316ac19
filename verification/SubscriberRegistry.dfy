/**
  The registry of locally registered subscribers and their group affiliations:
  three redundant indexes kept in place, proved to represent one relation
  between individual (ISSI) and group (GSSI) identities.
 */
module Registry {
  import opened Wrappers

  type Issi = nat
  type Gssi = nat

  datatype Subscriber = Subscriber(issi: Issi, attachedGroups: set<Gssi>)

  /** The three indexes. */
  datatype Indexes = Indexes(
    subscribers: map<Issi, Subscriber>,
    members: map<Gssi, set<Issi>>,
    attached: set<Gssi>)
  {
    /** ISSI `i` is affiliated to GSSI `g`, read from the subscriber's own set. */
    predicate BySubscriber(i: Issi, g: Gssi) { i in subscribers && g in subscribers[i].attachedGroups }

    /** The same, read from the group's member set. */
    predicate ByGroup(i: Issi, g: Gssi) { g in members && i in members[g] }

    ghost predicate Consistent() {
      && (forall i :: i in subscribers ==> subscribers[i].issi == i)
      && (forall i, g :: BySubscriber(i, g) <==> ByGroup(i, g))
      && (forall g :: g in members ==> members[g] != {})
      && attached == members.Keys
    }
  }

  /** What the indexes stand for. */
  datatype Relation = Relation(registered: set<Issi>, pairs: set<(Issi, Gssi)>)

  ghost function Meaning(x: Indexes): Relation {
    Relation(x.subscribers.Keys, set i, g | i in x.subscribers && g in x.subscribers[i].attachedGroups :: (i, g))
  }

  datatype Op =
    | Register(issi: Issi)
    | Deregister(issi: Issi)
    | Affiliate(issi: Issi, gssi: Gssi)
    | Deaffiliate(issi: Issi, gssi: Gssi)

  /** The operations on the relation. */
  ghost function Apply(r: Relation, op: Op): Relation {
    match op
    case Register(i) => Relation(r.registered + {i}, set p | p in r.pairs && p.0 != i)
    case Deregister(i) => Relation(r.registered - {i}, set p | p in r.pairs && p.0 != i)
    case Affiliate(i, g) => if i in r.registered then r.(pairs := r.pairs + {(i, g)}) else r
    case Deaffiliate(i, g) => r.(pairs := r.pairs - {(i, g)})
  }

  ghost function ApplyAll(r: Relation, ops: seq<Op>): Relation {
    if ops == [] then r else Apply(ApplyAll(r, ops[..|ops| - 1]), ops[|ops| - 1])
  }

  /** Both directions of the index and the set of attached groups agree, and only registered stations occur in them. */
  lemma OneRelation(x: Indexes)
    requires x.Consistent()
    ensures forall i: Issi, g: Gssi :: (i, g) in Meaning(x).pairs <==> x.ByGroup(i, g)
    ensures forall i, g :: x.ByGroup(i, g) ==> i in Meaning(x).registered
    ensures forall g :: g in x.attached <==> exists i :: (i, g) in Meaning(x).pairs
  {
    forall g | g in x.attached ensures exists i :: (i, g) in Meaning(x).pairs {
      var i :| i in x.members[g];
      assert x.ByGroup(i, g);
      assert x.BySubscriber(i, g);
      assert (i, g) in Meaning(x).pairs;
    }
    forall i: Issi, g: Gssi ensures (i, g) in Meaning(x).pairs <==> x.ByGroup(i, g) {
      assert x.BySubscriber(i, g) <==> x.ByGroup(i, g);
    }
  }

  /** Consistent indexes are determined by the relation: nothing stale can hide in them. */
  lemma Determined(x: Indexes, y: Indexes)
    requires x.Consistent() && y.Consistent() && Meaning(x) == Meaning(y)
    ensures x == y
  {
    OneRelation(x);
    OneRelation(y);
    assert x.attached == y.attached;
    forall i | i in x.subscribers ensures x.subscribers[i] == y.subscribers[i] {
      forall g ensures g in x.subscribers[i].attachedGroups <==> g in y.subscribers[i].attachedGroups {
        assert (i, g) in Meaning(x).pairs <==> (i, g) in Meaning(y).pairs;
      }
    }
    forall g | g in x.members ensures x.members[g] == y.members[g] {
      forall i ensures i in x.members[g] <==> i in y.members[g] {
        assert x.ByGroup(i, g) <==> y.ByGroup(i, g);
      }
    }
  }

  class SubscriberRegistry {
    var subscribers: map<Issi, Subscriber>
    var members: map<Gssi, set<Issi>>
    var attached: set<Gssi>

    function Value(): Indexes
      reads this
    {
      Indexes(subscribers, members, attached)
    }

    constructor ()
      ensures Value().Consistent() && Meaning(Value()) == Relation({}, {})
    {
      subscribers, members, attached := map[], map[], {};
    }

    method IsRegistered(issi: Issi) returns (r: bool)
      ensures r <==> issi in Meaning(Value()).registered
    {
      r := issi in subscribers;
    }

    /** Tolerant registration: an existing one is removed first, with its affiliations. */
    method Register(issi: Issi)
      requires Value().Consistent()
      modifies this
      ensures Value().Consistent() && Meaning(Value()) == Apply(old(Meaning(Value())), Op.Register(issi))
      ensures Meaning(Value()).registered == old(Meaning(Value()).registered) + {issi}
      ensures forall p :: p in Meaning(Value()).pairs <==> p in old(Meaning(Value()).pairs) && p.0 != issi
    {
      Deregister(issi);
      ghost var x := Value();
      subscribers := subscribers[issi := Subscriber(issi, {})];
      NewSubscriber(x, issi);
    }

    method Deregister(issi: Issi)
      requires Value().Consistent()
      modifies this
      ensures Value().Consistent() && Meaning(Value()) == Apply(old(Meaning(Value())), Op.Deregister(issi))
      ensures Meaning(Value()).registered == old(Meaning(Value()).registered) - {issi}
      ensures forall p :: p in Meaning(Value()).pairs <==> p in old(Meaning(Value()).pairs) && p.0 != issi
      ensures issi !in subscribers
    {
      ghost var x := Value();
      if issi in subscribers {
        var todo := subscribers[issi].attachedGroups;
        subscribers := subscribers - {issi};
        LeavingStarts(x, issi);
        while todo != {}
          invariant subscribers == x.subscribers - {issi}
          invariant Leaving(Value(), issi, todo)
        {
          var g :| g in todo;
          ghost var before := Value();
          DropMember(issi, g);
          todo := todo - {g};
          LeavingStep(before, Value(), issi, g, todo);
        }
        LeavingEnds(Value(), issi);
      }
      Removed(x, Value(), issi);
    }

    /** Take `issi` out of the members of `g`; drop the group when it becomes empty. */
    method DropMember(issi: Issi, g: Gssi)
      modifies this`members, this`attached
      ensures Value() == WithoutMember(old(Value()), issi, g)
    {
      var removeGroup := false;
      if g in members {
        members := members[g := members[g] - {issi}];
        removeGroup := members[g] == {};
      }
      if removeGroup { members := members - {g}; }
      if g !in members { attached := attached - {g}; }
      assert members == WithoutMember(old(Value()), issi, g).members;
    }

    method Affiliate(issi: Issi, gssi: Gssi) returns (ok: bool)
      requires Value().Consistent()
      modifies this
      ensures Value().Consistent() && Meaning(Value()) == Apply(old(Meaning(Value())), Op.Affiliate(issi, gssi))
      ensures Meaning(Value()).registered == old(Meaning(Value()).registered)
      ensures Meaning(Value()).pairs == old(Meaning(Value()).pairs) + if ok then {(issi, gssi)} else {}
      ensures ok <==> issi in old(Meaning(Value())).registered
    {
      if issi !in subscribers { return false; }
      ghost var x := Value();
      var s := subscribers[issi];
      subscribers := subscribers[issi := s.(attachedGroups := s.attachedGroups + {gssi})];
      var current := if gssi in members then members[gssi] else {};
      members := members[gssi := current + {issi}];
      attached := attached + {gssi};
      Joined(x, Value(), issi, gssi);
      ok := true;
    }

    method Deaffiliate(issi: Issi, gssi: Gssi) returns (ok: bool)
      requires Value().Consistent()
      modifies this
      ensures Value().Consistent() && Meaning(Value()) == Apply(old(Meaning(Value())), Op.Deaffiliate(issi, gssi))
      ensures Meaning(Value()).registered == old(Meaning(Value()).registered)
      ensures Meaning(Value()).pairs == old(Meaning(Value()).pairs) - {(issi, gssi)}
      ensures ok <==> (issi, gssi) in old(Meaning(Value())).pairs
    {
      ghost var x := Value();
      if !x.BySubscriber(issi, gssi) { NotAffiliated(x, issi, gssi); }
      if issi !in subscribers { return false; }
      var s := subscribers[issi];
      if gssi in s.attachedGroups {
        subscribers := subscribers[issi := s.(attachedGroups := s.attachedGroups - {gssi})];
        DropMember(issi, gssi);
        Left(x, Value(), issi, gssi);
        return true;
      }
      ok := false;
    }

    method HasGroupMembers(g: Gssi) returns (r: bool)
      requires Value().Consistent()
      ensures r <==> exists i :: (i, g) in Meaning(Value()).pairs
    {
      OneRelation(Value());
      r := g in attached;
    }

    method ContainsGroupMember(g: Gssi, i: Issi) returns (r: bool)
      requires Value().Consistent()
      ensures r <==> (i, g) in Meaning(Value()).pairs
    {
      OneRelation(Value());
      r := Value().ByGroup(i, g);
    }

    method GroupMembers(g: Gssi) returns (r: set<Issi>)
      requires Value().Consistent()
      ensures forall i :: i in r <==> (i, g) in Meaning(Value()).pairs
    {
      OneRelation(Value());
      r := if g in members then members[g] else {};
      forall i ensures i in r <==> (i, g) in Meaning(Value()).pairs {
        assert i in r <==> Value().ByGroup(i, g);
      }
    }

    /** Any sequence of operations from the empty registry is the same sequence on the relation. */
    static method Run(ops: seq<Op>) returns (reg: SubscriberRegistry)
      ensures fresh(reg) && reg.Value().Consistent()
      ensures Meaning(reg.Value()) == ApplyAll(Relation({}, {}), ops)
    {
      reg := new SubscriberRegistry();
      assert ops[..0] == [];
      for n := 0 to |ops|
        invariant fresh(reg) && reg.Value().Consistent()
        invariant Meaning(reg.Value()) == ApplyAll(Relation({}, {}), ops[..n])
      {
        match ops[n] {
          case Register(i) => reg.Register(i);
          case Deregister(i) => reg.Deregister(i);
          case Affiliate(i, g) => var ok := reg.Affiliate(i, g);
          case Deaffiliate(i, g) => var ok := reg.Deaffiliate(i, g);
        }
        assert ops[..n + 1][..n] == ops[..n];
      }
      assert ops[..|ops|] == ops;
    }
  }

  // ---------------------------------------------------------------- one member leaving

  function WithoutMember(x: Indexes, issi: Issi, g: Gssi): Indexes {
    if g !in x.members then x.(attached := x.attached - {g})
    else if x.members[g] - {issi} == {} then x.(members := x.members - {g}, attached := x.attached - {g})
    else x.(members := x.members[g := x.members[g] - {issi}])
  }

  /** A station already struck off the subscribers, but still a member of the groups in `todo`. */
  ghost predicate Leaving(x: Indexes, issi: Issi, todo: set<Gssi>) {
    && issi !in x.subscribers
    && (forall i :: i in x.subscribers ==> x.subscribers[i].issi == i)
    && (forall i, g :: x.ByGroup(i, g) <==> x.BySubscriber(i, g) || (i == issi && g in todo))
    && (forall g :: g in x.members ==> x.members[g] != {})
    && x.attached == x.members.Keys
  }

  lemma LeavingStarts(x: Indexes, issi: Issi)
    requires x.Consistent() && issi in x.subscribers
    ensures Leaving(x.(subscribers := x.subscribers - {issi}), issi, x.subscribers[issi].attachedGroups)
  {
    var y := x.(subscribers := x.subscribers - {issi});
    forall i, g
      ensures y.ByGroup(i, g) <==> y.BySubscriber(i, g) || (i == issi && g in x.subscribers[issi].attachedGroups)
    {
      assert x.BySubscriber(i, g) <==> x.ByGroup(i, g);
    }
  }

  /** How membership reads after one member was dropped. */
  lemma WithoutMemberMeans(x: Indexes, issi: Issi, g: Gssi)
    requires (forall h :: h in x.members ==> x.members[h] != {}) && x.attached == x.members.Keys
    ensures var y := WithoutMember(x, issi, g);
            && (forall i, h :: y.ByGroup(i, h) <==> x.ByGroup(i, h) && !(i == issi && h == g))
            && (forall h :: h in y.members ==> y.members[h] != {})
            && y.attached == y.members.Keys && y.subscribers == x.subscribers
  {
    var y := WithoutMember(x, issi, g);
    forall i, h ensures y.ByGroup(i, h) <==> x.ByGroup(i, h) && !(i == issi && h == g) {
      if g in x.members && h == g { assert i in x.members[g] - {issi} <==> x.ByGroup(i, h) && i != issi; }
    }
  }

  lemma LeavingStep(x: Indexes, y: Indexes, issi: Issi, g: Gssi, todo: set<Gssi>)
    requires Leaving(x, issi, todo + {g}) && g !in todo && y == WithoutMember(x, issi, g)
    ensures Leaving(y, issi, todo)
  {
    WithoutMemberMeans(x, issi, g);
    forall i, h ensures y.ByGroup(i, h) <==> y.BySubscriber(i, h) || (i == issi && h in todo) {
      assert x.ByGroup(i, h) <==> x.BySubscriber(i, h) || (i == issi && h in todo + {g});
      assert y.BySubscriber(i, h) == x.BySubscriber(i, h);
    }
  }

  lemma LeavingEnds(x: Indexes, issi: Issi)
    requires Leaving(x, issi, {})
    ensures x.Consistent()
  {
  }

  lemma Removed(x: Indexes, y: Indexes, issi: Issi)
    requires y.subscribers == x.subscribers - {issi}
    ensures Meaning(y) == Apply(Meaning(x), Deregister(issi))
  {
  }

  lemma NewSubscriber(x: Indexes, issi: Issi)
    requires x.Consistent() && issi !in x.subscribers
    ensures var y := x.(subscribers := x.subscribers[issi := Subscriber(issi, {})]);
            y.Consistent() && Meaning(y) == Relation(Meaning(x).registered + {issi}, Meaning(x).pairs)
  {
    var y := x.(subscribers := x.subscribers[issi := Subscriber(issi, {})]);
    forall i, g ensures y.BySubscriber(i, g) <==> y.ByGroup(i, g) {
      assert x.BySubscriber(i, g) <==> x.ByGroup(i, g);
    }
    assert Meaning(y).pairs == Meaning(x).pairs;
  }

  lemma Joined(x: Indexes, y: Indexes, issi: Issi, g: Gssi)
    requires x.Consistent() && issi in x.subscribers
    requires var s := x.subscribers[issi];
             y == Indexes(x.subscribers[issi := s.(attachedGroups := s.attachedGroups + {g})],
                          x.members[g := (if g in x.members then x.members[g] else {}) + {issi}],
                          x.attached + {g})
    ensures y.Consistent() && Meaning(y) == Apply(Meaning(x), Affiliate(issi, g))
  {
    forall i, h ensures y.BySubscriber(i, h) <==> y.ByGroup(i, h) {
      assert x.BySubscriber(i, h) <==> x.ByGroup(i, h);
    }
    assert Meaning(y).pairs == Meaning(x).pairs + {(issi, g)};
  }

  lemma Left(x: Indexes, y: Indexes, issi: Issi, g: Gssi)
    requires x.Consistent() && issi in x.subscribers
    requires var s := x.subscribers[issi];
             var kept := x.subscribers[issi := s.(attachedGroups := s.attachedGroups - {g})];
             y == WithoutMember(x.(subscribers := kept), issi, g)
    ensures y.Consistent() && Meaning(y) == Apply(Meaning(x), Deaffiliate(issi, g))
  {
    var s := x.subscribers[issi];
    var x' := x.(subscribers := x.subscribers[issi := s.(attachedGroups := s.attachedGroups - {g})]);
    WithoutMemberMeans(x', issi, g);
    forall i, h ensures y.BySubscriber(i, h) <==> y.ByGroup(i, h) {
      assert x.BySubscriber(i, h) <==> x.ByGroup(i, h);
      assert x'.ByGroup(i, h) == x.ByGroup(i, h);
    }
    assert Meaning(y).pairs == Meaning(x).pairs - {(issi, g)};
  }

  lemma NotAffiliated(x: Indexes, issi: Issi, g: Gssi)
    requires !x.BySubscriber(issi, g)
    ensures Apply(Meaning(x), Deaffiliate(issi, g)) == Meaning(x)
  {
  }
}
