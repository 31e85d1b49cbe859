/** The top of the shutdown cascade: the registries of all clients, and the file system. */
module Shutdown {
  import opened Tree

  /** A registry none of whose objects changed is as it was. */
  twostate lemma RegistryUntouched(r: Registry)
    requires old(r.Valid()) && unchanged(r) && forall o | o in old(r.Footprint()) :: unchanged(o)
    ensures r.Valid() && r.SameReprs() && AllNodesClosed(r) == old(AllNodesClosed(r))
  {
    r.Still();
    forall j | 0 <= j < |r.added| ensures r.added[j].IsClosed() == old(r.added[j].IsClosed()) {
      assert forall o | o in old(r.added[j].Repr()) :: o in old(r.Footprint());
      Untouched(r.added[j]);
    }
  }

  ghost predicate AllNodesClosed(r: Registry)
    reads r, r.Anchors()
  {
    forall i | 0 <= i < |r.added| :: r.added[i].IsClosed()
  }

  /** What closing a registry may change. */
  ghost function Reach(r: Registry): set<object>
    reads r, r.Anchors()
  {
    {r} + r.Footprint()
  }

  twostate lemma ReachUntouched(r: Registry)
    requires old(r.Valid()) && forall o | o in old(Reach(r)) :: unchanged(o)
    ensures r.Valid() && Reach(r) == old(Reach(r))
    ensures AllNodesClosed(r) == old(AllNodesClosed(r)) && r.nodes == old(r.nodes)
  {
    assert r in old(Reach(r));
    RegistryUntouched(r);
    r.FootprintKept();
  }

  /** The package's map of registries, one for each client's root name. */
  class Instances {
    var instances: map<string, Registry>

    ghost function Registries(): set<object>
      reads this
    {
      set n | n in instances :: instances[n]
    }

    ghost function Anchors(): set<object>
      reads this, Registries()
    {
      set n, o | n in instances && o in instances[n].Anchors() :: o
    }

    ghost function Inner(): set<object>
      reads this, Registries(), Anchors()
    {
      set n, o | n in instances && o in instances[n].Footprint() :: o
    }

    ghost function Footprint(): set<object>
      reads this, Registries(), Anchors()
    {
      Registries() + Inner()
    }

    ghost predicate Valid()
      reads this, Registries(), Anchors(), Inner()
    {
      && (forall n | n in instances ::
            instances[n].Valid() && this !in Reach(instances[n]))
      && (forall n, m | n in instances && m in instances && n != m :: Reach(instances[n]) !! Reach(instances[m]))
    }

    constructor ()
      ensures Valid() && instances == map[]
    {
      instances := map[];
    }

    /** GetInstance for a client whose root has this name: always the same registry. */
    method GetInstance(name: string) returns (r: Registry)
      requires Valid()
      modifies this
      ensures Valid() && name in instances && r == instances[name]
      ensures name in old(instances) ==> instances == old(instances)
      ensures name !in old(instances) ==> instances == old(instances)[name := r] && fresh(r) && r.added == []
    {
      if name in instances {
        return instances[name];
      }
      r := Make();
      Put(name, r);
    }

    method Make() returns (r: Registry)
      requires Valid()
      ensures Valid() && fresh(r) && r.Valid() && r.added == []
      ensures forall n | n in instances :: r !in Reach(instances[n])
    {
      hide Node.Valid, Registry.Valid;
      r := new Registry();
      AllUntouched();
    }

    /** No registry's objects changed. */
    twostate lemma AllUntouched()
      requires old(Valid()) && instances == old(instances) && forall o | o in old(Footprint()) :: unchanged(o)
      ensures Valid() && Footprint() == old(Footprint())
      ensures forall n | n in instances :: Reach(instances[n]) == old(Reach(instances[n]))
    {
      forall n | n in instances
        ensures instances[n].Valid() && Reach(instances[n]) == old(Reach(instances[n]))
      {
        assert forall o | o in old(Reach(instances[n])) :: o in old(Footprint());
        ReachUntouched(instances[n]);
      }
    }

    method Put(name: string, r: Registry)
      requires Valid() && name !in instances && r.Valid() && r.added == []
      requires forall n | n in instances :: r !in Reach(instances[n])
      modifies this
      ensures Valid() && instances == old(instances)[name := r]
    {
      hide Node.Valid, Registry.Valid;
      instances := instances[name := r];
      ReachUntouched(r);
      forall n | n in old(instances)
        ensures instances[n].Valid() && Reach(instances[n]) == old(Reach(instances[n])) && this !in Reach(instances[n])
      {
        assert this !in old(Reach(instances[n]));
        ReachUntouched(instances[n]);
      }
      assert Reach(r) == {r};
    }

    /** Close: when it returns, every node ever added to any registry is closed. */
    method Close()
      requires Valid()
      modifies Footprint()
      ensures Valid() && instances == old(instances)
      ensures forall n | n in instances :: AllNodesClosed(instances[n]) && instances[n].nodes == []
    {
      CloseEach(Footprint());
    }

    /** Close's loop; `all` is the footprint. */
    method CloseEach(ghost all: set<object>)
      requires Valid() && Covers(all)
      modifies all
      ensures Valid() && instances == old(instances)
      ensures forall n | n in instances :: AllNodesClosed(instances[n]) && instances[n].nodes == []
    {
      var names := instances.Keys;
      while names != {}
        invariant Valid() && Covers(all) && instances == old(instances) && names <= instances.Keys
        invariant Emptied(instances.Keys - names)
      {
        var n :| n in names;
        CloseNext(n, names, all);
        names := names - {n};
      }
    }

    /** The registries of these names have been closed. */
    ghost predicate Emptied(names: set<string>)
      reads this, Registries(), Anchors()
    {
      forall n | n in names && n in instances :: AllNodesClosed(instances[n]) && instances[n].nodes == []
    }

    method CloseNext(n: string, ghost names: set<string>, ghost all: set<object>)
      requires Valid() && Covers(all) && n in names && names <= instances.Keys && Emptied(instances.Keys - names)
      modifies all
      ensures Valid() && Covers(all) && instances == old(instances)
      ensures Emptied(instances.Keys - (names - {n}))
    {
      hide Node.Valid, Registry.Valid;
      var r := instances[n];
      assert Reach(r) <= all;
      CloseOne(n, r);
    }

    ghost predicate Covers(all: set<object>)
      reads this, Registries(), Anchors()
    {
      this !in all && forall n | n in instances :: Reach(instances[n]) <= all
    }

    method CloseOne(n: string, r: Registry)
      requires Valid() && n in instances && instances[n] == r
      modifies Reach(instances[n])
      ensures Valid() && instances == old(instances)
      ensures forall m | m in instances :: Reach(instances[m]) == old(Reach(instances[m]))
      ensures AllNodesClosed(r) && r.nodes == []
      ensures forall m | m in instances && m != n ::
                AllNodesClosed(instances[m]) == old(AllNodesClosed(instances[m]))
                && instances[m].nodes == old(instances[m].nodes)
    {
      r.CloseNodes();
      forall m | m in instances && m != n
        ensures instances[m].Valid() && Reach(instances[m]) == old(Reach(instances[m]))
        ensures AllNodesClosed(instances[m]) == old(AllNodesClosed(instances[m]))
        ensures instances[m].nodes == old(instances[m].nodes)
      {
        assert old(Reach(instances[m])) !! old(Reach(instances[n]));
        ReachUntouched(instances[m]);
      }
    }
  }

  class RootNodeService {
    var closed: bool

    constructor ()
      ensures !closed
    {
      closed := false;
    }

    /** New: (nil, nil) when closed, otherwise a node or an error. */
    method New() returns (reply: RootReply)
      ensures reply.NilNode? <==> closed
      ensures !reply.NilDereference?
    {
      if closed {
        return NilNode;
      }
      reply := RootNode;
      if * { reply := RootFailed; }  // no logger
    }

    method Close()
      modifies this
      ensures closed
    {
      closed := true;
    }
  }

  /** What a call of Root comes to. */
  datatype RootReply = RootNode | NilNode | RootFailed | NilDereference

  /** filesystem/main.go. */
  class FileSystem {
    var rootNodeService: RootNodeService?
    var closed: bool
    const registries: Instances

    /** The root service is nilled only by Close. */
    ghost predicate Valid()
      reads this
    {
      closed <==> rootNodeService == null
    }

    constructor (rootNodeService: RootNodeService, registries: Instances)
      ensures Valid() && !closed && this.registries == registries
    {
      this.rootNodeService, this.registries, closed := rootNodeService, registries, false;
    }

    /** Root tests neither `closed` nor the service: it dereferences nil exactly when the file system is closed. */
    method Root() returns (reply: RootReply)
      requires Valid()
      ensures reply.NilDereference? <==> closed
      ensures reply.NilNode? ==> rootNodeService != null && rootNodeService.closed
    {
      if rootNodeService == null {
        return NilDereference;
      }
      reply := rootNodeService.New();
    }

    /** Close: the first call shuts everything down; later calls do nothing. */
    method Close()
      requires Valid() && registries.Valid() && Apart()
      modifies this, rootNodeService, registries.Footprint()
      ensures Valid() && closed && registries.Valid()
      ensures old(rootNodeService) != null ==> old(rootNodeService).closed
      ensures !old(closed) ==> forall n | n in registries.instances :: AllNodesClosed(registries.instances[n])
    {
      if closed {
        return;
      }
      CloseRoot();
      registries.Close();
    }

    ghost predicate Apart()
      reads this, registries, registries.Registries(), registries.Anchors()
    {
      this !in registries.Footprint() && (rootNodeService != null ==> rootNodeService !in registries.Footprint())
    }

    /** Close up to its call of registry.Close. */
    method CloseRoot()
      requires Valid() && !closed && registries.Valid() && Apart()
      modifies this, rootNodeService
      ensures Valid() && closed && old(rootNodeService).closed
      ensures registries.Valid() && registries.Footprint() == old(registries.Footprint())
    {
      closed := true;
      rootNodeService.Close();
      rootNodeService := null;
      registries.AllUntouched();
    }
  }
}
