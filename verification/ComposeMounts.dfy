/**
 What each service mounts: its own volumes in order, and behind them the volumes of other
 components that it asks for and that exist.
 */
module ComposeMounts {
  import opened Compose
  import opened ComposeClosure

  // A mount of a component's own volume: a config file lies below the service's directory, any
  // other volume is a global one named after service and volume.
  function OwnMount(env: Environment, service: string, v: Volume): string {
    if v.volumeType == "config-file" then "./" + env.join(service, v.mountPath) + ":" + v.mountPath
    else service + "_" + v.name + ":" + v.mountPath
  }

  lemma {:induction false} OwnMountsAre(env: Environment, service: string, vs: seq<Volume>)
    ensures |OwnMounts(env, service, vs)| == |vs|
    ensures forall j :: 0 <= j < |vs| ==> OwnMounts(env, service, vs)[j] == OwnMount(env, service, vs[j])
    decreases |vs|
  {
    if vs != [] {
      OwnMountsAre(env, service, vs[..|vs| - 1]);
    }
  }

  // The mounts of a list of wanted volumes: those in the index, in order.
  function FoundMounts(index: map<string, string>, ds: seq<ShareVolume>): seq<string> {
    if ds == [] then []
    else
      var key := ds[0].shareServiceUUID + ds[0].volumeName;
      (if key in index then [index[key] + ":" + ds[0].mountDir] else []) + FoundMounts(index, ds[1..])
  }

  // Those of all components with this share ID, in order.
  function AllFound(index: map<string, string>, cs: seq<Component>, id: string): seq<string> {
    if cs == [] then []
    else (if cs[0].shareID == id then FoundMounts(index, cs[0].mounts) else []) + AllFound(index, cs[1..], id)
  }

  ghost predicate NoneEmpty(index: map<string, string>) { forall k :: k in index ==> index[k] != "" }

  lemma {:induction false} FoundSnoc(index: map<string, string>, ds: seq<ShareVolume>, d: ShareVolume)
    ensures FoundMounts(index, ds + [d]) == FoundMounts(index, ds) + FoundMounts(index, [d])
    decreases |ds|
  {
    if ds == [] {
      assert ds + [d] == [d];
    } else {
      assert (ds + [d])[1..] == ds[1..] + [d];
      FoundSnoc(index, ds[1..], d);
    }
  }

  lemma {:induction false} DependentsAreFound(index: map<string, string>, ds: seq<ShareVolume>)
    requires NoneEmpty(index)
    ensures DependentMounts(index, ds) == FoundMounts(index, ds)
    decreases |ds|
  {
    if ds != [] {
      var n := |ds| - 1;
      DependentsAreFound(index, ds[..n]);
      FoundSnoc(index, ds[..n], ds[n]);
      assert ds == ds[..n] + [ds[n]] && [ds[n]][1..] == [];
    }
  }

  lemma {:induction false} AllFoundSnoc(index: map<string, string>, cs: seq<Component>, c: Component, id: string)
    ensures AllFound(index, cs + [c], id) ==
            AllFound(index, cs, id) + if c.shareID == id then FoundMounts(index, c.mounts) else []
    decreases |cs|
  {
    hide FoundMounts;
    if cs == [] {
      assert cs + [c] == [c] && [c][1..] == [];
    } else {
      assert (cs + [c])[1..] == cs[1..] + [c];
      AllFoundSnoc(index, cs[1..], c, id);
    }
  }

  lemma {:induction false} DependentsAppended(m: map<string, seq<string>>, index: map<string, string>,
                                              cs: seq<Component>, id: string)
    requires NoneEmpty(index)
    ensures MountsOf(WithDependents(m, index, cs), id) == MountsOf(m, id) + AllFound(index, cs, id)
    decreases |cs|
  {
    hide FoundMounts, DependentMounts;
    if cs == [] {
      assert MountsOf(m, id) + [] == MountsOf(m, id);
    } else {
      hide MountsOf, AllFound;
      var n := |cs| - 1;
      var front, c := cs[..n], cs[n];
      DependentsAppended(m, index, front, id);
      AllFoundSnoc(index, front, c, id);
      assert cs == front + [c];
      DependentsAreFound(index, c.mounts);
      OneMoreComponent(WithDependents(m, index, front), c, FoundMounts(index, c.mounts), id);
      Grouped(MountsOf(m, id), AllFound(index, front, id),
              if c.shareID == id then FoundMounts(index, c.mounts) else []);
    }
  }

  lemma OneMoreComponent(before: map<string, seq<string>>, c: Component, more: seq<string>, id: string)
    ensures MountsOf(if more == [] then before else before[c.shareID := MountsOf(before, c.shareID) + more], id) ==
            MountsOf(before, id) + if c.shareID == id then more else []
  {
  }

  lemma Grouped(a: seq<string>, b: seq<string>, c: seq<string>)
    ensures a + b + c == a + (b + c)
  {
  }

  lemma {:induction false} OwnVolumesOf(env: Environment, names: map<string, string>, cs: seq<Component>, i: nat)
    requires i < |cs| && LastOfID(cs, i)
    ensures MountsOf(OwnVolumes(env, names, cs), cs[i].shareID) ==
            OwnMounts(env, Lookup(names, cs[i].shareID), cs[i].volumes)
    decreases |cs|
  {
    hide OwnMounts, Lookup;
    var n := |cs| - 1;
    if i < n {
      assert forall k :: i < k < n ==> cs[..n][k] == cs[k];
      OwnVolumesOf(env, names, cs[..n], i);
      assert cs[n].shareID != cs[i].shareID;
    }
  }

  lemma {:induction false} IndexedNoneEmpty(env: Environment, m: map<string, string>, id: string, service: string,
                                            vs: seq<Volume>)
    requires NoneEmpty(m)
    ensures NoneEmpty(Indexed(env, m, id, service, vs))
    decreases |vs|
  {
    hide Source;
    if vs != [] {
      IndexedNoneEmpty(env, m, id, service, vs[..|vs| - 1]);
    }
  }

  lemma {:induction false} IndexNoneEmpty(env: Environment, names: map<string, string>, cs: seq<Component>)
    ensures NoneEmpty(Index(env, names, cs))
    decreases |cs|
  {
    hide Indexed, Lookup, NoneEmpty;
    if cs == [] {
      assert NoneEmpty(map[]) by { EmptyIndex(); }
    } else {
      var c := cs[|cs| - 1];
      IndexNoneEmpty(env, names, cs[..|cs| - 1]);
      IndexedNoneEmpty(env, Index(env, names, cs[..|cs| - 1]), c.shareID, Lookup(names, c.shareID), c.volumes);
    }
  }

  lemma EmptyIndex()
    ensures NoneEmpty(map[])
  {
  }

  // What a service mounts is, in this order: the volumes of the last component with its share
  // ID, one by one, and the volumes asked for by all components with that ID, where they exist.
  lemma MountsAre(env: Environment, names: map<string, string>, cs: seq<Component>, i: nat)
    requires i < |cs| && LastOfID(cs, i)
    ensures
      var c := cs[i];
      var mounts := MountsOf(ServiceVolumes(env, names, cs), c.shareID);
      && |c.volumes| <= |mounts|
      && (forall j :: 0 <= j < |c.volumes| ==> mounts[j] == OwnMount(env, Lookup(names, c.shareID), c.volumes[j]))
      && mounts[|c.volumes|..] == AllFound(Index(env, names, cs), cs, c.shareID)
  {
    hide Index, OwnVolumes, WithDependents, AllFound, OwnMounts, OwnMount, Lookup;
    var c := cs[i];
    var index, service := Index(env, names, cs), Lookup(names, c.shareID);
    IndexNoneEmpty(env, names, cs);
    OwnVolumesOf(env, names, cs, i);
    OwnMountsAre(env, service, c.volumes);
    DependentsAppended(OwnVolumes(env, names, cs), index, cs, c.shareID);
  }

  // A volume exists for others exactly if some component has one of that share ID and name,
  // joined.
  lemma {:induction false} IndexedKeys(env: Environment, m: map<string, string>, id: string, service: string,
                                       vs: seq<Volume>, key: string)
    ensures key in Indexed(env, m, id, service, vs) <==> key in m || exists j :: 0 <= j < |vs| && key == id + vs[j].name
    decreases |vs|
  {
    hide Source;
    if vs != [] {
      var n := |vs| - 1;
      IndexedKeys(env, m, id, service, vs[..n], key);
      if j :| 0 <= j < |vs| && key == id + vs[j].name {
        assert j < n ==> vs[..n][j] == vs[j];
      }
    }
  }

  // Volume j of component i has this key.
  ghost predicate HasKey(cs: seq<Component>, i: nat, j: nat, key: string) {
    i < |cs| && j < |cs[i].volumes| && Key(cs, i, j) == key
  }

  lemma {:induction false} IndexKeys(env: Environment, names: map<string, string>, cs: seq<Component>, key: string)
    ensures key in Index(env, names, cs) <==> exists i: nat, j: nat :: HasKey(cs, i, j, key)
    decreases |cs|
  {
    hide Indexed, Lookup;
    if cs != [] {
      var n := |cs| - 1;
      var front, c := cs[..n], cs[n];
      IndexKeys(env, names, front, key);
      IndexedKeys(env, Index(env, names, front), c.shareID, Lookup(names, c.shareID), c.volumes, key);
      if i: nat, j: nat :| HasKey(front, i, j, key) {
        assert HasKey(cs, i, j, key);
      }
      if j :| 0 <= j < |c.volumes| && key == c.shareID + c.volumes[j].name {
        assert HasKey(cs, n, j, key);
      }
      if i: nat, j: nat :| HasKey(cs, i, j, key) {
        assert i < n ==> HasKey(front, i, j, key);
      }
    }
  }
}
