/**
 Every volume a service mounts exists: it is declared globally or is a config file that is
 written for some component, and a dependent mount is the owner's volume.
 */
module ComposeClosure {
  import opened Compose

  // `source` is mounted by some component as a config file.
  ghost predicate ConfigPath(env: Environment, names: map<string, string>, cs: seq<Component>, source: string) {
    exists i, j :: 0 <= i < |cs| && 0 <= j < |cs[i].volumes| && cs[i].volumes[j].volumeType == CONFIG_FILE &&
      source == Source(env, Lookup(names, cs[i].shareID), cs[i].volumes[j])
  }

  ghost predicate Declared(env: Environment, names: map<string, string>, cs: seq<Component>, source: string) {
    source in Globals(env, names, cs) || ConfigPath(env, names, cs, source)
  }

  // The mount has a declared source.
  ghost predicate Backed(env: Environment, names: map<string, string>, cs: seq<Component>, mount: string) {
    exists source, target :: mount == Mount(source, target) && Declared(env, names, cs, source)
  }

  ghost predicate IndexBacked(env: Environment, names: map<string, string>, cs: seq<Component>,
                              index: map<string, string>)
  {
    forall k :: k in index ==> Declared(env, names, cs, index[k])
  }

  ghost predicate MountsBacked(env: Environment, names: map<string, string>, cs: seq<Component>, mounts: seq<string>) {
    forall m :: m in mounts ==> Backed(env, names, cs, m)
  }

  ghost predicate AllBacked(env: Environment, names: map<string, string>, cs: seq<Component>,
                            all: map<string, seq<string>>)
  {
    forall id :: id in all ==> MountsBacked(env, names, cs, all[id])
  }

  lemma DeclaredLater(env: Environment, names: map<string, string>, cs: seq<Component>, source: string)
    requires cs != [] && Declared(env, names, cs[..|cs| - 1], source)
    ensures Declared(env, names, cs, source)
  {
    hide Source;
    var front := cs[..|cs| - 1];
    if source !in Globals(env, names, cs) {
      var i, j :| 0 <= i < |front| && 0 <= j < |front[i].volumes| && front[i].volumes[j].volumeType == CONFIG_FILE &&
        source == Source(env, Lookup(names, front[i].shareID), front[i].volumes[j]);
      assert cs[i] == front[i];
    }
  }

  lemma {:induction false} GlobalHasSource(env: Environment, service: string, vs: seq<Volume>, j: nat)
    requires j < |vs| && vs[j].volumeType != CONFIG_FILE
    ensures Source(env, service, vs[j]) in GlobalOf(env, service, vs)
  {
    hide Source;
    var n := |vs| - 1;
    if j < n {
      GlobalHasSource(env, service, vs[..n], j);
    }
  }

  // The last component's volumes are declared.
  lemma LastDeclared(env: Environment, names: map<string, string>, cs: seq<Component>, j: nat)
    requires cs != [] && j < |cs[|cs| - 1].volumes|
    ensures var c := cs[|cs| - 1]; Declared(env, names, cs, Source(env, Lookup(names, c.shareID), c.volumes[j]))
  {
    hide Source;
    var c := cs[|cs| - 1];
    if c.volumes[j].volumeType != CONFIG_FILE {
      GlobalHasSource(env, Lookup(names, c.shareID), c.volumes, j);
    }
  }

  lemma {:induction false} IndexedDeclared(env: Environment, names: map<string, string>, cs: seq<Component>,
                                           m: map<string, string>, j: nat)
    requires cs != [] && j <= |cs[|cs| - 1].volumes| && IndexBacked(env, names, cs, m)
    ensures var c := cs[|cs| - 1];
            IndexBacked(env, names, cs, Indexed(env, m, c.shareID, Lookup(names, c.shareID), c.volumes[..j]))
  {
    hide Source, Declared;
    var c := cs[|cs| - 1];
    if j == 0 {
      assert c.volumes[..0] == [];
    } else {
      assert c.volumes[..j][..j - 1] == c.volumes[..j - 1] && c.volumes[..j][j - 1] == c.volumes[j - 1];
      IndexedDeclared(env, names, cs, m, j - 1);
      LastDeclared(env, names, cs, j - 1);
    }
  }

  // Whatever the index of volumes holds is declared.
  lemma {:induction false} IndexDeclared(env: Environment, names: map<string, string>, cs: seq<Component>)
    ensures IndexBacked(env, names, cs, Index(env, names, cs))
  {
    hide Source, Declared, Indexed;
    if cs != [] {
      var front, c := cs[..|cs| - 1], cs[|cs| - 1];
      IndexDeclared(env, names, front);
      var m := Index(env, names, front);
      forall k | k in m
        ensures Declared(env, names, cs, m[k])
      {
        assert Declared(env, names, front, m[k]);
        DeclaredLater(env, names, cs, m[k]);
      }
      assert c.volumes[..|c.volumes|] == c.volumes;
      IndexedDeclared(env, names, cs, m, |c.volumes|);
    }
  }

  lemma {:induction false} OwnBacked(env: Environment, names: map<string, string>, cs: seq<Component>, j: nat)
    requires cs != [] && j <= |cs[|cs| - 1].volumes|
    ensures var c := cs[|cs| - 1];
            MountsBacked(env, names, cs, OwnMounts(env, Lookup(names, c.shareID), c.volumes[..j]))
  {
    hide Source, Declared, Mount;
    var c := cs[|cs| - 1];
    if j == 0 {
      assert c.volumes[..0] == [];
    } else {
      assert c.volumes[..j][..j - 1] == c.volumes[..j - 1] && c.volumes[..j][j - 1] == c.volumes[j - 1];
      OwnBacked(env, names, cs, j - 1);
      LastDeclared(env, names, cs, j - 1);
    }
  }

  lemma BackedLater(env: Environment, names: map<string, string>, cs: seq<Component>, m: string)
    requires cs != [] && Backed(env, names, cs[..|cs| - 1], m)
    ensures Backed(env, names, cs, m)
  {
    hide Declared, Mount;
    var source, target :| m == Mount(source, target) && Declared(env, names, cs[..|cs| - 1], source);
    DeclaredLater(env, names, cs, source);
  }

  lemma {:induction false} OwnVolumesBacked(env: Environment, names: map<string, string>, cs: seq<Component>)
    ensures AllBacked(env, names, cs, OwnVolumes(env, names, cs))
  {
    hide Backed, OwnMounts;
    if cs != [] {
      var front, c := cs[..|cs| - 1], cs[|cs| - 1];
      var own := OwnVolumes(env, names, front);
      OwnVolumesBacked(env, names, front);
      forall id, m | id in own && m in own[id]
        ensures Backed(env, names, cs, m)
      {
        assert MountsBacked(env, names, front, own[id]);
        BackedLater(env, names, cs, m);
      }
      assert c.volumes[..|c.volumes|] == c.volumes;
      OwnBacked(env, names, cs, |c.volumes|);
    }
  }

  lemma {:induction false} DependentsBacked(env: Environment, names: map<string, string>, cs: seq<Component>,
                                            index: map<string, string>, ds: seq<ShareVolume>)
    requires IndexBacked(env, names, cs, index)
    ensures MountsBacked(env, names, cs, DependentMounts(index, ds))
  {
    hide Declared, Mount;
    if ds != [] {
      DependentsBacked(env, names, cs, index, ds[..|ds| - 1]);
    }
  }

  lemma {:induction false} WithDependentsBacked(env: Environment, names: map<string, string>, cs: seq<Component>,
                                                own: map<string, seq<string>>, index: map<string, string>, n: nat)
    requires n <= |cs| && IndexBacked(env, names, cs, index) && AllBacked(env, names, cs, own)
    ensures AllBacked(env, names, cs, WithDependents(own, index, cs[..n]))
  {
    hide Backed, DependentMounts, IndexBacked;
    if n == 0 {
      assert cs[..0] == [];
    } else {
      assert cs[..n][..n - 1] == cs[..n - 1] && cs[..n][n - 1] == cs[n - 1];
      WithDependentsBacked(env, names, cs, own, index, n - 1);
      DependentsBacked(env, names, cs, index, cs[n - 1].mounts);
    }
  }

  // Closure: for every application, each mount of each service, own or dependent, has a
  // source that is a declared global volume or a config path built for some component.
  lemma VolumesClosed(env: Environment, names: map<string, string>, cs: seq<Component>)
    ensures AllBacked(env, names, cs, ServiceVolumes(env, names, cs))
  {
    hide AllBacked, IndexBacked, Index, OwnVolumes, WithDependents;
    IndexDeclared(env, names, cs);
    OwnVolumesBacked(env, names, cs);
    assert cs[..|cs|] == cs;
    WithDependentsBacked(env, names, cs, OwnVolumes(env, names, cs), Index(env, names, cs), |cs|);
  }

  // ---- dependent mounts ----

  // The index key of a volume.
  function Key(cs: seq<Component>, i: nat, j: nat): string
    requires i < |cs| && j < |cs[i].volumes|
  {
    cs[i].shareID + cs[i].volumes[j].name
  }

  // No later volume has the key of volume j of component i. (True of every volume if the
  // share IDs and each component's volume names are distinct and no two joined keys agree.)
  ghost predicate Owns(cs: seq<Component>, i: nat, j: nat)
    requires i < |cs| && j < |cs[i].volumes|
  {
    forall k: nat, l: nat :: k < |cs| && l < |cs[k].volumes| && (k > i || (k == i && l > j)) ==>
      Key(cs, k, l) != Key(cs, i, j)
  }

  // The last volume with a key owns it.
  lemma {:induction false} IndexedOwner(env: Environment, m: map<string, string>, id: string, service: string,
                                        vs: seq<Volume>, j: nat)
    requires j < |vs| && forall l :: j < l < |vs| ==> vs[l].name != vs[j].name
    ensures var r := Indexed(env, m, id, service, vs);
            id + vs[j].name in r && r[id + vs[j].name] == Source(env, service, vs[j])
  {
    hide Source;
    var n := |vs| - 1;
    if j < n {
      IndexedOwner(env, m, id, service, vs[..n], j);
      PrefixCancels(id, vs[n].name, vs[j].name);
    }
  }

  lemma PrefixCancels(a: string, b: string, c: string)
    ensures a + b == a + c <==> b == c
  {
    assert (a + b)[|a|..] == b && (a + c)[|a|..] == c;
  }

  lemma {:induction false} IndexedOthers(env: Environment, m: map<string, string>, id: string, service: string,
                                         vs: seq<Volume>, key: string)
    requires key in m && forall l :: 0 <= l < |vs| ==> id + vs[l].name != key
    ensures var r := Indexed(env, m, id, service, vs); key in r && r[key] == m[key]
  {
    if vs != [] {
      IndexedOthers(env, m, id, service, vs[..|vs| - 1], key);
    }
  }

  // Of the volumes with a key the index keeps the last.
  lemma {:induction false} IndexOwner(env: Environment, names: map<string, string>, cs: seq<Component>, i: nat, j: nat)
    requires i < |cs| && j < |cs[i].volumes| && Owns(cs, i, j)
    ensures var r := Index(env, names, cs);
            Key(cs, i, j) in r && r[Key(cs, i, j)] == Source(env, Lookup(names, cs[i].shareID), cs[i].volumes[j])
    decreases |cs|
  {
    hide Source, Indexed;
    var n := |cs| - 1;
    var front, c := cs[..n], cs[n];
    var m, service := Index(env, names, front), Lookup(names, c.shareID);
    forall l | 0 <= l < |c.volumes| && (i < n || j < l)
      ensures c.shareID + c.volumes[l].name != Key(cs, i, j)
    {
      assert Key(cs, n, l) != Key(cs, i, j);
    }
    if i == n {
      IndexedOwner(env, m, c.shareID, service, c.volumes, j);
    } else {
      forall k: nat, l: nat | k < n && l < |front[k].volumes| && (k > i || (k == i && l > j))
        ensures Key(front, k, l) != Key(front, i, j)
      {
        assert Key(cs, k, l) != Key(cs, i, j);
      }
      IndexOwner(env, names, front, i, j);
      IndexedOthers(env, m, c.shareID, service, c.volumes, Key(cs, i, j));
    }
  }

  lemma {:induction false} DependentListed(index: map<string, string>, ds: seq<ShareVolume>, k: nat)
    requires k < |ds| && Lookup(index, ds[k].shareServiceUUID + ds[k].volumeName) != ""
    ensures Mount(Lookup(index, ds[k].shareServiceUUID + ds[k].volumeName), ds[k].mountDir)
            in DependentMounts(index, ds)
  {
    hide Mount;
    if k < |ds| - 1 {
      DependentListed(index, ds[..|ds| - 1], k);
    }
  }

  lemma {:induction false} DependentsKept(m: map<string, seq<string>>, index: map<string, string>, cs: seq<Component>,
                                          i: nat, mount: string)
    requires i < |cs| && mount in DependentMounts(index, cs[i].mounts)
    ensures mount in MountsOf(WithDependents(m, index, cs), cs[i].shareID)
  {
    hide DependentMounts;
    if i < |cs| - 1 {
      DependentsKept(m, index, cs[..|cs| - 1], i, mount);
    }
  }

  // A component that mounts volume j of component i gets that very volume, at the place it
  // asks for, unless a later volume has taken the key.
  lemma DependentResolves(env: Environment, names: map<string, string>, cs: seq<Component>,
                          i: nat, j: nat, d: nat, k: nat)
    requires i < |cs| && j < |cs[i].volumes| && Owns(cs, i, j) && d < |cs| && k < |cs[d].mounts|
    requires cs[d].mounts[k].shareServiceUUID == cs[i].shareID && cs[d].mounts[k].volumeName == cs[i].volumes[j].name
    ensures Mount(Source(env, Lookup(names, cs[i].shareID), cs[i].volumes[j]), cs[d].mounts[k].mountDir)
            in MountsOf(ServiceVolumes(env, names, cs), cs[d].shareID)
  {
    hide Mount, Index, OwnVolumes, WithDependents, DependentMounts;
    IndexOwner(env, names, cs, i, j);
    var index := Index(env, names, cs);
    DependentListed(index, cs[d].mounts, k);
    DependentsKept(OwnVolumes(env, names, cs), index, cs, d,
                   Mount(index[Key(cs, i, j)], cs[d].mounts[k].mountDir));
  }
}
