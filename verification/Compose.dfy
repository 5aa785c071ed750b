/**
 The volume builder of the docker-compose exporter (pkg/export/docker-compose.go). The pinyin
 conversion of names, path.Join and the random suffixes of service names are parameters.
 */
module Compose {
  datatype Volume = Volume(name: string, mountPath: string, volumeType: string)

  datatype ShareVolume = ShareVolume(volumeName: string, mountDir: string, shareServiceUUID: string)

  // The first four characters of a UUID.
  type Suffix = s: string | |s| == 4 witness "0000"

  datatype Component = Component(cname: string, shareID: string, volumes: seq<Volume>, mounts: seq<ShareVolume>)

  const CONFIG_FILE := "config-file"

  // What the exporter calls and this model leaves open; suffixes[i] is the random suffix the
  // i-th component would get.
  datatype Environment = Environment(
    composeName: string -> string, join: (string, string) -> string, suffixes: nat -> Suffix)

  // ---- specification ----

  // buildVolume's second result: where a volume is mounted from.
  function Source(env: Environment, service: string, v: Volume): (s: string)
    ensures s != ""
  {
    if v.volumeType == CONFIG_FILE then "./" + env.join(service, v.mountPath)
    else service + "_" + v.name
  }

  function Mount(source: string, target: string): string { source + ":" + target }

  // The name of the i-th component when `taken` are the names before it.
  function ServiceName(env: Environment, c: Component, i: nat, taken: set<string>): string {
    var name := env.composeName(c.cname);
    if name in taken then name + "-" + env.suffixes(i) else name
  }

  // The names of the components so far, in order.
  function NameList(env: Environment, cs: seq<Component>): (names: seq<string>)
    ensures |names| == |cs|
  {
    if cs == [] then []
    else
      var n := |cs| - 1;
      var before := NameList(env, cs[..n]);
      before + [ServiceName(env, cs[n], n, set x | x in before)]
  }

  // serviceNames: share ID to name; the last component with an ID wins.
  function Names(env: Environment, cs: seq<Component>): map<string, string> {
    if cs == [] then map[]
    else
      var n := |cs| - 1;
      Names(env, cs[..n])[cs[n].shareID := NameList(env, cs)[n]]
  }

  // No later component has the share ID of component i.
  ghost predicate LastOfID(cs: seq<Component>, i: nat)
    requires i < |cs|
  {
    forall k :: i < k < |cs| ==> cs[k].shareID != cs[i].shareID
  }

  function Lookup(m: map<string, string>, k: string): string { if k in m then m[k] else "" }

  // volumeMaps after some volumes of one component.
  function Indexed(env: Environment, m: map<string, string>, id: string, service: string,
                   vs: seq<Volume>): map<string, string>
  {
    if vs == [] then m
    else
      var n := |vs| - 1;
      Indexed(env, m, id, service, vs[..n])[id + vs[n].name := Source(env, service, vs[n])]
  }

  function Index(env: Environment, names: map<string, string>, cs: seq<Component>): map<string, string> {
    if cs == [] then map[]
    else
      var c := cs[|cs| - 1];
      Indexed(env, Index(env, names, cs[..|cs| - 1]), c.shareID, Lookup(names, c.shareID), c.volumes)
  }

  function OwnMounts(env: Environment, service: string, vs: seq<Volume>): seq<string> {
    if vs == [] then []
    else
      var n := |vs| - 1;
      OwnMounts(env, service, vs[..n]) + [Mount(Source(env, service, vs[n]), vs[n].mountPath)]
  }

  function GlobalOf(env: Environment, service: string, vs: seq<Volume>): seq<string> {
    if vs == [] then []
    else
      var n := |vs| - 1;
      GlobalOf(env, service, vs[..n]) + if vs[n].volumeType == CONFIG_FILE then [] else [Source(env, service, vs[n])]
  }

  // globalVolumes.
  function Globals(env: Environment, names: map<string, string>, cs: seq<Component>): seq<string> {
    if cs == [] then []
    else
      var c := cs[|cs| - 1];
      Globals(env, names, cs[..|cs| - 1]) + GlobalOf(env, Lookup(names, c.shareID), c.volumes)
  }

  function OwnVolumes(env: Environment, names: map<string, string>, cs: seq<Component>): map<string, seq<string>> {
    if cs == [] then map[]
    else
      var c := cs[|cs| - 1];
      OwnVolumes(env, names, cs[..|cs| - 1])[c.shareID := OwnMounts(env, Lookup(names, c.shareID), c.volumes)]
  }

  // The mounts of other components' volumes; one that is not found is left out.
  function DependentMounts(index: map<string, string>, ds: seq<ShareVolume>): seq<string> {
    if ds == [] then []
    else
      var n := |ds| - 1;
      var source := Lookup(index, ds[n].shareServiceUUID + ds[n].volumeName);
      DependentMounts(index, ds[..n]) + if source == "" then [] else [Mount(source, ds[n].mountDir)]
  }

  function MountsOf(m: map<string, seq<string>>, id: string): seq<string> { if id in m then m[id] else [] }

  function WithDependents(m: map<string, seq<string>>, index: map<string, string>,
                          cs: seq<Component>): map<string, seq<string>>
  {
    if cs == [] then m
    else
      var c := cs[|cs| - 1];
      var before := WithDependents(m, index, cs[..|cs| - 1]);
      var more := DependentMounts(index, c.mounts);
      if more == [] then before else before[c.shareID := MountsOf(before, c.shareID) + more]
  }

  // serviceVolumes.
  function ServiceVolumes(env: Environment, names: map<string, string>, cs: seq<Component>): map<string, seq<string>> {
    WithDependents(OwnVolumes(env, names, cs), Index(env, names, cs), cs)
  }

  lemma NoVolumes(env: Environment, m: map<string, string>, id: string, service: string)
    ensures OwnMounts(env, service, []) == GlobalOf(env, service, []) == [] && Indexed(env, m, id, service, []) == m
  {
  }

  // What one more volume adds.
  lemma VolumeStep(env: Environment, m: map<string, string>, list: seq<string>, id: string, service: string,
                   vs: seq<Volume>, j: nat)
    requires j < |vs|
    ensures
      var v, before, after := vs[j], vs[..j], vs[..j + 1];
      && OwnMounts(env, service, after) ==
         OwnMounts(env, service, before) + [Mount(Source(env, service, v), v.mountPath)]
      && Indexed(env, m, id, service, after) ==
         Indexed(env, m, id, service, before)[id + v.name := Source(env, service, v)]
      && list + GlobalOf(env, service, after) ==
         list + GlobalOf(env, service, before) + if v.volumeType == CONFIG_FILE then [] else [Source(env, service, v)]
  {
    hide Source, Mount;
    assert vs[..j + 1][..j] == vs[..j];
  }

  // ---- the builder ----

  /** dockerCompose. */
  class DockerCompose {
    const env: Environment
    const components: seq<Component>
    var globalVolumes: seq<string>
    var serviceVolumes: map<string, seq<string>>
    var serviceNames: map<string, string>

    // newDockerCompose.
    constructor (env: Environment, components: seq<Component>)
      ensures this.env == env && this.components == components
      ensures serviceNames == Names(env, components)
      ensures serviceVolumes == ServiceVolumes(env, serviceNames, components)
      ensures globalVolumes == Globals(env, serviceNames, components)
    {
      this.env, this.components := env, components;
      globalVolumes, serviceVolumes, serviceNames := [], map[], map[];
      new;
      BuildServiceNames();
      BuildVolumes();
    }

    method BuildServiceNames()
      modifies this`serviceNames
      ensures serviceNames == Names(env, components)
    {
      var names: map<string, string> := map[];
      var taken: set<string> := {};
      for i := 0 to |components|
        invariant names == Names(env, components[..i])
        invariant taken == set x | x in NameList(env, components[..i])
      {
        var name := env.composeName(components[i].cname);
        if name in taken {
          name := name + "-" + env.suffixes(i);
        }
        taken := taken + {name};
        names := names[components[i].shareID := name];
        assert components[..i + 1][..i] == components[..i];
      }
      assert components[..|components|] == components;
      serviceNames := names;
    }

    method BuildVolume(service: string, v: Volume) returns (mount: string, source: string, isConfig: bool)
      ensures source == Source(env, service, v) && mount == Mount(source, v.mountPath)
      ensures isConfig <==> v.volumeType == CONFIG_FILE
    {
      if v.volumeType == CONFIG_FILE {
        var path := "./" + env.join(service, v.mountPath);
        return path + ":" + v.mountPath, path, true;
      }
      var name := service + "_" + v.name;
      return name + ":" + v.mountPath, name, false;
    }

    // The inner loop of buildVolumes over the volumes of one component.
    method BuildOwnVolumes(c: Component, index0: map<string, string>, list0: seq<string>)
      returns (volumes: seq<string>, index: map<string, string>, list: seq<string>)
      ensures var service := Lookup(serviceNames, c.shareID);
              && volumes == OwnMounts(env, service, c.volumes)
              && index == Indexed(env, index0, c.shareID, service, c.volumes)
              && list == list0 + GlobalOf(env, service, c.volumes)
    {
      hide Source, Mount, OwnMounts, Indexed, GlobalOf;
      var service := GetServiceName(c.shareID);
      volumes, index, list := [], index0, list0;
      NoVolumes(env, index0, c.shareID, service);
      assert c.volumes[..0] == [] && list0 + [] == list0;
      for j := 0 to |c.volumes|
        invariant volumes == OwnMounts(env, service, c.volumes[..j])
        invariant index == Indexed(env, index0, c.shareID, service, c.volumes[..j])
        invariant list == list0 + GlobalOf(env, service, c.volumes[..j])
      {
        VolumeStep(env, index0, list0, c.shareID, service, c.volumes, j);
        var mount, source, isConfig := BuildVolume(service, c.volumes[j]);
        volumes := volumes + [mount];
        if source != "" {
          if !isConfig {
            list := list + [source];
          }
          index := index[c.shareID + c.volumes[j].name := source];
        }
      }
      assert c.volumes[..|c.volumes|] == c.volumes;
    }

    // The inner loop of buildVolumes over the dependent volumes of one component.
    method AddDependents(c: Component, index: map<string, string>, m0: map<string, seq<string>>)
      returns (m: map<string, seq<string>>)
      ensures var more := DependentMounts(index, c.mounts);
              m == if more == [] then m0 else m0[c.shareID := MountsOf(m0, c.shareID) + more]
    {
      m := m0;
      for j := 0 to |c.mounts|
        invariant var more := DependentMounts(index, c.mounts[..j]);
                  m == if more == [] then m0 else m0[c.shareID := MountsOf(m0, c.shareID) + more]
      {
        var d := c.mounts[j];
        var source := Lookup(index, d.shareServiceUUID + d.volumeName);
        assert c.mounts[..j + 1][..j] == c.mounts[..j];
        assert DependentMounts(index, c.mounts[..j]) + [] == DependentMounts(index, c.mounts[..j]);
        if source == "" {
          continue;
        }
        ghost var own, before := MountsOf(m0, c.shareID), DependentMounts(index, c.mounts[..j]);
        assert MountsOf(m, c.shareID) == own + before;
        m := m[c.shareID := MountsOf(m, c.shareID) + [source + ":" + d.mountDir]];
        ghost var more := before + [Mount(source, d.mountDir)];
        assert own + before + [Mount(source, d.mountDir)] == own + more;
        assert m == m0[c.shareID := own + more];
      }
      assert c.mounts[..|c.mounts|] == c.mounts;
    }

    method BuildVolumes()
      modifies this`serviceVolumes, this`globalVolumes
      ensures serviceVolumes == ServiceVolumes(env, serviceNames, components)
      ensures globalVolumes == Globals(env, serviceNames, components)
    {
      hide Indexed, OwnMounts, GlobalOf, DependentMounts, Lookup;
      var index: map<string, string> := map[];
      var list: seq<string> := [];
      var own: map<string, seq<string>> := map[];
      for i := 0 to |components|
        invariant index == Index(env, serviceNames, components[..i])
        invariant list == Globals(env, serviceNames, components[..i])
        invariant own == OwnVolumes(env, serviceNames, components[..i])
      {
        var volumes;
        volumes, index, list := BuildOwnVolumes(components[i], index, list);
        own := own[components[i].shareID := volumes];
        assert components[..i + 1][..i] == components[..i];
      }
      assert components[..|components|] == components;
      var all := own;
      for i := 0 to |components|
        invariant all == WithDependents(own, index, components[..i])
      {
        all := AddDependents(components[i], index, all);
        assert components[..i + 1][..i] == components[..i];
      }
      serviceVolumes, globalVolumes := all, list;
    }

    function GetServiceName(id: string): string
      reads this
    {
      Lookup(serviceNames, id)
    }

    // GetGlobalVolumes, as the set of its keys.
    method GetGlobalVolumes() returns (volumes: set<string>)
      ensures volumes == set v | v in globalVolumes
    {
      volumes := {};
      for i := 0 to |globalVolumes|
        invariant volumes == set v | v in globalVolumes[..i]
      {
        volumes := volumes + {globalVolumes[i]};
        assert globalVolumes[..i + 1] == globalVolumes[..i] + [globalVolumes[i]];
      }
      assert globalVolumes[..|globalVolumes|] == globalVolumes;
    }
  }
}
