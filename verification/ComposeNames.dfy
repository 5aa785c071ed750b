/**
 When the names the compose builder gives to services and to global volumes are unique. Its
 comments promise both; neither is so in general.
 */
module ComposeNames {
  import opened Compose

  ghost predicate Distinct(xs: seq<string>) {
    forall i, j :: 0 <= i < j < |xs| ==> xs[i] != xs[j]
  }

  // ---- services ----

  function BaseName(env: Environment, cs: seq<Component>, i: nat): string
    requires i < |cs|
  {
    env.composeName(cs[i].cname)
  }

  function SuffixedName(env: Environment, cs: seq<Component>, i: nat): string
    requires i < |cs|
  {
    BaseName(env, cs, i) + "-" + env.suffixes(i)
  }

  // Component i has the name of an earlier one, or one that an earlier repetition turned into.
  ghost predicate Repeats(env: Environment, cs: seq<Component>, i: nat)
    requires i < |cs|
    decreases i, 0
  {
    exists j: nat :: j < i && Precedes(env, cs, j, i)
  }

  ghost predicate Precedes(env: Environment, cs: seq<Component>, j: nat, i: nat)
    requires j < i < |cs|
    decreases j, 1
  {
    BaseName(env, cs, j) == BaseName(env, cs, i) ||
    (Repeats(env, cs, j) && SuffixedName(env, cs, j) == BaseName(env, cs, i))
  }

  lemma {:induction false} NamesPrefix(env: Environment, cs: seq<Component>, n: nat)
    requires n <= |cs|
    ensures NameList(env, cs[..n]) == NameList(env, cs)[..n]
    decreases |cs|
  {
    hide ServiceName;
    if n == |cs| {
      assert cs[..n] == cs;
    } else {
      var front := cs[..|cs| - 1];
      NamesPrefix(env, front, n);
      assert front[..n] == cs[..n];
    }
  }

  lemma LastName(env: Environment, cs: seq<Component>, i: nat)
    requires i < |cs|
    ensures var before := NameList(env, cs)[..i];
            NameList(env, cs)[i] ==
            if BaseName(env, cs, i) in before then SuffixedName(env, cs, i) else BaseName(env, cs, i)
  {
    NamesPrefix(env, cs, i);
    NamesPrefix(env, cs, i + 1);
    assert cs[..i + 1][..i] == cs[..i] && cs[..i + 1][i] == cs[i];
    var before := NameList(env, cs[..i]);
    assert NameList(env, cs[..i + 1]) == before + [ServiceName(env, cs[i], i, set x | x in before)];
  }

  // The name of a component is taken exactly if it repeats, and then it gets a suffix.
  lemma {:induction false} NameOf(env: Environment, cs: seq<Component>, i: nat)
    requires i < |cs|
    ensures Repeats(env, cs, i) <==> BaseName(env, cs, i) in NameList(env, cs)[..i]
    ensures NameList(env, cs)[i] == if Repeats(env, cs, i) then SuffixedName(env, cs, i) else BaseName(env, cs, i)
    decreases i
  {
    hide NameList, BaseName, SuffixedName;
    var names := NameList(env, cs);
    forall j: nat | j < i
      ensures Precedes(env, cs, j, i) ==> BaseName(env, cs, i) in names[..i]
      ensures names[j] == BaseName(env, cs, i) ==> Precedes(env, cs, j, i)
    {
      NameOf(env, cs, j);
      assert names[j] == names[..i][j];
      if Repeats(env, cs, j) && BaseName(env, cs, j) == BaseName(env, cs, i) {
        var k :| 0 <= k < j && names[..j][k] == BaseName(env, cs, j);
        assert names[..i][k] == BaseName(env, cs, i);
      }
    }
    if BaseName(env, cs, i) in names[..i] {
      var j :| 0 <= j < i && names[..i][j] == BaseName(env, cs, i);
      assert Precedes(env, cs, j, i);
    }
    LastName(env, cs, i);
  }

  lemma SameSuffixed(a: string, s: Suffix, b: string, t: Suffix)
    ensures a + "-" + s == b + "-" + t <==> a == b && s == t
  {
    var x, y := a + "-" + s, b + "-" + t;
    if x == y {
      assert x[..|x| - 5] == a && y[..|y| - 5] == b;
      assert x[|x| - 4..] == s && y[|y| - 4..] == t;
    }
  }

  // No suffix makes a repetition collide: with another repetition of the name, or with a name
  // that comes before it.
  ghost predicate SuffixesTell(env: Environment, cs: seq<Component>, i: nat, j: nat)
    requires i < j < |cs|
  {
    Repeats(env, cs, j) ==>
      && BaseName(env, cs, i) != SuffixedName(env, cs, j)
      && !(Repeats(env, cs, i) && BaseName(env, cs, i) == BaseName(env, cs, j) && env.suffixes(i) == env.suffixes(j))
  }

  lemma DifferentNames(env: Environment, cs: seq<Component>, i: nat, j: nat)
    requires i < j < |cs| && SuffixesTell(env, cs, i, j)
    ensures NameList(env, cs)[i] != NameList(env, cs)[j]
  {
    hide NameList, Repeats;
    NameOf(env, cs, i);
    NameOf(env, cs, j);
    assert NameList(env, cs)[i] == NameList(env, cs)[..j][i];
    SameSuffixed(BaseName(env, cs, i), env.suffixes(i), BaseName(env, cs, j), env.suffixes(j));
  }

  lemma SameName(env: Environment, cs: seq<Component>, i: nat, j: nat)
    requires i < j < |cs| && !SuffixesTell(env, cs, i, j)
    ensures NameList(env, cs)[j] in NameList(env, cs)[..j]
  {
    hide NameList, Repeats;
    var names := NameList(env, cs);
    NameOf(env, cs, i);
    NameOf(env, cs, j);
    assert names[i] == names[..j][i];
    if Repeats(env, cs, i) && BaseName(env, cs, i) == names[j] {
      var k :| 0 <= k < i && names[..i][k] == BaseName(env, cs, i);
      assert names[..j][k] == names[j];
    }
  }

  // Service names are distinct exactly if no two repetitions of a name drew the same suffix,
  // and no suffix turned a repetition into a name that comes before it.
  lemma NamesDistinct(env: Environment, cs: seq<Component>)
    ensures Distinct(NameList(env, cs)) <==> forall i: nat, j: nat :: i < j < |cs| ==> SuffixesTell(env, cs, i, j)
  {
    hide NameList, SuffixesTell;
    var names := NameList(env, cs);
    if forall i: nat, j: nat :: i < j < |cs| ==> SuffixesTell(env, cs, i, j) {
      forall i, j | 0 <= i < j < |names|
        ensures names[i] != names[j]
      {
        DifferentNames(env, cs, i, j);
      }
    } else {
      var i: nat, j: nat :| i < j < |cs| && !SuffixesTell(env, cs, i, j);
      SameName(env, cs, i, j);
      var k :| 0 <= k < j && names[..j][k] == names[j];
      assert names[k] == names[j];
    }
  }

  // The name of an earlier component, as it stands.
  ghost predicate SameAsEarlier(env: Environment, cs: seq<Component>, i: nat)
    requires i < |cs|
  {
    exists j: nat :: j < i && BaseName(env, cs, j) == BaseName(env, cs, i)
  }

  // Where no name looks like another one with its suffix, only equal suffixes can do harm.
  lemma NamesDistinctPlain(env: Environment, cs: seq<Component>)
    requires forall i: nat, j: nat :: i < |cs| && j < |cs| ==> BaseName(env, cs, i) != SuffixedName(env, cs, j)
    ensures Distinct(NameList(env, cs)) <==>
            forall i: nat, j: nat ::
              (i < j < |cs| && SameAsEarlier(env, cs, i) && SameAsEarlier(env, cs, j) &&
               BaseName(env, cs, i) == BaseName(env, cs, j)) ==> env.suffixes(i) != env.suffixes(j)
  {
    hide NameList, BaseName, SuffixedName;
    NamesDistinct(env, cs);
    forall i: nat | i < |cs|
      ensures Repeats(env, cs, i) <==> SameAsEarlier(env, cs, i)
    {
      assert forall j: nat :: j < i ==> (Precedes(env, cs, j, i) <==> BaseName(env, cs, j) == BaseName(env, cs, i));
    }
    forall i: nat, j: nat | i < j < |cs|
      ensures SuffixesTell(env, cs, i, j) <==>
              (SameAsEarlier(env, cs, i) && SameAsEarlier(env, cs, j) && BaseName(env, cs, i) == BaseName(env, cs, j)
               ==> env.suffixes(i) != env.suffixes(j))
    {
    }
  }

  // Three components of one name, of which the last two drew the same suffix, are two services.
  lemma NameDrawnTwice(env: Environment, cs: seq<Component>)
    requires |cs| == 3 && cs[0].cname == cs[1].cname == cs[2].cname && env.suffixes(1) == env.suffixes(2)
    ensures NameList(env, cs)[1] == NameList(env, cs)[2]
  {
    hide NameList, Repeats;
    NameOf(env, cs, 1);
    NameOf(env, cs, 2);
    FirstRepeats(env, cs, 1);
    FirstRepeats(env, cs, 2);
  }

  lemma FirstRepeats(env: Environment, cs: seq<Component>, i: nat)
    requires 0 < i < |cs| && cs[0].cname == cs[i].cname
    ensures Repeats(env, cs, i)
  {
    assert Precedes(env, cs, 0, i);
  }

  // ---- the map of service names ----

  // The map knows exactly the share IDs.
  lemma {:induction false} NamesKeys(env: Environment, cs: seq<Component>)
    ensures forall id :: id in Names(env, cs) <==> exists i :: 0 <= i < |cs| && cs[i].shareID == id
    decreases |cs|
  {
    hide NameList;
    if cs != [] {
      var n := |cs| - 1;
      NamesKeys(env, cs[..n]);
      forall id | exists i :: 0 <= i < |cs| && cs[i].shareID == id
        ensures id in Names(env, cs)
      {
        var i :| 0 <= i < |cs| && cs[i].shareID == id;
        assert i < n ==> cs[..n][i] == cs[i];
      }
    }
  }

  lemma {:induction false} NamedInList(env: Environment, cs: seq<Component>, i: nat)
    requires i < |cs| && LastOfID(cs, i)
    ensures cs[i].shareID in Names(env, cs) && Names(env, cs)[cs[i].shareID] == NameList(env, cs)[i]
    decreases |cs|
  {
    var n := |cs| - 1;
    NamesPrefix(env, cs, n);
    hide NameList;
    if i < n {
      assert forall k :: i < k < n ==> cs[..n][k] == cs[k];
      NamedInList(env, cs[..n], i);
      assert cs[n].shareID != cs[i].shareID;
    }
  }

  // The name of a service: that of the last component with its share ID, with a suffix
  // exactly if it repeats.
  lemma ServiceNameIs(env: Environment, cs: seq<Component>, i: nat)
    requires i < |cs| && LastOfID(cs, i)
    ensures cs[i].shareID in Names(env, cs)
    ensures Names(env, cs)[cs[i].shareID] ==
            if Repeats(env, cs, i) then SuffixedName(env, cs, i) else BaseName(env, cs, i)
  {
    hide NameList, Names, Repeats, SuffixedName, BaseName;
    NamedInList(env, cs, i);
    NameOf(env, cs, i);
  }

  ghost predicate Injective(m: map<string, string>) {
    forall k, l :: k in m && l in m && k != l ==> m[k] != m[l]
  }

  // With distinct share IDs no two services have the same name exactly if the suffixes tell.
  lemma ServicesDistinct(env: Environment, cs: seq<Component>)
    requires forall i, j :: 0 <= i < j < |cs| ==> cs[i].shareID != cs[j].shareID
    ensures Injective(Names(env, cs)) <==> forall i: nat, j: nat :: i < j < |cs| ==> SuffixesTell(env, cs, i, j)
  {
    hide NameList, Names, SuffixesTell;
    var m, list := Names(env, cs), NameList(env, cs);
    NamesDistinct(env, cs);
    NamesKeys(env, cs);
    forall i: nat | i < |cs|
      ensures cs[i].shareID in m && m[cs[i].shareID] == list[i]
    {
      NamedInList(env, cs, i);
    }
    if Distinct(list) {
      forall k, l | k in m && l in m && k != l
        ensures m[k] != m[l]
      {
        var i :| 0 <= i < |cs| && cs[i].shareID == k;
        var j :| 0 <= j < |cs| && cs[j].shareID == l;
        assert m[k] == list[i] && m[l] == list[j];
      }
    }
    if Injective(m) {
      forall i, j | 0 <= i < j < |list|
        ensures list[i] != list[j]
      {
        assert m[cs[i].shareID] != m[cs[j].shareID];
      }
    }
  }

  // ---- global volumes ----

  // Names s, n and t, m are joined to the same string: they are the same, or one service name
  // goes on after an underscore with what the other volume name begins with.
  ghost predicate Clash(s: string, n: string, t: string, m: string) {
    || (s == t && n == m)
    || (exists x :: t == s + "_" + x && n == x + "_" + m)
    || (exists x :: s == t + "_" + x && m == x + "_" + n)
  }

  lemma LongerPart(s: string, n: string, t: string, m: string)
    requires |s| < |t| && s + "_" + n == t + "_" + m
    ensures exists x :: t == s + "_" + x && n == x + "_" + m
  {
    var j := s + "_" + n;
    assert t + "_" + m == j;
    var x := t[|s| + 1..];
    assert forall i :: 0 <= i < |t| ==> t[i] == j[i];
    assert t == s + "_" + x;
    assert n == j[|s| + 1..] == x + "_" + m;
  }

  lemma JoinedTwice(s: string, x: string, m: string)
    ensures s + "_" + (x + "_" + m) == s + "_" + x + "_" + m
  {
  }

  lemma JoinedAlike(s: string, n: string, t: string, m: string)
    ensures s + "_" + n == t + "_" + m <==> Clash(s, n, t, m)
  {
    if s + "_" + n == t + "_" + m {
      if |s| < |t| {
        LongerPart(s, n, t, m);
      } else if |t| < |s| {
        LongerPart(t, m, s, n);
      } else {
        assert (s + "_" + n)[..|s|] == s && (t + "_" + m)[..|t|] == t;
        assert (s + "_" + n)[|s| + 1..] == n && (t + "_" + m)[|t| + 1..] == m;
      }
    }
    if x :| t == s + "_" + x && n == x + "_" + m {
      JoinedTwice(s, x, m);
    }
    if x :| s == t + "_" + x && m == x + "_" + n {
      JoinedTwice(t, x, n);
    }
  }

  // Volume j of these gets a global volume of this name.
  ghost predicate Named(env: Environment, service: string, vs: seq<Volume>, j: nat, name: string) {
    j < |vs| && vs[j].volumeType != "config-file" && name == service + "_" + vs[j].name
  }

  lemma {:induction false} NamedInGlobalOf(env: Environment, service: string, vs: seq<Volume>, name: string)
    ensures name in GlobalOf(env, service, vs) <==> exists j: nat :: Named(env, service, vs, j, name)
    decreases |vs|
  {
    if vs != [] {
      var n := |vs| - 1;
      NamedInGlobalOf(env, service, vs[..n], name);
      if j: nat :| Named(env, service, vs[..n], j, name) {
        assert Named(env, service, vs, j, name);
      }
      if j: nat :| Named(env, service, vs, j, name) {
        assert j < n ==> Named(env, service, vs[..n], j, name);
      }
      var v := vs[n];
      assert v.volumeType != CONFIG_FILE && name == Source(env, service, v) ==> Named(env, service, vs, n, name);
    }
  }

  // Some component up to the n-th has a volume of this name.
  ghost predicate NamedBy(env: Environment, names: map<string, string>, cs: seq<Component>, i: nat, j: nat,
                          name: string)
  {
    i < |cs| && Named(env, Lookup(names, cs[i].shareID), cs[i].volumes, j, name)
  }

  lemma {:induction false} NamedInGlobals(env: Environment, names: map<string, string>, cs: seq<Component>,
                                          name: string)
    ensures name in Globals(env, names, cs) <==> exists i: nat, j: nat :: NamedBy(env, names, cs, i, j, name)
    decreases |cs|
  {
    hide Source, Named, GlobalOf;
    if cs != [] {
      var n := |cs| - 1;
      var front, c := cs[..n], cs[n];
      NamedInGlobals(env, names, front, name);
      NamedInGlobalOf(env, Lookup(names, c.shareID), c.volumes, name);
      if i: nat, j: nat :| NamedBy(env, names, front, i, j, name) {
        assert NamedBy(env, names, cs, i, j, name);
      }
      if j: nat :| Named(env, Lookup(names, c.shareID), c.volumes, j, name) {
        assert NamedBy(env, names, cs, n, j, name);
      }
      if i: nat, j: nat :| NamedBy(env, names, cs, i, j, name) {
        assert i < n ==> NamedBy(env, names, front, i, j, name);
      }
    }
  }

  lemma DistinctParts(a: seq<string>, b: seq<string>, x: string)
    requires Distinct(a + b)
    ensures Distinct(a) && Distinct(b) && (x in a ==> x !in b)
  {
    var c := a + b;
    forall i, j | 0 <= i < j < |a|
      ensures a[i] != a[j]
    {
      assert c[i] == a[i] && c[j] == a[j];
    }
    forall i, j | 0 <= i < j < |b|
      ensures b[i] != b[j]
    {
      assert c[|a| + i] == b[i] && c[|a| + j] == b[j];
    }
    if i :| 0 <= i < |a| && a[i] == x {
      forall j | 0 <= j < |b|
        ensures b[j] != x
      {
        assert c[i] == x && c[|a| + j] == b[j];
      }
    }
  }

  lemma DistinctWhole(a: seq<string>, b: seq<string>)
    requires Distinct(a) && Distinct(b) && forall i :: 0 <= i < |b| ==> b[i] !in a
    ensures Distinct(a + b)
  {
    var c := a + b;
    forall i, j | 0 <= i < j < |c|
      ensures c[i] != c[j]
    {
      assert c[i] == if i < |a| then a[i] else b[i - |a|];
      assert c[j] == if j < |a| then a[j] else b[j - |a|];
    }
  }

  // The two volumes are different and both global; their names clash.
  ghost predicate VolumesClash(env: Environment, names: map<string, string>, cs: seq<Component>,
                               i: nat, j: nat, k: nat, l: nat)
  {
    && i < |cs| && j < |cs[i].volumes| && cs[i].volumes[j].volumeType != CONFIG_FILE
    && k < |cs| && l < |cs[k].volumes| && cs[k].volumes[l].volumeType != CONFIG_FILE
    && (i, j) != (k, l)
    && Clash(Lookup(names, cs[i].shareID), cs[i].volumes[j].name, Lookup(names, cs[k].shareID), cs[k].volumes[l].name)
  }

  ghost predicate AnyClash(env: Environment, names: map<string, string>, cs: seq<Component>) {
    exists i: nat, j: nat, k: nat, l: nat :: VolumesClash(env, names, cs, i, j, k, l)
  }

  // Volumes j and l of one component have the same name.
  ghost predicate Twice(vs: seq<Volume>, j: nat, l: nat) {
    j < l < |vs| && vs[j].volumeType != CONFIG_FILE && vs[l].volumeType != CONFIG_FILE && vs[j].name == vs[l].name
  }

  ghost predicate AnyTwice(vs: seq<Volume>) { exists j: nat, l: nat :: Twice(vs, j, l) }

  lemma SameService(service: string, n: string, m: string)
    ensures Clash(service, n, service, m) <==> n == m
    ensures service + "_" + n == service + "_" + m <==> n == m
  {
    JoinedAlike(service, n, service, m);
  }

  lemma {:induction false} OneComponent(env: Environment, service: string, vs: seq<Volume>)
    ensures Distinct(GlobalOf(env, service, vs)) <==> !AnyTwice(vs)
    decreases |vs|
  {
    hide Clash;
    if vs != [] {
      var n := |vs| - 1;
      var front, v := vs[..n], vs[n];
      var before := GlobalOf(env, service, front);
      OneComponent(env, service, front);
      forall j: nat, l: nat | l < n
        ensures Twice(vs, j, l) <==> Twice(front, j, l)
      {
      }
      if v.volumeType == CONFIG_FILE {
        assert before + [] == before;
      } else {
        var name := Source(env, service, v);
        NamedInGlobalOf(env, service, front, name);
        forall j: nat | j < n
          ensures Named(env, service, front, j, name) <==> Twice(vs, j, n)
        {
          SameService(service, vs[j].name, v.name);
        }
        Snoc(before, name);
      }
    }
  }

  lemma Snoc(a: seq<string>, x: string)
    ensures Distinct(a + [x]) <==> Distinct(a) && x !in a
  {
    if Distinct(a + [x]) {
      DistinctParts(a, [x], x);
    } else if Distinct(a) && x !in a {
      DistinctWhole(a, [x]);
    }
  }

  lemma ClashBothWays(env: Environment, names: map<string, string>, cs: seq<Component>, i: nat, j: nat, k: nat, l: nat)
    ensures VolumesClash(env, names, cs, i, j, k, l) <==> VolumesClash(env, names, cs, k, l, i, j)
  {
  }

  // What the names of two global volumes have to do with their parts.
  lemma SameVolumeName(env: Environment, names: map<string, string>, cs: seq<Component>,
                       i: nat, j: nat, k: nat, l: nat, name: string)
    requires NamedBy(env, names, cs, i, j, name) && k < |cs| && (i, j) != (k, l)
    ensures NamedBy(env, names, cs, k, l, name) <==> VolumesClash(env, names, cs, i, j, k, l)
  {
    hide Clash;
    if l < |cs[k].volumes| {
      JoinedAlike(Lookup(names, cs[i].shareID), cs[i].volumes[j].name,
                  Lookup(names, cs[k].shareID), cs[k].volumes[l].name);
    }
  }

  lemma ClashInFront(env: Environment, names: map<string, string>, cs: seq<Component>)
    requires cs != []
    ensures AnyClash(env, names, cs[..|cs| - 1]) ==> AnyClash(env, names, cs)
    ensures AnyTwice(cs[|cs| - 1].volumes) ==> AnyClash(env, names, cs)
  {
    hide Clash;
    var n := |cs| - 1;
    if i: nat, j: nat, k: nat, l: nat :| VolumesClash(env, names, cs[..n], i, j, k, l) {
      assert VolumesClash(env, names, cs, i, j, k, l);
    }
    if AnyTwice(cs[n].volumes) {
      var j: nat, l: nat :| Twice(cs[n].volumes, j, l);
      SameService(Lookup(names, cs[n].shareID), cs[n].volumes[j].name, cs[n].volumes[l].name);
      assert VolumesClash(env, names, cs, n, j, n, l);
    }
  }

  // A clash is one of the components before the last, or within the last, or between the two.
  lemma ClashSplit(env: Environment, names: map<string, string>, cs: seq<Component>, i: nat, j: nat, k: nat, l: nat)
    requires cs != [] && VolumesClash(env, names, cs, i, j, k, l) && i <= k
    ensures
      var n := |cs| - 1;
      || AnyClash(env, names, cs[..n])
      || AnyTwice(cs[n].volumes)
      || (i < n && k == n)
  {
    hide Clash;
    var n := |cs| - 1;
    if k < n {
      assert VolumesClash(env, names, cs[..n], i, j, k, l);
    } else if i == n {
      SameService(Lookup(names, cs[n].shareID), cs[n].volumes[j].name, cs[n].volumes[l].name);
      assert Twice(cs[n].volumes, if j < l then j else l, if j < l then l else j);
    }
  }

  // The names of the global volumes are unique exactly if no two of them clash.
  lemma {:induction false} VolumeNamesUnique(env: Environment, names: map<string, string>, cs: seq<Component>)
    ensures Distinct(Globals(env, names, cs)) <==> !AnyClash(env, names, cs)
    decreases |cs|
  {
    hide VolumesClash, Source, GlobalOf, Twice, Distinct;
    if cs == [] {
      NothingClashes(env, names);
    } else {
      var n := |cs| - 1;
      var front, c := cs[..n], cs[n];
      var a, b := Globals(env, names, front), GlobalOf(env, Lookup(names, c.shareID), c.volumes);
      VolumeNamesUnique(env, names, front);
      OneComponent(env, Lookup(names, c.shareID), c.volumes);
      ClashInFront(env, names, cs);
      if AnyClash(env, names, cs) {
        var i: nat, j: nat, k: nat, l: nat :| VolumesClash(env, names, cs, i, j, k, l);
        ClashBothWays(env, names, cs, i, j, k, l);
        if i <= k {
          ClashShows(env, names, cs, i, j, k, l);
        } else {
          ClashShows(env, names, cs, k, l, i, j);
        }
      } else if p: nat :| p < |b| && b[p] in a {
        OverlapClashes(env, names, cs, b[p]);
      } else {
        DistinctWhole(a, b);
      }
    }
  }

  lemma NothingClashes(env: Environment, names: map<string, string>)
    ensures Distinct(Globals(env, names, [])) && !AnyClash(env, names, [])
  {
  }

  lemma ClashShows(env: Environment, names: map<string, string>, cs: seq<Component>, i: nat, j: nat, k: nat, l: nat)
    requires cs != [] && VolumesClash(env, names, cs, i, j, k, l) && i <= k
    requires var n := |cs| - 1;
             && (Distinct(Globals(env, names, cs[..n])) <==> !AnyClash(env, names, cs[..n]))
             && var c := cs[n];
             (Distinct(GlobalOf(env, Lookup(names, c.shareID), c.volumes)) <==> !AnyTwice(c.volumes))
    ensures !Distinct(Globals(env, names, cs))
  {
    hide Clash, GlobalOf, Twice, Distinct, AnyClash;
    var n := |cs| - 1;
    var front, c := cs[..n], cs[n];
    var a, b := Globals(env, names, front), GlobalOf(env, Lookup(names, c.shareID), c.volumes);
    var name := Lookup(names, cs[i].shareID) + "_" + cs[i].volumes[j].name;
    ClashSplit(env, names, cs, i, j, k, l);
    if Distinct(a + b) {
      DistinctParts(a, b, name);
      assert i < n && k == n;
      assert NamedBy(env, names, cs, i, j, name) && NamedBy(env, names, front, i, j, name);
      SameVolumeName(env, names, cs, i, j, k, l, name);
      NamedInGlobals(env, names, front, name);
      NamedInGlobalOf(env, Lookup(names, c.shareID), c.volumes, name);
      assert false;
    }
  }

  lemma OverlapClashes(env: Environment, names: map<string, string>, cs: seq<Component>, name: string)
    requires cs != []
    requires name in Globals(env, names, cs[..|cs| - 1])
    requires var c := cs[|cs| - 1]; name in GlobalOf(env, Lookup(names, c.shareID), c.volumes)
    ensures AnyClash(env, names, cs)
  {
    hide Clash, Source, GlobalOf, VolumesClash;
    var n := |cs| - 1;
    var front, c := cs[..n], cs[n];
    NamedInGlobals(env, names, front, name);
    NamedInGlobalOf(env, Lookup(names, c.shareID), c.volumes, name);
    var i: nat, j: nat :| NamedBy(env, names, front, i, j, name);
    var l: nat :| Named(env, Lookup(names, c.shareID), c.volumes, l, name);
    assert NamedBy(env, names, cs, i, j, name) && NamedBy(env, names, cs, n, l, name);
    SameVolumeName(env, names, cs, i, j, n, l, name);
    assert VolumesClash(env, names, cs, i, j, n, l);
  }

  // Two services of different names with one volume each, of different names as well, can
  // share it: an underscore can belong to either part.
  lemma VolumeNamesClash(env: Environment, cs: seq<Component>, s: string, a: string, b: string)
    requires |cs| == 2 && cs[0].shareID != cs[1].shareID
    requires env.composeName(cs[0].cname) == s && env.composeName(cs[1].cname) == s + "_" + a
    requires |cs[0].volumes| == 1 && cs[0].volumes[0].name == a + "_" + b && cs[0].volumes[0].volumeType != CONFIG_FILE
    requires |cs[1].volumes| == 1 && cs[1].volumes[0].name == b && cs[1].volumes[0].volumeType != CONFIG_FILE
    ensures var shared := s + "_" + a + "_" + b;
            && Names(env, cs) == map[cs[0].shareID := s, cs[1].shareID := s + "_" + a]
            && Globals(env, Names(env, cs), cs) == [shared, shared]
            && s != s + "_" + a && a + "_" + b != b
  {
    var c, d := cs[0], cs[1];
    assert cs[..1] == [c] && cs[..1][..0] == [] && cs[..0] == [];
    assert c.volumes[..0] == [] && d.volumes[..0] == [] && [c][..0] == [];
    assert NameList(env, []) == [];
    assert NameList(env, [c]) == [s];
    var taken := set x | x in [s];
    assert ServiceName(env, d, 1, taken) == s + "_" + a;
    assert NameList(env, cs) == [s] + [s + "_" + a] == [s, s + "_" + a];
    assert Names(env, [c]) == map[c.shareID := s];
    var names := Names(env, cs);
    JoinedTwice(s, a, b);
    OneVolume(env, s, c.volumes);
    OneVolume(env, s + "_" + a, d.volumes);
    assert Globals(env, names, []) == [];
    assert Globals(env, names, [c]) == [] + GlobalOf(env, s, c.volumes);
  }

  lemma OneVolume(env: Environment, service: string, vs: seq<Volume>)
    requires |vs| == 1 && vs[0].volumeType != CONFIG_FILE
    ensures GlobalOf(env, service, vs) == [service + "_" + vs[0].name]
  {
    assert vs[..0] == [] && GlobalOf(env, service, []) == [];
  }
}
