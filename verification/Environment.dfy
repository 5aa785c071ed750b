/**
 The rendering of a component's environment in buildDockerComposeYaml
 (pkg/export/docker-compose.go): every value has its placeholders replaced from the very map
 that is being rewritten, in whatever order the map is iterated.
 */
module Environment {
  import opened Wrappers
  import opened Variables

  // The map after its keys were rendered in this order.
  function RenderInOrder(envs: Configs, order: seq<string>): Configs
    requires forall k :: k in order ==> k in envs
    decreases |order|
  {
    if order == [] then envs
    else RenderInOrder(envs[order[0] := Parse(envs[order[0]], envs)], order[1..])
  }

  // Each key once.
  ghost predicate IterationOrder(envs: Configs, order: seq<string>) {
    && (forall k :: k in envs <==> k in order)
    && forall i, j :: 0 <= i < j < |order| ==> order[i] != order[j]
  }

  // The rendering loop; `range` over a map visits the keys in an unspecified order.
  method Render(envs: Configs) returns (r: Configs)
    ensures exists order :: IterationOrder(envs, order) && r == RenderInOrder(envs, order)
    ensures Settled(envs) ==> r == Rendered(envs)
  {
    hide Parse;
    r := envs;
    var todo := envs.Keys;
    ghost var order: seq<string> := [];
    while todo != {}
      invariant r.Keys == envs.Keys && todo <= envs.Keys
      invariant forall k :: k in order <==> k in envs && k !in todo
      invariant forall i, j :: 0 <= i < j < |order| ==> order[i] != order[j]
      invariant r == RenderInOrder(envs, order)
      decreases todo
    {
      var key :| key in todo;
      todo := todo - {key};
      var value := ParseVariable(r[key], r);
      RenderSnoc(envs, order, key);
      r := r[key := value];
      order := order + [key];
    }
    assert IterationOrder(envs, order);
    if Settled(envs) {
      RenderConfluent(envs, order);
    }
  }

  lemma {:induction false} RenderSnoc(envs: Configs, order: seq<string>, k: string)
    requires k in envs && forall x :: x in order ==> x in envs
    ensures var r := RenderInOrder(envs, order);
            r.Keys == envs.Keys && RenderInOrder(envs, order + [k]) == r[k := Parse(r[k], r)]
    decreases |order|
  {
    hide Parse;
    if order == [] {
      assert (order + [k])[1..] == [];
    } else {
      assert (order + [k])[1..] == order[1..] + [k];
      RenderSnoc(envs[order[0] := Parse(envs[order[0]], envs)], order[1..], k);
    }
  }

  // ---- confluence ----

  // The key a placeholder asks for.
  function KeyOf(m: string): string
    requires Placeholder(m)
  {
    PlaceholderHasKey(m);
    GetVariableKey(m).0
  }

  // Every variable some value refers to is absent, or has a value without placeholders.
  ghost predicate Settled(envs: Configs) {
    forall k, m :: k in envs && m in FindAll(envs[k]) && Placeholder(m) && KeyOf(m) in envs ==>
      FindAll(envs[KeyOf(m)]) == []
  }

  // Every value rendered from the map as it was at the start.
  function Rendered(envs: Configs): Configs {
    map k | k in envs :: Parse(envs[k], envs)
  }

  // Only the values of the keys that the source asks for matter.
  lemma SameLookups(source: string, a: Configs, b: Configs)
    requires forall m :: m in FindAll(source) && Placeholder(m) ==> Value(m, a) == Value(m, b)
    ensures Parse(source, a) == Parse(source, b)
  {
    MatchesArePlaceholders(source);
    SameReplacements(source, FindAll(source), a, b);
  }

  lemma {:induction false} SameReplacements(s: string, ms: seq<string>, a: Configs, b: Configs)
    requires forall m :: m in ms ==> Placeholder(m) && Value(m, a) == Value(m, b)
    ensures ReplaceEach(s, ms, a) == ReplaceEach(s, ms, b)
    decreases |ms|
  {
    hide Value;
    if ms != [] {
      var v := Value(ms[0], a);
      SameReplacements(if v.Some? then ReplaceAll(s, ms[0], v.value) else s, ms[1..], a, b);
    }
  }

  lemma NoPlaceholdersNoChange(source: string, configs: Configs)
    requires FindAll(source) == []
    ensures Parse(source, configs) == source
  {
  }

  // Some keys are rendered, the others are as they were.
  ghost predicate Partly(envs: Configs, r: Configs, done: set<string>) {
    && r.Keys == envs.Keys
    && forall k :: k in envs ==> r[k] == if k in done then Parse(envs[k], envs) else envs[k]
  }

  lemma StepKeepsPartly(envs: Configs, r: Configs, done: set<string>, k: string)
    requires Settled(envs) && Partly(envs, r, done) && k in envs && k !in done
    ensures Partly(envs, r[k := Parse(r[k], r)], done + {k})
  {
    hide Parse;
    forall m | m in FindAll(envs[k]) && Placeholder(m)
      ensures Value(m, r) == Value(m, envs)
    {
      if KeyOf(m) in envs {
        NoPlaceholdersNoChange(envs[KeyOf(m)], envs);
      }
    }
    SameLookups(envs[k], r, envs);
  }

  lemma {:induction false} RestIsRendered(envs: Configs, r: Configs, done: set<string>, order: seq<string>)
    requires Settled(envs) && Partly(envs, r, done)
    requires forall k :: k in order <==> k in envs && k !in done
    requires forall i, j :: 0 <= i < j < |order| ==> order[i] != order[j]
    ensures RenderInOrder(r, order) == Rendered(envs)
    decreases |order|
  {
    hide Parse;
    if order == [] {
      assert forall k :: k in envs ==> r[k] == Rendered(envs)[k];
    } else {
      var k := order[0];
      StepKeepsPartly(envs, r, done, k);
      assert forall x :: x in order <==> x == k || x in order[1..];
      assert forall x :: x in order[1..] ==> x != k;
      RestIsRendered(envs, r[k := Parse(r[k], r)], done + {k}, order[1..]);
    }
  }

  // In a settled environment the order of iteration does not matter.
  lemma RenderConfluent(envs: Configs, order: seq<string>)
    requires Settled(envs) && IterationOrder(envs, order)
    ensures RenderInOrder(envs, order) == Rendered(envs)
  {
    hide Parse;
    RestIsRendered(envs, envs, {}, order);
  }

  // A chain of two references is enough for the order to show: rendering the inner one first
  // carries its value through, rendering it last leaves its placeholder behind.
  lemma OrderShowsOnChain(p: string, q: string, v: string, a: string, b: string, c: string)
    requires Placeholder(p) && Placeholder(q) && KeyOf(p) == b && KeyOf(q) == c
    requires a != b && b != c && a != c && FindAll(v) == []
    ensures var envs := map[a := p, b := q, c := v];
            && RenderInOrder(envs, [a, b, c]) == map[a := q, b := v, c := v]
            && RenderInOrder(envs, [b, a, c]) == map[a := v, b := v, c := v]
            && q != v
  {
    hide Parse, RenderInOrder, KeyOf;
    OuterFirst(p, q, v, a, b, c);
    InnerFirst(p, q, v, a, b, c);
    WholePlaceholder(q, map[c := v]);
  }

  lemma OuterFirst(p: string, q: string, v: string, a: string, b: string, c: string)
    requires Placeholder(p) && Placeholder(q) && KeyOf(p) == b && KeyOf(q) == c
    requires a != b && b != c && a != c && FindAll(v) == []
    ensures RenderInOrder(map[a := p, b := q, c := v], [a, b, c]) == map[a := q, b := v, c := v]
  {
    hide Parse, KeyOf, RenderInOrder, FindAll, Placeholder;
    var envs := map[a := p, b := q, c := v];
    var ab, abc := map[a := q, b := q, c := v], map[a := q, b := v, c := v];
    WholePlaceholder(p, envs);
    WholePlaceholder(q, ab);
    NoPlaceholdersNoChange(v, abc);
    assert envs[a := q] == ab && ab[b := v] == abc && abc[c := v] == abc;
    ThreeSteps(envs, a, b, c);
  }

  lemma InnerFirst(p: string, q: string, v: string, a: string, b: string, c: string)
    requires Placeholder(p) && Placeholder(q) && KeyOf(p) == b && KeyOf(q) == c
    requires a != b && b != c && a != c && FindAll(v) == []
    ensures RenderInOrder(map[a := p, b := q, c := v], [b, a, c]) == map[a := v, b := v, c := v]
  {
    hide Parse, KeyOf, RenderInOrder, FindAll, Placeholder;
    var envs := map[a := p, b := q, c := v];
    var ba, bac := map[a := p, b := v, c := v], map[a := v, b := v, c := v];
    WholePlaceholder(q, envs);
    WholePlaceholder(p, ba);
    NoPlaceholdersNoChange(v, bac);
    assert envs[b := v] == ba && ba[a := v] == bac && bac[c := v] == bac;
    ThreeSteps(envs, b, a, c);
  }

  // Rendering three keys, one after the other.
  lemma ThreeSteps(envs: Configs, x: string, y: string, z: string)
    requires x in envs && y in envs && z in envs
    ensures var e1 := envs[x := Parse(envs[x], envs)];
            var e2 := e1[y := Parse(e1[y], e1)];
            RenderInOrder(envs, [x, y, z]) == e2[z := Parse(e2[z], e2)]
  {
    hide Parse;
    assert [x, y, z] == [x] + [y, z] && [y, z] == [y] + [z] && [z] == [z] + [];
    var e1 := envs[x := Parse(envs[x], envs)];
    var e2 := e1[y := Parse(e1[y], e1)];
    RenderFirst(envs, x, [y, z]);
    RenderFirst(e1, y, [z]);
    RenderFirst(e2, z, []);
  }

  lemma RenderFirst(envs: Configs, k: string, rest: seq<string>)
    requires k in envs && forall x :: x in rest ==> x in envs
    ensures RenderInOrder(envs, [k] + rest) == RenderInOrder(envs[k := Parse(envs[k], envs)], rest)
  {
    hide Parse;
    assert ([k] + rest)[1..] == rest;
  }

  lemma WholePlaceholder(p: string, configs: Configs)
    requires Placeholder(p) && KeyOf(p) in configs
    ensures Parse(p, configs) == configs[KeyOf(p)] && FindAll(p) == [p]
  {
    MatchOfPlaceholder(p, []);
    assert p + [] == p && p[|p|..] == [];
    assert FindAll(p) == [p] + FindAll([]) == [p];
    MatchesArePlaceholders(p);
    var v := configs[KeyOf(p)];
    assert Value(p, configs) == Some(v);
    ReplaceHead(p, [], v);
    assert ReplaceAll(p, p, v) == v + [] == v;
    assert [p][1..] == [] && ReplaceEach(v, [], configs) == v;
    assert ReplaceEach(p, [p], configs) == v by { hide Value; }
  }
}
