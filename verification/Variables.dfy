/**
 pkg/util/common.go: placeholders `${key}` and `${key:default}` in a string. ParseVariable
 replaces them one after the other in the whole string; Substitute is the one-pass
 substitution it is meant to be.
 */
module Variables {
  import opened Wrappers

  type Configs = map<string, string>

  // The first index from i on where s has c.
  function Index(s: string, c: char, i: nat): (k: nat)
    requires i <= |s|
    ensures i <= k <= |s| && (k < |s| ==> s[k] == c) && forall j :: i <= j < k ==> s[j] != c
    decreases |s| - i
  {
    if i == |s| || s[i] == c then i else Index(s, c, i + 1)
  }

  // The first index from i on that ends a match, or the attempt to find one.
  function Stop(s: string, i: nat): (k: nat)
    requires i <= |s|
    ensures i <= k <= |s| && (k < |s| ==> s[k] == '}' || s[k] == '\n')
    ensures forall j :: i <= j < k ==> s[j] != '}' && s[j] != '\n'
    decreases |s| - i
  {
    if i == |s| || s[i] == '}' || s[i] == '\n' then i else Stop(s, i + 1)
  }

  predicate Opens(s: string) { |s| >= 2 && s[0] == '$' && s[1] == '{' }

  // The length of the match of (?U)\$\{.*\} at the start of s, or 0.
  function MatchLen(s: string): (n: nat)
    ensures n <= |s| && (n > 0 ==> n >= 3)
  {
    if !Opens(s) then 0
    else
      var k := Stop(s, 2);
      if k < |s| && s[k] == '}' then k + 1 else 0
  }

  // regexp.FindAllString: leftmost matches that do not overlap.
  function FindAll(s: string): seq<string> {
    if s == [] then []
    else if MatchLen(s) > 0 then [s[..MatchLen(s)]] + FindAll(s[MatchLen(s)..])
    else FindAll(s[1..])
  }

  // strings.Replace(s, from, to, -1) for a non-empty `from`.
  function ReplaceAll(s: string, from: string, to: string): string
    requires from != []
    decreases |s|
  {
    if |s| < |from| then s
    else if from <= s then to + ReplaceAll(s[|from|..], from, to)
    else [s[0]] + ReplaceAll(s[1..], from, to)
  }

  // The shape of a match: "${", no newline, and "}" only at the end.
  predicate Placeholder(m: string) {
    && |m| >= 3 && m[0] == '$' && m[1] == '{' && m[|m| - 1] == '}'
    && forall i :: 0 <= i < |m| - 1 ==> m[i] != '}' && m[i] != '\n'
  }

  // getVariableKey: the key and the default, "" if there is none. What follows a second
  // colon is dropped.
  function GetVariableKey(source: string): (string, string)
    requires |source| >= 4 ==> Index(source, '{', 0) < Index(source, '}', 0) < |source|
  {
    if |source| < 4 then ("", "")
    else
      var k := source[Index(source, '{', 0) + 1..Index(source, '}', 0)];
      var colon := Index(k, ':', 0);
      if colon == |k| then (k, "") else (k[..colon], k[colon + 1..Index(k, ':', colon + 1)])
  }

  lemma PlaceholderHasKey(m: string)
    requires Placeholder(m)
    ensures Index(m, '{', 0) == 1 && Index(m, '}', 0) == |m| - 1
  {
    assert m[0] != '{' && m[1] == '{';
  }

  // What a placeholder stands for, if anything.
  function Value(m: string, configs: Configs): Option<string>
    requires Placeholder(m)
  {
    PlaceholderHasKey(m);
    var (key, default) := GetVariableKey(m);
    if key in configs then Some(configs[key])
    else if default != "" then Some(default)
    else None
  }

  // ---- what a placeholder says ----

  // A key or a default: no colon, and nothing that ends a match.
  predicate Part(s: string) {
    forall i :: 0 <= i < |s| ==> s[i] != ':' && s[i] != '}' && s[i] != '\n'
  }

  // What can follow a default: nothing, or another colon and anything in one line.
  predicate Tail(s: string) {
    s == [] || (s[0] == ':' && forall i :: 0 <= i < |s| ==> s[i] != '}' && s[i] != '\n')
  }

  lemma IndexIs(s: string, c: char, i: nat, k: nat)
    requires i <= k < |s| && s[k] == c && forall j :: i <= j < k ==> s[j] != c
    ensures Index(s, c, i) == k
  {
  }

  lemma NoIndex(s: string, c: char, i: nat)
    requires i <= |s| && forall j :: i <= j < |s| ==> s[j] != c
    ensures Index(s, c, i) == |s|
  {
  }

  // "${body}" is a placeholder, and its body is what stands between the braces.
  lemma Braced(body: string)
    requires forall i :: 0 <= i < |body| ==> body[i] != '}' && body[i] != '\n'
    ensures var m := "${" + body + "}";
            && Placeholder(m)
            && Index(m, '{', 0) == 1 && Index(m, '}', 0) == |m| - 1 && m[2..|m| - 1] == body
  {
    var m := "${" + body + "}";
    assert m[0] == '$' && m[1] == '{' && m[|m| - 1] == '}';
    assert forall i :: 0 <= i < |body| ==> m[i + 2] == body[i];
    assert Placeholder(m) by {
      forall i | 0 <= i < |m| - 1
        ensures m[i] != '}' && m[i] != '\n'
      {
        assert i >= 2 ==> m[i] == body[i - 2];
      }
    }
    PlaceholderHasKey(m);
  }

  // "${key}" stands for the configured value, if there is one.
  lemma KeyAlone(key: string, configs: Configs)
    requires Part(key)
    ensures var m := "${" + key + "}";
            Placeholder(m) && Value(m, configs) == if key in configs then Some(configs[key]) else None
  {
    var m := "${" + key + "}";
    Braced(key);
    NoIndex(key, ':', 0);
  }

  // "${key:default}" stands for the configured value, or else for the default if that is not
  // empty. A further colon ends the default; what follows it is dropped.
  lemma KeyAndDefault(key: string, default: string, more: string, configs: Configs)
    requires Part(key) && Part(default) && Tail(more)
    ensures var m := "${" + (key + ":" + default + more) + "}";
            && Placeholder(m)
            && Value(m, configs) ==
               if key in configs then Some(configs[key]) else if default != "" then Some(default) else None
  {
    var k := key + ":" + default + more;
    BodyParts(key, default, more);
    Braced(k);
    hide Index, Placeholder;
    var m := "${" + k + "}";
    assert m[Index(m, '{', 0) + 1..Index(m, '}', 0)] == k;
    assert GetVariableKey(m) == (key, default);
  }

  lemma BodyParts(key: string, default: string, more: string)
    requires Part(key) && Part(default) && Tail(more)
    ensures var k, from := key + ":" + default + more, |key| + 1;
            && (forall i :: 0 <= i < |k| ==> k[i] != '}' && k[i] != '\n')
            && Index(k, ':', 0) == |key| && Index(k, ':', from) == from + |default|
            && k[..|key|] == key && k[from..from + |default|] == default
  {
    var k := key + ":" + default + more;
    var from, to := |key| + 1, |key| + 1 + |default|;
    assert forall j :: 0 <= j < |key| ==> k[j] == key[j];
    assert forall j :: from <= j < to ==> k[j] == default[j - from];
    assert forall j :: to <= j < |k| ==> k[j] == more[j - to];
    IndexIs(k, ':', 0, |key|);
    if more == [] {
      NoIndex(k, ':', from);
    } else {
      IndexIs(k, ':', from, to);
    }
  }

  lemma MatchIsPlaceholder(s: string)
    requires MatchLen(s) > 0
    ensures Placeholder(s[..MatchLen(s)])
  {
  }

  lemma {:induction false} MatchesArePlaceholders(s: string)
    ensures forall m :: m in FindAll(s) ==> Placeholder(m)
    decreases |s|
  {
    if s != [] {
      if MatchLen(s) > 0 {
        MatchIsPlaceholder(s);
        MatchesArePlaceholders(s[MatchLen(s)..]);
      } else {
        MatchesArePlaceholders(s[1..]);
      }
    }
  }

  // One replacement after the other, over the whole string each time.
  function ReplaceEach(s: string, ms: seq<string>, configs: Configs): string
    requires forall m :: m in ms ==> Placeholder(m)
    decreases |ms|
  {
    if ms == [] then s
    else
      var v := Value(ms[0], configs);
      ReplaceEach(if v.Some? then ReplaceAll(s, ms[0], v.value) else s, ms[1..], configs)
  }

  // What ParseVariable computes.
  function Parse(source: string, configs: Configs): string {
    MatchesArePlaceholders(source);
    ReplaceEach(source, FindAll(source), configs)
  }

  method ParseVariable(source: string, configs: Configs) returns (r: string)
    ensures r == Parse(source, configs)
    ensures Plain(source, configs) ==> (r == Substitute(source, configs) <==> Unspelled(source, configs))
  {
    MatchesArePlaceholders(source);
    r := source;
    var resultKey := FindAll(source);
    for i := 0 to |resultKey|
      invariant ReplaceEach(r, resultKey[i..], configs) == Parse(source, configs)
    {
      var sourcekey := resultKey[i];
      PlaceholderHasKey(sourcekey);
      assert resultKey[i..][0] == sourcekey && resultKey[i..][1..] == resultKey[i + 1..];
      var (key, defaultValue) := GetVariableKey(sourcekey);
      if key in configs {
        r := ReplaceAll(r, sourcekey, configs[key]);
      } else if defaultValue != "" {
        r := ReplaceAll(r, sourcekey, defaultValue);
      }
    }
    if Plain(source, configs) {
      ParseIsSubstituteIff(source, configs);
    }
  }

  // ---- the substitution it is meant to be ----

  // All placeholders at once; one that stands for nothing stays as it is.
  function Substitute(s: string, configs: Configs): string {
    if s == [] then []
    else if MatchLen(s) > 0 then
      MatchIsPlaceholder(s);
      var m := s[..MatchLen(s)];
      var v := Value(m, configs);
      (if v.Some? then v.value else m) + Substitute(s[MatchLen(s)..], configs)
    else [s[0]] + Substitute(s[1..], configs)
  }

  predicate Clean(v: string) {
    forall i :: 0 <= i < |v| ==> v[i] != '$' && v[i] != '{' && v[i] != '}'
  }

  // No further "${" inside.
  predicate Flat(m: string) {
    forall i :: 0 < i < |m| - 1 ==> !(m[i] == '$' && m[i + 1] == '{')
  }

  // Placeholders are not nested, and what they stand for is free of "$", "{" and "}".
  ghost predicate Plain(source: string, configs: Configs) {
    MatchesArePlaceholders(source);
    forall m :: m in FindAll(source) ==> Flat(m) && (Value(m, configs).Some? ==> Clean(Value(m, configs).value))
  }

  // A string with placeholders, apart from the plain text around them.
  datatype Token = Lit(c: char) | Ph(m: string)

  function Tokens(s: string): seq<Token> {
    if s == [] then []
    else if MatchLen(s) > 0 then [Ph(s[..MatchLen(s)])] + Tokens(s[MatchLen(s)..])
    else [Lit(s[0])] + Tokens(s[1..])
  }

  function Text(ts: seq<Token>): string {
    if ts == [] then [] else (if ts[0].Lit? then [ts[0].c] else ts[0].m) + Text(ts[1..])
  }

  function Lits(w: string): seq<Token> { seq(|w|, i requires 0 <= i < |w| => Lit(w[i])) }

  ghost predicate Tidy(ts: seq<Token>) {
    forall i :: 0 <= i < |ts| && ts[i].Ph? ==> Placeholder(ts[i].m) && Flat(ts[i].m)
  }

  // Plain text that reads like the placeholder m.
  ghost predicate Spelled(ts: seq<Token>, m: string) {
    exists i :: 0 <= i <= |ts| && Lits(m) <= ts[i..]
  }

  // The placeholders listed in `done` have got their values.
  function Filled(ts: seq<Token>, done: seq<string>, configs: Configs): seq<Token>
    requires forall m :: m in done ==> Placeholder(m)
  {
    if ts == [] then []
    else
      (if ts[0].Ph? && ts[0].m in done && Value(ts[0].m, configs).Some?
       then Lits(Value(ts[0].m, configs).value) else [ts[0]]) + Filled(ts[1..], done, configs)
  }

  // When the turn of a match comes, the plain text, with the values put in so far, does not
  // read like it anywhere.
  ghost predicate Unspelled(source: string, configs: Configs) {
    MatchesArePlaceholders(source);
    var ms := FindAll(source);
    forall k :: 0 <= k < |ms| && Value(ms[k], configs).Some? ==>
      !Spelled(Filled(Tokens(source), ms[..k], configs), ms[k])
  }

  // ---- strings.Replace on tokens ----

  function Dollars(s: string): nat {
    if s == [] then 0 else (if s[0] == '$' then 1 else 0) + Dollars(s[1..])
  }

  // The dollar signs of the plain text.
  function Stray(ts: seq<Token>): nat {
    if ts == [] then 0 else (if ts[0] == Lit('$') then 1 else 0) + Stray(ts[1..])
  }

  // The placeholders, in order.
  function Left(ts: seq<Token>): seq<string> {
    if ts == [] then [] else if ts[0].Ph? then [ts[0].m] + Left(ts[1..]) else Left(ts[1..])
  }

  function Without(ms: seq<string>, m: string): seq<string> {
    if ms == [] then [] else if ms[0] == m then Without(ms[1..], m) else [ms[0]] + Without(ms[1..], m)
  }

  // Only the placeholders m get the value v.
  function Fill(ts: seq<Token>, m: string, v: string): seq<Token> {
    if ts == [] then [] else (if ts[0] == Ph(m) then Lits(v) else [ts[0]]) + Fill(ts[1..], m, v)
  }

  // So does whatever plain text reads like m.
  function Swept(ts: seq<Token>, m: string, v: string): seq<Token>
    requires Placeholder(m)
  {
    if ts == [] then []
    else if Lits(m) <= ts then Lits(v) + Swept(ts[|m|..], m, v)
    else (if ts[0] == Ph(m) then Lits(v) else [ts[0]]) + Swept(ts[1..], m, v)
  }

  lemma {:induction false} LitsInFront(w: string, ts: seq<Token>)
    ensures Text(Lits(w) + ts) == w + Text(ts)
    ensures Left(Lits(w) + ts) == Left(ts)
    ensures Stray(Lits(w) + ts) == Dollars(w) + Stray(ts)
    decreases |w|
  {
    if w == [] {
      assert Lits(w) + ts == ts;
    } else {
      assert (Lits(w) + ts)[1..] == Lits(w[1..]) + ts;
      LitsInFront(w[1..], ts);
      assert w + Text(ts) == [w[0]] + (w[1..] + Text(ts));
    }
  }

  lemma {:induction false} CleanHasNone(v: string)
    requires Clean(v)
    ensures Dollars(v) == 0
    decreases |v|
  {
    if v != [] {
      CleanHasNone(v[1..]);
    }
  }

  lemma PassOne(c: char, t: string, m: string, v: string)
    requires m != [] && !(m <= [c] + t)
    ensures ReplaceAll([c] + t, m, v) == [c] + ReplaceAll(t, m, v)
  {
    assert ([c] + t)[1..] == t;
  }

  lemma SameSuffixes(a: string, b: string, t: string)
    ensures (a + b) + t == a + (b + t)
  {
  }

  // Characters at which no occurrence starts are passed over.
  lemma {:induction false} PassOver(w: string, t: string, m: string, v: string)
    requires m != []
    requires forall i :: 0 <= i < |w| ==> !(m <= (w + t)[i..])
    ensures ReplaceAll(w + t, m, v) == w + ReplaceAll(t, m, v)
    decreases |w|
  {
    hide ReplaceAll;
    if w == [] {
      assert w + t == t;
    } else {
      var c, u := w[0], w[1..];
      var s, rest := w + t, u + t;
      assert w == [c] + u;
      SameSuffixes([c], u, t);
      SameSuffixes([c], u, ReplaceAll(t, m, v));
      assert s[0..] == s && s == [c] + rest;
      forall i | 0 <= i < |u|
        ensures !(m <= rest[i..])
      {
        assert rest[i..] == s[i + 1..];
      }
      PassOver(u, t, m, v);
      PassOne(c, rest, m, v);
    }
  }

  // Another placeholder contains no occurrence of m.
  lemma NoneInPlaceholder(x: string, t: string, m: string)
    requires Placeholder(x) && Flat(x) && Placeholder(m) && m != x
    ensures forall i :: 0 <= i < |x| ==> !(m <= (x + t)[i..])
  {
    forall i | 0 <= i < |x|
      ensures !(m <= (x + t)[i..])
    {
      var u := (x + t)[i..];
      assert u[0] == x[i] && (i < |x| - 1 ==> u[1] == x[i + 1]);
      if i == 0 && m <= u {
        SamePlaceholder(x, m, t);
      }
    }
  }

  lemma SamePlaceholder(x: string, m: string, t: string)
    requires Placeholder(x) && Placeholder(m) && m <= x + t
    ensures m == x
  {
    assert forall j :: 0 <= j < |m| ==> m[j] == (x + t)[j];
    assert |m| >= |x| ==> m[|x| - 1] == x[|x| - 1];
    assert |m| <= |x| ==> m[|m| - 1] == x[|m| - 1];
  }

  lemma ReplaceHead(m: string, t: string, v: string)
    requires m != []
    ensures ReplaceAll(m + t, m, v) == v + ReplaceAll(t, m, v)
    ensures ReplaceAll([], m, v) == []
  {
    assert (m + t)[|m|..] == t;
  }

  lemma LitsLonger(w: string, ts: seq<Token>)
    requires w != [] && ts != [] && ts[0] == Lit(w[0]) && Lits(w[1..]) <= ts[1..]
    ensures Lits(w) <= ts
  {
    assert forall i :: 1 <= i < |w| ==> Lits(w)[i] == Lits(w[1..])[i - 1] == ts[1..][i - 1] == ts[i];
  }

  lemma PrefixRest(w: string, s: string)
    requires w != [] && w <= s
    ensures s != [] && w[0] == s[0] && w[1..] <= s[1..] && (|w| > 1 ==> |s| > 1 && w[1] == s[1])
  {
    assert forall i :: 0 <= i < |w[1..]| ==> w[1..][i] == w[i + 1] == s[i + 1] == s[1..][i];
  }

  lemma TextOfLit(ts: seq<Token>)
    requires ts != [] && ts[0].Lit?
    ensures Text(ts) == [ts[0].c] + Text(ts[1..]) && Text(ts)[1..] == Text(ts[1..])
  {
  }

  lemma TextOfPh(ts: seq<Token>)
    requires Tidy(ts) && ts != [] && ts[0].Ph?
    ensures |Text(ts)| >= 3 && Text(ts)[0] == '$' && Text(ts)[1] == '{'
  {
    hide Flat;
  }

  // "${" stands nowhere in w.
  predicate Unopened(w: string) {
    forall i :: 0 <= i < |w| - 1 ==> !(w[i] == '$' && w[i + 1] == '{')
  }

  lemma UnopenedRest(w: string)
    requires w != []
    ensures Unopened(w) ==> Unopened(w[1..])
    ensures Flat(w) ==> Unopened(w[1..])
  {
    var u := w[1..];
    if Unopened(w) || Flat(w) {
      forall i | 0 <= i < |u| - 1
        ensures !(u[i] == '$' && u[i + 1] == '{')
      {
        assert u[i] == w[i + 1] && u[i + 1] == w[i + 2];
      }
    }
  }

  lemma StartsPlain(w: string, ts: seq<Token>)
    requires Tidy(ts) && w != [] && w <= Text(ts) && Unopened(w) && w[|w| - 1] == '}'
    ensures ts != [] && ts[0].Lit?
  {
    hide Flat, Placeholder;
    PrefixRest(w, Text(ts));
    if ts[0].Ph? {
      TextOfPh(ts);
      assert false;
    }
  }

  // Text that starts like the end of a placeholder is plain.
  lemma {:induction false} OnlyLits(w: string, ts: seq<Token>)
    requires Tidy(ts) && w <= Text(ts) && (w != [] ==> w[|w| - 1] == '}') && Unopened(w)
    ensures Lits(w) <= ts
    decreases |w|
  {
    hide Flat, Placeholder, Unopened;
    if w != [] {
      PrefixRest(w, Text(ts));
      StartsPlain(w, ts);
      TextOfLit(ts);
      hide Text;
      UnopenedRest(w);
      OnlyLits(w[1..], ts[1..]);
      LitsLonger(w, ts);
    }
  }

  // An occurrence of m that starts in plain text stays in it.
  lemma OccurrenceIsSpelled(ts: seq<Token>, m: string)
    requires Tidy(ts) && ts != [] && ts[0].Lit? && Placeholder(m) && Flat(m)
    requires m <= Text(ts)
    ensures Lits(m) <= ts
  {
    TextOfLit(ts);
    hide Text;
    PrefixRest(m, Text(ts));
    UnopenedRest(m);
    OnlyLits(m[1..], ts[1..]);
    LitsLonger(m, ts);
  }

  lemma {:induction false} SweptIsReplaceAll(ts: seq<Token>, m: string, v: string)
    requires Tidy(ts) && Placeholder(m) && Flat(m)
    ensures ReplaceAll(Text(ts), m, v) == Text(Swept(ts, m, v))
    decreases |ts|
  {
    if ts != [] {
      var t := Text(ts[1..]);
      if Lits(m) <= ts {
        var rest := ts[|m|..];
        SweptIsReplaceAll(rest, m, v);
        assert ts == Lits(m) + rest;
        LitsInFront(m, rest);
        ReplaceHead(m, Text(rest), v);
        LitsInFront(v, Swept(rest, m, v));
      } else {
        SweptIsReplaceAll(ts[1..], m, v);
        if ts[0] == Ph(m) {
          ReplaceHead(m, t, v);
          LitsInFront(v, Swept(ts[1..], m, v));
        } else if ts[0].Ph? {
          NoneInPlaceholder(ts[0].m, t, m);
          PassOver(ts[0].m, t, m, v);
        } else {
          if m <= Text(ts) {
            OccurrenceIsSpelled(ts, m);
          }
          assert ([ts[0].c] + t)[0..] == [ts[0].c] + t;
          PassOver([ts[0].c], t, m, v);
        }
      }
    }
  }

  lemma SpelledTail(ts: seq<Token>, m: string)
    requires ts != []
    ensures Spelled(ts, m) <==> Lits(m) <= ts || Spelled(ts[1..], m)
  {
    assert ts[0..] == ts;
    forall i | 1 <= i <= |ts|
      ensures ts[i..] == ts[1..][i - 1..]
    {
    }
    if Spelled(ts[1..], m) {
      var i :| 0 <= i <= |ts[1..]| && Lits(m) <= ts[1..][i..];
      assert ts[i + 1..] == ts[1..][i..];
    }
  }

  // Sweeping takes the placeholders m, and dollar signs where plain text spells it.
  lemma {:induction false} SweptKeeps(ts: seq<Token>, m: string, v: string)
    requires Placeholder(m) && Clean(v)
    ensures Left(Swept(ts, m, v)) == Without(Left(ts), m)
    ensures Stray(Swept(ts, m, v)) <= Stray(ts)
    ensures Spelled(ts, m) ==> Stray(Swept(ts, m, v)) < Stray(ts)
    decreases |ts|
  {
    hide Spelled, Clean;
    CleanHasNone(v);
    if ts == [] {
      NothingSpelled(m);
    } else {
      SpelledTail(ts, m);
      if Lits(m) <= ts {
        var rest := ts[|m|..];
        assert ts == Lits(m) + rest;
        SweptKeeps(rest, m, v);
        LitsInFront(m, rest);
        LitsInFront(v, Swept(rest, m, v));
        assert Dollars(m) >= 1;
      } else {
        SweptKeeps(ts[1..], m, v);
        LitsInFront(v, Swept(ts[1..], m, v));
        if ts[0].Ph? {
          assert Left(ts)[1..] == Left(ts[1..]);
        }
      }
    }
  }

  lemma NothingSpelled(m: string)
    requires m != []
    ensures !Spelled([], m)
  {
  }

  lemma {:induction false} SweptUnspelled(ts: seq<Token>, m: string, v: string)
    requires Placeholder(m) && !Spelled(ts, m)
    ensures Swept(ts, m, v) == Fill(ts, m, v)
    decreases |ts|
  {
    hide Spelled, Lits;
    if ts != [] {
      SpelledTail(ts, m);
      SweptUnspelled(ts[1..], m, v);
    }
  }

  // Sweeping leaves the same placeholders as filling, and the same text unless m is spelled;
  // then it takes dollar signs that filling does not take.
  lemma SweptAgainstFill(ts: seq<Token>, m: string, v: string)
    requires Placeholder(m) && Clean(v)
    ensures Left(Swept(ts, m, v)) == Left(Fill(ts, m, v))
    ensures Stray(Swept(ts, m, v)) <= Stray(Fill(ts, m, v))
    ensures Spelled(ts, m) ==> Stray(Swept(ts, m, v)) < Stray(Fill(ts, m, v))
    ensures !Spelled(ts, m) ==> Swept(ts, m, v) == Fill(ts, m, v)
  {
    hide Spelled, Clean, Placeholder, Left, Stray;
    SweptKeeps(ts, m, v);
    FillKeeps(ts, m, v);
    if !Spelled(ts, m) {
      SweptUnspelled(ts, m, v);
    }
  }

  lemma {:induction false} FillKeeps(ts: seq<Token>, m: string, v: string)
    requires Clean(v)
    ensures Left(Fill(ts, m, v)) == Without(Left(ts), m) && Stray(Fill(ts, m, v)) == Stray(ts)
    decreases |ts|
  {
    CleanHasNone(v);
    if ts != [] {
      FillKeeps(ts[1..], m, v);
      LitsInFront(v, Fill(ts[1..], m, v));
      if ts[0].Ph? {
        assert Left(ts)[1..] == Left(ts[1..]);
      }
    }
  }

  // ---- one match after the other ----

  lemma {:induction false} FillAfter(w: string, ts: seq<Token>, m: string, v: string)
    ensures Fill(Lits(w) + ts, m, v) == Lits(w) + Fill(ts, m, v)
    decreases |w|
  {
    if w == [] {
      assert Lits(w) + ts == ts && Lits(w) + Fill(ts, m, v) == Fill(ts, m, v);
    } else {
      assert (Lits(w) + ts)[1..] == Lits(w[1..]) + ts;
      FillAfter(w[1..], ts, m, v);
      assert Lits(w) + Fill(ts, m, v) == [Lit(w[0])] + (Lits(w[1..]) + Fill(ts, m, v));
    }
  }

  lemma {:induction false} FilledNext(ts: seq<Token>, done: seq<string>, m: string, configs: Configs)
    requires Placeholder(m) && forall x :: x in done ==> Placeholder(x)
    ensures Filled(ts, done + [m], configs) ==
            match Value(m, configs)
            case Some(v) => Fill(Filled(ts, done, configs), m, v)
            case None => Filled(ts, done, configs)
    decreases |ts|
  {
    hide Value;
    if ts != [] {
      var rest := Filled(ts[1..], done, configs);
      FilledNext(ts[1..], done, m, configs);
      if Value(m, configs).Some? {
        var v := Value(m, configs).value;
        if ts[0].Ph? && ts[0].m in done && Value(ts[0].m, configs).Some? {
          FillAfter(Value(ts[0].m, configs).value, rest, m, v);
        } else {
          assert ([ts[0]] + rest)[1..] == rest;
        }
      }
    }
  }

  lemma {:induction false} FilledTidy(ts: seq<Token>, done: seq<string>, configs: Configs)
    requires Tidy(ts) && forall x :: x in done ==> Placeholder(x)
    ensures Tidy(Filled(ts, done, configs))
    decreases |ts|
  {
    hide Value, Flat;
    if ts != [] {
      FilledTidy(ts[1..], done, configs);
    }
  }

  lemma {:induction false} SweptTidy(ts: seq<Token>, m: string, v: string)
    requires Tidy(ts) && Placeholder(m)
    ensures Tidy(Swept(ts, m, v))
    decreases |ts|
  {
    hide Flat;
    if ts != [] {
      if Lits(m) <= ts {
        SweptTidy(ts[|m|..], m, v);
      } else {
        SweptTidy(ts[1..], m, v);
      }
    }
  }

  function Sum(ms: seq<string>): nat {
    if ms == [] then 0 else Dollars(ms[0]) + Sum(ms[1..])
  }

  lemma {:induction false} DollarsOfText(ts: seq<Token>)
    ensures Dollars(Text(ts)) == Stray(ts) + Sum(Left(ts))
    decreases |ts|
  {
    if ts != [] {
      DollarsOfText(ts[1..]);
      if ts[0].Ph? {
        LitsInFront(ts[0].m, ts[1..]);
        DollarsOfConcat(ts[0].m, Text(ts[1..]));
        assert Left(ts)[1..] == Left(ts[1..]);
      } else {
        assert Text(ts)[1..] == Text(ts[1..]);
      }
    }
  }

  lemma {:induction false} DollarsOfConcat(a: string, b: string)
    ensures Dollars(a + b) == Dollars(a) + Dollars(b)
    decreases |a|
  {
    if a == [] {
      assert a + b == b;
    } else {
      assert (a + b)[1..] == a[1..] + b;
      DollarsOfConcat(a[1..], b);
    }
  }

  // What a list of matches needs for the steps to be comparable.
  ghost predicate Steps(ms: seq<string>, configs: Configs) {
    forall m :: m in ms ==> Placeholder(m) && Flat(m) && (Value(m, configs).Some? ==> Clean(Value(m, configs).value))
  }

  lemma NextStep(ms: seq<string>, k: nat)
    requires k < |ms|
    ensures ms[..k] + [ms[k]] == ms[..k + 1] && ms[k..][0] == ms[k] && ms[k..][1..] == ms[k + 1..]
  {
  }

  // Dollar signs once lost do not come back.
  lemma {:induction false} BehindForGood(swept: seq<Token>, ts: seq<Token>, ms: seq<string>, k: nat, configs: Configs)
    requires Steps(ms, configs) && k <= |ms| && Tidy(swept)
    requires var filled := Filled(ts, ms[..k], configs); Left(swept) == Left(filled) && Stray(swept) < Stray(filled)
    ensures ReplaceEach(Text(swept), ms[k..], configs) != Text(Filled(ts, ms, configs))
    decreases |ms| - k
  {
    hide Value, Flat, Placeholder, Clean, Filled, ReplaceAll, Text, Tidy, Left, Stray, Swept, Fill, Spelled;
    if k == |ms| {
      assert ms[..k] == ms && ms[k..] == [];
      DollarsOfText(swept);
      DollarsOfText(Filled(ts, ms, configs));
    } else {
      var m := ms[k];
      var filled := Filled(ts, ms[..k], configs);
      NextStep(ms, k);
      FilledNext(ts, ms[..k], m, configs);
      if Value(m, configs).Some? {
        var v := Value(m, configs).value;
        SweptIsReplaceAll(swept, m, v);
        SweptKeeps(swept, m, v);
        SweptTidy(swept, m, v);
        FillKeeps(filled, m, v);
        BehindForGood(Swept(swept, m, v), ts, ms, k + 1, configs);
      } else {
        BehindForGood(swept, ts, ms, k + 1, configs);
      }
    }
  }

  lemma {:induction false} EachStep(ts: seq<Token>, ms: seq<string>, k: nat, configs: Configs)
    requires Tidy(ts) && Steps(ms, configs) && k <= |ms|
    ensures ReplaceEach(Text(Filled(ts, ms[..k], configs)), ms[k..], configs) == Text(Filled(ts, ms, configs)) <==>
            forall j :: k <= j < |ms| && Value(ms[j], configs).Some? ==> !Spelled(Filled(ts, ms[..j], configs), ms[j])
    decreases |ms| - k
  {
    hide Value, Flat, Placeholder, Clean, Filled, Spelled, ReplaceAll, Text, Tidy, Left, Stray, Swept, Fill;
    if k == |ms| {
      assert ms[..k] == ms && ms[k..] == [];
    } else {
      var m := ms[k];
      var filled := Filled(ts, ms[..k], configs);
      NextStep(ms, k);
      FilledNext(ts, ms[..k], m, configs);
      FilledTidy(ts, ms[..k], configs);
      EachStep(ts, ms, k + 1, configs);
      if Value(m, configs).Some? {
        var v := Value(m, configs).value;
        SweptIsReplaceAll(filled, m, v);
        SweptAgainstFill(filled, m, v);
        if Spelled(filled, m) {
          SweptTidy(filled, m, v);
          BehindForGood(Swept(filled, m, v), ts, ms, k + 1, configs);
        }
      }
    }
  }

  lemma {:induction false} TokensTidy(s: string)
    requires forall m :: m in FindAll(s) ==> Flat(m)
    ensures Tidy(Tokens(s))
    decreases |s|
  {
    hide Flat, Stop;
    if s != [] {
      if MatchLen(s) > 0 {
        MatchIsPlaceholder(s);
        TokensTidy(s[MatchLen(s)..]);
      } else {
        TokensTidy(s[1..]);
      }
    }
  }

  lemma {:induction false} TextOfTokens(s: string)
    ensures Text(Tokens(s)) == s
    decreases |s|
  {
    hide MatchLen;
    if s != [] {
      var n := if MatchLen(s) > 0 then MatchLen(s) else 1;
      TextOfTokens(s[n..]);
      assert Tokens(s)[1..] == Tokens(s[n..]);
      assert s == s[..n] + s[n..];
    }
  }

  lemma {:induction false} NothingFilled(ts: seq<Token>, configs: Configs)
    ensures Filled(ts, [], configs) == ts
    decreases |ts|
  {
    hide Value;
    if ts != [] {
      NothingFilled(ts[1..], configs);
    }
  }

  lemma {:induction false} AllFilled(s: string, ms: seq<string>, configs: Configs)
    requires (forall m :: m in ms ==> Placeholder(m)) && forall m :: m in FindAll(s) ==> m in ms
    ensures Text(Filled(Tokens(s), ms, configs)) == Substitute(s, configs)
    decreases |s|
  {
    hide Value, Placeholder, Stop;
    if s != [] {
      var n := if MatchLen(s) > 0 then MatchLen(s) else 1;
      AllFilled(s[n..], ms, configs);
      assert Tokens(s)[1..] == Tokens(s[n..]);
      var rest := Filled(Tokens(s[n..]), ms, configs);
      if MatchLen(s) > 0 {
        var m := s[..n];
        assert m in FindAll(s);
        if Value(m, configs).Some? {
          LitsInFront(Value(m, configs).value, rest);
        } else {
          assert Filled(Tokens(s), ms, configs)[1..] == rest;
        }
      } else {
        assert Filled(Tokens(s), ms, configs)[1..] == rest;
      }
    }
  }

  // ParseVariable, which rewrites the whole string once per match, is the one-pass
  // substitution exactly if no match is spelled by other text when its turn comes.
  lemma ParseIsSubstituteIff(source: string, configs: Configs)
    requires Plain(source, configs)
    ensures Parse(source, configs) == Substitute(source, configs) <==> Unspelled(source, configs)
  {
    hide Value, Flat, Placeholder, Clean, Filled, Spelled, ReplaceEach, Substitute, Text;
    MatchesArePlaceholders(source);
    var ms, ts := FindAll(source), Tokens(source);
    TokensTidy(source);
    TextOfTokens(source);
    NothingFilled(ts, configs);
    AllFilled(source, ms, configs);
    assert ms[..0] == [] && ms[0..] == ms;
    EachStep(ts, ms, 0, configs);
  }

  // ---- a simpler condition ----

  // A placeholder right behind a plain dollar sign.
  ghost predicate DollarBefore(ts: seq<Token>) {
    exists i :: 0 <= i < |ts| - 1 && ts[i] == Lit('$') && ts[i + 1].Ph?
  }

  // No value is empty, or no placeholder stands behind a dollar sign.
  ghost predicate NoGap(source: string, configs: Configs) {
    MatchesArePlaceholders(source);
    || (forall m :: m in FindAll(source) ==> Value(m, configs) != Some(""))
    || !DollarBefore(Tokens(source))
  }

  // No "}" before the next newline.
  predicate Unclosed(ts: seq<Token>) {
    ts == [] || (ts[0].Lit? && (ts[0].c == '\n' || (ts[0].c != '}' && Unclosed(ts[1..]))))
  }

  // No plain text reads like a placeholder.
  predicate Quiet(ts: seq<Token>) {
    ts == [] ||
    (Quiet(ts[1..]) &&
     (ts[0] == Lit('$') ==> |ts| == 1 || ts[1].Ph? || ts[1].c != '{' || Unclosed(ts[2..])))
  }

  lemma {:induction false} TokensUnclosed(s: string, k: nat)
    requires k <= |s| && (forall j :: 0 <= j < k ==> s[j] != '}' && s[j] != '\n')
    requires if k == |s| then true else s[k] == '\n'
    ensures Unclosed(Tokens(s))
    decreases k
  {
    if s != [] && k > 0 {
      assert MatchLen(s) == 0;
      TokensUnclosed(s[1..], k - 1);
    }
  }

  lemma {:induction false} TokensQuiet(s: string)
    ensures Quiet(Tokens(s))
    decreases |s|
  {
    if s != [] {
      if MatchLen(s) > 0 {
        TokensQuiet(s[MatchLen(s)..]);
      } else {
        TokensQuiet(s[1..]);
        if Opens(s) {
          assert s[1..][1..] == s[2..];
          TokensUnclosed(s[2..], Stop(s, 2) - 2);
        }
      }
    }
  }

  lemma PrefixTail(w: string, ts: seq<Token>)
    requires w != [] && ts != []
    ensures Lits(w) <= ts ==> ts[0] == Lit(w[0]) && Lits(w[1..]) <= ts[1..]
  {
    if Lits(w) <= ts {
      assert forall i :: 0 <= i < |w[1..]| ==> Lits(w[1..])[i] == Lits(w)[i + 1] == ts[i + 1] == ts[1..][i];
    }
  }

  lemma {:induction false} UnclosedSpells(ts: seq<Token>, w: string)
    requires Unclosed(ts) && w != [] && w[|w| - 1] == '}' && forall i :: 0 <= i < |w| ==> w[i] != '\n'
    requires forall i :: 0 <= i < |w| - 1 ==> w[i] != '}'
    ensures !(Lits(w) <= ts)
    decreases |w|
  {
    if ts != [] {
      PrefixTail(w, ts);
      if |w| > 1 && ts[0] == Lit(w[0]) {
        UnclosedSpells(ts[1..], w[1..]);
      }
    }
  }

  lemma {:induction false} QuietIsUnspelled(ts: seq<Token>, m: string)
    requires Quiet(ts) && Placeholder(m)
    ensures !Spelled(ts, m)
    decreases |ts|
  {
    if ts == [] {
      assert !(Lits(m) <= ts[0..]);
    } else {
      SpelledTail(ts, m);
      QuietIsUnspelled(ts[1..], m);
      PrefixTail(m, ts);
      if |ts| > 1 {
        PrefixTail(m[1..], ts[1..]);
      }
      if |ts| > 1 && ts[0] == Lit('$') && ts[1] == Lit('{') {
        UnclosedSpells(ts[2..], m[2..]);
        assert ts[1..][1..] == ts[2..] && m[1..][1..] == m[2..];
      }
    }
  }

  lemma {:induction false} QuietAfter(w: string, ts: seq<Token>)
    requires Clean(w) && Quiet(ts)
    ensures Quiet(Lits(w) + ts)
    decreases |w|
  {
    if w == [] {
      assert Lits(w) + ts == ts;
    } else {
      assert (Lits(w) + ts)[1..] == Lits(w[1..]) + ts;
      QuietAfter(w[1..], ts);
    }
  }

  lemma {:induction false} FilledUnclosed(ts: seq<Token>, done: seq<string>, configs: Configs)
    requires Unclosed(ts) && forall m :: m in done ==> Placeholder(m)
    ensures Unclosed(Filled(ts, done, configs))
    decreases |ts|
  {
    hide Value, Placeholder;
    if ts != [] && ts[0].c != '\n' {
      FilledUnclosed(ts[1..], done, configs);
      assert Filled(ts, done, configs)[1..] == Filled(ts[1..], done, configs);
    }
  }

  lemma {:induction false} FilledQuiet(ts: seq<Token>, done: seq<string>, configs: Configs)
    requires Quiet(ts) && Steps(done, configs)
    requires !DollarBefore(ts) || forall m :: m in done ==> Value(m, configs) != Some("")
    ensures Quiet(Filled(ts, done, configs))
    decreases |ts|
  {
    hide Value, Placeholder, Flat;
    if ts != [] {
      if !DollarBefore(ts) {
        assert forall i :: 0 <= i < |ts[1..]| - 1 && ts[1..][i] == Lit('$') ==> !ts[i + 2].Ph?;
      }
      var fs, rest := Filled(ts, done, configs), Filled(ts[1..], done, configs);
      FilledQuiet(ts[1..], done, configs);
      if ts[0].Ph? && ts[0].m in done && Value(ts[0].m, configs).Some? {
        QuietAfter(Value(ts[0].m, configs).value, rest);
      } else {
        assert fs[1..] == rest;
        if ts[0] == Lit('$') && |ts| > 1 {
          if ts[1].Ph? {
            assert DollarBefore(ts);
          } else if ts[1].c == '{' {
            FilledUnclosed(ts[2..], done, configs);
            assert ts[1..][1..] == ts[2..] && fs[2..] == Filled(ts[2..], done, configs);
          }
        }
      }
    }
  }

  lemma NoGapIsUnspelled(source: string, configs: Configs)
    requires Plain(source, configs) && NoGap(source, configs)
    ensures Unspelled(source, configs)
  {
    hide Value, Placeholder, Flat, Clean, Filled, Spelled, Quiet, Tokens;
    MatchesArePlaceholders(source);
    var ms, ts := FindAll(source), Tokens(source);
    TokensQuiet(source);
    forall k | 0 <= k < |ms| && Value(ms[k], configs).Some?
      ensures !Spelled(Filled(ts, ms[..k], configs), ms[k])
    {
      FilledQuiet(ts, ms[..k], configs);
      QuietIsUnspelled(Filled(ts, ms[..k], configs), ms[k]);
    }
  }

  lemma NotPrefix(m: string, t: string, i: nat)
    requires i < |m| && i < |t| && m[i] != t[i]
    ensures !(m <= t)
  {
  }


  // ---- why empty values need a word ----

  lemma MatchOfPlaceholder(m: string, t: string)
    requires Placeholder(m)
    ensures MatchLen(m + t) == |m| && (m + t)[..|m|] == m && (m + t)[|m|..] == t
  {
    assert forall j :: 0 <= j < |m| ==> (m + t)[j] == m[j];
    assert (m + t)[|m| - 1] == '}';
  }

  lemma PlainOne(c: char, rest: string, configs: Configs)
    requires !Opens([c] + rest)
    ensures FindAll([c] + rest) == FindAll(rest) && Substitute([c] + rest, configs) == [c] + Substitute(rest, configs)
  {
    hide Value;
    assert ([c] + rest)[1..] == rest;
  }

  // Where no placeholder opens, source and result agree.
  lemma {:induction false} PlainText(w: string, t: string, configs: Configs)
    requires forall i :: 0 <= i < |w| ==> !Opens((w + t)[i..])
    ensures FindAll(w + t) == FindAll(t) && Substitute(w + t, configs) == w + Substitute(t, configs)
    decreases |w|
  {
    hide FindAll, Substitute, Opens;
    if w == [] {
      assert w + t == t;
    } else {
      var c, u := w[0], w[1..];
      var s, rest := w + t, u + t;
      assert w == [c] + u;
      SameSuffixes([c], u, t);
      SameSuffixes([c], u, Substitute(t, configs));
      assert s[0..] == s && s == [c] + rest;
      forall i | 0 <= i < |u|
        ensures !Opens(rest[i..])
      {
        assert rest[i..] == s[i + 1..];
      }
      PlainText(u, t, configs);
      PlainOne(c, rest, configs);
    }
  }

  // A dollar sign, a placeholder x with the empty value, the rest of a placeholder y: when x
  // goes, a placeholder y appears that was not in the source, and is replaced as well if the
  // source has a true y. Substitution leaves it alone.
  lemma EmptyValueCounterexample(x: string, y: string, configs: Configs)
    requires Placeholder(x) && Flat(x) && Placeholder(y) && Flat(y) && x != y
    requires Value(x, configs) == Some("") && Value(y, configs).Some? && Clean(Value(y, configs).value)
    ensures var source, v := "$" + (x + (y[1..] + y)), Value(y, configs).value;
            && Parse(source, configs) == v + v
            && Substitute(source, configs) == y + v
            && Parse(source, configs) != Substitute(source, configs)
  {
    var v := Value(y, configs).value;
    GapMatches(x, y, configs);
    GapReplaced(x, y, v);
    MatchesArePlaceholders("$" + (x + (y[1..] + y)));
    assert [x, y][1..] == [y] && [y][1..] == [];
    assert ReplaceEach(y + y, [y], configs) == ReplaceAll(y + y, y, v) by { hide Value; }
    assert y[0] == '$';
    AppendInjective(v, y, v);
  }

  lemma AppendInjective(a: string, b: string, c: string)
    ensures a + c == b + c <==> a == b
  {
    if |a| == |b| {
      assert (a + c)[..|a|] == a && (b + c)[..|b|] == b;
    }
  }

  lemma GapMatches(x: string, y: string, configs: Configs)
    requires Placeholder(x) && Placeholder(y) && Flat(y) && x != y
    requires Value(x, configs) == Some("") && Value(y, configs).Some?
    ensures var source := "$" + (x + (y[1..] + y));
            FindAll(source) == [x, y] && Substitute(source, configs) == y + Value(y, configs).value
  {
    hide Value, FindAll, Substitute;
    var v, tail := Value(y, configs).value, y[1..] + y;
    TailAfterGap(x, y, configs);
    HeadMatch(x, tail, configs);
    assert [x] + [y] == [x, y];
    var source := "$" + (x + tail);
    assert source[0..] == source && source[1] == '$';
    PlainText("$", x + tail, configs);
    assert "$" + ("" + (y[1..] + v)) == y + v;
  }

  lemma HeadMatch(m: string, t: string, configs: Configs)
    requires Placeholder(m)
    ensures FindAll(m + t) == [m] + FindAll(t)
    ensures Substitute(m + t, configs) ==
            (if Value(m, configs).Some? then Value(m, configs).value else m) + Substitute(t, configs)
  {
    hide Value, MatchLen, Placeholder;
    MatchOfPlaceholder(m, t);
    assert |m| > 0 by { PlaceholderNotEmpty(m); }
  }

  lemma PlaceholderNotEmpty(m: string)
    requires Placeholder(m)
    ensures |m| > 0
  {
  }

  lemma GapReplaced(x: string, y: string, v: string)
    requires Placeholder(x) && Placeholder(y) && Flat(y) && x != y
    ensures ReplaceAll("$" + (x + (y[1..] + y)), x, "") == y + y
    ensures ReplaceAll(y + y, y, v) == v + v
  {
    hide ReplaceAll;
    var tail := y[1..] + y;
    TailKept(x, y);
    ReplaceHead(x, tail, "");
    var source := "$" + (x + tail);
    assert source[0..] == source && source[1] == '$';
    NotPrefix(x, source, 1);
    PassOver("$", x + tail, x, "");
    assert "$" + ("" + tail) == y + y;
    ReplaceHead(y, y, v);
    ReplaceHead(y, [], v);
    assert y + [] == y && v + [] == v;
  }

  lemma TailAfterGap(x: string, y: string, configs: Configs)
    requires Placeholder(y) && Flat(y) && Value(y, configs).Some?
    ensures var tail := y[1..] + y;
            FindAll(tail) == [y] && Substitute(tail, configs) == y[1..] + Value(y, configs).value
  {
    hide Value;
    var tail := y[1..] + y;
    assert y + [] == y;
    MatchOfPlaceholder(y, []);
    assert FindAll(y) == [y] + FindAll([]);
    forall i | 0 <= i < |y[1..]|
      ensures !Opens(tail[i..])
    {
      assert tail[i] == y[i + 1] && (i + 1 < |y[1..]| ==> tail[i + 1] == y[i + 2]);
      assert tail[i..][0] == tail[i] && tail[i..][1] == tail[i + 1];
    }
    PlainText(y[1..], y, configs);
  }

  lemma TailKept(x: string, y: string)
    requires Placeholder(x) && Placeholder(y) && Flat(y) && x != y
    ensures var tail := y[1..] + y; ReplaceAll(tail, x, "") == tail
  {
    var tail := y[1..] + y;
    assert y + [] == y;
    NoneInPlaceholder(y, y, x);
    NoneInPlaceholder(y, [], x);
    forall i | 0 <= i < |y[1..]|
      ensures !(x <= tail[i..])
    {
      assert tail[i..] == (y + y)[i + 1..];
    }
    PassOver(y[1..], y, x, "");
    PassOver(y, [], x, "");
  }
}
