/**
 Per-key resolution of a mapping (`parse_strings`) and the construction of the
 shared namespace from the `settings` section and the `vars` mapping nested
 inside it.
 */
module Resolution {
  import opened Errors
  import opened Text
  import opened OrderedMap
  import opened Substitution
  import opened Magic

  /**
   What `parse_strings` makes of one entry: a magic KEY applies its function to
   the value; otherwise a string is substituted and anything else is kept.
   */
  function ResolveValue(k: string, v: Value, kw: Dict, env: Env): Result<Value> {
    if IsMagic(k) then Apply(k, v, env)
    else if v.Str? then
      var s :- Format(v.s, kw);
      Ok(Str(s))
    else Ok(v)
  }

  /** The name of `parse_strings`' own first parameter. */
  const ParamName := "input_dict"

  /**
   `parse_strings(d, **kw)`. Python binds the keyword arguments before the
   body runs, so a snapshot holding the key `input_dict` collides with the
   parameter of that name and the call fails outright. Otherwise every entry
   is resolved in order and the first failing entry decides the error.
   */
  function Resolve(d: Dict, kw: Dict, env: Env): (r: Result<Dict>)
    ensures Lookup(kw, ParamName).Some? ==> r == Err(DuplicateArgument(ParamName))
    ensures r.Ok? <==> Lookup(kw, ParamName) == None && forall i :: 0 <= i < |d| ==> ResolveValue(d[i].0, d[i].1, kw, env).Ok?
    ensures r.Ok? ==> Keys(r.value) == Keys(d)
    ensures r.Ok? ==> forall i :: 0 <= i < |d| ==> Ok(r.value[i].1) == ResolveValue(d[i].0, d[i].1, kw, env)
    ensures r.Ok? ==> forall i :: 0 <= i < |d| && !IsMagic(d[i].0) && !d[i].1.Str? ==> r.value[i] == d[i]
    ensures r.Ok? ==> forall i :: 0 <= i < |d| && !IsMagic(d[i].0) && d[i].1.Str? ==>
      r.value[i].1.Str? && Format(d[i].1.s, kw) == Ok(r.value[i].1.s)
    ensures r.Ok? ==> forall i :: 0 <= i < |d| && IsMagic(d[i].0) ==> Apply(d[i].0, d[i].1, env) == Ok(r.value[i].1)
    ensures r.Err? && Lookup(kw, ParamName) == None ==>
      exists i :: 0 <= i < |d| && ResolveValue(d[i].0, d[i].1, kw, env) == Err(r.error)
  {
    if Lookup(kw, ParamName).Some? then Err(DuplicateArgument(ParamName))
    else ResolveEntries(d, kw, env)
  }

  /** The loop of `parse_strings`: every entry resolved in order against the snapshot `kw`. */
  function ResolveEntries(d: Dict, kw: Dict, env: Env): (r: Result<Dict>)
    ensures r.Ok? <==> forall i :: 0 <= i < |d| ==> ResolveValue(d[i].0, d[i].1, kw, env).Ok?
    ensures r.Ok? ==> Keys(r.value) == Keys(d)
    ensures r.Ok? ==> forall i :: 0 <= i < |d| ==> Ok(r.value[i].1) == ResolveValue(d[i].0, d[i].1, kw, env)
    ensures r.Ok? ==> forall i :: 0 <= i < |d| && !IsMagic(d[i].0) && !d[i].1.Str? ==> r.value[i] == d[i]
    ensures r.Ok? ==> forall i :: 0 <= i < |d| && !IsMagic(d[i].0) && d[i].1.Str? ==>
      r.value[i].1.Str? && Format(d[i].1.s, kw) == Ok(r.value[i].1.s)
    ensures r.Ok? ==> forall i :: 0 <= i < |d| && IsMagic(d[i].0) ==> Apply(d[i].0, d[i].1, env) == Ok(r.value[i].1)
    ensures r.Err? ==> exists i :: 0 <= i < |d| && ResolveValue(d[i].0, d[i].1, kw, env) == Err(r.error)
  {
    if d == [] then Ok([])
    else
      var v :- ResolveValue(d[0].0, d[0].1, kw, env);
      var rest :- ResolveEntries(d[1..], kw, env);
      assert forall i :: 1 <= i < |d| ==> d[i] == d[1..][i - 1];
      Ok([(d[0].0, v)] + rest)
  }

  /**
   A mapping with no magic keys whose strings hold no braces is already
   resolved: `parse_strings` returns it unchanged, so resolving is idempotent.
   Only the keyword clash can still make the call fail.
   */
  lemma ResolvePlain(d: Dict, kw: Dict, env: Env)
    requires forall i :: 0 <= i < |d| ==> !IsMagic(d[i].0)
    requires forall i :: 0 <= i < |d| && d[i].1.Str? ==> NoBraces(d[i].1.s)
    ensures Resolve(d, kw, env) == if Lookup(kw, ParamName).Some? then Err(DuplicateArgument(ParamName)) else Ok(d)
  {
    ResolveEntriesPlain(d, kw, env);
  }

  lemma {:induction false} ResolveEntriesPlain(d: Dict, kw: Dict, env: Env)
    requires forall i :: 0 <= i < |d| ==> !IsMagic(d[i].0)
    requires forall i :: 0 <= i < |d| && d[i].1.Str? ==> NoBraces(d[i].1.s)
    ensures ResolveEntries(d, kw, env) == Ok(d)
  {
    if d != [] {
      if d[0].1.Str? {
        FormatBraceFree(d[0].1.s, kw);
      }
      ResolveEntriesPlain(d[1..], kw, env);
      assert [d[0]] + d[1..] == d;
    }
  }

  /** The pairs `dict.update` takes from a value: an object's entries, or two-character strings. */
  function UpdatePairs(v: Value): (r: Result<Dict>)
    ensures v.Object? ==> r == Ok(v.entries)
    ensures v.Str? ==> (r.Ok? <==> v.s == [])
    ensures v.List? ==> (r.Ok? <==> forall i :: 0 <= i < |v.items| ==> |v.items[i]| == 2)
    ensures v.List? && r.Ok? ==> |r.value| == |v.items|
    ensures v.List? && r.Ok? ==>
      forall i :: 0 <= i < |v.items| ==> r.value[i] == ([v.items[i][0]], Str([v.items[i][1]]))
    ensures r.Err? ==> r == Err(WrongType("vars"))
  {
    match v
    case Object(entries) => Ok(entries)
    case Str(s) => if s == [] then Ok([]) else Err(WrongType("vars"))
    case List(items) =>
      if forall i :: 0 <= i < |items| ==> |items[i]| == 2 then
        Ok(seq(|items|, i requires 0 <= i < |items| => ([items[i][0]], Str([items[i][1]]))))
      else Err(WrongType("vars"))
  }

  /**
   The namespace before its final resolution: `settings` resolved against
   itself, its `vars` entry popped, and the `vars` pairs merged on top.
   */
  function Merge(settings: Value, env: Env): (r: Result<Dict>)
    ensures r.Ok? ==> settings.Object?
    ensures r.Ok? ==> Lookup(settings.entries, "vars").Some?
    ensures r.Ok? ==> Truthy(Lookup(settings.entries, "vars").value) && !Lookup(settings.entries, "vars").value.Str?
  {
    var s :- AsObject("settings", settings);
    var ns :- Resolve(s, s, env);
    var vars :- Pop("vars", ns);
    var pairs :- UpdatePairs(vars.value);
    VarsFromSettings(s, ns, env);
    Ok(Update(vars.rest, pairs))
  }

  /** The `vars` entry keeps its place and, being no string, its value through resolution. */
  lemma VarsFromSettings(s: Dict, ns: Dict, env: Env)
    requires Resolve(s, s, env) == Ok(ns)
    ensures Lookup(ns, "vars").Some? <==> Lookup(s, "vars").Some?
    ensures Lookup(s, "vars").Some? && !Lookup(s, "vars").value.Str? ==> Lookup(ns, "vars") == Lookup(s, "vars")
    ensures Lookup(s, "vars").Some? && Lookup(s, "vars").value.Str? ==> Lookup(ns, "vars").value.Str?
  {
    SameKeysSameIndex(s, ns, "vars");
  }

  /**
   The shared namespace (`NS`): the merged mapping re-resolved against a
   snapshot of itself, so a `vars` value sees the other entries as they stood
   before this last pass.
   */
  function BuildNamespace(settings: Value, env: Env): (r: Result<Dict>)
    ensures r.Ok? ==> Merge(settings, env).Ok?
    ensures r.Ok? ==> Keys(r.value) == Keys(Merge(settings, env).value)
    ensures r.Ok? ==> var m := Merge(settings, env).value;
      forall i :: 0 <= i < |m| ==> Ok(r.value[i].1) == ResolveValue(m[i].0, m[i].1, m, env)
    ensures r.Ok? ==> Lookup(r.value, ParamName) == None
  {
    var m :- Merge(settings, env);
    Resolve(m, m, env)
  }

  lemma KeysRemove(d: Dict, k: string)
    ensures IndexOf(d, k) < |d| ==> Keys(Remove(d, k)) == Keys(d)[..IndexOf(d, k)] + Keys(d)[IndexOf(d, k) + 1..]
    ensures IndexOf(d, k) == |d| ==> Remove(d, k) == d
  {
  }

  lemma SameKeysUnique(a: Dict, b: Dict)
    requires Keys(a) == Keys(b)
    requires UniqueKeys(a)
    ensures UniqueKeys(b)
  {
    forall i, j | 0 <= i < j < |b|
      ensures b[i].0 != b[j].0
    {
      assert Keys(a)[i] == Keys(b)[i] && Keys(a)[j] == Keys(b)[j];
    }
  }

  /**
   Where the names of the merged namespace come from: the `settings` keys
   other than `vars` first, in their order, then new names from `vars`; a name
   in `vars` takes its `vars` value, every other name its value from
   `settings` resolved against `settings`.
   */
  lemma MergeKeys(s: Dict, vd: Dict, env: Env)
    requires UniqueKeys(s)
    requires Lookup(s, "vars") == Some(Object(vd))
    requires Merge(Object(s), env).Ok?
    ensures var m := Merge(Object(s), env).value;
      && UniqueKeys(m)
      && Keys(Remove(s, "vars")) <= Keys(m)
      && (forall k :: k in Keys(m) <==> (k in Keys(s) && k != "vars") || k in Keys(vd))
      && (forall k :: k in Keys(vd) ==> Lookup(m, k) == LastLookup(vd, k))
      && (forall k :: k !in Keys(vd) && k != "vars" && Lookup(s, k).Some? ==>
            Lookup(m, k).Some? && Ok(Lookup(m, k).value) == ResolveValue(k, Lookup(s, k).value, s, env))
  {
    var ns := Resolve(s, s, env).value;
    var rest := Remove(ns, "vars");
    var m := Merge(Object(s), env).value;
    MergeSetup(s, vd, env);
    UpdateFacts(rest, vd);
    MergeOldValues(s, ns, rest, vd, m, env);
    MergeKeySet(s, ns, rest, vd, m);
  }

  /** What is left of the resolved `settings` once `vars` is popped, and what is merged into it. */
  lemma MergeSetup(s: Dict, vd: Dict, env: Env)
    requires UniqueKeys(s)
    requires Lookup(s, "vars") == Some(Object(vd))
    requires Merge(Object(s), env).Ok?
    ensures Resolve(s, s, env).Ok?
    ensures var ns := Resolve(s, s, env).value;
      var rest := Remove(ns, "vars");
      && Merge(Object(s), env).value == Update(rest, vd)
      && Keys(ns) == Keys(s)
      && UniqueKeys(rest)
      && Keys(rest) == Keys(Remove(s, "vars"))
      && Lookup(rest, "vars") == None
      && (forall k :: k != "vars" ==> Lookup(rest, k) == Lookup(ns, k))
  {
    var ns := Resolve(s, s, env).value;
    VarsFromSettings(s, ns, env);
    SameKeysUnique(s, ns);
    RemoveExactly(ns, "vars");
    SameKeysSameIndex(s, ns, "vars");
    KeysRemove(s, "vars");
    KeysRemove(ns, "vars");
  }

  lemma MergeOldValues(s: Dict, ns: Dict, rest: Dict, vd: Dict, m: Dict, env: Env)
    requires Resolve(s, s, env) == Ok(ns)
    requires forall k :: k != "vars" ==> Lookup(rest, k) == Lookup(ns, k)
    requires forall k :: Lookup(m, k) == if LastLookup(vd, k).Some? then LastLookup(vd, k) else Lookup(rest, k)
    ensures forall k :: k !in Keys(vd) && k != "vars" && Lookup(s, k).Some? ==>
      Lookup(m, k).Some? && Ok(Lookup(m, k).value) == ResolveValue(k, Lookup(s, k).value, s, env)
  {
    forall k | k !in Keys(vd) && k != "vars" && Lookup(s, k).Some?
      ensures Lookup(m, k).Some? && Ok(Lookup(m, k).value) == ResolveValue(k, Lookup(s, k).value, s, env)
    {
      SameKeysSameIndex(s, ns, k);
      assert Lookup(m, k) == Lookup(rest, k) == Lookup(ns, k);
    }
  }

  lemma MergeKeySet(s: Dict, ns: Dict, rest: Dict, vd: Dict, m: Dict)
    requires Keys(ns) == Keys(s)
    requires Lookup(rest, "vars") == None
    requires forall k :: k != "vars" ==> Lookup(rest, k) == Lookup(ns, k)
    requires forall k :: k in Keys(m) <==> k in Keys(rest) || k in Keys(vd)
    ensures forall k :: k in Keys(m) <==> (k in Keys(s) && k != "vars") || k in Keys(vd)
  {
    forall k
      ensures k in Keys(rest) <==> k in Keys(s) && k != "vars"
    {
      if k != "vars" {
        assert Lookup(rest, k) == Lookup(ns, k);
      }
    }
  }

  /**
   Resolution order: a `settings` string naming anything but another
   `settings` key fails, even when `vars` defines that name.
   */
  lemma SettingsCannotSeeVars(s: Dict, i: nat, p: string, n: string, q: string, env: Env)
    requires i < |s|
    requires !IsMagic(s[i].0)
    requires s[i].1 == Str(p + "{" + n + "}" + q)
    requires NoBraces(p) && PlainName(n)
    requires Lookup(s, n) == None
    ensures BuildNamespace(Object(s), env).Err?
  {
    FormatUnknownName(p, n, q, s);
    assert !ResolveValue(s[i].0, s[i].1, s, env).Ok?;
  }

  /** A `{name}` placeholder alone is replaced by the name's string value. */
  lemma FormatSingleField(n: string, x: string, kw: Dict)
    requires PlainName(n)
    requires Lookup(kw, n) == Some(Str(x))
    ensures Format("{" + n + "}", kw) == Ok(x)
  {
    FormatField(n, "", kw);
    assert "{" + n + "}" + "" == "{" + n + "}";
    assert x + "" == x;
  }

  /**
   Resolution order: a `vars` value that is just `{a}`, for a `settings` key
   `a` holding brace-free text, gets that text in the namespace.
   */
  lemma VarsSeeSettings(s: Dict, vd: Dict, a: string, x: string, b: string, env: Env)
    requires UniqueKeys(s)
    requires Lookup(s, "vars") == Some(Object(vd))
    requires Lookup(s, a) == Some(Str(x)) && a != "vars" && a !in Keys(vd)
    requires !IsMagic(a) && PlainName(a) && NoBraces(x)
    requires LastLookup(vd, b) == Some(Str("{" + a + "}")) && !IsMagic(b)
    requires BuildNamespace(Object(s), env).Ok?
    ensures Lookup(BuildNamespace(Object(s), env).value, b) == Some(Str(x))
  {
    var m := Merge(Object(s), env).value;
    var ns := BuildNamespace(Object(s), env).value;
    MergeKeys(s, vd, env);
    FormatBraceFree(x, s);
    assert Lookup(m, a) == Some(Str(x));
    assert Lookup(m, b) == Some(Str("{" + a + "}"));
    FormatSingleField(a, x, m);
    SameKeysSameIndex(m, ns, b);
    var i := IndexOf(m, b);
    assert m[i] == (b, Str("{" + a + "}"));
    assert Ok(ns[i].1) == ResolveValue(b, Str("{" + a + "}"), m, env);
  }

  lemma ResolveCons(e: (string, Value), rest: Dict, kw: Dict, env: Env, v: Value, rest': Dict)
    requires ResolveValue(e.0, e.1, kw, env) == Ok(v)
    requires ResolveEntries(rest, kw, env) == Ok(rest')
    ensures ResolveEntries([e] + rest, kw, env) == Ok([(e.0, v)] + rest')
  {
    assert ([e] + rest)[0] == e && ([e] + rest)[1..] == rest;
  }

  lemma UpdateThree(a: string, b: string, c: string, va: Value, vb: Value, vc: Value)
    requires a != b && b != c && a != c
    ensures Update([], [(a, va), (b, vb), (c, vc)]) == [(a, va), (b, vb), (c, vc)]
  {
    var p: Dict := [(a, va), (b, vb), (c, vc)];
    var d1: Dict := [(a, va)];
    var d2: Dict := [(a, va), (b, vb)];
    assert Put([], a, va) == d1;
    assert IndexOf(d1, b) == 1;
    assert Put(d1, b, vb) == d2;
    assert d2[0].0 != c && d2[1].0 != c;
    assert IndexOf(d2, c) == 2;
    assert Put(d2, c, vc) == p;
    assert p[1..][1..][1..] == [];
    assert Update(p, p[1..][1..][1..]) == p;
    assert Update(d2, p[1..][1..]) == p;
    assert Update(d1, p[1..]) == p;
  }

  lemma MergeOnlyVars(vd: Dict, env: Env)
    requires vd != [] && Update([], vd) == vd
    ensures Merge(Object([("vars", Object(vd))]), env) == Ok(vd)
  {
    var s: Dict := [("vars", Object(vd))];
    ResolvePlain(s, s, env);
    assert IndexOf(s, "vars") == 0;
    assert Pop("vars", s) == Ok(Popped(Object(vd), []));
    assert UpdatePairs(Object(vd)) == Ok(vd);
  }

  lemma ChainValues(a: string, b: string, c: string, z: string, env: Env)
    requires a != b && b != c && a != c
    requires !IsMagic(a) && !IsMagic(b) && !IsMagic(c)
    requires PlainName(b) && PlainName(c) && NoBraces(z)
    ensures var vd: Dict := [(a, Str("{" + b + "}")), (b, Str("{" + c + "}")), (c, Str(z))];
      && ResolveValue(a, Str("{" + b + "}"), vd, env) == Ok(Str("{" + c + "}"))
      && ResolveValue(b, Str("{" + c + "}"), vd, env) == Ok(Str(z))
      && ResolveValue(c, Str(z), vd, env) == Ok(Str(z))
  {
    var vd: Dict := [(a, Str("{" + b + "}")), (b, Str("{" + c + "}")), (c, Str(z))];
    assert Lookup(vd, b) == Some(Str("{" + c + "}")) by {
      assert IndexOf(vd, b) == 1;
    }
    assert Lookup(vd, c) == Some(Str(z)) by {
      assert vd[2].0 == c && vd[0].0 != c && vd[1].0 != c;
      assert IndexOf(vd, c) == 2;
    }
    FormatSingleField(b, "{" + c + "}", vd);
    FormatSingleField(c, z, vd);
    FormatBraceFree(z, vd);
  }

  lemma ResolveChain(a: string, b: string, c: string, z: string, env: Env)
    requires a != b && b != c && a != c
    requires a != ParamName && b != ParamName && c != ParamName
    requires !IsMagic(a) && !IsMagic(b) && !IsMagic(c)
    requires PlainName(b) && PlainName(c) && NoBraces(z)
    ensures var vd: Dict := [(a, Str("{" + b + "}")), (b, Str("{" + c + "}")), (c, Str(z))];
      Resolve(vd, vd, env) == Ok([(a, Str("{" + c + "}")), (b, Str(z)), (c, Str(z))])
  {
    var vd: Dict := [(a, Str("{" + b + "}")), (b, Str("{" + c + "}")), (c, Str(z))];
    assert ParamName !in Keys(vd);
    ChainValues(a, b, c, z, env);
    ResolveThree(vd, vd, env, Str("{" + c + "}"), Str(z), Str(z));
  }

  lemma ResolveThree(d: Dict, kw: Dict, env: Env, v0: Value, v1: Value, v2: Value)
    requires |d| == 3
    requires ResolveValue(d[0].0, d[0].1, kw, env) == Ok(v0)
    requires ResolveValue(d[1].0, d[1].1, kw, env) == Ok(v1)
    requires ResolveValue(d[2].0, d[2].1, kw, env) == Ok(v2)
    ensures ResolveEntries(d, kw, env) == Ok([(d[0].0, v0), (d[1].0, v1), (d[2].0, v2)])
  {
    ResolveCons(d[2], [], kw, env, v2, []);
    assert [d[2]] + [] == d[2..];
    assert [(d[2].0, v2)] + [] == [(d[2].0, v2)];
    ResolveCons(d[1], d[2..], kw, env, v1, [(d[2].0, v2)]);
    assert [d[1]] + d[2..] == d[1..];
    assert [(d[1].0, v1)] + [(d[2].0, v2)] == [(d[1].0, v1), (d[2].0, v2)];
    ResolveCons(d[0], d[1..], kw, env, v0, [(d[1].0, v1), (d[2].0, v2)]);
    assert [d[0]] + d[1..] == d;
    assert [(d[0].0, v0)] + [(d[1].0, v1), (d[2].0, v2)] == [(d[0].0, v0), (d[1].0, v1), (d[2].0, v2)];
  }

  /**
   Snapshot semantics: the final pass resolves every entry against the merged
   mapping as it stood before that pass, so `a`, naming `b`, receives `b`'s
   unresolved text, placeholder included.
   */
  lemma VarsSeeSnapshot(a: string, b: string, c: string, z: string, env: Env)
    requires a != b && b != c && a != c
    requires a != ParamName && b != ParamName && c != ParamName
    requires !IsMagic(a) && !IsMagic(b) && !IsMagic(c)
    requires PlainName(b) && PlainName(c) && NoBraces(z)
    ensures BuildNamespace(Object([("vars", Object([(a, Str("{" + b + "}")), (b, Str("{" + c + "}")), (c, Str(z))]))]), env)
         == Ok([(a, Str("{" + c + "}")), (b, Str(z)), (c, Str(z))])
  {
    var vd: Dict := [(a, Str("{" + b + "}")), (b, Str("{" + c + "}")), (c, Str(z))];
    UpdateThree(a, b, c, Str("{" + b + "}"), Str("{" + c + "}"), Str(z));
    MergeOnlyVars(vd, env);
    ResolveChain(a, b, c, z, env);
  }

  /**
   A settings mapping holding the key `input_dict` can never be resolved: the
   first `parse_strings(NS, **NS)` call fails on the keyword clash.
   */
  lemma NamespaceClash(s: Dict, env: Env)
    requires Lookup(s, ParamName).Some?
    ensures Merge(Object(s), env) == Err(DuplicateArgument(ParamName))
    ensures BuildNamespace(Object(s), env) == Err(DuplicateArgument(ParamName))
  {
  }

  // ------------------------------------------------------------------
  // plain configuration data
  // ------------------------------------------------------------------

  /**
   A value that resolution cannot change: no magic key at any depth and no
   brace in any string.
   */
  predicate PlainValue(v: Value) {
    match v
    case Str(s) => NoBraces(s)
    case List(items) => forall i :: 0 <= i < |items| ==> NoBraces(items[i])
    case Object(entries) => forall i :: 0 <= i < |entries| ==> !IsMagic(entries[i].0) && PlainValue(entries[i].1)
  }

  lemma PlainEntries(d: Dict, kw: Dict, env: Env)
    requires PlainValue(Object(d))
    ensures Resolve(d, kw, env) == if Lookup(kw, ParamName).Some? then Err(DuplicateArgument(ParamName)) else Ok(d)
  {
    forall i | 0 <= i < |d| && d[i].1.Str?
      ensures NoBraces(d[i].1.s)
    {
      assert PlainValue(d[i].1);
    }
    ResolvePlain(d, kw, env);
  }

  lemma RemovePlain(d: Dict, k: string)
    requires PlainValue(Object(d))
    ensures PlainValue(Object(Remove(d, k)))
  {
    var i := IndexOf(d, k);
    if i < |d| {
      var r := Remove(d, k);
      assert forall m :: 0 <= m < i ==> r[m] == d[m];
      assert forall m :: i <= m < |r| ==> r[m] == d[m + 1];
    }
  }

  lemma PutPlain(d: Dict, k: string, v: Value)
    requires PlainValue(Object(d)) && !IsMagic(k) && PlainValue(v)
    ensures PlainValue(Object(Put(d, k, v)))
  {
  }

  lemma {:induction false} UpdatePlain(d: Dict, p: Dict)
    requires PlainValue(Object(d)) && PlainValue(Object(p))
    ensures PlainValue(Object(Update(d, p)))
    decreases |p|
  {
    if p != [] {
      PutPlain(d, p[0].0, p[0].1);
      assert PlainValue(Object(p[1..])) by {
        assert forall i :: 1 <= i < |p| ==> p[1..][i - 1] == p[i];
      }
      UpdatePlain(Put(d, p[0].0, p[0].1), p[1..]);
    }
  }

  /** The pairs taken from a plain `vars` value are themselves plain. */
  lemma PairsPlain(v: Value)
    requires PlainValue(v) && UpdatePairs(v).Ok?
    ensures PlainValue(Object(UpdatePairs(v).value))
  {
    if v.List? {
      var p := UpdatePairs(v).value;
      forall i | 0 <= i < |p|
        ensures !IsMagic(p[i].0) && PlainValue(p[i].1)
      {
        assert |p[i].0| == 1;
        assert NoBraces(v.items[i]);
        assert p[i].1 == Str([v.items[i][1]]);
      }
    }
  }

  /**
   For plain `settings` the merge does not depend on the environment, and it
   is the raw `settings` pairs without `vars`, updated with the raw `vars`
   pairs.
   */
  lemma MergePlain(settings: Value, env: Env, env': Env)
    requires PlainValue(settings)
    ensures Merge(settings, env) == Merge(settings, env')
    ensures Merge(settings, env).Ok? ==> UpdatePairs(Lookup(settings.entries, "vars").value).Ok?
    ensures Merge(settings, env).Ok? ==>
      Merge(settings, env).value == Update(Remove(settings.entries, "vars"), UpdatePairs(Lookup(settings.entries, "vars").value).value)
    ensures Merge(settings, env).Ok? ==> PlainValue(Object(Merge(settings, env).value))
  {
    if settings.Object? {
      var s := settings.entries;
      PlainEntries(s, s, env);
      PlainEntries(s, s, env');
      if Lookup(s, ParamName) == None && Pop("vars", s).Ok? {
        var vars := Pop("vars", s).value;
        assert vars.value == Lookup(s, "vars").value;
        assert PlainValue(vars.value) by {
          var j :| 0 <= j < |s| && s[j] == ("vars", vars.value);
        }
        if UpdatePairs(vars.value).Ok? {
          RemovePlain(s, "vars");
          PairsPlain(vars.value);
          UpdatePlain(vars.rest, UpdatePairs(vars.value).value);
        }
      }
    }
  }

  /**
   The namespace as plain data would give it, with no resolution at all: the
   raw `settings` pairs without `vars`, updated with the raw `vars` pairs. A
   mapping holding `input_dict` is still the keyword clash.
   */
  function RawNamespace(settings: Value): (r: Result<Dict>)
    ensures r.Ok? ==> Lookup(r.value, ParamName) == None
  {
    var s :- AsObject("settings", settings);
    if Lookup(s, ParamName).Some? then Err(DuplicateArgument(ParamName))
    else
      var vars :- Pop("vars", s);
      var pairs :- UpdatePairs(vars.value);
      var m := Update(vars.rest, pairs);
      if Lookup(m, ParamName).Some? then Err(DuplicateArgument(ParamName)) else Ok(m)
  }

  /**
   What the raw merge holds: the `settings` keys other than `vars` first, in
   their order, then new names from the `vars` pairs; a name among the pairs
   takes its last pair's value, every other name its raw `settings` value.
   */
  lemma RawNamespaceFacts(s: Dict)
    requires UniqueKeys(s)
    requires RawNamespace(Object(s)).Ok?
    ensures Lookup(s, "vars").Some? && UpdatePairs(Lookup(s, "vars").value).Ok?
    ensures var m := RawNamespace(Object(s)).value;
      var p := UpdatePairs(Lookup(s, "vars").value).value;
      && UniqueKeys(m)
      && Keys(Remove(s, "vars")) <= Keys(m)
      && (forall k :: k in Keys(m) <==> (k in Keys(s) && k != "vars") || k in Keys(p))
      && (forall k :: Lookup(m, k) ==
            if LastLookup(p, k).Some? then LastLookup(p, k) else if k == "vars" then None else Lookup(s, k))
  {
    var vars := Pop("vars", s).value;
    var p := UpdatePairs(vars.value).value;
    var rest := vars.rest;
    var m := RawNamespace(Object(s)).value;
    assert rest == Remove(s, "vars");
    assert m == Update(rest, p);
    RemoveExactly(s, "vars");
    UpdateFacts(rest, p);
    forall k
      ensures k in Keys(rest) <==> k in Keys(s) && k != "vars"
    {
      if k != "vars" {
        assert Lookup(rest, k) == Lookup(s, k);
      }
    }
  }

  /**
   For plain `settings` neither resolution pass changes anything: the
   namespace is the raw merge, whatever the host name and the clock.
   */
  lemma NamespaceRaw(settings: Value, env: Env)
    requires PlainValue(settings)
    ensures BuildNamespace(settings, env) == RawNamespace(settings)
    ensures BuildNamespace(settings, env).Ok? ==> PlainValue(Object(BuildNamespace(settings, env).value))
  {
    MergePlain(settings, env, env);
    if Merge(settings, env).Ok? {
      var m := Merge(settings, env).value;
      PlainEntries(m, m, env);
    }
    if settings.Object? {
      PlainEntries(settings.entries, settings.entries, env);
    }
  }
}
