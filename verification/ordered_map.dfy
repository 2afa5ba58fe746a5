/**
 Configuration values and Python's insertion-ordered `dict`, as a sequence of
 key/value pairs. Iteration order is observable in the generated script, so a
 mapping is never a Dafny `map` here.
 */
module OrderedMap {
  import opened Errors

  /** A parsed JSON configuration value: a string, a list of strings, or an object. */
  datatype Value =
    | Str(s: string)
    | List(items: seq<string>)
    | Object(entries: seq<(string, Value)>)

  /** A Python `dict` with string keys, in insertion order. */
  type Dict = seq<(string, Value)>

  /** Python truthiness: empty strings, lists and objects are false. */
  predicate Truthy(v: Value) {
    match v
    case Str(s) => s != []
    case List(items) => items != []
    case Object(entries) => entries != []
  }

  /** Python `len(v)`. */
  function Size(v: Value): (n: nat)
    ensures n == 0 <==> !Truthy(v)
  {
    match v
    case Str(s) => |s|
    case List(items) => |items|
    case Object(entries) => |entries|
  }

  /**
   Python `str(v)`, as used when a value is interpolated. Strings are copied;
   an empty list or object prints as `[]` or `{}`. Any other value would print
   as its Python `repr`, which is not modelled: it is reported as a wrong type.
   */
  function Display(what: string, v: Value): (r: Result<string>)
    ensures v.Str? ==> r == Ok(v.s)
    ensures r.Err? <==> !v.Str? && Truthy(v)
    ensures r.Err? ==> r == Err(WrongType(what))
    ensures v == List([]) ==> r == Ok("[]")
    ensures v == Object([]) ==> r == Ok("{}")
  {
    match v
    case Str(s) => Ok(s)
    case List(items) => if items == [] then Ok("[]") else Err(WrongType(what))
    case Object(entries) => if entries == [] then Ok("{}") else Err(WrongType(what))
  }

  /** What a Python `for` loop over the value visits: characters, items, or keys. */
  function Items(v: Value): (r: seq<string>)
    ensures |r| == Size(v)
  {
    match v
    case Str(s) => seq(|s|, i requires 0 <= i < |s| => [s[i]])
    case List(items) => items
    case Object(entries) => Keys(entries)
  }

  function Keys(d: Dict): (r: seq<string>)
    ensures |r| == |d|
    ensures forall i :: 0 <= i < |d| ==> r[i] == d[i].0
  {
    seq(|d|, i requires 0 <= i < |d| => d[i].0)
  }

  /** No key occurs twice, as in every Python `dict`. */
  predicate UniqueKeys(d: Dict) {
    forall i, j :: 0 <= i < j < |d| ==> d[i].0 != d[j].0
  }

  /** Position of key `k` in `d`, or `|d|` when it is absent. */
  function IndexOf(d: Dict, k: string): (i: nat)
    ensures i <= |d|
    ensures i < |d| ==> d[i].0 == k
    ensures forall j :: 0 <= j < i ==> d[j].0 != k
  {
    if d == [] then 0
    else if d[0].0 == k then 0
    else 1 + IndexOf(d[1..], k)
  }

  /** Python `d.get(k)`. */
  function Lookup(d: Dict, k: string): (r: Option<Value>)
    ensures r.Some? <==> k in Keys(d)
    ensures r.Some? ==> (k, r.value) in d
  {
    var i := IndexOf(d, k);
    assert i < |d| ==> Keys(d)[i] == k;
    if i < |d| then Some(d[i].1) else None
  }

  /** `d.get(k)` used as a condition: the value, when present and truthy. */
  function Get(d: Dict, k: string): (r: Option<Value>)
    ensures r.Some? <==> Lookup(d, k).Some? && Truthy(Lookup(d, k).value)
    ensures r.Some? ==> r == Lookup(d, k)
  {
    match Lookup(d, k)
    case Some(v) => if Truthy(v) then Some(v) else None
    case None => None
  }

  /** The first pair of a mapping answers a `get` of its own key. */
  lemma GetFirst(k: string, v: Value, rest: Dict)
    requires Truthy(v)
    ensures Get([(k, v)] + rest, k) == Some(v)
  {
    assert IndexOf([(k, v)] + rest, k) == 0;
  }

  /** Two mappings that hold key `k` at the same positions find it at the same index. */
  lemma SamePositionsSameIndex(a: Dict, b: Dict, k: string)
    requires |a| == |b|
    requires forall m :: 0 <= m < |a| ==> (a[m].0 == k <==> b[m].0 == k)
    ensures IndexOf(a, k) == IndexOf(b, k)
  {
  }

  lemma SameKeysSameIndex(a: Dict, b: Dict, k: string)
    requires Keys(a) == Keys(b)
    ensures IndexOf(a, k) == IndexOf(b, k)
  {
    assert forall m :: 0 <= m < |a| ==> a[m].0 == Keys(a)[m];
    SamePositionsSameIndex(a, b, k);
  }

  /** Python `del d[k]`: drop the entry for `k`, keeping the order of the rest. */
  function Remove(d: Dict, k: string): Dict {
    var i := IndexOf(d, k);
    if i < |d| then d[..i] + d[i + 1..] else d
  }

  /** Python `d[k] = v`: overwrite in place, or append a new entry. */
  function Put(d: Dict, k: string, v: Value): Dict {
    var i := IndexOf(d, k);
    if i < |d| then d[i := (k, v)] else d + [(k, v)]
  }

  /** Python `d.update(p)`: the pairs of `p` are put into `d` one after another. */
  function Update(d: Dict, p: Dict): Dict
    decreases |p|
  {
    if p == [] then d else Update(Put(d, p[0].0, p[0].1), p[1..])
  }

  /** The value of the last pair for `k` in `p`: the one that survives `update`. */
  function LastLookup(p: Dict, k: string): (r: Option<Value>)
    ensures r.Some? <==> k in Keys(p)
  {
    if p == [] then None
    else
      assert Keys(p) == [p[0].0] + Keys(p[1..]);
      var later := LastLookup(p[1..], k);
      if later.Some? then later
      else if p[0].0 == k then Some(p[0].1)
      else None
  }

  /** A lookup checks the first pair, then the rest. */
  lemma LookupCons(d: Dict, k: string)
    requires d != []
    ensures Lookup(d, k) == if d[0].0 == k then Some(d[0].1) else Lookup(d[1..], k)
  {
    if d[0].0 != k {
      assert IndexOf(d, k) == 1 + IndexOf(d[1..], k);
    }
  }

  lemma RemoveCons(d: Dict, k: string)
    requires d != []
    ensures Remove(d, k) == if d[0].0 == k then d[1..] else [d[0]] + Remove(d[1..], k)
  {
    if d[0].0 != k {
      var t := d[1..];
      var i' := IndexOf(t, k);
      assert IndexOf(d, k) == 1 + i';
      if i' < |t| {
        DropCons(d, i');
      } else {
        assert d == [d[0]] + t;
      }
    }
  }

  /** Dropping element `i + 1` of a sequence is dropping element `i` of its tail. */
  lemma DropCons<T>(d: seq<T>, i: nat)
    requires i + 1 < |d|
    ensures d[..i + 1] + d[i + 2..] == [d[0]] + (d[1..][..i] + d[1..][i + 1..])
  {
    assert d[..i + 1] == [d[0]] + d[1..][..i];
    assert d[i + 2..] == d[1..][i + 1..];
  }

  lemma PutCons(d: Dict, k: string, v: Value)
    requires d != []
    ensures Put(d, k, v) == if d[0].0 == k then [(k, v)] + d[1..] else [d[0]] + Put(d[1..], k, v)
  {
    var t := d[1..];
    if d[0].0 == k {
      assert d[0 := (k, v)] == [(k, v)] + t;
    } else {
      var i' := IndexOf(t, k);
      assert IndexOf(d, k) == 1 + i';
      if i' < |t| {
        assert d[1 + i' := (k, v)] == [d[0]] + t[i' := (k, v)];
      } else {
        assert d + [(k, v)] == [d[0]] + (t + [(k, v)]);
      }
    }
  }

  lemma {:induction false} RemoveLookup(d: Dict, k: string, k': string)
    requires k' != k
    ensures Lookup(Remove(d, k), k') == Lookup(d, k')
  {
    if d != [] {
      LookupCons(d, k');
      RemoveCons(d, k);
      if d[0].0 != k {
        var r := Remove(d, k);
        RemoveLookup(d[1..], k, k');
        LookupCons(r, k');
        assert r[0] == d[0] && r[1..] == Remove(d[1..], k);
      }
    }
  }

  /** Deleting one key leaves what every other key finds unchanged. */
  lemma RemoveOthers(d: Dict, k: string)
    ensures forall k' :: k' != k ==> Lookup(Remove(d, k), k') == Lookup(d, k')
  {
    forall k' | k' != k
      ensures Lookup(Remove(d, k), k') == Lookup(d, k')
    {
      RemoveLookup(d, k, k');
    }
  }

  /** `Lookup` finds the first pair for a key, the only one when keys are unique. */
  lemma UniqueLookup(d: Dict, i: nat)
    requires UniqueKeys(d)
    requires i < |d|
    ensures Lookup(d, d[i].0) == Some(d[i].1)
  {
  }

  /**
   Deleting a key from a proper `dict` leaves no trace of it and every other
   entry, with its value, in its original order.
   */
  lemma RemoveExactly(d: Dict, k: string)
    requires UniqueKeys(d)
    ensures UniqueKeys(Remove(d, k))
    ensures Lookup(Remove(d, k), k) == None
    ensures forall k' :: k' != k ==> Lookup(Remove(d, k), k') == Lookup(d, k')
  {
    var i := IndexOf(d, k);
    var r := Remove(d, k);
    forall k' | k' != k
      ensures Lookup(r, k') == Lookup(d, k')
    {
      RemoveLookup(d, k, k');
    }
    if i < |d| {
      assert forall m :: 0 <= m < i ==> r[m] == d[m];
      assert forall m :: i <= m < |r| ==> r[m] == d[m + 1];
    }
  }

  lemma {:induction false} PutLookup(d: Dict, k: string, v: Value, k': string)
    ensures Lookup(Put(d, k, v), k') == if k' == k then Some(v) else Lookup(d, k')
  {
    var r := Put(d, k, v);
    if d == [] {
      assert r == [(k, v)];
      LookupCons(r, k');
      assert r[1..] == [];
    } else {
      PutCons(d, k, v);
      LookupCons(d, k');
      LookupCons(r, k');
      if d[0].0 == k {
        assert r[0] == (k, v) && r[1..] == d[1..];
      } else {
        PutLookup(d[1..], k, v, k');
        assert r[0] == d[0] && r[1..] == Put(d[1..], k, v);
      }
    }
  }

  lemma PutOthers(d: Dict, k: string, v: Value)
    ensures forall k' :: k' != k ==> Lookup(Put(d, k, v), k') == Lookup(d, k')
  {
    forall k' | k' != k
      ensures Lookup(Put(d, k, v), k') == Lookup(d, k')
    {
      PutLookup(d, k, v, k');
    }
  }

  /** Overwriting a present key keeps every key in its place. */
  lemma PutExisting(d: Dict, k: string, v: Value)
    requires k in Keys(d)
    ensures Keys(Put(d, k, v)) == Keys(d)
  {
  }

  lemma {:induction false} PutKeys(d: Dict, k: string, v: Value)
    requires UniqueKeys(d)
    ensures UniqueKeys(Put(d, k, v))
    ensures Keys(Put(d, k, v)) == if k in Keys(d) then Keys(d) else Keys(d) + [k]
  {
    var r := Put(d, k, v);
    if IndexOf(d, k) == |d| {
      assert Keys(r) == Keys(d) + [k];
    }
  }

  /**
   `d.update(p)` on a proper `dict`: later pairs of `p` win, keys absent from
   `p` keep their value, and the keys of `d` keep their places at the front.
   */
  lemma {:induction false} UpdateFacts(d: Dict, p: Dict)
    requires UniqueKeys(d)
    ensures UniqueKeys(Update(d, p))
    ensures Keys(d) <= Keys(Update(d, p))
    ensures forall k :: k in Keys(Update(d, p)) <==> k in Keys(d) || k in Keys(p)
    ensures forall k :: Lookup(Update(d, p), k) == if LastLookup(p, k).Some? then LastLookup(p, k) else Lookup(d, k)
  {
    UpdateKeys(d, p);
    forall k
      ensures Lookup(Update(d, p), k) == if LastLookup(p, k).Some? then LastLookup(p, k) else Lookup(d, k)
    {
      UpdateLookup(d, p, k);
    }
  }

  lemma UpdateKeys(d: Dict, p: Dict)
    requires UniqueKeys(d)
    ensures UniqueKeys(Update(d, p))
    ensures Keys(d) <= Keys(Update(d, p))
    ensures forall k :: k in Keys(Update(d, p)) <==> k in Keys(d) || k in Keys(p)
  {
    UpdatePrefix(d, p);
    forall k
      ensures k in Keys(Update(d, p)) <==> k in Keys(d) || k in Keys(p)
    {
      UpdateMember(d, p, k);
    }
  }

  lemma {:induction false} UpdatePrefix(d: Dict, p: Dict)
    requires UniqueKeys(d)
    ensures UniqueKeys(Update(d, p))
    ensures Keys(d) <= Keys(Update(d, p))
    decreases |p|
  {
    if p != [] {
      var d' := Put(d, p[0].0, p[0].1);
      PutKeys(d, p[0].0, p[0].1);
      UpdatePrefix(d', p[1..]);
      assert Keys(d) <= Keys(d');
    }
  }

  lemma UpdateMember(d: Dict, p: Dict, k: string)
    ensures k in Keys(Update(d, p)) <==> k in Keys(d) || k in Keys(p)
  {
    UpdateLookup(d, p, k);
  }

  lemma {:induction false} UpdateLookup(d: Dict, p: Dict, k: string)
    ensures Lookup(Update(d, p), k) == if LastLookup(p, k).Some? then LastLookup(p, k) else Lookup(d, k)
    decreases |p|
  {
    if p != [] {
      UpdateLookup(Put(d, p[0].0, p[0].1), p[1..], k);
      PutLookup(d, p[0].0, p[0].1, k);
    }
  }

  /** In a proper `dict` the last pair for a key is also the first. */
  lemma {:induction false} LastLookupUnique(p: Dict, k: string)
    requires UniqueKeys(p)
    ensures LastLookup(p, k) == Lookup(p, k)
  {
    if p != [] {
      assert UniqueKeys(p[1..]);
      LastLookupUnique(p[1..], k);
      if p[0].0 == k {
        assert k !in Keys(p[1..]);
      }
    }
  }

  /** Unpacking a section for `.items()`: only an object has pairs. */
  function AsObject(what: string, v: Value): (r: Result<Dict>)
    ensures r.Ok? <==> v.Object?
    ensures r.Ok? ==> r.value == v.entries
    ensures r.Err? ==> r.error == WrongType(what)
  {
    if v.Object? then Ok(v.entries) else Err(WrongType(what))
  }

  /** The popped value and what remains of the mapping. */
  datatype Popped = Popped(value: Value, rest: Dict)

  /**
   `pop_entry_or_exit`: take the entry for `key` out of `d`. An absent key and
   a falsy value (empty string, list or object) are the same fatal error.
   */
  function Pop(key: string, d: Dict): (r: Result<Popped>)
    ensures r.Ok? <==> Lookup(d, key).Some? && Truthy(Lookup(d, key).value)
    ensures r.Err? ==> r.error == MissingEntry(key)
    ensures r.Ok? ==> Truthy(r.value.value)
    ensures r.Ok? ==>
      exists i :: 0 <= i < |d| && d[i] == (key, r.value.value) && r.value.rest == d[..i] + d[i + 1..]
  {
    match Get(d, key)
    case Some(v) =>
      var i := IndexOf(d, key);
      assert d[i] == (key, v);
      Ok(Popped(v, Remove(d, key)))
    case None => Err(MissingEntry(key))
  }

  /** Popping a key leaves every other key's lookup as it was. */
  lemma PopOthers(key: string, d: Dict)
    requires Pop(key, d).Ok?
    ensures forall k :: k != key ==> Lookup(Pop(key, d).value.rest, k) == Lookup(d, k)
  {
    RemoveOthers(d, key);
  }
}
