/**
 The failure values of the menu-entry generator. Every failure of the original
 program ends the process with status 1; here it is an `Err` that the caller
 reports, so that no partially rendered boot entry can escape.
 */
module Errors {

  /** Why a run aborts. */
  datatype Error =
    | MissingEntry(key: string)        // a required entry is absent or falsy
    | UnknownName(name: string)        // a `{name}` placeholder the mapping lacks
    | PositionalField(field: string)   // `{}` or `{0}`: no positional arguments are ever given
    | UnsupportedField(field: string)  // format spec, conversion, attribute or index access
    | SingleBrace(brace: char)         // a lone `{` at the end, or a lone `}`
    | UnterminatedField                // `{name` with no closing brace
    | WrongType(what: string)          // a configuration value of an unusable shape
    | DuplicateArgument(name: string)  // a `**` keyword that is also a named parameter of the callee

  datatype Option<+T> = None | Some(value: T)

  /** A failure-compatible result, usable with `:-`. */
  datatype Result<+T> = Ok(value: T) | Err(error: Error) {

    predicate IsFailure() {
      Err?
    }

    function PropagateFailure<U>(): Result<U>
      requires Err?
    {
      Err(error)
    }

    function Extract(): T
      requires Ok?
    {
      value
    }
  }

  /** Prefix a successful result; pass an error through unchanged. */
  function Prepend(p: string, r: Result<string>): (q: Result<string>)
    ensures q.Ok? <==> r.Ok?
    ensures r.Ok? ==> q.value == p + r.value
    ensures r.Err? ==> q == r
  {
    if r.Ok? then Ok(p + r.value) else r
  }

  lemma AppendAssoc(p: string, q: string, r: Result<string>)
    ensures Prepend(p, Prepend(q, r)) == Prepend(p + q, r)
  {
    if r.Ok? {
      assert p + (q + r.value) == (p + q) + r.value;
    }
  }

  /**
   The text a loop builds by appending one rendered piece per item, in order,
   stopping at the first piece that fails.
   */
  function ConcatMap<T>(xs: seq<T>, f: T -> Result<string>): (r: Result<string>)
    ensures r.Ok? <==> forall i :: 0 <= i < |xs| ==> f(xs[i]).Ok?
    ensures r.Err? ==> exists i :: 0 <= i < |xs| && f(xs[i]) == Err(r.error) && forall j :: 0 <= j < i ==> f(xs[j]).Ok?
  {
    if xs == [] then Ok("")
    else
      var first :- f(xs[0]);
      var rest :- ConcatMap(xs[1..], f);
      assert forall i :: 1 <= i < |xs| ==> xs[i] == xs[1..][i - 1];
      Ok(first + rest)
  }

  /** Rendering a longer list appends, with no separator, the rendering of the added items. */
  lemma {:induction false} ConcatMapAppend<T>(a: seq<T>, b: seq<T>, f: T -> Result<string>)
    requires ConcatMap(a, f).Ok?
    ensures ConcatMap(a + b, f) == Prepend(ConcatMap(a, f).value, ConcatMap(b, f))
  {
    if a == [] {
      assert a + b == b;
      if ConcatMap(b, f).Ok? {
        assert "" + ConcatMap(b, f).value == ConcatMap(b, f).value;
      }
    } else {
      assert (a + b)[0] == a[0];
      assert (a + b)[1..] == a[1..] + b;
      ConcatMapAppend(a[1..], b, f);
      AppendAssoc(f(a[0]).value, ConcatMap(a[1..], f).value, ConcatMap(b, f));
    }
  }

  lemma ConcatMapSingle<T>(x: T, f: T -> Result<string>)
    ensures ConcatMap([x], f) == f(x)
  {
    assert [x][1..] == [];
    if f(x).Ok? {
      assert f(x).value + "" == f(x).value;
    }
  }

  /** The last item's piece ends the concatenation. */
  lemma ConcatMapLast<T>(xs: seq<T>, f: T -> Result<string>)
    requires xs != [] && ConcatMap(xs, f).Ok?
    ensures ConcatMap(xs, f).value == ConcatMap(xs[..|xs| - 1], f).value + f(xs[|xs| - 1]).value
  {
    var n := |xs|;
    assert xs == xs[..n - 1] + [xs[n - 1]];
    ConcatMapAppend(xs[..n - 1], [xs[n - 1]], f);
    ConcatMapSingle(xs[n - 1], f);
  }

  lemma ConcatTwo<T>(x: T, y: T, f: T -> Result<string>)
    requires f(x).Ok? && f(y).Ok?
    ensures ConcatMap([x, y], f) == Ok(f(x).value + f(y).value)
  {
    assert [x, y] == [x] + [y];
    ConcatMapSingle(x, f);
    ConcatMapSingle(y, f);
    ConcatMapAppend([x], [y], f);
  }
}
