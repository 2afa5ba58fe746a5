/**
 The subset of Python's `str.format(**kw)` that the generator relies on:
 `{{` and `}}` stand for literal braces, and `{name}` is replaced by the text
 of `kw[name]`. The string is scanned left to right and the first problem met
 is the error returned, as Python raises at the first bad field.
 */
module Substitution {
  import opened Errors
  import opened Text
  import opened OrderedMap

  /** Index of the first `}` in `s` at or after `i`, or `|s|` when there is none. */
  function CloseIndex(s: string, i: nat): (j: nat)
    requires i <= |s|
    ensures i <= j <= |s|
    ensures j < |s| ==> s[j] == '}'
    ensures forall k :: i <= k < j ==> s[k] != '}'
    decreases |s| - i
  {
    if i == |s| || s[i] == '}' then i else CloseIndex(s, i + 1)
  }

  predicate IsDigit(c: char) {
    '0' <= c <= '9'
  }

  /** Characters that give a field a meaning beyond a plain keyword lookup. */
  predicate IsFieldSyntax(c: char) {
    IsBrace(c) || c == '[' || c == '.' || c == ':' || c == '!'
  }

  /** A field that `format` resolves by looking up a keyword argument. */
  predicate PlainName(n: string) {
    && (forall i :: 0 <= i < |n| ==> !IsFieldSyntax(n[i]))
    && (exists i :: 0 <= i < |n| && !IsDigit(n[i]))
  }

  /**
   The text of the replacement field `{field}`. An empty or all-digit field
   asks for a positional argument, and there never is one.
   */
  function Field(field: string, kw: Dict): (r: Result<string>)
    ensures PlainName(field) && Lookup(kw, field) == None ==> r == Err(UnknownName(field))
    ensures PlainName(field) && Lookup(kw, field).Some? ==> r == Display(field, Lookup(kw, field).value)
    ensures !PlainName(field) ==> r.Err?
  {
    if exists i :: 0 <= i < |field| && IsFieldSyntax(field[i]) then Err(UnsupportedField(field))
    else if forall i :: 0 <= i < |field| ==> IsDigit(field[i]) then Err(PositionalField(field))
    else
      match Lookup(kw, field)
      case None => Err(UnknownName(field))
      case Some(v) => Display(field, v)
  }

  /** Python `s.format(**kw)`, restricted to plain keyword fields. */
  function Format(s: string, kw: Dict): Result<string>
    decreases |s|
  {
    if s == [] then Ok([])
    else if s[0] == '{' then
      if |s| == 1 then Err(SingleBrace('{'))
      else if s[1] == '{' then Prepend("{", Format(s[2..], kw))
      else
        var j := CloseIndex(s, 1);
        if j == |s| then Err(UnterminatedField)
        else
          var v :- Field(s[1..j], kw);
          Prepend(v, Format(s[j + 1..], kw))
    else if s[0] == '}' then
      if |s| >= 2 && s[1] == '}' then Prepend("}", Format(s[2..], kw))
      else Err(SingleBrace('}'))
    else Prepend([s[0]], Format(s[1..], kw))
  }

  /** Brace-free text in front passes through unchanged, success or failure. */
  lemma {:induction false} FormatPrefix(p: string, t: string, kw: Dict)
    requires NoBraces(p)
    ensures Format(p + t, kw) == Prepend(p, Format(t, kw))
    decreases |p|
  {
    if p == [] {
      assert p + t == t;
      var r := Format(t, kw);
      if r.Ok? {
        assert p + r.value == r.value;
      }
    } else {
      var p' := p[1..];
      assert p + t == [p[0]] + (p' + t);
      assert !IsBrace(p[0]);
      FormatPlainChar(p[0], p' + t, kw);
      NoBracesInfix(p, 1, |p|);
      FormatPrefix(p', t, kw);
      AppendAssoc([p[0]], p', Format(t, kw));
      assert [p[0]] + p' == p;
    }
  }

  lemma FormatPlainChar(c: char, s: string, kw: Dict)
    requires !IsBrace(c)
    ensures Format([c] + s, kw) == Prepend([c], Format(s, kw))
  {
    var x := [c] + s;
    assert x[0] == c && x[1..] == s;
  }

  /** Text without braces is its own substitution: substituting is a no-op on it, and so idempotent. */
  lemma FormatBraceFree(s: string, kw: Dict)
    requires NoBraces(s)
    ensures Format(s, kw) == Ok(s)
    ensures Format(Format(s, kw).value, kw) == Ok(s)
  {
    FormatPrefix(s, [], kw);
    assert s + [] == s;
  }

  /**
   A text that substitutes successfully is complete on its own: whatever
   follows it is substituted independently and appended.
   */
  lemma {:induction false} FormatAppend(a: string, b: string, kw: Dict)
    requires Format(a, kw).Ok?
    ensures Format(a + b, kw) == Prepend(Format(a, kw).value, Format(b, kw))
    decreases |a|
  {
    var ab := a + b;
    if a == [] {
      assert ab == b;
      if Format(b, kw).Ok? {
        assert [] + Format(b, kw).value == Format(b, kw).value;
      }
    } else if a[0] == '{' {
      assert |a| >= 2;
      assert ab[0] == '{' && ab[1] == a[1];
      if a[1] == '{' {
        assert ab[2..] == a[2..] + b;
        FormatAppend(a[2..], b, kw);
        AppendAssoc("{", Format(a[2..], kw).value, Format(b, kw));
      } else {
        var j := CloseIndex(a, 1);
        assert j < |a|;
        CloseIndexAppend(a, b, 1);
        assert ab[1..j] == a[1..j];
        assert ab[j + 1..] == a[j + 1..] + b;
        var v := Field(a[1..j], kw).value;
        FormatAppend(a[j + 1..], b, kw);
        AppendAssoc(v, Format(a[j + 1..], kw).value, Format(b, kw));
      }
    } else if a[0] == '}' {
      assert |a| >= 2 && a[1] == '}';
      assert ab[0] == '}' && ab[1] == '}';
      assert ab[2..] == a[2..] + b;
      FormatAppend(a[2..], b, kw);
      AppendAssoc("}", Format(a[2..], kw).value, Format(b, kw));
    } else {
      assert ab[0] == a[0];
      assert ab[1..] == a[1..] + b;
      FormatAppend(a[1..], b, kw);
      AppendAssoc([a[0]], Format(a[1..], kw).value, Format(b, kw));
    }
  }

  lemma CloseIndexAppend(a: string, b: string, i: nat)
    requires i <= |a|
    requires CloseIndex(a, i) < |a|
    ensures CloseIndex(a + b, i) == CloseIndex(a, i)
    decreases |a| - i
  {
    assert (a + b)[i] == a[i];
    if a[i] != '}' {
      CloseIndexAppend(a, b, i + 1);
    }
  }

  lemma CloseIndexNone(s: string, i: nat)
    requires i <= |s|
    requires forall k :: i <= k < |s| ==> s[k] != '}'
    ensures CloseIndex(s, i) == |s|
    decreases |s| - i
  {
    if i < |s| {
      CloseIndexNone(s, i + 1);
    }
  }

  lemma CloseIndexNoBraces(a: string, b: string, i: nat)
    requires i <= |a|
    requires CloseIndex(a, i) == |a|
    requires NoBraces(b)
    ensures CloseIndex(a + b, i) == |a + b|
  {
    forall k | i <= k < |a + b|
      ensures (a + b)[k] != '}'
    {
      if k < |a| {
        assert (a + b)[k] == a[k];
      } else {
        assert (a + b)[k] == b[k - |a|];
      }
    }
    CloseIndexNone(a + b, i);
  }

  /**
   A failing text keeps failing when brace-free text is appended: the
   appended text can never complete what the failing text left open.
   */
  lemma {:induction false} FormatAppendErr(t: string, s: string, kw: Dict)
    requires Format(t, kw).Err?
    requires NoBraces(s)
    ensures Format(t + s, kw).Err?
    decreases |t|
  {
    var ts := t + s;
    assert t != [];
    assert ts[0] == t[0];
    if s == [] {
      assert ts == t;
    } else if t[0] == '{' {
      if |t| == 1 {
        assert ts[1] == s[0];
        assert !IsBrace(s[0]);
        CloseIndexNoBraces(t, s, 1);
      } else if t[1] == '{' {
        assert ts[1] == '{';
        assert ts[2..] == t[2..] + s;
        FormatAppendErr(t[2..], s, kw);
      } else {
        assert ts[1] == t[1];
        var j := CloseIndex(t, 1);
        if j == |t| {
          CloseIndexNoBraces(t, s, 1);
        } else {
          CloseIndexAppend(t, s, 1);
          assert ts[1..j] == t[1..j];
          if Field(t[1..j], kw).Ok? {
            assert ts[j + 1..] == t[j + 1..] + s;
            FormatAppendErr(t[j + 1..], s, kw);
          }
        }
      }
    } else if t[0] == '}' {
      if |t| >= 2 && t[1] == '}' {
        assert ts[1] == '}';
        assert ts[2..] == t[2..] + s;
        FormatAppendErr(t[2..], s, kw);
      } else if |t| == 1 {
        assert ts[1] == s[0];
        assert !IsBrace(s[0]);
      } else {
        assert ts[1] == t[1];
      }
    } else {
      assert ts[1..] == t[1..] + s;
      FormatAppendErr(t[1..], s, kw);
    }
  }

  /**
   Substituting a text framed by brace-free text: it succeeds exactly when the
   framed text does, and the frame is kept around the framed text's substitution.
   */
  lemma FormatFramed(p: string, x: string, s: string, kw: Dict)
    requires NoBraces(p) && NoBraces(s)
    ensures Format(p + x + s, kw).Ok? <==> Format(x, kw).Ok?
    ensures Format(x, kw).Ok? ==> Format(p + x + s, kw) == Ok(p + Format(x, kw).value + s)
  {
    assert p + x + s == p + (x + s);
    FormatPrefix(p, x + s, kw);
    if Format(x, kw).Ok? {
      FormatAppend(x, s, kw);
      FormatBraceFree(s, kw);
      assert p + (Format(x, kw).value + s) == p + Format(x, kw).value + s;
    } else {
      FormatAppendErr(x, s, kw);
    }
  }

  /** A `{name}` field is replaced by the text of the named value, then scanning goes on. */
  lemma FormatField(n: string, rest: string, kw: Dict)
    requires PlainName(n)
    ensures Format("{" + n + "}" + rest, kw) ==
      if Field(n, kw).Ok? then Prepend(Field(n, kw).value, Format(rest, kw)) else Err(Field(n, kw).error)
  {
    var s := "{" + n + "}" + rest;
    var e :| 0 <= e < |n| && !IsDigit(n[e]);
    assert s[1] == n[0];
    assert n[0] != '{';
    forall k | 1 <= k < |n| + 1
      ensures s[k] != '}'
    {
      assert s[k] == n[k - 1];
    }
    assert s[|n| + 1] == '}';
    CloseIndexAt(s, 1, |n| + 1);
    assert s[1..|n| + 1] == n;
    assert s[|n| + 2..] == rest;
  }

  lemma CloseIndexAt(s: string, i: nat, j: nat)
    requires i <= j < |s|
    requires s[j] == '}'
    requires forall k :: i <= k < j ==> s[k] != '}'
    ensures CloseIndex(s, i) == j
    decreases j - i
  {
    if i < j {
      CloseIndexAt(s, i + 1, j);
    }
  }

  /**
   A placeholder for a name the mapping lacks is an error, never an empty
   substitution.
   */
  lemma FormatUnknownName(p: string, n: string, rest: string, kw: Dict)
    requires NoBraces(p)
    requires PlainName(n)
    requires Lookup(kw, n) == None
    ensures Format(p + "{" + n + "}" + rest, kw) == Err(UnknownName(n))
  {
    assert p + "{" + n + "}" + rest == p + ("{" + n + "}" + rest);
    FormatPrefix(p, "{" + n + "}" + rest, kw);
    FormatField(n, rest, kw);
  }

  /** Doubled braces stand for single ones: substitution undoes `Escape` whatever the mapping. */
  lemma {:induction false} FormatEscape(t: string, kw: Dict)
    ensures Format(Escape(t), kw) == Ok(t)
    decreases |t|
  {
    if t != [] {
      var e := Escape(t);
      FormatEscape(t[1..], kw);
      if IsBrace(t[0]) {
        assert e[0] == t[0] && e[1] == t[0];
        assert e[2..] == Escape(t[1..]);
      } else {
        assert e[0] == t[0];
        assert e[1..] == Escape(t[1..]);
      }
      assert [t[0]] + t[1..] == t;
    }
  }

  /** Each text substituted on its own, as a loop calling `format` once per item does. */
  function FormatEach(items: seq<string>, kw: Dict): (r: Result<seq<string>>)
    ensures r.Ok? <==> forall i :: 0 <= i < |items| ==> Format(items[i], kw).Ok?
    ensures r.Ok? ==> |r.value| == |items| && forall i :: 0 <= i < |items| ==> Ok(r.value[i]) == Format(items[i], kw)
    ensures r.Err? ==> exists i :: 0 <= i < |items| && Format(items[i], kw) == Err(r.error)
  {
    if items == [] then Ok([])
    else
      var first :- Format(items[0], kw);
      var rest :- FormatEach(items[1..], kw);
      Ok([first] + rest)
  }
}
