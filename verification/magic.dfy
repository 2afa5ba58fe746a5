/**
 The magic variables: entries whose KEY is `date` or `hostname` are computed
 from their value instead of being substituted. The host name and the clock
 are not read here; they arrive in an `Env`.
 */
module Magic {
  import opened Errors
  import opened Text
  import opened OrderedMap
  import opened Substitution

  /**
   What the program reads from the machine: the host name, and the local time
   formatted by a `strftime` pattern (one fixed instant for the whole run).
   */
  datatype Env = Env(host: string, clock: string -> string)

  /** The closed set of magic names. */
  predicate IsMagic(name: string) {
    name == "date" || name == "hostname"
  }

  /**
   The `hostname` magic: the host name itself for an empty argument; otherwise
   the argument stripped of outer whitespace, each space turned into `-`, and
   `{host}` replaced by the host name.
   */
  function Hostname(arg: Value, host: string): (r: Result<string>)
    ensures !Truthy(arg) ==> r == Ok(host)
    ensures Truthy(arg) && !arg.Str? ==> r == Err(WrongType("hostname"))
    ensures Truthy(arg) && arg.Str? && NoBraces(arg.s) ==> r == Ok(ReplaceSpaces(Strip(arg.s)))
    ensures r.Ok? && Truthy(arg) && NoBraces(arg.s) ==> forall i :: 0 <= i < |r.value| ==> r.value[i] != ' '
  {
    if Size(arg) <= 0 then Ok(host)
    else if !arg.Str? then Err(WrongType("hostname"))
    else
      var slug := ReplaceSpaces(Strip(arg.s));
      SlugBraceFree(arg.s, host);
      Format(slug, [("host", Str(host))])
  }

  lemma ReplaceSpacesNoBraces(s: string)
    requires NoBraces(s)
    ensures NoBraces(ReplaceSpaces(s))
  {
    var r := ReplaceSpaces(s);
    assert forall i :: 0 <= i < |r| ==> r[i] == '-' || r[i] == s[i];
  }

  lemma ReplaceSpacesWithout(s: string)
    requires ' ' !in s
    ensures ReplaceSpaces(s) == s
  {
  }

  lemma SlugBraceFree(s: string, host: string)
    ensures NoBraces(s) ==> Format(ReplaceSpaces(Strip(s)), [("host", Str(host))]) == Ok(ReplaceSpaces(Strip(s)))
  {
    var t := Strip(s);
    var i, j :| 0 <= i <= j <= |s| && t == s[i..j];
    if NoBraces(s) {
      NoBracesInfix(s, i, j);
      ReplaceSpacesNoBraces(t);
      FormatBraceFree(ReplaceSpaces(t), [("host", Str(host))]);
    }
  }

  /** The magic function for `name` applied to the entry's value. */
  function Apply(name: string, arg: Value, env: Env): (r: Result<Value>)
    requires IsMagic(name)
    ensures r.Ok? ==> r.value.Str?
    ensures name == "date" ==> (r.Ok? <==> arg.Str?)
    ensures name == "date" && arg.Str? ==> r == Ok(Str(env.clock(arg.s)))
    ensures name == "hostname" ==> (r.Ok? <==> Hostname(arg, env.host).Ok?)
    ensures name == "hostname" && r.Ok? ==> r.value == Str(Hostname(arg, env.host).value)
  {
    if name == "date" then
      if arg.Str? then Ok(Str(env.clock(arg.s))) else Err(WrongType("date"))
    else
      var h :- Hostname(arg, env.host);
      Ok(Str(h))
  }

  /**
   `{host}` inside the argument is replaced by the host name, and the spaces
   around it become hyphens one for one (runs are not collapsed).
   */
  lemma HostnameSubstitutesHost(p: string, q: string, host: string)
    requires NoBraces(p) && NoBraces(q)
    requires p == [] || !IsSpace(p[0])
    requires q == [] || !IsSpace(q[|q| - 1])
    ensures Hostname(Str(p + "{host}" + q), host) == Ok(ReplaceSpaces(p) + host + ReplaceSpaces(q))
  {
    var x := p + "{host}" + q;
    StripFramed(p, q);
    ReplaceFramed(p, q);
    ReplaceSpacesNoBraces(p);
    ReplaceSpacesNoBraces(q);
    FormatHost(ReplaceSpaces(p), ReplaceSpaces(q), host);
    assert Truthy(Str(x));
  }

  lemma StripFramed(p: string, q: string)
    requires p == [] || !IsSpace(p[0])
    requires q == [] || !IsSpace(q[|q| - 1])
    ensures Strip(p + "{host}" + q) == p + "{host}" + q
  {
    var x := p + "{host}" + q;
    assert x[0] == if p == [] then '{' else p[0];
    assert x[|x| - 1] == if q == [] then '}' else q[|q| - 1];
    StripIdentity(x);
  }

  lemma ReplaceFramed(p: string, q: string)
    ensures ReplaceSpaces(p + "{host}" + q) == ReplaceSpaces(p) + "{host}" + ReplaceSpaces(q)
  {
    ReplaceSpacesAppend(p + "{host}", q);
    ReplaceSpacesAppend(p, "{host}");
    ReplaceSpacesWithout("{host}");
  }

  lemma FormatHost(p: string, q: string, host: string)
    requires NoBraces(p) && NoBraces(q)
    ensures Format(p + "{host}" + q, [("host", Str(host))]) == Ok(p + host + q)
  {
    var kw: Dict := [("host", Str(host))];
    assert p + "{host}" + q == p + ("{" + "host" + "}" + q);
    FormatPrefix(p, "{" + "host" + "}" + q, kw);
    assert PlainName("host") by {
      assert !IsDigit("host"[0]);
    }
    assert Lookup(kw, "host") == Some(Str(host));
    FormatField("host", q, kw);
    FormatBraceFree(q, kw);
    assert p + (host + q) == p + host + q;
  }

  /** Two words joined by one space: the space becomes a hyphen. */
  lemma HostnameTwoWords(a: string, b: string, host: string)
    requires a != [] && b != [] && NoBraces(a) && NoBraces(b)
    requires ' ' !in a && ' ' !in b
    requires !IsSpace(a[0]) && !IsSpace(b[|b| - 1])
    ensures Hostname(Str(a + " " + b), host) == Ok(a + "-" + b)
  {
    var x := a + " " + b;
    assert x[0] == a[0] && x[|x| - 1] == b[|b| - 1];
    StripIdentity(x);
    NoBracesAppend(a, " ");
    NoBracesAppend(a + " ", b);
    ReplaceSpacesAppend(a + " ", b);
    ReplaceSpacesAppend(a, " ");
    ReplaceSpacesWithout(a);
    ReplaceSpacesWithout(b);
    assert ReplaceSpaces(" ") == "-";
  }

  /**
   One space of padding on each side goes, and a run of two inner spaces
   gives two hyphens: runs are not collapsed.
   */
  lemma HostnamePaddedRun(a: string, b: string, host: string)
    requires a != [] && b != [] && NoBraces(a) && NoBraces(b)
    requires ' ' !in a && ' ' !in b
    requires !IsSpace(a[0]) && !IsSpace(b[|b| - 1])
    ensures Hostname(Str(" " + a + "  " + b + " "), host) == Ok(a + "--" + b)
  {
    var x := a + "  " + b;
    assert x[0] == a[0] && x[|x| - 1] == b[|b| - 1];
    assert " " + a + "  " + b + " " == " " + x + " ";
    StripPadded(x);
    NoBracesAppend(a, "  ");
    NoBracesAppend(a + "  ", b);
    NoBracesAppend(" ", x);
    NoBracesAppend(" " + x, " ");
    ReplaceSpacesAppend(a + "  ", b);
    ReplaceSpacesAppend(a, "  ");
    ReplaceSpacesWithout(a);
    ReplaceSpacesWithout(b);
    assert ReplaceSpaces("  ") == "--";
  }
}
