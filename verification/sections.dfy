/**
 The sections of the boot entry. Each section is taken out of the
 configuration, resolved against the namespace, and turned into a fragment of
 GRUB script text. Several fragments are substituted a second time as a
 whole, so a placeholder may be written with doubled braces to survive the
 first pass and be filled in by the second.
 */
module Sections {
  import opened Errors
  import opened Text
  import opened OrderedMap
  import opened Substitution
  import opened Magic
  import opened Resolution

  // ------------------------------------------------------------------
  // menuentry: the class flags
  // ------------------------------------------------------------------

  /** `--class v1 --class v2 …`: one flag per class name, single spaces between. */
  function Flags(vs: seq<string>): string {
    if |vs| == 0 then ""
    else if |vs| == 1 then "--class " + vs[0]
    else "--class " + vs[0] + " " + Flags(vs[1..])
  }

  /** One turn of the class loop: the flag for one name with its trailing space, substituted. */
  function ClassPiece(ns: Dict): string -> Result<string> {
    i => Format("--class " + i + " ", ns)
  }

  /**
   The class loop and the final strip: every class name is substituted on its
   own, and the flags come out in order with no trailing space.
   */
  function ClassFlags(items: seq<string>, ns: Dict): (r: Result<string>)
    ensures r.Ok? <==> FormatEach(items, ns).Ok?
    ensures r.Ok? ==> r.value == Strip(Flags(FormatEach(items, ns).value))
  {
    ClassPiecesOk(items, ns);
    var tmp :- ConcatMap(items, ClassPiece(ns));
    ClassPiecesFlags(items, ns);
    if items == [] then Ok(Strip(tmp))
    else
      var vs := FormatEach(items, ns).value;
      StripTrailingSpace(Flags(vs), ' ');
      Ok(Strip(tmp))
  }

  lemma ClassPieceFramed(i: string, ns: Dict)
    ensures ClassPiece(ns)(i).Ok? <==> Format(i, ns).Ok?
    ensures Format(i, ns).Ok? ==> ClassPiece(ns)(i) == Ok("--class " + Format(i, ns).value + " ")
  {
    assert NoBraces("--class ") by {
      assert forall k :: 0 <= k < |"--class "| ==> "--class "[k] in "-clas ";
    }
    assert NoBraces(" ");
    FormatFramed("--class ", i, " ", ns);
  }

  lemma ClassPiecesOk(items: seq<string>, ns: Dict)
    ensures ConcatMap(items, ClassPiece(ns)).Ok? <==> FormatEach(items, ns).Ok?
  {
    forall k | 0 <= k < |items|
      ensures ClassPiece(ns)(items[k]).Ok? <==> Format(items[k], ns).Ok?
    {
      ClassPieceFramed(items[k], ns);
    }
  }

  /** The loop's text is the flags followed by one space, which `strip` then removes. */
  lemma {:induction false} ClassPiecesFlags(items: seq<string>, ns: Dict)
    requires FormatEach(items, ns).Ok?
    ensures ConcatMap(items, ClassPiece(ns)).Ok?
    ensures items != [] ==> ConcatMap(items, ClassPiece(ns)).value == Flags(FormatEach(items, ns).value) + " "
    ensures items == [] ==> ConcatMap(items, ClassPiece(ns)).value == ""
  {
    ClassPiecesOk(items, ns);
    if items != [] {
      var vs := FormatEach(items, ns).value;
      ClassPieceFramed(items[0], ns);
      assert Format(items[0], ns) == Ok(vs[0]);
      var rest := items[1..];
      assert forall k :: 0 <= k < |rest| ==> rest[k] == items[k + 1];
      assert FormatEach(rest, ns).Ok?;
      var ws := FormatEach(rest, ns).value;
      assert ws == vs[1..] by {
        assert forall k :: 0 <= k < |ws| ==> Ok(ws[k]) == Format(items[k + 1], ns) == Ok(vs[k + 1]);
      }
      if rest != [] {
        ClassPiecesFlags(rest, ns);
        assert ("--class " + vs[0] + " ") + (Flags(ws) + " ") == Flags(vs) + " ";
      } else {
        assert ConcatMap(rest, ClassPiece(ns)) == Ok("");
        assert |vs| == 1;
        assert ("--class " + vs[0] + " ") + "" == Flags(vs) + " ";
      }
    }
  }

  lemma {:induction false} FlagsShape(vs: seq<string>)
    requires vs != [] && vs[|vs| - 1] != []
    ensures |Flags(vs)| > 0 && Flags(vs)[0] == '-'
    ensures Flags(vs)[|Flags(vs)| - 1] == vs[|vs| - 1][|vs[|vs| - 1]| - 1]
  {
    if |vs| > 1 {
      FlagsShape(vs[1..]);
    }
  }

  /** When the last class name ends in a visible character, nothing but the trailing space is stripped. */
  lemma ClassFlagsExact(items: seq<string>, ns: Dict, vs: seq<string>)
    requires FormatEach(items, ns) == Ok(vs)
    requires vs != [] && vs[|vs| - 1] != []
    requires !IsSpace(vs[|vs| - 1][|vs[|vs| - 1]| - 1])
    ensures ClassFlags(items, ns) == Ok(Flags(vs))
  {
    FlagsShape(vs);
    StripIdentity(Flags(vs));
  }

  /**
   The menuentry section: resolved against the namespace, then a truthy
   `class` entry is replaced, in its place, by the flags of its items.
   */
  function MenuEntry(v: Value, ns: Dict, env: Env): (r: Result<Dict>)
    ensures r.Ok? ==> v.Object? && Resolve(v.entries, ns, env).Ok?
    ensures r.Ok? ==> Keys(r.value) == Keys(v.entries)
    ensures r.Ok? ==> forall k :: k != "class" ==> Lookup(r.value, k) == Lookup(Resolve(v.entries, ns, env).value, k)
    ensures r.Ok? ==> var mv := Resolve(v.entries, ns, env).value;
      match Get(mv, "class")
      case None => r.value == mv
      case Some(c) =>
        FormatEach(Items(c), ns).Ok? &&
        Lookup(r.value, "class") == Some(Str(Strip(Flags(FormatEach(Items(c), ns).value))))
  {
    var d :- AsObject("menuentry", v);
    var mv :- Resolve(d, ns, env);
    WithFlags(mv, ns)
  }

  /** Lines 100-104 on their own: a truthy `class` entry becomes its flags string. */
  function WithFlags(mv: Dict, ns: Dict): (r: Result<Dict>)
    ensures Get(mv, "class").None? ==> r == Ok(mv)
    ensures Get(mv, "class").Some? ==> (r.Ok? <==> FormatEach(Items(Get(mv, "class").value), ns).Ok?)
    ensures r.Ok? ==> Keys(r.value) == Keys(mv)
    ensures r.Ok? ==> forall k :: k != "class" ==> Lookup(r.value, k) == Lookup(mv, k)
    ensures r.Ok? && Get(mv, "class").Some? ==>
      var vs := FormatEach(Items(Get(mv, "class").value), ns).value;
      Lookup(r.value, "class") == Some(Str(Strip(Flags(vs))))
  {
    match Get(mv, "class")
    case None => Ok(mv)
    case Some(c) =>
      var flags :- ClassFlags(Items(c), ns);
      PutLookup(mv, "class", Str(flags), "class");
      PutOthers(mv, "class", Str(flags));
      PutExisting(mv, "class", Str(flags));
      Ok(Put(mv, "class", Str(flags)))
  }

  // ------------------------------------------------------------------
  // set
  // ------------------------------------------------------------------

  /** One `key=value` assignment of the set line. */
  function SetPair(e: (string, Value)): (r: Result<string>)
    ensures r.Ok? <==> Display(e.0, e.1).Ok?
    ensures e.1.Str? ==> r == Ok(e.0 + "=" + e.1.s)
  {
    var s :- Display(e.0, e.1);
    Ok(e.0 + "=" + s)
  }

  /**
   The set fragment: the assignments glued together with no separator, then
   substituted once more as a whole. An empty section is a type error in the
   program (the dict itself would be concatenated to a string); it cannot reach
   this point, because an empty section is already a missing one.
   */
  function SetFragment(sv: Dict, ns: Dict): (r: Result<string>)
    ensures sv == [] ==> r == Err(WrongType("set"))
    ensures r.Ok? ==> ConcatMap(sv, SetPair).Ok?
    ensures sv != [] && ConcatMap(sv, SetPair).Err? ==> r == Err(ConcatMap(sv, SetPair).error)
    ensures sv != [] && ConcatMap(sv, SetPair).Ok? ==> r == Format(ConcatMap(sv, SetPair).value, ns)
  {
    if |sv| == 0 then Err(WrongType("set"))
    else
      var line :- ConcatMap(sv, SetPair);
      Format(line, ns)
  }

  /** When the glued assignments hold no braces, the fragment is that line verbatim. */
  lemma SetFragmentVerbatim(sv: Dict, ns: Dict)
    requires sv != [] && ConcatMap(sv, SetPair).Ok?
    requires NoBraces(ConcatMap(sv, SetPair).value)
    ensures SetFragment(sv, ns) == ConcatMap(sv, SetPair)
  {
    FormatBraceFree(ConcatMap(sv, SetPair).value, ns);
  }

  /** Every value of the section is a string. */
  predicate AllStrings(sv: Dict) {
    forall i :: 0 <= i < |sv| ==> sv[i].1.Str?
  }

  /** The `key=value` assignments written one after the other, built from the last one back. */
  function Assignments(sv: Dict): string
    requires AllStrings(sv)
    decreases |sv|
  {
    if sv == [] then ""
    else
      var n := |sv| - 1;
      Assignments(sv[..n]) + sv[n].0 + "=" + sv[n].1.s
  }

  lemma {:induction false} GluedAssignments(sv: Dict)
    requires AllStrings(sv)
    ensures ConcatMap(sv, SetPair) == Ok(Assignments(sv))
    decreases |sv|
  {
    if sv != [] {
      var n := |sv| - 1;
      GluedAssignments(sv[..n]);
      assert SetPair(sv[n]) == Ok(sv[n].0 + "=" + sv[n].1.s);
      ConcatMapLast(sv, SetPair);
      assert Assignments(sv[..n]) + sv[n].0 + "=" + sv[n].1.s == Assignments(sv[..n]) + (sv[n].0 + "=" + sv[n].1.s);
    }
  }

  /** A section of brace-free string assignments renders as those assignments, glued. */
  lemma SetLine(sv: Dict, ns: Dict)
    requires sv != [] && AllStrings(sv) && NoBraces(Assignments(sv))
    ensures SetFragment(sv, ns) == Ok(Assignments(sv))
  {
    GluedAssignments(sv);
    SetFragmentVerbatim(sv, ns);
  }

  /** The set section from the configuration value to its text. */
  function SetSection(v: Value, ns: Dict, env: Env): (r: Result<string>)
    ensures r.Ok? ==> v.Object? && Resolve(v.entries, ns, env).Ok?
    ensures r.Ok? ==> SetFragment(Resolve(v.entries, ns, env).value, ns) == r
  {
    var d :- AsObject("set", v);
    var sv :- Resolve(d, ns, env);
    SetFragment(sv, ns)
  }

  /**
   A set value is substituted twice: `{{n}}` becomes `{n}` while the section
   is resolved, and the value of `n` when the glued line is substituted.
   */
  lemma SetSubstitutesTwice(k: string, n: string, w: string, ns: Dict, env: Env)
    requires !IsMagic(k) && NoBraces(k)
    requires PlainName(n) && Lookup(ns, n) == Some(Str(w))
    ensures SetSection(Object([(k, Str("{{" + n + "}}"))]), ns, env)
         == if Lookup(ns, ParamName).Some? then Err(DuplicateArgument(ParamName)) else Ok(k + "=" + w)
  {
    var once := "{" + n + "}";
    ResolveEscaped(k, n, ns, env);
    ConcatMapSingle((k, Str(once)), SetPair);
    NoBracesAppend(k, "=");
    assert k + "=" + once == (k + "=") + ("{" + n + "}" + "");
    FormatPrefix(k + "=", "{" + n + "}" + "", ns);
    FormatField(n, "", ns);
    assert w + "" == w;
  }

  /** Resolving a doubled-brace placeholder leaves the single-brace placeholder. */
  lemma ResolveEscaped(k: string, n: string, ns: Dict, env: Env)
    requires !IsMagic(k) && PlainName(n)
    ensures ResolveEntries([(k, Str("{{" + n + "}}"))], ns, env) == Ok([(k, Str("{" + n + "}"))])
  {
    var once := "{" + n + "}";
    EscapePlaceholder(n);
    FormatEscape(once, ns);
    var d: Dict := [(k, Str("{{" + n + "}}"))];
    assert ResolveValue(k, Str("{{" + n + "}}"), ns, env) == Ok(Str(once));
    ResolveCons(d[0], [], ns, env, Str(once), []);
    assert [d[0]] + [] == d;
    assert [(k, Str(once))] + [] == [(k, Str(once))];
  }

  /** A plain name escapes to itself wrapped in doubled braces. */
  lemma EscapePlaceholder(n: string)
    requires PlainName(n)
    ensures Escape("{" + n + "}") == "{{" + n + "}}"
  {
    assert NoBraces(n) by {
      assert forall i :: 0 <= i < |n| ==> !IsFieldSyntax(n[i]);
    }
    EscapeNoBraces(n);
    assert "{" + n + "}" == "{" + (n + "}");
    EscapeAppend("{", n + "}");
    EscapeAppend(n, "}");
    assert Escape("{") == "{{" by {
      assert "{"[1..] == [];
    }
    assert Escape("}") == "}}" by {
      assert "}"[1..] == [];
    }
  }

  // ------------------------------------------------------------------
  // insmod
  // ------------------------------------------------------------------

  /** One `insmod` line per module name, tab-indented and ended by `\n\r`. */
  function InsmodLines(ms: seq<string>): string {
    if ms == [] then "" else "\tinsmod " + ms[0] + "\n\r" + InsmodLines(ms[1..])
  }

  lemma {:induction false} InsmodLinesAppend(a: seq<string>, b: seq<string>)
    ensures InsmodLines(a + b) == InsmodLines(a) + InsmodLines(b)
  {
    if a == [] {
      assert a + b == b;
    } else {
      assert (a + b)[0] == a[0];
      assert (a + b)[1..] == a[1..] + b;
      InsmodLinesAppend(a[1..], b);
    }
  }

  /**
   The insmod fragment: the lines for the items of the section (no
   resolution), substituted as one text. When every name substitutes on its
   own, the result is the lines of the substituted names.
   */
  function InsmodFragment(v: Value, ns: Dict): (r: Result<string>)
    ensures !Truthy(v) ==> r == Ok("")
    ensures FormatEach(Items(v), ns).Ok? ==> r == Ok(InsmodLines(FormatEach(Items(v), ns).value))
  {
    InsmodEach(Items(v), ns);
    Format(InsmodLines(Items(v)), ns)
  }

  lemma {:induction false} InsmodEach(ms: seq<string>, ns: Dict)
    ensures FormatEach(ms, ns).Ok? ==> Format(InsmodLines(ms), ns) == Ok(InsmodLines(FormatEach(ms, ns).value))
  {
    if ms != [] && FormatEach(ms, ns).Ok? {
      var rest := ms[1..];
      var v := Format(ms[0], ns).value;
      var ws := FormatEach(rest, ns).value;
      var vs := [v] + ws;
      assert FormatEach(ms, ns).value == vs;
      InsmodEach(rest, ns);
      InsmodLine(ms[0], ns);
      FormatAppend("\tinsmod " + ms[0] + "\n\r", InsmodLines(rest), ns);
      assert vs[0] == v && vs[1..] == ws;
    }
  }

  lemma InsmodLine(m: string, ns: Dict)
    requires Format(m, ns).Ok?
    ensures Format("\tinsmod " + m + "\n\r", ns) == Ok("\tinsmod " + Format(m, ns).value + "\n\r")
  {
    assert NoBraces("\tinsmod ");
    assert NoBraces("\n\r");
    FormatFramed("\tinsmod ", m, "\n\r", ns);
  }

  // ------------------------------------------------------------------
  // search
  // ------------------------------------------------------------------

  /** One `key=value ` pair of the search line: `=` only for a non-empty value, always a trailing space. */
  function SearchPair(e: (string, Value)): (r: Result<string>)
    ensures r.Ok? <==> Display(e.0, e.1).Ok?
    ensures e.1.Str? ==> r == Ok(Strip(e.0) + (if e.1.s == [] then "" else "=" + e.1.s) + " ")
    ensures r.Ok? ==> |r.value| > 0 && r.value[|r.value| - 1] == ' '
  {
    var s :- Display(e.0, e.1);
    var t := Strip(e.0) + (if Size(e.1) >= 1 then "=" else "") + s + " ";
    PairText(Strip(e.0), s);
    Ok(t)
  }

  lemma PairText(k: string, s: string)
    ensures k + (if |s| >= 1 then "=" else "") + s + " " == k + (if s == [] then "" else "=" + s) + " "
  {
    if s == [] {
      assert k + "" + s == k + "";
    } else {
      assert k + "=" + s == k + ("=" + s);
    }
  }

  /** One search word: the stripped key, `=value` for a non-empty value, and a space. */
  function SearchWord(k: string, v: string): string {
    Strip(k) + (if v == [] then "" else "=" + v) + " "
  }

  /** The search words written one after another, built from the last pair back. */
  function SearchWords(sv: Dict): string
    requires AllStrings(sv)
    decreases |sv|
  {
    if sv == [] then ""
    else
      var n := |sv| - 1;
      SearchWords(sv[..n]) + SearchWord(sv[n].0, sv[n].1.s)
  }

  lemma {:induction false} GluedSearch(sv: Dict)
    requires AllStrings(sv)
    ensures ConcatMap(sv, SearchPair) == Ok(SearchWords(sv))
    decreases |sv|
  {
    if sv != [] {
      var n := |sv| - 1;
      GluedSearch(sv[..n]);
      assert SearchPair(sv[n]) == Ok(SearchWord(sv[n].0, sv[n].1.s));
      ConcatMapLast(sv, SearchPair);
    }
  }

  /** A search section of brace-free string values renders as the lead and its words, verbatim. */
  lemma SearchLine(sv: Dict, ns: Dict)
    requires AllStrings(sv) && NoBraces(SearchWords(sv))
    ensures SearchFragment(sv, ns) == Ok("   search " + SearchWords(sv))
  {
    GluedSearch(sv);
    FormatBraceFree(SearchWords(sv), ns);
  }

  /**
   The search fragment: the fixed lead, then the pairs, substituted once more
   as a whole. The lead survives untouched, and so does the last pair's space.
   */
  function SearchFragment(sv: Dict, ns: Dict): (r: Result<string>)
    ensures r.Ok? ==> ConcatMap(sv, SearchPair).Ok?
    ensures ConcatMap(sv, SearchPair).Ok? ==> r == Prepend("   search ", Format(ConcatMap(sv, SearchPair).value, ns))
    ensures r.Ok? ==> "   search " <= r.value
    ensures r.Ok? && sv != [] ==> r.value[|r.value| - 1] == ' '
  {
    var body :- ConcatMap(sv, SearchPair);
    SearchLead(body, ns);
    SearchTail(sv, ns);
    Format("   search " + body, ns)
  }

  lemma SearchTail(sv: Dict, ns: Dict)
    ensures sv != [] && ConcatMap(sv, SearchPair).Ok? ==>
      var q := Format("   search " + ConcatMap(sv, SearchPair).value, ns);
      q.Ok? ==> |q.value| > 0 && q.value[|q.value| - 1] == ' '
  {
    if sv != [] && ConcatMap(sv, SearchPair).Ok? {
      var body := ConcatMap(sv, SearchPair).value;
      SearchLead(body, ns);
      SearchEndsInSpace(sv, ns);
      if Format(body, ns).Ok? {
        LastOfPrepend("   search ", Format(body, ns));
      }
    }
  }

  lemma SearchLead(body: string, ns: Dict)
    ensures Format("   search " + body, ns) == Prepend("   search ", Format(body, ns))
    ensures Format(body, ns).Ok? ==> "   search " <= "   search " + Format(body, ns).value
  {
    assert NoBraces("   search ");
    FormatPrefix("   search ", body, ns);
  }

  lemma LastOfPrepend(p: string, r: Result<string>)
    requires r.Ok? && |r.value| > 0
    ensures var q := Prepend(p, r).value; q[|q| - 1] == r.value[|r.value| - 1]
  {
  }

  /** The substituted pairs still end in the last pair's space. */
  lemma SearchEndsInSpace(sv: Dict, ns: Dict)
    requires sv != [] && ConcatMap(sv, SearchPair).Ok?
    ensures Format(ConcatMap(sv, SearchPair).value, ns).Ok? ==>
      var t := Format(ConcatMap(sv, SearchPair).value, ns).value;
      |t| > 0 && t[|t| - 1] == ' '
  {
    ConcatMapLast(sv, SearchPair);
    var front := ConcatMap(sv[..|sv| - 1], SearchPair).value;
    var last := SearchPair(sv[|sv| - 1]).value;
    SplitLast(front, last);
    FormatEndsInSpace(front + last[..|last| - 1], ns);
  }

  lemma SplitLast(a: string, b: string)
    requires |b| > 0
    ensures a + b == (a + b[..|b| - 1]) + [b[|b| - 1]]
  {
    assert b == b[..|b| - 1] + [b[|b| - 1]];
  }

  /** A trailing space is copied through by the substitution. */
  lemma FormatEndsInSpace(head: string, ns: Dict)
    ensures Format(head + [' '], ns).Ok? ==>
      var t := Format(head + [' '], ns).value;
      |t| > 0 && t[|t| - 1] == ' '
  {
    assert NoBraces([' ']);
    if Format(head, ns).Ok? {
      FormatAppend(head, [' '], ns);
      FormatBraceFree([' '], ns);
    } else {
      FormatAppendErr(head, [' '], ns);
    }
  }

  /** The search section from the configuration value to its text. */
  function SearchSection(v: Value, ns: Dict, env: Env): (r: Result<string>)
    ensures r.Ok? ==> v.Object? && Resolve(v.entries, ns, env).Ok?
    ensures r.Ok? ==> SearchFragment(Resolve(v.entries, ns, env).value, ns) == r
  {
    var d :- AsObject("search", v);
    var sv :- Resolve(d, ns, env);
    SearchFragment(sv, ns)
  }

  // ------------------------------------------------------------------
  // kernel and initramfs
  // ------------------------------------------------------------------

  /** The `echo "title"` line, present only for a truthy title, substituted once more. */
  function TitlePart(kv: Dict, ns: Dict): (r: Result<string>)
    ensures Get(kv, "title").None? ==> r == Ok("")
    ensures Get(kv, "title").Some? && Get(kv, "title").value.Str? ==>
      var t := Get(kv, "title").value.s;
      && (r.Ok? <==> Format(t, ns).Ok?)
      && (r.Ok? ==> r.value == "echo \"" + Format(t, ns).value + "\"\n\r")
    ensures r.Ok? && Get(kv, "title").Some? ==> "echo \"" <= r.value
  {
    match Get(kv, "title")
    case None => Ok("")
    case Some(t) =>
      var s :- Display("title", t);
      assert NoBraces("echo \"");
      assert NoBraces("\"");
      FormatFramed("echo \"", s, "\"", ns);
      var line :- Format("echo \"" + s + "\"", ns);
      Ok(line + "\n\r")
  }

  /** The boot line (`linux` or `initrd` and the file), present only for a truthy entry. */
  function BootPart(kv: Dict, ns: Dict, bootKey: string): (r: Result<string>)
    ensures Get(kv, bootKey).None? ==> r == Ok("")
    ensures Get(kv, bootKey).Some? && Get(kv, bootKey).value.Str? && NoBraces(bootKey) ==>
      r == Prepend("\t" + bootKey + " ", Format(Get(kv, bootKey).value.s, ns))
  {
    match Get(kv, bootKey)
    case None => Ok("")
    case Some(b) =>
      var s :- Display(bootKey, b);
      BootLead(bootKey, s, ns);
      Format("\t" + bootKey + " " + s, ns)
  }

  /** A brace-free boot keyword and its framing pass through the substitution untouched. */
  lemma BootLead(bootKey: string, s: string, ns: Dict)
    ensures NoBraces(bootKey) ==> Format("\t" + bootKey + " " + s, ns) == Prepend("\t" + bootKey + " ", Format(s, ns))
  {
    if NoBraces(bootKey) {
      NoBracesAppend("\t", bootKey);
      NoBracesAppend("\t" + bootKey, " ");
      assert "\t" + bootKey + " " + s == ("\t" + bootKey + " ") + s;
      FormatPrefix("\t" + bootKey + " ", s, ns);
    }
  }

  /**
   One kernel option: ` key=value` for the kernel, `key=value` with no
   leading space for the initramfs; `=` only for a non-empty value.
   */
  function OptionPiece(e: (string, Value), ns: Dict, spaced: bool): (r: Result<string>)
    ensures r.Ok? ==> Display(e.0, e.1).Ok?
    ensures e.1.Str? ==> r == Prepend(if spaced then " " else "",
      Format(Strip(e.0) + (if e.1.s == [] then "" else "=" + e.1.s), ns))
  {
    var s :- Display(e.0, e.1);
    var lead := if spaced then " " else "";
    var body := Strip(e.0) + (if Size(e.1) >= 1 then "=" else "") + s;
    assert e.1.Str? && e.1.s != [] ==> body == Strip(e.0) + ("=" + e.1.s);
    assert e.1.Str? && e.1.s == [] ==> body == Strip(e.0) + "";
    assert NoBraces(lead);
    FormatPrefix(lead, body, ns);
    Format(lead + body, ns)
  }

  function OptionPieceOf(ns: Dict, spaced: bool): ((string, Value)) -> Result<string> {
    e => OptionPiece(e, ns, spaced)
  }

  /** The options, in order and with no separator beyond each piece's own lead. */
  function OptionsPart(kv: Dict, ns: Dict, spaced: bool): (r: Result<string>)
    ensures Get(kv, "options").None? ==> r == Ok("")
    ensures Get(kv, "options").Some? && !Get(kv, "options").value.Object? ==> r == Err(WrongType("options"))
    ensures Get(kv, "options").Some? && Get(kv, "options").value.Object? ==>
      r == ConcatMap(Get(kv, "options").value.entries, OptionPieceOf(ns, spaced))
  {
    match Get(kv, "options")
    case None => Ok("")
    case Some(o) =>
      var od :- AsObject("options", o);
      ConcatMap(od, OptionPieceOf(ns, spaced))
  }

  /**
   The kernel or initramfs fragment: title line, boot line and options, each
   only when truthy, in that order.
   */
  function BootFragment(kv: Dict, ns: Dict, bootKey: string, spaced: bool): (r: Result<string>)
    ensures Get(kv, "title").None? && Get(kv, bootKey).None? && Get(kv, "options").None? ==> r == Ok("")
    ensures r.Ok? <==> TitlePart(kv, ns).Ok? && BootPart(kv, ns, bootKey).Ok? && OptionsPart(kv, ns, spaced).Ok?
    ensures r.Ok? ==> r.value == TitlePart(kv, ns).value + BootPart(kv, ns, bootKey).value + OptionsPart(kv, ns, spaced).value
    ensures r.Ok? && Get(kv, "title").Some? ==> "echo \"" <= r.value
    ensures r.Ok? && Get(kv, "title").None? && Get(kv, bootKey).Some? && Get(kv, bootKey).value.Str? && NoBraces(bootKey) ==>
      "\t" + bootKey + " " <= r.value
    ensures r.Ok? ==> var o := OptionsPart(kv, ns, spaced).value;
      |o| <= |r.value| && r.value[|r.value| - |o|..] == o
  {
    var t :- TitlePart(kv, ns);
    var b :- BootPart(kv, ns, bootKey);
    var o :- OptionsPart(kv, ns, spaced);
    assert (t + b + o)[|t + b + o| - |o|..] == o;
    Ok(t + b + o)
  }

  /** The kernel section: the boot line is `linux`, and each option has a leading space. */
  function KernelSection(v: Value, ns: Dict, env: Env): (r: Result<string>)
    ensures r.Ok? ==> v.Object? && Resolve(v.entries, ns, env).Ok?
    ensures r.Ok? ==> BootFragment(Resolve(v.entries, ns, env).value, ns, "linux", true) == r
  {
    var d :- AsObject("kernel", v);
    var kv :- Resolve(d, ns, env);
    BootFragment(kv, ns, "linux", true)
  }

  /** The initramfs section: the boot line is `initrd`, and options are glued together. */
  function InitramfsSection(v: Value, ns: Dict, env: Env): (r: Result<string>)
    ensures r.Ok? ==> v.Object? && Resolve(v.entries, ns, env).Ok?
    ensures r.Ok? ==> BootFragment(Resolve(v.entries, ns, env).value, ns, "initrd", false) == r
  {
    var d :- AsObject("initramfs", v);
    var kv :- Resolve(d, ns, env);
    BootFragment(kv, ns, "initrd", false)
  }

  /**
   A kernel title is substituted twice: `{{n}}` survives resolution as `{n}`
   and the echo line is then filled in with the value of `n`.
   */
  lemma KernelTitleSubstitutedTwice(n: string, w: string, ns: Dict, env: Env)
    requires PlainName(n) && Lookup(ns, n) == Some(Str(w))
    ensures KernelSection(Object([("title", Str("{{" + n + "}}"))]), ns, env)
         == if Lookup(ns, ParamName).Some? then Err(DuplicateArgument(ParamName)) else Ok("echo \"" + w + "\"\n\r")
  {
    ResolveEscaped("title", n, ns, env);
    var kv: Dict := [("title", Str("{" + n + "}"))];
    assert Get(kv, "title") == Some(Str("{" + n + "}"));
    assert Get(kv, "linux").None? && Get(kv, "options").None?;
    FormatSingleField(n, w, ns);
    assert "echo \"" + w + "\"\n\r" + "" + "" == "echo \"" + w + "\"\n\r";
  }

  /**
   Kernel options each bring a leading space (`spaced`); initramfs options are
   glued to each other. An option with an empty value has no `=`.
   */
  lemma OptionsSpacing(a: string, x: string, b: string, ns: Dict, spaced: bool)
    requires NoBraces(a) && NoBraces(x) && NoBraces(b)
    requires Strip(a) == a && Strip(b) == b && x != []
    ensures var lead := if spaced then " " else "";
      OptionsPart([("options", Object([(a, Str(x)), (b, Str(""))]))], ns, spaced) == Ok(lead + a + "=" + x + lead + b)
  {
    var od: Dict := [(a, Str(x)), (b, Str(""))];
    var kv: Dict := [("options", Object(od))];
    GetFirst("options", Object(od), []);
    assert [("options", Object(od))] + [] == kv;
    var lead := if spaced then " " else "";
    var f := OptionPieceOf(ns, spaced);
    OptionWithValue(a, x, ns, spaced);
    OptionWithoutValue(b, ns, spaced);
    assert f(od[0]) == Ok(lead + (a + ("=" + x)));
    assert f(od[1]) == Ok(lead + b);
    ConcatTwo(od[0], od[1], f);
    assert OptionsPart(kv, ns, spaced) == ConcatMap(od, f);
    RegroupOptions(lead, a, "=", x, b);
  }

  lemma RegroupOptions(l: string, a: string, e: string, x: string, b: string)
    ensures l + (a + (e + x)) + (l + b) == l + a + e + x + l + b
  {
  }

  lemma OptionWithValue(a: string, x: string, ns: Dict, spaced: bool)
    requires NoBraces(a) && NoBraces(x)
    requires Strip(a) == a && x != []
    ensures OptionPiece((a, Str(x)), ns, spaced) == Ok((if spaced then " " else "") + (a + ("=" + x)))
  {
    NoBracesAppend("=", x);
    NoBracesAppend(a, "=" + x);
    FormatBraceFree(a + ("=" + x), ns);
  }

  lemma OptionWithoutValue(b: string, ns: Dict, spaced: bool)
    requires NoBraces(b) && Strip(b) == b
    ensures OptionPiece((b, Str("")), ns, spaced) == Ok((if spaced then " " else "") + b)
  {
    assert b + "" == b;
    FormatBraceFree(b, ns);
  }

  /**
   A plain section value (no magic keys, no braces) is not changed by
   resolution, so each section is its fragment over the raw entries, and the
   host name and clock play no part. A non-object section is a type error, and
   a namespace holding `input_dict` makes the resolution call fail.
   */
  lemma SectionsPlain(v: Value, ns: Dict, env: Env)
    requires PlainValue(v)
    ensures MenuEntry(v, ns, env) ==
      if !v.Object? then Err(WrongType("menuentry"))
      else if Lookup(ns, ParamName).Some? then Err(DuplicateArgument(ParamName))
      else WithFlags(v.entries, ns)
    ensures SetSection(v, ns, env) ==
      if !v.Object? then Err(WrongType("set"))
      else if Lookup(ns, ParamName).Some? then Err(DuplicateArgument(ParamName))
      else SetFragment(v.entries, ns)
    ensures SearchSection(v, ns, env) ==
      if !v.Object? then Err(WrongType("search"))
      else if Lookup(ns, ParamName).Some? then Err(DuplicateArgument(ParamName))
      else SearchFragment(v.entries, ns)
    ensures KernelSection(v, ns, env) ==
      if !v.Object? then Err(WrongType("kernel"))
      else if Lookup(ns, ParamName).Some? then Err(DuplicateArgument(ParamName))
      else BootFragment(v.entries, ns, "linux", true)
    ensures InitramfsSection(v, ns, env) ==
      if !v.Object? then Err(WrongType("initramfs"))
      else if Lookup(ns, ParamName).Some? then Err(DuplicateArgument(ParamName))
      else BootFragment(v.entries, ns, "initrd", false)
  {
    if v.Object? {
      PlainEntries(v.entries, ns, env);
    }
  }
}
