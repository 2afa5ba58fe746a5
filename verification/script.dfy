/**
 The generated GRUB script: the fixed preamble, the `menuentry` header line,
 and the fragments of every section in a fixed skeleton. The sections are
 taken out of the document one after another; the first one that is missing
 or falsy ends the run.
 */
module Script {
  import opened Errors
  import opened Text
  import opened OrderedMap
  import opened Substitution
  import opened Magic
  import opened Resolution
  import opened Sections

  /** The shell lines that make GRUB's `custom` hook print the rest of the file. */
  const Preamble: string :=
    "\n#!/bin/sh\nexec tail -n +3 $0\n"
    + "# This file provides an easy way to add custom menu entries.  Simply type the\n"
    + "# menu entries you want to add after this comment.  Be careful not to change\n"
    + "# the 'exec tail' line above.\n\n\n"

  /** The header template; `{{` is the literal brace that opens the entry body. */
  const HeaderTemplate: string := "menuentry '{title}' {class} {id} {{\n\r"

  /**
   The header line, filled in from the menuentry mapping (not the namespace):
   title, class flags and id, each of which must be present.
   */
  function Header(mv: Dict): (r: Result<string>)
    ensures r.Ok? <==> Field("title", mv).Ok? && Field("class", mv).Ok? && Field("id", mv).Ok?
    ensures r.Ok? ==> (r.value ==
      "menuentry '" + Field("title", mv).value + "' " + Field("class", mv).value + " " + Field("id", mv).value + " {\n\r")
    ensures Lookup(mv, "title") == None ==> r == Err(UnknownName("title"))
    ensures Field("title", mv).Ok? && Lookup(mv, "class") == None ==> r == Err(UnknownName("class"))
  {
    HeaderShape(mv);
    Format(HeaderTemplate, mv)
  }

  lemma HeaderNames()
    ensures PlainName("title") && PlainName("class") && PlainName("id")
  {
    assert !IsDigit("title"[0]);
    assert !IsDigit("class"[0]);
    assert !IsDigit("id"[0]);
  }

  /** Brace-free text, then one plain field, then the rest. */
  lemma TextThenField(p: string, n: string, rest: string, kw: Dict)
    requires NoBraces(p) && PlainName(n)
    ensures Format(p + "{" + n + "}" + rest, kw) ==
      if Field(n, kw).Ok? then Prepend(p + Field(n, kw).value, Format(rest, kw)) else Err(Field(n, kw).error)
  {
    assert p + "{" + n + "}" + rest == p + ("{" + n + "}" + rest);
    FormatPrefix(p, "{" + n + "}" + rest, kw);
    FormatField(n, rest, kw);
    if Field(n, kw).Ok? {
      AppendAssoc(p, Field(n, kw).value, Format(rest, kw));
    }
  }

  lemma HeaderTail(kw: Dict)
    ensures Format(" {{\n\r", kw) == Ok(" {\n\r")
  {
    assert NoBraces(" ") && NoBraces("\n\r");
    assert " {{\n\r" == " " + "{{\n\r";
    FormatPrefix(" ", "{{\n\r", kw);
    assert "{{\n\r"[0] == '{' && "{{\n\r"[1] == '{';
    assert "{{\n\r"[2..] == "\n\r";
    FormatBraceFree("\n\r", kw);
    assert Format("{{\n\r", kw) == Prepend("{", Format("\n\r", kw));
    assert " " + ("{" + "\n\r") == " {\n\r";
  }

  lemma HeaderShape(mv: Dict)
    ensures var r := Format(HeaderTemplate, mv);
      && (r.Ok? <==> Field("title", mv).Ok? && Field("class", mv).Ok? && Field("id", mv).Ok?)
      && (r.Ok? ==> (r.value ==
           "menuentry '" + Field("title", mv).value + "' " + Field("class", mv).value + " " + Field("id", mv).value + " {\n\r"))
      && (Lookup(mv, "title") == None ==> r == Err(UnknownName("title")))
      && (Field("title", mv).Ok? && Lookup(mv, "class") == None ==> r == Err(UnknownName("class")))
  {
    HeaderNames();
    HeaderSplit();
    assert NoBraces("menuentry '") by {
      assert forall k :: 0 <= k < |"menuentry '"| ==> "menuentry '"[k] in "menutry '";
    }
    TextThenField("menuentry '", "title", "' {class} {id} {{\n\r", mv);
    HeaderFromClass(mv);
    if Field("title", mv).Ok? && Field("class", mv).Ok? && Field("id", mv).Ok? {
      var t := Field("title", mv).value;
      var c := Field("class", mv).value;
      var i := Field("id", mv).value;
      Regroup("menuentry '", t, "' ", c, " ", i, " {\n\r");
    }
  }

  lemma Regroup(a: string, b: string, c: string, d: string, e: string, f: string, g: string)
    ensures a + b + (c + d + e + f + g) == a + b + c + d + e + f + g
    ensures c + d + (e + f + g) == c + d + e + f + g
  {
  }

  lemma HeaderSplit()
    ensures HeaderTemplate == "menuentry '" + "{" + "title" + "}" + "' {class} {id} {{\n\r"
  {
  }

  lemma ClassSplit()
    ensures "' {class} {id} {{\n\r" == "' " + "{" + "class" + "}" + " {id} {{\n\r"
  {
  }

  lemma IdSplit()
    ensures " {id} {{\n\r" == " " + "{" + "id" + "}" + " {{\n\r"
  {
  }

  lemma HeaderFromClass(mv: Dict)
    ensures var r := Format("' {class} {id} {{\n\r", mv);
      && (r.Ok? <==> Field("class", mv).Ok? && Field("id", mv).Ok?)
      && (r.Ok? ==> r.value == "' " + Field("class", mv).value + " " + Field("id", mv).value + " {\n\r")
      && (Lookup(mv, "class") == None ==> r == Err(UnknownName("class")))
  {
    HeaderNames();
    ClassSplit();
    IdSplit();
    assert NoBraces("' ") && NoBraces(" ");
    TextThenField("' ", "class", " {id} {{\n\r", mv);
    TextThenField(" ", "id", " {{\n\r", mv);
    HeaderTail(mv);
    if Field("class", mv).Ok? && Field("id", mv).Ok? {
      var c := Field("class", mv).value;
      var i := Field("id", mv).value;
      Regroup([], [], "' ", c, " ", i, " {\n\r");
    }
  }

  /** The sections after `menuentry`, in the order the program pops and renders them. */
  const BodyKeys: seq<string> := ["set", "insmod", "search", "kernel", "initramfs"]

  predicate Distinct(keys: seq<string>) {
    forall i, j :: 0 <= i < j < |keys| ==> keys[i] != keys[j]
  }

  /** The script ends with the brace that closes the menu entry. */
  predicate ClosesEntry(t: string) {
    |t| > 0 && t[|t| - 1] == '}'
  }

  /**
   The skeleton of the script around the fragments: the preamble, the header,
   the entry body, and the closing brace.
   */
  function Assemble(header: string, f: seq<string>): (r: string)
    requires |f| == |BodyKeys|
    ensures Preamble + header <= r
    ensures ClosesEntry(r)
  {
    var rest := Body(f) + "}";
    assert (Preamble + header + rest)[..|Preamble + header|] == Preamble + header;
    Preamble + header + rest
  }

  /**
   The lines of the entry body: `load video`, then the fragments of `set`,
   `insmod`, `search`, `kernel` and `initramfs`, each after a line break.
   */
  function Body(f: seq<string>): string
    requires |f| == |BodyKeys|
  {
    "\tload video\n\r\t" + f[0] + "\n\r" + f[1] + "\n\r\t" + f[2] + "\n\r\t"
      + f[3] + "\n\r\t" + f[4] + "\n\r"
  }

  /** What follows each body fragment, in `BodyKeys` order. */
  const Terminators: seq<string> := ["\n\r", "\n\r\t", "\n\r\t", "\n\r\t", "\n\r"]

  /** Each fragment followed by its own terminator, in order. */
  function Terminated(f: seq<string>, t: seq<string>): string
    requires |f| == |t|
    decreases |f|
  {
    if f == [] then "" else f[0] + t[0] + Terminated(f[1..], t[1..])
  }

  /**
   The body is the `load video` line, then each section's fragment followed by
   its terminator, in the order set, insmod, search, kernel, initramfs.
   */
  lemma BodyLines(f: seq<string>)
    requires |f| == |BodyKeys|
    ensures Body(f) == "\tload video\n\r\t" + Terminated(f, Terminators)
  {
    var t := Terminators;
    TerminatedFive("\tload video\n\r\t", f, t);
    assert t[0] == "\n\r" && t[1] == "\n\r\t" && t[2] == "\n\r\t" && t[3] == "\n\r\t" && t[4] == "\n\r";
  }

  /** Five terminated fragments after a lead, rebracketed to the left. */
  lemma TerminatedFive(l0: string, f: seq<string>, t: seq<string>)
    requires |f| == 5 && |t| == 5
    ensures l0 + Terminated(f, t)
         == l0 + f[0] + t[0] + f[1] + t[1] + f[2] + t[2] + f[3] + t[3] + f[4] + t[4]
  {
    var x4 := Terminated(f[4..], t[4..]);
    assert x4 == f[4] + t[4] + Terminated(f[5..], t[5..]);
    var x3 := Terminated(f[3..], t[3..]);
    assert x3 == f[3] + t[3] + x4;
    var x2 := Terminated(f[2..], t[2..]);
    assert x2 == f[2] + t[2] + x3;
    var x1 := Terminated(f[1..], t[1..]);
    assert x1 == f[1] + t[1] + x2;
    assert Terminated(f, t) == f[0] + t[0] + x1;
    var l1 := l0 + f[0] + t[0];
    var l2 := l1 + f[1] + t[1];
    var l3 := l2 + f[2] + t[2];
    var l4 := l3 + f[3] + t[3];
    Shift(l0, f[0], t[0], x1);
    Shift(l1, f[1], t[1], x2);
    Shift(l2, f[2], t[2], x3);
    Shift(l3, f[3], t[3], x4);
    Shift(l4, f[4], t[4], "");
    assert l4 + f[4] + t[4] + "" == l4 + f[4] + t[4];
  }

  /** One step of moving a fragment and its terminator from the rest onto the text before it. */
  lemma Shift(l: string, a: string, b: string, x: string)
    ensures l + (a + b + x) == l + a + b + x
  {
  }

  /** Every section the script reads from the document is present and truthy. */
  predicate AllSections(doc: Dict) {
    && Get(doc, "settings").Some?
    && Get(doc, "menuentry").Some?
    && forall i :: 0 <= i < |BodyKeys| ==> Get(doc, BodyKeys[i]).Some?
  }

  /**
   The whole run on an already-parsed document: the namespace from
   `settings`, then the menu entry from the remaining sections; the result is
   the text of the script or the first error.
   */
  function Render(doc: Dict, env: Env): (r: Result<string>)
    ensures Get(doc, "settings").None? ==> r == Err(MissingEntry("settings"))
    ensures r.Ok? ==> AllSections(doc)
    ensures r.Ok? ==> (Get(doc, "menuentry").Some? && Get(doc, "menuentry").value.Object? &&
      var keys := Keys(Get(doc, "menuentry").value.entries);
      "title" in keys && "class" in keys && "id" in keys)
    ensures r.Ok? ==> OpensEntry(r.value) && ClosesEntry(r.value)
  {
    var settings :- Pop("settings", doc);
    var ns :- BuildNamespace(settings.value, env);
    var text :- RenderEntry(settings.rest, ns, env);
    BodyKeysDistinct();
    PopKeepsAll("settings", doc, BodyKeys);
    PopKeeps("settings", doc, "menuentry");
    Ok(text)
  }

  /**
   Everything after the namespace: the menuentry section popped and resolved,
   then each body section popped in order and rendered, the header last.
   */
  function RenderEntry(d: Dict, ns: Dict, env: Env): (r: Result<string>)
    ensures r.Ok? ==> Get(d, "menuentry").Some? && Get(d, "menuentry").value.Object?
    ensures r.Ok? ==> var keys := Keys(Get(d, "menuentry").value.entries);
      "title" in keys && "class" in keys && "id" in keys
    ensures r.Ok? ==> forall i :: 0 <= i < |BodyKeys| ==> Get(d, BodyKeys[i]).Some?
    ensures r.Ok? ==> OpensEntry(r.value) && ClosesEntry(r.value)
  {
    var menu :- Pop("menuentry", d);
    var mv :- MenuEntry(menu.value, ns, env);
    BodyKeysDistinct();
    var body :- PopRender(BodyKeys, menu.rest, SectionOf(ns, env));
    PopKeepsAll("menuentry", d, BodyKeys);
    Document(mv, body)
  }

  /**
   Lines 186-203: the header line filled in from the menuentry mapping, then
   the skeleton around the body fragments.
   */
  function Document(mv: Dict, body: seq<string>): (r: Result<string>)
    requires |body| == |BodyKeys|
    ensures r.Ok? <==> Header(mv).Ok?
    ensures r.Ok? ==> r.value == Assemble(Header(mv).value, body)
    ensures r.Ok? ==> "title" in Keys(mv) && "class" in Keys(mv) && "id" in Keys(mv)
    ensures r.Ok? ==> OpensEntry(r.value) && ClosesEntry(r.value)
  {
    var header :- Header(mv);
    HeaderNeedsNames(mv);
    PrefixThenRest(Preamble, "menuentry '", header);
    Ok(Assemble(header, body))
  }

  /** The script starts with the preamble and the opening of the menu entry. */
  predicate OpensEntry(t: string) {
    Preamble + "menuentry '" <= t
  }

  lemma BodyKeysDistinct()
    ensures Distinct(BodyKeys)
    ensures "settings" !in BodyKeys && "menuentry" !in BodyKeys
  {
  }

  /** The renderer of one body section (lines 108-181); the keys are those of `BodyKeys`. */
  function Section(key: string, v: Value, ns: Dict, env: Env): Result<string> {
    if key == "set" then SetSection(v, ns, env)
    else if key == "insmod" then InsmodFragment(v, ns)
    else if key == "search" then SearchSection(v, ns, env)
    else if key == "kernel" then KernelSection(v, ns, env)
    else InitramfsSection(v, ns, env)
  }

  function SectionOf(ns: Dict, env: Env): (string, Value) -> Result<string> {
    (key: string, v: Value) => Section(key, v, ns, env)
  }

  /**
   Each body section in turn is popped from what is left of the document and
   rendered; the first missing section or failing renderer is the error.
   */
  function PopRender(keys: seq<string>, d: Dict, render: (string, Value) -> Result<string>): (r: Result<seq<string>>)
    requires Distinct(keys)
    ensures r.Ok? ==> |r.value| == |keys|
    ensures r.Ok? ==> forall i :: 0 <= i < |keys| ==> Get(d, keys[i]).Some?
    ensures keys != [] && Get(d, keys[0]).None? ==> r == Err(MissingEntry(keys[0]))
    decreases |keys|
  {
    if keys == [] then Ok([])
    else
      var p :- Pop(keys[0], d);
      var text :- render(keys[0], p.value);
      var rest :- PopRender(keys[1..], p.rest, render);
      PopOthers(keys[0], d);
      assert forall i :: 1 <= i < |keys| ==> keys[i] == keys[1..][i - 1] && keys[i] != keys[0];
      Ok([text] + rest)
  }

  /** A successful header means the three names were present in the mapping. */
  lemma HeaderNeedsNames(mv: Dict)
    requires Header(mv).Ok?
    ensures "title" in Keys(mv) && "class" in Keys(mv) && "id" in Keys(mv)
    ensures "menuentry '" <= Header(mv).value
  {
    HeaderNames();
    var t := Field("title", mv).value;
    var c := Field("class", mv).value;
    var i := Field("id", mv).value;
    StartsWith("menuentry '", t, "' ", c, " ", i, " {\n\r");
  }

  lemma StartsWith(a: string, b: string, c: string, d: string, e: string, f: string, g: string)
    ensures a <= a + b + c + d + e + f + g
  {
    assert a + b + c + d + e + f + g == a + (b + c + d + e + f + g);
  }

  lemma PrefixThenRest(p: string, m: string, h: string)
    requires m <= h
    ensures p + m <= p + h
  {
    assert (p + h)[..|p + m|] == p + m;
  }

  /** Sections still to come that are present after a pop were present before it. */
  lemma PopKeepsAll(key: string, d: Dict, keys: seq<string>)
    requires Pop(key, d).Ok? && key !in keys
    requires forall i :: 0 <= i < |keys| ==> Get(Pop(key, d).value.rest, keys[i]).Some?
    ensures forall i :: 0 <= i < |keys| ==> Get(d, keys[i]).Some?
  {
    forall i | 0 <= i < |keys|
      ensures Get(d, keys[i]).Some?
    {
      PopKeeps(key, d, keys[i]);
    }
  }

  lemma PopKeeps(key: string, d: Dict, k: string)
    requires Pop(key, d).Ok? && k != key
    ensures Lookup(Pop(key, d).value.rest, k) == Lookup(d, k)
  {
    RemoveLookup(d, key, k);
  }

  // ------------------------------------------------------------------
  // the same run, reading instead of popping
  // ------------------------------------------------------------------

  /** A section read with `get`: its value when present and truthy, the missing-entry error otherwise. */
  function Need(key: string, doc: Dict): (r: Result<Value>)
    ensures r.Ok? <==> Get(doc, key).Some?
    ensures r.Ok? ==> Some(r.value) == Lookup(doc, key)
    ensures r.Err? ==> r == Err(MissingEntry(key))
  {
    match Get(doc, key)
    case Some(v) => Ok(v)
    case None => Err(MissingEntry(key))
  }

  /**
   A reference for the run that reads every section from the original
   document instead of popping it, in the same order and with the same
   rendering.
   */
  function Read(doc: Dict, env: Env): Result<string> {
    var settings :- Need("settings", doc);
    var ns :- BuildNamespace(settings, env);
    ReadEntry(doc, ns, env)
  }

  function ReadEntry(doc: Dict, ns: Dict, env: Env): Result<string> {
    var menu :- Need("menuentry", doc);
    var mv :- MenuEntry(menu, ns, env);
    var body :- ReadRender(BodyKeys, doc, SectionOf(ns, env));
    Document(mv, body)
  }

  /** The body sections read from the document, in order, each rendered. */
  function ReadRender(keys: seq<string>, doc: Dict, render: (string, Value) -> Result<string>): (r: Result<seq<string>>)
    ensures r.Ok? ==> |r.value| == |keys|
    ensures r.Ok? <==> forall i :: 0 <= i < |keys| ==> Need(keys[i], doc).Ok? && render(keys[i], Need(keys[i], doc).value).Ok?
    ensures r.Ok? ==> forall i :: 0 <= i < |keys| ==> Ok(r.value[i]) == render(keys[i], Need(keys[i], doc).value)
    decreases |keys|
  {
    if keys == [] then Ok([])
    else
      var v :- Need(keys[0], doc);
      var text :- render(keys[0], v);
      var rest :- ReadRender(keys[1..], doc, render);
      Ok([text] + rest)
  }

  /** Popping a key from a mapping that agrees with `doc` on it is reading it from `doc`. */
  lemma PopIsNeed(key: string, d: Dict, doc: Dict)
    requires Lookup(d, key) == Lookup(doc, key)
    ensures Pop(key, d).Ok? <==> Need(key, doc).Ok?
    ensures Pop(key, d).Ok? ==> Pop(key, d).value.value == Need(key, doc).value
    ensures Pop(key, d).Err? ==> Pop(key, d).error == Need(key, doc).error
  {
  }

  /**
   Popping distinct sections one after another finds each where it was in
   the original document: the loop is the same as reading them all.
   */
  lemma {:induction false} PopRenderReads(keys: seq<string>, d: Dict, doc: Dict, render: (string, Value) -> Result<string>)
    requires Distinct(keys)
    requires forall i :: 0 <= i < |keys| ==> Lookup(d, keys[i]) == Lookup(doc, keys[i])
    ensures PopRender(keys, d, render) == ReadRender(keys, doc, render)
    decreases |keys|
  {
    if keys != [] {
      PopIsNeed(keys[0], d, doc);
      var p := Pop(keys[0], d);
      if p.Ok? && render(keys[0], p.value.value).Ok? {
        PopOthers(keys[0], d);
        var t := keys[1..];
        assert forall i :: 0 <= i < |t| ==> t[i] == keys[i + 1] && t[i] != keys[0];
        PopRenderReads(t, p.value.rest, doc, render);
      }
    }
  }

  /**
   The program pops each section out of the document, yet no pop disturbs a
   section still to come: the run is the same as reading every section from
   the original document.
   */
  lemma RenderReads(doc: Dict, env: Env)
    ensures Render(doc, env) == Read(doc, env)
  {
    PopIsNeed("settings", doc, doc);
    var p1 := Pop("settings", doc);
    if p1.Ok? && BuildNamespace(p1.value.value, env).Ok? {
      PopOthers("settings", doc);
      EntryReads(p1.value.rest, doc, BuildNamespace(p1.value.value, env).value, env);
    }
  }

  lemma EntryReads(d: Dict, doc: Dict, ns: Dict, env: Env)
    requires forall k :: k != "settings" ==> Lookup(d, k) == Lookup(doc, k)
    ensures RenderEntry(d, ns, env) == ReadEntry(doc, ns, env)
  {
    PopIsNeed("menuentry", d, doc);
    var p := Pop("menuentry", d);
    if p.Ok? {
      PopOthers("menuentry", d);
      BodyKeysDistinct();
      PopRenderReads(BodyKeys, p.value.rest, doc, SectionOf(ns, env));
    }
  }

  // ------------------------------------------------------------------
  // plain documents
  // ------------------------------------------------------------------

  /** A document none of whose sections holds a magic key or a brace anywhere. */
  predicate PlainDoc(doc: Dict) {
    forall i :: 0 <= i < |doc| ==> PlainValue(doc[i].1)
  }

  /** A body section rendered straight from its raw value. */
  function RawSection(key: string, v: Value, ns: Dict): Result<string> {
    if key == "insmod" then InsmodFragment(v, ns)
    else
      var d :- AsObject(key, v);
      if key == "set" then SetFragment(d, ns)
      else if key == "search" then SearchFragment(d, ns)
      else if key == "kernel" then BootFragment(d, ns, "linux", true)
      else BootFragment(d, ns, "initrd", false)
  }

  function RawSectionOf(ns: Dict): (string, Value) -> Result<string> {
    (key: string, v: Value) => RawSection(key, v, ns)
  }

  /**
   The script assembled from the raw section values, with no resolution step
   and no host name or clock: the header from the raw menuentry (class
   flags filled in), then the fragments of the raw body sections.
   */
  function RawScript(doc: Dict): Result<string> {
    var settings :- Need("settings", doc);
    var ns :- RawNamespace(settings);
    var menu :- Need("menuentry", doc);
    var me :- AsObject("menuentry", menu);
    var mv :- WithFlags(me, ns);
    var body :- ReadRender(BodyKeys, doc, RawSectionOf(ns));
    Document(mv, body)
  }

  lemma NeedPlain(key: string, doc: Dict)
    requires PlainDoc(doc) && Need(key, doc).Ok?
    ensures PlainValue(Need(key, doc).value)
  {
    var v := Need(key, doc).value;
    assert (key, v) in doc;
    var i :| 0 <= i < |doc| && doc[i] == (key, v);
  }

  /** Renderers that agree on every section the document holds give the same loop result. */
  lemma {:induction false} ReadRenderSame(keys: seq<string>, doc: Dict, r1: (string, Value) -> Result<string>, r2: (string, Value) -> Result<string>)
    requires forall i :: 0 <= i < |keys| && Need(keys[i], doc).Ok? ==>
      r1(keys[i], Need(keys[i], doc).value) == r2(keys[i], Need(keys[i], doc).value)
    ensures ReadRender(keys, doc, r1) == ReadRender(keys, doc, r2)
    decreases |keys|
  {
    if keys != [] {
      var t := keys[1..];
      assert forall i :: 0 <= i < |t| ==> t[i] == keys[i + 1];
      ReadRenderSame(t, doc, r1, r2);
    }
  }

  /** On a plain value the resolving renderer is the raw one. */
  lemma SectionRaw(key: string, v: Value, ns: Dict, env: Env)
    requires key in BodyKeys && PlainValue(v) && Lookup(ns, ParamName) == None
    ensures Section(key, v, ns, env) == RawSection(key, v, ns)
  {
    SectionsPlain(v, ns, env);
  }

  lemma EntryRaw(doc: Dict, ns: Dict, env: Env)
    requires PlainDoc(doc) && Lookup(ns, ParamName) == None
    ensures ReadEntry(doc, ns, env) ==
      (var menu :- Need("menuentry", doc);
       var me :- AsObject("menuentry", menu);
       var mv :- WithFlags(me, ns);
       var body :- ReadRender(BodyKeys, doc, RawSectionOf(ns));
       Document(mv, body))
  {
    if Need("menuentry", doc).Ok? {
      NeedPlain("menuentry", doc);
      SectionsPlain(Need("menuentry", doc).value, ns, env);
    }
    forall i | 0 <= i < |BodyKeys| && Need(BodyKeys[i], doc).Ok?
      ensures SectionOf(ns, env)(BodyKeys[i], Need(BodyKeys[i], doc).value)
           == RawSectionOf(ns)(BodyKeys[i], Need(BodyKeys[i], doc).value)
    {
      NeedPlain(BodyKeys[i], doc);
      SectionRaw(BodyKeys[i], Need(BodyKeys[i], doc).value, ns, env);
    }
    ReadRenderSame(BodyKeys, doc, SectionOf(ns, env), RawSectionOf(ns));
  }

  /**
   A plain document renders to the script assembled from its raw sections:
   resolution changes nothing, so the host name and the clock play no part
   and the text is the skeleton around the raw fragments.
   */
  lemma RenderPlain(doc: Dict, env: Env)
    requires PlainDoc(doc)
    ensures Render(doc, env) == RawScript(doc)
  {
    RenderReads(doc, env);
    if Need("settings", doc).Ok? {
      var settings := Need("settings", doc).value;
      NeedPlain("settings", doc);
      NamespaceRaw(settings, env);
      if RawNamespace(settings).Ok? {
        EntryRaw(doc, RawNamespace(settings).value, env);
      }
    }
  }

  /** Whatever the host name and the clock, a plain document renders the same. */
  lemma RenderPlainEnvFree(doc: Dict, env: Env, env': Env)
    requires PlainDoc(doc)
    ensures Render(doc, env) == Render(doc, env')
  {
    RenderPlain(doc, env);
    RenderPlain(doc, env');
  }
}
