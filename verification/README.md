# pyKernel menu-entry generator, modelled in Dafny

pyKernel (`main.py`) reads a JSON configuration document and prints a GRUB
`custom` script holding one `menuentry` block. Most of its work is string
templating:

- The `settings` section, with the `vars` mapping nested in it, builds a
  namespace of names.
- Every other section is resolved against that namespace with Python's
  `str.format`.
- Each section is then rendered into a fragment of GRUB script. Some
  fragments go through `str.format` a second time.
- Any missing section or unknown placeholder ends the run with status 1.

This project models that pipeline as pure Dafny functions over immutable
data, and proves the properties the program's behaviour rests on.

| file | module | what it holds |
|---|---|---|
| `errors.dfy` | `Errors` | the error values; a `Result` type usable with `:-`; `ConcatMap`, the "append one piece per item" loop shared by all renderers |
| `text.dfy` | `Text` | Python's `str.strip` (with Python's whitespace set); `replace(' ', '-')`; brace-freedom; brace escaping |
| `ordered_map.dfy` | `OrderedMap` | JSON values; Python's insertion-ordered `dict` as a sequence of pairs; `get`, truthiness, `del`, item assignment, `update`; `pop_entry_or_exit` |
| `substitution.dfy` | `Substitution` | `str.format(**kw)` restricted to plain keyword fields and `{{`/`}}` escapes |
| `magic.dfy` | `Magic` | the `date` and `hostname` magic keys |
| `resolution.dfy` | `Resolution` | `parse_strings`; the namespace build |
| `sections.dfy` | `Sections` | the renderers for menuentry class flags, set, insmod, search, kernel and initramfs |
| `script.dfy` | `Script` | the header line, the script skeleton and the whole run (`Render`) |

Three things the program reads from its environment are not read by the model:

- The host name, and the clock behind `strftime`, arrive as an `Env` value: a
  string and an uninterpreted function from a `strftime` pattern to its text.
- The configuration file arrives as an already-parsed ordered document.
- Process exit becomes an `Err` result, so a run either produces the whole
  script text or an error. No partial script is ever produced.

Where the program's behaviour differs from its own documentation, the model
follows the program:

- Only entries whose KEY is `date` or `hostname` are magic.
  - The magic function replaces the value.
  - A `{date}` placeholder is an ordinary name lookup.
- `vars` is popped out of the resolved `settings` mapping, not out of the
  top-level document. A top-level `vars` section is never read.
- The `settings` values are resolved against the raw `settings` mapping. They
  are resolved again against the merged namespace, so each `settings` string
  is substituted twice. `vars` values are substituted once, against a snapshot
  of the merged mapping. A `settings` value cannot name a `vars` key (`SettingsCannotSeeVars`).
- The `hostname` magic replaces each space with `-` separately. Runs of
  spaces are not collapsed.
- The header line is formatted against the menuentry mapping, not the
  namespace. A menuentry with no `class` entry therefore fails with an unknown
  name (`Render`, `Header`).
- An empty `settings` object is falsy, so `pop_entry_or_exit` rejects it. A
  document whose `settings` is `{}` fails at once with the missing-entry
  error for `settings` (`Render`). The same holds for an empty `set`,
  `insmod`, `search`, `kernel` or `initramfs` section.
- `parse_strings` takes its mapping as a parameter named `input_dict` and is
  called with the namespace spread as keywords. A namespace (or `settings`
  object) holding a key `input_dict` therefore fails with a duplicate-argument
  error before any string is resolved (`Resolve`, `NamespaceClash`).
- The `set` pairs are glued with no separator, and so are the initramfs
  options. The model keeps both as written (`OptionsSpacing`, `ConcatMapAppend`).

## Model

| member | source | states |
|---|---|---|
| OrderedMap.Pop | main.py:36-41 | Succeeds exactly when the key is present with a truthy value (non-empty string, list or object). It returns the stored value and the mapping without exactly that pair, everything else in order. An absent or falsy entry is the missing-entry error for that key. |
| OrderedMap.PopOthers | main.py:36-41 | After a successful pop, every other key looks up exactly as before. |
| OrderedMap.RemoveExactly | main.py:38 | Deleting a key from a mapping with unique keys keeps the keys unique. The deleted key is gone and every other key keeps its value. |
| OrderedMap.Get | main.py:37 | `d.get(k)` as a condition yields a value exactly when the key is present and its value truthy, and then it yields the stored value. |
| OrderedMap.Display | main.py:115 | Interpolating a value copies a string verbatim. An empty list shows as `[]` and an empty object as `{}`. It fails exactly for a non-empty list or object, with the wrong-type error naming the key or field. |
| OrderedMap.PutLookup | main.py:104 | Assigning `d[k] = v` makes `k` look up `v` and leaves every other key's lookup unchanged. |
| OrderedMap.PutKeys | main.py:104 | Assignment keeps keys unique. An existing key stays in its place; a new key is appended at the end. |
| OrderedMap.UpdateFacts | main.py:93 | `update` keeps keys unique, and the old keys keep their places at the front. The key set is the union of both. A key takes the value of its last pair in the update, else its old value. |
| OrderedMap.UpdateKeys | main.py:93 | `update` keeps keys unique, keeps the old keys as a prefix in their places, and has exactly the keys of both mappings. |
| OrderedMap.UpdateLookup | main.py:93 | After `update`, a key looks up its last value in the pairs, and any other key looks up its old value. |
| OrderedMap.LastLookupUnique | main.py:93 | In a mapping with unique keys the last pair for a key is the first, so `update` with a proper dict copies its values. |
| Errors.ConcatMap | main.py:113-115 | An accumulating loop succeeds exactly when every item's piece does. A failure is the error of the first failing item. |
| Errors.ConcatMapAppend | main.py:113-115 | The loop over a longer list appends, with no separator, the text for the added items. |
| Substitution.Field | main.py:64 | A plain name that is present gives its value as text, and an absent one is the unknown-name error. Empty, numeric or attribute/index/spec fields fail. |
| Substitution.FormatPrefix | main.py:64 | Brace-free text in front of a template passes through unchanged, on success and on failure. |
| Substitution.FormatBraceFree | main.py:64 | A string with no braces substitutes to itself under any mapping, so substitution is idempotent on it. |
| Substitution.FormatAppend | main.py:117 | Substituting a concatenation whose first part substitutes cleanly is the first part's result followed by the second part's. |
| Substitution.FormatAppendErr | main.py:117 | A template that fails still fails when brace-free text is appended. |
| Substitution.FormatFramed | main.py:103 | Text wrapped in brace-free framing substitutes exactly when the text does, and the framing is kept verbatim. |
| Substitution.FormatField | main.py:64 | A leading `{name}` is replaced by the name's text and scanning continues after it. A failing name makes the whole template fail. |
| Substitution.FormatUnknownName | main.py:64 | A placeholder for a name the mapping lacks is the unknown-name error, never an empty substitution. |
| Substitution.FormatEscape | main.py:196 | `{{` and `}}` give single braces: substituting the brace-doubled form of any text gives back the text, whatever the mapping. |
| Substitution.FormatEach | main.py:102-103 | Per-item substitution succeeds exactly when every item substitutes. The results correspond item by item, and a failure comes from some item. |
| Text.Strip | main.py:26 | The result is the input with a run of whitespace removed at each end: a contiguous slice with only whitespace before and after it. A non-empty result neither begins nor ends with whitespace. |
| Text.StripTrailingSpace | main.py:104 | Stripping ignores trailing whitespace: appending a space does not change the result. |
| Text.StripIdentity | main.py:104 | A string that neither begins nor ends with whitespace strips to itself. |
| Text.ReplaceSpaces | main.py:26 | Has the same length as the input; every space becomes `-` and every other character is kept. |
| Text.ReplaceSpacesAppend | main.py:26 | Replacing spaces distributes over concatenation. |
| Magic.Hostname | main.py:26 | An empty argument gives the host name. A brace-free argument gives its stripped text with each space turned into `-`, a result with no spaces. A non-empty non-string fails. |
| Magic.HostnameSubstitutesHost | main.py:26 | `{host}` inside the argument is replaced by the host name, and the spaces around it become hyphens one for one. |
| Magic.HostnameTwoWords | main.py:26 | Two space-free words joined by one space come out joined by a hyphen, e.g. `my box` becomes `my-box`. |
| Magic.HostnamePaddedRun | main.py:26 | ` a  b ` becomes `a--b` for any space-free words `a`, `b`: the outer spaces go, and an inner run of spaces is not collapsed. |
| Magic.Apply | main.py:24-27 | `date` succeeds exactly on a string argument and gives the clock's text for that pattern. `hostname` is the host-name magic. A result is always a string. |
| Resolution.Resolve | main.py:55-66 | A snapshot holding `input_dict` is the duplicate-argument error, since `**` would pass a second value for the parameter of that name. Otherwise resolution keeps exactly the input's keys, in order, and succeeds exactly when every entry does. A non-magic non-string value is unchanged, and a non-magic string is substituted against the snapshot. A magic key gets its magic function's result, and a failure comes from some entry. |
| Resolution.ResolveEntries | main.py:57-66 | The loop alone, entry by entry: same keys in order; success exactly when every entry resolves; each value is its entry's resolution; a failure is some entry's error. |
| Resolution.ResolvePlain | main.py:55-66 | A mapping with no magic keys and no braces in its strings resolves to itself, unless the snapshot holds `input_dict`. Resolution is therefore idempotent on such data. |
| Resolution.UpdatePairs | main.py:93 | `update` accepts an object's pairs as they are. A string is accepted only when empty. A list is accepted exactly when every element has two characters, and each element gives the pair (first character, second character) in order. Anything else is the wrong-type error for `vars`. |
| Resolution.Merge | main.py:90-93 | Merging succeeds only for an object `settings` holding a truthy, non-string `vars` entry. |
| Resolution.MergeKeys | main.py:90-93 | The merged keys are unique. They are the `settings` keys except `vars`, in order, then new `vars` keys. A `vars` key takes its last `vars` value; every other key takes its `settings` value resolved against `settings`. |
| Resolution.BuildNamespace | main.py:94 | The namespace has the merged mapping's keys in order. Each value is that entry re-resolved against a snapshot of the whole merged mapping. A successful namespace never holds `input_dict`. |
| Resolution.SettingsCannotSeeVars | main.py:90-91 | A `settings` string naming something `settings` lacks fails the build, even if `vars` defines the name. |
| Resolution.VarsSeeSettings | main.py:91-94 | For any `settings` key `a` holding brace-free text and any `vars` key `b` whose last value is `{a}`, the namespace maps `b` to `a`'s text. |
| Resolution.VarsSeeSnapshot | main.py:94 | In a `vars` chain a→b→c, `a` gets the text of `b` as it stood before the final pass. That text is still a placeholder: one level only. |
| Resolution.NamespaceClash | main.py:90-94 | A `settings` object holding `input_dict` fails the merge and the namespace build with the duplicate-argument error. |
| Resolution.PlainEntries | main.py:55-66 | A plain object (no magic key at any depth, no brace in any string) resolves to itself against any snapshot without `input_dict`. |
| Resolution.MergePlain | main.py:90-93 | For plain `settings` the merge does not depend on the host name or clock. It is the raw `settings` without `vars`, updated with the raw `vars` pairs, and it is plain again. |
| Resolution.NamespaceRaw | main.py:90-94 | For plain `settings` the namespace is the raw merge (`RawNamespace`), whatever the environment, and is plain. |
| Resolution.RawNamespaceFacts | main.py:90-93 | For unique-key `settings`, the raw merge has unique keys: the `settings` keys other than `vars`, in order, then new keys from the `vars` pairs. A key among the pairs takes its last pair's value; `vars` itself is gone; every other key keeps its raw `settings` value. |
| Sections.ClassFlags | main.py:100-104 | The flags succeed exactly when every class name substitutes on its own. The result is `--class v1 --class v2 …` over the substituted names in order, stripped. |
| Sections.ClassPiecesFlags | main.py:101-103 | The loop's accumulated text is the joined flags plus exactly one trailing space, or empty for no names. |
| Sections.ClassFlagsExact | main.py:100-104 | When the last name ends in a visible character, the stripped flags are exactly `--class v1 … --class vn`, with no trailing space. |
| Sections.MenuEntry | main.py:97-104 | The resolved menuentry keeps its keys in their order. Only `class` changes: a truthy class becomes its flags string, and every other entry keeps its resolved value. |
| Sections.WithFlags | main.py:100-104 | With no truthy `class` the mapping is unchanged. Otherwise it succeeds exactly when every class name substitutes; the keys stay in place, `class` becomes the stripped flags, and every other key keeps its value. |
| Sections.SetPair | main.py:115 | A string pair renders as `key=value`. |
| Sections.SetFragment | main.py:112-117 | A non-empty section whose pairs all render gives the glued line substituted once more, and fails exactly when that substitution fails. A pair that does not render gives that pair's error. An empty section is the wrong-type error. |
| Sections.SetFragmentVerbatim | main.py:112-117 | When the glued line has no braces, the fragment is that line verbatim. |
| Sections.GluedAssignments | main.py:113-115 | For string values, the loop's line equals `Assignments`, the `key=value` texts written one after another with no separator (a reference built from the last pair back). |
| Sections.SetLine | main.py:112-117 | A non-empty section of brace-free string values renders exactly as its `Assignments`. |
| Sections.SetSection | main.py:109-117 | The set section is an object, resolved against the namespace and then rendered. |
| Sections.SetSubstitutesTwice | main.py:110-117 | A set value `{{n}}` becomes `{n}` during resolution and then the value of `n`, so set values are substituted twice. |
| Sections.InsmodFragment | main.py:122-126 | An empty module list gives no text. When every name substitutes on its own, the fragment is the `\tinsmod m\n\r` lines of the substituted names, in order. |
| Sections.InsmodEach | main.py:123-126 | Substituting the joined lines equals joining the lines of the individually substituted names. |
| Sections.InsmodLinesAppend | main.py:124-125 | The insmod lines for a longer list are the lines for its parts concatenated in order. |
| Sections.SearchPair | main.py:136 | A pair gives the stripped key, `=` exactly when the value is non-empty, the value, and one trailing space. |
| Sections.SearchFragment | main.py:134-137 | The fragment starts with `   search `, and the pairs after it are substituted once more. With at least one pair it ends with the last pair's space. |
| Sections.SearchEndsInSpace | main.py:136-137 | Substituting the glued pairs keeps the final space. |
| Sections.GluedSearch | main.py:134-136 | For string values, the loop's text equals `SearchWords`: for each pair in order, the stripped key, `=value` when the value is non-empty, and one space (a reference built from the last pair back). |
| Sections.SearchLine | main.py:134-137 | A search section of brace-free string values renders exactly as `   search ` followed by its `SearchWords`. |
| Sections.SearchSection | main.py:131-137 | The search section is an object, resolved against the namespace and then rendered. |
| Sections.TitlePart | main.py:146-149 | There is no text without a truthy title. Otherwise the text is `echo "` + the title substituted again + `"` + `\n\r`, and it fails exactly when that substitution fails. |
| Sections.BootPart | main.py:151-153 | There is no text without a truthy boot entry. Otherwise the text is a tab, the boot keyword and a space, then the path substituted again. |
| Sections.OptionPiece | main.py:155-157 | An option is the stripped key, `=` exactly for a non-empty value, and the value, substituted. It has a leading space for the kernel and none for the initramfs. |
| Sections.OptionsPart | main.py:155-157 | There is no text without truthy options. Non-object options fail, and object options give their pieces in order. |
| Sections.BootFragment | main.py:144-159 | The fragment is title line, boot line and options, in that order, each present only when truthy. It succeeds exactly when all three do, and with none of them it is empty. |
| Sections.KernelSection | main.py:142-159 | The kernel section is an object, resolved and then rendered with `linux` and spaced options. |
| Sections.InitramfsSection | main.py:163-180 | The initramfs section is an object, resolved and then rendered with `initrd` and glued options. |
| Sections.KernelTitleSubstitutedTwice | main.py:146-148 | A kernel title `{{n}}` renders as `echo "` + the value of `n` + `"`. |
| Sections.OptionsSpacing | main.py:155-178 | Options `a=x` and `b=""` render as ` a=x b` for the kernel (a space before each option) and `a=xb` for the initramfs (no separator at all). |
| Sections.BootLead | main.py:151-153 | Substituting the boot line keeps `\t<keyword> ` verbatim in front of the substituted path. |
| Sections.SearchTail | main.py:134-137 | A successfully substituted search line ends in a space. |
| Sections.SectionsPlain | main.py:97-180 | On a plain value each section renderer skips resolution: a non-object is its wrong-type error, a namespace with `input_dict` is the duplicate-argument error, and otherwise it renders the raw entries. |
| Script.Header | main.py:196 | The header is `menuentry '<title>' <class> <id> {` + `\n\r`, from the menuentry mapping. It succeeds exactly when all three names render. A missing title or class is the unknown-name error for it. |
| Script.HeaderNeedsNames | main.py:196 | A rendered header implies `title`, `class` and `id` were all present. |
| Script.Assemble | main.py:186-203 | The script starts with the preamble and then the header, and ends with `}`. |
| Script.BodyLines | main.py:197-202 | The body is the `load video` line, then the set, insmod, search, kernel and initramfs fragments, each followed by its own terminator (`\n\r`, `\n\r\t`, `\n\r\t`, `\n\r\t`, `\n\r`). |
| Script.PopRender | main.py:109-180 | Popping and rendering the body sections in order gives one fragment per section. Success means every section was present and truthy, and a missing first section is that section's missing-entry error. |
| Script.PopKeepsAll | main.py:36-41 | Sections present after a pop were present before it. |
| Script.Render | main.py:90-203 | A run succeeds only if every section is present and truthy and the menuentry object has `title`, `class` and `id`. A missing `settings` is the first error. The script starts with the preamble and `menuentry '`, and ends with `}`. |
| Script.RenderEntry | main.py:97-203 | After the namespace: a successful run had a menuentry object with `title`, `class` and `id`, and every body section present; the text opens and closes the entry. |
| Script.Document | main.py:194-203 | The script exists exactly when the header renders, and it is the skeleton around the header and the five fragments. |
| Script.Need | main.py:36-41 | Reading a section succeeds exactly when it is present and truthy, gives its stored value, and otherwise is its missing-entry error. |
| Script.ReadRender | main.py:109-180 | Reading and rendering the sections succeeds exactly when each is present and renders. Fragment `i` is the render of section `i`'s stored value. |
| Script.RenderReads | main.py:90-203 | Popping sections one by one is the same as reading them from the document: `Render` equals `Read`, which looks every section up in the original document. |
| Script.PopRenderReads | main.py:109-180 | The pop-and-render loop over distinct keys equals the read-and-render loop. |
| Script.RenderPlain | main.py:90-203 | A plain document renders to `RawScript`: the namespace is the raw merge, the menuentry is the raw object with its class flags, and each fragment is rendered from the raw section value. |
| Script.RenderPlainEnvFree | main.py:90-203 | A plain document renders the same under any host name and clock. |

## Left out

- Reading `config.json`, JSON parsing and the missing-file exit (main.py:74-81) are file I/O and a library parser. The model starts from an already-parsed ordered document.
- JSON numbers, booleans, `null` and nested lists have no `Value` form. The configuration shapes the program reads use strings, string lists and objects.
- OrderedMap.Display: the Python text of a non-empty list or object (its `repr`) is not modelled. Interpolating one is reported as a wrong-type error.
- Substitution.Field: format specs, `!r`/`!s` conversions, and attribute or index access in a field are reported as one unsupported-field error, not evaluated. A nested `{…}` inside a format spec, which Python would substitute, is therefore also an error here; a brace in the field name itself fails in both.
- Substitution.Field: Python treats any Unicode decimal digit as positional; the model only recognises `0`-`9`.
- Magic.Apply: the `date` magic's `strftime` is an uninterpreted function of the pattern (one fixed instant per run). The clock is not modelled, so nothing about the current year is stated.
- Printing the script and `exit(1)` (main.py:40, main.py:205) become the `Ok` text and an `Err` value.
- `add_config_entry_to_global` (main.py:44-52) is never called, and `vc_regex` (main.py:30) is never used. `DEBUG` and the unused globals (main.py:9-19) are never read.
- Sections.SetFragment: an empty `set` mapping makes the program fail when it concatenates a dict to a string at main.py:198. The model reports it as a wrong-type error. The case cannot arise, because `pop_entry_or_exit` already rejects an empty section.
- Sections.InsmodFragment: the contract states the fragment only when every module name substitutes on its own. A placeholder split across two names (`{` in one, `x}` in the next) is substituted as one field over the joined text, and the contract says nothing about that case.
