/**
 Imports in configuration files: the scanner that lists the references of a text, the scanner that
 replaces them, and the loop that repeats both at most eight times. How one imported line is written as
 an item of a YAML list is a parameter.
 */
module ConfigImports {
  import opened Ordering
  import opened Text
  import opened Wrappers

  // ---------------------------------------------------------------- recognising a reference

  function StripQuotes(s: string): string {
    TrimChar(TrimChar(s, '"'), '\'')
  }

  /** `trim_import_ref`. */
  function TrimRef(s: string): string {
    Trim(TrimEndChar(StripQuotes(Trim(s)), ','))
  }

  /** `ini_import_ref`: the key and the reference. */
  function IniImport(line: string): Option<(string, string)> {
    match SplitOnce(line, "=")
    case None => None
    case Some((key, value)) =>
      if !("!!import:" <= Trim(value)) then None
      else
        var reference := Trim(Trim(value)[|"!!import:"|..]);
        if reference == "" then None else Some((Trim(key), TrimRef(reference)))
  }

  /** `toml_import_ref`. */
  function TomlImport(line: string): Option<string> {
    match SplitOnce(line, "=")
    case None => None
    case Some((key, value)) =>
      if Trim(key) != "import" || TrimRef(Trim(value)) == "" then None else Some(TrimRef(Trim(value)))
  }

  function FindImportPart(parts: seq<string>): Option<string> {
    if parts == [] then None
    else if "import:" <= Trim(parts[0]) then Some(Trim(parts[0])[|"import:"|..])
    else FindImportPart(parts[1..])
  }

  function YamlReference(trimmed: string): Option<string> {
    if "- {" <= trimmed && |trimmed| > 3 && trimmed[|trimmed| - 1] == '}' then
      FindImportPart(SplitOn(trimmed[3..|trimmed| - 1], ','))
    else if "- import:" <= trimmed then Some(trimmed[|"- import:"|..])
    else None
  }

  /** `yaml_import_ref`: the indentation and the reference. */
  function YamlImport(line: string): Option<(string, string)> {
    match YamlReference(Trim(line))
    case None => None
    case Some(reference) =>
      if TrimRef(reference) == "" then None
      else Some((line[..|line| - |TrimStart(line)|], TrimRef(reference)))
  }

  // ---------------------------------------------------------------- the items of a text

  /** What the two scanners see: a table block, a line with a reference, or a plain line. */
  datatype Item =
    | Block(lines: seq<string>)
    | Yaml(indent: string, reference: string)
    | Ini(key: string, reference: string)
    | Plain(line: string)

  predicate StartsBlock(line: string) {
    "[[" <= Trim(line)
  }

  predicate EndsBlock(line: string) {
    "[" <= TrimStart(line)
  }

  function RestOfBlock(lines: seq<string>): (n: nat)
    ensures n <= |lines|
    ensures n < |lines| ==> EndsBlock(lines[n])
    ensures forall i :: 0 <= i < n ==> !EndsBlock(lines[i])
  {
    if lines == [] || EndsBlock(lines[0]) then 0 else RestOfBlock(lines[1..]) + 1
  }

  function LineItem(line: string): Item {
    match YamlImport(line)
    case Some((indent, reference)) => Yaml(indent, reference)
    case None =>
      match IniImport(line)
      case Some((key, reference)) => Ini(key, reference)
      case None => Plain(line)
  }

  function FirstItem(lines: seq<string>): (r: (Item, nat))
    requires lines != []
    ensures 1 <= r.1 <= |lines|
  {
    if StartsBlock(lines[0]) then
      var n := 1 + RestOfBlock(lines[1..]);
      (Block(lines[..n]), n)
    else (LineItem(lines[0]), 1)
  }

  function Items(lines: seq<string>): seq<Item> {
    if lines == [] then [] else [FirstItem(lines).0] + Items(lines[FirstItem(lines).1..])
  }

  // ---------------------------------------------------------------- import_refs

  function BlockRefs(lines: seq<string>): set<string> {
    set i | 0 <= i < |lines| && TomlImport(lines[i]).Some? :: TomlImport(lines[i]).value
  }

  function ItemRefs(item: Item): set<string> {
    match item
    case Block(lines) => BlockRefs(lines)
    case Yaml(_, reference) => {reference}
    case Ini(_, reference) => {reference}
    case Plain(_) => {}
  }

  function RefsOf(items: seq<Item>): set<string> {
    if items == [] then {} else ItemRefs(items[0]) + RefsOf(items[1..])
  }

  function Refs(content: string): set<string> {
    RefsOf(Items(Lines(content)))
  }

  method BlockStop(lines: seq<string>, start: nat) returns (index: nat)
    requires start < |lines|
    ensures index == start + 1 + RestOfBlock(lines[start + 1..]) && index <= |lines|
  {
    index := start + 1;
    while index < |lines| && !EndsBlock(lines[index])
      invariant start < index <= |lines|
      invariant RestOfBlock(lines[start + 1..]) == index - start - 1 + RestOfBlock(lines[index..])
    {
      assert lines[index..][0] == lines[index] && lines[index..][1..] == lines[index + 1..];
      index := index + 1;
    }
    assert index < |lines| ==> lines[index..][0] == lines[index];
  }

  lemma Suffix(lines: seq<string>, i: nat, n: nat)
    requires i < |lines| && n <= |lines| - i
    ensures lines[i..][0] == lines[i] && lines[i..][1..] == lines[i + 1..]
    ensures lines[i..][n..] == lines[i + n..] && lines[i..][..n] == lines[i..i + n]
  {
  }

  lemma ItemsStep(lines: seq<string>, item: Item, n: nat)
    requires lines != [] && FirstItem(lines) == (item, n)
    ensures n <= |lines| && Items(lines) == [item] + Items(lines[n..])
  {
  }

  lemma BlockAt(lines: seq<string>, index: nat, stop: nat)
    requires index < |lines| && StartsBlock(lines[index])
    requires stop == index + 1 + RestOfBlock(lines[index + 1..]) && stop <= |lines|
    ensures Items(lines[index..]) == [Block(lines[index..stop])] + Items(lines[stop..])
  {
    Suffix(lines, index, stop - index);
    ItemsStep(lines[index..], Block(lines[index..stop]), stop - index);
  }

  lemma LineAt(lines: seq<string>, index: nat)
    requires index < |lines| && !StartsBlock(lines[index])
    ensures Items(lines[index..]) == [LineItem(lines[index])] + Items(lines[index + 1..])
  {
    Suffix(lines, index, 1);
    ItemsStep(lines[index..], LineItem(lines[index]), 1);
  }

  lemma RefsCons(item: Item, rest: seq<Item>)
    ensures RefsOf([item] + rest) == ItemRefs(item) + RefsOf(rest)
  {
    assert ([item] + rest)[1..] == rest;
  }

  lemma LineRefs(line: string)
    ensures ItemRefs(LineItem(line)) ==
            if YamlImport(line).Some? then {YamlImport(line).value.1}
            else if IniImport(line).Some? then {IniImport(line).value.1}
            else {}
  {
  }

  /** `import_refs`; what will be sorted and freed of repetitions is collected as a set. */
  method ImportRefs(content: string) returns (sorted: seq<string>)
    ensures sorted == SortedKeys(Refs(content))
  {
    var refs := CollectRefs(content);
    sorted := SortAll(refs);
  }

  method CollectRefs(content: string) returns (refs: set<string>)
    ensures refs == Refs(content)
  {
    refs := {};
    var lines := Lines(content);
    var index := 0;
    assert lines[0..] == lines;
    while index < |lines|
      invariant index <= |lines|
      invariant Refs(content) == refs + RefsOf(Items(lines[index..]))
    {
      var line := lines[index];
      var item: set<string>;
      var start := index;
      if StartsBlock(line) {
        index := BlockStop(lines, start);
        item := BlockRefs(lines[start..index]);
        BlockAt(lines, start, index);
        RefsCons(Block(lines[start..index]), Items(lines[index..]));
      } else {
        item := RefsOfLine(line);
        index := index + 1;
        LineAt(lines, start);
        RefsCons(LineItem(line), Items(lines[index..]));
      }
      refs := refs + item;
    }
  }

  method RefsOfLine(line: string) returns (refs: set<string>)
    ensures refs == ItemRefs(LineItem(line))
  {
    LineRefs(line);
    var yaml := YamlImport(line);
    if yaml.Some? { return {yaml.value.1}; }
    var ini := IniImport(line);
    refs := if ini.Some? then {ini.value.1} else {};
  }

  // ---------------------------------------------------------------- expand_imports_with

  datatype Failure = Unresolved(reference: string) | MissingImport(reference: string) | LimitExceeded

  type Expansion = Result<seq<string>, Failure>

  /** The lists that a YAML file may import into; any other is an unknown one. */
  datatype YamlContext = RenameNode | Emoji | RulesetList | ProxyGroupList | UnknownList

  /** How one imported line is written as an item: from the list, the indentation and the trimmed line. */
  type YamlRewriter = (YamlContext, string, string) -> seq<string>

  /** From the last `rules:` upwards, there is a line `emojis:`. */
  predicate EmojisAboveRules(lines: seq<string>) {
    if lines == [] then false
    else if Trim(lines[|lines| - 1]) == "rules:" then exists i | 0 <= i < |lines| :: Trim(lines[i]) == "emojis:"
    else EmojisAboveRules(lines[..|lines| - 1])
  }

  /** The lines up to `n`, read from the last one upwards. */
  function ContextFrom(lines: seq<string>, n: nat, inEmojis: bool): YamlContext
    requires n <= |lines|
  {
    if n == 0 then UnknownList
    else
      var t := Trim(lines[n - 1]);
      if t == "" || t[0] == '#' then ContextFrom(lines, n - 1, inEmojis)
      else if t == "custom_proxy_group:" || t == "custom_groups:" then ProxyGroupList
      else if t == "rename_node:" then RenameNode
      else if t == "rulesets:" then RulesetList
      else if t == "emojis:" then ContextFrom(lines, n - 1, true)
      else if t == "rules:" && (inEmojis || EmojisAboveRules(lines)) then Emoji
      else ContextFrom(lines, n - 1, inEmojis)
  }

  /** `yaml_import_context`. */
  method YamlImportContext(lines: seq<string>) returns (context: YamlContext)
    ensures context == ContextFrom(lines, |lines|, false)
  {
    var inEmojis := false;
    var n: nat := |lines|;
    while n > 0
      invariant n <= |lines|
      invariant ContextFrom(lines, |lines|, false) == ContextFrom(lines, n, inEmojis)
    {
      n := n - 1;
      var t := Trim(lines[n]);
      if t == "" || t[0] == '#' { continue; }
      if t == "custom_proxy_group:" || t == "custom_groups:" { return ProxyGroupList; }
      if t == "rename_node:" { return RenameNode; }
      if t == "rulesets:" { return RulesetList; }
      if t == "emojis:" {
        inEmojis := true;
      } else if t == "rules:" && (inEmojis || EmojisAboveRules(lines)) {
        return Emoji;
      }
    }
    context := UnknownList;
  }

  /** A line that an imported text may hold besides its items. */
  predicate Skipped(line: string) {
    Trim(line) == "" || Trim(line)[0] == ';' || Trim(line)[0] == '#'
  }

  function YamlLines(context: YamlContext, indent: string, imported: seq<string>, rewrite: YamlRewriter): seq<string> {
    if imported == [] then []
    else
      (if Skipped(imported[0]) then [] else rewrite(context, indent, Trim(imported[0]))) +
      YamlLines(context, indent, imported[1..], rewrite)
  }

  /** `expand_yaml_import`. */
  method ExpandYamlImport(so: seq<string>, indent: string, text: string, rewrite: YamlRewriter)
    returns (lines: seq<string>)
    ensures lines == YamlLines(ContextFrom(so, |so|, false), indent, Lines(text), rewrite)
  {
    var context := YamlImportContext(so);
    var imported := Lines(text);
    lines := [];
    assert imported[0..] == imported;
    for i := 0 to |imported|
      invariant YamlLines(context, indent, imported, rewrite)
             == lines + YamlLines(context, indent, imported[i..], rewrite)
    {
      YamlLinesAt(lines, context, indent, imported, i, rewrite);
      var line := Trim(imported[i]);
      if line == "" || line[0] == ';' || line[0] == '#' { continue; }
      lines := lines + rewrite(context, indent, line);
    }
    assert imported[|imported|..] == [];
  }

  lemma YamlLinesAt(front: seq<string>, context: YamlContext, indent: string, imported: seq<string>, i: nat,
                    rewrite: YamlRewriter)
    requires i < |imported|
    ensures var own := if Skipped(imported[i]) then [] else rewrite(context, indent, Trim(imported[i]));
            front + YamlLines(context, indent, imported[i..], rewrite)
            == front + own + YamlLines(context, indent, imported[i + 1..], rewrite) && front + [] == front
  {
    assert imported[i..][0] == imported[i] && imported[i..][1..] == imported[i + 1..];
    var own := if Skipped(imported[i]) then [] else rewrite(context, indent, Trim(imported[i]));
    Regroup(front, own, YamlLines(context, indent, imported[i + 1..], rewrite));
  }

  function FirstOf(lines: seq<string>, f: string -> Option<string>): Option<string> {
    if lines == [] then None else if f(lines[0]).Some? then f(lines[0]) else FirstOf(lines[1..], f)
  }

  function FirstImport(lines: seq<string>): Option<string> {
    FirstOf(lines, TomlImport)
  }

  function IniLines(key: string, imported: seq<string>): seq<string> {
    if imported == [] then []
    else (if Skipped(imported[0]) then [] else [key + "=" + Trim(imported[0])]) + IniLines(key, imported[1..])
  }

  method ExpandIniImport(key: string, text: string) returns (lines: seq<string>)
    ensures lines == IniLines(key, Lines(text))
  {
    var imported := Lines(text);
    lines := [];
    assert imported[0..] == imported;
    for i := 0 to |imported|
      invariant IniLines(key, imported) == lines + IniLines(key, imported[i..])
    {
      IniLinesAt(lines, key, imported, i);
      var line := Trim(imported[i]);
      if line == "" || line[0] == ';' || line[0] == '#' { continue; }
      lines := lines + [key + "=" + line];
    }
    assert imported[|imported|..] == [];
  }

  lemma IniLinesAt(front: seq<string>, key: string, imported: seq<string>, i: nat)
    requires i < |imported|
    ensures var own := if Skipped(imported[i]) then [] else [key + "=" + Trim(imported[i])];
            front + IniLines(key, imported[i..]) == front + own + IniLines(key, imported[i + 1..]) &&
            front + [] == front
  {
    assert imported[i..][0] == imported[i] && imported[i..][1..] == imported[i + 1..];
    var own := if Skipped(imported[i]) then [] else [key + "=" + Trim(imported[i])];
    Regroup(front, own, IniLines(key, imported[i + 1..]));
  }

  /** The reference that the replacing scanner asks for, if the item has one. */
  function AskedBy(item: Item): Option<string> {
    match item
    case Block(lines) => FirstImport(lines)
    case Yaml(_, reference) => Some(reference)
    case Ini(_, reference) => Some(reference)
    case Plain(_) => None
  }

  function ItemLines(item: Item, so: seq<string>, text: Option<string>, rewrite: YamlRewriter): seq<string>
    requires text.Some? == AskedBy(item).Some?
  {
    match item
    case Block(lines) => if text.Some? then Lines(text.value) else lines
    case Yaml(indent, _) => YamlLines(ContextFrom(so, |so|, false), indent, Lines(text.value), rewrite)
    case Ini(key, _) => IniLines(key, Lines(text.value))
    case Plain(line) => [line]
  }

  function ExpandItems(items: seq<Item>, so: seq<string>, loaded: map<string, string>, rewrite: YamlRewriter): Expansion
    decreases |items|
  {
    if items == [] then Ok(so)
    else
      var asked := AskedBy(items[0]);
      if asked.Some? && asked.value !in loaded then Err(MissingImport(asked.value))
      else
        var text := if asked.Some? then Some(loaded[asked.value]) else None;
        ExpandItems(items[1..], so + ItemLines(items[0], so, text, rewrite), loaded, rewrite)
  }

  function Expand(content: string, loaded: map<string, string>, rewrite: YamlRewriter): Result<string, Failure> {
    match ExpandItems(Items(Lines(content)), [], loaded, rewrite)
    case Err(e) => Err(e)
    case Ok(lines) => Ok(Join(lines, "\n"))
  }

  /** `expand_imports_with`, its resolver a lookup in what has been loaded. */
  method ExpandImportsWith(content: string, loaded: map<string, string>, rewrite: YamlRewriter)
    returns (r: Result<string, Failure>)
    ensures r == Expand(content, loaded, rewrite)
  {
    var lines := Lines(content);
    var expanded: seq<string> := [];
    var index := 0;
    assert lines[0..] == lines;
    while index < |lines|
      invariant index <= |lines|
      invariant ExpandItems(Items(lines), [], loaded, rewrite)
             == ExpandItems(Items(lines[index..]), expanded, loaded, rewrite)
    {
      var line := lines[index];
      if StartsBlock(line) {
        var start := index;
        index := BlockStop(lines, start);
        var block := lines[start..index];
        BlockAt(lines, start, index);
        ExpandCons(Block(block), Items(lines[index..]), expanded, loaded, rewrite);
        var reference := FirstImport(block);
        if reference.Some? {
          if reference.value !in loaded { return Err(MissingImport(reference.value)); }
          expanded := expanded + Lines(loaded[reference.value]);
        } else {
          expanded := expanded + block;
        }
      } else {
        LineAt(lines, index);
        var added := ExpandLine(line, Items(lines[index + 1..]), expanded, loaded, rewrite);
        if added.Err? { return Err(added.error); }
        expanded := expanded + added.value;
        index := index + 1;
      }
    }
    r := Ok(Join(expanded, "\n"));
  }

  method ExpandLine(line: string, ghost rest: seq<Item>, so: seq<string>, loaded: map<string, string>,
                    rewrite: YamlRewriter)
    returns (r: Expansion)
    ensures ExpandItems([LineItem(line)] + rest, so, loaded, rewrite)
            == if r.Err? then r else ExpandItems(rest, so + r.value, loaded, rewrite)
  {
    ExpandCons(LineItem(line), rest, so, loaded, rewrite);
    var yaml := YamlImport(line);
    if yaml.Some? {
      var (indent, reference) := yaml.value;
      assert LineItem(line) == Yaml(indent, reference);
      if reference !in loaded { return Err(MissingImport(reference)); }
      var items := ExpandYamlImport(so, indent, loaded[reference], rewrite);
      return Ok(items);
    }
    var ini := IniImport(line);
    if ini.Some? {
      var (key, reference) := ini.value;
      assert LineItem(line) == Ini(key, reference);
      if reference !in loaded { return Err(MissingImport(reference)); }
      var items := ExpandIniImport(key, loaded[reference]);
      return Ok(items);
    }
    assert LineItem(line) == Plain(line);
    return Ok([line]);
  }

  lemma ExpandCons(item: Item, rest: seq<Item>, so: seq<string>, loaded: map<string, string>, rewrite: YamlRewriter)
    ensures ExpandItems([item] + rest, so, loaded, rewrite) ==
            var asked := AskedBy(item);
            if asked.Some? && asked.value !in loaded then Err(MissingImport(asked.value))
            else
              var text := if asked.Some? then Some(loaded[asked.value]) else None;
              ExpandItems(rest, so + ItemLines(item, so, text, rewrite), loaded, rewrite)
  {
    assert ([item] + rest)[1..] == rest;
  }

  // ---------------------------------------------------------------- the two scanners agree

  lemma {:induction false} FirstIsThere(lines: seq<string>, f: string -> Option<string>) returns (i: nat)
    ensures FirstOf(lines, f).Some? ==> i < |lines| && f(lines[i]) == FirstOf(lines, f)
    ensures FirstOf(lines, f).None? ==> forall j :: 0 <= j < |lines| ==> f(lines[j]).None?
  {
    i := 0;
    if lines != [] && f(lines[0]).None? {
      var k := FirstIsThere(lines[1..], f);
      i := k + 1;
      forall j | 0 < j < |lines| ensures lines[1..][j - 1] == lines[j] {}
    }
  }

  lemma FirstImportIsListed(lines: seq<string>)
    ensures FirstImport(lines).Some? <==> BlockRefs(lines) != {}
    ensures FirstImport(lines).Some? ==> FirstImport(lines).value in BlockRefs(lines)
  {
    var i := FirstIsThere(lines, TomlImport);
    if FirstImport(lines).Some? { assert TomlImport(lines[i]).value in BlockRefs(lines); }
  }

  lemma AskedIsListed(item: Item)
    ensures AskedBy(item).Some? <==> ItemRefs(item) != {}
    ensures AskedBy(item).Some? ==> AskedBy(item).value in ItemRefs(item)
  {
    if item.Block? { FirstImportIsListed(item.lines); }
  }

  /** Whatever one scanner asks for, the other has listed: with everything listed loaded, nothing is missing. */
  lemma {:induction false} NothingMissing(items: seq<Item>, so: seq<string>, loaded: map<string, string>,
                                          rewrite: YamlRewriter)
    requires RefsOf(items) <= loaded.Keys
    ensures ExpandItems(items, so, loaded, rewrite).Ok?
    decreases |items|
  {
    if items != [] {
      AskedIsListed(items[0]);
      var asked := AskedBy(items[0]);
      var text := if asked.Some? then Some(loaded[asked.value]) else None;
      NothingMissing(items[1..], so + ItemLines(items[0], so, text, rewrite), loaded, rewrite);
    }
  }

  lemma PlainLine(line: string)
    requires ItemRefs(LineItem(line)) == {}
    ensures LineItem(line) == Plain(line)
  {
  }

  /** An item without references gives back the lines it was made from. */
  lemma ItemWithoutRefs(lines: seq<string>, item: Item, n: nat, so: seq<string>, rewrite: YamlRewriter)
    requires lines != [] && FirstItem(lines) == (item, n) && ItemRefs(item) == {}
    ensures AskedBy(item).None? && n <= |lines| && ItemLines(item, so, None, rewrite) == lines[..n]
  {
    AskedIsListed(item);
    if !StartsBlock(lines[0]) {
      PlainLine(lines[0]);
      assert lines[..1] == [lines[0]];
    }
  }

  lemma {:induction false} NoRefsNoChange(lines: seq<string>, so: seq<string>, loaded: map<string, string>,
                                          rewrite: YamlRewriter)
    requires RefsOf(Items(lines)) == {}
    ensures ExpandItems(Items(lines), so, loaded, rewrite) == Ok(so + lines)
    decreases |lines|
  {
    if lines == [] {
      assert so + lines == so;
    } else {
      var (item, n) := FirstItem(lines);
      ItemsStep(lines, item, n);
      RefsCons(item, Items(lines[n..]));
      ItemWithoutRefs(lines, item, n, so, rewrite);
      ExpandCons(item, Items(lines[n..]), so, loaded, rewrite);
      NoRefsNoChange(lines[n..], so + lines[..n], loaded, rewrite);
      assert so + lines[..n] + lines[n..] == so + lines;
    }
  }

  /** A text without references comes out as its own lines. */
  lemma TextWithoutRefs(content: string, loaded: map<string, string>, rewrite: YamlRewriter)
    requires Refs(content) == {}
    ensures Expand(content, loaded, rewrite) == Ok(Join(Lines(content), "\n"))
  {
    NoRefsNoChange(Lines(content), [], loaded, rewrite);
    assert [] + Lines(content) == Lines(content);
  }

  /** With every listed reference loaded, expanding succeeds. */
  lemma ListedRefsSuffice(content: string, loaded: map<string, string>, rewrite: YamlRewriter)
    requires Refs(content) <= loaded.Keys
    ensures Expand(content, loaded, rewrite).Ok?
  {
    NothingMissing(Items(Lines(content)), [], loaded, rewrite);
  }

  // ---------------------------------------------------------------- the loop

  /** What a reference resolves to in a given round; files may change from round to round. */
  type Resolver = (nat, string) -> Option<string>

  predicate Resolves(content: string, round: nat, resolve: Resolver) {
    forall r :: r in Refs(content) ==> resolve(round, r).Some?
  }

  /** The first reference of the text, in order, that does not resolve in this round. */
  ghost predicate FirstUnresolvable(content: string, round: nat, reference: string, resolve: Resolver) {
    && reference in Refs(content) && resolve(round, reference).None?
    && forall other :: other in Refs(content) && resolve(round, other).None? ==> AtMost(reference, other)
  }

  function Loaded(content: string, round: nat, resolve: Resolver): map<string, string>
    requires Resolves(content, round, resolve)
  {
    map r | r in Refs(content) :: resolve(round, r).value
  }

  /** What a round makes of a text: nothing more to do, the next text, or a reference that does not resolve. */
  datatype Outcome = Done | Next(text: string) | Stuck

  /** What a round gives, by the text and the number of the round. */
  type Round = (string, nat) -> Outcome

  /** Every listed reference is resolved, then replaced. */
  function NextText(text: string, round: nat, resolve: Resolver, rewrite: YamlRewriter): Outcome {
    if Refs(text) == {} then Done
    else if !Resolves(text, round, resolve) then Stuck
    else
      match Expand(text, Loaded(text, round, resolve), rewrite)
      case Ok(next) => Next(next)
      case Err(_) => Stuck
  }

  /** A round is the last when no reference is listed, stuck when one does not resolve, and a replacement else. */
  lemma RoundByCases(text: string, round: nat, resolve: Resolver, rewrite: YamlRewriter)
    ensures var outcome := NextText(text, round, resolve, rewrite);
            (outcome.Done? <==> Refs(text) == {}) &&
            (outcome.Stuck? <==> exists r :: r in Refs(text) && resolve(round, r).None?) &&
            (outcome.Next? <==> Refs(text) != {} && forall r :: r in Refs(text) ==> resolve(round, r).Some?)
  {
    if Resolves(text, round, resolve) { ListedRefsSuffice(text, Loaded(text, round, resolve), rewrite); }
  }

  function RoundOf(resolve: Resolver, rewrite: YamlRewriter): Round {
    (text: string, round: nat) => NextText(text, round, resolve, rewrite)
  }

  /** The text after so many rounds that each gave a next one. */
  function Iterate(content: string, rounds: nat, step: Round): Option<string>
    decreases rounds
  {
    if rounds == 0 then Some(content)
    else
      var before := Iterate(content, rounds - 1, step);
      if before.None? then None
      else
        var outcome := step(before.value, rounds - 1);
        if outcome.Next? then Some(outcome.text) else None
  }

  /** The first of these references that does not resolve, all before it resolving. */
  ghost predicate FirstFailure(refs: seq<string>, round: nat, reference: string, resolve: Resolver) {
    exists i :: 0 <= i < |refs| && refs[i] == reference && resolve(round, reference).None? &&
                forall x :: x in refs[..i] ==> resolve(round, x).Some?
  }

  /** The references are resolved in order, until one does not. */
  method LoadAll(refs: seq<string>, round: nat, resolve: Resolver) returns (r: Result<map<string, string>, Failure>)
    ensures r.Ok? ==> forall x :: x in r.value <==> x in refs
    ensures r.Ok? ==> forall x :: x in refs ==> x in r.value && resolve(round, x) == Some(r.value[x])
    ensures r.Err? ==> r.error.Unresolved? && FirstFailure(refs, round, r.error.reference, resolve)
  {
    var loaded: map<string, string> := map[];
    for i := 0 to |refs|
      invariant forall x :: x in loaded <==> x in refs[..i]
      invariant forall x :: x in loaded ==> resolve(round, x) == Some(loaded[x])
    {
      var text := resolve(round, refs[i]);
      assert refs[..i + 1] == refs[..i] + [refs[i]];
      if text.None? { return Err(Unresolved(refs[i])); }
      loaded := loaded[refs[i] := text.value];
    }
    assert refs[..|refs|] == refs;
    return Ok(loaded);
  }

  lemma LoadedAll(content: string, round: nat, loaded: map<string, string>, resolve: Resolver)
    requires var refs := SortedKeys(Refs(content));
             && (forall x :: x in loaded <==> x in refs)
             && (forall x :: x in refs ==> x in loaded && resolve(round, x) == Some(loaded[x]))
    ensures Resolves(content, round, resolve) && loaded == Loaded(content, round, resolve)
  {
    SortedKeysHold(Refs(content));
  }

  lemma FirstOfSorted(content: string, round: nat, reference: string, resolve: Resolver)
    requires FirstFailure(SortedKeys(Refs(content)), round, reference, resolve)
    ensures FirstUnresolvable(content, round, reference, resolve)
  {
    var refs := SortedKeys(Refs(content));
    SortedKeysHold(Refs(content));
    var i :| 0 <= i < |refs| && refs[i] == reference && resolve(round, reference).None? &&
             forall x :: x in refs[..i] ==> resolve(round, x).Some?;
    BeforeIsTaken(refs, i);
    forall other | other in Refs(content) && resolve(round, other).None? ensures AtMost(reference, other) {
      var j :| 0 <= j < |refs| && refs[j] == other;
      if j >= i { SortedKeysIncrease(Refs(content), i, j); }
    }
  }

  lemma BeforeIsTaken(refs: seq<string>, i: nat)
    requires i <= |refs|
    ensures forall j :: 0 <= j < i ==> refs[j] in refs[..i]
  {
    forall j | 0 <= j < i ensures refs[j] in refs[..i] { assert refs[..i][j] == refs[j]; }
  }

  /** After so many rounds the text has no references left: the first iterate that has none. */
  ghost predicate Settles(content: string, step: Round, k: nat, text: string) {
    Iterate(content, k, step) == Some(text) && step(text, k).Done?
  }

  ghost predicate NeverSettles(content: string, step: Round) {
    forall k: nat, text :: k < 8 ==> !Settles(content, step, k, text)
  }

  /** Every round before this one gave a next text. */
  lemma {:induction false} NoneStaysNone(content: string, j: nat, k: nat, step: Round)
    requires j <= k && Iterate(content, j, step).None?
    ensures Iterate(content, k, step).None?
    decreases k
  {
    if j < k { NoneStaysNone(content, j, k - 1, step); }
  }

  /** Only one iterate settles, and only when all before it go on. */
  lemma SettlesOnce(content: string, j: nat, k: nat, text: string, step: Round)
    requires j < k && Iterate(content, k, step).Some?
    ensures !Settles(content, step, j, text)
  {
    if Iterate(content, j + 1, step).None? { NoneStaysNone(content, j + 1, k, step); }
  }

  lemma StuckNeverSettles(content: string, round: nat, text: string, step: Round)
    requires Iterate(content, round, step) == Some(text) && step(text, round).Stuck?
    ensures NeverSettles(content, step)
  {
    forall k: nat, other | k < 8 ensures !Settles(content, step, k, other) {
      if k < round { SettlesOnce(content, k, round, other, step); }
      else if k > round { NoneStaysNone(content, round + 1, k, step); }
    }
  }

  lemma EightNeverSettle(content: string, rounds: nat, step: Round)
    requires rounds == 8 && Iterate(content, rounds, step).Some?
    ensures NeverSettles(content, step)
  {
    forall k: nat, other | k < 8 ensures !Settles(content, step, k, other) {
      SettlesOnce(content, k, rounds, other, step);
    }
  }

  /** The step is a round of the loop. Only mentioning a round says so, which keeps its text out of the way. */
  ghost predicate IsRound(step: Round, resolve: Resolver, rewrite: YamlRewriter) {
    forall text, round {:trigger NextText(text, round, resolve, rewrite)} ::
      step(text, round) == NextText(text, round, resolve, rewrite)
  }

  /** One round; the failure is the reference that did not resolve. */
  method OneRound(text: string, round: nat, resolve: Resolver, rewrite: YamlRewriter, ghost step: Round)
    returns (outcome: Outcome, failure: Failure)
    requires IsRound(step, resolve, rewrite)
    ensures outcome == step(text, round)
    ensures outcome.Stuck? ==> failure.Unresolved? && FirstUnresolvable(text, round, failure.reference, resolve)
  {
    assert step(text, round) == NextText(text, round, resolve, rewrite);
    failure := Unresolved("");
    var refs := ImportRefs(text);
    SortedKeysHold(Refs(text));
    if refs == [] {
      assert Refs(text) == {};
      return Done, failure;
    }
    assert refs[0] in Refs(text);
    var loaded := LoadAll(refs, round, resolve);
    if loaded.Err? {
      FirstOfSorted(text, round, loaded.error.reference, resolve);
      return Stuck, loaded.error;
    }
    LoadedAll(text, round, loaded.value, resolve);
    ListedRefsSuffice(text, loaded.value, rewrite);
    var next := ExpandImportsWith(text, loaded.value, rewrite);
    outcome := Next(next.value);
  }

  /** Every one of the rounds gave a next text. */
  ghost predicate AllGoOn(content: string, step: Round) {
    forall k: nat :: k <= 8 ==> Iterate(content, k, step).Some?
  }

  /** In this round the loop meets a reference that does not resolve. */
  ghost predicate FailsAt(content: string, step: Round, k: nat, reference: string, resolve: Resolver) {
    var text := Iterate(content, k, step);
    text.Some? && step(text.value, k).Stuck? && FirstUnresolvable(text.value, k, reference, resolve)
  }

  /** What the loop returns: the first import-free iterate among the first eight, or why there is none. */
  ghost predicate LoopEnds(content: string, step: Round, r: Result<string, Failure>, resolve: Resolver) {
    match r
    case Ok(text) => exists k: nat :: k < 8 && Settles(content, step, k, text)
    case Err(LimitExceeded) => NeverSettles(content, step) && AllGoOn(content, step)
    case Err(Unresolved(reference)) =>
      NeverSettles(content, step) && exists k: nat :: k < 8 && FailsAt(content, step, k, reference, resolve)
    case Err(MissingImport(_)) => false
  }

  lemma GoneOnSoFar(content: string, k: nat, step: Round)
    requires Iterate(content, k, step).Some?
    ensures forall j: nat :: j <= k ==> Iterate(content, j, step).Some?
  {
    forall j: nat | j <= k ensures Iterate(content, j, step).Some? {
      if Iterate(content, j, step).None? { NoneStaysNone(content, j, k, step); }
    }
  }

  method ExpandRounds(content: string, resolve: Resolver, rewrite: YamlRewriter, ghost step: Round)
    returns (r: Result<string, Failure>)
    requires IsRound(step, resolve, rewrite)
    ensures LoopEnds(content, step, r, resolve)
  {
    var current := content;
    for round := 0 to 8
      invariant Iterate(content, round, step) == Some(current)
    {
      var outcome, failure := OneRound(current, round, resolve, rewrite, step);
      if outcome.Done? {
        assert Settles(content, step, round, current);
        return Ok(current);
      }
      if outcome.Stuck? {
        StuckNeverSettles(content, round, current, step);
        assert FailsAt(content, step, round, failure.reference, resolve);
        return Err(failure);
      }
      current := outcome.text;
    }
    ghost var rounds := 8;
    EightNeverSettle(content, rounds, step);
    GoneOnSoFar(content, rounds, step);
    r := Err(LimitExceeded);
  }

  /**
   `expand_config_imports`: it returns the first import-free iterate among the first eight, names a
   reference that did not resolve, or gives up after eight rounds. It never meets a missing import.
   */
  method ExpandConfigImports(content: string, resolve: Resolver, rewrite: YamlRewriter)
    returns (r: Result<string, Failure>)
    ensures LoopEnds(content, RoundOf(resolve, rewrite), r, resolve)
  {
    r := ExpandRounds(content, resolve, rewrite, RoundOf(resolve, rewrite));
  }

  /** When every reference resolves, no round is stuck. */
  lemma AllResolvingNeverStuck(text: string, round: nat, resolve: Resolver, rewrite: YamlRewriter)
    requires forall reference :: resolve(round, reference).Some?
    ensures !NextText(text, round, resolve, rewrite).Stuck?
  {
    ListedRefsSuffice(text, Loaded(text, round, resolve), rewrite);
  }

  lemma {:induction false} NeverStuckIterates(content: string, k: nat, step: Round) returns (j: nat, text: string)
    requires forall t, round :: !step(t, round).Stuck?
    ensures j <= k && Iterate(content, j, step) == Some(text)
    ensures j < k ==> Settles(content, step, j, text)
    decreases k
  {
    if k == 0 {
      j, text := 0, content;
    } else {
      j, text := NeverStuckIterates(content, k - 1, step);
      if j == k - 1 && step(text, j).Next? { j, text := k, step(text, j).text; }
    }
  }

  /**
   When every reference resolves, the loop succeeds exactly when one of the first eight iterates is
   import-free: after any number of rounds either there is a text, or an earlier one was import-free.
   */
  lemma AllResolvingIterates(content: string, k: nat, resolve: Resolver, rewrite: YamlRewriter)
    returns (j: nat, text: string)
    requires forall round, reference :: resolve(round, reference).Some?
    ensures j <= k && Iterate(content, j, RoundOf(resolve, rewrite)) == Some(text)
    ensures j < k ==> Settles(content, RoundOf(resolve, rewrite), j, text)
  {
    var step := RoundOf(resolve, rewrite);
    forall t, round ensures !step(t, round).Stuck? { AllResolvingNeverStuck(t, round, resolve, rewrite); }
    j, text := NeverStuckIterates(content, k, step);
  }
}
