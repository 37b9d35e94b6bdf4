/** What an import puts in its place: in an INI line, in a TOML table block and in a YAML list. */
module ImportedLines {
  import opened ConfigImports
  import opened Text
  import opened Wrappers

  // ---------------------------------------------------------------- recognising what is written

  predicate IsQuote(c: char) {
    c == '"' || c == '\''
  }

  /** A reference that is written as it stands: nothing around it, no quotes and no final comma. */
  predicate PlainRef(reference: string) {
    && reference != "" && Trimmed(reference)
    && !IsQuote(reference[0]) && !IsQuote(reference[|reference| - 1])
    && reference[|reference| - 1] != ','
  }

  lemma NothingTrimmed(s: string, c: char)
    requires s != "" && s[0] != c && s[|s| - 1] != c
    ensures TrimChar(s, c) == s
  {
  }

  lemma PlainRefKept(reference: string)
    requires PlainRef(reference)
    ensures TrimRef(reference) == reference
  {
    TrimOfTrimmed(reference);
    NothingTrimmed(reference, '"');
    NothingTrimmed(reference, '\'');
  }

  /** A quoted reference is the reference. */
  lemma QuotedRef(reference: string, quote: char)
    requires PlainRef(reference) && IsQuote(quote)
    ensures TrimRef([quote] + reference + [quote]) == reference
  {
    var s := [quote] + reference + [quote];
    TrimOfTrimmed(s);
    NothingTrimmed(reference, '"');
    NothingTrimmed(reference, '\'');
    NothingTrimmed(s, if quote == '"' then '\'' else '"');
    Unquoted(reference, quote);
    TrimOfTrimmed(reference);
  }

  lemma Unquoted(s: string, c: char)
    requires s != "" && s[0] != c && s[|s| - 1] != c
    ensures TrimChar([c] + s + [c], c) == s
  {
    var q := [c] + s + [c];
    assert q[1..] == s + [c] && (s + [c])[..|s + [c]| - 1] == s;
    assert TrimStartChar(q, c) == TrimStartChar(s + [c], c) == s + [c];
    assert TrimEndChar(s + [c], c) == TrimEndChar(s, c) == s;
  }

  lemma CommaText(text: string, loose: string)
    requires text == loose + [','] && loose != "" && loose[|loose| - 1] != ',' && !IsSpace(loose[0])
    requires !IsQuote(loose[0])
    ensures TrimRef(text) == Trim(loose)
  {
    TrimOfTrimmed(text);
    NothingTrimmed(text, '"');
    NothingTrimmed(text, '\'');
    assert text[..|text| - 1] == loose;
    assert TrimEndChar(text, ',') == TrimEndChar(loose, ',') == loose;
  }

  /** A comma behind a reference is cut off, with the space before it. */
  lemma CommaIsCut(reference: string, space: string)
    requires PlainRef(reference) && AllSpaces(space)
    ensures TrimRef(reference + space + [',']) == reference
  {
    LooseText(reference, space, reference + space);
    CommaText(reference + space + [','], reference + space);
  }

  lemma LooseText(reference: string, space: string, loose: string)
    requires PlainRef(reference) && AllSpaces(space) && loose == reference + space
    ensures loose[0] == reference[0] && loose[|loose| - 1] != ',' && Trim(loose) == reference
  {
    if space != "" { assert loose[|loose| - 1] == space[|space| - 1] && space[|space| - 1] in space; }
    TrailingSpaces(reference, space);
    assert TrimStart(loose) == loose;
  }

  /** A key as it may stand before the equals sign: nothing that opens a list item or a table. */
  predicate PlainKey(key: string) {
    Trimmed(key) && '=' !in key && (key != "" ==> key[0] != '-' && key[0] != '[')
  }

  lemma ImportValue(value: string, mark: string, reference: string)
    requires PlainRef(reference) && mark == "!!import:" && value == mark + reference
    ensures Trimmed(value) && Trim(value) == value && mark <= value
    ensures Trim(value[|mark|..]) == reference && TrimRef(reference) == reference
  {
    assert value[|mark|..] == reference && value[0] == mark[0];
    TrimOfTrimmed(value);
    TrimOfTrimmed(reference);
    PlainRefKept(reference);
  }

  lemma IniParts(line: string, key: string, value: string, mark: string, reference: string)
    requires PlainKey(key) && PlainRef(reference) && mark == "!!import:" && value == mark + reference
    requires line == key + ['='] + value
    ensures IniImport(line) == Some((key, reference))
  {
    ImportValue(value, mark, reference);
    SplitOnceUnique(key, '=', value);
    TrimOfTrimmed(key);
  }

  lemma IniItem(line: string, key: string, value: string, mark: string, reference: string)
    requires PlainKey(key) && PlainRef(reference) && mark == "!!import:" && value == mark + reference
    requires line == key + ['='] + value
    ensures !StartsBlock(line) && LineItem(line) == Ini(key, reference)
  {
    ImportValue(value, mark, reference);
    IniParts(line, key, value, mark, reference);
    FirstOfImport(line, key, value);
    LineIsIni(line, key, reference);
  }

  lemma LineIsIni(line: string, key: string, reference: string)
    requires YamlImport(line).None? && IniImport(line) == Some((key, reference))
    ensures LineItem(line) == Ini(key, reference)
  {
  }

  /** An import by key: the line is seen as one, with its key and its reference. */
  lemma IniImportIsSeen(key: string, reference: string)
    requires PlainKey(key) && PlainRef(reference)
    ensures !StartsBlock(key + "=!!import:" + reference)
    ensures LineItem(key + "=!!import:" + reference) == Ini(key, reference)
  {
    var mark, whole := "!!import:", "=!!import:";
    assert whole == ['='] + mark;
    MarkMoved(key, whole, mark, reference);
    IniItem(key + whole + reference, key, mark + reference, mark, reference);
  }

  lemma MarkMoved(key: string, whole: string, mark: string, reference: string)
    requires whole == ['='] + mark
    ensures key + whole + reference == key + ['='] + (mark + reference)
  {
  }

  lemma FirstOfImport(line: string, key: string, value: string)
    requires PlainKey(key) && line == key + ['='] + value && Trimmed(value) && value != ""
    ensures !StartsBlock(line) && YamlImport(line).None?
  {
    TrimOfTrimmed(line);
    assert line[0] == if key == "" then '=' else key[0];
    OtherStart(line);
  }

  lemma OtherStart(line: string)
    requires line != "" && line[0] != '-' && line[0] != '[' && Trim(line) == line
    ensures !StartsBlock(line) && YamlImport(line).None?
  {
    assert "- {"[0] == '-' && "- import:"[0] == '-' && "[["[0] == '[';
  }

  /** A line of a table block: `import`, an equals sign and the reference in quotes, with any space between. */
  lemma TomlImportIsSeen(a: string, b: string, c: string, d: string, reference: string, quote: char)
    requires AllSpaces(a) && AllSpaces(b) && AllSpaces(c) && AllSpaces(d) && PlainRef(reference) && IsQuote(quote)
    ensures TomlImport(a + "import" + b + ['='] + (c + ([quote] + reference + [quote]) + d)) == Some(reference)
  {
    var name, quoted := "import", [quote] + reference + [quote];
    var key, value := a + name + b, c + quoted + d;
    assert '=' !in key;
    SplitOnceUnique(key, '=', value);
    SpacesAround(name, a, b);
    SpacesAround(quoted, c, d);
    QuotedRef(reference, quote);
  }

  lemma SpaceBeforeRef(reference: string)
    requires PlainRef(reference)
    ensures TrimRef([' '] + reference) == reference
  {
    LeadingSpaces([' '], reference);
    assert Trim([' '] + reference) == TrimEnd(reference) == reference;
    PlainRefKept(reference);
    TrimOfTrimmed(reference);
  }

  /** What an item at an indentation is seen as. */
  lemma ItemAt(indent: string, item: string, reference: string)
    requires AllSpaces(indent) && PlainRef(reference) && Trimmed(item) && item != "" && item[0] == '-'
    requires YamlReference(item) == Some([' '] + reference)
    ensures !StartsBlock(indent + item) && LineItem(indent + item) == Yaml(indent, reference)
  {
    LeadingSpaces(indent, item);
    TrimOfTrimmed(item);
    SpaceBeforeRef(reference);
    DashIsNoBracket(item);
    Indented(indent + item, indent, item, [' '] + reference);
  }

  lemma Indented(line: string, indent: string, item: string, written: string)
    requires line == indent + item && TrimStart(line) == item && Trim(line) == item
    requires YamlReference(item) == Some(written) && TrimRef(written) != "" && !("[[" <= item)
    ensures !StartsBlock(line) && LineItem(line) == Yaml(indent, TrimRef(written))
  {
    assert line[..|line| - |item|] == indent;
  }

  lemma DashIsNoBracket(item: string)
    requires item != "" && item[0] == '-'
    ensures !("[[" <= item)
  {
    assert "[["[0] == '[';
  }

  lemma DashImport(item: string, head: string, reference: string)
    requires head == "- import: " && item == head + reference && PlainRef(reference)
    ensures YamlReference(item) == Some([' '] + reference) && Trimmed(item) && item[0] == '-'
  {
    var mark := "- import:";
    assert |mark| == 9 && head == mark + [' '] && head[0] == '-' && head[2] == 'i';
    assert mark <= item && item[|mark|..] == [' '] + reference && item[2] == head[2];
    assert "- {"[2] == '{';
  }

  /** A list item of a YAML file. */
  lemma YamlImportIsSeen(indent: string, reference: string)
    requires AllSpaces(indent) && PlainRef(reference)
    ensures !StartsBlock(indent + ("- import: " + reference))
    ensures LineItem(indent + ("- import: " + reference)) == Yaml(indent, reference)
  {
    var head := "- import: ";
    DashImport(head + reference, head, reference);
    ItemAt(indent, head + reference, reference);
  }

  lemma Braced(item: string, head: string, reference: string)
    requires head == "- {import: " && item == head + reference + ['}'] && PlainRef(reference) && ',' !in reference
    ensures YamlReference(item) == Some([' '] + reference) && Trimmed(item) && item[0] == '-'
  {
    var open, mark := "- {", "import:";
    assert |open| == 3 && head == open + (mark + [' ']) && head[0] == '-';
    var inner := mark + [' '] + reference;
    assert item == open + (inner + ['}']);
    Between(open, inner, item);
    InnerReference(inner, mark, reference);
  }

  lemma Between(open: string, inner: string, item: string)
    requires item == open + (inner + ['}'])
    ensures open <= item && item[|open|..|item| - 1] == inner && item[|item| - 1] == '}'
  {
  }

  lemma InnerReference(inner: string, mark: string, reference: string)
    requires mark == "import:" && inner == mark + [' '] + reference && PlainRef(reference) && ',' !in reference
    ensures FindImportPart(SplitOn(inner, ',')) == Some([' '] + reference)
  {
    assert ',' !in mark && mark[0] == 'i' && inner[0] == mark[0];
    SplitOfPart(inner, ',');
    Behind(mark, reference, inner);
    OnePart(inner, mark);
  }

  lemma OnePart(inner: string, mark: string)
    requires mark == "import:" && mark <= inner && Trimmed(inner)
    ensures FindImportPart([inner]) == Some(inner[|mark|..])
  {
    TrimOfTrimmed(inner);
  }

  lemma Behind(mark: string, reference: string, inner: string)
    requires inner == mark + [' '] + reference
    ensures mark <= inner && inner[|mark|..] == [' '] + reference
  {
    Regroup(mark, [' '], reference);
  }

  /** The same item in braces. */
  lemma YamlBracesAreSeen(indent: string, reference: string)
    requires AllSpaces(indent) && PlainRef(reference) && ',' !in reference
    ensures !StartsBlock(indent + ("- {import: " + reference + "}"))
    ensures LineItem(indent + ("- {import: " + reference + "}")) == Yaml(indent, reference)
  {
    var head := "- {import: ";
    Braced(head + reference + ['}'], head, reference);
    ItemAt(indent, head + reference + ['}'], reference);
  }

  lemma {:induction false} SpacesBefore(line: string) returns (l: string)
    ensures AllSpaces(l) && line == l + TrimStart(line)
  {
    if line != "" && IsSpace(line[0]) {
      var rest := SpacesBefore(line[1..]);
      l := [line[0]] + rest;
    } else {
      l := "";
    }
  }

  /** What opens a table block, and what ends one: brackets at the beginning of a line, at any indentation. */
  lemma BracketLines(indent: string, rest: string)
    requires AllSpaces(indent)
    ensures StartsBlock(indent + ("[[" + rest)) && EndsBlock(indent + ("[" + rest))
  {
    LeadingSpaces(indent, "[[" + rest);
    LeadingSpaces(indent, "[" + rest);
    TrimEndAfterInk("[[", rest);
  }

  /** Nothing else does either. */
  lemma OnlyBracketLines(line: string) returns (indent: string)
    ensures AllSpaces(indent)
    ensures StartsBlock(line) ==> indent + "[[" <= line
    ensures EndsBlock(line) ==> indent + "[" <= line
  {
    indent := SpacesBefore(line);
    assert Trim(line) <= TrimStart(line);
    assert StartsBlock(line) ==> "[[" <= TrimStart(line);
  }

  /** Only lines with the word before the equals sign and something behind it are imports of a block. */
  lemma OnlyTomlImports(line: string, key: string, value: string)
    requires line == key + ['='] + value && '=' !in key
    ensures TomlImport(line) == if Trim(key) == "import" && TrimRef(value) != "" then Some(TrimRef(value)) else None
  {
    SplitOnceUnique(key, '=', value);
    TrimOfTrimmed(Trim(value));
  }

  /** Only lines with the mark behind the equals sign and something behind it are imports by key. */
  lemma OnlyIniImports(line: string, key: string, value: string)
    requires line == key + ['='] + value && '=' !in key
    ensures IniImport(line).Some? <==> "!!import:" <= Trim(value) && Trim(Trim(value)[9..]) != ""
    ensures IniImport(line).Some? ==> IniImport(line).value.0 == Trim(key)
  {
    SplitOnceUnique(key, '=', value);
  }

  // ---------------------------------------------------------------- the lines of an imported text that count

  /** Neither blank nor a comment. */
  predicate SaysSomething(line: string) {
    Trim(line) != "" && Trim(line)[0] != ';' && Trim(line)[0] != '#'
  }

  /** In order, exactly the places of the lines that say something. */
  ghost predicate Meaning(lines: seq<string>, at: seq<nat>) {
    && (forall k :: 0 <= k < |at| ==> at[k] < |lines|)
    && (forall j, k :: 0 <= j < k < |at| ==> at[j] < at[k])
    && (forall i :: 0 <= i < |lines| ==> (i in at <==> SaysSomething(lines[i])))
  }

  /** The places with a line put before the others. */
  function PlacesCons(line: string, rest: seq<nat>): (r: seq<nat>)
    ensures |r| == |rest| + Own(line)
    ensures Own(line) == 1 ==> r[0] == 0
    ensures forall k :: Own(line) <= k < |r| ==> r[k] == rest[k - Own(line)] + 1
  {
    seq(Own(line), k => 0) + seq(|rest|, k requires 0 <= k < |rest| => rest[k] + 1)
  }

  function Own(line: string): nat {
    if SaysSomething(line) then 1 else 0
  }

  lemma PlacesBelow(line: string, rest: seq<nat>, bound: nat)
    requires forall k :: 0 <= k < |rest| ==> rest[k] < bound
    ensures forall k :: 0 <= k < |PlacesCons(line, rest)| ==> PlacesCons(line, rest)[k] < bound + 1
  {
  }

  lemma PlacesIncrease(line: string, rest: seq<nat>)
    requires forall j, k :: 0 <= j < k < |rest| ==> rest[j] < rest[k]
    ensures forall j, k :: 0 <= j < k < |PlacesCons(line, rest)| ==>
              PlacesCons(line, rest)[j] < PlacesCons(line, rest)[k]
  {
    var at, n := PlacesCons(line, rest), Own(line);
    forall j, k | 0 <= j < k < |at| ensures at[j] < at[k] {
      if j >= n { assert rest[j - n] < rest[k - n]; }
    }
  }

  lemma PlacesHold(line: string, rest: seq<nat>, i: nat)
    ensures i in PlacesCons(line, rest) <==> if i == 0 then SaysSomething(line) else i - 1 in rest
  {
    var at, n := PlacesCons(line, rest), Own(line);
    if i > 0 && i - 1 in rest {
      var k :| 0 <= k < |rest| && rest[k] == i - 1;
      assert at[n + k] == i;
    }
    if i in at {
      var k :| 0 <= k < |at| && at[k] == i;
      assert k >= n ==> rest[k - n] == i - 1;
    }
  }

  lemma MeaningCons(lines: seq<string>, rest: seq<nat>)
    requires lines != [] && Meaning(lines[1..], rest)
    ensures Meaning(lines, PlacesCons(lines[0], rest))
  {
    PlacesBelow(lines[0], rest, |lines[1..]|);
    PlacesIncrease(lines[0], rest);
    forall i | 0 <= i < |lines| ensures i in PlacesCons(lines[0], rest) <==> SaysSomething(lines[i]) {
      PlacesHold(lines[0], rest, i);
      TailSays(lines, rest, i);
    }
  }

  lemma TailSays(lines: seq<string>, rest: seq<nat>, i: nat)
    requires lines != [] && Meaning(lines[1..], rest) && i < |lines|
    ensures i > 0 ==> (i - 1 in rest <==> SaysSomething(lines[i]))
  {
    if i > 0 { assert lines[1..][i - 1] == lines[i]; }
  }

  /** The line of a place, in the list with one line before the others. */
  lemma PlacedLine(lines: seq<string>, rest: seq<nat>, k: nat)
    requires lines != [] && Meaning(lines[1..], rest) && Own(lines[0]) <= k < |PlacesCons(lines[0], rest)|
    ensures PlacesCons(lines[0], rest)[k] < |lines|
    ensures rest[k - Own(lines[0])] < |lines[1..]|
    ensures lines[PlacesCons(lines[0], rest)[k]] == lines[1..][rest[k - Own(lines[0])]]
  {
  }

  /** What an import by key puts in its place: the lines of the text that say something, each behind the key. */
  lemma {:induction false} ImportedByKey(key: string, lines: seq<string>) returns (at: seq<nat>)
    ensures Meaning(lines, at) && |IniLines(key, lines)| == |at|
    ensures forall k :: 0 <= k < |at| ==> IniLines(key, lines)[k] == key + "=" + Trim(lines[at[k]])
  {
    if lines == [] {
      at := [];
    } else {
      var rest := ImportedByKey(key, lines[1..]);
      at := PlacesCons(lines[0], rest);
      MeaningCons(lines, rest);
      var own := if SaysSomething(lines[0]) then [key + "=" + Trim(lines[0])] else [];
      assert IniLines(key, lines) == own + IniLines(key, lines[1..]);
      ListCons(own, IniLines(key, lines[1..]), lines, rest, (line: string) => key + "=" + Trim(line));
    }
  }

  /** One line more at the front of a list that holds something for every line that says something. */
  lemma ListCons<T>(own: seq<T>, tail: seq<T>, lines: seq<string>, rest: seq<nat>, f: string -> T)
    requires lines != [] && Meaning(lines[1..], rest) && |tail| == |rest|
    requires forall k :: 0 <= k < |rest| ==> tail[k] == f(lines[1..][rest[k]])
    requires own == if SaysSomething(lines[0]) then [f(lines[0])] else []
    ensures var at := PlacesCons(lines[0], rest);
            |own + tail| == |at| && forall k :: 0 <= k < |at| && at[k] < |lines| ==> (own + tail)[k] == f(lines[at[k]])
  {
    var at, n := PlacesCons(lines[0], rest), Own(lines[0]);
    forall k | 0 <= k < |at| && at[k] < |lines| ensures (own + tail)[k] == f(lines[at[k]]) {
      if k >= n { ListLater(own, tail, lines, rest, f, k); } else { assert at[k] == 0; }
    }
  }

  lemma ListLater<T>(own: seq<T>, tail: seq<T>, lines: seq<string>, rest: seq<nat>, f: string -> T, k: nat)
    requires lines != [] && Meaning(lines[1..], rest) && |tail| == |rest| && |own| == Own(lines[0])
    requires forall k :: 0 <= k < |rest| ==> tail[k] == f(lines[1..][rest[k]])
    requires Own(lines[0]) <= k < |PlacesCons(lines[0], rest)|
    ensures PlacesCons(lines[0], rest)[k] < |lines|
    ensures (own + tail)[k] == f(lines[PlacesCons(lines[0], rest)[k]])
  {
    PlacedLine(lines, rest, k);
    assert (own + tail)[k] == tail[k - |own|];
  }

  /** Where such a line is cut. */
  lemma CutAtKey(key: string, lines: seq<string>, at: seq<nat>, imported: seq<string>)
    requires '=' !in key && Meaning(lines, at) && |imported| == |at|
    requires forall k :: 0 <= k < |at| ==> imported[k] == key + "=" + Trim(lines[at[k]])
    ensures forall k :: 0 <= k < |at| ==> SplitOnce(imported[k], "=") == Some((key, Trim(lines[at[k]])))
  {
    forall k | 0 <= k < |at| ensures SplitOnce(imported[k], "=") == Some((key, Trim(lines[at[k]]))) {
      SplitOnceUnique(key, '=', Trim(lines[at[k]]));
    }
  }

  function Flat(parts: seq<seq<string>>): seq<string> {
    if parts == [] then [] else parts[0] + Flat(parts[1..])
  }

  /** What an import in a YAML list puts in its place: every line that says something, written as an item. */
  lemma {:induction false} ImportedAsItems(context: YamlContext, indent: string, lines: seq<string>,
                                           rewrite: YamlRewriter)
    returns (at: seq<nat>, parts: seq<seq<string>>)
    ensures Meaning(lines, at) && |parts| == |at| && YamlLines(context, indent, lines, rewrite) == Flat(parts)
    ensures forall k :: 0 <= k < |at| ==> parts[k] == rewrite(context, indent, Trim(lines[at[k]]))
  {
    if lines == [] {
      at, parts := [], [];
    } else {
      var rest, others := ImportedAsItems(context, indent, lines[1..], rewrite);
      at := PlacesCons(lines[0], rest);
      MeaningCons(lines, rest);
      parts := ItemsCons(context, indent, lines, rest, others, rewrite);
    }
  }

  lemma ItemsCons(context: YamlContext, indent: string, lines: seq<string>, rest: seq<nat>,
                  others: seq<seq<string>>, rewrite: YamlRewriter)
    returns (parts: seq<seq<string>>)
    requires lines != [] && Meaning(lines[1..], rest) && |others| == |rest|
    requires YamlLines(context, indent, lines[1..], rewrite) == Flat(others)
    requires forall k :: 0 <= k < |rest| ==> others[k] == rewrite(context, indent, Trim(lines[1..][rest[k]]))
    ensures var at := PlacesCons(lines[0], rest);
            |parts| == |at| && YamlLines(context, indent, lines, rewrite) == Flat(parts) &&
            forall k :: 0 <= k < |at| && at[k] < |lines| ==> parts[k] == rewrite(context, indent, Trim(lines[at[k]]))
  {
    var own := if SaysSomething(lines[0]) then [rewrite(context, indent, Trim(lines[0]))] else [];
    parts := own + others;
    FlatCons(own, others);
    ListCons(own, others, lines, rest, (line: string) => rewrite(context, indent, Trim(line)));
  }

  lemma FlatCons(own: seq<seq<string>>, others: seq<seq<string>>)
    requires |own| <= 1
    ensures Flat(own + others) == (if own == [] then [] else own[0]) + Flat(others)
  {
    if own == [] { assert own + others == others; } else { assert (own + others)[1..] == others; }
  }

  // ---------------------------------------------------------------- whole texts

  /** Lines that the scanner passes on one by one. */
  predicate PlainLines(lines: seq<string>) {
    forall l :: l in lines ==> !StartsBlock(l) && LineItem(l) == Plain(l)
  }

  lemma OneLineItem(line: string, rest: seq<string>)
    requires !StartsBlock(line)
    ensures Items([line] + rest) == [LineItem(line)] + Items(rest)
  {
    var lines := [line] + rest;
    assert lines[0..] == lines && lines[1..] == rest;
    LineAt(lines, 0);
  }

  lemma PlainFirst(line: string, rest: seq<string>, so: seq<string>, loaded: map<string, string>,
                   rewrite: YamlRewriter)
    requires !StartsBlock(line) && LineItem(line) == Plain(line)
    ensures ExpandItems(Items([line] + rest), so, loaded, rewrite)
            == ExpandItems(Items(rest), so + [line], loaded, rewrite)
  {
    OneLineItem(line, rest);
    ExpandCons(Plain(line), Items(rest), so, loaded, rewrite);
  }

  lemma FirstApart(front: seq<string>, rest: seq<string>, so: seq<string>)
    requires front != []
    ensures front + rest == [front[0]] + (front[1..] + rest) && so + [front[0]] + front[1..] == so + front
    ensures PlainLines(front) ==> PlainLines(front[1..]) && !StartsBlock(front[0])
    ensures PlainLines(front) ==> LineItem(front[0]) == Plain(front[0])
  {
    assert front[0] in front;
  }

  lemma {:induction false} PlainFront(front: seq<string>, rest: seq<string>, so: seq<string>,
                                      loaded: map<string, string>, rewrite: YamlRewriter)
    requires PlainLines(front)
    ensures ExpandItems(Items(front + rest), so, loaded, rewrite)
            == ExpandItems(Items(rest), so + front, loaded, rewrite)
    decreases |front|
  {
    if front == [] {
      assert front + rest == rest && so + front == so;
    } else {
      FirstApart(front, rest, so);
      PlainFirst(front[0], front[1..] + rest, so, loaded, rewrite);
      PlainFront(front[1..], rest, so + [front[0]], loaded, rewrite);
    }
  }

  lemma PlainText(lines: seq<string>, so: seq<string>, loaded: map<string, string>, rewrite: YamlRewriter)
    requires PlainLines(lines)
    ensures ExpandItems(Items(lines), so, loaded, rewrite) == Ok(so + lines)
  {
    PlainFront(lines, [], so, loaded, rewrite);
    assert lines + [] == lines;
  }

  /** One item between plain lines: it is replaced by its lines, or named when it was not loaded. */
  lemma OneItemBetween(front: seq<string>, own: seq<string>, item: Item, rest: seq<string>,
                       loaded: map<string, string>, rewrite: YamlRewriter)
    requires PlainLines(front) && PlainLines(rest) && Items(own + rest) == [item] + Items(rest)
    requires AskedBy(item).Some?
    ensures ExpandItems(Items(front + own + rest), [], loaded, rewrite) ==
            if AskedBy(item).value !in loaded then Err(MissingImport(AskedBy(item).value))
            else Ok(front + ItemLines(item, front, Some(loaded[AskedBy(item).value]), rewrite) + rest)
  {
    assert front + own + rest == front + (own + rest) && [] + front == front;
    PlainFront(front, own + rest, [], loaded, rewrite);
    ExpandCons(item, Items(rest), front, loaded, rewrite);
    if AskedBy(item).value in loaded {
      PlainText(rest, front + ItemLines(item, front, Some(loaded[AskedBy(item).value]), rewrite), loaded, rewrite);
    }
  }

  /**
   An import by key between plain lines: in its place come, in order, exactly the lines of the imported text
   that are neither blank nor comments, each trimmed and behind the key, where its first equals sign cuts it.
   */
  lemma IniImportReplaced(content: string, front: seq<string>, key: string, reference: string, rest: seq<string>,
                          loaded: map<string, string>, rewrite: YamlRewriter)
    returns (imported: seq<string>, at: seq<nat>)
    requires Lines(content) == front + [key + "=!!import:" + reference] + rest
    requires PlainKey(key) && PlainRef(reference) && PlainLines(front) && PlainLines(rest)
    ensures reference !in loaded ==> Expand(content, loaded, rewrite) == Err(MissingImport(reference))
    ensures reference in loaded ==>
              var lines := Lines(loaded[reference]);
              && Expand(content, loaded, rewrite) == Ok(Join(front + imported + rest, "\n"))
              && Meaning(lines, at) && |imported| == |at|
              && (forall k :: 0 <= k < |at| ==> imported[k] == key + "=" + Trim(lines[at[k]]))
              && (forall k :: 0 <= k < |at| ==> SplitOnce(imported[k], "=") == Some((key, Trim(lines[at[k]]))))
  {
    var line := key + "=!!import:" + reference;
    IniImportIsSeen(key, reference);
    OneLineItem(line, rest);
    OneItemBetween(front, [line], Ini(key, reference), rest, loaded, rewrite);
    imported, at := [], [];
    if reference in loaded {
      imported := IniLines(key, Lines(loaded[reference]));
      at := ImportedByKey(key, Lines(loaded[reference]));
      CutAtKey(key, Lines(loaded[reference]), at, imported);
    }
  }

  /** A table block as the scanner cuts it: it ends before the next line that opens a bracket. */
  predicate IsBlock(block: seq<string>, rest: seq<string>) {
    && block != [] && StartsBlock(block[0])
    && (forall j :: 1 <= j < |block| ==> !EndsBlock(block[j]))
    && (rest != [] ==> EndsBlock(rest[0]))
  }

  lemma {:induction false} RestOfBlockIs(body: seq<string>, rest: seq<string>)
    requires (forall j :: 0 <= j < |body| ==> !EndsBlock(body[j])) && (rest != [] ==> EndsBlock(rest[0]))
    ensures RestOfBlock(body + rest) == |body|
  {
    if body == [] {
      assert body + rest == rest;
    } else {
      assert (body + rest)[1..] == body[1..] + rest;
      RestOfBlockIs(body[1..], rest);
    }
  }

  lemma BlockIsItem(block: seq<string>, rest: seq<string>)
    requires IsBlock(block, rest)
    ensures Items(block + rest) == [Block(block)] + Items(rest)
  {
    var lines := block + rest;
    assert lines[1..] == block[1..] + rest && lines[0..] == lines;
    RestOfBlockIs(block[1..], rest);
    assert lines[0..|block|] == block && lines[|block|..] == rest;
    BlockAt(lines, 0, |block|);
  }

  lemma {:induction false} FirstIs(lines: seq<string>, f: string -> Option<string>, i: nat, found: string)
    requires i < |lines| && f(lines[i]) == Some(found) && forall j :: 0 <= j < i ==> f(lines[j]).None?
    ensures FirstOf(lines, f) == Some(found)
  {
    if i > 0 { FirstIs(lines[1..], f, i - 1, found); }
  }

  /**
   A table block with an import between plain lines: the whole block gives way to the lines of the imported
   text, whatever else it held; the first of several imports counts.
   */
  lemma BlockImportReplaced(content: string, front: seq<string>, block: seq<string>, i: nat, reference: string,
                            rest: seq<string>, loaded: map<string, string>, rewrite: YamlRewriter)
    requires Lines(content) == front + block + rest && PlainLines(front) && PlainLines(rest) && IsBlock(block, rest)
    requires i < |block| && TomlImport(block[i]) == Some(reference)
    requires forall j :: 0 <= j < i ==> TomlImport(block[j]).None?
    ensures Expand(content, loaded, rewrite) ==
            if reference !in loaded then Err(MissingImport(reference))
            else Ok(Join(front + Lines(loaded[reference]) + rest, "\n"))
  {
    BlockIsItem(block, rest);
    FirstIs(block, TomlImport, i, reference);
    OneItemBetween(front, block, Block(block), rest, loaded, rewrite);
  }

  /**
   An import in a YAML list between plain lines: in its place come, in order, the items of exactly the lines
   of the imported text that are neither blank nor comments, at the indentation of the import.
   */
  lemma YamlImportReplaced(content: string, front: seq<string>, indent: string, line: string, reference: string,
                           rest: seq<string>, loaded: map<string, string>, rewrite: YamlRewriter)
    returns (at: seq<nat>, parts: seq<seq<string>>)
    requires Lines(content) == front + [line] + rest && PlainLines(front) && PlainLines(rest)
    requires AllSpaces(indent) && PlainRef(reference)
    requires || line == indent + ("- import: " + reference)
             || (',' !in reference && line == indent + ("- {import: " + reference + "}"))
    ensures reference !in loaded ==> Expand(content, loaded, rewrite) == Err(MissingImport(reference))
    ensures reference in loaded ==>
              var lines := Lines(loaded[reference]);
              && Expand(content, loaded, rewrite) == Ok(Join(front + Flat(parts) + rest, "\n"))
              && Meaning(lines, at) && |parts| == |at|
              && forall k :: 0 <= k < |at| ==>
                   parts[k] == rewrite(ContextFrom(front, |front|, false), indent, Trim(lines[at[k]]))
  {
    if line == indent + ("- import: " + reference) { YamlImportIsSeen(indent, reference); }
    else { YamlBracesAreSeen(indent, reference); }
    OneLineItem(line, rest);
    OneItemBetween(front, [line], Yaml(indent, reference), rest, loaded, rewrite);
    at, parts := [], [];
    if reference in loaded {
      at, parts := ImportedAsItems(ContextFrom(front, |front|, false), indent, Lines(loaded[reference]), rewrite);
    }
  }

  // ---------------------------------------------------------------- which list a YAML import is in

  predicate NamesList(line: string) {
    || Trim(line) == "custom_proxy_group:" || Trim(line) == "custom_groups:"
    || Trim(line) == "rename_node:" || Trim(line) == "rulesets:"
  }

  ghost predicate HasLine(lines: seq<string>, text: string) {
    exists i :: 0 <= i < |lines| && Trim(lines[i]) == text
  }

  /** The list that a heading names. */
  function ListOf(line: string): YamlContext
    requires NamesList(line)
  {
    if Trim(line) == "rename_node:" then RenameNode
    else if Trim(line) == "rulesets:" then RulesetList
    else ProxyGroupList
  }

  lemma {:induction false} EmojisAbove(lines: seq<string>, r: nat)
    requires r < |lines| && Trim(lines[r]) == "rules:"
    requires forall j :: r < j < |lines| ==> Trim(lines[j]) != "rules:"
    ensures EmojisAboveRules(lines) <==> HasLine(lines[..r + 1], "emojis:")
  {
    if |lines| == r + 1 {
      assert lines[..r + 1] == lines;
    } else {
      var front := lines[..|lines| - 1];
      assert front[..r + 1] == lines[..r + 1];
      EmojisAbove(front, r);
    }
  }

  lemma {:induction false} NoEmojisAbove(lines: seq<string>)
    requires !HasLine(lines, "emojis:")
    ensures !EmojisAboveRules(lines)
  {
    if lines != [] {
      var front := lines[..|lines| - 1];
      forall i | 0 <= i < |front| ensures Trim(front[i]) != "emojis:" { assert front[i] == lines[i]; }
      NoEmojisAbove(front);
    }
  }

  /** Read upwards from `n`, where no list is named and no `rules:` counts: the list named last. */
  lemma {:induction false} ContextDown(lines: seq<string>, n: nat, inEmojis: bool, i: int)
    requires -1 <= i < n <= |lines| && (i >= 0 ==> NamesList(lines[i]))
    requires forall j :: i < j < n ==> !NamesList(lines[j])
    requires (forall j :: i < j < n ==> Trim(lines[j]) != "rules:") || !HasLine(lines, "emojis:")
    requires !HasLine(lines, "emojis:") ==> !inEmojis
    ensures ContextFrom(lines, n, inEmojis) == if i < 0 then UnknownList else ListOf(lines[i])
    decreases n
  {
    if !HasLine(lines, "emojis:") { NoEmojisAbove(lines); }
    if n - 1 != i && n > 0 {
      ContextDown(lines, n - 1, inEmojis || Trim(lines[n - 1]) == "emojis:", i);
    }
  }

  /** The lowest `rules:` below the list named last. */
  lemma {:induction false} LastRules(lines: seq<string>, i: int, n: nat) returns (r: nat)
    requires -1 <= i < |lines| && i < n <= |lines|
    requires exists j :: i < j < n && Trim(lines[j]) == "rules:"
    ensures i < r < n && Trim(lines[r]) == "rules:" && forall j :: r < j < n ==> Trim(lines[j]) != "rules:"
  {
    if Trim(lines[n - 1]) == "rules:" { r := n - 1; } else { r := LastRules(lines, i, n - 1); }
  }

  /** Read upwards to the last `rules:`, which counts as soon as some line is `emojis:`. */
  lemma {:induction false} EmojiDown(lines: seq<string>, n: nat, inEmojis: bool, r: nat)
    requires r < n <= |lines| && Trim(lines[r]) == "rules:"
    requires forall j :: r < j < |lines| ==> Trim(lines[j]) != "rules:"
    requires forall j :: r < j < n ==> !NamesList(lines[j])
    requires inEmojis || HasLine(lines[..n], "emojis:")
    ensures ContextFrom(lines, n, inEmojis) == Emoji
    decreases n
  {
    if n == r + 1 {
      EmojisAbove(lines, r);
    } else {
      var emojis := Trim(lines[n - 1]) == "emojis:";
      if !inEmojis && !emojis {
        var e :| 0 <= e < n && Trim(lines[..n][e]) == "emojis:";
        assert lines[..n - 1][e] == lines[e];
      }
      EmojiDown(lines, n - 1, inEmojis || emojis, r);
    }
  }

  ghost predicate RulesBelow(lines: seq<string>, i: int) {
    exists j :: i < j < |lines| && j >= 0 && Trim(lines[j]) == "rules:"
  }

  /** No list is named past `i`, which names one or is before the first line. */
  predicate NamedLast(lines: seq<string>, i: int) {
    && -1 <= i < |lines| && (i >= 0 ==> NamesList(lines[i]))
    && forall j :: i < j < |lines| ==> !NamesList(lines[j])
  }

  lemma EmojiContext(lines: seq<string>, i: int)
    requires NamedLast(lines, i) && HasLine(lines, "emojis:") && RulesBelow(lines, i)
    ensures ContextFrom(lines, |lines|, false) == Emoji
  {
    var r := LastRules(lines, i, |lines|);
    assert lines[..|lines|] == lines;
    EmojiDown(lines, |lines|, false, r);
  }

  lemma NamedContext(lines: seq<string>, i: int)
    requires NamedLast(lines, i) && !(HasLine(lines, "emojis:") && RulesBelow(lines, i))
    ensures ContextFrom(lines, |lines|, false) == if i < 0 then UnknownList else ListOf(lines[i])
  {
    ContextDown(lines, |lines|, false, i);
  }

  /**
   Which list an import is taken to be in: the list named last before it; but below that, a line `rules:`
   makes it the emojis as soon as any line before the import is `emojis:`, be it of another list.
   */
  lemma ContextExact(lines: seq<string>, i: int)
    requires NamedLast(lines, i)
    ensures ContextFrom(lines, |lines|, false) ==
            if HasLine(lines, "emojis:") && RulesBelow(lines, i) then Emoji
            else if i < 0 then UnknownList
            else if Trim(lines[i]) == "rename_node:" then RenameNode
            else if Trim(lines[i]) == "rulesets:" then RulesetList
            else ProxyGroupList
  {
    if HasLine(lines, "emojis:") && RulesBelow(lines, i) { EmojiContext(lines, i); } else { NamedContext(lines, i); }
  }

  // ---------------------------------------------------------------- what is listed

  lemma {:induction false} PlainRefs(front: seq<string>, rest: seq<string>)
    requires PlainLines(front)
    ensures RefsOf(Items(front + rest)) == RefsOf(Items(rest))
    decreases |front|
  {
    if front == [] {
      assert front + rest == rest;
    } else {
      FirstApart(front, rest, []);
      OneLineItem(front[0], front[1..] + rest);
      RefsCons(Plain(front[0]), Items(front[1..] + rest));
      PlainRefs(front[1..], rest);
    }
  }

  lemma OneItemListed(front: seq<string>, own: seq<string>, item: Item, rest: seq<string>)
    requires PlainLines(front) && PlainLines(rest) && Items(own + rest) == [item] + Items(rest)
    ensures RefsOf(Items(front + own + rest)) == ItemRefs(item)
  {
    assert front + own + rest == front + (own + rest) && rest + [] == rest;
    PlainRefs(front, own + rest);
    RefsCons(item, Items(rest));
    PlainRefs(rest, []);
  }

  /** Of a text with one import between plain lines, that reference is listed and no other. */
  lemma ImportIsListed(content: string, front: seq<string>, line: string, key: string, reference: string,
                       rest: seq<string>)
    requires Lines(content) == front + [line] + rest && PlainLines(front) && PlainLines(rest) && PlainRef(reference)
    requires || (PlainKey(key) && line == key + "=!!import:" + reference)
             || (AllSpaces(key) && line == key + ("- import: " + reference))
             || (AllSpaces(key) && ',' !in reference && line == key + ("- {import: " + reference + "}"))
    ensures Refs(content) == {reference}
  {
    if PlainKey(key) && line == key + "=!!import:" + reference {
      IniImportIsSeen(key, reference);
    } else if line == key + ("- import: " + reference) {
      YamlImportIsSeen(key, reference);
    } else {
      YamlBracesAreSeen(key, reference);
    }
    OneLineItem(line, rest);
    OneItemListed(front, [line], LineItem(line), rest);
  }

  /** Of a table block all imports are listed, though only the first is replaced. */
  lemma BlockImportsListed(content: string, front: seq<string>, block: seq<string>, rest: seq<string>)
    requires Lines(content) == front + block + rest && PlainLines(front) && PlainLines(rest) && IsBlock(block, rest)
    ensures forall r :: r in Refs(content) <==> exists i :: 0 <= i < |block| && TomlImport(block[i]) == Some(r)
  {
    BlockIsItem(block, rest);
    OneItemListed(front, block, Block(block), rest);
  }
}
