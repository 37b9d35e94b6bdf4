/**
 The small INI codec of the server: `parse_simple_ini` and `write_simple_ini`. Both maps iterate in
 increasing order of their keys, which puts the unnamed section first.
 */
module SimpleIni {
  import opened Ordering
  import opened Text

  type Values = map<string, string>
  type Ini = map<string, Values>

  /** The unnamed section comes first, and only there. */
  lemma UnnamedFirst(keys: set<string>)
    ensures "" in keys ==> SortedKeys(keys) == [""] + SortedKeys(keys - {""})
  {
    if "" in keys { AtMostIsTotal(Least(keys), ""); }
  }

  // ---------------------------------------------------------------- reading

  datatype Read = Skip | Header(name: string) | Entry(key: string, value: string)

  function ReadLine(line: string): Read {
    var trimmed := Trim(line);
    if trimmed == "" || trimmed[0] == ';' || trimmed[0] == '#' then Skip
    else if trimmed[0] == '[' && |trimmed| >= 2 && trimmed[|trimmed| - 1] == ']' then
      Header(Trim(trimmed[1..|trimmed| - 1]))
    else
      var cut := SplitOnce(trimmed, "=");
      if cut.Some? then Entry(Trim(cut.value.0), Trim(cut.value.1)) else Skip
  }

  datatype State = State(current: string, ini: Ini)

  function Section(ini: Ini, name: string): Values {
    if name in ini then ini[name] else map[]
  }

  function Put(s: State, read: Read): State {
    match read
    case Skip => s
    case Header(name) => State(name, s.ini[name := Section(s.ini, name)])
    case Entry(key, value) => s.(ini := s.ini[s.current := Section(s.ini, s.current)[key := value]])
  }

  function ParseFrom(s: State, lines: seq<string>): State
    decreases |lines|
  {
    if lines == [] then s else ParseFrom(Put(s, ReadLine(lines[0])), lines[1..])
  }

  function Parse(content: string): Ini {
    ParseFrom(State("", map[]), Lines(content)).ini
  }

  method TakeLine(current: string, result: Ini, line: string) returns (current': string, result': Ini)
    ensures State(current', result') == Put(State(current, result), ReadLine(line))
  {
    current', result' := current, result;
    var trimmed := Trim(line);
    if trimmed == "" || trimmed[0] == ';' || trimmed[0] == '#' { return; }
    if trimmed[0] == '[' && |trimmed| >= 2 && trimmed[|trimmed| - 1] == ']' {
      current' := Trim(trimmed[1..|trimmed| - 1]);
      result' := result[current' := Section(result, current')];
      return;
    }
    var cut := SplitOnce(trimmed, "=");
    if cut.Some? {
      var values := if current in result then result[current] else map[];
      result' := result[current := values[Trim(cut.value.0) := Trim(cut.value.1)]];
    }
  }

  method ParseSimpleIni(content: string) returns (result: Ini)
    ensures result == Parse(content)
  {
    result := map[];
    var current := "";
    var lines := Lines(content);
    var i := 0;
    while i < |lines|
      invariant 0 <= i <= |lines|
      invariant ParseFrom(State(current, result), lines[i..]) == ParseFrom(State("", map[]), lines)
    {
      current, result := TakeLine(current, result, lines[i]);
      assert lines[i..][0] == lines[i] && lines[i..][1..] == lines[i + 1..];
      i := i + 1;
    }
  }

  // ---------------------------------------------------------------- writing

  function EndLines(lines: seq<string>): string {
    if lines == [] then "" else lines[0] + "\n" + EndLines(lines[1..])
  }

  lemma {:induction false} EndLinesConcat(a: seq<string>, b: seq<string>)
    ensures EndLines(a + b) == EndLines(a) + EndLines(b)
  {
    if a == [] {
      assert a + b == b;
    } else {
      assert (a + b)[1..] == a[1..] + b;
      EndLinesConcat(a[1..], b);
    }
  }

  function EntryLines(values: Values, keys: seq<string>): seq<string>
    requires forall k :: k in keys ==> k in values
  {
    if keys == [] then [] else [keys[0] + "=" + values[keys[0]]] + EntryLines(values, keys[1..])
  }

  ghost function SectionLines(name: string, values: Values): seq<string> {
    SortedKeysHold(values.Keys);
    (if name == "" then [] else ["[" + name + "]"]) + (EntryLines(values, SortedKeys(values.Keys)) + [""])
  }

  ghost function AllLines(ini: Ini, names: seq<string>): seq<string>
    requires forall n :: n in names ==> n in ini
  {
    if names == [] then [] else SectionLines(names[0], ini[names[0]]) + AllLines(ini, names[1..])
  }

  ghost function Write(ini: Ini): string {
    SortedKeysHold(ini.Keys);
    EndLines(AllLines(ini, SortedKeys(ini.Keys)))
  }

  /** What is written for the entries not written yet. */
  ghost function RemainingEntries(values: Values, left: set<string>): string
    requires left <= values.Keys
  {
    SortedKeysHold(left);
    EndLines(EntryLines(values, SortedKeys(left)))
  }

  lemma RemainingEntriesStep(values: Values, left: set<string>)
    requires left <= values.Keys && left != {}
    ensures var key := Least(left);
            RemainingEntries(values, left) == key + "=" + values[key] + "\n" + RemainingEntries(values, left - {key})
  {
    SortedKeysHold(left);
    SortedKeysHold(left - {Least(left)});
    assert SortedKeys(left)[1..] == SortedKeys(left - {Least(left)});
  }

  method WriteEntries(values: Values) returns (output: string)
    ensures output == RemainingEntries(values, values.Keys)
  {
    output := "";
    var left := values.Keys;
    while left != {}
      invariant left <= values.Keys
      invariant output + RemainingEntries(values, left) == RemainingEntries(values, values.Keys)
      decreases |left|
    {
      var key := NextKey(left);
      RemainingEntriesStep(values, left);
      output := output + (key + "=" + values[key] + "\n");
      left := left - {key};
    }
  }

  /** What is written for the sections not written yet. */
  ghost function Remaining(ini: Ini, left: set<string>): string
    requires left <= ini.Keys
  {
    SortedKeysHold(left);
    EndLines(AllLines(ini, SortedKeys(left)))
  }

  lemma RemainingStep(ini: Ini, left: set<string>)
    requires left <= ini.Keys && left != {}
    ensures var name := Least(left);
            Remaining(ini, left) == EndLines(SectionLines(name, ini[name])) + Remaining(ini, left - {name})
  {
    var name := Least(left);
    var others := SortedKeys(left - {name});
    SortedKeysHold(left);
    SortedKeysHold(left - {name});
    assert SortedKeys(left)[1..] == others;
    EndLinesConcat(SectionLines(name, ini[name]), AllLines(ini, others));
  }

  method WriteSimpleIni(ini: Ini) returns (output: string)
    ensures output == Write(ini)
  {
    output := "";
    var left := ini.Keys;
    while left != {}
      invariant left <= ini.Keys
      invariant output + Remaining(ini, left) == Write(ini)
      decreases |left|
    {
      var name := NextKey(left);
      var section := WriteSection(name, ini[name]);
      RemainingStep(ini, left);
      output := output + section;
      left := left - {name};
    }
  }

  method WriteSection(name: string, values: Values) returns (output: string)
    ensures output == EndLines(SectionLines(name, values))
  {
    output := "";
    if name != "" { output := "[" + name + "]\n"; }
    var entries := WriteEntries(values);
    output := output + entries + "\n";
    WrittenSection(name, values);
  }

  lemma WrittenSection(name: string, values: Values)
    ensures EndLines(SectionLines(name, values)) ==
            (if name == "" then "" else "[" + name + "]\n") + RemainingEntries(values, values.Keys) + "\n"
  {
    SortedKeysHold(values.Keys);
    var entries := EntryLines(values, SortedKeys(values.Keys));
    EndLinesConcat(entries, [""]);
    OneLine("");
    if name != "" {
      EndLinesConcat(["[" + name + "]"], entries + [""]);
      OneLine("[" + name + "]");
    } else {
      assert SectionLines(name, values) == entries + [""];
    }
  }

  lemma OneLine(line: string)
    ensures EndLines([line]) == line + "\n"
  {
  }

  // ---------------------------------------------------------------- what a line reads back as

  predicate CleanName(name: string) {
    Trimmed(name) && '\n' !in name
  }

  predicate CleanEntry(key: string, value: string) {
    && Trimmed(key) && Trimmed(value)
    && '\n' !in key && '\n' !in value && '=' !in key
    && (key != "" ==> key[0] != ';' && key[0] != '#')
    && !(key != "" && key[0] == '[' && value != "" && value[|value| - 1] == ']')
  }

  predicate CleanValues(values: Values) {
    forall k :: k in values ==> CleanEntry(k, values[k])
  }

  predicate Clean(ini: Ini) {
    forall n :: n in ini ==> CleanName(n) && CleanValues(ini[n])
  }

  lemma HeaderReadsBack(name: string)
    requires CleanName(name)
    ensures ReadLine("[" + name + "]") == Header(name)
  {
    var line := "[" + name + "]";
    TrimOfTrimmed(line);
    TrimOfTrimmed(name);
    assert line[1..|line| - 1] == name;
  }

  lemma EntryIsTrimmed(key: string, value: string)
    requires Trimmed(key) && Trimmed(value)
    ensures var line := key + "=" + value;
            Trim(line) == line && line[0] == (if key == "" then '=' else key[0]) &&
            line[|line| - 1] == (if value == "" then '=' else value[|value| - 1])
  {
    TrimOfTrimmed(key + "=" + value);
  }

  lemma EntryReadsBack(key: string, value: string)
    requires CleanEntry(key, value)
    ensures ReadLine(key + "=" + value) == Entry(key, value)
  {
    EntryIsTrimmed(key, value);
    TrimOfTrimmed(key);
    TrimOfTrimmed(value);
    SplitOnceUnique(key, '=', value);
  }

  lemma {:induction false} TrimStartKeepsEnd(s: string)
    requires s != "" && !IsSpace(s[|s| - 1])
    ensures TrimStart(s) != "" && TrimStart(s)[|TrimStart(s)| - 1] == s[|s| - 1]
  {
    if IsSpace(s[0]) { TrimStartKeepsEnd(s[1..]); }
  }

  lemma HeaderIsClean(line: string)
    requires '\n' !in line
    ensures ReadLine(line).Header? ==> CleanName(ReadLine(line).name)
  {
    var trimmed := Trim(line);
    if ReadLine(line).Header? {
      var inside := trimmed[1..|trimmed| - 1];
      assert forall c | c in inside :: c in trimmed;
    }
  }

  /** The two halves of a trimmed line: what trimming them leaves. */
  lemma HalvesTrimmed(l: string, r: string)
    requires Trimmed(l + "=" + r)
    ensures Trim(l) != "" ==> Trim(l)[0] == l[0] && l != ""
    ensures Trim(r) != "" ==> r != "" && Trim(r)[|Trim(r)| - 1] == r[|r| - 1]
  {
    var line := l + "=" + r;
    if l != "" { assert line[0] == l[0]; }
    if r != "" {
      assert line[|line| - 1] == r[|r| - 1];
      TrimStartKeepsEnd(r);
    }
  }

  lemma EntryIsClean(line: string)
    requires '\n' !in line
    ensures ReadLine(line).Entry? ==> CleanEntry(ReadLine(line).key, ReadLine(line).value)
  {
    var trimmed := Trim(line);
    SplitOnceChar(trimmed, '=');
    var cut := SplitOnce(trimmed, "=");
    if ReadLine(line).Entry? {
      var l, r := cut.value.0, cut.value.1;
      HalvesTrimmed(l, r);
      assert trimmed == l + "=" + r;
      assert l != "" ==> trimmed[0] == l[0];
      assert r != "" ==> trimmed[|trimmed| - 1] == r[|r| - 1];
      assert forall c | c in l || c in r :: c in trimmed;
    }
  }

  lemma SectionPutIsClean(ini: Ini, name: string, values: Values)
    requires Clean(ini) && CleanName(name) && CleanValues(values)
    ensures Clean(ini[name := values])
  {
  }

  lemma PutIsClean(s: State, read: Read)
    requires Clean(s.ini) && CleanName(s.current)
    requires read.Header? ==> CleanName(read.name)
    requires read.Entry? ==> CleanEntry(read.key, read.value)
    ensures Clean(Put(s, read).ini) && CleanName(Put(s, read).current)
  {
    match read
    case Skip =>
    case Header(name) => SectionPutIsClean(s.ini, name, Section(s.ini, name));
    case Entry(key, value) => SectionPutIsClean(s.ini, s.current, Section(s.ini, s.current)[key := value]);
  }

  /** Everything read is clean. */
  lemma {:induction false} ParseFromIsClean(s: State, lines: seq<string>)
    requires Clean(s.ini) && CleanName(s.current) && forall l :: l in lines ==> '\n' !in l
    ensures Clean(ParseFrom(s, lines).ini)
    decreases |lines|
  {
    if lines != [] {
      assert lines[0] in lines;
      HeaderIsClean(lines[0]);
      EntryIsClean(lines[0]);
      PutIsClean(s, ReadLine(lines[0]));
      ParseFromIsClean(Put(s, ReadLine(lines[0])), lines[1..]);
    }
  }

  lemma ParseIsClean(content: string)
    ensures Clean(Parse(content))
  {
    ParseFromIsClean(State("", map[]), Lines(content));
  }

  // ---------------------------------------------------------------- reading what was written

  lemma {:induction false} LinesOfEndLines(lines: seq<string>)
    requires forall l :: l in lines ==> '\n' !in l && !EndsInCr(l)
    ensures Lines(EndLines(lines)) == lines
  {
    if lines != [] {
      assert lines[0] in lines;
      LinesOfCons(lines[0], EndLines(lines[1..]));
      LinesOfEndLines(lines[1..]);
      assert lines == [lines[0]] + lines[1..];
    }
  }

  lemma ParseFromCons(s: State, line: string, rest: seq<string>)
    ensures ParseFrom(s, [line] + rest) == ParseFrom(Put(s, ReadLine(line)), rest)
  {
    assert ([line] + rest)[1..] == rest;
  }

  /** The entries of a map under some of its keys. */
  function Under<V>(m: map<string, V>, keys: seq<string>): map<string, V> {
    map k | k in keys && k in m :: m[k]
  }

  lemma UnderCons<V>(m: map<string, V>, keys: seq<string>, base: map<string, V>)
    requires keys != [] && keys[0] in m
    ensures base[keys[0] := m[keys[0]]] + Under(m, keys[1..]) == base + Under(m, keys)
  {
    assert forall k :: k in keys <==> k == keys[0] || k in keys[1..];
  }

  lemma UnderAll<V>(m: map<string, V>, keys: seq<string>)
    requires forall k :: k in keys <==> k in m
    ensures Under(m, keys) == m
  {
  }

  function AfterEntries(s: State, values: Values, keys: seq<string>): State {
    if keys == [] then s
    else s.(ini := s.ini[s.current := Section(s.ini, s.current) + Under(values, keys)])
  }

  lemma AfterEntriesStep(s: State, values: Values, keys: seq<string>)
    requires keys != [] && keys[0] in values
    ensures AfterEntries(Put(s, Entry(keys[0], values[keys[0]])), values, keys[1..]) == AfterEntries(s, values, keys)
  {
    var s' := Put(s, Entry(keys[0], values[keys[0]]));
    var whole := Section(s.ini, s.current) + Under(values, keys);
    UnderCons(values, keys, Section(s.ini, s.current));
    assert Section(s'.ini, s.current) + Under(values, keys[1..]) == whole;
    if keys[1..] == [] { assert Section(s'.ini, s.current) == whole; }
    assert s'.ini[s.current := whole] == s.ini[s.current := whole];
  }

  lemma {:induction false} EntriesParsed(s: State, values: Values, keys: seq<string>, rest: seq<string>)
    requires CleanValues(values) && forall k :: k in keys ==> k in values
    ensures ParseFrom(s, EntryLines(values, keys) + rest) == ParseFrom(AfterEntries(s, values, keys), rest)
    decreases |keys|
  {
    if keys == [] {
      assert EntryLines(values, keys) + rest == rest;
    } else {
      var k := keys[0];
      var line := k + "=" + values[k];
      var others := EntryLines(values, keys[1..]) + rest;
      EntryReadsBack(k, values[k]);
      assert EntryLines(values, keys) + rest == [line] + others;
      ParseFromCons(s, line, others);
      EntriesParsed(Put(s, Entry(k, values[k])), values, keys[1..], rest);
      AfterEntriesStep(s, values, keys);
    }
  }

  lemma EntriesAreAll(s: State, values: Values)
    requires Section(s.ini, s.current) == map[]
    ensures AfterEntries(s, values, SortedKeys(values.Keys)) ==
            if values == map[] then s else s.(ini := s.ini[s.current := values])
  {
    var keys := SortedKeys(values.Keys);
    SortedKeysHold(values.Keys);
    UnderAll(values, keys);
    assert values.Keys == {} <==> values == map[];
    assert map[] + values == values;
  }

  lemma EndOfSection(s: State, rest: seq<string>)
    ensures ParseFrom(s, [""] + rest) == ParseFrom(s, rest)
  {
    ParseFromCons(s, "", rest);
  }

  /** The lines of a section, its header aside. */
  ghost function Body(values: Values, rest: seq<string>): seq<string> {
    SortedKeysHold(values.Keys);
    EntryLines(values, SortedKeys(values.Keys)) + ([""] + rest)
  }

  lemma SectionLinesAre(name: string, values: Values, rest: seq<string>)
    ensures SectionLines(name, values) + rest ==
            if name == "" then Body(values, rest) else ["[" + name + "]"] + Body(values, rest)
  {
  }

  lemma BodyParsed(s: State, values: Values, rest: seq<string>)
    requires CleanValues(values) && Section(s.ini, s.current) == map[]
    ensures ParseFrom(s, Body(values, rest)) ==
            ParseFrom(if values == map[] then s else s.(ini := s.ini[s.current := values]), rest)
  {
    SortedKeysHold(values.Keys);
    EntriesParsed(s, values, SortedKeys(values.Keys), [""] + rest);
    EntriesAreAll(s, values);
    EndOfSection(AfterEntries(s, values, SortedKeys(values.Keys)), rest);
  }

  lemma NamedSectionParsed(s: State, name: string, values: Values, rest: seq<string>)
    requires CleanName(name) && CleanValues(values) && name !in s.ini && name != ""
    ensures ParseFrom(s, SectionLines(name, values) + rest) == ParseFrom(State(name, s.ini[name := values]), rest)
  {
    var begun := State(name, s.ini[name := map[]]);
    SectionLinesAre(name, values, rest);
    HeaderReadsBack(name);
    ParseFromCons(s, "[" + name + "]", Body(values, rest));
    BodyParsed(begun, values, rest);
    assert begun.ini[name := values] == s.ini[name := values];
  }

  lemma UnnamedSectionParsed(values: Values, rest: seq<string>)
    requires CleanValues(values)
    ensures ParseFrom(State("", map[]), SectionLines("", values) + rest) ==
            ParseFrom(State("", if values == map[] then map[] else map["" := values]), rest)
  {
    SectionLinesAre("", values, rest);
    BodyParsed(State("", map[]), values, rest);
  }

  lemma {:induction false} NamedParsed(s: State, ini: Ini, names: seq<string>)
    requires Clean(ini) && Distinct(names) && forall n :: n in names ==> n in ini && n != "" && n !in s.ini
    ensures ParseFrom(s, AllLines(ini, names)).ini == s.ini + Under(ini, names)
    decreases |names|
  {
    if names == [] {
      assert Under(ini, names) == map[];
    } else {
      var n := names[0];
      NamedSectionParsed(s, n, ini[n], AllLines(ini, names[1..]));
      NamedParsed(State(n, s.ini[n := ini[n]]), ini, names[1..]);
      UnderCons(ini, names, s.ini);
    }
  }

  /** An unnamed section without entries is not written. */
  function WithoutEmptyUnnamed(ini: Ini): Ini {
    if "" in ini && ini[""] == map[] then ini - {""} else ini
  }

  lemma {:induction false} EntryLinesAreWhole(values: Values, keys: seq<string>)
    requires CleanValues(values) && forall k :: k in keys ==> k in values
    ensures forall l :: l in EntryLines(values, keys) ==> '\n' !in l && !EndsInCr(l)
  {
    if keys != [] { EntryLinesAreWhole(values, keys[1..]); }
  }

  lemma {:induction false} AllLinesAreWhole(ini: Ini, names: seq<string>)
    requires Clean(ini) && forall n :: n in names ==> n in ini
    ensures forall l :: l in AllLines(ini, names) ==> '\n' !in l && !EndsInCr(l)
  {
    if names != [] {
      var values := ini[names[0]];
      SortedKeysHold(values.Keys);
      EntryLinesAreWhole(values, SortedKeys(values.Keys));
      AllLinesAreWhole(ini, names[1..]);
    }
  }

  function Unnamed(ini: Ini): Ini
    requires "" in ini
  {
    if ini[""] == map[] then map[] else map["" := ini[""]]
  }

  lemma UnnamedAndNamed(ini: Ini, named: seq<string>)
    requires "" in ini && forall n :: n in named <==> n in ini && n != ""
    ensures Unnamed(ini) + Under(ini, named) == WithoutEmptyUnnamed(ini)
  {
    var both := Unnamed(ini) + Under(ini, named);
    var all := WithoutEmptyUnnamed(ini);
    assert both.Keys == all.Keys;
    assert forall n :: n in all ==> both[n] == ini[n] == all[n];
  }

  lemma UnnamedReadsBack(ini: Ini, named: seq<string>)
    requires Clean(ini) && "" in ini && Distinct(named)
    requires forall n :: n in named <==> n in ini && n != ""
    ensures ParseFrom(State("", map[]), SectionLines("", ini[""]) + AllLines(ini, named)).ini
            == WithoutEmptyUnnamed(ini)
  {
    UnnamedSectionParsed(ini[""], AllLines(ini, named));
    assert forall n :: n in Unnamed(ini) ==> n == "";
    NamedParsed(State("", Unnamed(ini)), ini, named);
    UnnamedAndNamed(ini, named);
  }

  lemma CleanReadsBack(ini: Ini)
    requires Clean(ini)
    ensures Parse(Write(ini)) == WithoutEmptyUnnamed(ini)
  {
    var names := SortedKeys(ini.Keys);
    SortedKeysHold(ini.Keys);
    AllLinesAreWhole(ini, names);
    LinesOfEndLines(AllLines(ini, names));
    if "" in ini {
      UnnamedFirst(ini.Keys);
      SortedKeysHold(ini.Keys - {""});
      assert names[1..] == SortedKeys(ini.Keys - {""});
      UnnamedReadsBack(ini, names[1..]);
    } else {
      NamedParsed(State("", map[]), ini, names);
      UnderAll(ini, names);
      assert map[] + ini == ini;
    }
  }

  /**
   Writing and reading gives a map back exactly when its names, keys and values are clean and its
   unnamed section, if it has one, is not empty.
   */
  lemma IniRoundTrip(ini: Ini)
    ensures Parse(Write(ini)) == ini <==> Clean(ini) && !("" in ini && ini[""] == map[])
  {
    ParseIsClean(Write(ini));
    if Clean(ini) { CleanReadsBack(ini); }
  }

  /** A text that reads as an empty unnamed section, which writing loses. */
  lemma EmptyUnnamedSection()
    ensures Parse("[]") == map["" := map[]] && Parse(Write(Parse("[]"))) == map[]
  {
    LinesOfLast("[]");
    assert Trim("[]") == "[]" by { TrimOfTrimmed("[]"); }
    assert "[]"[1..1] == "" && ReadLine("[]") == Header("");
    assert Lines("[]") == ["[]"];
    ReadWriteRead("[]");
  }

  /** Once read, writing and reading again changes nothing but an empty unnamed section. */
  lemma ReadWriteRead(content: string)
    ensures Parse(Write(Parse(content))) == WithoutEmptyUnnamed(Parse(content))
  {
    ParseIsClean(content);
    CleanReadsBack(Parse(content));
  }
}
