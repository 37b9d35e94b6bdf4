/** Which keys are rule bases and which sections they are read in, with every name written out. */
module RuleBaseKeys {
  import opened Wrappers
  import opened Text
  import opened RuleBaseField

  predicate OneOfNine(name: string) {
    || name == "clash" || name == "surge" || name == "surfboard" || name == "mellow" || name == "quan"
    || name == "quanx" || name == "loon" || name == "sssub" || name == "singbox"
  }

  lemma NineTargets(name: string)
    ensures IsTarget(name) <==> OneOfNine(name)
  {
  }

  /** The keys of rule bases are nine names, each followed by `_rule_base`. */
  lemma NineKeys(name: string, key: string)
    ensures IsRuleBaseKey(name + "_rule_base") <==> OneOfNine(name)
    ensures IsRuleBaseKey(key) ==> OneOfNine(Target(key).value) && key == Target(key).value + "_rule_base"
  {
    var own := name + RULE_BASE;
    assert own[|own| - |RULE_BASE|..] == RULE_BASE && own[..|own| - |RULE_BASE|] == name;
    NineTargets(name);
    if IsRuleBaseKey(key) { NineTargets(Target(key).value); }
  }

  /** A value that is read as it stands: nothing to trim, to unquote or to unescape. */
  predicate PlainValue(value: string) {
    && Trimmed(value) && '\n' !in value && '\\' !in value
    && (value != "" ==> value[0] != '"' && value[|value| - 1] != '"')
  }

  lemma PlainValueRaw(value: string)
    requires PlainValue(value)
    ensures Raw(value) == value && Unescape(value) == value
  {
    TrimOfTrimmed(value);
    ContainsNeeds(value, ESC, 0);
  }

  predicate PlainKey(key: string) {
    key != "" && Trimmed(key) && '=' !in key && '\n' !in key && 'a' <= key[0] <= 'z'
  }

  /** The line of a key. */
  lemma AssignIsRead(line: string, key: string, value: string)
    requires PlainKey(key) && PlainValue(value) && line == key + ['='] + value
    ensures ReadLine(line) == Assign(key, value) && !EndsInCr(line)
  {
    assert line[0] == key[0] && line[|line| - 1] == if value == "" then '=' else value[|value| - 1];
    TrimOfTrimmed(line);
    TrimOfTrimmed(key);
    SplitOnceUnique(key, '=', value);
    PlainValueRaw(value);
    LetterLine(line, key, value);
  }

  lemma LetterLine(line: string, key: string, value: string)
    requires line != "" && 'a' <= line[0] <= 'z' && Trim(line) == line && SplitOnce(line, "=") == Some((key, value))
    requires Trim(key) == key && Raw(value) == value && Unescape(value) == value
    ensures ReadLine(line) == Assign(key, value)
  {
    assert "//"[0] == '/';
  }

  /** The line of a section. */
  lemma HeaderIsRead(line: string, name: string)
    requires line == "[" + name + "]"
    ensures ReadLine(line) == Header(Lower(name)) && !EndsInCr(line)
  {
    TrimOfTrimmed(line);
    assert line[0] == '[' && line[|line| - 1] == ']' && line[1..|line| - 1] == name;
  }

  lemma TwoLines(head: string, line: string)
    requires '\n' !in head && '\n' !in line && line != "" && !EndsInCr(head)
    ensures Lines(head + "\n" + line) == [head, line] && Lines(line) == [line]
  {
    LinesOfCons(head, line);
    LinesOfLast(line);
  }

  /** A key behind a section header is read in the two sections of that name, in any case, and in a nameless one. */
  lemma KeyInSection(name: string, key: string, value: string)
    requires '\n' !in name && PlainKey(key) && PlainValue(value)
    ensures ParseFrom(START, Lines("[" + name + "]" + "\n" + (key + ['='] + value))).fields ==
            if IsRuleBaseKey(key) && (Lower(name) == "common" || Lower(name) == "custom" || name == "")
            then map[key := value] else map[]
  {
    var head, line := "[" + name + "]", key + ['='] + value;
    HeaderIsRead(head, name);
    AssignIsRead(line, key, value);
    TwoLines(head, line);
    assert |Lower(name)| == |name|;
    TwoReads(head, line, Lower(name), key, value);
  }

  lemma TwoReads(head: string, line: string, section: string, key: string, value: string)
    requires ReadLine(head) == Header(section) && ReadLine(line) == Assign(key, value)
    ensures ParseFrom(START, [head, line]).fields ==
            if IsRuleBaseKey(key) && Accepted(section) then map[key := value] else map[]
  {
    assert [head, line][1..] == [line];
    assert ParseFrom(START, [head, line]) == ParseFrom(Put(START, Header(section)), [line]);
    OneRead(Put(START, Header(section)), line, key, value);
  }

  lemma OneRead(s: State, line: string, key: string, value: string)
    requires ReadLine(line) == Assign(key, value)
    ensures ParseFrom(s, [line]).fields ==
            if IsRuleBaseKey(key) && Accepted(s.section) then s.fields[key := value] else s.fields
  {
    assert [line][1..] == [];
    assert ParseFrom(s, [line]) == ParseFrom(Put(s, Assign(key, value)), []);
  }

  /** A key before any section is read. */
  lemma KeyAlone(key: string, value: string)
    requires PlainKey(key) && PlainValue(value)
    ensures ParseFrom(START, Lines(key + ['='] + value)).fields ==
            if IsRuleBaseKey(key) then map[key := value] else map[]
  {
    var line := key + ['='] + value;
    AssignIsRead(line, key, value);
    TwoLines("", line);
    OneRead(START, line, key, value);
  }

  /** Blank lines and the three kinds of comment are skipped. */
  lemma CommentsAreSkipped(indent: string, text: string)
    requires AllSpaces(indent)
    ensures ReadLine(indent + (";" + text)) == Skip && ReadLine(indent + ("#" + text)) == Skip
    ensures ReadLine(indent + ("//" + text)) == Skip && ReadLine(indent) == Skip
  {
    Behind(indent, ";", text);
    Behind(indent, "#", text);
    Behind(indent, "//", text);
    SpacesAlone(indent);
  }

  lemma Behind(indent: string, mark: string, text: string)
    requires AllSpaces(indent) && mark != "" && !IsSpace(mark[0]) && !IsSpace(mark[|mark| - 1])
    ensures mark <= Trim(indent + (mark + text))
  {
    LeadingSpaces(indent, mark + text);
    TrimEndAfterInk(mark, text);
  }

  // ---------------------------------------------------------------- what of a content is embedded

  lemma {:induction false} WithoutCrConcat(a: string, b: string)
    ensures WithoutCr(a + b) == WithoutCr(a) + WithoutCr(b)
  {
    if a == "" {
      assert a + b == b;
    } else {
      assert (a + b)[1..] == a[1..] + b;
      WithoutCrConcat(a[1..], b);
      Regroup(if a[0] == '\r' then "" else [a[0]], WithoutCr(a[1..]), WithoutCr(b));
    }
  }

  /** A carriage return is dropped anywhere, and nothing else is. */
  lemma CrIsDropped(a: string, b: string)
    ensures WithoutCr(a + (['\r'] + b)) == WithoutCr(a) + WithoutCr(b)
    ensures '\r' !in a ==> WithoutCr(a) == a
  {
    WithoutCrConcat(a, ['\r'] + b);
    CrFirst(['\r'] + b, b);
    if '\r' !in a { NoCrToDrop(a); }
  }

  lemma CrFirst(s: string, b: string)
    requires s == ['\r'] + b
    ensures WithoutCr(s) == WithoutCr(b)
  {
    assert s[1..] == b && s[0] == '\r';
    assert "" + WithoutCr(b) == WithoutCr(b);
  }

  lemma {:induction false} NoCrToDrop(a: string)
    requires '\r' !in a
    ensures WithoutCr(a) == a
  {
    if a != "" {
      NoCrToDrop(a[1..]);
      assert a == [a[0]] + a[1..];
    }
  }

  function LineFeeds(n: nat): (s: string)
    ensures |s| == n && forall i :: 0 <= i < n ==> s[i] == '\n'
  {
    if n == 0 then "" else LineFeeds(n - 1) + ['\n']
  }

  lemma {:induction false} FeedsCut(content: string, n: nat)
    requires content == "" || content[|content| - 1] != '\n'
    ensures TrimEndChar(content + LineFeeds(n), '\n') == content
  {
    var s := content + LineFeeds(n);
    if n == 0 {
      assert s == content;
    } else {
      assert s[..|s| - 1] == content + LineFeeds(n - 1);
      FeedsCut(content, n - 1);
    }
  }

  /** A content is embedded without the line feeds at its end and without its carriage returns. */
  lemma EmbeddedContent(content: string, n: nat)
    requires content == "" || content[|content| - 1] != '\n'
    ensures Plain(content + LineFeeds(n)) == WithoutCr(content)
  {
    FeedsCut(content, n);
  }
}
