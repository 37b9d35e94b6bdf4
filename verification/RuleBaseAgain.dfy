/** When replacing a rule-base field a second time changes nothing, in each of the three syntaxes. */
module RuleBaseAgain {
  import opened RuleBaseBlocks
  import opened RuleBaseField
  import opened SectionMerge
  import opened Text
  import opened Wrappers

  // ---------------------------------------------------------------- counting line feeds

  function Lfs(s: string): nat {
    if s == "" then 0 else (if s[0] == '\n' then 1 else 0) + Lfs(s[1..])
  }

  function AllLfs(ls: seq<string>): nat {
    if ls == [] then 0 else Lfs(ls[0]) + AllLfs(ls[1..])
  }

  lemma {:induction false} LfsConcat(s: string, t: string)
    ensures Lfs(s + t) == Lfs(s) + Lfs(t)
  {
    if s == "" {
      assert s + t == t;
    } else {
      assert (s + t)[1..] == s[1..] + t;
      LfsConcat(s[1..], t);
    }
  }

  lemma {:induction false} LfsNone(s: string)
    requires '\n' !in s
    ensures Lfs(s) == 0
  {
    if s != "" { LfsNone(s[1..]); }
  }

  lemma {:induction false} AllLfsConcat(a: seq<string>, b: seq<string>)
    ensures AllLfs(a + b) == AllLfs(a) + AllLfs(b)
  {
    if a == [] {
      assert a + b == b;
    } else {
      assert (a + b)[1..] == a[1..] + b;
      AllLfsConcat(a[1..], b);
    }
  }

  lemma {:induction false} AllLfsNone(ls: seq<string>)
    requires OneLine(ls)
    ensures AllLfs(ls) == 0
  {
    if ls != [] {
      LfsNone(ls[0]);
      AllLfsNone(ls[1..]);
    }
  }

  lemma LfsOfCut(s: string, t: string)
    ensures Lfs(s + "\n" + t) == Lfs(s) + 1 + Lfs(t)
  {
    LfsConcat(s + "\n", t);
    LfsConcat(s, "\n");
    assert "\n"[1..] == "";
  }

  lemma {:induction false} LfsOfJoin(ls: seq<string>)
    requires ls != []
    ensures Lfs(Join(ls, "\n")) == |ls| - 1 + AllLfs(ls)
  {
    if |ls| == 1 {
      assert ls[1..] == [];
    } else {
      LfsOfJoin(ls[1..]);
      LfsOfCut(ls[0], Join(ls[1..], "\n"));
    }
  }

  /** The line feeds within one replacement. */
  function Breaks(syntax: Syntax, content: string): nat {
    match syntax
    case Ini => 0
    case Toml => 2 + Lfs(TrimEndChar(content, '\n'))
    case Yaml =>
      var n := |Lines(TrimEndChar(content, '\n'))|;
      if n == 0 then 1 else n
  }

  lemma BreaksOfReplacement(syntax: Syntax, field: string, content: string, indent: string)
    requires '\n' !in field && '\n' !in indent
    ensures Lfs(Replacement(syntax, field, content, indent)) == Breaks(syntax, content)
  {
    match syntax {
      case Ini =>
        EscapeHasNoLf(Plain(content));
        LfsNone(IniReplacement(field, content, indent));
      case Toml =>
        var text := TrimEndChar(content, '\n');
        LfsOfCut(indent + field + " = " + QUOTES, text + "\n" + indent + QUOTES);
        assert text + "\n" + indent + QUOTES == text + "\n" + (indent + QUOTES);
        LfsOfCut(text, indent + QUOTES);
        LfsNone(indent + field + " = " + QUOTES);
        LfsNone(indent + QUOTES);
      case Yaml =>
        var inner := Indented(Lines(TrimEndChar(content, '\n')), indent + "  ");
        IndentedIsSolid(Lines(TrimEndChar(content, '\n')), indent + "  ");
        LfsOfCut(indent + field + ": |-", Join(inner, "\n"));
        LfsNone(indent + field + ": |-");
        AllLfsNone(inner);
        if inner != [] { LfsOfJoin(inner); }
    }
  }

  lemma IndentIsOneLine(line: string)
    requires '\n' !in line
    ensures '\n' !in Indent(line)
  {
    IndentIsSpace(line);
  }

  /** Every line that starts with the field brings the line feeds of one replacement. */
  lemma BreaksAtStart(syntax: Syntax, before: seq<string>, first: string, after: seq<string>, field: string,
                      content: string)
    requires '\n' !in field && '\n' !in first && StartsField(first, field)
    ensures AllLfs(ReplaceLines(syntax, before + ([first] + after), field, content)) ==
            AllLfs(ReplaceLines(syntax, before, field, content)) + Breaks(syntax, content) +
            AllLfs(ReplaceLines(syntax, after, field, content))
  {
    ReplaceConcat(syntax, before, [first] + after, field, content);
    ReplaceCons(syntax, first, after, field, content);
    IndentIsOneLine(first);
    BreaksOfReplacement(syntax, field, content, Indent(first));
    var r := ReplaceLine(syntax, first, field, content);
    AllLfsConcat(ReplaceLines(syntax, before, field, content), [r] + ReplaceLines(syntax, after, field, content));
    assert ([r] + ReplaceLines(syntax, after, field, content))[1..] == ReplaceLines(syntax, after, field, content);
  }

  lemma StartIsSomewhere(lines: seq<string>, field: string, i: nat)
    requires i < |lines|
    ensures lines == lines[..i] + ([lines[i]] + lines[i + 1..])
  {
  }

  lemma SomeStartCosts(syntax: Syntax, lines: seq<string>, field: string, content: string)
    requires '\n' !in field && OneLine(lines) && AnyStarts(lines, field)
    ensures AllLfs(ReplaceLines(syntax, lines, field, content)) >= Breaks(syntax, content)
  {
    var i :| 0 <= i < |lines| && StartsField(lines[i], field);
    StartIsSomewhere(lines, field, i);
    assert lines[i] in lines;
    BreaksAtStart(syntax, lines[..i], lines[i], lines[i + 1..], field, content);
  }

  // ---------------------------------------------------------------- cutting a written text again

  /** What cutting gives back of lines that were joined. */
  function CutLines(ls: seq<string>): seq<string> {
    if ls == [] then []
    else if |ls| == 1 then (if ls[0] == "" then [] else ls)
    else [StripCr(ls[0])] + CutLines(ls[1..])
  }

  lemma {:induction false} CutJoined(ls: seq<string>)
    requires OneLine(ls)
    ensures Lines(Join(ls, "\n")) == CutLines(ls)
  {
    if |ls| == 1 {
      LinesOfLast(ls[0]);
    } else if ls != [] {
      var line, rest := ls[0], ls[1..];
      assert ls == [line] + rest && line in ls && forall l :: l in rest ==> l in ls;
      CutJoined(rest);
      LinesOfCons(line, Join(rest, "\n"));
    }
  }

  lemma {:induction false} CutLength(ls: seq<string>)
    requires ls != []
    ensures |CutLines(ls)| == if ls[|ls| - 1] == "" then |ls| - 1 else |ls|
  {
    if |ls| > 1 {
      CutLength(ls[1..]);
      assert ls[1..][|ls| - 2] == ls[|ls| - 1];
    }
  }

  lemma {:induction false} CutAt(ls: seq<string>, i: nat)
    requires i < |CutLines(ls)|
    ensures i < |ls| && CutLines(ls)[i] == if i == |ls| - 1 then ls[i] else StripCr(ls[i])
  {
    if |ls| > 1 && i > 0 { CutAt(ls[1..], i - 1); }
  }

  /** A text that begins with white space and the field has a first line that starts with the field. */
  lemma FirstLineStarts(indent: string, field: string, tail: string)
    requires IsRuleBaseKey(field) && AllSpace(indent) && '\n' !in indent
    ensures var ls := Lines(indent + field + tail); ls != [] && StartsField(ls[0], field)
  {
    FieldFacts(field);
    var s := indent + field + tail;
    if '\n' in s {
      var head, rest := FirstCut(s);
      var n := |indent + field|;
      forall i | 0 <= i < n ensures s[i] != '\n' { assert s[i] in indent + field; }
      assert |head| >= n by { assert s[|head|] == '\n'; }
      assert head == s[..|head|] && head[..n] == s[..n] == indent + field;
      assert head == indent + field + head[n..];
      StartsBehindSpace(indent, field, head[n..]);
      StripKeepsStart(head, field);
    } else {
      LinesOfLast(s);
      StartsBehindSpace(indent, field, tail);
    }
  }

  lemma StartsBehindSpace(indent: string, field: string, tail: string)
    requires IsRuleBaseKey(field) && AllSpace(indent)
    ensures StartsField(indent + field + tail, field) && Indent(indent + field + tail) == indent
  {
    FieldFacts(field);
    assert indent + field + tail == indent + (field + tail);
    TrimStartPastSpace(indent, field + tail);
    assert TrimStart(field + tail) == field + tail;
  }

  lemma CutsRegrouped(head: string, rest: string, b: string)
    ensures head + "\n" + rest + "\n" + b == head + "\n" + (rest + "\n" + b)
  {
  }

  /** Cutting what is in front of a line feed and what is behind it. */
  lemma {:induction false} LinesBehind(a: string, b: string)
    ensures Lines(a + "\n" + b) == Lines(a + "\n" + "") + Lines(b)
    decreases |a|
  {
    if '\n' in a {
      var head, rest := FirstCut(a);
      CutsRegrouped(head, rest, b);
      CutsRegrouped(head, rest, "");
      LinesOfCons(head, rest + "\n" + b);
      LinesOfCons(head, rest + "\n" + "");
      LinesBehind(rest, b);
      Regroup([StripCr(head)], Lines(rest + "\n" + ""), Lines(b));
    } else {
      LinesOfCons(a, b);
      LinesOfCons(a, "");
      assert Lines("") == [];
    }
  }

  lemma StartInSecond(a: seq<string>, b: seq<string>, field: string)
    ensures AnyStarts(b, field) ==> AnyStarts(a + b, field)
  {
    if AnyStarts(b, field) {
      var i :| 0 <= i < |b| && StartsField(b[i], field);
      assert (a + b)[|a| + i] == b[i];
    }
  }

  lemma StartBehind(a: string, b: string, field: string)
    ensures AnyStarts(Lines(b), field) ==> AnyStarts(Lines(a + "\n" + b), field)
  {
    LinesBehind(a, b);
    StartInSecond(Lines(a + "\n" + ""), Lines(b), field);
  }

  /** A replacement that is written into a text is found when the text is cut again. */
  lemma {:induction false} JoinedStarts(ls: seq<string>, i: nat, indent: string, field: string, tail: string)
    requires IsRuleBaseKey(field) && AllSpace(indent) && '\n' !in indent
    requires i < |ls| && ls[i] == indent + field + tail
    ensures AnyStarts(Lines(Join(ls, "\n")), field)
  {
    if i > 0 {
      JoinedStarts(ls[1..], i - 1, indent, field, tail);
      StartBehind(ls[0], Join(ls[1..], "\n"), field);
    } else if |ls| == 1 {
      FirstLineStarts(indent, field, tail);
    } else {
      var more := "\n" + Join(ls[1..], "\n");
      assert Join(ls, "\n") == indent + field + (tail + more);
      FirstLineStarts(indent, field, tail + more);
    }
  }

  // ---------------------------------------------------------------- replacing again

  /** What stands behind the field's name in a replacement. */
  function Tail(syntax: Syntax, content: string, indent: string): string {
    match syntax
    case Ini => "=" + Escape(Plain(content))
    case Toml => " = " + QUOTES + "\n" + (TrimEndChar(content, '\n') + "\n" + indent + QUOTES)
    case Yaml => ": |-" + "\n" + Join(Indented(Lines(TrimEndChar(content, '\n')), indent + "  "), "\n")
  }

  lemma ReplacementParts(syntax: Syntax, field: string, content: string, indent: string)
    ensures Replacement(syntax, field, content, indent) == indent + field + Tail(syntax, content, indent)
  {
  }

  /**
   A configuration around its first replacement: `before` is unchanged, `first` is the line replaced, if
   there is one, and `after` are the lines behind it.
   */
  lemma {:induction false} Around(lines: seq<string>, field: string)
    returns (before: seq<string>, first: Option<string>, after: seq<string>)
    ensures NoneStarts(before, field)
    ensures first.None? ==> lines == before && after == []
    ensures first.Some? ==> StartsField(first.value, field) && lines == before + ([first.value] + after)
    ensures first.Some? <==> AnyStarts(lines, field)
  {
    if lines == [] {
      before, first, after := [], None, [];
    } else if StartsField(lines[0], field) {
      before, first, after := [], Some(lines[0]), lines[1..];
      assert lines == [] + ([lines[0]] + lines[1..]);
    } else {
      before, first, after := Around(lines[1..], field);
      before := [lines[0]] + before;
      assert lines == [lines[0]] + lines[1..];
      if first.Some? {
        assert [lines[0]] + (before[1..] + ([first.value] + after)) == before + ([first.value] + after);
        assert lines[|before|] == first.value;
      } else {
        NoneOrAny(lines, field);
      }
    }
  }

  function IndentOf(first: Option<string>): string {
    if first.None? then "" else Indent(first.value)
  }

  lemma AroundReplaced(syntax: Syntax, lines: seq<string>, field: string, content: string)
    returns (before: seq<string>, first: Option<string>, after: seq<string>)
    requires OneLine(lines)
    ensures NoneStarts(before, field) && (first.None? ==> lines == before && after == [])
    ensures first.Some? ==> StartsField(first.value, field) && lines == before + ([first.value] + after)
    ensures AllSpace(IndentOf(first)) && '\n' !in IndentOf(first)
    ensures NewLines(syntax, lines, field, content) ==
            before + ([Replacement(syntax, field, content, IndentOf(first))] +
                      ReplaceLines(syntax, after, field, content))
  {
    before, first, after := Around(lines, field);
    ReplaceNothing(syntax, before, field, content);
    if first.Some? {
      assert lines[|before|] == first.value && first.value in lines;
      IndentIsOneLine(first.value);
      IndentIsSpace(first.value);
      ReplaceConcat(syntax, before, [first.value] + after, field, content);
      ReplaceCons(syntax, first.value, after, field, content);
    }
  }

  lemma StartsAgain(syntax: Syntax, config: string, field: string, content: string)
    requires IsRuleBaseKey(field)
    ensures AnyStarts(Lines(ReplacedText(config, syntax, field, content)), field)
  {
    var before, first, after := AroundReplaced(syntax, Lines(config), field, content);
    var indent := IndentOf(first);
    ReplacementParts(syntax, field, content, indent);
    JoinedStarts(NewLines(syntax, Lines(config), field, content), |before|, indent, field,
                 Tail(syntax, content, indent));
  }

  lemma LineCount(s: string)
    ensures |Lines(s)| <= Lfs(s) + 1
    ensures |Lines(s)| >= Lfs(s)
  {
    SplitOfText(s);
    var parts := SplitOn(s, '\n');
    CutJoined(parts);
    CutLength(parts);
    LfsOfJoin(parts);
    AllLfsNone(parts);
  }

  lemma {:induction false} SplitOfText(s: string)
    ensures Join(SplitOn(s, '\n'), "\n") == s
  {
    if s != "" {
      SplitOfText(s[1..]);
      var rest := SplitOn(s[1..], '\n');
      if s[0] == '\n' {
        assert ([""] + rest)[1..] == rest;
      } else {
        assert ([[s[0]] + rest[0]] + rest[1..])[1..] == rest[1..];
      }
    }
  }

  lemma AgainGrows(syntax: Syntax, config: string, field: string, content: string)
    requires IsRuleBaseKey(field)
    ensures var once := ReplacedText(config, syntax, field, content);
            var twice := ReplacedText(once, syntax, field, content);
            Lfs(twice) >= Lfs(once) - 1 + Breaks(syntax, content)
  {
    var once := ReplacedText(config, syntax, field, content);
    var z := Lines(once);
    FieldFacts(field);
    StartsAgain(syntax, config, field, content);
    LineCount(once);
    SomeStartCosts(syntax, z, field, content);
    var again := ReplaceLines(syntax, z, field, content);
    assert NewLines(syntax, z, field, content) == again;
    ReplaceLength(syntax, z, field, content);
    LfsOfJoin(again);
  }

  lemma {:induction false} ReplaceLength(syntax: Syntax, lines: seq<string>, field: string, content: string)
    ensures |ReplaceLines(syntax, lines, field, content)| == |lines|
    ensures forall i :: 0 <= i < |lines| ==>
              ReplaceLines(syntax, lines, field, content)[i] == ReplaceLine(syntax, lines[i], field, content)
  {
    if lines != [] { ReplaceLength(syntax, lines[1..], field, content); }
  }

  /** A TOML literal has lines of its own, which a second replacement leaves where they are: it always adds more. */
  lemma TomlNeverSettles(config: string, field: string, content: string)
    requires IsRuleBaseKey(field)
    ensures var once := ReplacedText(config, Toml, field, content);
            ReplacedText(once, Toml, field, content) != once
  {
    AgainGrows(Toml, config, field, content);
  }

  /**
   No line that is kept loses a carriage return when it is cut again, and the text does not end in an empty
   line. The field is put at the end if it is not there.
   */
  predicate IniSettled(lines: seq<string>, field: string) {
    var there := AnyStarts(lines, field);
    && (forall i :: 0 <= i < |lines| && (i < |lines| - 1 || !there) && !StartsField(lines[i], field) ==>
         !EndsInCr(lines[i]))
    && (there ==> lines != [] && lines[|lines| - 1] != "")
  }

  /** A line that a second replacement leaves alone, also when a carriage return at its end is stripped. */
  predicate StaysFixed(line: string, field: string, content: string) {
    && '\n' !in line
    && ReplaceLine(Ini, line, field, content) == line
    && ReplaceLine(Ini, StripCr(line), field, content) == StripCr(line)
  }

  lemma IniReplacementShape(field: string, content: string, indent: string)
    requires IsRuleBaseKey(field) && AllSpace(indent) && '\n' !in indent
    ensures var r := IniReplacement(field, content, indent);
            StartsField(r, field) && Indent(r) == indent && '\n' !in r && r != "" && !EndsInCr(r)
  {
    EscapeHasNoLf(Plain(content));
    EscapeHasNoCr(Plain(content));
    FieldFacts(field);
    AssignmentShape(indent, field, Escape(Plain(content)));
  }

  lemma AssignmentShape(indent: string, field: string, value: string)
    requires IsRuleBaseKey(field) && AllSpace(indent) && '\n' !in indent && '\n' !in field
    requires '\n' !in value && '\r' !in value
    ensures var r := indent + (field + "=" + value);
            StartsField(r, field) && Indent(r) == indent && '\n' !in r && r != "" && !EndsInCr(r)
  {
    var tail := "=" + value;
    StartsBehindSpace(indent, field, tail);
    EndOfTail(indent + field, tail);
    assert indent + (field + "=" + value) == indent + field + tail;
  }

  lemma EndOfTail(front: string, tail: string)
    requires tail != "" && '\r' !in tail
    ensures !EndsInCr(front + tail) && front + tail != ""
  {
    assert tail[|tail| - 1] in tail;
  }

  lemma IniLine(line: string, field: string, content: string)
    requires IsRuleBaseKey(field) && '\n' !in line
    ensures StaysFixed(ReplaceLine(Ini, line, field, content), field, content)
  {
    var r := ReplaceLine(Ini, line, field, content);
    if StartsField(line, field) {
      IndentIsSpace(line);
      IniReplacementShape(field, content, Indent(line));
    } else {
      StripKeepsStart(line, field);
    }
  }

  lemma IniEnds(line: string, field: string, content: string)
    requires IsRuleBaseKey(field) && '\n' !in line
    ensures var r := ReplaceLine(Ini, line, field, content);
            (r == "" <==> line == "") && (EndsInCr(r) <==> EndsInCr(line) && !StartsField(line, field))
  {
    FieldFacts(field);
    if StartsField(line, field) {
      IndentIsSpace(line);
      IniReplacementShape(field, content, Indent(line));
    }
  }

  lemma {:induction false} EscapeHasNoCr(p: string)
    requires '\r' !in p
    ensures '\r' !in Escape(p)
  {
    if p != "" {
      EscapeCons(p);
      EscapeHasNoCr(p[1..]);
    }
  }

  lemma {:induction false} AllFixed(syntax: Syntax, lines: seq<string>, field: string, content: string)
    requires forall l :: l in lines ==> ReplaceLine(syntax, l, field, content) == l
    ensures ReplaceLines(syntax, lines, field, content) == lines
  {
    if lines != [] {
      assert lines == [lines[0]] + lines[1..] && lines[0] in lines;
      AllFixed(syntax, lines[1..], field, content);
    }
  }

  /** The lines of an INI configuration after a replacement. */
  lemma IniLinesFixed(lines: seq<string>, field: string, content: string)
    requires IsRuleBaseKey(field) && OneLine(lines)
    ensures forall l :: l in NewLines(Ini, lines, field, content) ==> StaysFixed(l, field, content)
  {
    ReplaceLength(Ini, lines, field, content);
    IniReplacementShape(field, content, "");
    var mapped := ReplaceLines(Ini, lines, field, content);
    forall l | l in mapped ensures StaysFixed(l, field, content) {
      var i :| 0 <= i < |mapped| && mapped[i] == l;
      assert lines[i] in lines;
      IniLine(lines[i], field, content);
    }
  }

  /** Line by line: the same are empty, and the same end in a carriage return, but for those replaced. */
  predicate EndAlike(lines: seq<string>, mapped: seq<string>, field: string) {
    && |mapped| == |lines|
    && forall i :: 0 <= i < |lines| ==>
         (mapped[i] == "" <==> lines[i] == "") &&
         (EndsInCr(mapped[i]) <==> EndsInCr(lines[i]) && !StartsField(lines[i], field))
  }

  lemma AllIniEnds(lines: seq<string>, mapped: seq<string>, field: string, content: string)
    requires IsRuleBaseKey(field) && OneLine(lines) && mapped == ReplaceLines(Ini, lines, field, content)
    ensures EndAlike(lines, mapped, field)
  {
    ReplaceLength(Ini, lines, field, content);
    forall i | 0 <= i < |lines|
      ensures (mapped[i] == "" <==> lines[i] == "") &&
              (EndsInCr(mapped[i]) <==> EndsInCr(lines[i]) && !StartsField(lines[i], field))
    {
      assert lines[i] in lines;
      IniEnds(lines[i], field, content);
    }
  }

  /** The settled lines are those that are written and cut without loss. */
  lemma IniTidy(lines: seq<string>, field: string, content: string)
    requires IsRuleBaseKey(field) && OneLine(lines)
    ensures var x := NewLines(Ini, lines, field, content);
            x != [] && x != [""] && (TidyEnds(x) <==> IniSettled(lines, field))
  {
    var x, mapped := NewLines(Ini, lines, field, content), ReplaceLines(Ini, lines, field, content);
    IniReplacementShape(field, content, "");
    AllIniEnds(lines, mapped, field, content);
    if AnyStarts(lines, field) {
      SomeLine(lines, mapped, field);
      assert x == mapped;
    } else {
      AddedAtEnd(lines, mapped, IniReplacement(field, content, ""), field);
    }
  }

  predicate TidyEnds(ls: seq<string>) {
    && (forall i :: 0 <= i < |ls| - 1 ==> !EndsInCr(ls[i]))
    && (ls != [] ==> ls[|ls| - 1] != "")
  }

  lemma SomeLine(lines: seq<string>, mapped: seq<string>, field: string)
    requires IsRuleBaseKey(field) && AnyStarts(lines, field) && EndAlike(lines, mapped, field)
    ensures mapped != [] && mapped != [""] && (TidyEnds(mapped) <==> IniSettled(lines, field))
  {
    FieldFacts(field);
    var k :| 0 <= k < |lines| && StartsField(lines[k], field);
    assert mapped[k] != "";
  }

  lemma AddedAtEnd(lines: seq<string>, mapped: seq<string>, added: string, field: string)
    requires !AnyStarts(lines, field) && added != "" && EndAlike(lines, mapped, field)
    ensures TidyEnds(mapped + [added]) <==> IniSettled(lines, field)
    ensures mapped + [added] != [""]
  {
    var x := mapped + [added];
    assert x[|lines|] == added && forall i :: 0 <= i < |lines| ==> x[i] == mapped[i];
  }

  lemma CutStaysFixed(x: seq<string>, field: string, content: string)
    requires forall l :: l in x ==> StaysFixed(l, field, content)
    ensures ReplaceLines(Ini, CutLines(x), field, content) == CutLines(x)
  {
    var z := CutLines(x);
    forall l | l in z ensures ReplaceLine(Ini, l, field, content) == l {
      var i :| 0 <= i < |z| && z[i] == l;
      CutAt(x, i);
      assert x[i] in x && StaysFixed(x[i], field, content);
    }
    AllFixed(Ini, z, field, content);
  }

  lemma IniAgain(config: string, field: string, content: string)
    requires IsRuleBaseKey(field)
    ensures var once := ReplacedText(config, Ini, field, content);
            ReplacedText(once, Ini, field, content) == Join(Lines(once), "\n")
  {
    var x := NewLines(Ini, Lines(config), field, content);
    IniLinesFixed(Lines(config), field, content);
    CutJoined(x);
    CutStaysFixed(x, field, content);
    StartsAgain(Ini, config, field, content);
    assert CutLines(x) + [] == CutLines(x);
  }

  lemma {:induction false} JoinOfLines(ls: seq<string>)
    requires OneLine(ls) && ls != []
    ensures |Join(Lines(Join(ls, "\n")), "\n")| <= |Join(ls, "\n")|
    ensures Join(Lines(Join(ls, "\n")), "\n") == Join(ls, "\n") <==> Tidy(ls) || ls == [""]
  {
    if |ls| == 1 {
      LinesOfLast(ls[0]);
    } else {
      var line, rest := ls[0], ls[1..];
      assert ls == [line] + rest && line in ls;
      LinesOfCons(line, Join(rest, "\n"));
      JoinOfLines(rest);
      TidyCons(line, rest);
      CutJoined(rest);
      CutLength(rest);
      var y := Lines(Join(rest, "\n"));
      JoinedLonger(line, y, Join(rest, "\n"));
    }
  }

  lemma JoinedLonger(line: string, y: seq<string>, text: string)
    requires |Join(y, "\n")| <= |text|
    ensures var again := Join([StripCr(line)] + y, "\n");
            |again| <= |line + "\n" + text| &&
            (again == line + "\n" + text <==> !EndsInCr(line) && y != [] && Join(y, "\n") == text)
  {
    var whole := line + "\n" + text;
    if y == [] {
      assert [StripCr(line)] + y == [StripCr(line)];
    } else {
      assert ([StripCr(line)] + y)[1..] == y;
      var again := StripCr(line) + "\n" + Join(y, "\n");
      if again == whole {
        assert |StripCr(line)| == |line|;
        assert again[|line| + 1..] == Join(y, "\n") && whole[|line| + 1..] == text;
      }
    }
  }

  /** An INI field stays on one line: a second replacement changes only what cutting into lines changes. */
  lemma IniSettles(config: string, field: string, content: string)
    requires IsRuleBaseKey(field)
    ensures var once := ReplacedText(config, Ini, field, content);
            ReplacedText(once, Ini, field, content) == once <==> IniSettled(Lines(config), field)
  {
    var x := NewLines(Ini, Lines(config), field, content);
    IniAgain(config, field, content);
    IniTidy(Lines(config), field, content);
    IniLinesFixed(Lines(config), field, content);
    JoinOfLines(x);
    assert OneLine(x) && (Tidy(x) <==> TidyEnds(x));
  }

  // ---------------------------------------------------------------- a YAML block again

  predicate AllEmpty(lines: seq<string>) {
    forall l :: l in lines ==> l == ""
  }

  /** No line before the field's ends in a carriage return, and every line behind it is empty. */
  predicate YamlSettled(lines: seq<string>, field: string) {
    lines == [] ||
    (if StartsField(lines[0], field) then AllEmpty(lines[1..])
     else !EndsInCr(lines[0]) && YamlSettled(lines[1..], field))
  }

  lemma {:induction false} YamlSettledAround(before: seq<string>, rest: seq<string>, field: string)
    requires NoneStarts(before, field)
    ensures YamlSettled(before + rest, field) <==> NoCr(before) && YamlSettled(rest, field)
  {
    if before == [] {
      assert before + rest == rest;
    } else {
      assert (before + rest)[1..] == before[1..] + rest && before == [before[0]] + before[1..] && before[0] in before;
      YamlSettledAround(before[1..], rest, field);
    }
  }

  /** The replacement's two lines when the content has at most one. */
  function BlockLine(content: string, indent: string): string {
    var lines := Lines(TrimEndChar(content, '\n'));
    if lines == [] then "" else indent + "  " + lines[0]
  }

  lemma TwoLines(field: string, content: string, indent: string)
    requires |Lines(TrimEndChar(content, '\n'))| <= 1
    ensures Replacement(Yaml, field, content, indent) ==
            indent + field + ": |-" + "\n" + BlockLine(content, indent)
  {
    var lines := Lines(TrimEndChar(content, '\n'));
    var inner := Indented(lines, indent + "  ");
    if lines != [] { assert inner == [indent + "  " + lines[0]]; }
  }

  lemma JoinBehind(a: seq<string>, b: seq<string>)
    requires b != []
    ensures a != [] ==> Join(a + b, "\n") == Join(a, "\n") + "\n" + Join(b, "\n")
    ensures a == [] ==> Join(a + b, "\n") == Join(b, "\n")
    decreases |a|
  {
    if a == [] {
      assert a + b == b;
    } else if |a| == 1 {
      assert (a + b)[1..] == b;
    } else {
      assert (a + b)[1..] == a[1..] + b;
      JoinBehind(a[1..], b);
      CutsRegrouped(a[0], Join(a[1..], "\n"), Join(b, "\n"));
    }
  }

  /** Writing a part of two lines, or the two lines. */
  lemma JoinSpread(before: seq<string>, h: string, b: string, after: seq<string>)
    ensures Join(before + ([h + "\n" + b] + after), "\n") == Join(before + ([h, b] + after), "\n")
  {
    JoinBehind(before, [h + "\n" + b] + after);
    JoinBehind(before, [h, b] + after);
    assert ([h, b] + after)[1..] == [b] + after;
    if after == [] {
      assert [h + "\n" + b] + after == [h + "\n" + b] && [b] + after == [b];
    } else {
      assert ([h + "\n" + b] + after)[1..] == after && ([b] + after)[1..] == after;
      CutsRegrouped(h, b, Join(after, "\n"));
    }
  }

  lemma SameJoinSameLines(a: seq<string>, b: seq<string>)
    requires a != [] && b != [] && OneLine(a) && OneLine(b) && Join(a, "\n") == Join(b, "\n")
    ensures a == b
  {
    SplitOfJoin(a, '\n');
    SplitOfJoin(b, '\n');
  }

  /** Lines without carriage returns at their ends, written with one more empty line, are cut to themselves. */
  lemma CutWithEmpty(ls: seq<string>)
    requires OneLine(ls) && NoCr(ls)
    ensures Lines(Join(ls + [""], "\n")) == ls
  {
    CutJoined(ls + [""]);
    CutEmptyLine(ls);
  }

  lemma {:induction false} CutEmptyLine(ls: seq<string>)
    requires NoCr(ls)
    ensures CutLines(ls + [""]) == ls
  {
    if ls == [] {
      assert ls + [""] == [""];
    } else {
      assert (ls + [""])[1..] == ls[1..] + [""] && ls[0] in ls && forall l :: l in ls[1..] ==> l in ls;
      CutEmptyLine(ls[1..]);
      assert ls == [ls[0]] + ls[1..];
    }
  }

  lemma EmptyShift(lines: seq<string>)
    requires AllEmpty(lines)
    ensures [""] + lines == lines + [""]
  {
    assert forall i :: 0 <= i < |lines| ==> lines[i] in lines;
  }

  lemma YamlHead(field: string, indent: string)
    requires IsRuleBaseKey(field) && AllSpace(indent) && '\n' !in indent
    ensures var h := indent + field + ": |-";
            StartsField(h, field) && Indent(h) == indent && '\n' !in h && !EndsInCr(h)
  {
    FieldFacts(field);
    StartsBehindSpace(indent, field, ": |-");
  }

  lemma EmptyBlockJoined(before: seq<string>, h: string, after: seq<string>)
    requires AllEmpty(after)
    ensures Join(before + ([h + "\n" + ""] + after), "\n") == Join(before + ([h] + after) + [""], "\n")
  {
    JoinSpread(before, h, "", after);
    EmptyShift(after);
    assert [h, ""] + after == [h] + ([""] + after);
    assert before + ([h, ""] + after) == before + ([h] + after) + [""];
  }

  /** An empty block in front of empty lines alone is written again as it is. */
  lemma YamlKept(before: seq<string>, indent: string, after: seq<string>, field: string, content: string)
    requires IsRuleBaseKey(field) && AllSpace(indent) && '\n' !in indent
    requires OneLine(before) && NoCr(before) && NoneStarts(before, field) && AllEmpty(after)
    requires Lines(TrimEndChar(content, '\n')) == []
    ensures var once := Join(before + ([Replacement(Yaml, field, content, indent)] + after), "\n");
            ReplacedText(once, Yaml, field, content) == once
  {
    var h := indent + field + ": |-";
    YamlHead(field, indent);
    FieldFacts(field);
    TwoLines(field, content, indent);
    EmptyBlockJoined(before, h, after);
    CutWithEmpty(before + ([h] + after));
    NoneStartsEmpty(after, field);
    ReplaceOne(Yaml, before, h, after, field, content);
  }

  lemma NoneStartsEmpty(lines: seq<string>, field: string)
    requires AllEmpty(lines) && field != ""
    ensures NoneStarts(lines, field)
  {
    assert TrimStart("") == "";
  }

  // A second replacement that changes nothing adds one line feed at most, so it replaces one line alone.

  lemma OneStartAlone(z: seq<string>, p: nat, field: string, content: string)
    requires IsRuleBaseKey(field) && OneLine(z) && p < |z| && StartsField(z[p], field)
    requires AllLfs(ReplaceLines(Yaml, z, field, content)) <= 1
    ensures Breaks(Yaml, content) == 1 && NoneStarts(z[..p], field) && NoneStarts(z[p + 1..], field)
  {
    FieldFacts(field);
    StartIsSomewhere(z, field, p);
    assert z[p] in z;
    BreaksAtStart(Yaml, z[..p], z[p], z[p + 1..], field, content);
    NoneOrAny(z[..p], field);
    NoneOrAny(z[p + 1..], field);
    if AnyStarts(z[..p], field) { SomeStartCosts(Yaml, z[..p], field, content); }
    if AnyStarts(z[p + 1..], field) { SomeStartCosts(Yaml, z[p + 1..], field, content); }
  }

  /** When a second replacement changes nothing, it replaces one line alone, and the text ends in a line feed. */
  lemma UnchangedCounts(w: seq<string>, p: nat, field: string, content: string)
    requires IsRuleBaseKey(field) && OneLine(w) && p < |w| - 1 && StartsField(w[p], field)
    requires ReplacedText(Join(w, "\n"), Yaml, field, content) == Join(w, "\n")
    ensures var z := Lines(Join(w, "\n"));
            |z| == |w| - 1 && w[|w| - 1] == "" && Breaks(Yaml, content) == 1 &&
            NoneStarts(z[..p], field) && NoneStarts(z[p + 1..], field)
  {
    var z := Lines(Join(w, "\n"));
    CutJoined(w);
    CutLength(w);
    CutAt(w, p);
    StripKeepsStart(w[p], field);
    assert AnyStarts(z, field) by { assert StartsField(z[p], field); }
    var again := ReplaceLines(Yaml, z, field, content);
    assert NewLines(Yaml, z, field, content) == again + [] == again;
    ReplaceLength(Yaml, z, field, content);
    LfsOfJoin(again);
    LfsOfJoin(w);
    AllLfsNone(w);
    OneStartAlone(z, p, field, content);
    FieldFacts(field);
    SomeStartCosts(Yaml, z, field, content);
  }

  /** Then the lines behind it are each the one before without a carriage return, which leaves empty ones alone. */
  lemma {:induction false} Chain(w: seq<string>, j: nat)
    requires j < |w| && forall i :: 0 < i < |w| ==> w[i] == StripCr(w[i - 1])
    ensures ' ' in w[0] ==> ' ' in w[j]
    ensures w[0] == "" ==> w[j] == ""
  {
    if j > 0 {
      Chain(w, j - 1);
      if ' ' in w[j - 1] {
        var i :| 0 <= i < |w[j - 1]| && w[j - 1][i] == ' ';
        assert w[j][i] == ' ';
      }
    }
  }

  /** The second text when line `p` alone is replaced. */
  lemma AgainAtLine(z: seq<string>, p: nat, h: string, b: string, field: string, content: string)
    requires p < |z| && z[p] == h && StartsField(h, field) && OneLine(z) && '\n' !in b
    requires NoneStarts(z[..p], field) && NoneStarts(z[p + 1..], field)
    requires Replacement(Yaml, field, content, Indent(h)) == h + "\n" + b
    ensures var again := z[..p] + ([h, b] + z[p + 1..]);
            OneLine(again) && Join(NewLines(Yaml, z, field, content), "\n") == Join(again, "\n")
  {
    StartIsSomewhere(z, field, p);
    ReplaceOne(Yaml, z[..p], h, z[p + 1..], field, content);
    JoinSpread(z[..p], h, b, z[p + 1..]);
    assert h in z;
  }

  /** Lines that are their own cut, but for the line `b` that comes in behind line `p`. */
  lemma ShiftedLines(all: seq<string>, p: nat, h: string, b: string)
    requires p < |all| - 1 && |CutLines(all)| == |all| - 1
    requires all == CutLines(all)[..p] + ([h, b] + CutLines(all)[p + 1..])
    ensures NoCr(all[..p]) && all[p + 1] == b
    ensures forall i :: p + 1 < i < |all| ==> all[i] == StripCr(all[i - 1])
  {
    var z := CutLines(all);
    forall l | l in all[..p] ensures !EndsInCr(l) {
      var i :| 0 <= i < p && all[i] == l;
      CutAt(all, i);
      assert all[i] == z[i];
      StripTwice(l);
    }
    forall i | p + 1 < i < |all| ensures all[i] == StripCr(all[i - 1]) {
      CutAt(all, i - 1);
      assert all[i] == z[i - 1];
    }
  }

  lemma UnchangedLines(all: seq<string>, p: nat, h: string, b: string, field: string, content: string)
    requires OneLine(all) && p < |all| - 1 && all[p] == h && '\n' !in b && !EndsInCr(h)
    requires StartsField(h, field) && Replacement(Yaml, field, content, Indent(h)) == h + "\n" + b
    requires |CutLines(all)| == |all| - 1
    requires NoneStarts(CutLines(all)[..p], field) && NoneStarts(CutLines(all)[p + 1..], field)
    requires ReplacedText(Join(all, "\n"), Yaml, field, content) == Join(all, "\n")
    ensures NoCr(all[..p]) && all[p + 1] == b
    ensures forall i :: p + 1 < i < |all| ==> all[i] == StripCr(all[i - 1])
  {
    var z := CutLines(all);
    CutJoined(all);
    CutAt(all, p);
    AgainAtLine(z, p, h, b, field, content);
    SameJoinSameLines(z[..p] + ([h, b] + z[p + 1..]), all);
    ShiftedLines(all, p, h, b);
  }

  lemma TailOfAll(before: seq<string>, h: string, w: seq<string>, b: string)
    requires var all := before + ([h] + w);
             var p := |before|;
             w != [] && all[p + 1] == b && forall i :: p + 1 < i < |all| ==> all[i] == StripCr(all[i - 1])
    ensures w[0] == b && forall i :: 0 < i < |w| ==> w[i] == StripCr(w[i - 1])
    ensures (before + ([h] + w))[..|before|] == before
  {
    var all := before + ([h] + w);
    forall i | 0 <= i < |w| ensures all[|before| + 1 + i] == w[i] {}
    forall i | 0 < i < |w| ensures w[i] == StripCr(w[i - 1]) {
      assert all[|before| + 1 + i] == StripCr(all[|before| + 1 + i - 1]);
    }
  }

  lemma StripTwice(line: string)
    ensures StripCr(line) == line ==> !EndsInCr(line)
  {
    if EndsInCr(line) { assert |StripCr(line)| < |line|; }
  }

  lemma {:induction false} JoinMembers(ls: seq<string>, l: string, c: char)
    requires l in ls && c in l
    ensures c in Join(ls, "\n")
  {
    if |ls| > 1 && l != ls[0] {
      assert ls == [ls[0]] + ls[1..];
      JoinMembers(ls[1..], l, c);
    }
  }

  lemma {:induction false} EmptyJoin(ls: seq<string>)
    requires AllEmpty(ls)
    ensures forall c :: c in Join(ls, "\n") ==> c == '\n'
  {
    if |ls| == 1 {
      assert ls[0] in ls;
    } else if ls != [] {
      assert ls[0] in ls && forall l :: l in ls[1..] ==> l in ls;
      EmptyJoin(ls[1..]);
    }
  }

  lemma OnlyThat(s: string, c: char)
    requires c !in s
    ensures (forall x :: x in s ==> x == c) ==> s == ""
  {
    if s != "" { assert s[0] in s; }
  }

  lemma StartHasInk(line: string, field: string, content: string)
    requires IsRuleBaseKey(field) && StartsField(line, field)
    ensures field[0] in ReplaceLine(Yaml, line, field, content)
  {
    FieldFacts(field);
    var r := ReplaceLine(Yaml, line, field, content);
    ReplacementParts(Yaml, field, content, Indent(line));
    assert r[|Indent(line)|] == field[0];
  }

  /** Lines whose replacements hold nothing but line feeds are empty and are not replaced. */
  lemma NothingBehind(after: seq<string>, field: string, content: string)
    requires IsRuleBaseKey(field) && OneLine(after)
    requires forall r, c :: r in ReplaceLines(Yaml, after, field, content) && c in r ==> c == '\n'
    ensures AllEmpty(after)
  {
    FieldFacts(field);
    ReplaceLength(Yaml, after, field, content);
    forall i | 0 <= i < |after| ensures after[i] == "" {
      var line := after[i];
      var r := ReplaceLines(Yaml, after, field, content)[i];
      assert r == ReplaceLine(Yaml, line, field, content) && line in after;
      if StartsField(line, field) { StartHasInk(line, field, content); }
      OnlyThat(line, '\n');
    }
  }

  lemma RestOfOnce(before: seq<string>, h: string, tail: string, after: seq<string>) returns (w: seq<string>)
    requires OneLine(before)
    ensures w != [] && OneLine(w) && Join(w, "\n") == Join([tail] + after, "\n")
    ensures Join(before + ([h + "\n" + tail] + after), "\n") == Join(before + ([h] + w), "\n")
  {
    var rest := [tail] + after;
    w := SplitOn(Join(rest, "\n"), '\n');
    SplitOfText(Join(rest, "\n"));
    JoinSpread(before, h, tail, after);
    assert before + ([h, tail] + after) == before + [h] + rest && before + ([h] + w) == before + [h] + w;
    JoinBehind(before + [h], rest);
    JoinBehind(before + [h], w);
  }

  /** The head `h` of a block, which is written as it is and with one more line when the content has at most one. */
  predicate BlockHead(h: string, field: string, content: string) {
    && StartsField(h, field) && '\n' !in h && !EndsInCr(h) && '\n' !in Indent(h)
    && (|Lines(TrimEndChar(content, '\n'))| <= 1 ==>
         Replacement(Yaml, field, content, Indent(h)) == h + "\n" + BlockLine(content, Indent(h)))
  }

  lemma HeadOfBlock(field: string, content: string, indent: string)
    requires IsRuleBaseKey(field) && AllSpace(indent) && '\n' !in indent
    ensures BlockHead(indent + field + ": |-", field, content)
  {
    YamlHead(field, indent);
    if |Lines(TrimEndChar(content, '\n'))| <= 1 { TwoLines(field, content, indent); }
  }

  /** What an unchanged text says about the content and the lines of the text. */
  lemma YamlNeedsLines(before: seq<string>, h: string, w: seq<string>, field: string, content: string)
    requires IsRuleBaseKey(field) && BlockHead(h, field, content) && OneLine(before) && OneLine(w) && w != []
    requires ReplacedText(Join(before + ([h] + w), "\n"), Yaml, field, content) == Join(before + ([h] + w), "\n")
    ensures Lines(TrimEndChar(content, '\n')) == [] && NoCr(before) && AllEmpty(w)
  {
    var all, b := before + ([h] + w), BlockLine(content, Indent(h));
    assert all[|before|] == h && OneLine(all);
    UnchangedCounts(all, |before|, field, content);
    BlockIsOneLine(content, Indent(h));
    CutJoined(all);
    UnchangedLines(all, |before|, h, b, field, content);
    TailOfAll(before, h, w, b);
    assert w[|w| - 1] == all[|all| - 1];
    ChainToEmpty(w);
  }

  lemma ChainToEmpty(w: seq<string>)
    requires w != [] && w[|w| - 1] == "" && forall i :: 0 < i < |w| ==> w[i] == StripCr(w[i - 1])
    ensures ' ' !in w[0] && (w[0] == "" ==> AllEmpty(w))
  {
    Chain(w, |w| - 1);
    forall l | w[0] == "" && l in w ensures l == "" {
      var j :| 0 <= j < |w| && w[j] == l;
      Chain(w, j);
    }
  }

  lemma NothingWritten(first: string, after: seq<string>, w: seq<string>, field: string, content: string)
    requires IsRuleBaseKey(field) && OneLine(after) && AllEmpty(w)
    requires Join(w, "\n") == Join([first] + ReplaceLines(Yaml, after, field, content), "\n")
    ensures AllEmpty(after)
  {
    var changed := ReplaceLines(Yaml, after, field, content);
    EmptyJoin(w);
    forall r, c | r in changed && c in r ensures c == '\n' {
      assert r in [first] + changed;
      JoinMembers([first] + changed, r, c);
    }
    NothingBehind(after, field, content);
  }

  /** What an unchanged text says about the configuration and the content. */
  lemma YamlNeeds(before: seq<string>, indent: string, after: seq<string>, field: string, content: string)
    requires IsRuleBaseKey(field) && AllSpace(indent) && '\n' !in indent && OneLine(before) && OneLine(after)
    requires var once := Join(before + ([Replacement(Yaml, field, content, indent)]
                                        + ReplaceLines(Yaml, after, field, content)), "\n");
             ReplacedText(once, Yaml, field, content) == once
    ensures Lines(TrimEndChar(content, '\n')) == [] && NoCr(before) && AllEmpty(after)
  {
    var h := indent + field + ": |-";
    var tail := Join(Indented(Lines(TrimEndChar(content, '\n')), indent + "  "), "\n");
    var w := RestOfOnce(before, h, tail, ReplaceLines(Yaml, after, field, content));
    HeadOfBlock(field, content, indent);
    YamlNeedsLines(before, h, w, field, content);
    NothingWritten(tail, after, w, field, content);
  }

  lemma BlockIsOneLine(content: string, indent: string)
    requires '\n' !in indent
    ensures '\n' !in BlockLine(content, indent)
    ensures BlockLine(content, indent) == "" <==> Lines(TrimEndChar(content, '\n')) == []
    ensures BlockLine(content, indent) != "" ==> ' ' in BlockLine(content, indent)
  {
    var lines := Lines(TrimEndChar(content, '\n'));
    if lines != [] { assert lines[0] in lines && BlockLine(content, indent)[|indent|] == ' '; }
  }

  /**
   For YAML a second replacement changes nothing exactly when the content has no line, no line before the
   field's ends in a carriage return, and every line behind it is empty.
   */
  lemma YamlSettles(config: string, field: string, content: string)
    requires IsRuleBaseKey(field)
    ensures var once := ReplacedText(config, Yaml, field, content);
            ReplacedText(once, Yaml, field, content) == once <==>
            Lines(TrimEndChar(content, '\n')) == [] && YamlSettled(Lines(config), field)
  {
    var before, first, after := AroundReplaced(Yaml, Lines(config), field, content);
    var once := ReplacedText(config, Yaml, field, content);
    var indent := IndentOf(first);
    FieldFacts(field);
    AroundSettled(Lines(config), before, first, after, field);
    if Lines(TrimEndChar(content, '\n')) == [] && YamlSettled(Lines(config), field) {
      NoneStartsEmpty(after, field);
      ReplaceNothing(Yaml, after, field, content);
      YamlKept(before, indent, after, field, content);
    }
    if ReplacedText(once, Yaml, field, content) == once {
      YamlNeeds(before, indent, after, field, content);
    }
  }

  lemma AroundSettled(lines: seq<string>, before: seq<string>, first: Option<string>, after: seq<string>, field: string)
    requires OneLine(lines) && NoneStarts(before, field) && (first.None? ==> lines == before && after == [])
    requires first.Some? ==> StartsField(first.value, field) && lines == before + ([first.value] + after)
    ensures OneLine(before) && OneLine(after)
    ensures YamlSettled(lines, field) <==> NoCr(before) && AllEmpty(after)
  {
    if first.Some? {
      YamlSettledAround(before, [first.value] + after, field);
      assert ([first.value] + after)[1..] == after;
    } else {
      YamlSettledAround(before, [], field);
      assert before + [] == before;
    }
  }
}
