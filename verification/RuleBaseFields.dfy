/** Embedding all rule bases of an INI configuration, one field after the other. */
module RuleBaseFields {
  import opened Ordering
  import opened RuleBaseField
  import opened Text
  import opened Wrappers

  // ---------------------------------------------------------------- the loop

  /** The names of the fields. */
  function Keys(targets: seq<string>): (keys: seq<string>)
    ensures |keys| == |targets| && forall i :: 0 <= i < |targets| ==> keys[i] == targets[i] + RULE_BASE
  {
    seq(|targets|, i requires 0 <= i < |targets| => targets[i] + RULE_BASE)
  }

  const FIELDS: seq<string> := Keys(TARGETS)

  /** `contents` holds what the references of the fields resolve to; a field that is not there is skipped. */
  function Embedded(config: string, syntax: Syntax, fields: seq<string>, contents: map<string, string>): string
    decreases |fields|
  {
    if fields == [] then config
    else
      var field := fields[0];
      var next := if field in contents then ReplacedText(config, syntax, field, contents[field]) else config;
      Embedded(next, syntax, fields[1..], contents)
  }

  /** The loop of `resolve_config_content`. */
  method EmbedRuleBases(config: string, syntax: Syntax, contents: map<string, string>) returns (resolved: string)
    ensures resolved == Embedded(config, syntax, FIELDS, contents)
  {
    resolved := config;
    assert FIELDS[0..] == FIELDS;
    for i := 0 to |FIELDS|
      invariant Embedded(resolved, syntax, FIELDS[i..], contents) == Embedded(config, syntax, FIELDS, contents)
    {
      var field := FIELDS[i];
      assert FIELDS[i..][0] == field && FIELDS[i..][1..] == FIELDS[i + 1..];
      if field in contents {
        resolved := ReplaceRuleBaseField(resolved, syntax, field, contents[field]);
      }
    }
    assert FIELDS[|FIELDS|..] == [];
  }

  // ---------------------------------------------------------------- another field's place is not moved

  lemma StartsOneField(line: string, f: string, g: string)
    requires IsRuleBaseKey(f) && IsRuleBaseKey(g) && f != g
    ensures !(StartsField(line, f) && StartsField(line, g))
  {
    var t := TrimStart(line);
    if f <= t && g <= t {
      assert f == t[..|f|] && g == t[..|g|];
      if |f| <= |g| { PrefixFree(f, g); } else { PrefixFree(g, f); }
    }
  }

  /** Where a line is for another field: whether it starts with it, and the section behind it. */
  predicate SamePlace(line: string, other: string, g: string) {
    && StartsField(line, g) == StartsField(other, g)
    && (if ReadLine(line).Header? then ReadLine(other) == ReadLine(line) else !ReadLine(other).Header?)
  }

  lemma ReplacedInPlace(line: string, f: string, content: string, g: string)
    requires IsRuleBaseKey(f) && IsRuleBaseKey(g) && f != g
    ensures SamePlace(line, ReplaceLine(Ini, line, f, content), g)
  {
    if StartsField(line, f) {
      var indent := Indent(line);
      FieldFacts(f);
      IndentIsSpace(line);
      KeyOfStarting(line, f);
      ReadReplacement(indent, f, content);
      ReplacementStarts(f, content, indent);
      StartsOneField(line, f, g);
      StartsOneField(IniReplacement(f, content, indent), f, g);
    }
  }

  lemma ReplacementStarts(f: string, content: string, indent: string)
    requires IsRuleBaseKey(f) && AllSpace(indent)
    ensures StartsField(IniReplacement(f, content, indent), f)
  {
    FieldFacts(f);
    var tail := f + "=" + Escape(Plain(content));
    TrimStartPastSpace(indent, tail);
    assert TrimStart(tail) == tail;
  }

  lemma AnyStartsCons(line: string, rest: seq<string>, g: string)
    ensures AnyStarts([line] + rest, g) <==> StartsField(line, g) || AnyStarts(rest, g)
  {
    var all := [line] + rest;
    assert forall i :: 0 <= i < |rest| ==> all[i + 1] == rest[i];
    if AnyStarts(all, g) && !StartsField(line, g) {
      var i :| 0 <= i < |all| && StartsField(all[i], g);
      assert rest[i - 1] == all[i];
    }
    if StartsField(line, g) { assert all[0] == line; }
  }

  /** Two lists of lines in which a field has the same place. */
  predicate Alike(a: seq<string>, b: seq<string>, section: string, g: string) {
    && AnyStarts(a, g) == AnyStarts(b, g)
    && Reached(a, section, g) == Reached(b, section, g)
    && LastSection(a, section) == LastSection(b, section)
  }

  lemma AlikeCons(line: string, a: seq<string>, other: string, b: seq<string>, section: string, g: string)
    requires SamePlace(line, other, g) && Alike(a, b, SectionAfter(section, ReadLine(line)), g)
    ensures Alike([line] + a, [other] + b, section, g)
  {
    AnyStartsCons(line, a, g);
    AnyStartsCons(other, b, g);
    assert ([line] + a)[1..] == a && ([other] + b)[1..] == b;
  }

  lemma {:induction false} ReplacedAlike(lines: seq<string>, section: string, f: string, content: string, g: string)
    requires IsRuleBaseKey(f) && IsRuleBaseKey(g) && f != g
    ensures Alike(lines, ReplaceLines(Ini, lines, f, content), section, g)
  {
    if lines != [] {
      var line, rest := lines[0], lines[1..];
      ReplacedInPlace(line, f, content, g);
      ReplacedAlike(rest, SectionAfter(section, ReadLine(line)), f, content, g);
      AlikeCons(line, rest, ReplaceLine(Ini, line, f, content), ReplaceLines(Ini, rest, f, content), section, g);
      assert lines == [line] + rest;
    }
  }

  /** A line at the end that neither starts with the field nor opens a section. */
  lemma {:induction false} AlikeSnoc(lines: seq<string>, added: string, section: string, g: string)
    requires !StartsField(added, g) && !ReadLine(added).Header?
    ensures Alike(lines, lines + [added], section, g)
  {
    if lines == [] {
      assert lines + [added] == [added] + [] && [added][1..] == [];
      AnyStartsCons(added, [], g);
      assert LastSection([added], section) == LastSection([added][1..], section) == section;
      assert !Reached([added][1..], section, g);
    } else {
      var line, rest := lines[0], lines[1..];
      AlikeSnoc(rest, added, SectionAfter(section, ReadLine(line)), g);
      AlikeCons(line, rest, line, rest + [added], section, g);
      assert lines == [line] + rest && lines + [added] == [line] + (rest + [added]);
    }
  }

  lemma StrippedInPlace(line: string, g: string)
    requires IsRuleBaseKey(g)
    ensures SamePlace(line, StripCr(line), g)
  {
    StripKeepsStart(line, g);
    ReadStripsCr(line);
  }

  lemma EmptyLineAlike(section: string, g: string)
    requires IsRuleBaseKey(g)
    ensures Alike([""], [], section, g)
  {
    FieldFacts(g);
    assert TrimStart("") == "" && ReadLine("") == Skip;
    AlikeSnoc([], "", section, g);
    assert [] + [""] == [""];
  }

  lemma {:induction false} JoinedAlike(lines: seq<string>, section: string, g: string)
    requires IsRuleBaseKey(g) && forall l :: l in lines ==> '\n' !in l
    ensures Alike(lines, Lines(Join(lines, "\n")), section, g)
    decreases |lines|
  {
    if |lines| == 1 {
      LinesOfLast(lines[0]);
      assert lines == [lines[0]];
      EmptyLineAlike(section, g);
    } else if lines != [] {
      var line, rest := lines[0], lines[1..];
      assert lines == [line] + rest && line in lines;
      LinesOfCons(line, Join(rest, "\n"));
      JoinedAlike(rest, SectionAfter(section, ReadLine(line)), g);
      StrippedInPlace(line, g);
      AlikeCons(line, rest, StripCr(line), Lines(Join(rest, "\n")), section, g);
    }
  }

  lemma NewLinesAlike(lines: seq<string>, f: string, content: string, g: string)
    requires IsRuleBaseKey(f) && IsRuleBaseKey(g) && f != g
    ensures Alike(lines, NewLines(Ini, lines, f, content), "", g)
  {
    var mapped := ReplaceLines(Ini, lines, f, content);
    ReplacedAlike(lines, "", f, content, g);
    if AnyStarts(lines, f) {
      assert NewLines(Ini, lines, f, content) == mapped;
    } else {
      var added := IniReplacement(f, content, "");
      ReplacementStarts(f, content, "");
      StartsOneField(added, f, g);
      ReadReplacement("", f, content);
      AlikeSnoc(mapped, added, "", g);
    }
  }

  lemma AlikeLands(a: seq<string>, b: seq<string>, c: seq<string>, g: string)
    requires Alike(a, b, "", g) && Alike(b, c, "", g)
    ensures Lands(a, g) == Lands(c, g)
  {
  }

  lemma NewLinesHaveNoLf(lines: seq<string>, f: string, content: string)
    requires IsRuleBaseKey(f) && forall l :: l in lines ==> '\n' !in l
    ensures forall l :: l in NewLines(Ini, lines, f, content) ==> '\n' !in l
  {
    FieldFacts(f);
    EscapeHasNoLf(Plain(content));
    ReplacedHaveNoLf(lines, f, content);
  }

  /** Replacing one field does not change where another one lands. */
  lemma LandsKept(config: string, f: string, content: string, g: string)
    requires IsRuleBaseKey(f) && IsRuleBaseKey(g) && f != g
    ensures Lands(Lines(ReplacedText(config, Ini, f, content)), g) == Lands(Lines(config), g)
  {
    var x := NewLines(Ini, Lines(config), f, content);
    NewLinesAlike(Lines(config), f, content, g);
    NewLinesHaveNoLf(Lines(config), f, content);
    JoinedAlike(x, "", g);
    AlikeLands(Lines(config), x, Lines(Join(x, "\n")), g);
  }

  // ---------------------------------------------------------------- all fields

  /** What the configuration parser reads. */
  function FieldsOf(config: string): map<string, string> {
    ParseFrom(START, Lines(config)).fields
  }

  lemma OneField(config: string, field: string, content: string)
    requires IsRuleBaseKey(field)
    ensures var was, now := FieldsOf(config), FieldsOf(ReplacedText(config, Ini, field, content));
            (forall key :: key != field ==> Lookup(now, key) == Lookup(was, key)) &&
            Lookup(now, field) == if Lands(Lines(config), field) then Some(ReadBack(content)) else None
  {
    var lines := Lines(config);
    NewLinesHaveNoLf(lines, field, content);
    ParseOfJoined(START, NewLines(Ini, lines, field, content));
    NewLinesParsed(lines, field, content);
  }

  lemma {:induction false} EmbeddedReads(config: string, fields: seq<string>, contents: map<string, string>,
                                         key: string)
    requires Distinct(fields) && forall f :: f in fields ==> IsRuleBaseKey(f)
    ensures Lookup(FieldsOf(Embedded(config, Ini, fields, contents)), key) ==
            if key in fields && key in contents then
              if Lands(Lines(config), key) then Some(ReadBack(contents[key])) else None
            else Lookup(FieldsOf(config), key)
    decreases |fields|
  {
    if fields != [] {
      var field, rest := fields[0], fields[1..];
      assert fields == [field] + rest && field in fields && field !in rest;
      if field in contents {
        var next := ReplacedText(config, Ini, field, contents[field]);
        EmbeddedReads(next, rest, contents, key);
        OneField(config, field, contents[field]);
        if key != field && key in rest { LandsKept(config, field, contents[field], key); }
      } else {
        EmbeddedReads(config, rest, contents, key);
      }
    }
  }

  lemma TargetsDiffer()
    ensures Distinct(TARGETS)
  {
  }

  lemma TailsCut(a: string, b: string, tail: string)
    ensures a + tail == b + tail <==> a == b
    ensures (a + tail)[|a + tail| - |tail|..] == tail && (a + tail)[..|a + tail| - |tail|] == a
  {
    if a + tail == b + tail { assert (a + tail)[..|a|] == a && (b + tail)[..|b|] == b; }
  }

  lemma FieldsAreKeys()
    ensures Distinct(FIELDS) && forall key :: key in FIELDS <==> IsRuleBaseKey(key)
  {
    TargetsDiffer();
    forall i, j | 0 <= i < j < |FIELDS| ensures FIELDS[i] != FIELDS[j] {
      TailsCut(TARGETS[i], TARGETS[j], RULE_BASE);
    }
    forall key ensures key in FIELDS <==> IsRuleBaseKey(key) { FieldIsKey(key); }
  }

  lemma FieldIsKey(key: string)
    ensures key in FIELDS <==> IsRuleBaseKey(key)
  {
    if key in FIELDS {
      var i :| 0 <= i < |FIELDS| && FIELDS[i] == key;
      TailsCut(TARGETS[i], TARGETS[i], RULE_BASE);
      assert Target(key) == Some(TARGETS[i]);
    }
    if IsRuleBaseKey(key) {
      var name := Target(key).value;
      assert key == name + RULE_BASE;
      var i :| 0 <= i < |TARGETS| && TARGETS[i] == name;
      assert FIELDS[i] == key;
    }
  }

  /**
   After the whole loop every field that has a content reads back as that content exactly when it had a
   place where it counts and the content is embeddable, and every other field keeps its value.
   */
  lemma AllEmbeddings(config: string, contents: map<string, string>, key: string)
    requires IsRuleBaseKey(key)
    ensures var was, now := FieldsOf(config), FieldsOf(Embedded(config, Ini, FIELDS, contents));
            if key in contents then
              Lookup(now, key) == Some(Plain(contents[key])) <==>
              Lands(Lines(config), key) && Embeddable(Plain(contents[key]))
            else Lookup(now, key) == Lookup(was, key)
  {
    FieldsAreKeys();
    EmbeddedReads(config, FIELDS, contents, key);
    if key in contents { ValueRoundTrip(Plain(contents[key])); }
  }
}
