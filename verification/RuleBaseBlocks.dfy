/**
 Rule bases embedded on several lines: what a TOML or YAML replacement looks like, and what it leaves of
 the block that was there.
 */
module RuleBaseBlocks {
  import opened LineEnds
  import opened RuleBaseField
  import opened SectionMerge
  import opened Text
  import opened Wrappers

  // ---------------------------------------------------------------- one replacement

  /** The lines of a YAML block are the content's lines, each behind two spaces more than the field. */
  lemma YamlBlock(field: string, content: string, indent: string)
    requires '\n' !in field && '\n' !in indent
    ensures var head := indent + field + ": |-";
            var lines := Lines(TrimEndChar(content, '\n'));
            Bares(Lines(Replacement(Yaml, field, content, indent))) == [head] + Bares(Indented(lines, indent + "  "))
  {
    var lines := Lines(TrimEndChar(content, '\n'));
    var inner := Indented(lines, indent + "  ");
    NotCr(indent + field + ": |", '-');
    IndentedIsSolid(lines, indent + "  ");
    BaresOfJoin(inner);
    assert indent + field + ": |-" == indent + field + ": |" + ['-'];
    YamlCut(indent + field + ": |-", Join(inner, "\n"));
  }

  lemma YamlCut(head: string, rest: string)
    requires '\n' !in head && Bare(head) == head
    ensures Bares(Lines(head + "\n" + rest)) == [head] + Bares(Lines(rest))
  {
    BaresOfCut(head, rest);
  }

  lemma NotCr(front: string, c: char)
    requires c != '\r'
    ensures Bare(front + [c]) == front + [c]
  {
  }

  lemma IndentedIsSolid(lines: seq<string>, indent: string)
    requires '\n' !in indent && indent != "" && forall l :: l in lines ==> '\n' !in l
    ensures OneLine(Indented(lines, indent)) && !EndsEmpty(Indented(lines, indent))
  {
    forall l | l in Indented(lines, indent) ensures '\n' !in l {
      var i :| 0 <= i < |lines| && l == indent + lines[i];
      assert lines[i] in lines;
    }
  }

  /**
   Between the three quotes of a TOML literal stands the content, a line feed and the indentation, and it
   ends at the quotes that were written exactly when the content holds no three quotes itself.
   */
  lemma TomlLiteral(field: string, content: string, indent: string)
    requires AllSpace(indent)
    ensures var text := TrimEndChar(content, '\n');
            var tail := text + "\n" + indent + QUOTES;
            Replacement(Toml, field, content, indent) == indent + field + " = " + QUOTES + "\n" + tail &&
            (SplitOnce(tail, QUOTES) == Some((text + "\n" + indent, "")) <==> !Contains(text, QUOTES))
  {
    var text := TrimEndChar(content, '\n');
    var space := "\n" + indent;
    assert text + space == text + "\n" + indent;
    LiteralEnds(text, space, QUOTES);
  }

  lemma LiteralEnds(text: string, space: string, quotes: string)
    requires space != "" && AllSpace(space) && ThreeOf(quotes)
    ensures SplitOnce(text + space + quotes, quotes) == Some((text + space, "")) <==> !Contains(text, quotes)
  {
    if Contains(text, quotes) {
      ContainsInfix("", text, space, quotes);
      assert "" + text + space == text + space;
    } else {
      QuotesAtEnd(text, space, quotes);
    }
  }

  predicate ThreeOf(quotes: string) {
    |quotes| == 3 && quotes[0] == quotes[1] == quotes[2] && !IsSpace(quotes[0])
  }

  /** Behind white space that ends a text without three quotes, the first three quotes are those put there. */
  lemma QuotesAtEnd(text: string, space: string, quotes: string)
    requires !Contains(text, quotes) && space != "" && AllSpace(space) && ThreeOf(quotes)
    ensures SplitOnce(text + space + quotes, quotes) == Some((text + space, ""))
  {
    var body := text + space;
    var s := body + quotes;
    assert s[|body|..|body| + 3] == quotes;
    forall j | 0 <= j < |body| ensures !OccursAt(s, quotes, j) {
      if j + 3 <= |text| {
        assert text[j..j + 3] == s[j..j + 3];
        assert !OccursAt(text, quotes, j);
      } else {
        SpaceInside(text, space, quotes, j);
      }
    }
    FindIsFirst(s, quotes, |body|);
    assert s[..|body|] == body && s[|body| + 3..] == "";
  }

  /** A stretch of three characters that reaches into the white space is no three quotes. */
  lemma SpaceInside(text: string, space: string, quotes: string, j: nat)
    requires space != "" && AllSpace(space) && ThreeOf(quotes)
    requires |text| < j + 3 && j < |text + space|
    ensures (text + space + quotes)[j..j + 3] != quotes
  {
    var s := text + space + quotes;
    var k := if j <= |text| then |text| else j;
    assert s[k] == space[k - |text|] && space[k - |text|] in space;
    assert s[j..j + 3][k - j] == s[k] && IsSpace(s[k]);
  }

  // ---------------------------------------------------------------- what a replacement leaves

  predicate NoneStarts(lines: seq<string>, field: string) {
    forall l :: l in lines ==> !StartsField(l, field)
  }

  lemma NoneOrAny(lines: seq<string>, field: string)
    ensures NoneStarts(lines, field) <==> !AnyStarts(lines, field)
  {
    if AnyStarts(lines, field) {
      var i :| 0 <= i < |lines| && StartsField(lines[i], field);
      assert lines[i] in lines;
    }
  }

  lemma {:induction false} ReplaceNothing(syntax: Syntax, lines: seq<string>, field: string, content: string)
    requires NoneStarts(lines, field)
    ensures ReplaceLines(syntax, lines, field, content) == lines
  {
    if lines != [] {
      assert lines == [lines[0]] + lines[1..] && lines[0] in lines;
      ReplaceNothing(syntax, lines[1..], field, content);
    }
  }

  lemma {:induction false} ReplaceConcat(syntax: Syntax, a: seq<string>, b: seq<string>, field: string, content: string)
    ensures ReplaceLines(syntax, a + b, field, content)
            == ReplaceLines(syntax, a, field, content) + ReplaceLines(syntax, b, field, content)
  {
    if a == [] {
      assert a + b == b;
    } else {
      assert (a + b)[1..] == a[1..] + b;
      ReplaceConcat(syntax, a[1..], b, field, content);
    }
  }

  lemma ReplaceCons(syntax: Syntax, line: string, rest: seq<string>, field: string, content: string)
    ensures ReplaceLines(syntax, [line] + rest, field, content)
            == [ReplaceLine(syntax, line, field, content)] + ReplaceLines(syntax, rest, field, content)
  {
    assert ([line] + rest)[1..] == rest;
  }

  /** Where one line starts with the field, that line alone is replaced. */
  lemma ReplaceOne(syntax: Syntax, before: seq<string>, first: string, after: seq<string>, field: string,
                   content: string)
    requires NoneStarts(before, field) && NoneStarts(after, field) && StartsField(first, field)
    ensures NewLines(syntax, before + ([first] + after), field, content)
            == before + ([Replacement(syntax, field, content, Indent(first))] + after)
  {
    var lines := before + ([first] + after);
    assert lines[|before|] == first && AnyStarts(lines, field);
    ReplaceConcat(syntax, before, [first] + after, field, content);
    ReplaceCons(syntax, first, after, field, content);
    ReplaceNothing(syntax, before, field, content);
    ReplaceNothing(syntax, after, field, content);
  }

  /**
   In every syntax the rest of an old block stays behind the new replacement, so the result is the one
   without that rest exactly when there is none.
   */
  lemma OldBlockStays(syntax: Syntax, before: seq<string>, first: string, block: seq<string>, after: seq<string>,
                      field: string, content: string)
    requires StartsField(first, field)
    requires NoneStarts(before, field) && NoneStarts(block, field) && NoneStarts(after, field)
    ensures var result := NewLines(syntax, before + ([first] + (block + after)), field, content);
            result == before + ([Replacement(syntax, field, content, Indent(first))] + (block + after)) &&
            (result == NewLines(syntax, before + ([first] + after), field, content) <==> block == [])
  {
    forall l | l in block + after ensures !StartsField(l, field) {
      assert l in block || l in after;
    }
    ReplaceOne(syntax, before, first, block + after, field, content);
    ReplaceOne(syntax, before, first, after, field, content);
    if block == [] { assert block + after == after; }
  }
}
