/** What the two template passes make of a text, from its first tag on, and which tags are includes. */
module TemplateText {
  import opened Wrappers
  import opened Text
  import opened Templates

  /** The text up to the first opening mark: none is in it, nor does one begin at its end. */
  predicate Before(text: string, open: string) {
    |open| == 2 && !Contains(text + [open[0]], open)
  }

  lemma FirstMark(before: string, open: string, after: string)
    requires Before(before, open)
    ensures SplitOnce(before + open + after, open) == Some((before, after))
  {
    var content := before + open + after;
    assert content[|before|..|before| + 2] == open;
    forall j | 0 <= j < |before| ensures !OccursAt(content, open, j) {
      var head := before + [open[0]];
      assert head[j..j + 2] == content[j..j + 2];
      assert !OccursAt(head, open, j);
    }
    FindIsFirst(content, open, |before|);
    assert content[..|before|] == before && content[|before| + 2..] == after;
  }

  /** A closed tag, cut as the scanners cut it. */
  lemma TagIsCut(before: string, open: string, inner: string, close: string, rest: string)
    requires Before(before, open) && Before(inner, close)
    ensures CutAt(before + open + (inner + close + rest), open, close) == Closed(before, inner, rest)
  {
    FirstMark(before, open, inner + close + rest);
    FirstMark(inner, close, rest);
  }

  lemma OpenIsCut(before: string, open: string, after: string, close: string)
    requires Before(before, open) && close != "" && !Contains(after, close)
    ensures CutAt(before + open + after, open, close) == Open(before, after)
  {
    FirstMark(before, open, after);
  }

  // ---------------------------------------------------------------- variables

  /** A variable gives its value, if it has one, whatever the value holds; the rest is rendered on its own. */
  lemma VariableIsReplaced(before: string, inner: string, rest: string, vars: map<string, string>)
    requires Before(before, "{{") && Before(inner, "}}")
    ensures Rendered(before + "{{" + (inner + "}}" + rest), vars) ==
            before + (if Trim(inner) in vars then vars[Trim(inner)] else "") + Rendered(rest, vars)
  {
    var open, close := "{{", "}}";
    TagIsCut(before, open, inner, close, rest);
    OutputRound("", before + open + (inner + close + rest), open, close, VariableOf(vars));
    NothingBefore(before, inner, rest, vars);
  }

  lemma NothingBefore(before: string, inner: string, rest: string, vars: map<string, string>)
    ensures var f := VariableOf(vars);
            "" + f(Literal(before)) + f(Tag(inner)) + Rendered(rest, vars) ==
            before + (if Trim(inner) in vars then vars[Trim(inner)] else "") + Rendered(rest, vars)
  {
    assert "" + before == before;
  }

  /** A text without an opening mark, or with one that is never closed, comes out as it is. */
  lemma NoVariable(content: string, vars: map<string, string>)
    requires !Contains(content, "{{")
    ensures Rendered(content, vars) == content
  {
    ScanRound(content, "{{", "}}", VariableOf(vars));
  }

  lemma UnclosedVariable(before: string, after: string, vars: map<string, string>)
    requires Before(before, "{{") && !Contains(after, "}}")
    ensures Rendered(before + "{{" + after, vars) == before + "{{" + after
  {
    OpenIsCut(before, "{{", after, "}}");
    UnclosedText(before + "{{" + after, before, after, vars);
    Regroup(before, "{{", after);
  }

  lemma UnclosedText(content: string, before: string, after: string, vars: map<string, string>)
    requires CutAt(content, "{{", "}}") == Open(before, after)
    ensures Rendered(content, vars) == before + ("{{" + after)
  {
    ScanRound(content, "{{", "}}", VariableOf(vars));
  }

  // ---------------------------------------------------------------- includes

  /** What the tag of an include is: the word, the name between two equal quotes, and then anything. */
  lemma IncludeNameIs(space: string, quote: char, name: string, tail: string)
    requires AllSpaces(space) && (quote == '"' || quote == '\'') && quote !in name
    ensures IncludeName("include" + (space + ([quote] + name + [quote] + tail))) == Some(name)
  {
    var word, body := "include", [quote] + name + [quote] + tail;
    var tag := word + (space + body);
    assert word <= tag && tag[|word|..] == space + body;
    LeadingSpaces(space, body);
    QuotedTail(quote, name, tail);
    QuotedName(quote, name, TrimEnd(tail), TrimEnd(body));
  }

  lemma QuotedTail(quote: char, name: string, tail: string)
    requires quote == '"' || quote == '\''
    ensures TrimEnd([quote] + name + [quote] + tail) == [quote] + name + [quote] + TrimEnd(tail)
  {
    TrimEndAfterInk([quote] + name + [quote], tail);
  }

  lemma QuotedName(quote: char, name: string, tail: string, trimmed: string)
    requires quote !in name && trimmed == [quote] + name + [quote] + tail
    ensures trimmed != "" && trimmed[0] == quote && SplitOnce(trimmed[1..], [quote]) == Some((name, tail))
  {
    assert trimmed[1..] == name + [quote] + tail;
    SplitOnceUnique(name, quote, tail);
  }

  /** Any other tag is none: without the word, without a quote behind it, or with a quote that is not closed. */
  lemma NoIncludeName(tag: string)
    requires || !("include" <= tag) || Trim(tag[7..]) == ""
             || (Trim(tag[7..])[0] != '"' && Trim(tag[7..])[0] != '\'')
             || Trim(tag[7..])[0] !in Trim(tag[7..])[1..]
    ensures IncludeName(tag) == None
  {
    var word := "include";
    assert |word| == 7;
    if word <= tag && Trim(tag[7..]) != "" { FindChar(Trim(tag[7..])[1..], Trim(tag[7..])[0]); }
  }

  /** An include of a known name gives the text of that name, expanded one level less deep, an unknown nothing. */
  lemma IncludeIsReplaced(before: string, inner: string, name: string, rest: string, files: Files, left: nat)
    requires Before(before, "{%") && Before(inner, "%}") && IncludeName(Trim(inner)) == Some(name) && left > 0
    ensures Expand(before + "{%" + (inner + "%}" + rest), files, left) ==
            before + (if name in files then Expand(files[name], files, left - 1) else "") + Expand(rest, files, left)
  {
    var open, close := "{%", "%}";
    TagIsCut(before, open, inner, close, rest);
    LevelRound("", before + open + (inner + close + rest), ExpandAll(files, left - 1));
    IncludedByName(inner, ExpandAll(files, left - 1));
    assert "" + before == before;
  }

  /** Any other tag stays where it is. */
  lemma OtherTagStays(before: string, inner: string, rest: string, files: Files, left: nat)
    requires Before(before, "{%") && Before(inner, "%}") && IncludeName(Trim(inner)) == None && left > 0
    ensures Expand(before + "{%" + (inner + "%}" + rest), files, left) ==
            before + ("{%" + inner + "%}") + Expand(rest, files, left)
  {
    var open, close := "{%", "%}";
    TagIsCut(before, open, inner, close, rest);
    LevelRound("", before + open + (inner + close + rest), ExpandAll(files, left - 1));
    IncludedByName(inner, ExpandAll(files, left - 1));
    assert "" + before == before;
  }

  lemma NoTag(content: string, files: Files, left: nat)
    requires !Contains(content, "{%")
    ensures Expand(content, files, left) == content
  {
    if left > 0 { LevelRound("", content, ExpandAll(files, left - 1)); }
  }

  // ---------------------------------------------------------------- both passes

  /** `render_template_with_includes`. */
  function RenderedWithIncludes(content: string, vars: map<string, string>, files: Files): string {
    Rendered(Expand(content, files, 8), vars)
  }

  method RenderTemplateWithIncludes(content: string, vars: map<string, string>, files: Files) returns (output: string)
    ensures output == RenderedWithIncludes(content, vars, files)
  {
    var expanded := ExpandIncludes(content, files, 0);
    assert expanded == Expand(content, files, 8);
    output := RenderVariables(expanded, vars);
  }

  /** Includes come first: variables are looked for in the text that the includes have given. */
  lemma IncludesComeFirst(before: string, inner: string, name: string, rest: string, vars: map<string, string>,
                          files: Files)
    requires Before(before, "{%") && Before(inner, "%}") && IncludeName(Trim(inner)) == Some(name) && name in files
    ensures RenderedWithIncludes(before + "{%" + (inner + "%}" + rest), vars, files) ==
            Rendered(before + Expand(files[name], files, 7) + Expand(rest, files, 8), vars)
  {
    IncludeIsReplaced(before, inner, name, rest, files, 8);
  }

  /** The usual way to write an include. */
  lemma TagOfName(inner: string, name: string)
    requires inner == " include \"" + name + "\" " && '"' !in name
    ensures IncludeName(Trim(inner)) == Some(name)
  {
    var word := "include";
    var core := word + (" " + (['"'] + name + ['"'] + ""));
    assert inner == [' '] + core + [' '];
    SpacesAround(core, [' '], [' ']);
    IncludeNameIs(" ", '"', name, "");
  }
}
