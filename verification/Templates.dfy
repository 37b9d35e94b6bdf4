/**
 Templates: include tags, expanded to a bounded depth, and variables. Both scanners cut the text at an
 opening mark and the next closing mark.
 */
module Templates {
  import opened Wrappers
  import opened Text

  datatype Token = Literal(text: string) | Tag(inner: string) | Unclosed(text: string)

  /** The first cut of a text: nowhere, at an opening mark that is never closed, or around a tag. */
  datatype Cut = Whole | Open(before: string, after: string) | Closed(before: string, inner: string, rest: string)

  function CutAt(content: string, open: string, close: string): (cut: Cut)
    requires open != "" && close != ""
    ensures cut.Closed? ==> |cut.rest| < |content|
    ensures cut.Whole? <==> !Contains(content, open)
  {
    var first := SplitOnce(content, open);
    if first.None? then Whole
    else
      var second := SplitOnce(first.value.1, close);
      if second.None? then Open(first.value.0, first.value.1)
      else Closed(first.value.0, second.value.0, second.value.1)
  }

  function Scan(content: string, open: string, close: string): seq<Token>
    requires open != "" && close != ""
    decreases |content|
  {
    match CutAt(content, open, close)
    case Whole => [Literal(content)]
    case Open(before, after) => [Literal(before), Unclosed(after)]
    case Closed(before, inner, rest) => [Literal(before), Tag(inner)] + Scan(rest, open, close)
  }

  /** Every token gives its own stretch of the output. */
  function Fold(tokens: seq<Token>, f: Token -> string): string {
    if tokens == [] then "" else f(tokens[0]) + Fold(tokens[1..], f)
  }

  lemma FoldCons(a: Token, rest: seq<Token>, f: Token -> string)
    ensures Fold([a] + rest, f) == f(a) + Fold(rest, f)
  {
    assert ([a] + rest)[1..] == rest;
  }

  lemma FoldOne(a: Token, f: Token -> string)
    ensures Fold([a], f) == f(a)
  {
    FoldCons(a, [], f);
    assert [a] + [] == [a];
    assert f(a) + "" == f(a);
  }

  lemma FoldTwo(a: Token, b: Token, rest: seq<Token>, f: Token -> string)
    ensures Fold([a, b] + rest, f) == f(a) + (f(b) + Fold(rest, f))
  {
    FoldCons(b, rest, f);
    FoldCons(a, [b] + rest, f);
    assert [a] + ([b] + rest) == [a, b] + rest;
  }

  lemma {:induction false} FoldSame(tokens: seq<Token>, f: Token -> string, g: Token -> string)
    requires forall t :: t in tokens ==> f(t) == g(t)
    ensures Fold(tokens, f) == Fold(tokens, g)
  {
    if tokens != [] {
      assert tokens[0] in tokens;
      FoldSame(tokens[1..], f, g);
    }
  }

  /** One round of a scanner: what stands before the cut, what the cut gives, and the rest. */
  lemma ScanRound(content: string, open: string, close: string, f: Token -> string)
    requires open != "" && close != ""
    ensures var cut := CutAt(content, open, close);
            var out := Fold(Scan(content, open, close), f);
            if cut.Whole? then out == f(Literal(content))
            else if cut.Open? then out == f(Literal(cut.before)) + f(Unclosed(cut.after))
            else out == f(Literal(cut.before)) + (f(Tag(cut.inner)) + Fold(Scan(cut.rest, open, close), f))
  {
    var cut := CutAt(content, open, close);
    if cut.Whole? {
      FoldOne(Literal(content), f);
    } else if cut.Open? {
      FoldOne(Unclosed(cut.after), f);
      FoldCons(Literal(cut.before), [Unclosed(cut.after)], f);
      assert [Literal(cut.before)] + [Unclosed(cut.after)] == [Literal(cut.before), Unclosed(cut.after)];
    } else {
      FoldTwo(Literal(cut.before), Tag(cut.inner), Scan(cut.rest, open, close), f);
    }
  }

  /** The same, behind what has been put out already. */
  lemma OutputRound(output: string, content: string, open: string, close: string, f: Token -> string)
    requires open != "" && close != ""
    ensures var cut := CutAt(content, open, close);
            var out := output + Fold(Scan(content, open, close), f);
            if cut.Whole? then out == output + f(Literal(content))
            else if cut.Open? then out == output + f(Literal(cut.before)) + f(Unclosed(cut.after))
            else out == output + f(Literal(cut.before)) + f(Tag(cut.inner)) + Fold(Scan(cut.rest, open, close), f)
  {
    var cut := CutAt(content, open, close);
    ScanRound(content, open, close, f);
    if cut.Open? {
      Regroup(output, f(Literal(cut.before)), f(Unclosed(cut.after)));
    } else if cut.Closed? {
      var rest := Fold(Scan(cut.rest, open, close), f);
      Regroup(output, f(Literal(cut.before)), f(Tag(cut.inner)) + rest);
      Regroup(output + f(Literal(cut.before)), f(Tag(cut.inner)), rest);
    }
  }

  function Raw(token: Token, open: string, close: string): string {
    match token
    case Literal(text) => text
    case Tag(inner) => open + inner + close
    case Unclosed(text) => open + text
  }

  function RawOf(open: string, close: string): Token -> string {
    token => Raw(token, open, close)
  }

  lemma CutIsLossless(content: string, open: string, close: string)
    requires open != "" && close != ""
    ensures var cut := CutAt(content, open, close);
            (cut.Open? ==> content == cut.before + (open + cut.after)) &&
            (cut.Closed? ==> content == cut.before + (open + cut.inner + close + cut.rest))
  {
    var cut := CutAt(content, open, close);
    if !cut.Whole? {
      var after := SplitOnce(content, open).value.1;
      Regroup(cut.before, open, after);
      if cut.Closed? {
        Regroup(open, cut.inner, close + cut.rest);
        Regroup(open + cut.inner, close, cut.rest);
        Regroup(cut.inner, close, cut.rest);
      }
    }
  }

  /** Cutting a text into tokens loses nothing. */
  lemma {:induction false} ScanIsLossless(content: string, open: string, close: string)
    requires open != "" && close != ""
    ensures Fold(Scan(content, open, close), RawOf(open, close)) == content
    decreases |content|
  {
    var cut := CutAt(content, open, close);
    ScanRound(content, open, close, RawOf(open, close));
    CutIsLossless(content, open, close);
    if cut.Closed? { ScanIsLossless(cut.rest, open, close); }
  }

  predicate WellCut(token: Token, open: string, close: string) {
    match token
    case Literal(text) => !Contains(text, open)
    case Tag(inner) => !Contains(inner, close)
    case Unclosed(text) => !Contains(text, close)
  }

  /** The literals hold no opening mark and the tags no closing mark: the cuts are at the first marks. */
  lemma {:induction false} ScanCutsAtFirstMarks(content: string, open: string, close: string)
    requires open != "" && close != ""
    ensures forall t :: t in Scan(content, open, close) ==> WellCut(t, open, close)
    decreases |content|
  {
    var cut := CutAt(content, open, close);
    if cut.Closed? { ScanCutsAtFirstMarks(cut.rest, open, close); }
  }

  // ---------------------------------------------------------------- variables

  function Variable(vars: map<string, string>, token: Token): string {
    match token
    case Literal(text) => text
    case Unclosed(text) => "{{" + text
    case Tag(inner) => if Trim(inner) in vars then vars[Trim(inner)] else ""
  }

  function VariableOf(vars: map<string, string>): Token -> string {
    token => Variable(vars, token)
  }

  /** Rendered text: each variable gives its value, which is not scanned again. */
  function Rendered(content: string, vars: map<string, string>): string {
    Fold(Scan(content, "{{", "}}"), VariableOf(vars))
  }

  /** `render_variables`. */
  method RenderVariables(content: string, vars: map<string, string>) returns (output: string)
    ensures output == Rendered(content, vars)
  {
    output := "";
    var rest := content;
    while Contains(rest, "{{")
      invariant Rendered(content, vars) == output + Rendered(rest, vars)
      decreases |rest|
    {
      OutputRound(output, rest, "{{", "}}", VariableOf(vars));
      var cut := CutAt(rest, "{{", "}}");
      if cut.Open? {
        return output + cut.before + ("{{" + cut.after);
      }
      output := output + cut.before + (if Trim(cut.inner) in vars then vars[Trim(cut.inner)] else "");
      rest := cut.rest;
    }
    OutputRound(output, rest, "{{", "}}", VariableOf(vars));
    output := output + rest;
  }

  // ---------------------------------------------------------------- includes

  /** `parse_include_name`. */
  function IncludeName(tag: string): Option<string> {
    if !("include" <= tag) then None
    else
      var rest := Trim(tag[|"include"|..]);
      if rest == "" || (rest[0] != '"' && rest[0] != '\'') then None
      else
        match SplitOnce(rest[1..], [rest[0]])
        case None => None
        case Some((name, _)) => Some(name)
  }

  function IncludeIn(token: Token): Option<string> {
    match token
    case Tag(inner) => IncludeName(Trim(inner))
    case _ => None
  }

  function NamesOf(token: Token): seq<string> {
    match IncludeIn(token)
    case Some(name) => [name]
    case None => []
  }

  function NamesIn(tokens: seq<Token>): seq<string> {
    if tokens == [] then [] else NamesOf(tokens[0]) + NamesIn(tokens[1..])
  }

  function IncludeNames(content: string): seq<string> {
    NamesIn(Scan(content, "{%", "%}"))
  }

  lemma {:induction false} NamesAreIncludes(tokens: seq<Token>)
    ensures forall name :: name in NamesIn(tokens) <==> exists t :: t in tokens && IncludeIn(t) == Some(name)
  {
    if tokens != [] {
      NamesAreIncludes(tokens[1..]);
      assert tokens == [tokens[0]] + tokens[1..];
    }
  }

  lemma NamesCons(a: Token, rest: seq<Token>)
    ensures NamesIn([a] + rest) == NamesOf(a) + NamesIn(rest)
  {
    assert ([a] + rest)[1..] == rest;
  }

  lemma NamesOfCut(content: string, open: string, close: string)
    requires open != "" && close != ""
    ensures var cut := CutAt(content, open, close);
            NamesIn(Scan(content, open, close))
            == if cut.Closed? then NamesOf(Tag(cut.inner)) + NamesIn(Scan(cut.rest, open, close)) else []
  {
    var cut := CutAt(content, open, close);
    if cut.Whole? {
      NamesOne(Literal(content));
    } else if cut.Open? {
      NamesTwo(Literal(cut.before), Unclosed(cut.after), []);
      assert [Literal(cut.before), Unclosed(cut.after)] + [] == [Literal(cut.before), Unclosed(cut.after)];
    } else {
      NamesTwo(Literal(cut.before), Tag(cut.inner), Scan(cut.rest, open, close));
    }
  }

  lemma NamesOne(a: Token)
    ensures NamesIn([a]) == NamesOf(a)
  {
    NamesCons(a, []);
    assert [a] + [] == [a] && NamesOf(a) + [] == NamesOf(a);
  }

  lemma NamesTwo(a: Token, b: Token, rest: seq<Token>)
    requires NamesOf(a) == []
    ensures NamesIn([a, b] + rest) == NamesOf(b) + NamesIn(rest)
  {
    NamesCons(b, rest);
    NamesCons(a, [b] + rest);
    assert [a] + ([b] + rest) == [a, b] + rest;
  }

  lemma ListRound(names: seq<string>, content: string)
    ensures var cut := CutAt(content, "{%", "%}");
            names + IncludeNames(content)
            == if cut.Closed? then names + NamesOf(Tag(cut.inner)) + IncludeNames(cut.rest) else names
  {
    NamesOfCut(content, "{%", "%}");
    assert names + [] == names;
    var cut := CutAt(content, "{%", "%}");
    if cut.Closed? { Regroup(names, NamesOf(Tag(cut.inner)), IncludeNames(cut.rest)); }
  }

  /** `find_include_names`. */
  method FindIncludeNames(content: string) returns (names: seq<string>)
    ensures names == IncludeNames(content)
  {
    names := [];
    var rest := content;
    while Contains(rest, "{%")
      invariant IncludeNames(content) == names + IncludeNames(rest)
      decreases |rest|
    {
      ListRound(names, rest);
      var cut := CutAt(rest, "{%", "%}");
      if cut.Open? { return; }
      var name := IncludeName(Trim(cut.inner));
      names := names + (if name.Some? then [name.value] else []);
      rest := cut.rest;
    }
    ListRound(names, rest);
  }

  type Files = map<string, string>

  /** An include of a known name gives the text under that name, of an unknown one nothing; other tags stay. */
  function Included(token: Token, texts: Files): string {
    match IncludeIn(token)
    case None => Raw(token, "{%", "%}")
    case Some(name) => if name in texts then texts[name] else ""
  }

  function IncludedOf(texts: Files): Token -> string {
    token => Included(token, texts)
  }

  /** `expand_includes`, by the number of levels that are left; at none the text is returned as it is. */
  function Expand(content: string, files: Files, left: nat): string
    decreases left, 1
  {
    if left == 0 then content else Fold(Scan(content, "{%", "%}"), IncludedOf(ExpandAll(files, left - 1)))
  }

  function ExpandAll(files: Files, left: nat): (texts: Files)
    decreases left, 2
  {
    map name | name in files :: Expand(files[name], files, left)
  }

  function Left(depth: nat): nat {
    if depth >= 8 then 0 else 8 - depth
  }

  method ExpandIncludes(content: string, files: Files, depth: nat) returns (output: string)
    ensures output == Expand(content, files, if depth >= 8 then 0 else 8 - depth)
    decreases Left(depth), 2
  {
    if depth >= 8 { return content; }
    ghost var texts := ExpandAll(files, Left(depth) - 1);
    assert AreExpanded(texts, files, Left(depth + 1));
    output := ExpandLevel(content, files, depth, texts);
  }

  /** Every known name has its text expanded. */
  ghost predicate AreExpanded(texts: Files, files: Files, left: nat) {
    texts.Keys == files.Keys && forall name :: name in files ==> texts[name] == Expand(files[name], files, left)
  }

  /** One round of one level. */
  lemma LevelRound(output: string, content: string, texts: Files)
    ensures var cut := CutAt(content, "{%", "%}");
            var out := output + Fold(Scan(content, "{%", "%}"), IncludedOf(texts));
            if cut.Whole? then out == output + content
            else if cut.Open? then out == output + cut.before + ("{%" + cut.after)
            else out == output + cut.before + Included(Tag(cut.inner), texts)
                        + Fold(Scan(cut.rest, "{%", "%}"), IncludedOf(texts))
  {
    OutputRound(output, content, "{%", "%}", IncludedOf(texts));
  }

  /** One level, given what the known names expand to one level down. */
  method ExpandLevel(content: string, files: Files, depth: nat, ghost texts: Files) returns (output: string)
    requires depth < 8 && AreExpanded(texts, files, Left(depth + 1))
    ensures output == Fold(Scan(content, "{%", "%}"), IncludedOf(texts))
    decreases Left(depth), 1
  {
    output := "";
    var rest := content;
    while Contains(rest, "{%")
      invariant Fold(Scan(content, "{%", "%}"), IncludedOf(texts)) ==
                output + Fold(Scan(rest, "{%", "%}"), IncludedOf(texts))
      decreases |rest|
    {
      LevelRound(output, rest, texts);
      var cut := CutAt(rest, "{%", "%}");
      if cut.Open? {
        return output + cut.before + ("{%" + cut.after);
      }
      var text := ExpandTag(cut.inner, files, depth, texts);
      output := output + cut.before + text;
      rest := cut.rest;
    }
    LevelRound(output, rest, texts);
    output := output + rest;
  }

  /** What a tag is replaced by, from the name it includes. */
  function IncludedName(name: Option<string>, tag: string, texts: Files): string {
    if name.None? then "{%" + tag + "%}" else if name.value in texts then texts[name.value] else ""
  }

  lemma IncludedByName(tag: string, texts: Files)
    ensures Included(Tag(tag), texts) == IncludedName(IncludeName(Trim(tag)), tag, texts)
  {
  }

  method ExpandTag(tag: string, files: Files, depth: nat, ghost texts: Files) returns (text: string)
    requires depth < 8 && AreExpanded(texts, files, Left(depth + 1))
    ensures text == Included(Tag(tag), texts)
    decreases Left(depth), 0
  {
    IncludedByName(tag, texts);
    var name := IncludeName(Trim(tag));
    if name.None? {
      text := "{%" + tag + "%}";
    } else if name.value in files {
      text := ExpandIncludes(files[name.value], files, depth + 1);
    } else {
      text := "";
    }
  }

  // ---------------------------------------------------------------- the bound makes no difference up to eight levels

  /** The includes of the text are nested at most `rank` deep; at rank 0 there are none. */
  predicate Ranked(content: string, files: Files, rank: nat)
    decreases rank
  {
    if rank == 0 then IncludeNames(content) == []
    else forall name :: name in IncludeNames(content) && name in files ==> Ranked(files[name], files, rank - 1)
  }

  /** Expansion of a text of that rank, with no bound: every include of a known name gives its expanded text. */
  function Full(content: string, files: Files, rank: nat): string
    decreases rank, 1
  {
    Fold(Scan(content, "{%", "%}"), IncludedOf(if rank == 0 then map[] else FullAll(files, rank - 1)))
  }

  function FullAll(files: Files, rank: nat): Files
    decreases rank, 2
  {
    map name | name in files :: Full(files[name], files, rank)
  }

  lemma IncludeIsListed(content: string, token: Token)
    requires token in Scan(content, "{%", "%}")
    ensures IncludeIn(token).Some? ==> IncludeIn(token).value in IncludeNames(content)
  {
    NamesAreIncludes(Scan(content, "{%", "%}"));
  }

  lemma SameIncludes(content: string, texts: Files, others: Files)
    requires forall name :: name in IncludeNames(content) ==>
               (name in texts <==> name in others) && (name in texts ==> texts[name] == others[name])
    ensures Fold(Scan(content, "{%", "%}"), IncludedOf(texts)) == Fold(Scan(content, "{%", "%}"), IncludedOf(others))
  {
    var tokens := Scan(content, "{%", "%}");
    forall t | t in tokens ensures IncludedOf(texts)(t) == IncludedOf(others)(t) { IncludeIsListed(content, t); }
    FoldSame(tokens, IncludedOf(texts), IncludedOf(others));
  }

  lemma NoIncludes(content: string, texts: Files)
    requires IncludeNames(content) == []
    ensures Fold(Scan(content, "{%", "%}"), IncludedOf(texts)) == content
  {
    var tokens := Scan(content, "{%", "%}");
    ScanIsLossless(content, "{%", "%}");
    forall t | t in tokens ensures IncludedOf(texts)(t) == RawOf("{%", "%}")(t) { IncludeIsListed(content, t); }
    FoldSame(tokens, IncludedOf(texts), RawOf("{%", "%}"));
  }

  /** With at least as many levels as the includes are deep, the bounded expansion is the unbounded one. */
  lemma {:induction false} BoundIsInvisible(content: string, files: Files, rank: nat, left: nat)
    requires Ranked(content, files, rank) && rank <= left
    ensures Expand(content, files, left) == Full(content, files, rank)
    decreases rank
  {
    if rank == 0 {
      NoIncludes(content, map[]);
      if left > 0 { NoIncludes(content, ExpandAll(files, left - 1)); }
    } else {
      var texts, others := ExpandAll(files, left - 1), FullAll(files, rank - 1);
      forall name | name in IncludeNames(content) && name in files ensures texts[name] == others[name] {
        BoundIsInvisible(files[name], files, rank - 1, left - 1);
      }
      SameIncludes(content, texts, others);
    }
  }

  /** `expand_includes` as it is called: exact for every text whose includes are at most eight deep. */
  lemma ExpandIsExact(content: string, files: Files, rank: nat)
    requires Ranked(content, files, rank) && rank <= 8
    ensures forall more: nat :: rank <= more ==>
              Expand(content, files, 8) == Expand(content, files, more) == Full(content, files, rank)
  {
    BoundIsInvisible(content, files, rank, 8);
    forall more: nat | rank <= more
      ensures Expand(content, files, 8) == Expand(content, files, more) == Full(content, files, rank)
    {
      BoundIsInvisible(content, files, rank, more);
    }
  }

  /** A text that is one include tag of its own name. */
  predicate IncludesItself(name: string, content: string, tag: string, files: Files) {
    name in files && files[name] == content && IncludeIn(Tag(tag)) == Some(name) &&
    Scan(content, "{%", "%}") == [Literal(""), Tag(tag), Literal("")]
  }

  lemma ItsNameIsListed(name: string, content: string, tag: string, files: Files)
    requires IncludesItself(name, content, tag, files)
    ensures name in IncludeNames(content) && IncludeNames(content) != []
  {
    assert Scan(content, "{%", "%}")[1] == Tag(tag);
    IncludeIsListed(content, Tag(tag));
  }

  /** A text that includes its own name has no rank. */
  lemma {:induction false} SelfIncludeHasNoRank(name: string, files: Files, rank: nat)
    requires name in files && name in IncludeNames(files[name])
    ensures !Ranked(files[name], files, rank)
  {
    if rank > 0 { SelfIncludeHasNoRank(name, files, rank - 1); }
  }

  /** At any rank, the text is not of that rank. */
  lemma SelfIncludeIsUnranked(name: string, content: string, tag: string, files: Files, rank: nat)
    requires IncludesItself(name, content, tag, files)
    ensures !Ranked(content, files, rank)
  {
    ItsNameIsListed(name, content, tag, files);
    SelfIncludeHasNoRank(name, files, rank);
  }

  lemma ExpandedEntry(name: string, files: Files, left: nat)
    requires name in files
    ensures name in ExpandAll(files, left) && ExpandAll(files, left)[name] == Expand(files[name], files, left)
  {
  }

  lemma ExpandLevelOf(content: string, files: Files, left: nat, texts: Files, tokens: seq<Token>)
    requires left > 0 && texts == ExpandAll(files, left - 1) && tokens == Scan(content, "{%", "%}")
    ensures Expand(content, files, left) == Fold(tokens, IncludedOf(texts))
  {
  }

  lemma SelfIncludeStep(name: string, content: string, tag: string, files: Files, left: nat)
    requires IncludesItself(name, content, tag, files) && left > 0 && Expand(content, files, left - 1) == content
    ensures Expand(content, files, left) == content
  {
    var texts := ExpandAll(files, left - 1);
    ExpandedEntry(name, files, left - 1);
    SelfIncluded(name, content, tag, texts);
    ExpandLevelOf(content, files, left, texts, [Literal(""), Tag(tag), Literal("")]);
  }

  /** It has no rank, and still its expansion ends: it comes out as it is at any bound. */
  lemma {:induction false} SelfInclude(name: string, content: string, tag: string, files: Files, left: nat)
    requires IncludesItself(name, content, tag, files)
    ensures Expand(content, files, left) == content
  {
    if left > 0 {
      SelfInclude(name, content, tag, files, left - 1);
      SelfIncludeStep(name, content, tag, files, left);
    }
  }

  lemma SelfIncluded(name: string, content: string, tag: string, texts: Files)
    requires name in texts && texts[name] == content && IncludeIn(Tag(tag)) == Some(name)
    ensures Fold([Literal(""), Tag(tag), Literal("")], IncludedOf(texts)) == content
  {
    ThreeFold(Literal(""), Tag(tag), Literal(""), IncludedOf(texts));
  }

  lemma ThreeFold(a: Token, b: Token, c: Token, f: Token -> string)
    requires f(a) == "" && f(c) == ""
    ensures Fold([a, b, c], f) == f(b)
  {
    FoldOne(c, f);
    FoldTwo(a, b, [c], f);
    assert [a, b] + [c] == [a, b, c];
    assert "" + (f(b) + "") == f(b);
  }

  /** The lookups of the first level are exactly the listed names: other entries change nothing of it. */
  lemma LookupsAreListed(content: string, files: Files, others: Files, left: nat)
    requires left > 0
    requires forall name :: name in IncludeNames(content) ==>
               (name in files <==> name in others) &&
               (name in files ==> Expand(files[name], files, left - 1) == Expand(others[name], others, left - 1))
    ensures Expand(content, files, left) == Expand(content, others, left)
  {
    SameIncludes(content, ExpandAll(files, left - 1), ExpandAll(others, left - 1));
  }
}
