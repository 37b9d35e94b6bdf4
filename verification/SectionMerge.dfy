/**
 The section editors on whole texts, the loops that carry them out, and the merge of a generated
 configuration into a rule base.
 */
module SectionMerge {
  import opened Wrappers
  import opened Text
  import opened Sections

  // ---------------------------------------------------------------- the editors on texts

  function BodyText(config: string, section: string): Option<string> {
    match BodyOf(Lines(config), section)
    case None => None
    case Some(b) => Some(Join(b, "\n"))
  }

  function ReplaceText(config: string, section: string, body: string): string {
    var ls := Lines(TrimChar(body, '\n'));
    Join(ReplaceLines(Lines(config), section, if Blank(body) then [] else ls, ls), "\n")
  }

  function AppendText(config: string, section: string, body: string): string {
    var t := TrimChar(body, '\n');
    if t == "" then config else Join(AppendLines(Lines(config), section, Lines(t)), "\n")
  }

  // ---------------------------------------------------------------- trimming line feeds is dropping empty lines

  predicate OneLine(ls: seq<string>) {
    forall l :: l in ls ==> '\n' !in l
  }

  lemma {:induction false} TrimStartOfJoin(ls: seq<string>)
    requires OneLine(ls)
    ensures TrimStartChar(Join(ls, "\n"), '\n') == Join(DropFront(ls), "\n")
  {
    if |ls| >= 2 && ls[0] == "" {
      TrimStartOfJoin(ls[1..]);
      assert Join(ls, "\n")[1..] == Join(ls[1..], "\n");
    } else if ls != [] {
      assert ls[0] in ls;
      assert ls[0] != "" ==> Join(ls, "\n")[0] == ls[0][0];
    }
  }

  lemma {:induction false} JoinSnoc(ls: seq<string>, last: string)
    requires ls != []
    ensures Join(ls + [last], "\n") == Join(ls, "\n") + "\n" + last
  {
    assert (ls + [last])[1..] == ls[1..] + [last];
    if |ls| > 1 { JoinSnoc(ls[1..], last); }
  }

  lemma TrimEndOfLast(head: string, last: string)
    requires '\n' !in last
    ensures last != "" ==> TrimEndChar(head + last, '\n') == head + last
    ensures TrimEndChar(head + "\n", '\n') == TrimEndChar(head, '\n')
  {
    if last != "" { assert last[|last| - 1] in last && (head + last)[|head + last| - 1] == last[|last| - 1]; }
    assert (head + "\n")[..|head|] == head;
  }

  lemma {:induction false} TrimEndOfJoin(ls: seq<string>)
    requires OneLine(ls)
    ensures TrimEndChar(Join(ls, "\n"), '\n') == Join(DropBack(ls), "\n")
  {
    if ls != [] {
      var front, last := ls[..|ls| - 1], ls[|ls| - 1];
      assert last in ls && ls == front + [last];
      if front == [] {
        TrimEndOfLast("", last);
        assert "" + last == last;
      } else {
        JoinSnoc(front, last);
        TrimEndOfLast(Join(front, "\n") + "\n", last);
        if last == "" {
          TrimEndOfJoin(front);
          TrimEndOfLast(Join(front, "\n"), "");
          assert Join(ls, "\n") == Join(front, "\n") + "\n";
        }
      }
    }
  }

  lemma TrimOfJoin(ls: seq<string>)
    requires OneLine(ls)
    ensures TrimChar(Join(ls, "\n"), '\n') == Join(Core(ls), "\n")
    ensures Join(Core(ls), "\n") == "" <==> Core(ls) == []
  {
    TrimStartOfJoin(ls);
    var k := DropFrontSuffix(ls);
    assert forall l :: l in DropFront(ls) ==> l in ls;
    TrimEndOfJoin(DropFront(ls));
    CoreShape(ls);
  }

  // ---------------------------------------------------------------- lines that survive being written and cut again

  /** No line keeps a carriage return at its end. */
  predicate NoCr(ls: seq<string>) {
    forall l :: l in ls ==> !EndsInCr(l)
  }

  predicate Solid(ls: seq<string>) {
    OneLine(ls) && NoCr(ls) && (ls != [] ==> ls[|ls| - 1] != "")
  }

  lemma SolidCut(ls: seq<string>)
    requires Solid(ls)
    ensures Lines(Join(ls, "\n")) == ls
  {
    LinesOfJoin(ls);
  }

  /** The first line and the rest. */
  lemma FirstCut(s: string) returns (head: string, rest: string)
    requires '\n' in s
    ensures s == head + "\n" + rest && Lines(s) == [StripCr(head)] + Lines(rest) && |rest| < |s|
    ensures '\n' !in head
  {
    FindChar(s, '\n');
    var i := Find(s, "\n").value;
    head, rest := s[..i], s[i + 1..];
    assert s == head + "\n" + rest;
    LinesOfCons(head, rest);
  }

  lemma {:induction false} LastLineOfTrimmed(s: string)
    requires s != "" ==> s[|s| - 1] != '\n'
    ensures s != "" ==> Lines(s) != []
    ensures Lines(s) != [] ==> Lines(s)[|Lines(s)| - 1] != ""
    decreases |s|
  {
    if '\n' in s {
      var head, rest := FirstCut(s);
      assert rest != "" by { assert s[|head|] == '\n'; }
      assert rest[|rest| - 1] == s[|s| - 1];
      LastLineOfTrimmed(rest);
    } else {
      LinesOfLast(s);
    }
  }

  lemma {:induction false} ReplaceScanLines(ls: seq<string>, section: string, body: seq<string>, skipping: bool)
    requires Solid(ls) && Solid(body)
    ensures Solid(ReplaceScan(ls, section, body, skipping))
  {
    if ls != [] {
      assert ls == [ls[0]] + ls[1..];
      ReplaceScanLines(ls[1..], section, body, if IsHeader(ls[0]) then Names(ls[0], section) else skipping);
      if |ls| == 1 { assert ls[0] != ""; }
    }
  }

  lemma EmptyIsNoHeader()
    ensures !IsHeader("") && Blank("")
  {
  }

  lemma SectionLine(section: string)
    requires SectionName(section)
    ensures Solid([section]) && !Blank(section)
  {
    TrimOfTrimmed(section);
  }

  lemma ReplaceSolid(ls: seq<string>, section: string, found: seq<string>, atEnd: seq<string>)
    requires SectionName(section) && Solid(ls) && Solid(found) && Solid(atEnd)
    ensures Solid(ReplaceLines(ls, section, found, atEnd))
  {
    SectionLine(section);
    TrimOfTrimmed(section);
    if HasSection(ls, section) { ReplaceScanLines(ls, section, found, false); }
  }

  lemma SolidConcat(a: seq<string>, b: seq<string>)
    requires OneLine(a) && NoCr(a) && Solid(b) && (b == [] ==> Solid(a))
    ensures Solid(a + b)
  {
    if b != [] { assert (a + b)[|a + b| - 1] == b[|b| - 1]; } else { assert a + b == a; }
  }

  lemma NewSectionIsSolid(section: string, body: seq<string>, last: Option<string>)
    requires SectionName(section) && Solid(body) && body != []
    ensures Solid(NewSection(section, body, last))
  {
    SectionLine(section);
    var push := PushBody(body, section);
    assert Solid(push);
    SolidConcat((if last.None? || Blank(last.value) then [] else [""]) + [section], push);
  }

  lemma {:induction false} AppendScanLines(ls: seq<string>, section: string, body: seq<string>,
                                           inTarget: bool, inserted: bool, last: Option<string>)
    requires SectionName(section) && Solid(ls) && Solid(body) && body != []
    requires inTarget ==> last.Some?
    ensures Solid(AppendScan(ls, section, body, inTarget, inserted, last))
  {
    if ls == [] {
      NewSectionIsSolid(section, body, last);
    } else {
      assert ls == [ls[0]] + ls[1..] && ls[0] in ls;
      if inTarget && IsHeader(ls[0]) {
        var rest := AppendScan(ls[1..], section, body, Names(ls[0], section), true, Some(ls[0]));
        AppendScanLines(ls[1..], section, body, Names(ls[0], section), true, Some(ls[0]));
        SolidConcat([ls[0]], rest);
        SolidConcat(PushBody(body, last.value), [ls[0]] + rest);
      } else {
        var inNext := inTarget || Names(ls[0], section);
        AppendScanLines(ls[1..], section, body, inNext, inserted, Some(ls[0]));
        SolidConcat([ls[0]], AppendScan(ls[1..], section, body, inNext, inserted, Some(ls[0])));
      }
    }
  }

  // ---------------------------------------------------------------- the loops

  lemma FirstOfRest(ls: seq<string>, i: nat)
    requires i < |ls|
    ensures ls[i..] != [] && ls[i..][0] == ls[i] && ls[i..][1..] == ls[i + 1..]
  {
  }

  /** The loop of `section_body`: the lines it has collected when it stops. */
  method CollectBody(lines: seq<string>, section: string) returns (body: seq<string>, found: bool)
    ensures BodyLines(lines, section) == if found then Some(body) else None
    ensures !found ==> body == []
  {
    body, found := [], false;
    var i := 0;
    assert lines[0..] == lines;
    while i < |lines|
      invariant 0 <= i <= |lines|
      invariant !found ==> body == [] && BodyLines(lines, section) == BodyLines(lines[i..], section)
      invariant found ==> BodyLines(lines, section) == Some(body + UntilHeader(lines[i..]))
    {
      var line := lines[i];
      FirstOfRest(lines, i);
      if found && IsHeader(line) { break; }
      if found {
        Regroup(body, [line], UntilHeader(lines[i + 1..]));
        body := body + [line];
      } else if Names(line, section) {
        found := true;
        assert [] + UntilHeader(lines[i + 1..]) == UntilHeader(lines[i + 1..]);
      }
      i := i + 1;
    }
    if found { assert UntilHeader(lines[i..]) == [] && body + [] == body; }
  }

  method SectionBodyLoop(config: string, section: string) returns (r: Option<string>)
    ensures r == BodyText(config, section)
  {
    var body, found := CollectBody(Lines(config), section);
    BodyTextOf(config, section, body, found);
    var text := TrimChar(Join(body, "\n"), '\n');
    r := if text == "" then None else Some(text);
  }

  /** The end of `section_body`: the lines found, joined and trimmed. */
  lemma BodyTextOf(config: string, section: string, body: seq<string>, found: bool)
    requires BodyLines(Lines(config), section) == if found then Some(body) else None
    requires !found ==> body == []
    ensures var text := TrimChar(Join(body, "\n"), '\n');
            BodyText(config, section) == if text == "" then None else Some(text)
  {
    if found { BodyLinesOneLine(Lines(config), section); }
    TrimOfJoin(body);
  }

  lemma BodyLinesOneLine(ls: seq<string>, section: string)
    requires OneLine(ls) && BodyLines(ls, section).Some?
    ensures OneLine(BodyLines(ls, section).value)
  {
    BodyLinesFree(ls, section);
  }

  function LastOf(ls: seq<string>): Option<string> {
    if ls == [] then None else Some(ls[|ls| - 1])
  }

  lemma ReplaceStep(all: seq<string>, result: seq<string>, rest: seq<string>, target: string, fill: seq<string>,
                    skipping: bool)
    requires rest != [] && all == result + ReplaceScan(rest, target, fill, skipping)
    ensures all ==
            if IsHeader(rest[0]) && Names(rest[0], target) then
              result + [rest[0]] + fill + ReplaceScan(rest[1..], target, fill, true)
            else if IsHeader(rest[0]) || !skipping then
              result + [rest[0]] + ReplaceScan(rest[1..], target, fill, false)
            else result + ReplaceScan(rest[1..], target, fill, true)
  {
    var line, more := rest[0], rest[1..];
    var next := if IsHeader(line) then Names(line, target) else skipping;
    assert rest == [line] + more;
    ReplaceScanStep(line, more, target, fill, skipping);
    Regroup(result, Contribution(line, target, fill, skipping), ReplaceScan(more, target, fill, next));
    Regroup(result, [line], fill);
    assert result + [] == result;
  }

  lemma AppendStep(all: seq<string>, result: seq<string>, rest: seq<string>, section: string, fill: seq<string>,
                   inTarget: bool, inserted: bool)
    requires rest != [] && (inTarget ==> result != [])
    requires all == result + AppendScan(rest, section, fill, inTarget, inserted, LastOf(result))
    ensures all ==
            if inTarget && IsHeader(rest[0]) then
              result + PushBody(fill, result[|result| - 1]) + [rest[0]] +
              AppendScan(rest[1..], section, fill, Names(rest[0], section), true, Some(rest[0]))
            else
              result + [rest[0]] +
              AppendScan(rest[1..], section, fill, inTarget || Names(rest[0], section), inserted, Some(rest[0]))
  {
  }

  lemma TakeOneMore(ls: seq<string>, i: nat)
    requires i < |ls|
    ensures ls[..i + 1] == ls[..i] + [ls[i]]
  {
  }

  lemma NewSectionSteps(before: seq<string>, section: string, fill: seq<string>)
    ensures var result := if before != [] && !Blank(before[|before| - 1]) then before + [""] else before;
            before + NewSection(section, fill, LastOf(before)) == result + [section] + PushBody(fill, section)
  {
    if before != [] && !Blank(before[|before| - 1]) {
      assert before + ([""] + [section] + PushBody(fill, section))
             == before + [""] + [section] + PushBody(fill, section);
    } else {
      assert [] + [section] == [section];
      assert before + ([section] + PushBody(fill, section)) == before + [section] + PushBody(fill, section);
    }
  }

  lemma AtEndSteps(ls: seq<string>, section: string, found: seq<string>, atEnd: seq<string>)
    requires !HasSection(ls, Trim(section))
    ensures var result := if ls != [] && ls[|ls| - 1] != "" then ls + [""] else ls;
            ReplaceLines(ls, section, found, atEnd) == result + [section] + atEnd
  {
  }

  /** The scan of `replace_section`: the lines it has pushed when it reaches the end. */
  method ReplaceFound(lines: seq<string>, target: string, fill: seq<string>) returns (result: seq<string>, found: bool)
    ensures found == HasSection(lines, target)
    ensures result == if found then ReplaceScan(lines, target, fill, false) else lines
  {
    result, found := [], false;
    var skipping := false;
    ghost var all := ReplaceScan(lines, target, fill, false);
    assert lines[0..] == lines && [] + all == all;
    for i := 0 to |lines|
      invariant all == result + ReplaceScan(lines[i..], target, fill, skipping)
      invariant found <==> HasSection(lines[..i], target)
      invariant !found ==> !skipping && result == lines[..i]
    {
      var line := lines[i];
      assert lines[i..][0] == line && lines[i..][1..] == lines[i + 1..];
      TakeOneMore(lines, i);
      ReplaceStep(all, result, lines[i..], target, fill, skipping);
      if IsHeader(line) { skipping := false; }
      if IsHeader(line) && Names(line, target) {
        found, skipping := true, true;
        result := result + [line] + fill;
      } else if !skipping {
        result := result + [line];
      }
    }
    assert lines[|lines|..] == [] && lines[..|lines|] == lines;
    assert all == result + [] == result;
  }

  method ReplaceSection(config: string, section: string, body: string) returns (r: string)
    ensures r == ReplaceText(config, section, body)
  {
    var lines, bodyLines := Lines(config), Lines(TrimChar(body, '\n'));
    var fill := if Blank(body) then [] else bodyLines;
    var result, found := ReplaceFound(lines, Trim(section), fill);
    if !found {
      AtEndSteps(lines, section, fill, bodyLines);
      if result != [] && result[|result| - 1] != "" { result := result + [""]; }
      result := result + [section] + bodyLines;
    }
    r := Join(result, "\n");
  }

  method AppendToSection(config: string, section: string, body: string) returns (r: string)
    ensures r == AppendText(config, section, body)
    ensures TrimChar(body, '\n') == "" ==> r == config
  {
    var text := TrimChar(body, '\n');
    if text == "" { return config; }
    var lines, fill := Lines(config), Lines(text);
    var result: seq<string> := [];
    var inTarget, inserted := false, false;
    ghost var all := AppendLines(lines, section, fill);
    assert lines[0..] == lines && [] + all == all;
    for i := 0 to |lines|
      invariant inTarget ==> result != []
      invariant all == result + AppendScan(lines[i..], section, fill, inTarget, inserted, LastOf(result))
    {
      var line := lines[i];
      assert lines[i..][0] == line && lines[i..][1..] == lines[i + 1..];
      AppendStep(all, result, lines[i..], section, fill, inTarget, inserted);
      if inTarget && IsHeader(line) {
        result := result + PushBody(fill, result[|result| - 1]);
        inserted, inTarget := true, false;
      }
      result := result + [line];
      if Names(line, section) { inTarget := true; }
    }
    assert lines[|lines|..] == [];
    result := AppendEnd(result, section, fill, inTarget, inserted);
    r := Join(result, "\n");
  }

  /** What the end of the text adds: the body of the last section, or a new section. */
  method AppendEnd(lines: seq<string>, section: string, fill: seq<string>, inTarget: bool, inserted: bool)
    returns (result: seq<string>)
    requires inTarget ==> lines != []
    ensures result == lines + AppendScan([], section, fill, inTarget, inserted, LastOf(lines))
  {
    result := lines;
    if inTarget && !inserted {
      result := result + PushBody(fill, result[|result| - 1]);
    } else if !inserted {
      if result != [] && !Blank(result[|result| - 1]) { result := result + [""]; }
      result := result + [section];
      result := result + PushBody(fill, result[|result| - 1]);
      NewSectionSteps(lines, section, fill);
    } else {
      assert lines + [] == lines;
    }
  }
}
