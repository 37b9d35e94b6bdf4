/**
 What the section editors promise about texts, and what the merge of a generated configuration into a
 rule base promises about every section of the result.
 */
module RuleBaseMerge {
  import opened Wrappers
  import opened Text
  import opened Sections
  import opened SectionMerge
  import opened LineEnds

  // ---------------------------------------------------------------- laws of one editor

  /** A text without carriage returns that does not end in a line feed is made of solid lines. */
  lemma PlainTextIsSolid(s: string)
    requires '\r' !in s && (s != "" ==> s[|s| - 1] != '\n')
    ensures Solid(Lines(s))
  {
    LastLineOfTrimmed(s);
    LinesKeepChars(s, '\r');
    forall l | l in Lines(s) ensures !EndsInCr(l) {
      assert l == "" || l[|l| - 1] in l;
    }
  }

  lemma {:induction false} LinesKeepChars(s: string, c: char)
    requires c !in s
    ensures forall l :: l in Lines(s) ==> c !in l
    decreases |s|
  {
    FindChar(s, '\n');
    if s != "" && Find(s, "\n").Some? {
      var i := Find(s, "\n").value;
      LinesKeepChars(s[i + 1..], c);
      assert forall x :: x in StripCr(s[..i]) ==> x in s;
    }
  }

  /** The lines a body puts into a section that is not there yet, and into one that is. */
  function NewLines(body: string): seq<string> {
    Lines(TrimChar(body, '\n'))
  }

  function FillLines(body: string): seq<string> {
    if Blank(body) then [] else NewLines(body)
  }

  predicate ProperBody(body: string) {
    Solid(NewLines(body)) && HeaderFree(NewLines(body))
  }

  lemma SectionTrimmed(section: string)
    requires SectionName(section)
    ensures Trim(section) == section && IsHeader(section) && Names(section, section) && !Blank(section)
  {
    TrimOfTrimmed(section);
  }

  /** Replacing as it is on the lines of the result. */
  lemma ReplaceOnLines(config: string, section: string, body: string)
    requires SectionName(section) && Solid(Lines(config)) && ProperBody(body)
    ensures var after := ReplaceLines(Lines(config), section, FillLines(body), NewLines(body));
            Solid(after) && ReplaceText(config, section, body) == Join(after, "\n")
            && Lines(ReplaceText(config, section, body)) == after
  {
    ReplaceSolid(Lines(config), section, FillLines(body), NewLines(body));
    SolidCut(ReplaceLines(Lines(config), section, FillLines(body), NewLines(body)));
  }

  lemma SameLinesSameText(a: string, b: string, ls: seq<string>, ms: seq<string>)
    requires a == Join(ls, "\n") && b == Join(ms, "\n") && Lines(a) == ls && Lines(b) == ms
    ensures a == b <==> ls == ms
  {
  }

  lemma ReplacedAgain(ls: seq<string>, section: string, fill: seq<string>, atEnd: seq<string>)
    requires SectionName(section) && HeaderFree(fill) && HeaderFree(atEnd) && (fill == atEnd || fill == [])
    ensures var once := ReplaceLines(ls, section, fill, atEnd);
            ReplaceLines(once, section, fill, atEnd) == once <==> HasSection(ls, section) || fill == atEnd
  {
    SectionTrimmed(section);
    var once := ReplaceLines(ls, section, fill, atEnd);
    if HasSection(ls, section) {
      ReplaceTwice(ls, section, fill, false, once);
      HasSectionBody(ls, section);
      ReplaceThenRead(ls, section, fill, false);
      HasSectionBody(once, section);
    } else {
      var front := ls + (if ls != [] && ls[|ls| - 1] != "" then [""] else []);
      EmptyIsNoHeader();
      assert once == front + ([section] + atEnd) && once[|front|] == section;
      NoSectionKept(front, [section] + atEnd, section, fill);
      ReplaceAtName(section, atEnd, section, fill, false);
      ReplaceOverBody(atEnd, [], section, fill, true);
      assert atEnd + [] == atEnd && fill + [] == fill;
      assert ReplaceLines(once, section, fill, atEnd) == front + ([section] + fill);
      assert |fill| != |atEnd| || fill == atEnd;
    }
  }

  /**
   Replacing a section a second time changes nothing, whether it was there or was put at the end, except
   for a new section with a blank body: the second time cuts the blank lines the first time wrote.
   */
  lemma ReplaceIdempotent(config: string, section: string, body: string)
    requires SectionName(section) && Solid(Lines(config)) && ProperBody(body)
    ensures var once := ReplaceText(config, section, body);
            ReplaceText(once, section, body) == once <==>
            HasSection(Lines(config), section) || !Blank(body) || NewLines(body) == []
  {
    var once := ReplaceText(config, section, body);
    ReplaceOnLines(config, section, body);
    ReplaceOnLines(once, section, body);
    SameLinesSameText(ReplaceText(once, section, body), once,
                      ReplaceLines(Lines(once), section, FillLines(body), NewLines(body)), Lines(once));
    ReplacedAgain(Lines(config), section, FillLines(body), NewLines(body));
  }

  /** Such a body: it is written to a new section and cut from one that is there. */
  lemma BlankBodyIsDropped()
    ensures ReplaceText("", "[A]", " ") == "[A]\n "
    ensures ReplaceText("[A]\n ", "[A]", " ") == "[A]"
  {
    var ls := ["[A]", " "];
    BracketedIsSection("[A]");
    SectionTrimmed("[A]");
    LinesOfLast(" ");
    assert Lines("") == [] && Lines(TrimChar(" ", '\n')) == [" "];
    assert Join(ls, "\n") == "[A]\n " by { assert ls[1..] == [" "]; }
    SolidCut(ls);
    assert HasSection(ls, "[A]") by { assert ls[0] == "[A]"; }
    assert ls == ["[A]"] + [" "];
    ReplaceAtName("[A]", [" "], "[A]", [], false);
    ReplaceOverBody([" "], [], "[A]", [], true);
  }

  lemma {:induction false} NoSectionKept(front: seq<string>, rest: seq<string>, section: string, body: seq<string>)
    requires !HasSection(front, section)
    ensures ReplaceScan(front + rest, section, body, false) == front + ReplaceScan(rest, section, body, false)
  {
    if front == [] {
      assert front + rest == rest;
    } else {
      assert (front + rest)[1..] == front[1..] + rest && front[0] in front;
      NoSectionKept(front[1..], rest, section, body);
    }
  }

  /** Replacing a section takes no other section away and brings none. */
  lemma ReplaceKeepsOther(ls: seq<string>, s: string, fill: seq<string>, atEnd: seq<string>, t: string)
    requires SectionName(s) && SectionName(t) && Different(s, t) && HeaderFree(fill) && HeaderFree(atEnd)
    ensures HasSection(ReplaceLines(ls, s, fill, atEnd), t) == HasSection(ls, t)
  {
    SectionTrimmed(s);
    if HasSection(ls, s) {
      HasSectionBody(ls, t);
      ReplaceFrame(ls, s, fill, false, t);
      HasSectionBody(ReplaceScan(ls, s, fill, false), t);
    } else {
      EmptyIsNoHeader();
      var gap := if ls != [] && ls[|ls| - 1] != "" then [""] else [];
      assert ReplaceLines(ls, s, fill, atEnd) == ls + gap + [s] + atEnd;
      forall l | l in ls ensures l in ls + gap + [s] + atEnd {}
    }
  }

  /** What replacing a section that is there does to another one behind an empty line at the end. */
  lemma ScanWithTail(ls: seq<string>, s: string, b: seq<string>, t: string, c: seq<string>)
    requires SectionName(t) && Different(s, t) && HeaderFree(c)
    ensures ReplaceScan(ls + ([""] + ([t] + c)), s, b, false)
            == ReplaceScan(ls, s, b, false) + ((if EndsIn(ls, s) then [] else [""]) + ([t] + c))
  {
    SectionTrimmed(t);
    EmptyIsNoHeader();
    ReplaceScanConcat(ls, [""] + ([t] + c), s, b, false);
    ReplaceOverBody([""], [t] + c, s, b, EndsIn(ls, s));
    ReplaceAtOther(t, c, s, b, EndsIn(ls, s));
    ReplaceOverBody(c, [], s, b, false);
    assert c + [] == c && [] + ([t] + c) == [t] + c;
  }

  lemma PutAtEnd(ls: seq<string>, t: string, c: seq<string>, cEnd: seq<string>)
    requires SectionName(t) && !HasSection(ls, t) && ls != [] && ls[|ls| - 1] != ""
    ensures ReplaceLines(ls, t, c, cEnd) == ls + ([""] + ([t] + cEnd))
  {
    SectionTrimmed(t);
  }

  /** A missing section put at the end before or behind the replacement of one that is there. */
  lemma OneMissing(ls: seq<string>, s: string, b: seq<string>, bEnd: seq<string>, t: string, c: seq<string>,
                   cEnd: seq<string>)
    requires SectionName(s) && SectionName(t) && Different(s, t) && HasSection(ls, s) && !HasSection(ls, t)
    requires Solid(ls) && Solid(b) && HeaderFree(b) && HeaderFree(bEnd) && HeaderFree(c) && HeaderFree(cEnd)
    ensures var once := ReplaceScan(ls, s, b, false);
            ReplaceLines(ReplaceLines(ls, s, b, bEnd), t, c, cEnd) == once + ([""] + ([t] + cEnd)) &&
            ReplaceLines(ReplaceLines(ls, t, c, cEnd), s, b, bEnd) ==
            once + ((if EndsIn(ls, s) then [] else [""]) + ([t] + cEnd))
  {
    SectionTrimmed(s);
    ReplaceKeepsOther(ls, s, b, bEnd, t);
    ReplaceKeepsOther(ls, t, c, cEnd, s);
    ReplaceScanLines(ls, s, b, false);
    HasSectionBody(ls, s);
    ReplaceThenRead(ls, s, b, false);
    PutAtEnd(ls, t, c, cEnd);
    PutAtEnd(ReplaceScan(ls, s, b, false), t, c, cEnd);
    ScanWithTail(ls, s, b, t, cEnd);
  }

  lemma BothMissing(ls: seq<string>, s: string, b: seq<string>, bEnd: seq<string>, t: string, c: seq<string>,
                   cEnd: seq<string>)
    requires SectionName(s) && SectionName(t) && Different(s, t) && !HasSection(ls, s) && !HasSection(ls, t)
    requires Solid(bEnd) && HeaderFree(b) && HeaderFree(bEnd) && HeaderFree(c) && HeaderFree(cEnd)
    ensures ReplaceLines(ReplaceLines(ls, s, b, bEnd), t, c, cEnd)
            != ReplaceLines(ReplaceLines(ls, t, c, cEnd), s, b, bEnd)
  {
    SectionTrimmed(s);
    SectionTrimmed(t);
    ReplaceKeepsOther(ls, s, b, bEnd, t);
    ReplaceKeepsOther(ls, t, c, cEnd, s);
    var front := ls + (if ls != [] && ls[|ls| - 1] != "" then [""] else []);
    assert ReplaceLines(ReplaceLines(ls, s, b, bEnd), t, c, cEnd)[|front|] == s;
    assert ReplaceLines(ReplaceLines(ls, t, c, cEnd), s, b, bEnd)[|front|] == t;
  }

  /** At least one section is there, and if the other is not, the text does not end in the one that is. */
  predicate AnyOrder(ls: seq<string>, s: string, t: string) {
    if HasSection(ls, s) then HasSection(ls, t) || !EndsIn(ls, s) else HasSection(ls, t) && !EndsIn(ls, t)
  }

  lemma LinesCommute(ls: seq<string>, s: string, b: seq<string>, bEnd: seq<string>, t: string, c: seq<string>,
                   cEnd: seq<string>)
    requires SectionName(s) && SectionName(t) && Different(s, t) && Solid(ls)
    requires Solid(b) && Solid(bEnd) && HeaderFree(b) && HeaderFree(bEnd)
    requires Solid(c) && Solid(cEnd) && HeaderFree(c) && HeaderFree(cEnd)
    ensures ReplaceLines(ReplaceLines(ls, s, b, bEnd), t, c, cEnd)
            == ReplaceLines(ReplaceLines(ls, t, c, cEnd), s, b, bEnd)
            <==> AnyOrder(ls, s, t)
  {
    if HasSection(ls, s) && HasSection(ls, t) {
      SectionTrimmed(s);
      SectionTrimmed(t);
      ReplaceKeepsOther(ls, s, b, bEnd, t);
      ReplaceKeepsOther(ls, t, c, cEnd, s);
      ReplaceCommutes(ls, s, b, t, c, false, false);
    } else if HasSection(ls, s) {
      OneMissing(ls, s, b, bEnd, t, c, cEnd);
    } else if HasSection(ls, t) {
      OneMissing(ls, t, c, cEnd, s, b, bEnd);
    } else {
      BothMissing(ls, s, b, bEnd, t, c, cEnd);
    }
  }

  /**
   Two different sections can be replaced in either order exactly when both are there, or one is and it
   is not the last of the text. Two missing ones are added in the order of the calls, and the empty line
   put before a missing one is lost when the section in front of it is replaced afterwards.
   */
  lemma ReplacementsCommute(config: string, s: string, b: string, t: string, c: string)
    requires SectionName(s) && SectionName(t) && Different(s, t)
    requires Solid(Lines(config)) && ProperBody(b) && ProperBody(c)
    ensures ReplaceText(ReplaceText(config, s, b), t, c) == ReplaceText(ReplaceText(config, t, c), s, b)
            <==> AnyOrder(Lines(config), s, t)
  {
    ReplaceOnLines(config, s, b);
    ReplaceOnLines(config, t, c);
    var sFirst, tFirst := ReplaceText(config, s, b), ReplaceText(config, t, c);
    ReplaceOnLines(sFirst, t, c);
    ReplaceOnLines(tFirst, s, b);
    SameLinesSameText(ReplaceText(sFirst, t, c), ReplaceText(tFirst, s, b),
                      ReplaceLines(Lines(sFirst), t, FillLines(c), NewLines(c)),
                      ReplaceLines(Lines(tFirst), s, FillLines(b), NewLines(b)));
    LinesCommute(Lines(config), s, FillLines(b), NewLines(b), t, FillLines(c), NewLines(c));
  }

  /** The empty line that is lost, in a text of one section. */
  lemma GapIsLost()
    ensures ReplaceText(ReplaceText("[S]\na", "[S]", "b"), "[T]", "c") == "[S]\nb\n\n[T]\nc"
    ensures ReplaceText(ReplaceText("[S]\na", "[T]", "c"), "[S]", "b") == "[S]\nb\n[T]\nc"
  {
    var text := "[S]\na";
    assert text == "[S]" + "\n" + "a";
    assert "[S]" + "\n" + "b" + "\n" + "\n" + "[T]" + "\n" + "c" == "[S]\nb\n\n[T]\nc";
    assert "[S]" + "\n" + "b" + "\n" + "[T]" + "\n" + "c" == "[S]\nb\n[T]\nc";
    LastSectionLosesGap(text, "[S]", "a", "b", "[T]", "c");
  }

  lemma LastSectionLosesGap(text: string, s: string, a: string, b: string, t: string, c: string)
    requires Bracketed(s) && Bracketed(t) && Apart(s, t) && Letter(a) && Letter(b) && Letter(c)
    requires text == s + "\n" + a
    ensures ReplaceText(ReplaceText(text, s, b), t, c) == s + "\n" + b + "\n" + "\n" + t + "\n" + c
    ensures ReplaceText(ReplaceText(text, t, c), s, b) == s + "\n" + b + "\n" + t + "\n" + c
  {
    BracketedIsSection(s);
    BracketedIsSection(t);
    TwoLineText(text, s, a);
    LetterBody(b);
    LetterBody(c);
    ReplaceOnLines(text, s, b);
    ReplaceOnLines(text, t, c);
    ReplaceOnLines(ReplaceText(text, s, b), t, c);
    ReplaceOnLines(ReplaceText(text, t, c), s, b);
    LastSectionOnLines(s, a, b, t, c);
    JoinOfFour(s, b, t, c);
  }

  lemma TwoLineText(text: string, s: string, a: string)
    requires Bracketed(s) && Letter(a) && text == s + "\n" + a
    ensures Lines(text) == [s, a] && Solid(Lines(text))
  {
    LinesOfCons(s, a);
    LinesOfLast(a);
    assert StripCr(s) == s;
  }

  lemma LetterBody(b: string)
    requires Letter(b)
    ensures ProperBody(b) && NewLines(b) == [b] && FillLines(b) == [b]
  {
    LinesOfLast(b);
    TrimOfTrimmed(b);
    assert TrimChar(b, '\n') == b;
  }

  lemma JoinOfFour(s: string, b: string, t: string, c: string)
    ensures Join([s, b, "", t, c], "\n") == s + "\n" + b + "\n" + "\n" + t + "\n" + c
    ensures Join([s, b, t, c], "\n") == s + "\n" + b + "\n" + t + "\n" + c
  {
    assert [s, b, "", t, c][1..] == [b, "", t, c] && [b, "", t, c][1..] == ["", t, c] && ["", t, c][1..] == [t, c];
    assert [s, b, t, c][1..] == [b, t, c] && [b, t, c][1..] == [t, c] && [t, c][1..] == [c];
    assert Join([t, c], "\n") == t + "\n" + c;
    assert Join(["", t, c], "\n") == "\n" + (t + "\n" + c);
    assert Join([b, "", t, c], "\n") == b + "\n" + ("\n" + (t + "\n" + c));
    assert Join([b, t, c], "\n") == b + "\n" + (t + "\n" + c);
  }

  lemma LastSectionOnLines(s: string, a: string, b: string, t: string, c: string)
    requires Bracketed(s) && Bracketed(t) && Apart(s, t) && Letter(a) && Letter(b) && Letter(c)
    ensures ReplaceLines(ReplaceLines([s, a], s, [b], [b]), t, [c], [c]) == [s, b, "", t, c]
    ensures ReplaceLines(ReplaceLines([s, a], t, [c], [c]), s, [b], [b]) == [s, b, t, c]
  {
    var ls := [s, a];
    BracketedIsSection(s);
    BracketedIsSection(t);
    ApartIsDifferent(s, t);
    SectionTrimmed(s);
    SectionTrimmed(t);
    assert HasSection(ls, s) by { assert ls[0] == s; }
    assert ls == [s] + [a];
    ReplaceAtName(s, [a], s, [b], false);
    ReplaceOverBody([a], [], s, [b], true);
    OneMissing(ls, s, [b], [b], t, [c], [c]);
    assert EndsIn(ls, s) by { assert ls[1..] == [a]; }
  }

  predicate Letter(line: string) {
    |line| == 1 && 'a' <= line[0] <= 'z'
  }

  // ---------------------------------------------------------------- the merge

  datatype Step = Step(section: string, overwrite: bool)

  function MergeStep(merged: string, generated: string, step: Step): string {
    match BodyText(generated, step.section)
    case None => merged
    case Some(body) =>
      if step.overwrite then ReplaceText(merged, step.section, body) else AppendText(merged, step.section, body)
  }

  function Merge(merged: string, generated: string, plan: seq<Step>): string
    decreases |plan|
  {
    if plan == [] then merged else Merge(MergeStep(merged, generated, plan[0]), generated, plan[1..])
  }

  predicate SectionNames(plan: seq<Step>) {
    && (forall i :: 0 <= i < |plan| ==> SectionName(plan[i].section))
    && (forall i, j :: 0 <= i < j < |plan| ==> Different(plan[i].section, plan[j].section))
  }

  /**
   How a section reads after generated lines went into it: overwritten, it reads as those lines, or as
   nothing when `cut`; appended to, it reads as before, then empty lines, then those lines.
   */
  ghost predicate ReadsAs(overwrite: bool, before: Option<seq<string>>, cut: bool, g: Option<seq<string>>,
                          after: Option<seq<string>>) {
    if overwrite then after == if cut then None else g
    else if g.None? then after == before
    else if before.None? then after == g
    else exists k: nat :: after == Some(before.value + Empties(k) + g.value)
  }

  predicate SameReading(before: seq<string>, after: seq<string>, section: string) {
    BodyOf(after, section) == BodyOf(before, section) && HasSection(after, section) == HasSection(before, section)
  }

  lemma {:induction false} SameSection(ls: seq<string>, s: string, t: string)
    requires !Different(s, t)
    ensures BodyLines(ls, s) == BodyLines(ls, t)
  {
    if ls != [] { SameSection(ls[1..], s, t); }
  }

  lemma SameNameReading(ls: seq<string>, s: string, t: string)
    requires SectionName(s) && SectionName(t) && !Different(s, t)
    ensures BodyOf(ls, s) == BodyOf(ls, t) && HasSection(ls, s) == HasSection(ls, t)
  {
    SameSection(ls, s, t);
    HasSectionBody(ls, s);
    HasSectionBody(ls, t);
  }

  lemma ReplacedReads(ls: seq<string>, section: string, fill: seq<string>, other: string)
    requires SectionName(section) && SectionName(other) && HeaderFree(fill) && HasSection(ls, section)
    ensures var after := ReplaceScan(ls, section, fill, false);
            if Different(section, other) then SameReading(ls, after, other)
            else BodyOf(after, other) == CoreOrNone(fill)
  {
    var after := ReplaceScan(ls, section, fill, false);
    HasSectionBody(ls, section);
    if Different(section, other) {
      ReplaceFrame(ls, section, fill, false, other);
      HasSectionBody(ls, other);
      HasSectionBody(after, other);
    } else {
      ReplaceThenRead(ls, section, fill, false);
      SameNameReading(after, section, other);
    }
  }

  /** A section put at the end, with or without an empty line before it. */
  lemma AddedReads(ls: seq<string>, gap: seq<string>, section: string, g: seq<string>, other: string)
    requires SectionName(section) && SectionName(other) && HeaderFree(g) && !HasSection(ls, section)
    requires gap == [] || gap == [""]
    ensures var after := ls + (gap + [section] + g);
            if Different(section, other) then SameReading(ls, after, other)
            else BodyOf(after, other) == CoreOrNone(g)
  {
    var after := ls + (gap + [section] + g);
    EmptyIsNoHeader();
    HasSectionBody(ls, section);
    HasSectionBody(ls, other);
    HasSectionBody(after, other);
    NewSectionRead(ls, gap, section, g, other);
    if Different(section, other) && BodyLines(ls, other).Some? {
      var b := BodyLines(ls, other).value;
      assert b + [] == b;
      OneEmpty();
      var k := CoreOfConcat(b, [""]);
    }
  }

  lemma OneEmpty()
    ensures Core([""]) == []
  {
    assert Empties(1) == [""] + Empties(0) == [""];
    EmptiesHaveNoCore(1);
  }

  lemma AppendedReads(ls: seq<string>, section: string, g: seq<string>, other: string)
    requires SectionName(section) && SectionName(other) && HeaderFree(g)
    ensures var after := AppendLines(ls, section, g);
            if Different(section, other) then SameReading(ls, after, other)
            else ReadsAs(false, BodyOf(ls, other), false, CoreOrNone(g), BodyOf(after, other))
  {
    var after := AppendLines(ls, section, g);
    HasSectionBody(ls, section);
    if !HasSection(ls, section) {
      AppendedNew(ls, section, g, other);
      if !Different(section, other) { SameNameReading(ls, section, other); }
    } else if Different(section, other) {
      AppendFrame(ls, section, g, false, false, None, other);
      HasSectionBody(ls, other);
      HasSectionBody(after, other);
    } else {
      AppendThenRead(ls, section, g, None);
      AppendedCore(BodyLines(ls, section).value, g, BodyLines(after, section).value);
      SameNameReading(ls, section, other);
      SameNameReading(after, section, other);
    }
  }

  lemma AppendedNew(ls: seq<string>, section: string, g: seq<string>, other: string)
    requires SectionName(section) && SectionName(other) && HeaderFree(g) && !HasSection(ls, section)
    ensures var after := AppendLines(ls, section, g);
            if Different(section, other) then SameReading(ls, after, other)
            else BodyOf(after, other) == CoreOrNone(g)
  {
    HasSectionBody(ls, section);
    AppendMissing(ls, section, g, None);
    SectionTrimmed(section);
    EmptyIsNoHeader();
    var gap := if ls == [] || Blank(ls[|ls| - 1]) then [] else [""];
    assert AppendLines(ls, section, g) == ls + (gap + [section] + ([""] + g));
    AddedReads(ls, gap, section, [""] + g, other);
    OneEmpty();
    var k := CoreOfConcat([""], g);
  }

  lemma AppendedCore(b: seq<string>, g: seq<string>, after: seq<string>)
    requires after == b + g || after == b + ([""] + g)
    ensures ReadsAs(false, CoreOrNone(b), false, CoreOrNone(g), CoreOrNone(after))
  {
    var gap := if after == b + g then [] else [""];
    assert [] + g == g;
    OneEmpty();
    var j := CoreOfConcat(gap, g);
    var k := CoreOfConcat(b, gap + g);
    CoreShape(b);
    assert after == b + (gap + g) && Core(gap + g) == Core(g);
  }

  // ---------------------------------------------------------------- one step on texts

  lemma {:induction false} ReplaceOneLine(ls: seq<string>, section: string, body: seq<string>, skipping: bool)
    requires OneLine(ls) && OneLine(body)
    ensures OneLine(ReplaceScan(ls, section, body, skipping))
  {
    if ls != [] {
      var line, rest := ls[0], ls[1..];
      assert ls == [line] + rest && line in ls;
      ReplaceScanStep(line, rest, section, body, skipping);
      ReplaceOneLine(rest, section, body, if IsHeader(line) then Names(line, section) else skipping);
    }
  }

  lemma {:induction false} AppendOneLine(ls: seq<string>, section: string, body: seq<string>,
                                         inTarget: bool, inserted: bool, last: Option<string>)
    requires OneLine(ls) && OneLine(body) && '\n' !in section && (inTarget ==> last.Some?)
    ensures OneLine(AppendScan(ls, section, body, inTarget, inserted, last))
  {
    if ls != [] {
      assert ls[0] in ls && OneLine(ls[1..]);
      if inTarget && IsHeader(ls[0]) {
        AppendOneLine(ls[1..], section, body, Names(ls[0], section), true, Some(ls[0]));
      } else {
        AppendOneLine(ls[1..], section, body, inTarget || Names(ls[0], section), inserted, Some(ls[0]));
      }
    }
  }

  /** Written out and cut again, a text reads the same. */
  lemma JoinedReading(ls: seq<string>, section: string)
    requires OneLine(ls) && SectionName(section)
    ensures SameReading(Bares(ls), Bares(Lines(Join(ls, "\n"))), section)
  {
    BaresOfJoin(ls);
    LastEmptyLine(Bares(Lines(Join(ls, "\n"))), section);
  }

  /** The generated body of a section: as lines, as the text it is passed on as, and cut again. */
  lemma GeneratedBody(gen: seq<string>, section: string)
    requires OneLine(gen) && BodyOf(gen, section).Some?
    ensures var g := BodyOf(gen, section).value;
            var body := Join(g, "\n");
            OneLine(g) && HeaderFree(Bares(g)) && body != "" && TrimChar(body, '\n') == body &&
            Bares(Lines(body)) == Bares(g) && BodyOf(Bares(gen), section) == CoreOrNone(Bares(g))
  {
    var g := BodyOf(gen, section).value;
    BodyLinesFree(gen, section);
    CoreShape(BodyLines(gen, section).value);
    CoreShape(g);
    TrimOfJoin(g);
    BaresOfJoin(g);
    BaresFree(g);
    BaresRead(gen, section);
    CoreOfBares(BodyLines(gen, section).value);
  }

  lemma OverwriteReads(merged: string, section: string, g: seq<string>, body: string, other: string)
    requires SectionName(section) && SectionName(other) && HeaderFree(g)
    requires TrimChar(body, '\n') == body && Bares(Lines(body)) == g
    ensures var before, after := Bares(Lines(merged)), Bares(Lines(ReplaceText(merged, section, body)));
            if Different(section, other) then SameReading(before, after, other)
            else ReadsAs(true, BodyOf(before, other), HasSection(before, other) && Blank(body), CoreOrNone(g),
                         BodyOf(after, other))
  {
    var ls := Lines(merged);
    SectionTrimmed(section);
    BaresHaveSection(ls, section);
    if !Different(section, other) { SameNameReading(Bares(ls), section, other); }
    if HasSection(ls, section) {
      OverwritePresent(ls, section, if Blank(body) then [] else Lines(body), other);
      assert Bares([]) == [] && Core([]) == [];
    } else {
      OverwriteMissing(ls, section, Lines(body), other);
    }
  }

  lemma OverwritePresent(ls: seq<string>, section: string, fill: seq<string>, other: string)
    requires SectionName(section) && SectionName(other) && OneLine(ls) && OneLine(fill) && HeaderFree(Bares(fill))
    requires HasSection(ls, section)
    ensures var after := Bares(Lines(Join(ReplaceScan(ls, section, fill, false), "\n")));
            if Different(section, other) then SameReading(Bares(ls), after, other)
            else BodyOf(after, other) == CoreOrNone(Bares(fill))
  {
    ReplaceOneLine(ls, section, fill, false);
    JoinedReading(ReplaceScan(ls, section, fill, false), other);
    BaresReplace(ls, section, fill, false);
    BaresHaveSection(ls, section);
    ReplacedReads(Bares(ls), section, Bares(fill), other);
  }

  lemma OverwriteMissing(ls: seq<string>, section: string, lines: seq<string>, other: string)
    requires SectionName(section) && SectionName(other) && OneLine(ls) && OneLine(lines) && HeaderFree(Bares(lines))
    requires !HasSection(ls, section)
    ensures var after := Bares(Lines(Join(ReplaceLines(ls, section, [], lines), "\n")));
            if Different(section, other) then SameReading(Bares(ls), after, other)
            else BodyOf(after, other) == CoreOrNone(Bares(lines))
  {
    var gap := if ls != [] && ls[|ls| - 1] != "" then [""] else [];
    SectionTrimmed(section);
    AtTheEnd(ls, gap, section, lines);
    JoinedReading(ls + (gap + [section] + lines), other);
    BaresHaveSection(ls, section);
    AddedReads(Bares(ls), gap, section, Bares(lines), other);
  }

  lemma AtTheEnd(ls: seq<string>, gap: seq<string>, section: string, lines: seq<string>)
    requires SectionName(section) && (gap == [] || gap == [""]) && OneLine(ls) && OneLine(lines)
    ensures ls + gap + [section] + lines == ls + (gap + [section] + lines)
    ensures OneLine(ls + (gap + [section] + lines))
    ensures Bares(ls + (gap + [section] + lines)) == Bares(ls) + (gap + [section] + Bares(lines))
  {
    assert Bare(section) == section && Bare("") == "";
    BaresConcat(ls, gap + [section] + lines);
    BaresConcat(gap + [section], lines);
    assert Bares(gap + [section]) == gap + [section];
  }

  lemma AppendReads(merged: string, section: string, g: seq<string>, body: string, other: string)
    requires SectionName(section) && SectionName(other) && HeaderFree(g)
    requires body != "" && TrimChar(body, '\n') == body && Bares(Lines(body)) == g
    ensures var before, after := Bares(Lines(merged)), Bares(Lines(AppendText(merged, section, body)));
            if Different(section, other) then SameReading(before, after, other)
            else ReadsAs(false, BodyOf(before, other), false, CoreOrNone(g), BodyOf(after, other))
  {
    var ls, lines := Lines(merged), Lines(body);
    AppendOneLine(ls, section, lines, false, false, None);
    JoinedReading(AppendLines(ls, section, lines), other);
    BaresAppend(ls, section, lines, false, false, None);
    AppendedReads(Bares(ls), section, g, other);
  }

  /** How any section reads after one step: the step's own as it should, every other as before. */
  lemma StepReads(merged: string, generated: string, step: Step, other: string)
    requires SectionName(step.section) && SectionName(other)
    ensures var before, after := Bares(Lines(merged)), Bares(Lines(MergeStep(merged, generated, step)));
            var g := BodyOf(Lines(generated), step.section);
            if Different(step.section, other) || g.None? then SameReading(before, after, other)
            else ReadsAs(step.overwrite, BodyOf(before, other), HasSection(before, other) && Blank(Join(g.value, "\n")),
                         BodyOf(Bares(Lines(generated)), step.section), BodyOf(after, other))
  {
    var g := BodyOf(Lines(generated), step.section);
    if g.Some? {
      GeneratedBody(Lines(generated), step.section);
      var body := Join(g.value, "\n");
      if step.overwrite { OverwriteReads(merged, step.section, Bares(g.value), body, other); }
      else { AppendReads(merged, step.section, Bares(g.value), body, other); }
    }
  }

  // ---------------------------------------------------------------- all steps

  /** No step of the plan puts anything into this section. */
  ghost predicate Untouched(plan: seq<Step>, gen: seq<string>, other: string) {
    forall i :: 0 <= i < |plan| ==> Different(plan[i].section, other) || BodyOf(gen, plan[i].section).None?
  }

  lemma {:induction false} MergeReadsUntouched(merged: string, generated: string, plan: seq<Step>, other: string)
    requires SectionNames(plan) && SectionName(other) && Untouched(plan, Lines(generated), other)
    ensures BodyOf(Bares(Lines(Merge(merged, generated, plan))), other) == BodyOf(Bares(Lines(merged)), other)
    decreases |plan|
  {
    if plan != [] {
      StepReads(merged, generated, plan[0], other);
      MergeReadsUntouched(MergeStep(merged, generated, plan[0]), generated, plan[1..], other);
    }
  }

  /** The reading of the section of one step of the plan, of lines before and lines after. */
  ghost predicate FilledWell(base: seq<string>, gen: seq<string>, step: Step, after: seq<string>)
    requires BodyOf(gen, step.section).Some?
  {
    var s := step.section;
    ReadsAs(step.overwrite, BodyOf(base, s), HasSection(base, s) && Blank(Join(BodyOf(gen, s).value, "\n")),
            BodyOf(Bares(gen), s), BodyOf(after, s))
  }

  lemma {:induction false} MergeReadsFilled(merged: string, generated: string, plan: seq<Step>, i: nat)
    requires SectionNames(plan)
    requires i < |plan| && BodyOf(Lines(generated), plan[i].section).Some?
    ensures FilledWell(Bares(Lines(merged)), Lines(generated), plan[i], Bares(Lines(Merge(merged, generated, plan))))
    decreases |plan|
  {
    var s := plan[i].section;
    var next := MergeStep(merged, generated, plan[0]);
    StepReads(merged, generated, plan[0], s);
    if i == 0 {
      assert forall j :: 0 <= j < |plan[1..]| ==> plan[1..][j] == plan[j + 1];
      MergeReadsUntouched(next, generated, plan[1..], s);
    } else {
      MergeReadsFilled(next, generated, plan[1..], i - 1);
    }
  }

  // ---------------------------------------------------------------- the rule base of a target

  datatype Target = Surge | Surfboard | Loon | Mellow | Quan | QuanX | OtherTarget

  function Plan(target: Target, overwrite: bool): seq<Step> {
    match target
    case Mellow => [Step("[Endpoint]", false), Step("[EndpointGroup]", overwrite), Step("[RoutingRule]", overwrite)]
    case Quan => [Step("[SERVER]", false), Step("[POLICY]", overwrite), Step("[TCP]", overwrite)]
    case QuanX => [Step("[policy]", overwrite), Step("[server_local]", false), Step("[filter_local]", overwrite)]
    case OtherTarget => []
    case _ => [Step("[Proxy]", false), Step("[Proxy Group]", overwrite), Step("[Rule]", overwrite)]
  }

  /** `append_block`. */
  function AppendBlock(base: string, generated: string): string {
    if Blank(base) then generated
    else if Blank(generated) then base
    else TrimEndChar(base, '\n') + "\n\n" + TrimChar(generated, '\n')
  }

  predicate HasBody(generated: string, plan: seq<Step>) {
    exists i :: 0 <= i < |plan| && BodyText(generated, plan[i].section).Some?
  }

  predicate UsableBase(base: string) {
    !Blank(base) && exists l :: l in Lines(base) && IsHeader(l)
  }

  /** `apply_text_rule_base`. */
  function RuleBaseApplied(generated: string, target: Target, ruleBase: Option<string>, nodeList: bool,
                           overwrite: bool): string {
    if nodeList || ruleBase.None? || target == OtherTarget then generated
    else
      var base := TrimEndChar(ruleBase.value, '\n');
      if !UsableBase(base) then generated
      else if target != Quan && target != QuanX && !HasBody(generated, Plan(target, overwrite)) then
        AppendBlock(base, generated)
      else Merge(base, generated, Plan(target, overwrite))
  }

  method MergeSections(base: string, generated: string, plan: seq<Step>) returns (merged: string, applied: bool)
    ensures merged == Merge(base, generated, plan)
    ensures applied == HasBody(generated, plan)
  {
    merged, applied := base, false;
    assert plan[0..] == plan;
    for i := 0 to |plan|
      invariant Merge(base, generated, plan) == Merge(merged, generated, plan[i..])
      invariant applied <==> exists j :: 0 <= j < i && BodyText(generated, plan[j].section).Some?
    {
      assert plan[i..][0] == plan[i] && plan[i..][1..] == plan[i + 1..];
      var body := SectionBodyLoop(generated, plan[i].section);
      if body.Some? {
        if plan[i].overwrite {
          merged := ReplaceSection(merged, plan[i].section, body.value);
        } else {
          merged := AppendToSection(merged, plan[i].section, body.value);
        }
        applied := true;
      }
    }
    assert plan[|plan|..] == [];
  }

  method ApplyTextRuleBase(generated: string, target: Target, ruleBase: Option<string>, nodeList: bool,
                           overwrite: bool) returns (r: string)
    ensures r == RuleBaseApplied(generated, target, ruleBase, nodeList, overwrite)
  {
    if nodeList || ruleBase.None? || target == OtherTarget { return generated; }
    var base := TrimEndChar(ruleBase.value, '\n');
    if !UsableBase(base) { return generated; }
    var merged, applied := MergeSections(base, generated, Plan(target, overwrite));
    if target != Quan && target != QuanX && !applied {
      return AppendBlock(base, generated);
    }
    return merged;
  }

  predicate Bracketed(s: string) {
    |s| > 2 && s[0] == '[' && s[|s| - 1] == ']' && forall i :: 0 <= i < |s| ==> s[i] != '\n'
  }

  lemma BracketedIsSection(s: string)
    requires Bracketed(s)
    ensures SectionName(s)
  {
    TrimOfTrimmed(s);
  }

  /** Names of different lengths, or with different second letters. */
  predicate Apart(s: string, t: string) {
    |s| > 2 && |t| > 2 && (|s| != |t| || LowerChar(s[1]) != LowerChar(t[1]))
  }

  lemma ApartIsDifferent(s: string, t: string)
    requires Apart(s, t)
    ensures Different(s, t)
  {
    assert |Lower(s)| == |s| && |Lower(t)| == |t|;
    assert |s| == |t| ==> Lower(s)[1] != Lower(t)[1];
  }

  predicate AllApart(a: string, b: string, c: string) {
    Bracketed(a) && Bracketed(b) && Bracketed(c) && Apart(a, b) && Apart(a, c) && Apart(b, c)
  }

  lemma ThreeSections(plan: seq<Step>)
    requires |plan| == 3 && AllApart(plan[0].section, plan[1].section, plan[2].section)
    ensures SectionNames(plan)
  {
    forall i | 0 <= i < |plan| ensures SectionName(plan[i].section) { BracketedIsSection(plan[i].section); }
    forall i, j | 0 <= i < j < |plan| ensures Different(plan[i].section, plan[j].section) {
      ApartIsDifferent(plan[i].section, plan[j].section);
    }
  }

  lemma SurgeNames() ensures AllApart("[Proxy]", "[Proxy Group]", "[Rule]") {}

  lemma MellowNames() ensures AllApart("[Endpoint]", "[EndpointGroup]", "[RoutingRule]") {}

  lemma QuanNames() ensures AllApart("[SERVER]", "[POLICY]", "[TCP]") {}

  lemma QuanXNames() ensures AllApart("[policy]", "[server_local]", "[filter_local]") {}

  lemma PlanSections(target: Target, overwrite: bool)
    requires target != OtherTarget
    ensures SectionNames(Plan(target, overwrite))
  {
    match target {
      case Mellow => MellowNames();
      case Quan => QuanNames();
      case QuanX => QuanXNames();
      case _ => SurgeNames();
    }
    ThreeSections(Plan(target, overwrite));
  }

  /**
   How every section reads after a merge, for any plan. The generated lines are the raw ones, because
   what a step does depends on them; what is read is lines without the carriage returns at their ends.
   */
  ghost predicate MergedWell(base: seq<string>, gen: seq<string>, plan: seq<Step>, after: seq<string>) {
    && (forall i :: 0 <= i < |plan| && BodyOf(gen, plan[i].section).Some? ==> FilledWell(base, gen, plan[i], after))
    && (forall other :: SectionName(other) && Untouched(plan, gen, other) ==>
         BodyOf(after, other) == BodyOf(base, other))
  }

  lemma MergeIsWell(text: string, generated: string, plan: seq<Step>)
    requires SectionNames(plan)
    ensures MergedWell(Bares(Lines(text)), Lines(generated), plan, Bares(Lines(Merge(text, generated, plan))))
  {
    var gen := Lines(generated);
    var base, after := Bares(Lines(text)), Bares(Lines(Merge(text, generated, plan)));
    forall i | 0 <= i < |plan| && BodyOf(gen, plan[i].section).Some? ensures FilledWell(base, gen, plan[i], after) {
      MergeReadsFilled(text, generated, plan, i);
    }
    forall other | SectionName(other) && Untouched(plan, gen, other)
      ensures BodyOf(after, other) == BodyOf(base, other)
    {
      MergeReadsUntouched(text, generated, plan, other);
    }
  }

  /** The merge is made: for these targets only if the generated text has a section of the plan. */
  predicate Merges(generated: string, target: Target, ruleBase: string, overwrite: bool) {
    && target != OtherTarget && UsableBase(TrimEndChar(ruleBase, '\n'))
    && (target == Quan || target == QuanX || HasBody(generated, Plan(target, overwrite)))
  }

  lemma AppliedIsMerge(generated: string, target: Target, ruleBase: string, overwrite: bool)
    requires Merges(generated, target, ruleBase, overwrite)
    ensures RuleBaseApplied(generated, target, Some(ruleBase), false, overwrite)
            == Merge(TrimEndChar(ruleBase, '\n'), generated, Plan(target, overwrite))
  {
  }

  /**
   After the merge every section of the rule base reads as it should, whatever the two texts are, but for
   the carriage returns at line ends. A section the generated text fills reads back as generated when it
   is overwritten, and as the base's own lines, then empty lines, then the generated ones when it is
   appended to; every other section reads as before.
   */
  lemma MergeReadsBack(generated: string, target: Target, ruleBase: string, overwrite: bool)
    requires Merges(generated, target, ruleBase, overwrite)
    ensures MergedWell(Bares(Lines(TrimEndChar(ruleBase, '\n'))), Lines(generated), Plan(target, overwrite),
                       Bares(Lines(RuleBaseApplied(generated, target, Some(ruleBase), false, overwrite))))
  {
    AppliedIsMerge(generated, target, ruleBase, overwrite);
    PlanSections(target, overwrite);
    MergeIsWell(TrimEndChar(ruleBase, '\n'), generated, Plan(target, overwrite));
  }

  // ---------------------------------------------------------------- texts without carriage returns at line ends

  lemma StepIsSolid(merged: string, generated: string, step: Step)
    requires SectionName(step.section) && Solid(Lines(merged)) && NoCr(Lines(generated))
    ensures Solid(Lines(MergeStep(merged, generated, step)))
  {
    var ls, gen := Lines(merged), Lines(generated);
    if BodyOf(gen, step.section).Some? {
      var b := BodyOf(gen, step.section).value;
      BodyLinesFree(gen, step.section);
      CoreShape(BodyLines(gen, step.section).value);
      CoreShape(b);
      TrimOfJoin(b);
      SolidCut(b);
      if step.overwrite {
        var found := if Blank(Join(b, "\n")) then [] else b;
        ReplaceSolid(ls, step.section, found, b);
        SolidCut(ReplaceLines(ls, step.section, found, b));
      } else {
        AppendScanLines(ls, step.section, b, false, false, None);
        SolidCut(AppendLines(ls, step.section, b));
      }
    }
  }

  lemma {:induction false} MergeIsSolid(merged: string, generated: string, plan: seq<Step>)
    requires SectionNames(plan) && Solid(Lines(merged)) && NoCr(Lines(generated))
    ensures Solid(Lines(Merge(merged, generated, plan)))
    decreases |plan|
  {
    if plan != [] {
      StepIsSolid(merged, generated, plan[0]);
      MergeIsSolid(MergeStep(merged, generated, plan[0]), generated, plan[1..]);
    }
  }

  /** Without carriage returns at line ends the sections read back to the letter. */
  lemma PlainMergeReadsBack(generated: string, target: Target, ruleBase: string, overwrite: bool)
    requires Merges(generated, target, ruleBase, overwrite)
    requires NoCr(Lines(TrimEndChar(ruleBase, '\n'))) && NoCr(Lines(generated))
    ensures MergedWell(Lines(TrimEndChar(ruleBase, '\n')), Lines(generated), Plan(target, overwrite),
                       Lines(RuleBaseApplied(generated, target, Some(ruleBase), false, overwrite)))
  {
    var base := TrimEndChar(ruleBase, '\n');
    MergeReadsBack(generated, target, ruleBase, overwrite);
    AppliedIsMerge(generated, target, ruleBase, overwrite);
    PlanSections(target, overwrite);
    LastLineOfTrimmed(base);
    MergeIsSolid(base, generated, Plan(target, overwrite));
    BareOfPlain(Lines(base));
    BareOfPlain(Lines(Merge(base, generated, Plan(target, overwrite))));
  }

  /**
   To the letter they do not read back in general: the carriage return before the final line feed of a rule
   base is kept when its lines are cut, and lost when the merged text is cut again.
   */
  lemma LastCrIsLost(text: string, head: string, x: string, section: string, g: string)
    requires text == head + "\r" + "\n" + x + "\r"
    requires Bracketed(head) && Bracketed(section) && Apart(head, section) && Letter(x) && Letter(g)
    ensures TrimEndChar(text + "\n", '\n') == text
    ensures Lines(text) == [head, x + "\r"]
    ensures Lines(AppendText(text, section, g)) == [head, x, "", section, "", g]
    ensures !MergedWell(Lines(text), [section, g], [Step(section, false)], Lines(AppendText(text, section, g)))
  {
    EndsWithCr(text, head + "\r" + "\n" + x);
    TwoWithCr(text, head, x);
    LastCrAppended(head, x, section, g, text);
    RawReadingChanges(head, x, section, g);
  }

  lemma RawReadingChanges(head: string, x: string, section: string, g: string)
    requires Bracketed(head) && Bracketed(section) && Apart(head, section) && Letter(x)
    ensures !MergedWell([head, x + "\r"], [section, g], [Step(section, false)], [head, x, "", section, "", g])
  {
    var base, after, last, plan := [head, x + "\r"], [head, x, "", section, "", g], x + "\r", [Step(section, false)];
    BracketedIsSection(head);
    BracketedIsSection(section);
    SectionTrimmed(section);
    ApartIsDifferent(head, section);
    ShortIsNoHeader(x);
    ShortIsNoHeader(last);
    HeadReads(head, last, []);
    HeadReads(head, x, ["", section, "", g]);
    assert base == [head, last] + [] && after == [head, x] + ["", section, "", g];
    assert [last][0] != [x][0];
    ReadsOtherwise(base, [section, g], plan, after, head);
  }

  lemma ReadsOtherwise(base: seq<string>, gen: seq<string>, plan: seq<Step>, after: seq<string>, other: string)
    requires SectionName(other) && Untouched(plan, gen, other) && BodyOf(after, other) != BodyOf(base, other)
    ensures !MergedWell(base, gen, plan, after)
  {
  }

  lemma ShortIsNoHeader(line: string)
    requires |line| <= 2
    ensures !IsHeader(line)
  {
  }

  /** The section of the first line, with one line in it. */
  lemma HeadReads(head: string, x: string, rest: seq<string>)
    requires Bracketed(head) && x != "" && !IsHeader(x)
    requires rest == [] || (|rest| >= 2 && rest[0] == "" && IsHeader(rest[1]))
    ensures BodyOf([head, x] + rest, head) == Some([x])
  {
    var ls := [head, x] + rest;
    BracketedIsSection(head);
    SectionTrimmed(head);
    EmptyIsNoHeader();
    assert ls[1..] == [x] + rest && ([x] + rest)[1..] == rest;
    if rest != [] {
      UntilHeaderCons("", rest[1..]);
      assert rest == [""] + rest[1..] && UntilHeader(rest[1..]) == [];
      OneEmpty();
      var k := CoreOfConcat([x], [""]);
      assert UntilHeader(ls[1..]) == [x] + [""];
    } else {
      assert UntilHeader(ls[1..]) == [x];
    }
    CoreShape([x]);
  }

  lemma EndsWithCr(text: string, front: string)
    requires text == front + "\r"
    ensures TrimEndChar(text + "\n", '\n') == text
  {
    var whole := text + "\n";
    assert whole[..|whole| - 1] == text && text[|text| - 1] == '\r';
  }

  lemma TwoWithCr(text: string, head: string, x: string)
    requires text == head + "\r" + "\n" + x + "\r" && '\n' !in head && '\n' !in x
    ensures Lines(text) == [head, x + "\r"]
  {
    var first, last := head + "\r", x + "\r";
    OneCr(head);
    assert text == first + "\n" + last;
    LinesOfCons(first, last);
    LinesOfLast(last);
  }

  lemma OneCr(line: string)
    ensures StripCr(line + "\r") == line
  {
    assert (line + "\r")[..|line|] == line;
  }

  lemma LastCrAppended(head: string, x: string, section: string, g: string, base: string)
    requires Bracketed(head) && Bracketed(section) && Apart(head, section) && Letter(x) && Letter(g)
    requires Lines(base) == [head, x + "\r"]
    ensures Lines(AppendText(base, section, g)) == [head, x, "", section, "", g]
  {
    var last, rest := x + "\r", ["", section, "", g];
    assert last[..1] == x;
    AppendOneLetter(base, section, g);
    BehindTwo(head, last, section, g);
    OneCr(x);
    FourTidy(section, g);
    assert StripCr(head) == head;
    CutTwo(head, last, rest);
    TwoAndRest(head, last, rest);
    TwoAndRest(head, x, rest);
  }

  lemma TwoAndRest(a: string, b: string, rest: seq<string>)
    ensures [a, b] + rest == [a] + ([b] + rest)
  {
  }

  lemma AppendOneLetter(base: string, section: string, g: string)
    requires Letter(g)
    ensures AppendText(base, section, g) == Join(AppendLines(Lines(base), section, [g]), "\n")
  {
    LinesOfLast(g);
    assert TrimChar(g, '\n') == g;
  }

  lemma FourTidy(section: string, g: string)
    requires Bracketed(section) && Letter(g)
    ensures Tidy(["", section, "", g])
  {
  }

  lemma BehindTwo(head: string, last: string, section: string, g: string)
    requires Bracketed(head) && Bracketed(section) && Apart(head, section) && |last| == 2 && Letter(last[..1])
    ensures AppendLines([head, last], section, [g]) == [head, last] + ["", section, "", g]
  {
    var ls := [head, last];
    BracketedIsSection(section);
    SectionTrimmed(section);
    TrimOfTrimmed(head);
    ApartIsDifferent(head, section);
    assert !Names(last, section) by { assert |Lower(Trim(last))| < |Lower(section)|; }
    assert !Names(head, section);
    assert ls[1..] == [last] && [last][1..] == [];
    assert BodyLines([last], section) == None;
    TrimStartInk(last);
    AppendMissing(ls, section, [g], None);
  }

  lemma TrimStartInk(line: string)
    requires line != "" && !IsSpace(line[0])
    ensures !Blank(line)
  {
    var tail := line[1..];
    assert line == [line[0]] + tail;
    TrimAfterInk([line[0]], tail);
  }

  lemma CutOne(line: string, rest: seq<string>)
    requires '\n' !in line && rest != []
    ensures Lines(Join([line] + rest, "\n")) == [StripCr(line)] + Lines(Join(rest, "\n"))
  {
    var all := [line] + rest;
    assert all[1..] == rest;
    LinesOfCons(line, Join(rest, "\n"));
  }

  lemma CutTidy(line: string, rest: seq<string>)
    requires '\n' !in line && rest != [] && Tidy(rest)
    ensures Lines(Join([line] + rest, "\n")) == [StripCr(line)] + rest
  {
    LinesOfJoin(rest);
    CutOne(line, rest);
  }

  lemma CutTwo(a: string, b: string, rest: seq<string>)
    requires '\n' !in a && '\n' !in b && rest != [] && Tidy(rest)
    ensures Lines(Join([a] + ([b] + rest), "\n")) == [StripCr(a)] + ([StripCr(b)] + rest)
  {
    CutTidy(b, rest);
    CutOne(a, [b] + rest);
  }
}
