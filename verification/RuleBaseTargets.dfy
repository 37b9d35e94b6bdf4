/** What a merge into a rule base does to each section of each target, by the names of the sections. */
module RuleBaseTargets {
  import opened Wrappers
  import opened Text
  import opened Sections
  import opened SectionMerge
  import opened LineEnds
  import opened RuleBaseMerge

  /** The lines of a section without the empty ones around them and the carriage returns at their ends. */
  function Held(text: string, section: string): seq<string> {
    match BodyOf(Bares(Lines(text)), section)
    case None => []
    case Some(b) => b
  }

  /** A header is a name that is not empty between brackets, with any space around it. */
  lemma HeaderShape(line: string)
    ensures IsHeader(line) <==> exists name :: name != "" && Trim(line) == "[" + name + "]"
  {
    var t := Trim(line);
    if IsHeader(line) { assert t == "[" + t[1..|t| - 1] + "]" && t[1..|t| - 1] != ""; }
    if name :| name != "" && t == "[" + name + "]" { assert t[0] == '[' && t[|t| - 1] == ']'; }
  }

  /** Where a section is: behind the first line that names it, in any case, up to the next header. */
  lemma HeldBetween(text: string, front: seq<string>, head: string, body: seq<string>, rest: seq<string>,
                    section: string)
    requires Lines(text) == front + [head] + body + rest && SectionName(section)
    requires Lower(Trim(head)) == Lower(section)
    requires forall l :: l in front ==> Lower(Trim(l)) != Lower(section)
    requires HeaderFree(body) && (rest != [] ==> IsHeader(rest[0]))
    ensures Held(text, section) == Core(Bares(body))
  {
    assert front + [head] + body + rest == front + ([head] + (body + rest));
    BodyBehind(front, [head] + (body + rest), section);
    BodyOfFirst(head, body, rest, section);
    BaresRead(Lines(text), section);
  }

  lemma BodyOfFirst(head: string, body: seq<string>, rest: seq<string>, section: string)
    requires Names(head, section) && HeaderFree(body) && (rest != [] ==> IsHeader(rest[0]))
    ensures BodyLines([head] + (body + rest), section) == Some(body)
  {
    assert ([head] + (body + rest))[1..] == body + rest;
    UntilHeaderOf(body, rest);
    assert body + [] == body;
  }

  lemma {:induction false} BodyBehind(front: seq<string>, rest: seq<string>, section: string)
    requires forall l :: l in front ==> !Names(l, section)
    ensures BodyLines(front + rest, section) == BodyLines(rest, section)
  {
    if front == [] {
      assert front + rest == rest;
    } else {
      assert (front + rest)[1..] == front[1..] + rest && front[0] in front;
      BodyBehind(front[1..], rest, section);
    }
  }

  /** Only empty lines are taken off a body, and all of those at either end. */
  lemma CoreIsBody(body: seq<string>) returns (j: nat, k: nat)
    ensures body == Empties(j) + Core(body) + Empties(k)
    ensures Core(body) != [] ==> Core(body)[0] != "" && Core(body)[|Core(body)| - 1] != ""
  {
    j := DropFrontSuffix(body);
    k := DropBackPrefix(DropFront(body));
    CoreShape(body);
    Regroup(Empties(j), Core(body), Empties(k));
  }

  /** The section reads as in the base, then empty lines, then as generated. */
  ghost predicate Appended(base: string, generated: string, after: string, section: string) {
    exists k: nat ::
      && Held(after, section) == Held(base, section) + Empties(k) + Held(generated, section)
      && (Held(base, section) == [] || Held(generated, section) == [] ==> k == 0)
  }

  /** The section reads as generated; white space alone is cut from a section that is there. */
  predicate Overwritten(base: string, generated: string, after: string, section: string) {
    Held(after, section) ==
    match BodyText(generated, section)
    case None => Held(base, section)
    case Some(body) => if Blank(body) && HasSection(Lines(base), section) then [] else Held(generated, section)
  }

  ghost predicate WrittenOver(overwrite: bool, base: string, generated: string, after: string, section: string) {
    if overwrite then Overwritten(base, generated, after, section) else Appended(base, generated, after, section)
  }

  /** Every section with none of three names reads as before. */
  ghost predicate OthersKept(base: string, after: string, a: string, b: string, c: string) {
    forall other :: SectionName(other) && !EqIgnoreCase(other, a) && !EqIgnoreCase(other, b) && !EqIgnoreCase(other, c)
                    ==> Held(after, other) == Held(base, other)
  }

  lemma FilledReads(base: string, generated: string, after: string, step: Step)
    requires SectionName(step.section) && BodyOf(Lines(generated), step.section).Some?
    requires FilledWell(Bares(Lines(base)), Lines(generated), step, Bares(Lines(after)))
    ensures WrittenOver(step.overwrite, base, generated, after, step.section)
  {
    var s := step.section;
    BaresHaveSection(Lines(base), s);
    if !step.overwrite {
      var before, g, now := Held(base, s), Held(generated, s), Held(after, s);
      var kept, added := BodyOf(Bares(Lines(base)), s), BodyOf(Bares(Lines(generated)), s);
      if kept.Some? && added.Some? {
        var k: nat :| BodyOf(Bares(Lines(after)), s) == Some(kept.value + Empties(k) + added.value);
        assert now == before + Empties(k) + g;
      } else {
        assert before + Empties(0) + g == if added.None? then before else g;
      }
    }
  }

  lemma UnfilledReads(base: string, generated: string, after: string, step: Step)
    requires BodyOf(Lines(generated), step.section).None? && SectionName(step.section)
    requires BodyOf(Bares(Lines(after)), step.section) == BodyOf(Bares(Lines(base)), step.section)
    ensures WrittenOver(step.overwrite, base, generated, after, step.section)
  {
    BaresRead(Lines(generated), step.section);
    if !step.overwrite {
      var before := Held(base, step.section);
      NothingHeld(generated, step.section);
      assert before + Empties(0) + Held(generated, step.section) == before;
    }
  }

  lemma NothingHeld(generated: string, section: string)
    requires BodyOf(Lines(generated), section).None? && SectionName(section)
    ensures Held(generated, section) == []
  {
    BaresRead(Lines(generated), section);
    var b := BodyLines(Lines(generated), section);
    if b.Some? { CoreOfBares(b.value); }
  }

  lemma StepUntouched(gen: seq<string>, plan: seq<Step>, i: nat)
    requires SectionNames(plan) && i < |plan| && BodyOf(gen, plan[i].section).None?
    ensures Untouched(plan, gen, plan[i].section)
  {
    forall j | 0 <= j < |plan|
      ensures Different(plan[j].section, plan[i].section) || BodyOf(gen, plan[j].section).None?
    {
      if j < i { assert Different(plan[j].section, plan[i].section); }
      if i < j { DifferentBack(plan[i].section, plan[j].section); }
    }
  }

  lemma DifferentBack(s: string, t: string)
    ensures Different(s, t) ==> Different(t, s)
  {
  }

  lemma StepReadsWell(base: string, generated: string, after: string, plan: seq<Step>, i: nat)
    requires SectionNames(plan) && i < |plan|
    requires MergedWell(Bares(Lines(base)), Lines(generated), plan, Bares(Lines(after)))
    ensures WrittenOver(plan[i].overwrite, base, generated, after, plan[i].section)
  {
    var gen, s := Lines(generated), plan[i].section;
    if BodyOf(gen, s).Some? {
      FilledReads(base, generated, after, plan[i]);
    } else {
      StepUntouched(gen, plan, i);
      UnfilledReads(base, generated, after, plan[i]);
    }
  }

  lemma ThreeSteps(base: string, generated: string, after: string, a: Step, b: Step, c: Step)
    requires SectionNames([a, b, c])
    requires MergedWell(Bares(Lines(base)), Lines(generated), [a, b, c], Bares(Lines(after)))
    ensures WrittenOver(a.overwrite, base, generated, after, a.section)
    ensures WrittenOver(b.overwrite, base, generated, after, b.section)
    ensures WrittenOver(c.overwrite, base, generated, after, c.section)
    ensures OthersKept(base, after, a.section, b.section, c.section)
  {
    var plan := [a, b, c];
    StepReadsWell(base, generated, after, plan, 0);
    StepReadsWell(base, generated, after, plan, 1);
    StepReadsWell(base, generated, after, plan, 2);
    forall other | SectionName(other) && !EqIgnoreCase(other, a.section) && !EqIgnoreCase(other, b.section)
                   && !EqIgnoreCase(other, c.section)
      ensures Held(after, other) == Held(base, other)
    {
      assert Untouched(plan, Lines(generated), other);
    }
  }

  /** The generated text has lines for one of three sections. */
  predicate FillsOne(generated: string, a: string, b: string, c: string) {
    BodyText(generated, a).Some? || BodyText(generated, b).Some? || BodyText(generated, c).Some?
  }

  lemma HasOneBody(generated: string, a: Step, b: Step, c: Step)
    ensures HasBody(generated, [a, b, c]) <==> FillsOne(generated, a.section, b.section, c.section)
  {
    var plan := [a, b, c];
    assert plan[0] == a && plan[1] == b && plan[2] == c;
  }

  /**
   Surge, Surfboard and Loon: nodes are always added behind the base's own; groups and rules take the place
   of the base's or are added behind them, as the setting says.
   */
  lemma SurgeSections(generated: string, target: Target, ruleBase: string, overwrite: bool)
    requires target == Surge || target == Surfboard || target == Loon
    requires var base := TrimEndChar(ruleBase, '\n');
             UsableBase(base) && FillsOne(generated, "[Proxy]", "[Proxy Group]", "[Rule]")
    ensures var base := TrimEndChar(ruleBase, '\n');
            var after := RuleBaseApplied(generated, target, Some(ruleBase), false, overwrite);
            Appended(base, generated, after, "[Proxy]") &&
            WrittenOver(overwrite, base, generated, after, "[Proxy Group]") &&
            WrittenOver(overwrite, base, generated, after, "[Rule]") &&
            OthersKept(base, after, "[Proxy]", "[Proxy Group]", "[Rule]")
  {
    var a, b, c := Step("[Proxy]", false), Step("[Proxy Group]", overwrite), Step("[Rule]", overwrite);
    SectionsWritten(generated, target, ruleBase, overwrite, a, b, c);
  }

  lemma SectionsWritten(generated: string, target: Target, ruleBase: string, overwrite: bool,
                        a: Step, b: Step, c: Step)
    requires target != OtherTarget && UsableBase(TrimEndChar(ruleBase, '\n'))
    requires Plan(target, overwrite) == [a, b, c]
    requires target == Quan || target == QuanX || FillsOne(generated, a.section, b.section, c.section)
    ensures var base := TrimEndChar(ruleBase, '\n');
            var after := RuleBaseApplied(generated, target, Some(ruleBase), false, overwrite);
            WrittenOver(a.overwrite, base, generated, after, a.section) &&
            WrittenOver(b.overwrite, base, generated, after, b.section) &&
            WrittenOver(c.overwrite, base, generated, after, c.section) &&
            OthersKept(base, after, a.section, b.section, c.section)
  {
    HasOneBody(generated, a, b, c);
    MergeReadsBack(generated, target, ruleBase, overwrite);
    PlanSections(target, overwrite);
    ThreeSteps(TrimEndChar(ruleBase, '\n'), generated,
               RuleBaseApplied(generated, target, Some(ruleBase), false, overwrite), a, b, c);
  }

  /** Mellow: endpoints are always added. */
  lemma MellowSections(generated: string, ruleBase: string, overwrite: bool)
    requires UsableBase(TrimEndChar(ruleBase, '\n'))
    requires FillsOne(generated, "[Endpoint]", "[EndpointGroup]", "[RoutingRule]")
    ensures var base := TrimEndChar(ruleBase, '\n');
            var after := RuleBaseApplied(generated, Mellow, Some(ruleBase), false, overwrite);
            Appended(base, generated, after, "[Endpoint]") &&
            WrittenOver(overwrite, base, generated, after, "[EndpointGroup]") &&
            WrittenOver(overwrite, base, generated, after, "[RoutingRule]") &&
            OthersKept(base, after, "[Endpoint]", "[EndpointGroup]", "[RoutingRule]")
  {
    var a, b := Step("[Endpoint]", false), Step("[EndpointGroup]", overwrite);
    SectionsWritten(generated, Mellow, ruleBase, overwrite, a, b, Step("[RoutingRule]", overwrite));
  }

  /** Quantumult: servers are always added; the merge is made even if nothing was generated for it. */
  lemma QuanSections(generated: string, ruleBase: string, overwrite: bool)
    requires UsableBase(TrimEndChar(ruleBase, '\n'))
    ensures var base := TrimEndChar(ruleBase, '\n');
            var after := RuleBaseApplied(generated, Quan, Some(ruleBase), false, overwrite);
            Appended(base, generated, after, "[SERVER]") &&
            WrittenOver(overwrite, base, generated, after, "[POLICY]") &&
            WrittenOver(overwrite, base, generated, after, "[TCP]") &&
            OthersKept(base, after, "[SERVER]", "[POLICY]", "[TCP]")
  {
    var a, b := Step("[SERVER]", false), Step("[POLICY]", overwrite);
    SectionsWritten(generated, Quan, ruleBase, overwrite, a, b, Step("[TCP]", overwrite));
  }

  /** Quantumult X: here it is the second section that is always added to. */
  lemma QuanXSections(generated: string, ruleBase: string, overwrite: bool)
    requires UsableBase(TrimEndChar(ruleBase, '\n'))
    ensures var base := TrimEndChar(ruleBase, '\n');
            var after := RuleBaseApplied(generated, QuanX, Some(ruleBase), false, overwrite);
            WrittenOver(overwrite, base, generated, after, "[policy]") &&
            Appended(base, generated, after, "[server_local]") &&
            WrittenOver(overwrite, base, generated, after, "[filter_local]") &&
            OthersKept(base, after, "[policy]", "[server_local]", "[filter_local]")
  {
    var a, b := Step("[policy]", overwrite), Step("[server_local]", false);
    SectionsWritten(generated, QuanX, ruleBase, overwrite, a, b, Step("[filter_local]", overwrite));
  }

  /** Where nothing is merged, the generated text is the result as it stands. */
  lemma NotMerged(generated: string, target: Target, ruleBase: Option<string>, nodeList: bool, overwrite: bool)
    requires || nodeList || ruleBase.None? || target == OtherTarget
             || Trim(TrimEndChar(ruleBase.value, '\n')) == ""
             || forall l :: l in Lines(TrimEndChar(ruleBase.value, '\n')) ==> !IsHeader(l)
    ensures RuleBaseApplied(generated, target, ruleBase, nodeList, overwrite) == generated
  {
  }

  /** A generated text without the sections of its target is put behind the base as a block. */
  lemma NothingToMerge(generated: string, target: Target, ruleBase: string, overwrite: bool)
    requires target != OtherTarget && UsableBase(TrimEndChar(ruleBase, '\n'))
    requires if target == Mellow then !FillsOne(generated, "[Endpoint]", "[EndpointGroup]", "[RoutingRule]")
             else if target == Quan then !FillsOne(generated, "[SERVER]", "[POLICY]", "[TCP]")
             else if target == QuanX then !FillsOne(generated, "[policy]", "[server_local]", "[filter_local]")
             else !FillsOne(generated, "[Proxy]", "[Proxy Group]", "[Rule]")
    ensures var base := TrimEndChar(ruleBase, '\n');
            RuleBaseApplied(generated, target, Some(ruleBase), false, overwrite) ==
            if target == Quan || target == QuanX || Trim(generated) == "" then base
            else base + "\n\n" + TrimChar(generated, '\n')
  {
    var base, plan := TrimEndChar(ruleBase, '\n'), Plan(target, overwrite);
    HasOneBody(generated, plan[0], plan[1], plan[2]);
    assert plan == [plan[0], plan[1], plan[2]];
    TrimEndTwice(ruleBase);
    if target == Quan || target == QuanX { NoBodyNoChange(base, generated, plan); }
  }

  lemma {:induction false} TrimEndTwice(s: string)
    ensures TrimEndChar(TrimEndChar(s, '\n'), '\n') == TrimEndChar(s, '\n')
  {
    if s != "" && s[|s| - 1] == '\n' { TrimEndTwice(s[..|s| - 1]); }
  }

  lemma {:induction false} NoBodyNoChange(base: string, generated: string, plan: seq<Step>)
    requires !HasBody(generated, plan)
    ensures Merge(base, generated, plan) == base
    decreases |plan|
  {
    if plan != [] {
      assert BodyText(generated, plan[0].section).None?;
      assert forall i :: 0 <= i < |plan[1..]| ==> plan[1..][i] == plan[i + 1];
      NoBodyNoChange(base, generated, plan[1..]);
    }
  }
}
