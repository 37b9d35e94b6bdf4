/**
 Lines without the carriage returns at their ends. Writing lines out and cutting them again strips a
 carriage return from every line but the last, so a text is compared with its edited form on these.
 */
module LineEnds {
  import opened Wrappers
  import opened Text
  import opened Sections
  import opened SectionMerge

  function Bare(line: string): (r: string)
    ensures r <= line
    ensures !EndsInCr(r)
  {
    TrimEndChar(line, '\r')
  }

  function Bares(ls: seq<string>): (r: seq<string>)
    ensures |r| == |ls| && forall i :: 0 <= i < |ls| ==> r[i] == Bare(ls[i])
  {
    seq(|ls|, i requires 0 <= i < |ls| => Bare(ls[i]))
  }

  lemma BaresConcat(a: seq<string>, b: seq<string>)
    ensures Bares(a + b) == Bares(a) + Bares(b)
  {
  }

  lemma BaresCons(line: string, rest: seq<string>)
    ensures Bares([line] + rest) == [Bare(line)] + Bares(rest)
  {
  }

  lemma BareOfPlain(ls: seq<string>)
    requires NoCr(ls)
    ensures Bares(ls) == ls
  {
    assert forall i :: 0 <= i < |ls| ==> ls[i] in ls;
  }

  lemma {:induction false} TrimOfBare(line: string)
    ensures Trim(Bare(line)) == Trim(line)
    ensures Bare(StripCr(line)) == Bare(line)
  {
    if EndsInCr(line) {
      TrimOfBare(line[..|line| - 1]);
      TrimStripsCr(line);
    }
  }

  lemma BareIsTheSame(line: string, section: string)
    ensures IsHeader(Bare(line)) == IsHeader(line) && Names(Bare(line), section) == Names(line, section)
    ensures Blank(Bare(line)) == Blank(line)
  {
    TrimOfBare(line);
  }

  predicate EndsEmpty(ls: seq<string>) {
    ls != [] && ls[|ls| - 1] == ""
  }

  lemma BaresOfCut(line: string, rest: string)
    requires '\n' !in line
    ensures Bares(Lines(line + "\n" + rest)) == [Bare(line)] + Bares(Lines(rest))
  {
    LinesOfCons(line, rest);
    TrimOfBare(line);
    BaresCons(StripCr(line), Lines(rest));
  }

  lemma EndsAlike(line: string, rest: seq<string>, again: seq<string>)
    requires rest != [] && Bares(rest) == if EndsEmpty(rest) then again + [""] else again
    ensures Bares([line] + rest) ==
            if EndsEmpty([line] + rest) then [Bare(line)] + again + [""] else [Bare(line)] + again
  {
    BaresCons(line, rest);
    assert ([line] + rest)[|rest|] == rest[|rest| - 1];
    assert [Bare(line)] + (again + [""]) == [Bare(line)] + again + [""];
  }

  /** Written out and cut again, lines are the same up to their ends, but for one empty line at the end. */
  lemma {:induction false} BaresOfJoin(ls: seq<string>)
    requires OneLine(ls)
    ensures var again := Bares(Lines(Join(ls, "\n")));
            Bares(ls) == if EndsEmpty(ls) then again + [""] else again
  {
    if |ls| == 1 {
      LinesOfLast(ls[0]);
    } else if ls != [] {
      var line, rest := ls[0], ls[1..];
      assert ls == [line] + rest && line in ls;
      BaresOfJoin(rest);
      BaresOfCut(line, Join(rest, "\n"));
      EndsAlike(line, rest, Bares(Lines(Join(rest, "\n"))));
    }
  }

  // ---------------------------------------------------------------- reading

  lemma {:induction false} BaresHaveSection(ls: seq<string>, section: string)
    requires SectionName(section)
    ensures HasSection(Bares(ls), section) == HasSection(ls, section)
  {
    HasSectionBody(ls, section);
    HasSectionBody(Bares(ls), section);
    BaresRead(ls, section);
  }

  lemma {:induction false} BaresUntilHeader(ls: seq<string>)
    ensures UntilHeader(Bares(ls)) == Bares(UntilHeader(ls))
  {
    if ls != [] {
      BareIsTheSame(ls[0], "");
      BaresUntilHeader(ls[1..]);
      assert Bares(ls)[1..] == Bares(ls[1..]);
      if !IsHeader(ls[0]) { BaresCons(ls[0], UntilHeader(ls[1..])); }
    }
  }

  lemma {:induction false} BaresRead(ls: seq<string>, section: string)
    ensures BodyLines(ls, section).None? <==> BodyLines(Bares(ls), section).None?
    ensures BodyLines(ls, section).Some? ==>
              BodyLines(Bares(ls), section) == Some(Bares(BodyLines(ls, section).value))
  {
    if ls != [] {
      BareIsTheSame(ls[0], section);
      assert Bares(ls)[1..] == Bares(ls[1..]);
      if Names(ls[0], section) { BaresUntilHeader(ls[1..]); } else { BaresRead(ls[1..], section); }
    }
  }

  lemma BaresFree(ls: seq<string>)
    requires HeaderFree(ls)
    ensures HeaderFree(Bares(ls))
  {
    forall l | l in Bares(ls) ensures !IsHeader(l) {
      var i :| 0 <= i < |ls| && l == Bare(ls[i]);
      BareIsTheSame(ls[i], "");
      assert ls[i] in ls;
    }
  }

  lemma CoreOfBares(ls: seq<string>)
    ensures Core(Bares(Core(ls))) == Core(Bares(ls))
  {
    var k := DropFrontSuffix(ls);
    var j := DropBackPrefix(DropFront(ls));
    BaresConcat(Empties(k), DropFront(ls));
    BaresConcat(Core(ls), Empties(j));
    assert Bares(Empties(k)) == Empties(k) && Bares(Empties(j)) == Empties(j);
    EmptiesHaveNoCore(k);
    EmptiesHaveNoCore(j);
    var m := CoreOfConcat(Empties(k), Bares(DropFront(ls)));
    m := CoreOfConcat(Bares(Core(ls)), Empties(j));
  }

  // ---------------------------------------------------------------- editing

  lemma {:induction false} BaresReplace(ls: seq<string>, section: string, body: seq<string>, skipping: bool)
    ensures Bares(ReplaceScan(ls, section, body, skipping)) == ReplaceScan(Bares(ls), section, Bares(body), skipping)
  {
    if ls != [] {
      var line, rest := ls[0], ls[1..];
      var next := if IsHeader(line) then Names(line, section) else skipping;
      assert ls == [line] + rest;
      BareIsTheSame(line, section);
      BaresReplace(rest, section, body, next);
      BaresCons(line, rest);
      ReplaceScanStep(line, rest, section, body, skipping);
      ReplaceScanStep(Bare(line), Bares(rest), section, Bares(body), skipping);
      BaresConcat(Contribution(line, section, body, skipping), ReplaceScan(rest, section, body, next));
      BaresConcat([line], body);
      assert Bares([line]) == [Bare(line)];
    }
  }

  function BareOrNone(last: Option<string>): Option<string> {
    if last.None? then None else Some(Bare(last.value))
  }

  lemma BaresPush(body: seq<string>, last: string)
    ensures Bares(PushBody(body, last)) == PushBody(Bares(body), Bare(last))
  {
    BareIsTheSame(last, "");
    BaresCons("", body);
  }

  lemma BaresNewSection(section: string, body: seq<string>, last: Option<string>)
    requires SectionName(section)
    ensures Bares(NewSection(section, body, last)) == NewSection(section, Bares(body), BareOrNone(last))
  {
    BaresPush(body, section);
    assert Bare(section) == section;
    if last.Some? { BareIsTheSame(last.value, ""); }
    var gap := if last.None? || Blank(last.value) then [] else [""];
    BaresConcat(gap + [section], PushBody(body, section));
    assert Bares(gap + [section]) == gap + [section];
  }

  lemma {:induction false} BaresAppend(ls: seq<string>, section: string, body: seq<string>,
                                       inTarget: bool, inserted: bool, last: Option<string>)
    requires SectionName(section) && (inTarget ==> last.Some?)
    ensures Bares(AppendScan(ls, section, body, inTarget, inserted, last))
            == AppendScan(Bares(ls), section, Bares(body), inTarget, inserted, BareOrNone(last))
  {
    if inTarget { BaresPush(body, last.value); }
    if ls == [] {
      BaresNewSection(section, body, last);
    } else {
      var line, rest := ls[0], ls[1..];
      BareIsTheSame(line, section);
      assert Bares(ls)[1..] == Bares(rest);
      if inTarget && IsHeader(line) {
        var more := AppendScan(rest, section, body, Names(line, section), true, Some(line));
        BaresAppend(rest, section, body, Names(line, section), true, Some(line));
        BaresConcat(PushBody(body, last.value), [line] + more);
        BaresCons(line, more);
      } else {
        var next := inTarget || Names(line, section);
        BaresAppend(rest, section, body, next, inserted, Some(line));
        BaresCons(line, AppendScan(rest, section, body, next, inserted, Some(line)));
      }
    }
  }

  /** An empty line at the end of a text is in no body. */
  lemma {:induction false} LastEmptyLine(ls: seq<string>, section: string)
    requires SectionName(section)
    ensures BodyOf(ls + [""], section) == BodyOf(ls, section)
    ensures HasSection(ls + [""], section) == HasSection(ls, section)
  {
    EmptyIsNoHeader();
    EmptyBehind(ls, section);
    if BodyLines(ls, section).Some? {
      EmptiesHaveNoCore(1);
      assert Empties(1) == [""] + Empties(0) == [""];
      var b := BodyLines(ls, section).value;
      var k := CoreOfConcat(b, [""]);
    }
  }

  lemma {:induction false} EmptyBehind(ls: seq<string>, section: string)
    requires SectionName(section)
    ensures BodyLines(ls, section).None? ==> BodyLines(ls + [""], section).None?
    ensures BodyLines(ls, section).Some? ==>
              BodyLines(ls + [""], section) == BodyLines(ls, section) ||
              BodyLines(ls + [""], section) == Some(BodyLines(ls, section).value + [""])
  {
    if ls == [] {
      if Names("", section) { NamesIsHeader("", section); }
      assert [""][1..] == [];
    } else {
      assert (ls + [""])[1..] == ls[1..] + [""];
      if Names(ls[0], section) { FrontWithEmpty(ls[1..]); } else { EmptyBehind(ls[1..], section); }
    }
  }

  lemma {:induction false} FrontWithEmpty(ls: seq<string>)
    ensures UntilHeader(ls + [""]) == UntilHeader(ls) || UntilHeader(ls + [""]) == UntilHeader(ls) + [""]
  {
    EmptyIsNoHeader();
    if ls == [] {
      assert [""][1..] == [];
    } else {
      assert (ls + [""])[1..] == ls[1..] + [""];
      FrontWithEmpty(ls[1..]);
    }
  }
}
