/**
 The three section editors of the text configurations, as functions on lines. A section starts at a
 line that names it and ends before the next header.
 */
module Sections {
  import opened Wrappers
  import opened Text

  predicate IsHeader(line: string) {
    var t := Trim(line);
    |t| > 2 && t[0] == '[' && t[|t| - 1] == ']'
  }

  predicate Blank(line: string) {
    Trim(line) == ""
  }

  predicate Names(line: string, section: string) {
    EqIgnoreCase(Trim(line), section)
  }

  /** A section name as the editors are called with: a header without white space around it. */
  predicate SectionName(section: string) {
    Trimmed(section) && IsHeader(section) && '\n' !in section
  }

  predicate HeaderFree(ls: seq<string>) {
    forall l :: l in ls ==> !IsHeader(l)
  }

  lemma NamesIsHeader(line: string, section: string)
    requires SectionName(section) && Names(line, section)
    ensures IsHeader(line)
  {
    TrimOfTrimmed(section);
    var t := Trim(line);
    assert |Lower(t)| == |Lower(section)|;
    assert LowerChar(t[0]) == Lower(t)[0] == Lower(section)[0];
    assert LowerChar(t[|t| - 1]) == Lower(t)[|t| - 1] == Lower(section)[|t| - 1];
  }

  // ---------------------------------------------------------------- reading

  function UntilHeader(ls: seq<string>): seq<string> {
    if ls == [] || IsHeader(ls[0]) then [] else [ls[0]] + UntilHeader(ls[1..])
  }

  /** The lines of the first section of that name. */
  function BodyLines(ls: seq<string>, section: string): Option<seq<string>> {
    if ls == [] then None
    else if Names(ls[0], section) then Some(UntilHeader(ls[1..]))
    else BodyLines(ls[1..], section)
  }

  function DropFront(ls: seq<string>): seq<string> {
    if ls == [] || ls[0] != "" then ls else DropFront(ls[1..])
  }

  function DropBack(ls: seq<string>): (r: seq<string>)
    ensures r <= ls
    ensures r == [] || r[|r| - 1] != ""
  {
    if ls == [] || ls[|ls| - 1] != "" then ls else DropBack(ls[..|ls| - 1])
  }

  /** A body without the empty lines around it. */
  function Core(ls: seq<string>): seq<string> {
    DropBack(DropFront(ls))
  }

  function CoreOrNone(ls: seq<string>): Option<seq<string>> {
    if Core(ls) == [] then None else Some(Core(ls))
  }

  /** `section_body`: the lines of the section without the empty ones around them, if any are left. */
  function BodyOf(ls: seq<string>, section: string): Option<seq<string>> {
    match BodyLines(ls, section)
    case None => None
    case Some(b) => CoreOrNone(b)
  }

  // ---------------------------------------------------------------- replacing

  function ReplaceScan(ls: seq<string>, section: string, body: seq<string>, skipping: bool): seq<string> {
    if ls == [] then []
    else if IsHeader(ls[0]) && Names(ls[0], section) then
      [ls[0]] + (body + ReplaceScan(ls[1..], section, body, true))
    else if IsHeader(ls[0]) || !skipping then
      [ls[0]] + ReplaceScan(ls[1..], section, body, false)
    else
      ReplaceScan(ls[1..], section, body, true)
  }

  predicate HasSection(ls: seq<string>, section: string) {
    exists l :: l in ls && IsHeader(l) && Names(l, section)
  }

  /** `found` and `atEnd` are what the body contributes to a section that is there and to a new one. */
  function ReplaceLines(ls: seq<string>, section: string, found: seq<string>, atEnd: seq<string>): seq<string> {
    if HasSection(ls, Trim(section)) then ReplaceScan(ls, Trim(section), found, false)
    else ls + (if ls != [] && ls[|ls| - 1] != "" then [""] else []) + [section] + atEnd
  }

  // ---------------------------------------------------------------- appending

  function PushBody(body: seq<string>, last: string): seq<string> {
    if Blank(last) then body else [""] + body
  }

  /** What is put at the end of the text for a section that is not there. */
  function NewSection(section: string, body: seq<string>, last: Option<string>): seq<string> {
    (if last.None? || Blank(last.value) then [] else [""]) + [section] + PushBody(body, section)
  }

  function AppendScan(ls: seq<string>, section: string, body: seq<string>,
                      inTarget: bool, inserted: bool, last: Option<string>): seq<string>
    requires inTarget ==> last.Some?
  {
    if ls == [] then
      if inserted then []
      else if inTarget then PushBody(body, last.value)
      else NewSection(section, body, last)
    else if inTarget && IsHeader(ls[0]) then
      PushBody(body, last.value) +
      ([ls[0]] + AppendScan(ls[1..], section, body, Names(ls[0], section), true, Some(ls[0])))
    else
      [ls[0]] + AppendScan(ls[1..], section, body, inTarget || Names(ls[0], section), inserted, Some(ls[0]))
  }

  function AppendLines(ls: seq<string>, section: string, body: seq<string>): seq<string> {
    AppendScan(ls, section, body, false, false, None)
  }

  // ---------------------------------------------------------------- reading a body off lines put together

  lemma {:induction false} UntilHeaderOf(b: seq<string>, rest: seq<string>)
    requires HeaderFree(b)
    ensures UntilHeader(b + rest) == b + UntilHeader(rest)
  {
    if b == [] {
      assert b + rest == rest;
    } else {
      assert (b + rest)[1..] == b[1..] + rest && b[0] in b;
      UntilHeaderOf(b[1..], rest);
    }
  }

  lemma {:induction false} UntilHeaderIsFree(ls: seq<string>)
    ensures HeaderFree(UntilHeader(ls)) && UntilHeader(ls) <= ls
  {
    if ls != [] && !IsHeader(ls[0]) { UntilHeaderIsFree(ls[1..]); }
  }

  lemma {:induction false} BodyLinesSkip(b: seq<string>, rest: seq<string>, section: string)
    requires SectionName(section) && HeaderFree(b)
    ensures BodyLines(b + rest, section) == BodyLines(rest, section)
  {
    if b == [] {
      assert b + rest == rest;
    } else {
      assert (b + rest)[1..] == b[1..] + rest && b[0] in b;
      if Names(b[0], section) { NamesIsHeader(b[0], section); }
      BodyLinesSkip(b[1..], rest, section);
    }
  }

  lemma {:induction false} BodyLinesFree(ls: seq<string>, section: string)
    requires BodyLines(ls, section).Some?
    ensures HeaderFree(BodyLines(ls, section).value)
    ensures forall l :: l in BodyLines(ls, section).value ==> l in ls
  {
    if Names(ls[0], section) { UntilHeaderIsFree(ls[1..]); } else { BodyLinesFree(ls[1..], section); }
  }

  lemma {:induction false} HasSectionBody(ls: seq<string>, section: string)
    requires SectionName(section)
    ensures HasSection(ls, section) <==> BodyLines(ls, section).Some?
  {
    if ls != [] {
      HasSectionBody(ls[1..], section);
      assert ls == [ls[0]] + ls[1..];
      if Names(ls[0], section) { NamesIsHeader(ls[0], section); }
    }
  }

  // ---------------------------------------------------------------- laws of replacing

  predicate Different(s: string, t: string) {
    !EqIgnoreCase(s, t)
  }

  lemma NamesOne(line: string, s: string, t: string)
    requires Names(line, s) && Names(line, t)
    ensures !Different(s, t)
  {
  }

  lemma {:induction false} ReplaceScanBegins(ls: seq<string>, section: string, body: seq<string>)
    ensures UntilHeader(ReplaceScan(ls, section, body, true)) == []
  {
    if ls != [] && !IsHeader(ls[0]) { ReplaceScanBegins(ls[1..], section, body); }
  }

  /** What replacing puts into a section is what reading takes out of it. */
  lemma {:induction false} ReplaceThenRead(ls: seq<string>, section: string, body: seq<string>, skipping: bool)
    requires SectionName(section) && HeaderFree(body) && BodyLines(ls, section).Some?
    ensures BodyLines(ReplaceScan(ls, section, body, skipping), section) == Some(body)
  {
    if Names(ls[0], section) {
      NamesIsHeader(ls[0], section);
      var rest := ReplaceScan(ls[1..], section, body, true);
      assert ([ls[0]] + (body + rest))[1..] == body + rest;
      UntilHeaderOf(body, rest);
      ReplaceScanBegins(ls[1..], section, body);
      assert body + [] == body;
    } else {
      ReplaceThenRead(ls[1..], section, body, if IsHeader(ls[0]) then false else skipping);
    }
  }

  lemma {:induction false} ReplaceKeepsFront(ls: seq<string>, section: string, body: seq<string>)
    ensures UntilHeader(ReplaceScan(ls, section, body, false)) == UntilHeader(ls)
  {
    if ls != [] && !IsHeader(ls[0]) { ReplaceKeepsFront(ls[1..], section, body); }
  }

  /** Every other section keeps its lines. */
  lemma {:induction false} ReplaceFrame(ls: seq<string>, section: string, body: seq<string>, skipping: bool,
                                        other: string)
    requires SectionName(section) && SectionName(other) && Different(section, other) && HeaderFree(body)
    ensures BodyLines(ReplaceScan(ls, section, body, skipping), other) == BodyLines(ls, other)
  {
    if ls != [] {
      var next := ReplaceScan(ls[1..], section, body, if IsHeader(ls[0]) then Names(ls[0], section) else skipping);
      if IsHeader(ls[0]) && Names(ls[0], section) {
        assert ([ls[0]] + (body + next))[1..] == body + next;
        BodyLinesSkip(body, next, other);
        ReplaceFrame(ls[1..], section, body, true, other);
      } else {
        if Names(ls[0], other) {
          NamesIsHeader(ls[0], other);
          ReplaceKeepsFront(ls[1..], section, body);
        }
        ReplaceFrame(ls[1..], section, body, !IsHeader(ls[0]) && skipping, other);
      }
    }
  }

  lemma {:induction false} ReplaceOverBody(b: seq<string>, rest: seq<string>, section: string, body: seq<string>,
                                           skipping: bool)
    requires HeaderFree(b)
    ensures var after := ReplaceScan(rest, section, body, skipping);
            ReplaceScan(b + rest, section, body, skipping) == if skipping then after else b + after
  {
    if b == [] {
      assert b + rest == rest;
    } else {
      var line, more := b[0], b[1..];
      assert b == [line] + more && line in b;
      ReplaceOverBody(more, rest, section, body, skipping);
      ReplaceAtLine(line, more + rest, section, body, skipping);
      Regroup([line], more, rest);
      Regroup([line], more, ReplaceScan(rest, section, body, skipping));
    }
  }

  lemma ReplaceAtLine(line: string, rest: seq<string>, section: string, body: seq<string>, skipping: bool)
    requires !IsHeader(line)
    ensures var after := ReplaceScan(rest, section, body, skipping);
            ReplaceScan([line] + rest, section, body, skipping) == if skipping then after else [line] + after
  {
    assert ([line] + rest)[1..] == rest;
  }

  lemma ReplaceAtName(head: string, rest: seq<string>, section: string, body: seq<string>, skipping: bool)
    requires IsHeader(head) && Names(head, section)
    ensures ReplaceScan([head] + rest, section, body, skipping)
            == [head] + (body + ReplaceScan(rest, section, body, true))
  {
    assert ([head] + rest)[1..] == rest;
  }

  lemma ReplaceAtOther(head: string, rest: seq<string>, section: string, body: seq<string>, skipping: bool)
    requires !(IsHeader(head) && Names(head, section)) && (IsHeader(head) || !skipping)
    ensures ReplaceScan([head] + rest, section, body, skipping) == [head] + ReplaceScan(rest, section, body, false)
  {
    assert ([head] + rest)[1..] == rest;
  }

  /** Replacing twice is replacing once. */
  lemma {:induction false} ReplaceTwice(ls: seq<string>, section: string, body: seq<string>, skipping: bool,
                                        once: seq<string>)
    requires HeaderFree(body) && once == ReplaceScan(ls, section, body, skipping)
    ensures ReplaceScan(once, section, body, skipping) == once
  {
    if ls != [] {
      if IsHeader(ls[0]) && Names(ls[0], section) {
        var rest := ReplaceScan(ls[1..], section, body, true);
        ReplaceTwice(ls[1..], section, body, true, rest);
        ReplaceAtName(ls[0], body + rest, section, body, skipping);
        ReplaceOverBody(body, rest, section, body, true);
      } else if IsHeader(ls[0]) || !skipping {
        var rest := ReplaceScan(ls[1..], section, body, false);
        ReplaceTwice(ls[1..], section, body, false, rest);
        ReplaceAtOther(ls[0], rest, section, body, skipping);
      } else {
        ReplaceTwice(ls[1..], section, body, true, once);
      }
    }
  }

  /** Whether the scan is skipping when it reaches the end: the text's last section is the one replaced. */
  predicate SkipsAtEnd(ls: seq<string>, section: string, skipping: bool) {
    if ls == [] then skipping
    else SkipsAtEnd(ls[1..], section, if IsHeader(ls[0]) then Names(ls[0], section) else skipping)
  }

  predicate EndsIn(ls: seq<string>, section: string) {
    SkipsAtEnd(ls, section, false)
  }

  /** What one line comes to in the scan. */
  function Contribution(line: string, section: string, body: seq<string>, skipping: bool): seq<string> {
    if IsHeader(line) && Names(line, section) then [line] + body
    else if IsHeader(line) || !skipping then [line]
    else []
  }

  lemma ReplaceScanStep(line: string, rest: seq<string>, section: string, body: seq<string>, skipping: bool)
    ensures ReplaceScan([line] + rest, section, body, skipping) ==
            Contribution(line, section, body, skipping) +
            ReplaceScan(rest, section, body, if IsHeader(line) then Names(line, section) else skipping)
  {
    assert ([line] + rest)[1..] == rest;
  }

  /** A scan over lines put together. */
  lemma {:induction false} ReplaceScanConcat(ls: seq<string>, rest: seq<string>, section: string, body: seq<string>,
                                             skipping: bool)
    ensures ReplaceScan(ls + rest, section, body, skipping) ==
            ReplaceScan(ls, section, body, skipping) +
            ReplaceScan(rest, section, body, SkipsAtEnd(ls, section, skipping))
  {
    if ls == [] {
      assert ls + rest == rest;
    } else {
      var line, more := ls[0], ls[1..];
      var next := if IsHeader(line) then Names(line, section) else skipping;
      assert ls == [line] + more && ls + rest == [line] + (more + rest);
      ReplaceScanConcat(more, rest, section, body, next);
      ReplaceScanStep(line, more + rest, section, body, skipping);
      ReplaceScanStep(line, more, section, body, skipping);
      Regroup(Contribution(line, section, body, skipping), ReplaceScan(more, section, body, next),
                   ReplaceScan(rest, section, body, SkipsAtEnd(ls, section, skipping)));
    }
  }

  /** Replacing two different sections can be done in either order. */
  lemma {:induction false} ReplaceCommutes(ls: seq<string>, s: string, b: seq<string>, t: string, c: seq<string>,
                                           inS: bool, inT: bool)
    requires Different(s, t) && HeaderFree(b) && HeaderFree(c) && !(inS && inT)
    ensures ReplaceScan(ReplaceScan(ls, s, b, inS), t, c, inT) == ReplaceScan(ReplaceScan(ls, t, c, inT), s, b, inS)
  {
    if ls != [] {
      var head, rest := ls[0], ls[1..];
      if IsHeader(head) && Names(head, s) {
        ReplaceCommutes(rest, s, b, t, c, true, false);
        var x := ReplaceScan(rest, s, b, true);
        assert ([head] + (b + x))[1..] == b + x;
        ReplaceOverBody(b, x, t, c, false);
        var y := ReplaceScan(rest, t, c, false);
        assert ([head] + y)[1..] == y;
      } else if IsHeader(head) && Names(head, t) {
        ReplaceCommutes(rest, s, b, t, c, false, true);
        var x := ReplaceScan(rest, t, c, true);
        assert ([head] + (c + x))[1..] == c + x;
        ReplaceOverBody(c, x, s, b, false);
        var y := ReplaceScan(rest, s, b, false);
        assert ([head] + y)[1..] == y;
      } else {
        ReplaceCommutes(rest, s, b, t, c, !IsHeader(head) && inS, !IsHeader(head) && inT);
      }
    }
  }

  // ---------------------------------------------------------------- laws of appending

  function Unmarks(n: nat): (mask: seq<bool>)
    ensures |mask| == n && forall i :: 0 <= i < n ==> !mask[i]
  {
    seq(n, _ => false)
  }

  /** Which of the lines that appending gives are lines it was given. */
  function AppendMask(ls: seq<string>, section: string, body: seq<string>,
                      inTarget: bool, inserted: bool, last: Option<string>): (mask: seq<bool>)
    requires inTarget ==> last.Some?
    ensures |mask| == |AppendScan(ls, section, body, inTarget, inserted, last)|
  {
    if ls == [] then Unmarks(|AppendScan(ls, section, body, inTarget, inserted, last)|)
    else if inTarget && IsHeader(ls[0]) then
      Unmarks(|PushBody(body, last.value)|) +
      ([true] + AppendMask(ls[1..], section, body, Names(ls[0], section), true, Some(ls[0])))
    else
      [true] + AppendMask(ls[1..], section, body, inTarget || Names(ls[0], section), inserted, Some(ls[0]))
  }

  function Marked(ls: seq<string>, mask: seq<bool>): seq<string>
    requires |ls| == |mask|
  {
    if ls == [] then [] else (if mask[0] then [ls[0]] else []) + Marked(ls[1..], mask[1..])
  }

  lemma {:induction false} MarkedConcat(a: seq<string>, m: seq<bool>, b: seq<string>, n: seq<bool>)
    requires |a| == |m| && |b| == |n|
    ensures Marked(a + b, m + n) == Marked(a, m) + Marked(b, n)
  {
    if a == [] {
      assert a + b == b && m + n == n;
    } else {
      assert (a + b)[1..] == a[1..] + b && (m + n)[1..] == m[1..] + n;
      MarkedConcat(a[1..], m[1..], b, n);
      var first := if m[0] then [a[0]] else [];
      assert Marked(a + b, m + n) == first + Marked(a[1..] + b, m[1..] + n);
      assert first + (Marked(a[1..], m[1..]) + Marked(b, n)) == (first + Marked(a[1..], m[1..])) + Marked(b, n);
    }
  }

  lemma {:induction false} MarkedNone(a: seq<string>, m: seq<bool>)
    requires |a| == |m| && forall i :: 0 <= i < |m| ==> !m[i]
    ensures Marked(a, m) == []
  {
    if a != [] { MarkedNone(a[1..], m[1..]); }
  }

  /** Appending loses nothing: without the lines it adds, its result is what it was given, in order. */
  lemma {:induction false} AppendLossless(ls: seq<string>, section: string, body: seq<string>,
                                          inTarget: bool, inserted: bool, last: Option<string>)
    requires inTarget ==> last.Some?
    ensures var out := AppendScan(ls, section, body, inTarget, inserted, last);
            var mask := AppendMask(ls, section, body, inTarget, inserted, last);
            Marked(out, mask) == ls
  {
    if ls == [] {
      MarkedNone(AppendScan(ls, section, body, inTarget, inserted, last),
                 AppendMask(ls, section, body, inTarget, inserted, last));
    } else if inTarget && IsHeader(ls[0]) {
      var next := Names(ls[0], section);
      AppendLossless(ls[1..], section, body, next, true, Some(ls[0]));
      MarkedStep(PushBody(body, last.value), ls[0],
                 AppendScan(ls[1..], section, body, next, true, Some(ls[0])),
                 AppendMask(ls[1..], section, body, next, true, Some(ls[0])));
    } else {
      var next := inTarget || Names(ls[0], section);
      AppendLossless(ls[1..], section, body, next, inserted, Some(ls[0]));
      MarkedOne(ls[0], AppendScan(ls[1..], section, body, next, inserted, Some(ls[0])),
                AppendMask(ls[1..], section, body, next, inserted, Some(ls[0])));
    }
  }

  lemma MarkedOne(line: string, out: seq<string>, mask: seq<bool>)
    requires |out| == |mask|
    ensures Marked([line] + out, [true] + mask) == [line] + Marked(out, mask)
  {
    assert ([line] + out)[1..] == out && ([true] + mask)[1..] == mask;
  }

  lemma MarkedStep(added: seq<string>, line: string, out: seq<string>, mask: seq<bool>)
    requires |out| == |mask|
    ensures var no: seq<bool> := Unmarks(|added|);
            Marked(added + ([line] + out), no + ([true] + mask)) == [line] + Marked(out, mask)
  {
    var no: seq<bool> := Unmarks(|added|);
    MarkedConcat(added, no, [line] + out, [true] + mask);
    MarkedNone(added, no);
    MarkedOne(line, out, mask);
  }

  function Flip(mask: seq<bool>): (r: seq<bool>)
    ensures |r| == |mask| && forall i :: 0 <= i < |mask| ==> r[i] == !mask[i]
  {
    seq(|mask|, i requires 0 <= i < |mask| => !mask[i])
  }

  /** The body, pushed behind each of these lines. */
  function Pushed(body: seq<string>, lasts: seq<string>): seq<string> {
    if lasts == [] then [] else PushBody(body, lasts[0]) + Pushed(body, lasts[1..])
  }

  /** How often the section's name occurs. */
  function Occurrences(ls: seq<string>, section: string): nat {
    if ls == [] then 0 else (if Names(ls[0], section) then 1 else 0) + Occurrences(ls[1..], section)
  }

  lemma MarkedAll(a: seq<string>, m: seq<bool>)
    requires |a| == |m| && forall i :: 0 <= i < |m| ==> m[i]
    ensures Marked(a, m) == a
  {
  }

  lemma FlipConcat(a: seq<bool>, b: seq<bool>)
    ensures Flip(a + b) == Flip(a) + Flip(b)
  {
  }

  /** A line that was given is not among the added ones. */
  lemma NoneAdded(line: string, out: seq<string>, mask: seq<bool>)
    requires |out| == |mask|
    ensures Marked([line] + out, Flip([true] + mask)) == Marked(out, Flip(mask))
  {
    FlipConcat([true], mask);
    var all, flags := [line] + out, Flip([true] + mask);
    assert flags == [false] + Flip(mask) && all[1..] == out && flags[1..] == Flip(mask);
    assert Marked(all, flags) == [] + Marked(out, Flip(mask));
  }

  lemma UnmarkedStep(added: seq<string>, line: string, out: seq<string>, mask: seq<bool>)
    requires |out| == |mask|
    ensures var no: seq<bool> := Unmarks(|added|);
            Marked(added + ([line] + out), Flip(no + ([true] + mask))) == added + Marked(out, Flip(mask))
  {
    var no: seq<bool> := Unmarks(|added|);
    FlipConcat(no, [true] + mask);
    MarkedConcat(added, Flip(no), [line] + out, Flip([true] + mask));
    MarkedAll(added, Flip(no));
    NoneAdded(line, out, mask);
  }

  lemma PushedCons(body: seq<string>, last: string, more: seq<string>)
    ensures Pushed(body, [last] + more) == PushBody(body, last) + Pushed(body, more)
  {
    assert ([last] + more)[1..] == more;
  }

  lemma AddedAtEnd(section: string, body: seq<string>, inTarget: bool, inserted: bool, last: Option<string>)
    requires inTarget ==> last.Some?
    ensures var out := AppendScan([], section, body, inTarget, inserted, last);
            Marked(out, Flip(AppendMask([], section, body, inTarget, inserted, last))) == out &&
            (inTarget && !inserted ==> out == Pushed(body, [last.value])) && (inserted ==> out == Pushed(body, []))
  {
    MarkedAll(AppendScan([], section, body, inTarget, inserted, last),
              Flip(AppendMask([], section, body, inTarget, inserted, last)));
    if inTarget {
      PushedCons(body, last.value, []);
      assert PushBody(body, last.value) + [] == PushBody(body, last.value) && [last.value] + [] == [last.value];
    }
  }

  /**
   What appending adds: the body behind the lines of the section, once if the section occurs once, or a
   new section at the end if it does not occur.
   */
  lemma {:induction false} AppendAdds(ls: seq<string>, section: string, body: seq<string>,
                                      inTarget: bool, inserted: bool, last: Option<string>)
    returns (lasts: seq<string>)
    requires SectionName(section) && (inTarget ==> last.Some?)
    ensures var out := AppendScan(ls, section, body, inTarget, inserted, last);
            var mask := AppendMask(ls, section, body, inTarget, inserted, last);
            var added := Marked(out, Flip(mask));
            if inTarget || inserted || Occurrences(ls, section) > 0 then
              added == Pushed(body, lasts) &&
              |lasts| <= Occurrences(ls, section) + (if inTarget then 1 else 0) &&
              (!inserted ==> |lasts| >= 1)
            else added == NewSection(section, body, if ls == [] then last else Some(ls[|ls| - 1]))
    decreases |ls|
  {
    if ls == [] {
      AddedAtEnd(section, body, inTarget, inserted, last);
      lasts := if inTarget && !inserted then [last.value] else [];
    } else {
      var line, rest := ls[0], ls[1..];
      if inTarget && IsHeader(line) {
        var next := Names(line, section);
        var more := AppendAdds(rest, section, body, next, true, Some(line));
        lasts := [last.value] + more;
        PushedCons(body, last.value, more);
        UnmarkedStep(PushBody(body, last.value), line, AppendScan(rest, section, body, next, true, Some(line)),
                     AppendMask(rest, section, body, next, true, Some(line)));
      } else {
        var next := inTarget || Names(line, section);
        lasts := AppendAdds(rest, section, body, next, inserted, Some(line));
        NoneAdded(line, AppendScan(rest, section, body, next, inserted, Some(line)),
                  AppendMask(rest, section, body, next, inserted, Some(line)));
        if Names(line, section) { NamesIsHeader(line, section); }
      }
    }
  }

  function LastOr(ls: seq<string>, head: string): string {
    if ls == [] then head else ls[|ls| - 1]
  }

  lemma HeaderFreePush(body: seq<string>, last: string)
    requires HeaderFree(body)
    ensures HeaderFree(PushBody(body, last))
  {
  }

  lemma PushThenHeader(ls: seq<string>, section: string, body: seq<string>, last: string)
    requires HeaderFree(body) && (ls == [] || IsHeader(ls[0]))
    ensures UntilHeader(AppendScan(ls, section, body, true, false, Some(last))) == PushBody(body, last)
  {
    var push := PushBody(body, last);
    HeaderFreePush(body, last);
    assert push + [] == push;
    if ls == [] {
      UntilHeaderOf(push, []);
    } else {
      UntilHeaderOf(push, [ls[0]] + AppendScan(ls[1..], section, body, Names(ls[0], section), true, Some(ls[0])));
    }
  }

  lemma {:induction false} AppendInTarget(ls: seq<string>, section: string, body: seq<string>, last: string)
    requires SectionName(section) && HeaderFree(body)
    ensures UntilHeader(AppendScan(ls, section, body, true, false, Some(last)))
            == UntilHeader(ls) + PushBody(body, LastOr(UntilHeader(ls), last))
  {
    if ls == [] || IsHeader(ls[0]) {
      PushThenHeader(ls, section, body, last);
    } else {
      var rest := AppendScan(ls[1..], section, body, true, false, Some(ls[0]));
      var front := UntilHeader(ls[1..]);
      AppendInTarget(ls[1..], section, body, ls[0]);
      UntilHeaderCons(ls[0], rest);
      assert LastOr([ls[0]] + front, last) == LastOr(front, ls[0]);
    }
  }

  lemma UntilHeaderCons(line: string, rest: seq<string>)
    requires !IsHeader(line)
    ensures UntilHeader([line] + rest) == [line] + UntilHeader(rest)
  {
    assert ([line] + rest)[1..] == rest;
  }

  /** Appending puts the body behind what the section held, with an empty line between unless one is there. */
  lemma {:induction false} AppendThenRead(ls: seq<string>, section: string, body: seq<string>, last: Option<string>)
    requires SectionName(section) && HeaderFree(body) && BodyLines(ls, section).Some?
    ensures var b := BodyLines(ls, section).value;
            var after := BodyLines(AppendScan(ls, section, body, false, false, last), section);
            after == Some(b + (if b != [] && Trim(b[|b| - 1]) == "" then body else [""] + body))
  {
    var rest := AppendScan(ls[1..], section, body, Names(ls[0], section), false, Some(ls[0]));
    assert ([ls[0]] + rest)[1..] == rest;
    if Names(ls[0], section) {
      AppendInTarget(ls[1..], section, body, ls[0]);
      NamesIsHeader(ls[0], section);
    } else {
      AppendThenRead(ls[1..], section, body, Some(ls[0]));
    }
  }

  lemma {:induction false} AppendMissing(ls: seq<string>, section: string, body: seq<string>, last: Option<string>)
    requires BodyLines(ls, section).None?
    ensures AppendScan(ls, section, body, false, false, last)
            == ls + NewSection(section, body, if ls == [] then last else Some(ls[|ls| - 1]))
  {
    if ls != [] {
      AppendMissing(ls[1..], section, body, Some(ls[0]));
      var tail := NewSection(section, body, Some(ls[|ls| - 1]));
      Regroup([ls[0]], ls[1..], tail);
      assert ls == [ls[0]] + ls[1..];
    }
  }

  lemma {:induction false} AppendKeepsFront(ls: seq<string>, section: string, body: seq<string>, inserted: bool,
                                            last: Option<string>)
    requires SectionName(section) && (inserted || BodyLines(ls, section).Some?)
    ensures UntilHeader(AppendScan(ls, section, body, false, inserted, last)) == UntilHeader(ls)
  {
    if ls != [] {
      var rest := AppendScan(ls[1..], section, body, Names(ls[0], section), inserted, Some(ls[0]));
      assert ([ls[0]] + rest)[1..] == rest;
      if !IsHeader(ls[0]) {
        if Names(ls[0], section) { NamesIsHeader(ls[0], section); }
        AppendKeepsFront(ls[1..], section, body, inserted, Some(ls[0]));
      }
    }
  }

  /** Every other section keeps its lines when the section is there. */
  lemma {:induction false} AppendFrame(ls: seq<string>, section: string, body: seq<string>, inTarget: bool,
                                       inserted: bool, last: Option<string>, other: string)
    requires SectionName(section) && SectionName(other) && Different(section, other) && HeaderFree(body)
    requires inTarget ==> last.Some?
    requires inTarget || inserted || BodyLines(ls, section).Some?
    ensures BodyLines(AppendScan(ls, section, body, inTarget, inserted, last), other) == BodyLines(ls, other)
    decreases |ls|, 1
  {
    if inTarget { HeaderFreePush(body, last.value); }
    if ls == [] {
      if inTarget && !inserted {
        BodyLinesSkip(PushBody(body, last.value), [], other);
        assert PushBody(body, last.value) + [] == PushBody(body, last.value);
      }
    } else if inTarget && IsHeader(ls[0]) {
      var rest := AppendScan(ls[1..], section, body, Names(ls[0], section), true, Some(ls[0]));
      BodyLinesSkip(PushBody(body, last.value), [ls[0]] + rest, other);
      AppendFrameStep(ls, section, body, Names(ls[0], section), true, other);
    } else {
      AppendFrameStep(ls, section, body, inTarget || Names(ls[0], section), inserted, other);
    }
  }

  lemma {:induction false} AppendFrameStep(ls: seq<string>, section: string, body: seq<string>, inNext: bool,
                                           inserted: bool, other: string)
    requires SectionName(section) && SectionName(other) && Different(section, other) && HeaderFree(body)
    requires ls != [] && (Names(ls[0], section) ==> inNext)
    requires inNext || inserted || BodyLines(ls[1..], section).Some?
    requires IsHeader(ls[0]) ==> inNext == Names(ls[0], section)
    ensures BodyLines([ls[0]] + AppendScan(ls[1..], section, body, inNext, inserted, Some(ls[0])), other)
            == BodyLines(ls, other)
    decreases |ls|, 0
  {
    var rest := AppendScan(ls[1..], section, body, inNext, inserted, Some(ls[0]));
    assert ([ls[0]] + rest)[1..] == rest;
    if Names(ls[0], other) {
      NamesIsHeader(ls[0], other);
      assert !Names(ls[0], section);
      AppendKeepsFront(ls[1..], section, body, inserted, Some(ls[0]));
    } else {
      AppendFrame(ls[1..], section, body, inNext, inserted, Some(ls[0]), other);
    }
  }

  // ---------------------------------------------------------------- sections at the end of the text

  lemma {:induction false} UntilHeaderBefore(ls: seq<string>, gap: seq<string>, header: string, rest: seq<string>)
    requires HeaderFree(gap) && IsHeader(header)
    ensures var after := UntilHeader(ls + (gap + [header] + rest));
            after == UntilHeader(ls) || after == UntilHeader(ls) + gap
  {
    var tail := gap + [header] + rest;
    if ls == [] {
      assert tail == gap + ([header] + rest) && ls + tail == tail;
      UntilHeaderOf(gap, [header] + rest);
    } else if !IsHeader(ls[0]) {
      assert (ls + tail)[1..] == ls[1..] + tail;
      UntilHeaderBefore(ls[1..], gap, header, rest);
      var after := UntilHeader(ls[1..] + tail);
      assert [ls[0]] + (UntilHeader(ls[1..]) + gap) == UntilHeader(ls) + gap;
    }
  }

  /** A section put at the end: it reads as its body, and the section before it gains at most the gap. */
  lemma {:induction false} NewSectionRead(ls: seq<string>, gap: seq<string>, section: string, body: seq<string>,
                                          other: string)
    requires SectionName(section) && SectionName(other) && HeaderFree(gap) && HeaderFree(body)
    requires BodyLines(ls, section).None?
    ensures var out := ls + (gap + [section] + body);
            if Different(section, other) then
              BodyLines(out, other) == BodyLines(ls, other) ||
              (BodyLines(ls, other).Some? && BodyLines(out, other) == Some(BodyLines(ls, other).value + gap))
            else BodyLines(out, other) == Some(body)
  {
    var tail := gap + [section] + body;
    if ls == [] {
      assert ls + tail == tail && tail == gap + ([section] + body);
      BodyLinesSkip(gap, [section] + body, other);
      TrimOfTrimmed(section);
      assert ([section] + body)[1..] == body && body + [] == body;
      UntilHeaderOf(body, []);
      BodyLinesSkip(body, [], other);
    } else {
      assert (ls + tail)[1..] == ls[1..] + tail;
      if Names(ls[0], other) {
        UntilHeaderBefore(ls[1..], gap, section, body);
      } else {
        NewSectionRead(ls[1..], gap, section, body, other);
      }
    }
  }

  // ---------------------------------------------------------------- bodies without the empty lines around them

  predicate IsCore(ls: seq<string>) {
    ls != [] && ls[0] != "" && ls[|ls| - 1] != ""
  }

  function Empties(k: nat): (ls: seq<string>)
    ensures |ls| == k && forall i :: 0 <= i < k ==> ls[i] == ""
  {
    if k == 0 then [] else [""] + Empties(k - 1)
  }

  lemma {:induction false} DropFrontSuffix(ls: seq<string>) returns (k: nat)
    ensures ls == Empties(k) + DropFront(ls)
    ensures DropFront(ls) == [] || DropFront(ls)[0] != ""
  {
    k := 0;
    if ls != [] && ls[0] == "" {
      k := DropFrontSuffix(ls[1..]);
      k := k + 1;
      assert ls == [""] + ls[1..];
    }
  }

  lemma {:induction false} DropBackPrefix(ls: seq<string>) returns (k: nat)
    ensures ls == DropBack(ls) + Empties(k)
  {
    k := 0;
    if ls != [] && ls[|ls| - 1] == "" {
      k := DropBackPrefix(ls[..|ls| - 1]);
      EmptiesSnoc(k);
      k := k + 1;
      assert ls == ls[..|ls| - 1] + [""];
    }
  }

  lemma {:induction false} EmptiesSnoc(k: nat)
    ensures Empties(k) + [""] == Empties(k + 1)
  {
    if k > 0 { EmptiesSnoc(k - 1); }
  }

  lemma {:induction false} DropFrontOf(ls: seq<string>, rest: seq<string>)
    ensures DropFront(ls + rest) == if DropFront(ls) == [] then DropFront(rest) else DropFront(ls) + rest
  {
    if ls == [] {
      assert ls + rest == rest;
    } else {
      assert (ls + rest)[1..] == ls[1..] + rest;
      if ls[0] == "" { DropFrontOf(ls[1..], rest); }
    }
  }

  lemma CoreShape(ls: seq<string>)
    ensures Core(ls) == [] || IsCore(Core(ls))
    ensures Core(ls) == [] <==> DropFront(ls) == []
    ensures forall l :: l in Core(ls) ==> l in ls
    ensures IsCore(ls) ==> Core(ls) == ls
  {
    var k := DropFrontSuffix(ls);
    var j := DropBackPrefix(DropFront(ls));
    assert DropFront(ls) == Core(ls) + Empties(j);
    assert forall l :: l in DropFront(ls) ==> l in ls;
  }

  lemma {:induction false} EmptiesAdd(j: nat, k: nat)
    ensures Empties(j) + Empties(k) == Empties(j + k)
  {
    if j > 0 { EmptiesAdd(j - 1, k); }
  }

  lemma {:induction false} EmptiesHaveNoCore(k: nat)
    ensures DropFront(Empties(k)) == [] && Core(Empties(k)) == []
  {
    if k > 0 { EmptiesHaveNoCore(k - 1); }
  }

  lemma DropOne(ls: seq<string>, e: seq<string>)
    ensures DropBack(ls + (e + [""])) == DropBack(ls + e)
  {
    var all := ls + (e + [""]);
    assert all[..|all| - 1] == ls + e;
  }

  lemma {:induction false} DropBackEmpties(ls: seq<string>, k: nat)
    ensures DropBack(ls + Empties(k)) == DropBack(ls)
  {
    if k == 0 {
      assert ls + Empties(0) == ls;
    } else {
      EmptiesSnoc(k - 1);
      DropOne(ls, Empties(k - 1));
      DropBackEmpties(ls, k - 1);
    }
  }

  lemma LastOfBoth(a: seq<string>, c: seq<string>)
    requires IsCore(c)
    ensures DropBack(a + c) == a + c
  {
    assert (a + c)[|a + c| - 1] == c[|c| - 1];
  }

  lemma CoreAmongEmpties(d: seq<string>, a: seq<string>, m: nat, g: seq<string>, i: nat, c: seq<string>, j: nat)
    requires IsCore(c) && d == a + Empties(m) && g == Empties(i) + (c + Empties(j))
    ensures DropBack(d + g) == a + Empties(m + i) + c
  {
    CoresTogether(a, m, i, c, j);
    DropBackEmpties(a + Empties(m + i) + c, j);
    LastOfBoth(a + Empties(m + i), c);
  }

  /** A core with the empty lines around it. */
  lemma AroundCore(g: seq<string>) returns (i: nat, j: nat)
    requires Core(g) != []
    ensures IsCore(Core(g)) && g == Empties(i) + (Core(g) + Empties(j))
  {
    CoreShape(g);
    i := DropFrontSuffix(g);
    j := DropBackPrefix(DropFront(g));
  }

  /** The lines in front of a core lose only the empty ones at their end, to the gap. */
  lemma CoreBehind(d: seq<string>, g: seq<string>) returns (k: nat)
    requires Core(g) != []
    ensures DropBack(d + g) == DropBack(d) + Empties(k) + Core(g)
  {
    var i, j := AroundCore(g);
    var m := DropBackPrefix(d);
    k := m + i;
    CoreAmongEmpties(d, DropBack(d), m, g, i, Core(g), j);
  }

  /** The core of two bodies put together: both cores, with empty lines between them. */
  lemma CoreOfConcat(b: seq<string>, g: seq<string>) returns (k: nat)
    ensures Core(b + g) ==
            if Core(g) == [] then Core(b) else if Core(b) == [] then Core(g) else Core(b) + Empties(k) + Core(g)
  {
    CoreShape(b);
    CoreShape(g);
    DropFrontOf(b, g);
    k := 0;
    if Core(b) != [] {
      if Core(g) == [] {
        var i := DropFrontSuffix(g);
        assert g == Empties(i) + [] == Empties(i);
        DropBackEmpties(DropFront(b), i);
      } else {
        k := CoreBehind(DropFront(b), g);
      }
    }
  }

  lemma CoresTogether(a: seq<string>, m: nat, i: nat, g: seq<string>, j: nat)
    ensures a + Empties(m) + (Empties(i) + (g + Empties(j))) == a + Empties(m + i) + g + Empties(j)
  {
    EmptiesAdd(m, i);
    assert a + Empties(m) + (Empties(i) + (g + Empties(j))) == a + (Empties(m) + Empties(i)) + g + Empties(j);
  }
}
