/**
 Embedding a rule base in a configuration: `replace_rule_base_field` in its three syntaxes, and how
 `parse_ini` reads the nine rule-base fields back, each of which INI writes on one line.
 */
module RuleBaseField {
  import opened Text
  import opened Wrappers

  // ---------------------------------------------------------------- one value on one line

  /** A backslash and `n`; a backslash, `r`, a backslash and `n`; a backslash, `r` and a line feed. */
  const ESC: string := ['\\', 'n']
  const CR_ESC: string := ['\\', 'r', '\\', 'n']
  const CR_LF: string := ['\\', 'r', '\n']
  const LF: string := ['\n']

  /** `str::replace`. */
  function ReplaceAll(s: string, pat: string, with: string): string
    requires pat != ""
    decreases |s|
  {
    if s == "" then ""
    else if pat <= s then with + ReplaceAll(s[|pat|..], pat, with)
    else [s[0]] + ReplaceAll(s[1..], pat, with)
  }

  function WithoutCr(s: string): (r: string)
    ensures '\r' !in r && |r| <= |s|
  {
    if s == "" then "" else (if s[0] == '\r' then "" else [s[0]]) + WithoutCr(s[1..])
  }

  /** What of the base content is embedded. */
  function Plain(content: string): string {
    WithoutCr(TrimEndChar(content, '\n'))
  }

  function Escape(p: string): string {
    ReplaceAll(p, LF, ESC)
  }

  function Unescape(raw: string): string {
    if Contains(raw, ESC) then ReplaceAll(ReplaceAll(raw, CR_ESC, LF), ESC, LF) else raw
  }

  /** An edge that survives trimming: a line feed, which is escaped, or neither space nor quote. */
  predicate FirmEdge(c: char) {
    c == '\n' || (!IsSpace(c) && c != '"')
  }

  /** Text that an INI line carries unchanged. */
  predicate Embeddable(p: string) {
    && !Contains(p, ESC)
    && !Contains(p, CR_LF)
    && (p != "" ==> FirmEdge(p[0]) && FirmEdge(p[|p| - 1]))
  }

  lemma EscapeCons(p: string)
    requires p != ""
    ensures Escape(p) == (if p[0] == '\n' then ESC else [p[0]]) + Escape(p[1..])
  {
    assert LF <= p <==> p[0] == '\n';
  }

  lemma {:induction false} EscapeSnoc(p: string, c: char)
    ensures Escape(p + [c]) == Escape(p) + (if c == '\n' then ESC else [c])
  {
    EscapeCons(p + [c]);
    if p == "" {
      assert (p + [c])[1..] == "";
    } else {
      EscapeCons(p);
      assert (p + [c])[1..] == p[1..] + [c];
      EscapeSnoc(p[1..], c);
    }
  }

  lemma ContainsCons(s: string, pat: string)
    requires s != "" && pat != ""
    ensures Contains(s, pat) <==> pat <= s || Contains(s[1..], pat)
  {
  }

  lemma {:induction false} ReplaceNone(s: string, pat: string, with: string)
    requires pat != "" && !Contains(s, pat)
    ensures ReplaceAll(s, pat, with) == s
  {
    if s != "" {
      ContainsCons(s, pat);
      ReplaceNone(s[1..], pat, with);
    }
  }

  /** The escaped text after the first of the two replacements. */
  function Half(p: string): string {
    if p == "" then ""
    else if CR_LF <= p then LF + Half(p[3..])
    else (if p[0] == '\n' then ESC else [p[0]]) + Half(p[1..])
  }

  /** The text with every backslash and `r` before a line feed dropped. */
  function Dropped(p: string): (r: string)
    ensures |r| <= |p|
  {
    if p == "" then ""
    else if CR_LF <= p then LF + Dropped(p[3..])
    else [p[0]] + Dropped(p[1..])
  }

  lemma {:induction false} DroppedIsShorter(p: string)
    ensures Contains(p, CR_LF) ==> |Dropped(p)| < |p|
    ensures !Contains(p, CR_LF) ==> Dropped(p) == p
  {
    if p != "" {
      ContainsCons(p, CR_LF);
      if !(CR_LF <= p) { DroppedIsShorter(p[1..]); }
    }
  }

  lemma EscapeOfCrLf(p: string)
    requires CR_LF <= p
    ensures Escape(p) == CR_ESC + Escape(p[3..])
  {
    EscapeCons(p);
    EscapeCons(p[1..]);
    EscapeCons(p[2..]);
    assert p[1..][1..] == p[2..] && p[2..][1..] == p[3..];
    assert p[0] == '\\' && p[1] == 'r' && p[2] == '\n';
  }

  lemma EscapeHead(p: string, c: char)
    requires c != '\\'
    ensures c in ['r', 'n'] ==> ([c] <= Escape(p) <==> [c] <= p)
    ensures ESC <= Escape(p) <==> ESC <= p || LF <= p
  {
    if p != "" {
      EscapeCons(p);
      if |p| > 1 { EscapeCons(p[1..]); }
    }
  }

  lemma Heads(p: string, c: char)
    ensures [c] <= p <==> p != "" && p[0] == c
    ensures ESC <= p <==> |p| > 1 && p[0] == '\\' && p[1] == 'n'
    ensures CR_LF <= p <==> |p| > 2 && p[0] == '\\' && p[1] == 'r' && p[2] == '\n'
  {
  }

  lemma PrefixShorter(a: string, b: string, t: string)
    ensures a + b <= t ==> a <= t
  {
    if a + b <= t { assert t[..|a|] == t[..|a + b|][..|a|] == a; }
  }

  lemma PrefixAfter(head: string, a: string, t: string)
    ensures head + a <= head + t <==> a <= t
  {
    if head + a <= head + t {
      assert (head + t)[..|head + a|][|head|..] == a;
      assert (head + t)[|head|..] == t;
    }
  }

  /** Where the first replacement's pattern begins in escaped text. */
  lemma CrEscBegins(p: string)
    requires p != "" && !Contains(p, ESC)
    ensures CR_ESC <= Escape(p) <==> CR_LF <= p
  {
    if CR_LF <= p { EscapeOfCrLf(p); }
    EscapeCons(p);
    if |p| > 1 && p[0] == '\\' && p[1] == 'r' {
      EscapeCons(p[1..]);
      assert p[1..][1..] == p[2..];
      EscapeHead(p[2..], 'n');
      assert Escape(p) == ['\\', 'r'] + Escape(p[2..]);
      PrefixAfter(['\\', 'r'], ESC, Escape(p[2..]));
      assert CR_ESC == ['\\', 'r'] + ESC;
      assert ESC <= p[2..] ==> OccursAt(p, ESC, 2);
      assert LF <= p[2..] <==> CR_LF <= p;
    } else if p[0] == '\\' {
      EscapeHead(p[1..], 'r');
      Heads(p, 'r');
      Heads(p[1..], 'r');
      PrefixAfter(['\\'], ['r'] + ESC, Escape(p[1..]));
      assert CR_ESC == ['\\'] + (['r'] + ESC);
      assert Escape(p) == ['\\'] + Escape(p[1..]);
      Heads(Escape(p[1..]), 'r');
      PrefixShorter(['r'], ESC, Escape(p[1..]));
    } else {
      var e := Escape(p);
      assert CR_ESC[0] == '\\' && CR_ESC[1] == 'r';
      assert e[0] != '\\' || e[1] == 'n';
    }
  }

  lemma {:induction false} FirstReplacement(p: string)
    requires !Contains(p, ESC)
    ensures ReplaceAll(Escape(p), CR_ESC, LF) == Half(p)
    decreases |p|
  {
    if p != "" {
      CrEscBegins(p);
      ContainsCons(p, ESC);
      if CR_LF <= p {
        EscapeOfCrLf(p);
        ContainsLater(p, ESC, 3);
        FirstReplacement(p[3..]);
        assert Escape(p)[4..] == Escape(p[3..]);
      } else {
        EscapeCons(p);
        FirstReplacement(p[1..]);
        var head := if p[0] == '\n' then ESC else [p[0]];
        if p[0] == '\n' {
          assert Escape(p)[1..] == ['n'] + Escape(p[1..]);
          assert Escape(p)[1..][1..] == Escape(p[1..]);
          assert !(CR_ESC <= Escape(p)[1..]);
        } else {
          assert Escape(p)[1..] == Escape(p[1..]);
        }
      }
    }
  }

  lemma {:induction false} ContainsLater(s: string, pat: string, k: nat)
    requires k <= |s| && pat != ""
    ensures Contains(s[k..], pat) ==> Contains(s, pat)
  {
    if k > 0 {
      assert s[k..] == s[1..][k - 1..];
      ContainsLater(s[1..], pat, k - 1);
      ContainsCons(s, pat);
    }
  }

  lemma HalfHead(q: string)
    ensures ['n'] <= Half(q) <==> ['n'] <= q
  {
    Heads(q, 'n');
    Heads(Half(q), 'n');
  }

  /** Where the second replacement's pattern begins. */
  lemma EscBegins(p: string)
    requires p != "" && !Contains(p, ESC)
    ensures ESC <= Half(p) <==> LF <= p
  {
    Heads(p, '\n');
    if !(CR_LF <= p) && p[0] != '\n' {
      HalfHead(p[1..]);
      Heads(p[1..], 'n');
      ContainsCons(p, ESC);
      PrefixAfter(['\\'], ['n'], Half(p[1..]));
      assert ESC == ['\\'] + ['n'];
      Heads(Half(p), 'n');
    }
  }

  lemma {:induction false} SecondReplacement(p: string)
    requires !Contains(p, ESC)
    ensures ReplaceAll(Half(p), ESC, LF) == Dropped(p)
    decreases |p|
  {
    if p != "" {
      EscBegins(p);
      ContainsCons(p, ESC);
      if CR_LF <= p {
        ContainsLater(p, ESC, 3);
        SecondReplacement(p[3..]);
        assert Half(p)[1..] == Half(p[3..]);
        assert p[0] == '\\';
      } else {
        SecondReplacement(p[1..]);
        if p[0] == '\n' {
          assert Half(p)[2..] == Half(p[1..]);
        } else {
          assert Half(p)[1..] == Half(p[1..]);
        }
      }
    }
  }

  /** Both replacements together leave no escape behind. */
  lemma {:induction false} NoneLeft(s: string)
    ensures !Contains(ReplaceAll(s, ESC, LF), ESC)
    ensures ['n'] <= ReplaceAll(s, ESC, LF) ==> ['n'] <= s
    decreases |s|
  {
    if s != "" {
      var r := ReplaceAll(s, ESC, LF);
      ContainsCons(r, ESC);
      if ESC <= s {
        NoneLeft(s[2..]);
        assert r == LF + ReplaceAll(s[2..], ESC, LF) && r[0] == '\n';
        assert r[1..] == ReplaceAll(s[2..], ESC, LF) && !(ESC <= r);
      } else {
        NoneLeft(s[1..]);
        assert r[1..] == ReplaceAll(s[1..], ESC, LF);
        assert ESC <= r <==> r[0] == '\\' && ['n'] <= r[1..];
        assert ESC <= s <==> s[0] == '\\' && ['n'] <= s[1..];
      }
    }
  }

  lemma UnescapeOfEscape(p: string)
    ensures !Contains(p, ESC) ==> Unescape(Escape(p)) == Dropped(p)
    ensures !Contains(Unescape(Escape(p)), ESC)
  {
    var raw := Escape(p);
    NoneLeft(ReplaceAll(raw, CR_ESC, LF));
    if !Contains(p, ESC) {
      FirstReplacement(p);
      SecondReplacement(p);
      if !Contains(raw, ESC) {
        NoCrEscWithout(raw);
        ReplaceNone(raw, CR_ESC, LF);
        ReplaceNone(raw, ESC, LF);
      }
    }
  }

  lemma {:induction false} NoCrEscWithout(raw: string)
    ensures Contains(raw, CR_ESC) ==> Contains(raw, ESC)
  {
    if raw != "" {
      ContainsCons(raw, CR_ESC);
      ContainsCons(raw, ESC);
      NoCrEscWithout(raw[1..]);
      if CR_ESC <= raw {
        assert raw[2] == '\\' && raw[3] == 'n';
        Heads(raw[2..], 'n');
        ContainsLater(raw, ESC, 2);
      }
    }
  }

  // ---------------------------------------------------------------- the edges of a value

  /** A character that trimming takes off an edge: a line feed is escaped, and stays. */
  predicate Blank(c: char) {
    c != '\n' && IsSpace(c)
  }

  predicate Quote(c: char) {
    c == '"'
  }

  function CutStart(p: string, cut: char -> bool): (r: string)
    ensures |r| <= |p| && (|r| == |p| ==> r == p)
    ensures r == p <==> p == "" || !cut(p[0])
  {
    if p == "" || !cut(p[0]) then p else CutStart(p[1..], cut)
  }

  function CutEnd(p: string, cut: char -> bool): (r: string)
    ensures r <= p
    ensures r == p <==> p == "" || !cut(p[|p| - 1])
  {
    if p == "" || !cut(p[|p| - 1]) then p else CutEnd(p[..|p| - 1], cut)
  }

  lemma {:induction false} CutStartInside(p: string, cut: char -> bool, pat: string)
    requires pat != ""
    ensures Contains(CutStart(p, cut), pat) ==> Contains(p, pat)
  {
    if p != "" && cut(p[0]) {
      CutStartInside(p[1..], cut, pat);
      ContainsCons(p, pat);
    }
  }

  lemma CutEndInside(p: string, cut: char -> bool, pat: string)
    ensures Contains(CutEnd(p, cut), pat) ==> Contains(p, pat)
  {
    var r := CutEnd(p, cut);
    if Contains(r, pat) {
      ContainsInfix("", r, p[|r|..], pat);
      assert "" + r + p[|r|..] == p;
    }
  }

  lemma {:induction false} TrimStartOfEscape(p: string)
    ensures TrimStart(Escape(p)) == Escape(CutStart(p, Blank))
  {
    if p != "" {
      EscapeCons(p);
      if Blank(p[0]) {
        assert Escape(p)[1..] == Escape(p[1..]);
        TrimStartOfEscape(p[1..]);
      }
    }
  }

  lemma {:induction false} UnquoteStartOfEscape(p: string)
    ensures TrimStartChar(Escape(p), '"') == Escape(CutStart(p, Quote))
  {
    if p != "" {
      EscapeCons(p);
      if Quote(p[0]) {
        assert Escape(p)[1..] == Escape(p[1..]);
        UnquoteStartOfEscape(p[1..]);
      }
    }
  }

  lemma {:induction false} TrimEndOfEscape(p: string)
    ensures TrimEnd(Escape(p)) == Escape(CutEnd(p, Blank))
  {
    if p != "" {
      var front, last := p[..|p| - 1], p[|p| - 1];
      assert p == front + [last];
      EscapeSnoc(front, last);
      if Blank(last) {
        assert Escape(p)[..|Escape(p)| - 1] == Escape(front);
        TrimEndOfEscape(front);
      }
    }
  }

  lemma {:induction false} UnquoteEndOfEscape(p: string)
    ensures TrimEndChar(Escape(p), '"') == Escape(CutEnd(p, Quote))
  {
    if p != "" {
      var front, last := p[..|p| - 1], p[|p| - 1];
      assert p == front + [last];
      EscapeSnoc(front, last);
      if Quote(last) {
        assert Escape(p)[..|Escape(p)| - 1] == Escape(front);
        UnquoteEndOfEscape(front);
      }
    }
  }

  /** What `parse_ini` makes of the text after the equals sign. */
  function Raw(value: string): string {
    TrimChar(Trim(value), '"')
  }

  predicate FirmEdges(p: string) {
    p != "" ==> FirmEdge(p[0]) && FirmEdge(p[|p| - 1])
  }

  function WithoutBlanks(p: string): string {
    CutEnd(CutStart(CutEnd(p, Blank), Blank), Blank)
  }

  function WithoutQuotes(p: string): string {
    CutEnd(CutStart(p, Quote), Quote)
  }

  lemma BlanksOfEscape(p: string)
    ensures Trim(TrimEnd(Escape(p))) == Escape(WithoutBlanks(p))
    ensures Contains(WithoutBlanks(p), ESC) ==> Contains(p, ESC)
  {
    var a := CutEnd(p, Blank);
    var b := CutStart(a, Blank);
    TrimEndOfEscape(p);
    TrimStartOfEscape(a);
    TrimEndOfEscape(b);
    CutEndInside(p, Blank, ESC);
    CutStartInside(a, Blank, ESC);
    CutEndInside(b, Blank, ESC);
  }

  lemma QuotesOfEscape(p: string)
    ensures TrimChar(Escape(p), '"') == Escape(WithoutQuotes(p))
    ensures Contains(WithoutQuotes(p), ESC) ==> Contains(p, ESC)
  {
    var a := CutStart(p, Quote);
    UnquoteStartOfEscape(p);
    UnquoteEndOfEscape(a);
    CutStartInside(p, Quote, ESC);
    CutEndInside(a, Quote, ESC);
  }

  lemma NoBlanks(p: string)
    ensures |WithoutBlanks(p)| <= |p| && (|WithoutBlanks(p)| == |p| ==> WithoutBlanks(p) == p)
    ensures WithoutBlanks(p) == p <==> p == "" || (!Blank(p[0]) && !Blank(p[|p| - 1]))
  {
  }

  lemma NoQuotes(p: string)
    ensures |WithoutQuotes(p)| <= |p| && (|WithoutQuotes(p)| == |p| ==> WithoutQuotes(p) == p)
    ensures WithoutQuotes(p) == p <==> p == "" || (!Quote(p[0]) && !Quote(p[|p| - 1]))
  {
  }

  /** Trimming escaped text is cutting the text itself, and cuts nothing exactly when its edges are firm. */
  lemma RawOfEscape(p: string) returns (q: string)
    ensures Raw(TrimEnd(Escape(p))) == Escape(q) && |q| <= |p|
    ensures |q| == |p| ==> q == p
    ensures q == p <==> FirmEdges(p)
    ensures Contains(q, ESC) ==> Contains(p, ESC)
  {
    var inner := WithoutBlanks(p);
    q := WithoutQuotes(inner);
    BlanksOfEscape(p);
    QuotesOfEscape(inner);
    NoBlanks(p);
    NoQuotes(inner);
  }

  /** A base content survives its line exactly when what is embedded is embeddable. */
  lemma ValueRoundTrip(p: string)
    ensures Unescape(Raw(TrimEnd(Escape(p)))) == p <==> Embeddable(p)
  {
    var q := RawOfEscape(p);
    UnescapeOfEscape(q);
    DroppedIsShorter(q);
  }

  // ---------------------------------------------------------------- reading the fields

  const RULE_BASE: string := "_rule_base"

  /** The targets that have a rule-base field, in the order of `rule_base_refs`. */
  const TARGETS: seq<string> := ["clash", "surge", "surfboard", "mellow", "quan", "quanx", "loon", "sssub", "singbox"]

  predicate IsTarget(name: string) {
    name in TARGETS
  }

  /** The target a rule-base key belongs to. */
  function Target(key: string): Option<string> {
    var n := |key| - |RULE_BASE|;
    if n >= 0 && key[n..] == RULE_BASE && IsTarget(key[..n]) then Some(key[..n]) else None
  }

  predicate IsRuleBaseKey(key: string) {
    Target(key).Some?
  }

  /** All a proof needs to know of a target's name: it is there, and plain. */
  predicate PlainName(name: string) {
    name != "" && forall c :: c in name ==> 'a' <= c <= 'z'
  }

  lemma TargetsArePlain(name: string)
    requires IsTarget(name)
    ensures PlainName(name)
  {
  }

  predicate Accepted(section: string) {
    section == "common" || section == "custom" || section == ""
  }

  datatype Read = Skip | Header(section: string) | Assign(key: string, value: string)

  function ReadLine(raw: string): Read {
    var line := Trim(raw);
    if line == "" || line[0] == ';' || line[0] == '#' || "//" <= line then Skip
    else if line[0] == '[' && line[|line| - 1] == ']' then Header(Lower(line[1..|line| - 1]))
    else
      var cut := SplitOnce(line, "=");
      if cut.None? then Skip
      else
        var key := Trim(cut.value.0);
        var value := Raw(cut.value.1);
        Assign(key, if IsRuleBaseKey(key) then Unescape(value) else value)
  }

  /** The section a line is in and the rule-base fields set so far; the others keep their defaults. */
  datatype State = State(section: string, fields: map<string, string>)

  function Put(s: State, read: Read): State {
    match read
    case Skip => s
    case Header(section) => s.(section := section)
    case Assign(key, value) =>
      if IsRuleBaseKey(key) && Accepted(s.section) then s.(fields := s.fields[key := value]) else s
  }

  function ParseFrom(s: State, lines: seq<string>): State
    decreases |lines|
  {
    if lines == [] then s else ParseFrom(Put(s, ReadLine(lines[0])), lines[1..])
  }

  const START := State("", map[])

  lemma ParseFromNext(s: State, lines: seq<string>, i: nat)
    requires i < |lines|
    ensures ParseFrom(s, lines[i..]) == ParseFrom(Put(s, ReadLine(lines[i])), lines[i + 1..])
  {
    assert lines[i..][0] == lines[i] && lines[i..][1..] == lines[i + 1..];
  }

  /** What one line does to the section and the fields. */
  method TakeRead(section: string, fields: map<string, string>, read: Read)
    returns (section': string, fields': map<string, string>)
    ensures State(section', fields') == Put(State(section, fields), read)
  {
    section', fields' := section, fields;
    match read {
      case Skip =>
      case Header(name) => section' := name;
      case Assign(key, value) =>
        if IsRuleBaseKey(key) && Accepted(section) { fields' := fields[key := value]; }
    }
  }

  /** The rule-base part of `parse_ini`. */
  method ParseIni(content: string) returns (fields: map<string, string>)
    ensures fields == ParseFrom(START, Lines(content)).fields
  {
    fields := map[];
    var section := "";
    var lines := Lines(content);
    assert lines[0..] == lines;
    for i := 0 to |lines|
      invariant ParseFrom(State(section, fields), lines[i..]) == ParseFrom(START, lines)
    {
      ParseFromNext(State(section, fields), lines, i);
      section, fields := TakeRead(section, fields, ReadLine(lines[i]));
    }
  }

  // ---------------------------------------------------------------- replacing a field

  predicate StartsField(line: string, field: string) {
    field <= TrimStart(line)
  }

  function Indent(line: string): string {
    line[..|line| - |TrimStart(line)|]
  }

  function IniReplacement(field: string, content: string, indent: string): string {
    indent + (field + "=" + Escape(Plain(content)))
  }

  /** The content under a deeper indentation, line by line. */
  function Indented(lines: seq<string>, indent: string): (r: seq<string>)
    ensures |r| == |lines| && forall i :: 0 <= i < |lines| ==> r[i] == indent + lines[i]
  {
    seq(|lines|, i requires 0 <= i < |lines| => indent + lines[i])
  }

  datatype Syntax = Ini | Toml | Yaml

  /** What a literal that may span lines stands between in TOML. */
  const QUOTES: string := "'''"

  /** `rule_base_replacement`: one line for INI, several for the other two. */
  function Replacement(syntax: Syntax, field: string, content: string, indent: string): string {
    match syntax
    case Ini => IniReplacement(field, content, indent)
    case Toml => indent + field + " = " + QUOTES + "\n" + (TrimEndChar(content, '\n') + "\n" + indent + QUOTES)
    case Yaml => indent + field + ": |-" + "\n" + Join(Indented(Lines(TrimEndChar(content, '\n')), indent + "  "), "\n")
  }

  function ReplaceLine(syntax: Syntax, line: string, field: string, content: string): string {
    if StartsField(line, field) then Replacement(syntax, field, content, Indent(line)) else line
  }

  function ReplaceLines(syntax: Syntax, lines: seq<string>, field: string, content: string): seq<string> {
    if lines == [] then []
    else [ReplaceLine(syntax, lines[0], field, content)] + ReplaceLines(syntax, lines[1..], field, content)
  }

  predicate AnyStarts(lines: seq<string>, field: string) {
    exists i :: 0 <= i < |lines| && StartsField(lines[i], field)
  }

  /** The lines after the replacement: one is added when the field was not there. */
  function NewLines(syntax: Syntax, lines: seq<string>, field: string, content: string): seq<string> {
    ReplaceLines(syntax, lines, field, content) +
    (if AnyStarts(lines, field) then [] else [Replacement(syntax, field, content, "")])
  }

  lemma {:induction false} ReplaceLinesSnoc(syntax: Syntax, lines: seq<string>, line: string, field: string,
                                            content: string)
    ensures ReplaceLines(syntax, lines + [line], field, content) ==
            ReplaceLines(syntax, lines, field, content) + [ReplaceLine(syntax, line, field, content)]
  {
    if lines != [] {
      assert (lines + [line])[1..] == lines[1..] + [line];
      ReplaceLinesSnoc(syntax, lines[1..], line, field, content);
    }
  }

  lemma AnyStartsSnoc(lines: seq<string>, i: nat, field: string)
    requires i < |lines|
    ensures lines[..i + 1] == lines[..i] + [lines[i]]
    ensures AnyStarts(lines[..i + 1], field) <==> AnyStarts(lines[..i], field) || StartsField(lines[i], field)
  {
    assert lines[..i + 1][i] == lines[i];
  }

  /** The loop over the lines of the configuration. */
  method ReplaceInLines(all: seq<string>, syntax: Syntax, field: string, content: string)
    returns (lines: seq<string>, replaced: bool)
    ensures lines == ReplaceLines(syntax, all, field, content) && replaced == AnyStarts(all, field)
  {
    lines, replaced := [], false;
    for i := 0 to |all|
      invariant lines == ReplaceLines(syntax, all[..i], field, content)
      invariant replaced == AnyStarts(all[..i], field)
    {
      var line := all[i];
      var trimmed := TrimStart(line);
      if field <= trimmed {
        lines := lines + [Replacement(syntax, field, content, line[..|line| - |trimmed|])];
        replaced := true;
      } else {
        lines := lines + [line];
      }
      AnyStartsSnoc(all, i, field);
      ReplaceLinesSnoc(syntax, all[..i], line, field, content);
    }
    assert all[..|all|] == all;
  }

  function ReplacedText(config: string, syntax: Syntax, field: string, content: string): string {
    Join(NewLines(syntax, Lines(config), field, content), "\n")
  }

  method ReplaceRuleBaseField(config: string, syntax: Syntax, field: string, content: string) returns (result: string)
    ensures result == ReplacedText(config, syntax, field, content)
  {
    var lines, replaced := ReplaceInLines(Lines(config), syntax, field, content);
    if !replaced { lines := lines + [Replacement(syntax, field, content, "")]; }
    assert replaced ==> lines + [] == lines;
    result := Join(lines, "\n");
  }

  // ---------------------------------------------------------------- what a line assigns

  predicate AllSpace(s: string) {
    forall c :: c in s ==> IsSpace(c)
  }

  lemma FieldFacts(field: string)
    requires IsRuleBaseKey(field)
    ensures field != "" && 'a' <= field[0] <= 'z' && !IsSpace(field[0]) && !IsSpace(field[|field| - 1])
    ensures '=' !in field && '\n' !in field && Trim(field) == field
  {
    var name := Target(field).value;
    TargetsArePlain(name);
    assert field == name + RULE_BASE;
    assert field[0] == name[0];
    assert field[|field| - 1] == RULE_BASE[9] == 'e';
    assert '=' !in RULE_BASE && '\n' !in RULE_BASE;
    TrimOfTrimmed(field);
  }

  /** Before the same tail, a name is all that stands before the first underscore. */
  lemma NameBeforeTail(a: string, b: string, tail: string)
    requires tail != "" && tail[0] == '_' && '_' !in a && '_' !in b && a + tail <= b + tail
    ensures a == b
  {
    var f, g := a + tail, b + tail;
    assert f[|a|] == '_' && g[|a|] == f[|a|];
    forall i | 0 <= i < |b| ensures g[i] != '_' { assert g[i] == b[i] && b[i] in b; }
    assert a == f[..|a|] && b == g[..|b|];
  }

  lemma TargetOfKey(key: string) returns (name: string)
    requires IsRuleBaseKey(key)
    ensures key == name + RULE_BASE && '_' !in name
  {
    name := Target(key).value;
    TargetsArePlain(name);
  }

  /** No rule-base key begins another. */
  lemma PrefixFree(f: string, g: string)
    requires IsRuleBaseKey(f) && IsRuleBaseKey(g) && f <= g
    ensures f == g
  {
    var a := TargetOfKey(f);
    var b := TargetOfKey(g);
    NameBeforeTail(a, b, RULE_BASE);
  }

  lemma {:induction false} IndentIsSpace(line: string)
    ensures line == Indent(line) + TrimStart(line) && AllSpace(Indent(line))
  {
    if line != "" && IsSpace(line[0]) {
      IndentIsSpace(line[1..]);
      assert Indent(line) == [line[0]] + Indent(line[1..]);
    }
  }

  lemma {:induction false} TrimStartPastSpace(indent: string, s: string)
    requires AllSpace(indent)
    ensures TrimStart(indent + s) == TrimStart(s)
  {
    if indent == "" {
      assert indent + s == s;
    } else {
      assert (indent + s)[1..] == indent[1..] + s;
      TrimStartPastSpace(indent[1..], s);
    }
  }

  lemma StartsTrimmed(line: string, field: string)
    requires IsRuleBaseKey(field)
    ensures StartsField(line, field) <==> field <= Trim(line)
  {
    FieldFacts(field);
    var t := TrimStart(line);
    if StartsField(line, field) {
      var tail := t[|field|..];
      assert t == field + tail;
      TrimEndAfterInk(field, tail);
    }
  }

  /** A carriage return at the end of a line hides no field. */
  lemma StripKeepsStart(line: string, field: string)
    requires IsRuleBaseKey(field)
    ensures StartsField(StripCr(line), field) == StartsField(line, field)
    ensures StartsField(line, field) ==> Indent(StripCr(line)) == Indent(line)
  {
    FieldFacts(field);
    if EndsInCr(line) {
      var front := line[..|line| - 1];
      assert line == front + ['\r'];
      TrimStartSnoc(front, '\r');
      PrefixBeforeLast(TrimStart(front), '\r', field);
    }
  }

  lemma PrefixBeforeLast(t: string, c: char, field: string)
    requires field != "" && field[|field| - 1] != c
    ensures field <= t + [c] <==> field <= t
  {
    if field <= t + [c] {
      assert (t + [c])[|field| - 1] == field[|field| - 1];
      assert |field| <= |t|;
      assert field == (t + [c])[..|field|] == t[..|field|];
    }
  }

  /** A cut after a field's name leaves the name whole. */
  lemma FieldBeforeCut(field: string, l: string, r: string)
    requires '=' !in field && field <= l + "=" + r
    ensures field <= l
  {
    var line := l + "=" + r;
    assert line[|l|] == '=';
    forall i | 0 <= i < |field| ensures line[i] != '=' { assert line[i] == field[i]; }
    assert line[..|l|] == l;
  }

  lemma KeyOfCut(field: string, l: string)
    requires IsRuleBaseKey(field) && field <= l
    ensures IsRuleBaseKey(Trim(l)) ==> Trim(l) == field
  {
    FieldFacts(field);
    var m := l[|field|..];
    assert l == field + m;
    TrimAfterInk(field, m);
    if IsRuleBaseKey(Trim(l)) { PrefixFree(field, Trim(l)); }
  }

  lemma KeyOfStarting(line: string, field: string)
    requires IsRuleBaseKey(field) && StartsField(line, field)
    ensures !ReadLine(line).Header?
    ensures ReadLine(line).Assign? && IsRuleBaseKey(ReadLine(line).key) ==> ReadLine(line).key == field
  {
    var t := Trim(line);
    FieldFacts(field);
    StartsTrimmed(line, field);
    assert t[0] == field[0];
    var cut := SplitOnce(t, "=");
    if cut.Some? {
      FieldBeforeCut(field, cut.value.0, cut.value.1);
      KeyOfCut(field, cut.value.0);
    }
  }

  lemma KeyOfOther(line: string, field: string)
    requires IsRuleBaseKey(field) && !StartsField(line, field)
    ensures ReadLine(line).Assign? ==> ReadLine(line).key != field
  {
    var t := Trim(line);
    FieldFacts(field);
    StartsTrimmed(line, field);
    var cut := SplitOnce(t, "=");
    if cut.Some? {
      var l := cut.value.0;
      assert l <= t && (l != "" ==> l[0] == t[0]);
      assert TrimStart(l) == l;
      assert Trim(l) <= l;
    }
  }

  lemma ReadAssignment(raw: string, field: string, value: string)
    requires IsRuleBaseKey(field) && Trim(raw) == field + ['='] + value
    ensures ReadLine(raw) == Assign(field, Unescape(Raw(value)))
  {
    var line := field + ['='] + value;
    FieldFacts(field);
    assert line[0] == field[0];
    assert !("//" <= line) by { assert "//"[0] == '/'; }
    SplitOnceUnique(field, '=', value);
  }

  lemma ReadReplacement(indent: string, field: string, content: string)
    requires IsRuleBaseKey(field) && AllSpace(indent)
    ensures ReadLine(IniReplacement(field, content, indent)) ==
            Assign(field, Unescape(Raw(TrimEnd(Escape(Plain(content))))))
  {
    var e := Escape(Plain(content));
    var head := field + ['='];
    FieldFacts(field);
    assert IniReplacement(field, content, indent) == indent + (head + e);
    TrimStartPastSpace(indent, head + e);
    assert head[0] == field[0];
    TrimAfterInk(head, e);
    ReadAssignment(IniReplacement(field, content, indent), field, TrimEnd(e));
  }

  // ---------------------------------------------------------------- the whole configuration

  function SectionAfter(section: string, read: Read): string {
    if read.Header? then read.section else section
  }

  function LastSection(lines: seq<string>, section: string): string {
    if lines == [] then section else LastSection(lines[1..], SectionAfter(section, ReadLine(lines[0])))
  }

  /** Some line that starts with the field lies in a section where the field counts. */
  predicate Reached(lines: seq<string>, section: string, field: string) {
    lines != [] &&
    ((StartsField(lines[0], field) && Accepted(section)) ||
     Reached(lines[1..], SectionAfter(section, ReadLine(lines[0])), field))
  }

  /** The replacement ends up where the field counts. */
  predicate Lands(lines: seq<string>, field: string) {
    Reached(lines, "", field) || (!AnyStarts(lines, field) && Accepted(LastSection(lines, "")))
  }

  function Lookup(fields: map<string, string>, key: string): Option<string> {
    if key in fields then Some(fields[key]) else None
  }

  /** What a replacement line is read as. */
  function ReadBack(content: string): string {
    Unescape(Raw(TrimEnd(Escape(Plain(content)))))
  }

  /** The same but for one field. */
  ghost predicate SameBut(s: State, t: State, field: string) {
    s.section == t.section && forall key :: key != field ==> Lookup(s.fields, key) == Lookup(t.fields, key)
  }

  lemma PutBoth(s: State, t: State, read: Read, field: string)
    requires SameBut(s, t, field) && (read.Assign? ==> read.key != field)
    ensures SameBut(Put(s, read), Put(t, read), field)
    ensures Put(s, read).section == SectionAfter(s.section, read)
    ensures Lookup(Put(t, read).fields, field) == Lookup(t.fields, field)
  {
    forall key | key != field ensures Lookup(Put(s, read).fields, key) == Lookup(Put(t, read).fields, key) {
      assert Lookup(s.fields, key) == Lookup(t.fields, key);
    }
  }

  lemma PutInstead(s: State, t: State, read: Read, field: string, value: string)
    requires SameBut(s, t, field) && IsRuleBaseKey(field) && !read.Header?
    requires read.Assign? && IsRuleBaseKey(read.key) ==> read.key == field
    ensures SameBut(Put(s, read), Put(t, Assign(field, value)), field)
    ensures Put(s, read).section == s.section
    ensures Lookup(Put(t, Assign(field, value)).fields, field) ==
            if Accepted(s.section) then Some(value) else Lookup(t.fields, field)
  {
    var s', t' := Put(s, read), Put(t, Assign(field, value));
    forall key | key != field ensures Lookup(s'.fields, key) == Lookup(t'.fields, key) {
      assert Lookup(s.fields, key) == Lookup(t.fields, key);
    }
  }

  lemma LineReplaced(s: State, t: State, line: string, field: string, content: string)
    requires IsRuleBaseKey(field) && SameBut(s, t, field)
    ensures var s' := Put(s, ReadLine(line));
            var t' := Put(t, ReadLine(ReplaceLine(Ini, line, field, content)));
            SameBut(s', t', field) && s'.section == SectionAfter(s.section, ReadLine(line)) &&
            Lookup(t'.fields, field) ==
              if StartsField(line, field) && Accepted(s.section) then Some(ReadBack(content))
              else Lookup(t.fields, field)
  {
    if StartsField(line, field) {
      IndentIsSpace(line);
      KeyOfStarting(line, field);
      ReadReplacement(Indent(line), field, content);
      PutInstead(s, t, ReadLine(line), field, ReadBack(content));
    } else {
      KeyOfOther(line, field);
      PutBoth(s, t, ReadLine(line), field);
    }
  }

  lemma {:induction false} LinesReplaced(s: State, t: State, lines: seq<string>, field: string, content: string)
    requires IsRuleBaseKey(field) && SameBut(s, t, field)
    ensures var s' := ParseFrom(s, lines);
            var t' := ParseFrom(t, ReplaceLines(Ini, lines, field, content));
            SameBut(s', t', field) && s'.section == LastSection(lines, s.section) &&
            Lookup(t'.fields, field) ==
              if Reached(lines, s.section, field) then Some(ReadBack(content)) else Lookup(t.fields, field)
    decreases |lines|
  {
    if lines != [] {
      var line := lines[0];
      LineReplaced(s, t, line, field, content);
      LinesReplaced(Put(s, ReadLine(line)), Put(t, ReadLine(ReplaceLine(Ini, line, field, content))), lines[1..],
                    field, content);
      assert ReplaceLines(Ini, lines, field, content)[1..] == ReplaceLines(Ini, lines[1..], field, content);
    }
  }

  lemma {:induction false} NotReached(lines: seq<string>, section: string, field: string)
    ensures Reached(lines, section, field) ==> AnyStarts(lines, field)
  {
    if lines != [] {
      NotReached(lines[1..], SectionAfter(section, ReadLine(lines[0])), field);
      if AnyStarts(lines[1..], field) {
        var i :| 0 <= i < |lines[1..]| && StartsField(lines[1..][i], field);
        assert StartsField(lines[i + 1], field);
      }
    }
  }

  lemma {:induction false} ParseFromConcat(s: State, a: seq<string>, b: seq<string>)
    ensures ParseFrom(s, a + b) == ParseFrom(ParseFrom(s, a), b)
    decreases |a|
  {
    if a == [] {
      assert a + b == b;
    } else {
      assert (a + b)[1..] == a[1..] + b;
      ParseFromConcat(Put(s, ReadLine(a[0])), a[1..], b);
    }
  }

  lemma AddedParsed(s: State, lines: seq<string>, field: string, content: string)
    requires IsRuleBaseKey(field)
    ensures ParseFrom(s, lines + [IniReplacement(field, content, "")]) ==
            Put(ParseFrom(s, lines), Assign(field, ReadBack(content)))
  {
    var added := IniReplacement(field, content, "");
    ReadReplacement("", field, content);
    ParseFromConcat(s, lines, [added]);
    ParseFromCons(ParseFrom(s, lines), added, []);
    assert [added] + [] == [added];
  }

  lemma NewLinesThere(lines: seq<string>, field: string, content: string)
    requires AnyStarts(lines, field)
    ensures NewLines(Ini, lines, field, content) == ReplaceLines(Ini, lines, field, content)
  {
    var mapped := ReplaceLines(Ini, lines, field, content);
    assert mapped + [] == mapped;
  }

  lemma NewLinesParsed(lines: seq<string>, field: string, content: string)
    requires IsRuleBaseKey(field)
    ensures var was := ParseFrom(START, lines).fields;
            var now := ParseFrom(START, NewLines(Ini, lines, field, content)).fields;
            (forall key :: key != field ==> Lookup(now, key) == Lookup(was, key)) &&
            Lookup(now, field) == if Lands(lines, field) then Some(ReadBack(content)) else None
  {
    LinesReplaced(START, START, lines, field, content);
    NotReached(lines, "", field);
    if AnyStarts(lines, field) {
      NewLinesThere(lines, field, content);
    } else {
      AddedParsed(START, ReplaceLines(Ini, lines, field, content), field, content);
    }
  }

  // ---------------------------------------------------------------- joining the lines and cutting them again

  lemma ParseFromCons(s: State, line: string, rest: seq<string>)
    ensures ParseFrom(s, [line] + rest) == ParseFrom(Put(s, ReadLine(line)), rest)
  {
    assert ([line] + rest)[1..] == rest;
  }

  lemma ReadStripsCr(line: string)
    ensures ReadLine(StripCr(line)) == ReadLine(line)
  {
    TrimStripsCr(line);
  }

  lemma {:induction false} ParseOfJoined(s: State, lines: seq<string>)
    requires forall l :: l in lines ==> '\n' !in l
    ensures ParseFrom(s, Lines(Join(lines, "\n"))) == ParseFrom(s, lines)
    decreases |lines|
  {
    if |lines| == 1 {
      LinesOfLast(lines[0]);
      assert lines == [lines[0]];
      assert ReadLine("") == Skip;
    } else if lines != [] {
      assert lines[0] in lines;
      var rest := Join(lines[1..], "\n");
      LinesOfCons(lines[0], rest);
      ReadStripsCr(lines[0]);
      ParseFromCons(s, StripCr(lines[0]), Lines(rest));
      ParseOfJoined(Put(s, ReadLine(lines[0])), lines[1..]);
    }
  }

  lemma {:induction false} EscapeHasNoLf(p: string)
    ensures '\n' !in Escape(p)
  {
    if p != "" {
      EscapeCons(p);
      EscapeHasNoLf(p[1..]);
    }
  }

  lemma {:induction false} ReplacedHaveNoLf(lines: seq<string>, field: string, content: string)
    requires IsRuleBaseKey(field) && forall l :: l in lines ==> '\n' !in l
    ensures forall l :: l in ReplaceLines(Ini, lines, field, content) ==> '\n' !in l
  {
    if lines != [] {
      FieldFacts(field);
      EscapeHasNoLf(Plain(content));
      ReplacedHaveNoLf(lines[1..], field, content);
      assert lines[0] in lines;
      assert '\n' !in ReplaceLine(Ini, lines[0], field, content);
    }
  }

  /**
   After a replacement, the other eight rule-base fields keep their values, and the field reads back
   as the embedded content exactly when the replacement lands in a section that counts and the content
   is embeddable.
   */
  lemma IniEmbedding(config: string, field: string, content: string)
    requires IsRuleBaseKey(field)
    ensures var was := ParseFrom(START, Lines(config)).fields;
            var now := ParseFrom(START, Lines(Join(NewLines(Ini, Lines(config), field, content), "\n"))).fields;
            (forall key :: key != field ==> Lookup(now, key) == Lookup(was, key)) &&
            (Lookup(now, field) == Some(Plain(content)) <==>
              Lands(Lines(config), field) && Embeddable(Plain(content)))
  {
    var lines := Lines(config);
    FieldFacts(field);
    EscapeHasNoLf(Plain(content));
    ReplacedHaveNoLf(lines, field, content);
    ParseOfJoined(START, NewLines(Ini, lines, field, content));
    NewLinesParsed(lines, field, content);
    ValueRoundTrip(Plain(content));
  }

  /** A replacement that is read nowhere: the text is a header of a section in which the field does not count. */
  lemma FieldOutside(config: string, field: string, content: string)
    requires IsRuleBaseKey(field) && ForeignHeader(config)
    ensures !Lands(Lines(config), field)
    ensures var lines := NewLines(Ini, Lines(config), field, content);
            lines == [config, IniReplacement(field, content, "")] &&
            Lookup(ParseFrom(START, Lines(Join(lines, "\n"))).fields, field) == None
  {
    LinesOfLast(config);
    OneHeader(config, field, content);
    EscapeHasNoLf(Plain(content));
    FieldFacts(field);
    ReplacedHaveNoLf(Lines(config), field, content);
    ParseOfJoined(START, NewLines(Ini, Lines(config), field, content));
    NewLinesParsed(Lines(config), field, content);
  }

  predicate ForeignHeader(line: string) {
    && line != "" && line[0] == '[' && '\n' !in line
    && ReadLine(line).Header? && !Accepted(ReadLine(line).section)
  }

  lemma ServerHeader()
    ensures ForeignHeader("[server]")
  {
    var line := "[server]";
    TrimOfTrimmed(line);
    var name := Lower(line[1..7]);
    assert ReadLine(line) == Header(name) && name[0] == 's';
  }

  lemma OneHeader(line: string, field: string, content: string)
    requires IsRuleBaseKey(field) && ForeignHeader(line)
    ensures !Lands([line], field) && NewLines(Ini, [line], field, content) == [line, IniReplacement(field, content, "")]
  {
    FieldFacts(field);
    assert !StartsField(line, field);
    NeverReached(line, field, ReadLine(line).section);
    ReplaceLinesSnoc(Ini, [], line, field, content);
    assert [] + [line] == [line] && !AnyStarts([line], field);
  }

  lemma NeverReached(line: string, field: string, name: string)
    requires ReadLine(line) == Header(name) && !Accepted(name) && !StartsField(line, field)
    ensures !Lands([line], field)
  {
    var rest := [line][1..];
    assert rest == [] && LastSection(rest, name) == name && !Reached(rest, name, field);
  }
}
