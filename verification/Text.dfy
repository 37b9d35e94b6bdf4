/** Option and Result, in the shape the other modules use for absent values and errors. */
module Wrappers {
  datatype Option<+T> = None | Some(value: T)
  datatype Result<+T, +E> = Ok(value: T) | Err(error: E)
}

/**
 The string operations of the program's host language, on Unicode text: trimming, searching,
 splitting, joining and cutting into lines.
 */
module Text {
  import opened Wrappers

  /** The Unicode White_Space property, which is what `trim` removes. */
  predicate IsSpace(c: char) {
    '\t' <= c <= '\r' || c == ' ' || c == '\U{85}' || c == '\U{A0}' || c == '\U{1680}' ||
    '\U{2000}' <= c <= '\U{200A}' || c == '\U{2028}' || c == '\U{2029}' || c == '\U{202F}' ||
    c == '\U{205F}' || c == '\U{3000}'
  }

  /** The twenty-five of them. */
  lemma SpacesListed(c: char)
    ensures IsSpace(c) <==>
            c in ['\t', '\n', '\U{B}', '\U{C}', '\r', ' ', '\U{85}', '\U{A0}', '\U{1680}',
                  '\U{2000}', '\U{2001}', '\U{2002}', '\U{2003}', '\U{2004}', '\U{2005}', '\U{2006}', '\U{2007}',
                  '\U{2008}', '\U{2009}', '\U{200A}', '\U{2028}', '\U{2029}', '\U{202F}', '\U{205F}', '\U{3000}']
  {
  }

  function TrimStart(s: string): (r: string)
    ensures |r| <= |s|
    ensures r == "" || !IsSpace(r[0])
    ensures forall c :: c in r ==> c in s
  {
    if s == "" || !IsSpace(s[0]) then s else TrimStart(s[1..])
  }

  function TrimEnd(s: string): (r: string)
    ensures r <= s
    ensures r == "" || !IsSpace(r[|r| - 1])
  {
    if s == "" || !IsSpace(s[|s| - 1]) then s else TrimEnd(s[..|s| - 1])
  }

  function Trim(s: string): (r: string)
    ensures |r| <= |s|
    ensures forall c :: c in r ==> c in s
    ensures r != "" ==> !IsSpace(r[0]) && !IsSpace(r[|r| - 1])
  {
    TrimEnd(TrimStart(s))
  }

  /** Text that no trim shortens. */
  predicate Trimmed(s: string) {
    s == "" || (!IsSpace(s[0]) && !IsSpace(s[|s| - 1]))
  }

  lemma TrimOfTrimmed(s: string)
    ensures Trimmed(s) <==> Trim(s) == s
  {
  }

  lemma {:induction false} TrimEndAfterInk(head: string, tail: string)
    requires head != "" && !IsSpace(head[|head| - 1])
    ensures TrimEnd(head + tail) == head + TrimEnd(tail)
  {
    if tail == "" || !IsSpace(tail[|tail| - 1]) {
      assert head + tail == head + TrimEnd(tail);
    } else {
      assert (head + tail)[..|head + tail| - 1] == head + tail[..|tail| - 1];
      TrimEndAfterInk(head, tail[..|tail| - 1]);
    }
  }

  lemma TrimAfterInk(head: string, tail: string)
    requires head != "" && !IsSpace(head[0]) && !IsSpace(head[|head| - 1])
    ensures Trim(head + tail) == head + TrimEnd(tail)
  {
    TrimEndAfterInk(head, tail);
  }

  predicate AllSpaces(s: string) {
    forall c :: c in s ==> IsSpace(c)
  }

  lemma {:induction false} LeadingSpaces(l: string, s: string)
    requires AllSpaces(l) && s != "" && !IsSpace(s[0])
    ensures TrimStart(l + s) == s
  {
    if l == "" {
      assert l + s == s;
    } else {
      assert (l + s)[1..] == l[1..] + s && l[0] in l;
      LeadingSpaces(l[1..], s);
    }
  }

  lemma {:induction false} SpacesAlone(s: string)
    requires AllSpaces(s)
    ensures Trim(s) == ""
  {
    if s != "" {
      assert s[0] in s;
      SpacesAlone(s[1..]);
    }
  }

  lemma {:induction false} TrailingSpaces(s: string, r: string)
    requires s != "" && !IsSpace(s[|s| - 1]) && AllSpaces(r)
    ensures TrimEnd(s + r) == s
  {
    if r == "" {
      assert s + r == s;
    } else {
      var front := r[..|r| - 1];
      assert (s + r)[..|s + r| - 1] == s + front && r[|r| - 1] in r;
      TrailingSpaces(s, front);
    }
  }

  /** White space before and after does not count. */
  lemma SpacesAround(s: string, l: string, r: string)
    requires s != "" && Trimmed(s) && AllSpaces(l) && AllSpaces(r)
    ensures Trim(l + s + r) == s
  {
    assert (s + r)[0] == s[0];
    LeadingSpaces(l, s + r);
    TrailingSpaces(s, r);
    assert l + s + r == l + (s + r);
  }

  /** `trim_start_matches` and `trim_end_matches` with one character. */
  function TrimStartChar(s: string, c: char): (r: string)
    ensures |r| <= |s|
    ensures r == "" || r[0] != c
  {
    if s == "" || s[0] != c then s else TrimStartChar(s[1..], c)
  }

  function TrimEndChar(s: string, c: char): (r: string)
    ensures r <= s
    ensures r == "" || r[|r| - 1] != c
  {
    if s == "" || s[|s| - 1] != c then s else TrimEndChar(s[..|s| - 1], c)
  }

  /** `trim_matches` with one character. */
  function TrimChar(s: string, c: char): string {
    TrimEndChar(TrimStartChar(s, c), c)
  }

  /** `trim_start_matches` with a non-empty string. */
  function TrimStartMatches(s: string, prefix: string): (r: string)
    requires prefix != ""
    decreases |s|
  {
    if prefix <= s then TrimStartMatches(s[|prefix|..], prefix) else s
  }

  predicate OccursAt(s: string, pat: string, i: int) {
    0 <= i <= |s| - |pat| && s[i..i + |pat|] == pat
  }

  lemma SliceOfTail(s: string, i: nat, j: nat)
    requires 1 <= i <= j <= |s|
    ensures s[i..j] == s[1..][i - 1..j - 1]
  {
    var tail := s[1..];
    var a, b := s[i..j], tail[i - 1..j - 1];
    assert |a| == |b|;
    forall k | 0 <= k < |a| ensures a[k] == b[k] {
      assert a[k] == s[i + k] && b[k] == tail[i - 1 + k] && tail[i - 1 + k] == s[i + k];
    }
  }

  lemma OccursInTail(s: string, pat: string)
    requires s != ""
    ensures forall j :: 1 <= j ==> OccursAt(s, pat, j) == OccursAt(s[1..], pat, j - 1)
  {
    var tail := s[1..];
    forall j | 1 <= j ensures OccursAt(s, pat, j) == OccursAt(tail, pat, j - 1) {
      if j <= |s| - |pat| { SliceOfTail(s, j, j + |pat|); }
    }
  }

  predicate Contains(s: string, pat: string) {
    Find(s, pat).Some?
  }

  /** The first occurrence. */
  function Find(s: string, pat: string): (r: Option<nat>)
    ensures r.Some? ==> OccursAt(s, pat, r.value) && forall j :: 0 <= j < r.value ==> !OccursAt(s, pat, j)
    ensures r.None? ==> forall j :: !OccursAt(s, pat, j)
  {
    if pat <= s then
      assert s[0..|pat|] == pat;
      Some(0)
    else if s == "" then None
    else
      OccursInTail(s, pat);
      match Find(s[1..], pat)
      case None => None
      case Some(i) => Some(i + 1)
  }

  lemma FindIsFirst(s: string, pat: string, i: nat)
    requires OccursAt(s, pat, i)
    requires forall j :: 0 <= j < i ==> !OccursAt(s, pat, j)
    ensures Find(s, pat) == Some(i)
  {
  }

  lemma NoneBeforeFirst(s: string, pat: string, i: nat)
    requires pat != "" && Find(s, pat) == Some(i)
    ensures !Contains(s[..i], pat)
  {
    if Contains(s[..i], pat) {
      var j := Find(s[..i], pat).value;
      assert s[..i][j..j + |pat|] == s[j..j + |pat|];
      assert OccursAt(s, pat, j);
    }
  }

  lemma FindChar(s: string, c: char)
    ensures Find(s, [c]).None? <==> c !in s
    ensures forall i :: Find(s, [c]) == Some(i) <==> 0 <= i < |s| && s[i] == c && c !in s[..i]
  {
    forall i ensures OccursAt(s, [c], i) <==> 0 <= i < |s| && s[i] == c {
      if 0 <= i < |s| { assert s[i..i + 1] == [s[i]]; }
    }
    forall i | 0 <= i < |s| && s[i] == c && c !in s[..i] ensures Find(s, [c]) == Some(i) {
      assert forall j :: 0 <= j < i ==> s[..i][j] == s[j];
      FindIsFirst(s, [c], i);
    }
    assert c in s ==> exists i :: 0 <= i < |s| && s[i] == c;
  }

  /** `split_once`. */
  function SplitOnce(s: string, pat: string): (r: Option<(string, string)>)
    requires pat != ""
    ensures r.None? <==> !Contains(s, pat)
    ensures r.Some? ==> s == r.value.0 + pat + r.value.1 && !Contains(r.value.0, pat)
  {
    match Find(s, pat)
    case None => None
    case Some(i) =>
      NoneBeforeFirst(s, pat, i);
      Some((s[..i], s[i + |pat|..]))
  }

  /** Only one cut has a first half without the separator. */
  lemma SplitOnceUnique(l: string, c: char, r: string)
    requires c !in l
    ensures SplitOnce(l + [c] + r, [c]) == Some((l, r))
  {
    var s := l + [c] + r;
    assert s[..|l|] == l && s[|l| + 1..] == r;
    FindChar(s, c);
  }

  lemma SplitOnceChar(s: string, c: char)
    ensures SplitOnce(s, [c]).None? <==> c !in s
    ensures SplitOnce(s, [c]).Some? ==> c !in SplitOnce(s, [c]).value.0
  {
    FindChar(s, c);
    if SplitOnce(s, [c]).Some? { FindChar(SplitOnce(s, [c]).value.0, c); }
  }

  /** `rsplit_once` on one character. */
  function SplitLast(s: string, c: char): (r: Option<(string, string)>)
    ensures r.None? <==> c !in s
    ensures r.Some? ==> s == r.value.0 + [c] + r.value.1 && c !in r.value.1
  {
    if s == "" then None
    else if s[|s| - 1] == c then Some((s[..|s| - 1], ""))
    else
      match SplitLast(s[..|s| - 1], c)
      case None => None
      case Some((l, r)) => Some((l, r + [s[|s| - 1]]))
  }

  /** Only one cut has a second half without the separator. */
  lemma {:induction false} SplitLastUnique(l: string, c: char, r: string)
    requires c !in r
    ensures SplitLast(l + [c] + r, c) == Some((l, r))
  {
    var s := l + [c] + r;
    if r == "" {
      assert s[..|s| - 1] == l;
    } else {
      assert s[..|s| - 1] == l + [c] + r[..|r| - 1];
      SplitLastUnique(l, c, r[..|r| - 1]);
      assert r == r[..|r| - 1] + [s[|s| - 1]];
    }
  }

  /** `split` on one character; the result always has at least one part. */
  function SplitOn(s: string, c: char): (parts: seq<string>)
    ensures parts != []
    ensures forall p :: p in parts ==> c !in p
  {
    if s == "" then [""]
    else
      var rest := SplitOn(s[1..], c);
      if s[0] == c then [""] + rest else [[s[0]] + rest[0]] + rest[1..]
  }

  function Join(parts: seq<string>, sep: string): string {
    if parts == [] then ""
    else if |parts| == 1 then parts[0]
    else parts[0] + sep + Join(parts[1..], sep)
  }

  lemma {:induction false} SplitOfPart(p: string, c: char)
    requires c !in p
    ensures SplitOn(p, c) == [p]
  {
    if p != "" {
      SplitOfPart(p[1..], c);
      assert p == [p[0]] + p[1..];
    }
  }

  lemma {:induction false} SplitOfCons(p: string, c: char, rest: string)
    requires c !in p
    ensures SplitOn(p + [c] + rest, c) == [p] + SplitOn(rest, c)
  {
    var whole := p + [c] + rest;
    if p == "" {
      assert whole[1..] == rest;
    } else {
      assert whole[1..] == p[1..] + [c] + rest;
      SplitOfCons(p[1..], c, rest);
      assert p == [p[0]] + p[1..];
      assert SplitOn(whole, c) == [[p[0]] + p[1..]] + SplitOn(rest, c);
    }
  }

  /** Splitting undoes joining for parts that hold no separator. */
  lemma {:induction false} SplitOfJoin(parts: seq<string>, c: char)
    requires parts != [] && forall p :: p in parts ==> c !in p
    ensures SplitOn(Join(parts, [c]), c) == parts
  {
    if |parts| == 1 {
      SplitOfPart(parts[0], c);
    } else {
      var rest := parts[1..];
      var text := Join(rest, [c]);
      assert Join(parts, [c]) == parts[0] + [c] + text;
      assert SplitOn(text, c) == rest by { SplitOfJoin(rest, c); }
      SplitOfCons(parts[0], c, text);
      assert parts == [parts[0]] + rest;
    }
  }

  lemma ContainsNeeds(s: string, pat: string, k: nat)
    requires k < |pat|
    ensures Contains(s, pat) ==> pat[k] in s
  {
    if Contains(s, pat) {
      var i := Find(s, pat).value;
      assert pat[k] == s[i..i + |pat|][k] == s[i + k];
    }
  }

  lemma ContainsInfix(l: string, m: string, r: string, pat: string)
    requires Contains(m, pat)
    ensures Contains(l + m + r, pat)
  {
    var i := Find(m, pat).value;
    assert (l + m + r)[|l| + i..|l| + i + |pat|] == m[i..i + |pat|];
    assert OccursAt(l + m + r, pat, |l| + i);
  }

  /** Every part of a split is a stretch of the text that was split. */
  lemma {:induction false} PartOfSplit(s: string, c: char, k: nat) returns (l: string, r: string)
    requires k < |SplitOn(s, c)|
    ensures s == l + SplitOn(s, c)[k] + r
    ensures k == 0 ==> l == ""
  {
    if s == "" {
      l, r := "", "";
    } else {
      var rest := SplitOn(s[1..], c);
      if k == 0 && s[0] == c {
        l, r := "", s;
      } else {
        var k' := if s[0] == c then k - 1 else k;
        l, r := PartOfSplit(s[1..], c, k');
        assert s == [s[0]] + s[1..];
        if k > 0 {
          assert SplitOn(s, c)[k] == rest[k'];
          l := [s[0]] + l;
        } else {
          assert SplitOn(s, c)[0] == [s[0]] + rest[0];
        }
      }
    }
  }

  /** A two-character pattern without the separator lies in one of the two halves or in none. */
  lemma ContainsAcross(l: string, c: char, r: string, pat: string)
    requires |pat| == 2 && c !in pat
    ensures Contains(l + [c] + r, pat) <==> Contains(l, pat) || Contains(r, pat)
  {
    var s := l + [c] + r;
    if Contains(s, pat) {
      var i := Find(s, pat).value;
      assert s[i] == pat[0] && s[i + 1] == pat[1] && s[|l|] == c;
      if i < |l| {
        assert l[i..i + 2] == pat;
        assert OccursAt(l, pat, i);
      } else {
        assert r[i - |l| - 1..i - |l| + 1] == pat;
        assert OccursAt(r, pat, i - |l| - 1);
      }
    }
    if Contains(l, pat) {
      ContainsInfix("", l, [c] + r, pat);
      assert "" + l + ([c] + r) == s;
    }
    if Contains(r, pat) {
      ContainsInfix(l + [c], r, "", pat);
      assert l + [c] + r + "" == s;
    }
  }

  lemma {:induction false} ContainsInJoin(parts: seq<string>, c: char, pat: string)
    requires |pat| == 2 && c !in pat
    ensures Contains(Join(parts, [c]), pat) <==> exists p :: p in parts && Contains(p, pat)
  {
    if |parts| == 1 {
      assert parts[0] in parts;
    } else if parts != [] {
      ContainsAcross(parts[0], c, Join(parts[1..], [c]), pat);
      ContainsInJoin(parts[1..], c, pat);
      assert parts == [parts[0]] + parts[1..];
      assert parts[0] in parts;
    }
  }

  lemma Regroup<T>(a: seq<T>, b: seq<T>, c: seq<T>)
    ensures a + b + c == a + (b + c)
  {
  }

  function StripCr(line: string): (r: string)
    ensures r <= line
  {
    if line != "" && line[|line| - 1] == '\r' then line[..|line| - 1] else line
  }

  /** `str::lines`: cut after every line feed, drop the line feed and one carriage return before it. */
  function Lines(s: string): (ls: seq<string>)
    ensures forall l :: l in ls ==> '\n' !in l
    decreases |s|
  {
    if s == "" then []
    else
      match Find(s, "\n")
      case None =>
        FindChar(s, '\n');
        [s]
      case Some(i) =>
        FindChar(s, '\n');
        [StripCr(s[..i])] + Lines(s[i + 1..])
  }

  predicate EndsInCr(line: string) {
    line != "" && line[|line| - 1] == '\r'
  }

  /** Lines that survive being written out with line feeds and cut again. */
  predicate Tidy(ls: seq<string>) {
    && (forall l :: l in ls ==> '\n' !in l)
    && (forall i :: 0 <= i < |ls| - 1 ==> !EndsInCr(ls[i]))
    && (ls != [] ==> ls[|ls| - 1] != "")
  }

  lemma {:induction false} TrimStartSnoc(s: string, c: char)
    requires IsSpace(c)
    ensures TrimStart(s + [c]) == if TrimStart(s) == "" then "" else TrimStart(s) + [c]
  {
    if s == "" {
      assert s + [c] == [c] && [c][1..] == "";
    } else if IsSpace(s[0]) {
      assert (s + [c])[1..] == s[1..] + [c];
      TrimStartSnoc(s[1..], c);
    }
  }

  lemma TrimStripsCr(line: string)
    ensures Trim(StripCr(line)) == Trim(line)
  {
    if EndsInCr(line) {
      var front := line[..|line| - 1];
      assert line == front + ['\r'];
      TrimStartSnoc(front, '\r');
      var t := TrimStart(front);
      if t != "" { assert (t + ['\r'])[..|t|] == t; }
    }
  }

  lemma LinesOfCons(line: string, rest: string)
    requires '\n' !in line
    ensures Lines(line + "\n" + rest) == [StripCr(line)] + Lines(rest)
  {
    var s := line + "\n" + rest;
    assert s[..|line|] == line && s[|line| + 1..] == rest;
    FindChar(s, '\n');
  }

  lemma LinesOfLast(line: string)
    requires '\n' !in line
    ensures Lines(line) == if line == "" then [] else [line]
  {
    FindChar(line, '\n');
  }

  lemma TidyCons(line: string, rest: seq<string>)
    requires '\n' !in line && rest != []
    ensures Tidy([line] + rest) <==> Tidy(rest) && !EndsInCr(line)
  {
    var ls := [line] + rest;
    assert forall i :: 0 <= i < |rest| ==> ls[i + 1] == rest[i];
    assert ls[|ls| - 1] == rest[|rest| - 1] && ls[0] == line;
    if Tidy(rest) && !EndsInCr(line) {
      forall i | 0 <= i < |ls| - 1 ensures !EndsInCr(ls[i]) {
        if i > 0 { assert ls[i] == rest[i - 1]; }
      }
    }
    if Tidy(ls) {
      forall i | 0 <= i < |rest| - 1 ensures !EndsInCr(rest[i]) { assert rest[i] == ls[i + 1]; }
    }
  }

  /** Writing lines out and cutting them again gives them back exactly when they are tidy. */
  lemma {:induction false} LinesOfJoin(ls: seq<string>)
    requires forall l :: l in ls ==> '\n' !in l
    ensures Lines(Join(ls, "\n")) == ls <==> Tidy(ls)
  {
    if |ls| == 1 {
      LinesOfLast(ls[0]);
    } else if ls != [] {
      var rest := ls[1..];
      assert ls == [ls[0]] + rest;
      LinesOfCons(ls[0], Join(rest, "\n"));
      LinesOfJoin(rest);
      TidyCons(ls[0], rest);
      var again := Lines(Join(ls, "\n"));
      assert again[0] == StripCr(ls[0]) && again[1..] == Lines(Join(rest, "\n"));
    }
  }

  function LowerChar(c: char): char {
    if 'A' <= c <= 'Z' then (c as int + 32) as char else c
  }

  function UpperChar(c: char): char {
    if 'a' <= c <= 'z' then (c as int - 32) as char else c
  }

  /** `to_ascii_lowercase` and `to_ascii_uppercase`. */
  function Lower(s: string): (r: string)
    ensures |r| == |s| && forall i :: 0 <= i < |s| ==> r[i] == LowerChar(s[i])
  {
    seq(|s|, i requires 0 <= i < |s| => LowerChar(s[i]))
  }

  function Upper(s: string): (r: string)
    ensures |r| == |s| && forall i :: 0 <= i < |s| ==> r[i] == UpperChar(s[i])
  {
    seq(|s|, i requires 0 <= i < |s| => UpperChar(s[i]))
  }

  /** Only the letters of ASCII have two cases, in the order of the alphabet. */
  lemma AsciiCases(c: char)
    ensures LowerChar('A') == 'a' && LowerChar('Z') == 'z' && UpperChar('a') == 'A' && UpperChar('z') == 'Z'
    ensures 'A' <= c < 'Z' ==> LowerChar((c as int + 1) as char) as int == LowerChar(c) as int + 1
    ensures 'A' <= c <= 'Z' ==> UpperChar(LowerChar(c)) == c
    ensures 'a' <= c <= 'z' ==> LowerChar(UpperChar(c)) == c && 'A' <= UpperChar(c) <= 'Z'
    ensures !('A' <= c <= 'Z') ==> LowerChar(c) == c
    ensures !('a' <= c <= 'z') ==> UpperChar(c) == c
  {
  }

  predicate EqIgnoreCase(s: string, t: string) {
    Lower(s) == Lower(t)
  }
}
