/** Giving every node a name of its own: the name itself, or the name with the least free number behind it. */
module UniqueNames {
  import opened Ordering
  import opened ShareLinks
  import Decimal

  /** The names tried for a base: the base, then the base with a space and 2, 3, and so on. */
  function Candidate(base: string, k: nat): string
    requires k >= 1
  {
    if k == 1 then base else base + " " + Decimal.Print(k)
  }

  lemma NumberedIsLonger(base: string, k: nat)
    requires k >= 1
    ensures k > 1 <==> |Candidate(base, k)| > |base|
  {
  }

  lemma CandidatesDiffer(base: string, j: nat, k: nat)
    requires 1 <= j && 1 <= k && Candidate(base, j) == Candidate(base, k)
    ensures j == k
  {
    if j > 1 && k > 1 {
      var s := Candidate(base, j);
      assert s[|base| + 1..] == Decimal.Print(j) && s[|base| + 1..] == Decimal.Print(k);
      Decimal.PrintInjective(j, k);
    } else {
      NumberedIsLonger(base, j);
      NumberedIsLonger(base, k);
    }
  }

  function FirstCandidates(base: string, k: nat): (s: set<string>)
    ensures forall n :: n in s <==> exists j :: 1 <= j <= k && n == Candidate(base, j)
  {
    if k == 0 then {} else FirstCandidates(base, k - 1) + {Candidate(base, k)}
  }

  lemma {:induction false} CandidateCount(base: string, k: nat)
    ensures |FirstCandidates(base, k)| == k
  {
    if k > 0 {
      CandidateCount(base, k - 1);
      if Candidate(base, k) in FirstCandidates(base, k - 1) {
        var j :| 1 <= j <= k - 1 && Candidate(base, k) == Candidate(base, j);
        CandidatesDiffer(base, j, k);
      }
    }
  }

  lemma {:induction false} DistinctCount(used: seq<string>)
    ensures |set n | n in used| <= |used|
  {
    if used != [] {
      DistinctCount(used[1..]);
      assert (set n | n in used) == {used[0]} + (set n | n in used[1..]);
    }
  }

  lemma SubsetCount(a: set<string>, b: set<string>)
    requires a <= b
    ensures |a| <= |b|
  {
    assert b == a + (b - a);
  }

  /** No more candidates can be taken than there are names in use. */
  lemma Pigeonhole(base: string, used: seq<string>, k: nat)
    requires forall j :: 1 <= j <= k ==> Candidate(base, j) in used
    ensures k <= |used|
  {
    CandidateCount(base, k);
    DistinctCount(used);
    SubsetCount(FirstCandidates(base, k), set n | n in used);
  }

  predicate TakenBelow(base: string, used: seq<string>, k: nat) {
    forall j :: 1 <= j < k ==> Candidate(base, j) in used
  }

  /** The number of the first free candidate, which comes after at most as many probes as names are in use. */
  function FirstFree(base: string, used: seq<string>, k: nat): (n: nat)
    requires k >= 1 && TakenBelow(base, used, k)
    ensures k <= n <= |used| + 1
    ensures Candidate(base, n) !in used && TakenBelow(base, used, n)
    decreases |used| + 1 - k
  {
    Pigeonhole(base, used, k - 1);
    if Candidate(base, k) !in used then k
    else
      Pigeonhole(base, used, k);
      FirstFree(base, used, k + 1)
  }

  function FreeName(base: string, used: seq<string>): (name: string)
    ensures name !in used
    ensures base !in used ==> name == base
  {
    Candidate(base, FirstFree(base, used, 1))
  }

  /** The names that these bases get, one after the other, when some names are in use. */
  function Allocated(bases: seq<string>, used: seq<string>): (names: seq<string>)
    ensures |names| == |bases|
  {
    if bases == [] then []
    else
      var name := FreeName(bases[0], used);
      [name] + Allocated(bases[1..], used + [name])
  }

  lemma AllocatedCons(base: string, bases: seq<string>, used: seq<string>)
    ensures var name := FreeName(base, used);
            Allocated([base] + bases, used) == [name] + Allocated(bases, used + [name])
  {
    assert ([base] + bases)[1..] == bases;
  }

  lemma {:induction false} AllocatedSnoc(bases: seq<string>, base: string, used: seq<string>)
    ensures var before := Allocated(bases, used);
            Allocated(bases + [base], used) == before + [FreeName(base, used + before)]
  {
    if bases == [] {
      AllocatedCons(base, [], used);
      assert bases + [base] == [base] + [] && used + [] == used;
    } else {
      var name := FreeName(bases[0], used);
      var rest := Allocated(bases[1..], used + [name]);
      AllocatedSnoc(bases[1..], base, used + [name]);
      AllocatedCons(bases[0], bases[1..] + [base], used);
      assert bases + [base] == [bases[0]] + (bases[1..] + [base]);
      assert used + [name] + rest == used + ([name] + rest);
    }
  }

  lemma {:induction false} AllocatedFresh(bases: seq<string>, used: seq<string>)
    ensures var names := Allocated(bases, used);
            Distinct(names) && forall i :: 0 <= i < |names| ==> names[i] !in used
  {
    if bases != [] {
      var name := FreeName(bases[0], used);
      AllocatedFresh(bases[1..], used + [name]);
      var rest := Allocated(bases[1..], used + [name]);
      assert forall i :: 0 <= i < |rest| ==> rest[i] !in used + [name];
    }
  }

  lemma TakenCons(used: seq<string>, name: string, names: seq<string>, i: nat)
    requires 0 < i <= |names| + 1
    ensures used + [name] + names[..i - 1] == used + ([name] + names)[..i]
  {
  }

  /** Every base is in use in the end, and its own holder is the base itself unless it was taken before. */
  lemma {:induction false} BasesAreUsed(bases: seq<string>, used: seq<string>, i: nat)
    requires i < |bases|
    ensures var names := Allocated(bases, used);
            (bases[i] in used || bases[i] in names) &&
            (names[i] == bases[i] <==> bases[i] !in used + names[..i])
  {
    var name := FreeName(bases[0], used);
    var names := Allocated(bases, used);
    if i == 0 {
      assert used + names[..0] == used;
    } else {
      BasesAreUsed(bases[1..], used + [name], i - 1);
      TakenCons(used, name, Allocated(bases[1..], used + [name]), i);
    }
  }

  /** `replace('=', "-")`. */
  function Dashed(s: string): (r: string)
    ensures |r| == |s| && '=' !in r
    ensures '=' !in s ==> r == s
  {
    if s == "" then "" else [if s[0] == '=' then '-' else s[0]] + Dashed(s[1..])
  }

  /** An equals sign becomes a dash, and nothing else changes. */
  lemma {:induction false} DashedAt(s: string, i: nat)
    requires i < |s|
    ensures Dashed(s)[i] == if s[i] == '=' then '-' else s[i]
  {
    if i > 0 { DashedAt(s[1..], i - 1); }
  }

  function NameFor(remark: string, used: seq<string>): string {
    FreeName(Dashed(remark), used)
  }

  /** What `make_unique_remarks` makes of the nodes when these names are in use. */
  function Renamed(nodes: seq<Proxy>, used: seq<string>): (r: seq<Proxy>)
    ensures |r| == |nodes|
  {
    if nodes == [] then []
    else
      var name := NameFor(nodes[0].remark, used);
      [nodes[0].(remark := name)] + Renamed(nodes[1..], used + [name])
  }

  function Remarks(nodes: seq<Proxy>): (names: seq<string>)
    ensures |names| == |nodes| && forall i :: 0 <= i < |nodes| ==> names[i] == nodes[i].remark
  {
    seq(|nodes|, i requires 0 <= i < |nodes| => nodes[i].remark)
  }

  lemma RemarksCons(node: Proxy, rest: seq<Proxy>)
    ensures Remarks([node] + rest) == [node.remark] + Remarks(rest)
  {
  }

  lemma {:induction false} RenamedSnoc(nodes: seq<Proxy>, node: Proxy, used: seq<string>)
    ensures var before := Renamed(nodes, used);
            Renamed(nodes + [node], used)
            == before + [node.(remark := NameFor(node.remark, used + Remarks(before)))]
  {
    if nodes == [] {
      assert nodes + [node] == [node] && used + Remarks([]) == used;
    } else {
      var name := NameFor(nodes[0].remark, used);
      assert (nodes + [node])[1..] == nodes[1..] + [node];
      RenamedSnoc(nodes[1..], node, used + [name]);
      var rest := Renamed(nodes[1..], used + [name]);
      RemarksCons(nodes[0].(remark := name), rest);
      assert used + [name] + Remarks(rest) == used + ([name] + Remarks(rest));
    }
  }

  /** The inner loop: candidates are probed in order, and some candidate is free. */
  method ProbeNames(base: string, used: seq<string>) returns (candidate: string)
    ensures candidate == FreeName(base, used)
  {
    candidate := base;
    var suffix := 2;
    while candidate in used
      invariant suffix >= 2 && candidate == Candidate(base, suffix - 1) && TakenBelow(base, used, suffix - 1)
      invariant FirstFree(base, used, 1) == FirstFree(base, used, suffix - 1)
      decreases |used| + 2 - suffix
    {
      Pigeonhole(base, used, suffix - 1);
      candidate := base + " " + Decimal.Print(suffix);
      suffix := suffix + 1;
    }
  }

  lemma RenamedOneMore(was: seq<Proxy>, i: nat, used: seq<string>)
    requires i < |was| && used == Remarks(Renamed(was[..i], []))
    ensures var node := was[i].(remark := FreeName(Dashed(was[i].remark), used));
            Renamed(was[..i + 1], []) == Renamed(was[..i], []) + [node] &&
            Remarks(Renamed(was[..i + 1], [])) == used + [node.remark]
  {
    RenamedSnoc(was[..i], was[i], []);
    assert was[..i + 1] == was[..i] + [was[i]];
    assert [] + used == used;
  }

  /** `make_unique_remarks` renames the nodes in place. */
  method MakeUniqueRemarks(nodes: array<Proxy>)
    modifies nodes
    ensures nodes[..] == Renamed(old(nodes[..]), [])
  {
    var used: seq<string> := [];
    ghost var was := nodes[..];
    for i := 0 to nodes.Length
      invariant forall j :: i <= j < nodes.Length ==> nodes[j] == was[j]
      invariant nodes[..i] == Renamed(was[..i], []) && used == Remarks(nodes[..i])
    {
      var candidate := ProbeNames(Dashed(nodes[i].remark), used);
      RenamedOneMore(was, i, used);
      nodes[i] := nodes[i].(remark := candidate);
      used := used + [candidate];
      assert nodes[..i + 1] == nodes[..i] + [nodes[i]];
    }
    assert was[..nodes.Length] == was && nodes[..nodes.Length] == nodes[..];
  }

  /** Every name is the least candidate for its base that no earlier node has. */
  lemma {:induction false} NamesAreLeastFree(nodes: seq<Proxy>, used: seq<string>, i: nat) returns (k: nat)
    requires i < |nodes|
    ensures var r := Renamed(nodes, used);
            var taken := used + Remarks(r)[..i];
            1 <= k <= |taken| + 1 && r[i].remark == Candidate(Dashed(nodes[i].remark), k) &&
            r[i].remark !in taken && TakenBelow(Dashed(nodes[i].remark), taken, k)
  {
    var name := NameFor(nodes[0].remark, used);
    var rest := Renamed(nodes[1..], used + [name]);
    RemarksCons(nodes[0].(remark := name), rest);
    if i == 0 {
      k := FirstFree(Dashed(nodes[0].remark), used, 1);
      assert used + Remarks(Renamed(nodes, used))[..0] == used;
    } else {
      k := NamesAreLeastFree(nodes[1..], used + [name], i - 1);
      TakenCons(used, name, Remarks(rest), i);
    }
  }

  /** The candidates of a base without an equals sign have none either. */
  lemma CandidatePlain(base: string, k: nat)
    requires k >= 1 && '=' !in base
    ensures '=' !in Candidate(base, k)
  {
  }

  lemma DistinctCons(name: string, names: seq<string>)
    requires Distinct(names) && forall i :: 0 <= i < |names| ==> names[i] != name
    ensures Distinct([name] + names)
  {
  }

  /** The names differ from one another and hold no equals sign; nothing else about the nodes changes. */
  lemma {:induction false} NamesAreUnique(nodes: seq<Proxy>, used: seq<string>)
    ensures var r := Renamed(nodes, used);
            (forall i :: 0 <= i < |r| ==> r[i] == nodes[i].(remark := r[i].remark) && '=' !in r[i].remark
                                          && r[i].remark !in used) &&
            Distinct(Remarks(r))
  {
    if nodes != [] {
      var name := NameFor(nodes[0].remark, used);
      CandidatePlain(Dashed(nodes[0].remark), FirstFree(Dashed(nodes[0].remark), used, 1));
      NamesAreUnique(nodes[1..], used + [name]);
      var rest := Renamed(nodes[1..], used + [name]);
      forall i | 0 <= i < |rest| ensures rest[i].remark != name && rest[i].remark !in used {
        assert rest[i].remark !in used + [name];
      }
      RemarksCons(nodes[0].(remark := name), rest);
      DistinctCons(name, Remarks(rest));
    }
  }

  /** Nodes whose names are already distinct, free and without equals signs keep them. */
  lemma {:induction false} UniqueNamesKept(nodes: seq<Proxy>, used: seq<string>)
    requires forall i :: 0 <= i < |nodes| ==> '=' !in nodes[i].remark && nodes[i].remark !in used
    requires Distinct(Remarks(nodes))
    ensures Renamed(nodes, used) == nodes
  {
    if nodes != [] {
      assert Remarks(nodes) == [nodes[0].remark] + Remarks(nodes[1..]);
      assert NameFor(nodes[0].remark, used) == nodes[0].remark;
      UniqueNamesKept(nodes[1..], used + [nodes[0].remark]);
    }
  }

  lemma RenamingIsIdempotent(nodes: seq<Proxy>)
    ensures Renamed(Renamed(nodes, []), []) == Renamed(nodes, [])
  {
    NamesAreUnique(nodes, []);
    UniqueNamesKept(Renamed(nodes, []), []);
  }
}
