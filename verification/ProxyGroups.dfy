/**
 The names in a generated Clash configuration: the proxies and the members of the groups. Regular
 expressions are a parameter.
 */
module ProxyGroups {
  import opened Ordering
  import opened ShareLinks
  import opened UniqueNames

  /** Which patterns compile, and what they match. */
  datatype Regexes = Regexes(valid: string -> bool, matches: (string, string) -> bool)

  datatype GroupConfig = GroupConfig(name: string, groupType: string, proxies: seq<string>)

  // ---------------------------------------------------------------- group members

  /** The remarks of the nodes that pass, in order. */
  function RemarksWhere(nodes: seq<Proxy>, pass: Proxy -> bool): seq<string> {
    if nodes == [] then []
    else (if pass(nodes[0]) then [nodes[0].remark] else []) + RemarksWhere(nodes[1..], pass)
  }

  function GroupRemarks(nodes: seq<Proxy>, group: string): seq<string> {
    RemarksWhere(nodes, (node: Proxy) => node.group == group)
  }

  function MatchingRemarks(rx: Regexes, nodes: seq<Proxy>, rule: string): seq<string> {
    RemarksWhere(nodes, (node: Proxy) => rx.matches(rule, node.remark))
  }

  const GROUP_MARK := "!!GROUP="

  /** What one rule of a group contributes. */
  function RuleMembers(rx: Regexes, rule: string, nodes: seq<Proxy>): seq<string> {
    if "[]" <= rule then [rule[2..]]
    else if rule == ".*" then Remarks(nodes)
    else if GROUP_MARK <= rule then GroupRemarks(nodes, rule[|GROUP_MARK|..])
    else if rx.valid(rule) then MatchingRemarks(rx, nodes, rule)
    else [rule]
  }

  function AllMembers(rx: Regexes, rules: seq<string>, nodes: seq<Proxy>): seq<string> {
    if rules == [] then [] else RuleMembers(rx, rules[0], nodes) + AllMembers(rx, rules[1..], nodes)
  }

  /** `Vec::dedup`: of equal neighbours the first is kept. */
  function Dedup(names: seq<string>): seq<string> {
    if |names| < 2 then names
    else if names[0] == names[1] then Dedup(names[1..])
    else [names[0]] + Dedup(names[1..])
  }

  /** `expand_group_rules_refs`. */
  function ExpandGroup(rx: Regexes, rules: seq<string>, nodes: seq<Proxy>): seq<string> {
    Dedup(AllMembers(rx, rules, nodes))
  }

  method ExpandGroupRules(rx: Regexes, rules: seq<string>, nodes: seq<Proxy>) returns (names: seq<string>)
    ensures names == ExpandGroup(rx, rules, nodes)
  {
    names := [];
    assert rules[0..] == rules;
    for i := 0 to |rules|
      invariant AllMembers(rx, rules, nodes) == names + AllMembers(rx, rules[i..], nodes)
    {
      var rule := rules[i];
      assert rules[i..][0] == rule && rules[i..][1..] == rules[i + 1..];
      ghost var rest := AllMembers(rx, rules[i + 1..], nodes);
      assert names + (RuleMembers(rx, rule, nodes) + rest) == names + RuleMembers(rx, rule, nodes) + rest;
      if "[]" <= rule {
        names := names + [rule[2..]];
      } else if rule == ".*" {
        names := names + Remarks(nodes);
      } else if GROUP_MARK <= rule {
        names := names + GroupRemarks(nodes, rule[|GROUP_MARK|..]);
      } else if rx.valid(rule) {
        names := names + MatchingRemarks(rx, nodes, rule);
      } else {
        names := names + [rule];
      }
    }
    assert rules[|rules|..] == [] && names + [] == names;
    names := Dedup(names);
  }

  // ---------------------------------------------------------------- closure

  ghost predicate HasRemark(nodes: seq<Proxy>, pass: Proxy -> bool, name: string) {
    exists i :: 0 <= i < |nodes| && pass(nodes[i]) && nodes[i].remark == name
  }

  lemma {:induction false} RemarksWhereExact(nodes: seq<Proxy>, pass: Proxy -> bool, name: string)
    ensures name in RemarksWhere(nodes, pass) <==> HasRemark(nodes, pass, name)
  {
    if nodes != [] {
      var rest := nodes[1..];
      RemarksWhereExact(rest, pass, name);
      if HasRemark(rest, pass, name) {
        var i :| 0 <= i < |rest| && pass(rest[i]) && rest[i].remark == name;
        assert pass(nodes[i + 1]) && nodes[i + 1].remark == name;
      }
      if HasRemark(nodes, pass, name) {
        var i :| 0 <= i < |nodes| && pass(nodes[i]) && nodes[i].remark == name;
        assert i > 0 ==> rest[i - 1] == nodes[i];
      }
    }
  }

  /** Whether a rule picks a node: every node, the nodes of a group, or those whose remark matches. */
  predicate Selects(rx: Regexes, rule: string, node: Proxy) {
    if rule == ".*" then true
    else if "!!GROUP=" <= rule then "!!GROUP=" + node.group == rule
    else rx.valid(rule) && rx.matches(rule, node.remark)
  }

  /** A rule that stands for itself: neither a `[]` name nor one that picks nodes. */
  predicate IsLiteral(rx: Regexes, rule: string) {
    !("[]" <= rule) && rule != ".*" && !("!!GROUP=" <= rule) && !rx.valid(rule)
  }

  /** A rule contributes a name: as a `[]` name, as the remark of a node it picks, or as itself. */
  ghost predicate Contributes(rx: Regexes, rule: string, nodes: seq<Proxy>, name: string) {
    || rule == "[]" + name
    || (!("[]" <= rule) && HasRemark(nodes, node => Selects(rx, rule, node), name))
    || (IsLiteral(rx, rule) && rule == name)
  }

  lemma SamePass(nodes: seq<Proxy>, pass: Proxy -> bool, other: Proxy -> bool, name: string)
    requires forall node :: pass(node) == other(node)
    ensures HasRemark(nodes, pass, name) == HasRemark(nodes, other, name)
  {
  }

  lemma RuleMembersExact(rx: Regexes, rule: string, nodes: seq<Proxy>, name: string)
    ensures name in RuleMembers(rx, rule, nodes) <==> Contributes(rx, rule, nodes, name)
  {
    var pass := (node: Proxy) => Selects(rx, rule, node);
    if "[]" <= rule {
      assert rule == "[]" + rule[2..];
      assert rule == "[]" + name ==> rule[2..] == name;
    } else if rule == ".*" {
      assert name in Remarks(nodes) <==> exists i :: 0 <= i < |nodes| && Remarks(nodes)[i] == name;
    } else if GROUP_MARK <= rule {
      var group := rule[|GROUP_MARK|..];
      forall node: Proxy ensures pass(node) == (node.group == group) {
        assert GROUP_MARK + group == rule;
        assert GROUP_MARK + node.group == rule ==> node.group == group;
      }
      RemarksWhereExact(nodes, (node: Proxy) => node.group == group, name);
      SamePass(nodes, pass, (node: Proxy) => node.group == group, name);
    } else if rx.valid(rule) {
      RemarksWhereExact(nodes, (node: Proxy) => rx.matches(rule, node.remark), name);
      SamePass(nodes, pass, (node: Proxy) => rx.matches(rule, node.remark), name);
    }
  }

  /** A name is a member exactly when some rule contributes it. */
  lemma {:induction false} MembersExact(rx: Regexes, rules: seq<string>, nodes: seq<Proxy>, name: string)
    ensures name in AllMembers(rx, rules, nodes) <==> exists rule :: rule in rules && Contributes(rx, rule, nodes, name)
  {
    if rules != [] {
      RuleMembersExact(rx, rules[0], nodes, name);
      MembersExact(rx, rules[1..], nodes, name);
      assert rules == [rules[0]] + rules[1..];
    }
  }

  /** A member is a literal of the configuration: a `[]` name, or a rule that is no valid pattern. */
  predicate LiteralMember(rx: Regexes, rules: seq<string>, name: string) {
    ("[]" + name) in rules || (name in rules && IsLiteral(rx, name))
  }

  lemma MembersClosed(rx: Regexes, rules: seq<string>, nodes: seq<Proxy>, name: string)
    requires name in AllMembers(rx, rules, nodes)
    ensures name in Remarks(nodes) || LiteralMember(rx, rules, name)
  {
    MembersExact(rx, rules, nodes, name);
    var rule :| rule in rules && Contributes(rx, rule, nodes, name);
    var pass := (node: Proxy) => Selects(rx, rule, node);
    if rule != "[]" + name && HasRemark(nodes, pass, name) {
      var i :| 0 <= i < |nodes| && pass(nodes[i]) && nodes[i].remark == name;
      assert Remarks(nodes)[i] == name;
    }
  }

  /** The members of a group: what its rules contribute, without repeated neighbours. */
  lemma GroupMembersExact(rx: Regexes, rules: seq<string>, nodes: seq<Proxy>, name: string)
    ensures name in ExpandGroup(rx, rules, nodes) <==>
            exists rule :: rule in rules && Contributes(rx, rule, nodes, name)
  {
    MembersExact(rx, rules, nodes, name);
    DedupKeepsNames(AllMembers(rx, rules, nodes));
  }

  /** Removing repeated neighbours keeps the names that occur and leaves no two equal neighbours. */
  lemma {:induction false} DedupKeepsNames(names: seq<string>)
    ensures forall n :: n in Dedup(names) <==> n in names
    ensures forall i :: 0 < i < |Dedup(names)| ==> Dedup(names)[i - 1] != Dedup(names)[i]
    ensures names != [] ==> Dedup(names) != [] && Dedup(names)[0] == names[0]
  {
    if |names| >= 2 {
      DedupKeepsNames(names[1..]);
      assert names == [names[0]] + names[1..];
    }
  }

  /** The part of the generated configuration that refers to names. */
  datatype ClashNames = ClashNames(proxies: seq<string>, groups: seq<(string, seq<string>)>)

  function MembersOf(rx: Regexes, group: GroupConfig, nodes: seq<Proxy>): seq<string> {
    var members := ExpandGroup(rx, group.proxies, nodes);
    if members == [] then Remarks(nodes) else members
  }

  function GroupsFor(rx: Regexes, groups: seq<GroupConfig>, nodes: seq<Proxy>): (r: seq<(string, seq<string>)>)
    ensures |r| == |groups|
    ensures forall i :: 0 <= i < |groups| ==> r[i] == (groups[i].name, MembersOf(rx, groups[i], nodes))
  {
    if groups == [] then []
    else [(groups[0].name, MembersOf(rx, groups[0], nodes))] + GroupsFor(rx, groups[1..], nodes)
  }

  /** `clash_proxy_groups_refs`. */
  function ClashGroups(rx: Regexes, groups: seq<GroupConfig>, nodes: seq<Proxy>): seq<(string, seq<string>)> {
    if groups == [] then [("Proxy", Remarks(nodes))] else GroupsFor(rx, groups, nodes)
  }

  function Kept(nodes: seq<Proxy>, keep: Proxy -> bool): seq<Proxy> {
    if nodes == [] then [] else (if keep(nodes[0]) then [nodes[0]] else []) + Kept(nodes[1..], keep)
  }

  /** `target_supports_proxy` for the two Clash targets. */
  predicate Supported(node: Proxy) {
    node.proxyType != Unknown
  }

  datatype Options = Options(clashR: bool, filterDeprecated: bool)

  const SSR_CIPHERS := ["rc4-md5", "aes-128-ctr", "aes-192-ctr", "aes-256-ctr", "aes-128-cfb", "aes-192-cfb",
                        "aes-256-cfb", "chacha20-ietf", "xchacha20", "none"]
  const SSR_PROTOCOLS := ["origin", "auth_sha1_v4", "auth_aes128_md5", "auth_aes128_sha1",
                           "auth_chain_a", "auth_chain_b"]
  const SSR_OBFS := ["plain", "http_simple", "http_post", "random_head", "tls1.2_ticket_auth", "tls1.2_ticket_fastauth"]

  /** `is_deprecated_for_clash`. */
  predicate Deprecated(node: Proxy, options: Options) {
    options.filterDeprecated &&
    match node.proxyType
    case Shadowsocks => node.encryptMethod == "chacha20"
    case ShadowsocksR =>
      || (!options.clashR && node.encryptMethod !in SSR_CIPHERS)
      || node.protocol !in SSR_PROTOCOLS || node.obfs !in SSR_OBFS
    case _ => false
  }

  /** The nodes the groups list: those supported, renamed, without the deprecated ones. */
  function Shown(nodes: seq<Proxy>, options: Options): seq<Proxy> {
    Kept(Renamed(Kept(nodes, Supported), []), node => !Deprecated(node, options))
  }

  /** The node types for which the loop of `export_clash` writes an entry. */
  predicate HasEntry(node: Proxy) {
    match node.proxyType
    case Unknown => false
    case _ => true
  }

  /** The names of the entries under `proxies`. */
  function Written(nodes: seq<Proxy>): seq<string> {
    RemarksWhere(nodes, HasEntry)
  }

  /** The names of the generated configuration. */
  function Export(rx: Regexes, groups: seq<GroupConfig>, nodes: seq<Proxy>, options: Options): ClashNames {
    ClashNames(Written(Shown(nodes, options)), ClashGroups(rx, groups, Shown(nodes, options)))
  }

  lemma {:induction false} RemarksWhereSnoc(nodes: seq<Proxy>, node: Proxy, pass: Proxy -> bool)
    ensures RemarksWhere(nodes + [node], pass)
            == RemarksWhere(nodes, pass) + if pass(node) then [node.remark] else []
  {
    if nodes == [] {
      assert nodes + [node] == [node] && [node][1..] == [];
      assert RemarksWhere([node][1..], pass) == [];
    } else {
      assert (nodes + [node])[1..] == nodes[1..] + [node];
      RemarksWhereSnoc(nodes[1..], node, pass);
    }
  }

  /** The loop of `export_clash` over its nodes, as far as the names go. */
  method WriteProxies(nodes: seq<Proxy>) returns (names: seq<string>)
    ensures names == Written(nodes)
  {
    names := [];
    for i := 0 to |nodes|
      invariant names == Written(nodes[..i])
    {
      var node := nodes[i];
      RemarksWhereSnoc(nodes[..i], node, HasEntry);
      assert nodes[..i + 1] == nodes[..i] + [node];
      if node.proxyType == Unknown { continue; }
      names := names + [node.remark];
    }
    assert nodes[..|nodes|] == nodes;
  }

  /** `export_nodes` and `export_clash`, as far as the names go. */
  method ExportClash(rx: Regexes, groups: seq<GroupConfig>, nodes: seq<Proxy>, options: Options)
    returns (out: ClashNames)
    ensures out == Export(rx, groups, nodes, options)
  {
    var kept := Kept(nodes, Supported);
    var compatible := new Proxy[|kept|](i requires 0 <= i < |kept| => kept[i]);
    assert compatible[..] == kept;
    MakeUniqueRemarks(compatible);
    var shown := Kept(compatible[..], node => !Deprecated(node, options));
    var proxies := WriteProxies(shown);
    out := ClashNames(proxies, ClashGroups(rx, groups, shown));
  }

  /** The loop writes every node it is given exactly when none has the unknown type. */
  lemma {:induction false} WritesAll(nodes: seq<Proxy>)
    ensures |Written(nodes)| <= |nodes|
    ensures Written(nodes) == Remarks(nodes) <==> forall n :: n in nodes ==> n.proxyType != Unknown
  {
    if nodes != [] {
      WritesAll(nodes[1..]);
      assert nodes == [nodes[0]] + nodes[1..];
      RemarksCons(nodes[0], nodes[1..]);
      if HasEntry(nodes[0]) {
        assert Written(nodes) == [nodes[0].remark] + Written(nodes[1..]);
        assert Written(nodes)[1..] == Written(nodes[1..]) && Remarks(nodes)[1..] == Remarks(nodes[1..]);
      } else {
        assert Written(nodes) == Written(nodes[1..]);
        assert nodes[0] in nodes;
      }
    }
  }

  /** The support table lets no unknown type through, so the entries are the nodes that the groups list. */
  lemma EntriesAreShown(nodes: seq<Proxy>, options: Options)
    ensures Written(Shown(nodes, options)) == Remarks(Shown(nodes, options))
  {
    var kept := Kept(nodes, Supported);
    var named := Renamed(kept, []);
    KeptIsSublist(nodes, Supported);
    KeptIsSublist(named, node => !Deprecated(node, options));
    NamesAreUnique(kept, []);
    forall n | n in Shown(nodes, options) ensures HasEntry(n) {
      var i :| 0 <= i < |named| && named[i] == n;
      assert kept[i] in kept;
    }
    WritesAll(Shown(nodes, options));
  }

  lemma {:induction false} KeptIsSublist(nodes: seq<Proxy>, keep: Proxy -> bool)
    ensures forall n :: n in Kept(nodes, keep) ==> n in nodes && keep(n)
  {
    if nodes != [] { KeptIsSublist(nodes[1..], keep); }
  }

  lemma {:induction false} KeptStaysDistinct(nodes: seq<Proxy>, keep: Proxy -> bool)
    requires Distinct(Remarks(nodes))
    ensures Distinct(Remarks(Kept(nodes, keep)))
  {
    if nodes != [] {
      var names, rest := Remarks(nodes), Kept(nodes[1..], keep);
      assert names == [nodes[0].remark] + Remarks(nodes[1..]);
      KeptStaysDistinct(nodes[1..], keep);
      KeptIsSublist(nodes[1..], keep);
      forall i | 0 <= i < |rest| ensures rest[i].remark != nodes[0].remark {
        assert rest[i] in nodes[1..];
        var j :| 0 <= j < |nodes[1..]| && nodes[1..][j] == rest[i];
        assert names[j + 1] == rest[i].remark && names[0] == nodes[0].remark;
      }
      if keep(nodes[0]) {
        assert Remarks([nodes[0]] + rest) == [nodes[0].remark] + Remarks(rest);
      } else {
        assert Kept(nodes, keep) == rest;
      }
    }
  }

  lemma GroupIsClosed(rx: Regexes, group: GroupConfig, nodes: seq<Proxy>)
    ensures forall n :: n in MembersOf(rx, group, nodes) ==>
              n in Remarks(nodes) || LiteralMember(rx, group.proxies, n)
  {
    DedupKeepsNames(AllMembers(rx, group.proxies, nodes));
    forall n | n in ExpandGroup(rx, group.proxies, nodes)
      ensures n in Remarks(nodes) || LiteralMember(rx, group.proxies, n)
    {
      MembersClosed(rx, group.proxies, nodes, n);
    }
  }

  /** The proxies have distinct names, and every group member is one of them or a literal of the configuration. */
  lemma NamesAreClosed(rx: Regexes, groups: seq<GroupConfig>, nodes: seq<Proxy>, options: Options)
    ensures var out := Export(rx, groups, nodes, options);
            Distinct(out.proxies) &&
            (forall i, n :: 0 <= i < |out.groups| && n in out.groups[i].1 ==>
              n in out.proxies || (i < |groups| && LiteralMember(rx, groups[i].proxies, n)))
  {
    var named := Renamed(Kept(nodes, Supported), []);
    var shown := Shown(nodes, options);
    NamesAreUnique(Kept(nodes, Supported), []);
    KeptStaysDistinct(named, node => !Deprecated(node, options));
    EntriesAreShown(nodes, options);
    forall i | 0 <= i < |groups|
      ensures forall n :: n in MembersOf(rx, groups[i], shown) ==>
                n in Remarks(shown) || LiteralMember(rx, groups[i].proxies, n)
    {
      GroupIsClosed(rx, groups[i], shown);
    }
  }

  // ---------------------------------------------------------------- the order of the members

  /** In order, exactly the places of the nodes that pass. */
  ghost predicate PlacesOf(nodes: seq<Proxy>, pass: Proxy -> bool, at: seq<nat>) {
    && (forall k :: 0 <= k < |at| ==> at[k] < |nodes|)
    && (forall j, k :: 0 <= j < k < |at| ==> at[j] < at[k])
    && (forall i {:trigger i in at} :: 0 <= i < |nodes| ==> (i in at <==> pass(nodes[i])))
  }

  lemma PlacesSnoc(nodes: seq<Proxy>, node: Proxy, pass: Proxy -> bool, at: seq<nat>)
    requires PlacesOf(nodes, pass, at)
    ensures PlacesOf(nodes + [node], pass, if pass(node) then at + [|nodes|] else at)
  {
    var all := nodes + [node];
    var at' := if pass(node) then at + [|nodes|] else at;
    forall i {:trigger i in at'} | 0 <= i < |all| ensures i in at' <==> pass(all[i]) {
      assert i in at' <==> i in at || (pass(node) && i == |nodes|);
    }
  }

  /** The remarks of the nodes that pass, in the order of the nodes. */
  lemma {:induction false} RemarksInOrder(nodes: seq<Proxy>, pass: Proxy -> bool) returns (at: seq<nat>)
    ensures PlacesOf(nodes, pass, at) && |RemarksWhere(nodes, pass)| == |at|
    ensures forall k :: 0 <= k < |at| ==> RemarksWhere(nodes, pass)[k] == nodes[at[k]].remark
  {
    if nodes == [] {
      at := [];
    } else {
      var front, node := nodes[..|nodes| - 1], nodes[|nodes| - 1];
      assert nodes == front + [node];
      var before := RemarksInOrder(front, pass);
      PlacesSnoc(front, node, pass, before);
      RemarksWhereSnoc(front, node, pass);
      at := if pass(node) then before + [|front|] else before;
    }
  }

  /** What each kind of rule gives, in order, for the nodes that it picks. */
  lemma RuleInOrder(rx: Regexes, rule: string, nodes: seq<Proxy>) returns (at: seq<nat>)
    ensures "[]" <= rule ==> RuleMembers(rx, rule, nodes) == [rule[2..]]
    ensures IsLiteral(rx, rule) ==> RuleMembers(rx, rule, nodes) == [rule]
    ensures !("[]" <= rule) && !IsLiteral(rx, rule) ==>
              PlacesOf(nodes, node => Selects(rx, rule, node), at) && |RuleMembers(rx, rule, nodes)| == |at| &&
              forall k :: 0 <= k < |at| ==> RuleMembers(rx, rule, nodes)[k] == nodes[at[k]].remark
  {
    var pass := (node: Proxy) => Selects(rx, rule, node);
    at := RemarksInOrder(nodes, pass);
    if !("[]" <= rule) && !IsLiteral(rx, rule) { RuleIsWhere(rx, rule, nodes); }
  }

  lemma RuleIsWhere(rx: Regexes, rule: string, nodes: seq<Proxy>)
    requires !("[]" <= rule) && !IsLiteral(rx, rule)
    ensures RuleMembers(rx, rule, nodes) == RemarksWhere(nodes, node => Selects(rx, rule, node))
  {
    var pass := (node: Proxy) => Selects(rx, rule, node);
    if rule == ".*" {
      AllRemarks(nodes, pass);
    } else if GROUP_MARK <= rule {
      var group := rule[|GROUP_MARK|..];
      forall node: Proxy ensures pass(node) == (node.group == group) {
        assert GROUP_MARK + group == rule;
        assert GROUP_MARK + node.group == rule ==> node.group == group;
      }
      SameWhere(nodes, pass, (node: Proxy) => node.group == group);
    } else {
      SameWhere(nodes, pass, (node: Proxy) => rx.matches(rule, node.remark));
    }
  }

  lemma {:induction false} SameWhere(nodes: seq<Proxy>, pass: Proxy -> bool, other: Proxy -> bool)
    requires forall node :: pass(node) == other(node)
    ensures RemarksWhere(nodes, pass) == RemarksWhere(nodes, other)
  {
    if nodes != [] { SameWhere(nodes[1..], pass, other); }
  }

  lemma {:induction false} AllRemarks(nodes: seq<Proxy>, pass: Proxy -> bool)
    requires forall node :: pass(node)
    ensures RemarksWhere(nodes, pass) == Remarks(nodes)
  {
    if nodes != [] {
      AllRemarks(nodes[1..], pass);
      RemarksCons(nodes[0], nodes[1..]);
      assert nodes == [nodes[0]] + nodes[1..];
    }
  }

  /** The rules of a group give their members one after the other. */
  lemma {:induction false} RulesInOrder(rx: Regexes, rules: seq<string>, more: seq<string>, nodes: seq<Proxy>)
    ensures AllMembers(rx, rules + more, nodes) == AllMembers(rx, rules, nodes) + AllMembers(rx, more, nodes)
  {
    if rules == [] {
      assert rules + more == more;
    } else {
      assert (rules + more)[1..] == rules[1..] + more;
      RulesInOrder(rx, rules[1..], more, nodes);
    }
  }

  /** Every name as often as its count says, one after the other. */
  function Repeated(names: seq<string>, counts: seq<nat>): seq<string>
    requires |names| == |counts|
  {
    if names == [] then [] else seq(counts[0], i => names[0]) + Repeated(names[1..], counts[1..])
  }

  /** A list is its runs: each name left over, repeated. */
  lemma {:induction false} DedupedRuns(names: seq<string>) returns (counts: seq<nat>)
    ensures |counts| == |Dedup(names)| && (forall i :: 0 <= i < |counts| ==> counts[i] > 0)
    ensures names == Repeated(Dedup(names), counts)
  {
    if names == [] {
      counts := [];
    } else if |names| == 1 {
      counts := [1];
      assert Repeated([], []) == [];
    } else {
      var rest := DedupedRuns(names[1..]);
      DedupKeepsNames(names[1..]);
      if names[0] == names[1] {
        counts := [rest[0] + 1] + rest[1..];
        assert counts[1..] == rest[1..];
      } else {
        counts := [1] + rest;
        assert counts[1..] == rest && Dedup(names)[1..] == Dedup(names[1..]);
      }
    }
  }

  // ---------------------------------------------------------------- the exported names

  /** The groups of the configuration; a group that would be empty lists everything, and one stands for none. */
  lemma ExportedGroups(rx: Regexes, groups: seq<GroupConfig>, nodes: seq<Proxy>, options: Options)
    ensures var out := Export(rx, groups, nodes, options);
            var shown := Shown(nodes, options);
            out.proxies == Remarks(shown) &&
            (groups == [] ==> out.groups == [("Proxy", Remarks(shown))]) &&
            (groups != [] ==> |out.groups| == |groups|) &&
            forall i :: 0 <= i < |groups| ==>
              out.groups[i].0 == groups[i].name &&
              out.groups[i].1 == if ExpandGroup(rx, groups[i].proxies, shown) == [] then Remarks(shown)
                                 else ExpandGroup(rx, groups[i].proxies, shown)
  {
    EntriesAreShown(nodes, options);
  }

  predicate Within(word: string, words: seq<string>) {
    exists i :: 0 <= i < |words| && words[i] == word
  }

  /** The nodes left out besides those of an unknown type, if the deprecated ones are filtered. */
  predicate LeftOut(node: Proxy, clashR: bool) {
    || (node.proxyType == Shadowsocks && node.encryptMethod == "chacha20")
    || (node.proxyType == ShadowsocksR && !clashR &&
        !Within(node.encryptMethod, ["rc4-md5", "aes-128-ctr", "aes-192-ctr", "aes-256-ctr", "aes-128-cfb",
                                     "aes-192-cfb", "aes-256-cfb", "chacha20-ietf", "xchacha20", "none"]))
    || (node.proxyType == ShadowsocksR &&
        !Within(node.protocol, ["origin", "auth_sha1_v4", "auth_aes128_md5", "auth_aes128_sha1", "auth_chain_a",
                                "auth_chain_b"]))
    || (node.proxyType == ShadowsocksR &&
        !Within(node.obfs, ["plain", "http_simple", "http_post", "random_head", "tls1.2_ticket_auth",
                            "tls1.2_ticket_fastauth"]))
  }

  /** Which nodes are listed: those of a known type that are not filtered, under their new names, in their order. */
  lemma {:induction false} ListedNodes(nodes: seq<Proxy>, options: Options)
    ensures Shown(nodes, options) ==
            Kept(Renamed(Kept(nodes, (node: Proxy) => node.proxyType != Unknown), []),
                 node => !(options.filterDeprecated && LeftOut(node, options.clashR)))
  {
    SameKept(nodes, Supported, (node: Proxy) => node.proxyType != Unknown);
    SameKept(Renamed(Kept(nodes, Supported), []), node => !Deprecated(node, options),
             node => !(options.filterDeprecated && LeftOut(node, options.clashR)));
  }

  /** The kept nodes are those at these places. */
  ghost predicate KeptAt(nodes: seq<Proxy>, keep: Proxy -> bool, at: seq<nat>) {
    && |Kept(nodes, keep)| == |at|
    && forall k :: 0 <= k < |at| ==> at[k] < |nodes| && Kept(nodes, keep)[k] == nodes[at[k]]
  }

  lemma KeptOneMore(front: seq<Proxy>, node: Proxy, keep: Proxy -> bool, at: seq<nat>)
    requires KeptAt(front, keep, at)
    ensures KeptAt(front + [node], keep, if keep(node) then at + [|front|] else at)
  {
    KeptSnoc(front, node, keep);
    if !keep(node) { assert Kept(front, keep) + [] == Kept(front, keep); }
  }

  /** Filtering keeps exactly the nodes that pass, in their order. */
  lemma {:induction false} KeptInOrder(nodes: seq<Proxy>, keep: Proxy -> bool) returns (at: seq<nat>)
    ensures PlacesOf(nodes, keep, at) && KeptAt(nodes, keep, at)
  {
    if nodes == [] {
      at := [];
    } else {
      var front, node := nodes[..|nodes| - 1], nodes[|nodes| - 1];
      assert nodes == front + [node];
      var before := KeptInOrder(front, keep);
      PlacesSnoc(front, node, keep, before);
      KeptOneMore(front, node, keep, before);
      at := if keep(node) then before + [|front|] else before;
    }
  }

  lemma KeptCons(node: Proxy, rest: seq<Proxy>, keep: Proxy -> bool)
    ensures Kept([node] + rest, keep) == (if keep(node) then [node] else []) + Kept(rest, keep)
  {
    assert ([node] + rest)[1..] == rest;
  }

  lemma {:induction false} KeptSnoc(nodes: seq<Proxy>, node: Proxy, keep: Proxy -> bool)
    ensures Kept(nodes + [node], keep) == Kept(nodes, keep) + if keep(node) then [node] else []
  {
    var last := if keep(node) then [node] else [];
    if nodes == [] {
      assert nodes + [node] == [node] + [];
      KeptCons(node, [], keep);
    } else {
      var first, rest := nodes[0], nodes[1..];
      assert nodes == [first] + rest && nodes + [node] == [first] + (rest + [node]);
      KeptSnoc(rest, node, keep);
      KeptCons(first, rest, keep);
      KeptCons(first, rest + [node], keep);
      assert [] + last == last;
    }
  }

  lemma {:induction false} SameKept(nodes: seq<Proxy>, keep: Proxy -> bool, other: Proxy -> bool)
    requires forall node :: keep(node) == other(node)
    ensures Kept(nodes, keep) == Kept(nodes, other)
  {
    if nodes != [] { SameKept(nodes[1..], keep, other); }
  }
}
