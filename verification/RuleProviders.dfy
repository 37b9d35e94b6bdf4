/**
 The rule providers of a generated Clash configuration: which rulesets are managed, the keys their
 providers get, and the names their rules use.
 */
module RuleProviders {
  import opened Ordering
  import opened Wrappers
  import opened Text
  import opened UniqueNames
  import opened Hashes
  import Decimal

  datatype RulesetConfig = RulesetConfig(group: string, url: string, interval: int)

  datatype Settings = Settings(
    rulesets: seq<RulesetConfig>,
    managedPrefix: string,
    expandRulesets: bool,
    classicRuleset: bool)

  // ---------------------------------------------------------------- rule providers

  function StripFirst(url: string, prefixes: seq<string>): string {
    if prefixes == [] then url
    else if prefixes[0] <= url then url[|prefixes[0]|..]
    else StripFirst(url, prefixes[1..])
  }

  const PREFIXES := ["surge:", "quanx:", "clash-domain:", "clash-ipcidr:", "clash-classic:"]

  /** `clash_ruleset_path`. */
  function RulesetPath(url: string): string {
    StripFirst(url, PREFIXES)
  }

  /** `clash_ruleset_provider_type`. */
  function ProviderType(url: string): Option<nat> {
    if "clash-domain:" <= url then Some(3)
    else if "clash-ipcidr:" <= url then Some(4)
    else if "clash-classic:" <= url then Some(6)
    else None
  }

  /** `clash_rule_provider_behavior`. */
  function ProviderBehavior(url: string, classic: bool): Option<Behavior> {
    if classic then (if ProviderType(url).Some? then Some(Classical) else None)
    else if "clash-domain:" <= url then Some(Domain)
    else if "clash-ipcidr:" <= url then Some(IpCidr)
    else if "clash-classic:" <= url then Some(Classical)
    else None
  }

  /** `clash_should_use_rule_provider`. */
  predicate Managed(ruleset: RulesetConfig, settings: Settings) {
    !settings.expandRulesets && settings.managedPrefix != "" && ProviderType(ruleset.url).Some?
  }

  function LastSegment(path: string): string {
    if path == "" then ""
    else if path[|path| - 1] == '/' || path[|path| - 1] == '\\' then ""
    else LastSegment(path[..|path| - 1]) + [path[|path| - 1]]
  }

  /** `clash_rule_provider_name`. */
  function ProviderName(ruleset: RulesetConfig): string {
    var path := RulesetPath(ruleset.url);
    if LastSegment(path) == "" then path else LastSegment(path)
  }

  /** `source` and `ruleType` stand for the address, `{prefix}/getruleset?type={ruleType}&url={source}`. */
  datatype Provider = Provider(behavior: Behavior, ruleType: nat, source: string, path: string, interval: int)

  function ProviderOf(ruleset: RulesetConfig, settings: Settings): Option<Provider> {
    match ProviderBehavior(ruleset.url, settings.classicRuleset)
    case None => None
    case Some(b) =>
      Some(Provider(b, match b case Domain => 3 case IpCidr => 4 case Classical => 6,
                    ruleset.url, ProviderPath(ruleset.url, b), ruleset.interval))
  }

  function ManagedOf(rulesets: seq<RulesetConfig>, settings: Settings): seq<RulesetConfig> {
    if rulesets == [] then []
    else (if Managed(rulesets[0], settings) then [rulesets[0]] else []) + ManagedOf(rulesets[1..], settings)
  }

  function ProviderNames(managed: seq<RulesetConfig>): (names: seq<string>)
    ensures |names| == |managed| && forall i :: 0 <= i < |managed| ==> names[i] == ProviderName(managed[i])
  {
    if managed == [] then [] else [ProviderName(managed[0])] + ProviderNames(managed[1..])
  }

  /** The keys under which these rulesets are inserted. */
  function Keys(managed: seq<RulesetConfig>): (keys: seq<string>)
    ensures |keys| == |managed|
  {
    Allocated(ProviderNames(managed), [])
  }

  type Providers = map<string, Provider>

  /** The map holds one provider for each of these rulesets, under its key. */
  ghost predicate Built(providers: Providers, keys: seq<string>, managed: seq<RulesetConfig>, settings: Settings) {
    && |keys| == |managed|
    && (forall k :: k in providers <==> k in keys)
    && Distinct(keys)
    && (forall i :: 0 <= i < |keys| ==> Some(providers[keys[i]]) == ProviderOf(managed[i], settings))
  }

  lemma BuiltInsert(providers: Providers, keys: seq<string>, managed: seq<RulesetConfig>, settings: Settings,
                    ruleset: RulesetConfig, key: string, provider: Provider)
    requires Built(providers, keys, managed, settings)
    requires key !in keys && ProviderOf(ruleset, settings) == Some(provider)
    ensures Built(providers[key := provider], keys + [key], managed + [ruleset], settings)
  {
  }

  function ManagedUpTo(settings: Settings, i: nat): seq<RulesetConfig>
    requires i <= |settings.rulesets|
  {
    ManagedOf(settings.rulesets[..i], settings)
  }

  ghost predicate BuiltUpTo(providers: Providers, keys: seq<string>, settings: Settings, i: nat)
    requires i <= |settings.rulesets|
  {
    keys == Keys(ManagedUpTo(settings, i)) && Built(providers, keys, ManagedUpTo(settings, i), settings)
  }

  lemma BuiltOneMore(providers: Providers, keys: seq<string>, settings: Settings, i: nat)
    requires i < |settings.rulesets| && BuiltUpTo(providers, keys, settings, i)
    ensures var ruleset := settings.rulesets[i];
            var provider := ProviderOf(ruleset, settings);
            var key := FreeName(ProviderName(ruleset), keys);
            if Managed(ruleset, settings) then
              provider.Some? && BuiltUpTo(providers[key := provider.value], keys + [key], settings, i + 1)
            else BuiltUpTo(providers, keys, settings, i + 1)
  {
    var ruleset := settings.rulesets[i];
    var managed := ManagedUpTo(settings, i);
    assert settings.rulesets[..i + 1] == settings.rulesets[..i] + [ruleset];
    ManagedSnoc(settings.rulesets[..i], ruleset, settings);
    if Managed(ruleset, settings) {
      KeysSnoc(managed, ruleset);
      BuiltInsert(providers, keys, managed, settings, ruleset, FreeName(ProviderName(ruleset), keys),
                  ProviderOf(ruleset, settings).value);
    } else {
      assert managed + [] == managed;
    }
  }

  /** The map holds one provider for each managed ruleset, under the key allocated to it. */
  ghost predicate IsBuilt(providers: Providers, settings: Settings) {
    var managed := ManagedOf(settings.rulesets, settings);
    Built(providers, Keys(managed), managed, settings)
  }

  /** The `rule-providers` map, built by inserting under fresh keys. */
  method ClashRuleProviders(settings: Settings) returns (providers: Providers)
    ensures IsBuilt(providers, settings)
  {
    providers := map[];
    ghost var keys: seq<string> := [];
    for i := 0 to |settings.rulesets|
      invariant BuiltUpTo(providers, keys, settings, i)
    {
      BuiltOneMore(providers, keys, settings, i);
      var ruleset := settings.rulesets[i];
      if Managed(ruleset, settings) {
        var provider := ProviderOf(ruleset, settings);
        var key := ProbeKeys(ProviderName(ruleset), providers, keys);
        providers := providers[key := provider.value];
        keys := keys + [key];
      }
    }
    assert settings.rulesets[..|settings.rulesets|] == settings.rulesets;
  }

  method ProbeKeys(name: string, providers: Providers, ghost keys: seq<string>) returns (key: string)
    requires forall k :: k in providers <==> k in keys
    ensures key == FreeName(name, keys)
  {
    key := name;
    if key in providers {
      var index := 2;
      while key in providers
        invariant index >= 2 && key == Candidate(name, index - 1) && TakenBelow(name, keys, index - 1)
        invariant FirstFree(name, keys, 1) == FirstFree(name, keys, index - 1)
        decreases |keys| + 2 - index
      {
        Pigeonhole(name, keys, index - 1);
        key := name + " " + Decimal.Print(index);
        index := index + 1;
      }
    }
  }

  lemma {:induction false} ManagedSnoc(rulesets: seq<RulesetConfig>, ruleset: RulesetConfig, settings: Settings)
    ensures ManagedOf(rulesets + [ruleset], settings)
            == ManagedOf(rulesets, settings) + if Managed(ruleset, settings) then [ruleset] else []
  {
    if rulesets == [] {
      assert rulesets + [ruleset] == [ruleset] && [ruleset][1..] == [];
      assert ManagedOf([ruleset][1..], settings) == [];
    } else {
      assert (rulesets + [ruleset])[1..] == rulesets[1..] + [ruleset];
      ManagedSnoc(rulesets[1..], ruleset, settings);
    }
  }

  lemma KeysSnoc(managed: seq<RulesetConfig>, ruleset: RulesetConfig)
    ensures Keys(managed + [ruleset]) == Keys(managed) + [FreeName(ProviderName(ruleset), Keys(managed))]
  {
    var names := ProviderNames(managed);
    AllocatedSnoc(names, ProviderName(ruleset), []);
    assert ProviderNames(managed + [ruleset]) == names + [ProviderName(ruleset)];
    assert [] + Keys(managed) == Keys(managed);
  }

  // ---------------------------------------------------------------- rules

  /** `clash_rule_from_config`. */
  function RuleFor(ruleset: RulesetConfig, settings: Settings): string {
    if "[]" <= ruleset.url then
      (if EqIgnoreCase(ruleset.url[2..], "FINAL") then "MATCH" else ruleset.url[2..]) + "," + ruleset.group
    else if Managed(ruleset, settings) then "RULE-SET," + ProviderName(ruleset) + "," + ruleset.group
    else "RULE-SET," + RulesetPath(ruleset.url) + "," + ruleset.group
  }

  function RulesFor(rulesets: seq<RulesetConfig>, settings: Settings): (rules: seq<string>)
    ensures |rules| == |rulesets|
    ensures forall i :: 0 <= i < |rulesets| ==> rules[i] == RuleFor(rulesets[i], settings)
  {
    if rulesets == [] then [] else [RuleFor(rulesets[0], settings)] + RulesFor(rulesets[1..], settings)
  }

  /** `clash_rules`. */
  function ClashRules(settings: Option<Settings>): seq<string> {
    match settings
    case None => ["MATCH,Proxy"]
    case Some(s) => if s.rulesets == [] then ["MATCH,Proxy"] else RulesFor(s.rulesets, s)
  }

  /**
   A managed rule names its ruleset without a number, so the name is always a key; but it is the key
   of that very ruleset exactly when the rulesets before it have not taken the name.
   */
  lemma RuleNamesKey(managed: seq<RulesetConfig>, i: nat)
    requires i < |managed|
    ensures ProviderName(managed[i]) in Keys(managed)
    ensures Keys(managed)[i] == ProviderName(managed[i]) <==> ProviderName(managed[i]) !in Keys(managed[..i])
  {
    BasesAreUsed(ProviderNames(managed), [], i);
    assert [] + Keys(managed)[..i] == Keys(managed)[..i];
    KeysOfFirst(managed, i);
  }

  lemma {:induction false} KeysOfFirst(managed: seq<RulesetConfig>, i: nat)
    requires i <= |managed|
    ensures Keys(managed)[..i] == Keys(managed[..i])
    decreases |managed| - i
  {
    if i == |managed| {
      assert managed[..i] == managed;
    } else {
      KeysOfFirst(managed, i + 1);
      assert managed[..i + 1] == managed[..i] + [managed[i]];
      KeysSnoc(managed[..i], managed[i]);
      assert Keys(managed)[..i] == Keys(managed)[..i + 1][..i];
    }
  }

  /** The keys are the names exactly when the names differ. */
  lemma {:induction false} KeysAreNames(managed: seq<RulesetConfig>)
    ensures Keys(managed) == ProviderNames(managed) <==> Distinct(ProviderNames(managed))
  {
    var names := ProviderNames(managed);
    AllocatedFresh(names, []);
    if Distinct(names) { DistinctKept(names, []); }
  }

  lemma {:induction false} DistinctKept(names: seq<string>, used: seq<string>)
    requires Distinct(names) && forall i :: 0 <= i < |names| ==> names[i] !in used
    ensures Allocated(names, used) == names
  {
    if names != [] {
      DistinctKept(names[1..], used + [names[0]]);
      assert names == [names[0]] + names[1..];
    }
  }

  lemma {:induction false} ManagedIsIn(rulesets: seq<RulesetConfig>, settings: Settings, ruleset: RulesetConfig)
    ensures ruleset in ManagedOf(rulesets, settings) <==> ruleset in rulesets && Managed(ruleset, settings)
  {
    if rulesets != [] { ManagedIsIn(rulesets[1..], settings, ruleset); }
  }

  /** The rule of a managed ruleset names a provider. */
  lemma ManagedRule(ruleset: RulesetConfig, settings: Settings)
    requires Managed(ruleset, settings)
    ensures RuleFor(ruleset, settings) == "RULE-SET," + ProviderName(ruleset) + "," + ruleset.group
  {
    assert ruleset.url[0] == 'c';
  }

  /** In the list of rules, every rule of a managed ruleset names a key of the providers. */
  lemma RulesAreClosed(settings: Settings, providers: Providers, i: nat)
    requires IsBuilt(providers, settings)
    requires i < |settings.rulesets| && Managed(settings.rulesets[i], settings)
    ensures var name := ProviderName(settings.rulesets[i]);
            |ClashRules(Some(settings))| == |settings.rulesets| &&
            ClashRules(Some(settings))[i] == "RULE-SET," + name + "," + settings.rulesets[i].group &&
            name in providers
  {
    ManagedRule(settings.rulesets[i], settings);
    NameIsKey(settings, settings.rulesets[i], providers);
  }

  lemma NameIsKey(settings: Settings, ruleset: RulesetConfig, providers: Providers)
    requires IsBuilt(providers, settings)
    requires ruleset in settings.rulesets && Managed(ruleset, settings)
    ensures ProviderName(ruleset) in providers
  {
    var managed := ManagedOf(settings.rulesets, settings);
    ManagedIsIn(settings.rulesets, settings, ruleset);
    var i :| 0 <= i < |managed| && managed[i] == ruleset;
    RuleNamesKey(managed, i);
  }

  /** There are as many providers as managed rulesets. */
  lemma OneProviderEach(settings: Settings, providers: Providers)
    requires IsBuilt(providers, settings)
    ensures |providers| == |ManagedOf(settings.rulesets, settings)|
  {
    var keys := Keys(ManagedOf(settings.rulesets, settings));
    DistinctSize(keys);
    assert providers.Keys == set k | k in keys;
  }

  lemma {:induction false} DistinctSize(keys: seq<string>)
    requires Distinct(keys)
    ensures |set k | k in keys| == |keys|
  {
    if keys != [] {
      DistinctSize(keys[1..]);
      assert keys[0] !in keys[1..];
      assert (set k | k in keys) == {keys[0]} + set k | k in keys[1..];
    }
  }

  function Urls(managed: seq<RulesetConfig>): (urls: seq<string>)
    ensures |urls| == |managed| && forall i :: 0 <= i < |managed| ==> urls[i] == managed[i].url
  {
    seq(|managed|, i requires 0 <= i < |managed| => managed[i].url)
  }

  /** The provider that the rule of this ruleset names fetches the ruleset's own address. */
  predicate NamesOwn(ruleset: RulesetConfig, settings: Settings, providers: Providers) {
    && RuleFor(ruleset, settings) == "RULE-SET," + ProviderName(ruleset) + "," + ruleset.group
    && ProviderName(ruleset) in providers
    && providers[ProviderName(ruleset)].source == ruleset.url
  }

  predicate AllNameOwn(settings: Settings, providers: Providers) {
    forall r :: r in settings.rulesets && Managed(r, settings) ==> NamesOwn(r, settings, providers)
  }

  /** Whichever holder got a name as its key has the address of every holder of that name. */
  predicate NamesMeanAddresses(keys: seq<string>, names: seq<string>, urls: seq<string>)
    requires |keys| == |names| == |urls|
  {
    forall i, j :: 0 <= i < |names| && 0 <= j < |keys| && keys[j] == names[i] ==> urls[j] == urls[i]
  }

  lemma MeantNamesAreKeys(keys: seq<string>, names: seq<string>, urls: seq<string>)
    requires |keys| == |names| == |urls| && NamesMeanAddresses(keys, names, urls) && Distinct(urls)
    requires forall i :: 0 <= i < |names| ==> names[i] in keys
    ensures keys == names
  {
    forall i | 0 <= i < |names| ensures keys[i] == names[i] {
      var j :| 0 <= j < |keys| && keys[j] == names[i];
      assert urls[j] == urls[i];
    }
  }

  lemma OwnKeysMean(names: seq<string>, urls: seq<string>)
    requires |names| == |urls| && Distinct(names)
    ensures NamesMeanAddresses(names, names, urls)
  {
  }

  lemma SourceOfKey(settings: Settings, providers: Providers, j: nat)
    requires IsBuilt(providers, settings) && j < |ManagedOf(settings.rulesets, settings)|
    ensures var managed := ManagedOf(settings.rulesets, settings);
            Keys(managed)[j] in providers && providers[Keys(managed)[j]].source == managed[j].url &&
            managed[j] in settings.rulesets && Managed(managed[j], settings)
  {
    var managed := ManagedOf(settings.rulesets, settings);
    assert Keys(managed)[j] in Keys(managed) && managed[j] in managed;
    assert Some(providers[Keys(managed)[j]]) == ProviderOf(managed[j], settings);
    ManagedIsIn(settings.rulesets, settings, managed[j]);
  }

  lemma NamesAreTaken(managed: seq<RulesetConfig>)
    ensures forall i :: 0 <= i < |managed| ==> ProviderNames(managed)[i] in Keys(managed)
  {
    forall i | 0 <= i < |managed| ensures ProviderNames(managed)[i] in Keys(managed) { RuleNamesKey(managed, i); }
  }

  /** The rule of the ruleset at `i`, when the ruleset at `j` has the name as its key. */
  lemma RuleOfHolder(settings: Settings, providers: Providers, i: nat, j: nat)
    requires IsBuilt(providers, settings) && i < |ManagedOf(settings.rulesets, settings)|
    requires j < |ManagedOf(settings.rulesets, settings)|
    ensures var managed := ManagedOf(settings.rulesets, settings);
            Keys(managed)[j] == ProviderNames(managed)[i] ==>
              (NamesOwn(managed[i], settings, providers) <==> managed[j].url == managed[i].url)
  {
    var managed := ManagedOf(settings.rulesets, settings);
    SourceOfKey(settings, providers, i);
    SourceOfKey(settings, providers, j);
    ManagedRule(managed[i], settings);
  }

  lemma MeantNamesOwn(settings: Settings, providers: Providers, i: nat)
    requires IsBuilt(providers, settings) && i < |ManagedOf(settings.rulesets, settings)|
    requires var managed := ManagedOf(settings.rulesets, settings);
             NamesMeanAddresses(Keys(managed), ProviderNames(managed), Urls(managed))
    ensures NamesOwn(ManagedOf(settings.rulesets, settings)[i], settings, providers)
  {
    var managed := ManagedOf(settings.rulesets, settings);
    NamesAreTaken(managed);
    var keys, name := Keys(managed), ProviderNames(managed)[i];
    var j :| 0 <= j < |keys| && keys[j] == name;
    assert Urls(managed)[j] == Urls(managed)[i];
    RuleOfHolder(settings, providers, i, j);
  }

  /** Every managed rule names the provider of its own ruleset exactly when names mean addresses. */
  lemma RulesNameOwnProviders(settings: Settings, providers: Providers)
    requires IsBuilt(providers, settings)
    ensures var managed := ManagedOf(settings.rulesets, settings);
            AllNameOwn(settings, providers) <==>
            NamesMeanAddresses(Keys(managed), ProviderNames(managed), Urls(managed))
  {
    var managed := ManagedOf(settings.rulesets, settings);
    var keys, names, urls := Keys(managed), ProviderNames(managed), Urls(managed);
    if NamesMeanAddresses(keys, names, urls) {
      forall r | r in settings.rulesets && Managed(r, settings) ensures NamesOwn(r, settings, providers) {
        ManagedIsIn(settings.rulesets, settings, r);
        var i :| 0 <= i < |managed| && managed[i] == r;
        MeantNamesOwn(settings, providers, i);
      }
    }
    if AllNameOwn(settings, providers) {
      forall i, j | 0 <= i < |managed| && 0 <= j < |managed| && keys[j] == names[i] ensures urls[j] == urls[i] {
        SourceOfKey(settings, providers, i);
        RuleOfHolder(settings, providers, i, j);
      }
    }
  }

  /** They do if the file names differ, and for rulesets with different addresses only if they do. */
  lemma DifferentNamesOwn(settings: Settings, providers: Providers)
    requires IsBuilt(providers, settings)
    ensures var managed := ManagedOf(settings.rulesets, settings);
            var differ := Distinct(ProviderNames(managed));
            (differ ==> AllNameOwn(settings, providers)) &&
            (Distinct(Urls(managed)) ==> (AllNameOwn(settings, providers) <==> differ))
  {
    var managed := ManagedOf(settings.rulesets, settings);
    var keys, names, urls := Keys(managed), ProviderNames(managed), Urls(managed);
    RulesNameOwnProviders(settings, providers);
    KeysAreNames(managed);
    if Distinct(names) { OwnKeysMean(names, urls); }
    if Distinct(urls) && NamesMeanAddresses(keys, names, urls) {
      NamesAreTaken(managed);
      MeantNamesAreKeys(keys, names, urls);
    }
  }

  /** Two rulesets with the same file name: both rules name the provider of the first. */
  lemma SecondRuleNamesFirstProvider(a: RulesetConfig, b: RulesetConfig, settings: Settings, providers: Providers)
    requires settings.rulesets == [a, b] && Managed(a, settings) && Managed(b, settings)
    requires ProviderName(a) == ProviderName(b) && IsBuilt(providers, settings)
    ensures var name := ProviderName(a);
            ClashRules(Some(settings)) == ["RULE-SET," + name + "," + a.group, "RULE-SET," + name + "," + b.group] &&
            providers.Keys == {name, name + " 2"} &&
            providers[name].source == a.url && providers[name + " 2"].source == b.url
    ensures a.url != b.url ==> !AllNameOwn(settings, providers)
  {
    ManagedRule(a, settings);
    ManagedRule(b, settings);
    KeysOfTwo(a, b);
    ManagedTwo(a, b, settings);
    BuiltTwo(a, b, ProviderName(a), ProviderName(a) + " 2", settings, providers);
    if a.url != b.url { assert !NamesOwn(b, settings, providers) && settings.rulesets[1] == b; }
  }

  lemma ManagedTwo(a: RulesetConfig, b: RulesetConfig, settings: Settings)
    requires Managed(a, settings) && Managed(b, settings)
    ensures ManagedOf([a, b], settings) == [a, b]
  {
    assert [a, b][1..] == [b] && [b][1..] == [];
    assert ManagedOf([b], settings) == [b];
  }

  lemma BuiltTwo(a: RulesetConfig, b: RulesetConfig, first: string, second: string, settings: Settings,
                 providers: Providers)
    requires Built(providers, [first, second], [a, b], settings)
    ensures providers.Keys == {first, second}
    ensures providers[first].source == a.url && providers[second].source == b.url
  {
    var keys := [first, second];
    assert Some(providers[keys[0]]) == ProviderOf([a, b][0], settings);
    assert Some(providers[keys[1]]) == ProviderOf([a, b][1], settings);
  }

  lemma KeysOfTwo(a: RulesetConfig, b: RulesetConfig)
    requires ProviderName(a) == ProviderName(b)
    ensures Keys([a, b]) == [ProviderName(a), ProviderName(a) + " 2"]
  {
    var name := ProviderName(a);
    assert ProviderNames([a, b]) == [name, name];
    AllocatedCons(name, [name], []);
    AllocatedCons(name, [], [] + [name]);
    assert [name] == [name] + [] && [name, name] == [name] + [name];
    assert Decimal.Print(2) == "2";
    NumberedIsLonger(name, 2);
    assert Candidate(name, 2) == name + " " + "2" == name + " 2";
    assert FirstFree(name, [name], 1) == FirstFree(name, [name], 2) == 2;
  }

  /** Rulesets with one file name on two hosts: the second rule fetches the first ruleset. */
  lemma SameFileName(settings: Settings, providers: Providers, a: RulesetConfig, b: RulesetConfig, name: string,
                     i: nat, hostA: string, j: nat, hostB: string)
    requires 2 <= i < |PREFIXES| && a.url == PREFIXES[i] + (hostA + "/" + name)
    requires 2 <= j < |PREFIXES| && b.url == PREFIXES[j] + (hostB + "/" + name)
    requires name != "" && '/' !in name && '\\' !in name && a.url != b.url
    requires settings.rulesets == [a, b] && !settings.expandRulesets && settings.managedPrefix != ""
    requires IsBuilt(providers, settings)
    ensures ClashRules(Some(settings)) == ["RULE-SET," + name + "," + a.group, "RULE-SET," + name + "," + b.group]
    ensures providers.Keys == {name, name + " 2"} && providers[name].source == a.url
    ensures !AllNameOwn(settings, providers)
  {
    NamedByFile(a, i, hostA, name);
    NamedByFile(b, j, hostB, name);
    SecondRuleNamesFirstProvider(a, b, settings, providers);
  }

  /** Two such rulesets. */
  lemma TwoHosts()
    ensures ProviderName(RulesetConfig("A", "clash-domain:https://a/x", 0)) == "x"
    ensures ProviderName(RulesetConfig("B", "clash-classic:https://b/x", 0)) == "x"
  {
    assert "clash-domain:https://a/x" == PREFIXES[2] + ("https://a" + "/" + "x");
    assert "clash-classic:https://b/x" == PREFIXES[4] + ("https://b" + "/" + "x");
    NamedByFile(RulesetConfig("A", "clash-domain:https://a/x", 0), 2, "https://a", "x");
    NamedByFile(RulesetConfig("B", "clash-classic:https://b/x", 0), 4, "https://b", "x");
  }

  lemma NamedByFile(ruleset: RulesetConfig, i: nat, host: string, name: string)
    requires i < |PREFIXES| && ruleset.url == PREFIXES[i] + (host + "/" + name)
    requires name != "" && '/' !in name && '\\' !in name
    ensures ProviderName(ruleset) == name
    ensures i >= 2 ==> ProviderType(ruleset.url).Some?
  {
    StripsOwnPrefix(host + "/" + name, i);
    SegmentOf(host, name);
    if i >= 2 { assert PREFIXES[i] <= ruleset.url; }
  }

  /** An address that ends in a separator names no file: the provider has the whole address as its name. */
  lemma NamedByWhole(ruleset: RulesetConfig, i: nat, path: string)
    requires i < |PREFIXES| && ruleset.url == PREFIXES[i] + path
    requires path != "" && (path[|path| - 1] == '/' || path[|path| - 1] == '\\')
    ensures ProviderName(ruleset) == path
  {
    StripsOwnPrefix(path, i);
  }

  lemma {:induction false} SegmentOf(host: string, name: string)
    requires '/' !in name && '\\' !in name
    ensures LastSegment(host + "/" + name) == name
  {
    var path := host + "/" + name;
    if name != "" {
      var front := name[..|name| - 1];
      assert path[..|path| - 1] == host + "/" + front && name == front + [name[|name| - 1]];
      assert path[|path| - 1] == name[|name| - 1] && name[|name| - 1] in name;
      SegmentOf(host, front);
    } else {
      assert path[|path| - 1] == '/';
    }
  }

  /** Of the five prefixes none begins with another, so the own one is stripped. */
  lemma StripsOwnPrefix(path: string, i: nat)
    requires i < |PREFIXES|
    ensures StripFirst(PREFIXES[i] + path, PREFIXES) == path
  {
    var url := PREFIXES[i] + path;
    forall j | 0 <= j < i ensures !(PREFIXES[j] <= url) {
      PrefixesPart(j, i);
      var k :| 0 <= k < |PREFIXES[j]| && k < |PREFIXES[i]| && PREFIXES[j][k] != PREFIXES[i][k];
      assert url[k] == PREFIXES[i][k];
    }
    assert url[|PREFIXES[i]|..] == path;
    StripsAt(url, PREFIXES, i);
  }

  lemma PrefixesPart(j: nat, i: nat)
    requires j < i < |PREFIXES|
    ensures exists k :: 0 <= k < |PREFIXES[j]| && k < |PREFIXES[i]| && PREFIXES[j][k] != PREFIXES[i][k]
  {
    if j < 2 {
      assert PREFIXES[j][0] != PREFIXES[i][0];
    } else {
      assert PREFIXES[j][6] != PREFIXES[i][6];
    }
  }

  lemma {:induction false} StripsAt(url: string, prefixes: seq<string>, i: nat)
    requires i < |prefixes| && prefixes[i] <= url && forall j :: 0 <= j < i ==> !(prefixes[j] <= url)
    ensures StripFirst(url, prefixes) == url[|prefixes[i]|..]
  {
    if i > 0 { StripsAt(url, prefixes[1..], i - 1); }
  }

  // ---------------------------------------------------------------- addresses, types and rules in letters

  /** What a ruleset is managed as, by the prefix of its address; `path` is the rest. */
  lemma ProviderByPrefix(ruleset: RulesetConfig, path: string, settings: Settings)
    ensures ruleset.url == "clash-domain:" + path ==>
              ProviderOf(ruleset, settings) ==
              Some(if settings.classicRuleset then ClassicalProvider(ruleset)
                   else Provider(Domain, 3, ruleset.url, ProviderPath(ruleset.url, Domain), ruleset.interval))
    ensures ruleset.url == "clash-ipcidr:" + path ==>
              ProviderOf(ruleset, settings) ==
              Some(if settings.classicRuleset then ClassicalProvider(ruleset)
                   else Provider(IpCidr, 4, ruleset.url, ProviderPath(ruleset.url, IpCidr), ruleset.interval))
    ensures ruleset.url == "clash-classic:" + path ==>
              ProviderOf(ruleset, settings) == Some(ClassicalProvider(ruleset))
    ensures ruleset.url == "clash-domain:" + path || ruleset.url == "clash-ipcidr:" + path ||
            ruleset.url == "clash-classic:" + path ==>
              (Managed(ruleset, settings) <==> !settings.expandRulesets && settings.managedPrefix != "")
  {
    PrefixTells(ruleset.url);
  }

  /** The five prefixes that an address may have, and the types of the three that are managed. */
  lemma PathByPrefix(path: string)
    ensures RulesetPath("surge:" + path) == path && RulesetPath("quanx:" + path) == path
    ensures RulesetPath("clash-domain:" + path) == path && ProviderType("clash-domain:" + path) == Some(3)
    ensures RulesetPath("clash-ipcidr:" + path) == path && ProviderType("clash-ipcidr:" + path) == Some(4)
    ensures RulesetPath("clash-classic:" + path) == path && ProviderType("clash-classic:" + path) == Some(6)
  {
    StripsOwnPrefix(path, 0);
    StripsOwnPrefix(path, 1);
    StripsOwnPrefix(path, 2);
    StripsOwnPrefix(path, 3);
    StripsOwnPrefix(path, 4);
    PrefixTells("clash-domain:" + path);
    PrefixTells("clash-ipcidr:" + path);
    PrefixTells("clash-classic:" + path);
  }

  function ClassicalProvider(ruleset: RulesetConfig): Provider {
    Provider(Classical, 6, ruleset.url, ProviderPath(ruleset.url, Classical), ruleset.interval)
  }

  /** The three prefixes differ in their seventh letters. */
  lemma PrefixTells(url: string)
    ensures "clash-domain:" <= url ==> !("clash-ipcidr:" <= url) && !("clash-classic:" <= url)
    ensures "clash-ipcidr:" <= url ==> !("clash-classic:" <= url)
  {
    assert "clash-domain:"[6] == 'd' && "clash-ipcidr:"[6] == 'i' && "clash-classic:"[6] == 'c';
  }

  /** An address with none of the three prefixes is not managed. */
  lemma UnmanagedAddress(ruleset: RulesetConfig, settings: Settings)
    requires !("clash-domain:" <= ruleset.url) && !("clash-ipcidr:" <= ruleset.url)
    requires !("clash-classic:" <= ruleset.url)
    ensures !Managed(ruleset, settings) && ProviderOf(ruleset, settings) == None
  {
  }

  /** A rule given in brackets is the rule itself, a final one the match of everything. */
  lemma BracketedRule(ruleset: RulesetConfig, rule: string, settings: Settings)
    requires ruleset.url == "[]" + rule
    ensures RuleFor(ruleset, settings) ==
            if Lower(rule) == "final" then "MATCH," + ruleset.group else rule + "," + ruleset.group
  {
    assert ruleset.url[2..] == rule && Lower("FINAL") == "final";
    assert "MATCH" + "," == "MATCH,";
  }

  /** An unmanaged ruleset is named by its address without the prefix of its kind. */
  lemma UnmanagedRule(ruleset: RulesetConfig, i: nat, path: string, settings: Settings)
    requires i < |PREFIXES| && ruleset.url == PREFIXES[i] + path && !Managed(ruleset, settings)
    ensures RuleFor(ruleset, settings) == "RULE-SET," + path + "," + ruleset.group
  {
    StripsOwnPrefix(path, i);
    assert PREFIXES[i][0] != '[' && ruleset.url[0] == PREFIXES[i][0];
  }

  lemma NoRulesets(settings: Settings)
    ensures ClashRules(None) == ["MATCH,Proxy"]
    ensures settings.rulesets == [] ==> ClashRules(Some(settings)) == ["MATCH,Proxy"]
  {
  }
}
