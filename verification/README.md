# Verified model of subconverter

subconverter is a text compiler: it parses subscriptions into nodes, rewrites them under a configuration,
and prints them for a target client. This project models its hand-written algorithms in Dafny and proves
what they keep, undo and guarantee. `dafny verify dfyconfig.toml` checks everything.

Text is a sequence of Unicode scalar values. UTF-8 and base64 are written out where the program goes through
bytes (sections 3 and 4 of RFC 3629, sections 4 and 5 of RFC 4648). Loops that update variables are methods
with invariants, proved equal to specification functions; the laws are lemmas about those functions.

| file | what it models |
|---|---|
| Text, Utf8, Base64, Decimal, Percent, Ordering | string, byte, number, query and sorting primitives the program relies on |
| ShareLinks, LinkForms | `ss://` and `ssr://` links: parser and printer, and what each form of a link is read as |
| Subscription | the recursive subscription parser and the list exporters |
| Sections, SectionMerge, LineEnds, RuleBaseMerge, RuleBaseTargets | the section scanners, as lines and as text, line ends, and the rule-base merge, in general and for each target |
| UniqueNames, ProxyGroups, RuleProviders, Hashes | name allocation, the references to those names, the two hashes |
| ConfigImports, ImportedLines | imports with their bounded loop, and what an import puts in its place |
| Templates, TemplateText | template includes and variables, by scanner and by text |
| FetchCache | the cache, and interleaved fetches as a state machine |
| Rulesets, RulesetEntries | the ruleset normaliser and its six outputs, as a whole and rule by rule |
| SimpleIni | the small INI codec |
| RuleBaseField, RuleBaseKeys, RuleBaseFields, RuleBaseBlocks, RuleBaseAgain | embedding rule bases in a configuration: one field, all nine, the other two syntaxes, a second time |
| Upgrade | replacing the managed program and its assets on a file system that may fail at every step |
| CronManager | the cron manager as a transition system |

What the proofs bring out about the program:

- A Shadowsocks link prints its user part without padding, and the only decoder for unpadded text uses the
  URL-safe alphabet. A user part that needs padding and whose encoding holds `+` or `/` cannot be read back:
  the link of method `a` and password `>>` is refused.
- The query of an SSR link is form-decoded before base64, so a remark or group whose encoding holds `+` is
  damaged: `ab>` becomes `ab`. The SSR printer drops the obfs and protocol parameters, which the parser reads.
- Two managed rulesets with the same file name get two providers, but both rules name the first one, so the rule
  of `clash-classic:https://b/x` behind `clash-domain:https://a/x` fetches the other list.
- `replace_section` writes a blank body into a new section and deletes it from a section that is there. Replacing a
  missing and a present section in the other order loses an empty line when the present one is the text's last.
- An import in a YAML list is taken to be in the list named last before it; but below that, a line `rules:` makes it
  the emojis as soon as any earlier line is `emojis:`, even of another list.
- A rule base that ends in a carriage return and a line feed keeps the carriage return in its last line until a
  merge cuts the lines again.
- Converting a ruleset to Surge first loses the port rules that the classical Clash output keeps, and nothing else.
- `replace_tree` reports an error when only the removal of its backup fails, although the new tree is in place.
  Given the staged path itself as the source, it clears it first and then puts an empty tree in place; given a
  directory that contains the staged path, it copies into what it reads until a path is too long, and reports that.
- `replace_rule_base_field` replaces every line that begins with the field's name, in any section; the value
  reads back only when one of those lines, or the line added at the end, is in a section the parser accepts. A TOML
  content that holds three quotes ends its literal early. In every syntax only the line with the name is replaced:
  the rest of an old block stays behind the new one, so replacing a TOML field again always adds lines, and a YAML
  field too unless its content has no line and nothing but empty lines follow it.
- An empty unnamed section, which a `[]` header makes, is not written by `write_simple_ini`.

## Model

| member | source | states |
|---|---|---|
| Utf8.DecodeIffEncode | crates/subconverter-core/src/util.rs:22 | strict UTF-8 decoding accepts exactly the encodings of texts, each giving its own text |
| Utf8.BrokenIsLongest | crates/subconverter-core/src/util.rs:12-14 | in lossy decoding no character begins with more of the broken bytes than one replacement stands for |
| Utf8.BrokenIsBeginning | crates/subconverter-core/src/util.rs:12-14 | some character does begin with that many, if they are more than one |
| Base64.StandardInverse | crates/subconverter-core/src/util.rs:25-27 | the strict padded decoder accepts exactly what the encoder prints |
| Base64.Decode64OfEncode64 | crates/subconverter-core/src/util.rs:16-27 | decoding gives back every encoded text |
| Base64.Decode64OfTrimmed | crates/subconverter-core/src/util.rs:16-23 | unpadded standard base64 is readable exactly when no padding was needed or it holds neither `+` nor `/` |
| Base64.Decode64OfUrlSafe | crates/subconverter-core/src/util.rs:16-23 | in the URL-safe alphabet every text is read back without padding |
| Base64.TestVectors | crates/subconverter-core/src/util.rs:25-27 | the encodings of one, two and three bytes that RFC 4648 lists |
| Base64.Decode64Shrinks | crates/subconverter-core/src/util.rs:16-23 | decoding makes every non-empty text shorter, the measure of the subscription parser |
| Percent.UrlDecodeKeeps | crates/subconverter-core/src/util.rs:12-14 | percent-decoding leaves a text alone exactly when it holds no escape |
| Percent.UrlDecodeOfEscaped | crates/subconverter-core/src/util.rs:12-14 | a text whose bytes are all written as escapes, in either case of the digits, comes back |
| Percent.QueryOfTwo | crates/subconverter-core/src/util.rs:44-48 | a printed two-key query parses to both values with plus signs turned into spaces |
| Percent.QueryOfLast | crates/subconverter-core/src/convert.rs:1314-1316 | a key more at the end of any query sets its value and leaves the other keys |
| Percent.QueryOfEscaped | crates/subconverter-core/src/convert.rs:1314-1316 | a value whose bytes are escaped is read as the text |
| Decimal.ParseIsPrint | crates/subconverter-core/src/convert.rs:4021-4029 | an optional plus sign, any zeros and the digits of a number within the bound are read as the number |
| Decimal.PrintedIsAllParsed | crates/subconverter-core/src/convert.rs:4021-4029 | what is read as a number is an optional plus sign, zeros and the digits of a number within the bound |
| ShareLinks.SsRead | crates/subconverter-core/src/convert.rs:1273-1303 | a link with a plain user part falls apart at its first at sign, whatever follows |
| ShareLinks.SsRoundTrip | crates/subconverter-core/src/convert.rs:1273-1303 | a printed `ss://` link reads back as its node if and only if the user part is readable unpadded, the method holds no colon, the host no hash and the remark no escape |
| ShareLinks.SsRoundTripWhole | crates/subconverter-core/src/convert.rs:1273-1303 | it reads back as the whole node if and only if, besides, the node holds nothing else than the link carries |
| ShareLinks.UnreadableUser | crates/subconverter-core/src/convert.rs:1273-1303 | a concrete method and password whose printed link is refused |
| LinkForms.PlainSsLink | crates/subconverter-core/src/convert.rs:1273-1303 | a plain link, with a fragment or without, is read as exactly its method, password, host, port and remark, the rest being defaults |
| LinkForms.UserInBase64 | crates/subconverter-core/src/convert.rs:1284-1288 | the same with the user part in base64 |
| LinkForms.WholeInBase64 | crates/subconverter-core/src/convert.rs:1276-1280 | the same with everything before the fragment in base64 |
| LinkForms.SsRefusals | crates/subconverter-core/src/convert.rs:1276-1292 | which part of a link is refused for which reason |
| ShareLinks.SsrCut | crates/subconverter-core/src/convert.rs:1305-1320 | the first `/?` of a printed SSR text is the printed one, even when the encoded password ends in a slash |
| ShareLinks.ThroughQueryKeeps | crates/subconverter-core/src/convert.rs:1305-1345 | a text survives the SSR query if and only if its base64 holds no plus sign |
| ShareLinks.SsrReadsFields | crates/subconverter-core/src/convert.rs:1305-1345 | whatever is read from an SSR text, its four free fields hold no separator |
| ShareLinks.SsrRoundTrip | crates/subconverter-core/src/convert.rs:1305-1345 | a printed `ssr://` link reads back as its node if and only if the free fields hold no separator and remark and group survive the query |
| ShareLinks.SsrRoundTripWhole | crates/subconverter-core/src/convert.rs:1305-1345 | it reads back as the whole node if and only if, besides, the node holds nothing else than the link carries, so neither an obfs nor a protocol parameter |
| LinkForms.SsrWithQuery | crates/subconverter-core/src/convert.rs:1305-1345 | each field of a link is read from its place among the six parts and each parameter from its own query key |
| LinkForms.SsrWithoutQuery | crates/subconverter-core/src/convert.rs:1305-1345 | without a query the host is the remark, the group has its default name and the parameters are empty |
| LinkForms.SsrFieldCount | crates/subconverter-core/src/convert.rs:1309-1313 | a link is refused for its fields if and only if there are fewer than six |
| ShareLinks.PlusLosesText | crates/subconverter-core/src/convert.rs:1305-1345 | a concrete remark that form decoding damages |
| ShareLinks.PlusLosesRemark | crates/subconverter-core/src/convert.rs:1305-1345 | nodes with that remark, whose printed link reads back with another |
| Subscription.ParseSubscription | crates/subconverter-core/src/convert.rs:844-887 | the parser ends on every input and computes the specification, its loop stopping at the first error |
| Subscription.DocumentsFirst | crates/subconverter-core/src/convert.rs:844-854 | the nodes of a YAML document count before those of a JSON one, and both before any link |
| Subscription.OtherLinks | crates/subconverter-core/src/convert.rs:862-881 | a text that begins with one of the thirteen other schemes is the node its reader makes of it, or its reader's error |
| Subscription.OwnLinks | crates/subconverter-core/src/convert.rs:858-861 | the same for the two schemes read here |
| Subscription.OtherItems | crates/subconverter-core/src/convert.rs:882-884 | any other item is what its base64 hides, or nothing |
| Subscription.ItemsInOrder | crates/subconverter-core/src/convert.rs:856-887 | around a vertical bar or a line end the nodes of both sides follow one another, unless one side is refused |
| Subscription.WrappedOnce | crates/subconverter-core/src/convert.rs:844-887 | base64 of a text parses as the text |
| Subscription.Wrapped | crates/subconverter-core/src/convert.rs:844-887 | any number of base64 layers parses as what is inside |
| Subscription.LinkReadsBack | crates/subconverter-core/src/convert.rs:3282-3320 | a printed link, cut into items and parsed, gives its node if and only if the node is listable, and begins with another node otherwise |
| Subscription.MixedRoundTrip | crates/subconverter-core/src/convert.rs:4004-4011 | the exported list of any nodes parses back in order if and only if every SS and SSR node is listable and no other link is refused: SS and SSR nodes with all that their links carry, a VMess or Trojan node as its reader reads its link, no node of another type |
| Subscription.SingleRoundTrip | crates/subconverter-core/src/convert.rs:3272-3280 | the same for the single-type exporter, over any list of nodes |
| Subscription.ExportedLines | crates/subconverter-core/src/convert.rs:4004-4011 | the exported list is base64 of the links, each on a line of its own |
| Subscription.OfTypeInOrder | crates/subconverter-core/src/convert.rs:3272-3280 | the single-type exporter takes every node of its type, in the order of the list |
| Sections.ReplaceThenRead | crates/subconverter-core/src/convert.rs:3920-3953 | what replacing puts into a section is what reading takes out |
| Sections.ReplaceFrame | crates/subconverter-core/src/convert.rs:3920-3953 | replacing a section leaves every other section's lines alone |
| Sections.ReplaceTwice | crates/subconverter-core/src/convert.rs:3920-3953 | the replacing scan is idempotent |
| Sections.ReplaceCommutes | crates/subconverter-core/src/convert.rs:3920-3953 | scans that replace two different sections commute, from any pair of flags |
| Sections.AppendLossless | crates/subconverter-core/src/convert.rs:3884-3918 | without the lines it adds, the result of appending is its input, in order |
| Sections.AppendAdds | crates/subconverter-core/src/convert.rs:3884-3918 | the lines it adds are the body behind lines of the section, at most once per occurrence, or one new section at the end |
| Sections.AppendThenRead | crates/subconverter-core/src/convert.rs:3884-3918 | appending puts the body behind what the section held, with an empty line between unless its last line is blank |
| Sections.AppendFrame | crates/subconverter-core/src/convert.rs:3884-3918 | appending to a present section leaves every other section's lines alone |
| Sections.NewSectionRead | crates/subconverter-core/src/convert.rs:3905-3953 | a section put at the end reads as its body, and the section before it gains at most an empty line |
| Sections.CoreOfConcat | crates/subconverter-core/src/convert.rs:3976-3997 | two bodies put together read as the first one's lines, then empty lines, then the second one's |
| SectionMerge.SectionBodyLoop | crates/subconverter-core/src/convert.rs:3976-3997 | the flag-driven loop of `section_body` computes its specification |
| SectionMerge.ReplaceSection | crates/subconverter-core/src/convert.rs:3920-3953 | the loop of `replace_section`, with its end-of-text branch, computes its specification |
| SectionMerge.AppendToSection | crates/subconverter-core/src/convert.rs:3884-3918 | the loop of `append_to_section` computes its specification |
| RuleBaseMerge.PlainTextIsSolid | crates/subconverter-core/src/convert.rs:3884-3960 | which texts the text-level laws cover: no carriage return, no line feed at the end |
| RuleBaseMerge.ReplaceIdempotent | crates/subconverter-core/src/convert.rs:3920-3953 | `replace_section` is idempotent on text if and only if the section is there, or the body is not blank, or it has no line |
| RuleBaseMerge.BlankBodyIsDropped | crates/subconverter-core/src/convert.rs:3920-3953 | a concrete blank body for which it is not |
| RuleBaseMerge.ReplacementsCommute | crates/subconverter-core/src/convert.rs:3920-3953 | two different sections of a text can be replaced in either order if and only if both are there, or one is and the text does not end in it |
| RuleBaseMerge.GapIsLost | crates/subconverter-core/src/convert.rs:3920-3953 | a concrete text and its two different results |
| RuleBaseMerge.ApplyTextRuleBase | crates/subconverter-core/src/convert.rs:3791-3869 | the per-target merge plan, run section by section, computes its specification |
| RuleBaseMerge.MergeReadsBack | crates/subconverter-core/src/convert.rs:3791-3869 | after the merge, for any two texts and up to carriage returns at line ends, an overwritten section reads as generated, an appended one as base, empty lines, generated, and every other section as before |
| RuleBaseTargets.SurgeSections | crates/subconverter-core/src/convert.rs:3807-3831 | for Surge, Surfboard and Loon `[Proxy]` reads as base, empty lines, generated; `[Proxy Group]` and `[Rule]` as generated when overwriting is on, else like `[Proxy]`; every section of another name as before |
| RuleBaseTargets.MellowSections | crates/subconverter-core/src/convert.rs:3807-3831 | the same for `[Endpoint]`, `[EndpointGroup]` and `[RoutingRule]` |
| RuleBaseTargets.QuanSections | crates/subconverter-core/src/convert.rs:3832-3846 | the same for `[SERVER]`, `[POLICY]` and `[TCP]`, whatever was generated |
| RuleBaseTargets.QuanXSections | crates/subconverter-core/src/convert.rs:3847-3864 | here the section always added to is the second one, `[server_local]`, between `[policy]` and `[filter_local]` |
| RuleBaseTargets.NotMerged | crates/subconverter-core/src/convert.rs:3797-3806 | without a base, for node lists, for other targets and for a base without a header the generated text is the result |
| RuleBaseTargets.NothingToMerge | crates/subconverter-core/src/convert.rs:3827-3831 | a generated text without the sections of its target is put behind the base as a block; for the two Quantumult targets the base is the result |
| RuleBaseTargets.HeldBetween | crates/subconverter-core/src/convert.rs:3976-3997 | a section is the lines behind the first one that names it, in any case, up to the next header |
| RuleBaseTargets.CoreIsBody | crates/subconverter-core/src/convert.rs:3976-3997 | only empty lines are taken off a section, and all of those at either end |
| RuleBaseTargets.HeaderShape | crates/subconverter-core/src/convert.rs:3999-4002 | a header is a name that is not empty between brackets |
| RuleBaseMerge.PlainMergeReadsBack | crates/subconverter-core/src/convert.rs:3791-3869 | to the letter when no line of the two texts ends in a carriage return |
| RuleBaseMerge.LastCrIsLost | crates/subconverter-core/src/convert.rs:3791-3869 | a family of rule bases for which it is not to the letter, and the lines that are lost |
| LineEnds.BaresOfJoin | crates/subconverter-core/src/convert.rs:3884-3997 | lines written out and cut again are the same up to carriage returns at their ends and one empty last line |
| UniqueNames.Pigeonhole | crates/subconverter-core/src/convert.rs:1652-1666 | at most as many candidates are taken as there are names in use, so the suffix loop ends |
| UniqueNames.MakeUniqueRemarks | crates/subconverter-core/src/convert.rs:1652-1666 | renaming in place gives the specified nodes |
| UniqueNames.NamesAreLeastFree | crates/subconverter-core/src/convert.rs:1652-1666 | every name is the least candidate for its base that no earlier node has, within one probe more than names in use |
| UniqueNames.NamesAreUnique | crates/subconverter-core/src/convert.rs:1652-1666 | the names are pairwise distinct and hold no equals sign; length, order and all other fields stay |
| UniqueNames.UniqueNamesKept | crates/subconverter-core/src/convert.rs:1652-1666 | nodes whose names are distinct and free keep them |
| UniqueNames.RenamingIsIdempotent | crates/subconverter-core/src/convert.rs:1652-1666 | renaming twice is renaming once |
| UniqueNames.BasesAreUsed | crates/subconverter-core/src/convert.rs:2528-2553 | every base ends up in use, and its holder is the base itself exactly when nobody had taken it |
| UniqueNames.DashedAt | crates/subconverter-core/src/convert.rs:1652-1666 | in a name an equals sign becomes a dash, and nothing else changes |
| ProxyGroups.ExpandGroupRules | crates/subconverter-core/src/convert.rs:2455-2482 | the loop over a group's rules computes its members |
| ProxyGroups.GroupMembersExact | crates/subconverter-core/src/convert.rs:2455-2482 | a name is a member if and only if some rule contributes it: as a `[]` name, as the remark of a node the rule picks, or as a rule that is no valid pattern |
| ProxyGroups.DedupKeepsNames | crates/subconverter-core/src/convert.rs:2455-2482 | removing repeated neighbours keeps the set of names, and leaves no equal neighbours |
| ProxyGroups.RuleInOrder | crates/subconverter-core/src/convert.rs:2455-2482 | a rule gives one name, or the remarks of exactly the nodes it picks, in their order |
| ProxyGroups.RulesInOrder | crates/subconverter-core/src/convert.rs:2455-2482 | the rules of a group give their members one after the other |
| ProxyGroups.DedupedRuns | crates/subconverter-core/src/convert.rs:2480-2481 | the list before is the list after with each name repeated |
| ProxyGroups.ExportClash | crates/subconverter-core/src/convert.rs:1587-1741 | filter, renaming in place, second filter, entries and groups give the specified names |
| ProxyGroups.WriteProxies | crates/subconverter-core/src/convert.rs:1741-2082 | the loop over the nodes writes the specified entries, none for a node of unknown type |
| ProxyGroups.WritesAll | crates/subconverter-core/src/convert.rs:1741-2082 | the loop writes an entry for every node it is given if and only if none is of unknown type |
| ProxyGroups.EntriesAreShown | crates/subconverter-core/src/convert.rs:1668-1670 | with the support table of the Clash targets, the entries are exactly the nodes that the groups list, in order |
| ProxyGroups.ListedNodes | crates/subconverter-core/src/convert.rs:2112-2170 | which nodes are listed, by type and by the tables of SSR ciphers, protocols and obfuscations |
| ProxyGroups.KeptInOrder | crates/subconverter-core/src/convert.rs:1587-1610 | a filter keeps exactly the nodes that pass, in their order |
| ProxyGroups.ExportedGroups | crates/subconverter-core/src/convert.rs:2359-2387 | a group without members lists every proxy, and without groups one named `Proxy` does |
| ProxyGroups.NamesAreClosed | crates/subconverter-core/src/convert.rs:2359-2387 | exported proxies have distinct names, and every group member is one of them or a literal of the configuration |
| RuleProviders.ClashRuleProviders | crates/subconverter-core/src/convert.rs:2528-2553 | the map holds exactly one provider per managed ruleset, each under its own key |
| RuleProviders.ProviderByPrefix | crates/subconverter-core/src/convert.rs:2555-2620 | the type, behaviour and path of a provider by the three prefixes of the address and the classical setting |
| RuleProviders.PathByPrefix | crates/subconverter-core/src/convert.rs:2645-2664 | the five prefixes that are taken off an address, and the types of three of them |
| RuleProviders.BracketedRule | crates/subconverter-core/src/convert.rs:2499-2526 | a rule in brackets is written as it is, a final one as the match of everything |
| RuleProviders.UnmanagedRule | crates/subconverter-core/src/convert.rs:2499-2526 | an unmanaged ruleset is named by its address without its prefix |
| RuleProviders.ProbeKeys | crates/subconverter-core/src/convert.rs:2540-2549 | the suffix loop finds the least free key |
| RuleProviders.RuleNamesKey | crates/subconverter-core/src/convert.rs:2499-2526 | the name a rule uses is always a key, and its own ruleset's key if and only if the rulesets before it do not take it |
| RuleProviders.KeysAreNames | crates/subconverter-core/src/convert.rs:2528-2553 | the keys are the names the rules use if and only if the names differ |
| RuleProviders.RulesNameOwnProviders | crates/subconverter-core/src/convert.rs:2499-2553 | every managed rule names a provider that fetches its own ruleset if and only if whichever ruleset got a name as its key has the address of all rulesets of that name |
| RuleProviders.DifferentNamesOwn | crates/subconverter-core/src/convert.rs:2499-2553 | that holds if the file names differ, and for rulesets of different addresses only if they do |
| RuleProviders.RulesAreClosed | crates/subconverter-core/src/convert.rs:2484-2526 | in the rule list, every rule of a managed ruleset names a key of `rule-providers` |
| RuleProviders.OneProviderEach | crates/subconverter-core/src/convert.rs:2528-2553 | there are as many providers as managed rulesets |
| RuleProviders.SecondRuleNamesFirstProvider | crates/subconverter-core/src/convert.rs:2499-2553 | of two managed rulesets with one file name, both rules name the provider that fetches the first, and the second's own provider has another key |
| RuleProviders.SameFileName | crates/subconverter-core/src/convert.rs:2499-2553 | lists of one file name on two hosts: the second rule fetches the first list |
| RuleProviders.TwoHosts | crates/subconverter-core/src/convert.rs:2621-2628 | two concrete addresses of one file name |
| RuleProviders.NamedByWhole | crates/subconverter-core/src/convert.rs:2621-2628 | an address that ends in a separator is itself the name |
| Hashes.DjbStepBijective | crates/subconverter-core/src/convert.rs:2639-2643 | a step of the ruleset hash is a bijection of the 64-bit state |
| Hashes.FnvStepBijective | crates/subconverter-worker/src/lib.rs:327-335 | a step of the cache-key hash is a bijection of the 64-bit state |
| Hashes.OneByteOneName | crates/subconverter-core/src/convert.rs:2630-2643 | keys that differ in one byte get different provider files and different cache keys |
| Hashes.KnownHashes | crates/subconverter-core/src/convert.rs:2639-2643 | both hashes of no byte and of one, among them test vectors of FNV-1a |
| Hashes.XorBits | crates/subconverter-worker/src/lib.rs:327-335 | a bit of the exclusive or is set when the two bits differ |
| Hashes.HexReadsBack | crates/subconverter-worker/src/lib.rs:334 | the sixteen digits of a cache key are worth its hash |
| ConfigImports.ImportRefs | crates/subconverter-core/src/config.rs:1016-1045 | the listing scanner computes the references of a text, sorted and without repetitions |
| ConfigImports.ExpandImportsWith | crates/subconverter-core/src/config.rs:973-1014 | the replacing scanner computes its specification, errors included |
| ConfigImports.AskedIsListed | crates/subconverter-core/src/config.rs:973-1045 | what the replacing scanner asks for is what the listing one lists, item by item |
| ImportedLines.ImportIsListed | crates/subconverter-core/src/config.rs:1016-1045 | of a text with one import between plain lines, that reference is listed and no other |
| ImportedLines.BlockImportsListed | crates/subconverter-core/src/config.rs:1021-1034 | of a table block all imports are listed |
| ConfigImports.ListedRefsSuffice | crates/subconverter-worker/src/lib.rs:263-306 | with everything listed loaded, no import is missing |
| ConfigImports.TextWithoutRefs | crates/subconverter-core/src/config.rs:973-1014 | a text without references expands to its own lines |
| ImportedLines.IniImportReplaced | crates/subconverter-core/src/config.rs:1000-1008 | between plain lines `key=!!import:ref` gives way to exactly the lines of the imported text that are neither blank nor comments, in order, each trimmed and behind the key, where its first equals sign cuts it |
| ImportedLines.IniImportIsSeen | crates/subconverter-core/src/config.rs:1180-1187 | such a line is seen as an import for every key that opens no list item or table, and every trimmed reference without quotes and a final comma |
| ImportedLines.BlockImportReplaced | crates/subconverter-core/src/config.rs:981-995 | a table block with an import gives way to the lines of the text that its first import names |
| ImportedLines.TomlImportIsSeen | crates/subconverter-core/src/config.rs:1189-1199 | which lines of a block are imports: the word, an equals sign and a quoted reference, with any space |
| ImportedLines.CommaIsCut | crates/subconverter-core/src/config.rs:1201-1208 | a comma behind a reference is cut off, with the space before it |
| ImportedLines.OnlyTomlImports | crates/subconverter-core/src/config.rs:1189-1199 | a line of a block with an equals sign is an import if and only if `import` is before it and a reference behind it |
| ImportedLines.OnlyIniImports | crates/subconverter-core/src/config.rs:1180-1187 | any other line with one is an import if and only if the mark and a reference are behind it |
| ImportedLines.BracketLines | crates/subconverter-core/src/config.rs:982-990 | brackets at any indentation open a block, and end one |
| ImportedLines.OnlyBracketLines | crates/subconverter-core/src/config.rs:982-990 | nothing else does |
| ImportedLines.YamlImportReplaced | crates/subconverter-core/src/config.rs:996-999 | an import in a YAML list gives way to the items of exactly the lines that are neither blank nor comments, in order, at its indentation |
| ImportedLines.YamlImportIsSeen | crates/subconverter-core/src/config.rs:1056-1075 | a list item `import: ref` is seen as one at any indentation |
| ImportedLines.YamlBracesAreSeen | crates/subconverter-core/src/config.rs:1056-1075 | so is the same item in braces, for references without a comma |
| ConfigImports.ExpandYamlImport | crates/subconverter-core/src/config.rs:1077-1145 | the loop over the lines of the imported text computes its specification |
| ConfigImports.YamlImportContext | crates/subconverter-core/src/config.rs:1147-1174 | the loop that looks upwards for the list computes its specification |
| ImportedLines.ContextExact | crates/subconverter-core/src/config.rs:1147-1174 | which list that is, for all lines: the one named last, or the emojis when a `rules:` follows it and some line is `emojis:` |
| ConfigImports.ExpandConfigImports | crates/subconverter-core/src/routes.rs:923-952 | the loop returns the first import-free iterate among the first eight; otherwise no such iterate exists, and it names the first reference, in order, that an iterate holds and that does not resolve, or says that the limit was hit |
| ConfigImports.RoundByCases | crates/subconverter-core/src/routes.rs:923-952 | a round is the last if and only if nothing is listed, and stuck if and only if something listed does not resolve |
| ConfigImports.AllResolvingIterates | crates/subconverter-core/src/routes.rs:923-952 | on any import graph whose references all resolve, the iterates go on until one is import-free |
| Templates.RenderVariables | crates/subconverter-core/src/template.rs:16-36 | the scanner equals segment-wise substitution, values never rescanned |
| TemplateText.VariableIsReplaced | crates/subconverter-core/src/template.rs:16-36 | a variable gives its value or nothing, the text before it stays, and the rest is rendered on its own |
| TemplateText.NoVariable | crates/subconverter-core/src/template.rs:16-36 | a text without an opening mark is left as it is |
| TemplateText.UnclosedVariable | crates/subconverter-core/src/template.rs:22-26 | an opening mark that is never closed is left, with all behind it |
| Templates.ScanIsLossless | crates/subconverter-core/src/template.rs:16-67 | cutting a text into segments and tags loses nothing |
| Templates.ScanCutsAtFirstMarks | crates/subconverter-core/src/template.rs:16-67 | the cuts are at the first opening mark and the next closing mark |
| Templates.ExpandIncludes | crates/subconverter-core/src/template.rs:38-67 | the depth-bounded includer ends on cyclic maps and computes its specification |
| TemplateText.IncludeNameIs | crates/subconverter-core/src/template.rs:69-79 | an include names what stands between two equal quotes behind the word, with any space and anything after |
| TemplateText.TagOfName | crates/subconverter-core/src/template.rs:69-79 | the usual way to write an include |
| TemplateText.NoIncludeName | crates/subconverter-core/src/template.rs:69-79 | a tag without the word, without a quote behind it or without the closing quote includes nothing |
| TemplateText.IncludeIsReplaced | crates/subconverter-core/src/template.rs:38-67 | an include gives the text of its name, expanded one level less deep, or nothing for an unknown name |
| TemplateText.OtherTagStays | crates/subconverter-core/src/template.rs:38-67 | any other tag stays |
| TemplateText.NoTag | crates/subconverter-core/src/template.rs:38-67 | a text without tags is left as it is, at any level |
| TemplateText.IncludesComeFirst | crates/subconverter-core/src/template.rs:7-14 | variables are rendered in the text that the includes have given |
| TemplateText.RenderTemplateWithIncludes | crates/subconverter-core/src/template.rs:7-14 | both passes, one after the other |
| Templates.BoundIsInvisible | crates/subconverter-core/src/template.rs:38-67 | with at least as many levels as the includes are deep, bounded expansion is unbounded expansion |
| Templates.ExpandIsExact | crates/subconverter-core/src/template.rs:7-14 | as it is called, expansion is exact for every text of rank at most eight |
| Templates.SelfInclude | crates/subconverter-core/src/template.rs:38-67 | a text that is its own include tag comes out as it is, at any bound |
| Templates.SelfIncludeIsUnranked | crates/subconverter-core/src/template.rs:38-67 | such a text is of no rank |
| Templates.FindIncludeNames | crates/subconverter-core/src/routes.rs:1291-1317 | the lister computes the names in a text |
| Templates.LookupsAreListed | crates/subconverter-core/src/routes.rs:1291-1306 | the first level looks up listed names only: other entries change nothing |
| FetchCache.KeyInjective | crates/subconverter-server/src/main.rs:439-455 | the NUL-joined key is injective for namespaces without NUL |
| FetchCache.GetAfterPut | crates/subconverter-server/src/main.rs:439-483 | after a write the pair is served strictly before stored time plus time to live and kept for stale serving; every other pair reads as before |
| FetchCache.FetchThenFetch | crates/subconverter-core/src/routes.rs:1366-1409 | after a good answer the next fetch of the pair returns it while it is young, and later whenever the network fails and stale answers may serve |
| FetchCache.OutcomeByCases | crates/subconverter-core/src/routes.rs:1366-1409 | every case of one fetch, with the cache entry it makes for the time to live of its namespace |
| FetchCache.FsIo.FetchRemote | crates/subconverter-core/src/routes.rs:1366-1409 | a living entry, else a good answer, else a stale entry where allowed, else an error; only a good answer changes the cache |
| FetchCache.StepsAreTheFetch | crates/subconverter-core/src/routes.rs:1366-1409 | uninterrupted, the steps of the state machine do what the fetch does in one go |
| FetchCache.ServedWhileYoung | crates/subconverter-core/src/routes.rs:1366-1376 | in any state an entry is served to a new call until its time is over, and not after |
| FetchCache.PutIsLatest | crates/subconverter-server/src/main.rs:468-483 | the cache holds, for every pair, the latest entry since the last flush |
| FetchCache.EveryReturnIsJustified | crates/subconverter-core/src/routes.rs:1366-1409 | in every interleaving of fetches, ticks and flushes, returned content is this call's own 2xx answer, or the latest cached one still young, or the latest cached one after this call's fetch failed with stale serving on; it was fetched for the same pair from an allowed address |
| Rulesets.NormalLineIsFixed | crates/subconverter-core/src/rules.rs:43-73 | normalising fixes every normal line |
| RulesetEntries.EntriesInOrder | crates/subconverter-core/src/rules.rs:29-60 | each output is made line by line, in order |
| RulesetEntries.CommentsAreLeftOut | crates/subconverter-core/src/rules.rs:43-56 | blank lines and the three kinds of comment give nothing |
| RulesetEntries.WholeRule | crates/subconverter-core/src/rules.rs:62-73 | which rules, by converted type, the Surge and classical Clash outputs hold, as they are |
| RulesetEntries.QuanXRule | crates/subconverter-core/src/rules.rs:121-139 | which rules the QuanX output holds: type in its own terms, value, group |
| RulesetEntries.DomainRule | crates/subconverter-core/src/rules.rs:93-106 | which values the two domain outputs hold; a suffix gets its dot for Clash alone |
| RulesetEntries.AddressRule | crates/subconverter-core/src/rules.rs:108-119 | which values the address output holds |
| RulesetEntries.ConvertedAre | crates/subconverter-core/src/rules.rs:29-41 | three outputs are their entries joined by line feeds, three a payload of them |
| RulesetEntries.QuotedReadsBack | crates/subconverter-core/src/rules.rs:84-91 | an item of a payload reads back if and only if it was given quotes or is not between quotes of its own |
| Rulesets.SurgeIsNormal | crates/subconverter-core/src/rules.rs:29-73 | normalising Surge output gives its own lines |
| Rulesets.SurgeIsLossless | crates/subconverter-core/src/rules.rs:29-147 | going through Surge changes none of the outputs 1 to 5 |
| Rulesets.SurgeLosesPortRules | crates/subconverter-core/src/rules.rs:149-193 | it changes output 6 exactly when a port rule is there to be lost |
| Rulesets.PortRuleIsLost | crates/subconverter-core/src/rules.rs:149-193 | any list of one port rule, which is lost |
| Rulesets.QuanXIdempotent | crates/subconverter-core/src/rules.rs:121-139 | QuanX conversion is idempotent for groups without a line feed, despite the renamed type |
| Rulesets.WriteProviderYaml | crates/subconverter-core/src/rules.rs:75-91 | the payload is written item by item, quoted |
| Upgrade.MovedTree | crates/subconverter-server/src/service.rs:597-610 | a rename carries the whole tree and nothing else |
| Upgrade.ProgramSlotsApart | crates/subconverter-server/src/service.rs:582-583 | the three paths are apart exactly when the program's own extension is neither `new` nor `old` |
| Upgrade.FileSystem.CopyTree | crates/subconverter-server/src/service.rs:634-653 | from any source the copy ends and every step touches the target alone; a finished copy is complete but for special files, is empty if the source is the target, and is never made from above the target |
| Upgrade.FileSystem.RemovePathIfExists | crates/subconverter-server/src/service.rs:655-660 | removal touches its path alone, at every step, and success leaves nothing |
| Upgrade.FileSystem.SwapIn | crates/subconverter-server/src/service.rs:597-605 | through both renames and the rollback the old content is whole at the destination or in the backup; the outcome says which rename failed, and the log holds exactly the renames that lead to it |
| Upgrade.FileSystem.ReplaceFile | crates/subconverter-server/src/service.rs:578-610 | after every step and at the end the old program is whole or the new one in place; success means new in place and nothing staged, failure the old one where it was unless the rename back failed too; only the three paths change, and every step succeeds if and only if no operation of the system fails |
| Upgrade.FileSystem.ReplaceTree | crates/subconverter-server/src/service.rs:612-632 | the same for the asset tree and any source; success, if and only if no operation failed and no symbolic link was met, leaves neither `.base.new` nor `.base.old`; a placed tree has no links and is a copy of the source if and only if the source is not the staged path or held only special files |
| Upgrade.FileSystem.DropBackupTree | crates/subconverter-server/src/service.rs:630 | the removal of the backup keeps the new tree, and success leaves no backup |
| Upgrade.ProgramNames | crates/subconverter-server/src/service.rs:582-583 | the names of the program's staged copy and backup, in letters |
| Upgrade.HiddenNames | crates/subconverter-server/src/service.rs:582-583 | a dot in front of the name does not begin an extension |
| Upgrade.StagedSourceLosesFiles | crates/subconverter-server/src/service.rs:612-632 | a concrete tree whose staged path, given as the source, is not copied |
| CronManager.OneGeneration | crates/subconverter-server/src/main.rs:510-548 | in every run the tasks not aborted are one generation, spawned for the task state last taken up |
| CronManager.OldAbortedFirst | crates/subconverter-server/src/main.rs:530-548 | in every run an earlier generation is aborted by the time a later task exists |
| CronManager.EndAbortsAll | crates/subconverter-server/src/main.rs:606-619 | in every run, once the manager has ended every task was aborted |
| CronManager.WaitingIsSettled | crates/subconverter-server/src/main.rs:517-613 | while the manager waits it has taken up a task state: with cron on, the live tasks are its tasks in order; with cron off, every task ever spawned is aborted |
| CronManager.PassSettles | crates/subconverter-server/src/main.rs:521-605 | at the end of an uninterrupted pass the same holds of the settings read at its start |
| CronManager.ShutdownEnds | crates/subconverter-server/src/main.rs:517-619 | after the shutdown signal the manager alone ends within a stated number of steps, every task aborted |
| CronManager.CronLoop.Observe | crates/subconverter-server/src/main.rs:522-605 | after a pass over any settings the live tasks are the tasks of these settings, or none with cron off; a pass over the state taken up last changes nothing, any other one aborts every old task first |
| CronManager.SignalIsHeeded | crates/subconverter-server/src/main.rs:606-619 | a waiting manager ends with every task aborted if the signal is on or its sender gone, and otherwise begins another pass |
| CronManager.StepsAreThePass | crates/subconverter-server/src/main.rs:522-605 | uninterrupted, the manager's steps do what one pass does |
| SimpleIni.ParseSimpleIni | crates/subconverter-server/src/main.rs:908-932 | the reading loop computes its specification |
| SimpleIni.WriteSimpleIni | crates/subconverter-server/src/main.rs:934-951 | the writing loops compute their specification, keys in increasing order |
| SimpleIni.UnnamedFirst | crates/subconverter-server/src/main.rs:934-951 | the unnamed section comes first |
| SimpleIni.ParseIsClean | crates/subconverter-server/src/main.rs:908-932 | whatever is read has clean names, keys and values |
| SimpleIni.IniRoundTrip | crates/subconverter-server/src/main.rs:908-951 | writing and reading gives a map back if and only if it is clean and its unnamed section, if any, is not empty |
| SimpleIni.EmptyUnnamedSection | crates/subconverter-server/src/main.rs:908-951 | a text that reads as such an empty unnamed section |
| SimpleIni.ReadWriteRead | crates/subconverter-server/src/main.rs:908-951 | for any text, writing and reading again changes nothing but an empty unnamed section |
| RuleBaseField.ReplaceRuleBaseField | crates/subconverter-core/src/routes.rs:1001-1060 | in each of the three syntaxes the loop replaces every line that begins with the field, or adds one |
| RuleBaseBlocks.YamlBlock | crates/subconverter-core/src/routes.rs:1047-1058 | the lines of a YAML replacement are the content's lines, two spaces deeper than the field, up to carriage returns |
| RuleBaseBlocks.TomlLiteral | crates/subconverter-core/src/routes.rs:1041-1046 | a TOML replacement's literal ends at the quotes written for it if and only if the content holds no three quotes |
| RuleBaseBlocks.OldBlockStays | crates/subconverter-core/src/routes.rs:1001-1060 | in each syntax and around any lines, the rest of an old block stays behind the new replacement, which is the result without that rest if and only if there is none |
| RuleBaseAgain.TomlNeverSettles | crates/subconverter-core/src/routes.rs:1001-1060 | replacing a TOML field twice is never replacing it once |
| RuleBaseAgain.YamlSettles | crates/subconverter-core/src/routes.rs:1001-1060 | for YAML it is if and only if the content has no line, no line before the field ends in a carriage return and only empty lines follow |
| RuleBaseAgain.IniSettles | crates/subconverter-core/src/routes.rs:1001-1040 | for INI it is if and only if the lines kept end in no carriage return and the text in no empty line |
| RuleBaseField.ParseIni | crates/subconverter-core/src/config.rs:616-643 | the loop reads the nine rule-base fields |
| RuleBaseKeys.NineKeys | crates/subconverter-core/src/config.rs:958-971 | the keys of rule bases, in letters |
| RuleBaseKeys.KeyInSection | crates/subconverter-core/src/config.rs:616-660 | a key behind a section header is read if and only if it is one of them and the section is `common`, `custom` or nameless |
| RuleBaseKeys.KeyAlone | crates/subconverter-core/src/config.rs:616-660 | a key before any header is read |
| RuleBaseKeys.CommentsAreSkipped | crates/subconverter-core/src/config.rs:616-627 | blank lines and the three kinds of comment are skipped |
| RuleBaseKeys.EmbeddedContent | crates/subconverter-core/src/routes.rs:1027-1040 | a content is embedded without the line feeds at its end and without carriage returns |
| RuleBaseKeys.CrIsDropped | crates/subconverter-core/src/routes.rs:1027-1040 | only the carriage returns are dropped |
| RuleBaseField.UnescapeOfEscape | crates/subconverter-core/src/config.rs:636-641 | the two replacements undo the escaping but for a backslash and `r` before a line feed, and never leave an escape |
| RuleBaseField.ValueRoundTrip | crates/subconverter-core/src/routes.rs:1027-1040 | an embedded content survives its line if and only if it holds no literal escape and its edges are firm |
| RuleBaseField.PrefixFree | crates/subconverter-core/src/config.rs:958-971 | no rule-base key begins another |
| RuleBaseField.IniEmbedding | crates/subconverter-core/src/routes.rs:1001-1040 | after a replacement the other fields keep their values, and the field reads back as the embedded content if and only if the line lands in an accepted section and the content is embeddable |
| RuleBaseField.FieldOutside | crates/subconverter-core/src/routes.rs:1001-1040 | configurations of one header in which the replacement is read nowhere |
| RuleBaseField.ServerHeader | crates/subconverter-core/src/config.rs:616-643 | a concrete one |
| RuleBaseFields.EmbedRuleBases | crates/subconverter-core/src/routes.rs:890-903 | the loop over the nine fields computes its specification |
| RuleBaseFields.LandsKept | crates/subconverter-core/src/routes.rs:890-1040 | replacing one field does not change whether another lands where it counts |
| RuleBaseFields.AllEmbeddings | crates/subconverter-core/src/routes.rs:890-1040 | after the loop every field with a content reads back as it if and only if it had a place that counts and the content is embeddable, and every other field keeps its value |

## Left out

- Links of other schemes, YAML and JSON subscriptions: parameters of the parser and the exporters. The round
  trips ask that the YAML and JSON readers claim neither the exported text nor what is inside it.
- Node fields that the modelled links do not carry: one uninterpreted part of a node.
- Regular expressions in group rules: a parameter that says which texts compile and which remarks they match.
- How one imported line is written as an item of its YAML list: a parameter of the replacing scanner.
- The suffix counters of the two name loops are unbounded here and 32-bit in the program.
- RuleProviders.ClashRuleProviders: the provider's address is kept as its ruleset and type, not as text; interval
  and prefix do not influence the keys.
- Closure of the Surge outputs and after `merge_clash_base`: the program does not provide it.
- Subscription.MixedRoundTrip: what a VMess or Trojan link carries is left to the parameters that print and read it.
- RuleBaseMerge.ReplaceIdempotent: for texts whose lines end in no carriage return and that do not end in two line
  feeds, since every call rewrites those, and for bodies without header lines, which `section_body` never gives.
- RuleBaseMerge.ReplacementsCommute: for the same texts and bodies.
- RuleBaseMerge.PlainMergeReadsBack: asks that no line ends in a carriage return; a last line that stays the last may.
- Which references of a configuration are empty or already inline, and what the others resolve to: a map from
  fields to contents.
- How a TOML or YAML parser reads an embedded rule base: those parsers are libraries.
- ConfigImports.AllResolvingIterates: the resolver is a function of the round, so files may change between rounds
  but not within one.
- Time in FetchCache is a counter; reaching the end of the clock's range is not modelled. Errors of the lock and of
  the in-memory cache do not occur.
- The Worker's key-value store, HTTP, redirects, DNS and the address policy: an oracle gives status, body and final
  address, and a parameter says which addresses are allowed.
- Upgrade.FileSystem.CopyTree: creating a directory fails when its parent is missing, which the installer makes first, or
  when the path is longer than a bound; the program leaves that bound to the system.
- Symbolic links at the managed paths, permissions, and other processes writing the same files.
- A removed directory loses its entries in any order here, deepest first or not, which allows more than the program.
- What a cron task does, when it fires, and how an aborted task stops: a task is a handle that may finish any time.
- Other settings that `parse_ini` reads: field copies.
- Per-target field exporters, JavaScript scripts, command-line handling, service definitions and gist upload.
