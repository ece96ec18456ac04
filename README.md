# Unified match model of the LoxiGen C back end

LoxiGen generates OpenFlow protocol libraries from a description of the wire
messages. Its C back end keeps one version-independent view of the OpenFlow
match structure: a table `of_match_members` from field name to an entry
(name, C value type, display order, optional OpenFlow 1.0 and 1.1 wildcard bit),
per-wire-version key lists `match_keys`, and `match_keys_sorted`, every field
name ordered by display order. `c_gen/match.py` holds the hand-written
per-version tables, `build()` that fills the structures from the IR's OXM
classes, and `match_sanity_check()` that cross-checks the table against the IR.

This project models that file in Dafny:

- `wrappers.dfy`: `Option` (an absent optional key of a Python dict) and
  `Outcome` (pass, or the first error of the validator).
- `sequences.dfy`: `Distinct` (no element occurs twice), shared by the tables,
  the sort and the build.
- `strings.dfy`: the Python string operations the file uses: `str.find` as
  `Find` (specified by "first occurrence, or -1"), `startswith`, `endswith`,
  `s[n:]` and `s[:-n]`.
- `stable_sort.dfy`: a stable sort by an integer key (insertion sort), the
  reference for `list.sort(key=...)`; proved sorted, a permutation, stable, and
  the only list with those three properties.
- `match_tables.dfy`: the constants `of_v1_keys`, `v1_wc_shifts`, `of_v2_keys`,
  `of_v2_full_mask`, `v2_wc_shifts` and the initial `match_keys`, with the facts
  that relate them (OpenFlow Switch Specification 1.0.0, section 5.2.3;
  OpenFlow Switch Specification 1.1.0, section A.2.3).
- `oxm_order.dfy`: the display order computed from a 32-bit OXM type-len
  (OpenFlow Switch Specification 1.2, section A.2.3.2).
- `match_build.dfy`: an IR class record, the table entry, pure functions
  describing the build one class at a time, their lemmas, and the class
  `MatchRegistry` whose fields are the module-level structures. Its method
  `Build` is the imperative pass: a loop over the classes with an inner loop over
  versions, and then the extend-and-sort. It is proved to end in the state the
  pure functions describe. `Build` works from any valid state, so a second call
  is modelled too: the sorted list then holds the old keys as well.
- `match_check.dfy`: `match_sanity_check()` as a pure function returning the
  first violation, modelled on its three loops. Theorems give the exact condition
  under which the check passes and which error a failing check reports.
- `match_examples.dfy`: small catalogs worked through the build and the check.
  They cover an NXM_1 field sorting after a basic one, a masked class
  skipped, a duplicate overwriting, a tie following the dict's order, a missing
  legacy member, a type mismatch, and the check passing on an eth_dst table.

On a type-len `t` below 2^32, `t & 0xffff0000 == 0x80000000` is
written `t / 0x10000 == 0x8000` and `t & 0x0000ffff` is `t % 0x10000`. The
type-len is the subset type `uint32` of `int`. `OxmOrder.OrderIsMaskExpr` proves
that the order so defined is the source's mask expression on every 32-bit value.

Four behaviours of `c_gen/match.py` worth knowing:

- The build does not stop on two classes with the same field name: the later
  class's entry replaces the earlier one (`MembersAfterLastWins`,
  `MatchExamples.DuplicateOverwrites`).
- The OXM-name check has a fallback for names containing `_masked`. The filter that
  builds `oxm_names` already drops every class name containing `masked`, so the
  fallback never applies (`MaskedFallbackUnreachable`). The model keeps the
  fallback as written.
- The version 1 and 2 lists of `match_keys` start as `of_v1_keys` and
  `of_v2_keys`, whether or not the IR has classes for those names, and nothing
  checks them against `of_match_members`: the legacy-struct check reads the IR's
  struct members, not these lists. So every name in such a list is a table key
  exactly when the IR has a contributing class for each legacy name
  (`MatchBuild.LegacyListsAreMembers`, `MatchExamples.LegacyNameWithoutEntry`).
- A basic field is guaranteed to sort before every non-basic field whose OXM
  class is not 0x0000. Class-0x0000 (NXM_0) type-lens have orders below
  0x10000, so they can sort before, after or level with basic fields
  (`OxmOrder.OrderBelow64K`, `OxmOrder.ClassZeroSortsAmongBasic`).

The source is Python 2, where a plain `dict` yields its keys in an order its
hash table decides, not in insertion order. The model therefore takes that order
as an input: `Build` receives it as `dictOrder`, any listing of the final keys
without repeats, and the table check receives it as `dictOrder` too. The
registry keeps insertion order only in the ghost field `memberKeys`: no part of
the program's behaviour depends on it, and it serves only to show that a valid
`dictOrder` always exists (`MatchBuild.KeysAfterTracksMembers`). A tie in order is the only place where the dict's order shows in
`match_keys_sorted` (`MatchBuild.SortIndependentOfDictOrder`,
`MatchExamples.TieFollowsDictOrder`).

## Model

| member | source | states |
|---|---|---|
| MatchTables.OfV1Keys | c_gen/match.py:59-72 | definition: `of_v1_keys`, the twelve legacy names in source order; facts in the table rows below |
| MatchTables.V1WcShifts | c_gen/match.py:74-87 | definition: `v1_wc_shifts`, name to `wildcards` bit, value for value; facts in `MatchTables.V1ShiftsCoverV1Keys` and `MatchTables.V1ShiftTableWellFormed` |
| MatchTables.OfV2Keys | c_gen/match.py:89-105 | definition: `of_v2_keys`, the fifteen legacy names in source order; facts in `MatchTables.V2ShiftsAndFullMaskPartitionV2Keys` and `MatchTables.V1KeysPrefixOfV2Keys` |
| MatchTables.OfV2FullMask | c_gen/match.py:107-113 | definition: `of_v2_full_mask`, the five OpenFlow 1.1 names with an arbitrary mask; facts in `MatchTables.V2ShiftsAndFullMaskPartitionV2Keys` |
| MatchTables.V2WcShifts | c_gen/match.py:115-126 | definition: `v2_wc_shifts`, name to `wildcards` bit, value for value; facts in `MatchTables.V2ShiftsAndFullMaskPartitionV2Keys` and `MatchTables.V2ShiftTableWellFormed` |
| MatchTables.InitialMatchKeys | c_gen/match.py:129-134 | definition: `match_keys` at load, the legacy lists for versions 1 and 2 and empty lists for 3 and 4; used by `MatchBuild.FreshMatchKeys` and `MatchBuild.LegacyListsAreMembers` |
| MatchTables.V1ShiftsCoverV1Keys | c_gen/match.py:59-87 | the OpenFlow 1.0 wildcard table has exactly the 12 OpenFlow 1.0 keys, which are distinct |
| MatchTables.V2ShiftsAndFullMaskPartitionV2Keys | c_gen/match.py:89-126 | the OpenFlow 1.1 wildcard-bit keys and full-mask keys are disjoint and together are the 15 distinct OpenFlow 1.1 keys |
| MatchTables.V1ShiftTableWellFormed | c_gen/match.py:74-87 | in the OpenFlow 1.0 wildcard table no two keys share a bit and every bit is below 32 |
| MatchTables.V2ShiftTableWellFormed | c_gen/match.py:115-126 | in the OpenFlow 1.1 wildcard table no two keys share a bit and every bit is below 32 |
| MatchTables.V1KeysPrefixOfV2Keys | c_gen/match.py:59-105 | the OpenFlow 1.1 key list extends the 1.0 list in the same order |
| OxmOrder.IsBasic | c_gen/match.py:154 | definition: the OXM class (high 16 bits) is 0x8000; equals the source's mask test by `OxmOrder.HighMaskIsBasic` |
| OxmOrder.Order | c_gen/match.py:153-158 | definition: the low half for a basic field, the whole type-len otherwise; equals the source's mask expression by `OxmOrder.OrderIsMaskExpr`, ordering facts in the rows below |
| OxmOrder.OrderIsMaskExpr | c_gen/match.py:154-158 | on every 32-bit type-len, `Order` equals `type_len & 0xffff` when `type_len & 0xffff0000 == 0x80000000` and `type_len` otherwise |
| OxmOrder.HighMaskIsBasic | c_gen/match.py:154 | the source's bit test of the class is `IsBasic` on the value |
| OxmOrder.OrderOfBasic | c_gen/match.py:154-156 | a basic field's order is its type-len minus 0x80000000, in [0, 0x10000) |
| OxmOrder.OrderBelow64K | c_gen/match.py:154-158 | an order is below 0x10000 exactly when the field is basic or of OXM class 0x0000 |
| OxmOrder.BasicBeforeNonZeroClass | c_gen/match.py:153-158 | every basic field sorts strictly before every non-basic field of non-zero OXM class |
| OxmOrder.BasicOrderFollowsTypeLen | c_gen/match.py:154-156 | among basic fields, order compares and is equal exactly as the type-lens do |
| OxmOrder.OtherOrderIsTypeLen | c_gen/match.py:157-158 | non-basic fields are ordered by their whole type-len |
| OxmOrder.ClassZeroSortsAmongBasic | c_gen/match.py:154-158 | a class-0x0000 type-len (0x00000004) sorts before the basic eth_dst (0x80000606) |
| Strings.StartsWith | c_gen/match.py:197 | definition: `s.startswith(p)`, the string begins with `p`; used by `MatchCheck.IsOxmClassName` and `Strings.StripPrefix` |
| Strings.EndsWith | c_gen/match.py:146 | definition: `s.endswith(p)`, the string ends with `p`; used by `MatchBuild.Contributes` and `MatchCheck.MaskedNotOxmClassName` |
| Strings.Find | c_gen/match.py:185 | `str.find`: the first index where the substring occurs, or -1 exactly when it occurs nowhere |
| Strings.AbsentCharMeansNotFound | c_gen/match.py:198-199 | a substring with a character missing from the string is not found |
| Strings.SliceFrom | c_gen/match.py:149 | `s[n:]`: the characters after the first n, empty when the string is shorter |
| Strings.SliceDropLast | c_gen/match.py:207 | `s[:-n]` for n > 0: all but the last n characters, empty when the string is shorter |
| Strings.StripPrefix | c_gen/match.py:196-197 | a string that starts with a prefix is the prefix followed by what `s[len(p):]` leaves |
| Strings.OccursInRest | c_gen/match.py:196-199 | an occurrence in the part after a prefix is an occurrence in the whole string |
| MatchBuild.Contributes | c_gen/match.py:144-147 | definition: the loop skips a class that is not an OXM, is `of_oxm` or ends in `_masked`; used by `MatchBuild.MembersAfterKeys` and `MatchExamples.ClassFacts` |
| MatchBuild.CanonicalName | c_gen/match.py:149 | definition: the class name without its first seven characters, unchecked; `MatchExamples.ClassFacts` works it out on concrete names |
| MatchBuild.Lookup | c_gen/match.py:164-167 | definition: the optional shift of a name, present exactly when the name is a key of the table; its use is stated by `MatchBuild.MembersAfterWellFormed` |
| MatchBuild.MemberOf | c_gen/match.py:150-167 | definition: the entry of a contributing class (name, value type, order, wildcard shifts when the name is in the tables); properties in `MatchBuild.MembersAfterWellFormed` |
| MatchBuild.MembersStep | c_gen/match.py:169 | definition: a contributing class assigns its entry, overwriting; properties in `MatchBuild.MembersAfterLastWins` and `MatchBuild.MembersAfterUntouched` |
| MatchBuild.KeysStep | c_gen/match.py:169 | definition: a name joins the insertion order at the end on its first assignment; properties in `MatchBuild.KeysAfterTracksMembers` and the `KeysAfter` rows |
| MatchBuild.MembersAfter | c_gen/match.py:143-169 | definition: `MembersStep` over the classes in order; properties in the `MembersAfter` rows; `MatchBuild.MatchRegistry.Build` ends in this state |
| MatchBuild.KeysAfter | c_gen/match.py:143-169 | definition: `KeysStep` over the classes in order; properties in the `KeysAfter` rows; `MatchBuild.MatchRegistry.Build` ends in this state |
| MatchBuild.OrderKey | c_gen/match.py:175 | definition: the sort key `of_match_members[entry]["order"]`; used by `MatchBuild.FreshBuild` and `MatchBuild.SortIndependentOfDictOrder` |
| MatchBuild.AppendToVersions | c_gen/match.py:171-172 | the inner loop changes list contents, never the set of versions |
| MatchBuild.MatchKeysStep | c_gen/match.py:144-172 | one class leaves the set of versions unchanged |
| MatchBuild.MatchKeysAfter | c_gen/match.py:143-172 | the whole pass leaves the set of versions unchanged |
| MatchBuild.MembersAfterKeys | c_gen/match.py:143-169 | the table's keys are the old keys plus the names of the contributing classes (OXM, not `of_oxm`, not `_masked`) |
| MatchBuild.MembersAfterLastWins | c_gen/match.py:169 | a name's entry comes from the last contributing class with that name: duplicates overwrite |
| MatchBuild.MembersAfterUntouched | c_gen/match.py:169 | an old entry whose name no class derives is unchanged |
| MatchBuild.MembersAfterWellFormed | c_gen/match.py:160-167 | every entry is filed under its own name and has a v1/v2 wildcard bit exactly when its name is in that table, with the table's value |
| MatchBuild.KeysAfterTracksMembers | c_gen/match.py:169 | insertion order lists each key once, old keys first, so it is one order the dict may yield (`ListsKeys`) |
| MatchBuild.KeysAfterGrows | c_gen/match.py:169 | later classes only append to the insertion order |
| MatchBuild.KeysAfterHasName | c_gen/match.py:169 | a contributing class's name is a key once the class is processed |
| MatchBuild.KeysAfterOnlySeen | c_gen/match.py:169 | no name other than old keys and derived names becomes a key |
| MatchBuild.KeysAfterFirstSeenOrder | c_gen/match.py:169 | new keys are in order of first appearance among the classes |
| MatchBuild.AppendToVersionsAt | c_gen/match.py:171-172 | over distinct versions, the name is appended once to each listed version and no other list changes |
| MatchBuild.MatchKeysAfterAt | c_gen/match.py:171-172 | each version's list keeps its old contents as a prefix and gains its contributing classes' names, in class order |
| MatchBuild.AppendedAreMembers | c_gen/match.py:169-172 | every name appended to a version list is a key of the table |
| MatchBuild.FreshBuild | c_gen/match.py:141-175 | from the initial state, for every order the dict may yield its keys in: keys are the derived names, entries well formed, the sorted list holds each key exactly once, non-decreasing by order, ties in the dict's order |
| MatchBuild.SortIndependentOfDictOrder | c_gen/match.py:174-175 | when no two keys share an order, the sorted list is the same for every order the dict may yield its keys in |
| MatchBuild.FreshMatchKeys | c_gen/match.py:129-134 | from the initial state, versions 1 and 2 are the legacy lists followed by new names and versions 3 and 4 hold only new names |
| MatchBuild.LegacyListsAreMembers | c_gen/match.py:129-172 | built from the initial state, every name in the version 1 or 2 list is a table key exactly when every legacy name of that version is the name of a contributing class; nothing else checks the legacy names |
| MatchBuild.PrefixedListAreMembers | c_gen/match.py:129-172 | a list of leading names followed by table keys holds only table keys exactly when the leading names are keys |
| MatchBuild.SortedKeysAreMembers | c_gen/match.py:174-175 | sorting a list of table keys by order yields only table keys, so the `order` lookup in the sort key never misses |
| MatchBuild.MatchRegistry.constructor | c_gen/match.py:129-137 | the module state at load: empty table and sorted list, `match_keys` as initialised |
| MatchBuild.MatchRegistry.AppendToVersionLists | c_gen/match.py:171-172 | the inner loop's new `match_keys`, all other state unchanged, invariant kept |
| MatchBuild.MatchRegistry.AddClass | c_gen/match.py:144-172 | one class loop iteration: skips non-contributing classes, assigns the entry, appends the key on first assignment, extends the version lists |
| MatchBuild.MatchRegistry.Build | c_gen/match.py:141-175 | the final table, its insertion order and the version lists are the pass over all classes; the sorted list is the stable sort of its old contents followed by the keys in the dict's order |
| StableSort.SortBy | c_gen/match.py:175 | definition: insertion sort by the key, the reference for `list.sort`; proved sorted, a permutation, stable and unique in the rows below |
| StableSort.SortBySorted | c_gen/match.py:175 | the sort's result is non-decreasing by the key |
| StableSort.SortByPermutes | c_gen/match.py:175 | the sort's result is a permutation of its input |
| StableSort.SortByStable | c_gen/match.py:175 | elements with equal keys keep their input order |
| StableSort.SortByListingIndependent | c_gen/match.py:174-175 | with no two elements sharing a key, sorting any two repeat-free listings of the same elements gives the same list |
| StableSort.StableSortUnique | c_gen/match.py:175 | two sorted lists with the same elements per key in the same order are equal, so any stable sort gives this result |
| MatchCheck.CheckError | c_gen/match.py:192-221 | definition: one constructor per exit of the check, carrying the values its message prints; which one a failing check returns is stated by `MatchCheck.FailingCheckReportsFirstPhase` and the check rows |
| MatchCheck.LegacyNeedsKey | c_gen/match.py:185-190 | definition: a legacy member is looked up unless it contains `_mask`, is skippable or is `wildcards`; used by `MatchCheck.CheckLegacyStruct` and `MatchExamples.LegacyMemberMissing` |
| MatchCheck.CheckLegacyStruct | c_gen/match.py:183-193 | passes iff every member without `_mask`, not skippable and not `wildcards` is a key; otherwise reports the first such missing member with its struct |
| MatchCheck.IsOxmClassName | c_gen/match.py:196-199 | definition: the comprehension's filter (prefix `of_oxm_`, no `masked`, no `header`); properties in `MatchCheck.OxmNames` and `MatchCheck.MaskedNotOxmClassName` |
| MatchCheck.OxmNames | c_gen/match.py:196-199 | `k` is an OXM name iff some class name is `of_oxm_` + `k` and contains neither `masked` nor `header` |
| MatchCheck.OxmNamesCons | c_gen/match.py:196-199 | the comprehension processes class names front to back |
| MatchCheck.MaskedNotOxmClassName | c_gen/match.py:198 | a class name ending in `_masked` never gives an OXM name |
| MatchCheck.MaskedSuffix | c_gen/match.py:198-204 | an occurrence of `_masked` contains an occurrence of `masked` |
| MatchCheck.OxmAccepted | c_gen/match.py:203-207 | definition: the OXM loop's test, a key or a masked name with a key base; `MatchCheck.OxmCheckPassIff` reduces it to "a key" |
| MatchCheck.OxmRejection | c_gen/match.py:204-210 | definition: the error the OXM loop reports, chosen by the `_masked` test; reported by `MatchCheck.CheckOxmInMembers` |
| MatchCheck.CheckOxmInMembers | c_gen/match.py:202-210 | passes iff every OXM name is a key or a masked name with a key base; otherwise reports the first rejected name |
| MatchCheck.MaskedFallbackUnreachable | c_gen/match.py:204-210 | no OXM name contains `_masked`, so the masked fallback never applies |
| MatchCheck.ClassValueType | c_gen/match.py:217 | the value type is found exactly when a class of that name exists, and it is that class's |
| MatchCheck.MemberAgrees | c_gen/match.py:214-218 | definition: the table loop's test, an OXM name whose class has the member's value type; used by `MatchCheck.TableCheckPassIff` |
| MatchCheck.MemberRejection | c_gen/match.py:214-221 | definition: the table loop's error, a missing OXM name before a type mismatch; reported by `MatchCheck.CheckMembersInOxm` |
| MatchCheck.CheckMembersInOxm | c_gen/match.py:213-221 | passes iff every key, in the order given, is an OXM name with the same value type; otherwise reports the first one that is not, as missing or as a type mismatch |
| MatchCheck.OxmCheckPassIff | c_gen/match.py:202-210 | the OXM loop passes exactly when every OXM name is a key, because the masked fallback never applies |
| MatchCheck.TableCheckPassIff | c_gen/match.py:213-221 | the table loop passes exactly when every key is an OXM name whose class has the key's value type |
| MatchCheck.MatchSanityCheck | c_gen/match.py:179-221 | definition: the legacy, OXM and table loops in turn, the first error or `Pass`; its meaning is stated by `MatchCheck.SanityCheckPassIff`, `MatchCheck.PassingCheckMatchesOxmNames` and `MatchCheck.FailingCheckReportsFirstPhase` |
| MatchCheck.SanityCheckPassIff | c_gen/match.py:179-221 | the check passes exactly when both legacy structs are covered, OXM names are keys, keys are OXM names, and types agree |
| MatchCheck.PassingCheckMatchesOxmNames | c_gen/match.py:196-216 | after a passing check the table's keys are exactly the OXM names |
| MatchCheck.FailingCheckReportsFirstPhase | c_gen/match.py:179-221 | a failing check reports an error of the first of the v1, v2, OXM and table checks that does not hold |
| MatchExamples.ClassFacts | c_gen/match.py:144-149 | eth_dst and an NXM_1 field contribute under their stripped names; eth_dst_masked does not |
| MatchExamples.Nxm1FieldSortsAfterBasic | c_gen/match.py:154-175 | a field of OXM class 0x0001 seen first stays first in insertion order but sorts after eth_dst |
| MatchExamples.MaskedClassVersionLists | c_gen/match.py:146-172 | eth_dst followed by its masked class leaves the name once in each of eth_dst's versions and nothing elsewhere |
| MatchExamples.MaskedClassIsSkipped | c_gen/match.py:146-172 | a masked class adds neither an entry nor a version-list name |
| MatchExamples.DuplicateOverwrites | c_gen/match.py:169 | a second class of the same name replaces the entry and adds no key |
| MatchExamples.LegacyMemberMissing | c_gen/match.py:183-193 | a missing legacy member is reported with its struct; `wildcards` is exempt |
| MatchExamples.OxmClassName | c_gen/match.py:196-199 | a name `of_oxm_<k>` without some letter of `masked` and of `header` gives OXM name `k` |
| MatchExamples.Ipv4SrcNames | c_gen/match.py:196-199 | the OXM names of a single ipv4_src class |
| MatchExamples.Ipv4SrcType | c_gen/match.py:217 | the value type found for that class |
| MatchExamples.MismatchedValueType | c_gen/match.py:217-221 | a member whose OXM class has another value type is reported with both types |
| MatchExamples.EthDstIsOxm | c_gen/match.py:196-199 | `of_oxm_eth_dst` gives the OXM name eth_dst |
| MatchExamples.MaskedHasNoName | c_gen/match.py:198 | `of_oxm_eth_dst_masked` gives no OXM name |
| MatchExamples.EthDstNames | c_gen/match.py:196-199 | eth_dst and its masked variant give only the OXM name eth_dst |
| MatchExamples.EthDstType | c_gen/match.py:217 | the value type found for eth_dst |
| MatchExamples.TieFollowsDictOrder | c_gen/match.py:154-175 | two fields of equal order sort in the order the dict yields them |
| MatchExamples.LegacyNameWithoutEntry | c_gen/match.py:129-221 | with no IR classes, `eth_dst` is in the version 1 list, it is not a table key, and the check passes |
| MatchExamples.MaskedVariantNeedsNoEntry | c_gen/match.py:196-221 | the check passes on the eth_dst table although the IR also has the masked class |

## Left out

- Access to the IR (`loxi_globals.unified.classes`, `member_by_name`,
  `version_classes`, `.oftype`, the nested `of_g.unified` dictionaries) is
  replaced by a sequence of `IrClass` records and, for the check, two sequences
  of legacy struct member names. The IR's value type of `of_oxm_<k>` is taken
  from the last record of that name, as a later dict entry would replace an earlier one.
- `loxi_utils.skip_member_name` is a parameter `skip: string -> bool` of the check.
- `print`, `debug` and `sys.exit(1)` are the `CheckError` value the check
  returns. The process exit and the message text are not modelled.
- The unused `count` variable of `build()` is not modelled. Neither is the C code
  the module comment mentions, which is generated elsewhere.
- MatchBuild.MatchRegistry.Build: the order in which `of_match_members.keys()`
  yields the keys is a parameter, because a Python 2 dict's iteration order comes
  from its hash table, which is not modelled. The model only requires it to list
  each final key once.
- MatchBuild.FreshBuild: ties in order are stated relative to the dict's order,
  taken as a parameter. Which order Python 2 actually produces is not modelled.
- MatchBuild.MatchRegistry.Build: on a contributing class in a wire version other
  than 1 to 4 the source raises `KeyError`. The model requires every version of
  every contributing class to be one of 1 to 4, so that error path is not modelled.
- MatchBuild.MatchRegistry.Build: in the source `match_keys[1]` and
  `match_keys[2]` are the lists `of_v1_keys` and `of_v2_keys` themselves, so
  appending to them also changes those constants. The model keeps the constants
  unchanged, so this aliasing is not captured.
- MatchBuild.MatchKeysAfterAt and MatchBuild.FreshMatchKeys: they describe
  each version's list only when each class lists each of its versions at most
  once. They require that, because an IR class has one version class
  per version.
- Wire versions are integers and the order is an unbounded integer. A type-len
  is restricted to unsigned 32-bit values, and the bit masks are written as
  division and remainder by 0x10000.
