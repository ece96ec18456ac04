/**
 * The unified match model built from the IR: the table of match members, the
 * per-version key lists and the key list sorted by display order.
 *
 * The pure functions below describe one pass of the build over a sequence of IR
 * classes; `MatchRegistry.Build` is the imperative pass, proved to end in exactly
 * the state they describe.
 */
module MatchBuild {
  import opened Wrappers
  import opened Sequences
  import opened Strings
  import opened StableSort
  import opened MatchTables
  import opened OxmOrder

  /** An IR class, reduced to what the build reads of it. */
  datatype IrClass = IrClass(
    name: string,        // class name, `of_oxm_<field>` for an OXM
    isOxm: bool,         // the class is an OXM
    valueType: string,   // type of its `value` member
    typeLen: uint32,     // value of its `type_len` member: OXM class << 16 | field << 9 | hasmask << 8 | length
    versions: seq<int>)  // wire versions in which the class exists

  /** One entry of the unified match table. */
  datatype MatchMember = MatchMember(
    name: string,
    mType: string,
    order: int,
    v1WcShift: Option<nat>,
    v2WcShift: Option<nat>)

  /** Length of the `of_oxm_` prefix that the build strips without looking at it. */
  const OxmPrefixLength: nat := 7

  /** The classes that give a match member: OXMs other than the base class and the masked variants. */
  predicate Contributes(c: IrClass) {
    c.isOxm && c.name != "of_oxm" && !EndsWith(c.name, "_masked")
  }

  /** The unified name of a class: its name without the first seven characters. */
  function CanonicalName(className: string): string {
    SliceFrom(className, OxmPrefixLength)
  }

  function Lookup(table: map<string, nat>, key: string): Option<nat> {
    if key in table then Some(table[key]) else None
  }

  /** The entry the build makes for a contributing class. */
  function MemberOf(c: IrClass): MatchMember {
    var name := CanonicalName(c.name);
    MatchMember(name, c.valueType, Order(c.typeLen), Lookup(V1WcShifts, name), Lookup(V2WcShifts, name))
  }

  /**
   * Every entry is filed under its own name and carries a wildcard shift exactly when
   * its name is in the corresponding table, with the table's value.
   */
  ghost predicate WellFormed(members: map<string, MatchMember>) {
    forall k :: k in members ==>
      && members[k].name == k
      && members[k].v1WcShift == Lookup(V1WcShifts, k)
      && members[k].v2WcShift == Lookup(V2WcShifts, k)
  }

  /** The names of all contributing classes. */
  function DerivedNames(cs: seq<IrClass>): set<string> {
    set i | 0 <= i < |cs| && Contributes(cs[i]) :: CanonicalName(cs[i].name)
  }

  /** Every contributing class is only in wire versions of `known`. */
  predicate VersionsKnown(cs: seq<IrClass>, known: set<int>) {
    forall i, v :: 0 <= i < |cs| && Contributes(cs[i]) && v in cs[i].versions ==> v in known
  }

  // ---------------------------------------------------------------------------
  // The pass, one class at a time

  /** One class's effect on `of_match_members`: a contributing class assigns its entry, overwriting any earlier one. */
  function MembersStep(m: map<string, MatchMember>, c: IrClass): map<string, MatchMember> {
    if Contributes(c) then m[CanonicalName(c.name) := MemberOf(c)] else m
  }

  /** One class's effect on the key order of `of_match_members`: a name joins at the end when first assigned. */
  function KeysStep(k: seq<string>, c: IrClass): seq<string> {
    if Contributes(c) && CanonicalName(c.name) !in k then k + [CanonicalName(c.name)] else k
  }

  /** `of_match_members` after the pass. */
  function MembersAfter(m0: map<string, MatchMember>, cs: seq<IrClass>): map<string, MatchMember> {
    if cs == [] then m0 else MembersStep(MembersAfter(m0, cs[..|cs| - 1]), cs[|cs| - 1])
  }

  /** The key order of `of_match_members` after the pass. */
  function KeysAfter(k0: seq<string>, cs: seq<IrClass>): seq<string> {
    if cs == [] then k0 else KeysStep(KeysAfter(k0, cs[..|cs| - 1]), cs[|cs| - 1])
  }

  /** The inner loop: append `name` to the list of each version in `vs`, in turn. */
  function AppendToVersions(mk: map<int, seq<string>>, name: string, vs: seq<int>): (r: map<int, seq<string>>)
    requires forall v :: v in vs ==> v in mk
    ensures r.Keys == mk.Keys
  {
    if vs == [] then mk
    else
      var r := AppendToVersions(mk, name, vs[..|vs| - 1]);
      var v := vs[|vs| - 1];
      r[v := r[v] + [name]]
  }

  /** One class's effect on `match_keys`: a contributing class's name goes to the list of each of its versions. */
  function MatchKeysStep(mk: map<int, seq<string>>, c: IrClass): (r: map<int, seq<string>>)
    requires Contributes(c) ==> forall v :: v in c.versions ==> v in mk
    ensures r.Keys == mk.Keys
  {
    if Contributes(c) then AppendToVersions(mk, CanonicalName(c.name), c.versions) else mk
  }

  /** `match_keys` after the pass. */
  function MatchKeysAfter(mk0: map<int, seq<string>>, cs: seq<IrClass>): (r: map<int, seq<string>>)
    requires VersionsKnown(cs, mk0.Keys)
    ensures r.Keys == mk0.Keys
  {
    if cs == [] then mk0 else MatchKeysStep(MatchKeysAfter(mk0, cs[..|cs| - 1]), cs[|cs| - 1])
  }

  /** The sort key of `match_keys_sorted`: the entry's order. */
  function OrderKey(members: map<string, MatchMember>): string -> int {
    k => if k in members then members[k].order else 0
  }

  /** Reference view of one version's new keys: the names of the contributing classes in that version, in class order. */
  function Appended(cs: seq<IrClass>, v: int): seq<string> {
    if cs == [] then []
    else
      var c := cs[|cs| - 1];
      Appended(cs[..|cs| - 1], v) + (if Contributes(c) && v in c.versions then [CanonicalName(c.name)] else [])
  }

  // ---------------------------------------------------------------------------
  // The member table

  /** The table's keys are the keys it had plus the names of all contributing classes. */
  lemma {:induction false} MembersAfterKeys(m0: map<string, MatchMember>, cs: seq<IrClass>)
    ensures MembersAfter(m0, cs).Keys == m0.Keys + DerivedNames(cs)
  {
    if cs != [] {
      var init := cs[..|cs| - 1];
      MembersAfterKeys(m0, init);
      assert DerivedNames(cs) ==
        DerivedNames(init) + (if Contributes(cs[|cs| - 1]) then {CanonicalName(cs[|cs| - 1].name)} else {});
    }
  }

  /** Duplicates are not rejected: the last contributing class with a name decides its entry. */
  lemma {:induction false} MembersAfterLastWins(m0: map<string, MatchMember>, cs: seq<IrClass>, i: int)
    requires 0 <= i < |cs| && Contributes(cs[i])
    requires forall j :: i < j < |cs| && Contributes(cs[j]) ==> CanonicalName(cs[j].name) != CanonicalName(cs[i].name)
    ensures CanonicalName(cs[i].name) in MembersAfter(m0, cs)
    ensures MembersAfter(m0, cs)[CanonicalName(cs[i].name)] == MemberOf(cs[i])
  {
    if i < |cs| - 1 {
      MembersAfterLastWins(m0, cs[..|cs| - 1], i);
    }
  }

  /** A name no contributing class has keeps its old entry. */
  lemma {:induction false} MembersAfterUntouched(m0: map<string, MatchMember>, cs: seq<IrClass>, k: string)
    requires k in m0 && k !in DerivedNames(cs)
    ensures k in MembersAfter(m0, cs) && MembersAfter(m0, cs)[k] == m0[k]
  {
    if cs != [] {
      var init := cs[..|cs| - 1];
      assert DerivedNames(init) <= DerivedNames(cs);
      MembersAfterUntouched(m0, init, k);
    }
  }

  /** The pass keeps the table well formed: names and wildcard shifts as the tables say. */
  lemma {:induction false} MembersAfterWellFormed(m0: map<string, MatchMember>, cs: seq<IrClass>)
    requires WellFormed(m0)
    ensures WellFormed(MembersAfter(m0, cs))
  {
    if cs != [] {
      MembersAfterWellFormed(m0, cs[..|cs| - 1]);
    }
  }

  // ---------------------------------------------------------------------------
  // The key order of the table

  /** The key order lists each key of the table once; old keys stay in front. */
  lemma {:induction false} KeysAfterTracksMembers(m0: map<string, MatchMember>, k0: seq<string>, cs: seq<IrClass>)
    requires Distinct(k0) && m0.Keys == set k | k in k0
    ensures Distinct(KeysAfter(k0, cs))
    ensures MembersAfter(m0, cs).Keys == set k | k in KeysAfter(k0, cs)
    ensures k0 <= KeysAfter(k0, cs)
  {
    if cs != [] {
      KeysAfterTracksMembers(m0, k0, cs[..|cs| - 1]);
    }
  }

  /** Running the pass further only appends to the key order. */
  lemma {:induction false} KeysAfterGrows(k0: seq<string>, cs: seq<IrClass>, n: nat)
    requires n <= |cs|
    ensures KeysAfter(k0, cs[..n]) <= KeysAfter(k0, cs)
  {
    if n == |cs| {
      assert cs[..n] == cs;
    } else {
      assert cs[..|cs| - 1][..n] == cs[..n];
      KeysAfterGrows(k0, cs[..|cs| - 1], n);
    }
  }

  /** A contributing class's name is in the key order once the pass has seen it. */
  lemma KeysAfterHasName(k0: seq<string>, cs: seq<IrClass>, i: nat)
    requires i < |cs| && Contributes(cs[i])
    ensures CanonicalName(cs[i].name) in KeysAfter(k0, cs[..i + 1])
  {
    assert cs[..i + 1][..i] == cs[..i];
  }

  /** A name that is neither an old key nor the name of one of the classes seen so far is not in the key order. */
  lemma {:induction false} KeysAfterOnlySeen(k0: seq<string>, cs: seq<IrClass>, name: string)
    requires name !in k0 && name !in DerivedNames(cs)
    ensures name !in KeysAfter(k0, cs)
  {
    if cs != [] {
      var init := cs[..|cs| - 1];
      assert DerivedNames(init) <= DerivedNames(cs);
      KeysAfterOnlySeen(k0, init, name);
    }
  }

  /**
   * New keys are ordered by first appearance: a name first seen at class `i` comes before a
   * new name first seen at a later class `j`.
   */
  lemma {:induction false} KeysAfterFirstSeenOrder(k0: seq<string>, cs: seq<IrClass>, i: nat, j: nat)
    requires i < j < |cs| && Contributes(cs[i]) && Contributes(cs[j])
    requires CanonicalName(cs[j].name) !in k0
    requires CanonicalName(cs[j].name) !in DerivedNames(cs[..j])
    ensures exists p, q :: (0 <= p < q < |KeysAfter(k0, cs)|
      && KeysAfter(k0, cs)[p] == CanonicalName(cs[i].name)
      && KeysAfter(k0, cs)[q] == CanonicalName(cs[j].name))
  {
    var a, b := CanonicalName(cs[i].name), CanonicalName(cs[j].name);
    var early := KeysAfter(k0, cs[..i + 1]);
    var mid := KeysAfter(k0, cs[..j]);
    var all := KeysAfter(k0, cs);
    KeysAfterHasName(k0, cs, i);
    KeysAfterHasName(k0, cs, j);
    assert cs[..j][..i + 1] == cs[..i + 1];
    KeysAfterGrows(k0, cs[..j], i + 1);
    KeysAfterGrows(k0, cs, j);
    KeysAfterGrows(k0, cs, j + 1);
    KeysAfterOnlySeen(k0, cs[..j], b);
    assert cs[..j + 1][..j] == cs[..j];
    assert KeysAfter(k0, cs[..j + 1]) == mid + [b];
    assert early <= mid;
    assert mid + [b] <= all;
    var p :| 0 <= p < |early| && early[p] == a;
    assert mid[p] == a;
    assert all[p] == a;
    assert all[|mid|] == b;
    assert 0 <= p < |mid| < |all|;
  }

  // ---------------------------------------------------------------------------
  // The per-version lists

  /** Appending over distinct versions adds the name once to each listed version and changes no other list. */
  lemma {:induction false} AppendToVersionsAt(mk: map<int, seq<string>>, name: string, vs: seq<int>, v: int)
    requires forall u :: u in vs ==> u in mk
    requires Distinct(vs) && v in mk
    ensures AppendToVersions(mk, name, vs)[v] == mk[v] + (if v in vs then [name] else [])
  {
    if vs != [] {
      var init := vs[..|vs| - 1];
      AppendToVersionsAt(mk, name, init, v);
      assert vs == init + [vs[|vs| - 1]];
    }
  }

  /** Each version's list keeps its old contents as a prefix and gains the names of its classes, in class order. */
  lemma {:induction false} MatchKeysAfterAt(mk0: map<int, seq<string>>, cs: seq<IrClass>, v: int)
    requires VersionsKnown(cs, mk0.Keys) && v in mk0
    requires forall i :: 0 <= i < |cs| ==> Distinct(cs[i].versions)
    ensures MatchKeysAfter(mk0, cs)[v] == mk0[v] + Appended(cs, v)
  {
    if cs != [] {
      var init := cs[..|cs| - 1];
      var c := cs[|cs| - 1];
      MatchKeysAfterAt(mk0, init, v);
      if Contributes(c) {
        AppendToVersionsAt(MatchKeysAfter(mk0, init), CanonicalName(c.name), c.versions, v);
      }
    }
  }

  /** Every name a pass appends to a version list is a key of the table after that pass. */
  lemma {:induction false} AppendedAreMembers(m0: map<string, MatchMember>, cs: seq<IrClass>, v: int)
    ensures forall n :: n in Appended(cs, v) ==> n in MembersAfter(m0, cs)
  {
    if cs != [] {
      var init := cs[..|cs| - 1];
      AppendedAreMembers(m0, init, v);
      MembersAfterKeys(m0, init);
      MembersAfterKeys(m0, cs);
      assert DerivedNames(init) <= DerivedNames(cs);
    }
  }

  // ---------------------------------------------------------------------------
  // A build from the initial module state

  /** `keys` lists the keys of `members` once each: one order in which the dict may yield them. */
  ghost predicate ListsKeys(keys: seq<string>, members: map<string, MatchMember>) {
    Distinct(keys) && (set k | k in keys) == members.Keys
  }

  /**
   * Built once from the initial state, the table's keys are the names of the contributing
   * classes, entries are well formed, and `match_keys_sorted`, sorted from the keys in
   * whatever order the dict yields them, holds each key exactly once, non-decreasing by
   * order, with equal orders in the dict's order. Insertion order is one such order
   * (`KeysAfterTracksMembers`).
   */
  lemma {:induction false} FreshBuild(cs: seq<IrClass>, keys: seq<string>)
    requires ListsKeys(keys, MembersAfter(map[], cs))
    ensures var members := MembersAfter(map[], cs);
            var sorted := SortBy(keys, OrderKey(members));
            && members.Keys == DerivedNames(cs)
            && WellFormed(members)
            && (forall n :: multiset(sorted)[n] == if n in members then 1 else 0)
            && SortedBy(sorted, OrderKey(members))
            && (forall k :: WithKey(sorted, OrderKey(members), k) == WithKey(keys, OrderKey(members), k))
  {
    var members := MembersAfter(map[], cs);
    var sorted := SortBy(keys, OrderKey(members));
    MembersAfterKeys(map[], cs);
    MembersAfterWellFormed(map[], cs);
    SortByPermutes(keys, OrderKey(members));
    DistinctMultiset(keys);
    SortBySorted(keys, OrderKey(members));
    forall k ensures WithKey(sorted, OrderKey(members), k) == WithKey(keys, OrderKey(members), k) {
      SortByStable(keys, OrderKey(members), k);
    }
  }

  /**
   * When no two keys of the table share an order, the sorted key list does not depend on
   * the order in which the dict yields its keys.
   */
  lemma {:induction false} SortIndependentOfDictOrder(members: map<string, MatchMember>, keys1: seq<string>, keys2: seq<string>)
    requires ListsKeys(keys1, members) && ListsKeys(keys2, members)
    requires forall a, b :: a in members && b in members && a != b ==> members[a].order != members[b].order
    ensures SortBy(keys1, OrderKey(members)) == SortBy(keys2, OrderKey(members))
  {
    assert forall x :: x in keys1 <==> x in members;
    assert forall x :: x in keys2 <==> x in members;
    SortByListingIndependent(keys1, keys2, OrderKey(members));
  }

  /** Built once from the initial state, versions 1 and 2 start with the legacy lists and 3 and 4 hold only OXM names. */
  lemma FreshMatchKeys(cs: seq<IrClass>, v: int)
    requires VersionsKnown(cs, WireVersions) && v in WireVersions
    requires forall i :: 0 <= i < |cs| ==> Distinct(cs[i].versions)
    ensures InitialMatchKeys.Keys == WireVersions
    ensures MatchKeysAfter(InitialMatchKeys, cs)[v] ==
      (if v == 1 then OfV1Keys else if v == 2 then OfV2Keys else []) + Appended(cs, v)
  {
    MatchKeysAfterAt(InitialMatchKeys, cs, v);
  }

  /** Every name in `s` is in `names`. */
  ghost predicate AllIn(s: seq<string>, names: set<string>) {
    forall n :: n in s ==> n in names
  }

  /**
   * The legacy names that start the version 1 and 2 lists are not checked against the table:
   * every name in such a list is a key exactly when the IR has contributing classes for all
   * of its legacy names.
   */
  lemma {:induction false} LegacyListsAreMembers(cs: seq<IrClass>, v: int)
    requires VersionsKnown(cs, WireVersions) && (v == 1 || v == 2)
    requires forall i :: 0 <= i < |cs| ==> Distinct(cs[i].versions)
    ensures InitialMatchKeys.Keys == WireVersions
    ensures AllIn(MatchKeysAfter(InitialMatchKeys, cs)[v], MembersAfter(map[], cs).Keys) <==>
            AllIn(if v == 1 then OfV1Keys else OfV2Keys, DerivedNames(cs))
  {
    FreshMatchKeys(cs, v);
    AppendedAreMembers(map[], cs, v);
    MembersAfterKeys(map[], cs);
    var legacy := if v == 1 then OfV1Keys else if v == 2 then OfV2Keys else [];
    PrefixedListAreMembers(legacy, Appended(cs, v),
      MatchKeysAfter(InitialMatchKeys, cs)[v], MembersAfter(map[], cs).Keys);
  }

  /** A list of names followed by keys holds only keys exactly when its leading names are keys. */
  lemma {:induction false} PrefixedListAreMembers(legacy: seq<string>, appended: seq<string>, list: seq<string>, keys: set<string>)
    requires list == legacy + appended && AllIn(appended, keys)
    ensures AllIn(list, keys) <==> AllIn(legacy, keys)
  {
    if AllIn(list, keys) {
      forall k | k in legacy ensures k in keys {
        assert k in list;
      }
    }
  }

  /** Sorting a list of keys of the table yields keys of the table. */
  lemma {:induction false} SortedKeysAreMembers(s: seq<string>, members: map<string, MatchMember>)
    requires forall k :: k in s ==> k in members
    ensures forall k :: k in SortBy(s, OrderKey(members)) ==> k in members
  {
    SortByPermutes(s, OrderKey(members));
    forall k | k in SortBy(s, OrderKey(members)) ensures k in members {
      assert k in multiset(SortBy(s, OrderKey(members)));
    }
  }

  // ---------------------------------------------------------------------------
  // The module state and the imperative pass

  /** The module-level structures the build fills. */
  class MatchRegistry {
    var members: map<string, MatchMember>  // of_match_members
    ghost var memberKeys: seq<string>      // the keys of of_match_members in insertion order (not observable)
    var matchKeys: map<int, seq<string>>   // match_keys
    var keysSorted: seq<string>            // match_keys_sorted

    ghost predicate Valid()
      reads this
    {
      && Distinct(memberKeys)
      && members.Keys == (set k | k in memberKeys)
      && WellFormed(members)
      && matchKeys.Keys == WireVersions
      && (forall k :: k in keysSorted ==> k in members)
    }

    /** The state at module load. */
    constructor ()
      ensures Valid()
      ensures members == map[] && memberKeys == []
      ensures matchKeys == InitialMatchKeys && keysSorted == []
    {
      members := map[];
      memberKeys := [];
      matchKeys := InitialMatchKeys;
      keysSorted := [];
    }

    /** The inner loop of `build()`: append `name` to the list of each version in `versions`. */
    method AppendToVersionLists(name: string, versions: seq<int>)
      requires Valid()
      requires forall v :: v in versions ==> v in matchKeys
      modifies this
      ensures Valid()
      ensures matchKeys == AppendToVersions(old(matchKeys), name, versions)
      ensures members == old(members) && memberKeys == old(memberKeys) && keysSorted == old(keysSorted)
    {
      var j := 0;
      while j < |versions|
        invariant 0 <= j <= |versions|
        invariant Valid()
        invariant matchKeys == AppendToVersions(old(matchKeys), name, versions[..j])
        invariant members == old(members) && memberKeys == old(memberKeys) && keysSorted == old(keysSorted)
      {
        assert versions[..j + 1][..j] == versions[..j];
        var v := versions[j];
        matchKeys := matchKeys[v := matchKeys[v] + [name]];
        j := j + 1;
      }
      assert versions[..j] == versions;
    }

    /** The body of the class loop of `build()`, for one IR class. */
    method AddClass(c: IrClass)
      requires Valid()
      requires Contributes(c) ==> forall v :: v in c.versions ==> v in WireVersions
      modifies this
      ensures Valid()
      ensures members == MembersStep(old(members), c)
      ensures memberKeys == KeysStep(old(memberKeys), c)
      ensures matchKeys == MatchKeysStep(old(matchKeys), c)
      ensures keysSorted == old(keysSorted)
    {
      MembersAfterWellFormed(members, [c]);
      KeysAfterTracksMembers(members, memberKeys, [c]);
      assert [c][..0] == [];
      if !c.isOxm || c.name == "of_oxm" {
        return;
      }
      if EndsWith(c.name, "_masked") {
        return;
      }
      var name := CanonicalName(c.name);
      if name !in members {
        assert name !in memberKeys;
        memberKeys := memberKeys + [name];
      }
      members := members[name := MemberOf(c)];
      AppendToVersionLists(name, c.versions);
    }

    /**
     * `build()`: one pass over the IR classes, then extend the sorted key list with the
     * table's keys and stably sort it. `dictOrder` is the order in which the dict yields
     * its keys, which a Python 2 dict leaves to its hash table.
     */
    method Build(classes: seq<IrClass>, dictOrder: seq<string>)
      requires Valid()
      requires VersionsKnown(classes, WireVersions)
      requires ListsKeys(dictOrder, MembersAfter(members, classes))
      modifies this
      ensures Valid()
      ensures members == MembersAfter(old(members), classes)
      ensures memberKeys == KeysAfter(old(memberKeys), classes)
      ensures matchKeys == MatchKeysAfter(old(matchKeys), classes)
      ensures keysSorted == SortBy(old(keysSorted) + dictOrder, OrderKey(members))
    {
      var i := 0;
      while i < |classes|
        invariant 0 <= i <= |classes|
        invariant Valid()
        invariant members == MembersAfter(old(members), classes[..i])
        invariant memberKeys == KeysAfter(old(memberKeys), classes[..i])
        invariant matchKeys == MatchKeysAfter(old(matchKeys), classes[..i])
        invariant keysSorted == old(keysSorted)
      {
        assert classes[..i + 1][..i] == classes[..i];
        AddClass(classes[i]);
        i := i + 1;
      }
      assert classes[..i] == classes;
      SortedKeysAreMembers(keysSorted + dictOrder, members);
      keysSorted := SortBy(keysSorted + dictOrder, OrderKey(members));
    }
  }
}
