/** Small concrete catalogs worked through the build and the check. */
module MatchExamples {
  import opened Wrappers
  import opened Strings
  import opened StableSort
  import opened MatchBuild
  import opened MatchCheck
  import opened OxmOrder
  import opened MatchTables

  /** OpenFlow 1.2+ basic field eth_dst, its masked variant and an NXM_1 (OXM class 0x0001) field. */
  const EthDst := IrClass("of_oxm_eth_dst", true, "of_mac_addr_t", 0x8000_0606, [3, 4])
  const EthDstMasked := IrClass("of_oxm_eth_dst_masked", true, "of_mac_addr_t", 0x8000_070c, [3, 4])
  const Nxm1Field := IrClass("of_oxm_nxm1_field", true, "uint32_t", 0x0001_0005, [4])

  /** Which of the sample classes contribute to the table, and under which name. */
  lemma ClassFacts()
    ensures Contributes(EthDst) && CanonicalName(EthDst.name) == "eth_dst"
    ensures Contributes(Nxm1Field) && CanonicalName(Nxm1Field.name) == "nxm1_field"
    ensures !Contributes(EthDstMasked)
  {
    assert EthDst.name[7..] == "eth_dst";
    assert Nxm1Field.name[7..] == "nxm1_field";
    assert EthDst.name[|EthDst.name| - 7..][0] != "_masked"[0];
    assert Nxm1Field.name[|Nxm1Field.name| - 7..][0] != "_masked"[0];
    assert EthDstMasked.name[|EthDstMasked.name| - 7..] == "_masked";
  }

  /** A pass over two classes is the step of the first followed by the step of the second. */
  lemma {:induction false} PassOfTwo(m0: map<string, MatchMember>, k0: seq<string>, c1: IrClass, c2: IrClass)
    ensures MembersAfter(m0, [c1, c2]) == MembersStep(MembersStep(m0, c1), c2)
    ensures KeysAfter(k0, [c1, c2]) == KeysStep(KeysStep(k0, c1), c2)
  {
    assert [c1, c2][..1] == [c1];
    assert [c1][..0] == [];
    assert MembersAfter(m0, [c1]) == MembersStep(m0, c1);
    assert KeysAfter(k0, [c1]) == KeysStep(k0, c1);
  }

  /** The same for `match_keys`. */
  lemma {:induction false} VersionPassOfTwo(mk0: map<int, seq<string>>, c1: IrClass, c2: IrClass)
    requires Contributes(c1) ==> forall v :: v in c1.versions ==> v in mk0
    requires Contributes(c2) ==> forall v :: v in c2.versions ==> v in mk0
    ensures VersionsKnown([c1, c2], mk0.Keys)
    ensures MatchKeysAfter(mk0, [c1, c2]) == MatchKeysStep(MatchKeysStep(mk0, c1), c2)
  {
    assert [c1, c2][..1] == [c1];
    assert [c1][..0] == [];
    assert MatchKeysAfter(mk0, [c1]) == MatchKeysStep(mk0, c1);
  }

  /** A field of OXM class 0x0001 met first keeps first place in the table's key order but sorts after the basic eth_dst. */
  lemma Nxm1FieldSortsAfterBasic()
    ensures var cs := [Nxm1Field, EthDst];
            var members := MembersAfter(map[], cs);
            && KeysAfter([], cs) == ["nxm1_field", "eth_dst"]
            && members.Keys == {"eth_dst", "nxm1_field"}
            && members["eth_dst"].order == 0x606 && members["nxm1_field"].order == 0x0001_0005
            && SortBy(KeysAfter([], cs), OrderKey(members)) == ["eth_dst", "nxm1_field"]
  {
    ClassFacts();
    PassOfTwo(map[], [], Nxm1Field, EthDst);
    var cs := [Nxm1Field, EthDst];
    var members := MembersAfter(map[], cs);
    assert "eth_dst"[0] != "nxm1_field"[0];
    assert members == map["nxm1_field" := MemberOf(Nxm1Field), "eth_dst" := MemberOf(EthDst)];
    var keys := ["nxm1_field", "eth_dst"];
    assert KeysAfter([], cs) == keys;
    assert keys[1..] == ["eth_dst"];
    assert ["eth_dst"][1..] == [];
  }

  /** The inner loop over two distinct versions appends the name to each of the two lists. */
  lemma {:induction false} AppendToTwo(mk: map<int, seq<string>>, name: string, a: int, b: int)
    requires a in mk && b in mk && a != b
    ensures AppendToVersions(mk, name, [a, b]) == mk[a := mk[a] + [name]][b := mk[b] + [name]]
  {
    assert [a, b][..1] == [a];
    assert [a][..0] == [];
    assert AppendToVersions(mk, name, [a]) == mk[a := mk[a] + [name]];
  }

  /** The version lists after eth_dst and its masked variant: each version of eth_dst gets the unmasked name once. */
  lemma MaskedClassVersionLists()
    ensures MatchKeysAfter(map[1 := [], 2 := [], 3 := [], 4 := []], [EthDst, EthDstMasked]) ==
            map[1 := [], 2 := [], 3 := ["eth_dst"], 4 := ["eth_dst"]]
  {
    ClassFacts();
    var mk0: map<int, seq<string>> := map[1 := [], 2 := [], 3 := [], 4 := []];
    VersionPassOfTwo(mk0, EthDst, EthDstMasked);
    AppendToTwo(mk0, "eth_dst", 3, 4);
    var after := AppendToVersions(mk0, "eth_dst", [3, 4]);
    assert [] + ["eth_dst"] == ["eth_dst"];
    assert after == map[1 := [], 2 := [], 3 := ["eth_dst"], 4 := ["eth_dst"]];
    assert MatchKeysStep(mk0, EthDst) == after;
    assert MatchKeysStep(after, EthDstMasked) == after;
  }

  /** A masked class adds no entry; each version of eth_dst gets the unmasked name once. */
  lemma MaskedClassIsSkipped()
    ensures var cs := [EthDst, EthDstMasked];
            && MembersAfter(map[], cs) == map["eth_dst" := MemberOf(EthDst)]
            && KeysAfter([], cs) == ["eth_dst"]
            && MatchKeysAfter(map[1 := [], 2 := [], 3 := [], 4 := []], cs) == map[1 := [], 2 := [], 3 := ["eth_dst"], 4 := ["eth_dst"]]
  {
    ClassFacts();
    PassOfTwo(map[], [], EthDst, EthDstMasked);
    assert KeysStep([], EthDst) == ["eth_dst"];
    assert MembersStep(map[], EthDst) == map["eth_dst" := MemberOf(EthDst)];
    MaskedClassVersionLists();
  }

  /** A second eth_dst class, with another value type and type-len. */
  const EthDstAgain := EthDst.(valueType := "of_ipv4_t", typeLen := 0x8000_0604, versions := [4])

  /** A second class of the same name replaces the entry without adding a key. */
  lemma DuplicateOverwrites()
    ensures EthDstAgain.name == "of_oxm_eth_dst"
    ensures var cs := [EthDst, EthDstAgain];
            && KeysAfter([], cs) == ["eth_dst"]
            && MembersAfter(map[], cs) == map["eth_dst" := MemberOf(EthDstAgain)]
            && MemberOf(EthDstAgain).mType == "of_ipv4_t"
  {
    ClassFacts();
    PassOfTwo(map[], [], EthDst, EthDstAgain);
    assert KeysStep([], EthDst) == ["eth_dst"];
    assert MembersStep(map[], EthDst) == map["eth_dst" := MemberOf(EthDst)];
  }

  /** A skippable-member predicate that skips nothing. */
  function NoSkip(key: string): bool { false }

  /** A legacy struct member absent from the table is reported with the member and the struct; `wildcards` is exempt. */
  lemma LegacyMemberMissing()
    ensures MatchSanityCheck(map[], [], ["wildcards", "foo_bar"], [], NoSkip, [])
         == Fail(LegacyKeyMissing("foo_bar", "of_match_v1"))
  {
    AbsentCharMeansNotFound("foo_bar", "_mask", 4);
    var names := ["wildcards", "foo_bar"];
    assert !LegacyNeedsKey(names[0], NoSkip);
    assert LegacyNeedsKey(names[1], NoSkip);
    assert names[1..] == ["foo_bar"];
  }

  /** A name `of_oxm_<k>` missing some letter of `masked` and some letter of `header` is an OXM name for `k`. */
  lemma OxmClassName(x: string, k: string, jm: int, jh: int)
    requires x == OxmPrefix + k
    requires 0 <= jm < 6 && "masked"[jm] !in x
    requires 0 <= jh < 6 && "header"[jh] !in x
    ensures IsOxmClassName(x) && SliceFrom(x, |OxmPrefix|) == k
  {
    AbsentCharMeansNotFound(x, "masked", jm);
    AbsentCharMeansNotFound(x, "header", jh);
    assert x[..7] == OxmPrefix;
  }

  /** An OXM class whose value type is not the one the table gives ipv4_src. */
  const Ipv4Src := IrClass("of_oxm_ipv4_src", true, "IPv6Address", 0x8000_1604, [4])
  const Ipv4Member := MatchMember("ipv4_src", "IPv4Address", 0x1604, Some(8), None)

  lemma Ipv4SrcNames()
    ensures OxmNames([Ipv4Src]) == ["ipv4_src"]
  {
    assert Ipv4Src.name == OxmPrefix + "ipv4_src";
    OxmClassName(Ipv4Src.name, "ipv4_src", 3, 0);
    OxmNamesCons(Ipv4Src, []);
    assert [Ipv4Src] + [] == [Ipv4Src];
  }

  lemma Ipv4SrcType()
    ensures ClassValueType([Ipv4Src], OxmPrefix + "ipv4_src") == Some("IPv6Address")
  {
    assert OxmPrefix + "ipv4_src" == Ipv4Src.name;
  }

  /** A member whose OXM class has another value type is reported with both types. */
  lemma MismatchedValueType()
    ensures MatchSanityCheck(map["ipv4_src" := Ipv4Member], ["ipv4_src"], [], [], NoSkip, [Ipv4Src])
         == Fail(TypeMismatch("ipv4_src", "IPv4Address", "IPv6Address"))
  {
    var members := map["ipv4_src" := Ipv4Member];
    Ipv4SrcNames();
    Ipv4SrcType();
    assert ["ipv4_src"][1..] == [];
    assert CheckOxmInMembers(members, ["ipv4_src"]) == Pass;
    assert CheckMembersInOxm(members, ["ipv4_src"], [Ipv4Src]) == Fail(TypeMismatch("ipv4_src", "IPv4Address", "IPv6Address"));
  }

  lemma EthDstIsOxm()
    ensures IsOxmClassName(EthDst.name) && SliceFrom(EthDst.name, |OxmPrefix|) == "eth_dst"
  {
    OxmClassName(EthDst.name, "eth_dst", 3, 5);
  }

  lemma MaskedHasNoName()
    ensures OxmNames([EthDstMasked]) == []
  {
    ClassFacts();
    MaskedNotOxmClassName(EthDstMasked.name);
    OxmNamesCons(EthDstMasked, []);
    assert [EthDstMasked] + [] == [EthDstMasked];
  }

  lemma EthDstNames()
    ensures OxmNames([EthDst, EthDstMasked]) == ["eth_dst"]
  {
    MaskedHasNoName();
    EthDstIsOxm();
    OxmNamesCons(EthDst, [EthDstMasked]);
    assert [EthDst] + [EthDstMasked] == [EthDst, EthDstMasked];
  }

  lemma EthDstType()
    ensures ClassValueType([EthDst, EthDstMasked], OxmPrefix + "eth_dst") == Some("of_mac_addr_t")
  {
    var unified := [EthDst, EthDstMasked];
    assert OxmPrefix + "eth_dst" == EthDst.name;
    assert unified[..1] == [EthDst];
  }

  /** A masked OXM class needs no entry of its own: the check passes on the table built from eth_dst alone. */
  lemma MaskedVariantNeedsNoEntry()
    ensures MatchSanityCheck(map["eth_dst" := MemberOf(EthDst)], ["eth_dst"], [], [], NoSkip, [EthDst, EthDstMasked]) == Pass
  {
    ClassFacts();
    var members := map["eth_dst" := MemberOf(EthDst)];
    EthDstNames();
    EthDstType();
    assert ["eth_dst"][1..] == [];
    assert CheckOxmInMembers(members, ["eth_dst"]) == Pass;
    assert CheckMembersInOxm(members, ["eth_dst"], [EthDst, EthDstMasked]) == Pass;
  }

  /** Two fields of the same order: basic `b` (0x80000606) and class-0x0000 `a` (0x00000606). */
  const TiedTable := map[
    "b" := MatchMember("b", "of_mac_addr_t", Order(0x8000_0606), None, None),
    "a" := MatchMember("a", "of_mac_addr_t", Order(0x0000_0606), None, None)]

  /** Tied orders keep the order in which the dict yields the keys, so that order shows in the sorted list. */
  lemma TieFollowsDictOrder()
    ensures TiedTable["b"].order == TiedTable["a"].order == 0x606
    ensures SortBy(["b", "a"], OrderKey(TiedTable)) == ["b", "a"]
    ensures SortBy(["a", "b"], OrderKey(TiedTable)) == ["a", "b"]
  {
    assert ["b", "a"][1..] == ["a"] && ["a"][1..] == [];
    assert ["a", "b"][1..] == ["b"] && ["b"][1..] == [];
  }

  /**
   * The legacy names stay in the version 1 list without a table entry, and the check does
   * not notice: with no IR classes, `eth_dst` is listed for OpenFlow 1.0, the table is empty,
   * and the check passes.
   */
  lemma LegacyNameWithoutEntry()
    ensures InitialMatchKeys.Keys == WireVersions
    ensures "eth_dst" in MatchKeysAfter(InitialMatchKeys, [])[1]
    ensures "eth_dst" !in MembersAfter(map[], [])
    ensures MatchSanityCheck(MembersAfter(map[], []), [], [], [], NoSkip, []) == Pass
  {
    assert OfV1Keys[0] == "eth_dst";
  }
}
