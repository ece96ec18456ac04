/**
 * `match_sanity_check()`: the read-only validator run after the build. It stops at the
 * first violation of three checks: legacy struct members are match members, OXM class
 * names are match members, and match members are OXM classes with the same value type.
 */
module MatchCheck {
  import opened Wrappers
  import opened Strings
  import opened MatchBuild

  /** The violation the check stops at; the source prints it and exits with status 1. */
  datatype CheckError =
    | LegacyKeyMissing(key: string, matchStruct: string)         // legacy struct member not a match member
    | OxmKeyMissing(key: string)                                 // OXM name not a match member
    | MaskedBaseMissing(key: string, base: string)               // masked OXM name whose base is not a match member
    | MemberNotInOxm(key: string)                                // match member without an OXM class
    | TypeMismatch(key: string, memberType: string, oxmType: string)

  const OxmPrefix: string := "of_oxm_"

  // ---------------------------------------------------------------------------
  // The legacy-struct check: members of of_match_v1 and of_match_v2 against the table

  /** A legacy struct member the check looks up: not a mask field, not skippable, not `wildcards`. */
  predicate LegacyNeedsKey(key: string, skip: string -> bool) {
    Find(key, "_mask") < 0 && !skip(key) && key != "wildcards"
  }

  /** Every member of a legacy struct that the check looks up is a match member. */
  ghost predicate LegacyCovered(members: map<string, MatchMember>, names: seq<string>, skip: string -> bool) {
    forall i :: 0 <= i < |names| && LegacyNeedsKey(names[i], skip) ==> names[i] in members
  }

  /** The loop over one legacy struct's members; `skip` is the IR's skippable-member predicate. */
  function CheckLegacyStruct(members: map<string, MatchMember>, matchStruct: string, names: seq<string>, skip: string -> bool): (r: Outcome<CheckError>)
    ensures r.Pass? <==> LegacyCovered(members, names, skip)
    ensures r.Fail? ==> exists i :: (0 <= i < |names|
      && LegacyNeedsKey(names[i], skip) && names[i] !in members
      && r.error == LegacyKeyMissing(names[i], matchStruct)
      && LegacyCovered(members, names[..i], skip))
  {
    if names == [] then Pass
    else if LegacyNeedsKey(names[0], skip) && names[0] !in members then
      assert LegacyCovered(members, names[..0], skip);
      Fail(LegacyKeyMissing(names[0], matchStruct))
    else
      var r := CheckLegacyStruct(members, matchStruct, names[1..], skip);
      assert forall i :: 0 < i <= |names| ==> names[1..][..i - 1] == names[..i][1..];
      r
  }

  // ---------------------------------------------------------------------------
  // The OXM-name check: OXM names against the table

  /** An IR class name the check takes as an OXM: prefixed `of_oxm_`, containing neither `masked` nor `header`. */
  predicate IsOxmClassName(x: string) {
    StartsWith(x, OxmPrefix) && Find(x, "masked") < 0 && Find(x, "header") < 0
  }

  /**
   * `oxm_names`: the OXM class names of the IR, prefix stripped, in the order
   * of `unified`. `of_g.unified.keys()` is a Python 2 dict iteration whose order
   * the program does not fix; `unified` is a free parameter, so the lemmas here
   * hold for every order the dict may yield.
   */
  function OxmNames(unified: seq<IrClass>): (r: seq<string>)
    ensures forall k :: k in r <==>
      exists i :: 0 <= i < |unified| && IsOxmClassName(unified[i].name) && unified[i].name == OxmPrefix + k
  {
    if unified == [] then []
    else
      var x := unified[0].name;
      var rest := OxmNames(unified[1..]);
      if IsOxmClassName(x) then
        StripPrefix(x, OxmPrefix);
        assert forall k :: OxmPrefix + k == x ==> k == SliceFrom(x, |OxmPrefix|) by {
          forall k | OxmPrefix + k == x ensures k == SliceFrom(x, |OxmPrefix|) {
            assert k == (OxmPrefix + k)[|OxmPrefix|..];
          }
        }
        [SliceFrom(x, |OxmPrefix|)] + rest
      else
        rest
  }

  /** `oxm_names` of a catalog, one class at a time from the front. */
  lemma OxmNamesCons(c: IrClass, rest: seq<IrClass>)
    ensures OxmNames([c] + rest) == (if IsOxmClassName(c.name) then [SliceFrom(c.name, |OxmPrefix|)] else []) + OxmNames(rest)
  {
    assert ([c] + rest)[1..] == rest;
  }

  /** A class whose name ends in `_masked` never gives an OXM name. */
  lemma MaskedNotOxmClassName(x: string)
    requires EndsWith(x, "_masked")
    ensures !IsOxmClassName(x)
  {
    assert x[|x| - 6..] == x[|x| - 7..][1..];
    assert OccursAt(x, "masked", |x| - 6);
  }

  /** The test the loop over `oxm_names` applies: a match member, or a masked name whose base is one. */
  predicate OxmAccepted(members: map<string, MatchMember>, key: string) {
    key in members || (Find(key, "_masked") > 0 && SliceDropLast(key, 7) in members)
  }

  /** The error for an OXM name the test rejects. */
  function OxmRejection(key: string): CheckError {
    if Find(key, "_masked") > 0 then MaskedBaseMissing(key, SliceDropLast(key, 7)) else OxmKeyMissing(key)
  }

  /** The loop over `oxm_names`: every OXM name is a match member (or a masked name with a member base). */
  function CheckOxmInMembers(members: map<string, MatchMember>, oxmNames: seq<string>): (r: Outcome<CheckError>)
    ensures r.Pass? <==> forall i :: 0 <= i < |oxmNames| ==> OxmAccepted(members, oxmNames[i])
    ensures r.Fail? ==> exists i :: (0 <= i < |oxmNames|
      && !OxmAccepted(members, oxmNames[i])
      && r.error == OxmRejection(oxmNames[i])
      && forall j :: 0 <= j < i ==> OxmAccepted(members, oxmNames[j]))
  {
    if oxmNames == [] then Pass
    else
      var key := oxmNames[0];
      if key !in members && !(Find(key, "_masked") > 0) then
        Fail(OxmKeyMissing(key))
      else if key !in members && SliceDropLast(key, 7) !in members then
        Fail(MaskedBaseMissing(key, SliceDropLast(key, 7)))
      else
        var r := CheckOxmInMembers(members, oxmNames[1..]);
        assert forall i :: 0 < i < |oxmNames| ==> oxmNames[1..][i - 1] == oxmNames[i];
        r
  }

  lemma MaskedSuffix(s: string, p: int)
    requires OccursAt(s, "_masked", p)
    ensures OccursAt(s, "masked", p + 1)
  {
    assert s[p + 1..p + 7] == s[p..p + 7][1..];
  }

  /**
   * The masked fallback of the OXM loop never applies: no name in `oxm_names` contains
   * `_masked`, because the class names it comes from contain no `masked`.
   */
  lemma MaskedFallbackUnreachable(unified: seq<IrClass>, key: string)
    requires key in OxmNames(unified)
    ensures Find(key, "_masked") < 0
  {
    var i :| 0 <= i < |unified| && IsOxmClassName(unified[i].name) && unified[i].name == OxmPrefix + key;
    var p := Find(key, "_masked");
    if p >= 0 {
      MaskedSuffix(key, p);
      OccursInRest(OxmPrefix, key, "masked", p + 1);
      assert false;
    }
  }

  // ---------------------------------------------------------------------------
  // The table check: the table against the OXM classes

  /** The value type the IR gives the class named `className`: that of the last class of that name. */
  function ClassValueType(unified: seq<IrClass>, className: string): (r: Option<string>)
    ensures r.Some? <==> exists i :: 0 <= i < |unified| && unified[i].name == className
    ensures r.Some? ==> exists i :: 0 <= i < |unified| && unified[i].name == className && unified[i].valueType == r.value
  {
    if unified == [] then None
    else if unified[|unified| - 1].name == className then Some(unified[|unified| - 1].valueType)
    else
      var r := ClassValueType(unified[..|unified| - 1], className);
      assert forall i :: 0 <= i < |unified| - 1 ==> unified[..|unified| - 1][i] == unified[i];
      r
  }

  /** A match member agrees with the IR: it names an OXM class whose value type is the member's type. */
  predicate MemberAgrees(members: map<string, MatchMember>, key: string, unified: seq<IrClass>)
    requires key in members
  {
    key in OxmNames(unified) && ClassValueType(unified, OxmPrefix + key) == Some(members[key].mType)
  }

  /** The error for a match member that does not agree with the IR. */
  function MemberRejection(members: map<string, MatchMember>, key: string, unified: seq<IrClass>): CheckError
    requires key in members
  {
    if key !in OxmNames(unified) then MemberNotInOxm(key)
    else TypeMismatch(key, members[key].mType, ClassValueType(unified, OxmPrefix + key).value)
  }

  /** The loop over the table's keys, in the order the dict yields them: every member is an OXM name with the OXM's value type. */
  function CheckMembersInOxm(members: map<string, MatchMember>, keys: seq<string>, unified: seq<IrClass>): (r: Outcome<CheckError>)
    requires forall k :: k in keys ==> k in members
    ensures r.Pass? <==> forall i :: 0 <= i < |keys| ==> MemberAgrees(members, keys[i], unified)
    ensures r.Fail? ==> exists i :: (0 <= i < |keys|
      && !MemberAgrees(members, keys[i], unified)
      && r.error == MemberRejection(members, keys[i], unified)
      && forall j :: 0 <= j < i ==> MemberAgrees(members, keys[j], unified))
  {
    if keys == [] then Pass
    else
      var key := keys[0];
      if key !in OxmNames(unified) then
        assert MemberRejection(members, keys[0], unified) == MemberNotInOxm(key);
        Fail(MemberNotInOxm(key))
      else
        var oxmType := ClassValueType(unified, OxmPrefix + key).value;
        if members[key].mType != oxmType then
          assert MemberRejection(members, keys[0], unified) == TypeMismatch(key, members[key].mType, oxmType);
          Fail(TypeMismatch(key, members[key].mType, oxmType))
        else
          assert MemberAgrees(members, keys[0], unified);
          var r := CheckMembersInOxm(members, keys[1..], unified);
          assert forall i :: 0 < i < |keys| ==> keys[1..][i - 1] == keys[i];
          r
  }

  // ---------------------------------------------------------------------------
  // The whole check

  /**
   * `match_sanity_check()` over the table (`members`, `dictOrder` the order in which the dict yields its keys),
   * the member names of the IR's `of_match_v1` and `of_match_v2` structs, the IR's
   * skippable-member predicate and the IR classes: the first violation, or `Pass`.
   */
  function MatchSanityCheck(members: map<string, MatchMember>, dictOrder: seq<string>,
                            v1Struct: seq<string>, v2Struct: seq<string>,
                            skip: string -> bool, unified: seq<IrClass>): (r: Outcome<CheckError>)
    requires forall k :: k in dictOrder ==> k in members
  {
    var a1 := CheckLegacyStruct(members, "of_match_v1", v1Struct, skip);
    if a1.Fail? then a1
    else
      var a2 := CheckLegacyStruct(members, "of_match_v2", v2Struct, skip);
      if a2.Fail? then a2
      else
        var b := CheckOxmInMembers(members, OxmNames(unified));
        if b.Fail? then b
        else CheckMembersInOxm(members, dictOrder, unified)
  }

  /**
   * What a passing check establishes: both legacy structs are covered by the table, the OXM
   * names and the table's keys are the same names, and every member has its OXM's value type.
   */
  ghost predicate Consistent(members: map<string, MatchMember>, v1Struct: seq<string>, v2Struct: seq<string>,
                             skip: string -> bool, unified: seq<IrClass>) {
    && LegacyCovered(members, v1Struct, skip)
    && LegacyCovered(members, v2Struct, skip)
    && (forall k :: k in OxmNames(unified) ==> k in members)
    && (forall k :: k in members ==> k in OxmNames(unified))
    && (forall k :: k in members ==> ClassValueType(unified, OxmPrefix + k) == Some(members[k].mType))
  }

  /** The OXM loop passes exactly when every OXM name is a key of the table. */
  lemma OxmCheckPassIff(members: map<string, MatchMember>, unified: seq<IrClass>)
    ensures CheckOxmInMembers(members, OxmNames(unified)).Pass? <==>
            forall k :: k in OxmNames(unified) ==> k in members
  {
    var names := OxmNames(unified);
    forall i | 0 <= i < |names| ensures OxmAccepted(members, names[i]) <==> names[i] in members {
      MaskedFallbackUnreachable(unified, names[i]);
    }
  }

  /** The table loop passes exactly when every key is an OXM name whose class has the key's value type. */
  lemma TableCheckPassIff(members: map<string, MatchMember>, dictOrder: seq<string>, unified: seq<IrClass>)
    requires members.Keys == set k | k in dictOrder
    ensures CheckMembersInOxm(members, dictOrder, unified).Pass? <==>
            && (forall k :: k in members ==> k in OxmNames(unified))
            && (forall k :: k in members ==> ClassValueType(unified, OxmPrefix + k) == Some(members[k].mType))
  {
    if CheckMembersInOxm(members, dictOrder, unified).Pass? {
      forall k | k in members ensures MemberAgrees(members, k, unified) {
        var i :| 0 <= i < |dictOrder| && dictOrder[i] == k;
      }
    }
  }

  /** The check passes exactly when the table and the IR are consistent. */
  lemma SanityCheckPassIff(members: map<string, MatchMember>, dictOrder: seq<string>,
                           v1Struct: seq<string>, v2Struct: seq<string>,
                           skip: string -> bool, unified: seq<IrClass>)
    requires members.Keys == set k | k in dictOrder
    ensures MatchSanityCheck(members, dictOrder, v1Struct, v2Struct, skip, unified).Pass? <==>
            Consistent(members, v1Struct, v2Struct, skip, unified)
  {
    OxmCheckPassIff(members, unified);
    TableCheckPassIff(members, dictOrder, unified);
  }

  /** Round trip: a passing check means the table's keys are exactly the OXM names of the IR. */
  lemma PassingCheckMatchesOxmNames(members: map<string, MatchMember>, dictOrder: seq<string>,
                                    v1Struct: seq<string>, v2Struct: seq<string>,
                                    skip: string -> bool, unified: seq<IrClass>)
    requires members.Keys == set k | k in dictOrder
    requires MatchSanityCheck(members, dictOrder, v1Struct, v2Struct, skip, unified).Pass?
    ensures members.Keys == set k | k in OxmNames(unified)
  {
    SanityCheckPassIff(members, dictOrder, v1Struct, v2Struct, skip, unified);
  }

  /** A failing check reports a violation of the first of the legacy-struct, OXM-name and table checks that does not hold. */
  lemma FailingCheckReportsFirstPhase(members: map<string, MatchMember>, dictOrder: seq<string>,
                                      v1Struct: seq<string>, v2Struct: seq<string>,
                                      skip: string -> bool, unified: seq<IrClass>)
    requires members.Keys == set k | k in dictOrder
    requires MatchSanityCheck(members, dictOrder, v1Struct, v2Struct, skip, unified).Fail?
    ensures var e := MatchSanityCheck(members, dictOrder, v1Struct, v2Struct, skip, unified).error;
      if !LegacyCovered(members, v1Struct, skip) then e.LegacyKeyMissing? && e.matchStruct == "of_match_v1"
      else if !LegacyCovered(members, v2Struct, skip) then e.LegacyKeyMissing? && e.matchStruct == "of_match_v2"
      else if !(forall k :: k in OxmNames(unified) ==> k in members) then e.OxmKeyMissing? && e.key !in members
      else (e.MemberNotInOxm? || e.TypeMismatch?) && e.key in members
  {
    var names := OxmNames(unified);
    var b := CheckOxmInMembers(members, names);
    if LegacyCovered(members, v1Struct, skip) && LegacyCovered(members, v2Struct, skip) {
      if k :| k in names && k !in members {
        MaskedFallbackUnreachable(unified, k);
        assert !OxmAccepted(members, k);
        assert b.Fail?;
        var i :| 0 <= i < |names| && !OxmAccepted(members, names[i]) && b.error == OxmRejection(names[i]);
        MaskedFallbackUnreachable(unified, names[i]);
        assert b.error == OxmKeyMissing(names[i]);
      } else {
        forall i | 0 <= i < |names| ensures OxmAccepted(members, names[i]) {
          assert names[i] in names;
        }
        assert b.Pass?;
      }
    }
  }
}
