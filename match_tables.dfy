/**
 * The hand-written per-version tables of the match code: the legacy match keys of
 * OpenFlow 1.0 and 1.1 and the bit positions of their wildcard flags.
 */
module MatchTables {
  import opened Sequences

  /** Names used in the OpenFlow 1.0 `ofp_match` (OpenFlow Switch Specification 1.0.0, section 5.2.3), in 1.2 spelling. */
  const OfV1Keys: seq<string> := [
    "eth_dst", "eth_src", "eth_type", "in_port", "ipv4_dst", "ip_proto",
    "ipv4_src", "ip_dscp", "tcp_dst", "tcp_src", "vlan_pcp", "vlan_vid"
  ]

  /** Bit of each OpenFlow 1.0 key in the `wildcards` field. */
  const V1WcShifts: map<string, nat> := map[
    "in_port" := 0, "vlan_vid" := 1, "eth_src" := 2, "eth_dst" := 3,
    "eth_type" := 4, "ip_proto" := 5, "tcp_src" := 6, "tcp_dst" := 7,
    "ipv4_src" := 8, "ipv4_dst" := 14, "vlan_pcp" := 20, "ip_dscp" := 21
  ]

  /** Names used in the OpenFlow 1.1 `ofp_match` (OpenFlow Switch Specification 1.1.0, section A.2.3). */
  const OfV2Keys: seq<string> := [
    "eth_dst", "eth_src", "eth_type", "in_port", "ipv4_dst", "ip_proto",
    "ipv4_src", "ip_dscp", "tcp_dst", "tcp_src", "vlan_pcp", "vlan_vid",
    "mpls_label", "mpls_tc", "metadata"
  ]

  /** OpenFlow 1.1 keys that carry an arbitrary bit mask instead of a wildcard bit. */
  const OfV2FullMask: seq<string> := ["eth_dst", "eth_src", "ipv4_dst", "ipv4_src", "metadata"]

  /** Bit of each wildcard-bit OpenFlow 1.1 key in the `wildcards` field. */
  const V2WcShifts: map<string, nat> := map[
    "in_port" := 0, "vlan_vid" := 1, "vlan_pcp" := 2, "eth_type" := 3,
    "ip_dscp" := 4, "ip_proto" := 5, "tcp_src" := 6, "tcp_dst" := 7,
    "mpls_label" := 8, "mpls_tc" := 9
  ]

  /** The wire versions the generator knows: OpenFlow 1.0 to 1.3. */
  const WireVersions: set<int> := {1, 2, 3, 4}

  /** `match_keys` before the build: the legacy lists for versions 1 and 2, empty lists otherwise. */
  const InitialMatchKeys: map<int, seq<string>> := map[1 := OfV1Keys, 2 := OfV2Keys, 3 := [], 4 := []]

  /** No two keys of a shift table share a bit, and every bit fits the 32-bit `wildcards` field. */
  ghost predicate ShiftTable(m: map<string, nat>) {
    && (forall a, b :: a in m && b in m && a != b ==> m[a] != m[b])
    && (forall a :: a in m ==> m[a] < 32)
  }

  /** Every OpenFlow 1.0 key has a wildcard bit, and every wildcard bit belongs to an OpenFlow 1.0 key. */
  lemma V1ShiftsCoverV1Keys()
    ensures V1WcShifts.Keys == set k | k in OfV1Keys
    ensures Distinct(OfV1Keys) && |OfV1Keys| == 12
  {
  }

  /** OpenFlow 1.1 keys are split into wildcard-bit keys and full-mask keys, with no key in both. */
  lemma V2ShiftsAndFullMaskPartitionV2Keys()
    ensures V2WcShifts.Keys !! (set k | k in OfV2FullMask)
    ensures V2WcShifts.Keys + (set k | k in OfV2FullMask) == set k | k in OfV2Keys
    ensures Distinct(OfV2Keys) && |OfV2Keys| == 15
  {
  }

  /** The OpenFlow 1.0 wildcard table assigns distinct bits below 32. */
  lemma V1ShiftTableWellFormed()
    ensures ShiftTable(V1WcShifts)
  {
    // a table is injective when some map sends each bit back to its key
    var bits := map[
      0 := "in_port", 1 := "vlan_vid", 2 := "eth_src", 3 := "eth_dst",
      4 := "eth_type", 5 := "ip_proto", 6 := "tcp_src", 7 := "tcp_dst",
      8 := "ipv4_src", 14 := "ipv4_dst", 20 := "vlan_pcp", 21 := "ip_dscp"
    ];
    InverseMakesShiftTable(V1WcShifts, bits);
  }

  /** The OpenFlow 1.1 wildcard table assigns distinct bits below 32. */
  lemma V2ShiftTableWellFormed()
    ensures ShiftTable(V2WcShifts)
  {
    var bits := map[
      0 := "in_port", 1 := "vlan_vid", 2 := "vlan_pcp", 3 := "eth_type",
      4 := "ip_dscp", 5 := "ip_proto", 6 := "tcp_src", 7 := "tcp_dst",
      8 := "mpls_label", 9 := "mpls_tc"
    ];
    InverseMakesShiftTable(V2WcShifts, bits);
  }

  lemma InverseMakesShiftTable(m: map<string, nat>, inv: map<nat, string>)
    requires forall a :: a in m ==> m[a] < 32 && m[a] in inv && inv[m[a]] == a
    ensures ShiftTable(m)
  {
  }

  /** The OpenFlow 1.1 list extends the OpenFlow 1.0 list, in the same order. */
  lemma V1KeysPrefixOfV2Keys()
    ensures OfV1Keys <= OfV2Keys
  {
  }
}
