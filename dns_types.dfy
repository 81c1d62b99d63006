/** The lookup tables of the DNS programs: the resolvers' DNS_TYPES (mnemonic to code), the
    name server's DNS_TYPES (code to mnemonic) and its TTL_SEC (zone-file TTL to seconds). */
module DnsTypes {

  /** DNS_TYPES in project3/resolver.py and project2/resolver.py. */
  const QueryTypes: map<string, nat> :=
    map["A" := 1, "AAAA" := 28, "CNAME" := 5, "MX" := 15, "NS" := 2, "PTR" := 12, "TXT" := 16]

  /** DNS_TYPES in the name server. */
  const TypeNames: map<nat, string> :=
    map[1 := "A", 2 := "NS", 5 := "CNAME", 12 := "PTR", 15 := "MX", 16 := "TXT", 28 := "AAAA"]

  /** TTL_SEC in the name server. */
  const TtlSeconds: map<string, nat> :=
    map["1s" := 1, "1m" := 60, "1h" := 60 * 60, "1d" := 60 * 60 * 24,
        "1w" := 60 * 60 * 24 * 7, "1y" := 60 * 60 * 24 * 365]

  /** The client's and the server's tables are inverse to each other. */
  lemma TablesInverse()
    ensures forall name :: name in QueryTypes ==> QueryTypes[name] in TypeNames && TypeNames[QueryTypes[name]] == name
    ensures forall code :: code in TypeNames ==> TypeNames[code] in QueryTypes && QueryTypes[TypeNames[code]] == code
  {
    assert QueryTypes.Keys == {"A", "AAAA", "CNAME", "MX", "NS", "PTR", "TXT"};
    assert TypeNames.Keys == {1, 2, 5, 12, 15, 16, 28};
  }

  /** Every TTL the zone file can name fits the four bytes of an RR's TTL field. */
  lemma TtlFitsFourBytes()
    ensures forall t :: t in TtlSeconds ==> TtlSeconds[t] < 0x1_0000_0000
  {
    assert TtlSeconds.Keys == {"1s", "1m", "1h", "1d", "1w", "1y"};
  }
}
