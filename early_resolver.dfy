/** project2/resolver.py: the earlier DNS client. Its val_to_n_bytes, bytes_to_val and
    get_2_bits are the ByteCodec ones; it differs from project3/resolver.py in masking both
    halves in val_to_2_bytes and in accepting MX on the command line. */
module EarlyResolver {
  import opened Outcomes
  import opened ByteCodec
  import opened Text
  import opened DnsTypes
  import Resolver

  /** val_to_2_bytes: two rounds of `value & 0xFF`, `value >>= 8`, each result inserted in
      front; both results are masked. */
  method ValTo2Bytes(value: nat) returns (r: seq<nat>)
    ensures r == ToBytes(value, 2)
    ensures IsBytes(r) && BigEndian(r) == value % 65536
  {
    r := [];
    var v := value;
    for i := 0 to 2
      invariant r == ToBytes(value, i)
      invariant v == value / Pow256(i)
    {
      var result := v % 256;
      ToBytesFront(value, i);
      DivDiv(value, Pow256(i), 256);
      v := v / 256;
      r := [result] + r;
    }
    BigEndianOfToBytes(value, 2);
    assert Pow256(2) == 65536;
  }

  /** The two versions of val_to_2_bytes agree below 65536; from 65536 on the later one
      returns a first element that is not a byte while this one wraps around. */
  lemma ValTo2BytesVersions(value: nat)
    ensures value < 65536 <==> ToBytes(value, 2) == Resolver.ValTo2Bytes(value)
  {
    BigEndianOfToBytes(value, 2);
    assert Pow256(2) == 65536;
    if value >= 65536 {
      DivModUnique(value % 65536, 65536, 0, value % 65536);
      assert BigEndian(ToBytes(value, 2)) != BigEndian(Resolver.ValTo2Bytes(value));
    }
  }

  /** parse_cli_query: the type goes through DNS_TYPES (an unknown mnemonic is a KeyError;
      MX is accepted), the domain is split on ".", and with no server (None or the empty
      string) one of PUBLIC_DNS_SERVER is chosen; `pick` is that choice. On every type but
      MX, which the later version refuses, the two versions agree. */
  function ParseCliQuery(qType: string, qDomain: string, qServer: Option<string>, pick: nat): (r: Result<Resolver.CliQuery>)
    requires pick < |Resolver.PublicDnsServers|
    ensures qType !in QueryTypes <==> r == Failure(KeyError)
    ensures qType in QueryTypes ==> r.Success? && r.value.qType == QueryTypes[qType]
    ensures r.Success? ==> Join(".", r.value.labels) == qDomain && NoSeparator(r.value.labels, '.')
    ensures r.Success? && qServer.Some? && qServer.value != "" ==> r.value.server == qServer.value
    ensures r.Success? && (qServer.None? || qServer.value == "") ==> r.value.server == Resolver.PublicDnsServers[pick]
    ensures qType != "MX" ==> r == Resolver.ParseCliQuery(qType, qDomain, qServer, pick)
  {
    if qType !in QueryTypes then Failure(KeyError)
    else
      JoinSplit(qDomain, '.');
      SplitPieces(qDomain, '.');
      var server := if qServer.None? || qServer.value == "" then Resolver.PublicDnsServers[pick] else qServer.value;
      Success(Resolver.CliQuery(QueryTypes[qType], Split(qDomain, '.'), server))
  }
}
