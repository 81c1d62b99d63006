/** project3/resolver.py: the DNS client. It serialises one query and walks the server's
    response with integer cursors, collecting `(name, ttl, address)` for every answer. */
module Resolver {
  import opened Outcomes
  import opened Bits
  import opened ByteCodec
  import opened Text
  import opened DnsTypes
  import opened DottedDecimal

  /** One answer as the resolver reports it. */
  datatype Answer = Answer(name: string, ttl: nat, address: string)

  /** What parse_cli_query hands on: the type code, the domain's labels and the server. */
  datatype CliQuery = CliQuery(qType: nat, labels: seq<string>, server: string)

  const PublicDnsServers: seq<string> := [
    "1.0.0.1", "1.1.1.1", "8.8.4.4", "8.8.8.8", "8.26.56.26",
    "8.20.247.20", "9.9.9.9", "64.6.64.6", "208.67.222.222", "208.67.220.220"
  ]

  // ---------------------------------------------------------------- byte helpers

  /** val_to_2_bytes: `[value >> 8, value & 0xFF]`. The high part is not masked, so it is a
      byte only for values below 65536. */
  function ValTo2Bytes(value: nat): (r: seq<nat>)
    ensures |r| == 2 && r[1] < 256
    ensures BigEndian(r) == value
    ensures value < 65536 ==> r == ToBytes(value, 2)
  {
    BigEndianPair(value / 256, value % 256);
    [value / 256, value % 256]
  }

  /** get_domain_name_location: the 14-bit offset of a compression pointer `b0 b1`. */
  function GetDomainNameLocation(b0: nat, b1: nat): (r: nat)
    ensures b1 < 256 ==> r < 16384
  {
    (b0 % 64) * 256 + b1
  }

  /** A pointer written as `0xC0 | p >> 8, p & 0xFF` decodes back to p. */
  lemma PointerRoundTrip(p: nat)
    requires p < 16384
    ensures GetDomainNameLocation(0xC0 + p / 256, p % 256) == p
  {
    assert (0xC0 + p / 256) % 64 == p / 256;
  }

  // ---------------------------------------------------------------- parse_cli_query

  /** parse_cli_query. MX is refused with ValueError, any other unknown mnemonic is a
      KeyError of DNS_TYPES, and the domain is split on ".". When no server is given (None
      or the empty string) the resolver picks one of PUBLIC_DNS_SERVER; `pick` is that
      choice. */
  function ParseCliQuery(qType: string, qDomain: string, qServer: Option<string>, pick: nat): (r: Result<CliQuery>)
    requires pick < |PublicDnsServers|
    ensures qType == "MX" ==> r == Failure(ValueError)
    ensures qType != "MX" && qType !in QueryTypes ==> r == Failure(KeyError)
    ensures qType != "MX" && qType in QueryTypes ==> r.Success? && r.value.qType == QueryTypes[qType]
    ensures r.Success? ==> Join(".", r.value.labels) == qDomain && NoSeparator(r.value.labels, '.')
    ensures r.Success? && qServer.Some? && qServer.value != "" ==> r.value.server == qServer.value
    ensures r.Success? && (qServer.None? || qServer.value == "") ==> r.value.server == PublicDnsServers[pick]
  {
    if qType == "MX" then Failure(ValueError)
    else if qType !in QueryTypes then Failure(KeyError)
    else
      JoinSplit(qDomain, '.');
      SplitPieces(qDomain, '.');
      var server := if qServer.None? || qServer.value == "" then PublicDnsServers[pick] else qServer.value;
      Success(CliQuery(QueryTypes[qType], Split(qDomain, '.'), server))
  }

  // ---------------------------------------------------------------- format_query

  /** The twelve header bytes: ID 79,66 (0x4F42), flags 0x0100 (recursion desired),
      QDCOUNT 1 and zero answer, authority and additional counts. */
  const QueryHeader: seq<byte> := [79, 66, 1, 0, 0, 1, 0, 0, 0, 0, 0, 0]

  /** The label's length and every character code fit the byte `bytearray.append` takes. */
  predicate LabelEncodable(s: string) {
    |s| < 256 && forall j :: 0 <= j < |s| ==> s[j] as int < 256
  }

  predicate Encodable(labels: seq<string>) {
    forall i :: 0 <= i < |labels| ==> LabelEncodable(labels[i])
  }

  /** Each label as its length byte followed by its character codes. */
  function EncodeLabels(labels: seq<string>): (r: seq<byte>)
    requires Encodable(labels)
  {
    if |labels| == 0 then []
    else [|labels[0]| as byte] + Codes(labels[0]) + EncodeLabels(labels[1..])
  }

  /** Size of the encoded labels: one length byte per label plus its characters. */
  function LabelsSize(labels: seq<string>): nat {
    if |labels| == 0 then 0 else |labels[0]| + 1 + LabelsSize(labels[1..])
  }

  /** What format_query produces: header, labels, the root's zero byte, QTYPE, QCLASS 1.
      A label of 256 or more characters, a character code above 255 or a type above
      65535 makes `bytearray.append` raise ValueError. */
  function QueryWire(qType: nat, labels: seq<string>): Result<seq<byte>> {
    if Encodable(labels) && qType < 65536 then
      Success(QueryHeader + EncodeLabels(labels) + [0, qType / 256, qType % 256, 0, 1])
    else Failure(ValueError)
  }

  lemma {:induction false} EncodeLabelsSize(labels: seq<string>)
    requires Encodable(labels)
    ensures |EncodeLabels(labels)| == LabelsSize(labels)
  {
    if |labels| > 0 {
      EncodeLabelsSize(labels[1..]);
    }
  }

  /** The layout of a serialised query: fixed header, then labels, then type and class. */
  lemma QueryLayout(qType: nat, labels: seq<string>)
    requires QueryWire(qType, labels).Success?
    ensures var q := QueryWire(qType, labels).value;
      |q| == 17 + LabelsSize(labels) &&
      q[..12] == [0x4F, 0x42, 0x01, 0x00, 0x00, 0x01, 0x00, 0x00, 0x00, 0x00, 0x00, 0x00] &&
      q[12..12 + LabelsSize(labels)] == EncodeLabels(labels) &&
      q[|q| - 5..] == [0] + ToBytes(qType, 2) + [0, 1]
  {
    EncodeLabelsSize(labels);
    var q := QueryWire(qType, labels).value;
    assert q == QueryHeader + EncodeLabels(labels) + [0, qType / 256, qType % 256, 0, 1];
    assert ToBytes(qType, 2) == [qType / 256, qType % 256];
  }

  lemma {:induction false} EncodeLabelsSnoc(labels: seq<string>, x: string)
    requires Encodable(labels + [x]) && |x| < 256
    ensures Encodable(labels)
    ensures EncodeLabels(labels + [x]) == EncodeLabels(labels) + [|x| as byte] + Codes(x)
  {
    assert forall i :: 0 <= i < |labels| ==> labels[i] == (labels + [x])[i];
    if |labels| > 0 {
      assert (labels + [x])[1..] == labels[1..] + [x];
      EncodeLabelsSnoc(labels[1..], x);
    }
  }

  /** The inner loop of format_query: one label's length byte, then its character codes. */
  method AppendLabel(query: seq<byte>, subDomain: string) returns (r: Result<seq<byte>>)
    ensures LabelEncodable(subDomain) ==> r == Success(query + [|subDomain| as byte] + Codes(subDomain))
    ensures !LabelEncodable(subDomain) ==> r == Failure(ValueError)
  {
    if |subDomain| >= 256 {
      return Failure(ValueError);
    }
    var q := query + [|subDomain| as byte];
    for j := 0 to |subDomain|
      invariant forall m :: 0 <= m < j ==> subDomain[m] as int < 256
      invariant q == query + [|subDomain| as byte] + Codes(subDomain[..j])
    {
      var code := subDomain[j] as int;
      if code >= 256 {
        return Failure(ValueError);
      }
      assert Codes(subDomain[..j + 1]) == Codes(subDomain[..j]) + [code];
      q := q + [code];
    }
    assert subDomain[..|subDomain|] == subDomain;
    r := Success(q);
  }

  /** Each flag word format_query appends extends the header by its two bytes. */
  lemma HeaderStep(k: nat)
    requires k < 4
    ensures QueryHeader[..6 + 2 * k] == QueryHeader[..4 + 2 * k] + [0, [1, 0, 0, 0][k]]
  {
    if k == 0 {
      assert QueryHeader[..6] == [79, 66, 1, 0] + [0, 1];
    } else if k == 1 {
      assert QueryHeader[..8] == QueryHeader[..6] + [0, 0];
    } else if k == 2 {
      assert QueryHeader[..10] == QueryHeader[..8] + [0, 0];
    } else {
      assert QueryHeader[..12] == QueryHeader[..10] + [0, 0];
    }
  }

  /** format_query: appends the header, each label and the trailer to a bytearray. */
  method FormatQuery(qType: nat, qDomain: seq<string>) returns (r: Result<seq<byte>>)
    ensures r == QueryWire(qType, qDomain)
  {
    var query: seq<byte> := [79, 66, 1, 0];
    var flags := [1, 0, 0, 0];
    for k := 0 to 4
      invariant query == QueryHeader[..4 + 2 * k]
    {
      var res := ValTo2Bytes(flags[k]);
      HeaderStep(k);
      query := query + [res[0] as byte, res[1] as byte];
    }
    for i := 0 to |qDomain|
      invariant Encodable(qDomain[..i])
      invariant query == QueryHeader + EncodeLabels(qDomain[..i])
    {
      var appended := AppendLabel(query, qDomain[i]);
      if appended.Failure? {
        assert !Encodable(qDomain);
        return appended;
      }
      query := appended.value;
      assert qDomain[..i + 1] == qDomain[..i] + [qDomain[i]];
      EncodeLabelsSnoc(qDomain[..i], qDomain[i]);
    }
    assert qDomain[..|qDomain|] == qDomain;
    r := AppendTrailer(query, qType);
  }

  /** The end of format_query: the root's zero byte, QTYPE through val_to_2_bytes (whose
      first element is not a byte from 65536 on) and QCLASS 1. */
  method AppendTrailer(query: seq<byte>, qType: nat) returns (r: Result<seq<byte>>)
    ensures qType < 65536 ==> r == Success(query + [0, qType / 256, qType % 256, 0, 1])
    ensures qType >= 65536 ==> r == Failure(ValueError)
  {
    var q := query + [0];
    var t := ValTo2Bytes(qType);
    assert t == [qType / 256, qType % 256];
    if t[0] >= 256 {
      assert qType >= 65536;
      return Failure(ValueError);
    }
    assert qType < 65536;
    q := q + [t[0] as byte, t[1] as byte];
    q := q + [0, 1];
    assert q == query + [0, qType / 256, qType % 256, 0, 1];
    r := Success(q);
  }

  // ---------------------------------------------------------------- parse_address_a

  /** parse_address_a: the first `addrLen` bytes in decimal, joined by "."; a length beyond
      the bytes present reads past the end (IndexError). */
  function ParseAddressA(addrLen: nat, addrBytes: seq<byte>): (r: Result<string>)
    ensures r.Success? <==> addrLen <= |addrBytes|
  {
    if addrLen <= |addrBytes| then Success(Join(".", DecimalParts(addrBytes[..addrLen])))
    else Failure(IndexError)
  }

  /** The dotted text splits back into one decimal per byte, each reading as that byte. */
  lemma ParseAddressAParts(addrLen: nat, addrBytes: seq<byte>)
    requires 1 <= addrLen <= |addrBytes|
    ensures var parts := Split(ParseAddressA(addrLen, addrBytes).value, '.');
      |parts| == addrLen && forall i :: 0 <= i < addrLen ==> ParseDecimal(parts[i]) == Success(addrBytes[i] as nat)
  {
    var b: seq<nat> := addrBytes[..addrLen];
    DecimalPartsNoDot(b);
    SplitJoin(DecimalParts(b), '.');
    forall i | 0 <= i < addrLen
      ensures ParseDecimal(DecimalParts(b)[i]) == Success(addrBytes[i] as nat)
    {
      ParseDecimalOfDecimal(b[i]);
    }
  }

  // ---------------------------------------------------------------- parse_address_aaaa

  /** Number of values in range(0, 2 * addrLen, 4). */
  function GroupCount(addrLen: nat): nat {
    (2 * addrLen + 3) / 4
  }

  /** The slices `hex[i:i+4]` for the first `count` multiples i of 4. */
  function HexGroups(hex: string, count: nat): (r: seq<string>)
    ensures |r| == count
    ensures forall k :: 0 <= k < count ==> r[k] == Slice(hex, 4 * k, 4 * k + 4)
  {
    if count == 0 then [] else HexGroups(hex, count - 1) + [Slice(hex, 4 * (count - 1), 4 * (count - 1) + 4)]
  }

  /** How many '0' characters the group starts with. */
  function LeadingZeros(g: string): (n: nat)
    ensures n <= |g| && (n < |g| ==> g[n] != '0')
    ensures forall k :: 0 <= k < n ==> g[k] == '0'
  {
    if |g| == 0 || g[0] != '0' then 0 else 1 + LeadingZeros(g[1..])
  }

  /** One pass of parse_address_aaaa's loop over a group: "0000" becomes "0", any other
      group starting with '0' loses its leading zeros, and a group made only of zeros that
      is not "0000" runs the scan past its end (IndexError). */
  function StripGroup(g: string): Result<string> {
    if g == "0000" then Success("0")
    else if |g| > 0 && g[0] == '0' then
      var n := LeadingZeros(g);
      if n == |g| then Failure(IndexError) else Success(g[n..])
    else Success(g)
  }

  /** `StripGroup` over the groups in order; the first failure is the result. */
  function StripAll(gs: seq<string>): (r: Result<seq<string>>)
    ensures r.Success? ==> |r.value| == |gs|
    ensures r.Failure? ==> r.error == IndexError
  {
    if |gs| == 0 then Success([])
    else
      var init :- StripAll(gs[..|gs| - 1]);
      var last :- StripGroup(gs[|gs| - 1]);
      Success(init + [last])
  }

  lemma {:induction false} StripAllPrefix(gs: seq<string>, n: nat)
    requires n <= |gs| && StripAll(gs[..n]).Failure?
    ensures StripAll(gs).Failure?
    decreases |gs| - n
  {
    if n < |gs| {
      var init := gs[..|gs| - 1];
      assert init[..n] == gs[..n];
      StripAllPrefix(init, n);
    } else {
      assert gs[..n] == gs;
    }
  }

  /** What parse_address_aaaa returns: `bytes.hex()` cut into four-digit groups, each
      stripped, joined by ":". With no group at all the final `pop` fails (IndexError). */
  function AaaaText(addrLen: nat, addrBytes: seq<byte>): Result<string> {
    var groups := HexGroups(HexOf(addrBytes), GroupCount(addrLen));
    var stripped :- StripAll(groups);
    if |stripped| == 0 then Failure(IndexError) else Success(Join(":", stripped))
  }

  /** The body of parse_address_aaaa's loop for one group: the value written back into the
      group's cell, or IndexError when the scan for a non-zero digit runs off the end. */
  method StripLeadingZeros(cur: string) returns (r: Result<string>)
    ensures r == StripGroup(cur)
  {
    if cur == "0000" {
      return Success("0");
    }
    if !(|cur| > 0 && cur[0] == '0') {
      return Success(cur);
    }
    var allZeroes := true;
    var i := 0;
    r := Success(cur);
    while allZeroes
      invariant 0 <= i <= |cur|
      invariant forall k :: 0 <= k < i ==> cur[k] == '0'
      invariant !allZeroes ==> i == LeadingZeros(cur) < |cur| && r == Success(cur[i..])
      decreases |cur| - i + (if allZeroes then 1 else 0)
    {
      if i >= |cur| {
        return Failure(IndexError);
      }
      if cur[i] == '0' {
        i := i + 1;
      } else {
        allZeroes := false;
        r := Success(cur[i..]);
      }
    }
  }

  /** parse_address_aaaa: rewrites the list of groups in place, then joins the groups with
      ":" pieces and pops the last one. */
  method ParseAddressAaaa(addrLen: nat, addrBytes: seq<byte>) returns (r: Result<string>)
    ensures r == AaaaText(addrLen, addrBytes)
  {
    var groups := HexGroups(HexOf(addrBytes), GroupCount(addrLen));
    ghost var original := groups;
    var address: seq<string> := [];
    for g := 0 to |groups|
      invariant AaaaLoop(original, groups, address, g)
    {
      var stripped := StripLeadingZeros(groups[g]);
      if stripped.Failure? {
        StripFailure(original, g, groups[..g]);
        return Failure(IndexError);
      }
      AaaaStep(original, groups, address, g, stripped.value);
      groups := groups[g := stripped.value];
      address := address + [stripped.value, ":"];
    }
    AaaaDone(original, groups, address);
    if |address| == 0 {
      return Failure(IndexError);
    }
    r := Success(Concat(address[..|address| - 1]));
  }

  /** The state of parse_address_aaaa after g groups: those groups are rewritten, the rest
      untouched, and the pieces spell each rewritten group followed by ":". */
  ghost predicate AaaaLoop(original: seq<string>, groups: seq<string>, address: seq<string>, g: nat) {
    g <= |groups| == |original| && groups[g..] == original[g..] &&
    StripAll(original[..g]) == Success(groups[..g]) &&
    Concat(address) == Terminated(":", groups[..g]) && |address| == 2 * g &&
    (g > 0 ==> address[|address| - 1] == ":")
  }

  lemma AaaaStep(original: seq<string>, groups: seq<string>, address: seq<string>, g: nat, x: string)
    requires AaaaLoop(original, groups, address, g) && g < |groups|
    requires StripGroup(groups[g]) == Success(x)
    ensures AaaaLoop(original, groups[g := x], address + [x, ":"], g + 1)
  {
    assert groups[g] == original[g];
    StripAllStep(original, g, groups[..g], x);
    PiecesStep(address, groups[..g], x);
    assert groups[..g] + [x] == groups[g := x][..g + 1];
    assert groups[g := x][g + 1..] == original[g + 1..];
  }

  lemma AaaaDone(original: seq<string>, groups: seq<string>, address: seq<string>)
    requires AaaaLoop(original, groups, address, |groups|)
    ensures StripAll(original) == Success(groups)
    ensures |address| == 0 <==> |groups| == 0
    ensures |address| > 0 ==> Concat(address[..|address| - 1]) == Join(":", groups)
  {
    assert original[..|original|] == original;
    assert groups[..|groups|] == groups;
    if |address| > 0 {
      PopSeparator(address, groups);
    }
  }

  lemma StripFailure(original: seq<string>, g: nat, done: seq<string>)
    requires g < |original| && StripAll(original[..g]) == Success(done)
    requires StripGroup(original[g]).Failure?
    ensures StripAll(original) == Failure(IndexError)
  {
    assert original[..g + 1][..g] == original[..g];
    StripAllPrefix(original, g + 1);
  }

  /** Appending a group and a ":" piece extends the text by that group and ":". */
  lemma PiecesStep(address: seq<string>, done: seq<string>, x: string)
    requires Concat(address) == Terminated(":", done)
    ensures Concat(address + [x, ":"]) == Terminated(":", done + [x])
  {
    ConcatSnoc(address, x);
    ConcatSnoc(address + [x], ":");
    assert address + [x, ":"] == (address + [x]) + [":"];
    assert (done + [x])[..|done|] == done;
  }

  /** Popping the final ":" piece leaves the groups joined by ":". */
  lemma PopSeparator(address: seq<string>, groups: seq<string>)
    requires |address| >= 1 && address[|address| - 1] == ":" && |groups| >= 1
    requires Concat(address) == Terminated(":", groups)
    ensures Concat(address[..|address| - 1]) == Join(":", groups)
  {
    var popped := address[..|address| - 1];
    assert address == popped + [":"];
    ConcatSnoc(popped, ":");
    TerminatedJoin(":", groups);
    assert (Concat(popped) + ":")[..|Concat(popped)|] == Concat(popped);
  }

  lemma StripAllStep(gs: seq<string>, g: nat, done: seq<string>, x: string)
    requires g < |gs| && StripAll(gs[..g]) == Success(done) && StripGroup(gs[g]) == Success(x)
    ensures StripAll(gs[..g + 1]) == Success(done + [x])
  {
    assert gs[..g + 1][..g] == gs[..g];
  }


  /** The four digits `bytes.hex()` writes for the 16-bit group hi, lo. */
  function HexWord(hi: byte, lo: byte): string {
    [HexChar(hi / 16), HexChar(hi % 16), HexChar(lo / 16), HexChar(lo % 16)]
  }

  /** `g` is the shortest hexadecimal spelling of `v`: it reads back as `v` and starts with
      '0' only when it is "0". */
  predicate CanonicalHex(g: string, v: nat) {
    |g| >= 1 && ParseHex(g) == Success(v) && (g[0] == '0' ==> g == "0")
  }

  lemma {:induction false} StripZeros(s: string, n: nat)
    requires n <= |s| && forall i :: 0 <= i < |s| ==> IsHexDigit(s[i])
    requires forall i :: 0 <= i < n ==> s[i] == '0'
    ensures HexDigitsValue(s[n..]) == HexDigitsValue(s)
  {
    if n > 0 {
      StripZeros(s, n - 1);
      assert s[n - 1..][1..] == s[n..];
      HexLeadingZero(s[n - 1..]);
    }
  }

  lemma HexWordValue(hi: byte, lo: byte)
    ensures forall i :: 0 <= i < 4 ==> IsHexDigit(HexWord(hi, lo)[i])
    ensures HexDigitsValue(HexWord(hi, lo)) == hi as int * 256 + lo
  {
    var w := HexWord(hi, lo);
    assert w[..3][..2][..1][..0] == "";
    assert HexDigitsValue(w[..1]) == hi / 16;
    assert HexDigitsValue(w[..2]) == hi / 16 * 16 + hi % 16 == hi;
    assert w[..3][..2] == w[..2] && w[..2][..1] == w[..1];
    assert HexDigitsValue(w[..3]) == hi as int * 16 + lo / 16;
    assert w[..4] == w;
  }

  /** A group of `bytes.hex()` is always stripped to the canonical spelling of its value. */
  lemma StripWord(hi: byte, lo: byte)
    ensures StripGroup(HexWord(hi, lo)).Success?
    ensures CanonicalHex(StripGroup(HexWord(hi, lo)).value, hi as int * 256 + lo)
  {
    var w := HexWord(hi, lo);
    HexWordValue(hi, lo);
    if w == "0000" {
      assert hi / 16 == 0 && hi % 16 == 0 && lo / 16 == 0 && lo % 16 == 0;
      assert HexDigitsValue("0") == HexDigitsValue("") * 16 + HexValue('0');
    } else if w[0] == '0' {
      StripZeros(w, LeadingZeros(w));
    }
  }

  lemma WordStrips(hi: byte, lo: byte)
    ensures StripGroup(HexWord(hi, lo)).Success? && ':' !in StripGroup(HexWord(hi, lo)).value
  {
    StripWord(hi, lo);
  }

  /** The m-th group parse_address_aaaa cuts out of `bytes.hex()` spells bytes 2m and 2m+1. */
  lemma HexGroupAt(b: seq<byte>, count: nat, m: nat)
    requires 2 * count <= |b| && m < count
    ensures HexGroups(HexOf(b), count)[m] == HexWord(b[2 * m], b[2 * m + 1])
  {
    HexOfAt(b, 2 * m);
    HexOfAt(b, 2 * m + 1);
    var hex := HexOf(b);
    var g := hex[4 * m..4 * m + 4];
    assert g[0] == hex[2 * (2 * m)] && g[1] == hex[2 * (2 * m) + 1];
    assert g[2] == hex[2 * (2 * m + 1)] && g[3] == hex[2 * (2 * m + 1) + 1];
    assert g == HexWord(b[2 * m], b[2 * m + 1]);
  }

  /** When every group strips, the stripped list is the groups stripped one by one. */
  lemma {:induction false} StripAllPointwise(gs: seq<string>)
    requires forall i :: 0 <= i < |gs| ==> StripGroup(gs[i]).Success?
    ensures StripAll(gs).Success?
    ensures forall i :: 0 <= i < |gs| ==> StripAll(gs).value[i] == StripGroup(gs[i]).value
  {
    if |gs| > 0 {
      var init := gs[..|gs| - 1];
      assert forall i :: 0 <= i < |init| ==> init[i] == gs[i];
      StripAllPointwise(init);
      var r := StripAll(init).value + [StripGroup(gs[|gs| - 1]).value];
      assert StripAll(gs) == Success(r);
      assert forall i :: 0 <= i < |init| ==> r[i] == StripAll(init).value[i];
    }
  }

  /** The groups of a whole address all strip, each to its own four digits stripped. */
  lemma AaaaStripped(addrBytes: seq<byte>)
    requires |addrBytes| >= 2 && |addrBytes| % 2 == 0
    ensures var gs := HexGroups(HexOf(addrBytes), GroupCount(|addrBytes|));
      StripAll(gs).Success? && |StripAll(gs).value| == |addrBytes| / 2 &&
      NoSeparator(StripAll(gs).value, ':') &&
      forall k :: 0 <= k < |addrBytes| / 2 ==>
        StripGroup(HexWord(addrBytes[2 * k], addrBytes[2 * k + 1])).Success? &&
        StripAll(gs).value[k] == StripGroup(HexWord(addrBytes[2 * k], addrBytes[2 * k + 1])).value
  {
    var n := |addrBytes| / 2;
    assert GroupCount(|addrBytes|) == n;
    var gs := HexGroups(HexOf(addrBytes), n);
    forall k | 0 <= k < n
      ensures gs[k] == HexWord(addrBytes[2 * k], addrBytes[2 * k + 1])
      ensures StripGroup(gs[k]).Success? && ':' !in StripGroup(gs[k]).value
    {
      HexGroupAt(addrBytes, n, k);
      WordStrips(addrBytes[2 * k], addrBytes[2 * k + 1]);
    }
    StripAllPointwise(gs);
  }

  /** parse_address_aaaa on a whole address of 16-bit groups: the text splits at ":" into
      one part per two bytes, each the four digits of that pair stripped of leading zeros. */
  lemma AaaaParts(addrBytes: seq<byte>)
    requires |addrBytes| >= 2 && |addrBytes| % 2 == 0
    ensures AaaaText(|addrBytes|, addrBytes).Success?
    ensures var parts := Split(AaaaText(|addrBytes|, addrBytes).value, ':');
      |parts| == |addrBytes| / 2 &&
      forall k :: 0 <= k < |parts| ==>
        StripGroup(HexWord(addrBytes[2 * k], addrBytes[2 * k + 1])).Success? &&
        parts[k] == StripGroup(HexWord(addrBytes[2 * k], addrBytes[2 * k + 1])).value
  {
    AaaaStripped(addrBytes);
    var stripped := StripAll(HexGroups(HexOf(addrBytes), GroupCount(|addrBytes|))).value;
    SplitJoin(stripped, ':');
  }

  /** What parse_address_aaaa means for a whole address of 16-bit groups: the text splits at
      ":" into one group per two bytes, each the canonical lower-case hexadecimal spelling of
      that pair's big-endian value. */
  lemma AaaaCanonical(addrBytes: seq<byte>)
    requires |addrBytes| >= 2 && |addrBytes| % 2 == 0
    ensures AaaaText(|addrBytes|, addrBytes).Success?
    ensures var parts := Split(AaaaText(|addrBytes|, addrBytes).value, ':');
      |parts| == |addrBytes| / 2 &&
      forall k :: 0 <= k < |parts| ==> CanonicalHex(parts[k], addrBytes[2 * k] as int * 256 + addrBytes[2 * k + 1])
  {
    AaaaParts(addrBytes);
    var parts := Split(AaaaText(|addrBytes|, addrBytes).value, ':');
    forall k | 0 <= k < |parts|
      ensures CanonicalHex(parts[k], addrBytes[2 * k] as int * 256 + addrBytes[2 * k + 1])
    {
      PartCanonical(parts[k], addrBytes[2 * k], addrBytes[2 * k + 1]);
    }
  }

  lemma PartCanonical(part: string, hi: byte, lo: byte)
    requires StripGroup(HexWord(hi, lo)).Success? && part == StripGroup(HexWord(hi, lo)).value
    ensures CanonicalHex(part, hi as int * 256 + lo)
  {
    StripWord(hi, lo);
  }

  // ---------------------------------------------------------------- get_name

  /** The labels get_name reads: `len` characters from `builder`, then the next length byte
      right after them, until a zero length. Reading past the buffer is an IndexError. */
  function NameLabels(resp: seq<byte>, len: nat, builder: nat): Result<seq<string>>
    decreases |resp| - builder
  {
    if len == 0 then Success([])
    else if builder + len >= |resp| then Failure(IndexError)
    else
      var rest :- NameLabels(resp, resp[builder + len], builder + len + 1);
      Success([Chars(resp[builder..builder + len])] + rest)
  }

  /** get_name's result: the labels joined by ".", and "" when the first length is 0. */
  function NameText(resp: seq<byte>, len: nat, builder: nat): Result<string> {
    var labels :- NameLabels(resp, len, builder);
    Success(Join(".", labels))
  }

  /** get_name: copies characters and a "." per label, then drops the last character. */
  method GetName(resp: seq<byte>, startOfName: nat, builder0: nat) returns (r: Result<string>)
    ensures r == NameText(resp, startOfName, builder0)
  {
    var builder := builder0;
    var current: nat := startOfName;
    var name: string := "";
    ghost var labels: seq<string> := [];
    PrependNothing(NameLabels(resp, startOfName, builder0));
    while current != 0
      invariant NameLabels(resp, startOfName, builder0) == Prepend(labels, NameLabels(resp, current, builder))
      invariant name == Terminated(".", labels)
      decreases |resp| - builder
    {
      var part := CopyLabel(resp, builder, current);
      if part.Failure? || builder + current >= |resp| {
        NameOverrun(resp, current, builder);
        return Failure(IndexError);
      }
      var sub, end := part.value, builder + current;
      NameStep(resp, current, builder, end, sub, labels, NameLabels(resp, startOfName, builder0));
      name := name + sub + ".";
      labels := labels + [sub];
      current, builder := resp[end], end + 1;
    }
    PrependOntoEmpty(labels);
    NameDone(labels, name);
    if |name| > 0 {
      name := name[..|name| - 1];
    }
    r := Success(name);
  }

  /** The inner loop of get_name and of parse_request: `len` characters copied one byte at
      a time from `start`, an IndexError once a read falls past the end. */
  method CopyLabel(resp: seq<byte>, start: nat, len: nat) returns (r: Result<string>)
    ensures start + len <= |resp| ==> r == Success(Chars(Slice(resp, start, start + len)))
    ensures len > 0 && start + len > |resp| ==> r == Failure(IndexError)
  {
    var copied := "";
    var builder := start;
    while builder < start + len
      invariant start <= builder <= start + len
      invariant builder > start ==> builder <= |resp|
      invariant copied == Chars(Slice(resp, start, builder))
    {
      if builder >= |resp| {
        return Failure(IndexError);
      }
      CopyStep(resp, start, builder);
      copied := copied + [resp[builder] as char];
      builder := builder + 1;
    }
    return Success(copied);
  }

  lemma CopyStep(resp: seq<byte>, start: nat, builder: nat)
    requires start <= builder < |resp|
    ensures Chars(Slice(resp, start, builder + 1)) == Chars(Slice(resp, start, builder)) + [resp[builder] as char]
  {
    CharsSnoc(resp[start..builder], resp[builder]);
    assert resp[start..builder + 1] == resp[start..builder] + [resp[builder]];
  }

  lemma NameOverrun(resp: seq<byte>, len: nat, start: nat)
    requires len != 0 && start + len >= |resp|
    ensures NameLabels(resp, len, start) == Failure(IndexError)
  {
  }

  /** One label read: it moves from the pending part to the labels already collected. */
  lemma NameStep(resp: seq<byte>, len: nat, start: nat, end: nat, sub: string, labels: seq<string>,
                  whole: Result<seq<string>>)
    requires len != 0 && end == start + len && end < |resp| && sub == Chars(Slice(resp, start, end))
    requires whole == Prepend(labels, NameLabels(resp, len, start))
    ensures whole == Prepend(labels + [sub], NameLabels(resp, resp[end], end + 1))
    ensures Terminated(".", labels + [sub]) == Terminated(".", labels) + sub + "."
  {
    PrependTwice(labels, [sub], NameLabels(resp, resp[end], end + 1));
    assert (labels + [sub])[..|labels|] == labels;
  }

  lemma NameDone(labels: seq<string>, name: string)
    requires name == Terminated(".", labels)
    ensures |name| > 0 <==> |labels| > 0
    ensures |name| > 0 ==> name[..|name| - 1] == Join(".", labels)
    ensures |name| == 0 ==> name == Join(".", labels)
  {
    if |labels| > 0 {
      TerminatedJoin(".", labels);
      assert (Join(".", labels) + ".")[..|name| - 1] == Join(".", labels);
    }
  }

  /** Labels get_name can read back: a zero length would end the name early. */
  predicate NonEmptyLabels(labels: seq<string>) {
    forall i :: 0 <= i < |labels| ==> |labels[i]| > 0
  }

  /** The encoded labels sit at `p` of `resp`, followed by the zero byte. */
  ghost predicate EncodedAt(resp: seq<byte>, p: nat, labels: seq<string>)
    requires Encodable(labels)
  {
    p + LabelsSize(labels) < |resp| &&
    resp[p..p + LabelsSize(labels)] == EncodeLabels(labels) && resp[p + LabelsSize(labels)] == 0
  }

  /** The encoding of a non-empty list: the first label's length byte and codes, then the rest. */
  lemma EncodeLabelsHead(labels: seq<string>)
    requires Encodable(labels) && |labels| > 0
    ensures LabelEncodable(labels[0]) && Encodable(labels[1..])
    ensures EncodeLabels(labels) == [|labels[0]| as byte] + Codes(labels[0]) + EncodeLabels(labels[1..])
    ensures LabelsSize(labels) == |labels[0]| + 1 + LabelsSize(labels[1..])
    ensures |EncodeLabels(labels)| == LabelsSize(labels) && |EncodeLabels(labels[1..])| == LabelsSize(labels[1..])
  {
    assert forall i :: 0 <= i < |labels[1..]| ==> labels[1..][i] == labels[i + 1];
    EncodeLabelsSize(labels);
    EncodeLabelsSize(labels[1..]);
  }

  /** Peeling the first label off an encoding in place. */
  lemma EncodedHead(resp: seq<byte>, p: nat, labels: seq<string>)
    requires Encodable(labels) && |labels| > 0 && EncodedAt(resp, p, labels)
    ensures LabelEncodable(labels[0]) && Encodable(labels[1..])
    ensures NonEmptyLabels(labels) ==> NonEmptyLabels(labels[1..])
    ensures resp[p] == |labels[0]|
    ensures p + 1 + |labels[0]| <= |resp| && resp[p + 1..p + 1 + |labels[0]|] == Codes(labels[0])
    ensures EncodedAt(resp, p + 1 + |labels[0]|, labels[1..])
  {
    EncodeLabelsHead(labels);
    assert forall i :: 0 <= i < |labels[1..]| ==> labels[1..][i] == labels[i + 1];
    EncodingSplit(resp, p, LabelsSize(labels), labels[0], EncodeLabels(labels[1..]));
  }

  /** A label's length byte, its codes and what follows, where they were written. */
  lemma EncodingSplit(resp: seq<byte>, p: nat, n: nat, l: string, tail: seq<byte>)
    requires |l| < 256 && n == 1 + |l| + |tail| && p + n <= |resp|
    requires |Codes(l)| == |l| && IsBytes(Codes(l))
    requires resp[p..p + n] == [|l| as byte] + Codes(l) + tail
    ensures resp[p] == |l|
    ensures resp[p + 1..p + 1 + |l|] == Codes(l) && resp[p + 1 + |l|..p + n] == tail
  {
    var whole := resp[p..p + n];
    assert resp[p] == whole[0];
    SliceOfSlice(resp, p, p + n, 1, 1 + |l|);
    assert whole[1..1 + |l|] == Codes(l);
    SliceOfSlice(resp, p, p + n, 1 + |l|, n);
    assert whole[1 + |l|..n] == tail;
  }

  /** get_name reads back the labels format_query wrote: wherever the encoded labels sit in
      a buffer, followed by the zero byte, get_name started on the first length byte returns
      them. */
  lemma {:induction false} NameLabelsOfEncoding(resp: seq<byte>, p: nat, labels: seq<string>)
    requires Encodable(labels) && NonEmptyLabels(labels) && EncodedAt(resp, p, labels)
    ensures NameLabels(resp, resp[p], p + 1) == Success(labels)
    decreases |labels|
  {
    if |labels| > 0 {
      var l := labels[0];
      EncodedHead(resp, p, labels);
      var next := p + 1 + resp[p];
      NameLabelsOfEncoding(resp, next, labels[1..]);
      CharsOfCodes(l);
      assert labels == [l] + labels[1..];
    }
  }

  /** The question walk of parse_response stops on the zero byte after encoded labels. */
  lemma {:induction false} QuestionEndOfEncoding(resp: seq<byte>, p: nat, labels: seq<string>)
    requires Encodable(labels) && NonEmptyLabels(labels) && EncodedAt(resp, p, labels)
    ensures QuestionEnd(resp, p) == Success(p + LabelsSize(labels))
    decreases |labels|
  {
    if |labels| > 0 {
      EncodedHead(resp, p, labels);
      QuestionEndOfEncoding(resp, p + 1 + |labels[0]|, labels[1..]);
    }
  }

  /** get_name applied to the question of a serialised query returns the domain. */
  lemma NameOfQuery(qType: nat, labels: seq<string>)
    requires QueryWire(qType, labels).Success? && NonEmptyLabels(labels)
    ensures var q := QueryWire(qType, labels).value;
      NameText(q, q[12], 13) == Success(Join(".", labels))
  {
    var q := QueryWire(qType, labels).value;
    QueryLayout(qType, labels);
    EncodeLabelsSize(labels);
    assert q[12 + LabelsSize(labels)] == 0;
    assert EncodedAt(q, 12, labels);
    NameLabelsOfEncoding(q, 12, labels);
  }

  // ---------------------------------------------------------------- build_info

  /** build_info for the record whose name pointer ends at `offset`: the answer it reads and
      the cursor it hands back. The label cursor starts after the 14-bit pointer target
      (labeled) or after `offset`; the first length byte is fetched at the index held in
      `resp[offset]` alone. TTL is bytes offset+5..offset+8 and RDATA starts at offset+11.
      An A record moves the cursor by 15 whatever its RDLENGTH, an AAAA record by 11 plus
      RDLENGTH, and any other type raises. */
  function BuildInfoSpec(resp: seq<byte>, offset: nat, qType: nat, length: nat, labeled: bool): Result<(Answer, nat)>
    requires offset >= 1
  {
    if offset >= |resp| || resp[offset] >= |resp| then Failure(IndexError)
    else
      var builder := if labeled then GetDomainNameLocation(resp[offset - 1], resp[offset]) + 1 else offset + 1;
      var name :- NameText(resp, resp[resp[offset]], builder);
      if offset + 8 >= |resp| then Failure(IndexError)
      else
        var ttl := BigEndian(resp[offset + 5..offset + 9]);
        var data := Slice(resp, offset + 11, offset + 11 + length);
        if qType == 1 then
          var ip :- ParseAddressA(length, data);
          Success((Answer(name, ttl, ip), offset + 15))
        else if qType == 28 then
          var ip :- AaaaText(length, data);
          Success((Answer(name, ttl, ip), offset + 11 + length))
        else Failure(UnsupportedRecordType)
  }

  method BuildInfo(resp: seq<byte>, offset: nat, qType: nat, length: nat, labeled: bool) returns (r: Result<(Answer, nat)>)
    requires offset >= 1
    ensures r == BuildInfoSpec(resp, offset, qType, length, labeled)
  {
    if offset >= |resp| {
      return Failure(IndexError);
    }
    var builder := if labeled then GetDomainNameLocation(resp[offset - 1], resp[offset]) + 1 else offset + 1;
    if resp[offset] >= |resp| {
      return Failure(IndexError);
    }
    var startOfName := resp[resp[offset]];
    var name :- GetName(resp, startOfName, builder);
    if offset + 8 >= |resp| {
      return Failure(IndexError);
    }
    var ttl := BytesToVal(resp[offset + 5..offset + 9]);
    var data := Slice(resp, offset + 11, offset + 11 + length);
    if qType == 1 {
      var ip :- ParseAddressA(length, data);
      r := Success((Answer(name, ttl, ip), offset + 15));
    } else if qType == 28 {
      var ip :- ParseAddressAaaa(length, data);
      r := Success((Answer(name, ttl, ip), offset + 11 + length));
    } else {
      r := Failure(UnsupportedRecordType);
    }
  }

  // ---------------------------------------------------------------- parse_answers

  /** The compressed record at `offset`: TYPE at offset+2, RDLENGTH at offset+10, the rest
      read by build_info from offset+1; yields the answer and the next record's offset. */
  function CompressedRecord(resp: seq<byte>, offset: nat): Result<(Answer, nat)>
    requires offset + 11 < |resp|
  {
    BuildInfoSpec(resp, offset + 1, BigEndian([resp[offset + 2], resp[offset + 3]]),
                  BigEndian([resp[offset + 10], resp[offset + 11]]), true)
  }

  /** The compressed branch of parse_answers: `count` records read one after the other. */
  function CompressedAnswers(resp: seq<byte>, offset: nat, count: nat): Result<seq<Answer>>
    decreases count
  {
    if count == 0 then Success([])
    else if offset + 11 >= |resp| then Failure(IndexError)
    else
      var step :- CompressedRecord(resp, offset);
      var rest :- CompressedAnswers(resp, step.1, count - 1);
      Success([step.0] + rest)
  }

  /** One record of the uncompressed branch, named `name`: an A or AAAA record yields its
      answer and moves the cursor by 16 + |name| (whatever its RDLENGTH); a CNAME raises; any
      other type yields the previous record's answer `last` again without moving the cursor,
      and on the first record finds `ip` unbound. */
  function UncompressedRecord(resp: seq<byte>, loc: nat, name: string, last: Option<Answer>): Result<(Answer, nat)>
    requires loc + 10 < |resp|
  {
    var ttl := BigEndian(resp[loc + 5..loc + 9]);
    var qType := BigEndian([resp[loc + 1], resp[loc + 2]]);
    var length := BigEndian([resp[loc + 9], resp[loc + 10]]);
    var data := Slice(resp, loc + 11, loc + 11 + length);
    if qType == 1 || qType == 28 then
      var ip :- if qType == 1 then ParseAddressA(length, data) else AaaaText(length, data);
      Success((Answer(name, ttl, ip), loc + 16 + |name|))
    else if qType == 5 then Failure(UnsupportedRecordType)
    else if last.None? then Failure(UnboundLocalError)
    else Success((last.value, loc))
  }

  /** The uncompressed branch of parse_answers: `count` records, all named `name`. */
  function UncompressedAnswers(resp: seq<byte>, loc: nat, name: string, count: nat, last: Option<Answer>): Result<seq<Answer>>
    decreases count
  {
    if count == 0 then Success([])
    else if loc + 10 >= |resp| then Failure(IndexError)
    else
      var step :- UncompressedRecord(resp, loc, name, last);
      var rest :- UncompressedAnswers(resp, step.1, name, count - 1, Some(step.0));
      Success([step.0] + rest)
  }

  /** parse_answers: a first byte of exactly 192 selects the compressed walk for every
      record; otherwise the name is read once from `offset`. */
  function AnswersSpec(resp: seq<byte>, offset: nat, count: nat): Result<seq<Answer>> {
    if offset >= |resp| then Failure(IndexError)
    else if resp[offset] == 192 then CompressedAnswers(resp, offset, count)
    else
      var full :- NameText(resp, resp[offset] as int + 1, offset);
      var name := Drop(full, 1);
      UncompressedAnswers(resp, offset + |name| + 1, name, count, None)
  }

  /** Loop invariant of the compressed walk: `res` holds the first `i` records and the
      next one starts at `offset`. */
  ghost predicate CompressedLoopInv(resp: seq<byte>, offset0: nat, rrAns: nat, res: seq<Answer>, offset: nat, i: nat) {
    i <= rrAns &&
    CompressedAnswers(resp, offset0, rrAns) == Prepend(res, CompressedAnswers(resp, offset, rrAns - i))
  }

  lemma CompressedLoopStep(resp: seq<byte>, offset0: nat, rrAns: nat, res: seq<Answer>, offset: nat, i: nat, step: (Answer, nat))
    requires CompressedLoopInv(resp, offset0, rrAns, res, offset, i) && i < rrAns
    requires offset + 11 < |resp| && CompressedRecord(resp, offset) == Success(step)
    ensures CompressedLoopInv(resp, offset0, rrAns, res + [step.0], step.1, i + 1)
  {
    assert CompressedAnswers(resp, offset, rrAns - i) == Prepend([step.0], CompressedAnswers(resp, step.1, rrAns - i - 1));
    PrependTwice(res, [step.0], CompressedAnswers(resp, step.1, rrAns - i - 1));
  }

  lemma CompressedLoopFail(resp: seq<byte>, offset0: nat, rrAns: nat, res: seq<Answer>, offset: nat, i: nat, e: Error)
    requires CompressedLoopInv(resp, offset0, rrAns, res, offset, i) && i < rrAns
    requires if offset + 11 >= |resp| then e == IndexError else CompressedRecord(resp, offset) == Failure(e)
    ensures CompressedAnswers(resp, offset0, rrAns) == Failure(e)
  {
    assert CompressedAnswers(resp, offset, rrAns - i) == Failure(e);
  }

  lemma CompressedLoopDone(resp: seq<byte>, offset0: nat, rrAns: nat, res: seq<Answer>, offset: nat)
    requires CompressedLoopInv(resp, offset0, rrAns, res, offset, rrAns)
    ensures CompressedAnswers(resp, offset0, rrAns) == Success(res)
  {
    PrependOntoEmpty(res);
  }

  /** The body of the compressed loop: TYPE and RDLENGTH, then build_info. */
  method ReadCompressedRecord(resp: seq<byte>, offset: nat) returns (rv: Result<(Answer, nat)>)
    requires offset + 11 < |resp|
    ensures rv == CompressedRecord(resp, offset)
  {
    var typeField: seq<nat> := [resp[offset + 2], resp[offset + 3]];
    var lengthField: seq<nat> := [resp[offset + 10], resp[offset + 11]];
    assert IsBytes(typeField) && IsBytes(lengthField);
    var qType := BytesToVal(typeField);
    var length := BytesToVal(lengthField);
    rv := BuildInfo(resp, offset + 1, qType, length, true);
  }

  /** The compressed loop of parse_answers. */
  method CompressedLoop(resp: seq<byte>, offset0: nat, rrAns: nat) returns (r: Result<seq<Answer>>)
    ensures r == CompressedAnswers(resp, offset0, rrAns)
  {
    var res: seq<Answer> := [];
    var offset: nat := offset0;
    PrependNothing(CompressedAnswers(resp, offset0, rrAns));
    for i := 0 to rrAns
      invariant CompressedLoopInv(resp, offset0, rrAns, res, offset, i)
    {
      if offset + 11 >= |resp| {
        CompressedLoopFail(resp, offset0, rrAns, res, offset, i, IndexError);
        return Failure(IndexError);
      }
      var rv := ReadCompressedRecord(resp, offset);
      if rv.Failure? {
        CompressedLoopFail(resp, offset0, rrAns, res, offset, i, rv.error);
        return Failure(rv.error);
      }
      CompressedLoopStep(resp, offset0, rrAns, res, offset, i, rv.value);
      offset := rv.value.1;
      res := res + [rv.value.0];
    }
    CompressedLoopDone(resp, offset0, rrAns, res, offset);
    return Success(res);
  }

  /** Loop invariant of the uncompressed walk: `res` holds the first `i` records, the next
      one starts at `loc`, and `last` is what the Python locals hold. */
  ghost predicate UncompressedLoopInv(resp: seq<byte>, loc0: nat, name: string, rrAns: nat,
                                      res: seq<Answer>, loc: nat, last: Option<Answer>, i: nat) {
    i <= rrAns &&
    UncompressedAnswers(resp, loc0, name, rrAns, None) == Prepend(res, UncompressedAnswers(resp, loc, name, rrAns - i, last))
  }

  lemma UncompressedLoopStep(resp: seq<byte>, loc0: nat, name: string, rrAns: nat,
                             res: seq<Answer>, loc: nat, last: Option<Answer>, i: nat, step: (Answer, nat))
    requires UncompressedLoopInv(resp, loc0, name, rrAns, res, loc, last, i) && i < rrAns
    requires loc + 10 < |resp| && UncompressedRecord(resp, loc, name, last) == Success(step)
    ensures UncompressedLoopInv(resp, loc0, name, rrAns, res + [step.0], step.1, Some(step.0), i + 1)
  {
    assert UncompressedAnswers(resp, loc, name, rrAns - i, last)
        == Prepend([step.0], UncompressedAnswers(resp, step.1, name, rrAns - i - 1, Some(step.0)));
    PrependTwice(res, [step.0], UncompressedAnswers(resp, step.1, name, rrAns - i - 1, Some(step.0)));
  }

  lemma UncompressedLoopFail(resp: seq<byte>, loc0: nat, name: string, rrAns: nat,
                             res: seq<Answer>, loc: nat, last: Option<Answer>, i: nat, e: Error)
    requires UncompressedLoopInv(resp, loc0, name, rrAns, res, loc, last, i) && i < rrAns
    requires if loc + 10 >= |resp| then e == IndexError else UncompressedRecord(resp, loc, name, last) == Failure(e)
    ensures UncompressedAnswers(resp, loc0, name, rrAns, None) == Failure(e)
  {
    assert UncompressedAnswers(resp, loc, name, rrAns - i, last) == Failure(e);
  }

  lemma UncompressedLoopDone(resp: seq<byte>, loc0: nat, name: string, rrAns: nat,
                             res: seq<Answer>, loc: nat, last: Option<Answer>)
    requires UncompressedLoopInv(resp, loc0, name, rrAns, res, loc, last, rrAns)
    ensures UncompressedAnswers(resp, loc0, name, rrAns, None) == Success(res)
  {
    PrependOntoEmpty(res);
  }

  /** TTL, TYPE and RDLENGTH of the uncompressed record at `loc`. */
  method RecordFields(resp: seq<byte>, loc: nat) returns (ttl: nat, qType: nat, length: nat)
    requires loc + 10 < |resp|
    ensures ttl == BigEndian(resp[loc + 5..loc + 9])
    ensures qType == BigEndian([resp[loc + 1], resp[loc + 2]])
    ensures length == BigEndian([resp[loc + 9], resp[loc + 10]])
  {
    ttl := BytesToVal(resp[loc + 5..loc + 9]);
    qType := BytesToVal([resp[loc + 1], resp[loc + 2]]);
    length := BytesToVal([resp[loc + 9], resp[loc + 10]]);
  }

  /** The body of the uncompressed loop. */
  method ReadUncompressedRecord(resp: seq<byte>, loc: nat, name: string, last: Option<Answer>) returns (rv: Result<(Answer, nat)>)
    requires loc + 10 < |resp|
    ensures rv == UncompressedRecord(resp, loc, name, last)
  {
    var ttl, qType, length := RecordFields(resp, loc);
    var data := Slice(resp, loc + 11, loc + 11 + length);
    if qType == 1 {
      var ip :- ParseAddressA(length, data);
      return Success((Answer(name, ttl, ip), loc + 16 + |name|));
    } else if qType == 28 {
      var ip :- ParseAddressAaaa(length, data);
      return Success((Answer(name, ttl, ip), loc + 16 + |name|));
    } else if qType == 5 {
      return Failure(UnsupportedRecordType);
    }
    if last.None? {
      return Failure(UnboundLocalError);
    }
    return Success((last.value, loc));
  }

  /** The uncompressed loop of parse_answers. */
  method UncompressedLoop(resp: seq<byte>, loc0: nat, name: string, rrAns: nat) returns (r: Result<seq<Answer>>)
    ensures r == UncompressedAnswers(resp, loc0, name, rrAns, None)
  {
    var res: seq<Answer> := [];
    var loc: nat := loc0;
    var last: Option<Answer> := None;
    PrependNothing(UncompressedAnswers(resp, loc0, name, rrAns, None));
    for i := 0 to rrAns
      invariant UncompressedLoopInv(resp, loc0, name, rrAns, res, loc, last, i)
    {
      if loc + 10 >= |resp| {
        UncompressedLoopFail(resp, loc0, name, rrAns, res, loc, last, i, IndexError);
        return Failure(IndexError);
      }
      var rv := ReadUncompressedRecord(resp, loc, name, last);
      if rv.Failure? {
        UncompressedLoopFail(resp, loc0, name, rrAns, res, loc, last, i, rv.error);
        return Failure(rv.error);
      }
      UncompressedLoopStep(resp, loc0, name, rrAns, res, loc, last, i, rv.value);
      loc := rv.value.1;
      last := Some(rv.value.0);
      res := res + [rv.value.0];
    }
    UncompressedLoopDone(resp, loc0, name, rrAns, res, loc, last);
    return Success(res);
  }

  method ParseAnswers(resp: seq<byte>, offset: nat, rrAns: nat) returns (r: Result<seq<Answer>>)
    ensures r == AnswersSpec(resp, offset, rrAns)
  {
    if offset >= |resp| {
      return Failure(IndexError);
    }
    if resp[offset] == 192 {
      r := CompressedLoop(resp, offset, rrAns);
      return;
    }
    var startOfName, builder := resp[offset] as int + 1, offset;
    var full :- GetName(resp, startOfName, builder);
    var name := Drop(full, 1);
    r := UncompressedLoop(resp, offset + |name| + 1, name, rrAns);
  }

  // ---------------------------------------------------------------- parse_response

  /** The index of the question name's zero terminator, found by hopping over labels from
      `i`; running off the buffer is an IndexError. */
  function QuestionEnd(resp: seq<byte>, i: nat): (r: Result<nat>)
    ensures r.Success? ==> i <= r.value < |resp| && resp[r.value] == 0
    ensures r.Failure? ==> r.error == IndexError
    decreases |resp| - i
  {
    if i >= |resp| then Failure(IndexError)
    else if resp[i] == 0 then Success(i)
    else QuestionEnd(resp, i + resp[i] + 1)
  }

  /** ANCOUNT (bytes 6-7), or NSCOUNT (bytes 8-9) when ANCOUNT is zero. */
  function AnswerCount(resp: seq<byte>): nat
    requires |resp| >= 10
  {
    var an := resp[6] as int * 256 + resp[7];
    if an != 0 then an else resp[8] as int * 256 + resp[9]
  }

  /** parse_response: answers are read from the question's terminator + 5, i.e. past QTYPE
      and QCLASS and on the first byte of the first record. */
  function ResponseSpec(resp: seq<byte>): Result<seq<Answer>> {
    if |resp| <= 12 then Failure(IndexError)
    else
      var end :- QuestionEnd(resp, 12);
      AnswersSpec(resp, end + 5, AnswerCount(resp))
  }

  /** The count parse_response reads: ANCOUNT, or NSCOUNT when ANCOUNT is zero. */
  method ReadAnswerCount(resp: seq<byte>) returns (rrAns: nat)
    requires |resp| >= 10
    ensures rrAns == AnswerCount(resp)
  {
    rrAns := BytesToVal([resp[6], resp[7]]);
    BigEndianPair(resp[6], resp[7]);
    if rrAns == 0 {
      rrAns := BytesToVal([resp[8], resp[9]]);
      BigEndianPair(resp[8], resp[9]);
    }
  }

  /** The label-hopping walk over the question name that starts at `i`. */
  method SkipQuestion(resp: seq<byte>, i0: nat) returns (r: Result<nat>)
    requires i0 < |resp|
    ensures r == QuestionEnd(resp, i0)
  {
    var i := i0;
    var current := resp[i];
    while current != 0
      invariant i < |resp| && current == resp[i]
      invariant QuestionEnd(resp, i) == QuestionEnd(resp, i0)
      decreases |resp| - i
    {
      i := i + current + 1;
      if i >= |resp| {
        return Failure(IndexError);
      }
      current := resp[i];
    }
    return Success(i);
  }

  method ParseResponse(resp: seq<byte>) returns (r: Result<seq<Answer>>)
    ensures r == ResponseSpec(resp)
  {
    if |resp| <= 12 {
      return Failure(IndexError);
    }
    var rrAns := ReadAnswerCount(resp);
    var i :- SkipQuestion(resp, 12);
    r := ParseAnswers(resp, i + 5, rrAns);
  }
}
