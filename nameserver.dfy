/** The authoritative name server of 03-DNS-server/project3/nameserver.py: it decodes a
    query, looks the first label up in a zone table and builds the answer message. The byte
    helpers val_to_bytes and bytes_to_val are the ByteCodec ones, and the question name is
    read the way the resolver's get_name reads it. */
module NameServer {
  import opened Outcomes
  import opened Bits
  import opened ByteCodec
  import opened Text
  import opened DnsTypes
  import opened Resolver
  import opened DottedDecimal

  /** The only zone the server answers for. */
  const ServedOrigin: string := "cs430.luther.edu"

  // ---------------------------------------------------------------- get_left_bits / get_right_bits

  /** get_left_bits: bytes_to_val of the list shifted right by 16 - nBits. An empty list
      fails in bytes_to_val; more than 16 bits is a negative shift count. */
  function GetLeftBits(b: seq<nat>, nBits: nat): (r: Result<nat>)
    ensures |b| == 0 <==> r == Failure(IndexError)
    ensures |b| > 0 && nBits > 16 <==> r == Failure(ValueError)
    ensures r.Success? <==> |b| > 0 && nBits <= 16
  {
    if |b| == 0 then Failure(IndexError)
    else if nBits > 16 then Failure(ValueError)
    else
      var v, shift := Merge(b), Pow2(16 - nBits);
      QuotientBounds(v, shift);
      Success(v / shift)
  }

  /** What get_left_bits returns: the multiple of `2^(16 - nBits)` it gives lies at or
      below the list's value, and the next multiple above it. */
  lemma LeftBitsQuotient(b: seq<nat>, nBits: nat)
    requires |b| > 0 && nBits <= 16
    ensures GetLeftBits(b, nBits).Success?
    ensures var q := GetLeftBits(b, nBits).value;
      q * Pow2(16 - nBits) <= Merge(b) < (q + 1) * Pow2(16 - nBits)
  {
    QuotientBounds(Merge(b), Pow2(16 - nBits));
  }

  /** get_right_bits: bytes_to_val of the list masked with 2**nBits - 1. */
  function GetRightBits(b: seq<nat>, nBits: nat): (r: Result<nat>)
    ensures |b| == 0 <==> r == Failure(IndexError)
    ensures r.Success? <==> |b| > 0
    ensures r.Success? ==> r.value <= Merge(b) && r.value < Pow2(nBits) && (Merge(b) - r.value) % Pow2(nBits) == 0
  {
    if |b| == 0 then Failure(IndexError)
    else
      RestIsMultiple(Merge(b), Pow2(nBits));
      Success(Merge(b) % Pow2(nBits))
  }

  /** Euclidean division of a natural: quotient times divisor plus remainder, with the
      value lying between the quotient's multiple and the next one. */
  lemma DivSplit(x: nat, d: nat)
    requires d > 0
    ensures x / d * d + x % d == x && 0 <= x % d < d
    ensures x / d * d <= x < (x / d + 1) * d
    ensures x - x % d == x / d * d
  {
  }

  /** Taking away the remainder leaves a multiple of the divisor. */
  lemma RestIsMultiple(x: nat, d: nat)
    requires d > 0
    ensures x % d <= x && (x - x % d) % d == 0
  {
    DivSplit(x, d);
    DivModUnique(x - x % d, d, x / d, 0);
  }

  /** The quotient's multiple of the divisor lies at or below the value, the next one above. */
  lemma QuotientBounds(x: nat, d: nat)
    requires d > 0
    ensures x / d >= 0 && x / d * d <= x < (x / d + 1) * d
  {
    DivSplit(x, d);
  }

  lemma DivBelow(x: nat, a: nat, b: nat)
    requires b > 0 && x < a * b
    ensures x / b < a
  {
    DivSplit(x, b);
  }

  /** On a two-byte word the left k bits and the right 16 - k bits split it: the left part
      has k bits, the right part 16 - k, and shifting the left part back and adding the
      right part gives the big-endian value. */
  lemma LeftRightBits(b: seq<nat>, k: nat)
    requires |b| == 2 && IsBytes(b) && k <= 16
    ensures GetLeftBits(b, k).Success? && GetRightBits(b, 16 - k).Success?
    ensures GetLeftBits(b, k).value < Pow2(k) && GetRightBits(b, 16 - k).value < Pow2(16 - k)
    ensures GetLeftBits(b, k).value * Pow2(16 - k) + GetRightBits(b, 16 - k).value == BigEndian(b)
  {
    var v := BigEndian(b);
    var d := Pow2(16 - k);
    MergeOfBytes(b);
    assert v < Pow2(k) * d by {
      BigEndianBound(b);
      Pow256IsPow2(2);
      Pow2Add(k, 16 - k);
    }
    DivBelow(v, Pow2(k), d);
    DivSplit(v, d);
  }

  /** The right 14 bits of a compression pointer are the offset get_domain_name_location
      computes, and its left two bits are 3 exactly when the first byte is 0xC0 or above. */
  lemma PointerBits(b0: byte, b1: byte)
    ensures GetRightBits([b0, b1], 14) == Success(GetDomainNameLocation(b0, b1))
    ensures GetLeftBits([b0, b1], 2).Success? && (GetLeftBits([b0, b1], 2).value == 3 <==> b0 >= 192)
  {
    var b := [b0, b1];
    MergeOfBytes(b);
    BigEndianPair(b0, b1);
    assert Pow2(14) == 16384 && Pow2(6) == 64 by {
      Pow2Add(8, 6);
      Pow2Add(6, 0);
      assert Pow2(8) == 256 && Pow2(6) == 64;
    }
    assert Merge(b) == b0 as int * 256 + b1;
    ModSplit(b0 as int * 256 + b1, 256);
    assert (b0 as int * 256 + b1) % 16384 == (b0 % 64) * 256 + b1 by {
      DivModUnique(b0 as int * 256 + b1, 16384, b0 / 64, (b0 % 64) * 256 + b1);
    }
    assert (b0 as int * 256 + b1) / 16384 == b0 / 64 by {
      DivModUnique(b0 as int * 256 + b1, 16384, b0 / 64, (b0 % 64) * 256 + b1);
    }
  }

  // ---------------------------------------------------------------- parse_request

  /** What parse_request hands on: the ID, the first label, the query type and the question
      bytes (the message from offset 12 on). */
  datatype Request = Request(transId: nat, firstLabel: string, qType: nat, query: seq<byte>)

  /** The checks and fields after the question name, which ends with the zero byte at `end`
      and reads as `full`. */
  function QuestionFields(origin: string, msg: seq<byte>, end: nat, full: string): Result<Request>
    requires 12 < |msg| && end < |msg|
  {
    if end + 4 >= |msg| then Failure(IndexError)
    else
      var first := Split(full, '.')[0];
      var qType := BigEndian([msg[end + 1], msg[end + 2]]);
      var qClass := BigEndian([msg[end + 3], msg[end + 4]]);
      if qType !in TypeNames then Failure(ValueError)
      else if qClass != 1 then Failure(ValueError)
      else if Drop(full, |first| + 1) != ServedOrigin || origin != ServedOrigin then Failure(ValueError)
      else Success(Request(BigEndian([msg[0], msg[1]]), first, qType, msg[12..]))
  }

  /** parse_request: the question name is read label by label from offset 12; a name with
      no label fails on `pop` (IndexError). The query type must be one of DNS_TYPES, the
      class IN, and the name minus its first label the served origin. */
  function RequestSpec(origin: string, msg: seq<byte>): Result<Request> {
    if |msg| <= 12 then Failure(IndexError)
    else
      var labels :- NameLabels(msg, msg[12], 13);
      var end :- QuestionEnd(msg, 12);
      if |labels| == 0 then Failure(IndexError)
      else QuestionFields(origin, msg, end, Join(".", labels))
  }

  /** The part of parse_request after the name loop. */
  method ReadQuestionFields(origin: string, msg: seq<byte>, i: nat, fullName: string) returns (r: Result<Request>)
    requires 12 < |msg| && i < |msg|
    ensures r == QuestionFields(origin, msg, i, fullName)
  {
    var transId := BytesToVal([msg[0], msg[1]]);
    BigEndianPair(msg[0], msg[1]);
    var firstSubdomain := Split(fullName, '.')[0];
    if i + 4 >= |msg| {
      return Failure(IndexError);
    }
    var qryType := BytesToVal([msg[i + 1], msg[i + 2]]);
    BigEndianPair(msg[i + 1], msg[i + 2]);
    var qClass := BytesToVal([msg[i + 3], msg[i + 4]]);
    BigEndianPair(msg[i + 3], msg[i + 4]);
    var query := msg[12..];
    if qryType !in TypeNames {
      return Failure(ValueError);
    }
    if qClass != 1 {
      return Failure(ValueError);
    }
    if Drop(fullName, |firstSubdomain| + 1) != ServedOrigin || origin != ServedOrigin {
      return Failure(ValueError);
    }
    r := Success(Request(transId, firstSubdomain, qryType, query));
  }

  /** parse_request: the cursor `i` hops from length byte to length byte while the labels'
      characters and "." pieces are collected. */
  method ParseRequest(origin: string, msg: seq<byte>) returns (r: Result<Request>)
    ensures r == RequestSpec(origin, msg)
  {
    if |msg| <= 12 {
      return Failure(IndexError);
    }
    var runner: nat := msg[12];
    var i: nat := 12;
    var fullName: string := "";
    ghost var labels: seq<string> := [];
    PrependNothing(NameLabels(msg, msg[12], 13));
    while runner != 0
      invariant i < |msg| && runner == msg[i]
      invariant QuestionEnd(msg, i) == QuestionEnd(msg, 12)
      invariant NameLabels(msg, msg[12], 13) == Prepend(labels, NameLabels(msg, runner, i + 1))
      invariant fullName == Terminated(".", labels)
      decreases |msg| - i
    {
      i := i + 1;
      var part := CopyLabel(msg, i, runner);
      if part.Failure? || i + runner >= |msg| {
        NameOverrun(msg, runner, i);
        return Failure(IndexError);
      }
      var sub, end := part.value, i + runner;
      NameStep(msg, runner, i, end, sub, labels, NameLabels(msg, msg[12], 13));
      fullName := fullName + sub + ".";
      labels := labels + [sub];
      i, runner := end, msg[end];
    }
    PrependOntoEmpty(labels);
    NameDone(labels, fullName);
    if |fullName| == 0 {
      return Failure(IndexError);
    }
    fullName := fullName[..|fullName| - 1];
    r := ReadQuestionFields(origin, msg, i, fullName);
  }

  /** Past the first label and its dot, a joined name is the join of the other labels. */
  lemma DropFirstLabel(labels: seq<string>)
    requires |labels| >= 1
    ensures Drop(Join(".", labels), |labels[0]| + 1) == Join(".", labels[1..])
  {
    if |labels| >= 2 {
      assert Join(".", labels) == labels[0] + "." + Join(".", labels[1..]);
    }
  }

  /** The question type and class of a serialised query, behind its name. */
  lemma QueryTail(qType: nat, labels: seq<string>)
    requires QueryWire(qType, labels).Success?
    ensures var q := QueryWire(qType, labels).value;
      var end := 12 + LabelsSize(labels);
      end + 4 < |q| && BigEndian([q[end + 1], q[end + 2]]) == qType &&
      BigEndian([q[end + 3], q[end + 4]]) == 1 && BigEndian([q[0], q[1]]) == 0x4F42
  {
    var q := QueryWire(qType, labels).value;
    QueryLayout(qType, labels);
    var end := 12 + LabelsSize(labels);
    var tail := q[|q| - 5..];
    assert q[end + 1] == tail[1] && q[end + 2] == tail[2];
    assert q[end + 3] == tail[3] && q[end + 4] == tail[4];
    assert [tail[1], tail[2]] == ToBytes(qType, 2);
    BigEndianOfToBytes(qType, 2);
    assert Pow256(2) == 65536;
    BigEndianPair(q[0], q[1]);
    BigEndianPair(tail[3], tail[4]);
    assert q[0] == 0x4F && q[1] == 0x42;
  }

  /** parse_request reads back what the resolver's format_query writes: for a name whose
      labels carry no dot, the request is accepted exactly when the type is one of DNS_TYPES,
      the server's origin is the served zone and the labels after the first spell it; the
      ID is format_query's fixed 0x4F42, the first label and the type come back, and the
      question bytes are everything after the header. */
  lemma RequestOfQuery(origin: string, qType: nat, labels: seq<string>)
    requires QueryWire(qType, labels).Success? && |labels| >= 1
    requires NonEmptyLabels(labels) && NoSeparator(labels, '.')
    ensures var q := QueryWire(qType, labels).value;
      RequestSpec(origin, q).Success? <==>
        qType in TypeNames && origin == ServedOrigin && Join(".", labels[1..]) == ServedOrigin
    ensures var q := QueryWire(qType, labels).value;
      RequestSpec(origin, q).Success? ==>
        RequestSpec(origin, q).value == Request(0x4F42, labels[0], qType, q[12..])
  {
    var q := QueryWire(qType, labels).value;
    QueryLayout(qType, labels);
    QueryTail(qType, labels);
    assert q[12 + LabelsSize(labels)] == 0;
    assert EncodedAt(q, 12, labels);
    NameLabelsOfEncoding(q, 12, labels);
    QuestionEndOfEncoding(q, 12, labels);
    SplitJoin(labels, '.');
    DropFirstLabel(labels);
  }

  // ---------------------------------------------------------------- format_response

  /** One line of the zone file: TTL, class, record type and address, as text. */
  datatype ZoneRecord = ZoneRecord(ttl: string, rClass: string, rType: string, address: string)

  /** Domain name (the first label) to its records in zone-file order. */
  type Zone = map<string, seq<ZoneRecord>>

  /** The records whose type is `letter`, in zone-file order. */
  function Matching(records: seq<ZoneRecord>, letter: string): (r: seq<ZoneRecord>)
    ensures |r| <= |records|
  {
    if |records| == 0 then []
    else
      var init := Matching(records[..|records| - 1], letter);
      if records[|records| - 1].rType == letter then init + [records[|records| - 1]] else init
  }

  /** A colon-separated group with '0' inserted in front until it has four characters. */
  function PadGroup(g: string): string {
    if |g| < 4 then seq(4 - |g|, _ => '0') + g else g
  }

  /** The two bytes of one group: the first two characters of the padded group and the
      rest, each read as hexadecimal. Bad digits, or a value past a byte, raise ValueError. */
  function GroupBytes(g: string): Result<seq<byte>> {
    var p := PadGroup(g);
    var hi :- ParseHex(p[..2]);
    if hi >= 256 then Failure(ValueError)
    else
      var lo :- ParseHex(p[2..]);
      if lo >= 256 then Failure(ValueError) else Success([hi as byte, lo as byte])
  }

  /** The bytes of the groups of a colon-separated address, in order. */
  function ColonBytes(parts: seq<string>): Result<seq<byte>> {
    if |parts| == 0 then Success([])
    else
      var b :- GroupBytes(parts[0]);
      Prepend(b, ColonBytes(parts[1..]))
  }

  /** The RDATA of a record: a query for A reads the address as dotted decimal, a query for
      any other type as colon-separated hexadecimal groups. */
  function AddressBytes(letter: string, address: string): Result<seq<byte>> {
    if letter == "A" then DottedBytes(Split(address, '.')) else ColonBytes(Split(address, ':'))
  }

  /** `val_to_bytes` as the bytes it always is. */
  function Field(v: nat, n: nat): (r: seq<byte>)
    ensures r == ToBytes(v, n)
  {
    ToBytesAreBytes(v, n);
    ToBytes(v, n)
  }

  /** The fixed part of an answer record: a pointer to the question name (0xC00C), TYPE 1
      for an "A" record and 28 for any other, CLASS 1, the TTL in seconds, and RDLENGTH 4
      for an A query and 16 otherwise. */
  function RecordHead(letter: string, rec: ZoneRecord): seq<byte>
    requires rec.ttl in TtlSeconds
  {
    [0xc0, 0x0c] + Field(if rec.rType == "A" then 1 else 28, 2) + [0, 1] +
    Field(TtlSeconds[rec.ttl], 4) + Field(if letter == "A" then 4 else 16, 2)
  }

  /** One answer record: its fixed part, then the address. A TTL missing from TTL_SEC is
      a KeyError. */
  function RecordWire(letter: string, rec: ZoneRecord): Result<seq<byte>> {
    if rec.ttl !in TtlSeconds then Failure(KeyError)
    else Prepend(RecordHead(letter, rec), AddressBytes(letter, rec.address))
  }

  function RecordsWire(letter: string, recs: seq<ZoneRecord>): Result<seq<byte>> {
    if |recs| == 0 then Success([])
    else
      var w :- RecordWire(letter, recs[0]);
      Prepend(w, RecordsWire(letter, recs[1..]))
  }

  /** format_response: an unknown name is a ValueError and a type code missing from
      DNS_TYPES a KeyError. Otherwise: the ID, flags 0x8100 (a response, recursion desired),
      QDCOUNT 1, ANCOUNT the number of matching records, zero NSCOUNT and ARCOUNT, the
      question as received, then one record per match. */
  function ResponseWire(zone: Zone, transId: nat, qryName: string, qryType: nat, qry: seq<byte>): Result<seq<byte>> {
    if qryName !in zone then Failure(ValueError)
    else if qryType !in TypeNames then Failure(KeyError)
    else
      var letter := TypeNames[qryType];
      var matches := Matching(zone[qryName], letter);
      Prepend(Field(transId, 2) + [0x81, 0, 0, 1] + Field(|matches|, 2) + [0, 0, 0, 0] + qry,
              RecordsWire(letter, matches))
  }

  /** The loop that collects the matching records and counts them. */
  method FilterRecords(records: seq<ZoneRecord>, letter: string) returns (temp: seq<ZoneRecord>, numAnswer: nat)
    ensures temp == Matching(records, letter) && numAnswer == |temp|
  {
    temp := [];
    numAnswer := 0;
    for i := 0 to |records|
      invariant temp == Matching(records[..i], letter) && numAnswer == |temp|
    {
      assert records[..i + 1][..i] == records[..i];
      if records[i].rType == letter {
        temp := temp + [records[i]];
        numAnswer := numAnswer + 1;
      }
    }
    assert records[..|records|] == records;
  }

  /** `while len(temp_n) < 4: temp_n.insert(0, "0")`. */
  method PadZeros(n: string) returns (p: string)
    ensures p == PadGroup(n)
  {
    p := n;
    while |p| < 4
      invariant |p| >= |n| && p == seq(|p| - |n|, _ => '0') + n
      invariant |p| <= 4 || p == n
      decreases 4 - |p|
    {
      p := "0" + p;
    }
  }

  /** The `for n in temp_add` loop of a record for any other type. */
  method AppendColon(buf: seq<byte>, parts: seq<string>) returns (r: Result<seq<byte>>)
    ensures r == Prepend(buf, ColonBytes(parts))
  {
    var out := buf;
    for i := 0 to |parts|
      invariant Prepend(buf, ColonBytes(parts)) == Prepend(out, ColonBytes(parts[i..]))
    {
      assert parts[i..][1..] == parts[i + 1..];
      var tempN := PadZeros(parts[i]);
      var hi := ParseHex(tempN[..2]);
      if hi.Failure? || hi.value >= 256 {
        return Failure(ValueError);
      }
      var lo := ParseHex(tempN[2..]);
      if lo.Failure? || lo.value >= 256 {
        return Failure(ValueError);
      }
      PrependTwice(out, [hi.value as byte, lo.value as byte], ColonBytes(parts[i + 1..]));
      out := out + [hi.value as byte, lo.value as byte];
    }
    PrependOntoEmpty(out);
    r := Success(out);
  }

  /** val_to_bytes, whose results `bytearray.append` always takes. */
  method FieldBytes(v: nat, n: nat) returns (r: seq<byte>)
    ensures r == Field(v, n)
  {
    var b := ValToNBytes(v, n);
    r := b;
  }

  /** The appends of a record's fixed part. */
  method AppendRecordHead(buf: seq<byte>, letter: string, elem: ZoneRecord) returns (out: seq<byte>)
    requires elem.ttl in TtlSeconds
    ensures out == buf + RecordHead(letter, elem)
  {
    var tempType := if elem.rType == "A" then 1 else 28;
    var e := FieldBytes(tempType, 2);
    var t := FieldBytes(TtlSeconds[elem.ttl], 4);
    var l := FieldBytes(if letter == "A" then 4 else 16, 2);
    out := buf + [0xc0, 0x0c] + e + [0, 1] + t + l;
  }

  /** The body of format_response's loop for one matching record. */
  method AppendRecord(buf: seq<byte>, letter: string, elem: ZoneRecord) returns (r: Result<seq<byte>>)
    ensures r == Prepend(buf, RecordWire(letter, elem))
  {
    if elem.ttl !in TtlSeconds {
      return Failure(KeyError);
    }
    var head := AppendRecordHead(buf, letter, elem);
    if letter == "A" {
      r := AppendDotted(head, Split(elem.address, '.'));
    } else {
      r := AppendColon(head, Split(elem.address, ':'));
    }
    PrependTwice(buf, RecordHead(letter, elem), AddressBytes(letter, elem.address));
  }

  /** format_response's loop over the matching records. */
  method AppendRecords(buf: seq<byte>, letter: string, temp: seq<ZoneRecord>) returns (r: Result<seq<byte>>)
    ensures r == Prepend(buf, RecordsWire(letter, temp))
  {
    var response := buf;
    for i := 0 to |temp|
      invariant Prepend(buf, RecordsWire(letter, temp)) == Prepend(response, RecordsWire(letter, temp[i..]))
    {
      assert temp[i..][1..] == temp[i + 1..];
      var next := AppendRecord(response, letter, temp[i]);
      if next.Failure? {
        return next;
      }
      PrependTwice(response, RecordWire(letter, temp[i]).value, RecordsWire(letter, temp[i + 1..]));
      response := next.value;
    }
    PrependOntoEmpty(response);
    r := Success(response);
  }

  /** format_response. */
  method FormatResponse(zone: Zone, transId: nat, qryName: string, qryType: nat, qry: seq<byte>)
    returns (r: Result<seq<byte>>)
    ensures r == ResponseWire(zone, transId, qryName, qryType, qry)
  {
    if qryName !in zone {
      return Failure(ValueError);
    }
    var response: seq<byte> := [];
    var t := FieldBytes(transId, 2);
    response := response + t + [0x81, 0, 0, 1];
    if qryType !in TypeNames {
      return Failure(KeyError);
    }
    var qryLetter := TypeNames[qryType];
    var temp, numAnswer := FilterRecords(zone[qryName], qryLetter);
    var b := FieldBytes(numAnswer, 2);
    response := response + b;
    ghost var header := response;
    for i := 0 to 4
      invariant response == header + seq(i, _ => 0)
    {
      response := response + [0];
    }
    ghost var fixed := response;
    for i := 0 to |qry|
      invariant response == fixed + qry[..i]
    {
      response := response + [qry[i]];
    }
    assert qry[..|qry|] == qry;
    assert seq(4, _ => 0) == [0, 0, 0, 0];
    assert response == Field(transId, 2) + [0x81, 0, 0, 1] + Field(|temp|, 2) + [0, 0, 0, 0] + qry;
    r := AppendRecords(response, qryLetter, temp);
  }

  // ---------------------------------------------------------------- properties of format_response

  /** The records format_response answers with are exactly the zone's records of the asked
      type. */
  lemma {:induction false} MatchingMembers(records: seq<ZoneRecord>, letter: string)
    ensures forall x :: x in Matching(records, letter) <==> x in records && x.rType == letter
  {
    if |records| > 0 {
      var init := records[..|records| - 1];
      MatchingMembers(init, letter);
      assert records == init + [records[|records| - 1]];
    }
  }

  /** The fixed part of an answer record as a resolver reads it: the pointer 0xC00C, TYPE
      1 for an "A" record and 28 for any other, CLASS 1, the TTL in seconds and RDLENGTH 4
      for an A query and 16 otherwise, each big-endian. */
  lemma RecordHeadFields(letter: string, rec: ZoneRecord)
    requires rec.ttl in TtlSeconds
    ensures var h := RecordHead(letter, rec);
      |h| == 12 && h[0] == 0xc0 && h[1] == 0x0c && h[4] == 0 && h[5] == 1 &&
      BigEndian(h[2..4]) == (if rec.rType == "A" then 1 else 28) &&
      BigEndian(h[6..10]) == TtlSeconds[rec.ttl] &&
      BigEndian(h[10..12]) == (if letter == "A" then 4 else 16)
  {
    TtlFitsFourBytes();
    assert TtlSeconds[rec.ttl] < 0x1_0000_0000;
    HeadLayout(if rec.rType == "A" then 1 else 28, TtlSeconds[rec.ttl], if letter == "A" then 4 else 16);
  }

  lemma FieldValue(v: nat, n: nat)
    requires v < Pow256(n)
    ensures |Field(v, n)| == n && BigEndian(Field(v, n)) == v
  {
    BigEndianOfToBytes(v, n);
    DivModUnique(v, Pow256(n), 0, v);
  }

  lemma HeadLayout(ty: nat, ttl: nat, len: nat)
    requires ty < 65536 && ttl < 0x1_0000_0000 && len < 65536
    ensures var h := [0xc0, 0x0c] + Field(ty, 2) + [0, 1] + Field(ttl, 4) + Field(len, 2);
      |h| == 12 && h[0] == 0xc0 && h[1] == 0x0c && h[4] == 0 && h[5] == 1 &&
      BigEndian(h[2..4]) == ty && BigEndian(h[6..10]) == ttl && BigEndian(h[10..12]) == len
  {
    assert Pow256(2) == 65536 && Pow256(4) == 0x1_0000_0000;
    FieldValue(ty, 2);
    FieldValue(ttl, 4);
    FieldValue(len, 2);
    var h := [0xc0, 0x0c] + Field(ty, 2) + [0, 1] + Field(ttl, 4) + Field(len, 2);
    assert h[2..4] == Field(ty, 2) && h[6..10] == Field(ttl, 4) && h[10..12] == Field(len, 2);
  }

  /** format_response turns the text parse_address_a makes of an A record's bytes back into
      those bytes. */
  lemma AddressOfDotted(b: seq<byte>)
    requires |b| >= 1
    ensures AddressBytes("A", Join(".", DecimalParts(b))) == Success(b)
  {
    DottedRoundTrip(b);
  }

  /** Padding a stripped group back to four characters restores the four digits. */
  lemma PadStripped(hi: byte, lo: byte)
    ensures StripGroup(HexWord(hi, lo)).Success?
    ensures PadGroup(StripGroup(HexWord(hi, lo)).value) == HexWord(hi, lo)
  {
    var w := HexWord(hi, lo);
    StripWord(hi, lo);
    if w != "0000" && w[0] == '0' {
      var n := LeadingZeros(w);
      assert w[..n] == seq(n, _ => '0');
      assert w == w[..n] + w[n..];
    }
  }

  /** The two bytes of a group written as four digits. */
  lemma GroupOfWord(hi: byte, lo: byte)
    ensures GroupBytes(HexWord(hi, lo)) == Success([hi, lo])
  {
    var w := HexWord(hi, lo);
    assert PadGroup(w) == w;
    var a := w[..2];
    var c := w[2..];
    assert a[..1][..0] == [] && c[..1][..0] == [];
    assert HexDigitsValue(a[..1]) == hi / 16;
    assert HexDigitsValue(a) == HexDigitsValue(a[..1]) * 16 + hi % 16 == hi;
    assert HexDigitsValue(c[..1]) == lo / 16;
    assert HexDigitsValue(c) == HexDigitsValue(c[..1]) * 16 + lo % 16 == lo;
  }

  /** Each part is the stripped four digits of its pair of bytes, as parse_address_aaaa
      writes them. */
  predicate WordsOf(parts: seq<string>, b: seq<byte>) {
    2 * |parts| == |b| &&
    forall k :: 0 <= k < |parts| ==>
      StripGroup(HexWord(b[2 * k], b[2 * k + 1])).Success? &&
      parts[k] == StripGroup(HexWord(b[2 * k], b[2 * k + 1])).value
  }

  lemma WordsOfTail(parts: seq<string>, b: seq<byte>)
    requires |parts| > 0 && WordsOf(parts, b)
    ensures StripGroup(HexWord(b[0], b[1])).Success? && parts[0] == StripGroup(HexWord(b[0], b[1])).value
    ensures WordsOf(parts[1..], b[2..]) && b == [b[0], b[1]] + b[2..]
  {
    var rest := b[2..];
    forall k | 0 <= k < |parts| - 1
      ensures StripGroup(HexWord(rest[2 * k], rest[2 * k + 1])).Success?
      ensures parts[1..][k] == StripGroup(HexWord(rest[2 * k], rest[2 * k + 1])).value
    {
      assert rest[2 * k] == b[2 * (k + 1)] && rest[2 * k + 1] == b[2 * (k + 1) + 1];
    }
  }

  /** One stripped group reads back as its two bytes. */
  lemma GroupOfStripped(g: string, hi: byte, lo: byte)
    requires StripGroup(HexWord(hi, lo)).Success? && g == StripGroup(HexWord(hi, lo)).value
    ensures GroupBytes(g) == Success([hi, lo])
  {
    PadStripped(hi, lo);
    GroupOfWord(hi, lo);
  }

  /** The groups parse_address_aaaa writes for a byte string read back to those bytes. */
  lemma {:induction false} ColonOfWords(parts: seq<string>, b: seq<byte>)
    requires WordsOf(parts, b)
    ensures ColonBytes(parts) == Success(b)
  {
    if |parts| > 0 {
      WordsOfTail(parts, b);
      GroupOfStripped(parts[0], b[0], b[1]);
      ColonOfWords(parts[1..], b[2..]);
    }
  }

  /** format_response turns the text parse_address_aaaa makes of a 16-byte (or any even,
      non-empty) address back into its bytes, whatever non-A type was asked for. */
  lemma AddressOfColon(letter: string, b: seq<byte>)
    requires letter != "A" && |b| >= 2 && |b| % 2 == 0
    ensures AaaaText(|b|, b).Success?
    ensures AddressBytes(letter, AaaaText(|b|, b).value) == Success(b)
  {
    AaaaParts(b);
    ColonOfWords(Split(AaaaText(|b|, b).value, ':'), b);
  }
}
