/** The DNS client and server together: a query written by project3/resolver.py's
    format_query, decoded by the name server's parse_request and answered by its
    format_response, is read by the client's parse_response as one answer per matching
    zone record, in zone-file order. */
module DnsRoundTrip {
  import opened Outcomes
  import opened ByteCodec
  import opened Text
  import opened DnsTypes
  import opened DottedDecimal
  import opened Resolver
  import opened NameServer

  /** A zone address the client reads back exactly as written: four bytes in dotted
      decimal for an A query, sixteen bytes in parse_address_aaaa's form otherwise. */
  predicate Canonical(letter: string, address: string) {
    var b := AddressBytes(letter, address);
    b.Success? &&
    if letter == "A" then |b.value| == 4 && address == Join(".", DecimalParts(b.value))
    else |b.value| == 16 && AaaaText(16, b.value) == Success(address)
  }

  /** A record format_response can write and the client can read back: a TTL that TTL_SEC
      knows and a canonical address. */
  predicate Servable(letter: string, rec: ZoneRecord) {
    rec.ttl in TtlSeconds && Canonical(letter, rec.address)
  }

  /** The size of one record as format_response writes it. */
  function RecordSize(letter: string): nat {
    if letter == "A" then 16 else 28
  }

  /** A servable record is written as its fixed part and its address bytes. */
  lemma RecordWireOf(letter: string, rec: ZoneRecord)
    requires Servable(letter, rec)
    ensures RecordWire(letter, rec).Success?
    ensures RecordWire(letter, rec).value == RecordHead(letter, rec) + AddressBytes(letter, rec.address).value
    ensures |RecordWire(letter, rec).value| == RecordSize(letter) && RecordWire(letter, rec).value[0] == 0xc0
  {
    RecordHeadFields(letter, rec);
  }

  /** Servable records are written one after the other, each of RecordSize bytes. */
  lemma {:induction false} RecordsWireOf(letter: string, ms: seq<ZoneRecord>)
    requires forall k :: 0 <= k < |ms| ==> Servable(letter, ms[k])
    ensures RecordsWire(letter, ms).Success?
    ensures |ms| > 0 ==> |RecordsWire(letter, ms).value| > 0 && RecordsWire(letter, ms).value[0] == 0xc0
  {
    if |ms| > 0 {
      RecordWireOf(letter, ms[0]);
      RecordsWireOf(letter, ms[1..]);
    }
  }

  /** The client reads one record format_response wrote at `off`: the name through the
      pointer to offset 12, the TTL in seconds and the address text, and moves to the
      next record. */
  lemma RecordRead(resp: seq<byte>, off: nat, letter: string, rec: ZoneRecord, name: string)
    requires letter == "A" || letter == "AAAA"
    requires rec.rType == letter && Servable(letter, rec)
    requires 12 < off && 12 < |resp| && NameText(resp, resp[12], 13) == Success(name)
    requires RecordWire(letter, rec).Success?
    requires off + |RecordWire(letter, rec).value| <= |resp|
    requires resp[off..off + |RecordWire(letter, rec).value|] == RecordWire(letter, rec).value
    ensures off + 11 < |resp|
    ensures CompressedRecord(resp, off) ==
      Success((Answer(name, TtlSeconds[rec.ttl], rec.address), off + |RecordWire(letter, rec).value|))
  {
    RecordFieldsAt(resp, off, letter, rec);
    var len := RecordSize(letter) - 12;
    var b := AddressBytes(letter, rec.address).value;
    CompressedRecordOf(resp, off, name, if letter == "A" then 1 else 28, len, TtlSeconds[rec.ttl]);
    if letter == "A" {
      assert b[..4] == b;
    }
  }

  /** The fields of a record format_response wrote at `off`, where the client looks for
      them: the pointer, TYPE, RDLENGTH, TTL and the address bytes after the fixed part. */
  lemma RecordFieldsAt(resp: seq<byte>, off: nat, letter: string, rec: ZoneRecord)
    requires letter == "A" || letter == "AAAA"
    requires rec.rType == letter && Servable(letter, rec)
    requires RecordWire(letter, rec).Success?
    requires off + |RecordWire(letter, rec).value| <= |resp|
    requires resp[off..off + |RecordWire(letter, rec).value|] == RecordWire(letter, rec).value
    ensures |RecordWire(letter, rec).value| == RecordSize(letter)
    ensures resp[off] == 0xc0 && resp[off + 1] == 0x0c
    ensures BigEndian([resp[off + 2], resp[off + 3]]) == (if letter == "A" then 1 else 28)
    ensures BigEndian([resp[off + 10], resp[off + 11]]) == RecordSize(letter) - 12
    ensures BigEndian(resp[off + 6..off + 10]) == TtlSeconds[rec.ttl]
    ensures Slice(resp, off + 12, off + RecordSize(letter)) == AddressBytes(letter, rec.address).value
  {
    RecordWireOf(letter, rec);
    RecordHeadFields(letter, rec);
    var h := RecordHead(letter, rec);
    var b := AddressBytes(letter, rec.address).value;
    SplitAtRecord(resp, off, h, b);
    HeadAt(resp, off, h);
  }

  /** The twelve bytes of a record's fixed part, read where they were written. */
  lemma HeadAt(resp: seq<byte>, off: nat, h: seq<byte>)
    requires |h| == 12 && off + 12 <= |resp| && resp[off..off + 12] == h
    ensures resp[off] == h[0] && resp[off + 1] == h[1]
    ensures [resp[off + 2], resp[off + 3]] == h[2..4] && [resp[off + 10], resp[off + 11]] == h[10..12]
    ensures resp[off + 6..off + 10] == h[6..10]
  {
    forall i | 0 <= i < 12
      ensures resp[off + i] == h[i]
    {
      assert resp[off..off + 12][i] == resp[off + i];
    }
    assert h[2..4] == [h[2], h[3]] && h[10..12] == [h[10], h[11]];
    SliceOfSlice(resp, off, off + 12, 6, 10);
  }

  /** The client's reading of a compressed record whose pointer is `c0 0c`, from its
      TYPE, RDLENGTH and TTL fields: the question's name, the TTL, the address rendered
      from the RDATA after the fixed part, and the cursor moved past the record. */
  lemma CompressedRecordOf(resp: seq<byte>, off: nat, name: string, qType: nat, len: nat, ttl: nat)
    requires 12 < off && off + 12 + len <= |resp| && 12 < |resp|
    requires (qType == 1 && len == 4) || (qType == 28 && len == 16)
    requires resp[off] == 0xc0 && resp[off + 1] == 0x0c
    requires NameText(resp, resp[12], 13) == Success(name)
    requires BigEndian([resp[off + 2], resp[off + 3]]) == qType
    requires BigEndian([resp[off + 10], resp[off + 11]]) == len
    requires BigEndian(resp[off + 6..off + 10]) == ttl
    ensures var data := Slice(resp, off + 12, off + 12 + len);
      var ip := if qType == 1 then ParseAddressA(len, data) else AaaaText(len, data);
      ip.Success? ==> CompressedRecord(resp, off) == Success((Answer(name, ttl, ip.value), off + 12 + len))
  {
    assert GetDomainNameLocation(resp[off], resp[off + 1]) == 12;
  }

  /** Every record is of the asked type and servable. */
  predicate AllServable(letter: string, ms: seq<ZoneRecord>) {
    forall k :: 0 <= k < |ms| ==> ms[k].rType == letter && Servable(letter, ms[k])
  }

  lemma AllServableTail(letter: string, ms: seq<ZoneRecord>)
    requires |ms| > 0 && AllServable(letter, ms)
    ensures ms[0].rType == letter && Servable(letter, ms[0]) && AllServable(letter, ms[1..])
    ensures KnownTtls(ms) && KnownTtls(ms[1..])
  {
    assert forall k :: 0 <= k < |ms| - 1 ==> ms[1..][k] == ms[k + 1];
  }

  /** Every record's TTL is one TTL_SEC knows. */
  predicate KnownTtls(ms: seq<ZoneRecord>) {
    forall k :: 0 <= k < |ms| ==> ms[k].ttl in TtlSeconds
  }

  /** The answers the resolver should report for the records: the domain, the TTL in
      seconds and the zone's address text, one per record. */
  function Expected(name: string, ms: seq<ZoneRecord>): (r: seq<Answer>)
    requires KnownTtls(ms)
    ensures |r| == |ms|
  {
    if |ms| == 0 then []
    else [Answer(name, TtlSeconds[ms[0].ttl], ms[0].address)] + Expected(name, ms[1..])
  }

  lemma {:induction false} ExpectedAt(name: string, ms: seq<ZoneRecord>)
    requires KnownTtls(ms)
    ensures forall k :: 0 <= k < |ms| ==> Expected(name, ms)[k] == Answer(name, TtlSeconds[ms[k].ttl], ms[k].address)
  {
    if |ms| > 0 {
      ExpectedAt(name, ms[1..]);
      assert forall k :: 0 < k < |ms| ==> ms[1..][k - 1] == ms[k];
    }
  }

  /** The compressed walk, one record at a time. */
  lemma CompressedCons(resp: seq<byte>, off: nat, m: nat, x: Answer, next: nat, tail: seq<Answer>)
    requires off + 11 < |resp|
    requires CompressedRecord(resp, off) == Success((x, next))
    requires CompressedAnswers(resp, next, m) == Success(tail)
    ensures CompressedAnswers(resp, off, m + 1) == Success([x] + tail)
  {
  }

  /** The client's compressed walk reads back every record format_response wrote. */
  lemma {:induction false} RecordsRead(resp: seq<byte>, off: nat, letter: string, ms: seq<ZoneRecord>, name: string, wire: seq<byte>)
    requires letter == "A" || letter == "AAAA"
    requires AllServable(letter, ms)
    requires 12 < off && 12 < |resp| && NameText(resp, resp[12], 13) == Success(name)
    requires RecordsWire(letter, ms) == Success(wire)
    requires off + |wire| <= |resp| && resp[off..off + |wire|] == wire
    ensures CompressedAnswers(resp, off, |ms|) == Success(Expected(name, ms))
    decreases |ms|
  {
    if |ms| > 0 {
      var w, rest := FirstRecordSplit(resp, off, letter, ms, wire);
      RecordsRead(resp, off + |w|, letter, ms[1..], name, rest);
      RecordsCons(resp, off, letter, ms, name, w);
    }
  }

  /** The first record's bytes and the others' bytes, each where format_response put them. */
  lemma FirstRecordSplit(resp: seq<byte>, off: nat, letter: string, ms: seq<ZoneRecord>, wire: seq<byte>)
      returns (w: seq<byte>, rest: seq<byte>)
    requires |ms| > 0 && AllServable(letter, ms)
    requires RecordsWire(letter, ms) == Success(wire)
    requires off + |wire| <= |resp| && resp[off..off + |wire|] == wire
    ensures RecordWire(letter, ms[0]) == Success(w) && RecordsWire(letter, ms[1..]) == Success(rest)
    ensures AllServable(letter, ms[1..])
    ensures off + |w| + |rest| <= |resp|
    ensures resp[off..off + |w|] == w && resp[off + |w|..off + |w| + |rest|] == rest
  {
    AllServableTail(letter, ms);
    RecordsWireCons(letter, ms, wire);
    w := RecordWire(letter, ms[0]).value;
    rest := RecordsWire(letter, ms[1..]).value;
    SplitAtRecord(resp, off, w, rest);
  }

  /** The first record read at `off`, followed by the others read after it. */
  lemma RecordsCons(resp: seq<byte>, off: nat, letter: string, ms: seq<ZoneRecord>, name: string, w: seq<byte>)
    requires letter == "A" || letter == "AAAA"
    requires |ms| > 0 && AllServable(letter, ms)
    requires 12 < off && 12 < |resp| && NameText(resp, resp[12], 13) == Success(name)
    requires RecordWire(letter, ms[0]) == Success(w)
    requires off + |w| <= |resp| && resp[off..off + |w|] == w
    requires KnownTtls(ms[1..])
    requires CompressedAnswers(resp, off + |w|, |ms[1..]|) == Success(Expected(name, ms[1..]))
    ensures KnownTtls(ms) && CompressedAnswers(resp, off, |ms|) == Success(Expected(name, ms))
  {
    AllServableTail(letter, ms);
    RecordRead(resp, off, letter, ms[0], name);
    var x := Answer(name, TtlSeconds[ms[0].ttl], ms[0].address);
    CompressedCons(resp, off, |ms[1..]|, x, off + |w|, Expected(name, ms[1..]));
    ExpectedCons(name, ms);
  }

  lemma ExpectedCons(name: string, ms: seq<ZoneRecord>)
    requires |ms| > 0 && KnownTtls(ms)
    ensures Expected(name, ms) == [Answer(name, TtlSeconds[ms[0].ttl], ms[0].address)] + Expected(name, ms[1..])
  {
  }

  /** The records' bytes are the first record's followed by the others'. */
  lemma RecordsWireCons(letter: string, ms: seq<ZoneRecord>, wire: seq<byte>)
    requires |ms| > 0 && RecordsWire(letter, ms) == Success(wire)
    ensures RecordWire(letter, ms[0]).Success? && RecordsWire(letter, ms[1..]).Success?
    ensures wire == RecordWire(letter, ms[0]).value + RecordsWire(letter, ms[1..]).value
  {
  }

  lemma SplitAtRecord(resp: seq<byte>, off: nat, w: seq<byte>, rest: seq<byte>)
    requires off + |w + rest| <= |resp| && resp[off..off + |w + rest|] == w + rest
    ensures resp[off..off + |w|] == w && resp[off + |w|..off + |w| + |rest|] == rest
  {
    SliceOfSlice(resp, off, off + |w + rest|, 0, |w|);
    SliceOfSlice(resp, off, off + |w + rest|, |w|, |w + rest|);
    assert (w + rest)[0..|w|] == w && (w + rest)[|w|..|w + rest|] == rest;
  }

  /** The header format_response writes in front of the question. */
  function ResponseHeader(transId: nat, count: nat): seq<byte> {
    Field(transId, 2) + [0x81, 0, 0, 1] + Field(count, 2) + [0, 0, 0, 0]
  }

  /** ANCOUNT as the client reads it: the number of records, and with no record the zero
      NSCOUNT after it. */
  lemma CountRead(resp: seq<byte>, transId: nat, count: nat)
    requires count < 65536 && |resp| >= 12 && resp[..12] == ResponseHeader(transId, count)
    ensures AnswerCount(resp) == count
  {
    assert Pow256(2) == 65536;
    FieldValue(count, 2);
    var f := Field(count, 2);
    assert resp[6] == f[0] && resp[7] == f[1] && resp[8] == 0 && resp[9] == 0;
    BigEndianPair(f[0], f[1]);
    assert f == [f[0], f[1]];
  }

  /** The question of the response is the query's, so the name sits encoded at 12. */
  lemma QuestionCopied(resp: seq<byte>, q: seq<byte>, qType: nat, labels: seq<string>)
    requires QueryWire(qType, labels).Success? && q == QueryWire(qType, labels).value
    requires |resp| >= |q| && resp[12..|q|] == q[12..]
    ensures Encodable(labels) && EncodedAt(resp, 12, labels)
  {
    QueryLayout(qType, labels);
    var n := LabelsSize(labels);
    assert resp[12..12 + n] == resp[12..|q|][..n];
    assert q[12..12 + n] == q[12..][..n];
    assert resp[12 + n] == resp[12..|q|][n] == q[12 + n];
    assert q[12 + n] == q[|q| - 5..][0];
  }

  /** The type the user names on the resolver's command line comes back as the letter the
      name server filters its zone on: the code parse_cli_query looks up is a key of the
      server's DNS_TYPES, which maps it back to that mnemonic. */
  lemma CliTypeServed(qType: string, qDomain: string, qServer: Option<string>, pick: nat)
    requires pick < |PublicDnsServers|
    ensures var r := Resolver.ParseCliQuery(qType, qDomain, qServer, pick);
      r.Success? ==> r.value.qType in TypeNames && TypeNames[r.value.qType] == qType
  {
    TablesInverse();
  }

  /** A query the resolver writes for an A or AAAA lookup, answered by the name server from
      a zone whose matching records are servable (and fewer than 65536), is read by the
      resolver as exactly one answer per matching record, in zone-file order, each with
      the full domain name, the TTL in seconds and the address as written in the zone;
      with no matching record the resolver reads past the end (IndexError). */
  lemma QueryResponseRoundTrip(origin: string, qType: nat, labels: seq<string>, zone: Zone)
    requires qType == 1 || qType == 28
    requires QueryWire(qType, labels).Success? && |labels| >= 1
    requires NonEmptyLabels(labels) && NoSeparator(labels, '.')
    requires origin == ServedOrigin && Join(".", labels[1..]) == ServedOrigin
    requires labels[0] in zone
    requires var ms := Matching(zone[labels[0]], TypeNames[qType]);
      |ms| < 65536 && forall k :: 0 <= k < |ms| ==> Servable(TypeNames[qType], ms[k])
    ensures var q := QueryWire(qType, labels).value;
      RequestSpec(origin, q).Success? &&
      var req := RequestSpec(origin, q).value;
      ResponseWire(zone, req.transId, req.firstLabel, req.qType, req.query).Success?
    ensures var q := QueryWire(qType, labels).value;
      var req := RequestSpec(origin, q).value;
      var resp := ResponseWire(zone, req.transId, req.firstLabel, req.qType, req.query).value;
      var ms := Matching(zone[labels[0]], TypeNames[qType]);
      (|ms| == 0 ==> ResponseSpec(resp) == Failure(IndexError)) &&
      (|ms| > 0 ==>
         ResponseSpec(resp).Success? && |ResponseSpec(resp).value| == |ms| &&
         forall k :: 0 <= k < |ms| ==>
           ResponseSpec(resp).value[k] == Answer(Join(".", labels), TtlSeconds[ms[k].ttl], ms[k].address))
  {
    var q := QueryWire(qType, labels).value;
    RequestOfQuery(origin, qType, labels);
    var letter := TypeNames[qType];
    assert letter == "A" || letter == "AAAA";
    var ms := Matching(zone[labels[0]], letter);
    MatchingServable(zone[labels[0]], letter);
    RecordsWireOf(letter, ms);
    ResponseWireOf(zone, 0x4F42, labels[0], qType, q[12..]);
    var resp := ResponseHeader(0x4F42, |ms|) + q[12..] + RecordsWire(letter, ms).value;
    ResponseRead(resp, q, qType, labels, letter, ms);
    if |ms| > 0 {
      ExpectedAt(Join(".", labels), ms);
    }
  }

  /** The records matching a type are all of that type, so servable ones are AllServable. */
  lemma MatchingServable(records: seq<ZoneRecord>, letter: string)
    requires var ms := Matching(records, letter); forall k :: 0 <= k < |ms| ==> Servable(letter, ms[k])
    ensures AllServable(letter, Matching(records, letter))
  {
    var ms := Matching(records, letter);
    MatchingMembers(records, letter);
    forall k | 0 <= k < |ms|
      ensures ms[k].rType == letter
    {
      assert ms[k] in ms;
    }
  }

  /** format_response for a known name and type whose records can all be written: the
      header, the question as received, then the records. */
  lemma ResponseWireOf(zone: Zone, transId: nat, name: string, qType: nat, qry: seq<byte>)
    requires name in zone && qType in TypeNames
    requires RecordsWire(TypeNames[qType], Matching(zone[name], TypeNames[qType])).Success?
    ensures var ms := Matching(zone[name], TypeNames[qType]);
      ResponseWire(zone, transId, name, qType, qry) ==
        Success(ResponseHeader(transId, |ms|) + qry + RecordsWire(TypeNames[qType], ms).value)
  {
  }

  /** The client side of the round trip: a response made of format_response's header, the
      query's question and the records is read as the expected answers. */
  lemma ResponseRead(resp: seq<byte>, q: seq<byte>, qType: nat, labels: seq<string>, letter: string, ms: seq<ZoneRecord>)
    requires QueryWire(qType, labels).Success? && q == QueryWire(qType, labels).value
    requires NonEmptyLabels(labels)
    requires letter == "A" || letter == "AAAA"
    requires AllServable(letter, ms) && |ms| < 65536
    requires RecordsWire(letter, ms).Success?
    requires resp == ResponseHeader(0x4F42, |ms|) + q[12..] + RecordsWire(letter, ms).value
    ensures |ms| == 0 ==> ResponseSpec(resp) == Failure(IndexError)
    ensures |ms| > 0 ==> ResponseSpec(resp) == Success(Expected(Join(".", labels), ms))
  {
    RecordsWireOf(letter, ms);
    var records := RecordsWire(letter, ms).value;
    ResponseLayout(resp, q, qType, labels, ResponseHeader(0x4F42, |ms|), records);
    CountRead(resp, 0x4F42, |ms|);
    if |ms| > 0 {
      AnswersAfterQuestion(resp, |q|, letter, ms, Join(".", labels), records);
    } else {
      ResponseEmpty(resp, |q| - 5);
    }
  }

  /** A response whose question ends 5 bytes before `start` and whose records, counted in
      its header, run from `start` to its end is read as the expected answers. */
  lemma AnswersAfterQuestion(resp: seq<byte>, start: nat, letter: string, ms: seq<ZoneRecord>, name: string, records: seq<byte>)
    requires letter == "A" || letter == "AAAA"
    requires AllServable(letter, ms) && |ms| > 0
    requires 17 <= start && 12 < |resp| && NameText(resp, resp[12], 13) == Success(name)
    requires QuestionEnd(resp, 12) == Success(start - 5) && AnswerCount(resp) == |ms|
    requires RecordsWire(letter, ms) == Success(records)
    requires |resp| == start + |records| && resp[start..] == records
    ensures ResponseSpec(resp) == Success(Expected(name, ms))
  {
    RecordsWireOf(letter, ms);
    assert resp[start..start + |records|] == records;
    assert resp[start] == 192;
    var answers := Expected(name, ms);
    RecordsRead(resp, start, letter, ms, name, records);
    AnswersCompressed(resp, start, |ms|, answers);
    ResponseOfAnswers(resp, start, |ms|);
  }

  /** Where the client finds things in such a response: the name at 12, the question's
      end, and the records from the end of the question on. */
  lemma ResponseLayout(resp: seq<byte>, q: seq<byte>, qType: nat, labels: seq<string>, head: seq<byte>, records: seq<byte>)
    requires QueryWire(qType, labels).Success? && q == QueryWire(qType, labels).value
    requires NonEmptyLabels(labels)
    requires |head| == 12 && resp == head + q[12..] + records
    ensures |q| >= 17 && |resp| == |q| + |records| && resp[..12] == head
    ensures NameText(resp, resp[12], 13) == Success(Join(".", labels))
    ensures QuestionEnd(resp, 12) == Success(|q| - 5)
    ensures resp[|q|..] == records
  {
    QueryLayout(qType, labels);
    assert resp[12..|q|] == q[12..];
    QuestionCopied(resp, q, qType, labels);
    NameLabelsOfEncoding(resp, 12, labels);
    QuestionEndOfEncoding(resp, 12, labels);
    assert |head + q[12..]| == |q|;
    assert resp == (head + q[12..]) + records;
  }

  /** parse_answers on a first byte of 192 is the compressed walk. */
  lemma AnswersCompressed(resp: seq<byte>, offset: nat, count: nat, answers: seq<Answer>)
    requires offset < |resp| && resp[offset] == 192
    requires CompressedAnswers(resp, offset, count) == Success(answers)
    ensures AnswersSpec(resp, offset, count) == Success(answers)
  {
  }

  /** parse_response hands parse_answers the offset 5 past the question's end. */
  lemma ResponseOfAnswers(resp: seq<byte>, start: nat, count: nat)
    requires |resp| > 12 && 5 <= start && QuestionEnd(resp, 12) == Success(start - 5)
    requires AnswerCount(resp) == count
    ensures ResponseSpec(resp) == AnswersSpec(resp, start, count)
  {
  }

  /** parse_response on a response that ends with its question. */
  lemma ResponseEmpty(resp: seq<byte>, end: nat)
    requires |resp| > 12 && QuestionEnd(resp, 12) == Success(end) && end + 5 == |resp|
    ensures ResponseSpec(resp) == Failure(IndexError)
  {
  }
}
