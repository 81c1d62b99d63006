# Computer-Networks protocol core in Dafny

This project models the byte-level protocol code of a set of small Python networking tools and
proves properties of that model:

- **DNS client** (`project3/resolver.py`):
  - `format_query` builds the query;
  - `parse_response`, `parse_answers`, `build_info` and `get_name` walk the response with integer cursors;
  - `parse_address_a` and `parse_address_aaaa` render addresses as text.
- **DNS server** (`03-DNS-server/project3/nameserver.py`):
  - `parse_request` decodes the query;
  - `format_response` builds the answer from a zone. Every answer is named by the pointer `c0 0c`.
- **Client/server round trip:** a query written by the client, decoded and answered by the server,
  is read back by the client as one `(name, ttl, address)` per matching zone record.
- **Distance-vector router** (`final_project/router_1.py`):
  - `format_update` and `parse_update` work on a routing table that changes in place; `parse_update` is the Bellman-Ford relaxation;
  - `format_hello` and the decoding half of `parse_hello` are the hello-message codec.
- **Internet checksum** (RFC 1071) in `06-traceroute/project6/traceroute.py` and
  `project5/pinger.py`, and the ICMP reply check of `parse_reply`. The accepted types are those of RFC 792: 0, 3 and 11.
- **The earlier DNS client's helpers** (`project2/resolver.py`).

## How the project is organised

One module per source file, plus shared modules:

| module | role |
|---|---|
| `Outcomes` | Python exceptions become `Result` failures, named after the exception class. |
| `Bits` | Python's `\|` on non-negative integers, bit by bit. |
| `ByteCodec` | `val_to_n_bytes`, `bytes_to_val` and `get_2_bits`; their copies in the three DNS files are identical. |
| `Text` | `str.split`, `str.join`, `str()`/`int()` on decimals, and hex digits. |
| `DnsTypes` | The `DNS_TYPES` tables and `TTL_SEC`. |
| `DottedDecimal` | Appending `int()` of each part of a dotted address to a bytearray. |

How the Python code is rendered:

- **Loops** that advance a cursor or append to a `bytearray` are Dafny methods with loop invariants. Each method is proved equal to a specification function, and lemmas state what that function means.
- **`ROUTING_TABLE`** is a class whose fields `parse_update` changes in place.
- **`bytearray.append`** of a value of 256 or more raises `ValueError`; the model keeps that error path.

Quirks of the source are modelled as written, for example:

- the compressed-answer branch is chosen on the first answer byte alone;
- an A record always advances the cursor by 16 bytes;
- the uncompressed branch reuses one name;
- a response with zero answers reads past its end (`IndexError`).

## Model

| member | source | states |
|---|---|---|
| ByteCodec.ValToNBytes | project3/resolver.py:41-48 | The `& 0xFF`, `>>= 8`, insert-in-front loop returns n values, each below 256, whose big-endian value is `value mod 256^n`. |
| ByteCodec.BigEndianOfToBytes | project3/resolver.py:41-48 | The n-byte encoding consists of bytes, and its big-endian value is `v mod 256^n`. |
| ByteCodec.ToBytesOfBigEndian | project3/resolver.py:41-48 | Encoding the big-endian value of n bytes back into n bytes returns those bytes. |
| ByteCodec.BytesToVal | project3/resolver.py:50-60 | The repeated pairwise `x << 8 \| y` merging returns `Merge(lst)`, which for a list of bytes is its big-endian value. |
| ByteCodec.MergeOfBytes | project3/resolver.py:50-60 | Pairwise merging of a non-empty byte list until one value remains gives its big-endian value. |
| ByteCodec.MergeOfToBytes | project3/resolver.py:41-60 | `bytes_to_val(val_to_n_bytes(v, n)) == v` for `v < 256^n`. |
| ByteCodec.TopBit | project3/resolver.py:62-71 | Shifting n right by `len(bin(n)) - 3` leaves 1 for a non-zero n and 0 for zero. |
| ByteCodec.Get2Bits | project3/resolver.py:62-71 | The result is `2*(b0 != 0) + (b1 != 0)`: each byte contributes its own top set bit. |
| ByteCodec.AppendAll | final_project/router_1.py:100-101 | Appending a list to a bytearray succeeds exactly when every element is below 256, giving `buf + xs`; otherwise it is `ValueError`. |
| Bits.OrDisjoint | project3/resolver.py:57 | `hi << k \| lo` equals `hi * 2^k + lo` when `lo < 2^k`. |
| Bits.OrComm | project3/resolver.py:71 | Python's `\|` on non-negative integers is commutative. |
| DnsTypes.TablesInverse | 03-DNS-server/project3/nameserver.py:15-23 | The server's `DNS_TYPES` (code to mnemonic) and the client's table (mnemonic to code) are inverse maps. |
| DnsTypes.TtlFitsFourBytes | 03-DNS-server/project3/nameserver.py:25-32 | Every `TTL_SEC` value fits the 4-byte TTL field. |
| DottedDecimal.AppendDotted | 03-DNS-server/project3/nameserver.py:194-196 | Appending `int(n)` for each dot-separated part gives the buffer followed by the parts' byte values. A part that is not a decimal, or is 256 or more, is a `ValueError`. |
| DottedDecimal.DottedRoundTrip | project3/resolver.py:237-239 | Splitting the dotted text of a byte list on "." and appending `int()` of each part returns the bytes. |
| Resolver.ValTo2Bytes | project3/resolver.py:35-39 | `[value >> 8, value & 0xFF]`: two elements whose big-endian value is `value`, the second below 256. Below 65536 both are bytes. |
| Resolver.GetDomainNameLocation | project3/resolver.py:73-75 | The pointer offset `((b0 & 0x3f) << 8) + b1` is below 16384. |
| Resolver.PointerRoundTrip | project3/resolver.py:73-75 | A compression pointer `c0 + p / 256, p % 256` decodes to p for every `p < 16384`. |
| Resolver.ParseCliQuery | project3/resolver.py:77-86 | MX is a `ValueError` and an unknown type a `KeyError`. Otherwise the type code is looked up and the labels join back to the domain with no "." inside a label. The server is the given one, or the picked public server when none (or the empty string) is given. |
| Resolver.FormatQuery | project3/resolver.py:88-118 | The bytes appended are exactly `QueryWire(type, labels)`. A label of 256 or more characters, or a character code of 256 or more, is a `ValueError`. |
| Resolver.QueryLayout | project3/resolver.py:92-116 | A query is `4F 42 01 00 00 01 00 00 00 00 00 00`, then each label as its length and character codes, then 0, then the type in two big-endian bytes, then `00 01`. Its length is `17 + sum(len(label) + 1)`. |
| Resolver.AppendLabel | project3/resolver.py:103-106 | One label appends its length byte and its character codes, or raises `ValueError` when either is not a byte. |
| Resolver.EncodeLabelsSize | project3/resolver.py:103-107 | The encoded labels take `sum(len(label) + 1)` bytes. |
| Resolver.ParseAddressA | project3/resolver.py:237-239 | Rendering succeeds exactly when `addr_len` does not exceed the bytes available. |
| Resolver.ParseAddressAParts | project3/resolver.py:237-239 | The text has `addr_len` dot-separated parts, and part i reads back as the decimal value of byte i. |
| Resolver.StripLeadingZeros | project3/resolver.py:247-257 | The zero-stripping loop of one hex group computes `StripGroup`: "0000" becomes "0" and leading zeros go. |
| Resolver.ParseAddressAaaa | project3/resolver.py:241-263 | The in-place group rewriting and `address.pop()` compute `AaaaText`: the stripped groups joined by ":". |
| Resolver.AaaaParts | project3/resolver.py:241-263 | For an even number of bytes, the text splits on ":" into one part per 16-bit word. Each part is that word's 4-digit hex with leading zeros stripped. |
| Resolver.AaaaCanonical | project3/resolver.py:241-263 | Each group is the canonical lower-case hex of its 16-bit word: it reads back as that word and has no leading zero unless it is "0". There is no `::` shorthand. |
| Resolver.StripAllPrefix | project3/resolver.py:246-257 | Once a group fails to strip, the whole address fails. |
| Resolver.GetName | project3/resolver.py:143-157 | Reading length-prefixed labels from `builder` up to a zero length computes `NameText`. The result is the labels joined by "." with no trailing dot, or "" when the first length is 0; a label past the end is an `IndexError`. |
| Resolver.NameDone | project3/resolver.py:152-157 | Dropping the last character of the dot-terminated labels gives their "."-join, and the result is empty exactly when there are no labels. |
| Resolver.NameLabelsOfEncoding | project3/resolver.py:143-157 | Reading labels encoded as `format_query` writes them returns exactly those labels. |
| Resolver.NameOfQuery | project3/resolver.py:143-157 | `get_name` on a query that `format_query` wrote returns the domain's labels joined by ".". |
| Resolver.QuestionEnd | project3/resolver.py:134-137 | Skipping labels from i ends on a zero byte at or after i; running past the end is an `IndexError`. |
| Resolver.QuestionEndOfEncoding | project3/resolver.py:134-137 | For encoded labels at p, the skip ends at `p + sum(len(label) + 1)`. |
| Resolver.SkipQuestion | project3/resolver.py:132-137 | The cursor loop of `parse_response` computes `QuestionEnd`. |
| Resolver.ReadAnswerCount | project3/resolver.py:133 | The answer count is ANCOUNT (bytes 6-7), or NSCOUNT (bytes 8-9) when ANCOUNT is 0. |
| Resolver.ParseResponse | project3/resolver.py:130-140 | `parse_response` computes `ResponseSpec`: the answer walk starts 5 bytes after the question name's zero terminator. |
| Resolver.BuildInfo | project3/resolver.py:159-183 | `build_info` computes `BuildInfoSpec`:<br>- the name is read from `resp[resp[offset]]` at the pointer target + 1 (or at `offset + 1`);<br>- the TTL is bytes `offset+5..offset+8`;<br>- the address is rendered from `offset + 11`;<br>- the next offset is `offset + 15` for type 1 and `offset + 11 + length` for type 28;<br>- any other type is an error. |
| Resolver.RecordFields | project3/resolver.py:212-214 | The TTL, type and RDLENGTH are the big-endian values of bytes `loc+5..loc+8`, `loc+1..loc+2` and `loc+9..loc+10`. |
| Resolver.ReadCompressedRecord | project3/resolver.py:197-204 | One compressed record: its type and length, then `build_info` at `offset + 1`. |
| Resolver.CompressedLoop | project3/resolver.py:196-206 | The compressed branch reads `rr_ans` records in a row and stops at the first failure. |
| Resolver.ReadUncompressedRecord | project3/resolver.py:212-232 | One uncompressed record under the reused name. The cursor advances by `16 + len(name)` for A and AAAA. CNAME is an error. Any other type re-appends the previous record, or is `UnboundLocalError` on the first record. |
| Resolver.UncompressedLoop | project3/resolver.py:208-233 | The uncompressed branch reads `rr_ans` records with the state carried between iterations. |
| Resolver.ParseAnswers | project3/resolver.py:185-235 | `parse_answers` computes `AnswersSpec`. The compressed branch is taken exactly when byte `offset` is 192, and reading that byte past the end is an `IndexError`. |
| NameServer.GetLeftBits | 03-DNS-server/project3/nameserver.py:58-61 | An empty list is an `IndexError` and more than 16 bits a `ValueError` (negative shift count); every other call succeeds. |
| NameServer.LeftBitsQuotient | 03-DNS-server/project3/nameserver.py:58-61 | The result is the quotient of the list's value by `2^(16 - n_bits)`: its multiple of that power lies at or below the value, the next multiple above it. |
| NameServer.GetRightBits | 03-DNS-server/project3/nameserver.py:64-67 | An empty list is an `IndexError`; every other call succeeds. The result is below `2^n_bits`, at most the list's value, and differs from the value by a multiple of `2^n_bits`. |
| NameServer.LeftRightBits | 03-DNS-server/project3/nameserver.py:58-67 | For two bytes, `get_left_bits(b, k)` is below `2^k` and `get_right_bits(b, 16-k)` below `2^(16-k)`, and `left * 2^(16-k) + right` is the 16-bit value. |
| NameServer.PointerBits | 03-DNS-server/project3/nameserver.py:58-67 | `get_right_bits(b, 14)` is the client's pointer offset, and `get_left_bits(b, 2) == 3` exactly when the first byte is at least 192. |
| NameServer.ReadQuestionFields | 03-DNS-server/project3/nameserver.py:123-140 | After the name:<br>- the type and the class are read from the four bytes after its terminator;<br>- an unknown type, a class other than 1, or another zone is a `ValueError`;<br>- a short message is an `IndexError`. |
| NameServer.ParseRequest | 03-DNS-server/project3/nameserver.py:106-140 | The name-collecting cursor loop and the checks compute `RequestSpec`. |
| NameServer.RequestOfQuery | 03-DNS-server/project3/nameserver.py:106-140 | A query written by `format_query` decodes exactly when its type is in `DNS_TYPES` and both the origin and the name after its first label are `cs430.luther.edu`. It decodes to `(0x4F42, first label, type, query[12:])`. |
| NameServer.QueryTail | 03-DNS-server/project3/nameserver.py:125-126 | In a query that `format_query` wrote, the two bytes after the name are the type, the next two are class 1, and bytes 0-1 are 0x4F42. |
| NameServer.DropFirstLabel | 03-DNS-server/project3/nameserver.py:136 | Dropping the first label and its dot from a joined name leaves the other labels joined. |
| NameServer.Matching | 03-DNS-server/project3/nameserver.py:160-163 | Filtering keeps at most the zone entries it was given. |
| NameServer.MatchingMembers | 03-DNS-server/project3/nameserver.py:160-163 | A record is in the answer list exactly when it is in the zone entry and has the queried type string. |
| NameServer.FilterRecords | 03-DNS-server/project3/nameserver.py:156-163 | The loop collects the matching records in zone order and counts them. |
| NameServer.FieldBytes | 03-DNS-server/project3/nameserver.py:35-42 | `val_to_bytes(v, n)` gives the n-byte big-endian encoding of `v mod 256^n`. |
| NameServer.FieldValue | 03-DNS-server/project3/nameserver.py:35-42 | For `v < 256^n`, the n-byte field reads back as v. |
| NameServer.PadZeros | 03-DNS-server/project3/nameserver.py:203-207 | Inserting "0" in front while the group is shorter than 4 left-pads it to 4 digits. |
| NameServer.AppendColon | 03-DNS-server/project3/nameserver.py:201-210 | Each colon group, left-padded, appends two bytes, from `int("0x" + half, 16)` of its first two characters and of the rest. A half that is not hex, or is past a byte, is a `ValueError`. |
| NameServer.AppendRecordHead | 03-DNS-server/project3/nameserver.py:175-199 | A record starts with `c0 0c`, then its type, `00 01`, `TTL_SEC[ttl]` in 4 bytes and RDLENGTH 4 or 16. |
| NameServer.RecordHeadFields | 03-DNS-server/project3/nameserver.py:175-199 | The 12-byte record head holds:<br>- the pointer `c0 0c`;<br>- type 1 for an A entry, else 28;<br>- class 1;<br>- the big-endian `TTL_SEC` value;<br>- RDLENGTH 4 for an A query, else 16. |
| NameServer.HeadLayout | 03-DNS-server/project3/nameserver.py:175-199 | Each field of a record head reads back as the value written into it. |
| NameServer.AppendRecord | 03-DNS-server/project3/nameserver.py:174-210 | One answer record: its head, then the address bytes. An unknown TTL is a `KeyError`; an address that does not convert is a `ValueError`. |
| NameServer.AppendRecords | 03-DNS-server/project3/nameserver.py:174-210 | The records are appended in zone order, stopping at the first failure. |
| NameServer.FormatResponse | 03-DNS-server/project3/nameserver.py:143-216 | `format_response` computes `ResponseWire`:<br>- a name outside the zone is a `ValueError`;<br>- the header is the ID, `81 00`, `00 01`, ANCOUNT and four zeros;<br>- the query is copied verbatim;<br>- then come the matching records. |
| NameServer.AddressOfDotted | 03-DNS-server/project3/nameserver.py:194-196 | The dotted text of a byte list converts back to those bytes. |
| NameServer.PadStripped | 03-DNS-server/project3/nameserver.py:203-207 | Padding a stripped group gives back its 4-digit form. |
| NameServer.GroupOfWord | 03-DNS-server/project3/nameserver.py:209-210 | A 4-digit group converts back to its two bytes. |
| NameServer.AddressOfColon | 03-DNS-server/project3/nameserver.py:201-210 | The colon text `parse_address_aaaa` renders for an even number of bytes converts back to those bytes. |
| DnsRoundTrip.RecordsWireOf | 03-DNS-server/project3/nameserver.py:174-210 | Servable records always serialise, and a non-empty answer section starts with `c0`. |
| DnsRoundTrip.RecordRead | project3/resolver.py:159-183 | The client reads one record the server wrote as `(queried name, TTL_SEC[ttl], address)` and moves past it. |
| DnsRoundTrip.RecordsRead | project3/resolver.py:196-206 | The compressed walk reads the server's answer records back one for one, in order. |
| DnsRoundTrip.CountRead | project3/resolver.py:133 | The client reads the ANCOUNT the server wrote. |
| DnsRoundTrip.QuestionCopied | 03-DNS-server/project3/nameserver.py:171-172 | The question copied into the response still encodes the query's labels at offset 12. |
| DnsRoundTrip.ResponseLayout | project3/resolver.py:130-140 | In the server's response, the client finds the name at 12 and ends the question skip at `len(query) - 5`. The answer records follow the question. |
| DnsRoundTrip.ResponseRead | project3/resolver.py:130-140 | `parse_response` on the server's response gives one answer per record, or `IndexError` when there is none. |
| DnsRoundTrip.CliTypeServed | 03-DNS-server/project3/nameserver.py:157 | The type code `parse_cli_query` looks up is a key of the server's `DNS_TYPES`, which maps it back to the mnemonic the user typed: the letter the server filters its zone on. |
| DnsRoundTrip.QueryResponseRoundTrip | 03-DNS-server/project3/nameserver.py:106-216 | For an A or AAAA query that `format_query` wrote, `parse_request` succeeds and `format_response` succeeds. `parse_response` then returns, in zone order, `(name, TTL_SEC[ttl], address)` for each matching record, or `IndexError` when nothing matches. |
| EarlyResolver.ValTo2Bytes | project2/resolver.py:34-44 | Both elements are masked: two bytes whose big-endian value is `value mod 65536`. |
| EarlyResolver.ValTo2BytesVersions | project2/resolver.py:34-44 | This version and the later `[v >> 8, v & 0xFF]` agree exactly when `v < 65536`. |
| EarlyResolver.ParseCliQuery | project2/resolver.py:83-96 | An unknown type is exactly the `KeyError` case, and MX is accepted. The labels join back to the domain. The server is the given one, or the picked public server when none (or the empty string) is given. On every type but MX it agrees with the later version. |
| InternetChecksum.Checksum | 06-traceroute/project6/traceroute.py:26-48 | The checksum is a value in `[0, 0xFFFF]`. |
| InternetChecksum.WordSumIsSum | 06-traceroute/project6/traceroute.py:30-36 | The running sum reduced mod 2^32 at each step is the sum of the little-endian words mod 2^32. |
| InternetChecksum.FoldIsEndAroundCarry | 06-traceroute/project6/traceroute.py:42-43 | The two folds keep the sum's residue mod 65535: end-around carry. |
| InternetChecksum.ComplementValue | 06-traceroute/project6/traceroute.py:44-45 | `~c & 0xFFFF == 0xFFFF - c mod 65536`. |
| InternetChecksum.SwapBytesValue | 06-traceroute/project6/traceroute.py:46 | `r >> 8 \| (r << 8 & 0xFF00)` swaps the two bytes of a 16-bit value. |
| InternetChecksum.SwapTwice | 06-traceroute/project6/traceroute.py:46 | Swapping the bytes twice gives the value back. |
| InternetChecksum.ChecksumZeroPad | 06-traceroute/project6/traceroute.py:30-40 | Appending a zero byte leaves the checksum unchanged. |
| InternetChecksum.ChecksumWordOrder | 06-traceroute/project6/traceroute.py:30-40 | Reordering the 16-bit words (same odd tail byte) leaves the checksum unchanged. |
| InternetChecksum.ChecksumSwapFirstWords | 06-traceroute/project6/traceroute.py:99-105 | The pseudo-header `00 00, type code, id seq` has the same checksum as the header with its checksum field zeroed. |
| Traceroute.Checksum | 06-traceroute/project6/traceroute.py:26-48 | The word-summing loop, folds, complement and swap compute `InternetChecksum.Checksum`. |
| Traceroute.ParseReply | 06-traceroute/project6/traceroute.py:93-119 | Building the pseudo-header by append and extend, then checking type and checksum, computes `ReplySpec`. |
| Traceroute.ReplyAccepted | 06-traceroute/project6/traceroute.py:93-119 | A reply is accepted (True) exactly when it has at least 28 bytes, its type at offset 20 is 0, 3 or 11, and the received checksum equals the one computed over the pseudo-header and data. Otherwise it is a `struct.error` for a short packet and a `ValueError` otherwise. |
| Pinger.Checksum | project5/pinger.py:33-55 | The result is in `[0, 0xFFFF]` and equals the traceroute checksum on every input. |
| Router.PartValues | final_project/router_1.py:48 | `[int(e) for e in parts]` keeps one value per part; a part that is not a decimal is a `ValueError`. |
| Router.RoutingTable.constructor | final_project/router_1.py:18 | The table starts as the given one, with its keys listed once each. |
| Router.AppendEntry | final_project/router_1.py:47-52 | One entry appends the parts of its address, then its cost. A part that is not a decimal, or is not a byte, is a `ValueError`. |
| Router.RoutingTable.FormatUpdate | final_project/router_1.py:43-54 | `format_update` computes `UpdateWire`: a 0, then every entry in table order. |
| Router.EntryOfQuad | final_project/router_1.py:48-52 | A dotted-quad address with a cost below 256 writes its four octets and the cost. |
| Router.EntriesLayout | final_project/router_1.py:47-52 | Entry j occupies bytes `5j..5j+4`: four octets, then the cost. |
| Router.UpdatePairsShape | final_project/router_1.py:60 | The decoding comprehension succeeds exactly when the bytes after index 0 come in fives (or there are none); otherwise it is an `IndexError`. Pair j is the dotted text of bytes `1+5j..4+5j` and the cost at `5+5j`. |
| Router.PartValuesOfDecimals | final_project/router_1.py:48 | `int()` reads back the `str()` of every number. |
| Router.UpdateRoundTrip | final_project/router_1.py:43-60 | `format_update` on a table of dotted-quad addresses with costs below 256 writes `1 + 5 * len(table)` bytes. Its decoding gives back exactly the `(address, cost)` pairs, in order. |
| Router.RoutingTable.Relax | final_project/router_1.py:63-73 | One pair, with the entry updated in place, matches `RelaxStep`: the entry is lowered, inserted or left alone, and a missing neighbour is a `KeyError`. |
| Router.RelaxStepEffect | final_project/router_1.py:63-73 | For one pair:<br>- it fails (`KeyError`) exactly when it names another router and the neighbour is unknown;<br>- otherwise only its destination may change, to `[neighbour cost + cost, neighbour]`, and only by being inserted or lowered;<br>- this router's and the neighbour's entries stay the same. |
| Router.RelaxStepWellFormed | final_project/router_1.py:70-73 | Inserting a new destination keeps the keys listed once each. |
| Router.RoutingTable.ParseUpdate | final_project/router_1.py:57-77 | `parse_update` leaves the table `UpdateSpec` describes and returns or raises what `UpdateResult` says. |
| Router.ParseUpdateEffect | final_project/router_1.py:57-77 | `parse_update` keeps the table well formed, keeps every key and never raises a cost. It never changes this router's entry. It returns True exactly when nothing was raised and the table changed, that is, some entry was inserted or lowered. An undecodable message is an `IndexError` that leaves the table unchanged. |
| Router.RelaxKeepsThisNode | final_project/router_1.py:64 | Pairs naming THIS_NODE never add, drop or change its entry. |
| Router.RelaxMonotone | final_project/router_1.py:59-77 | The relaxation keeps the keys, their order and the keys-listed-once-each property. No cost rises. The update flag is true exactly when the table differs from the one it started with, and exactly when some entry was inserted or made cheaper (a next-hop change at equal cost never happens). |
| Router.RelaxBest | final_project/router_1.py:65-73 | Afterwards every advertised destination other than THIS_NODE costs at most `neighbour cost + advertised cost`. Every entry is either unchanged or `[neighbour cost + some advertised cost, neighbour]`. |
| Router.RelaxOnlyKeyError | final_project/router_1.py:66 | The only exception the loop raises is the `KeyError` of an unknown neighbour. |
| Router.FormatHello | final_project/router_1.py:90-103 | `format_hello` computes `HelloWire`: a 1, the source's parts, the destination's parts, then the text's character codes. |
| Router.ParseHello | final_project/router_1.py:106-110 | The source and destination texts convert back to bytes 1-4 and 5-8 (slices clamped to a short message, empty when nothing is left); the data has one character per byte from 9 on, with that byte's code. |
| Router.HelloRoundTrip | final_project/router_1.py:90-110 | For dotted-quad addresses, the hello message exists exactly when every character code is below 256 (else `ValueError`). It is `9 + len(text)` bytes starting with 1, and `parse_hello` decodes the source, destination and text from it. |

## Left out

- **Socket I/O, server and client loops, sleeping, printing and timing** are left out: the sending and receiving functions, `run`, `main`, `print_raw_bytes`, `print_status`, the debug prints in `parse_answers`, and `parse_hello`'s time stamp and `print`. They are transport and console plumbing with no byte logic.
- **Random choices:** the random public DNS server (`choice(PUBLIC_DNS_SERVER)`) becomes a `pick` index parameter. The router's random choice of hello text is not modelled; `format_hello` takes the text as an argument.
- **`read_zone_file` and the router's `read_file`** are not modelled. They read files with fixed-column slicing. The zone is an input value of `format_response`, and the routing table an argument of `RoutingTable`'s constructor.
- **The forwarding branch of `parse_hello`** is only a network send.
- **The ICMP `format_request`** in both tools is not modelled. It packs `time.time()` as a native-endian double, as are RTT statistics and floating-point output.
- **Host byte order:** `parse_reply` compares a native `struct "H"` value with `socket.htons(...)`. The model fixes a little-endian host, where `htons` swaps the two bytes.
- **`int()` leniency:** Python's `int()` accepts surrounding whitespace, a sign and `_` separators. The model's decimal and hex parsing accepts digits only, so such inputs are modelled as a `ValueError`.
- **The `NotImplementedError` stubs** of `project2/resolver.py` and the network functions of that file are not modelled.
- **Routing-table aliasing:** each entry of `ROUTING_TABLE` is a fresh list, so the model keeps the routes as values in a map field. The lowering keeps the source's two in-place writes of the entry (cost, then next hop). The insertion of a new destination, which creates a list and then appends the next hop to it, is made as one map update.
- ByteCodec.BytesToVal: requires a non-empty list. Python raises `IndexError` on `[]`, but every caller passes a literal list of 2 or 4 elements.
- ByteCodec.Get2Bits: requires at least two elements, as every caller passes a two-byte list. On a shorter list Python raises `IndexError`.
- DnsRoundTrip.QueryResponseRoundTrip: covers A and AAAA queries only. The zone's matching records must have a known TTL and an address in the canonical form the client renders, and fewer than 65536 records may match. Other records may not convert back byte for byte, so the claim is not made for them.
