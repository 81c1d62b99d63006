/** 06-traceroute/project6/traceroute.py: the checksum loop and the validation of an ICMP
    reply. The host is taken to be little-endian, as the `struct` native format and
    `socket.htons` are on x86 and ARM. */
module Traceroute {
  import opened Outcomes
  import opened Bits
  import opened ByteCodec
  import opened Text
  import IC = InternetChecksum

  /** checksum: the while loop over whole words, then the odd byte, the folds, the
      complement and the byte swap. */
  method Checksum(pkt: seq<byte>) returns (result: nat)
    ensures result == IC.Checksum(pkt)
  {
    var csum: nat := 0;
    var count: nat := 0;
    var countTo := (|pkt| / 2) * 2;
    while count < countTo
      invariant count % 2 == 0 && count <= countTo
      invariant csum == IC.WordSum(pkt, count / 2)
    {
      var thisVal := pkt[count + 1] as int * 256 + pkt[count];
      csum := csum + thisVal;
      csum := csum % IC.Mod32;
      count := count + 2;
    }
    assert csum == IC.WordSum(pkt, |pkt| / 2);
    if countTo < |pkt| {
      csum := csum + pkt[|pkt| - 1];
      csum := csum % IC.Mod32;
    }
    ghost var raw := csum;
    assert raw == IC.RawSum(pkt);
    csum := csum / 65536 + csum % 65536;
    csum := csum + csum / 65536;
    assert csum == IC.Fold(raw);
    result := (-(csum as int) - 1) % 65536;
    assert result == IC.Complement16(IC.Fold(raw));
    result := Or(result / 256, (result * 256) % 65536);
  }

  /** struct "b": a signed char. */
  function Signed8(b: byte): int {
    if b < 128 then b else b as int - 256
  }

  /** struct "H" on a little-endian host: an unsigned short, low byte first. */
  function NativeShort(lo: byte, hi: byte): nat {
    hi as int * 256 + lo
  }

  /** socket.htons on a little-endian host swaps the two bytes. */
  function Htons(x: nat): nat {
    IC.SwapBytes(x)
  }

  /** The bytes checksummed: 0, 0, the type and code, then the identifier and sequence
      number; the ICMP data follows. */
  function PseudoHeader(header: seq<byte>): seq<byte> {
    [0, 0] + Slice(header, 0, 2) + Drop(header, 4)
  }

  /** parse_reply: the ICMP header is bytes 20..27 of the IP packet. With fewer than 28
      bytes `struct.unpack` fails; a type other than 0, 3 or 11 is a ValueError, and so is
      a received checksum different from the one computed over the pseudo-header and data. */
  function ReplySpec(packet: seq<byte>): Result<bool> {
    var header := Slice(packet, 20, 28);
    var computed := IC.Checksum(PseudoHeader(header) + Drop(packet, 28));
    if |header| != 8 then Failure(StructError)
    else if Signed8(header[0]) !in {0, 3, 11} then Failure(ValueError)
    else if NativeShort(header[2], header[3]) != Htons(computed) then Failure(ValueError)
    else Success(true)
  }

  /** parse_reply, building the pseudo-header by append and extend. */
  method ParseReply(packet: seq<byte>) returns (r: Result<bool>)
    ensures r == ReplySpec(packet)
  {
    var icmpData := Drop(packet, 28);
    var icmpHeader := Slice(packet, 20, 28);
    var pseudoHeader: seq<byte> := [];
    pseudoHeader := pseudoHeader + [0];
    pseudoHeader := pseudoHeader + [0];
    pseudoHeader := pseudoHeader + Slice(icmpHeader, 0, 2);
    pseudoHeader := pseudoHeader + Drop(icmpHeader, 4);
    assert pseudoHeader == PseudoHeader(icmpHeader);
    var checkSumComptd := Checksum(pseudoHeader + icmpData);
    if |icmpHeader| != 8 {
      return Failure(StructError);
    }
    var icmpMsgType := Signed8(icmpHeader[0]);
    var checkSumRcvd := NativeShort(icmpHeader[2], icmpHeader[3]);
    if icmpMsgType !in {0, 3, 11} {
      return Failure(ValueError);
    }
    if checkSumRcvd != Htons(checkSumComptd) {
      return Failure(ValueError);
    }
    r := Success(true);
  }

  /** What parse_reply accepts: a reply of at least 28 bytes whose ICMP type is 0, 3 or 11
      and whose checksum field, read in host order, is the one's complement of the folded
      sum of the ICMP message taken with that field zeroed. Anything else raises. */
  lemma ReplyAccepted(packet: seq<byte>)
    ensures ReplySpec(packet).Success? ==> ReplySpec(packet).value
    ensures ReplySpec(packet).Success? <==>
      |packet| >= 28 && packet[20] in {0, 3, 11} &&
      NativeShort(packet[22], packet[23]) ==
        0xFFFF - IC.Fold(IC.RawSum(packet[20..22] + [0, 0] + packet[24..])) % 65536
    ensures ReplySpec(packet).Failure? ==>
      ReplySpec(packet).error == (if |packet| < 28 then StructError else ValueError)
  {
    if |packet| >= 28 {
      var header := packet[20..28];
      var pseudo := PseudoHeader(header) + packet[28..];
      var zeroed := packet[20..22] + [0, 0] + packet[24..];
      assert pseudo[4..] == zeroed[4..] by {
        assert pseudo == [0, 0, packet[20], packet[21]] + packet[24..];
      }
      IC.ChecksumSwapFirstWords(pseudo, zeroed);
      var c := IC.Complement16(IC.Fold(IC.RawSum(zeroed)));
      IC.ComplementValue(IC.Fold(IC.RawSum(zeroed)));
      IC.SwapTwice(c);
      assert Signed8(packet[20]) in {0, 3, 11} <==> packet[20] in {0, 3, 11};
    }
  }
}
