/** project5/pinger.py: its checksum, the same loop as traceroute's. */
module Pinger {
  import opened Bits
  import opened ByteCodec
  import IC = InternetChecksum

  /** checksum: little-endian words summed modulo 2^32, an odd last byte on its own, two
      folds, the complement cut to 16 bits and the bytes swapped. */
  method Checksum(pkt: seq<byte>) returns (result: nat)
    ensures result == IC.Checksum(pkt) && result <= 0xFFFF
  {
    var csum: nat := 0;
    var count: nat := 0;
    var countTo := (|pkt| / 2) * 2;
    while count < countTo
      invariant count % 2 == 0 && count <= countTo
      invariant csum == IC.WordSum(pkt, count / 2)
    {
      var thisVal := pkt[count + 1] as int * 256 + pkt[count];
      csum := csum + thisVal;
      csum := csum % IC.Mod32;
      count := count + 2;
    }
    assert csum == IC.WordSum(pkt, |pkt| / 2);
    if countTo < |pkt| {
      csum := csum + pkt[|pkt| - 1];
      csum := csum % IC.Mod32;
    }
    ghost var raw := csum;
    assert raw == IC.RawSum(pkt);
    csum := csum / 65536 + csum % 65536;
    csum := csum + csum / 65536;
    assert csum == IC.Fold(raw);
    result := (-(csum as int) - 1) % 65536;
    assert result == IC.Complement16(IC.Fold(raw));
    result := Or(result / 256, (result * 256) % 65536);
  }
}
