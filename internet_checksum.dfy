/** The Internet checksum (RFC 1071) as traceroute.py and pinger.py compute it: 16-bit
    words read little-endian (`pkt[i+1] * 256 + pkt[i]`), summed modulo 2^32, an odd last
    byte added on its own, the carries folded twice, the result complemented, cut to 16
    bits and its two bytes swapped. */
module InternetChecksum {
  import opened Bits
  import opened ByteCodec

  const Mod32: nat := 0x1_0000_0000

  /** The little-endian word at byte i. */
  function Word(pkt: seq<byte>, i: nat): nat
    requires i + 1 < |pkt|
  {
    pkt[i + 1] as int * 256 + pkt[i]
  }

  /** `csum` after the first k words: each addition is cut to 32 bits (`& 0xFFFFFFFF`). */
  function WordSum(pkt: seq<byte>, k: nat): (r: nat)
    requires 2 * k <= |pkt|
    ensures r < Mod32
  {
    if k == 0 then 0 else (WordSum(pkt, k - 1) + Word(pkt, 2 * (k - 1))) % Mod32
  }

  /** `csum` before folding: all whole words, then an odd last byte on its own. */
  function RawSum(pkt: seq<byte>): nat {
    var s := WordSum(pkt, |pkt| / 2);
    if |pkt| % 2 == 1 then (s + pkt[|pkt| - 1]) % Mod32 else s
  }

  /** `csum = (csum >> 16) + (csum & 0xFFFF)`, then `csum = csum + (csum >> 16)`. */
  function Fold(csum: nat): nat {
    var c := csum / 65536 + csum % 65536;
    c + c / 65536
  }

  /** `~c & 0xFFFF`: Python's `~c` is `-c - 1`, and masking with 0xFFFF keeps its value
      modulo 2^16. */
  function Complement16(c: nat): nat {
    (-(c as int) - 1) % 65536
  }

  /** `r >> 8 | (r << 8 & 0xFF00)`. The low eight bits of `r << 8` are zero, so masking
      it with 0xFF00 keeps it modulo 2^16. */
  function SwapBytes(r: nat): nat {
    Or(r / 256, (r * 256) % 65536)
  }

  function Checksum(pkt: seq<byte>): (r: nat)
    ensures r <= 0xFFFF
  {
    var c := Complement16(Fold(RawSum(pkt)));
    SwapBytesValue(c);
    SwapBytes(c)
  }

  // ---------------------------------------------------------------- arithmetic of the steps

  /** Swapping exchanges the two bytes of a 16-bit value. */
  lemma SwapBytesValue(r: nat)
    requires r < 65536
    ensures SwapBytes(r) == (r % 256) * 256 + r / 256 && SwapBytes(r) < 65536
  {
    assert (r * 256) % 65536 == (r % 256) * 256 by {
      DivModUnique(r * 256, 65536, r / 256, (r % 256) * 256);
    }
    assert Pow2(8) == 256;
    OrComm(r / 256, (r % 256) * 256);
    OrDisjoint(r % 256, r / 256, 8);
  }

  /** Swapping twice gives the value back. */
  lemma SwapTwice(r: nat)
    requires r < 65536
    ensures SwapBytes(SwapBytes(r)) == r
  {
    SwapBytesValue(r);
    var s := (r % 256) * 256 + r / 256;
    SwapBytesValue(s);
    DivModUnique(s, 256, r % 256, r / 256);
  }

  /** Python's `~c & 0xFFFF` is the 16-bit one's complement of c. */
  lemma ComplementValue(c: nat)
    ensures Complement16(c) == 0xFFFF - c % 65536
  {
    var q := c / 65536;
    DivModUnique(c, 65536, q, c % 65536);
    var m := 0xFFFF - c % 65536;
    assert -(c as int) - 1 == 65536 * (-q - 1) + m;
  }

  /** Folding is the end-around carry of RFC 1071: the 16 low bits of the folded sum are
      congruent to the 32-bit sum modulo 0xFFFF. */
  lemma FoldIsEndAroundCarry(csum: nat)
    requires csum < Mod32
    ensures Fold(csum) % 65536 % 65535 == csum % 65535
  {
    var h := csum / 65536;
    var l := csum % 65536;
    var c := h + l;
    assert csum == 65535 * h + c;
    ModShift(c, h);
    if c >= 65536 {
      assert c < 2 * 65536;
      assert c / 65536 == 1;
      DivModUnique(c + 1, 65536, 1, c + 1 - 65536);
      ModShift(c + 1 - 65536, 1);
    } else {
      assert c / 65536 == 0;
      DivModUnique(c, 65536, 0, c);
    }
  }

  lemma ModShift(c: nat, h: nat)
    ensures (65535 * h + c) % 65535 == c % 65535
  {
    DivModUnique(65535 * h + c, 65535, h + c / 65535, c % 65535);
  }

  // ---------------------------------------------------------------- zero padding

  lemma {:induction false} WordSumPrefix(pkt: seq<byte>, ext: seq<byte>, k: nat)
    requires 2 * k <= |pkt|
    ensures WordSum(pkt + ext, k) == WordSum(pkt, k)
  {
    if k > 0 {
      WordSumPrefix(pkt, ext, k - 1);
      assert Word(pkt + ext, 2 * (k - 1)) == Word(pkt, 2 * (k - 1));
    }
  }

  /** The sum before folding is the same with a zero byte appended. */
  lemma RawSumZeroPad(pkt: seq<byte>)
    ensures RawSum(pkt + [0]) == RawSum(pkt)
  {
    var n := |pkt| / 2;
    var p := pkt + [0];
    WordSumPrefix(pkt, [0], n);
    if |pkt| % 2 == 1 {
      assert |p| / 2 == n + 1 && |p| % 2 == 0;
      assert Word(p, 2 * n) == pkt[|pkt| - 1];
    } else {
      assert |p| / 2 == n && |p| % 2 == 1;
      assert p[|p| - 1] == 0;
      DivModUnique(WordSum(pkt, n), Mod32, 0, WordSum(pkt, n));
    }
  }

  /** A zero byte appended to any packet leaves its checksum unchanged: an odd last byte
      counts as the low byte of a word whose high byte is zero, which is how RFC 1071 pads. */
  lemma ChecksumZeroPad(pkt: seq<byte>)
    ensures Checksum(pkt + [0]) == Checksum(pkt)
  {
    RawSumZeroPad(pkt);
  }

  // ---------------------------------------------------------------- reordering words

  /** The whole words of a packet. */
  function Words(pkt: seq<byte>): (r: seq<nat>)
    ensures |r| == |pkt| / 2
  {
    seq(|pkt| / 2, i requires 0 <= i < |pkt| / 2 => Word(pkt, 2 * i))
  }

  function Sum(s: seq<nat>): nat {
    if |s| == 0 then 0 else Sum(s[..|s| - 1]) + s[|s| - 1]
  }

  lemma ModAdd(a: nat, b: nat)
    ensures (a % Mod32 + b) % Mod32 == (a + b) % Mod32
  {
    DivModUnique(a + b, Mod32, a / Mod32 + (a % Mod32 + b) / Mod32, (a % Mod32 + b) % Mod32);
  }

  /** The loop's running sum is the plain sum of the words, cut to 32 bits once. */
  lemma {:induction false} WordSumIsSum(pkt: seq<byte>, k: nat)
    requires 2 * k <= |pkt|
    ensures WordSum(pkt, k) == Sum(Words(pkt)[..k]) % Mod32
  {
    if k > 0 {
      WordSumIsSum(pkt, k - 1);
      var w := Words(pkt);
      assert w[..k][..k - 1] == w[..k - 1];
      ModAdd(Sum(w[..k - 1]), w[k - 1]);
    }
  }

  lemma {:induction false} SumConcat(a: seq<nat>, b: seq<nat>)
    ensures Sum(a + b) == Sum(a) + Sum(b)
    decreases |b|
  {
    if |b| > 0 {
      SumConcat(a, b[..|b| - 1]);
      assert (a + b)[..|a + b| - 1] == a + b[..|b| - 1];
    } else {
      assert a + b == a;
    }
  }

  lemma SumRemove(s: seq<nat>, j: nat)
    requires j < |s|
    ensures Sum(s) == Sum(s[..j] + s[j + 1..]) + s[j]
  {
    var a, x, b := s[..j], s[j], s[j + 1..];
    assert s == (a + [x]) + b;
    SumConcat(a + [x], b);
    assert (a + [x])[..|a|] == a;
    assert Sum(a + [x]) == Sum(a) + x;
    SumConcat(a, b);
  }

  /** The sum of a list does not depend on the order of its elements. */
  lemma {:induction false} SumPermutation(a: seq<nat>, b: seq<nat>)
    requires multiset(a) == multiset(b)
    ensures Sum(a) == Sum(b)
    decreases |a|
  {
    if |a| > 0 {
      var x := a[|a| - 1];
      assert x in multiset(b);
      var j :| 0 <= j < |b| && b[j] == x;
      var rest := b[..j] + b[j + 1..];
      assert b == b[..j] + [x] + b[j + 1..];
      assert a == a[..|a| - 1] + [x];
      assert multiset(b) == multiset(b[..j]) + multiset{x} + multiset(b[j + 1..]);
      assert multiset(rest) == multiset(b[..j]) + multiset(b[j + 1..]);
      assert multiset(a) == multiset(a[..|a| - 1]) + multiset{x};
      assert multiset(a[..|a| - 1]) == multiset(a) - multiset{x};
      assert multiset(rest) == multiset(b) - multiset{x};
      SumPermutation(a[..|a| - 1], rest);
      SumRemove(b, j);
    } else {
      assert |b| == 0;
    }
  }

  /** Two packets made of the same whole 16-bit words, in any order, and ending in the same
      odd byte if any, have the same checksum. */
  lemma ChecksumWordOrder(p: seq<byte>, q: seq<byte>)
    requires |p| % 2 == |q| % 2 && multiset(Words(p)) == multiset(Words(q))
    requires |p| % 2 == 1 ==> p[|p| - 1] == q[|q| - 1]
    ensures Checksum(p) == Checksum(q)
  {
    WordSumIsSum(p, |p| / 2);
    WordSumIsSum(q, |q| / 2);
    assert Words(p)[..|p| / 2] == Words(p);
    assert Words(q)[..|q| / 2] == Words(q);
    SumPermutation(Words(p), Words(q));
  }

  lemma WordsPastFour(p: seq<byte>, q: seq<byte>)
    requires |p| == |q| >= 4 && p[4..] == q[4..]
    ensures Words(p)[2..] == Words(q)[2..]
  {
    var wp := Words(p);
    var wq := Words(q);
    forall i | 2 <= i < |wp|
      ensures wp[i] == wq[i]
    {
      assert p[2 * i] == p[4..][2 * i - 4] == q[2 * i];
      assert p[2 * i + 1] == p[4..][2 * i - 3] == q[2 * i + 1];
    }
  }

  lemma SwapFirstMultiset(wp: seq<nat>, wq: seq<nat>)
    requires |wp| == |wq| >= 2 && wp[0] == wq[1] && wp[1] == wq[0] && wp[2..] == wq[2..]
    ensures multiset(wp) == multiset(wq)
  {
    assert wp == [wp[0], wp[1]] + wp[2..];
    assert wq == [wq[0], wq[1]] + wq[2..];
  }

  /** Exchanging the first two words of a packet leaves its checksum unchanged. */
  lemma ChecksumSwapFirstWords(p: seq<byte>, q: seq<byte>)
    requires |p| == |q| >= 4
    requires p[0] == q[2] && p[1] == q[3] && p[2] == q[0] && p[3] == q[1] && p[4..] == q[4..]
    ensures Checksum(p) == Checksum(q)
  {
    WordsPastFour(p, q);
    SwapFirstMultiset(Words(p), Words(q));
    if |p| % 2 == 1 {
      assert p[|p| - 1] == p[4..][|p| - 5] == q[|q| - 1];
    }
    ChecksumWordOrder(p, q);
  }
}
