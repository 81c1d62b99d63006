/** The integer/byte helpers that project3/resolver.py, project2/resolver.py and
    03-DNS-server/project3/nameserver.py each carry in identical copies:
    val_to_n_bytes (val_to_bytes in the name server), bytes_to_val and get_2_bits. */
module ByteCodec {
  import opened Bits
  import opened Outcomes

  /** One element of a Python `bytes`/`bytearray`. */
  type byte = x: int | 0 <= x < 256

  predicate IsBytes(s: seq<nat>) {
    forall i :: 0 <= i < |s| ==> s[i] < 256
  }

  function Pow256(n: nat): (r: nat)
    ensures r >= 1
  {
    if n == 0 then 1 else 256 * Pow256(n - 1)
  }

  /** Value of a digit sequence in base 256, most significant first. */
  function BigEndian(s: seq<nat>): nat {
    if s == [] then 0 else BigEndian(s[..|s| - 1]) * 256 + s[|s| - 1]
  }

  /** The n least significant base-256 digits of v, most significant first. */
  function ToBytes(v: nat, n: nat): (r: seq<nat>)
    ensures |r| == n
  {
    if n == 0 then [] else ToBytes(v / 256, n - 1) + [v % 256]
  }

  lemma {:induction false} ToBytesAreBytes(v: nat, n: nat)
    ensures IsBytes(ToBytes(v, n))
  {
    if n > 0 {
      ToBytesAreBytes(v / 256, n - 1);
    }
  }

  // ---------------------------------------------------------------- arithmetic helpers

  lemma MulAtLeast(d: nat, k: nat)
    requires k >= 1
    ensures d * k >= d
  {
    assert d * k == d + d * (k - 1);
  }

  lemma Distrib(a: int, b: int, c: int)
    ensures a * (b + c) == a * b + a * c
  {
  }

  lemma DivModUnique(v: nat, d: nat, q: int, r: int)
    requires d > 0 && v == d * q + r && 0 <= r < d
    ensures v / d == q && v % d == r
  {
    var q', r' := v / d, v % d;
    assert v == d * q' + r';
    if q' < q {
      assert d * q == d * q' + d * (q - q');
      MulAtLeast(d, q - q');
    } else if q' > q {
      assert d * q' == d * q + d * (q' - q);
      MulAtLeast(d, q' - q);
    }
  }

  /** Writing v in base a and the quotient in base b is writing v in base a * b. */
  lemma Nested(v: nat, a: nat, b: nat)
    requires a > 0 && b > 0
    ensures v == (a * b) * (v / a / b) + (a * (v / a % b) + v % a)
    ensures 0 <= a * (v / a % b) + v % a < a * b
  {
    var q, r := v / a, v % a;
    var q2, r2 := q / b, q % b;
    assert v == a * q + r;
    assert q == b * q2 + r2;
    var ab := a * b;
    assert v == ab * q2 + (a * r2 + r) by {
      Distrib(a, b * q2, r2);
      assert a * (b * q2) == ab * q2;
    }
    assert a * r2 + r < ab by {
      Distrib(a, r2, b - r2);
      MulAtLeast(a, b - r2);
    }
  }

  lemma DivDiv(v: nat, a: nat, b: nat)
    requires a > 0 && b > 0
    ensures v / a / b == v / (a * b)
  {
    Nested(v, a, b);
    DivModUnique(v, a * b, v / a / b, a * (v / a % b) + v % a);
  }

  lemma ModSplit(v: nat, m: nat)
    requires m > 0
    ensures v % (256 * m) == (v / 256) % m * 256 + v % 256
  {
    Nested(v, 256, m);
    DivModUnique(v, 256 * m, v / 256 / m, 256 * (v / 256 % m) + v % 256);
  }

  // ---------------------------------------------------------------- big-endian encoding

  lemma {:induction false} BigEndianBound(s: seq<nat>)
    requires IsBytes(s)
    ensures BigEndian(s) < Pow256(|s|)
  {
    if s != [] {
      var init := s[..|s| - 1];
      BigEndianBound(init);
      assert BigEndian(init) + 1 <= Pow256(|init|);
      assert (BigEndian(init) + 1) * 256 <= Pow256(|init|) * 256;
    }
  }

  /** Decoding then re-encoding a byte string gives it back. */
  lemma {:induction false} ToBytesOfBigEndian(s: seq<nat>)
    requires IsBytes(s)
    ensures ToBytes(BigEndian(s), |s|) == s
  {
    if s != [] {
      var init := s[..|s| - 1];
      ToBytesOfBigEndian(init);
      var v := BigEndian(s);
      assert v / 256 == BigEndian(init) && v % 256 == s[|s| - 1];
      assert s == init + [s[|s| - 1]];
    }
  }

  /** Encoding v on n bytes keeps exactly v mod 256^n. */
  lemma {:induction false} BigEndianOfToBytes(v: nat, n: nat)
    ensures IsBytes(ToBytes(v, n))
    ensures BigEndian(ToBytes(v, n)) == v % Pow256(n)
  {
    if n > 0 {
      BigEndianOfToBytes(v / 256, n - 1);
      var r := ToBytes(v, n);
      assert r[..n - 1] == ToBytes(v / 256, n - 1);
      ModSplit(v, Pow256(n - 1));
    }
  }

  lemma {:induction false} BigEndianCons(s: seq<nat>)
    requires |s| >= 1
    ensures BigEndian(s) == s[0] * Pow256(|s| - 1) + BigEndian(s[1..])
  {
    if |s| > 1 {
      var init := s[..|s| - 1];
      BigEndianCons(init);
      var x, p, y, z := s[0], Pow256(|s| - 2), BigEndian(init[1..]), s[|s| - 1];
      assert init[1..] == s[1..][..|s| - 2];
      assert BigEndian(s[1..]) == y * 256 + z;
      assert BigEndian(s) == (x * p + y) * 256 + z;
      ShiftSum(x, p, y);
      assert Pow256(|s| - 1) == 256 * p;
    }
  }

  lemma BigEndianSingle(x: nat)
    ensures BigEndian([x]) == x
  {
    assert [x][..0] == [];
  }

  lemma BigEndianPair(x: nat, y: nat)
    ensures BigEndian([x, y]) == x * 256 + y
  {
    assert [x, y][..1] == [x];
    BigEndianSingle(x);
  }

  /** Pushing the next lower byte in front of the bytes already produced. */
  lemma {:induction false} ToBytesFront(v: nat, i: nat)
    ensures ToBytes(v, i + 1) == [v / Pow256(i) % 256] + ToBytes(v, i)
  {
    if i > 0 {
      ToBytesFront(v / 256, i - 1);
      DivDiv(v, 256, Pow256(i - 1));
    }
  }

  /** val_to_n_bytes / val_to_bytes: split `value` into `nBytes` bytes, most significant first. */
  method ValToNBytes(value: nat, nBytes: nat) returns (r: seq<nat>)
    ensures r == ToBytes(value, nBytes)
    ensures IsBytes(r) && BigEndian(r) == value % Pow256(nBytes)
  {
    r := [];
    var v := value;
    for i := 0 to nBytes
      invariant r == ToBytes(value, i)
      invariant v == value / Pow256(i)
    {
      var low := v % 256;        // value & 0xFF
      ToBytesFront(value, i);
      DivDiv(value, Pow256(i), 256);
      v := v / 256;              // value >>= 8
      r := [low] + r;            // insert(0, result)
    }
    BigEndianOfToBytes(value, nBytes);
  }

  // ---------------------------------------------------------------- bytes_to_val

  /** One round of bytes_to_val: each neighbouring pair merged as `x << 8 | y`. */
  function Pairwise(s: seq<nat>): (r: seq<nat>)
    requires |s| >= 1
    ensures |r| == |s| - 1
  {
    seq(|s| - 1, n requires 0 <= n < |s| - 1 => Or(s[n] * 256, s[n + 1]))
  }

  /** Rounds of `Pairwise` until one number is left. */
  function Merge(s: seq<nat>): nat
    requires |s| >= 1
    decreases |s|
  {
    if |s| == 1 then s[0] else Merge(Pairwise(s))
  }

  /** The big-endian values of every run of k + 1 consecutive bytes of s, in order. */
  function Windows(s: seq<nat>, k: nat): (r: seq<nat>)
    requires k < |s|
    ensures |r| == |s| - k
  {
    if k + 1 == |s| then [BigEndian(s)] else [BigEndian(s[..k + 1])] + Windows(s[1..], k)
  }

  lemma {:induction false} WindowsAt(s: seq<nat>, k: nat, n: nat)
    requires n + k < |s|
    ensures Windows(s, k)[n] == BigEndian(s[n..n + k + 1])
  {
    if k + 1 == |s| {
      assert s[0..k + 1] == s;
    } else {
      assert Windows(s, k) == [BigEndian(s[..k + 1])] + Windows(s[1..], k);
      if n > 0 {
        WindowsAt(s[1..], k, n - 1);
        assert s[1..][n - 1..n + k] == s[n..n + k + 1];
      } else {
        assert s[0..k + 1] == s[..k + 1];
      }
    }
  }

  lemma Pow256IsPow2(n: nat)
    ensures Pow256(n) == Pow2(8 * n)
  {
    if n > 0 {
      Pow256IsPow2(n - 1);
      Pow2Add(8 * (n - 1), 8);
      assert Pow2(8) == 256;
    }
  }

  lemma ShiftSum(a: nat, q: nat, b: nat)
    ensures (a * q + b) * 256 == a * (256 * q) + b * 256
  {
  }

  /** The window without its last byte, shifted one byte up. */
  lemma WindowHead(t: seq<nat>)
    requires |t| >= 2
    ensures BigEndian(t[..|t| - 1]) * 256 == t[0] * Pow256(|t| - 1) + BigEndian(t[1..|t| - 1]) * 256
  {
    var m := |t|;
    BigEndianCons(t[..m - 1]);
    assert t[..m - 1][1..] == t[1..m - 1];
    ShiftSum(t[0], Pow256(m - 2), BigEndian(t[1..m - 1]));
  }

  /** The window without its first byte. */
  lemma WindowTail(t: seq<nat>)
    requires |t| >= 2
    ensures BigEndian(t[1..]) == BigEndian(t[1..|t| - 1]) * 256 + t[|t| - 1]
  {
    assert t[1..][..|t| - 2] == t[1..|t| - 1];
  }

  /** The arithmetic behind `OrWindow`: the two windows share their middle bytes. */
  lemma OrWindowArith(a: nat, mid: nat, c: nat, k: nat)
    requires c < 256 && mid * 256 + c < Pow2(k)
    ensures Or(a * Pow2(k) + mid * 256, mid * 256 + c) == a * Pow2(k) + (mid * 256 + c)
  {
    OrSplit(a, mid * 256, 0, mid * 256 + c, k);
    assert 0 * Pow2(k) + (mid * 256 + c) == mid * 256 + c;
    assert Pow2(8) == 256;
    OrSplit(mid, 0, mid, c, 8);
    OrSelf(mid);
  }

  /** Merging two overlapping windows gives the window that spans both. */
  lemma OrWindow(t: seq<nat>)
    requires |t| >= 2 && IsBytes(t)
    ensures Or(BigEndian(t[..|t| - 1]) * 256, BigEndian(t[1..])) == BigEndian(t)
  {
    var m := |t|;
    WindowHead(t);
    WindowTail(t);
    BigEndianCons(t);
    BigEndianBound(t[1..]);
    Pow256IsPow2(m - 1);
    OrWindowArith(t[0], BigEndian(t[1..m - 1]), t[m - 1], 8 * (m - 1));
  }

  lemma PairwiseWindows(s: seq<nat>, k: nat)
    requires k + 1 < |s| && IsBytes(s)
    ensures Pairwise(Windows(s, k)) == Windows(s, k + 1)
  {
    var w := Windows(s, k);
    forall n | 0 <= n < |s| - k - 1
      ensures Pairwise(w)[n] == Windows(s, k + 1)[n]
    {
      var t := s[n..n + k + 2];
      WindowsAt(s, k, n);
      WindowsAt(s, k, n + 1);
      WindowsAt(s, k + 1, n);
      assert t[..|t| - 1] == s[n..n + k + 1];
      assert t[1..] == s[n + 1..n + k + 2];
      OrWindow(t);
    }
  }

  lemma {:induction false} MergeWindows(s: seq<nat>, k: nat)
    requires k < |s| && IsBytes(s)
    ensures Merge(Windows(s, k)) == BigEndian(s)
    decreases |s| - k
  {
    if k + 1 < |s| {
      PairwiseWindows(s, k);
      MergeWindows(s, k + 1);
    } else {
      WindowsAt(s, k, 0);
      assert s[0..k + 1] == s;
    }
  }

  /** bytes_to_val on a list of bytes is their big-endian value. */
  lemma WindowsZero(s: seq<nat>)
    requires |s| >= 1
    ensures Windows(s, 0) == s
  {
    forall n | 0 <= n < |s|
      ensures Windows(s, 0)[n] == s[n]
    {
      WindowsAt(s, 0, n);
      assert s[n..n + 1] == [s[n]];
      BigEndianSingle(s[n]);
    }
  }

  lemma MergeOfBytes(s: seq<nat>)
    requires |s| >= 1 && IsBytes(s)
    ensures Merge(s) == BigEndian(s)
  {
    WindowsZero(s);
    MergeWindows(s, 0);
  }

  /** bytes_to_val: merge neighbouring numbers pairwise, round after round, until one is left. */
  method BytesToVal(lst: seq<nat>) returns (v: nat)
    requires |lst| >= 1
    ensures v == Merge(lst)
    ensures IsBytes(lst) ==> v == BigEndian(lst)
  {
    var result := lst;
    while |result| > 1
      invariant |result| >= 1
      invariant Merge(result) == Merge(lst)
    {
      var temp := [];
      for n := 0 to |result| - 1
        invariant temp == Pairwise(result)[..n]
      {
        temp := temp + [Or(result[n] * 256, result[n + 1])];   // result[n] << 8 | result[n+1]
      }
      assert temp == Pairwise(result);
      result := temp;
    }
    v := result[0];
    if IsBytes(lst) {
      MergeOfBytes(lst);
    }
  }

  /** bytes_to_val inverts val_to_n_bytes for every value that fits in n bytes. */
  lemma MergeOfToBytes(v: nat, n: nat)
    requires n >= 1 && v < Pow256(n)
    ensures Merge(ToBytes(v, n)) == v
  {
    BigEndianOfToBytes(v, n);
    DivModUnique(v, Pow256(n), 0, v);
    MergeOfBytes(ToBytes(v, n));
  }

  // ---------------------------------------------------------------- get_2_bits

  /** Number of binary digits Python's bin(n) prints after "0b" (1 for zero). */
  function BitLength(n: nat): (r: nat)
    ensures r >= 1
  {
    if n < 2 then 1 else 1 + BitLength(n / 2)
  }

  lemma {:induction false} TopBit(n: nat)
    ensures n / Pow2(BitLength(n) - 1) == (if n == 0 then 0 else 1)
  {
    if n >= 2 {
      TopBit(n / 2);
      DivDiv(n, 2, Pow2(BitLength(n / 2) - 1));
    }
  }

  /** get_2_bits: each number shifted right by len(bin(num)) - 3, then `r0 << 1 | r1`.
      Each of the first two numbers contributes its own highest set bit, not the top two
      bits of a 16-bit word. */
  method Get2Bits(lst: seq<nat>) returns (r: nat)
    requires |lst| >= 2
    ensures r == 2 * (if lst[0] == 0 then 0 else 1) + (if lst[1] == 0 then 0 else 1)
  {
    var result: seq<nat> := [];
    for i := 0 to |lst|
      invariant |result| == i
      invariant forall j :: 0 <= j < i ==> result[j] == if lst[j] == 0 then 0 else 1
    {
      var shifter := BitLength(lst[i]) - 1;
      TopBit(lst[i]);
      result := result + [lst[i] / Pow2(shifter)];
    }
    assert Pow2(1) == 2;
    OrDisjoint(result[0], result[1], 1);
    r := Or(result[0] * 2, result[1]);
  }

  // ---------------------------------------------------------------- bytearray.append

  /** `for x in xs: buf.append(x)` on a bytearray: the values are appended in order, and the
      first one above 255 raises ValueError. */
  method AppendAll(buf: seq<byte>, xs: seq<nat>) returns (r: Result<seq<byte>>)
    ensures IsBytes(xs) <==> r.Success?
    ensures r.Success? ==> r.value == buf + xs
    ensures r.Failure? ==> r.error == ValueError
  {
    var out := buf;
    for i := 0 to |xs|
      invariant IsBytes(xs[..i]) && out == buf + xs[..i]
    {
      if xs[i] >= 256 {
        return Failure(ValueError);
      }
      out := out + [xs[i]];
      assert xs[..i + 1] == xs[..i] + [xs[i]];
    }
    assert xs[..|xs|] == xs;
    r := Success(out);
  }
}
