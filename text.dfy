/** The Python string and list operations the programs lean on: `sep.join`, `str.split`,
    `str(n)`, `int(s)`, `int(s, 16)`, `bytes.hex()` and clamped slicing. */
module Text {
  import opened Outcomes
  import opened ByteCodec

  // ---------------------------------------------------------------- slicing

  /** Python `s[i:j]` for non-negative bounds: both ends are clamped to the length. */
  function Slice<T>(s: seq<T>, i: nat, j: nat): (r: seq<T>)
    ensures |r| == (if j <= |s| then j else |s|) - (if i <= |s| then i else |s|) || (|r| == 0 && j < i)
    ensures i <= j <= |s| ==> r == s[i..j]
  {
    var lo := if i <= |s| then i else |s|;
    var hi := if j <= |s| then j else |s|;
    if hi <= lo then [] else s[lo..hi]
  }

  /** Python `s[i:]` for non-negative i. */
  function Drop<T>(s: seq<T>, i: nat): (r: seq<T>)
    ensures i <= |s| ==> r == s[i..]
    ensures i >= |s| ==> r == []
  {
    if i <= |s| then s[i..] else []
  }

  /** A slice of a slice is a slice of the original. */
  lemma SliceOfSlice<T>(s: seq<T>, a: nat, b: nat, c: nat, d: nat)
    requires a <= b <= |s| && c <= d <= b - a
    ensures s[a..b][c..d] == s[a + c..a + d]
  {
    var x, y := s[a..b][c..d], s[a + c..a + d];
    assert |x| == |y|;
    forall k | 0 <= k < |x|
      ensures x[k] == y[k]
    {
      assert x[k] == s[a..b][c + k] == s[a + c + k];
    }
  }

  // ---------------------------------------------------------------- join / split

  /** Python `sep.join(parts)`. */
  function Join(sep: string, parts: seq<string>): string {
    if |parts| == 0 then ""
    else if |parts| == 1 then parts[0]
    else parts[0] + sep + Join(sep, parts[1..])
  }

  /** Python `"".join(parts)`. */
  function Concat(parts: seq<string>): string {
    if |parts| == 0 then "" else parts[0] + Concat(parts[1..])
  }

  /** Python `s.split(c)` for a one-character separator: every occurrence of c cuts, so
      the result always has one more piece than s has separators. */
  function Split(s: string, c: char): (r: seq<string>)
    ensures |r| >= 1
  {
    if |s| == 0 then [""]
    else
      var rest := Split(s[1..], c);
      if s[0] == c then [""] + rest else [[s[0]] + rest[0]] + rest[1..]
  }

  predicate NoSeparator(parts: seq<string>, c: char) {
    forall i :: 0 <= i < |parts| ==> c !in parts[i]
  }

  lemma {:induction false} SplitPieces(s: string, c: char)
    ensures NoSeparator(Split(s, c), c)
  {
    if |s| > 0 {
      SplitPieces(s[1..], c);
    }
  }

  /** Joining the pieces of a split with the separator gives the string back. */
  lemma {:induction false} JoinSplit(s: string, c: char)
    ensures Join([c], Split(s, c)) == s
  {
    if |s| > 0 {
      var rest := Split(s[1..], c);
      JoinSplit(s[1..], c);
      if s[0] == c {
        assert Join([c], [""] + rest) == "" + [c] + Join([c], rest) by {
          assert ([""] + rest)[1..] == rest;
        }
        assert s == [s[0]] + s[1..];
      } else {
        var r := [[s[0]] + rest[0]] + rest[1..];
        if |rest| == 1 {
          assert Join([c], rest) == rest[0];
        } else {
          assert Join([c], rest) == rest[0] + [c] + Join([c], rest[1..]);
          assert r[1..] == rest[1..];
        }
        assert s == [s[0]] + s[1..];
      }
    }
  }

  /** Splitting a joined list of separator-free pieces gives the pieces back. */
  lemma {:induction false} SplitJoin(parts: seq<string>, c: char)
    requires |parts| >= 1 && NoSeparator(parts, c)
    ensures Split(Join([c], parts), c) == parts
    decreases |parts|
  {
    assert c !in parts[0];
    if |parts| == 1 {
      SplitNoSeparator(parts[0], c);
    } else {
      var tail := Join([c], parts[1..]);
      assert NoSeparator(parts[1..], c) by {
        forall i | 0 <= i < |parts| - 1 ensures c !in parts[1..][i] {
          assert parts[1..][i] == parts[i + 1];
        }
      }
      SplitJoin(parts[1..], c);
      SplitCons(parts[0], [c] + tail, c);
      assert parts[0] + [c] + tail == parts[0] + ([c] + tail);
      assert Split([c] + tail, c) == [""] + parts[1..] by {
        assert ([c] + tail)[1..] == tail;
      }
      assert parts[0] + "" == parts[0];
      assert [parts[0]] + parts[1..] == parts;
    }
  }

  lemma {:induction false} SplitNoSeparator(s: string, c: char)
    requires c !in s
    ensures Split(s, c) == [s]
  {
    if |s| > 0 {
      SplitNoSeparator(s[1..], c);
      assert s == [s[0]] + s[1..];
    }
  }

  /** A separator-free prefix glues onto the first piece of what follows. */
  lemma {:induction false} SplitCons(a: string, b: string, c: char)
    requires c !in a
    ensures Split(a + b, c) == [a + Split(b, c)[0]] + Split(b, c)[1..]
  {
    if |a| == 0 {
      var r := Split(b, c);
      assert a + b == b && a + r[0] == r[0];
      assert [r[0]] + r[1..] == r;
    } else {
      assert a[0] != c by {
        assert a[0] in a;
      }
      SplitCons(a[1..], b, c);
      assert (a + b)[1..] == a[1..] + b;
      assert (a + b)[0] == a[0];
      assert [a[0]] + (a[1..] + Split(b, c)[0]) == a + Split(b, c)[0];
    }
  }

  /** The first element of `s.split(c)`: everything before the first separator. */
  lemma {:induction false} SplitHead(s: string, c: char)
    ensures Split(s, c)[0] <= s
    ensures c !in Split(s, c)[0]
    ensures |Split(s, c)[0]| < |s| ==> s[|Split(s, c)[0]|] == c
  {
    if |s| > 0 {
      SplitHead(s[1..], c);
    }
  }

  lemma {:induction false} ConcatSnoc(parts: seq<string>, x: string)
    ensures Concat(parts + [x]) == Concat(parts) + x
  {
    if |parts| > 0 {
      assert (parts + [x])[1..] == parts[1..] + [x];
      ConcatSnoc(parts[1..], x);
    }
  }

  lemma {:induction false} JoinSnoc(sep: string, parts: seq<string>, x: string)
    requires |parts| >= 1
    ensures Join(sep, parts + [x]) == Join(sep, parts) + sep + x
  {
    if |parts| > 1 {
      assert (parts + [x])[1..] == parts[1..] + [x];
      JoinSnoc(sep, parts[1..], x);
    }
  }

  /** Each part followed by the separator: the text a loop appending `part` then `sep` builds. */
  function Terminated(sep: string, parts: seq<string>): string {
    if |parts| == 0 then "" else Terminated(sep, parts[..|parts| - 1]) + parts[|parts| - 1] + sep
  }

  /** Dropping the last separator of `Terminated` leaves `Join`. */
  lemma {:induction false} TerminatedJoin(sep: string, parts: seq<string>)
    requires |parts| >= 1
    ensures Terminated(sep, parts) == Join(sep, parts) + sep
  {
    var init := parts[..|parts| - 1];
    if |parts| > 1 {
      TerminatedJoin(sep, init);
      JoinSnoc(sep, init, parts[|parts| - 1]);
      assert init + [parts[|parts| - 1]] == parts;
    } else {
      assert Terminated(sep, init) == "";
    }
  }

  // ---------------------------------------------------------------- characters

  /** Python `chr` over a list of byte values. */
  function Chars(b: seq<byte>): (r: string)
    ensures |r| == |b|
  {
    if |b| == 0 then "" else [b[0] as char] + Chars(b[1..])
  }

  lemma {:induction false} CharsAt(b: seq<byte>)
    ensures forall i :: 0 <= i < |b| ==> Chars(b)[i] as int == b[i]
  {
    if |b| > 0 {
      CharsAt(b[1..]);
    }
  }

  /** Python `ord` over a string. */
  function Codes(s: string): (r: seq<nat>)
    ensures |r| == |s| && forall i :: 0 <= i < |s| ==> r[i] == s[i] as int
  {
    if |s| == 0 then [] else [s[0] as int] + Codes(s[1..])
  }

  lemma {:induction false} CharsSnoc(b: seq<byte>, x: byte)
    ensures Chars(b + [x]) == Chars(b) + [x as char]
  {
    if |b| > 0 {
      assert (b + [x])[1..] == b[1..] + [x];
      CharsSnoc(b[1..], x);
    } else {
      assert b + [x] == [x];
    }
  }

  lemma CharsOfCodes(s: string)
    requires forall i :: 0 <= i < |s| ==> s[i] as int < 256
    ensures Chars(Codes(s)) == s
  {
    var r := Chars(Codes(s));
    CharsAt(Codes(s));
    assert forall i :: 0 <= i < |s| ==> r[i] as int == s[i] as int;
  }

  // ---------------------------------------------------------------- decimal

  predicate IsDigit(ch: char) {
    '0' <= ch <= '9'
  }

  function DigitChar(d: nat): (ch: char)
    requires d < 10
    ensures IsDigit(ch) && ch as int - '0' as int == d
  {
    ('0' as int + d) as char
  }

  /** Python `str(n)` for a non-negative integer: decimal digits, no leading zeros. */
  function Decimal(n: nat): (r: string)
    ensures |r| >= 1 && forall i :: 0 <= i < |r| ==> IsDigit(r[i])
  {
    if n < 10 then [DigitChar(n)] else Decimal(n / 10) + [DigitChar(n % 10)]
  }

  function DigitValue(ch: char): (d: nat)
    requires IsDigit(ch)
    ensures d < 10
  {
    ch as int - '0' as int
  }

  /** The value of a string of decimal digits. */
  function DigitsValue(s: string): nat
    requires forall i :: 0 <= i < |s| ==> IsDigit(s[i])
  {
    if |s| == 0 then 0 else DigitsValue(s[..|s| - 1]) * 10 + DigitValue(s[|s| - 1])
  }

  /** Python `int(s)` on a plain string of ASCII digits; anything else raises ValueError. */
  function ParseDecimal(s: string): (r: Result<nat>)
    ensures r.Success? <==> |s| >= 1 && forall i :: 0 <= i < |s| ==> IsDigit(s[i])
  {
    if |s| >= 1 && forall i :: 0 <= i < |s| ==> IsDigit(s[i]) then Success(DigitsValue(s))
    else Failure(ValueError)
  }

  /** `int(str(n)) == n`. */
  lemma {:induction false} ParseDecimalOfDecimal(n: nat)
    ensures ParseDecimal(Decimal(n)) == Success(n)
  {
    DigitsOfDecimal(n);
  }

  lemma {:induction false} DigitsOfDecimal(n: nat)
    ensures DigitsValue(Decimal(n)) == n
  {
    if n >= 10 {
      DigitsOfDecimal(n / 10);
      var s := Decimal(n);
      assert s[..|s| - 1] == Decimal(n / 10);
    }
  }

  // ---------------------------------------------------------------- hexadecimal

  predicate IsHexDigit(ch: char) {
    '0' <= ch <= '9' || 'a' <= ch <= 'f' || 'A' <= ch <= 'F'
  }

  /** A digit's value; Python's int(_, 16) takes both cases. */
  function HexValue(ch: char): (d: nat)
    requires IsHexDigit(ch)
    ensures d < 16
  {
    if '0' <= ch <= '9' then ch as int - '0' as int
    else if 'a' <= ch <= 'f' then ch as int - 'a' as int + 10
    else ch as int - 'A' as int + 10
  }

  /** The lower-case digit `bytes.hex()` writes. */
  function HexChar(d: nat): (ch: char)
    requires d < 16
    ensures IsHexDigit(ch) && HexValue(ch) == d
    ensures ch == '0' <==> d == 0
  {
    if d < 10 then ('0' as int + d) as char else ('a' as int + d - 10) as char
  }

  function HexDigitsValue(s: string): nat
    requires forall i :: 0 <= i < |s| ==> IsHexDigit(s[i])
  {
    if |s| == 0 then 0 else HexDigitsValue(s[..|s| - 1]) * 16 + HexValue(s[|s| - 1])
  }

  /** Python `int("0x" + s, 16)`: at least one hexadecimal digit, else ValueError. */
  function ParseHex(s: string): (r: Result<nat>)
    ensures r.Success? <==> |s| >= 1 && forall i :: 0 <= i < |s| ==> IsHexDigit(s[i])
  {
    if |s| >= 1 && forall i :: 0 <= i < |s| ==> IsHexDigit(s[i]) then Success(HexDigitsValue(s))
    else Failure(ValueError)
  }

  /** Python `bytes.hex()`: two lower-case digits per byte. */
  function HexOf(b: seq<byte>): (r: string)
    ensures |r| == 2 * |b|
  {
    if |b| == 0 then "" else [HexChar(b[0] / 16), HexChar(b[0] % 16)] + HexOf(b[1..])
  }

  /** Each byte sits at two digits of `bytes.hex()`: its high nibble, then its low one. */
  lemma {:induction false} HexOfAt(b: seq<byte>, i: nat)
    requires i < |b|
    ensures HexOf(b)[2 * i] == HexChar(b[i] / 16) && HexOf(b)[2 * i + 1] == HexChar(b[i] % 16)
  {
    if i > 0 {
      HexOfAt(b[1..], i - 1);
    }
  }

  /** A leading '0' adds nothing to a hexadecimal value. */
  lemma {:induction false} HexLeadingZero(s: string)
    requires |s| >= 1 && s[0] == '0'
    requires forall i :: 0 <= i < |s| ==> IsHexDigit(s[i])
    ensures HexDigitsValue(s) == HexDigitsValue(s[1..])
    decreases |s|
  {
    if |s| > 1 {
      var init := s[..|s| - 1];
      HexLeadingZero(init);
      assert init[1..] == s[1..][..|s| - 2];
      assert s[1..][|s| - 2] == s[|s| - 1];
    }
  }
}
