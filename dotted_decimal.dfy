/** Dotted-decimal text and the bytes it stands for, as every program here writes and reads
    it: `".".join(str(b) for b in bytes)` one way, `bytearray.append(int(part))` for each
    part of `text.split(".")` the other. */
module DottedDecimal {
  import opened Outcomes
  import opened ByteCodec
  import opened Text

  /** `str(b)` of each number. */
  function DecimalParts(b: seq<nat>): (r: seq<string>)
    ensures |r| == |b| && forall i :: 0 <= i < |b| ==> r[i] == Decimal(b[i])
  {
    if |b| == 0 then [] else [Decimal(b[0])] + DecimalParts(b[1..])
  }

  lemma DecimalPartsCons(b: seq<nat>)
    requires |b| > 0
    ensures DecimalParts(b) == [Decimal(b[0])] + DecimalParts(b[1..])
    ensures DecimalParts(b)[0] == Decimal(b[0]) && DecimalParts(b)[1..] == DecimalParts(b[1..])
  {
  }

  lemma DecimalPartsNoDot(b: seq<nat>)
    ensures NoSeparator(DecimalParts(b), '.')
  {
    forall i | 0 <= i < |b|
      ensures '.' !in DecimalParts(b)[i]
    {
      var d := Decimal(b[i]);
      assert forall k :: 0 <= k < |d| ==> d[k] != '.';
    }
  }

  /** `bytearray.append(int(part))` for one part of a dotted address: a part that is not a
      decimal number, or one of 256 or more, raises ValueError. */
  function OctetByte(part: string): Result<byte> {
    var v :- ParseDecimal(part);
    if v < 256 then Success(v as byte) else Failure(ValueError)
  }

  /** The bytes of the parts of a dotted address, in order; the first bad part decides. */
  function DottedBytes(parts: seq<string>): Result<seq<byte>> {
    if |parts| == 0 then Success([])
    else
      var b :- OctetByte(parts[0]);
      Prepend([b], DottedBytes(parts[1..]))
  }

  /** `for n in parts: buf.append(int(n))` on a bytearray. */
  method AppendDotted(buf: seq<byte>, parts: seq<string>) returns (r: Result<seq<byte>>)
    ensures r == Prepend(buf, DottedBytes(parts))
  {
    var out := buf;
    for i := 0 to |parts|
      invariant Prepend(buf, DottedBytes(parts)) == Prepend(out, DottedBytes(parts[i..]))
    {
      assert parts[i..][1..] == parts[i + 1..];
      var v := ParseDecimal(parts[i]);
      if v.Failure? || v.value >= 256 {
        return Failure(ValueError);
      }
      PrependTwice(out, [v.value as byte], DottedBytes(parts[i + 1..]));
      out := out + [v.value as byte];
    }
    PrependOntoEmpty(out);
    r := Success(out);
  }

  /** The decimal spellings of bytes append back as those bytes. */
  lemma {:induction false} DottedOfDecimals(b: seq<byte>)
    ensures DottedBytes(DecimalParts(b)) == Success(b)
  {
    if |b| > 0 {
      ParseDecimalOfDecimal(b[0]);
      DecimalPartsCons(b);
      DottedOfDecimals(b[1..]);
      assert b == [b[0]] + b[1..];
    }
  }

  /** Writing bytes as dotted decimal and appending the parts back gives the bytes. */
  lemma DottedRoundTrip(b: seq<byte>)
    requires |b| >= 1
    ensures DottedBytes(Split(Join(".", DecimalParts(b)), '.')) == Success(b)
  {
    DecimalPartsNoDot(b);
    SplitJoin(DecimalParts(b), '.');
    DottedOfDecimals(b);
  }
}
