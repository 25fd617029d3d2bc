/** The size meter of src/utils/size.ts: the UTF-8 byte length of a piece of
    generated code, and the bundle estimate (a fixed base plus the size of
    every enabled feature).

    A JavaScript string is modelled as a sequence of Unicode scalar values,
    and TextEncoder's output as the UTF-8 encoding of RFC 3629, section 3. */
module Size {

  import opened Types

  newtype byte = x: int | 0 <= x < 256

  /** The fixed overhead `measureBundleSize` starts from. */
  const BaseSize: nat := 512

  /** The number of octets RFC 3629 (section 3, the table of code point
      ranges) uses for one code point. */
  function CodePointLength(c: char): nat {
    var v := c as int;
    if v < 0x80 then 1 else if v < 0x800 then 2 else if v < 0x1_0000 then 3 else 4
  }

  /** The octets of one code point: a lead octet carrying the high bits and
      the sequence length, then continuation octets 10xxxxxx. */
  function EncodeChar(c: char): (bs: seq<byte>)
    ensures |bs| == CodePointLength(c)
    ensures LeadLength(bs[0]) == Some(|bs|)
    ensures forall i :: 1 <= i < |bs| ==> IsContinuation(bs[i])
  {
    var v := c as int;
    if v < 0x80 then
      [v as byte]
    else if v < 0x800 then
      [(0xC0 + v / 64) as byte, (0x80 + v % 64) as byte]
    else if v < 0x1_0000 then
      [(0xE0 + v / 4096) as byte, (0x80 + (v / 64) % 64) as byte, (0x80 + v % 64) as byte]
    else
      [(0xF0 + v / 0x4_0000) as byte, (0x80 + (v / 4096) % 64) as byte,
       (0x80 + (v / 64) % 64) as byte, (0x80 + v % 64) as byte]
  }

  /** The length of the sequence a lead octet announces, if it is one. */
  function LeadLength(b: byte): Option<nat> {
    if b < 0x80 then Some(1)
    else if 0xC0 <= b < 0xE0 then Some(2)
    else if 0xE0 <= b < 0xF0 then Some(3)
    else if 0xF0 <= b < 0xF8 then Some(4)
    else None
  }

  predicate IsContinuation(b: byte) {
    0x80 <= b < 0xC0
  }

  /** TextEncoder.encode: the code points' octets, in order. */
  function Utf8Encode(s: string): (bs: seq<byte>)
    ensures |s| <= |bs| <= 4 * |s|
    ensures IsAscii(s) ==> |bs| == |s|
  {
    if s == [] then [] else EncodeChar(s[0]) + Utf8Encode(s[1..])
  }

  predicate IsAscii(s: string) {
    forall i :: 0 <= i < |s| ==> s[i] as int < 0x80
  }

  /** The code point one encoded sequence stands for. */
  function DecodeChar(bs: seq<byte>): int
    requires 1 <= |bs| <= 4
  {
    var b := seq(|bs|, i requires 0 <= i < |bs| => bs[i] as int);
    if |bs| == 1 then b[0]
    else if |bs| == 2 then (b[0] - 0xC0) * 64 + (b[1] - 0x80)
    else if |bs| == 3 then (b[0] - 0xE0) * 4096 + (b[1] - 0x80) * 64 + (b[2] - 0x80)
    else (b[0] - 0xF0) * 0x4_0000 + (b[1] - 0x80) * 4096 + (b[2] - 0x80) * 64 + (b[3] - 0x80)
  }

  /** A reference decoder: reads one lead octet at a time and the number of
      octets it announces; stops at the first octet that is not a lead octet
      or at a sequence cut short. */
  function Utf8Decode(bs: seq<byte>): seq<int>
    decreases |bs|
  {
    if bs == [] then []
    else match LeadLength(bs[0])
      case None => []
      case Some(n) =>
        if n <= |bs| then [DecodeChar(bs[..n])] + Utf8Decode(bs[n..]) else []
  }

  function CodePoints(s: string): seq<int> {
    seq(|s|, i requires 0 <= i < |s| => s[i] as int)
  }

  /** measureFeatureSize: the length of the UTF-8 encoding. Every code point
      contributes one to four octets, and ASCII text measures its length. */
  function MeasureFeatureSize(code: string): (n: nat)
    ensures |code| <= n <= 4 * |code|
    ensures IsAscii(code) ==> n == |code|
  {
    |Utf8Encode(code)|
  }

  lemma DecodeEncodeChar(c: char)
    ensures DecodeChar(EncodeChar(c)) == c as int
  {
    var v := c as int;
    if v < 0x80 {
    } else if v < 0x800 {
      assert v == (v / 64) * 64 + v % 64;
    } else if v < 0x1_0000 {
      assert v / 64 == (v / 4096) * 64 + (v / 64) % 64;
      assert v == (v / 64) * 64 + v % 64;
    } else {
      assert v / 4096 == (v / 0x4_0000) * 64 + (v / 4096) % 64;
      assert v / 64 == (v / 4096) * 64 + (v / 64) % 64;
      assert v == (v / 64) * 64 + v % 64;
    }
  }

  /** Decoding undoes encoding: the encoder loses no information. */
  lemma {:induction false} DecodeEncode(s: string)
    ensures Utf8Decode(Utf8Encode(s)) == CodePoints(s)
  {
    if s == [] {
    } else {
      var head := EncodeChar(s[0]);
      var bs := Utf8Encode(s);
      assert bs == head + Utf8Encode(s[1..]);
      assert bs[..|head|] == head;
      assert bs[|head|..] == Utf8Encode(s[1..]);
      DecodeEncodeChar(s[0]);
      DecodeEncode(s[1..]);
      assert CodePoints(s) == [s[0] as int] + CodePoints(s[1..]);
    }
  }

  /** Measuring is additive: the size of a concatenation is the sum. */
  lemma {:induction false} MeasureConcat(a: string, b: string)
    ensures MeasureFeatureSize(a + b) == MeasureFeatureSize(a) + MeasureFeatureSize(b)
  {
    if a == [] {
      assert a + b == b;
    } else {
      assert (a + b)[1..] == a[1..] + b;
      MeasureConcat(a[1..], b);
    }
  }

  /** The sum of the measured sizes of the features' texts. */
  function TotalSize(texts: seq<string>): nat {
    if texts == [] then 0 else MeasureFeatureSize(texts[0]) + TotalSize(texts[1..])
  }

  lemma {:induction false} TotalSizeAppend(texts: seq<string>, t: string)
    ensures TotalSize(texts + [t]) == TotalSize(texts) + MeasureFeatureSize(t)
  {
    if texts == [] {
      assert texts + [t] == [t];
    } else {
      assert (texts + [t])[1..] == texts[1..] + [t];
      TotalSizeAppend(texts[1..], t);
    }
  }

  lemma {:induction false} TotalSizeRemove(texts: seq<string>, k: nat)
    requires k < |texts|
    ensures TotalSize(texts) == MeasureFeatureSize(texts[k]) + TotalSize(texts[..k] + texts[k + 1..])
  {
    if k > 0 {
      assert (texts[..k] + texts[k + 1..])[0] == texts[0];
      assert (texts[..k] + texts[k + 1..])[1..] == texts[1..][..k - 1] + texts[1..][k..];
      TotalSizeRemove(texts[1..], k - 1);
    } else {
      assert texts[..k] + texts[k + 1..] == texts[1..];
    }
  }

  /** The bundle estimate does not depend on the order in which the map of
      features is iterated. */
  lemma {:induction false} TotalSizePermutation(a: seq<string>, b: seq<string>)
    requires multiset(a) == multiset(b)
    ensures TotalSize(a) == TotalSize(b)
  {
    if a != [] {
      assert a[0] in multiset(b);
      var k :| 0 <= k < |b| && b[k] == a[0];
      var rest := b[..k] + b[k + 1..];
      assert b == b[..k] + [b[k]] + b[k + 1..];
      assert a == [a[0]] + a[1..];
      assert multiset(b) == multiset(b[..k]) + multiset{b[k]} + multiset(b[k + 1..]);
      assert multiset(a) == multiset{a[0]} + multiset(a[1..]);
      assert multiset(rest) == multiset(b[..k]) + multiset(b[k + 1..]);
      assert b[k] == a[0];
      calc {
        multiset(a[1..]);
        multiset(a) - multiset{a[0]};
        multiset(b) - multiset{a[0]};
        multiset(rest);
      }
      TotalSizeRemove(b, k);
      TotalSizePermutation(a[1..], rest);
    } else {
      assert |b| == |multiset(b)| == 0;
    }
  }

  /** measureBundleSize: starting from the base size, adds the measured size
      of each feature's text, one feature at a time in iteration order. */
  method MeasureBundleSize(texts: seq<string>) returns (total: nat)
    ensures total == BaseSize + TotalSize(texts)
    ensures texts == [] ==> total == BaseSize
  {
    total := 0;
    total := total + BaseSize;
    for i := 0 to |texts|
      invariant total == BaseSize + TotalSize(texts[..i])
    {
      TotalSizeAppend(texts[..i], texts[i]);
      assert texts[..i + 1] == texts[..i] + [texts[i]];
      total := total + MeasureFeatureSize(texts[i]);
    }
    assert texts[..|texts|] == texts;
  }

  /** Enabling one more feature raises the estimate by exactly that feature's
      size, wherever it lands in the iteration order. */
  lemma AddingFeatureAddsItsSize(before: seq<string>, after: seq<string>, t: string)
    requires multiset(after) == multiset(before) + multiset{t}
    ensures TotalSize(after) == TotalSize(before) + MeasureFeatureSize(t)
  {
    assert multiset(before + [t]) == multiset(after);
    TotalSizePermutation(before + [t], after);
    TotalSizeAppend(before, t);
  }
}
