/**
 UTF-8 (section 3 of RFC 3629) between strings of Unicode scalar values, which
 is what a Rust `String` and a Dafny `string` are, and the bytes Redis stores.
 `Decode` is the strict decoder of `String::from_utf8`; `Lossy` is
 `String::from_utf8_lossy`, which puts one U+FFFD for each maximal ill-formed run.
 */
module Utf8 {
  import opened Wrappers

  type Byte = b: int | 0 <= b < 256

  type Bytes = seq<Byte>

  const REPLACEMENT: char := '\U{FFFD}'

  function EncodeChar(c: char): (bs: Bytes)
    ensures 1 <= |bs| <= 4
  {
    var n := c as int;
    var d0, d1, d2 := n % 64, n / 64 % 64, n / 64 / 64 % 64;
    if n < 0x80 then [n]
    else if n < 0x800 then [0xC0 + n / 64, 0x80 + d0]
    else if n < 0x10000 then [0xE0 + n / 64 / 64, 0x80 + d1, 0x80 + d0]
    else [0xF0 + n / 64 / 64 / 64, 0x80 + d2, 0x80 + d1, 0x80 + d0]
  }

  lemma ByteShapes(h: int)
    ensures 0 <= h < 64 ==> (0x80 + h) / 64 == 2 && (0x80 + h) % 64 == h
    ensures 0 <= h < 32 ==> (0xC0 + h) / 32 == 6 && (0xC0 + h) % 32 == h
    ensures 0 <= h < 16 ==> (0xE0 + h) / 16 == 14 && (0xE0 + h) % 16 == h
    ensures 0 <= h < 8 ==> (0xF0 + h) / 8 == 30 && (0xF0 + h) % 8 == h
  {
  }

  /** A byte as a number; 0 where there is none. */
  function At(bs: Bytes, i: nat): int {
    if i < |bs| then bs[i] else 0
  }

  /** The table of section 3 of RFC 3629: how many bytes, what they start with, and the number their low bits spell. */
  lemma EncodingTable(c: char)
    ensures
      var n: int, bs := c as int, EncodeChar(c);
      if n < 0x80 then bs == [n]
      else if n < 0x800 then
        && |bs| == 2 && At(bs, 0) / 32 == 6 && At(bs, 1) / 64 == 2
        && n == At(bs, 0) % 32 * 64 + At(bs, 1) % 64
      else if n < 0x10000 then
        && |bs| == 3 && At(bs, 0) / 16 == 14 && At(bs, 1) / 64 == 2 && At(bs, 2) / 64 == 2
        && n == (At(bs, 0) % 16 * 64 + At(bs, 1) % 64) * 64 + At(bs, 2) % 64
      else
        && |bs| == 4 && At(bs, 0) / 8 == 30
        && At(bs, 1) / 64 == 2 && At(bs, 2) / 64 == 2 && At(bs, 3) / 64 == 2
        && n == ((At(bs, 0) % 8 * 64 + At(bs, 1) % 64) * 64 + At(bs, 2) % 64) * 64 + At(bs, 3) % 64
  {
    var n := c as int;
    ByteShapes(n % 64);
    ByteShapes(n / 64 % 64);
    ByteShapes(n / 64 / 64 % 64);
    ByteShapes(n / 64);
    ByteShapes(n / 64 / 64);
    ByteShapes(n / 64 / 64 / 64);
  }

  function Encode(s: string): (bs: Bytes)
    ensures |s| <= |bs| <= 4 * |s|
  {
    if s == "" then [] else EncodeChar(s[0]) + Encode(s[1..])
  }

  predicate IsContinuation(b: Byte) {
    0x80 <= b < 0xC0
  }

  /** What the decoder makes of the front of a nonempty byte string. */
  datatype Scan = Scalar(c: char, len: nat) | IllFormed(len: nat)

  /** Whether `b1` may follow the lead byte `b0` of a sequence of three or four bytes. */
  predicate SecondByteFits(b0: Byte, b1: Byte) {
    if b0 == 0xE0 then 0xA0 <= b1 < 0xC0
    else if b0 == 0xED then 0x80 <= b1 < 0xA0
    else if b0 == 0xF0 then 0x90 <= b1 < 0xC0
    else if b0 == 0xF4 then 0x80 <= b1 < 0x90
    else IsContinuation(b1)
  }

  function ScanFront(b: Bytes): (r: Scan)
    requires b != []
    ensures 1 <= r.len <= |b|
  {
    var b0: int := b[0];
    var b1: int := if |b| > 1 then b[1] else 0;
    var b2: int := if |b| > 2 then b[2] else 0;
    var b3: int := if |b| > 3 then b[3] else 0;
    if b0 < 0x80 then Scalar(b0 as char, 1)
    else if b0 < 0xC2 || 0xF4 < b0 then IllFormed(1)
    else if b0 < 0xE0 then
      if !IsContinuation(b1) then IllFormed(1)
      else Scalar(((b0 - 0xC0) * 64 + (b1 - 0x80)) as char, 2)
    else if !SecondByteFits(b0, b1) then IllFormed(1)
    else if !IsContinuation(b2) then IllFormed(2)
    else if b0 < 0xF0 then
      Scalar((((b0 - 0xE0) * 64 + (b1 - 0x80)) * 64 + (b2 - 0x80)) as char, 3)
    else if !IsContinuation(b3) then IllFormed(3)
    else
      Scalar(((((b0 - 0xF0) * 64 + (b1 - 0x80)) * 64 + (b2 - 0x80)) * 64 + (b3 - 0x80)) as char, 4)
  }

  function Decode(b: Bytes): Option<string> {
    if b == [] then Some("")
    else
      var front := ScanFront(b);
      if front.IllFormed? then None
      else
        var rest := Decode(b[front.len..]);
        if rest.None? then None else Some([front.c] + rest.value)
  }

  function Lossy(b: Bytes): string {
    if b == [] then ""
    else
      var front := ScanFront(b);
      [if front.Scalar? then front.c else REPLACEMENT] + Lossy(b[front.len..])
  }

  lemma SplitBy64(hi: int, lo: int)
    requires 0 <= lo < 64
    ensures (hi * 64 + lo) / 64 == hi && (hi * 64 + lo) % 64 == lo
  {
  }

  lemma ScanEncoded(c: char, tail: Bytes)
    ensures ScanFront(EncodeChar(c) + tail) == Scalar(c, |EncodeChar(c)|)
  {
    var n := c as int;
    var bs := EncodeChar(c);
    var whole := bs + tail;
    assert whole[0] == bs[0];
    assert |bs| > 1 ==> whole[1] == bs[1];
    assert |bs| > 2 ==> whole[2] == bs[2] && SecondByteFits(bs[0], bs[1]);
    assert |bs| > 3 ==> whole[3] == bs[3];
  }

  /** What the scanner reads is the encoding of what it reports. */
  lemma ScanSound(b: Bytes)
    requires b != [] && ScanFront(b).Scalar?
    ensures EncodeChar(ScanFront(b).c) == b[..ScanFront(b).len]
  {
    if b[0] >= 0xF0 {
      ScanSoundFour(b);
      hide EncodeChar, ScanFront;
    } else if b[0] >= 0xE0 {
      ScanSoundThree(b);
      hide EncodeChar, ScanFront;
    } else if b[0] >= 0x80 {
      SplitBy64(b[0] - 0xC0, b[1] - 0x80);
    }
  }

  /** The digits to base 64 of a number written in them. */
  lemma Digits64(d3: int, d2: int, d1: int, d0: int)
    requires 0 <= d2 < 64 && 0 <= d1 < 64 && 0 <= d0 < 64
    ensures
      var n := ((d3 * 64 + d2) * 64 + d1) * 64 + d0;
      && n % 64 == d0 && n / 64 % 64 == d1 && n / 64 / 64 % 64 == d2 && n / 64 / 64 / 64 == d3
      && n / 64 / 64 == d3 * 64 + d2
  {
    SplitBy64((d3 * 64 + d2) * 64 + d1, d0);
    SplitBy64(d3 * 64 + d2, d1);
    SplitBy64(d3, d2);
  }

  lemma ScanSoundThree(b: Bytes)
    requires b != [] && ScanFront(b).Scalar? && 0xE0 <= b[0] < 0xF0
    ensures EncodeChar(ScanFront(b).c) == b[..ScanFront(b).len]
  {
    Digits64(0, b[0] - 0xE0, b[1] - 0x80, b[2] - 0x80);
  }

  lemma ScanSoundFour(b: Bytes)
    requires b != [] && ScanFront(b).Scalar? && 0xF0 <= b[0]
    ensures EncodeChar(ScanFront(b).c) == b[..ScanFront(b).len]
  {
    var d3: int, d2: int := b[0] as int - 0xF0, b[1] as int - 0x80;
    var d1: int, d0: int := b[2] as int - 0x80, b[3] as int - 0x80;
    Digits64(d3, d2, d1, d0);
    assert ScanFront(b).c as int == ((d3 * 64 + d2) * 64 + d1) * 64 + d0;
    assert ((d3 * 64 + d2) * 64 + d1) * 64 + d0 >= 0x10000;
  }

  lemma ScanTruncated(c: char, n: nat)
    requires 0 < n < |EncodeChar(c)|
    ensures ScanFront(EncodeChar(c)[..n]) == IllFormed(n)
  {
  }

  /** Strict decoding accepts exactly the encodings, and returns what was encoded. */
  lemma {:induction false} DecodeIffEncode(b: Bytes, s: string)
    ensures Decode(b) == Some(s) <==> b == Encode(s)
  {
    if s != "" && b == Encode(s) {
      ScanEncoded(s[0], Encode(s[1..]));
      assert b[|EncodeChar(s[0])|..] == Encode(s[1..]);
      DecodeIffEncode(Encode(s[1..]), s[1..]);
      assert [s[0]] + s[1..] == s;
    }
    if s != "" && Decode(b) == Some(s) {
      var front := ScanFront(b);
      ScanSound(b);
      DecodeIffEncode(b[front.len..], s[1..]);
      assert b == b[..front.len] + b[front.len..];
    }
  }

  lemma EncodeInjective(s: string, t: string)
    ensures Encode(s) == Encode(t) <==> s == t
  {
    DecodeIffEncode(Encode(s), s);
    DecodeIffEncode(Encode(s), t);
  }

  lemma {:induction false} EncodeConcat(s: string, t: string)
    ensures Encode(s + t) == Encode(s) + Encode(t)
  {
    if s == "" {
      assert s + t == t;
    } else {
      assert (s + t)[0] == s[0] && (s + t)[1..] == s[1..] + t;
      EncodeConcat(s[1..], t);
      hide EncodeChar;
      assert Encode(s + t) == EncodeChar(s[0]) + (Encode(s[1..]) + Encode(t));
    }
  }

  /** Lossy decoding does not touch a well-formed front. */
  lemma {:induction false} LossyOfEncoded(s: string, tail: Bytes)
    ensures Lossy(Encode(s) + tail) == s + Lossy(tail)
  {
    if s == "" {
      assert Encode(s) + tail == tail;
    } else {
      var first := EncodeChar(s[0]);
      var rest := Encode(s[1..]) + tail;
      calc {
        Lossy(Encode(s) + tail);
        { assert Encode(s) + tail == first + rest; }
        Lossy(first + rest);
        { ScanEncoded(s[0], rest); assert (first + rest)[|first|..] == rest; }
        [s[0]] + Lossy(rest);
        { LossyOfEncoded(s[1..], tail); }
        [s[0]] + (s[1..] + Lossy(tail));
        s + Lossy(tail);
      }
    }
  }

  /** Cutting an encoding anywhere and decoding it lossily never yields more scalars. */
  lemma {:induction false} LossyPrefixIsShort(s: string, n: nat)
    requires n <= |Encode(s)|
    ensures |Lossy(Encode(s)[..n])| <= |s|
  {
    if n > 0 {
      var first := EncodeChar(s[0]);
      var cut := Encode(s)[..n];
      if n < |first| {
        ScanTruncated(s[0], n);
        assert cut == first[..n];
        assert Lossy(cut[n..]) == "";
      } else {
        var rest := Encode(s[1..])[..n - |first|];
        assert cut == first + rest;
        ScanEncoded(s[0], rest);
        assert cut[|first|..] == rest;
        LossyPrefixIsShort(s[1..], n - |first|);
      }
    }
  }
}
