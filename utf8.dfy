/**
 * Strict UTF-8 as Python's `bytes.decode("utf-8")` reads it: overlong forms,
 * surrogates, code points above U+10FFFF and truncated sequences are errors.
 * The encoder is the partner the decoder is checked against.
 */
module Utf8 {
  import opened Wrappers
  import opened Text

  predicate IsContinuation(b: byte) { 0x80 <= b <= 0xBF }

  /**
   * The length of the well-formed sequence that starts `bs` (1 to 4), or 0
   * when `bs` does not start with one (the byte ranges of table 3-7 of the
   * Unicode Standard, chapter 3).
   */
  function SequenceLength(bs: seq<byte>): (n: nat)
    ensures n <= 4 && n <= |bs|
    ensures n > 0 <==> |bs| > 0 && ValidPrefix(bs)
  {
    if |bs| == 0 then 0
    else if bs[0] <= 0x7F then 1
    else if 0xC2 <= bs[0] <= 0xDF && |bs| >= 2 && IsContinuation(bs[1]) then 2
    else if |bs| >= 3 && SecondByteOk3(bs[0], bs[1]) && IsContinuation(bs[2]) then 3
    else if |bs| >= 4 && SecondByteOk4(bs[0], bs[1]) && IsContinuation(bs[2]) && IsContinuation(bs[3]) then 4
    else 0
  }

  predicate SecondByteOk3(b0: byte, b1: byte) {
    || (b0 == 0xE0 && 0xA0 <= b1 <= 0xBF)
    || ((0xE1 <= b0 <= 0xEC || 0xEE <= b0 <= 0xEF) && IsContinuation(b1))
    || (b0 == 0xED && 0x80 <= b1 <= 0x9F)
  }

  predicate SecondByteOk4(b0: byte, b1: byte) {
    || (b0 == 0xF0 && 0x90 <= b1 <= 0xBF)
    || (0xF1 <= b0 <= 0xF3 && IsContinuation(b1))
    || (b0 == 0xF4 && 0x80 <= b1 <= 0x8F)
  }

  /** `bs` starts with one well-formed sequence. */
  predicate ValidPrefix(bs: seq<byte>)
    requires |bs| > 0
  {
    || bs[0] <= 0x7F
    || (0xC2 <= bs[0] <= 0xDF && |bs| >= 2 && IsContinuation(bs[1]))
    || (|bs| >= 3 && SecondByteOk3(bs[0], bs[1]) && IsContinuation(bs[2]))
    || (|bs| >= 4 && SecondByteOk4(bs[0], bs[1]) && IsContinuation(bs[2]) && IsContinuation(bs[3]))
  }

  /** A Unicode scalar value: a code point that is not a surrogate. */
  predicate IsScalar(cp: int) {
    (0 <= cp < 0xD800) || (0xE000 <= cp < 0x110000)
  }

  /** The code point of the well-formed sequence of length `n` at the start of `bs`. */
  function CodePoint(bs: seq<byte>, n: nat): (cp: int)
    requires 1 <= n <= 4 && SequenceLength(bs) == n
    ensures IsScalar(cp)
  {
    var b0: int := bs[0];
    if n == 1 then b0
    else
      var b1: int := bs[1];
      if n == 2 then (b0 - 0xC0) * 64 + (b1 - 0x80)
      else
        var b2: int := bs[2];
        if n == 3 then (b0 - 0xE0) * 4096 + (b1 - 0x80) * 64 + (b2 - 0x80)
        else
          var b3: int := bs[3];
          (b0 - 0xF0) * 262144 + (b1 - 0x80) * 4096 + (b2 - 0x80) * 64 + (b3 - 0x80)
  }

  /** `bytes.decode("utf-8")`: `None` where Python raises `UnicodeDecodeError`. */
  function Decode(bs: seq<byte>): Option<string>
    decreases |bs|
  {
    if bs == [] then Some([])
    else
      var n := SequenceLength(bs);
      if n == 0 then None
      else
        match Decode(bs[n..])
        case None => None
        case Some(rest) => Some([CodePoint(bs, n) as char] + rest)
  }

  /** The UTF-8 form of one character. */
  function EncodeChar(c: char): (bs: seq<byte>)
    ensures 1 <= |bs| <= 4
  {
    var cp := c as int;
    if cp < 0x80 then [cp]
    else if cp < 0x800 then [0xC0 + cp / 64, 0x80 + cp % 64]
    else if cp < 0x10000 then [0xE0 + cp / 4096, 0x80 + (cp / 64) % 64, 0x80 + cp % 64]
    else [0xF0 + cp / 262144, 0x80 + (cp / 4096) % 64, 0x80 + (cp / 64) % 64, 0x80 + cp % 64]
  }

  /** `s.encode("utf-8")`. */
  function Encode(s: string): seq<byte>
    decreases |s|
  {
    if s == [] then [] else EncodeChar(s[0]) + Encode(s[1..])
  }

  lemma EncodeTwo(cp: int, bs: seq<byte>)
    requires 0x80 <= cp < 0x800 && |bs| >= 2
    requires bs[0] == 0xC0 + cp / 64 && bs[1] == 0x80 + cp % 64
    ensures SequenceLength(bs) == 2 && CodePoint(bs, 2) == cp
  {
    var q, r := cp / 64, cp % 64;
    assert cp == q * 64 + r;
    assert 2 <= q < 32;
  }

  lemma EncodeThree(cp: int, bs: seq<byte>)
    requires 0x800 <= cp < 0x10000 && IsScalar(cp) && |bs| >= 3
    requires bs[0] == 0xE0 + cp / 4096 && bs[1] == 0x80 + (cp / 64) % 64 && bs[2] == 0x80 + cp % 64
    ensures SequenceLength(bs) == 3 && CodePoint(bs, 3) == cp
  {
    var q, m, r := cp / 4096, (cp / 64) % 64, cp % 64;
    assert cp / 64 == q * 64 + m;
    assert cp == q * 4096 + m * 64 + r;
    assert q == 0 ==> m >= 32;
    assert q == 13 ==> m < 32;
    assert !(0xC2 <= bs[0] <= 0xDF);
  }

  lemma EncodeFour(cp: int, bs: seq<byte>)
    requires 0x10000 <= cp < 0x110000 && |bs| >= 4
    requires bs[0] == 0xF0 + cp / 262144 && bs[1] == 0x80 + (cp / 4096) % 64
    requires bs[2] == 0x80 + (cp / 64) % 64 && bs[3] == 0x80 + cp % 64
    ensures SequenceLength(bs) == 4 && CodePoint(bs, 4) == cp
  {
    var q, m1, m2, r := cp / 262144, (cp / 4096) % 64, (cp / 64) % 64, cp % 64;
    assert cp / 4096 == q * 64 + m1;
    assert cp / 64 == (cp / 4096) * 64 + m2;
    assert cp == q * 262144 + m1 * 4096 + m2 * 64 + r;
    assert q == 0 ==> m1 >= 16;
    assert q == 4 ==> m1 < 16;
    assert !(0xC2 <= bs[0] <= 0xDF) && !SecondByteOk3(bs[0], bs[1]);
  }

  /** The encoding of a character is one well-formed sequence that decodes back to it. */
  lemma EncodeCharDecodes(c: char, rest: seq<byte>)
    ensures SequenceLength(EncodeChar(c) + rest) == |EncodeChar(c)|
    ensures CodePoint(EncodeChar(c) + rest, |EncodeChar(c)|) == c as int
  {
    var cp := c as int;
    var bs := EncodeChar(c) + rest;
    if cp < 0x80 {
    } else if cp < 0x800 {
      EncodeTwo(cp, bs);
    } else if cp < 0x10000 {
      EncodeThree(cp, bs);
    } else {
      EncodeFour(cp, bs);
    }
  }

  /** Decoding the encoding of any text gives the text back. */
  lemma {:induction false} DecodeEncode(s: string)
    ensures Decode(Encode(s)) == Some(s)
    decreases |s|
  {
    if s != [] {
      var head := EncodeChar(s[0]);
      var bs := Encode(s);
      assert bs == head + Encode(s[1..]);
      EncodeCharDecodes(s[0], Encode(s[1..]));
      assert bs[|head|..] == Encode(s[1..]);
      DecodeEncode(s[1..]);
      var n := SequenceLength(bs);
      assert n == |head| && n > 0;
      assert Decode(bs) == Some([CodePoint(bs, n) as char] + s[1..]);
      assert CodePoint(bs, n) as char == s[0];
      assert [s[0]] + s[1..] == s;
    }
  }

  lemma {:induction false} EncodeAppend(a: string, b: string)
    ensures Encode(a + b) == Encode(a) + Encode(b)
    decreases |a|
  {
    if a != [] {
      assert (a + b)[0] == a[0] && (a + b)[1..] == a[1..] + b;
      EncodeAppend(a[1..], b);
    } else {
      assert a + b == b;
    }
  }

  /** Only ASCII characters encode to bytes below 0x80, each to itself. */
  lemma EncodeCharBytes(c: char)
    ensures c as int < 0x80 ==> EncodeChar(c) == [c as int]
    ensures c as int >= 0x80 ==> forall k :: 0 <= k < |EncodeChar(c)| ==> EncodeChar(c)[k] >= 0x80
  {
  }

  /** Text without LF and CR encodes to bytes without them. */
  lemma {:induction false} EncodeNoLineBreak(s: string)
    requires '\n' !in s && '\r' !in s
    ensures NoLineBreak(Encode(s))
    decreases |s|
  {
    if s != [] {
      EncodeNoLineBreak(s[1..]);
      EncodeCharBytes(s[0]);
      assert s[0] != '\n' && s[0] != '\r';
      var h, t := EncodeChar(s[0]), Encode(s[1..]);
      forall m | 0 <= m < |h + t| ensures !IsLineBreak((h + t)[m]) {
        if m >= |h| { assert (h + t)[m] == t[m - |h|]; }
      }
    }
  }

  /** NUL characters encode to zero bytes, one each. */
  lemma {:induction false} EncodeNuls(k: nat)
    ensures Encode(seq(k, _ => '\0')) == seq(k, _ => 0)
    decreases k
  {
    if k > 0 {
      var nuls := seq(k, _ => '\0');
      assert nuls[0] == '\0' && nuls[1..] == seq(k - 1, _ => '\0');
      EncodeNuls(k - 1);
      assert [0] + seq(k - 1, _ => 0) == seq(k, _ => 0);
    }
  }
}
