/** Python `bytes` values, byte literals, and the well-formedness test that
    `bytes.decode()` (strict UTF-8) performs. */
module Bytes {
  newtype byte = x: int | 0 <= x < 256

  /** The bytes of an ASCII literal such as `b"filename="`. */
  function Ascii(s: string): (r: seq<byte>)
    requires forall i :: 0 <= i < |s| ==> s[i] as int < 128
    ensures |r| == |s| && forall i :: 0 <= i < |s| ==> r[i] as int == s[i] as int
  {
    seq(|s|, i requires 0 <= i < |s| => s[i] as int as byte)
  }

  predicate IsAscii(b: byte) {
    b < 0x80
  }

  predicate InRange(b: byte, lo: byte, hi: byte) {
    lo <= b <= hi
  }

  /** The length of the well-formed UTF-8 sequence that begins `s`, or 0
      when `s` does not begin with one (Table 3-7 of the Unicode Standard:
      no overlong forms, no surrogates, nothing above U+10FFFF). */
  function SequenceLength(s: seq<byte>): (n: nat)
    ensures n <= |s| && n <= 4
    ensures |s| > 0 && IsAscii(s[0]) ==> n == 1
    ensures n == 1 ==> IsAscii(s[0])
  {
    if |s| == 0 then 0
    else if IsAscii(s[0]) then 1
    else if |s| >= 2 && InRange(s[0], 0xC2, 0xDF) && InRange(s[1], 0x80, 0xBF) then 2
    else if |s| >= 3 && InRange(s[2], 0x80, 0xBF) &&
      ((s[0] == 0xE0 && InRange(s[1], 0xA0, 0xBF)) ||
       (InRange(s[0], 0xE1, 0xEC) && InRange(s[1], 0x80, 0xBF)) ||
       (s[0] == 0xED && InRange(s[1], 0x80, 0x9F)) ||
       (InRange(s[0], 0xEE, 0xEF) && InRange(s[1], 0x80, 0xBF)))
    then 3
    else if |s| >= 4 && InRange(s[2], 0x80, 0xBF) && InRange(s[3], 0x80, 0xBF) &&
      ((s[0] == 0xF0 && InRange(s[1], 0x90, 0xBF)) ||
       (InRange(s[0], 0xF1, 0xF3) && InRange(s[1], 0x80, 0xBF)) ||
       (s[0] == 0xF4 && InRange(s[1], 0x80, 0x8F)))
    then 4
    else 0
  }

  /** `s.decode()` does not raise UnicodeDecodeError. */
  predicate ValidUtf8(s: seq<byte>)
    decreases |s|
  {
    s == [] || (SequenceLength(s) > 0 && ValidUtf8(s[SequenceLength(s)..]))
  }

  /** Pure ASCII always decodes. */
  lemma {:induction false} AsciiIsUtf8(s: seq<byte>)
    requires forall i :: 0 <= i < |s| ==> IsAscii(s[i])
    ensures ValidUtf8(s)
    decreases |s|
  {
    if s != [] {
      AsciiIsUtf8(s[1..]);
    }
  }

  /** The UTF-8 encoding of one scalar value, by the bit layout of
      Table 3-6 of the Unicode Standard. */
  function Utf8Encode(c: char): (r: seq<byte>)
    ensures 1 <= |r| <= 4
  {
    var n := c as int;
    if n < 0x80 then [n as byte]
    else if n < 0x800 then [(0xC0 + n / 64) as byte, (0x80 + n % 64) as byte]
    else if n < 0x10000 then
      [(0xE0 + n / 4096) as byte, (0x80 + (n / 64) % 64) as byte, (0x80 + n % 64) as byte]
    else
      [(0xF0 + n / 262144) as byte, (0x80 + (n / 4096) % 64) as byte,
       (0x80 + (n / 64) % 64) as byte, (0x80 + n % 64) as byte]
  }

  /** The lead and second byte of a three-byte encoding stay inside the
      ranges Table 3-7 allows. */
  lemma ThreeByteRanges(n: int)
    requires 0x800 <= n < 0x10000 && !(0xD800 <= n < 0xE000)
    ensures var lead, mid := n / 4096, (n / 64) % 64;
      0 <= lead < 16 && (lead == 0 ==> mid >= 32) && (lead == 13 ==> mid < 32)
  {
    var lead, mid := n / 4096, (n / 64) % 64;
    assert n == lead * 4096 + mid * 64 + n % 64;
  }

  /** The same for a four-byte encoding. */
  lemma FourByteRanges(n: int)
    requires 0x10000 <= n < 0x110000
    ensures var lead, second := n / 262144, (n / 4096) % 64;
      0 <= lead <= 4 && (lead == 0 ==> second >= 16) && (lead == 4 ==> second < 16)
  {
    var lead, second := n / 262144, (n / 4096) % 64;
    assert n == lead * 262144 + second * 4096 + n % 4096;
  }

  /** Every encoded scalar value is a well-formed sequence of exactly its
      own length, whatever follows it. */
  lemma EncodeAccepted(c: char, rest: seq<byte>)
    ensures SequenceLength(Utf8Encode(c) + rest) == |Utf8Encode(c)|
  {
    var n := c as int;
    var e := Utf8Encode(c);
    var s := e + rest;
    assert forall k :: 0 <= k < |e| ==> s[k] == e[k];
    if n < 0x80 {
    } else if n < 0x800 {
      assert 2 <= n / 64 < 32;
    } else if n < 0x10000 {
      ThreeByteRanges(n);
    } else {
      FourByteRanges(n);
    }
  }

  /** The scalar value a well-formed sequence at the start of `s` stands
      for: the payload bits of its bytes, most significant first. */
  function Utf8DecodeFirst(s: seq<byte>): (c: char)
    requires SequenceLength(s) > 0
  {
    var n := SequenceLength(s);
    var v :=
      if n == 1 then s[0] as int
      else if n == 2 then (s[0] as int - 0xC0) * 64 + (s[1] as int - 0x80)
      else if n == 3 then (s[0] as int - 0xE0) * 4096 + (s[1] as int - 0x80) * 64 + (s[2] as int - 0x80)
      else (s[0] as int - 0xF0) * 262144 + (s[1] as int - 0x80) * 4096 + (s[2] as int - 0x80) * 64 + (s[3] as int - 0x80);
    assert n == 2 ==> 0x80 <= v < 0x800;
    assert n == 3 ==> 0x800 <= v < 0xD800 || 0xE000 <= v < 0x10000;
    assert n == 4 ==> 0x10000 <= v < 0x110000;
    v as char
  }

  /** Cutting a number made of 6-bit groups back into those groups. */
  lemma Groups(a: int, b: int, d: int, e: int)
    requires 0 <= a && 0 <= b < 64 && 0 <= d < 64 && 0 <= e < 64
    ensures (a * 64 + b) / 64 == a && (a * 64 + b) % 64 == b
    ensures var v := a * 4096 + b * 64 + d; v / 4096 == a && (v / 64) % 64 == b && v % 64 == d
    ensures var v := a * 262144 + b * 4096 + d * 64 + e;
      v / 262144 == a && (v / 4096) % 64 == b && (v / 64) % 64 == d && v % 64 == e
  {
    var v3 := a * 4096 + b * 64 + d;
    assert v3 == (a * 64 + b) * 64 + d;
    var v4 := a * 262144 + b * 4096 + d * 64 + e;
    assert v4 == ((a * 64 + b) * 64 + d) * 64 + e;
  }

  /** Conversely, every sequence SequenceLength accepts is the encoding of
      the scalar value it stands for: overlong forms and surrogates, which
      no scalar value encodes to, are refused. */
  lemma DecodeEncodes(s: seq<byte>)
    requires SequenceLength(s) > 0
    ensures Utf8Encode(Utf8DecodeFirst(s)) == s[..SequenceLength(s)]
  {
    var n := SequenceLength(s);
    var b1 := if n >= 2 then s[1] as int - 0x80 else 0;
    var b2 := if n >= 3 then s[2] as int - 0x80 else 0;
    var b3 := if n >= 4 then s[3] as int - 0x80 else 0;
    if n == 2 {
      Groups(s[0] as int - 0xC0, b1, 0, 0);
    } else if n == 3 {
      Groups(s[0] as int - 0xE0, b1, b2, 0);
    } else if n == 4 {
      Groups(s[0] as int - 0xF0, b1, b2, b3);
    }
  }

  /** The UTF-8 encoding of a text, `str.encode()`. */
  function Utf8EncodeText(t: string): seq<byte>
  {
    if t == [] then [] else Utf8Encode(t[0]) + Utf8EncodeText(t[1..])
  }

  /** Whatever a client encodes as UTF-8 decodes again. */
  lemma {:induction false} EncodedIsUtf8(t: string)
    ensures ValidUtf8(Utf8EncodeText(t))
  {
    if t != [] {
      var e, rest := Utf8Encode(t[0]), Utf8EncodeText(t[1..]);
      EncodeAccepted(t[0], rest);
      assert (e + rest)[|e|..] == rest;
      EncodedIsUtf8(t[1..]);
    }
  }

  /** Two sequences the decoder refuses: the overlong form C0 AF of "/"
      and the encoded surrogate ED A0 80. */
  lemma RefusesOverlongAndSurrogate()
    ensures SequenceLength([0xC0, 0xAF]) == 0 && SequenceLength([0xED, 0xA0, 0x80]) == 0
  {
  }
}
