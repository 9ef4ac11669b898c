/**
 * UTF-8 as the browser uses it: encoding a string into bytes, decoding the
 * first character of a byte sequence (which decodeURIComponent applies to the
 * octets of each escaped sequence), and the WHATWG "UTF-8 decode without BOM"
 * that replaces each ill-formed subsequence with U+FFFD. Well-formedness
 * follows table 3-7 of the Unicode Standard.
 */
module Utf8 {
  import opened Wrappers

  type byte = b: int | 0 <= b < 0x100

  const Replacement: char := '\U{FFFD}'

  /** The values a Dafny char can hold: Unicode scalar values. */
  predicate IsScalar(cp: int) {
    (0 <= cp < 0xD800) || (0xE000 <= cp < 0x11_0000)
  }

  function EncodeChar(c: char): (r: seq<byte>)
    ensures 1 <= |r| <= 4
    ensures (|r| == 1) == (c as int < 0x80)
  {
    var cp := c as int;
    if cp < 0x80 then [cp]
    else if cp < 0x800 then [0xC0 + cp / 64, 0x80 + cp % 64]
    else if cp < 0x1_0000 then [0xE0 + cp / 4096, 0x80 + cp / 64 % 64, 0x80 + cp % 64]
    else [0xF0 + cp / 262144, 0x80 + cp / 4096 % 64, 0x80 + cp / 64 % 64, 0x80 + cp % 64]
  }

  function Encode(s: string): seq<byte>
  {
    if s == [] then [] else EncodeChar(s[0]) + Encode(s[1..])
  }

  /** Length of the sequence a lead byte starts; 0 when it cannot start one. */
  function SequenceLength(lead: byte): nat
  {
    if lead < 0x80 then 1
    else if 0xC2 <= lead <= 0xDF then 2
    else if 0xE0 <= lead <= 0xEF then 3
    else if 0xF0 <= lead <= 0xF4 then 4
    else 0
  }

  /** Bounds of the k-th byte after a lead byte (table 3-7). */
  function ContinuationLow(lead: byte, k: nat): byte
  {
    if k == 1 && lead == 0xE0 then 0xA0
    else if k == 1 && lead == 0xF0 then 0x90
    else 0x80
  }

  function ContinuationHigh(lead: byte, k: nat): byte
  {
    if k == 1 && lead == 0xED then 0x9F
    else if k == 1 && lead == 0xF4 then 0x8F
    else 0xBF
  }

  predicate Continues(b: seq<byte>, k: nat)
    requires 0 < k < |b|
  {
    ContinuationLow(b[0], k) <= b[k] <= ContinuationHigh(b[0], k)
  }

  /** The index at which the run of acceptable continuation bytes, from k on, stops. */
  function AcceptedUpTo(b: seq<byte>, n: nat, k: nat): (r: nat)
    requires 1 <= k <= n && k <= |b|
    ensures k <= r <= n && r <= |b|
    ensures forall j :: k <= j < r ==> Continues(b, j)
    ensures r < n && r < |b| ==> !Continues(b, r)
    decreases n - k
  {
    if k < n && k < |b| && Continues(b, k) then AcceptedUpTo(b, n, k + 1) else k
  }

  /** The scalar value a complete, well-formed multi-byte sequence denotes. */
  function CodePoint(b: seq<byte>, n: nat): (cp: int)
    requires 2 <= n <= |b| && n == SequenceLength(b[0])
    requires forall j :: 1 <= j < n ==> Continues(b, j)
    ensures IsScalar(cp)
  {
    assert Continues(b, 1);
    var b0, b1 := b[0] as int, b[1] as int;
    if n == 2 then (b0 - 0xC0) * 64 + (b1 - 0x80)
    else if n == 3 then
      assert Continues(b, 2);
      (b0 - 0xE0) * 4096 + (b1 - 0x80) * 64 + (b[2] as int - 0x80)
    else
      assert Continues(b, 2) && Continues(b, 3);
      (b0 - 0xF0) * 262144 + (b1 - 0x80) * 4096 + (b[2] as int - 0x80) * 64 + (b[3] as int - 0x80)
  }

  /**
   * Decodes the first character of b: how many bytes it takes, and the
   * character, or None for an ill-formed subsequence. On an error the count is
   * that of the maximal subpart (the lead byte and the continuation bytes that
   * were acceptable), so that the offending byte is looked at again.
   */
  function DecodeFirst(b: seq<byte>): (r: (nat, Option<char>))
    requires |b| > 0
    ensures 1 <= r.0 <= |b|
    ensures r.1.Some? ==> r.0 == SequenceLength(b[0])
  {
    var n := SequenceLength(b[0]);
    if n == 0 then (1, None)
    else if n == 1 then (1, Some(b[0] as char))
    else
      var m := AcceptedUpTo(b, n, 1);
      if m == n then (n, Some(CodePoint(b, n) as char)) else (m, None)
  }

  /** WHATWG "UTF-8 decode without BOM": each ill-formed subsequence becomes U+FFFD. */
  function DecodeLenient(b: seq<byte>): string
    decreases |b|
  {
    if b == [] then ""
    else
      var (len, c) := DecodeFirst(b);
      (match c case Some(ch) => [ch] case None => [Replacement]) + DecodeLenient(b[len..])
  }

  lemma DecodeFirstTwo(c: char, rest: seq<byte>)
    requires 0x80 <= c as int < 0x800
    ensures DecodeFirst(EncodeChar(c) + rest) == (2, Some(c))
  {
    var e := EncodeChar(c);
    var b := e + rest;
    assert b[0] == e[0] && b[1] == e[1];
    assert Continues(b, 1);
    assert AcceptedUpTo(b, 2, 1) == 2;
    assert CodePoint(b, 2) == c as int;
  }

  lemma DecodeFirstThree(c: char, rest: seq<byte>)
    requires 0x800 <= c as int < 0x1_0000
    ensures DecodeFirst(EncodeChar(c) + rest) == (3, Some(c))
  {
    var e := EncodeChar(c);
    var b := e + rest;
    assert b[0] == e[0] && b[1] == e[1] && b[2] == e[2];
    assert Continues(b, 1);
    assert Continues(b, 2);
    assert AcceptedUpTo(b, 3, 1) == 3;
    assert CodePoint(b, 3) == c as int;
  }

  /** A value below 0x11_0000 is the sum of its four base-64 digits, as the four-byte form splits it. */
  lemma FourDigits(cp: int)
    requires 0 <= cp
    ensures cp == (cp / 262144) * 262144 + (cp / 4096 % 64) * 4096 + (cp / 64 % 64) * 64 + cp % 64
  {
    var a := cp / 64;
    var b := a / 64;
    assert cp == 64 * a + cp % 64;
    assert a == 64 * b + a % 64;
    assert b == 64 * (b / 64) + b % 64;
    assert b == cp / 4096;
    assert b / 64 == cp / 262144;
  }

  lemma DecodeFirstFour(c: char, rest: seq<byte>)
    requires 0x1_0000 <= c as int
    ensures DecodeFirst(EncodeChar(c) + rest) == (4, Some(c))
  {
    var e := EncodeChar(c);
    var b := e + rest;
    assert b[0] == e[0] && b[1] == e[1] && b[2] == e[2] && b[3] == e[3];
    assert Continues(b, 1);
    assert Continues(b, 2);
    assert Continues(b, 3);
    assert AcceptedUpTo(b, 4, 2) == 4;
    assert AcceptedUpTo(b, 4, 1) == 4;
    FourDigits(c as int);
    assert CodePoint(b, 4) == c as int;
  }

  /** Decoding the encoding of one character, whatever follows, gives that character back. */
  lemma DecodeFirstEncodeChar(c: char, rest: seq<byte>)
    ensures DecodeFirst(EncodeChar(c) + rest) == (|EncodeChar(c)|, Some(c))
  {
    var cp := c as int;
    if cp < 0x80 {
      assert (EncodeChar(c) + rest)[0] == cp;
    } else if cp < 0x800 {
      DecodeFirstTwo(c, rest);
    } else if cp < 0x1_0000 {
      DecodeFirstThree(c, rest);
    } else {
      DecodeFirstFour(c, rest);
    }
  }

  /** The lenient decoder inverts the encoder: well-formed input has nothing to replace. */
  lemma {:induction false} DecodeLenientEncode(s: string)
    ensures DecodeLenient(Encode(s)) == s
  {
    if s != [] {
      var e := EncodeChar(s[0]);
      DecodeFirstEncodeChar(s[0], Encode(s[1..]));
      assert (e + Encode(s[1..]))[|e|..] == Encode(s[1..]);
      DecodeLenientEncode(s[1..]);
      assert [s[0]] + s[1..] == s;
    }
  }
}
