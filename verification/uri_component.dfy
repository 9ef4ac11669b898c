/**
 * ECMAScript's encodeURIComponent and decodeURIComponent (section 19.2.6 of
 * ECMA-262). Encoding writes every character outside the unescaped set as the
 * percent-escaped bytes of its UTF-8 encoding, with upper-case hex digits
 * (section 2.1 of RFC 3986). Decoding is partial: a stray '%' or escapes that
 * are not well-formed UTF-8 throw a URIError, modelled as None.
 */
module UriComponent {
  import opened Wrappers
  import Utf8

  predicate IsHexDigit(c: char) {
    ('0' <= c <= '9') || ('A' <= c <= 'F') || ('a' <= c <= 'f')
  }

  function HexValue(c: char): (v: nat)
    requires IsHexDigit(c)
    ensures v < 16
  {
    if '0' <= c <= '9' then c as int - '0' as int
    else if 'A' <= c <= 'F' then c as int - 'A' as int + 10
    else c as int - 'a' as int + 10
  }

  /** The upper-case hex digit of a value below 16. */
  function HexDigit(v: nat): (c: char)
    requires v < 16
    ensures IsHexDigit(c) && HexValue(c) == v
    ensures ('0' <= c <= '9') || ('A' <= c <= 'F')
  {
    if v < 10 then ('0' as int + v) as char else ('A' as int + v - 10) as char
  }

  function HexByte(hi: char, lo: char): Utf8.byte
    requires IsHexDigit(hi) && IsHexDigit(lo)
  {
    HexValue(hi) * 16 + HexValue(lo)
  }

  /** The characters encodeURIComponent leaves as they are. */
  predicate IsUnescaped(c: char) {
    ('A' <= c <= 'Z') || ('a' <= c <= 'z') || ('0' <= c <= '9') ||
    c == '-' || c == '_' || c == '.' || c == '!' || c == '~' ||
    c == '*' || c == '\'' || c == '(' || c == ')'
  }

  function PercentByte(b: Utf8.byte): (r: string)
    ensures |r| == 3 && r[0] == '%' && IsHexDigit(r[1]) && IsHexDigit(r[2])
    ensures HexByte(r[1], r[2]) == b
  {
    ['%', HexDigit(b / 16), HexDigit(b % 16)]
  }

  function PercentBytes(bs: seq<Utf8.byte>): (r: string)
    ensures |r| == 3 * |bs|
  {
    if bs == [] then "" else PercentByte(bs[0]) + PercentBytes(bs[1..])
  }

  function EncodeChar(c: char): string
  {
    if IsUnescaped(c) then [c] else PercentBytes(Utf8.EncodeChar(c))
  }

  function EncodeURIComponent(s: string): string
  {
    if s == [] then "" else EncodeChar(s[0]) + EncodeURIComponent(s[1..])
  }

  /** Reads n consecutive "%XY" escapes from the front of s. */
  function Escapes(s: string, n: nat): (r: Option<seq<Utf8.byte>>)
    ensures r.Some? ==> |r.value| == n && 3 * n <= |s|
    decreases n
  {
    if n == 0 then Some([])
    else if |s| < 3 || s[0] != '%' || !IsHexDigit(s[1]) || !IsHexDigit(s[2]) then None
    else
      match Escapes(s[3..], n - 1)
      case None => None
      case Some(rest) => Some([HexByte(s[1], s[2])] + rest)
  }

  function Prepend(c: char, r: Option<string>): Option<string>
  {
    match r
    case None => None
    case Some(s) => Some([c] + s)
  }

  /**
   * decodeURIComponent. The reserved set is empty, so every escape is decoded.
   * A lead byte that cannot start a well-formed sequence (continuation bytes,
   * C0, C1, F5 to FF) throws, as do missing escapes and ill-formed sequences;
   * the leading-one count ECMA-262 uses rejects the same lead bytes once the
   * validity check is taken into account.
   */
  function DecodeURIComponent(s: string): (r: Option<string>)
    decreases |s|
  {
    if s == [] then Some("")
    else if s[0] != '%' then Prepend(s[0], DecodeURIComponent(s[1..]))
    else if |s| < 3 || !IsHexDigit(s[1]) || !IsHexDigit(s[2]) then None
    else
      var b := HexByte(s[1], s[2]);
      if b < 0x80 then Prepend(b as char, DecodeURIComponent(s[3..]))
      else
        var n := Utf8.SequenceLength(b);
        if n < 2 then None
        else
          match Escapes(s, n)
          case None => None
          case Some(octets) =>
            match Utf8.DecodeFirst(octets).1
            case None => None
            case Some(c) => Prepend(c, DecodeURIComponent(s[3 * n..]))
  }

  lemma {:induction false} EscapesPercentBytes(bs: seq<Utf8.byte>, rest: string)
    ensures Escapes(PercentBytes(bs) + rest, |bs|) == Some(bs)
  {
    if bs != [] {
      var s := PercentBytes(bs) + rest;
      var head := PercentByte(bs[0]);
      var tail := PercentBytes(bs[1..]) + rest;
      assert s == head + tail;
      assert s[0] == '%' && s[1] == head[1] && s[2] == head[2];
      assert s[3..] == tail;
      EscapesPercentBytes(bs[1..], rest);
      assert Escapes(tail, |bs| - 1) == Some(bs[1..]);
      assert [bs[0]] + bs[1..] == bs;
    }
  }

  lemma EncodeCharNoUnescapedPercent(c: char)
    ensures |EncodeChar(c)| >= 1
    ensures EncodeChar(c)[0] == '%' <==> !IsUnescaped(c)
  {
    if !IsUnescaped(c) {
      assert PercentBytes(Utf8.EncodeChar(c)) == PercentByte(Utf8.EncodeChar(c)[0]) + PercentBytes(Utf8.EncodeChar(c)[1..]);
    }
  }

  /** Decoding the escapes of one character, whatever follows, gives that character back. */
  lemma DecodeEncodeChar(c: char, rest: string)
    ensures DecodeURIComponent(EncodeChar(c) + rest) == Prepend(c, DecodeURIComponent(rest))
  {
    var s := EncodeChar(c) + rest;
    if IsUnescaped(c) {
      assert s[0] == c && s[1..] == rest;
    } else {
      var bs := Utf8.EncodeChar(c);
      var n := |bs|;
      assert s == PercentBytes(bs) + rest;
      assert PercentBytes(bs) == PercentByte(bs[0]) + PercentBytes(bs[1..]);
      assert s[0] == '%' && s[1] == PercentByte(bs[0])[1] && s[2] == PercentByte(bs[0])[2];
      assert HexByte(s[1], s[2]) == bs[0];
      Utf8.DecodeFirstEncodeChar(c, []);
      assert bs + [] == bs;
      if n == 1 {
        assert bs[0] == c as int;
        assert s[3..] == rest;
      } else {
        assert Utf8.SequenceLength(bs[0]) == n;
        EscapesPercentBytes(bs, rest);
        assert s[3 * n..] == rest;
      }
    }
  }

  /** decodeURIComponent inverts encodeURIComponent. */
  lemma {:induction false} DecodeEncode(s: string)
    ensures DecodeURIComponent(EncodeURIComponent(s)) == Some(s)
  {
    if s != [] {
      DecodeEncodeChar(s[0], EncodeURIComponent(s[1..]));
      DecodeEncode(s[1..]);
      assert [s[0]] + s[1..] == s;
    }
  }

  /** Text without '%' decodes to itself. */
  lemma {:induction false} DecodeWithoutPercent(s: string)
    requires '%' !in s
    ensures DecodeURIComponent(s) == Some(s)
  {
    if s != [] {
      assert s[0] in s;
      assert forall i :: 1 <= i < |s| ==> s[1..][i - 1] == s[i];
      DecodeWithoutPercent(s[1..]);
      assert [s[0]] + s[1..] == s;
    }
  }

  /** A run of escapes read from the front cannot reach past a '%' that two hex digits do not follow. */
  lemma {:induction false} EscapesStopBeforeStray(p: string, q: string, n: nat)
    requires |q| < 2 || !IsHexDigit(q[0]) || !IsHexDigit(q[1])
    requires Escapes(p + "%" + q, n).Some?
    ensures 3 * n <= |p|
    decreases n
  {
    if n > 0 {
      var s := p + "%" + q;
      assert s[|p|] == '%';
      assert |p| >= 3;
      assert s[3..] == p[3..] + "%" + q;
      EscapesStopBeforeStray(p[3..], q, n - 1);
    }
  }

  /** A '%' not followed by two hex digits makes decoding throw, wherever it stands. */
  lemma {:induction false} StrayPercentThrows(p: string, q: string)
    requires |q| < 2 || !IsHexDigit(q[0]) || !IsHexDigit(q[1])
    ensures DecodeURIComponent(p + "%" + q) == None
    decreases |p|
  {
    var s := p + "%" + q;
    if p == [] {
      assert s == "%" + q;
      assert |s| < 3 || !IsHexDigit(s[1]) || !IsHexDigit(s[2]);
    } else if p[0] != '%' {
      assert s[0] == p[0];
      assert s[1..] == p[1..] + "%" + q;
      StrayPercentThrows(p[1..], q);
    } else if 3 <= |s| && IsHexDigit(s[1]) && IsHexDigit(s[2]) {
      assert s[|p|] == '%';
      assert |p| >= 3;
      var b := HexByte(s[1], s[2]);
      if b < 0x80 {
        assert s[3..] == p[3..] + "%" + q;
        StrayPercentThrows(p[3..], q);
      } else {
        var n := Utf8.SequenceLength(b);
        if n >= 2 && Escapes(s, n).Some? {
          EscapesStopBeforeStray(p, q, n);
          assert s[3 * n..] == p[3 * n..] + "%" + q;
          StrayPercentThrows(p[3 * n..], q);
        }
      }
    }
  }

  /** Every character encodeURIComponent writes is unescaped, '%' or an upper-case hex digit. */
  lemma {:induction false} EncodedAlphabet(s: string)
    ensures forall c :: c in EncodeURIComponent(s) ==> IsUnescaped(c) || c == '%' || ('0' <= c <= '9') || ('A' <= c <= 'F')
  {
    if s != [] {
      EncodedAlphabet(s[1..]);
      if !IsUnescaped(s[0]) {
        PercentBytesAlphabet(Utf8.EncodeChar(s[0]));
      }
    }
  }

  lemma {:induction false} PercentBytesAlphabet(bs: seq<Utf8.byte>)
    ensures forall c :: c in PercentBytes(bs) ==> c == '%' || ('0' <= c <= '9') || ('A' <= c <= 'F')
  {
    if bs != [] {
      PercentBytesAlphabet(bs[1..]);
    }
  }

  lemma {:induction false} EncodeAppend(a: string, b: string)
    ensures EncodeURIComponent(a + b) == EncodeURIComponent(a) + EncodeURIComponent(b)
  {
    if a == [] {
      assert a + b == b;
    } else {
      assert (a + b)[0] == a[0] && (a + b)[1..] == a[1..] + b;
      EncodeAppend(a[1..], b);
    }
  }

  /** Text made only of unescaped characters is left as it is. */
  lemma {:induction false} EncodeUnescapedText(s: string)
    requires forall c :: c in s ==> IsUnescaped(c)
    ensures EncodeURIComponent(s) == s
  {
    if s != [] {
      assert s[0] in s;
      assert forall c :: c in s[1..] ==> c in s;
      EncodeUnescapedText(s[1..]);
    }
  }
}
