/**
 * The application/x-www-form-urlencoded parser of section 5.1 of the WHATWG
 * URL Standard, and URLSearchParams over it: the constructor that takes a
 * string and get(), which answers the first value recorded for a name.
 */
module FormUrlencoded {
  import opened Wrappers
  import Utf8
  import Text
  import UriComponent

  datatype Pair = Pair(name: string, value: string)

  function ReplacePlus(s: string): (r: string)
    ensures |r| == |s|
    ensures forall i :: 0 <= i < |s| ==> r[i] == (if s[i] == '+' then ' ' else s[i])
  {
    if s == [] then "" else [if s[0] == '+' then ' ' else s[0]] + ReplacePlus(s[1..])
  }

  /**
   * Percent-decoding of the UTF-8 encoding of s: "%XY" with two hex digits
   * becomes the byte XY, every other character its UTF-8 bytes (a '%' that is
   * not followed by two hex digits stays a '%'). Hex digits are ASCII, so
   * looking at characters instead of bytes makes no difference.
   */
  function PercentDecode(s: string): seq<Utf8.byte>
  {
    if s == [] then []
    else if s[0] == '%' && |s| >= 3 && UriComponent.IsHexDigit(s[1]) && UriComponent.IsHexDigit(s[2]) then
      [UriComponent.HexByte(s[1], s[2])] + PercentDecode(s[3..])
    else Utf8.EncodeChar(s[0]) + PercentDecode(s[1..])
  }

  /** Steps 3.3 to 3.5 for a name or a value: '+' to space, percent-decode, UTF-8 decode without BOM. */
  function DecodeComponent(s: string): string
  {
    Utf8.DecodeLenient(PercentDecode(ReplacePlus(s)))
  }

  /** A non-empty sequence: name up to the first '=', value after it; no '=' means an empty value. */
  function DecodePair(sequence: string): Pair
  {
    match Text.IndexOf(sequence, '=')
    case None => Pair(DecodeComponent(sequence), "")
    case Some(i) => Pair(DecodeComponent(sequence[..i]), DecodeComponent(sequence[i + 1..]))
  }

  /** Step 3: empty sequences are skipped, the others decoded in order. */
  function ParseSequences(sequences: seq<string>): seq<Pair>
  {
    if sequences == [] then []
    else if sequences[0] == "" then ParseSequences(sequences[1..])
    else [DecodePair(sequences[0])] + ParseSequences(sequences[1..])
  }

  function Parse(input: string): seq<Pair>
  {
    ParseSequences(Text.Split(input, '&'))
  }

  /** new URLSearchParams(init) with a string init drops one leading '?'. */
  function SearchParams(init: string): seq<Pair>
  {
    Parse(if |init| > 0 && init[0] == '?' then init[1..] else init)
  }

  /** URLSearchParams.get: the value of the first pair with that name. */
  function Get(list: seq<Pair>, name: string): (r: Option<string>)
    ensures r.None? <==> forall i :: 0 <= i < |list| ==> list[i].name != name
    ensures r.Some? ==> exists i :: 0 <= i < |list| && list[i] == Pair(name, r.value) &&
                                    forall j :: 0 <= j < i ==> list[j].name != name
  {
    if list == [] then None
    else if list[0].name == name then Some(list[0].value)
    else
      var r := Get(list[1..], name);
      assert forall i :: 1 <= i < |list| ==> list[i] == list[1..][i - 1];
      if r.Some? then
        var k :| 0 <= k < |list[1..]| && list[1..][k] == Pair(name, r.value) &&
                 forall j :: 0 <= j < k ==> list[1..][j].name != name;
        assert list[k + 1] == Pair(name, r.value);
        r
      else r
  }

  lemma {:induction false} ReplacePlusWithoutPlus(s: string)
    requires '+' !in s
    ensures ReplacePlus(s) == s
  {
  }

  lemma {:induction false} PercentDecodeWithoutPercent(s: string)
    requires '%' !in s
    ensures PercentDecode(s) == Utf8.Encode(s)
  {
    if s != [] {
      assert s[0] in s;
      assert forall i :: 1 <= i < |s| ==> s[1..][i - 1] == s[i];
      PercentDecodeWithoutPercent(s[1..]);
    }
  }

  /** A name or value without '%' and '+' decodes to itself. */
  lemma DecodePlainComponent(s: string)
    requires '%' !in s && '+' !in s
    ensures DecodeComponent(s) == s
  {
    ReplacePlusWithoutPlus(s);
    PercentDecodeWithoutPercent(s);
    Utf8.DecodeLenientEncode(s);
  }

  lemma {:induction false} PercentDecodePercentBytes(bs: seq<Utf8.byte>, rest: string)
    ensures PercentDecode(UriComponent.PercentBytes(bs) + rest) == bs + PercentDecode(rest)
  {
    if bs != [] {
      var head := UriComponent.PercentByte(bs[0]);
      var tail := UriComponent.PercentBytes(bs[1..]) + rest;
      var s := UriComponent.PercentBytes(bs) + rest;
      assert s == head + tail;
      assert s[0] == '%' && s[1] == head[1] && s[2] == head[2] && s[3..] == tail;
      assert UriComponent.HexByte(s[1], s[2]) == bs[0];
      assert PercentDecode(s) == [bs[0]] + PercentDecode(tail);
      PercentDecodePercentBytes(bs[1..], rest);
      assert [bs[0]] + (bs[1..] + PercentDecode(rest)) == bs + PercentDecode(rest);
    } else {
      assert UriComponent.PercentBytes(bs) + rest == rest;
    }
  }

  lemma {:induction false} PercentDecodeEncoded(s: string)
    ensures PercentDecode(UriComponent.EncodeURIComponent(s)) == Utf8.Encode(s)
  {
    if s != [] {
      var c := s[0];
      var rest := UriComponent.EncodeURIComponent(s[1..]);
      if UriComponent.IsUnescaped(c) {
        assert ([c] + rest)[1..] == rest;
      } else {
        PercentDecodePercentBytes(Utf8.EncodeChar(c), rest);
      }
      PercentDecodeEncoded(s[1..]);
    }
  }

  lemma EncodedHasNoPlus(s: string)
    ensures '+' !in UriComponent.EncodeURIComponent(s)
    ensures '&' !in UriComponent.EncodeURIComponent(s)
    ensures '=' !in UriComponent.EncodeURIComponent(s)
  {
    UriComponent.EncodedAlphabet(s);
  }

  /** The form decoding of an encodeURIComponent result gives back the text that was encoded. */
  lemma DecodeEncodedComponent(s: string)
    ensures DecodeComponent(UriComponent.EncodeURIComponent(s)) == s
  {
    EncodedHasNoPlus(s);
    ReplacePlusWithoutPlus(UriComponent.EncodeURIComponent(s));
    PercentDecodeEncoded(s);
    Utf8.DecodeLenientEncode(s);
  }

  /** "name=value" with a name free of '=' splits at that '='. */
  lemma DecodeNameValue(name: string, value: string)
    requires '=' !in name
    ensures DecodePair(name + "=" + value) == Pair(DecodeComponent(name), DecodeComponent(value))
  {
    Text.IndexOfAfterPrefix(name, '=', value);
    var s := name + "=" + value;
    assert s[..|name|] == name && s[|name| + 1..] == value;
  }

  /** Parsing a '&'-join of non-empty sequences decodes each of them in order. */
  lemma {:induction false} ParseJoin(sequences: seq<string>)
    requires |sequences| >= 1
    requires forall i :: 0 <= i < |sequences| ==> sequences[i] != "" && '&' !in sequences[i]
    ensures |Parse(Text.Join(sequences, '&'))| == |sequences|
    ensures forall i :: 0 <= i < |sequences| ==> Parse(Text.Join(sequences, '&'))[i] == DecodePair(sequences[i])
  {
    Text.SplitJoin(sequences, '&');
    ParseNonEmpty(sequences);
  }

  /** Parts without '&', each decoding to a pair, joined with '&', parse into those pairs. */
  lemma ParseParts(sequences: seq<string>, pairs: seq<Pair>)
    requires |sequences| == |pairs| >= 1
    requires forall i :: 0 <= i < |sequences| ==> sequences[i] != "" && '&' !in sequences[i]
    requires forall i :: 0 <= i < |sequences| ==> DecodePair(sequences[i]) == pairs[i]
    ensures Parse(Text.Join(sequences, '&')) == pairs
  {
    ParseJoin(sequences);
  }

  lemma {:induction false} ParseNonEmpty(sequences: seq<string>)
    requires forall i :: 0 <= i < |sequences| ==> sequences[i] != ""
    ensures |ParseSequences(sequences)| == |sequences|
    ensures forall i :: 0 <= i < |sequences| ==> ParseSequences(sequences)[i] == DecodePair(sequences[i])
  {
    if sequences != [] {
      ParseNonEmpty(sequences[1..]);
      var r := ParseSequences(sequences);
      assert r == [DecodePair(sequences[0])] + ParseSequences(sequences[1..]);
      forall i | 1 <= i < |sequences| ensures r[i] == DecodePair(sequences[i]) {
        assert r[i] == ParseSequences(sequences[1..])[i - 1];
        assert sequences[1..][i - 1] == sequences[i];
      }
    }
  }
}
