/**
 * JSON.stringify of the `authUser` record kept in localStorage, written out
 * as ECMA-262 does it (QuoteJSONString, keys in insertion order, members whose
 * value is undefined left out), together with a reader of that text. The
 * reader exists to show that the stored text determines the record.
 */
module JsonText {
  import opened Wrappers
  import UriComponent

  /** The record Login stores; an absent field is a JavaScript undefined. */
  datatype AuthUser = AuthUser(fullname: Option<string>, email: Option<string>, role: string)

  function LowerHexDigit(v: nat): (c: char)
    requires v < 16
    ensures ('0' <= c <= '9') || ('a' <= c <= 'f')
  {
    if v < 10 then ('0' as int + v) as char else ('a' as int + v - 10) as char
  }

  /** QuoteJSONString for one code point: the short escapes, \u00XX below 0x20, the character otherwise. */
  function EscapeChar(c: char): (r: string)
    ensures |r| >= 1
    ensures r[0] == '\\' || (r == [c] && c != '"' && c >= ' ')
  {
    if c == '"' then "\\\""
    else if c == '\\' then "\\\\"
    else if c == '\U{0008}' then "\\b"
    else if c == '\U{000C}' then "\\f"
    else if c == '\n' then "\\n"
    else if c == '\r' then "\\r"
    else if c == '\t' then "\\t"
    else if c < ' ' then ['\\', 'u', '0', '0', LowerHexDigit(c as int / 16), LowerHexDigit(c as int % 16)]
    else [c]
  }

  function Escape(s: string): string
  {
    if s == [] then "" else EscapeChar(s[0]) + Escape(s[1..])
  }

  /** Text with no quote, backslash or control character is written as it is. */
  lemma {:induction false} EscapePlain(s: string)
    requires forall c :: c in s ==> c >= ' ' && c != '"' && c != '\\'
    ensures Escape(s) == s
  {
    if s != [] {
      assert s[0] in s;
      assert EscapeChar(s[0]) == [s[0]];
      assert forall c :: c in s[1..] ==> c in s;
      EscapePlain(s[1..]);
      assert s == [s[0]] + s[1..];
    }
  }

  function Quote(s: string): string
  {
    "\"" + Escape(s) + "\""
  }

  /** Keys are plain ASCII words, which QuoteJSONString leaves as they are. */
  function KeyPrefix(key: string): string
  {
    "\"" + key + "\":"
  }

  function Member(key: string, value: Option<string>): string
  {
    match value
    case None => ""
    case Some(v) => KeyPrefix(key) + Quote(v) + ","
  }

  /** JSON.stringify({fullname, email, role}); role is always a string, so it is always written, last. */
  function Serialize(u: AuthUser): string
  {
    "{" + (Member("fullname", u.fullname) + (Member("email", u.email) + RoleText(u.role)))
  }

  /** The text after the optional members: the role member and the closing brace. */
  function RoleText(role: string): string
  {
    KeyPrefix("role") + Quote(role) + "}"
  }

  // ---------------- reading the text back ----------------

  function Cons(c: char, r: Option<(string, string)>): Option<(string, string)>
  {
    match r
    case None => None
    case Some((body, rest)) => Some(([c] + body, rest))
  }

  /** The escape after a backslash: the character it stands for and the characters it took. */
  function Unescape(s: string): (r: Option<(char, nat)>)
    requires |s| >= 2 && s[0] == '\\'
    ensures r.Some? ==> 2 <= r.value.1 <= |s|
  {
    match s[1]
    case '"' => Some(('"', 2))
    case '\\' => Some(('\\', 2))
    case '/' => Some(('/', 2))
    case 'b' => Some(('\U{0008}', 2))
    case 'f' => Some(('\U{000C}', 2))
    case 'n' => Some(('\n', 2))
    case 'r' => Some(('\r', 2))
    case 't' => Some(('\t', 2))
    case 'u' =>
      if |s| >= 6 && UriComponent.IsHexDigit(s[2]) && UriComponent.IsHexDigit(s[3]) && UriComponent.IsHexDigit(s[4]) && UriComponent.IsHexDigit(s[5]) then
        var v := UriComponent.HexValue(s[2]) * 4096 + UriComponent.HexValue(s[3]) * 256 + UriComponent.HexValue(s[4]) * 16 + UriComponent.HexValue(s[5]);
        if v < 0xD800 || 0xE000 <= v then Some((v as char, 6)) else None
      else None
    case _ => None
  }

  /** Reads the rest of a string literal after its opening quote: its contents and what follows the closing quote. */
  function ReadStringBody(s: string): Option<(string, string)>
    decreases |s|
  {
    if s == [] then None
    else if s[0] == '"' then Some(("", s[1..]))
    else if s[0] == '\\' then
      if |s| < 2 then None
      else
        match Unescape(s)
        case None => None
        case Some((c, n)) => Cons(c, ReadStringBody(s[n..]))
    else if s[0] < ' ' then None
    else Cons(s[0], ReadStringBody(s[1..]))
  }

  function ReadString(s: string): Option<(string, string)>
  {
    if |s| >= 1 && s[0] == '"' then ReadStringBody(s[1..]) else None
  }

  predicate StartsWith(s: string, p: string) {
    |p| <= |s| && s[..|p|] == p
  }

  /** An optional member: absent when the key does not come next. */
  function ReadMember(key: string, s: string): Option<(Option<string>, string)>
  {
    var p := KeyPrefix(key);
    if !StartsWith(s, p) then Some((None, s))
    else
      match ReadString(s[|p|..])
      case None => None
      case Some((v, rest)) =>
        if |rest| >= 1 && rest[0] == ',' then Some((Some(v), rest[1..])) else None
  }

  function Deserialize(s: string): Option<AuthUser>
  {
    if |s| < 1 || s[0] != '{' then None
    else
      match ReadMember("fullname", s[1..])
      case None => None
      case Some((fullname, r1)) =>
        match ReadMember("email", r1)
        case None => None
        case Some((email, r2)) =>
          var p := KeyPrefix("role");
          if !StartsWith(r2, p) then None
          else
            match ReadString(r2[|p|..])
            case None => None
            case Some((role, r3)) =>
              if r3 == "}" then Some(AuthUser(fullname, email, role)) else None
  }

  // ---------------- the serialisation is read back exactly ----------------

  lemma ReadEscapedChar(c: char, rest: string)
    ensures ReadStringBody(EscapeChar(c) + rest) == Cons(c, ReadStringBody(rest))
  {
    var e := EscapeChar(c);
    var s := e + rest;
    if c < ' ' && c != '\U{0008}' && c != '\U{000C}' && c != '\n' && c != '\r' && c != '\t' {
      var hi, lo := c as int / 16, c as int % 16;
      assert s[0] == '\\' && s[1] == 'u' && s[2] == '0' && s[3] == '0';
      assert s[4] == LowerHexDigit(hi) && s[5] == LowerHexDigit(lo);
      assert UriComponent.HexValue(s[4]) == hi && UriComponent.HexValue(s[5]) == lo;
      assert Unescape(s) == Some((c, 6));
      assert s[6..] == rest;
    } else if e[0] == '\\' {
      assert s[0] == '\\' && s[1] == e[1] && |e| == 2;
      assert s[2..] == rest;
    } else {
      assert s[0] == c && s[1..] == rest;
    }
  }

  lemma {:induction false} ReadEscape(x: string, rest: string)
    ensures ReadStringBody(Escape(x) + "\"" + rest) == Some((x, rest))
  {
    if x == [] {
      assert Escape(x) + "\"" + rest == "\"" + rest;
    } else {
      var tail := Escape(x[1..]) + "\"" + rest;
      assert Escape(x) + "\"" + rest == EscapeChar(x[0]) + tail;
      ReadEscapedChar(x[0], tail);
      ReadEscape(x[1..], rest);
      assert [x[0]] + x[1..] == x;
    }
  }

  lemma ReadQuote(x: string, rest: string)
    ensures ReadString(Quote(x) + rest) == Some((x, rest))
  {
    var s := Quote(x) + rest;
    assert s[1..] == Escape(x) + "\"" + rest;
    ReadEscape(x, rest);
  }

  lemma ReadPresentMember(key: string, v: string, rest: string)
    ensures ReadMember(key, Member(key, Some(v)) + rest) == Some((Some(v), rest))
  {
    var p := KeyPrefix(key);
    var tail := Quote(v) + ("," + rest);
    var s := Member(key, Some(v)) + rest;
    assert Member(key, Some(v)) == p + Quote(v) + ",";
    assert s == p + tail;
    assert s[..|p|] == p;
    assert StartsWith(s, p);
    assert s[|p|..] == tail;
    ReadQuote(v, "," + rest);
    assert ReadString(tail) == Some((v, "," + rest));
    assert ("," + rest)[1..] == rest;
  }

  lemma ReadAbsentMember(key: string, rest: string)
    requires |rest| >= 2 && |key| >= 1 && rest[1] != key[0]
    ensures ReadMember(key, rest) == Some((None, rest))
  {
    assert KeyPrefix(key)[1] == key[0];
  }

  lemma ReadOptionalMember(key: string, v: Option<string>, rest: string)
    requires |rest| >= 2 && |key| >= 1 && rest[1] != key[0]
    ensures ReadMember(key, Member(key, v) + rest) == Some((v, rest))
  {
    if v.Some? {
      ReadPresentMember(key, v.value, rest);
    } else {
      assert Member(key, v) + rest == rest;
      ReadAbsentMember(key, rest);
    }
  }

  lemma ReadRoleText(role: string)
    ensures |RoleText(role)| >= 2 && RoleText(role)[1] == 'r'
    ensures StartsWith(RoleText(role), KeyPrefix("role"))
    ensures ReadString(RoleText(role)[|KeyPrefix("role")|..]) == Some((role, "}"))
  {
    var p := KeyPrefix("role");
    var t := RoleText(role);
    assert t == p + (Quote(role) + "}");
    assert t[..|p|] == p;
    assert t[|p|..] == Quote(role) + "}";
    ReadQuote(role, "}");
  }

  /** The stored text determines the record: Deserialize, a reader written for exactly this record shape (not a general JSON parser), inverts Serialize. */
  lemma SerializeRoundTrip(u: AuthUser)
    ensures Deserialize(Serialize(u)) == Some(u)
  {
    var s := Serialize(u);
    var roleText := RoleText(u.role);
    var afterEmail := Member("email", u.email) + roleText;
    var afterName := Member("fullname", u.fullname) + afterEmail;
    ReadRoleText(u.role);
    assert s[0] == '{' && s[1..] == afterName;
    assert |afterEmail| >= 2 && afterEmail[1] != 'f' by {
      if u.email.Some? {
        assert afterEmail[1] == KeyPrefix("email")[1];
      }
    }
    ReadOptionalMember("fullname", u.fullname, afterEmail);
    ReadOptionalMember("email", u.email, roleText);
  }

  /** Two different records are never stored as the same text. */
  lemma SerializeInjective(u: AuthUser, v: AuthUser)
    requires Serialize(u) == Serialize(v)
    ensures u == v
  {
    SerializeRoundTrip(u);
    SerializeRoundTrip(v);
  }
}
