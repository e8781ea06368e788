/**
 * The two uses the engine makes of a JSON library: reading a tag value as the body of
 * a JSON string literal (section 7 of RFC 8259), and writing a value back as a JSON
 * string with every non-printable or non-ASCII character escaped (Python's
 * `json.dumps` with its default `ensure_ascii`).
 */
module Json {
  import opened Wrappers
  import opened Strings

  function HexDigitValue(c: char): (v: nat)
    requires IsHexDigit(c)
    ensures v < 16
  {
    if '0' <= c <= '9' then c as int - '0' as int
    else if 'a' <= c <= 'f' then c as int - 'a' as int + 10
    else c as int - 'A' as int + 10
  }

  function HexDigit(v: nat): (c: char)
    requires v < 16
    ensures IsHexDigit(c) && HexDigitValue(c) == v
  {
    if v < 10 then ('0' as int + v) as char else ('a' as int + v - 10) as char
  }

  /** Four lower-case hex digits, as `'\\u{0:04x}'` writes them. */
  function Hex4(n: nat): (r: string)
    requires n < 0x10000
    ensures |r| == 4 && forall i :: 0 <= i < 4 ==> IsHexDigit(r[i])
  {
    [HexDigit(n / 4096), HexDigit(n / 256 % 16), HexDigit(n / 16 % 16), HexDigit(n % 16)]
  }

  function Hex4Value(s: string): (v: nat)
    requires |s| == 4 && forall i :: 0 <= i < 4 ==> IsHexDigit(s[i])
    ensures v < 0x10000
  {
    HexDigitValue(s[0]) * 4096 + HexDigitValue(s[1]) * 256 + HexDigitValue(s[2]) * 16 + HexDigitValue(s[3])
  }

  predicate IsHex4(s: string)
  {
    |s| == 4 && forall i :: 0 <= i < 4 ==> IsHexDigit(s[i])
  }

  lemma Hex4RoundTrip(n: nat)
    requires n < 0x10000
    ensures Hex4Value(Hex4(n)) == n
  {
    var h := Hex4(n);
    assert HexDigitValue(h[0]) == n / 4096;
    assert HexDigitValue(h[1]) == n / 256 % 16;
    assert HexDigitValue(h[2]) == n / 16 % 16;
    assert HexDigitValue(h[3]) == n % 16;
    assert n / 256 == (n / 4096) * 16 + n / 256 % 16;
    assert n / 16 == (n / 256) * 16 + n / 16 % 16;
    assert n == (n / 16) * 16 + n % 16;
  }

  predicate IsHighSurrogate(u: nat) { 0xD800 <= u <= 0xDBFF }

  predicate IsLowSurrogate(u: nat) { 0xDC00 <= u <= 0xDFFF }

  /**
   * Decodes one escape sequence at the head of `v` (which starts with a backslash):
   * the decoded text and how many characters it used, or None for an invalid escape.
   * A high surrogate must be followed by a `\u` low surrogate; the pair decodes to
   * one character.
   */
  function DecodeEscape(v: string): (r: Option<(string, nat)>)
    requires |v| >= 1 && v[0] == '\\'
    ensures r.Some? ==> 2 <= r.value.1 <= |v|
  {
    if |v| < 2 then None
    else match v[1]
      case '"' => Some(("\"", 2))
      case '\\' => Some(("\\", 2))
      case '/' => Some(("/", 2))
      case 'b' => Some(("\U{8}", 2))
      case 'f' => Some(("\U{c}", 2))
      case 'n' => Some(("\n", 2))
      case 'r' => Some(("\r", 2))
      case 't' => Some(("\t", 2))
      case 'u' =>
        if |v| < 6 || !IsHex4(v[2..6]) then None
        else
          var u := Hex4Value(v[2..6]);
          if IsLowSurrogate(u) then None
          else if !IsHighSurrogate(u) then Some(([u as char], 6))
          else if |v| < 12 || v[6..8] != "\\u" || !IsHex4(v[8..12]) then None
          else
            var lo := Hex4Value(v[8..12]);
            if !IsLowSurrogate(lo) then None
            else Some(([(0x10000 + (u - 0xD800) * 1024 + (lo - 0xDC00)) as char], 12))
      case _ => None
  }

  /**
   * `json.loads('"' + v + '"')`: the value of the JSON string whose body is `v`.
   * An unescaped `"` in `v` ends the literal early and leaves text behind it that is
   * not white space, and a raw control character is refused, so both fail.
   */
  function DecodeBody(v: string): (r: Option<string>)
    decreases |v|
  {
    if v == [] then Some([])
    else if v[0] == '"' || v[0] < ' ' then None
    else if v[0] != '\\' then
      match DecodeBody(v[1..])
      case None => None
      case Some(rest) => Some([v[0]] + rest)
    else
      match DecodeEscape(v)
      case None => None
      case Some((d, n)) =>
        match DecodeBody(v[n..])
        case None => None
        case Some(rest) => Some(d + rest)
  }

  /** How `json.dumps` writes one character inside a string literal. */
  function EncodeChar(c: char): (r: string)
    ensures |r| >= 1
  {
    if c == '"' then "\\\""
    else if c == '\\' then "\\\\"
    else if c == '\n' then "\\n"
    else if c == '\r' then "\\r"
    else if c == '\t' then "\\t"
    else if c == '\U{8}' then "\\b"
    else if c == '\U{c}' then "\\f"
    else if ' ' <= c <= '~' then [c]
    else if (c as int) < 0x10000 then "\\u" + Hex4(c as int)
    else
      var v := c as int - 0x10000;
      "\\u" + Hex4(0xD800 + v / 1024) + "\\u" + Hex4(0xDC00 + v % 1024)
  }

  /** The body of `json.dumps(s)`, without the enclosing quotes. */
  function EncodeBody(s: string): (r: string)
  {
    if s == [] then [] else EncodeChar(s[0]) + EncodeBody(s[1..])
  }

  /** `json.dumps(s)`: the whole literal, printable ASCII only. */
  function Encode(s: string): (r: string)
    ensures |r| >= 2 && r[0] == '"' && r[|r| - 1] == '"'
  {
    "\"" + EncodeBody(s) + "\""
  }

  /** Decoding text that starts with a valid escape: the escape's text, then the rest. */
  lemma DecodeAfterEscape(v: string, d: string, n: nat)
    requires |v| >= 1 && v[0] == '\\' && DecodeEscape(v) == Some((d, n))
    ensures DecodeBody(v) ==
      match DecodeBody(v[n..])
      case None => None
      case Some(t) => Some(d + t)
  {
  }

  lemma DecodeBmpEscape(c: char, rest: string)
    requires (c as int) < 0x10000 && !(' ' <= c <= '~')
    requires c !in "\"\\\n\r\t\U{8}\U{c}"
    ensures DecodeEscape("\\u" + Hex4(c as int) + rest) == Some(([c], 6))
  {
    var v := "\\u" + Hex4(c as int) + rest;
    Hex4RoundTrip(c as int);
    assert v[2..6] == Hex4(c as int);
  }

  lemma DecodePairEscape(c: char, rest: string)
    requires (c as int) >= 0x10000
    ensures var x := c as int - 0x10000;
      DecodeEscape("\\u" + Hex4(0xD800 + x / 1024) + "\\u" + Hex4(0xDC00 + x % 1024) + rest) == Some(([c], 12))
  {
    var x := c as int - 0x10000;
    var v := "\\u" + Hex4(0xD800 + x / 1024) + "\\u" + Hex4(0xDC00 + x % 1024) + rest;
    Hex4RoundTrip(0xD800 + x / 1024);
    Hex4RoundTrip(0xDC00 + x % 1024);
    assert v[2..6] == Hex4(0xD800 + x / 1024);
    assert v[6..8] == "\\u";
    assert v[8..12] == Hex4(0xDC00 + x % 1024);
    assert 0x10000 + x / 1024 * 1024 + x % 1024 == c as int;
  }

  lemma DecodeOneChar(c: char, rest: string)
    ensures DecodeBody(EncodeChar(c) + rest) ==
      match DecodeBody(rest)
      case None => None
      case Some(t) => Some([c] + t)
  {
    var e := EncodeChar(c);
    var v := e + rest;
    assert v[|e|..] == rest;
    if ' ' <= c <= '~' && c != '"' && c != '\\' {
      assert e == [c];
    } else if c in "\"\\\n\r\t\U{8}\U{c}" {
      assert |e| == 2 && v[0] == '\\';
      assert DecodeEscape(v) == Some(([c], 2));
      DecodeAfterEscape(v, [c], 2);
    } else if (c as int) < 0x10000 {
      DecodeBmpEscape(c, rest);
      assert v == "\\u" + Hex4(c as int) + rest;
      DecodeAfterEscape(v, [c], 6);
    } else {
      DecodePairEscape(c, rest);
      var x := c as int - 0x10000;
      assert v == "\\u" + Hex4(0xD800 + x / 1024) + "\\u" + Hex4(0xDC00 + x % 1024) + rest;
      DecodeAfterEscape(v, [c], 12);
    }
  }

  /** Reading back what `json.dumps` wrote gives the original string. */
  lemma {:induction false} DecodeEncode(s: string)
    ensures DecodeBody(EncodeBody(s)) == Some(s)
  {
    if s != [] {
      DecodeEncode(s[1..]);
      DecodeOneChar(s[0], EncodeBody(s[1..]));
      assert [s[0]] + s[1..] == s;
    }
  }

  /** Every character is printable ASCII. */
  predicate Printable(s: string)
  {
    forall i :: 0 <= i < |s| ==> ' ' <= s[i] <= '~'
  }

  /** Every `"` comes right after a backslash. */
  predicate QuotesEscaped(s: string)
  {
    forall i :: 0 <= i < |s| && s[i] == '"' ==> i > 0 && s[i - 1] == '\\'
  }

  lemma EncodeCharShape(c: char)
    ensures Printable(EncodeChar(c)) && QuotesEscaped(EncodeChar(c))
  {
    var e := EncodeChar(c);
    assert forall i :: 0 <= i < |e| && e[i] == '"' ==> i == 1 && e[0] == '\\';
  }

  lemma ShapeAppend(a: string, b: string)
    requires Printable(a) && QuotesEscaped(a) && Printable(b) && QuotesEscaped(b)
    ensures Printable(a + b) && QuotesEscaped(a + b)
  {
    var ab := a + b;
    forall i | 0 <= i < |ab| && ab[i] == '"'
      ensures i > 0 && ab[i - 1] == '\\'
    {
      if i >= |a| {
        assert ab[i] == b[i - |a|];
      }
    }
  }

  /** `json.dumps` output is printable ASCII in which no `"` stands unescaped. */
  lemma {:induction false} EncodeBodyShape(s: string)
    ensures Printable(EncodeBody(s)) && QuotesEscaped(EncodeBody(s))
  {
    if s != [] {
      EncodeBodyShape(s[1..]);
      EncodeCharShape(s[0]);
      ShapeAppend(EncodeChar(s[0]), EncodeBody(s[1..]));
    }
  }
}
