/**
 * The HTML helpers the renderers call: werkzeug's `escape`, `url_quote` (percent
 * encoding of section 2.1 of RFC 3986 over the UTF-8 bytes) and its HTML builder,
 * which escapes attribute values but writes children as given.
 */
module Markup {
  import opened Strings

  /** `escape(s, quote)`: `&`, `<`, `>` always, and `"` when `quote` is set. */
  function EscapeChar(c: char, quote: bool): (r: string)
    ensures '<' !in r && '>' !in r
    ensures quote ==> '"' !in r
    ensures r != [] && (r[|r| - 1] == '\n' <==> c == '\n')
  {
    if c == '&' then "&amp;"
    else if c == '<' then "&lt;"
    else if c == '>' then "&gt;"
    else if c == '"' && quote then "&quot;"
    else [c]
  }

  function Escape(s: string, quote: bool): (r: string)
    ensures '<' !in r && '>' !in r
    ensures quote ==> '"' !in r
    ensures (forall i :: 0 <= i < |s| ==> s[i] !in "&<>\"") ==> r == s
    ensures s == [] <==> r == []
    ensures s != [] ==> (r[|r| - 1] == '\n' <==> s[|s| - 1] == '\n')
  {
    if s == [] then [] else EscapeChar(s[0], quote) + Escape(s[1..], quote)
  }

  /** The extra characters the tag renderers leave unquoted in URLs (`URL_QUOTE_SAFE`). */
  const UrlQuoteSafe: string := "/:;\"%&#()=?"

  /** Characters `url_quote` never encodes. */
  predicate AlwaysSafe(c: char)
  {
    IsAsciiLetter(c) || IsAsciiDigit(c) || c == '_' || c == '.' || c == '-'
  }

  /** The UTF-8 encoding of one character. */
  function Utf8(c: char): (r: seq<nat>)
    ensures 1 <= |r| <= 4 && forall i :: 0 <= i < |r| ==> r[i] < 256
    ensures (c as int) < 128 <==> |r| == 1
    ensures |r| == 1 ==> r[0] == c as int
  {
    var n := c as int;
    if n < 0x80 then [n]
    else if n < 0x800 then [0xC0 + n / 64, 0x80 + n % 64]
    else if n < 0x10000 then [0xE0 + n / 4096, 0x80 + n / 64 % 64, 0x80 + n % 64]
    else [0xF0 + n / 262144, 0x80 + n / 4096 % 64, 0x80 + n / 64 % 64, 0x80 + n % 64]
  }

  /** The characters percent-encoded text can hold. */
  predicate QuotedChar(c: char, safe: string)
  {
    AlwaysSafe(c) || c in safe || c == '%' || IsAsciiDigit(c) || 'A' <= c <= 'F'
  }

  function UpperHex(v: nat): (c: char)
    requires v < 16
    ensures IsAsciiDigit(c) || 'A' <= c <= 'F'
  {
    if v < 10 then ('0' as int + v) as char else ('A' as int + v - 10) as char
  }

  function QuoteBytes(bs: seq<nat>, safe: string): (r: string)
    requires forall i :: 0 <= i < |bs| ==> bs[i] < 256
    ensures forall i :: 0 <= i < |r| ==> QuotedChar(r[i], safe)
  {
    if bs == [] then []
    else
      var b := bs[0];
      var head := if b < 128 && (AlwaysSafe(b as char) || b as char in safe) then [b as char]
                  else ['%', UpperHex(b / 16), UpperHex(b % 16)];
      head + QuoteBytes(bs[1..], safe)
  }

  /** `url_quote(s, safe)`: every UTF-8 byte outside the safe sets becomes `%XX`. */
  function UrlQuote(s: string, safe: string): (r: string)
    ensures forall i :: 0 <= i < |r| ==> QuotedChar(r[i], safe)
  {
    if s == [] then [] else QuoteBytes(Utf8(s[0]), safe) + UrlQuote(s[1..], safe)
  }

  /** The text the renderers put inside `href="..."` and `src="..."`. */
  function UrlAttribute(url: string): string
  {
    Escape(UrlQuote(url, UrlQuoteSafe), true)
  }

  /** A percent-encoded URL holds no quote, space or line break. */
  lemma QuotedCharInert(c: char)
    requires QuotedChar(c, UrlQuoteSafe)
    ensures c != '\'' && c != ' ' && c != '\n'
  {
  }

  /** A URL rendered as an attribute can neither close the attribute nor open a tag, nor contain white space. */
  lemma UrlAttributeIsInert(url: string)
    ensures var a := UrlAttribute(url); '"' !in a && '<' !in a && '>' !in a && '\'' !in a && ' ' !in a && '\n' !in a
  {
    var q := UrlQuote(url, UrlQuoteSafe);
    var a := Escape(q, true);
    EscapeKeeps(q, true);
    forall c | c in a
      ensures c != '\'' && c != ' ' && c != '\n'
    {
      if c in q {
        var i :| 0 <= i < |q| && q[i] == c;
        QuotedCharInert(c);
      } else {
        assert c in EntityLetters;
      }
    }
  }

  /** The characters of `&amp;`, `&lt;`, `&gt;` and `&quot;`. */
  const EntityLetters: string := "&;ampltgquo"

  lemma EscapeCharKeeps(c: char, quote: bool)
    ensures forall x :: x in EscapeChar(c, quote) ==> x == c || x in EntityLetters
  {
  }

  /** Escaping introduces no character outside the input's and the entity letters. */
  lemma {:induction false} EscapeKeeps(s: string, quote: bool)
    ensures forall c :: c in Escape(s, quote) ==> c in s || c in EntityLetters
  {
    if s != [] {
      EscapeKeeps(s[1..], quote);
      EscapeCharKeeps(s[0], quote);
      var head, tail := EscapeChar(s[0], quote), Escape(s[1..], quote);
      assert Escape(s, quote) == head + tail;
      assert forall c :: c in s[1..] ==> c in s;
    }
  }

  /** ` k1="v1" k2="v2"`, each value escaped with quotes. */
  function Attributes(attrs: seq<(string, string)>): string
  {
    if attrs == [] then [] else " " + attrs[0].0 + "=\"" + Escape(attrs[0].1, true) + "\"" + Attributes(attrs[1..])
  }

  /**
   * `html_builder.<tag>(*children, **attrs)` for an element with a closing tag.
   * The builder writes attributes in dictionary order; the model fixes the order given.
   */
  function Element(tag: string, attrs: seq<(string, string)>, children: seq<string>): string
  {
    "<" + tag + Attributes(attrs) + ">" + Concat(children) + CloseTag(tag)
  }

  /** An element with one child is its opening tag, the child and its closing tag. */
  lemma ElementOne(tag: string, attrs: seq<(string, string)>, child: string)
    ensures Element(tag, attrs, [child]) == EmptyElement(tag, attrs) + child + CloseTag(tag)
  {
    assert [child][1..] == [];
    assert Concat([child]) == child + Concat([]);
  }

  function CloseTag(tag: string): string
  {
    "</" + tag + ">"
  }

  /** `html_builder.embed(**attrs)`: an empty element written without a closing tag. */
  function EmptyElement(tag: string, attrs: seq<(string, string)>): string
  {
    "<" + tag + Attributes(attrs) + ">"
  }

  /** How many tags a text opens: the number of its `<` characters. */
  function Opens(s: string): (n: nat)
    ensures n == 0 <==> '<' !in s
    ensures n <= |s|
  {
    if s == [] then 0 else (if s[0] == '<' then 1 else 0) + Opens(s[1..])
  }

  lemma {:induction false} OpensAppend(a: string, b: string)
    ensures Opens(a + b) == Opens(a) + Opens(b)
  {
    if a != [] {
      assert (a + b)[0] == a[0];
      assert (a + b)[1..] == a[1..] + b;
      OpensAppend(a[1..], b);
    } else {
      assert a + b == b;
    }
  }

  /** The one character `<` opens one tag. */
  lemma OpensLt()
    ensures Opens("<") == 1
  {
    assert "<"[1..] == [];
  }

  /** Text written around two tag starts opens those two tags and whatever the text opens. */
  lemma TwoTagsOpen(x: string, y: string)
    ensures Opens("<" + x + "<" + y) == 2 + Opens(x) + Opens(y)
  {
    OpensLt();
    OpensAppend("<", x);
    OpensAppend("<" + x, "<");
    OpensAppend("<" + x + "<", y);
  }

  /** Attribute values are escaped, so attributes with plain names open no tag. */
  lemma {:induction false} AttributesOpenNothing(attrs: seq<(string, string)>)
    requires forall i :: 0 <= i < |attrs| ==> '<' !in attrs[i].0
    ensures Opens(Attributes(attrs)) == 0
  {
    if attrs != [] {
      AttributesOpenNothing(attrs[1..]);
      var e := Escape(attrs[0].1, true);
      var rest := Attributes(attrs[1..]);
      var x := " " + attrs[0].0 + "=\"" + e + "\"" + rest;
      assert Attributes(attrs) == x;
      assert '<' !in e && '<' !in attrs[0].0 && '<' !in rest;
      assert '<' !in x;
    }
  }

  /** The opening tag `<tag attrs>` opens one tag. */
  lemma OpenTagOpens(tag: string, attrs: seq<(string, string)>)
    requires '<' !in tag && forall i :: 0 <= i < |attrs| ==> '<' !in attrs[i].0
    ensures Opens(EmptyElement(tag, attrs)) == 1
  {
    AttributesOpenNothing(attrs);
    var t := tag + Attributes(attrs) + ">";
    assert '<' !in t;
    OpensAppend("<", t);
    OpensLt();
    assert EmptyElement(tag, attrs) == "<" + t;
  }

  /** The closing tag opens one tag. */
  lemma CloseTagOpens(tag: string)
    requires '<' !in tag
    ensures Opens(CloseTag(tag)) == 1
  {
    var t := "/" + tag + ">";
    assert '<' !in t;
    OpensAppend("<", t);
    OpensLt();
    assert CloseTag(tag) == "<" + t;
  }

  /** An element opens its own two tags and whatever its children open. */
  lemma ElementOpens(tag: string, attrs: seq<(string, string)>, children: seq<string>)
    requires '<' !in tag && forall i :: 0 <= i < |attrs| ==> '<' !in attrs[i].0
    ensures Opens(Element(tag, attrs, children)) == 2 + Opens(Concat(children))
  {
    var o, c, e := EmptyElement(tag, attrs), Concat(children), CloseTag(tag);
    OpenTagOpens(tag, attrs);
    CloseTagOpens(tag);
    OpensAppend(o, c);
    OpensAppend(o + c, e);
    assert Element(tag, attrs, children) == o + c + e;
  }

  /** Python's `str(n)` for an integer. */
  function IntToString(n: int): (r: string)
    ensures |r| >= 1
  {
    if n < 0 then "-" + NatToString(-n) else NatToString(n)
  }

  function NatToString(n: nat): (r: string)
    ensures |r| >= 1 && forall i :: 0 <= i < |r| ==> IsAsciiDigit(r[i])
  {
    if n < 10 then [('0' as int + n) as char] else NatToString(n / 10) + [('0' as int + n % 10) as char]
  }
}
