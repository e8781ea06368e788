/**
 * The BBCode parser of contribs/bbcode/core.py: source normalisation, the scan for an
 * unescaped delimiter, the opening-tag header, the closer, and the `BBCode` object whose
 * bounded stack of open tags drives the recursive descent.
 */
module Parser {
  import opened Wrappers
  import opened Strings
  import Json
  import opened Nodes
  import opened Registry
  import opened Services
  import Tags

  /** `MAXIMUM_DEPTH`: at most this many tags are open at once. */
  const MaximumDepth: nat := 256

  // ---- normalisation ----

  /** `\r\n` and lone `\r` become `\n`; a no-break space becomes a space. */
  function Normalize(s: string): (r: string)
    ensures '\r' !in r && '\U{a0}' !in r
    ensures |r| <= |s|
  {
    if s == [] then []
    else if s[0] == '\r' && |s| >= 2 && s[1] == '\n' then "\n" + Normalize(s[2..])
    else if s[0] == '\r' then "\n" + Normalize(s[1..])
    else if s[0] == '\U{a0}' then " " + Normalize(s[1..])
    else [s[0]] + Normalize(s[1..])
  }

  /** Normalised text is left as it is: normalising twice is normalising once. */
  lemma {:induction false} NormalizeFixes(s: string)
    requires '\r' !in s && '\U{a0}' !in s
    ensures Normalize(s) == s
  {
    if s != [] {
      assert '\r' !in s[1..] && '\U{a0}' !in s[1..];
      NormalizeFixes(s[1..]);
    }
  }

  lemma NormalizeIdempotent(s: string)
    ensures Normalize(Normalize(s)) == Normalize(s)
  {
    NormalizeFixes(Normalize(s));
  }

  // ---- next_not_escaped_markup ----

  /** What a call of `next_not_escaped_markup` as written can end in. */
  datatype Scan =
    | Found(value: string, end: int)   // returns `(source[:end], end)`
    | SyntaxError                      // raises BBCodeSyntaxError
    | IndexCrash                       // raises IndexError
    | Hang                             // never returns

  /** A delimiter at `i` counts unless the character before it is a backslash. */
  predicate Unescaped(s: string, i: nat, markup: char)
    requires i < |s|
  {
    s[i] == markup && (i == 0 || s[i - 1] != '\\')
  }

  /**
   * The loop of `next_not_escaped_markup` from position `end`. When `find` fails the code
   * reads `source[-2]`: a one-character source raises IndexError; if that character is not
   * a backslash it returns everything but the last character with end -1; otherwise `end`
   * restarts at 0, the same escaped hits are passed again and `find` fails again, forever.
   */
  function ScanFrom(s: string, markup: char, end: nat): (r: Scan)
    decreases |s| - end
    ensures r.Found? && r.end >= 0 ==>
      && end <= r.end < |s| && Unescaped(s, r.end, markup) && r.value == s[..r.end]
      && forall j :: end <= j < r.end ==> !Unescaped(s, j, markup)
    ensures !(r.Found? && r.end >= 0) ==> forall j :: end <= j < |s| ==> !Unescaped(s, j, markup)
    ensures r.Found? && r.end < 0 ==> r.end == -1 && |s| >= 2 && r.value == s[..|s| - 1]
  {
    if end >= |s| then SyntaxError
    else
      var k := FindFrom(s, markup, end);
      if k == -1 then
        if |s| < 2 then IndexCrash
        else if s[|s| - 2] != '\\' then Found(s[..|s| - 1], -1)
        else Hang
      else if k == 0 || s[k - 1] != '\\' then Found(s[..k], k)
      else ScanFrom(s, markup, k + 1)
  }

  /**
   * `next_not_escaped_markup` as written: where an unescaped delimiter exists it returns the
   * first one; anything else it does means there is none.
   */
  function NextNotEscapedAsWritten(s: string, markup: char): (r: Scan)
    ensures r.Found? && r.end >= 0 ==> NextUnescaped(s, markup) == Some(r.end) && r.value == s[..r.end]
    ensures !(r.Found? && r.end >= 0) <==> NextUnescaped(s, markup).None?
  {
    ScanFrom(s, markup, 0)
  }

  /** The first delimiter not preceded by a backslash, or nothing: a missing one is a syntax error. */
  function NextUnescaped(s: string, markup: char): (r: Option<nat>)
    ensures r.Some? ==> r.value < |s| && Unescaped(s, r.value, markup)
    ensures r.Some? ==> forall i :: 0 <= i < r.value ==> !Unescaped(s, i, markup)
    ensures r.None? ==> forall i :: 0 <= i < |s| ==> !Unescaped(s, i, markup)
  {
    NextUnescapedFrom(s, markup, 0)
  }

  function NextUnescapedFrom(s: string, markup: char, from: nat): (r: Option<nat>)
    decreases |s| - from
    ensures r.Some? ==> from <= r.value < |s| && Unescaped(s, r.value, markup)
    ensures r.Some? ==> forall i :: from <= i < r.value ==> !Unescaped(s, i, markup)
    ensures r.None? ==> forall i :: from <= i < |s| ==> !Unescaped(s, i, markup)
  {
    if from >= |s| then None
    else if Unescaped(s, from, markup) then Some(from)
    else NextUnescapedFrom(s, markup, from + 1)
  }

  /** Where an unescaped delimiter exists, the code as written finds the same one. */
  lemma {:induction false} ScanFromAgrees(s: string, markup: char, end: nat, i: nat)
    requires end <= i < |s| && Unescaped(s, i, markup)
    requires forall j :: end <= j < i ==> !Unescaped(s, j, markup)
    ensures ScanFrom(s, markup, end) == Found(s[..i], i)
    decreases |s| - end
  {
    var k := FindFrom(s, markup, end);
    assert k != -1 && k <= i;
    if k < i {
      assert !Unescaped(s, k, markup);
      ScanFromAgrees(s, markup, k + 1, i);
    }
  }

  lemma ScanAgreesWhenFound(s: string, markup: char)
    requires NextUnescaped(s, markup).Some?
    ensures var i := NextUnescaped(s, markup).value;
      NextNotEscapedAsWritten(s, markup) == Found(s[..i], i)
  {
    ScanFromAgrees(s, markup, 0, NextUnescaped(s, markup).value);
  }

  /** A one-character value with no closing quote makes the code as written raise IndexError. */
  lemma ScanCrashes()
    ensures NextNotEscapedAsWritten("x", '"') == IndexCrash
  {
  }

  /** With no delimiter and a backslash before the last character, the loop never ends. */
  lemma ScanHangs()
    ensures NextNotEscapedAsWritten("a\\b", '"') == Hang
  {
    assert FindFrom("a\\b", '"', 0) == -1;
  }

  /** With no delimiter at all the code as written returns a value and a position of -1. */
  lemma ScanInventsValue()
    ensures NextNotEscapedAsWritten("]abc", '"') == Found("]ab", -1)
    ensures NextUnescaped("]abc", '"') == None
  {
    assert FindFrom("]abc", '"', 0) == -1;
  }

  // ---- values ----

  /** `s.replace(c, repl)` for one character. */
  function ReplaceChar(s: string, c: char, repl: string): (r: string)
    ensures c !in repl ==> c !in r
  {
    if s == [] then [] else (if s[0] == c then repl else [s[0]]) + ReplaceChar(s[1..], c, repl)
  }

  lemma {:induction false} ReplaceCharAppend(a: string, b: string, c: char, repl: string)
    ensures ReplaceChar(a + b, c, repl) == ReplaceChar(a, c, repl) + ReplaceChar(b, c, repl)
  {
    if a != [] {
      assert (a + b)[0] == a[0] && (a + b)[1..] == a[1..] + b;
      ReplaceCharAppend(a[1..], b, c, repl);
    } else {
      assert a + b == b;
    }
  }

  lemma {:induction false} ReplaceCharAbsent(s: string, c: char, repl: string)
    requires c !in s
    ensures ReplaceChar(s, c, repl) == s
  {
    if s != [] {
      ReplaceCharAbsent(s[1..], c, repl);
    }
  }

  /** One occurrence of `c`, between two pieces without it, becomes `repl`. */
  lemma ReplaceCharAround(a: string, b: string, c: char, repl: string)
    requires c !in a && c !in b
    ensures ReplaceChar(a + [c] + b, c, repl) == a + repl + b
  {
    ReplaceCharAppend(a + [c], b, c, repl);
    ReplaceCharAppend(a, [c], c, repl);
    ReplaceCharAbsent(a, c, repl);
    ReplaceCharAbsent(b, c, repl);
    assert ReplaceChar([c], c, repl) == repl + ReplaceChar([], c, repl);
  }

  /** The chain of replacements a bare `=value` goes through before it is decoded, as written. */
  function BareEscapeAsWritten(v: string): string
  {
    ReplaceChar(ReplaceChar(ReplaceChar(ReplaceChar(v, '"', "\\\""), '\n', "\\n"), '\'', "\\'"), '\\', "\\\\")
  }

  /** The bare value as written: a typed `"` always makes the tag literal text. */
  function BareValueAsWritten(v: string): Option<string>
  {
    Json.DecodeBody(BareEscapeAsWritten(v))
  }

  /**
   * The bare value as evidently intended: the value as typed, that is
   * `json.loads(json.dumps(v))`, so every value, quotes and line breaks included, reads back
   * unchanged.
   */
  function BareValue(v: string): (r: Option<string>)
    ensures r == Some(v)
  {
    Json.DecodeEncode(v);
    Json.DecodeBody(Json.EncodeBody(v))
  }

  /** Every character of a replacement's result comes from the text or from the replacement. */
  lemma {:induction false} ReplaceCharFrom(s: string, c: char, repl: string)
    ensures forall x :: x in ReplaceChar(s, c, repl) ==> x in s || x in repl
  {
    if s != [] {
      ReplaceCharFrom(s[1..], c, repl);
      assert forall x :: x in s[1..] ==> x in s;
    }
  }

  /** A character other than the replaced one, or one the replacement holds, survives. */
  lemma {:induction false} ReplaceCharKeeps(s: string, c: char, repl: string, x: char)
    requires x in s && (x != c || x in repl)
    ensures x in ReplaceChar(s, c, repl)
  {
    if s[0] != x {
      assert x in s[1..];
      ReplaceCharKeeps(s[1..], c, repl, x);
    }
  }

  /** A character the body of a JSON string may hold unescaped. */
  predicate JsonPlain(c: char)
  {
    c != '"' && c >= ' '
  }

  /** A body whose backslashes are all doubled decodes to the undoubled text, unless it holds a quote or a control character. */
  lemma {:induction false} DecodeDoubled(u: string)
    ensures Json.DecodeBody(ReplaceChar(u, '\\', "\\\\"))
      == if forall i :: 0 <= i < |u| ==> JsonPlain(u[i]) then Some(u) else None
  {
    if u != [] {
      DecodeDoubled(u[1..]);
      var rest := ReplaceChar(u[1..], '\\', "\\\\");
      var d := ReplaceChar(u, '\\', "\\\\");
      assert forall i :: 1 <= i < |u| ==> u[i] == u[1..][i - 1];
      if u[0] == '\\' {
        assert d == "\\\\" + rest;
        assert d[2..] == rest;
        assert d[0] == '\\' && d[1] == '\\';
        assert Json.DecodeEscape(d) == Some(("\\", 2));
        assert JsonPlain(u[0]);
        assert "\\" + u[1..] == u;
      } else {
        assert d == [u[0]] + rest;
        assert d[0] == u[0] && d[1..] == rest;
        assert [u[0]] + u[1..] == u;
      }
    }
  }

  /** As written, a bare value holding `"` never decodes, whatever surrounds it. */
  lemma BareQuoteAlwaysRejected(v: string)
    requires '"' in v
    ensures BareValueAsWritten(v) == None
  {
    var u1 := ReplaceChar(v, '"', "\\\"");
    ReplaceCharKeeps(v, '"', "\\\"", '"');
    var u2 := ReplaceChar(u1, '\n', "\\n");
    ReplaceCharKeeps(u1, '\n', "\\n", '"');
    var u3 := ReplaceChar(u2, '\'', "\\'");
    ReplaceCharKeeps(u2, '\'', "\\'", '"');
    var i :| 0 <= i < |u3| && u3[i] == '"';
    DecodeDoubled(u3);
  }

  /** Escaping line breaks and apostrophes leaves only characters a JSON body may hold unescaped. */
  lemma EscapedIsPlain(v: string)
    requires forall i :: 0 <= i < |v| ==> v[i] == '\n' || JsonPlain(v[i])
    ensures var u := ReplaceChar(ReplaceChar(v, '\n', "\\n"), '\'', "\\'");
      forall i :: 0 <= i < |u| ==> JsonPlain(u[i])
  {
    var u2 := ReplaceChar(v, '\n', "\\n");
    var u3 := ReplaceChar(u2, '\'', "\\'");
    ReplaceCharFrom(v, '\n', "\\n");
    ReplaceCharFrom(u2, '\'', "\\'");
    assert '\n' !in u2;
    forall i | 0 <= i < |u3|
      ensures JsonPlain(u3[i])
    {
      assert u3[i] in u3;
      if u3[i] in u2 && u3[i] in v {
        var j :| 0 <= j < |v| && v[j] == u3[i];
      }
    }
  }

  /**
   * As written, a bare value without `"` or control characters other than line breaks
   * decodes, but with each line break turned into a backslash and `n`, and with a backslash
   * before each `'`.
   */
  lemma BareAsWrittenReads(v: string)
    requires forall i :: 0 <= i < |v| ==> v[i] == '\n' || JsonPlain(v[i])
    ensures BareValueAsWritten(v) == Some(ReplaceChar(ReplaceChar(v, '\n', "\\n"), '\'', "\\'"))
  {
    assert '"' !in v;
    ReplaceCharAbsent(v, '"', "\\\"");
    EscapedIsPlain(v);
    DecodeDoubled(ReplaceChar(ReplaceChar(v, '\n', "\\n"), '\'', "\\'"));
  }

  lemma EscapedApostrophe()
    ensures BareEscapeAsWritten("it" + "'" + "s") == "it" + "\\\\" + "'s"
  {
    var a, b := "it", "s";
    assert '"' !in a + "'" + b && '\n' !in a + "'" + b;
    ReplaceCharAbsent(a + "'" + b, '"', "\\\"");
    ReplaceCharAbsent(a + "'" + b, '\n', "\\n");
    ReplaceCharAround(a, b, '\'', "\\'");
    assert a + "\\'" + b == a + "\\" + "'s";
    ReplaceCharAround(a, "'s", '\\', "\\\\");
  }

  lemma DecodeEscapedApostrophe()
    ensures Json.DecodeBody("it" + "\\\\" + "'s") == Some("it" + "\\" + "'s")
  {
    var v := "it" + "\\" + "'s";
    assert Json.EncodeBody("s") == "s";
    assert Json.EncodeBody(v[3..]) == "'s";
    assert Json.EncodeBody(v[2..]) == "\\\\'s";
    assert Json.EncodeBody(v[1..]) == "t\\\\'s";
    assert Json.EncodeBody(v) == "it" + "\\\\" + "'s";
    Json.DecodeEncode(v);
  }

  /** As written, `it's` reads as `it\'s`; corrected, as typed. */
  lemma BareQuoteGainsBackslash()
    ensures BareValueAsWritten("it" + "'" + "s") == Some("it" + "\\" + "'s")
    ensures BareValue("it" + "'" + "s") == Some("it" + "'" + "s")
  {
    EscapedApostrophe();
    DecodeEscapedApostrophe();
  }

  /** As written, a double quote in a bare value is never accepted. */
  lemma BareDoubleQuoteRejected()
    ensures BareValueAsWritten("a" + "\"" + "b") == None
  {
    var a, b := "a", "b";
    ReplaceCharAround(a, b, '"', "\\\"");
    var u := a + "\\\"" + b;
    assert '\n' !in u && '\'' !in u;
    ReplaceCharAbsent(u, '\n', "\\n");
    ReplaceCharAbsent(u, '\'', "\\'");
    ReplaceCharAround(a, "\"" + b, '\\', "\\\\");
    var w := a + "\\\\" + "\"" + b;
    assert u == a + "\\" + ("\"" + b);
    assert BareEscapeAsWritten(a + "\"" + b) == w;
    assert w[0] == 'a' && w[1] == '\\' && w[2] == '\\' && w[3] == '"';
    assert Json.DecodeBody(w[3..]) == None;
    assert Json.DecodeEscape(w[1..]) == Some(("\\", 2));
    assert w[1..][2..] == w[3..];
    assert Json.DecodeBody(w[1..]) == None;
  }

  // ---- the opening tag's header and the closer ----
  //
  // The code keeps `part`, the input still to read, next to `offset`, the number of
  // characters read; `part` is always the input from `offset` on (slices clamp), so the
  // model keeps only the offset.

  /** `len_lstrip` at `o`: the offset after the white space there. */
  function SkipSpace(s: string, o: nat): (r: nat)
    ensures r == o + LeadingSpace(Drop(s, o))
    ensures r < |s| ==> !IsSpace(s[r])
    ensures o <= |s| ==> r <= |s|
  {
    o + LeadingSpace(Drop(s, o))
  }

  /** `part[:1] == c` at offset `o`. */
  predicate CharAt(s: string, o: nat, c: char)
  {
    o < |s| && s[o] == c
  }

  /** The first `n` characters of `s` make a whole tag: at least `[]`, closed by `]`. */
  predicate EndsTag(s: string, n: int)
  {
    2 <= n <= |s| && s[n - 1] == ']'
  }

  /** An opening tag's registry entry, its value, and the length of `[name=value]`. */
  datatype Head = Head(entry: Entry<TagKind>, value: Option<string>, offset: nat)

  /**
   * `parse_left` up to the closing `]`: `Err(k)` is `BBCodeSyntaxError(k)`. The name is the
   * first registry entry matching the input; the value is absent, quoted with `"` or `'`
   * (read as a JSON string body), or bare up to the first unescaped `]`.
   */
  function ParseHead(s: string, nodes: seq<Entry<TagKind>>): (r: Result<Head, nat>)
    ensures r.Err? ==> r.error >= 1
    ensures r.Ok? ==> EndsTag(s, r.value.offset)
    ensures r.Ok? ==> TagAt(s, nodes) == Some(r.value.entry)
  {
    match TagAt(s, nodes)
    case None => Err(SkipSpace(s, 1))
    case Some(e) => AfterName(s, e, SkipSpace(s, 1) + e.weight)
  }

  /** The registry entry `parse_left` picks: the first whose name heads the input after `[` and space. */
  function TagAt(s: string, nodes: seq<Entry<TagKind>>): (r: Option<Entry<TagKind>>)
    ensures r.Some? ==> r.value in nodes
  {
    match FirstMatch(nodes, Drop(s, SkipSpace(s, 1)))
    case None => None
    case Some(i) => Some(nodes[i])
  }

  /** After the name, at `o`: `]`, or `=` and a value. */
  function AfterName(s: string, e: Entry<TagKind>, o: nat): (r: Result<Head, nat>)
    requires 1 <= o
    ensures r.Err? ==> r.error >= 1
    ensures r.Ok? ==> r.value.entry == e && EndsTag(s, r.value.offset)
  {
    var o2 := SkipSpace(s, o);
    if CharAt(s, o2, ']') then
      assert s[o2 + 1 - 1] == ']';
      Ok(Head(e, None, o2 + 1))
    else if CharAt(s, o2, '=') then ValueHead(s, e, SkipSpace(s, o2 + 1))
    else Err(o2)
  }

  /** The value at `o`: quoted when it opens with either quote, bare otherwise. */
  function ValueHead(s: string, e: Entry<TagKind>, o: nat): (r: Result<Head, nat>)
    requires 1 <= o
    ensures r.Err? ==> r.error >= 1
    ensures r.Ok? ==> r.value.entry == e && EndsTag(s, r.value.offset)
  {
    if o < |s| && s[o] in "\"'" then QuotedValue(s, e, o + 1, s[o])
    else BareHead(s, e, o)
  }

  /** After an opening quote at `o - 1`: the value up to the closing quote, then `]`. */
  function QuotedValue(s: string, e: Entry<TagKind>, o: nat, quote: char): (r: Result<Head, nat>)
    requires 1 <= o <= |s|
    ensures r.Err? ==> r.error >= 1
    ensures r.Ok? ==> r.value.entry == e && EndsTag(s, r.value.offset)
  {
    var part := Drop(s, o);
    match NextUnescaped(part, quote)
    case None => Err(o)
    case Some(end) =>
      var o4 := SkipSpace(s, o + end + 1);
      if !CharAt(s, o4, ']') then Err(o4)
      else
        match Json.DecodeBody(part[..end])
        case None => Err(o4)
        case Some(v) => Ok(Head(e, Some(v), o4 + 1))
  }

  /** A bare value: everything up to the first unescaped `]`. */
  function BareHead(s: string, e: Entry<TagKind>, o: nat): (r: Result<Head, nat>)
    requires 1 <= o
    ensures r.Err? ==> r.error >= 1
    ensures r.Ok? ==> r.value.entry == e && EndsTag(s, r.value.offset)
  {
    var part := Drop(s, o);
    match NextUnescaped(part, ']')
    case None => Err(o)
    case Some(end) =>
      assert s[o + end] == part[end] == ']';
      var o4 := SkipSpace(s, o + end);
      assert EndsTag(s, o4 + 1) by { assert o4 == o + end; }
      match BareValue(part[..end])
      case None => Err(o4)
      case Some(v) => Ok(Head(e, Some(v), o4 + 1))
  }

  /**
   * `parse_right` without the pop: `Ok(k)` when the input opens with `[`, optional space,
   * `/`, the top entry's name in any case, optional space and `]`; `Err(k)` otherwise.
   */
  function Closer(s: string, stack: seq<(string, nat)>): (r: Result<nat, nat>)
    ensures r.Err? ==> r.error >= 1
    ensures r.Ok? ==> stack != [] && EndsTag(s, r.value)
    ensures stack == [] ==> r == Err(1)
  {
    if stack == [] then Err(1)
    else
      var o1 := SkipSpace(s, 1);
      if !CharAt(s, o1, '/') then Err(o1) else CloserName(s, SkipSpace(s, o1 + 1), stack[|stack| - 1])
  }

  /** After `[/` and space, at `o`: the top entry's name in any case, optional space and `]`. */
  function CloserName(s: string, o: nat, top: (string, nat)): (r: Result<nat, nat>)
    requires 1 <= o
    ensures r.Err? ==> r.error >= 1
    ensures r.Ok? ==> EndsTag(s, r.value)
  {
    if Lower(Take(Drop(s, o), top.1)) != top.0 then Err(o)
    else
      var o2 := SkipSpace(s, o + top.1);
      if !CharAt(s, o2, ']') then Err(o2)
      else
        assert s[o2 + 1 - 1] == ']';
        Ok(o2 + 1)
  }

  /** A closer names the top of the stack: any other open tag's name leaves it literal text. */
  lemma CloserNamesTop(s: string, stack: seq<(string, nat)>)
    requires Closer(s, stack).Ok?
    ensures var o2 := SkipSpace(s, SkipSpace(s, 1) + 1);
      Lower(Take(Drop(s, o2), stack[|stack| - 1].1)) == stack[|stack| - 1].0
  {
  }

  // ---- _append_plains ----

  /** A node `_append_plains` makes: a non-empty plain with a line break at most at its end, or an auto-link. */
  predicate LiteralNode(n: Node, regexes: seq<Entry<RegexKind>>)
  {
    match n
    case Plain(t) => t != [] && forall i :: 0 <= i < |t| - 1 ==> t[i] != '\n'
    case Regex(k, m, _) => m != [] && exists e :: e in regexes && e.kind == k
    case _ => false
  }

  /** The first auto-link pattern, in registry order, that matches anywhere in `s`. */
  function FirstRegexHit(svc: Services, regexes: seq<Entry<RegexKind>>, s: string, from: nat): (r: Option<(nat, Match)>)
    decreases |regexes| - from
    ensures r.Some? ==> from <= r.value.0 < |regexes| && svc.search(AutoLink(regexes[r.value.0].kind), s) == Some(r.value.1)
    ensures r.Some? ==> forall j :: from <= j < r.value.0 ==> svc.search(AutoLink(regexes[j].kind), s).None?
    ensures r.None? ==> forall j :: from <= j < |regexes| ==> svc.search(AutoLink(regexes[j].kind), s).None?
  {
    if from >= |regexes| then None
    else match svc.search(AutoLink(regexes[from].kind), s)
      case Some(m) => Some((from, m))
      case None => FirstRegexHit(svc, regexes, s, from + 1)
  }

  /** The `for` loop over the auto-link registry: the first pattern that matches wins, wherever it matches. */
  method FindRegex(svc: Services, regexes: seq<Entry<RegexKind>>, s: string) returns (hit: Option<(nat, Match)>)
    ensures hit == FirstRegexHit(svc, regexes, s, 0)
  {
    for j := 0 to |regexes|
      invariant FirstRegexHit(svc, regexes, s, 0) == FirstRegexHit(svc, regexes, s, j)
    {
      var m := svc.search(AutoLink(regexes[j].kind), s);
      if m.Some? {
        return Some((j, m.value));
      }
    }
    return None;
  }

  /** The text after the last regex hit, split at line breaks; an empty last line is dropped. */
  function LinePlains(lines: seq<string>): (r: seq<Node>)
    requires |lines| >= 1
  {
    if |lines| == 1 then (if lines[0] == [] then [] else [Plain(lines[0])])
    else [Plain(lines[0] + "\n")] + LinePlains(lines[1..])
  }

  lemma {:induction false} LinePlainsShape(lines: seq<string>, regexes: seq<Entry<RegexKind>>)
    requires |lines| >= 1 && forall i :: 0 <= i < |lines| ==> '\n' !in lines[i]
    ensures ChildrenMarkup(LinePlains(lines)) == Join("\n", lines)
    ensures forall n :: n in LinePlains(lines) ==> LiteralNode(n, regexes)
  {
    if |lines| == 1 {
      if lines[0] != [] {
        PlainMarkup(lines[0]);
      }
    } else {
      LinePlainsShape(lines[1..], regexes);
      var t := lines[0] + "\n";
      assert forall i :: 0 <= i < |t| - 1 ==> t[i] == lines[0][i];
      var r := LinePlains(lines);
      assert r[0] == Plain(t) && r[1..] == LinePlains(lines[1..]);
    }
  }

  /** A plain that ends a line: `_append_plains` cuts plain text only after a line break. */
  predicate EndsInBreak(n: Node)
  {
    n.Plain? && n.text != [] && n.text[|n.text| - 1] == '\n'
  }

  /** Two plain nodes stand side by side only where the first one ends a line. */
  predicate LineBroken(ns: seq<Node>)
  {
    forall i :: 0 <= i < |ns| - 1 && ns[i].Plain? && ns[i + 1].Plain? ==> EndsInBreak(ns[i])
  }

  /** Every line plain but the last ends in its line break. */
  lemma {:induction false} LinePlainsBreaks(lines: seq<string>)
    requires |lines| >= 1
    ensures forall i :: 0 <= i < |LinePlains(lines)| - 1 ==> EndsInBreak(LinePlains(lines)[i])
  {
    if |lines| > 1 {
      LinePlainsBreaks(lines[1..]);
      var t := lines[0] + "\n";
      assert t[|t| - 1] == '\n';
      assert LinePlains(lines) == [Plain(t)] + LinePlains(lines[1..]);
    }
  }

  lemma LineBrokenSnoc(b: seq<Node>, node: Node)
    requires LineBroken(b) && !node.Plain?
    ensures LineBroken(b + [node])
  {
    var c := b + [node];
    forall i | 0 <= i < |c| - 1 && c[i].Plain? && c[i + 1].Plain?
      ensures EndsInBreak(c[i])
    {
      assert i + 1 < |b| && c[i] == b[i] && c[i + 1] == b[i + 1];
    }
  }

  lemma LineBrokenAppend(a: seq<Node>, b: seq<Node>)
    requires LineBroken(a) && LineBroken(b) && (a == [] || !a[|a| - 1].Plain?)
    ensures LineBroken(a + b)
  {
    var c := a + b;
    forall i | 0 <= i < |c| - 1 && c[i].Plain? && c[i + 1].Plain?
      ensures EndsInBreak(c[i])
    {
      if i < |a| {
        assert i + 1 < |a| && c[i] == a[i] && c[i + 1] == a[i + 1];
      } else {
        assert c[i] == b[i - |a|] && c[i + 1] == b[i - |a| + 1];
      }
    }
  }

  /** What `_append_plains` has appended before the text still to split: literal nodes, lines cut at breaks. */
  predicate AppendedSoFar(added: seq<Node>, regexes: seq<Entry<RegexKind>>)
  {
    (forall n :: n in added ==> LiteralNode(n, regexes)) && LineBroken(added) &&
    (added == [] || added[|added| - 1].Regex?)
  }

  /** The text before a hit, then the hit itself, extend what was appended. */
  lemma AppendHit(added: seq<Node>, b: seq<Node>, node: Node, regexes: seq<Entry<RegexKind>>)
    requires AppendedSoFar(added, regexes)
    requires (forall n :: n in b ==> LiteralNode(n, regexes)) && LineBroken(b)
    requires node.Regex? && LiteralNode(node, regexes)
    ensures AppendedSoFar(added + (b + [node]), regexes)
  {
    LineBrokenSnoc(b, node);
    LineBrokenAppend(added, b + [node]);
  }

  lemma AppendedJoin(a: seq<Node>, b: seq<Node>, regexes: seq<Entry<RegexKind>>)
    requires AppendedSoFar(a, regexes) && AppendedSoFar(b, regexes) && b != []
    ensures AppendedSoFar(a + b, regexes)
  {
    LineBrokenAppend(a, b);
    assert (a + b)[|a + b| - 1] == b[|b| - 1];
  }

  /** The lines after the last hit end what was appended. */
  lemma AppendLines(added: seq<Node>, lines: seq<string>, regexes: seq<Entry<RegexKind>>)
    requires AppendedSoFar(added, regexes)
    requires |lines| >= 1 && forall i :: 0 <= i < |lines| ==> '\n' !in lines[i]
    ensures var r := added + LinePlains(lines);
      (forall n :: n in r ==> LiteralNode(n, regexes)) && LineBroken(r)
  {
    LinePlainsShape(lines, regexes);
    LinePlainsBreaks(lines);
    LineBrokenAppend(added, LinePlains(lines));
  }

  lemma {:induction false} ChildrenMarkupAppend(a: seq<Node>, b: seq<Node>)
    ensures ChildrenMarkup(a + b) == ChildrenMarkup(a) + ChildrenMarkup(b)
  {
    if a != [] {
      assert (a + b)[0] == a[0] && (a + b)[1..] == a[1..] + b;
      ChildrenMarkupAppend(a[1..], b);
    } else {
      assert a + b == b;
    }
  }

  /** Appending the nodes for a prefix of the remaining text keeps the raw text intact. */
  lemma AppendKeepsMarkup(added: seq<Node>, more: seq<Node>, rest: string, k: nat, plains: string)
    requires ChildrenMarkup(added) + rest == plains
    requires k <= |rest| && ChildrenMarkup(more) == rest[..k]
    ensures ChildrenMarkup(added + more) + rest[k..] == plains
  {
    ChildrenMarkupAppend(added, more);
    assert rest == rest[..k] + rest[k..];
  }

  lemma HitMarkup(b: seq<Node>, node: Node, rest: string, start: nat, stop: nat)
    requires start <= stop <= |rest| && ChildrenMarkup(b) == rest[..start]
    requires node.Regex? && node.matched == rest[start..stop]
    ensures ChildrenMarkup(b + [node]) == rest[..stop]
  {
    ChildrenMarkupAppend(b, [node]);
    assert ChildrenMarkup([node]) == rest[start..stop] + ChildrenMarkup([]);
    assert rest[..stop] == rest[..start] + rest[start..stop];
  }

  /**
   * `_append_plains`: the nodes it appends, in order. The first auto-link pattern that
   * matches takes its match; the text before it is handled the same way first; a match of
   * width zero is RuntimeError. The raw text of the nodes is exactly the input.
   */
  method AppendPlains(svc: Services, plains: string, regexes: seq<Entry<RegexKind>>) returns (r: Result<seq<Node>, Failure>)
    requires ValidSearch(svc)
    ensures r.Ok? ==> ChildrenMarkup(r.value) == plains
    ensures r.Ok? ==> forall n :: n in r.value ==> LiteralNode(n, regexes)
    ensures r.Err? ==> r.error == ZeroWidthMatch
    ensures regexes == [] ==> r == Ok(LinePlains(SplitOn(plains, '\n')))
    ensures r.Ok? ==> LineBroken(r.value)
    decreases |plains|, 1
  {
    var added: seq<Node> := [];
    var rest := plains;
    while rest != []
      invariant ChildrenMarkup(added) + rest == plains
      invariant AppendedSoFar(added, regexes)
      invariant regexes == [] ==> added == [] && rest == plains
      decreases |rest|
    {
      var hit := FindRegex(svc, regexes, rest);
      if hit.None? {
        PlainTail(added, rest, plains, regexes);
        return Ok(added + LinePlains(SplitOn(rest, '\n')));
      } else {
        var (i, m) := hit.value;
        if m.start == m.stop {
          return Err(ZeroWidthMatch);
        }
        var more := AppendMatch(svc, rest, regexes, i, m);
        if more.Err? {
          return more;
        }
        AppendKeepsMarkup(added, more.value, rest, m.stop, plains);
        AppendedJoin(added, more.value, regexes);
        added := added + more.value;
        rest := rest[m.stop..];
      }
    }
    assert regexes == [] ==> SplitOn(plains, '\n') == [plains];
    return Ok(added);
  }

  /** With no hit left, the rest of the text split at line breaks completes what was appended. */
  lemma PlainTail(added: seq<Node>, rest: string, plains: string, regexes: seq<Entry<RegexKind>>)
    requires ChildrenMarkup(added) + rest == plains && AppendedSoFar(added, regexes)
    requires regexes == [] ==> added == [] && rest == plains
    ensures var r := added + LinePlains(SplitOn(rest, '\n'));
      && ChildrenMarkup(r) == plains
      && (forall n :: n in r ==> LiteralNode(n, regexes)) && LineBroken(r)
      && (regexes == [] ==> r == LinePlains(SplitOn(plains, '\n')))
  {
    var lines := SplitOn(rest, '\n');
    LinePlainsShape(lines, regexes);
    JoinSplitOn(rest, '\n');
    AppendKeepsMarkup(added, LinePlains(lines), rest, |rest|, plains);
    assert rest[|rest|..] == [];
    AppendLines(added, lines, regexes);
  }

  /**
   * The body of `_append_plains`'s loop for a hit `m` of pattern `i`: the text before the
   * match, split the same way, then the regex node for the match.
   */
  method AppendMatch(svc: Services, rest: string, regexes: seq<Entry<RegexKind>>, i: nat, m: Match)
    returns (r: Result<seq<Node>, Failure>)
    requires ValidSearch(svc) && i < |regexes| && m.start < m.stop <= |rest|
    ensures r.Ok? ==> ChildrenMarkup(r.value) == rest[..m.stop] && AppendedSoFar(r.value, regexes) && r.value != []
    ensures r.Err? ==> r.error == ZeroWidthMatch
    decreases |rest|, 0
  {
    var before := rest[..m.start];
    var b: seq<Node> := [];
    if before != [] {
      var sub := AppendPlains(svc, before, regexes);
      if sub.Err? {
        return sub;
      }
      b := sub.value;
    }
    var node := Regex(regexes[i].kind, rest[m.start..m.stop], m.groups);
    assert regexes[i] in regexes;
    HitMarkup(b, node, rest, m.start, m.stop);
    AppendHit([], b, node, regexes);
    return Ok(b + [node]);
  }

  // ---- what a parse produces ----

  /** Tags nest at most `d` deep inside `n`. */
  predicate NestedWithin(n: Node, d: nat)
    decreases n
  {
    match n
    case Tag(_, _, _, cs, _) => d >= 1 && AllWithin(cs, d - 1)
    case Top(cs) => AllWithin(cs, d)
    case _ => true
  }

  /** Every node of `cs` nests at most `d` deep. */
  predicate AllWithin(cs: seq<Node>, d: nat)
    decreases cs
  {
    forall i :: 0 <= i < |cs| ==> NestedWithin(cs[i], d)
  }

  /** A node a parse with these registries can produce at its own level. */
  predicate Admitted(n: Node, nodes: seq<Entry<TagKind>>, regexes: seq<Entry<RegexKind>>)
  {
    LiteralNode(n, regexes) || (n.Tag? && exists e :: e in nodes && e.name == n.name && e.kind == n.kind)
  }

  /** Every node of `cs` is admitted. */
  predicate AllAdmitted(cs: seq<Node>, nodes: seq<Entry<TagKind>>, regexes: seq<Entry<RegexKind>>)
  {
    forall i :: 0 <= i < |cs| ==> Admitted(cs[i], nodes, regexes)
  }

  /** A tag whose class admits no children parses its content with empty registries. */
  lemma ScopeOfLeaf<K(!new)>(k: TagKind, base: seq<Entry<K>>)
    requires TagIncludes(k) == Some([])
    ensures Scope(k, base) == []
  {
  }

  /** Split text carries no tag and so nests in any depth. */
  lemma LiteralsFit(cs: seq<Node>, nodes: seq<Entry<TagKind>>, regexes: seq<Entry<RegexKind>>, d: nat)
    requires forall n :: n in cs ==> LiteralNode(n, regexes)
    ensures AllAdmitted(cs, nodes, regexes) && AllWithin(cs, d)
  {
    forall i | 0 <= i < |cs|
      ensures Admitted(cs[i], nodes, regexes) && NestedWithin(cs[i], d)
    {
      assert cs[i] in cs;
    }
  }

  /** A node that fits forms a list that does. */
  lemma SingleFits(n: Node, nodes: seq<Entry<TagKind>>, regexes: seq<Entry<RegexKind>>, d: nat)
    requires NodeFits(n, nodes, regexes, d)
    ensures AllAdmitted([n], nodes, regexes) && AllWithin([n], d)
  {
    assert [n][0] == n;
  }

  /** Both properties survive concatenation. */
  lemma {:induction false} AppendFits(a: seq<Node>, b: seq<Node>, nodes: seq<Entry<TagKind>>, regexes: seq<Entry<RegexKind>>, d: nat)
    requires AllAdmitted(a, nodes, regexes) && AllWithin(a, d)
    requires AllAdmitted(b, nodes, regexes) && AllWithin(b, d)
    ensures AllAdmitted(a + b, nodes, regexes) && AllWithin(a + b, d)
  {
    forall i | 0 <= i < |a + b|
      ensures Admitted((a + b)[i], nodes, regexes) && NestedWithin((a + b)[i], d)
    {
      if i < |a| {
        assert (a + b)[i] == a[i];
      } else {
        assert (a + b)[i] == b[i - |a|];
      }
    }
  }

  /** With no tag and no regex admitted, only plain text is. */
  lemma {:induction false} AdmittedByNone(cs: seq<Node>)
    requires AllAdmitted(cs, [], [])
    ensures forall i :: 0 <= i < |cs| ==> cs[i].Plain?
  {
    forall i | 0 <= i < |cs|
      ensures cs[i].Plain?
    {
      assert Admitted(cs[i], [], []);
    }
  }

  /** A tag built from children nested `d - 1` deep is nested `d` deep. */
  lemma ChildrenWithin(n: Node, children: seq<Node>, value: Option<string>, d: nat)
    requires n.Tag? && Tags.KeepsChildren(n, value, children) && d >= 1
    requires AllWithin(children, d - 1)
    ensures NestedWithin(n, d)
  {
    if n.children != children {
      assert NestedWithin(n.children[0], d - 1);
    }
  }

  /**
   * What `parse_left` may return: a tag admitted by `nodes`, nested at most `d` deep, and
   * holding only plain text when its class admits no children.
   */
  predicate NodeFits(n: Node, nodes: seq<Entry<TagKind>>, regexes: seq<Entry<RegexKind>>, d: nat)
  {
    n.Tag? && Admitted(n, nodes, regexes) && NestedWithin(n, d)
    && (TagIncludes(n.kind) == Some([]) ==> forall i :: 0 <= i < |n.children| ==> n.children[i].Plain?)
  }

  /**
   * The node `parse_left` builds from an entry of `nodes` and children parsed with the
   * registries that entry's class admits: admitted, nested `d` deep, and plain inside
   * the classes that admit nothing.
   */
  lemma BuiltFits(n: Node, children: seq<Node>, value: Option<string>, entry: Entry<TagKind>,
                  nodes: seq<Entry<TagKind>>, regexes: seq<Entry<RegexKind>>, d: nat)
    requires n.Tag? && Tags.KeepsChildren(n, value, children) && d >= 1
    requires entry in nodes && n.name == entry.name && n.kind == entry.kind
    requires AllWithin(children, d - 1)
    requires AllAdmitted(children, Scope(n.kind, nodes), Scope(n.kind, regexes))
    ensures NodeFits(n, nodes, regexes, d)
  {
    ChildrenWithin(n, children, value, d);
    if TagIncludes(n.kind) == Some([]) {
      ScopeOfLeaf(n.kind, nodes);
      ScopeOfLeaf(n.kind, regexes);
      if n.children == children {
        AdmittedByNone(children);
      }
    }
  }

  /**
   * The end of `parse_left`: the class of `head`'s entry builds the node from the parsed
   * children; `NodeError` becomes `BBCodeSyntaxError(offset)`.
   */
  method Finish(svc: Services, head: Head, children: seq<Node>, offset: nat,
                nodes: seq<Entry<TagKind>>, regexes: seq<Entry<RegexKind>>, ghost d: nat)
    returns (r: Left)
    requires head.entry in nodes && d >= 1
    requires AllWithin(children, d - 1)
    requires AllAdmitted(children, Scope(head.entry.kind, nodes), Scope(head.entry.kind, regexes))
    ensures r.LeftOk? ==> r.offset == offset && r.node.Tag? && r.node.name == head.entry.name
    ensures r.LeftOk? ==> NodeFits(r.node, nodes, regexes, d)
    ensures r.LeftErr? ==> r.offset == offset
  {
    var built := Tags.Construct(svc, head.entry.kind, head.entry.name, head.value, children);
    match built {
      case Done(n) =>
        BuiltFits(n, children, head.value, head.entry, nodes, regexes, d);
        r := LeftOk(offset, n);
      case Rejected =>
        r := LeftErr(offset);
      case Fatal(e) =>
        r := LeftFatal(e);
    }
  }

  /**
   * `if remains: self._append_plains(nodelist, remains, REGEX_NODES)`: the pending text,
   * split into literal nodes, goes after `nodelist`.
   */
  method Flush(svc: Services, nodelist: seq<Node>, remains: string,
               nodes: seq<Entry<TagKind>>, regexes: seq<Entry<RegexKind>>, ghost room: nat)
    returns (r: Result<seq<Node>, Failure>)
    requires ValidSearch(svc)
    requires AllAdmitted(nodelist, nodes, regexes) && AllWithin(nodelist, room)
    ensures r.Ok? ==> AllAdmitted(r.value, nodes, regexes) && AllWithin(r.value, room)
    ensures r.Ok? ==> ChildrenMarkup(r.value) == ChildrenMarkup(nodelist) + remains
    ensures r.Ok? ==> |nodelist| <= |r.value| && r.value[..|nodelist|] == nodelist
    ensures remains == [] ==> r == Ok(nodelist)
    ensures r.Err? ==> r.error == ZeroWidthMatch
  {
    if remains == [] {
      return Ok(nodelist);
    }
    var plains := AppendPlains(svc, remains, regexes);
    if plains.Err? {
      return Err(plains.error);
    }
    LiteralsFit(plains.value, nodes, regexes, room);
    AppendFits(nodelist, plains.value, nodes, regexes, room);
    ChildrenMarkupAppend(nodelist, plains.value);
    r := Ok(nodelist + plains.value);
    assert r.value[..|nodelist|] == nodelist;
  }

  // ---- the parser object ----

  /** The open-tag stack without its top entry. */
  function Pop(st: seq<(string, nat)>): (r: seq<(string, nat)>)
    requires st != []
    ensures |r| == |st| - 1
  {
    st[..|st| - 1]
  }

  lemma PopPush(st: seq<(string, nat)>, top: (string, nat))
    ensures Pop(st + [top]) == st
  {
    assert (st + [top])[..|st|] == st;
  }

  /**
   * A round that built a tag: the pending `text` went before it as literal nodes after
   * `nodelist`, and the tag is the last node.
   */
  predicate TagAfter(ns: seq<Node>, nodelist: seq<Node>, text: string)
  {
    |nodelist| < |ns| && ns[..|nodelist|] == nodelist && ns[|ns| - 1].Tag? &&
    ChildrenMarkup(ns[..|ns| - 1]) == ChildrenMarkup(nodelist) + text
  }

  /**
   * A round at `tail` (which starts `p` characters into the round's text) whose attempt
   * failed: the characters it used go, as they are, into the pending text.
   */
  predicate KeptText(r: Round, tail: string, p: nat, pending: string, nodelist: seq<Node>)
  {
    r.Went? && p <= r.used && r.rest == Drop(tail, r.used - p) &&
    r.nodes == nodelist && r.remains == pending + Take(tail, r.used - p)
  }

  /** A round at `tail` that built a tag: the pending text is flushed before it. */
  predicate BuiltTag(r: Round, tail: string, p: nat, pending: string, nodelist: seq<Node>)
  {
    r.Went? && p <= r.used && r.rest == Drop(tail, r.used - p) &&
    r.remains == [] && TagAfter(r.nodes, nodelist, pending)
  }

  /** A syntax error at offset `k` keeps the first `k` characters of `tail` as pending text. */
  lemma FailedRound(tail: string, p: nat, pending: string, nodelist: seq<Node>, k: nat)
    ensures KeptText(Went(Drop(tail, k), pending + Take(tail, k), nodelist, p + k), tail, p, pending, nodelist)
  {
  }

  /** A tag built after the flushed pending text. */
  lemma BuiltRound(tail: string, p: nat, pending: string, nodelist: seq<Node>, flushed: seq<Node>, node: Node, k: nat)
    requires |nodelist| <= |flushed| && flushed[..|nodelist|] == nodelist && node.Tag?
    requires ChildrenMarkup(flushed) == ChildrenMarkup(nodelist) + pending
    ensures BuiltTag(Went(Drop(tail, k), [], flushed + [node], p + k), tail, p, pending, nodelist)
  {
    var ns := flushed + [node];
    assert ns[..|ns| - 1] == flushed;
    assert ns[..|nodelist|] == flushed[..|nodelist|];
  }

  /** A failed attempt after the plain text before `[` keeps both as pending text. */
  lemma {:induction false} KeptFromTail(r: Round, rest: string, p: nat, remains: string, nodelist: seq<Node>)
    requires KeptText(r, Drop(rest, p), p, remains + Take(rest, p), nodelist)
    ensures KeptText(r, rest, 0, remains, nodelist)
  {
    PendingAfter(r.rest, r.remains, r.used, rest, p, remains);
  }

  /** Pending text, then `p` characters, then the rest of `used`, is the pending text and `used` characters. */
  lemma PendingAfter(left: string, pending: string, used: nat, rest: string, p: nat, remains: string)
    requires p <= used && left == Drop(Drop(rest, p), used - p)
    requires pending == (remains + Take(rest, p)) + Take(Drop(rest, p), used - p)
    ensures left == Drop(rest, used) && pending == remains + Take(rest, used)
  {
    var k := used - p;
    assert p + k == used;
    TakeDropAfter(rest, p, k);
    var a, b, c := remains, Take(rest, p), Take(Drop(rest, p), k);
    calc {
      pending;
      (a + b) + c;
      { Regroup(a, b, c); }
      a + (b + c);
      a + Take(rest, used);
    }
  }

  /** Concatenation regroups. */
  lemma Regroup(a: string, b: string, c: string)
    ensures (a + b) + c == a + (b + c)
  {
  }

  /** A tag built after the plain text before `[`. */
  lemma {:induction false} BuiltFromTail(r: Round, rest: string, p: nat, pending: string, nodelist: seq<Node>)
    requires BuiltTag(r, Drop(rest, p), p, pending, nodelist)
    ensures BuiltTag(r, rest, 0, pending, nodelist)
  {
    TakeDropAfter(rest, p, r.used - p);
  }

  /**
   * A round over text with no tag in it, or with no tag registered, builds nothing: the
   * characters it used join the pending text, and pending and unread text still make up `s`.
   */
  lemma {:induction false} RawRound(s: string, rest: string, remains: string, r: Round,
                                    nodes: seq<Entry<TagKind>>, regexes: seq<Entry<RegexKind>>)
    requires r.Went? && remains + rest == s && ('[' !in s || nodes == [])
    requires '[' !in rest ==> r.nodes == [] && r.remains == remains + rest && r.rest == []
    requires
      || KeptText(r, rest, 0, remains, [])
      || ('[' in rest && BuiltTag(r, rest, 0, remains + rest[..Find(rest, '[')], []))
    requires AllAdmitted(r.nodes, nodes, regexes)
    ensures r.nodes == [] && r.remains + r.rest == s
  {
    if '[' in rest {
      NoTagAdmitted(s, rest, remains, r.nodes, nodes, regexes);
      KeptWhole(r.remains, r.rest, r.used, rest, remains);
    }
  }

  /** The pending text grown by what a round used, then the unread text, is all the text. */
  lemma KeptWhole(pending: string, left: string, used: nat, rest: string, remains: string)
    requires pending == remains + Take(rest, used) && left == Drop(rest, used)
    ensures pending + left == remains + rest
  {
    TakeDrop(rest, used);
    Regroup(remains, Take(rest, used), Drop(rest, used));
  }

  /** With a `[` in the text but none allowed or no tag registered, no admitted node is a tag. */
  lemma NoTagAdmitted(s: string, rest: string, remains: string, ns: seq<Node>,
                      nodes: seq<Entry<TagKind>>, regexes: seq<Entry<RegexKind>>)
    requires remains + rest == s && '[' in rest && ('[' !in s || nodes == [])
    requires AllAdmitted(ns, nodes, regexes)
    ensures ns == [] || !ns[|ns| - 1].Tag?
  {
    assert s[|remains|..] == rest;
    if ns != [] {
      assert Admitted(ns[|ns| - 1], nodes, regexes);
    }
  }

  /** Reading `p` characters and then `k` more is reading `p + k`. */
  lemma TakeDropAfter(s: string, p: nat, k: nat)
    ensures Take(s, p) + Take(Drop(s, p), k) == Take(s, p + k)
    ensures Drop(Drop(s, p), k) == Drop(s, p + k)
  {
    if p >= |s| {
      assert Take(s, p) == Take(s, p + k) == s;
    } else if p + k >= |s| {
      assert Drop(s, p) == s[p..] && Take(s[p..], k) == s[p..];
      assert s[..p] + s[p..] == s;
    } else {
      assert Drop(s, p) == s[p..] && Take(s[p..], k) == s[p..][..k] == s[p..p + k];
      assert s[..p] + s[p..p + k] == s[..p + k];
      assert s[p..][k..] == s[p + k..];
    }
  }


  /** What is read and what is left make up the text. */
  lemma TakeDrop(s: string, k: nat)
    ensures Take(s, k) + Drop(s, k) == s
  {
    if k < |s| {
      assert s == s[..k] + s[k..];
    }
  }

  /** What `parse` returns: how much it read, its nodes, and whether a closer ended it. */
  datatype Parsed = Parsed(offset: nat, nodes: seq<Node>, closed: bool) | Crashed(reason: Failure)

  /**
   * One round of `parse`'s loop: the unread text, the pending plain text, the nodes so far
   * and the characters consumed; or the offset of the closer that ends the parse.
   */
  datatype Round =
    | Went(rest: string, remains: string, nodes: seq<Node>, used: nat)
    | Closed(used: nat, nodes: seq<Node>)
    | Broke(reason: Failure)

  /** What `parse_left` returns or raises. */
  datatype Left = LeftOk(offset: nat, node: Node) | LeftErr(offset: nat) | LeftFatal(reason: Failure)

  class BBCode {
    var source: string
    var stack: seq<(string, nat)>
    var topNode: Option<Node>

    predicate Valid()
      reads this
    {
      |stack| <= MaximumDepth
    }

    /** `BBCode(source)`: line endings and no-break spaces normalised, nothing open, nothing parsed. */
    constructor (raw: string)
      ensures Valid() && source == Normalize(raw) && stack == [] && topNode == None
    {
      source := Normalize(raw);
      stack := [];
      topNode := None;
    }

    /** `parse_right`: a closer that names the top of the stack pops exactly that entry. */
    method ParseRight(s: string) returns (r: Result<nat, nat>)
      modifies this`stack
      ensures r == Closer(s, old(stack))
      ensures stack == if r.Ok? then Pop(old(stack)) else old(stack)
    {
      var st := stack;
      r := Closer(s, st);
      if r.Ok? {
        stack := Pop(st);
      }
    }
  
    /**
     * `parse_left`: an opening tag, its nested content (parsed with the registries the tag
     * admits) and the node its class builds. `LeftErr(k)` is `BBCodeSyntaxError(k)`.
     */
    method ParseLeft(svc: Services, s: string, nodes: seq<Entry<TagKind>>, regexes: seq<Entry<RegexKind>>,
                     ghost room: nat)
      returns (r: Left)
      requires ValidSearch(svc) && |stack| + room == MaximumDepth
      modifies this`stack
      decreases |s|, 1
      ensures Valid()
      ensures !r.LeftFatal? ==> stack == old(stack) || |s| <= r.offset
      ensures r.LeftErr? ==> r.offset >= 1
      ensures r.LeftOk? ==> 2 <= r.offset && r.node.Tag? && NodeFits(r.node, nodes, regexes, room)
      ensures r.LeftOk? ==> TagAt(s, nodes).Some? && TagAt(s, nodes).value.name == r.node.name
      ensures room == 0 || |s| < 2 ==> !r.LeftOk? && stack == old(stack)
    {
      var h := ParseHead(s, nodes);
      if h.Err? {
        return LeftErr(h.error);
      }
      var head := h.value;
      if |stack| >= MaximumDepth {
        return LeftErr(head.offset);
      }
      ghost var before := stack;
      stack := stack + [(head.entry.name, head.entry.weight)];
      r := Nest(svc, s, head, nodes, regexes, before, room);
    }

    /**
     * The rest of `parse_left` once the tag is on the stack: its content, parsed with the
     * registries its class admits, and the node the class builds from it.
     */
    method Nest(svc: Services, s: string, head: Head, nodes: seq<Entry<TagKind>>, regexes: seq<Entry<RegexKind>>,
                ghost below: seq<(string, nat)>, ghost room: nat)
      returns (r: Left)
      requires ValidSearch(svc) && stack == below + [(head.entry.name, head.entry.weight)]
      requires |below| + room == MaximumDepth && room >= 1
      requires 2 <= head.offset <= |s| && head.entry in nodes
      modifies this`stack
      decreases |s|, 0
      ensures Valid()
      ensures !r.LeftFatal? ==> stack == below || |s| <= r.offset
      ensures r.LeftErr? ==> r.offset >= 2
      ensures r.LeftOk? ==> 2 <= r.offset && r.node.Tag? && r.node.name == head.entry.name
      ensures r.LeftOk? ==> NodeFits(r.node, nodes, regexes, room)
    {
      var kind := head.entry.kind;
      var innerNodes := Scope(kind, nodes);
      var innerRegexes := Scope(kind, regexes);
      var inner := Parse(svc, s[head.offset..], innerNodes, innerRegexes, room - 1);
      if inner.Crashed? {
        return LeftFatal(inner.reason);
      }
      PopPush(below, (head.entry.name, head.entry.weight));
      r := Finish(svc, head, inner.nodes, head.offset + inner.offset, nodes, regexes, room);
    }

    /**
     * `parse`: text up to the closer of the innermost open tag (`closed`), or to the end.
     * Text between tags is split by `_append_plains`; a tag or closer that does not parse
     * stays in the text from `[` to the offset of the syntax error.
     */
    method Parse(svc: Services, s: string, nodes: seq<Entry<TagKind>>, regexes: seq<Entry<RegexKind>>,
                 ghost room: nat)
      returns (r: Parsed)
      requires ValidSearch(svc) && |stack| + room == MaximumDepth
      modifies this`stack
      decreases |s|, 4
      ensures Valid()
      ensures r.Parsed? && r.closed ==> old(stack) != [] && stack == Pop(old(stack)) && r.offset <= |s|
      ensures r.Parsed? && !r.closed ==> |s| <= r.offset
      ensures r.Parsed? ==> AllAdmitted(r.nodes, nodes, regexes) && AllWithin(r.nodes, room)
      ensures r.Parsed? && '[' !in s ==> !r.closed && ChildrenMarkup(r.nodes) == s
      ensures r.Parsed? && old(stack) == [] && nodes == [] ==> !r.closed && ChildrenMarkup(r.nodes) == s
    {
      ghost var S := stack;
      var offset: nat := 0;
      var remains: string := [];
      var nodelist: seq<Node> := [];
      var rest := s;
      while rest != []
        invariant Valid()
        invariant |rest| <= |s|
        invariant |s| - |rest| <= offset && (rest != [] ==> offset == |s| - |rest|)
        invariant stack == S || rest == []
        invariant AllAdmitted(nodelist, nodes, regexes) && AllWithin(nodelist, room)
        invariant '[' !in s || (S == [] && nodes == []) ==> nodelist == [] && remains + rest == s
        decreases |rest|
      {
        var round := Step(svc, rest, remains, nodelist, nodes, regexes, room);
        match round {
          case Broke(e) =>
            return Crashed(e);
          case Closed(used, ns) =>
            return Parsed(offset + used, ns, true);
          case Went(next, pending, ns, used) =>
            if '[' !in s || (S == [] && nodes == []) {
              RawRound(s, rest, remains, round, nodes, regexes);
            }
            rest, remains, nodelist, offset := next, pending, ns, offset + used;
        }
      }
      var flushed := Flush(svc, nodelist, remains, nodes, regexes, room);
      if flushed.Err? {
        return Crashed(flushed.error);
      }
      return Parsed(offset, flushed.value, false);
    }

    /**
     * One round of `parse`'s loop on the unread text `rest`: plain text up to the next `[`,
     * then a closer, a tag, or the characters of a failed attempt added to the pending text.
     */
    method Step(svc: Services, rest: string, remains: string, nodelist: seq<Node>,
                nodes: seq<Entry<TagKind>>, regexes: seq<Entry<RegexKind>>, ghost room: nat)
      returns (r: Round)
      requires ValidSearch(svc) && rest != [] && |stack| + room == MaximumDepth
      requires AllAdmitted(nodelist, nodes, regexes) && AllWithin(nodelist, room)
      modifies this`stack
      decreases |rest|, 3
      ensures Valid()
      ensures r.Went? ==> |r.rest| < |rest|
      ensures r.Went? ==> |rest| - |r.rest| <= r.used && (r.rest != [] ==> r.used == |rest| - |r.rest|)
      ensures r.Went? ==> stack == old(stack) || r.rest == []
      ensures r.Went? ==> AllAdmitted(r.nodes, nodes, regexes) && AllWithin(r.nodes, room)
      ensures r.Went? && '[' !in rest ==> r.nodes == nodelist && r.remains == remains + rest && r.rest == []
      ensures r.Closed? ==> old(stack) != [] && stack == Pop(old(stack)) && r.used <= |rest|
      ensures r.Closed? ==> AllAdmitted(r.nodes, nodes, regexes) && AllWithin(r.nodes, room) && '[' in rest
      ensures r.Went? ==> r.rest == Drop(rest, r.used)
      ensures r.Went? ==>
        || KeptText(r, rest, 0, remains, nodelist)
        || ('[' in rest && BuiltTag(r, rest, 0, remains + rest[..Find(rest, '[')], nodelist))
      ensures r.Closed? ==>
        && '[' in rest && |nodelist| <= |r.nodes| && r.nodes[..|nodelist|] == nodelist
        && ChildrenMarkup(r.nodes) == ChildrenMarkup(nodelist) + remains + rest[..Find(rest, '[')]
    {
      var pos := Find(rest, '[');
      var p: nat := if pos > -1 then pos else |rest| + 1;
      var pending := remains + Take(rest, p);
      var tail := Drop(rest, p);
      assert p + |tail| == |rest| || (tail == [] && '[' !in rest && pending == remains + rest);
      if Take(LStrip(Drop(tail, 1)), 1) == "/" {
        r := Closing(svc, tail, p, pending, nodelist, nodes, regexes, room);
      } else {
        r := Opening(svc, tail, p, pending, nodelist, nodes, regexes, room);
      }
      if KeptText(r, tail, p, pending, nodelist) {
        KeptFromTail(r, rest, p, remains, nodelist);
      } else if r.Went? {
        BuiltFromTail(r, rest, p, pending, nodelist);
      }
    }

    /** A round that meets what looks like a closer: `parse_right`, or a syntax error. */
    method Closing(svc: Services, tail: string, p: nat, pending: string, nodelist: seq<Node>,
                   nodes: seq<Entry<TagKind>>, regexes: seq<Entry<RegexKind>>, ghost room: nat)
      returns (r: Round)
      requires ValidSearch(svc) && |stack| + room == MaximumDepth
      requires AllAdmitted(nodelist, nodes, regexes) && AllWithin(nodelist, room)
      requires Take(LStrip(Drop(tail, 1)), 1) == "/"
      modifies this`stack
      ensures Valid()
      ensures r.Went? ==> stack == old(stack) && r.nodes == nodelist
      ensures r.Went? ==> |r.rest| < |tail| && p + |tail| - |r.rest| <= r.used
      ensures r.Went? && r.rest != [] ==> r.used == p + |tail| - |r.rest|
      ensures r.Closed? ==> old(stack) != [] && stack == Pop(old(stack)) && r.used <= p + |tail| && tail != []
      ensures r.Closed? ==> AllAdmitted(r.nodes, nodes, regexes) && AllWithin(r.nodes, room)
      ensures r.Went? ==> KeptText(r, tail, p, pending, nodelist)
      ensures r.Closed? ==>
        && |nodelist| <= |r.nodes| && r.nodes[..|nodelist|] == nodelist
        && ChildrenMarkup(r.nodes) == ChildrenMarkup(nodelist) + pending
    {
      var c := ParseRight(tail);
      if c.Ok? {
        var flushed := Flush(svc, nodelist, pending, nodes, regexes, room);
        if flushed.Err? {
          return Broke(flushed.error);
        }
        return Closed(p + c.value, flushed.value);
      }
      var k := c.error;
      r := Went(Drop(tail, k), pending + Take(tail, k), nodelist, p + k);
      FailedRound(tail, p, pending, nodelist, k);
      assert KeptText(r, tail, p, pending, nodelist);
    }

    /** A round that meets what may be a tag: `parse_left`, or a syntax error. */
    method Opening(svc: Services, tail: string, p: nat, pending: string, nodelist: seq<Node>,
                   nodes: seq<Entry<TagKind>>, regexes: seq<Entry<RegexKind>>, ghost room: nat)
      returns (r: Round)
      requires ValidSearch(svc) && |stack| + room == MaximumDepth
      requires AllAdmitted(nodelist, nodes, regexes) && AllWithin(nodelist, room)
      modifies this`stack
      decreases |tail|, 2
      ensures Valid()
      ensures !r.Closed?
      ensures r.Went? ==> |r.rest| <= |tail| && (tail != [] ==> |r.rest| < |tail|)
      ensures r.Went? ==> p + |tail| - |r.rest| <= r.used && (r.rest != [] ==> r.used == p + |tail| - |r.rest|)
      ensures r.Went? ==> stack == old(stack) || r.rest == []
      ensures r.Went? ==> AllAdmitted(r.nodes, nodes, regexes) && AllWithin(r.nodes, room)
      ensures r.Went? && tail == [] ==> r.nodes == nodelist && r.remains == pending && r.rest == []
      ensures r.Went? ==> KeptText(r, tail, p, pending, nodelist) || BuiltTag(r, tail, p, pending, nodelist)
    {
      var left := ParseLeft(svc, tail, nodes, regexes, room);
      match left {
        case LeftFatal(e) =>
          return Broke(e);
        case LeftErr(k) =>
          FailedRound(tail, p, pending, nodelist, k);
          return Went(Drop(tail, k), pending + Take(tail, k), nodelist, p + k);
        case LeftOk(k, node) =>
          var flushed := Flush(svc, nodelist, pending, nodes, regexes, room);
          if flushed.Err? {
            return Broke(flushed.error);
          }
          SingleFits(node, nodes, regexes, room);
          AppendFits(flushed.value, [node], nodes, regexes, room);
          BuiltRound(tail, p, pending, nodelist, flushed.value, node, k);
          return Went(Drop(tail, k), [], flushed.value + [node], p + k);
      }
    }

    /**
     * The `nodes` property: the first access parses the whole source with the registered
     * tags and regexes under a top node, empties the stack and fires the `after_parse`
     * hooks; later accesses return the same tree and call nothing.
     */
    method Nodes(svc: Services, registry: TagRegistry) returns (r: Result<Node, Failure>, called: seq<string>)
      requires ValidSearch(svc) && Valid()
      modifies this
      ensures Valid() && source == old(source)
      ensures old(topNode).Some? ==> r == Ok(old(topNode).value) && called == [] && unchanged(this)
      ensures old(topNode).None? && r.Ok? ==> r.value.Top? && topNode == Some(r.value) && stack == []
      ensures old(topNode).None? && r.Ok? ==> called == HooksFor(registry.hooks, "after_parse")
      ensures old(topNode).None? && r.Ok? && old(stack) == [] ==>
        AllAdmitted(r.value.children, registry.nodes, registry.regexNodes) && NestedWithin(r.value, MaximumDepth)
      ensures old(topNode).None? && r.Ok? && '[' !in source ==> ChildrenMarkup(r.value.children) == source
      ensures r.Err? ==> topNode == None && called == []
    {
      if topNode.Some? {
        return Ok(topNode.value), [];
      }
      var parsed := Parse(svc, source, registry.nodes, registry.regexNodes, MaximumDepth - |stack|);
      if parsed.Crashed? {
        return Err(parsed.reason), [];
      }
      var top := Top(parsed.nodes);
      topNode := Some(top);
      stack := [];
      called := registry.TriggerHook("after_parse");
      r := Ok(top);
    }

    /** `text()`: the plain text of the parsed tree. */
    method PlainText(svc: Services, registry: TagRegistry) returns (r: Result<string, Failure>, called: seq<string>)
      requires ValidSearch(svc) && Valid()
      modifies this
      ensures Valid() && source == old(source)
      ensures r.Ok? ==> topNode.Some? && r.value == Text(topNode.value)
      ensures r.Err? ==> topNode == None && called == []
    {
      var top;
      top, called := Nodes(svc, registry);
      if top.Err? {
        return Err(top.error), called;
      }
      r := Ok(Text(top.value));
    }

    /** `bbcode()` and `__unicode__`: the canonical markup of the parsed tree. */
    method Canonical(svc: Services, registry: TagRegistry) returns (r: Result<string, Failure>, called: seq<string>)
      requires ValidSearch(svc) && Valid()
      modifies this
      ensures Valid() && source == old(source)
      ensures r.Ok? ==> topNode.Some? && r.value == Markup(topNode.value)
      ensures r.Ok? && old(topNode).None? && '[' !in source ==> r.value == source
      ensures r.Err? ==> topNode == None && called == []
    {
      var top;
      top, called := Nodes(svc, registry);
      if top.Err? {
        return Err(top.error), called;
      }
      r := Ok(Markup(top.value));
    }

    /** `html(**kwargs)`: the parsed tree rendered with the keywords given, the others defaulted. */
    method Html(svc: Services, registry: TagRegistry, br: Option<bool>, respWidth: Option<int>)
      returns (r: Result<string, Failure>, called: seq<string>)
      requires ValidSearch(svc) && Valid()
      modifies this
      ensures Valid() && source == old(source)
      ensures r.Ok? ==> topNode.Some? && r.value == Tags.Html(svc, topNode.value, Tags.KwOptions(br, respWidth))
      ensures r.Err? ==> topNode == None && called == []
    {
      var top;
      top, called := Nodes(svc, registry);
      if top.Err? {
        return Err(top.error), called;
      }
      r := Ok(Tags.Html(svc, top.value, Tags.KwOptions(br, respWidth)));
    }

    /** `__html__`: `html()` without keywords, so with line breaks and a width of 480. */
    method DefaultHtml(svc: Services, registry: TagRegistry) returns (r: Result<string, Failure>, called: seq<string>)
      requires ValidSearch(svc) && Valid()
      modifies this
      ensures Valid() && source == old(source)
      ensures r.Ok? ==> topNode.Some? && r.value == Tags.Html(svc, topNode.value, Tags.Options(true, 480))
      ensures r.Err? ==> topNode == None && called == []
    {
      r, called := Html(svc, registry, None, None);
      Tags.DefaultOptionsAre();
    }
  }
}
