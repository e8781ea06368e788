/**
 * The handful of Python unicode-string operations the bracket-markup engine and the
 * form filters rely on: slicing with clamped bounds, `find`, `lower`, `strip`,
 * `split` and `join`.
 */
module Strings {

  /** `s[:n]` with Python's clamping of an index past the end. */
  function Take(s: string, n: int): (r: string)
    ensures |r| == if n <= 0 then 0 else if n >= |s| then |s| else n
    ensures r == s[..|r|]
  {
    if n <= 0 then [] else if n >= |s| then s else s[..n]
  }

  /** `s[n:]` for a non-negative `n`, clamped at the end. */
  function Drop(s: string, n: nat): (r: string)
    ensures |r| == if n >= |s| then 0 else |s| - n
    ensures r == s[|s| - |r|..]
  {
    if n >= |s| then [] else s[n..]
  }

  /** The characters Python 2's `unicode.isspace` accepts (the Unicode White_Space set). */
  predicate IsSpace(c: char)
  {
    c == ' ' || ('\t' <= c <= '\r') || ('\U{1c}' <= c <= '\U{1f}') || c == '\U{85}' || c == '\U{a0}'
    || c == '\U{1680}' || c == '\U{180e}' || ('\U{2000}' <= c <= '\U{200a}') || c == '\U{2028}'
    || c == '\U{2029}' || c == '\U{202f}' || c == '\U{205f}' || c == '\U{3000}'
  }

  /** Number of leading white-space characters. */
  function LeadingSpace(s: string): (n: nat)
    ensures n <= |s|
    ensures forall i :: 0 <= i < n ==> IsSpace(s[i])
    ensures n < |s| ==> !IsSpace(s[n])
  {
    if s == [] || !IsSpace(s[0]) then 0 else 1 + LeadingSpace(s[1..])
  }

  /** Number of trailing white-space characters. */
  function TrailingSpace(s: string): (n: nat)
    ensures n <= |s|
    ensures forall i :: |s| - n <= i < |s| ==> IsSpace(s[i])
    ensures n < |s| ==> !IsSpace(s[|s| - 1 - n])
  {
    if s == [] || !IsSpace(s[|s| - 1]) then 0 else 1 + TrailingSpace(s[..|s| - 1])
  }

  /** `s.lstrip()`. */
  function LStrip(s: string): (r: string)
    ensures r == s[LeadingSpace(s)..]
  {
    s[LeadingSpace(s)..]
  }

  /** `s.rstrip()`. */
  function RStrip(s: string): (r: string)
    ensures r == s[..|s| - TrailingSpace(s)]
  {
    s[..|s| - TrailingSpace(s)]
  }

  /** `s.strip()`: no white space is left at either end, and what is left is a slice of `s`. */
  function Strip(s: string): (r: string)
    ensures r == RStrip(LStrip(s))
    ensures r != [] ==> !IsSpace(r[0]) && !IsSpace(r[|r| - 1])
    ensures forall c :: c in s && !IsSpace(c) ==> c in r
    ensures s == [] || (!IsSpace(s[0]) && !IsSpace(s[|s| - 1])) ==> r == s
  {
    StripKeeps(s);
    RStrip(LStrip(s))
  }

  /** The stripped text is the slice between the leading and the trailing white space. */
  lemma StripSlice(s: string)
    ensures LeadingSpace(s) == |s| ==> Strip(s) == []
    ensures LeadingSpace(s) < |s| ==> LeadingSpace(s) + TrailingSpace(s) < |s|
    ensures LeadingSpace(s) < |s| ==> Strip(s) == s[LeadingSpace(s)..|s| - TrailingSpace(s)]
  {
    var n := LeadingSpace(s);
    assert LStrip(s) == s[n..];
    if n < |s| {
      RStripOfSuffix(s, n);
    }
  }

  /** Right-stripping a suffix that keeps a non-space character cuts the whole's trailing white space. */
  lemma RStripOfSuffix(s: string, k: nat)
    requires k < |s| && !IsSpace(s[k])
    ensures TrailingSpace(s) < |s| - k
    ensures RStrip(s[k..]) == s[k..|s| - TrailingSpace(s)]
  {
    TrailingSpaceOfSuffix(s, k);
  }

  /** A suffix that keeps a non-space character has the same trailing white space as the whole. */
  lemma {:induction false} TrailingSpaceOfSuffix(s: string, k: nat)
    requires k < |s| && !IsSpace(s[k])
    ensures TrailingSpace(s[k..]) == TrailingSpace(s)
    decreases |s|
  {
    if IsSpace(s[|s| - 1]) {
      var t := s[..|s| - 1];
      assert s[k..][..|s[k..]| - 1] == t[k..];
      TrailingSpaceOfSuffix(t, k);
    }
  }

  /** Stripping removes only white space. */
  lemma StripKeeps(s: string)
    ensures forall c :: c in s && !IsSpace(c) ==> c in RStrip(LStrip(s))
  {
    var l := LStrip(s);
    forall c | c in s && !IsSpace(c)
      ensures c in l
    {
      var i :| 0 <= i < |s| && s[i] == c;
      assert LeadingSpace(s) <= i;
      assert l[i - LeadingSpace(s)] == c;
    }
    forall c | c in l && !IsSpace(c)
      ensures c in RStrip(l)
    {
      var i :| 0 <= i < |l| && l[i] == c;
      assert i < |l| - TrailingSpace(l);
      assert RStrip(l)[i] == c;
    }
  }

  /** `s.rstrip(c)` for a single character. */
  function RStripChar(s: string, c: char): (r: string)
    ensures |r| <= |s| && r == s[..|r|]
    ensures r == [] || r[|r| - 1] != c
    ensures forall i :: |r| <= i < |s| ==> s[i] == c
  {
    if s != [] && s[|s| - 1] == c then RStripChar(s[..|s| - 1], c) else s
  }

  /**
   * `c.lower()` as far as it matters here: every comparison of a lowered string in
   * the engine is against an ASCII string, so only the characters whose lower case
   * is ASCII are mapped (A-Z, U+0130 and U+212A under Python 2's simple case mapping).
   */
  function LowerChar(c: char): char
  {
    if 'A' <= c <= 'Z' then (c as int + 32) as char
    else if c == '\U{130}' then 'i'
    else if c == '\U{212a}' then 'k'
    else c
  }

  function Lower(s: string): (r: string)
    ensures |r| == |s|
  {
    if s == [] then [] else [LowerChar(s[0])] + Lower(s[1..])
  }

  /** Lowering works character by character. */
  lemma {:induction false} LowerAt(s: string)
    ensures forall i :: 0 <= i < |s| ==> Lower(s)[i] == LowerChar(s[i])
  {
    if s != [] {
      LowerAt(s[1..]);
      assert forall i :: 1 <= i < |s| ==> Lower(s)[i] == Lower(s[1..])[i - 1];
    }
  }

  /** Lowering is decided character by character. */
  lemma LowerEq(s: string, t: string)
    requires |s| == |t| && forall i :: 0 <= i < |s| ==> LowerChar(s[i]) == t[i]
    ensures Lower(s) == t
  {
    LowerAt(s);
  }

  predicate StartsWith(s: string, p: string)
  {
    |p| <= |s| && s[..|p|] == p
  }

  predicate IsAsciiDigit(c: char) { '0' <= c <= '9' }

  predicate IsAsciiLetter(c: char) { ('a' <= c <= 'z') || ('A' <= c <= 'Z') }

  predicate IsHexDigit(c: char) { IsAsciiDigit(c) || ('a' <= c <= 'f') || ('A' <= c <= 'F') }

  /** `s.find(c)` from index `from`: the first index at or after `from` holding `c`, or -1. */
  function FindFrom(s: string, c: char, from: nat): (r: int)
    decreases |s| - from
    ensures r == -1 || (from <= r < |s| && s[r] == c)
    ensures r == -1 ==> forall i :: from <= i < |s| ==> s[i] != c
    ensures r != -1 ==> forall i :: from <= i < r ==> s[i] != c
  {
    if from >= |s| then -1 else if s[from] == c then from else FindFrom(s, c, from + 1)
  }

  function Find(s: string, c: char): (r: int)
    ensures r == -1 <==> c !in s
    ensures r != -1 ==> 0 <= r < |s| && s[r] == c && c !in s[..r]
  {
    FindFrom(s, c, 0)
  }

  /** `s.split(sep)` for a single-character separator. */
  function SplitOn(s: string, sep: char): (r: seq<string>)
    ensures |r| >= 1
    ensures forall i :: 0 <= i < |r| ==> sep !in r[i]
  {
    var k := Find(s, sep);
    if k == -1 then [s] else [s[..k]] + SplitOn(s[k + 1..], sep)
  }

  /** `sep.join(parts)`. */
  function Join(sep: string, parts: seq<string>): string
  {
    if parts == [] then [] else if |parts| == 1 then parts[0] else parts[0] + sep + Join(sep, parts[1..])
  }

  lemma {:induction false} JoinSplitOn(s: string, sep: char)
    ensures Join([sep], SplitOn(s, sep)) == s
  {
    var k := Find(s, sep);
    if k != -1 {
      JoinSplitOn(s[k + 1..], sep);
      assert s == s[..k] + [sep] + s[k + 1..];
    }
  }

  function Concat(parts: seq<string>): (r: string)
  {
    if parts == [] then [] else parts[0] + Concat(parts[1..])
  }

  lemma ConcatAppend(a: seq<string>, b: seq<string>)
    ensures Concat(a + b) == Concat(a) + Concat(b)
  {
    if a != [] {
      assert (a + b)[0] == a[0] && (a + b)[1..] == a[1..] + b;
      ConcatAppend(a[1..], b);
      calc {
        Concat(a + b);
        a[0] + Concat(a[1..] + b);
        a[0] + (Concat(a[1..]) + Concat(b));
      }
    } else {
      assert a + b == b;
    }
  }

  // ---- str.split with a separator string, and with none ----

  /** `sep` occurs in `s` at index `i`. */
  predicate OccursAt(s: string, sep: string, i: nat)
  {
    i + |sep| <= |s| && s[i..i + |sep|] == sep
  }

  /** `s.find(sep)` from index `from`: an occurrence at or after `from`, or -1. */
  function FindSubFrom(s: string, sep: string, from: nat): (r: int)
    requires sep != []
    decreases |s| - from
    ensures r == -1 || (from <= r && OccursAt(s, sep, r))
  {
    if from + |sep| > |s| then -1
    else if s[from..from + |sep|] == sep then from
    else FindSubFrom(s, sep, from + 1)
  }

  /** `find` gives the first occurrence. */
  lemma {:induction false} FindSubFirst(s: string, sep: string, from: nat, j: nat)
    requires sep != [] && from <= j && OccursAt(s, sep, j)
    requires forall i: nat :: from <= i < j ==> !OccursAt(s, sep, i)
    ensures FindSubFrom(s, sep, from) == j
    decreases j - from
  {
    if from < j {
      assert !OccursAt(s, sep, from);
      FindSubFirst(s, sep, from + 1, j);
    }
  }

  /** `find` gives -1 when there is no occurrence. */
  lemma {:induction false} FindSubNone(s: string, sep: string, from: nat)
    requires sep != []
    requires forall i: nat :: from <= i ==> !OccursAt(s, sep, i)
    ensures FindSubFrom(s, sep, from) == -1
    decreases |s| - from
  {
    if from + |sep| <= |s| {
      assert !OccursAt(s, sep, from);
      FindSubNone(s, sep, from + 1);
    }
  }

  /** `s.split(sep)` for a non-empty separator: the pieces between the occurrences, left to right. */
  function SplitBy(s: string, sep: string): (r: seq<string>)
    requires sep != []
    decreases |s|
    ensures |r| >= 1
  {
    var k := FindSubFrom(s, sep, 0);
    if k == -1 then [s] else [s[..k]] + SplitBy(s[k + |sep|..], sep)
  }

  /** `sep.join` of a first part and at least one more. */
  lemma JoinCons(sep: string, a: string, rest: seq<string>)
    requires rest != []
    ensures Join(sep, [a] + rest) == a + sep + Join(sep, rest)
  {
    assert ([a] + rest)[1..] == rest;
  }

  /** Where `find` meets the separator, `split` cuts: the text is the first piece, the separator and the rest. */
  lemma SplitByCut(s: string, sep: string, k: int)
    requires sep != [] && k == FindSubFrom(s, sep, 0) && k != -1
    ensures SplitBy(s, sep) == [s[..k]] + SplitBy(s[k + |sep|..], sep)
    ensures s == s[..k] + sep + s[k + |sep|..]
  {
    assert OccursAt(s, sep, k);
    CutThree(s, k, k + |sep|);
    assert SplitBy(s, sep) == [s[..k]] + SplitBy(s[k + |sep|..], sep);
  }

  lemma CutThree(s: string, a: nat, b: nat)
    requires a <= b <= |s|
    ensures s == s[..a] + s[a..b] + s[b..]
  {
  }

  /** Splitting and joining again by the same separator gives the text back. */
  lemma {:induction false} JoinSplitBy(s: string, sep: string)
    requires sep != []
    ensures Join(sep, SplitBy(s, sep)) == s
    decreases |s|
  {
    var k := FindSubFrom(s, sep, 0);
    if k == -1 {
      assert SplitBy(s, sep) == [s];
    } else {
      var rest := s[k + |sep|..];
      SplitByCut(s, sep, k);
      JoinSplitBy(rest, sep);
      JoinCons(sep, s[..k], SplitBy(rest, sep));
    }
  }

  /** No character of `sep` appears in `t`. */
  predicate Avoids(t: string, sep: string)
  {
    forall c :: c in t ==> c !in sep
  }

  /** A separator cannot start inside a piece that shares no character with it. */
  lemma FirstOccurrence(piece: string, sep: string, rest: string)
    requires sep != [] && Avoids(piece, sep)
    ensures forall i: nat :: i < |piece| ==> !OccursAt(piece + rest, sep, i)
  {
    var s := piece + rest;
    forall i: nat | i < |piece|
      ensures !OccursAt(s, sep, i)
    {
      assert s[i] == piece[i] && piece[i] in piece;
      assert sep[0] in sep;
      assert i + |sep| <= |s| ==> s[i..i + |sep|][0] == s[i];
    }
  }

  /** Joining pieces that avoid every character of the separator, then splitting, gives the pieces back. */
  lemma {:induction false} SplitJoinBy(parts: seq<string>, sep: string)
    requires sep != [] && parts != []
    requires forall i :: 0 <= i < |parts| ==> Avoids(parts[i], sep)
    ensures SplitBy(Join(sep, parts), sep) == parts
    decreases |parts|
  {
    var p := parts[0];
    if |parts| == 1 {
      FirstOccurrence(p, sep, []);
      assert p + [] == p;
      FindSubNone(p, sep, 0);
    } else {
      var rest := Join(sep, parts[1..]);
      var s := p + sep + rest;
      JoinCons(sep, p, parts[1..]);
      assert parts == [p] + parts[1..];
      FirstOccurrence(p, sep, sep + rest);
      assert s == p + (sep + rest);
      assert OccursAt(s, sep, |p|) by { assert s[|p|..|p| + |sep|] == sep; }
      FindSubFirst(s, sep, 0, |p|);
      assert s[..|p|] == p && s[|p| + |sep|..] == rest;
      SplitJoinBy(parts[1..], sep);
    }
  }

  /** Number of leading characters that are not white space. */
  function WordLength(s: string): (n: nat)
    ensures n <= |s|
    ensures forall i :: 0 <= i < n ==> !IsSpace(s[i])
    ensures n < |s| ==> IsSpace(s[n])
  {
    if s == [] || IsSpace(s[0]) then 0 else 1 + WordLength(s[1..])
  }

  /** No white space in `t`. */
  predicate Spaceless(t: string)
  {
    forall i :: 0 <= i < |t| ==> !IsSpace(t[i])
  }

  /** `s.split()`: the maximal runs of non-white-space characters, in order. */
  function SplitSpace(s: string): (r: seq<string>)
    decreases |s|
    ensures forall i :: 0 <= i < |r| ==> r[i] != [] && Spaceless(r[i])
  {
    var t := LStrip(s);
    if t == [] then []
    else
      var n := WordLength(t);
      [t[..n]] + SplitSpace(t[n..])
  }

  /** A word runs up to the first white space after it. */
  lemma {:induction false} WordLengthOf(w: string, s: string)
    requires Spaceless(w) && (s == [] || IsSpace(s[0]))
    ensures WordLength(w + s) == |w|
    decreases |w|
  {
    if w != [] {
      assert (w + s)[0] == w[0] && (w + s)[1..] == w[1..] + s;
      WordLengthOf(w[1..], s);
    } else {
      assert w + s == s;
    }
  }

  /** A word followed by white space or nothing is the first piece `split()` gives. */
  lemma SplitSpaceWord(w: string, rest: string)
    requires w != [] && Spaceless(w) && (rest == [] || IsSpace(rest[0]))
    ensures SplitSpace(w + rest) == [w] + SplitSpace(rest)
  {
    var s := w + rest;
    assert LeadingSpace(s) == 0 by { assert s[0] == w[0]; }
    WordLengthOf(w, rest);
    assert s[..|w|] == w && s[|w|..] == rest;
  }

  /** One space before a word is skipped by `split()`. */
  lemma SplitSpaceLead(j: string)
    requires j != [] && !IsSpace(j[0])
    ensures SplitSpace(" " + j) == SplitSpace(j)
  {
    assert (" " + j)[1..] == j;
    assert LeadingSpace(" " + j) == 1;
  }

  /** A joined text starts with its first word's first character. */
  lemma JoinHead(sep: string, words: seq<string>)
    requires words != [] && words[0] != []
    ensures Join(sep, words) != [] && Join(sep, words)[0] == words[0][0]
  {
  }

  /** Joining non-empty words without white space by one space, then splitting on white space, gives the words back. */
  lemma {:induction false} SplitJoinSpace(words: seq<string>)
    requires forall i :: 0 <= i < |words| ==> words[i] != [] && Spaceless(words[i])
    ensures SplitSpace(Join(" ", words)) == words
    decreases |words|
  {
    if words == [] {
      assert LStrip([]) == [];
    } else if |words| == 1 {
      SplitSpaceWord(words[0], []);
      assert words[0] + [] == words[0];
      assert LStrip([]) == [];
    } else {
      var w := words[0];
      var j := Join(" ", words[1..]);
      JoinCons(" ", w, words[1..]);
      assert words == [w] + words[1..];
      assert w + " " + j == w + (" " + j);
      SplitSpaceWord(w, " " + j);
      JoinHead(" ", words[1..]);
      SplitSpaceLead(j);
      SplitJoinSpace(words[1..]);
    }
  }
}
