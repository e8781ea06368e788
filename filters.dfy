/**
 * The form filters of `wtf/filters.py`: each factory's closure as a function of the
 * factory's arguments and the datum. The community nickname lookup is a parameter.
 */
module Filters {
  import opened Wrappers
  import opened Strings
  import opened FormData

  // ---- Empty ----

  /** `Empty(default)(data)`: a false datum gives way to the default; a true one passes. */
  function Empty(default: Value, data: Value): (r: Value)
    ensures Truthy(data) ==> r == data
    ensures !Truthy(data) ==> r == default
    ensures Truthy(r) <==> Truthy(data) || Truthy(default)
  {
    if !Truthy(data) then default else data
  }

  /** Filtering twice with the same default changes nothing more. */
  lemma EmptyIdempotent(default: Value, data: Value)
    ensures Empty(default, Empty(default, data)) == Empty(default, data)
  {
    if !Truthy(data) {
      assert Empty(default, data) == default;
    }
  }

  // ---- Trim ----

  /** `Trim()(data)`: a true string is stripped; a false datum passes; any other true datum has no `strip`. */
  function Trim(data: Value): (r: Result<Value, Failure>)
    ensures r.Err? <==> Truthy(data) && !data.Str?
    ensures r.Err? ==> r.error == NoStrip
    ensures !Truthy(data) ==> r == Ok(data)
    ensures r.Ok? && data.Str? ==> r.value.Str? && |r.value.s| <= |data.s|
    ensures r.Ok? && data.Str? && r.value.s != [] ==> !IsSpace(r.value.s[0]) && !IsSpace(r.value.s[|r.value.s| - 1])
    ensures r.Ok? && data.Str? ==> forall c :: c in data.s && !IsSpace(c) ==> c in r.value.s
    ensures r.Ok? && data.Str? && LeadingSpace(data.s) < |data.s| ==>
      r.value.s == data.s[LeadingSpace(data.s)..|data.s| - TrailingSpace(data.s)]
    ensures r.Ok? && data.Str? && LeadingSpace(data.s) == |data.s| ==> r.value.s == []
  {
    if !Truthy(data) then Ok(data)
    else if data.Str? then StripSlice(data.s); Ok(Str(Strip(data.s)))
    else Err(NoStrip)
  }

  /** Trimming a trimmed datum gives it back. */
  lemma TrimIdempotent(data: Value)
    requires Trim(data).Ok?
    ensures Trim(Trim(data).value) == Trim(data)
  {
    if Truthy(data) {
      var t := Strip(data.s);
      assert t == [] || (!IsSpace(t[0]) && !IsSpace(t[|t| - 1]));
      assert Strip(t) == t;
    }
  }

  // ---- Split ----

  /** The datum `Split` works on: a list's first item, or `''` for an empty list. */
  function SplitSubject(data: Value): Value
  {
    if data.List? then (if data.items == [] then Str([]) else data.items[0]) else data
  }

  /**
   * `Split(sep)(data)`: the subject is split by `sep`, or on runs of white space when there
   * is no separator; a subject that is not a string passes unchanged.
   */
  function Split(sep: Option<string>, data: Value): (r: Result<Value, Failure>)
    ensures r.Err? <==> SplitSubject(data).Str? && sep == Some([])
    ensures r.Err? ==> r.error == EmptySeparator
    ensures !SplitSubject(data).Str? ==> r == Ok(SplitSubject(data))
    ensures r.Ok? && SplitSubject(data).Str? ==> r.value.List? && AllText(r.value.items) && (r.value.items != [] || sep.None?)
    ensures r.Ok? && SplitSubject(data).Str? && sep.None? ==>
      r.value.List? && AllText(r.value.items) &&
      forall k :: 0 <= k < |r.value.items| ==> r.value.items[k].s != [] && Spaceless(r.value.items[k].s)
  {
    var d := SplitSubject(data);
    if !d.Str? then Ok(d)
    else if sep.None? then Ok(List(Strs(SplitSpace(d.s))))
    else if sep.value == [] then Err(EmptySeparator)
    else Ok(List(Strs(SplitBy(d.s, sep.value))))
  }

  /** Joining the pieces by the separator gives the string back. */
  lemma SplitThenJoin(sep: string, s: string)
    requires sep != []
    ensures Split(Some(sep), Str(s)).Ok?
    ensures var r := Split(Some(sep), Str(s)).value; r.List? && AllText(r.items) && Join(sep, Texts(r.items)) == s
  {
    JoinSplitBy(s, sep);
  }

  /** Splitting text joined from pieces that avoid the separator's characters gives the pieces back. */
  lemma JoinThenSplit(sep: string, parts: seq<string>)
    requires sep != [] && parts != []
    requires forall k :: 0 <= k < |parts| ==> Avoids(parts[k], sep)
    ensures Split(Some(sep), Str(Join(sep, parts))) == Ok(List(Strs(parts)))
  {
    SplitJoinBy(parts, sep);
  }

  /** Splitting on white space recovers words joined by single spaces. */
  lemma JoinThenSplitSpace(words: seq<string>)
    requires forall k :: 0 <= k < |words| ==> words[k] != [] && Spaceless(words[k])
    ensures Split(None, Str(Join(" ", words))) == Ok(List(Strs(words)))
  {
    SplitJoinSpace(words);
  }

  /** A list is split through its first item, unless that is a list itself; an empty one through `''`. */
  lemma SplitList(sep: Option<string>, items: seq<Value>)
    requires sep != Some([]) && (items == [] || !items[0].List?)
    ensures items == [] && sep.None? ==> Split(sep, List(items)) == Ok(List([]))
    ensures items == [] && sep.Some? ==> Split(sep, List(items)) == Ok(List([Str([])]))
    ensures items != [] ==> Split(sep, List(items)) == Split(sep, items[0])
  {
    if items == [] {
      assert LStrip([]) == [];
      if sep.Some? {
        assert SplitBy([], sep.value) == [[]];
        assert Strs([[]])[0] == Str([]);
        assert Strs([[]]) == [Str([])];
        assert Split(sep, List(items)) == Ok(List(Strs(SplitBy([], sep.value))));
      } else {
        assert Strs([]) == [];
      }
    }
  }

  // ---- NicknameOrUid2Ukey ----

  predicate IsUkeyChar(c: char)
  {
    ('a' <= c <= 'z') || IsAsciiDigit(c)
  }

  /** `re.match(r'^[a-z0-9]{6}$', s)`: six key characters, which `$` lets a final line break follow. */
  predicate IsUkey(s: string)
  {
    (|s| == 6 || (|s| == 7 && s[6] == '\n')) && forall k :: 0 <= k < 6 ==> IsUkeyChar(s[k])
  }

  /** `s.isdigit()` over ASCII digits. */
  predicate IsDigits(s: string)
  {
    s != [] && forall k :: 0 <= k < |s| ==> IsAsciiDigit(s[k])
  }

  /** `int(s)` for a string of ASCII digits. */
  function DecimalValue(s: string): nat
    requires forall k :: 0 <= k < |s| ==> IsAsciiDigit(s[k])
  {
    if s == [] then 0
    else
      assert IsAsciiDigit(s[|s| - 1]);
      DecimalValue(s[..|s| - 1]) * 10 + (s[|s| - 1] as int - '0' as int)
  }

  /** The `i`-th character of `0123456789abcdefghijklmnopqrstuvwxyz`. */
  function Base36Digit(i: nat): (c: char)
    requires i < 36
    ensures IsUkeyChar(c)
  {
    if i < 10 then (i + '0' as int) as char else (i - 10 + 'a' as int) as char
  }

  /** The value of one base-36 digit. */
  function DigitValue(c: char): nat
  {
    if IsAsciiDigit(c) then c as int - '0' as int
    else if 'a' <= c <= 'z' then c as int - 'a' as int + 10
    else 0
  }

  /** `base36_encode(n)` for a positive `n`: lower-case digits, the most significant first. */
  function Base36(n: nat): (r: string)
    requires n > 0
    ensures r != [] && forall k :: 0 <= k < |r| ==> IsUkeyChar(r[k])
  {
    var d := Base36Digit(n % 36);
    if n < 36 then [d] else Base36(n / 36) + [d]
  }

  /** The number base-36 digits stand for. */
  function FromBase36(s: string): nat
  {
    if s == [] then 0 else FromBase36(s[..|s| - 1]) * 36 + DigitValue(s[|s| - 1])
  }

  function Pow36(m: nat): (p: nat)
    ensures p >= 1
  {
    if m == 0 then 1 else 36 * Pow36(m - 1)
  }

  /** Decoding the encoding gives the number back; below 36^m it takes at most m digits. */
  lemma {:induction false} Base36RoundTrip(n: nat, m: nat)
    requires 0 < n < Pow36(m)
    ensures FromBase36(Base36(n)) == n
    ensures |Base36(n)| <= m
  {
    var r := Base36(n);
    if n < 36 {
      assert m != 0;
      assert r[..0] == [];
    } else {
      assert m != 0;
      assert n / 36 < Pow36(m - 1) by {
        assert n < 36 * Pow36(m - 1);
      }
      Base36RoundTrip(n / 36, m - 1);
      assert r[..|r| - 1] == Base36(n / 36);
    }
  }

  /** `s.rjust(width, c)`. */
  function LeftPad(s: string, width: nat, c: char): (r: string)
    ensures |r| == if |s| >= width then |s| else width
    ensures r[|r| - |s|..] == s
    ensures forall k :: 0 <= k < |r| - |s| ==> r[k] == c
  {
    if |s| >= width then s else seq(width - |s|, _ => c) + s
  }

  /** Leading zeros do not change a base-36 value. */
  lemma {:induction false} ZerosPrefix(z: string, s: string)
    requires forall k :: 0 <= k < |z| ==> z[k] == '0'
    ensures FromBase36(z + s) == FromBase36(s)
    decreases |s|
  {
    if s == [] {
      assert z + s == z;
      ZerosValue(z);
    } else {
      assert (z + s)[..|z + s| - 1] == z + s[..|s| - 1];
      ZerosPrefix(z, s[..|s| - 1]);
    }
  }

  lemma {:induction false} ZerosValue(z: string)
    requires forall k :: 0 <= k < |z| ==> z[k] == '0'
    ensures FromBase36(z) == 0
  {
    if z != [] {
      ZerosValue(z[..|z| - 1]);
    }
  }

  /** The largest user id a key holds, plus one: 36^6. */
  const UidBound: nat := 2176782336

  /** The key a positive user id below 36^6 becomes: its base-36 digits, padded with zeros to six. */
  function UidKey(n: nat): (r: string)
    requires 0 < n < UidBound
    ensures |r| == 6 && IsUkey(r) && FromBase36(r) == n
  {
    assert Pow36(6) == UidBound;
    Base36RoundTrip(n, 6);
    var b := Base36(n);
    var r := LeftPad(b, 6, '0');
    ZerosPrefix(r[..6 - |b|], b);
    assert r == r[..6 - |b|] + b;
    r
  }

  /**
   * `NicknameOrUid2Ukey()(data)`: a false datum or a key passes unasked; otherwise the
   * nickname lookup is asked, and failing that a decimal user id in range becomes its key.
   */
  function NicknameOrUid2Ukey(lookup: string -> Option<Value>, data: Value): (r: Result<Value, Failure>)
    ensures !Truthy(data) ==> r == Ok(data)
    ensures r.Err? <==> Truthy(data) && !data.Str?
    ensures r.Err? ==> r.error == NotText
    ensures data.Str? && IsUkey(data.s) ==> r == Ok(data)
    ensures r.Ok? && r.value != data ==>
      data.Str? && !IsUkey(data.s) &&
      (lookup(data.s) == Some(r.value) ||
       (lookup(data.s).None? && IsDigits(data.s) && r.value.Str? && IsUkey(r.value.s) &&
        FromBase36(r.value.s) == DecimalValue(data.s)))
    ensures Truthy(data) && data.Str? && !IsUkey(data.s) && lookup(data.s).Some? ==>
      r == Ok(lookup(data.s).value)
    ensures Truthy(data) && data.Str? && !IsUkey(data.s) && lookup(data.s).None? ==>
      r == if IsDigits(data.s) && 0 < DecimalValue(data.s) < UidBound
           then Ok(Str(UidKey(DecimalValue(data.s)))) else Ok(data)
  {
    if !Truthy(data) then Ok(data)
    else if !data.Str? then Err(NotText)
    else if IsUkey(data.s) then Ok(data)
    else match lookup(data.s)
      case Some(key) => Ok(key)
      case None =>
        if IsDigits(data.s) && 0 < DecimalValue(data.s) < UidBound
        then Ok(Str(UidKey(DecimalValue(data.s))))
        else Ok(data)
  }

  /** A false datum, a datum that is not a string, or a key never reaches the lookup. */
  lemma LookupNotAsked(l1: string -> Option<Value>, l2: string -> Option<Value>, data: Value)
    requires !Truthy(data) || !data.Str? || IsUkey(data.s)
    ensures NicknameOrUid2Ukey(l1, data) == NicknameOrUid2Ukey(l2, data)
  {
  }

  /** A user id no nickname claims becomes a six-character key, which converts to itself. */
  lemma UidBecomesKey(lookup: string -> Option<Value>, s: string)
    requires !IsUkey(s) && lookup(s).None? && IsDigits(s) && 0 < DecimalValue(s) < UidBound
    ensures var r := NicknameOrUid2Ukey(lookup, Str(s));
      r.Ok? && r.value.Str? && |r.value.s| == 6 && FromBase36(r.value.s) == DecimalValue(s) &&
      NicknameOrUid2Ukey(lookup, r.value) == r
  {
  }

  /** A user id out of range that no nickname claims is left as it is. */
  lemma UidOutOfRange(lookup: string -> Option<Value>, s: string)
    requires !IsUkey(s) && lookup(s).None? && IsDigits(s) && DecimalValue(s) >= UidBound
    ensures NicknameOrUid2Ukey(lookup, Str(s)) == Ok(Str(s))
  {
  }
}
