/**
 * The Python values a form field or filter receives: what `bool()`, `unicode()` and
 * `==` make of them. Strings are unicode; an object of any other class is represented
 * by its truth value and its text.
 */
module FormData {
  import opened Wrappers
  import opened Strings

  datatype Value =
    | Null
    | Bool(b: bool)
    | Int(i: int)
    | Str(s: string)
    | List(items: seq<Value>)
    | Object(truthy: bool, text: string)

  /** The exceptions the fields and filters raise. */
  datatype Failure =
    | NotAValidChoice          // ValueError('Not a valid choice') from RadioField.pre_validate
    | Unpack(size: nat)        // ValueError: a choice that is not a triple
    | JoinType(index: nat)     // TypeError: `sep.join` met an item that is not a string
    | Encode                   // UnicodeEncodeError: `str()` of text outside ASCII
    | NoStrip                  // AttributeError: `.strip()` on a value that is not a string
    | NotText                  // TypeError: a regular expression applied to a value that is not a string
    | EmptySeparator           // ValueError('empty separator') from `str.split`

  /** `bool(v)`. */
  predicate Truthy(v: Value)
  {
    match v
    case Null => false
    case Bool(b) => b
    case Int(i) => i != 0
    case Str(s) => s != []
    case List(items) => items != []
    case Object(t, _) => t
  }

  /** The decimal digits of `n`. */
  function Digits(n: nat): (r: string)
    ensures r != [] && forall k :: 0 <= k < |r| ==> IsAsciiDigit(r[k])
    ensures |r| == 1 <==> n < 10
  {
    if n < 10 then [(n + '0' as int) as char] else Digits(n / 10) + [(n % 10 + '0' as int) as char]
  }

  /** `unicode(i)` for an integer. */
  function Decimal(i: int): string
  {
    if i < 0 then "-" + Digits(-i) else Digits(i)
  }

  /** A decimal numeral is only digits and a minus sign; it reads "0" or "1" exactly for 0 or 1. */
  lemma DecimalShape(i: int)
    ensures Decimal(i) != [] && Lower(Decimal(i)) == Decimal(i)
    ensures Decimal(i)[0] == '-' || IsAsciiDigit(Decimal(i)[0])
    ensures Decimal(i) == "0" <==> i == 0
    ensures Decimal(i) == "1" <==> i == 1
  {
    var d := Decimal(i);
    LowerEq(d, d);
    if i < 0 {
      assert d[0] == '-';
    } else if i >= 10 {
      assert |d| != 1;
    }
  }

  /** `unicode(v)`; a list shows the `repr` of its items, strings quoted without escapes. */
  function Text(v: Value): string
    decreases v, 1
  {
    match v
    case Null => "None"
    case Bool(b) => if b then "True" else "False"
    case Int(i) => Decimal(i)
    case Str(s) => s
    case List(items) => "[" + Join(", ", seq(|items|, k requires 0 <= k < |items| => Repr(items[k]))) + "]"
    case Object(_, t) => t
  }

  /** `repr(v)`. */
  function Repr(v: Value): string
    decreases v, 2
  {
    if v.Str? then "u'" + v.s + "'" else Text(v)
  }

  /** The integer a boolean or an integer compares as. */
  function Number(v: Value): Option<int>
  {
    match v
    case Bool(b) => Some(if b then 1 else 0)
    case Int(i) => Some(i)
    case _ => None
  }

  /** Python's `a == b`: booleans compare as 0 and 1, lists item by item, other objects by what they are. */
  predicate Equal(a: Value, b: Value)
    decreases a
  {
    if Number(a).Some? || Number(b).Some? then Number(a) == Number(b)
    else match a
      case List(x) => b.List? && |x| == |b.items| && forall k :: 0 <= k < |x| ==> Equal(x[k], b.items[k])
      case _ => a == b
  }

  /** Equality is reflexive and symmetric. */
  lemma {:induction false} EqualSymmetric(a: Value, b: Value)
    ensures Equal(a, a)
    ensures Equal(a, b) <==> Equal(b, a)
    decreases a
  {
    if a.List? {
      forall k | 0 <= k < |a.items|
        ensures Equal(a.items[k], a.items[k])
      {
        EqualSymmetric(a.items[k], a.items[k]);
      }
      if b.List? && |a.items| == |b.items| {
        forall k | 0 <= k < |a.items|
          ensures Equal(a.items[k], b.items[k]) <==> Equal(b.items[k], a.items[k])
        {
          EqualSymmetric(a.items[k], b.items[k]);
        }
      }
    }
  }

  /** The items of a list of strings. */
  predicate AllText(items: seq<Value>)
  {
    forall k :: 0 <= k < |items| ==> items[k].Str?
  }

  function Texts(items: seq<Value>): (r: seq<string>)
    requires AllText(items)
    ensures |r| == |items| && forall k :: 0 <= k < |r| ==> r[k] == items[k].s
  {
    seq(|items|, k requires 0 <= k < |items| => items[k].s)
  }

  /** Strings as a list of values. */
  function Strs(parts: seq<string>): (r: seq<Value>)
    ensures AllText(r) && Texts(r) == parts
  {
    seq(|parts|, k requires 0 <= k < |parts| => Str(parts[k]))
  }
}
