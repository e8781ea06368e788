/**
 * The form fields of `wtf/fields.py`. Each field is an object whose `process_formdata`
 * assigns its `data`, or whose `choices_just` rebuilds its `choices`; what they compute
 * is stated by the functions beside them.
 */
module Fields {
  import opened Wrappers
  import opened Strings
  import opened FormData
  import Filters

  /** The texts a boolean field reads as false, in any case. */
  const FalseWords: set<string> := {"false", "no", "0"}

  /** The texts a tri-state field reads as true, in any case. */
  const TrueWords: set<string> := {"true", "yes", "1"}

  // ---- BooleanField ----

  /** What BooleanField makes of the submitted values: false for none, for a false word, or for a false value. */
  function BooleanOf(valuelist: seq<Value>): (r: bool)
    ensures valuelist == [] ==> !r
    ensures valuelist != [] && valuelist[0].Str? ==>
      (r <==> valuelist[0].s != [] && Lower(valuelist[0].s) !in FalseWords)
    ensures valuelist != [] && !valuelist[0].Str? ==> r == Truthy(valuelist[0])
  {
    var value := if valuelist != [] then valuelist[0] else Bool(false);
    if value.Str? && Lower(value.s) in FalseWords then false else Truthy(value)
  }

  /** `_value`: the text of the first raw datum, or `y` when there is none. */
  function BooleanText(raw: seq<Value>): (r: string)
    ensures raw == [] ==> r == "y"
    ensures raw != [] && raw[0].Str? ==> r == raw[0].s
  {
    if raw != [] then Text(raw[0]) else "y"
  }

  class BooleanField {
    var data: bool
    var rawData: seq<Value>

    /** `process_formdata`. */
    method ProcessFormdata(valuelist: seq<Value>)
      modifies this`data
      ensures data == BooleanOf(valuelist)
    {
      var value := if valuelist != [] then valuelist[0] else Bool(false);
      if value.Str? && Lower(value.s) in FalseWords {
        data := false;
      } else {
        data := Truthy(value);
      }
    }

    /** `_value`. */
    function DisplayText(): (r: string)
      reads this
      ensures rawData == [] ==> r == "y"
      ensures rawData != [] && rawData[0].Str? ==> r == rawData[0].s
    {
      BooleanText(rawData)
    }
  }

  /** Example of `BooleanOf`'s contract: the false words in other cases, and a word that is not one of them. */
  lemma BooleanIgnoresCase()
    ensures !BooleanOf([Str("FALSE")]) && !BooleanOf([Str("No")])
    ensures BooleanOf([Str("off")]) && !BooleanOf([]) && !BooleanOf([Str("")])
  {
    LowerEq("FALSE", "false");
    LowerEq("No", "no");
    LowerEq("off", "off");
  }

  /** A boolean's text lowers to `true` or `false`. */
  lemma BoolTextLowered(b: bool)
    ensures Lower(Text(Bool(b))) == if b then "true" else "false"
  {
    if b {
      LowerEq("True", "true");
    } else {
      LowerEq("False", "false");
    }
  }

  /** Submitting again the text the field shows gives the same data, for a string, boolean or integer. */
  lemma BooleanRedisplay(raw: seq<Value>)
    requires raw != [] && (raw[0].Str? || raw[0].Bool? || raw[0].Int?)
    ensures BooleanOf([Str(BooleanText(raw))]) == BooleanOf(raw)
  {
    match raw[0]
    case Bool(b) => BoolTextLowered(b);
    case Int(i) => DecimalShape(i);
    case Str(_) =>
  }

  // ---- NullBooleanField ----

  /** What NullBooleanField makes of the submitted values: a true word, a false word, or nothing known. */
  function NullBooleanOf(valuelist: seq<Value>): (r: Option<bool>)
    ensures valuelist == [] ==> r == None
    ensures r == Some(true) <==> valuelist != [] && Lower(Text(valuelist[0])) in TrueWords
    ensures r == Some(false) <==> valuelist != [] && Lower(Text(valuelist[0])) in FalseWords
  {
    if valuelist == [] then None
    else
      var value := Lower(Text(valuelist[0]));
      if value in TrueWords then Some(true)
      else if value in FalseWords then Some(false)
      else None
  }

  class NullBooleanField {
    var data: Option<bool>
    var rawData: seq<Value>

    /** `process_formdata`. */
    method ProcessFormdata(valuelist: seq<Value>)
      modifies this`data
      ensures data == NullBooleanOf(valuelist)
    {
      var value: Option<string> := if valuelist != [] then Some(Lower(Text(valuelist[0]))) else None;
      if value.Some? && value.value in TrueWords {
        data := Some(true);
      } else if value.Some? && value.value in FalseWords {
        data := Some(false);
      } else {
        data := None;
      }
    }

    /** `_value`, inherited from BooleanField. */
    function DisplayText(): (r: string)
      reads this
      ensures rawData == [] ==> r == "y"
      ensures rawData != [] && rawData[0].Str? ==> r == rawData[0].s
    {
      BooleanText(rawData)
    }
  }

  /** Example of `NullBooleanOf`'s contract: the words in any case. */
  lemma NullBooleanIgnoresCase()
    ensures NullBooleanOf([Str("YES")]) == Some(true) && NullBooleanOf([Str("False")]) == Some(false)
  {
    LowerEq("YES", "yes");
    LowerEq("False", "false");
  }

  /** Example of `NullBooleanOf`'s contract: anything but the words, and no value at all, leaves the data unknown. */
  lemma NullBooleanUnknown()
    ensures NullBooleanOf([Str("maybe")]) == None && NullBooleanOf([Str("")]) == None
    ensures NullBooleanOf([Null]) == None && NullBooleanOf([]) == None
  {
    LowerEq("maybe", "maybe");
    LowerEq("None", "none");
  }

  /** A list's text starts with a bracket, so it is never a word. */
  lemma ListTextNoWord(items: seq<Value>)
    ensures Lower(Text(List(items))) !in TrueWords && Lower(Text(List(items))) !in FalseWords
  {
    var t := Text(List(items));
    LowerAt(t);
    assert Lower(t)[0] == '[';
  }

  /** Where the tri-state field decides, it agrees with the boolean field (for any value but an opaque object). */
  lemma NullBooleanAgrees(valuelist: seq<Value>)
    requires valuelist != [] ==> !valuelist[0].Object?
    ensures NullBooleanOf(valuelist).Some? ==> NullBooleanOf(valuelist).value == BooleanOf(valuelist)
  {
    if valuelist != [] {
      match valuelist[0]
      case Bool(b) => BoolTextLowered(b);
      case Int(i) => DecimalShape(i);
      case List(items) => ListTextNoWord(items);
      case Null => LowerEq("None", "none");
      case _ =>
    }
  }

  // ---- RadioField ----

  /** `choices_just` on one choice: padded with `None` up to `num` entries, a longer one kept. */
  function Justify(choice: seq<Value>, num: int): (r: seq<Value>)
    ensures |r| == if num > |choice| then num else |choice|
    ensures r[..|choice|] == choice
    ensures forall k :: |choice| <= k < |r| ==> r[k] == Null
  {
    choice + seq(if num > |choice| then num - |choice| else 0, _ => Null)
  }

  /** `choices_just` on every choice, in order. */
  function Justified(choices: seq<seq<Value>>, num: int): (r: seq<seq<Value>>)
    ensures |r| == |choices|
    ensures forall k :: 0 <= k < |r| ==> r[k] == Justify(choices[k], num)
  {
    if choices == [] then []
    else Justified(choices[..|choices| - 1], num) + [Justify(choices[|choices| - 1], num)]
  }

  /** `pre_validate`: accepted at the first triple whose value equals the data; a choice that is not a triple stops it. */
  function ChoiceCheck(choices: seq<seq<Value>>, data: Value): (r: Result<(), Failure>)
    ensures r.Ok? ==> exists k :: 0 <= k < |choices| && |choices[k]| == 3 && Equal(data, choices[k][0])
    ensures r == Err(NotAValidChoice) <==>
      forall k :: 0 <= k < |choices| ==> |choices[k]| == 3 && !Equal(data, choices[k][0])
    ensures r.Err? && r.error != NotAValidChoice ==>
      exists k :: 0 <= k < |choices| && |choices[k]| != 3 && r.error == Unpack(|choices[k]|)
  {
    if choices == [] then Err(NotAValidChoice)
    else if |choices[0]| != 3 then Err(Unpack(|choices[0]|))
    else if Equal(data, choices[0][0]) then Ok(())
    else ChoiceCheck(choices[1..], data)
  }

  class RadioField {
    var choices: seq<seq<Value>>
    var data: Value

    /** `choices_just(num)`. */
    method ChoicesJust(num: int)
      modifies this`choices
      ensures choices == Justified(old(choices), num)
    {
      var newChoices: seq<seq<Value>> := [];
      for k := 0 to |choices|
        invariant newChoices == Justified(choices[..k], num)
      {
        var choice := choices[k];
        var newChoice := choice;
        var left := num - |choice|;
        for i := 0 to if left > 0 then left else 0
          invariant newChoice == choice + seq(i, _ => Null)
        {
          newChoice := newChoice + [Null];
        }
        assert choices[..k + 1][..k] == choices[..k];
        newChoices := newChoices + [newChoice];
      }
      assert choices[..|choices|] == choices;
      choices := newChoices;
    }

    /** `pre_validate`. */
    method PreValidate() returns (r: Result<(), Failure>)
      ensures r == ChoiceCheck(choices, data)
    {
      for k := 0 to |choices|
        invariant ChoiceCheck(choices[k..], data) == ChoiceCheck(choices, data)
      {
        assert choices[k..][1..] == choices[k + 1..];
        var choice := choices[k];
        if |choice| != 3 {
          return Err(Unpack(|choice|));
        }
        if Equal(data, choice[0]) {
          return Ok(());
        }
      }
      return Err(NotAValidChoice);
    }
  }

  /** Over triples, a choice is valid exactly when some choice's value equals the data. */
  lemma {:induction false} ChoiceCheckMeaning(choices: seq<seq<Value>>, data: Value)
    requires forall k :: 0 <= k < |choices| ==> |choices[k]| == 3
    ensures ChoiceCheck(choices, data).Ok? <==> exists k :: 0 <= k < |choices| && Equal(data, choices[k][0])
    ensures ChoiceCheck(choices, data).Err? ==> ChoiceCheck(choices, data).error == NotAValidChoice
  {
    if choices != [] && !Equal(data, choices[0][0]) {
      ChoiceCheckMeaning(choices[1..], data);
      if exists k :: 0 <= k < |choices| && Equal(data, choices[k][0]) {
        var k :| 0 <= k < |choices| && Equal(data, choices[k][0]);
        assert k != 0 && choices[1..][k - 1] == choices[k];
      }
    }
  }

  /** Justifying twice changes nothing more. */
  lemma JustifiedIdempotent(choices: seq<seq<Value>>, num: int)
    ensures Justified(Justified(choices, num), num) == Justified(choices, num)
  {
    var j := Justified(choices, num);
    forall k | 0 <= k < |j|
      ensures Justify(j[k], num) == j[k]
    {
      assert j[k] + [] == j[k];
    }
  }

  /** After `choices_just()`, choices of at most three entries are triples whose value is the original first entry, or `None`. */
  lemma JustifiedTriples(choices: seq<seq<Value>>)
    requires forall k :: 0 <= k < |choices| ==> |choices[k]| <= 3
    ensures forall k :: 0 <= k < |choices| ==> |Justified(choices, 3)[k]| == 3
    ensures forall k :: 0 <= k < |choices| ==>
      Justified(choices, 3)[k][0] == if choices[k] == [] then Null else choices[k][0]
  {
    var j := Justified(choices, 3);
    forall k | 0 <= k < |choices|
      ensures j[k][0] == if choices[k] == [] then Null else choices[k][0]
    {
      if choices[k] != [] {
        assert j[k][..|choices[k]|] == choices[k];
      }
    }
  }

  /** `iter_choices` before `pre_validate`: the data is accepted exactly when it equals some choice's value. */
  lemma ValidateAfterJustify(choices: seq<seq<Value>>, data: Value)
    requires forall k :: 0 <= k < |choices| ==> |choices[k]| <= 3
    ensures ChoiceCheck(Justified(choices, 3), data).Ok? <==>
      exists k :: 0 <= k < |choices| && Equal(data, if choices[k] == [] then Null else choices[k][0])
  {
    var j := Justified(choices, 3);
    JustifiedTriples(choices);
    ChoiceCheckMeaning(j, data);
    if exists k :: 0 <= k < |j| && Equal(data, j[k][0]) {
      var k :| 0 <= k < |j| && Equal(data, j[k][0]);
      assert Equal(data, if choices[k] == [] then Null else choices[k][0]);
    }
  }

  // ---- MultipleField ----

  /** The first item of a list that is not a string. */
  function FirstNonText(items: seq<Value>): (k: nat)
    requires !AllText(items)
    ensures k < |items| && !items[k].Str? && AllText(items[..k])
  {
    if !items[0].Str? then 0
    else
      var k := FirstNonText(items[1..]);
      assert forall j :: 0 <= j < k + 1 ==> items[..k + 1][j] == items[j];
      k + 1
  }

  /** `str(v)` in Python 2: text outside ASCII cannot be encoded. */
  function ByteText(v: Value): (r: Result<string, Failure>)
    ensures r.Ok? ==> r.value == Text(v) && forall k :: 0 <= k < |r.value| ==> r.value[k] < '\U{80}'
    ensures r.Err? ==> r.error == Encode
  {
    var t := Text(v);
    if forall k :: 0 <= k < |t| ==> t[k] < '\U{80}' then Ok(t) else Err(Encode)
  }

  /** MultipleField's `_value`: a list joined by the separator, nothing for a false value, else `str()`. */
  function MultipleText(data: Value, sep: string): (r: Result<string, Failure>)
    ensures data.List? ==> (r.Ok? <==> AllText(data.items))
    ensures data.List? && r.Err? ==> r.error.JoinType? && r.error.index < |data.items| && !data.items[r.error.index].Str?
    ensures !data.List? && !Truthy(data) ==> r == Ok("")
    ensures data.Str? && r.Ok? ==> r.value == data.s
    ensures data.List? && AllText(data.items) ==> r == Ok(Join(sep, Texts(data.items)))
    ensures !data.List? && Truthy(data) ==> r == ByteText(data)
  {
    if data.List? then
      if AllText(data.items) then Ok(Join(sep, Texts(data.items))) else Err(JoinType(FirstNonText(data.items)))
    else if !Truthy(data) then Ok("")
    else ByteText(data)
  }

  class MultipleField {
    var data: Value
    var sep: string

    /** `process_formdata`: the submitted values, as they come. */
    method ProcessFormdata(valuelist: seq<Value>)
      modifies this`data
      ensures data == List(valuelist)
    {
      data := List(valuelist);
    }

    /** `_value`. */
    function DisplayText(): (r: Result<string, Failure>)
      reads this
      ensures data.List? ==> (r.Ok? <==> AllText(data.items))
      ensures !data.List? && !Truthy(data) ==> r == Ok("")
      ensures data.List? && AllText(data.items) ==> r == Ok(Join(sep, Texts(data.items)))
      ensures data.List? && r.Err? ==> r.error.JoinType? && r.error.index < |data.items| && !data.items[r.error.index].Str?
      ensures !data.List? && Truthy(data) ==> r == ByteText(data)
    {
      MultipleText(data, sep)
    }
  }

  /** Submitted strings the separator's characters avoid come back from the shown text through `Split(sep)`. */
  lemma DisplaySplitsBack(parts: seq<string>, sep: string)
    requires sep != [] && parts != []
    requires forall k :: 0 <= k < |parts| ==> Avoids(parts[k], sep)
    ensures MultipleText(List(Strs(parts)), sep) == Ok(Join(sep, parts))
    ensures Filters.Split(Some(sep), Str(Join(sep, parts))) == Ok(List(Strs(parts)))
  {
    Filters.JoinThenSplit(sep, parts);
  }
}
