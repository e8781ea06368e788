/**
 * The module-level tag registries and hook table of contribs/bbcode/core.py:
 * `register_node` keeps each registry as an ordered name -> (weight, class) map and
 * re-sorts it by descending weight after every registration; `register_hook` and
 * `trigger_hook` keep ordered callback lists per hook name.
 */
module Registry {
  import opened Wrappers
  import opened Strings
  import opened Nodes

  /** The class a registration decorates: a tag class or a regex-driven inline class. */
  datatype NodeClass = TagClass(tag: TagKind) | RegexClass(regex: RegexKind)

  /** The weights never increase along the map. */
  predicate SortedDesc<K>(m: seq<Entry<K>>)
  {
    forall i, j :: 0 <= i < j < |m| ==> m[i].weight >= m[j].weight
  }

  /** No name is a key twice. */
  predicate UniqueNames<K>(m: seq<Entry<K>>)
  {
    forall i, j :: 0 <= i < j < |m| ==> m[i].name != m[j].name
  }

  /** Every weight is its name's length, as `register_node` gives tags and aliases. */
  predicate WeightsAreLengths<K>(m: seq<Entry<K>>)
  {
    forall i :: 0 <= i < |m| ==> m[i].weight == |m[i].name|
  }

  function Names<K>(m: seq<Entry<K>>): set<string>
  {
    set i | 0 <= i < |m| :: m[i].name
  }

  /** The position of `name` among the keys, if it is one. */
  function IndexOf<K>(m: seq<Entry<K>>, name: string): (r: Option<nat>)
    ensures r.Some? ==> r.value < |m| && m[r.value].name == name
    ensures r.None? ==> forall i :: 0 <= i < |m| ==> m[i].name != name
  {
    if m == [] then None
    else if m[|m| - 1].name == name then Some(|m| - 1)
    else IndexOf(m[..|m| - 1], name)
  }

  /** `OrderedDict[name] = value`: replace in place when the key exists, append otherwise. */
  function Upsert<K>(m: seq<Entry<K>>, e: Entry<K>): (r: seq<Entry<K>>)
    ensures e in r
    ensures forall x :: x in m && x.name != e.name ==> x in r
    ensures forall x :: x in r ==> x == e || x in m
    ensures UniqueNames(m) ==> UniqueNames(r)
  {
    match IndexOf(m, e.name)
    case Some(i) =>
      var r := m[i := e];
      assert forall k :: 0 <= k < |m| ==> r[k] == m[k] || k == i;
      assert forall x :: x in m && x.name != e.name ==> x in r;
      assert forall x :: x in r ==> x == e || x in m;
      r
    case None => m + [e]
  }

  /** Upserts in order. */
  function UpsertAll<K>(m: seq<Entry<K>>, es: seq<Entry<K>>): (r: seq<Entry<K>>)
    decreases |es|
  {
    if es == [] then m else UpsertAll(Upsert(m, es[0]), es[1..])
  }

  lemma {:induction false} UpsertAllUnique<K>(m: seq<Entry<K>>, es: seq<Entry<K>>)
    requires UniqueNames(m)
    ensures UniqueNames(UpsertAll(m, es))
    decreases |es|
  {
    if es != [] {
      UpsertAllUnique(Upsert(m, es[0]), es[1..]);
    }
  }

  /** An entry no later upsert replaces by a different one stays in the map. */
  lemma {:induction false} UpsertAllKeeps<K>(m: seq<Entry<K>>, es: seq<Entry<K>>, e: Entry<K>)
    requires e in m
    requires forall f :: f in es && f.name == e.name ==> f == e
    ensures e in UpsertAll(m, es)
    decreases |es|
  {
    if es != [] {
      UpsertAllKeeps(Upsert(m, es[0]), es[1..], e);
    }
  }

  /** The `i`-th upsert survives when every later upsert of its name writes the same entry. */
  lemma {:induction false} UpsertAllContains<K>(m: seq<Entry<K>>, es: seq<Entry<K>>, i: nat)
    requires i < |es|
    requires forall k :: i < k < |es| && es[k].name == es[i].name ==> es[k] == es[i]
    ensures es[i] in UpsertAll(m, es)
    decreases |es|
  {
    if i == 0 {
      assert forall f :: f in es[1..] && f.name == es[0].name ==> f == es[0];
      UpsertAllKeeps(Upsert(m, es[0]), es[1..], es[0]);
    } else {
      UpsertAllContains(Upsert(m, es[0]), es[1..], i - 1);
    }
  }

  /** Puts `e` after every entry at least as heavy: Python's stable sort with `reverse=True`. */
  function InsertDesc<K>(m: seq<Entry<K>>, e: Entry<K>): (r: seq<Entry<K>>)
    ensures multiset(r) == multiset(m) + multiset{e}
    decreases |m|
  {
    if m == [] then [e]
    else if m[0].weight >= e.weight then
      assert m == [m[0]] + m[1..];
      [m[0]] + InsertDesc(m[1..], e)
    else [e] + m
  }

  /** Every entry weighs at most `w`. */
  predicate AllAtMost<K(==)>(m: seq<Entry<K>>, w: nat)
  {
    forall x :: x in m ==> x.weight <= w
  }

  /** Inserting only adds `e`. */
  lemma InsertDescMembers<K>(m: seq<Entry<K>>, e: Entry<K>)
    ensures forall x :: x in InsertDesc(m, e) ==> x in m || x == e
  {
    var r := InsertDesc(m, e);
    assert forall x :: x in r ==> x in multiset(r);
  }

  /** The head of a sorted map weighs at least as much as everything after it. */
  lemma SortedHead<K>(m: seq<Entry<K>>)
    requires m != [] && SortedDesc(m)
    ensures SortedDesc(m[1..]) && AllAtMost(m[1..], m[0].weight)
  {
    forall x | x in m[1..]
      ensures x.weight <= m[0].weight
    {
      var j :| 0 <= j < |m[1..]| && m[1..][j] == x;
      assert m[j + 1] == x;
    }
  }

  /** A sorted map behind an entry at least as heavy as all of it is sorted. */
  lemma SortedCons<K>(h: Entry<K>, m: seq<Entry<K>>)
    requires SortedDesc(m) && AllAtMost(m, h.weight)
    ensures SortedDesc([h] + m)
  {
    var r := [h] + m;
    forall i, j | 0 <= i < j < |r|
      ensures r[i].weight >= r[j].weight
    {
      if i == 0 {
        assert r[j] == m[j - 1] && r[j] in m;
      } else {
        assert r[i] == m[i - 1] && r[j] == m[j - 1];
      }
    }
  }

  lemma {:induction false} InsertDescSorted<K>(m: seq<Entry<K>>, e: Entry<K>)
    requires SortedDesc(m)
    ensures SortedDesc(InsertDesc(m, e))
    decreases |m|
  {
    if m == [] {
      assert SortedDesc([e]);
    } else if m[0].weight >= e.weight {
      var rest := InsertDesc(m[1..], e);
      SortedHead(m);
      InsertDescSorted(m[1..], e);
      InsertDescMembers(m[1..], e);
      assert AllAtMost(rest, m[0].weight);
      SortedCons(m[0], rest);
    } else {
      assert AllAtMost(m, e.weight) by {
        SortedHead(m);
        assert m[0] in m;
        assert forall x :: x in m ==> x == m[0] || x in m[1..] by {
          assert m == [m[0]] + m[1..];
        }
      }
      SortedCons(e, m);
    }
  }

  /** `sorted(items, key=weight, reverse=True)`: an insertion sort that keeps equal weights in order. */
  function SortDesc<K>(m: seq<Entry<K>>): (r: seq<Entry<K>>)
    ensures SortedDesc(r)
    ensures multiset(r) == multiset(m)
    decreases |m|
  {
    if m == [] then []
    else
      var init := m[..|m| - 1];
      assert m == init + [m[|m| - 1]];
      InsertDescSorted(SortDesc(init), m[|m| - 1]);
      InsertDesc(SortDesc(init), m[|m| - 1])
  }

  lemma {:induction false} InsertDescAppend<K>(m: seq<Entry<K>>, e: Entry<K>)
    requires SortedDesc(m + [e])
    ensures InsertDesc(m, e) == m + [e]
    decreases |m|
  {
    if m != [] {
      assert (m + [e])[0] == m[0] && (m + [e])[|m|] == e;
      assert m[1..] + [e] == (m + [e])[1..];
      InsertDescAppend(m[1..], e);
    }
  }

  /** The sort inserts the last entry into the sorted rest. */
  lemma SortDescLast<K>(m: seq<Entry<K>>)
    requires m != []
    ensures SortDesc(m) == InsertDesc(SortDesc(m[..|m| - 1]), m[|m| - 1])
  {
  }

  lemma SortedInit<K>(m: seq<Entry<K>>)
    requires m != [] && SortedDesc(m)
    ensures SortedDesc(m[..|m| - 1]) && m[..|m| - 1] + [m[|m| - 1]] == m
  {
    assert forall i :: 0 <= i < |m| - 1 ==> m[..|m| - 1][i] == m[i];
  }

  /** Sorting a map that is already in weight order leaves it as it is (the sort is stable). */
  lemma {:induction false} SortDescSorted<K>(m: seq<Entry<K>>)
    requires SortedDesc(m)
    ensures SortDesc(m) == m
    decreases |m|
  {
    if m != [] {
      var init, last := m[..|m| - 1], m[|m| - 1];
      SortedInit(m);
      SortDescSorted(init);
      SortDescLast(m);
      InsertDescAppend(init, last);
    }
  }

  lemma MembersKept<K>(a: seq<Entry<K>>, b: seq<Entry<K>>)
    requires multiset(a) == multiset(b)
    ensures forall x :: x in a ==> x in b
    ensures forall x :: x in b ==> x in a
  {
    assert forall x :: x in a <==> x in multiset(a);
    assert forall x :: x in b <==> x in multiset(b);
  }

  /** No entry is named `name`. */
  ghost predicate NameAbsent<K>(m: seq<Entry<K>>, name: string)
  {
    forall x :: x in m ==> x.name != name
  }

  /** The head of a map with unique names is named nowhere after it. */
  lemma UniqueHead<K>(m: seq<Entry<K>>)
    requires m != [] && UniqueNames(m)
    ensures UniqueNames(m[1..]) && NameAbsent(m[1..], m[0].name)
  {
    forall x | x in m[1..]
      ensures x.name != m[0].name
    {
      var j :| 0 <= j < |m[1..]| && m[1..][j] == x;
      assert m[j + 1] == x;
    }
  }

  /** Unique names behind an entry whose name none of them has are unique. */
  lemma UniqueCons<K>(h: Entry<K>, m: seq<Entry<K>>)
    requires UniqueNames(m) && NameAbsent(m, h.name)
    ensures UniqueNames([h] + m)
  {
    var r := [h] + m;
    forall i, j | 0 <= i < j < |r|
      ensures r[i].name != r[j].name
    {
      if i == 0 {
        assert r[j] == m[j - 1] && r[j] in m;
      } else {
        assert r[i] == m[i - 1] && r[j] == m[j - 1];
      }
    }
  }

  lemma {:induction false} InsertDescUnique<K>(m: seq<Entry<K>>, e: Entry<K>)
    requires UniqueNames(m) && NameAbsent(m, e.name)
    ensures UniqueNames(InsertDesc(m, e))
    decreases |m|
  {
    if m == [] {
      assert UniqueNames([e]);
    } else if m[0].weight >= e.weight {
      var rest := InsertDesc(m[1..], e);
      UniqueHead(m);
      assert NameAbsent(m[1..], e.name) by {
        assert forall x :: x in m[1..] ==> x in m;
      }
      InsertDescUnique(m[1..], e);
      InsertDescMembers(m[1..], e);
      assert NameAbsent(rest, m[0].name) by {
        assert m[0] in m;
      }
      UniqueCons(m[0], rest);
    } else {
      UniqueCons(e, m);
    }
  }

  /** Sorting keeps the keys unique. */
  lemma {:induction false} SortDescUnique<K>(m: seq<Entry<K>>)
    requires UniqueNames(m)
    ensures UniqueNames(SortDesc(m))
    decreases |m|
  {
    if m != [] {
      var init := m[..|m| - 1];
      var last := m[|m| - 1];
      var sorted := SortDesc(init);
      SortDescLast(m);
      SortDescUnique(init);
      assert NameAbsent(sorted, last.name) by {
        assert forall j :: 0 <= j < |init| ==> init[j].name != last.name;
        assert forall x :: x in sorted ==> x in multiset(init);
      }
      InsertDescUnique(sorted, last);
    }
  }

  /** A tag registration: upsert the name and aliases, then re-sort. */
  function RegisterTag(m: seq<Entry<TagKind>>, tagname: string, aliases: seq<string>, weight: Option<nat>, k: TagKind): (r: seq<Entry<TagKind>>)
    requires tagname != []
    ensures SortedDesc(r)
  {
    SortDesc(UpsertAll(m, TagEntries(tagname, aliases, weight, k)))
  }

  /** A tag registration keeps the keys unique. */
  lemma RegisterTagUnique(m: seq<Entry<TagKind>>, tagname: string, aliases: seq<string>, weight: Option<nat>, k: TagKind)
    requires tagname != [] && UniqueNames(m)
    ensures UniqueNames(RegisterTag(m, tagname, aliases, weight, k))
  {
    var es := TagEntries(tagname, aliases, weight, k);
    UpsertAllUnique(m, es);
    SortDescUnique(UpsertAll(m, es));
  }

  /** Every alias is a key of `m`, weighted by its length, for the class `k`. */
  ghost predicate AliasesIn(aliases: seq<string>, k: TagKind, m: seq<Entry<TagKind>>)
  {
    forall a :: a in aliases ==> Entry(a, |a|, k) in m
  }

  /** A tag registration registers every alias at its own length. */
  lemma RegisterTagAliases(m: seq<Entry<TagKind>>, tagname: string, aliases: seq<string>, weight: Option<nat>, k: TagKind)
    requires tagname != []
    ensures AliasesIn(aliases, k, RegisterTag(m, tagname, aliases, weight, k))
  {
    var u := UpsertAll(m, TagEntries(tagname, aliases, weight, k));
    AliasesRegistered(m, tagname, aliases, weight, k);
    MembersKept(u, SortDesc(u));
  }

  /** A tag registered at its own length keeps every weight equal to its name's length. */
  lemma RegisterTagWeights(m: seq<Entry<TagKind>>, tagname: string, aliases: seq<string>, weight: Option<nat>, k: TagKind)
    requires tagname != [] && WeightsAreLengths(m) && (weight.None? || weight.value == |tagname|)
    ensures WeightsAreLengths(RegisterTag(m, tagname, aliases, weight, k))
  {
    var es := TagEntries(tagname, aliases, weight, k);
    var u := UpsertAll(m, es);
    TagEntriesWeights(tagname, aliases, weight, k);
    UpsertAllWeights(m, es);
    var r := SortDesc(u);
    MembersKept(u, r);
    assert forall x :: x in u ==> x.weight == |x.name| by {
      assert forall i :: 0 <= i < |u| ==> u[i].weight == |u[i].name|;
    }
    assert forall i :: 0 <= i < |r| ==> r[i] in u;
  }

  lemma TagEntriesWeights(tagname: string, aliases: seq<string>, weight: Option<nat>, k: TagKind)
    requires tagname != [] && (weight.None? || weight.value == |tagname|)
    ensures WeightsAreLengths(TagEntries(tagname, aliases, weight, k))
  {
    var head: seq<Entry<TagKind>> := if tagname[0] != '_' then [Entry(tagname, DefaultWeight(tagname, weight), k)] else [];
    var tail := seq(|aliases|, i requires 0 <= i < |aliases| => Entry(aliases[i], |aliases[i]|, k));
    assert TagEntries(tagname, aliases, weight, k) == head + tail;
    assert WeightsAreLengths(head) && WeightsAreLengths(tail);
  }

  /** A regex registration: upsert the name alone, then re-sort. */
  function RegisterRegex(m: seq<Entry<RegexKind>>, name: string, weight: nat, k: RegexKind): (r: seq<Entry<RegexKind>>)
    ensures SortedDesc(r)
    ensures Entry(name, weight, k) in r
    ensures UniqueNames(m) ==> UniqueNames(r)
  {
    var u := Upsert(m, Entry(name, weight, k));
    MembersKept(u, SortDesc(u));
    if UniqueNames(m) then
      SortDescUnique(u);
      SortDesc(u)
    else SortDesc(u)
  }

  /** `len(s)` of the entry's name, the default weight. */
  function DefaultWeight(tagname: string, weight: Option<nat>): nat
  {
    if weight.Some? then weight.value else |tagname|
  }

  /** The entries a tag registration adds: the name (unless it starts with `_`), then each alias at its own length. */
  function TagEntries(tagname: string, aliases: seq<string>, weight: Option<nat>, k: TagKind): (r: seq<Entry<TagKind>>)
    requires tagname != []
  {
    (if tagname[0] != '_' then [Entry(tagname, DefaultWeight(tagname, weight), k)] else [])
    + seq(|aliases|, i requires 0 <= i < |aliases| => Entry(aliases[i], |aliases[i]|, k))
  }

  /** The first entry whose name equals the lower-cased head of `part` of the entry's weight. */
  function FirstMatch<K>(m: seq<Entry<K>>, part: string): (r: Option<nat>)
    ensures r.Some? ==> r.value < |m| && Lower(Take(part, m[r.value].weight)) == m[r.value].name
    ensures r.Some? ==> forall j :: 0 <= j < r.value ==> Lower(Take(part, m[j].weight)) != m[j].name
    ensures r.None? ==> forall j :: 0 <= j < |m| ==> Lower(Take(part, m[j].weight)) != m[j].name
  {
    if m == [] then None
    else if Lower(Take(part, m[0].weight)) == m[0].name then Some(0)
    else
      match FirstMatch(m[1..], part)
      case None => None
      case Some(i) =>
        assert forall j :: 1 <= j < |m| ==> m[j] == m[1..][j - 1];
        Some(i + 1)
  }

  /**
   * In a map sorted by weight whose weights are the names' lengths, the first hit is
   * the longest name the text starts with.
   */
  lemma FirstMatchIsLongest<K>(m: seq<Entry<K>>, part: string, j: nat)
    requires SortedDesc(m) && WeightsAreLengths(m)
    requires FirstMatch(m, part).Some?
    requires j < |m| && Lower(Take(part, m[j].weight)) == m[j].name
    ensures |m[j].name| <= |m[FirstMatch(m, part).value].name|
  {
  }

  /** Registering a new name that weighs no more than anything registered appends it. */
  lemma RegisterRegexLightest(m: seq<Entry<RegexKind>>, e: Entry<RegexKind>)
    requires SortedDesc(m + [e]) && NameAbsent(m, e.name)
    ensures RegisterRegex(m, e.name, e.weight, e.kind) == m + [e]
  {
    assert IndexOf(m, e.name).None?;
    assert Upsert(m, e) == m + [e];
    SortDescSorted(m + [e]);
  }

  /** Three regex registrations under distinct names end up ordered by weight, the heaviest first. */
  lemma RegexRegistrationOrder(u: Entry<RegexKind>, a: Entry<RegexKind>, e: Entry<RegexKind>)
    requires u.name != a.name && u.name != e.name && a.name != e.name
    requires u.weight >= e.weight > a.weight
    ensures var m1 := RegisterRegex([], u.name, u.weight, u.kind);
      var m2 := RegisterRegex(m1, a.name, a.weight, a.kind);
      RegisterRegex(m2, e.name, e.weight, e.kind) == [u, e, a]
  {
    RegisterRegexTwo(u, a);
    RegisterRegexBetween(u, a, e);
  }

  /** Two regex registrations, the lighter second, keep registration order. */
  lemma RegisterRegexTwo(u: Entry<RegexKind>, a: Entry<RegexKind>)
    requires u.name != a.name && u.weight > a.weight
    ensures RegisterRegex(RegisterRegex([], u.name, u.weight, u.kind), a.name, a.weight, a.kind) == [u, a]
  {
    RegisterRegexFirst(u);
    RegisterRegexSecond(u, a);
  }

  /** The first registration makes a one-entry map. */
  lemma RegisterRegexFirst(u: Entry<RegexKind>)
    ensures RegisterRegex([], u.name, u.weight, u.kind) == [u]
  {
    var none: seq<Entry<RegexKind>> := [];
    assert none + [u] == [u];
    RegisterRegexLightest(none, u);
  }

  /** A lighter second registration goes after the first. */
  lemma RegisterRegexSecond(u: Entry<RegexKind>, a: Entry<RegexKind>)
    requires u.name != a.name && u.weight > a.weight
    ensures RegisterRegex([u], a.name, a.weight, a.kind) == [u, a]
  {
    assert [u] + [a] == [u, a];
    RegisterRegexLightest([u], a);
  }

  /** A name weighing between the two registered ones is sorted in between them. */
  lemma RegisterRegexBetween(u: Entry<RegexKind>, a: Entry<RegexKind>, e: Entry<RegexKind>)
    requires u.name != e.name && a.name != e.name
    requires u.weight >= e.weight > a.weight
    ensures RegisterRegex([u, a], e.name, e.weight, e.kind) == [u, e, a]
  {
    assert IndexOf([u, a], e.name).None?;
    assert Upsert([u, a], e) == [u, a, e];
    SortBetween(u, a, e);
  }

  /** Sorting puts a last entry of middle weight between the other two. */
  lemma SortBetween<K>(u: Entry<K>, a: Entry<K>, e: Entry<K>)
    requires u.weight >= e.weight > a.weight
    ensures SortDesc([u, a, e]) == [u, e, a]
  {
    SortThree(u, a, e);
    SortTwo(u, a);
    InsertBetween(u, a, e);
  }

  /** Sorting three entries inserts the last into the sorted first two. */
  lemma SortThree<K>(u: Entry<K>, a: Entry<K>, e: Entry<K>)
    ensures SortDesc([u, a, e]) == InsertDesc(SortDesc([u, a]), e)
  {
    SortSnoc([u, a], e);
    assert [u, a] + [e] == [u, a, e];
  }

  /** Sorting a map with one more entry at its end inserts that entry into the sorted rest. */
  lemma SortSnoc<K>(init: seq<Entry<K>>, x: Entry<K>)
    ensures SortDesc(init + [x]) == InsertDesc(SortDesc(init), x)
  {
    var m := init + [x];
    assert m[..|m| - 1] == init && m[|m| - 1] == x;
  }

  /** Two entries already in weight order stay as they are. */
  lemma SortTwo<K>(u: Entry<K>, a: Entry<K>)
    requires u.weight >= a.weight
    ensures SortDesc([u, a]) == [u, a]
  {
    SortDescSorted([u, a]);
  }

  /** Inserting an entry of middle weight puts it between the other two. */
  lemma InsertBetween<K>(u: Entry<K>, a: Entry<K>, e: Entry<K>)
    requires u.weight >= e.weight > a.weight
    ensures InsertDesc([u, a], e) == [u, e, a]
  {
    InsertPast(u, [a], e);
    InsertBefore(a, e);
    assert [u] + [a] == [u, a];
  }

  /** An entry at least as heavy stays ahead of an inserted one. */
  lemma InsertPast<K>(u: Entry<K>, rest: seq<Entry<K>>, e: Entry<K>)
    requires u.weight >= e.weight
    ensures InsertDesc([u] + rest, e) == [u] + InsertDesc(rest, e)
  {
    assert ([u] + rest)[1..] == rest;
  }

  /** A heavier entry is inserted ahead of a lighter one. */
  lemma InsertBefore<K>(a: Entry<K>, e: Entry<K>)
    requires e.weight > a.weight
    ensures InsertDesc([a], e) == [e, a]
  {
  }

  /**
   * The three auto-link nodes, registered in module order (`__url__` at 100, `__at__` at 30,
   * `__email__` at 80), are tried URL first, then e-mail, then mention.
   */
  lemma AutoLinkPriority()
    ensures var m1 := RegisterRegex([], "__url__", 100, AutoUrl);
      var m2 := RegisterRegex(m1, "__at__", 30, Mention);
      RegisterRegex(m2, "__email__", 80, Email)
        == [Entry("__url__", 100, AutoUrl), Entry("__email__", 80, Email), Entry("__at__", 30, Mention)]
  {
    var u, a, e := Entry("__url__", 100, AutoUrl), Entry("__at__", 30, Mention), Entry("__email__", 80, Email);
    assert |u.name| == 7 && |a.name| == 6 && |e.name| == 9;
    RegexRegistrationOrder(u, a, e);
  }

  /** The global registries and hook table (`_NODES`, `_REGEX_NODES`, `_HOOKS`). */
  class TagRegistry {
    var nodes: seq<Entry<TagKind>>
    var regexNodes: seq<Entry<RegexKind>>
    var hooks: map<string, seq<string>>

    ghost predicate Valid()
      reads this
    {
      SortedDesc(nodes) && SortedDesc(regexNodes) && UniqueNames(nodes) && UniqueNames(regexNodes)
    }

    constructor ()
      ensures Valid() && nodes == [] && regexNodes == [] && hooks == map[]
    {
      nodes, regexNodes, hooks := [], [], map[];
    }

    /**
     * `register_node(tagname, *aliases, weight=...)(cls)`. A regex class goes to the
     * regex map under its name alone; a tag class is added under its name (unless
     * internal) and every alias; the map is then re-sorted.
     */
    method RegisterNode(tagname: string, aliases: seq<string>, weight: Option<nat>, cls: NodeClass)
      requires Valid() && tagname != []
      modifies this
      ensures Valid() && hooks == old(hooks)
      ensures cls.RegexClass? ==> nodes == old(nodes)
      ensures cls.RegexClass? ==> regexNodes == RegisterRegex(old(regexNodes), tagname, DefaultWeight(tagname, weight), cls.regex)
      ensures cls.TagClass? ==> regexNodes == old(regexNodes)
      ensures cls.TagClass? ==> nodes == RegisterTag(old(nodes), tagname, aliases, weight, cls.tag)
      ensures cls.TagClass? ==> AliasesIn(aliases, cls.tag, nodes)
      ensures cls.TagClass? && old(WeightsAreLengths(nodes)) && (weight.None? || weight.value == |tagname|) ==>
        WeightsAreLengths(nodes)
    {
      match cls
      case RegexClass(rk) =>
        regexNodes := RegisterRegex(regexNodes, tagname, DefaultWeight(tagname, weight), rk);
      case TagClass(k) =>
        RegisterTagUnique(nodes, tagname, aliases, weight, k);
        RegisterTagAliases(nodes, tagname, aliases, weight, k);
        if WeightsAreLengths(nodes) && (weight.None? || weight.value == |tagname|) {
          RegisterTagWeights(nodes, tagname, aliases, weight, k);
        }
        nodes := RegisterTag(nodes, tagname, aliases, weight, k);
    }

    /** `register_hook(name)(func)`: appends to that name's list. */
    method RegisterHook(hookname: string, func: string)
      requires Valid()
      modifies this
      ensures Valid() && nodes == old(nodes) && regexNodes == old(regexNodes)
      ensures hooks == old(hooks)[hookname := HooksFor(old(hooks), hookname) + [func]]
    {
      hooks := hooks[hookname := HooksFor(hooks, hookname) + [func]];
    }

    /** `trigger_hook(name, ...)`: the callbacks called, in registration order. */
    method TriggerHook(hookname: string) returns (called: seq<string>)
      ensures called == HooksFor(hooks, hookname)
      ensures forall f :: f in called ==> hookname in hooks && f in hooks[hookname]
    {
      called := if hookname in hooks then hooks[hookname] else [];
    }
  }

  function HooksFor(hooks: map<string, seq<string>>, hookname: string): seq<string>
  {
    if hookname in hooks then hooks[hookname] else []
  }

  /** Callbacks registered one after the other are triggered in that order. */
  lemma HooksInOrder(hooks: map<string, seq<string>>, name: string, f: string, g: string)
    requires name !in hooks
    ensures var h1 := hooks[name := HooksFor(hooks, name) + [f]];
      HooksFor(h1[name := HooksFor(h1, name) + [g]], name) == [f, g]
  {
  }

  /** Every alias ends up in the upserted map at its own length. */
  lemma AliasesRegistered(m: seq<Entry<TagKind>>, tagname: string, aliases: seq<string>, weight: Option<nat>, k: TagKind)
    requires tagname != []
    ensures forall a :: a in aliases ==> Entry(a, |a|, k) in UpsertAll(m, TagEntries(tagname, aliases, weight, k))
  {
    var es := TagEntries(tagname, aliases, weight, k);
    var off := |es| - |aliases|;
    forall a | a in aliases ensures Entry(a, |a|, k) in UpsertAll(m, es) {
      var i :| 0 <= i < |aliases| && aliases[i] == a;
      assert es[off + i] == Entry(a, |a|, k);
      assert forall j :: off < j < |es| ==> es[j] == Entry(aliases[j - off], |aliases[j - off]|, k);
      UpsertAllContains(m, es, off + i);
    }
  }

  lemma {:induction false} UpsertAllWeights<K>(m: seq<Entry<K>>, es: seq<Entry<K>>)
    requires WeightsAreLengths(m) && WeightsAreLengths(es)
    ensures WeightsAreLengths(UpsertAll(m, es))
    decreases |es|
  {
    if es != [] {
      var u := Upsert(m, es[0]);
      assert forall x :: x in u ==> x.weight == |x.name| by {
        assert forall x :: x in m ==> x.weight == |x.name|;
      }
      assert WeightsAreLengths(u) by {
        assert forall i :: 0 <= i < |u| ==> u[i] in u;
      }
      UpsertAllWeights(u, es[1..]);
    }
  }
}
