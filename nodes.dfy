/**
 * The node tree of the bracket-markup engine (contribs/bbcode/core.py): node values,
 * the class-level attributes of every tag class, the child-scope registries (`NODES`),
 * truthiness, canonical markup, plain text, sibling lookup and the selector query.
 */
module Nodes {
  import opened Wrappers
  import opened Strings
  import Json

  /** One variant per registered tag class; aliases share their class's kind. */
  datatype TagKind =
    | Ul | Ol | Url | Image | Bold | Italic | Color | Quote | Code
    | Table   // table, th, tr
    | Cell    // td, h1 .. h6 (HTMLNode)
    | Ref | Flash | Math | Indent | Float | Video

  /** The three regular-expression-driven inline nodes. */
  datatype RegexKind = AutoUrl | Mention | Email

  datatype Display = Inline | Block

  datatype PlayerStyle = IframePlayer | EmbedPlayer

  /** What a constructor computed once and a renderer reads: a checked URL, or a video player. */
  datatype Attr = NoAttr | Link(url: string) | Player(style: PlayerStyle, src: string)

  /**
   * A node. A regex node keeps the text its pattern matched and the named groups;
   * a tag node keeps the name it was written with (an alias keeps the alias).
   */
  datatype Node =
    | Plain(text: string)
    | Regex(rkind: RegexKind, matched: string, groups: map<string, Option<string>>)
    | Tag(kind: TagKind, name: string, value: Option<string>, children: seq<Node>, attr: Attr)
    | Top(children: seq<Node>)

  /** A registry entry: name, weight and the class it constructs. */
  datatype Entry<K> = Entry(name: string, weight: nat, kind: K)

  function RegexName(k: RegexKind): string
  {
    match k
    case AutoUrl => "__url__"
    case Mention => "__at__"
    case Email => "__email__"
  }

  /** The `name` class attribute of a node. */
  function NodeName(n: Node): string
  {
    match n
    case Plain(_) => "__plain__"
    case Regex(k, _, _) => RegexName(k)
    case Tag(_, name, _, _, _) => name
    case Top(_) => "__top__"
  }

  function Children(n: Node): (r: seq<Node>)
    ensures r == [] || n.Tag? || n.Top?
  {
    if n.Tag? || n.Top? then n.children else []
  }

  /** The `display` class attribute: lists, quotes, tables, cells, indent and float are blocks. */
  function DisplayOf(n: Node): Display
  {
    if n.Tag? && n.kind in {Ul, Ol, Quote, Table, Cell, Indent, Float} then Block else Inline
  }

  /** `tag_includes`: when present, only these names may appear inside. */
  function TagIncludes(k: TagKind): Option<seq<string>>
  {
    if k in {Image, Ref, Flash, Math, Video} then Some([]) else None
  }

  /** `tag_excludes`: names that may not appear inside. */
  function TagExcludes(k: TagKind): seq<string>
  {
    match k
    case Url => ["url", "__at__", "__email__", "__url__"]
    case Bold => ["bold", "b"]
    case Italic => ["italic", "i"]
    case Color => ["color"]
    case Quote => ["quote", "blockquote"]
    case Code => ["code"]
    case Float => ["float"]
    case _ => []
  }

  predicate Allowed(k: TagKind, name: string)
  {
    (TagIncludes(k).None? || name in TagIncludes(k).value) && name !in TagExcludes(k)
  }

  /**
   * `NODES(BASE_NODES)`: the registry the children of a `k` node are parsed with.
   * It keeps exactly the allowed entries of `base`, in their order.
   */
  function Scope<K(!new)>(k: TagKind, base: seq<Entry<K>>): (r: seq<Entry<K>>)
    ensures forall e :: e in r <==> e in base && Allowed(k, e.name)
    ensures |r| <= |base|
  {
    if base == [] then []
    else if Allowed(k, base[0].name) then [base[0]] + Scope(k, base[1..])
    else Scope(k, base[1..])
  }

  /** `s` is `t` with some entries left out, order kept. */
  predicate SubSequence<T(==)>(s: seq<T>, t: seq<T>)
    decreases |t|
  {
    s == [] || (t != [] && ((s[0] == t[0] && SubSequence(s[1..], t[1..])) || SubSequence(s, t[1..])))
  }

  lemma {:induction false} ScopeKeepsOrder<K(!new)>(k: TagKind, base: seq<Entry<K>>)
    ensures SubSequence(Scope(k, base), base)
  {
    if base != [] {
      ScopeKeepsOrder(k, base[1..]);
    }
  }

  /** Narrowing twice with the same class changes nothing. */
  lemma {:induction false} ScopeIdempotent<K(!new)>(k: TagKind, base: seq<Entry<K>>)
    ensures Scope(k, Scope(k, base)) == Scope(k, base)
  {
    if base != [] {
      ScopeIdempotent(k, base[1..]);
    }
  }

  /** A tag class never lets itself (under any of its names) be nested, except the ones without exclusions. */
  lemma NoSelfNesting(k: TagKind, name: string)
    requires k in {Bold, Italic, Color, Quote, Code, Float, Url}
    requires name in TagExcludes(k)
    ensures forall base: seq<Entry<TagKind>> :: forall e :: e in Scope(k, base) ==> e.name != name
  {
  }

  predicate ValueTruthy(v: Option<string>)
  {
    v.Some? && v.value != []
  }

  /** `__nonzero__`: a node is true when it has a value or children. */
  predicate Truthy(n: Node)
  {
    match n
    case Plain(t) => t != []
    case Regex(_, _, _) => true
    case Tag(_, _, v, cs, _) => ValueTruthy(v) || cs != []
    case Top(cs) => cs != []
  }

  /** `__unicode__`: the canonical markup of a node; tags always get an explicit closer. */
  function Markup(n: Node): string
  {
    match n
    case Plain(t) => t
    case Regex(_, m, _) => m
    case Top(cs) => ChildrenMarkup(cs)
    case Tag(_, name, v, cs, _) =>
      "[" + name + (if ValueTruthy(v) then "=" + Json.Encode(v.value) else "") + "]"
      + ChildrenMarkup(cs) + "[/" + name + "]"
  }

  function ChildrenMarkup(cs: seq<Node>): string
  {
    if cs == [] then [] else Markup(cs[0]) + ChildrenMarkup(cs[1..])
  }

  /** A lone text child is its own markup. */
  lemma PlainMarkup(t: string)
    ensures ChildrenMarkup([Plain(t)]) == t
  {
    assert ChildrenMarkup([Plain(t)]) == t + ChildrenMarkup([]);
  }

  /** `text()`: image, math and video contribute nothing; every other node its children's text. */
  function Text(n: Node): string
  {
    match n
    case Plain(t) => t
    case Regex(_, m, _) => m
    case Top(cs) => ChildrenText(cs)
    case Tag(k, _, _, cs, _) => if k in {Image, Math, Video} then [] else ChildrenText(cs)
  }

  function ChildrenText(cs: seq<Node>): string
  {
    if cs == [] then [] else Text(cs[0]) + ChildrenText(cs[1..])
  }

  /** A false node carries no text, and is written as nothing or as an empty pair of tags. */
  lemma FalseNodeIsEmpty(n: Node)
    requires !Truthy(n)
    ensures Text(n) == []
    ensures n.Tag? ==> Markup(n) == "[" + n.name + "][/" + n.name + "]"
    ensures !n.Tag? ==> Markup(n) == []
  {
  }

  /** The tag value in canonical markup is a JSON literal that reads back as the value. */
  lemma {:induction false} MarkupValueRoundTrip(k: TagKind, name: string, v: string, cs: seq<Node>, a: Attr)
    requires v != []
    ensures Markup(Tag(k, name, Some(v), cs, a))
      == "[" + name + "=\"" + Json.EncodeBody(v) + "\"]" + ChildrenMarkup(cs) + "[/" + name + "]"
    ensures Json.DecodeBody(Json.EncodeBody(v)) == Some(v)
  {
    Json.DecodeEncode(v);
  }

  /** No image, math or video node anywhere in the tree. */
  predicate AllTextual(n: Node)
  {
    match n
    case Plain(_) => true
    case Regex(_, _, _) => true
    case Top(cs) => forall i :: 0 <= i < |cs| ==> AllTextual(cs[i])
    case Tag(k, _, _, cs, _) => k !in {Image, Math, Video} && forall i :: 0 <= i < |cs| ==> AllTextual(cs[i])
  }

  /** The raw text of the leaves, in document order: what markup is left when every tag is dropped. */
  function Leaves(n: Node): string
  {
    match n
    case Plain(t) => t
    case Regex(_, m, _) => m
    case Top(cs) => Concat(seq(|cs|, i requires 0 <= i < |cs| => Leaves(cs[i])))
    case Tag(_, _, _, cs, _) => Concat(seq(|cs|, i requires 0 <= i < |cs| => Leaves(cs[i])))
  }

  /** For a tree of text-bearing nodes, the plain text is exactly the leaves' text. */
  lemma {:induction false} TextIsLeaves(n: Node)
    requires AllTextual(n)
    ensures Text(n) == Leaves(n)
  {
    match n
    case Plain(_) =>
    case Regex(_, _, _) =>
    case Top(cs) => ChildrenTextIsLeaves(cs);
    case Tag(_, _, _, cs, _) => ChildrenTextIsLeaves(cs);
  }

  lemma {:induction false} ChildrenTextIsLeaves(cs: seq<Node>)
    requires forall i :: 0 <= i < |cs| ==> AllTextual(cs[i])
    ensures ChildrenText(cs) == Concat(seq(|cs|, i requires 0 <= i < |cs| => Leaves(cs[i])))
  {
    if cs != [] {
      TextIsLeaves(cs[0]);
      ChildrenTextIsLeaves(cs[1..]);
      var all := seq(|cs|, i requires 0 <= i < |cs| => Leaves(cs[i]));
      var tail := seq(|cs[1..]|, i requires 0 <= i < |cs[1..]| => Leaves(cs[1..][i]));
      assert all[1..] == tail;
    }
  }

  /** `offset_sibling`: the sibling `offset` places away from position `i`, if there is one. */
  function OffsetSibling(siblings: seq<Node>, i: nat, offset: int): (r: Option<Node>)
    requires i < |siblings|
    ensures r.Some? <==> 0 <= i + offset < |siblings|
    ensures r.Some? ==> r.value == siblings[i + offset]
  {
    var idx := i + offset;
    if -1 < idx < |siblings| then Some(siblings[idx]) else None
  }

  /** The selector forms `cssselect` can produce, as far as the query distinguishes them. */
  datatype Selector =
    | Elem(element: string)
    | Combined(outer: Selector, combinator: char, inner: Selector)
    | OtherSelector

  /**
   * `_filter`: a node named by an element selector is returned without looking inside;
   * otherwise its children are searched in order. `a b` searches every `a` match
   * (the match itself included) for `b`. Any other selector is refused.
   */
  function Filter(n: Node, sel: Selector): (r: Result<seq<Node>, string>)
    decreases sel, n
    ensures sel.Elem? ==> r.Ok? && forall m :: m in r.value ==> NodeName(m) == sel.element
    ensures sel.Elem? && NodeName(n) == sel.element ==> r == Ok([n])
  {
    match sel
    case Elem(name) =>
      if NodeName(n) == name then Ok([n])
      else if n.Tag? || n.Top? then FilterAll(n.children, sel)
      else Ok([])
    case Combined(o, c, i) =>
      if c != ' ' then Err("Unsupported selector")
      else
        (match Filter(n, o)
         case Err(e) => Err(e)
         case Ok(ms) => FilterAll(ms, i))
    case OtherSelector => Err("Unsupported selector")
  }

  function FilterAll(ns: seq<Node>, sel: Selector): (r: Result<seq<Node>, string>)
    decreases sel, ns
    ensures sel.Elem? ==> r.Ok? && forall m :: m in r.value ==> NodeName(m) == sel.element
  {
    if ns == [] then Ok([])
    else
      match Filter(ns[0], sel)
      case Err(e) => Err(e)
      case Ok(first) =>
        match FilterAll(ns[1..], sel)
        case Err(e) => Err(e)
        case Ok(rest) => Ok(first + rest)
  }

  /** Some node of the tree carries the name. */
  predicate Occurs(n: Node, name: string)
  {
    NodeName(n) == name || ((n.Tag? || n.Top?) && exists i :: 0 <= i < |n.children| && Occurs(n.children[i], name))
  }

  /** An element query finds nothing exactly when no node of the tree has that name. */
  lemma {:induction false} FilterEmptyIff(n: Node, name: string)
    ensures Filter(n, Elem(name)) == Ok([]) <==> !Occurs(n, name)
  {
    if NodeName(n) != name && (n.Tag? || n.Top?) {
      FilterAllEmptyIff(n.children, name);
    }
  }

  lemma {:induction false} FilterAllEmptyIff(ns: seq<Node>, name: string)
    ensures FilterAll(ns, Elem(name)) == Ok([]) <==> forall i :: 0 <= i < |ns| ==> !Occurs(ns[i], name)
  {
    if ns != [] {
      FilterEmptyIff(ns[0], name);
      FilterAllEmptyIff(ns[1..], name);
      var first := Filter(ns[0], Elem(name)).value;
      var rest := FilterAll(ns[1..], Elem(name)).value;
      assert FilterAll(ns, Elem(name)) == Ok(first + rest);
      assert first + rest == [] <==> first == [] && rest == [];
      assert forall i :: 1 <= i < |ns| ==> ns[i] == ns[1..][i - 1];
    }
  }

  /** The results over a list are the results over its first part, then over the rest. */
  lemma {:induction false} FilterAllAppend(a: seq<Node>, b: seq<Node>, sel: Selector)
    ensures FilterAll(a + b, sel).Ok? <==> FilterAll(a, sel).Ok? && FilterAll(b, sel).Ok?
    ensures FilterAll(a + b, sel).Ok? ==>
      FilterAll(a + b, sel).value == FilterAll(a, sel).value + FilterAll(b, sel).value
  {
    if a == [] {
      assert a + b == b;
    } else {
      var ab := a + b;
      assert ab[0] == a[0] && ab[1..] == a[1..] + b;
      FilterAllAppend(a[1..], b, sel);
      var first, tail := Filter(a[0], sel), FilterAll(a[1..], sel);
      var joined := FilterAll(a[1..] + b, sel);
      if first.Err? {
        assert FilterAll(ab, sel).Err? && FilterAll(a, sel).Err?;
      } else if joined.Err? {
        assert FilterAll(ab, sel).Err?;
        assert tail.Err? ==> FilterAll(a, sel).Err?;
      } else {
        assert FilterAll(ab, sel) == Ok(first.value + joined.value);
        assert FilterAll(a, sel) == Ok(first.value + tail.value);
        assert (first.value + tail.value) + FilterAll(b, sel).value
            == first.value + (tail.value + FilterAll(b, sel).value);
      }
    }
  }

  /** A node is found over a list exactly when some member's own query finds it. */
  lemma {:induction false} FilterAllFinds(ns: seq<Node>, name: string, m: Node)
    ensures m in FilterAll(ns, Elem(name)).value <==> exists i :: 0 <= i < |ns| && m in Filter(ns[i], Elem(name)).value
  {
    if ns != [] {
      FilterAllFinds(ns[1..], name, m);
      var first := Filter(ns[0], Elem(name)).value;
      var rest := FilterAll(ns[1..], Elem(name)).value;
      assert FilterAll(ns, Elem(name)).value == first + rest;
      if m in rest {
        var i :| 0 <= i < |ns[1..]| && m in Filter(ns[1..][i], Elem(name)).value;
        assert ns[1..][i] == ns[i + 1];
      }
      if exists i :: 0 <= i < |ns| && m in Filter(ns[i], Elem(name)).value {
        var i :| 0 <= i < |ns| && m in Filter(ns[i], Elem(name)).value;
        if i > 0 {
          assert ns[i] == ns[1..][i - 1];
        }
      }
    }
  }

  /** The node reached from `n` by following child indices, if the path stays in the tree. */
  function At(n: Node, path: seq<nat>): (r: Option<Node>)
    decreases path
    ensures path == [] ==> r == Some(n)
  {
    if path == [] then Some(n)
    else if (n.Tag? || n.Top?) && path[0] < |n.children| then At(n.children[path[0]], path[1..])
    else None
  }

  /** The path reaches a node carrying the name. */
  predicate NamedAt(n: Node, path: seq<nat>, name: string)
  {
    At(n, path).Some? && NodeName(At(n, path).value) == name
  }

  /** The path reaches a node carrying the name, and no node above it on the path does. */
  predicate Outermost(n: Node, name: string, path: seq<nat>)
  {
    NamedAt(n, path, name) && forall k :: 0 <= k < |path| ==> !NamedAt(n, path[..k], name)
  }

  /** A path into a child is that child's index, then a path inside the child. */
  lemma AtChild(n: Node, i: nat, p: seq<nat>)
    requires (n.Tag? || n.Top?) && i < |n.children|
    ensures At(n, [i] + p) == At(n.children[i], p)
    ensures forall k :: 0 < k <= |p| + 1 ==> ([i] + p)[..k] == [i] + p[..k - 1]
  {
    assert ([i] + p)[0] == i && ([i] + p)[1..] == p;
    forall k | 0 < k <= |p| + 1
      ensures ([i] + p)[..k] == [i] + p[..k - 1]
    {
    }
  }

  /** An outermost occurrence inside a child, seen from a parent of another name. */
  lemma OutermostUp(n: Node, name: string, i: nat, p: seq<nat>)
    requires (n.Tag? || n.Top?) && i < |n.children| && NodeName(n) != name
    ensures Outermost(n.children[i], name, p) <==> Outermost(n, name, [i] + p)
  {
    AtChild(n, i, p);
    var c := n.children[i];
    forall k | 0 < k <= |p| + 1
      ensures At(n, ([i] + p)[..k]) == At(c, p[..k - 1])
    {
      AtChild(n, i, p[..k - 1]);
    }
    if Outermost(c, name, p) {
      forall k | 0 <= k < |[i] + p|
        ensures !NamedAt(n, ([i] + p)[..k], name)
      {
        if k == 0 {
          assert ([i] + p)[..0] == [];
        } else {
          assert !NamedAt(c, p[..k - 1], name);
        }
      }
    }
    if Outermost(n, name, [i] + p) {
      forall k | 0 <= k < |p|
        ensures !NamedAt(c, p[..k], name)
      {
        assert !NamedAt(n, ([i] + p)[..k + 1], name);
      }
    }
  }

  /** Every node an element query finds is an outermost node of that name. */
  lemma {:induction false} FilterSound(n: Node, name: string, m: Node)
    requires m in Filter(n, Elem(name)).value
    decreases n
    ensures exists path :: Outermost(n, name, path) && At(n, path) == Some(m)
  {
    if NodeName(n) == name {
      assert Outermost(n, name, []) && At(n, []) == Some(m);
    } else {
      var cs := n.children;
      FilterAllFinds(cs, name, m);
      var i :| 0 <= i < |cs| && m in Filter(cs[i], Elem(name)).value;
      FilterSound(cs[i], name, m);
      var p :| Outermost(cs[i], name, p) && At(cs[i], p) == Some(m);
      OutermostUp(n, name, i, p);
      AtChild(n, i, p);
      assert Outermost(n, name, [i] + p) && At(n, [i] + p) == Some(m);
    }
  }

  /** Every outermost node of a name is found by the element query. */
  lemma {:induction false} FilterComplete(n: Node, name: string, path: seq<nat>)
    requires Outermost(n, name, path)
    decreases n
    ensures At(n, path).value in Filter(n, Elem(name)).value
  {
    if path == [] {
    } else {
      assert path[..0] == [] && !NamedAt(n, path[..0], name);
      assert NodeName(n) != name;
      assert n.Tag? || n.Top?;
      var cs := n.children;
      var i, p := path[0], path[1..];
      assert path == [i] + p;
      OutermostUp(n, name, i, p);
      AtChild(n, i, p);
      FilterComplete(cs[i], name, p);
      FilterAllFinds(cs, name, At(n, path).value);
    }
  }

  /**
   * An element query finds exactly the outermost nodes of that name: those reached by a
   * path on which no node above carries the name.
   */
  lemma FilterFindsOutermost(n: Node, name: string, m: Node)
    ensures m in Filter(n, Elem(name)).value <==> exists path :: Outermost(n, name, path) && At(n, path) == Some(m)
  {
    if m in Filter(n, Elem(name)).value {
      FilterSound(n, name, m);
    }
    if exists path :: Outermost(n, name, path) && At(n, path) == Some(m) {
      var path :| Outermost(n, name, path) && At(n, path) == Some(m);
      FilterComplete(n, name, path);
    }
  }

  /** `a b` searches each `a` match itself, not only what lies inside it. */
  lemma CombinedSearchesMatch(n: Node, a: string, sel: Selector)
    requires NodeName(n) == a
    ensures Filter(n, Combined(Elem(a), ' ', sel)) == Filter(n, sel)
    ensures Filter(n, Combined(Elem(a), ' ', Elem(a))) == Ok([n])
  {
    SingleFilterAll(n, sel);
    SingleFilterAll(n, Elem(a));
  }

  lemma SingleFilterAll(n: Node, sel: Selector)
    ensures FilterAll([n], sel) == Filter(n, sel)
  {
    assert [n][0] == n && [n][1..] == [];
    assert FilterAll([n][1..], sel) == Ok([]);
    if Filter(n, sel).Ok? {
      assert Filter(n, sel).value + [] == Filter(n, sel).value;
    }
  }

  /** `a b` finds nothing in a tree without any `a`. */
  lemma NoOuterNoMatch(n: Node, a: string, b: Selector)
    requires !Occurs(n, a)
    ensures Filter(n, Combined(Elem(a), ' ', b)) == Ok([])
  {
    FilterEmptyIff(n, a);
  }
}
