/**
 * The tag classes of contribs/bbcode/tags.py (and VideoNode of video.py): what each
 * constructor accepts and computes once, and how each node renders to HTML.
 */
module Tags {
  import opened Wrappers
  import opened Strings
  import opened Nodes
  import opened Services
  import Video
  import Markup

  /** What a rejected URL is replaced with. */
  const XssRemoved: string := "<!-- XSS removed -->"

  /** `url.lower()[:len(scheme)] == scheme`. */
  predicate HasScheme(url: string, scheme: string)
  {
    Lower(Take(url, |scheme|)) == scheme
  }

  /** The `javascript:` check of URLNode and FlashNode. */
  function NoScript(url: string): (r: string)
    ensures HasScheme(url, "javascript:") ==> r == XssRemoved
    ensures !HasScheme(url, "javascript:") ==> r == url
  {
    if HasScheme(url, "javascript:") then XssRemoved else url
  }

  /** ImageNode also rejects `vbscript:`. */
  function NoImageScript(url: string): (r: string)
    ensures HasScheme(url, "javascript:") || HasScheme(url, "vbscript:") ==> r == XssRemoved
    ensures !HasScheme(url, "javascript:") && !HasScheme(url, "vbscript:") ==> r == url
  {
    if HasScheme(url, "javascript:") || HasScheme(url, "vbscript:") then XssRemoved else url
  }

  // ---- RefNode.url_whitelist, written out ----

  /** Number of leading ASCII digits (`\d` without the UNICODE flag). */
  function LeadingDigits(s: string): (n: nat)
    ensures n <= |s| && forall i :: 0 <= i < n ==> IsAsciiDigit(s[i])
    ensures n < |s| ==> !IsAsciiDigit(s[n])
  {
    if s != [] && IsAsciiDigit(s[0]) then 1 + LeadingDigits(s[1..]) else 0
  }

  /** `/?(?:\?|$)`: an optional slash, then a `?` or the end (or a final line break). */
  predicate RefTail(t: string)
  {
    var u := if t != [] && t[0] == '/' then t[1..] else t;
    u == [] || u[0] == '?' || u == "\n"
  }

  /** `\d+` followed by the tail. */
  predicate DigitsThenTail(s: string)
  {
    var n := LeadingDigits(s);
    n >= 1 && RefTail(s[n..])
  }

  /** `/<kw>/\d+` and the tail. */
  predicate KeywordPath(p: string, kw: string)
  {
    StartsWith(p, "/" + kw + "/") && DigitsThenTail(p[|kw| + 2..])
  }

  /** `/(?:article|blog|question|answer|post)/\d+` or `/question/\d+/answer/\d+`, then the tail. */
  predicate RefPath(p: string)
  {
    KeywordPath(p, "article") || KeywordPath(p, "blog") || KeywordPath(p, "question")
    || KeywordPath(p, "answer") || KeywordPath(p, "post")
    || (StartsWith(p, "/question/") && QuestionAnswer(p[10..]))
  }

  predicate QuestionAnswer(s: string)
  {
    var n := LeadingDigits(s);
    n >= 1 && StartsWith(s[n..], "/answer/") && DigitsThenTail(s[n + 8..])
  }

  /** An optional host, then an article-like path. */
  predicate HostPath(url: string, host: string)
  {
    StartsWith(url, host) && RefPath(url[|host|..])
  }

  /** `url_whitelist.search(url)`: an optional guokr host, then an article-like path. */
  predicate RefWhitelisted(url: string)
  {
    HostPath(url, "http://www.guokr.com") || HostPath(url, "http://.guokr.com")
    || HostPath(url, "http://guo.kr") || HostPath(url, "")
  }

  // ---- constructors ----

  /** A built node keeps the parsed children; a URL given only a value gets the value as its one child. */
  predicate KeepsChildren(n: Node, value: Option<string>, children: seq<Node>)
    requires n.Tag?
  {
    n.children == children || (children == [] && ValueTruthy(value) && n.children == [Plain(value.value)])
  }

  /** What a ref's target looks like. */
  function RefTarget(url: string): (r: string)
    ensures |r| >= 1 && r[|r| - 1] == '/'
    ensures |r| >= 2 ==> r[|r| - 2] != '/'
  {
    RStripChar(url, '/') + "/"
  }

  /**
   * `cls(value, children)` for every class but VideoNode: `Rejected` is `NodeError`.
   * URLNode needs a value or children and makes a child of a lone value; image, ref and
   * flash take no value and need children; ref also needs a whitelisted target.
   */
  function Build(kind: TagKind, name: string, value: Option<string>, children: seq<Node>): (r: Outcome<Node>)
    requires kind != Video
    ensures !r.Fatal?
    ensures r.Done? ==> r.value.Tag? && r.value.kind == kind && r.value.name == name && r.value.value == value
    ensures r.Done? && kind != Url ==> r.value.children == children
    ensures r.Done? ==> KeepsChildren(r.value, value, children)
    ensures kind == Url ==> (r.Rejected? <==> !ValueTruthy(value) && children == [])
    ensures kind == Image || kind == Flash ==> (r.Rejected? <==> ValueTruthy(value) || children == [])
    ensures kind == Ref ==>
      (r.Rejected? <==> ValueTruthy(value) || children == [] || !RefWhitelisted(Strip(ChildrenMarkup(children))))
    ensures kind !in {Url, Image, Ref, Flash} ==> r.Done? && r.value.attr == NoAttr
    ensures r.Done? && kind == Url ==>
      r.value.attr == Link(NoScript(if ValueTruthy(value) then value.value else ChildrenMarkup(children)))
    ensures r.Done? && kind == Image ==> r.value.attr == Link(NoImageScript(ChildrenMarkup(children)))
    ensures r.Done? && kind == Ref ==> r.value.attr == Link(RefTarget(Strip(ChildrenMarkup(children))))
    ensures r.Done? && kind == Flash ==> r.value.attr == Link(NoScript(Strip(ChildrenMarkup(children))))
  {
    match kind
    case Url =>
      if !ValueTruthy(value) && children == [] then Rejected
      else
        var cs := if children == [] then [Plain(value.value)] else children;
        var url := if ValueTruthy(value) then value.value else ChildrenMarkup(cs);
        Done(Tag(Url, name, value, cs, Link(NoScript(url))))
    case Image =>
      if ValueTruthy(value) || children == [] then Rejected
      else Done(Tag(Image, name, value, children, Link(NoImageScript(ChildrenMarkup(children)))))
    case Ref =>
      if ValueTruthy(value) || children == [] then Rejected
      else
        var url := Strip(ChildrenMarkup(children));
        if RefWhitelisted(url) then Done(Tag(Ref, name, value, children, Link(RefTarget(url)))) else Rejected
    case Flash =>
      if ValueTruthy(value) || children == [] then Rejected
      else Done(Tag(Flash, name, value, children, Link(NoScript(Strip(ChildrenMarkup(children))))))
    case _ => Done(Tag(kind, name, value, children, NoAttr))
  }

  /**
   * What VideoNode's constructor promises: the stripped child text goes to the adapters in
   * order, and the first one that does not reject it decides, with its player or its
   * exception; the URL is rejected exactly when every adapter rejects it.
   */
  predicate VideoBuilt(svc: Services, adapters: seq<Video.Adapter>, name: string, value: Option<string>,
                       children: seq<Node>, r: Outcome<Node>)
  {
    var url := Strip(ChildrenMarkup(children));
    && (r.Done? ==> r.value.Tag? && r.value == Tag(Video, name, value, children, r.value.attr))
    && (!r.Rejected? ==>
          exists i :: 0 <= i < |adapters|
            && (forall j :: 0 <= j < i ==> Video.AdapterOutcome(svc, adapters[j], url).Rejected?)
            && (r.Done? ==> Video.AdapterOutcome(svc, adapters[i], url) == Done(r.value.attr))
            && (r.Fatal? ==> Video.AdapterOutcome(svc, adapters[i], url) == Fatal(r.reason)))
    && (r.Rejected? <==> forall j :: 0 <= j < |adapters| ==> Video.AdapterOutcome(svc, adapters[j], url).Rejected?)
  }

  /** The video node built from what the adapters resolved. */
  function VideoNode(name: string, value: Option<string>, children: seq<Node>, player: Outcome<Attr>): Outcome<Node>
  {
    match player
    case Done(p) => Done(Tag(Video, name, value, children, p))
    case Rejected => Rejected
    case Fatal(e) => Fatal(e)
  }

  /** A player resolved as `Video.Resolve` promises makes a video node as VideoNode's constructor promises. */
  lemma ResolvedIsBuilt(svc: Services, adapters: seq<Video.Adapter>, name: string, value: Option<string>,
                        children: seq<Node>, player: Outcome<Attr>)
    requires var url := Strip(ChildrenMarkup(children));
      && (!player.Rejected? ==>
            exists i :: 0 <= i < |adapters| && Video.AdapterOutcome(svc, adapters[i], url) == player
              && forall j :: 0 <= j < i ==> Video.AdapterOutcome(svc, adapters[j], url).Rejected?)
      && (player.Rejected? <==> forall j :: 0 <= j < |adapters| ==> Video.AdapterOutcome(svc, adapters[j], url).Rejected?)
    ensures VideoBuilt(svc, adapters, name, value, children, VideoNode(name, value, children, player))
  {
  }

  /** `cls(value, children)` for every class; VideoNode resolves the stripped child text to a player. */
  method Construct(svc: Services, kind: TagKind, name: string, value: Option<string>, children: seq<Node>)
    returns (r: Outcome<Node>)
    ensures kind != Video ==> r == Build(kind, name, value, children)
    ensures r.Done? ==> r.value.Tag? && r.value.kind == kind && r.value.name == name
    ensures r.Done? ==> KeepsChildren(r.value, value, children)
    ensures kind == Video ==> VideoBuilt(svc, Video.Adapters(), name, value, children, r)
  {
    if kind != Video {
      return Build(kind, name, value, children);
    }
    r := ConstructVideo(svc, name, value, children);
  }

  /** VideoNode's constructor: the stripped child text resolved by the adapters in order. */
  method ConstructVideo(svc: Services, name: string, value: Option<string>, children: seq<Node>)
    returns (r: Outcome<Node>)
    ensures r.Done? ==> r.value.Tag? && r.value.children == children
    ensures VideoBuilt(svc, Video.Adapters(), name, value, children, r)
  {
    var adapters := Video.Adapters();
    var player := Video.Resolve(svc, adapters, Strip(ChildrenMarkup(children)));
    ResolvedIsBuilt(svc, adapters, name, value, children, player);
    r := VideoNode(name, value, children, player);
  }

  // ---- rendering ----

  /** The keyword arguments the renderers read from `html(**kwargs)`: `br` and `resp_width`. */
  datatype Options = Options(br: bool, width: int)

  /**
   * The options a renderer sees when the caller passes the given keywords: a missing `br`
   * is true (PlainNode.html's default) and a missing `resp_width` is 480.
   */
  function KwOptions(br: Option<bool>, respWidth: Option<int>): (o: Options)
    ensures o.br <==> br.None? || br.value
    ensures respWidth.None? ==> o.width == Video.DefaultWidth
    ensures respWidth.Some? ==> o.width == respWidth.value
  {
    Options(if br.Some? then br.value else true, if respWidth.Some? then respWidth.value else Video.DefaultWidth)
  }

  /** What `__html__` renders with: no keywords at all. */
  const DefaultOptions: Options := KwOptions(None, None)

  /** Without keywords, plain text gets `<br />` and media are 480 wide. */
  lemma DefaultOptionsAre()
    ensures DefaultOptions == Options(true, 480)
  {
  }

  function NoBreaks(o: Options): Options
  {
    o.(br := false)
  }

  /** The `display` of the previous sibling, if there is one. */
  function PrevDisplay(cs: seq<Node>, i: nat): (r: Option<Display>)
    requires i < |cs|
    ensures r.Some? <==> i > 0
  {
    match OffsetSibling(cs, i, -1)
    case None => None
    case Some(n) => Some(DisplayOf(n))
  }

  /**
   * PlainNode.html: escaped text; with `br`, a final line break becomes `<br />` followed
   * by the line break unless the previous sibling is a block.
   */
  function PlainHtml(t: string, prev: Option<Display>, br: bool): (r: string)
    ensures !br || t == [] || t[|t| - 1] != '\n' || prev == Some(Block) ==> r == Markup.Escape(t, false)
    ensures br && t != [] && t[|t| - 1] == '\n' && prev != Some(Block) ==>
      var e := Markup.Escape(t, false);
      e != [] && r == e[..|e| - 1] + "<br />\n"
  {
    var e := Markup.Escape(t, false);
    if br && e != [] && e[|e| - 1] == '\n' && prev != Some(Block) then
      e[..|e| - 1] + "<br />\n"
    else e
  }

  /** The `url` a constructor computed, or nothing for a node that was not built by one. */
  function LinkOf(a: Attr): string
  {
    if a.Link? then a.url else []
  }

  /** `html(**kwargs)` of a node. */
  function Html(svc: Services, n: Node, o: Options): string
    decreases n, 0
  {
    match n
    case Plain(t) => PlainHtml(t, None, o.br)
    case Regex(k, m, groups) => RegexHtml(svc, k, m, groups)
    case Top(cs) => ChildrenHtml(svc, cs, 0, o)
    case Tag(kind, name, value, cs, attr) =>
      match kind
      case Ul => Markup.Element("ul", [], ListItems(svc, cs, |cs|, o))
      case Ol => Markup.Element("ol", [], ListItems(svc, cs, |cs|, o))
      case Url => Anchor(Markup.UrlAttribute(LinkOf(attr)), ChildrenHtml(svc, cs, 0, o))
      case Image => svc.imageHtml(LinkOf(attr), o.width)
      case Bold => if cs == [] then [] else "<strong>" + ChildrenHtml(svc, cs, 0, o) + "</strong>"
      case Italic => if cs == [] then [] else "<i>" + ChildrenHtml(svc, cs, 0, o) + "</i>"
      case Color =>
        if cs == [] then []
        else "<span style=\"" + ColorStyle(value) + "\">" + ChildrenHtml(svc, cs, 0, o) + "</span>"
      case Quote => "<blockquote>" + ChildrenHtml(svc, cs, 0, o) + "</blockquote>"
      case Code => "<pre>" + ChildrenHtml(svc, cs, 0, NoBreaks(o)) + "</pre>"
      case Table => Markup.Element(name, [], TableCells(svc, cs, |cs|, o))
      case Cell => Markup.Element(name, [], [ChildrenHtml(svc, cs, 0, o)])
      case Ref => RefHtml(LinkOf(attr))
      case Flash => FlashHtml(LinkOf(attr), o.width)
      case Math => svc.mathHtml(cs, o.width)
      case Indent =>
        if cs == [] then []
        else Markup.Element("div", [("class", "bbcode-indent")], [ChildrenHtml(svc, cs, 0, NoBreaks(o))])
      case Float =>
        if cs == [] then []
        else Markup.Element("div", [("class", FloatClass(value))], [ChildrenHtml(svc, cs, 0, NoBreaks(o))])
      case Video =>
        if attr.Player? then Video.PlayerHtml(attr.style, attr.src, o.width) else []
  }

  /** `children_html(**kwargs)` from the `i`-th child on; a plain child sees its previous sibling. */
  function ChildrenHtml(svc: Services, cs: seq<Node>, i: nat, o: Options): string
    requires i <= |cs|
    decreases cs, |cs| - i
  {
    if i == |cs| then []
    else
      ChildHtml(svc, cs, i, o) + ChildrenHtml(svc, cs, i + 1, o)
  }

  /** The `i`-th child's `html(**kwargs)`: a plain child sees its previous sibling. */
  function ChildHtml(svc: Services, cs: seq<Node>, i: nat, o: Options): string
    requires i < |cs|
    decreases cs, 0
  {
    if cs[i].Plain? then PlainHtml(cs[i].text, PrevDisplay(cs, i), o.br) else Html(svc, cs[i], o)
  }

  /** `children_html` is `''.join` over the children's own markup, in order. */
  lemma {:induction false} ChildrenHtmlJoins(svc: Services, cs: seq<Node>, i: nat, o: Options)
    requires i <= |cs|
    decreases |cs| - i
    ensures ChildrenHtml(svc, cs, i, o) == Concat(seq(|cs| - i, k requires 0 <= k < |cs| - i => ChildHtml(svc, cs, i + k, o)))
  {
    var parts := seq(|cs| - i, k requires 0 <= k < |cs| - i => ChildHtml(svc, cs, i + k, o));
    if i < |cs| {
      ChildrenHtmlJoins(svc, cs, i + 1, o);
      var rest := seq(|cs| - (i + 1), k requires 0 <= k < |cs| - (i + 1) => ChildHtml(svc, cs, i + 1 + k, o));
      assert parts[1..] == rest;
      assert parts[0] == ChildHtml(svc, cs, i, o);
    }
  }

  /** Bold, italic, colour, indent and float render nothing when they have no children. */
  lemma EmptyRendersNothing(svc: Services, k: TagKind, name: string, v: Option<string>, a: Attr, o: Options)
    requires k in {Bold, Italic, Color, Indent, Float}
    ensures Html(svc, Tag(k, name, v, [], a), o) == []
  {
  }

  /** Code, indent and float render their children without `<br />`, whatever the caller asked. */
  lemma BreaksIgnored(svc: Services, n: Node, o: Options)
    requires n.Tag? && n.kind in {Code, Indent, Float}
    ensures Html(svc, n, o) == Html(svc, n, NoBreaks(o))
  {
    assert NoBreaks(NoBreaks(o)) == NoBreaks(o);
  }

  /** The `<li>` items a list is building, and the markup since the last one. */
  datatype ListState = ListState(items: seq<string>, inner: string)

  /** `append_li`: the stripped markup becomes an item unless it is blank; the buffer empties. */
  function AppendLi(s: ListState): (r: ListState)
    ensures r.inner == []
    ensures Strip(s.inner) == [] ==> r.items == s.items
    ensures Strip(s.inner) != [] ==> r.items == s.items + [Markup.Element("li", [], [Strip(s.inner)])]
  {
    var h := Strip(s.inner);
    ListState(if h != [] then s.items + [Markup.Element("li", [], [h])] else s.items, [])
  }

  /**
   * The list state after the first `n` children: false children are skipped, plain text
   * is added without `<br />` and ends an item when it holds a line break, anything else
   * is added as it renders and ends an item when it is a block.
   */
  function ListFold(svc: Services, cs: seq<Node>, n: nat, o: Options): ListState
    requires n <= |cs|
    decreases cs, n
  {
    if n == 0 then ListState([], [])
    else
      var s := ListFold(svc, cs, n - 1, o);
      var c := cs[n - 1];
      if !Truthy(c) then s
      else if c.Plain? then ListAdd(s, PlainHtml(c.text, PrevDisplay(cs, n - 1), false), '\n' in c.text)
      else ListAdd(s, Html(svc, c, o), DisplayOf(c) == Block)
  }

  /** A child that ends an item: plain text holding a line break, or a block. */
  predicate EndsItem(c: Node)
  {
    if c.Plain? then '\n' in c.text else DisplayOf(c) == Block
  }

  /**
   * Only a true child that ends an item can close one: it empties the gathered markup and
   * adds at most one item; any other child leaves the items as they are.
   */
  lemma ListFoldStep(svc: Services, cs: seq<Node>, n: nat, o: Options)
    requires n < |cs|
    ensures var s, s' := ListFold(svc, cs, n, o), ListFold(svc, cs, n + 1, o);
      && (!Truthy(cs[n]) ==> s' == s)
      && (Truthy(cs[n]) && EndsItem(cs[n]) ==>
            s'.inner == [] && |s.items| <= |s'.items| <= |s.items| + 1 && s'.items[..|s.items|] == s.items)
      && (Truthy(cs[n]) && !EndsItem(cs[n]) ==> s'.items == s.items && |s'.inner| >= |s.inner|)
  {
  }

  /** One true child: its markup joins the gathered markup, which becomes an item when the child ends one. */
  function ListAdd(s: ListState, more: string, ends: bool): ListState
  {
    var s' := s.(inner := s.inner + more);
    if ends then AppendLi(s') else s'
  }

  /** The items of `_ListNode.html` over the first `n` children, the leftover markup included. */
  function ListItems(svc: Services, cs: seq<Node>, n: nat, o: Options): seq<string>
    requires n <= |cs|
    decreases cs, n + 1
  {
    AppendLi(ListFold(svc, cs, n, o)).items
  }

  /** The markup of the `i`-th child of a table: plain children without `<br />`. */
  function TableCell(svc: Services, cs: seq<Node>, i: nat, o: Options): string
    requires i < |cs|
    decreases cs, 0
  {
    if cs[i].Plain? then PlainHtml(cs[i].text, PrevDisplay(cs, i), false) else Html(svc, cs[i], o)
  }

  /** TableNode.html's cells for the first `n` children. */
  function TableCells(svc: Services, cs: seq<Node>, n: nat, o: Options): (r: seq<string>)
    requires n <= |cs|
    ensures |r| == n
    decreases cs, n + 1
  {
    if n == 0 then [] else TableCells(svc, cs, n - 1, o) + [TableCell(svc, cs, n - 1, o)]
  }

  /** TableNode.html: one cell per child, in order, inside the node's own tag. */
  method TableHtml(svc: Services, name: string, cs: seq<Node>, o: Options) returns (html: string)
    ensures html == Markup.Element(name, [], TableCells(svc, cs, |cs|, o))
  {
    var inner: seq<string> := [];
    for i := 0 to |cs|
      invariant inner == TableCells(svc, cs, i, o)
    {
      var cell;
      if cs[i].Plain? {
        cell := PlainHtml(cs[i].text, PrevDisplay(cs, i), false);
      } else {
        cell := Html(svc, cs[i], o);
      }
      inner := inner + [cell];
    }
    html := Markup.Element(name, [], inner);
  }

  /** `_ListNode.html`: the fold over the children, the leftover markup as a last item. */
  method ListHtml(svc: Services, tag: string, cs: seq<Node>, o: Options) returns (html: string)
    ensures html == Markup.Element(tag, [], ListItems(svc, cs, |cs|, o))
  {
    var items: seq<string> := [];
    var inner: string := [];
    for i := 0 to |cs|
      invariant ListState(items, inner) == ListFold(svc, cs, i, o)
    {
      var node := cs[i];
      if !Truthy(node) {
        continue;
      }
      if node.Plain? {
        inner := inner + PlainHtml(node.text, PrevDisplay(cs, i), false);
        if '\n' in node.text {
          var s := AppendLi(ListState(items, inner));
          items, inner := s.items, s.inner;
        }
      } else {
        inner := inner + Html(svc, node, o);
        if DisplayOf(node) == Block {
          var s := AppendLi(ListState(items, inner));
          items, inner := s.items, s.inner;
        }
      }
    }
    var last := AppendLi(ListState(items, inner));
    html := Markup.Element(tag, [], last.items);
  }

  /** How many of the first `n` children are true. */
  function TruthyCount(cs: seq<Node>, n: nat): (k: nat)
    requires n <= |cs|
    ensures k <= n
  {
    if n == 0 then 0 else TruthyCount(cs, n - 1) + (if Truthy(cs[n - 1]) then 1 else 0)
  }

  /** Every item the fold has closed, and the markup it is still gathering, holds a true child. */
  lemma {:induction false} ListFoldBound(svc: Services, cs: seq<Node>, n: nat, o: Options)
    requires n <= |cs|
    ensures var s := ListFold(svc, cs, n, o);
      |s.items| + (if s.inner == [] then 0 else 1) <= TruthyCount(cs, n)
  {
    if n > 0 {
      ListFoldBound(svc, cs, n - 1, o);
    }
  }

  /** A list has at most one item per true child: false children never make an item. */
  lemma ListItemsBound(svc: Services, cs: seq<Node>, o: Options)
    ensures |ListItems(svc, cs, |cs|, o)| <= TruthyCount(cs, |cs|)
  {
    ListFoldBound(svc, cs, |cs|, o);
  }

  /** An `<li>` around markup that is neither empty nor padded with white space. */
  ghost predicate IsItem(x: string)
  {
    exists h :: h != [] && Strip(h) == h && x == Markup.Element("li", [], [h])
  }

  ghost predicate AllItems(items: seq<string>)
  {
    forall k :: 0 <= k < |items| ==> IsItem(items[k])
  }

  /** `append_li` only ever adds an item. */
  lemma AppendLiItems(s: ListState)
    requires AllItems(s.items)
    ensures AllItems(AppendLi(s).items)
  {
    var h := Strip(s.inner);
    if h != [] {
      var items := AppendLi(s).items;
      assert items == s.items + [Markup.Element("li", [], [h])];
      assert Strip(h) == h;
      assert IsItem(items[|items| - 1]);
      forall k | 0 <= k < |items|
        ensures IsItem(items[k])
      {
        if k < |s.items| {
          assert items[k] == s.items[k];
        }
      }
    }
  }

  /** Adding a child's markup keeps every closed item an item. */
  lemma ListAddItems(s: ListState, more: string, ends: bool)
    requires AllItems(s.items)
    ensures AllItems(ListAdd(s, more, ends).items)
  {
    if ends {
      AppendLiItems(s.(inner := s.inner + more));
    }
  }

  /** Each item the fold closes is a `<li>` around trimmed, non-empty markup. */
  lemma {:induction false} ListFoldItems(svc: Services, cs: seq<Node>, n: nat, o: Options)
    requires n <= |cs|
    ensures AllItems(ListFold(svc, cs, n, o).items)
  {
    if n > 0 {
      ListFoldItems(svc, cs, n - 1, o);
      var s := ListFold(svc, cs, n - 1, o);
      var c := cs[n - 1];
      if Truthy(c) {
        if c.Plain? {
          ListAddItems(s, PlainHtml(c.text, PrevDisplay(cs, n - 1), false), '\n' in c.text);
        } else {
          ListAddItems(s, Html(svc, c, o), DisplayOf(c) == Block);
        }
      }
    }
  }

  /** The items of a list, the leftover included, are `<li>` elements around trimmed markup. */
  lemma ListItemsAreItems(svc: Services, cs: seq<Node>, o: Options)
    ensures AllItems(ListItems(svc, cs, |cs|, o))
  {
    ListFoldItems(svc, cs, |cs|, o);
    AppendLiItems(ListFold(svc, cs, |cs|, o));
  }

  /** `'<a href="%s">%s</a>' % (href, inside)`. */
  function Anchor(href: string, inside: string): string
  {
    "<" + ("a href=\"" + href + "\">" + inside) + "<" + "/a>"
  }

  /** A link opens its own two tags and whatever its target and its content open. */
  lemma AnchorOpens(href: string, inside: string)
    ensures Markup.Opens(Anchor(href, inside)) == 2 + Markup.Opens(href) + Markup.Opens(inside)
  {
    var a, q, c := "a href=\"", "\">", "/a>";
    assert '<' !in a && '<' !in q && '<' !in c;
    assert Markup.Opens(a) == 0 && Markup.Opens(q) == 0 && Markup.Opens(c) == 0;
    var p := a + href + q;
    Markup.OpensAppend(a, href);
    Markup.OpensAppend(a + href, q);
    Markup.OpensAppend(p, inside);
    Markup.TwoTagsOpen(p + inside, c);
    assert Anchor(href, inside) == "<" + (p + inside) + "<" + c;
  }

  /** The three auto-link renderers; a mention links to the profile only inside an application. */
  function RegexHtml(svc: Services, k: RegexKind, m: string, groups: Groups): string
  {
    match k
    case AutoUrl => Anchor(Markup.UrlAttribute(m), Markup.Escape(m, false))
    case Email => Anchor("mailto:" + Markup.Escape(m, true), Markup.Escape(m, false))
    case Mention => Anchor(MentionHref(svc, groups), "@" + Markup.Escape(MentionNick(groups), false))
  }

  /** The `nickname` group of a mention. */
  function MentionNick(groups: Groups): string
  {
    if "nickname" in groups && groups["nickname"].Some? then groups["nickname"].value else []
  }

  /** The profile link inside an application, `#` outside one. */
  function MentionHref(svc: Services, groups: Groups): string
  {
    if svc.profileUrl.Some? then svc.profileUrl.value(MentionNick(groups)) else "#"
  }

  /**
   * An auto-link is one `<a>` element whatever text it matched; a mention's only other tags
   * are those of the profile URL the application gives, none outside an application.
   */
  lemma RegexHtmlIsOneLink(svc: Services, k: RegexKind, m: string, groups: Groups)
    ensures k != Mention ==> Markup.Opens(RegexHtml(svc, k, m, groups)) == 2
    ensures k == Mention ==> Markup.Opens(RegexHtml(svc, k, m, groups)) == 2 + Markup.Opens(MentionHref(svc, groups))
    ensures k == Mention && svc.profileUrl.None? ==> Markup.Opens(RegexHtml(svc, k, m, groups)) == 2
  {
    match k
    case AutoUrl =>
      Markup.UrlAttributeIsInert(m);
      AnchorOpens(Markup.UrlAttribute(m), Markup.Escape(m, false));
    case Email =>
      var href := "mailto:" + Markup.Escape(m, true);
      assert '<' !in href;
      AnchorOpens(href, Markup.Escape(m, false));
    case Mention =>
      var inside := "@" + Markup.Escape(MentionNick(groups), false);
      assert '<' !in inside;
      AnchorOpens(MentionHref(svc, groups), inside);
      if svc.profileUrl.None? {
        assert '<' !in MentionHref(svc, groups);
      }
  }

  /** A URL tag is one `<a>` element around its children, whatever URL it was given. */
  lemma UrlIsOneLink(svc: Services, n: Node, o: Options)
    requires n.Tag? && n.kind == Url
    ensures Markup.Opens(Html(svc, n, o)) == 2 + Markup.Opens(ChildrenHtml(svc, n.children, 0, o))
  {
    Markup.UrlAttributeIsInert(LinkOf(n.attr));
    AnchorOpens(Markup.UrlAttribute(LinkOf(n.attr)), ChildrenHtml(svc, n.children, 0, o));
  }

  /** What `$` lets a pattern match: the text, less one final line break. */
  function BeforeEnd(c: string): (b: string)
    ensures b == c || (c == b + "\n")
  {
    if c != [] && c[|c| - 1] == '\n' then c[..|c| - 1] else c
  }

  /** `[A-Za-z]+`. */
  predicate ColorName(b: string)
  {
    b != [] && forall i :: 0 <= i < |b| ==> IsAsciiLetter(b[i])
  }

  /** `#[0-9A-Fa-f]{,6}`. */
  predicate HexColor(b: string)
  {
    b != [] && b[0] == '#' && |b| <= 7 && forall i :: 1 <= i < |b| ==> IsHexDigit(b[i])
  }

  /** `^([A-Za-z]+|#[0-9A-Fa-f]{,6})$` with `re.match`. */
  predicate ColorOk(c: string)
  {
    ColorName(BeforeEnd(c)) || HexColor(BeforeEnd(c))
  }

  /** ColorNode's style: the stripped value (default `#000000`) when it is a colour. */
  function ColorStyle(value: Option<string>): (r: string)
    ensures ColorOk(if ValueTruthy(value) then Strip(value.value) else "#000000") ==>
      r == "color: " + (if ValueTruthy(value) then Strip(value.value) else "#000000") + ";"
    ensures !ColorOk(if ValueTruthy(value) then Strip(value.value) else "#000000") ==> r == XssRemoved
  {
    var color := if ValueTruthy(value) then Strip(value.value) else "#000000";
    if ColorOk(color) then "color: " + color + ";" else XssRemoved
  }

  /** `^left|right$` with `re.match`: starts with `left`, or is `right` (before an optional final line break). */
  predicate FloatOk(d: string)
  {
    StartsWith(d, "left") || d == "right" || d == "right\n"
  }

  /** FloatNode's class: `bbcode-float-` and the stripped value (default `left`) when it passes. */
  function FloatClass(value: Option<string>): (r: string)
    ensures r == XssRemoved || (|r| >= 13 && r[..13] == "bbcode-float-" && FloatOk(r[13..]))
    ensures !ValueTruthy(value) ==> r == "bbcode-float-left"
  {
    var direction := if ValueTruthy(value) then Strip(value.value) else "left";
    if FloatOk(direction) then "bbcode-float-" + direction else XssRemoved
  }

  /** A direction with no white space at its ends is checked as it is. */
  lemma FloatOfUnpadded(d: string)
    requires d != [] && !IsSpace(d[0]) && !IsSpace(d[|d| - 1])
    ensures FloatClass(Some(d)) == if FloatOk(d) then "bbcode-float-" + d else XssRemoved
  {
    assert Strip(d) == d;
  }

  /** The float pattern lets through any direction that starts with `left`, whatever follows. */
  lemma FloatAcceptsLeftPrefix(d: string)
    requires StartsWith(d, "left") && !IsSpace(d[|d| - 1])
    ensures FloatClass(Some(d)) == "bbcode-float-" + d
  {
    assert d[0] == "left"[0];
    FloatOfUnpadded(d);
  }

  /** Example of `FloatClass`'s contract: with no value the node floats left; a direction that is neither `left`-prefixed nor `right` is replaced. */
  lemma FloatDefaults()
    ensures FloatClass(None) == "bbcode-float-left"
    ensures FloatClass(Some("center")) == XssRemoved
  {
    assert "left"[..4] == "left";
    assert "bbcode-float-" + "left" == "bbcode-float-left";
    FloatOfUnpadded("center");
    assert "center"[0] != "left"[0];
    assert !FloatOk("center");
  }

  /**
   * FlashNode.html: a literal `<embed>` with its own closing tag. Its attributes are those
   * of `render_embed`, in the same order, with the percent-encoded URL as the source; the
   * literal escapes the URL with quotes as the builder escapes every attribute value, and
   * the other values hold nothing to escape, so the builder's opening tag is the literal's.
   */
  function FlashHtml(url: string, width: int): string
  {
    Markup.EmptyElement("embed", Video.PlayerAttrs(EmbedPlayer, Markup.UrlQuote(url, Markup.UrlQuoteSafe), width))
    + Markup.CloseTag("embed")
  }

  /** Whatever the URL and the width, the flash markup is one `<embed>` and its closing tag. */
  lemma FlashIsOneElement(url: string, width: int)
    ensures Markup.Opens(FlashHtml(url, width)) == 2
  {
    var a := Video.PlayerAttrs(EmbedPlayer, Markup.UrlQuote(url, Markup.UrlQuoteSafe), width);
    assert forall i :: 0 <= i < |a| ==> '<' !in a[i].0;
    Markup.OpenTagOpens("embed", a);
    Markup.CloseTagOpens("embed");
    Markup.OpensAppend(Markup.EmptyElement("embed", a), Markup.CloseTag("embed"));
  }

  /** Flash is sized like a player: the width given and five sixths of it, rounded down. */
  lemma FlashSize(url: string, width: int)
    ensures var a := Video.PlayerAttrs(EmbedPlayer, Markup.UrlQuote(url, Markup.UrlQuoteSafe), width);
      && FlashHtml(url, width) == Markup.EmptyElement("embed", a) + Markup.CloseTag("embed")
      && a[0].1 == Markup.UrlQuote(url, Markup.UrlQuoteSafe)
      && a[|a| - 2] == ("width", Markup.IntToString(width))
      && a[|a| - 1] == ("height", Markup.IntToString(Video.Height(width)))
  {
    Video.PlayerSize(EmbedPlayer, Markup.UrlQuote(url, Markup.UrlQuoteSafe), width);
  }


  /** The opening tag both versions of RefNode.html write. */
  function RefOpen(url: string): string
  {
    Markup.EmptyElement("a", [("class", "bbcode-ref"), ("href", url)])
  }

  /** RefNode.html as written: the builder escapes the `href` but writes the link text as it is. */
  function RefHtmlAsWritten(url: string): string
  {
    Markup.Element("a", [("class", "bbcode-ref"), ("href", url)], [url])
  }

  /** RefNode.html with the link text escaped like every other text the renderers emit. */
  function RefHtml(url: string): string
  {
    Markup.Element("a", [("class", "bbcode-ref"), ("href", url)], [Markup.Escape(url, false)])
  }

  /** The corrected ref link writes the target as escaped text: no markup can start inside it. */
  lemma RefHtmlEscapesText(url: string)
    ensures RefHtml(url) == RefOpen(url) + Markup.Escape(url, false) + Markup.CloseTag("a")
    ensures '<' !in Markup.Escape(url, false)
  {
    Markup.ElementOne("a", [("class", "bbcode-ref"), ("href", url)], Markup.Escape(url, false));
  }

  /** As written, the link text is the target itself. */
  lemma RefHtmlAsWrittenText(url: string)
    ensures RefHtmlAsWritten(url) == RefOpen(url) + url + Markup.CloseTag("a")
  {
    Markup.ElementOne("a", [("class", "bbcode-ref"), ("href", url)], url);
  }

  /** Corrected, a ref link is one element whatever its target. */
  lemma RefHtmlIsOneElement(url: string)
    ensures Markup.Opens(RefHtml(url)) == 2
  {
    var t := Markup.Escape(url, false);
    RefLinkOpens(url, t);
  }

  /** As written, every `<` of the target opens a tag of its own inside the link. */
  lemma RefHtmlAsWrittenOpens(url: string)
    ensures Markup.Opens(RefHtmlAsWritten(url)) == 2 + Markup.Opens(url)
  {
    RefLinkOpens(url, url);
  }

  lemma RefLinkOpens(url: string, text: string)
    ensures Markup.Opens(Markup.Element("a", [("class", "bbcode-ref"), ("href", url)], [text]))
      == 2 + Markup.Opens(text)
  {
    var attrs := [("class", "bbcode-ref"), ("href", url)];
    assert forall i :: 0 <= i < |attrs| ==> '<' !in attrs[i].0;
    Markup.ElementOpens("a", attrs, [text]);
    assert [text][1..] == [];
    assert Concat([text]) == text;
  }

  /** The whitelist lets anything at all follow `?`. */
  lemma RefQueryPasses(query: string)
    requires query != [] && query[0] == '?'
    ensures RefWhitelisted("/article/1" + query)
  {
    var t := "/article/1" + query;
    assert StartsWith(t, "") && t[|""|..] == t;
    assert StartsWith(t, "/" + "article" + "/") by {
      assert t[..9] == "/article/";
    }
    var rest := t[9..];
    assert rest == "1" + query;
    assert rest[1..] == query;
    assert LeadingDigits(query) == 0;
    assert LeadingDigits(rest) == 1;
    assert DigitsThenTail(rest);
    assert KeywordPath(t, "article");
    assert HostPath(t, "");
  }

  /** A target without a trailing `/` gets exactly one. */
  lemma RefTargetClean(t: string)
    requires t == [] || t[|t| - 1] != '/'
    ensures RefTarget(t) == t + "/"
  {
    assert RStripChar(t, '/') == t;
  }

  /** Ref children whose stripped text is whitelisted make a link to that text. */
  lemma RefBuildDone(children: seq<Node>, url: string)
    requires children != [] && url == Strip(ChildrenMarkup(children)) && RefWhitelisted(url)
    ensures Build(Ref, "ref", None, children) == Done(Tag(Ref, "ref", None, children, Link(RefTarget(url))))
  {
  }

  /** A child whose text has no white space at either end is the ref's target as it is. */
  lemma RefBuilt(t: string)
    requires t != [] && !IsSpace(t[0]) && !IsSpace(t[|t| - 1]) && t[|t| - 1] != '/'
    requires RefWhitelisted(t)
    ensures Build(Ref, "ref", None, [Plain(t)]) == Done(Tag(Ref, "ref", None, [Plain(t)], Link(t + "/")))
  {
    PlainMarkup(t);
    RefTargetClean(t);
    RefBuildDone([Plain(t)], t);
  }

  /** A query the ref whitelist lets through that carries markup. */
  predicate MarkupQuery(query: string)
  {
    query != [] && query[0] == '?' && '<' in query
    && query[|query| - 1] != '/' && !IsSpace(query[|query| - 1])
  }

  /**
   * So every ref whose query holds markup is built, and RefNode.html as written emits that
   * markup inside the link text.
   */
  lemma RefMarkupPasses(query: string)
    requires MarkupQuery(query)
    ensures var t := "/article/1" + query;
      && '<' in t
      && Build(Ref, "ref", None, [Plain(t)]) == Done(Tag(Ref, "ref", None, [Plain(t)], Link(t + "/")))
      && RefHtmlAsWritten(t + "/") == RefOpen(t + "/") + (t + "/") + Markup.CloseTag("a")
  {
    var t := "/article/1" + query;
    RefQueryPasses(query);
    assert t[0] == '/' && t[|t| - 1] == query[|query| - 1];
    RefBuilt(t);
    RefHtmlAsWrittenText(t + "/");
  }

  /** `?<script>alert(1)</script>` is such a query. */
  lemma RefScriptPasses()
    ensures MarkupQuery("?<script>alert(1)</script>")
  {
    var query := "?<script>alert(1)</script>";
    assert query[1] == '<' && query[|query| - 1] == '>';
  }

  /** The placeholder itself carries no scheme. */
  lemma PlaceholderHasNoScheme()
    ensures !HasScheme(XssRemoved, "javascript:") && !HasScheme(XssRemoved, "vbscript:")
  {
    LowerAt(Take(XssRemoved, 11));
    LowerAt(Take(XssRemoved, 9));
    assert Lower(Take(XssRemoved, 11))[0] == '<';
    assert Lower(Take(XssRemoved, 9))[0] == '<';
  }

  /** No link, image or flash a constructor accepts points at a script URL. */
  lemma LinkNeverScript(kind: TagKind, name: string, value: Option<string>, children: seq<Node>)
    requires kind in {Url, Image, Flash}
    requires Build(kind, name, value, children).Done?
    ensures var a := Build(kind, name, value, children).value.attr;
      a.Link? && !HasScheme(a.url, "javascript:")
    ensures kind == Image ==> !HasScheme(Build(kind, name, value, children).value.attr.url, "vbscript:")
  {
    PlaceholderHasNoScheme();
  }

  /** A ref is built exactly when its stripped child text passes the whitelist, and its target ends in one slash. */
  lemma RefTargetShape(name: string, value: Option<string>, children: seq<Node>)
    ensures Build(Ref, name, value, children).Done? <==>
      !ValueTruthy(value) && children != [] && RefWhitelisted(Strip(ChildrenMarkup(children)))
    ensures Build(Ref, name, value, children).Done? ==>
      var u := Build(Ref, name, value, children).value.attr.url;
      u == RStripChar(Strip(ChildrenMarkup(children)), '/') + "/" && (|u| < 2 || u[|u| - 2] != '/')
  {
    var b := Build(Ref, name, value, children);
    if !ValueTruthy(value) && children != [] {
      var url := Strip(ChildrenMarkup(children));
      if RefWhitelisted(url) {
        assert b == Done(Tag(Ref, name, value, children, Link(RefTarget(url))));
      } else {
        assert b == Rejected;
      }
    } else {
      assert b == Rejected;
    }
  }

  /** A colour can never close the `style` attribute it is written into. */
  lemma ColorStyleStaysQuoted(value: Option<string>)
    ensures '"' !in ColorStyle(value)
  {
    var color := if ValueTruthy(value) then Strip(value.value) else "#000000";
    if ColorOk(color) {
      var b := BeforeEnd(color);
      assert forall i :: 0 <= i < |b| ==> b[i] != '"';
      assert forall i :: 0 <= i < |color| ==> color[i] != '"';
      var r := "color: " + color + ";";
      assert forall i :: 0 <= i < |r| ==> r[i] != '"';
    }
  }

  /** A value with no white space at its ends is checked as it is. */
  lemma StyleOf(v: string)
    requires v != [] && !IsSpace(v[0]) && !IsSpace(v[|v| - 1])
    ensures ColorStyle(Some(v)) == if ColorOk(v) then "color: " + v + ";" else XssRemoved
  {
    assert Strip(v) == v;
  }

  /** Example for `ColorStyle`: a colour name passes and is written as a declaration. */
  lemma ColorNameExample()
    ensures ColorStyle(Some("red")) == "color: " + "red" + ";"
  {
    var v := "red";
    assert ColorOk(v) by {
      assert v[0] == 'r' && v[1] == 'e' && v[2] == 'd';
      assert BeforeEnd(v) == v;
      assert ColorName(v);
    }
    assert v[0] == 'r' && v[2] == 'd';
    StyleOf(v);
  }

  /** Example for `ColorStyle`: a short hexadecimal colour passes. */
  lemma HexColorExample()
    ensures ColorStyle(Some("#aaa")) == "color: " + "#aaa" + ";"
  {
    var v := "#aaa";
    assert ColorOk(v) by {
      assert v[0] == '#' && v[1] == 'a' && v[2] == 'a' && v[3] == 'a';
      assert BeforeEnd(v) == v;
      assert HexColor(v);
    }
    assert v[0] == '#' && v[3] == 'a';
    StyleOf(v);
  }

  /** Example for `ColorStyle` (the general fact is `ColorStyleStaysQuoted`): a value smuggling a second declaration into the style is replaced. */
  lemma ColorInjectionExample()
    ensures ColorStyle(Some("red; backgroud: red;")) == XssRemoved
  {
    var bad := "red; backgroud: red;";
    assert bad[0] == 'r' && bad[3] == ';' && bad[|bad| - 1] == ';';
    NotAColor(bad);
    StyleOf(bad);
  }

  lemma NotAColor(bad: string)
    requires |bad| > 3 && bad[0] == 'r' && bad[3] == ';' && bad[|bad| - 1] == ';'
    ensures !ColorOk(bad)
  {
    assert BeforeEnd(bad) == bad;
    assert !IsAsciiLetter(bad[3]);
  }

  /** `javaSCript:` lowers to the scheme UrlNode looks for. */
  lemma LowerMixedScheme()
    ensures Lower("javaSCript:") == "javascript:"
  {
    var s, t := "javaSCript:", "javascript:";
    forall i | 0 <= i < |s|
      ensures LowerChar(s[i]) == t[i]
    {
      assert i == 4 || i == 5 || LowerChar(s[i]) == s[i] == t[i];
    }
    LowerEq(s, t);
  }

  lemma MixedCaseScheme(rest: string)
    ensures HasScheme("javaSCript:" + rest, "javascript:")
  {
    var t := "javaSCript:" + rest;
    assert Take(t, 11) == "javaSCript:";
    LowerMixedScheme();
  }

  /** The scheme check ignores case: `javaSCript:` is replaced by the placeholder. */
  lemma UrlSchemeIgnoresCase(rest: string)
    ensures var t := "javaSCript:" + rest;
      Build(Url, "url", None, [Plain(t)]) == Done(Tag(Url, "url", None, [Plain(t)], Link(XssRemoved)))
  {
    var t := "javaSCript:" + rest;
    PlainMarkup(t);
    MixedCaseScheme(rest);
  }
}
