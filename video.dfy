/**
 * The video URL resolver of contribs/bbcode/video.py: fourteen site adapters tried in
 * order, each an ordered list of patterns, a transform of the captured groups and a
 * `%(key)s` source template, rendered as an `<iframe>` or an `<embed>` player.
 */
module Video {
  import opened Wrappers
  import opened Strings
  import opened Nodes
  import opened Services
  import Markup

  /** A piece of a `%(key)s` template. */
  datatype Piece = Lit(text: string) | Key(key: string)

  /** `_regex`: one compiled pattern, or a list of them. */
  datatype Patterns = One(pattern: Pattern) | Many(patterns: seq<Pattern>)

  /** A site adapter: its patterns (`None` when unset), source template and player. */
  datatype Adapter = Adapter(site: Site, regex: Option<Patterns>, template: seq<Piece>, style: PlayerStyle)

  /** A single pattern is searched as a one-element list. */
  function PatternList(p: Patterns): (r: seq<Pattern>)
    ensures p.One? ==> r == [p.pattern]
    ensures p.Many? ==> r == p.patterns
  {
    match p
    case One(q) => [q]
    case Many(qs) => qs
  }

  function Pats(site: Site, n: nat): (r: Patterns)
    ensures |PatternList(r)| == n
    ensures forall i :: 0 <= i < n ==> PatternList(r)[i] == SitePattern(site, i)
  {
    Many(seq(n, i requires 0 <= i < n => SitePattern(site, i)))
  }

  /** Each site's `_regex`: how many patterns it tries, in order. */
  function PatternCount(site: Site): (n: nat)
    ensures n >= 1
  {
    match site
    case Youku => 3
    case Tudou => 4
    case Ku6 => 2
    case W56 => 3
    case W56Pic => 2
    case QQ => 4
    case Sina => 3
    case Sohu => 2
    case Open163 => 2
    case Netease => 2
    case Letv => 2
    case Acfun => 2
    case Bilibili => 2
    case WhitelistFlash => 1
  }

  /** The whitelist adapter sets a single pattern; every other site a list. */
  function PatternsOf(site: Site): (r: Patterns)
    ensures |PatternList(r)| == PatternCount(site)
    ensures forall i :: 0 <= i < PatternCount(site) ==> PatternList(r)[i] == SitePattern(site, i)
  {
    if site == WhitelistFlash then One(SitePattern(WhitelistFlash, 0)) else Pats(site, PatternCount(site))
  }

  // The literal parts of the `_src` templates.
  const YoukuSrc := "http://player.youku.com/embed/"
  const TudouSrc := "http://www.tudou.com/programs/view/html5embed.action?code="
  const Ku6Src := "http://player.ku6.com/refer/"
  const W56Src := "http://www.56.com/iframe/"
  const W56PicSrc := "http://player.56.com/deux_"
  const QQSrc := "http://static.video.qq.com/TPout.swf?vid="
  const SinaSrc := "http://you.video.sina.com.cn/api/sinawebApi/outplayrefer.php/vid="
  const SohuSrc := "http://share.vrs.sohu.com/"
  const Open163Src := "http://swf.ws.126.net/openplayer/v01/-0-2_"
  const NeteaseSrc := "http://swf.ws.126.net/v/ljk/shareplayer/ShareFlvPlayer.swf?pltype="
  const LetvSrc := "http://i7.imgs.letv.com/player/swfPlayer.swf?id="
  const AcfunSrc := "http://cdn.acfun.tv/player/ACFlashPlayer.weibo2.swf?type=page&url="
  const BilibiliSrc := "http://static.hdslb.com/miniloader.swf?aid="

  /** Each site's `_src`: the `%(key)s` template of the player source. */
  function Template(site: Site): (r: seq<Piece>)
    ensures r != []
  {
    match site
    case Youku => [Lit(YoukuSrc), Key("id")]
    case Tudou => [Lit(TudouSrc), Key("id")]
    case Ku6 => [Lit(Ku6Src), Key("id"), Lit("/v.swf")]
    case W56 => [Lit(W56Src), Key("id")]
    case W56Pic => [Lit(W56PicSrc), Key("id"), Lit(".swf")]
    case QQ => [Lit(QQSrc), Key("id"), Lit("&auto=0")]
    case Sina => [Lit(SinaSrc), Key("vid"), Lit("_"), Key("uid"), Lit("/s.swf")]
    case Sohu => [Lit(SohuSrc), Key("id"), Lit("/v.swf&autoplay=false")]
    case Open163 => [Lit(Open163Src), Key("id"), Lit("-.swf")]
    case Netease =>
      [ Lit(NeteaseSrc), Key("pltype"), Lit("&topicid="), Key("topicid"),
        Lit("&vid="), Key("vid"), Lit("&sid="), Key("sid"), Lit("&autoplay=false")]
    case Letv => [Lit(LetvSrc), Key("id"), Lit("&autoplay=0")]
    case Acfun => [Lit(AcfunSrc), Key("id")]
    case Bilibili => [Lit(BilibiliSrc), Key("id"), Lit("&page="), Key("page")]
    case WhitelistFlash => [Key("url")]
  }

  /** Youku, Tudou and 56 render an `<iframe>`; every other site an `<embed>`. */
  function StyleOf(site: Site): PlayerStyle
  {
    if site in {Youku, Tudou, W56} then IframePlayer else EmbedPlayer
  }

  /**
   * Each site's adapter. Every one sets its patterns and its template, so none raises
   * `NotImplementedError`.
   */
  function AdapterOf(site: Site): (r: Adapter)
    ensures r.site == site && Implemented(r)
  {
    Adapter(site, Some(PatternsOf(site)), Template(site), StyleOf(site))
  }

  /** `VideoNode.adapters`: the whitelist adapter comes last. */
  function Adapters(): (r: seq<Adapter>)
    ensures |r| == 14 && r[13] == AdapterOf(WhitelistFlash)
  {
    [ AdapterOf(Youku), AdapterOf(Tudou), AdapterOf(Ku6), AdapterOf(W56), AdapterOf(W56Pic), AdapterOf(QQ), AdapterOf(Sina),
      AdapterOf(Sohu), AdapterOf(Open163), AdapterOf(Netease), AdapterOf(Letv), AdapterOf(Acfun), AdapterOf(Bilibili),
      AdapterOf(WhitelistFlash) ]
  }

  // ---- the whitelist adapter's pattern, written out ----

  /** `\w` of a pattern compiled without the UNICODE flag. */
  predicate WordChar(c: char)
  {
    IsAsciiLetter(c) || IsAsciiDigit(c) || c == '_'
  }

  /** `h` is one or more word characters followed by `suffix`. */
  predicate WordPrefixed(h: string, suffix: string)
  {
    |h| > |suffix| && h[|h| - |suffix|..] == suffix && forall i :: 0 <= i < |h| - |suffix| ==> WordChar(h[i])
  }

  /** The hosts the whitelist adapter names outright. */
  const ListedHosts: set<string> :=
    {"player.youku.com", "www.tudou.com", "player.ku6.com", "player.56.com", "share.vrs.sohu.com",
     "swf.ws.126.net", "player.cntv.cn", "union.bokecc.com"}

  /** The hosts the whitelist adapter accepts. */
  predicate AllowedHost(h: string)
  {
    h in ListedHosts || WordPrefixed(h, ".video.sina.com.cn") || WordPrefixed(h, ".video.qq.com") || WordPrefixed(h, ".video.qiyi.com")
  }

  /** What follows the scheme of an `http://` or `https://` URL. */
  function AfterScheme(url: string): Option<string>
  {
    if StartsWith(url, "http://") then Some(url[7..])
    else if StartsWith(url, "https://") then Some(url[8..])
    else None
  }

  /**
   * `^(?P<url>https?://(?:<hosts>)/.+)$`: an allowed host, a `/`, then at least one
   * character and no line break (`$` also matches before one final line break).
   * The single group is the URL without that final line break.
   */
  function WhitelistSearch(url: string): (r: Option<Match>)
    ensures r.Some? ==> r.value.start == 0 && r.value.stop <= |url|
    ensures r.Some? ==> r.value.groups == map["url" := Some(url[..r.value.stop])]
  {
    var body := if url != [] && url[|url| - 1] == '\n' then url[..|url| - 1] else url;
    match AfterScheme(body)
    case None => None
    case Some(rest) =>
      var slash := Find(rest, '/');
      if slash < 0 then None
      else
        var host := rest[..slash];
        var tail := rest[slash + 1..];
        if AllowedHost(host) && tail != [] && '\n' !in tail then
          assert body == url[..|body|];
          Some(Match(0, |body|, map["url" := Some(body)]))
        else None
  }

  /** The pattern engine, with the whitelist pattern written out. */
  function Search(svc: Services, p: Pattern, url: string): Option<Match>
  {
    if p == SitePattern(WhitelistFlash, 0) then WhitelistSearch(url) else svc.search(p, url)
  }

  /** The first pattern that finds something in `url`, with its groups. */
  function FirstHit(svc: Services, ps: seq<Pattern>, url: string): (r: Option<(nat, Groups)>)
    ensures r.Some? ==> r.value.0 < |ps| && Search(svc, ps[r.value.0], url).Some?
    ensures r.Some? ==> Search(svc, ps[r.value.0], url).value.groups == r.value.1
    ensures r.Some? ==> forall j :: 0 <= j < r.value.0 ==> Search(svc, ps[j], url).None?
    ensures r.None? ==> forall j :: 0 <= j < |ps| ==> Search(svc, ps[j], url).None?
    decreases |ps|
  {
    if ps == [] then None
    else match Search(svc, ps[0], url)
      case Some(m) => Some((0, m.groups))
      case None =>
        match FirstHit(svc, ps[1..], url)
        case None => None
        case Some(hit) => Some((hit.0 + 1, hit.1))
  }

  // ---- kw_handler transforms ----

  /** Netease's `_typemap`: video type to `(pltype, topicid)`. */
  function NeteaseType(vtype: Option<string>): (r: Option<(string, string)>)
    ensures r.Some? <==> vtype.Some? && vtype.value in {"zongyi", "jishi", "zixun", "yule", "mv", "paike"}
  {
    if vtype == Some("zongyi") then Some(("4", "0085"))
    else if vtype == Some("jishi") then Some(("5", "0085"))
    else if vtype == Some("zixun") then Some(("6", "0085"))
    else if vtype == Some("yule") then Some(("8", "0085"))
    else if vtype == Some("mv") then Some(("9", "0085"))
    else if vtype == Some("paike") then Some(("10", "1000"))
    else None
  }

  /** `kw.get(k)`. */
  function Get(kw: Groups, k: string): Option<string>
  {
    if k in kw then kw[k] else None
  }

  /** The groups a site's handler fills in when the pattern did not capture them. */
  predicate Provides(site: Site, g: Groups)
  {
    match site
    case W56Pic => "id" in g
    case Sina => "vid" in g && "uid" in g
    case Sohu => "id" in g
    case Netease => "pltype" in g
    case Bilibili => Get(g, "page").Some?
    case _ => true
  }

  /** The groups a site's handler may remove or overwrite. */
  function Rewritten(site: Site): set<string>
  {
    match site
    case W56Pic => {"id_b64decode", "id"}
    case Sina => {"mix_vid", "vid", "uid"}
    case Sohu => {"url", "id"}
    case Netease => {"vtype", "pltype", "topicid"}
    case Bilibili => {"page"}
    case _ => {}
  }

  /**
   * Each adapter's `kw_handler`; the base one returns the groups as they are. A handler
   * that succeeds provides its site's groups and keeps every other captured group; only
   * the handlers that look something up can reject, and only those that index a group
   * or unpack a lookup can raise.
   */
  function KwHandler(svc: Services, site: Site, kw: Groups): (r: Outcome<Groups>)
    ensures r.Done? ==> Provides(site, r.value)
    ensures r.Done? ==> forall k :: k in kw && k !in Rewritten(site) ==> k in r.value && r.value[k] == kw[k]
    ensures r.Rejected? ==> site in {Sina, Sohu, Netease}
    ensures r.Fatal? ==> site in {W56Pic, Sina, Sohu}
    ensures site !in {W56Pic, Sina, Sohu, Netease, Bilibili} ==> r == Done(kw)
  {
    match site
    case W56Pic =>
      if "id" in kw then Done(kw)
      else if "id_b64decode" !in kw then Fatal(KeyError("id_b64decode"))
      else (match svc.base64Decode(kw["id_b64decode"])
        case None => Fatal(DecodeError)
        case Some(d) => Done((kw - {"id_b64decode"})["id" := Some(d)]))
    case Sina =>
      if "vid" in kw && "uid" in kw then Done(kw)
      else if "mix_vid" in kw then
        (match svc.weiboLookup(kw["mix_vid"])
         case None => Rejected
         case Some(pair) => Done((kw - {"mix_vid"})["vid" := Some(pair.0)]["uid" := Some(pair.1)]))
      else Fatal(NotAMapping)
    case Sohu =>
      if "id" in kw then Done(kw)
      else if "url" !in kw then Fatal(KeyError("url"))
      else (match svc.sohuLookup(kw["url"])
        case None => Rejected
        case Some(id) => Done((kw - {"url"})["id" := Some(id)]))
    case Netease =>
      if "pltype" in kw then Done(kw)
      else if "vtype" !in kw then Rejected
      else (match NeteaseType(kw["vtype"])
        case None => Rejected
        case Some(t) => Done((kw - {"vtype"})["pltype" := Some(t.0)]["topicid" := Some(t.1)]))
    case Bilibili =>
      if Get(kw, "page").None? then Done(kw["page" := Some("1")]) else Done(kw)
    case _ => Done(kw)
  }

  /** `template % kw`: a missing key raises `KeyError`; `None` is written `None`. */
  function Format(template: seq<Piece>, kw: Groups): (r: Result<string, string>)
    ensures r.Err? <==> exists i :: 0 <= i < |template| && template[i].Key? && template[i].key !in kw
  {
    if template == [] then Ok([])
    else
      var head: Result<string, string> := match template[0]
        case Lit(t) => Ok(t)
        case Key(k) => if k !in kw then Err(k) else Ok(if kw[k].Some? then kw[k].value else "None");
      match (head, Format(template[1..], kw))
      case (Ok(a), Ok(b)) => Ok(a + b)
      case (Err(k), _) => Err(k)
      case (_, Err(k)) =>
        assert forall i :: 1 <= i < |template| ==> template[i] == template[1..][i - 1];
        Err(k)
  }

  /** `not self._regex or not self._srctpl`. */
  predicate Implemented(a: Adapter)
  {
    a.regex.Some? && PatternList(a.regex.value) != [] && a.template != []
  }

  /** What `adapter(url)` does: its player, `URLNotMatch`, or an uncaught exception. */
  function AdapterOutcome(svc: Services, a: Adapter, url: string): (r: Outcome<Attr>)
    ensures r.Done? ==> r.value.Player? && r.value.style == a.style
    ensures r == Fatal(NotImplemented) <==> !Implemented(a)
  {
    if !Implemented(a) then Fatal(NotImplemented)
    else match FirstHit(svc, PatternList(a.regex.value), url)
      case None => Rejected
      case Some(hit) =>
        match KwHandler(svc, a.site, hit.1)
        case Rejected => Rejected
        case Fatal(e) => Fatal(e)
        case Done(kw) =>
          match Format(a.template, kw)
          case Err(k) => Fatal(KeyError(k))
          case Ok(src) => Done(Player(a.style, src))
  }

  /**
   * `_IframeAdapter.init` / `_FlashAdapter.init`: search the patterns in order and
   * build the source from the first that matches.
   */
  method AdapterInit(svc: Services, a: Adapter, url: string) returns (r: Outcome<Attr>)
    ensures r == AdapterOutcome(svc, a, url)
  {
    if !Implemented(a) {
      return Fatal(NotImplemented);
    }
    var ps := PatternList(a.regex.value);
    for i := 0 to |ps|
      invariant forall j :: 0 <= j < i ==> Search(svc, ps[j], url).None?
    {
      var m := Search(svc, ps[i], url);
      if m.Some? {
        assert FirstHit(svc, ps, url) == Some((i, m.value.groups)) by {
          FirstHitAt(svc, ps, url, i);
        }
        var kw := KwHandler(svc, a.site, m.value.groups);
        match kw {
          case Rejected => return Rejected;
          case Fatal(e) => return Fatal(e);
          case Done(groups) =>
            var src := Format(a.template, groups);
            match src {
              case Err(k) => return Fatal(KeyError(k));
              case Ok(s) => return Done(Player(a.style, s));
            }
        }
      }
    }
    return Rejected;
  }

  /** The first hit is the one before which every pattern missed. */
  lemma {:induction false} FirstHitAt(svc: Services, ps: seq<Pattern>, url: string, i: nat)
    requires i < |ps| && Search(svc, ps[i], url).Some?
    requires forall j :: 0 <= j < i ==> Search(svc, ps[j], url).None?
    ensures FirstHit(svc, ps, url) == Some((i, Search(svc, ps[i], url).value.groups))
    decreases i
  {
    if i > 0 {
      FirstHitAt(svc, ps[1..], url, i - 1);
    }
  }

  /**
   * `VideoNode.__init__`: try the adapters in order on the stripped URL, skip those that
   * raise `URLNotMatch`, keep the first player; `NodeError` when none accepts it.
   */
  method Resolve(svc: Services, adapters: seq<Adapter>, url: string) returns (r: Outcome<Attr>)
    ensures !r.Rejected? ==>
      exists i :: 0 <= i < |adapters| && AdapterOutcome(svc, adapters[i], url) == r &&
        forall j :: 0 <= j < i ==> AdapterOutcome(svc, adapters[j], url).Rejected?
    ensures r.Rejected? <==> forall j :: 0 <= j < |adapters| ==> AdapterOutcome(svc, adapters[j], url).Rejected?
  {
    for i := 0 to |adapters|
      invariant forall j :: 0 <= j < i ==> AdapterOutcome(svc, adapters[j], url).Rejected?
    {
      r := AdapterInit(svc, adapters[i], url);
      if !r.Rejected? {
        return;
      }
    }
    return Rejected;
  }

  /** The width the players, flash and images get when `resp_width` is not given. */
  const DefaultWidth: int := 480

  /** `width * 5 / 6` under Python 2's integer division, which rounds down. */
  function Height(width: int): (h: int)
    ensures 6 * h <= 5 * width < 6 * h + 6
  {
    width * 5 / 6
  }

  /** The attributes `render_iframe` and `render_embed` pass to the HTML builder. */
  function PlayerAttrs(style: PlayerStyle, src: string, width: int): seq<(string, string)>
  {
    var size := [("width", Markup.IntToString(width)), ("height", Markup.IntToString(Height(width)))];
    match style
    case IframePlayer => [("src", src), ("frameborder", "0"), ("allowfullscreen", "true")] + size
    case EmbedPlayer =>
      [ ("src", src), ("type", "application/x-shockwave-flash"), ("allowscriptaccess", "sameDomain"),
        ("allowfullscreen", "true"), ("wmode", "transparent"), ("quality", "high")] + size
  }

  /** `render_iframe` builds an empty `<iframe>`; `render_embed` an `<embed>` with no closing tag. */
  function PlayerHtml(style: PlayerStyle, src: string, width: int): string
  {
    match style
    case IframePlayer => Markup.Element("iframe", PlayerAttrs(style, src, width), [])
    case EmbedPlayer => Markup.EmptyElement("embed", PlayerAttrs(style, src, width))
  }

  /**
   * A player names its source first and ends with its size: the width given and five sixths
   * of it, rounded down.
   */
  lemma PlayerSize(style: PlayerStyle, src: string, width: int)
    ensures var a := PlayerAttrs(style, src, width);
      && |a| >= 3 && a[0] == ("src", src)
      && a[|a| - 2] == ("width", Markup.IntToString(width))
      && a[|a| - 1] == ("height", Markup.IntToString(Height(width)))
      && 6 * Height(width) <= 5 * width < 6 * Height(width) + 6
  {
  }

  /** Example of `Height`'s contract: at the default width a player is 400 high. */
  lemma DefaultPlayerHeight()
    ensures Height(DefaultWidth) == 400
  {
  }

  /** Whatever the source URL, a player is exactly one element: the iframe's two tags, or one embed tag. */
  lemma PlayerIsOneElement(style: PlayerStyle, src: string, width: int)
    ensures Markup.Opens(PlayerHtml(style, src, width)) == if style == IframePlayer then 2 else 1
  {
    var a := PlayerAttrs(style, src, width);
    assert forall i :: 0 <= i < |a| ==> '<' !in a[i].0;
    match style
    case IframePlayer =>
      Markup.ElementOpens("iframe", a, []);
      assert Concat([]) == [];
    case EmbedPlayer =>
      Markup.OpenTagOpens("embed", a);
  }

  // ---- properties ----

  /** An adapter with no patterns, or an empty template, raises instead of rejecting. */
  lemma UnsetAdapterRaises(svc: Services, a: Adapter, url: string)
    requires a.regex.None? || a.template == []
    ensures AdapterOutcome(svc, a, url) == Fatal(NotImplemented)
  {
  }

  /** Bilibili's page is 1 when the URL names none, and the named page otherwise. */
  lemma BilibiliPage(svc: Services, kw: Groups)
    ensures KwHandler(svc, Bilibili, kw).Done?
    ensures Get(kw, "page").None? ==> KwHandler(svc, Bilibili, kw).value["page"] == Some("1")
    ensures Get(kw, "page").Some? ==> KwHandler(svc, Bilibili, kw).value == kw
  {
  }

  /** Netease: a known video type becomes its `(pltype, topicid)`; any other is `URLNotMatch`. */
  lemma NeteaseTypes(svc: Services, kw: Groups)
    requires "pltype" !in kw
    ensures KwHandler(svc, Netease, kw).Done? <==>
      "vtype" in kw && kw["vtype"].Some? && kw["vtype"].value in {"zongyi", "jishi", "zixun", "yule", "mv", "paike"}
    ensures KwHandler(svc, Netease, kw).Fatal? == false
  {
  }

  /** W56Pic decodes only when no `id` was captured, and a captured `id` is used as it is. */
  lemma W56PicDecodesOnlyWithoutId(svc: Services, kw: Groups)
    ensures "id" in kw ==> KwHandler(svc, W56Pic, kw) == Done(kw)
    ensures "id" !in kw && "id_b64decode" in kw && svc.base64Decode(kw["id_b64decode"]).Some? ==>
      KwHandler(svc, W56Pic, kw).Done? && KwHandler(svc, W56Pic, kw).value["id"] == svc.base64Decode(kw["id_b64decode"])
  {
  }

  lemma AllowedHostNoSlash(host: string)
    requires AllowedHost(host)
    ensures '/' !in host
  {
    if WordPrefixed(host, ".video.sina.com.cn") {
      WordPrefixedNoSlash(host, ".video.sina.com.cn");
    } else if WordPrefixed(host, ".video.qq.com") {
      WordPrefixedNoSlash(host, ".video.qq.com");
    } else if WordPrefixed(host, ".video.qiyi.com") {
      WordPrefixedNoSlash(host, ".video.qiyi.com");
    } else {
      ListedHostNoSlash(host);
    }
  }

  lemma ListedHostNoSlash(host: string)
    requires host in ListedHosts
    ensures '/' !in host
  {
    if host == "player.youku.com" {
    } else if host == "www.tudou.com" {
    } else if host == "player.ku6.com" {
    } else if host == "player.56.com" {
    } else if host == "share.vrs.sohu.com" {
    } else if host == "swf.ws.126.net" {
    } else if host == "player.cntv.cn" {
    } else {
    }
  }

  lemma WordPrefixedNoSlash(host: string, suffix: string)
    requires WordPrefixed(host, suffix) && '/' !in suffix
    ensures '/' !in host
  {
    assert host == host[..|host| - |suffix|] + suffix;
    assert forall i :: 0 <= i < |host| - |suffix| ==> host[i] != '/';
  }

  /** An `http://` URL whose host has no `/` splits at the first `/` after the scheme. */
  lemma SchemeHostPath(url: string, host: string, path: string)
    requires '/' !in host && path != [] && '\n' !in path
    requires url == "http://" + host + "/" + path
    ensures url != [] && url[|url| - 1] != '\n'
    ensures var rest := host + "/" + path;
      && AfterScheme(url) == Some(rest)
      && Find(rest, '/') == |host| && rest[..|host|] == host && rest[|host| + 1..] == path
  {
    var rest := host + "/" + path;
    assert url[|url| - 1] == path[|path| - 1];
    assert url[..7] == "http://";
    assert url[7..] == rest;
    FindFirst(rest, host, '/');
    assert rest[|host| + 1..] == path;
  }

  /** An `http://` URL on an allowed host with a one-line path is matched whole. */
  lemma WhitelistMatchesWhole(url: string, host: string, path: string)
    requires AllowedHost(host) && path != [] && '\n' !in path
    requires url == "http://" + host + "/" + path
    ensures WhitelistSearch(url) == Some(Match(0, |url|, map["url" := Some(url)]))
  {
    AllowedHostNoSlash(host);
    SchemeHostPath(url, host, path);
  }

  /** The whitelist adapter passes an allow-listed URL through unchanged as the player source. */
  lemma WhitelistPassesThrough(svc: Services, url: string, host: string, path: string)
    requires AllowedHost(host) && path != [] && '\n' !in path
    requires url == "http://" + host + "/" + path
    ensures AdapterOutcome(svc, AdapterOf(WhitelistFlash), url) == Done(Player(EmbedPlayer, url))
  {
    WhitelistMatchesWhole(url, host, path);
    var a := AdapterOf(WhitelistFlash);
    assert PatternList(a.regex.value) == [SitePattern(WhitelistFlash, 0)];
    assert FirstHit(svc, PatternList(a.regex.value), url) == Some((0, map["url" := Some(url)]));
    assert Format(a.template[1..], map["url" := Some(url)]) == Ok([]);
    assert url + [] == url;
    assert Format(a.template, map["url" := Some(url)]) == Ok(url);
  }

  lemma FindFirst(s: string, prefix: string, c: char)
    requires c !in prefix && |prefix| < |s| && s[..|prefix|] == prefix && s[|prefix|] == c
    ensures Find(s, c) == |prefix| && s[..Find(s, c)] == prefix
  {
    assert forall i :: 0 <= i < |prefix| ==> s[i] == prefix[i];
  }
}
