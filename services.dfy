/**
 * What the bracket-markup engine consults but does not define: the regular-expression
 * engine (as a search function over named patterns), the network- and cache-backed
 * video lookups, base-64 decoding, and the renderers that need a web request context.
 */
module Services {
  import opened Wrappers
  import opened Nodes

  /** The video sites, in the order `VideoNode.adapters` lists their adapters. */
  datatype Site =
    | Youku | Tudou | Ku6 | W56 | W56Pic | QQ | Sina | Sohu
    | Open163 | Netease | Letv | Acfun | Bilibili | WhitelistFlash

  /** A compiled pattern: an auto-link pattern, or the `index`-th pattern of a site adapter. */
  datatype Pattern = AutoLink(kind: RegexKind) | SitePattern(site: Site, index: nat)

  /** `m.groupdict()`: every named group, `None` when it did not take part. */
  type Groups = map<string, Option<string>>

  /** `m.span()` and `m.groupdict()` of a successful `search`. */
  datatype Match = Match(start: nat, stop: nat, groups: Groups)

  /** How a constructor or an adapter ends: a value, a `NodeError` (or `URLNotMatch`), or an uncaught exception. */
  datatype Outcome<T> = Done(value: T) | Rejected | Fatal(reason: Failure)

  /** The exceptions that escape the parser. */
  datatype Failure =
    | NotImplemented         // an adapter without patterns or template
    | KeyError(key: string)  // a template or handler key the groups lack
    | DecodeError            // base-64 decoding raised
    | NotAMapping            // a handler returned nothing to format with
    | ZeroWidthMatch         // an auto-link pattern matched the empty string

  datatype Services = Services(
    /** `pattern.search(text)`. */
    search: (Pattern, string) -> Option<Match>,
    /** Sina's cache-or-fetch of a weibo `mix_vid`: the `(vid, uid)` pair, or nothing (`URLNotMatch`). */
    weiboLookup: Option<string> -> Option<(string, string)>,
    /** Sohu's cache-or-fetch of a page URL: the flash id, or nothing (`URLNotMatch`). */
    sohuLookup: Option<string> -> Option<string>,
    /** `base64.urlsafe_b64decode` as text; nothing when Python raises. */
    base64Decode: Option<string> -> Option<string>,
    /** `url_for` of a nickname's profile redirect when an application context exists. */
    profileUrl: Option<string -> string>,
    /** ImageNode.html: the responsive image URL and thumbnail parameters come from the image service. */
    imageHtml: (string, int) -> string,
    /** MathMode.html: the formula image URL depends on the request's browser. */
    mathHtml: (seq<Node>, int) -> string)

  /** A search reports a span inside the text it searched. */
  ghost predicate ValidSearch(svc: Services)
  {
    forall p: Pattern, s: string :: svc.search(p, s).Some? ==> svc.search(p, s).value.start <= svc.search(p, s).value.stop <= |s|
  }
}
