# Bracket markup engine and form coercions, in Dafny

This project models two parts of the platform library.

**The BBCode engine** (`contribs/bbcode`) turns user-written bracket markup (`[b]…[/b]`, `[url=…]`, `[video]…[/video]`) into a node tree and then into HTML. It has these parts:

- **The tag registry.** `register_node` keeps the tag classes in a map sorted by descending weight. A tag's weight is its name's length, so the longest name is tried first. Regex-driven auto-link nodes live in a separate map. `register_hook` and `trigger_hook` keep and call callbacks by name, in registration order.
- **The parser.** It is a class with a stack of open tags:
  - `parse` scans to the next `[` and hands it to `parse_right` (a closer) or `parse_left` (an opener).
  - `parse_left` reads the tag name and an optional quoted or bare `=value`. It pushes the tag while fewer than 256 are open and parses the children with the registries the tag's class admits. Then it builds the node.
  - `parse_right` closes only the top of the stack.
  - A syntax error carries a positive offset. That many characters become literal text.
  - `_append_plains` splits literal text into auto-links and line-by-line plain nodes.
- **The tree.** This covers truthiness, canonical markup (`__unicode__`, values written as JSON literals), plain text, sibling lookup and the element-selector query.
- **The per-tag classes.** Constructors validate their input: scheme rejection for link, image and flash targets, and the ref whitelist. Renderers cover list items, tables, colour and float styles, and ref links.
- **The video resolver.** It holds 14 site adapters, each with ordered patterns, a group transform and a `%`-template. The first adapter that matches wins. The whitelist adapter comes last.

**The form helpers** (`wtf`) cover:

- the boolean and tri-state fields;
- the radio field's choice padding and its choice check;
- the multiple field's redisplay text;
- the Empty, Trim, Split and NicknameOrUid2Ukey filters.

Some things the engine calls are not shown or cannot be modelled. They are parameters of the model, gathered in `Services.Services`:

- Python's regular-expression engine, as a search function over named patterns;
- the Sina and Sohu lookups, which fetch over the network and use a cache;
- base-64 decoding;
- the renderers that need a web request: the image, math and mention links.

The nickname lookup of NicknameOrUid2Ukey is a function parameter too.

Modules, each in its own file:

- `Wrappers`: Option and Result.
- `Strings`: the Python string methods the code uses.
- `Json`: `json.dumps`/`json.loads` on strings.
- `Markup`: werkzeug's `escape`, `url_quote` and the HTML builder.
- `Nodes`: the tree.
- `Services`: the parameters listed above.
- `Registry`: the registry and the hooks.
- `Video`: the video resolver.
- `Tags`: the per-tag classes.
- `Parser`: `next_not_escaped_markup` and the `BBCode` class.
- `FormData`: Python values as a form sees them.
- `Filters`: the filters.
- `Fields`: the fields.

Paths in the table below are relative to the repository's `frame/platform_src` parent. For example, `frame/platform_src/contribs/bbcode/core.py`.

## Model

| member | source | states |
|---|---|---|
| Parser.Normalize | frame/platform_src/contribs/bbcode/core.py:247-253 | the normalised source holds no `\r` and no no-break space, and is no longer than the raw one |
| Parser.NormalizeIdempotent | frame/platform_src/contribs/bbcode/core.py:250-252 | normalising an already normalised source changes nothing |
| Parser.NormalizeFixes | frame/platform_src/contribs/bbcode/core.py:250-252 | text without `\r` or a no-break space is left exactly as it is |
| Parser.NextUnescaped | frame/platform_src/contribs/bbcode/core.py:200-210 | (corrected) the first delimiter not preceded by a backslash; every earlier delimiter is escaped; nothing exactly when no unescaped delimiter exists, which is a syntax error |
| Parser.ScanAgreesWhenFound | frame/platform_src/contribs/bbcode/core.py:200-210 | whenever an unescaped delimiter exists, the loop as written returns the text before it and its position, like the corrected scan |
| Parser.ScanFromAgrees | frame/platform_src/contribs/bbcode/core.py:203-207 | the as-written loop, resumed after escaped hits, stops at the first unescaped one |
| Parser.ScanFrom | frame/platform_src/contribs/bbcode/core.py:203-207 | the loop resumed at `end`: when it stops at a delimiter, that is the first unescaped one at or after `end` and the value is the text before it; when it reaches the end, no unescaped delimiter follows `end`, and the value invented is all but the last character at position -1 |
| Parser.NextNotEscapedAsWritten | frame/platform_src/contribs/bbcode/core.py:200-210 | as written, the scan stops at a position exactly when an unescaped delimiter exists, and then at the first one with the text before it |
| Parser.ScanCrashes | frame/platform_src/contribs/bbcode/core.py:200-210 | as written, a one-character value without its closing quote makes `source[end - 1]` raise IndexError |
| Parser.ScanHangs | frame/platform_src/contribs/bbcode/core.py:200-210 | as written, a value with no delimiter and a backslash before its last character loops forever |
| Parser.ScanInventsValue | frame/platform_src/contribs/bbcode/core.py:200-210 | as written, a missing delimiter gives the value `source[:-1]` at position -1 instead of a syntax error |
| Parser.ReplaceCharAround | frame/platform_src/contribs/bbcode/core.py:328 | `replace` turns the one occurrence of a character between two pieces without it into the replacement |
| Parser.BareValue | frame/platform_src/contribs/bbcode/core.py:320-330 | (corrected) a bare `=value` reads back exactly as typed, quotes and line breaks included |
| Parser.BareQuoteGainsBackslash | frame/platform_src/contribs/bbcode/core.py:328 | as written, `it's` reads back as `it\'s`; corrected, as `it's` |
| Parser.BareDoubleQuoteRejected | frame/platform_src/contribs/bbcode/core.py:328 | as written, a bare value holding `"` never decodes, so the tag stays literal text |
| Parser.DecodeDoubled | frame/platform_src/contribs/bbcode/core.py:328 | doubling every backslash of a text decodes back to the text exactly when it holds no `"` and no control character, and fails otherwise |
| Parser.BareQuoteAlwaysRejected | frame/platform_src/contribs/bbcode/core.py:328 | as written, every bare value holding `"` fails to decode, so such a tag is always literal text |
| Parser.BareAsWrittenReads | frame/platform_src/contribs/bbcode/core.py:328 | as written, a bare value without `"` or other control characters reads back with each line break turned into the two characters `\n` and each `'` preceded by a backslash |
| Parser.SkipSpace | frame/platform_src/contribs/bbcode/core.py:265-269 | `len_lstrip`: the offset moves past exactly the leading white space, and the character there is not white space |
| Parser.TagAt | frame/platform_src/contribs/bbcode/core.py:276-281 | the entry `parse_left` picks is one of the registry's entries |
| Parser.ParseHead | frame/platform_src/contribs/bbcode/core.py:271-333 | (corrected: the unescaped-delimiter scan and the bare-value reading, see "## Findings") every syntax error of an opener carries an offset of at least 1; a successful head ends just after a `]` and uses the entry the name matched |
| Parser.AfterName | frame/platform_src/contribs/bbcode/core.py:283-333 | (corrected: the unescaped-delimiter scan and the bare-value reading, see "## Findings") after the name, a successful head keeps the matched entry and ends just after a `]`; errors carry a positive offset |
| Parser.ValueHead | frame/platform_src/contribs/bbcode/core.py:287-330 | (corrected: the unescaped-delimiter scan and the bare-value reading, see "## Findings") a value that opens with either quote is read as quoted, otherwise as bare; errors carry a positive offset |
| Parser.QuotedValue | frame/platform_src/contribs/bbcode/core.py:290-319 | (corrected: the unescaped-delimiter scan and the bare-value reading, see "## Findings") a quoted value runs to the closing quote and is followed by `]`; errors carry a positive offset |
| Parser.BareHead | frame/platform_src/contribs/bbcode/core.py:320-330 | (corrected: the unescaped-delimiter scan and the bare-value reading, see "## Findings") a bare value runs to the first unescaped `]`; errors carry a positive offset |
| Parser.Closer | frame/platform_src/contribs/bbcode/core.py:348-368 | a closer succeeds only with an open tag and ends just after a `]`; with nothing open it is a syntax error at offset 1; every error offset is positive |
| Parser.CloserName | frame/platform_src/contribs/bbcode/core.py:358-368 | after `[/`, a successful closer ends just after a `]`; errors carry a positive offset |
| Parser.CloserNamesTop | frame/platform_src/contribs/bbcode/core.py:356-360 | a successful closer repeats the top entry's name, after optional space and compared in lower case |
| Parser.FindRegex | frame/platform_src/contribs/bbcode/core.py:373-377 | the `for` loop with `break` finds the first auto-link pattern in registry order (heaviest first) that matches anywhere |
| Parser.FirstRegexHit | frame/platform_src/contribs/bbcode/core.py:373-377 | the hit is a pattern that matches, and every pattern before it in the registry finds nothing |
| Parser.AppendPlains | frame/platform_src/contribs/bbcode/core.py:370-397 | the appended nodes' raw text is the input exactly; every node is a non-empty plain with a line break at most at its end, or an auto-link; a zero-width match raises; with no patterns it always succeeds and gives exactly the text cut into lines, each but the last ending in its line break; two plain nodes stand side by side only where the first ends a line |
| Parser.LinePlainsShape | frame/platform_src/contribs/bbcode/core.py:391-396 | the plains made from the lines after the last hit rejoin to the text, each a non-empty plain with a line break at most at its end |
| Parser.LinePlainsBreaks | frame/platform_src/contribs/bbcode/core.py:391-396 | every line plain but the last ends in its line break |
| Parser.AppendMatch | frame/platform_src/contribs/bbcode/core.py:376-389 | the text before a hit, split the same way, then the auto-link node for the hit: together their raw text is the text up to the end of the hit; all are literal nodes and the list ends in the auto-link |
| Parser.ScopeOfLeaf | frame/platform_src/contribs/bbcode/core.py:98-101 | a class with an empty `tag_includes` (image, ref, flash, math, video) parses its content with empty registries |
| Parser.AdmittedByNone | frame/platform_src/contribs/bbcode/core.py:98-101 | with no tag and no pattern admitted, only plain text can be inside |
| Parser.Finish | frame/platform_src/contribs/bbcode/core.py:343-346 | the class builds the node from the parsed children; a `NodeError` becomes a syntax error spanning the whole tag |
| Parser.Flush | frame/platform_src/contribs/bbcode/core.py:430-431 | pending text goes after the node list as nodes whose raw text is that text; the earlier nodes are kept as they are; no pending text adds nothing |
| Parser.PopPush | frame/platform_src/contribs/bbcode/core.py:338-366 | popping what was pushed gives the stack back |
| Parser.BBCode.constructor | frame/platform_src/contribs/bbcode/core.py:247-253 | the source is normalised, the stack is empty and nothing is parsed yet |
| Parser.BBCode.ParseRight | frame/platform_src/contribs/bbcode/core.py:348-368 | `parse_right`: the result is the closer's outcome for the old stack; a successful closer pops exactly the top entry, and a failed one leaves the stack as it was |
| Parser.BBCode.ParseLeft | frame/platform_src/contribs/bbcode/core.py:271-346 | (corrected: the unescaped-delimiter scan and the bare-value reading, see "## Findings") `parse_left`: errors carry a positive offset; a built node is a tag whose name the registry matched, spans at least `[]`, and fits the registries and the depth left; the stack is as it was unless the input ran out; with no depth left (256 open) nothing is built and the stack is unchanged |
| Parser.BBCode.Nest | frame/platform_src/contribs/bbcode/core.py:335-346 | (corrected: the unescaped-delimiter scan and the bare-value reading, see "## Findings") after the head is pushed: the stack returns to what it was below the tag unless the input ran out; a built node carries the head's name and fits the registries and the depth left |
| Parser.BBCode.Parse | frame/platform_src/contribs/bbcode/core.py:399-432 | (corrected: the unescaped-delimiter scan and the bare-value reading, see "## Findings") `parse`: a closer ends it having popped exactly the top entry; otherwise it reads to the end of its input; every node fits the registries and the depth; text without `[`, or any text when no tag is registered and none is open, comes back as its own raw text |
| Parser.BBCode.Step | frame/platform_src/contribs/bbcode/core.py:403-429 | (corrected: the unescaped-delimiter scan and the bare-value reading, see "## Findings") one round of the loop consumes at least one character; the stack changes only by the closer that ends the parse or when the input ran out; text without `[` all goes to the pending text; otherwise either the characters used (the plain text before `[` and, after a failed attempt, the characters up to the syntax error's offset) are added to the pending text unchanged and the node list is kept, or the pending text and the plain text before `[` are flushed as nodes whose raw text they are and the built tag follows them; the unread text is what follows the characters used |
| Parser.BBCode.Closing | frame/platform_src/contribs/bbcode/core.py:410-417 | a round at `[/`: a closer pops the top entry and ends the parse; a failed one leaves the stack and the node list as they were, consumes at least one character, and adds the characters it consumed, up to the error's offset, unchanged to the pending text; a closer first flushes the pending text as nodes whose raw text it is |
| Parser.BBCode.Opening | frame/platform_src/contribs/bbcode/core.py:418-428 | (corrected: the unescaped-delimiter scan and the bare-value reading, see "## Findings") a round at `[`: never closes the parse, consumes at least one character, and leaves the stack as it was unless the input ran out; a failed opener adds the characters up to the error's offset unchanged to the pending text; a built tag comes after the flushed pending text |
| Parser.BBCode.Nodes | frame/platform_src/contribs/bbcode/core.py:443-450 | (corrected: the unescaped-delimiter scan and the bare-value reading, see "## Findings") `nodes`: parsed once and cached, later calls return the same tree and call no hook; the tree is a top node, the stack is emptied, and the `after_parse` hooks run in registration order; text without `[` is kept as its raw text |
| Parser.BBCode.PlainText | frame/platform_src/contribs/bbcode/core.py:434-435 | (corrected: the unescaped-delimiter scan and the bare-value reading, see "## Findings") `text`: the plain text of the parsed tree; the source is unchanged and a failure leaves nothing cached and calls no hook |
| Parser.BBCode.Canonical | frame/platform_src/contribs/bbcode/core.py:440-441 | (corrected: the unescaped-delimiter scan and the bare-value reading, see "## Findings") `bbcode` and `__unicode__`: the canonical markup of the parsed tree; text without `[` comes back unchanged the first time it is parsed |
| Parser.BBCode.Html | frame/platform_src/contribs/bbcode/core.py:437-438 | (corrected: the scan, the bare-value reading and the ref link text, see "## Findings") `html(**kwargs)`: the tree's HTML with `br` and `resp_width` taken from the arguments given, the defaults otherwise |
| Parser.BBCode.DefaultHtml | frame/platform_src/contribs/bbcode/core.py:452-453 | (corrected: the scan, the bare-value reading and the ref link text, see "## Findings") `__html__`: the tree's HTML with line breaks on and a width of 480 |
| Nodes.Scope | frame/platform_src/contribs/bbcode/core.py:88-105 | `NODES`: an entry is kept exactly when the class allows its name (in `tag_includes` when set, not in `tag_excludes`); nothing is added |
| Nodes.ScopeKeepsOrder | frame/platform_src/contribs/bbcode/core.py:98-105 | the narrowed registry keeps the base's order |
| Nodes.ScopeIdempotent | frame/platform_src/contribs/bbcode/core.py:98-105 | narrowing twice with the same class changes nothing more |
| Nodes.NoSelfNesting | frame/platform_src/contribs/bbcode/core.py:102-104 | no name that bold, italic, color, quote, code, float or url excludes survives in the registry narrowed for its children, so none of them nests in itself |
| Nodes.PlainMarkup | frame/platform_src/contribs/bbcode/core.py:176-177 | a plain node's markup is its own text |
| Nodes.MarkupValueRoundTrip | frame/platform_src/contribs/bbcode/core.py:130-141 | a tag with a non-empty value is written `[name="…"]` children `[/name]` with the value as a JSON literal, and that literal reads back as the value |
| Nodes.TextIsLeaves | frame/platform_src/contribs/bbcode/core.py:115-122 | for a tree without image, math or video nodes, the plain text is exactly the leaves' text in document order |
| Nodes.ChildrenTextIsLeaves | frame/platform_src/contribs/bbcode/core.py:115-117 | the children's plain text is the concatenation of their leaves |
| Nodes.OffsetSibling | frame/platform_src/contribs/bbcode/core.py:68-79 | a sibling is found exactly when the shifted index is inside the parent's children, and it is the child there |
| Nodes.Filter | frame/platform_src/contribs/bbcode/core.py:47-66 | an element query always succeeds and finds only nodes of that name; a node that itself has the name is returned alone, without searching its children |
| Nodes.FilterEmptyIff | frame/platform_src/contribs/bbcode/core.py:47-66 | an element query finds nothing exactly when no node of the tree has that name |
| Nodes.FilterAllEmptyIff | frame/platform_src/contribs/bbcode/core.py:62-64 | over a list of nodes, the query finds nothing exactly when none of them contains the name |
| Nodes.NoOuterNoMatch | frame/platform_src/contribs/bbcode/core.py:56-58 | `a b` finds nothing in a tree without an `a` |
| Nodes.FalseNodeIsEmpty | frame/platform_src/contribs/bbcode/core.py:154-155 | a false node has no plain text, writes back as `[name][/name]` if a tag and as nothing otherwise |
| Nodes.FilterAllAppend | frame/platform_src/contribs/bbcode/core.py:62-64 | the query over two lists succeeds exactly when it succeeds over each, and finds the first list's results, in order, then the second's |
| Nodes.FilterAllFinds | frame/platform_src/contribs/bbcode/core.py:62-64 | over a list, a node is found exactly when the query on one of its members finds it |
| Nodes.FilterSound | frame/platform_src/contribs/bbcode/core.py:47-66 | every node an element query finds has the name and no ancestor with the name |
| Nodes.FilterComplete | frame/platform_src/contribs/bbcode/core.py:47-66 | every node with the name and no ancestor with the name is found |
| Nodes.FilterFindsOutermost | frame/platform_src/contribs/bbcode/core.py:47-66 | an element query finds exactly the outermost occurrences of the name |
| Nodes.CombinedSearchesMatch | frame/platform_src/contribs/bbcode/core.py:56-58 | on a node named `a`, `a b` finds what `b` finds on that node, and `a` finds the node itself |
| Registry.Upsert | frame/platform_src/contribs/bbcode/core.py:223-230 | `OrderedDict[name] = value`: the new entry is present, other names are kept, nothing else appears, and keys stay unique |
| Registry.UpsertAllUnique | frame/platform_src/contribs/bbcode/core.py:223-230 | a series of upserts keeps keys unique |
| Registry.UpsertAllKeeps | frame/platform_src/contribs/bbcode/core.py:223-230 | an entry no later upsert replaces by a different one stays |
| Registry.UpsertAllContains | frame/platform_src/contribs/bbcode/core.py:223-230 | an upserted entry survives when every later upsert of its name writes the same entry |
| Registry.UpsertAllWeights | frame/platform_src/contribs/bbcode/core.py:213-230 | upserting entries weighted by their names' lengths keeps every weight equal to its name's length |
| Registry.InsertDesc | frame/platform_src/contribs/bbcode/core.py:231 | one step of the stable descending sort: a permutation of the map plus the new entry |
| Registry.InsertDescSorted | frame/platform_src/contribs/bbcode/core.py:231 | inserting into a sorted map keeps it sorted |
| Registry.SortDesc | frame/platform_src/contribs/bbcode/core.py:219 | `sorted(…, reverse=True)` by weight: sorted descending and a permutation of the input |
| Registry.SortDescSorted | frame/platform_src/contribs/bbcode/core.py:231 | the sort is stable: a map already in weight order is left as it is |
| Registry.SortDescUnique | frame/platform_src/contribs/bbcode/core.py:231 | sorting keeps the keys unique |
| Registry.RegisterTag | frame/platform_src/contribs/bbcode/core.py:221-231 | a tag registration leaves the map sorted by descending weight |
| Registry.RegisterTagUnique | frame/platform_src/contribs/bbcode/core.py:221-231 | a tag registration keeps the keys unique |
| Registry.RegisterTagAliases | frame/platform_src/contribs/bbcode/core.py:224-230 | every alias is registered, at its own length, with the class of the tag |
| Registry.AliasesRegistered | frame/platform_src/contribs/bbcode/core.py:224-230 | every alias is in the upserted map at its own length |
| Registry.RegisterTagWeights | frame/platform_src/contribs/bbcode/core.py:213-231 | a tag registered at its default weight keeps every weight equal to its name's length |
| Registry.TagEntriesWeights | frame/platform_src/contribs/bbcode/core.py:213-230 | at the default weight, the entries one registration upserts (the name and its aliases) weigh their names' lengths |
| Registry.RegisterRegex | frame/platform_src/contribs/bbcode/core.py:217-220 | a regex registration leaves its map sorted, contains the new entry, and keeps keys unique |
| Registry.RegexRegistrationOrder | frame/platform_src/contribs/bbcode/core.py:217-219 | registering the heaviest pattern, then the lightest, then one in between, ends with the three ordered heaviest first |
| Registry.AutoLinkPriority | frame/platform_src/contribs/bbcode/tags.py:265-309 | after the module's three registrations the auto-links are tried URL (100), then e-mail (80), then mention (30) |
| Registry.FirstMatch | frame/platform_src/contribs/bbcode/core.py:276-278 | the entry picked is the first whose name equals the lower-cased head of the text of that entry's weight; none before it matches |
| Registry.FirstMatchIsLongest | frame/platform_src/contribs/bbcode/core.py:276-278 | in a map sorted by weight whose weights are name lengths, the first hit is the longest matching name |
| Registry.TagRegistry.constructor | frame/platform_src/contribs/bbcode/core.py:16-18 | the registries and hook table start empty |
| Registry.TagRegistry.RegisterNode | frame/platform_src/contribs/bbcode/core.py:212-233 | a regex class goes to the regex map, any other to the tag map, each re-sorted, with the other map and the hooks unchanged; aliases are present; weights stay name lengths |
| Registry.TagRegistry.RegisterHook | frame/platform_src/contribs/bbcode/core.py:235-239 | the callback is appended to that name's list, and only that list changes |
| Registry.TagRegistry.TriggerHook | frame/platform_src/contribs/bbcode/core.py:241-243 | the callbacks called are that name's list, in order; none for an unknown name |
| Registry.HooksInOrder | frame/platform_src/contribs/bbcode/core.py:235-243 | callbacks registered one after the other are triggered in that order |
| Tags.NoScript | frame/platform_src/contribs/bbcode/tags.py:73-74 | a URL whose lower-cased head is `javascript:` becomes the placeholder; any other is kept |
| Tags.NoImageScript | frame/platform_src/contribs/bbcode/tags.py:94-96 | an image also loses a `vbscript:` URL; any other is kept |
| Tags.PlaceholderHasNoScheme | frame/platform_src/contribs/bbcode/tags.py:74 | the placeholder itself carries no script scheme |
| Tags.LinkNeverScript | frame/platform_src/contribs/bbcode/tags.py:66-97 | no link, image or flash that a constructor accepts points at a `javascript:` URL, nor an image at `vbscript:` |
| Tags.UrlSchemeIgnoresCase | frame/platform_src/contribs/bbcode/tags.py:72-75 | `javaSCript:` is caught like `javascript:` |
| Tags.Build | frame/platform_src/contribs/bbcode/tags.py:66-250 | the constructors raise only `NodeError`; a built node keeps its kind, name and value, keeps its children (URL given only a value gains it as its one child); URL is rejected exactly when it has neither value nor children; image and flash exactly when they have a value or no children; ref exactly then or when its stripped text is off the whitelist; every other tag is always built; the link kept is the value or the children's markup with a `javascript:` (and for images `vbscript:`) target replaced, the stripped text for flash, and the whitelisted target for ref |
| Tags.Construct | frame/platform_src/contribs/bbcode/video.py:380-390 | `cls(value, children)`: every class but video as `Build`; a video is decided by the first adapter that does not reject its stripped text (built with that adapter's player, or failing with that adapter's exception), and is rejected exactly when every adapter rejects |
| Tags.ConstructVideo | frame/platform_src/contribs/bbcode/video.py:380-390 | a video node keeps its children; the first non-rejecting adapter decides it, its player or its exception; rejected exactly when every adapter rejects |
| Tags.ResolvedIsBuilt | frame/platform_src/contribs/bbcode/video.py:380-390 | any adapter outcome obeying the first-match rule makes the video node obey it too |
| Tags.RefTarget | frame/platform_src/contribs/bbcode/tags.py:230 | `rstrip('/') + '/'`: the target ends in exactly one `/` |
| Tags.RefTargetClean | frame/platform_src/contribs/bbcode/tags.py:230 | a target without a trailing `/` gets exactly one |
| Tags.RefTargetShape | frame/platform_src/contribs/bbcode/tags.py:223-232 | a ref is built exactly when it has no value, has children, and its stripped child text passes the whitelist; its target is that text ending in one `/` |
| Tags.RefBuildDone | frame/platform_src/contribs/bbcode/tags.py:223-230 | ref children whose stripped text is whitelisted make a link to that text |
| Tags.RefBuilt | frame/platform_src/contribs/bbcode/tags.py:227-230 | an unpadded whitelisted child text is the ref's target as it is, plus `/` |
| Tags.RefQueryPasses | frame/platform_src/contribs/bbcode/tags.py:218-221 | the whitelist lets anything at all follow `?` |
| Tags.RefMarkupPasses | frame/platform_src/contribs/bbcode/tags.py:218-235 | as written, a whitelisted ref whose query carries markup writes that markup unescaped into the page |
| Tags.RefScriptPasses | frame/platform_src/contribs/bbcode/tags.py:218-221 | `?<script>alert(1)</script>` is such a query |
| Tags.RefHtmlAsWrittenText | frame/platform_src/contribs/bbcode/tags.py:234-235 | as written, the link text is the raw target |
| Tags.RefHtmlEscapesText | frame/platform_src/contribs/bbcode/tags.py:234-235 | corrected, the link text is the escaped target, in which no `<` can start markup |
| Tags.PrevDisplay | frame/platform_src/contribs/bbcode/core.py:81-82 | a plain child has a previous sibling exactly when it is not the first |
| Tags.PlainHtml | frame/platform_src/contribs/bbcode/core.py:168-174 | a plain node is its escaped text, unless `br` is set, it ends in a line break and no block precedes it, and then its final line break becomes `<br />` and a line break |
| Tags.AppendLi | frame/platform_src/contribs/bbcode/tags.py:23-27 | the gathered markup, stripped, becomes an item unless blank; the buffer empties |
| Tags.AppendLiItems | frame/platform_src/contribs/bbcode/tags.py:23-27 | `append_li` keeps every item an `<li>` around trimmed, non-empty markup |
| Tags.ListAddItems | frame/platform_src/contribs/bbcode/tags.py:32-41 | adding a child's markup keeps every closed item an item |
| Tags.ListFoldItems | frame/platform_src/contribs/bbcode/tags.py:29-41 | every item the fold closes is an `<li>` around trimmed, non-empty markup |
| Tags.ListItemsAreItems | frame/platform_src/contribs/bbcode/tags.py:29-44 | all items, the leftover included, are `<li>` around trimmed, non-empty markup |
| Tags.ListFoldBound | frame/platform_src/contribs/bbcode/tags.py:29-41 | each closed item and the pending markup holds a true child |
| Tags.ListItemsBound | frame/platform_src/contribs/bbcode/tags.py:29-44 | a list has at most one item per true child: false children never make one |
| Tags.ListHtml | frame/platform_src/contribs/bbcode/tags.py:19-46 | the loop builds the list element over exactly the items of the fold |
| Tags.TableCells | frame/platform_src/contribs/bbcode/tags.py:196-200 | one cell per child |
| Tags.TableHtml | frame/platform_src/contribs/bbcode/tags.py:194-201 | the loop builds the table element over one cell per child, in order |
| Tags.ColorStyle | frame/platform_src/contribs/bbcode/tags.py:157-164 | the stripped value (default `#000000`) gives `color: X;` when it is letters or `#` and up to six hex digits, else the placeholder |
| Tags.ColorStyleStaysQuoted | frame/platform_src/contribs/bbcode/tags.py:152-166 | no colour can close the `style` attribute it is written into |
| Tags.StyleOf | frame/platform_src/contribs/bbcode/tags.py:157-164 | an unpadded value is checked as it is |
| Tags.ColorNameExample | frame/platform_src/contribs/bbcode/tags.py:152-164 | example: `red` passes |
| Tags.HexColorExample | frame/platform_src/contribs/bbcode/tags.py:152-164 | example: `#aaa` passes |
| Tags.ColorInjectionExample | frame/platform_src/contribs/bbcode/tags.py:152-164 | example: a value smuggling a second declaration is replaced |
| Tags.FloatAcceptsLeftPrefix | frame/platform_src/contribs/bbcode/tags.py:396-408 | `^left\|right$` under `match` accepts any direction starting with `left`, whatever follows |
| Tags.FloatDefaults | frame/platform_src/contribs/bbcode/tags.py:401-408 | example: with no value the node floats left; `center` is replaced by the placeholder |
| Tags.FloatClass | frame/platform_src/contribs/bbcode/tags.py:401-408 | the class is the placeholder or `bbcode-float-` and a direction that passes the pattern; with no value it is `bbcode-float-left` |
| Tags.EmptyRendersNothing | frame/platform_src/contribs/bbcode/tags.py:129-133 | bold, italic, colour, indent and float nodes without children render as nothing |
| Tags.BreaksIgnored | frame/platform_src/contribs/bbcode/tags.py:185-186 | code, indent and float render the same whatever `br` is, as they always pass `br=False` on |
| Tags.ListFoldStep | frame/platform_src/contribs/bbcode/tags.py:29-41 | in the list loop, a false child changes nothing; a child that ends an item empties the open item and adds at most one item, keeping the earlier ones; any other child keeps the items and extends the open one |
| Tags.ChildrenHtmlJoins | frame/platform_src/contribs/bbcode/core.py:107-109 | `children_html` is the children's HTML, one after the other |
| Tags.KwOptions | frame/platform_src/contribs/bbcode/tags.py:105 | the options read `br` and `resp_width` from the arguments, defaulting to line breaks on and width 480 |
| Tags.DefaultOptionsAre | frame/platform_src/contribs/bbcode/tags.py:253 | with no arguments, line breaks are on and the width is 480 |
| Tags.FlashIsOneElement | frame/platform_src/contribs/bbcode/tags.py:252-262 | whatever its URL and width, a flash node renders as one `<embed>` element and its closing tag, which the URL cannot break out of |
| Tags.FlashSize | frame/platform_src/contribs/bbcode/tags.py:252-262 | the flash markup is the embed attributes of `render_embed` with the quoted URL as source, the width, and five sixths of the width rounded down as height |
| Tags.RefHtmlIsOneElement | frame/platform_src/contribs/bbcode/tags.py:234-235 | (corrected) a ref link is one `<a>` element whatever its target |
| Tags.RefHtmlAsWrittenOpens | frame/platform_src/contribs/bbcode/tags.py:234-235 | as written, the ref link opens one tag more for every `<` in its target |
| Tags.AnchorOpens | frame/platform_src/contribs/bbcode/tags.py:77-81 | an `<a href=…>` link opens two tags plus those its inside opens |
| Tags.RegexHtmlIsOneLink | frame/platform_src/contribs/bbcode/tags.py:276-318 | an auto-link renders as one `<a>` element; a mention opens only what its profile URL holds besides |
| Tags.UrlIsOneLink | frame/platform_src/contribs/bbcode/tags.py:77-81 | a URL node renders as one `<a>` element around its children's HTML, whose target cannot open a tag |
| Video.PatternList | frame/platform_src/contribs/bbcode/video.py:65-67 | a single pattern is searched as a one-element list |
| Video.PatternsOf | frame/platform_src/contribs/bbcode/video.py:102-353 | each site's `_regex` lists exactly that site's patterns, in source order |
| Video.Template | frame/platform_src/contribs/bbcode/video.py:102-354 | every site has a non-empty template |
| Video.AdapterOf | frame/platform_src/contribs/bbcode/video.py:102-354 | every shipped adapter is for its site and has both patterns and a template |
| Video.Adapters | frame/platform_src/contribs/bbcode/video.py:363-378 | fourteen adapters, the whitelist adapter last |
| Video.WhitelistSearch | frame/platform_src/contribs/bbcode/video.py:348-353 | a whitelist match starts at 0 and captures its span as `url` |
| Video.FirstHit | frame/platform_src/contribs/bbcode/video.py:89-99 | the hit is the first pattern that matches, every earlier one missed, with that pattern's groups |
| Video.FirstHitAt | frame/platform_src/contribs/bbcode/video.py:89-99 | a match whose predecessors all missed is the first hit |
| Video.NeteaseType | frame/platform_src/contribs/bbcode/video.py:290-297 | a type is mapped exactly when it is one of the six in the table |
| Video.Format | frame/platform_src/contribs/bbcode/video.py:96 | `template % kw` fails exactly when a key of the template is missing |
| Video.AdapterOutcome | frame/platform_src/contribs/bbcode/video.py:86-99 | `init`: a player in the adapter's style, `URLNotMatch`, or an exception; NotImplementedError exactly when patterns or template are unset |
| Video.AdapterInit | frame/platform_src/contribs/bbcode/video.py:62-75 | the pattern loop with early exit computes the adapter's outcome |
| Video.Resolve | frame/platform_src/contribs/bbcode/video.py:380-390 | the first adapter not raising `URLNotMatch` decides; the URL is rejected (a `NodeError`) exactly when every adapter rejects it |
| Video.UnsetAdapterRaises | frame/platform_src/contribs/bbcode/video.py:63-64 | an adapter without patterns or template raises instead of rejecting |
| Video.BilibiliPage | frame/platform_src/contribs/bbcode/video.py:340-343 | the page defaults to 1 and a captured page is kept |
| Video.NeteaseTypes | frame/platform_src/contribs/bbcode/video.py:299-308 | a known video type becomes its `(pltype, topicid)`; any other rejects the URL; the handler never raises |
| Video.W56PicDecodesOnlyWithoutId | frame/platform_src/contribs/bbcode/video.py:156-159 | the base-64 id is decoded only when no `id` was captured |
| Video.KwHandler | frame/platform_src/contribs/bbcode/video.py:156-343 | a handler that succeeds provides the groups its site fills in (`id` for 56 pictures and Sohu, `vid` and `uid` for Sina, `pltype` for Netease, `page` for Bilibili) and keeps every captured group it does not rewrite; only Sina, Sohu and Netease reject; only W56Pic, Sina and Sohu raise; every other site's groups pass unchanged |
| Video.Height | frame/platform_src/contribs/bbcode/video.py:20-22 | the height is five sixths of the width, rounded down as Python 2 does |
| Video.PlayerSize | frame/platform_src/contribs/bbcode/video.py:20-38 | the player's attributes start with the source and end with the width and the height, five sixths of the width rounded down |
| Video.DefaultPlayerHeight | frame/platform_src/contribs/bbcode/video.py:21-22 | example: the default width 480 gives the height 400 |
| Video.PlayerIsOneElement | frame/platform_src/contribs/bbcode/video.py:20-38 | an iframe player is one element with its closing tag, an embed one empty element, whatever the source |
| Video.WhitelistMatchesWhole | frame/platform_src/contribs/bbcode/video.py:348-353 | an `http://` URL on an allowed host with a one-line path is matched whole |
| Video.WhitelistPassesThrough | frame/platform_src/contribs/bbcode/video.py:346-354 | the whitelist adapter passes an allowed URL through unchanged as an embed source |
| Json.Encode | frame/platform_src/contribs/bbcode/core.py:135 | `json.dumps` of a string is a quoted literal |
| Json.EncodeBodyShape | frame/platform_src/contribs/bbcode/core.py:135 | the literal is printable ASCII with no unescaped `"` |
| Json.DecodeEncode | frame/platform_src/contribs/bbcode/core.py:302 | `json.loads` reads back what `json.dumps` wrote |
| Json.Hex4RoundTrip | frame/platform_src/contribs/bbcode/core.py:135 | a `\uXXXX` escape reads back as its code unit |
| Markup.Escape | frame/platform_src/contribs/bbcode/core.py:169 | escaped text holds no `<` or `>` (nor `"` when quoting); text without special characters is unchanged; a final line break survives |
| Markup.EscapeKeeps | frame/platform_src/contribs/bbcode/core.py:169 | escaping introduces no character outside the input's and the entity letters |
| Markup.UrlQuote | frame/platform_src/contribs/bbcode/tags.py:80 | every character of a quoted URL is unreserved, in the safe set, or part of `%XX` |
| Markup.UrlAttributeIsInert | frame/platform_src/contribs/bbcode/tags.py:79-81 | a quoted and escaped URL cannot close its attribute, open a tag, or hold white space |
| Markup.ElementOpens | frame/platform_src/contribs/bbcode/tags.py:234-235 | an element opens two tags plus those its children open, its attributes none |
| Strings.Strip | frame/platform_src/wtf/filters.py:28 | `strip()` leaves no white space at either end, loses no other character, and leaves unpadded text as it is |
| Strings.StripSlice | frame/platform_src/wtf/filters.py:28 | `strip()` is the slice between the maximal leading and trailing white-space runs, and `''` for all-space text |
| Strings.RStripOfSuffix | frame/platform_src/wtf/filters.py:28 | `rstrip()` of a suffix starting at a non-space character cuts exactly the whole text's trailing white space |
| Strings.StripKeeps | frame/platform_src/wtf/filters.py:28 | stripping removes only white space |
| Strings.SplitOn | frame/platform_src/contribs/bbcode/core.py:391 | `split('\n')` gives at least one piece, none holding the separator |
| Strings.JoinSplitOn | frame/platform_src/contribs/bbcode/core.py:391 | the pieces rejoin to the text |
| Strings.SplitBy | frame/platform_src/wtf/filters.py:98 | `split(sep)` gives at least one piece |
| Strings.JoinSplitBy | frame/platform_src/wtf/filters.py:98 | joining the pieces by the separator gives the text back |
| Strings.SplitJoinBy | frame/platform_src/wtf/filters.py:98 | splitting pieces joined by a separator whose characters they avoid gives the pieces back |
| Strings.SplitSpace | frame/platform_src/wtf/filters.py:98 | `split()` gives non-empty pieces without white space |
| Strings.FindFrom | frame/platform_src/contribs/bbcode/core.py:404 | `find` gives the first position of the character at or after the start position, or -1 exactly when there is none |
| Strings.LowerAt | frame/platform_src/contribs/bbcode/core.py:277 | lower-casing keeps the length and lowers each character on its own |
| Markup.Utf8 | frame/platform_src/contribs/bbcode/tags.py:80 | a character encodes as one to four bytes, a single byte exactly for ASCII, which is the character itself |
| Strings.SplitJoinSpace | frame/platform_src/wtf/filters.py:98 | splitting words joined by single spaces gives the words back |
| FormData.DecimalShape | frame/platform_src/wtf/fields.py:152 | `unicode()` of an integer is non-empty, starts with a minus or a digit, has no upper case, and is `0` or `1` exactly for 0 or 1 |
| FormData.EqualSymmetric | frame/platform_src/wtf/fields.py:206 | Python `==` on form values is reflexive and symmetric |
| Filters.Empty | frame/platform_src/wtf/filters.py:20-22 | a false datum gives the default, a true one itself; the result is true exactly when the datum or the default is |
| Filters.EmptyIdempotent | frame/platform_src/wtf/filters.py:20-22 | filtering twice with the same default changes nothing more |
| Filters.Trim | frame/platform_src/wtf/filters.py:27-29 | a false datum passes; a true string becomes exactly `data.strip()`: the slice between its leading and its trailing white space, or `''` when it is all white space; any other true datum raises |
| Filters.TrimIdempotent | frame/platform_src/wtf/filters.py:27-29 | trimming a trimmed datum gives it back |
| Filters.Split | frame/platform_src/wtf/filters.py:91-99 | a string (a list's first item, `''` for an empty list) becomes a list of strings, non-empty and without white space when `sep` is None; an empty separator raises; anything else passes unchanged |
| Filters.SplitThenJoin | frame/platform_src/wtf/filters.py:97-98 | joining the pieces by the separator gives the string back |
| Filters.JoinThenSplit | frame/platform_src/wtf/filters.py:97-98 | splitting text joined from pieces that avoid the separator's characters gives the pieces back |
| Filters.JoinThenSplitSpace | frame/platform_src/wtf/filters.py:97-98 | splitting on white space recovers words joined by single spaces |
| Filters.SplitList | frame/platform_src/wtf/filters.py:92-96 | a list is split through its first item, an empty one through `''` |
| Filters.Base36 | frame/platform_src/wtf/filters.py:61 | a positive number's base-36 digits are non-empty lower-case letters and digits |
| Filters.Base36RoundTrip | frame/platform_src/wtf/filters.py:61 | decoding the digits gives the number back; below 36^m they number at most m |
| Filters.LeftPad | frame/platform_src/wtf/filters.py:61 | `rjust`: the text at the end, padded on the left up to the width |
| Filters.UidKey | frame/platform_src/wtf/filters.py:57-61 | a user id from 1 to 36^6 - 1 becomes a six-character key that decodes to it |
| Filters.NicknameOrUid2Ukey | frame/platform_src/wtf/filters.py:33-63 | a false datum and a key pass unchanged; a true non-string raises; a true non-key string the nickname lookup claims becomes the looked-up ukey, ahead of any uid reading; an unclaimed string of digits whose value is in range becomes the base-36 key of that uid; any other string passes unchanged |
| Filters.LookupNotAsked | frame/platform_src/wtf/filters.py:44-45 | a false datum, a non-string or a key never reaches the lookup |
| Filters.UidBecomesKey | frame/platform_src/wtf/filters.py:57-61 | a user id in range that no nickname claims becomes a six-character key that converts to itself |
| Filters.UidOutOfRange | frame/platform_src/wtf/filters.py:57-63 | a user id out of range that no nickname claims is left as it is |
| Fields.BooleanText | frame/platform_src/wtf/fields.py:150-154 | `_value`: `y` without raw data, a string's own text otherwise |
| Fields.BooleanOf | frame/platform_src/wtf/fields.py:140-148 | no value is false; a string is true exactly when it is non-empty and not one of the false words, whatever its case; any other value is its Python truth |
| Fields.BooleanField.ProcessFormdata | frame/platform_src/wtf/fields.py:139-148 | the field's data becomes the boolean reading of the submitted values |
| Fields.BooleanField.DisplayText | frame/platform_src/wtf/fields.py:150-154 | `y` without raw data, a string's own text otherwise |
| Fields.BooleanIgnoresCase | frame/platform_src/wtf/fields.py:140-148 | example: `FALSE` and `No` are false, `off` is true, no value and `''` are false |
| Fields.BooleanRedisplay | frame/platform_src/wtf/fields.py:139-154 | submitting the shown text again gives the same data for a string, boolean or integer |
| Fields.NullBooleanField.ProcessFormdata | frame/platform_src/wtf/fields.py:160-170 | the field's data becomes the tri-state reading of the submitted values |
| Fields.NullBooleanOf | frame/platform_src/wtf/fields.py:160-170 | true exactly for the true words, false exactly for the false words, whatever the case; unknown otherwise |
| Fields.NullBooleanField.DisplayText | frame/platform_src/wtf/fields.py:150-154 | the inherited `_value` |
| Fields.NullBooleanIgnoresCase | frame/platform_src/wtf/fields.py:162-168 | example: `YES` is true and `False` false |
| Fields.NullBooleanUnknown | frame/platform_src/wtf/fields.py:160-170 | example: `maybe`, `''`, `None` and no value are unknown |
| Fields.NullBooleanAgrees | frame/platform_src/wtf/fields.py:139-170 | where the tri-state field decides, it agrees with the boolean field |
| Fields.Justify | frame/platform_src/wtf/fields.py:181-186 | a choice is padded with `None` up to `num` entries; a longer one is kept |
| Fields.Justified | frame/platform_src/wtf/fields.py:177-187 | every choice is justified, in order, none lost |
| Fields.RadioField.ChoicesJust | frame/platform_src/wtf/fields.py:177-187 | the nested loops replace the choices by their justified copies |
| Fields.JustifiedIdempotent | frame/platform_src/wtf/fields.py:177-187 | justifying twice changes nothing more |
| Fields.JustifiedTriples | frame/platform_src/wtf/fields.py:177-187 | after the default padding, short choices are triples whose value is the original first entry, or `None` |
| Fields.RadioField.PreValidate | frame/platform_src/wtf/fields.py:204-209 | the loop with early exit computes the choice check |
| Fields.ChoiceCheckMeaning | frame/platform_src/wtf/fields.py:204-209 | over triples, the data is valid exactly when it equals some choice's value; otherwise `Not a valid choice` |
| Fields.ChoiceCheck | frame/platform_src/wtf/fields.py:204-209 | accepts exactly when some choice's value equals the data; over triples, `Not a valid choice` exactly when none does; a choice of another length raises the unpacking error |
| Fields.ValidateAfterJustify | frame/platform_src/wtf/fields.py:189-209 | after `iter_choices` pads the choices, the data is accepted exactly when it equals some original choice's value |
| Fields.ByteText | frame/platform_src/wtf/fields.py:63 | `str()` gives the text, all ASCII, when it succeeds; a failure is an encoding error |
| Fields.MultipleText | frame/platform_src/wtf/fields.py:57-63 | a list of strings gives exactly their separator-joined text, and a list with a non-string raises at a non-string item; a true non-list gives its `str()`; a false non-list gives `''`; a string gives itself |
| Fields.MultipleField.ProcessFormdata | frame/platform_src/wtf/fields.py:54-55 | the data becomes the submitted list as it comes |
| Fields.MultipleField.DisplayText | frame/platform_src/wtf/fields.py:57-63 | a list of strings shows exactly their separator-joined text, and a list with a non-string raises at a non-string item; a true non-list shows its `str()`; a false non-list shows `''` |
| Fields.DisplaySplitsBack | frame/platform_src/wtf/fields.py:57-59 | the shown text of submitted strings, split again by the separator with `Split`, gives them back |

## Left out

- Python's regular-expression engine is a parameter: the auto-link and video-site patterns are searched through `Services.search`. The ref whitelist, the colour and float patterns and the whitelist adapter's pattern are written out.
- The Sina and Sohu handlers fetch over the network and cache in Redis. They are oracles returning an optional result.
- The following renderers depend on a request, an image service or `url_for`, so they are oracles: ImageNode.html, MathMode.html and AtNode.html in an application.
- `math_hook` (Redis and the formula API) is not part of this model.
- The SHA-1 hashing, `unescape` and user-agent checks of MathMode are not part of this model.
- werkzeug's HTML builder writes attributes in hash order. The model writes them in a fixed order, so attribute order is not modelled.
- `BBCode.filter` parses its selector with `cssselect`, which is not part of this model. `Nodes.Filter` takes the parsed selector.
- `smart_unicode`, `weakref.proxy` and `__str__`/`__repr__` are not modelled. Sibling lookup works on the parent's child list.
- Strings.Lower: lower-cases ASCII plus the two non-ASCII characters that lower to ASCII letters (U+0130, U+212A). That is exact wherever a lowered text is compared with an ASCII word, as everywhere here, but it is not Python's full case map.
- Parser.BBCode.Parse: when the input runs out it states only that the offset reaches the end. The source's offset then overshoots by 2 (`len + 1` from the `find`, then 1 from the syntax error on `''`). Callers only slice with it.
- Parser.BBCode.Parse: does not state what the stack holds after the input ran out inside a nested tag. `nodes` empties it in any case.
- FormData.Text: `repr` of a list item is written `u'…'` without Python's escaping of quotes, backslashes and non-ASCII characters.
- FormData.Equal: two opaque objects are equal when their truthiness and text agree. Python would call their own `__eq__`.
- Filters.NicknameOrUid2Ukey: `isdigit` and `int` are modelled for ASCII digits only. Python 2's `unicode.isdigit` also accepts other digit characters.
- Filters.NicknameOrUid2Ukey: the community API's own exceptions are not modelled.
- Filters.Base36: `base36_encode` is not part of this model. It is taken to write lower-case digits, the most significant first.
- The IP and RegexpSub filters are not part of this model. They rely on IpRange and `re.sub`.
- MultipleField.validate binds sub-fields through wtforms and is not part of this model.
- CaptchaField and ThresholdField depend on Redis, the request and captcha validators. They are not part of this model.
- The fields' constructors and wtforms' `process`, which fills `raw_data`, are not modelled. `rawData` is a field the model reads.
- RadioField's `coerce` is taken to be the identity in `iter_choices`, so `ValidateAfterJustify` compares the data with the choice values directly.

- Parser.BBCode.Parse, Parser.BBCode.ParseLeft, Parser.BBCode.Nest, Parser.BBCode.Step, Parser.BBCode.Opening, Parser.BBCode.Nodes, Parser.BBCode.PlainText, Parser.BBCode.Canonical, Parser.ParseHead, Parser.AfterName, Parser.ValueHead, Parser.QuotedValue, Parser.BareHead: model the program with the first and third corrections of "## Findings" applied (`NextUnescaped`, `BareValue`). Where the code as written differs they do not follow it: `[url="x` raises IndexError in the source and stays literal text here, and `[url=it's]x[/url]` has the value `it\'s` in the source and `it's` here.
- Parser.BBCode.Html, Parser.BBCode.DefaultHtml and Tags.Html: also render refs with the second correction (`RefHtml`), so `[ref]/article/1?<b>x[/ref]` writes an escaped `&lt;b&gt;` where the source writes a raw `<b>`.

## Findings

| source | as written | input that shows it | evidently intended | confidence | as-written member | corrected member |
|---|---|---|---|---|---|---|
| frame/platform_src/contribs/bbcode/core.py:200-210 | `next_not_escaped_markup` has three faults when no unescaped delimiter exists: `find` returns -1 and the function returns `(source[:-1], -1)`; `source[end - 1]` raises IndexError; or the loop never ends | `]abc` searched for `"`; `x` searched for `"`; `a\b` searched for `"` | raise `BBCodeSyntaxError` whenever no unescaped delimiter exists | not executed | `Parser.ScanInventsValue`, `Parser.ScanCrashes`, `Parser.ScanHangs` | `Parser.NextUnescaped` |
| frame/platform_src/contribs/bbcode/tags.py:234-235 | RefNode.html passes the target as the link text, and the HTML builder writes it unescaped, while the whitelist lets anything follow `?` | `[ref]/article/1?<script>alert(1)</script>[/ref]` | escape the link text, as every other renderer does | not executed | `Tags.RefMarkupPasses`, `Tags.RefHtmlAsWrittenOpens` | `Tags.RefHtmlEscapesText`, `Tags.RefHtmlIsOneElement` |
| frame/platform_src/contribs/bbcode/core.py:328 | a bare value's `"` is escaped before backslashes are doubled, so the escape itself is doubled and `json.loads` fails; `'` gains a backslash it keeps | `[url=it's]…` reads `it\'s`; `[url=a"b]…` stays literal | read the bare value as typed | not executed | `Parser.BareQuoteGainsBackslash`, `Parser.BareDoubleQuoteRejected`, `Parser.BareQuoteAlwaysRejected`, `Parser.BareAsWrittenReads` | `Parser.BareValue` |
