# Image scraper core, modelled in Dafny

This project models the deterministic core of a web-page image scraper. The scraper is
an Express back end plus a browser front end. The model has four parts:

- **Proxy assigner** (`Proxies`, proxy_manager.dfy). A class with the proxy pool, a
  round-robin cursor, a per-domain sticky map and the sticky TTL. Its methods are
  pool parsing, picking with cooldowns, sticky lookup and rotation, and success and
  failure reports. Proxy records are values in a `seq` field that the methods
  reassign. A sticky entry stores the index of its pool record; the pool array is
  never replaced, so that index denotes the same record the source shares by
  reference.
- **Identity pool** (`Identities`, identity_pool.dfy). The three fixed browser profiles
  and the counter that hands them out in round-robin order.
- **Static image collection** (`StaticScrape`, static_scrape.dfy). The `/api/scrape`
  handler with these steps:
  - request validation;
  - choosing `img` sources, including lazy attributes and srcset values;
  - the `url(...)` regex over `style` attributes;
  - insertion-ordered de-duplication;
  - inline SVG records;
  - remote records with their default metadata and extension fallback;
  - `resolveUrl` and `getFileName`.
- **Client rules** (`ClientText`, client_text.dfy, and `ClientState`, client_state.dfy).
  These are the DOM-free rules of the front end:
  - `truncateText` and `tabLabelFromUrl`;
  - `resolveClientUrl`;
  - the HTML escaping, truncation and line handling of `formatAndHighlightHTML`;
  - the history list (`saveHistory`/`removeHistory`);
  - the tab strip (`switchTab`, `createOrReuseTab`, `closeTab`);
  - the persisted-tabs image cap;
  - the row-visibility filter.

JavaScript string helpers shared by all parts live in js_text.dfy (`JsText`). Examples
are `split`, `trim`, `startsWith`, `includes`, ASCII case folding and decimal
rendering. js_text.dfy also holds the `Option` type (`Maybe`) and a record of URL
functions (`UrlApis`). That record stands for WHATWG `new URL`: `protocolOf(base)` is
`new URL(base).protocol`, and `resolve(src, base)` is `new URL(src, base).href`, with
None where the constructor throws.

Code that changes state step by step is modelled imperatively:

- `ProxyManager`, `IdentityPool`, `History` and `TabStrip` are classes whose methods
  have `modifies` clauses.
- The method's loop is kept for the proxy scan, the lazy-candidate `for ... break`,
  the `while (regex.exec(...))` loop, the `Set` filling, the record pushes, the
  per-row visibility loop and the per-line highlighting loop.
- Each such method is proved equal to a specification function.
- The properties the source promises are then proved about those functions as lemmas.

The foreign parts of the system are parameters:

- the cheerio document, as a sequence of elements;
- URL parsing;
- `decodeURIComponent`, as a function that may fail;
- the page fetch, the image probe and the SSRF guard `isSafePublicUrl`;
- `toLowerCase`;
- the syntax-highlighting regex chain;
- the clock, as a `now` argument;
- random tab ids, as a `freshId` argument.

Source functions that only compute a value are Dafny functions named after them. Each
one's properties are stated by the lemmas in the table below:

- `parseProxyPool` is `Proxies.ParseProxyPool` (see ParseProxyPoolSpec).
- The choice of `getNextIdentity` is `Identities.IdentityAt` (see IdentityPeriodic,
  ThreeConsecutiveCoverPool and FirstFourCalls).
- `resolveUrl` is `StaticScrape.ResolveUrl` (see ProtocolRelative).
- The lazy-aware source choice is `StaticScrape.ImgSource`.
- `urlRegex.exec` is `StaticScrape.MatchAt` and `StaticScrape.ExecFrom`, and the
  captures of one style attribute are `StaticScrape.StyleMatches`.
- The records and the response are `StaticScrape.InlineRecord`,
  `StaticScrape.RemoteRecord` and `StaticScrape.ScrapeResponse` (see SvgRecordsSpec,
  RemoteRecordsSpec and ScrapeSpec).
- `tabLabelFromUrl` is `ClientText.TabLabelFromUrl`.
- The entity escaping is `ClientText.EscapeHtml` (see EscapeHtmlSpec).
- The replace-and-trim chain is `ClientText.Formatted`, made of `BreakBetweenTags` and
  `SpaceBeforeSelfClose`.
- The displayed lines are `ClientText.Listing` and `ClientText.DisplayLines` (see
  DisplayLinesSpec).
- `saveHistory` and `removeHistory` compute `ClientState.Saved` and
  `ClientState.Removed` (see SavedSpec and RemovedMember).
- `createOrReuseTab` is `ClientState.CreateOrReuse`, with `OpenNew` for the branch
  that opens a tab (see CreateOrReuseSpec and OpenNewSpec).
- `closeTab` is `ClientState.Close` (see CloseSpec).

## Model

| member | source | states |
|---|---|---|
| Proxies.TokensSpec | proxyManager.js:13-16 | The tokens are exactly the non-empty trimmed comma-separated pieces of the pool string (both directions), and every token is already trimmed. |
| Proxies.ParseEntryFields | proxyManager.js:17-35 | A token that parses yields a record that is healthy, has lastFailureAt 0 and cooldown 60000, keeps the raw token and is named `p{idx+1}`. |
| Proxies.ParseFromOrigins | proxyManager.js:17-37 | The i-th parsed record comes from the token at a strictly increasing position o[i], and every token that parses contributes a record (failed tokens are dropped, not renumbered). |
| Proxies.ParsedTokensSpec | proxyManager.js:17-37 | Over a token list: each record has the defaults, its raw token and the id of its token's position, and the ids are pairwise distinct. |
| Proxies.ParseProxyPoolSpec | proxyManager.js:12-38 | For the whole pool string: each record has the defaults and is named after its position among the non-empty tokens, so unparseable tokens leave gaps. Ids are distinct, every parseable token is represented, and each raw value is a trimmed non-empty token. |
| Proxies.ProxyIdInjective | proxyManager.js:24 | Different positions give different `p{k}` ids. |
| Proxies.ValidPool | proxyManager.js:5 | A freshly parsed pool satisfies the manager's invariant: cooldowns at the default, distinct ids. |
| Proxies.UpdateKeepsInvariant | proxyManager.js:59 | Replacing a record by one with the same id and an admissible cooldown keeps the pool invariant. |
| Proxies.ScanFromSpec | proxyManager.js:48-62 | The scan from offset `a` answers the first offset at or after `a` (cyclically from the start) whose proxy is eligible, and None exactly when none from `a` on is eligible. |
| Proxies.FirstEligibleNoneIff | proxyManager.js:48-64 | A full cycle finds no proxy exactly when no proxy of the pool is healthy or out of cooldown. |
| Proxies.OffsetStep | proxyManager.js:50 | Advancing the cursor by one modulo the pool size moves the cyclic offset on by one. |
| Proxies.PickSpec | proxyManager.js:44-65 | After a pick the cursor lies in the pool and only the chosen record can change. If any proxy is eligible, the chosen one is the first eligible one at or after the start, healthy afterwards. If none is, the start proxy is answered, left unhealthy, and the cursor ends back at the start. |
| Proxies.ProxyManager.PickNextProxy | proxyManager.js:44-65 | An empty pool answers None and changes nothing. Otherwise the loop's outcome is the pick relation PickSpec characterises; the sticky map and TTL are untouched and the invariant holds. |
| Proxies.ProxyManager.GetProxyForDomain | proxyManager.js:67-81 | Empty pool: None, nothing changes. A live entry (expiry strictly after `now`) answers its proxy with no state change. Otherwise a fresh pick is stored for that domain with expiry `now + stickyTtlMs`, and no other domain's entry changes. |
| Proxies.ProxyManager.RotateProxyForDomain | proxyManager.js:83-93 | Empty pool: None, nothing changes. Otherwise it always picks afresh and overwrites only this domain's entry with a fresh expiry. |
| Proxies.FindById | proxyManager.js:96 | `find` answers the first record with the id; None exactly when no record has it. |
| Proxies.ProxyManager.ReportSuccess | proxyManager.js:95-100 | Only the health flag of the matching record is set (the cooldown is not reset); an unknown id changes nothing; cursor and sticky map untouched. |
| Proxies.Failed | proxyManager.js:104-110 | The failed record is unhealthy and stamped with `now`. Its cooldown is doubled up to 300000 when the reason matches timeout/blocked/429/captcha ignoring case, and unchanged otherwise. All other fields are kept. |
| Proxies.ProxyManager.ReportFailure | proxyManager.js:102-112 | The matching record becomes `Failed(record, reason, now)`; an unknown id changes nothing; cursor and sticky map untouched. |
| Proxies.FailureCooldownBounds | proxyManager.js:109 | A failure report never shortens a cooldown and never lifts it past five minutes. |
| Proxies.RepeatedBlockLengthensCooldown | proxyManager.js:108-109 | Two blocking failures in a row lengthen the cooldown strictly until it reaches the ceiling, and never beyond. |
| Proxies.ProxyManager.constructor | proxyManager.js:4-10 | The pool is the parsed `PROXY_POOL`, the cursor 0, the sticky map empty and the TTL the given value; the invariant holds. |
| Identities.PoolIdsDistinct | identityPool.js:3-40 | The three profile ids are pairwise distinct. |
| Identities.IdentityPeriodic | identityPool.js:44-48 | The handed-out sequence repeats with period three. |
| Identities.ThreeConsecutiveCoverPool | identityPool.js:3-48 | Any three consecutive calls hand out all three profiles, each exactly once. |
| Identities.IdentityPool.GetNextIdentity | identityPool.js:44-48 | Returns the pool member the counter selects and advances the counter by exactly one. |
| Identities.IdentityPool.constructor | identityPool.js:42 | The counter starts at 0. |
| Identities.FirstFourCalls | identityPool.js:42-48 | From a fresh counter, calls return id1, id2, id3 and then id1's profile again. |
| StaticScrape.ProtocolRelative | index.js:57-67 | A `//` source resolves exactly when the base parses, and then to the base's protocol followed by the source. |
| StaticScrape.Accept | index.js:116-118 | A kept reference is the resolved URL, is non-empty and starts with neither `data:` nor `javascript:`; a dropped one failed to resolve, resolved to the empty string or starts with one of them. |
| StaticScrape.FirstPresentSpec | index.js:96-108 | The chosen lazy value is that of the first truthy attribute in the list order; None exactly when no listed attribute is truthy. |
| StaticScrape.SrcsetTokenSpec | index.js:110-112 | The srcset token is a prefix of the trimmed first comma-piece, ends at a space or the piece's end, and holds no comma or space. |
| StaticScrape.ImgSource | index.js:94-113 | A chosen source is never empty. |
| StaticScrape.ImgSourceLazyOnlyAsFallback | index.js:94-112 | A truthy `src` always wins. The lazy attributes are consulted only when `src` is falsy and lazy mode is on, and then none truthy means no source. |
| StaticScrape.ChooseImgSource | index.js:94-113 | The `for ... break` loop over the lazy candidates computes the specified source choice. |
| StaticScrape.MatchAt | index.js:129 | A match anchored at `p` starts there and spans at least `url()` inside the text. |
| StaticScrape.ExecFrom | index.js:129-131 | A match found from `lastIndex` starts at or after it and spans at least `url()` inside the text. |
| StaticScrape.CloseFromSpec | index.js:129 | The lazy `(.*?)` body ends at the first occurrence of the closing text. If there is none before a line terminator, no match closes on this line. |
| StaticScrape.ExecFromSpec | index.js:129-131 | `exec` from `lastIndex` returns the leftmost position at which the regex matches; None exactly when it matches nowhere from there. |
| StaticScrape.StyleMatchesOnOneLine | index.js:129-138 | Every captured `url(...)` body lies on one line (`.` excludes line terminators). |
| StaticScrape.BodyOnOneLine | index.js:129 | The body of one match holds no line terminator. |
| StaticScrape.QuotedExample | index.js:129-135 | The quote is not part of the captured body: `url("a.png")` captures `a.png`. |
| StaticScrape.AddAllSpec | index.js:92 | Adding to the `Set` keeps earlier contents in front, keeps values distinct, and holds exactly the values of both (both directions). |
| StaticScrape.AddAllAppend | index.js:119 | Adding two batches in turn is adding their concatenation. |
| StaticScrape.ImgUrlsMember | index.js:93-120 | A URL comes from the `img` pass exactly when some `img` element's chosen source resolves to it and is kept. |
| StaticScrape.AcceptRawsMember | index.js:131-137 | A URL comes from a style attribute exactly when some non-empty captured body resolves to it and is kept. |
| StaticScrape.ContributionsKeepable | index.js:116-136 | No empty, `data:` or `javascript:` URL is ever contributed, from either pass. |
| StaticScrape.CollectedUrlsSpec | index.js:92-139 | The collected URLs are distinct and none is empty or `data:`/`javascript:`. They are exactly those contributed by `img` elements or by style URLs (both directions), with the `img` contributions first. |
| StaticScrape.AddStyleUrls | index.js:128-138 | The `exec` loop adds exactly the kept, non-empty captures of one style attribute, in order, to the set. |
| StaticScrape.CollectSources | index.js:92-139 | The two `.each` passes produce the specified collected URL list. |
| StaticScrape.AddImgUrls | index.js:92-121 | The `img` pass, starting from an empty set, yields exactly the first-occurrence-ordered set of the kept, resolved `img` sources. |
| StaticScrape.AddAllStyleUrls | index.js:126-139 | The `[style*="url("]` pass adds to the given set exactly the resolved, kept `url(...)` references of every selected element, in document order. |
| StaticScrape.Utf8Length | index.js:150 | The UTF-8 byte length lies between the character count and four times it. |
| StaticScrape.Utf8LengthAscii | index.js:150 | An ASCII string has as many bytes as characters. |
| StaticScrape.SvgRecordsSpec | index.js:142-154 | One inline record per `svg` element, in order, with its markup, width/height or `-`, type `svg`, its UTF-8 size and file name `-`. |
| StaticScrape.RawFileNameSpec | index.js:70-74 | The raw name is the text after the last `/` up to the first `?` or `#`, located exactly in the URL. |
| StaticScrape.GetFileName | index.js:70-76 | The file name is never empty: it is the decoded last segment or `image`. |
| StaticScrape.ExtGuessSpec | index.js:181 | The extension guess is the text after the last `.` up to any `?`/`#`, located in the URL. |
| StaticScrape.RemoteRecordsSpec | index.js:156-185 | One remote record per collected URL, in order. Each has its URL, its file name and no inline content. A successful probe fills width, height, type and size. A failed one leaves them `-`, with the type set to the extension exactly when it has at most five characters. |
| StaticScrape.BuildRecords | index.js:142-185 | The SVG pass and the remote pass push exactly the inline records followed by the remote records. |
| StaticScrape.PushSvgRecords | index.js:142-154 | Exactly one inline record per `svg` element, in document order, with its markup, width and height or `-`, type `svg` and its UTF-8 byte length. |
| StaticScrape.PushRemoteRecords | index.js:156-185 | After the records already present, exactly one remote record per collected URL, in set order. |
| StaticScrape.DescribeRemote | index.js:157-183 | A remote record starts with `-` fields and the URL-derived file name; a successful probe supplies width, height, type and size, and a failed one sets the type to the extension guess only when it has at most 5 characters. |
| StaticScrape.ScrapeSpec | index.js:78-191 | The handler fails exactly when the url is falsy, unsafe or the fetch fails; a 400 is exactly the first two cases. On success, inline records precede every remote one, remote URLs are pairwise distinct and kept, and the count is SVGs plus collected URLs. |
| StaticScrape.Scrape | index.js:78-191 | The handler's statement sequence produces the specified response. |
| ClientText.TruncateText | public/script.js:211-214 | A text within the limit comes back unchanged. A longer one becomes its first `maxLen` characters plus `...`, so the result never exceeds `maxLen + 3`. |
| ClientText.TruncateIdempotent | public/script.js:211-214 | Truncating a truncated text again changes nothing. |
| ClientText.TabLabelFromUrl | public/script.js:205-209 | A tab label is the URL truncated at 30 characters, so at most 33 long. |
| ClientText.ResolveClientUrl | public/script.js:171-184 | A missing source stays missing and a given one always yields a result. Outside the empty, `data:`/`javascript:` and `//` cases, the result is `new URL(trimmed, base).href`, or the original source when that throws. |
| ClientText.ResolveClientUrlPrefixes | public/script.js:171-178 | Empty input is returned as is. `data:`/`javascript:` input comes back trimmed, and resolving it again changes nothing. `//` input becomes the base's protocol plus the trimmed source, or the source itself when the base does not parse. |
| ClientText.ReplaceCharAppend | public/script.js:1154-1157 | Global single-character replacement distributes over concatenation. |
| ClientText.ReplaceCharAbsent | public/script.js:1154-1157 | Replacing an absent character changes nothing. |
| ClientText.EscapeHtmlPerChar | public/script.js:1154-1157 | The three chained replaces, `&` first, equal escaping each character on its own. |
| ClientText.EscapeEachNoBrackets | public/script.js:1154-1157 | The escaped text holds no `<` or `>`. |
| ClientText.UnescapeEscapeEach | public/script.js:1154-1157 | Per-character escaping is undone by unescaping. |
| ClientText.EscapeHtmlSpec | public/script.js:1154-1157 | The escaped line unescapes back to the source line and contains no `<` or `>`. |
| ClientText.WrongOrderDoubleEscapes | public/script.js:1154-1157 | Escaping `&` first matters: the other order would turn `<` into `&amp;lt;`, while the source's order gives `&lt;`. |
| ClientText.BreakBetweenTagsSpec | public/script.js:1136-1137 | After `/></g` is replaced by `>\n<`, no `>` is directly followed by `<`. |
| ClientText.BreakBetweenTags | public/script.js:1137 | The replacement keeps a non-empty text non-empty with the same first character. |
| ClientText.SpaceBeforeSelfCloseSpec | public/script.js:1138 | After `/\s*\/>/g` is replaced by ` />`, every `/>` is directly preceded by a space. |
| ClientText.SpaceBeforeSelfCloseNoLead | public/script.js:1138 | The replaced text never starts with `/>`. |
| ClientText.SpaceBeforeSelfCloseNoSlash | public/script.js:1138 | A text without `/` is left unchanged. |
| ClientText.SourceLines | public/script.js:1142 | Splitting the formatted markup on newlines always gives at least one line. |
| ClientText.HighlightAll | public/script.js:1150-1191 | One displayed line per source line; the content of each line is stated by HighlightAllSpec. |
| ClientText.DisplayLinesSpec | public/script.js:1142-1198 | At most 500 lines are shown, each the processed source line at that position. When there are more, exactly one notice line follows, naming `lines - 500`. |
| ClientText.HighlightAllSpec | public/script.js:1150-1191 | Processing a list of lines maps each line independently: output line `i` is the processed form of input line `i`. |
| ClientText.HighlightLines | public/script.js:1150-1191 | The `map` over the lines to process produces the per-line escaped and highlighted listing. |
| ClientText.NoticeCount | public/script.js:1194-1196 | Different omitted-line counts give different notices, so the notice identifies the count. |
| ClientText.FormatAndHighlightHtml | public/script.js:1134-1199 | The per-line loop and final join produce the specified displayed lines joined by newlines. |
| ClientState.Normalize | public/script.js:552 | Plain string entries become `{url}` objects in place; object entries are kept. |
| ClientState.FindUrl | public/script.js:554 | The first entry with the URL, or None exactly when no entry has it. |
| ClientState.SavedSpec | public/script.js:547-562 | Every saved entry is an object and at most 10 are kept. An existing URL is updated in place at its position and the rest are kept. A new URL is prepended with the older entries after it. |
| ClientState.SavedListsUrl | public/script.js:547-562 | Starting from at most 10 entries, the saved URL is always in the list afterwards with the given count and error. |
| ClientState.SavedKeepsDistinct | public/script.js:547-562 | Saving never creates a second entry for a URL. |
| ClientState.RemovedMember | public/script.js:570-573 | An entry survives removal exactly when it was there and its URL differs from the target. |
| ClientState.RemovedFiltersUrls | public/script.js:570-573 | The remaining URLs are the old ones minus the target, in order; nothing matching means nothing changes. |
| ClientState.RemovedIdempotent | public/script.js:570-573 | Removing the same URL twice is removing it once. |
| ClientState.History.constructor | public/script.js:533-534 | The history starts as the stored list. |
| ClientState.History.Save | public/script.js:547-568 | The stored list becomes the saved list and holds at most 10 entries. |
| ClientState.History.Remove | public/script.js:570-578 | The stored list becomes the filtered list: an entry survives exactly when its URL is not the target. |
| ClientState.FindTab | public/script.js:344 | The first tab with the id, or None exactly when there is none. |
| ClientState.ActiveIndex | public/script.js:197-199 | The answer is the first tab whose id is the active id; None means there is no active id or no tab carries it. |
| ClientState.FindLoading | public/script.js:201-203 | The first tab loading the URL, or None exactly when none is. |
| ClientState.Settle | public/script.js:283-292 | Switching to a tab changes only its message. A kept message is the old one and has text (an empty text counts as no message, as the test at line 331 treats it). A loading tab keeps its message exactly when that message has text. |
| ClientState.SwitchTo | public/script.js:276-336 | The active id becomes the requested one and the tab count is kept. The first tab with that id has its message settled; every other tab is unchanged. |
| ClientState.CreateOrReuseSpec | public/script.js:364-406 | The answered tab is active and is loading the URL, and a loading tab for the URL is reused. A loading tab for the URL is switched to (`SwitchTo`), with the tab count kept. Otherwise an idle active tab (no images, not loading) is reused in place: it gets the URL and its label, no images and no head content, and every other tab and the active id are unchanged. A new tab opens exactly when there is no active tab or the active one has images or is loading, and there are fewer than four tabs. When it refuses, the strip is `Refused`: only the active tab changes, taking the max-tabs error. |
| ClientState.OpenNewSpec | public/script.js:378-394 | Below four tabs a fresh loading tab is appended and made active; at four it refuses, and the only change is the max-tabs error on the active tab (`Refused`). |
| ClientState.Refused | public/script.js:379-382 | The active id and the tab count are kept. Only the active tab changes, and it takes the max-tabs message as an error. |
| ClientState.RemoveAt | public/script.js:346 | `splice(idx, 1)` removes exactly that position and keeps the order of the rest. |
| ClientState.CloseSpec | public/script.js:338-362 | An unknown id changes nothing. Otherwise exactly that tab goes. If it was active, the next active tab is the one at `max(0, idx-1)`, or none when the strip is empty or that id is falsy; otherwise the active id is kept. The remaining tabs keep their order. Only the tab then switched to (the active one, when its id is non-empty) has its message settled; every other tab is unchanged. |
| ClientState.TabStrip.constructor | public/script.js:189-190 | There are no tabs and no active tab. |
| ClientState.TabStrip.SwitchTab | public/script.js:276-336 | The strip becomes `SwitchTo` of the old strip. |
| ClientState.TabStrip.CloseTab | public/script.js:338-362 | The strip becomes `Close` of the old strip. |
| ClientState.TabStrip.ShowMaxTabsError | public/script.js:451-469 | `showMessage` with the max-tabs error: the strip becomes `Refused` of the old strip. |
| ClientState.TabStrip.CreateOrReuseTab | public/script.js:364-406 | The strip and the answered tab are those `CreateOrReuse` specifies. |
| ClientState.StoreTabs | public/script.js:418-431 | Every tab is stored, in order. |
| ClientState.PersistedSpec | public/script.js:413-433 | Each tab keeps its id, URL, label, status, head content, view, scraping method and fallback flag, and its message is dropped. At most its first 200 images are stored, all of them when it has no more than 200. |
| ClientState.CountTrue | public/script.js:101-105 | The visible count never exceeds the number of rows. |
| ClientState.UpdateRowVisibility | public/script.js:113-133 | Each row's display decision is the visibility predicate for the trimmed lowercased search term, and the count is the number of visible rows. |
| ClientState.RowVisibleMonotone | public/script.js:114-120 | Extending the search term never reveals a row. Hiding inline rows shows exactly the rows visible with them shown that are not inline. |
| JsText.TrimIdempotent | proxyManager.js:15 | Trimming twice is trimming once. |
| JsText.SplitJoin | index.js:72 | Pieces of a split hold no separator, and joining them with it gives back the string. |
| JsText.DecimalRoundTrip | proxyManager.js:24 | The decimal rendering of a number reads back as that number. |
| JsText.NatToStringInjective | proxyManager.js:24 | Different numbers render differently. |

## Left out

- The Express app, helmet, CORS, the rate limiter, static hosting and `/api/download`
  are left out; they are server wiring and stream piping.
- `isSafePublicUrl` (DNS lookup and the ipaddr library) is the `isSafe` parameter.
- The page fetch is the `fetch` parameter, and `probe-image-size` is the `probe`
  parameter. A failed fetch is the 500 response; the probe result is an arbitrary
  success or failure.
- The HEAD request with its size check (index.js:167-172) is left out. Its thrown error
  is caught by its own empty `catch`, so as written it has no effect on the record.
- cheerio parsing is left out. A document is given as the sequence of its elements in
  selection order, with a tag, attributes and outer markup; `$('img').each` and
  `$('[style*="url("]')` become filters over that sequence.
- WHATWG `new URL` and `decodeURIComponent` are function parameters with None for a
  throw. Their grammars are not modelled.
- `toLowerCase` in the row filter is a parameter, because Unicode case mapping is not
  modelled. The `/i` flags of the regexes use ASCII case folding, which is exact for
  these ASCII patterns.
- The syntax-highlighting regex chain is the `highlight` parameter.
- `extractPageTitleFromHead`, `sortTable`, `restoreTabs` and `renderTabs` are left out.
  So are DOM creation, event handlers, `fetch`/`AbortController`
  (`inFlightControllers`), `localStorage` and cookies (the history and tabs are
  in-memory sequences; JSON parse failures are not modelled) and the clipboard.
- logger.js, humanBehavior.js, diagnose-playwright.js and install-playwright.js are
  left out; they are I/O, randomness, timers and tooling.
- Time: one `now` value stands for all the `Date.now()` calls inside one operation.
- Tab ids from `createTabId` (random) are the `freshId` parameter.
- `PROXY_ROTATE_ON` is read by the constructor but never used, so it is not a field.
  `PROXY_STICKY_TTL_MS` is passed in already parsed, so its default of 900000 ms
  (proxyManager.js:8) is the caller's; a NaN TTL is not modelled.
- Integers are unbounded: number precision beyond 2^53 for `rr`, cursors and cooldowns
  is not modelled.
- Strings are sequences of Unicode scalar values. JavaScript lengths and indices count
  UTF-16 units, so truncation points and the 1000-character limit differ for text
  outside the Basic Multilingual Plane, and lone surrogates cannot be represented.
- Whitespace for `trim` and `\s` is the ECMAScript set (white space plus line
  terminators).
- The `lazy` body flag is modelled as an optional boolean; a non-boolean, non-missing value is not.
- `persistTabs` assumes each tab's `images` is an array; the non-array case is not modelled.
- The result-count badge text of `updateDisplayedCount` is left out; only the count is.
- A history `count` of `null` and one that is `undefined` are both modelled as None.
- The tab's `debug` field, which `persistTabs` also writes, is not modelled.
- HighlightAll: its own contract gives only the line count. The per-line content is
  stated by HighlightAllSpec, because a quantified ensures on this recursive function
  makes the verifier unroll it without bound where FormatAndHighlightHtml uses it.
- `view.filteredCount`, which `updateRowVisibility` stores on the active tab
  (public/script.js:129-130) and `persistTabs` writes, is not modelled. A tab's view
  holds only `searchTerm` and `showInline`; the count itself is the result of
  UpdateRowVisibility.
- `switchTab`'s display side effects (rendering, `showMessage`/`clearMessage` on the
  DOM) are left out; only the change to the stored message is kept (see Settle).
