# frozen-django, modelled in Dafny

frozen-django freezes Django views into static files. `generate_static_view(view_name, frozen_host, frozen_dest, urlconf, **kwargs)` does the following:

- It picks an output directory.
- For every language in `settings.LANGUAGES`, it walks the URL tree for the routes bound to the view and reverses each one into a URL.
- It follows every new URL that has a file extension, page by page. Each page is produced by running the view, wrapped in `FROZEN_MIDDLEWARE`, for a request against the frozen host. The body is written to the URL's path under the output directory. The next page comes from the `Link: <…>; rel=next` header, or, for HTML pages, from the body's `<link rel="next">`.

The `freeze_view` management command builds keyword arguments from `--params-qs` and `--params-json`. It then calls `generate_static_view` once per view name.

The model follows that structure, one module per part:

| module | file | what it holds |
|---|---|---|
| `Wrappers`, `Errors` | `wrappers.dfy` | `Option`, `Result`, one error constructor for each place in the source that raises, and `PageLimitReached` for the model's own bound on a pagination chain |
| `Text` | `text.dfy` | Python's `split`, `strip`/`lstrip`/`rstrip` with a character set, and one-character `find`/`rfind` |
| `Urls` | `urls.dfy` | `urlsplit`, the path of `urlparse` (including `;params`), `posixpath.splitext`, `posixpath.join`, and the file a URL is frozen to |
| `Routes` | `routes.dfy` | `walk_resolvers` over a route-tree datatype: as written, and corrected (see Findings) |
| `Links` | `links.dfy` | `find_next_http_page`, `find_next_html_page`, and the next-URL choice of `follow_url` |
| `Fetch` | `fetch.dfy` | `follow_url`: the middleware loop, the `FileSystem` class whose file map is written in place, and the fetch as a value |
| `Crawl` | `crawl.dfy` | `generate_static_view`: the nested loops over languages and matches, `done_urls`, and the `while url:` follow loop |
| `FreezeView` | `freeze_view.dfy` | `Command.handle`: building the parameters and the loop over view names |

Each loop of `follow_url`, `generate_static_view` and `handle` is a method with a loop:

- the middleware loop is `Fetch.ApplyMiddlewares`;
- the follow loop is `Crawl.FollowPages`;
- the language and match loops are `Crawl.GenerateStaticView`;
- the view-name loop is `FreezeView.RunAll`.

Each method is proved equal to a recursive function over values: `Fetch.Wrap`, `Crawl.Chain`, `Crawl.CrawlLanguages` and `FreezeView.RunViews`. The properties are proved as lemmas about those functions.

Django, BeautifulSoup, `mimetypes` and `urljoin` are collaborators. They enter as function-valued fields of `Fetch.Fetcher` and `Crawl.Env`:

- `resolve` under a language, giving `None` where Django raises `Resolver404`;
- `get_resolver` under a language;
- `reverse` under a language, `None` where it raises `NoReverseMatch`;
- `urljoin`;
- `guess_type(url)[0]`;
- BeautifulSoup's `find('link', {'rel': 'next'})`.

`parse_qs` and `json.loads` enter as the function-valued parameters `parseQs` and `loadJson` of `FreezeView.Params` and `FreezeView.Handle`.

The active language of `translation.activate` is passed explicitly to these collaborators.

The loops over route children, `Link` entries and options are pure. They are modelled as the recursive functions `Routes.WalkChildren`, `Links.ScanEntries` and `Links.ScanOptions`. The comprehension over query-string keys is the map comprehension `FreezeView.FirstValues`.

## Behaviour worth noting

- A failed reverse lookup is not caught in `generate_static_view`. It ends the call with an error; the candidate is not skipped.
- The first middleware listed wraps the view directly, so the last one listed is outermost.
- `url.lstrip('/')` removes every leading `/`, not just one.
- A frozen file is the URL's path under the output directory, whatever the language. So with several `LANGUAGES` and a URL that is not language-prefixed, each later language's crawl rewrites the file, and only the last language's rendering is kept. Likewise `/a.html?p=1` and `/a.html?p=2` share one file, and the one fetched last wins.
- A `Link` option that does not contain exactly one `=` raises. It is not skipped.
- A route without a name has `pat.name` `None`, so a route name is an `Option`.
- The crawl uses `walk_resolvers` as written, including the rebinding described under Findings.
- `get_ns_resolver` receives the inherited `ns_converters`, not `sub_ns_converters`. So a leaf directly under a resolver such as `path('<int:year>/', include(…))` is reversed without that resolver's own converters, while the leaves of resolvers nested inside it get them. The model does the same in both walks (`conv` in `Routes.WalkChildren` and `Routes.WalkFixedChildren`).

## Model

| member | source | states |
|---|---|---|
| `Routes.Walk` | frozen_django/main.py:27-57 | `walk_resolvers` as written: the depth-first walk, including the rebinding of `resolver` at line 55. It is what the crawl uses. Its names are characterised by `Routes.WalkNamesAsIntended`. |
| `Routes.WalkFixed` | frozen_django/main.py:27-57 | The walk with each leaf paired with one namespace wrapper of its own resolver. It is characterised by `Routes.WalkFixedSelectsSites`. |
| `Routes.MergeConverters` | frozen_django/main.py:38-42 | The children's converters have the keys of both maps. This resolver's own converter wins on a shared key, and an inherited one is kept otherwise. The inherited map is a value and is never changed. |
| `Routes.AnchorlessSlice` | frozen_django/main.py:46-47 | A nested resolver adds the slice of its regex left after every leading `^` and trailing `$` is removed. Only `^` come before the slice, only `$` after it, and the slice itself starts with no `^` and ends with no `$`. |
| `Routes.WalkFixedSelectsSites` | frozen_django/main.py:44-57 | The walk equals the depth-first, `url_patterns`-order list of all leaves, filtered to those whose `lookup_str` is the view name. Each leaf is paired with its own resolver, wrapped in its namespace when the accumulated pattern is non-empty. |
| `Routes.WalkFixedMembers` | frozen_django/main.py:44-57 | A pair is yielded if and only if some leaf bound to the view produces it. The walk is empty if and only if no leaf is bound to the view. |
| `Routes.WalkNamesAsIntended` | frozen_django/main.py:44-57 | The walk as written yields the same route names, in the same order, as the corrected walk. Only the resolvers paired with them differ. |
| `Routes.SecondMatchWrappedTwice` | frozen_django/main.py:53-57 | As written: the second leaf bound to the view inside a namespaced resolver is paired with the namespace wrapper of the first leaf's wrapper. |
| `Routes.FixedWalkWrapsOnce` | frozen_django/main.py:53-57 | Corrected: both leaves are paired with the same single wrapper of their resolver. |
| `Routes.WalkOnlyAddsLayers` | frozen_django/main.py:44-57 | For every route tree, the walk as written yields the intended pairs with the same names in the same order, each resolver wrapped in some number of extra copies of its own namespace pattern and converters. |
| `Routes.WalkChildrenLayers` | frozen_django/main.py:50-57 | Within one loop over `url_patterns`, while `resolver` is the owner or its namespaced wrapper wrapped again, every pair differs from the intended one only by extra namespace layers. |
| `Routes.ExtraLayersAppend` | frozen_django/main.py:48-57 | Extra layers are kept when the yields of a nested resolver and of the rest of the loop are concatenated. |
| `Routes.FlatWalkWrapsAgain` | frozen_django/main.py:50-57 | Under a non-empty namespace, in a resolver whose children are all leaves bound to the view, the walk as written pairs the `i`-th leaf with its resolver's namespaced wrapper wrapped `i` more times. The intended walk wraps every leaf once. |
| `Text.Split` | frozen_django/main.py:73-77 | `split` gives at least one piece. No piece contains the separator, and joining the pieces with it gives back the input. |
| `Text.SplitJoin` | frozen_django/main.py:73-77 | Splitting undoes joining when no piece contains the separator. |
| `Text.SplitCount` | frozen_django/main.py:77 | There is one more piece than there are separators, which decides whether `key, val = …` unpacks. |
| `Text.StripChars` | frozen_django/main.py:73-80 | `strip(cs)` keeps a slice whose first and last characters are not in `cs`. Everything cut from either end is in `cs`. |
| `Text.LStripChars` | frozen_django/main.py:136-141 | `lstrip(cs)` keeps a suffix that does not start with a character of `cs`. Everything cut is in `cs`. |
| `Text.RStripChars` | frozen_django/main.py:46-47 | `rstrip(cs)` keeps a prefix that does not end with a character of `cs`. Everything cut is in `cs`. |
| `Text.StripBoth` | frozen_django/main.py:46-47 | `lstrip(a).rstrip(b)` is a slice of the input with characters of `a` before it and characters of `b` after it. |
| `Text.RFind` | frozen_django/main.py:203 | `rfind(c)` is -1 or an index holding `c`, and no later index holds `c`. |
| `Urls.UrlSplit` | frozen_django/main.py:140 | `urlsplit`'s five parts: scheme, authority, path, query and fragment. Its path is characterised through `Urls.UrlPath`. |
| `Urls.UrlPath` | frozen_django/main.py:140 | `urlparse(url).path`, also used at line 152. It is characterised by `Urls.UrlPathHasNoQuery`, `Urls.QueryIgnored` and `Urls.PlainPathIsItsOwnPath`. |
| `Urls.UrlPathHasNoQuery` | frozen_django/main.py:140 | The path component of `urlparse` never contains `?` or `#`. |
| `Urls.QueryIgnored` | frozen_django/main.py:140 | For a rooted path `p` with no `?` or `#`, the path of `p + "?" + q` is the path of `p`. |
| `Urls.PlainPathIsItsOwnPath` | frozen_django/main.py:140 | A rooted path with no `?`, `#` or `;` is its own path component. |
| `Urls.PathJoin` | frozen_django/main.py:141 | `posixpath.join(a, b)`: an absolute `b` replaces `a`; otherwise `b` follows `a`, with a `/` between them unless `a` is empty or already ends in one. It is stated through the ensures of `Urls.OutputPath`. |
| `Urls.OutputPath` | frozen_django/main.py:140-141 | The file written is `dest` followed by the URL's path with all leading `/` removed, joined by `posixpath.join`. It always starts with `dest`. |
| `Urls.OutputPathIgnoresQuery` | frozen_django/main.py:140-141 | A query string does not change the file a rooted URL is written to. |
| `Urls.Ext` | frozen_django/main.py:203 | `splitext(url)[1]` is empty, or a suffix of the URL that starts with `.` and contains no `/` and no other `.`. |
| `Urls.ExtIffLastComponentHasExtension` | frozen_django/main.py:203 | The extension is non-empty if and only if the last `/` component has a `.` after some character that is not a dot (so `.bashrc` has none). |
| `Urls.HostDomain` | frozen_django/main.py:183 | The domain looked up in `FROZEN_ROOT` is a prefix of the network location that ends at its first `:`, or at its end when there is none, so it never contains `:`. |
| `Links.StripAll` | frozen_django/main.py:73-75 | `[x.strip() for x in xs]`, element by element, with the same length. |
| `Links.FindNextHttpPage` | frozen_django/main.py:60-81 | `find_next_http_page`, characterised by `Links.FindNextHttpPageSpec`. |
| `Links.ParseOption` | frozen_django/main.py:77-78 | `key, val = opt.split('=')`, raising when the split does not give two pieces. It is characterised by `Links.ParseOptionSpec`. |
| `Links.ScanOptions` | frozen_django/main.py:76-80 | The loop over an entry's options, characterised by `Links.ScanOptionsSpec`. |
| `Links.ScanEntries` | frozen_django/main.py:74-81 | The loop over the header's entries, characterised by `Links.ScanEntriesSpec`. |
| `Links.ParseOptionSpec` | frozen_django/main.py:77-79 | An option parses if and only if it contains exactly one `=`. It names the next page if and only if it is `rel=` followed by `next`, possibly quoted. |
| `Links.EmptyOptionIsMalformed` | frozen_django/main.py:75-77 | An empty option, as a trailing `;` leaves, makes the parser raise. |
| `Links.SpacedKeyIsNotRel` | frozen_django/main.py:77-79 | A key followed by a space is not stripped, so `rel = "next"` never names the next page. |
| `Links.ScanOptionsSpec` | frozen_django/main.py:76-80 | The options of an entry are scanned in order, with three outcomes. The entry names the next page if and only if a `rel=next` option comes before any malformed one. It raises if and only if a malformed option comes first. It finds nothing if and only if every option is well formed and none is `rel=next`. |
| `Links.EntryOutcomes` | frozen_django/main.py:75-80 | An entry's three outcomes stated on its option text correspond to the three results of the option scan. |
| `Links.ScanEntriesSpec` | frozen_django/main.py:73-81 | The entries are scanned in order. The result is the `<>`-trimmed target of the first entry that is not clean, when that entry names the next page. It is an error when that entry is malformed. It is nothing when every entry is clean. |
| `Links.FindNextHttpPageSpec` | frozen_django/main.py:67-81 | A missing or empty `Link` header gives no next page. Otherwise the three outcomes of the entry scan apply to the header's comma-separated entries. |
| `Links.HeaderWins` | frozen_django/main.py:93-95 | A non-empty next page from the header is the result, whatever the body holds. |
| `Links.FindNextHtmlPage` | frozen_django/main.py:84-102 | `find_next_html_page`, characterised by `Links.HeaderWins` and `Links.FindNextHtmlPageSpec`. |
| `Links.BodyLink` | frozen_django/main.py:99-102 | `link['href']` for the tag found: none without a tag, an error for a tag without `href`. |
| `Links.HttpRaisesMalformed` | frozen_django/main.py:67-81 | The header lookup raises only for a malformed option, never for a missing `href`. |
| `Links.FindNextHtmlPageSpec` | frozen_django/main.py:93-102 | An error from the header is raised as it is. A missing `href` raises if and only if the header names no page (or an empty one) and the body's tag has no `href`. The next page is `u` if and only if `u` is the header's non-empty link, or the header is silent and `u` is the body tag's `href`. There is no next page if and only if the header is silent and the body has no tag. |
| `Links.NextUrl` | frozen_django/main.py:146-153 | A next URL that is returned has no `?` or `#`. The value is characterised by `Links.NonHtmlNextUrl` and `Links.HtmlNextUrl`. |
| `Links.LinkPath` | frozen_django/main.py:151-153 | A returned next URL has no `?` or `#`. |
| `Links.LinkPathSpec` | frozen_django/main.py:151-153 | `if next_url: return urlparse(next_url).path`: a lookup error passes through unchanged, a missing or empty link gives `None`, and a non-empty link gives its path component, and only then is a URL returned. |
| `Links.NonHtmlIgnoresBody` | frozen_django/main.py:146-150 | For a URL not guessed as `text/html`, the next URL does not depend on the body or on the body lookup. |
| `Links.NonHtmlNextUrl` | frozen_django/main.py:146-153 | For a URL not guessed as `text/html`, an error from the header lookup is raised as it is. The next URL is `None` if and only if the header names no page or an empty one. A non-empty header link gives its path component, and any returned URL is the path of the header's non-empty link. |
| `Links.HtmlNextUrl` | frozen_django/main.py:146-153 | For an HTML URL, a header error is raised as it is. A tag without `href` raises if and only if the header is silent. The next URL is `None` if and only if the header is silent and the body has no tag or an empty `href`. A non-empty header link gives its path whatever the body holds, and with the header silent a non-empty body `href` gives its path. |
| `Fetch.Wrap` | frozen_django/main.py:130-133 | The fold of the middlewares over the view, characterised by `Fetch.WrapFirstInnermost` and `Fetch.WrapAppend`. |
| `Fetch.WrapFirstInnermost` | frozen_django/main.py:130-133 | The first middleware listed is applied first, directly around the view. |
| `Fetch.WrapAppend` | frozen_django/main.py:130-133 | Wrapping in `a` and then in `b` is wrapping in `a + b`. |
| `Fetch.ApplyMiddlewares` | frozen_django/main.py:130-133 | The loop `view = m(view)` gives the fold of the middlewares over the view, with the last one listed outermost. |
| `Fetch.FileSystem.Write` | frozen_django/main.py:143-144 | The file at the path is created or replaced with the text, and no other file changes. |
| `Fetch.Follow` | frozen_django/main.py:124-153 | Nothing is written if and only if the URL does not resolve. A written file is `OutputPath(dest, url)`, so it lies under `dest`. A next URL that is returned has no `?` or `#`. |
| `Fetch.FollowWritesOnlyUnderDest` | frozen_django/main.py:124-144 | An unresolvable URL writes nothing and has no next page. Otherwise no file outside `dest` changes, every new file is under `dest`, and no file disappears. |
| `Fetch.FollowIgnoresQuery` | frozen_django/main.py:140-141 | A rooted URL and that URL with a query string are written to the same file. |
| `Fetch.FollowRendersWrappedView` | frozen_django/main.py:128-138 | The body written is the response of the view wrapped in the middlewares, the first listed innermost, to the request against the frozen host. With no middleware it is the bare view's response. |
| `Fetch.RequestFor` | frozen_django/main.py:135-136 | The request for a URL: `SERVER_NAME` is the frozen host, and the target is `urljoin(host, url.lstrip('/'))`. It is what `Fetch.FollowRendersWrappedView` renders. |
| `Fetch.FollowUrl` | frozen_django/main.py:124-153 | The method writes exactly what `Follow` describes and returns its next-page value. |
| `Crawl.DestRoot` | frozen_django/main.py:180-186 | A non-empty `frozen_dest` wins. Otherwise a per-host `FROZEN_ROOT` is looked up by the host name without its port, and a host missing from it is an error. Otherwise the single `FROZEN_ROOT` is used. |
| `Crawl.Chain` | frozen_django/main.py:206-207 | The follow loop as a value, with the page limit. It is characterised by `Crawl.ChainFollowsNextLinks`, `Crawl.ChainEnds`, `Crawl.ChainWrites` and `Crawl.ChainOnlyUnderDest`. |
| `Crawl.ChainWritesItsPages` | frozen_django/main.py:206-207 | The files after a chain are what fetching its pages one after the other writes (`Written`). |
| `Crawl.WrittenKeeps` | frozen_django/main.py:141-144 | Fetching pages in order keeps every existing file. Each page that resolves has its file, and that file holds the page's body unless a later page writes the same file. |
| `Crawl.WrittenUntouched` | frozen_django/main.py:141-144 | A file that no fetched page writes keeps its text. |
| `Crawl.WrittenOnlyPages` | frozen_django/main.py:141-144 | Every file that fetching pages adds or changes is the file of one of the pages that resolved. |
| `Crawl.ChainWrites` | frozen_django/main.py:206-207 | A chain keeps every file. Every page it fetches that resolves has its file, holding that page's body unless a later page of the chain writes the same file. No other file is added or changed. |
| `Crawl.ChainFollowsNextLinks` | frozen_django/main.py:206-207 | The follow loop fetches the start URL first, then each page the previous one named. It fetches no empty URL and at most the page limit. |
| `Crawl.ChainEnds` | frozen_django/main.py:206-207 | The loop stops when `follow_url` returns a falsy value (no next page or an empty path), when a lookup raises, or when the page limit is reached. |
| `Crawl.ChainOnlyUnderDest` | frozen_django/main.py:206-207 | A pagination chain writes only under `dest` and keeps every other file. |
| `Crawl.FollowPages` | frozen_django/main.py:206-207 | The `while url:` loop leaves the files and the status that `Chain` describes. |
| `Crawl.MatchStep` | frozen_django/main.py:196-207 | One match: reverse it, skip a URL already done, mark it done, skip it without an extension, otherwise follow its chain. It is characterised by `Crawl.MatchStepStarts`. |
| `Crawl.Reversals` | frozen_django/main.py:195-197 | Each match is reversed under the active language with the view's keyword arguments, in walk order. |
| `Crawl.FailedStaysFailed` | frozen_django/main.py:195-207 | Once something has raised, the remaining matches change nothing. |
| `Crawl.CrawlMatches` | frozen_django/main.py:195-207 | The loop over the walk's matches as a value, characterised by `Crawl.FailedStaysFailed`, `Crawl.CrawlMatchesGrows`, `Crawl.CrawlMatchesStarts`, `Crawl.CrawlMatchesComplete` and `Crawl.CrawlMatchesFreezes`. |
| `Crawl.CrawlMatchesGrows` | frozen_django/main.py:194-207 | Within one language, `done_urls` and the started chains only grow. Every file written lies under the output directory. Every started URL is a reversal of some match. |
| `Crawl.MatchStepStarts` | frozen_django/main.py:198-207 | One match keeps the started chains distinct and done. A chain it starts was not done before. |
| `Crawl.CrawlMatchesStarts` | frozen_django/main.py:194-207 | Started chains stay distinct, done and extension-bearing. Every done URL with an extension had its chain started. |
| `Crawl.CrawlMatchesComplete` | frozen_django/main.py:195-207 | When the loop over matches does not fail, every match was reversed and its URL is done. |
| `Crawl.LanguageCrawl` | frozen_django/main.py:191-207 | One language: `done_urls` starts empty, and the matches of `walk_resolvers` are crawled in order. It is characterised by `Crawl.LanguageCrawlSpec`. |
| `Crawl.ChainFreezesStart` | frozen_django/main.py:206-207 | A chain started with pages left writes its start URL's file when that URL resolves, and drops no file. |
| `Crawl.MatchStepFreezes` | frozen_django/main.py:196-207 | One match keeps, for every chain started so far, the file of its start URL, and drops no file. |
| `Crawl.CrawlMatchesFreezes` | frozen_django/main.py:194-207 | Over the loop of matches, every started chain's start URL that resolves keeps its file, and no file is dropped. |
| `Crawl.LanguageCrawlSpec` | frozen_django/main.py:191-207 | With `done_urls` reset for the language, each URL's chain starts at most once, only for URLs with an extension, and always for a reversed URL with an extension when nothing fails. Every file written lies under the output directory. With a positive page limit, every started URL that resolves has its file. |
| `Crawl.LanguageCrawlFreezes` | frozen_django/main.py:191-207 | A language crawled without error has written the file of every reversed URL that has an extension and resolves. |
| `Crawl.LanguageFrozenGrows` | frozen_django/main.py:191-207 | A language's URLs stay frozen when later languages only add files. |
| `Crawl.CrawlLanguagesFreezes` | frozen_django/main.py:191-207 | When the loop over languages ends without error, every language's reversed URLs with an extension that resolve have their files. |
| `Crawl.CrawlLanguages` | frozen_django/main.py:191-207 | The loop over `settings.LANGUAGES` as a value, a failure ending it. It is characterised by `Crawl.CrawlLanguagesOnlyUnder` and `Crawl.CrawlLanguagesFreezes`. |
| `Crawl.CrawlLanguagesOnlyUnder` | frozen_django/main.py:191-207 | Over all languages, no file outside the output directory changes. |
| `Crawl.Generate` | frozen_django/main.py:180-207 | `generate_static_view` as a value: the output directory, then every language in turn. It is characterised by `Crawl.GenerateWritesUnderBase` and `Crawl.GenerateFreezesEveryUrl`. |
| `Crawl.GenerateFreezesEveryUrl` | frozen_django/main.py:156-207 | A call that ends without error chose an output directory, and for every configured language each reversed URL with an extension that resolves has a file there. What that file holds is stated per chain by `Crawl.ChainWrites`; a later language or another URL with the same path may have rewritten it. |
| `Crawl.GenerateWritesUnderBase` | frozen_django/main.py:180-207 | The call writes only under the directory `DestRoot` chooses, and writes nothing when no directory can be chosen. |
| `Crawl.NoLanguagesNoFiles` | frozen_django/main.py:191 | With no configured language, nothing is written. |
| `Crawl.GenerateStaticView` | frozen_django/main.py:180-207 | The nested loops, with the `done_urls` set mutated in place, leave the files and status that `Generate` describes. |
| `FreezeView.FirstValues` | frozen_django/management/commands/freeze_view.py:39 | Each query-string key keeps its first parsed value, and no other key is present. |
| `FreezeView.UpdateWithJson` | frozen_django/management/commands/freeze_view.py:42-44 | JSON values win on a shared key, keys only in the query string are kept, and the keys are the union. |
| `FreezeView.Params` | frozen_django/management/commands/freeze_view.py:37-44 | The parameters `handle` builds, characterised by `FreezeView.ParamsSpec`. |
| `FreezeView.ParamsSpec` | frozen_django/management/commands/freeze_view.py:37-44 | With both options empty the parameters are empty. A key is present if and only if it comes from a non-empty option. A JSON key carries its JSON value, and a key only in the query string carries its first value. |
| `FreezeView.Bind` | frozen_django/management/commands/freeze_view.py:47-48 | `**params` binds if and only if no key is named `view_name`, `frozen_host` or `frozen_dest`. A `urlconf` key fills `urlconf`, and every other key goes to `**kwargs` unchanged. |
| `FreezeView.RunViews` | frozen_django/management/commands/freeze_view.py:46-48 | The loop over view names as a value, characterised by `FreezeView.RunViewsCalls` and `FreezeView.ClashStopsFirstCall`. |
| `FreezeView.RunViewsCalls` | frozen_django/management/commands/freeze_view.py:46-48 | The calls follow the view names in argument order. Each has the same `base_url`, `dest` and parameters. All are made when nothing raises, and none when there are no view names. |
| `FreezeView.ClashStopsFirstCall` | frozen_django/management/commands/freeze_view.py:46-48 | A parameter named like an explicit argument makes the first call raise before anything is written. |
| `FreezeView.Invoke` | frozen_django/management/commands/freeze_view.py:47-48 | One call: the parameters bound by `FreezeView.Bind`, then `Crawl.Generate`, a clash raising before anything is written. `FreezeView.InvokeView` is proved to leave exactly this. |
| `FreezeView.InvokeView` | frozen_django/management/commands/freeze_view.py:47-48 | One call binds the parameters and runs `GenerateStaticView`, leaving what `Invoke` describes. |
| `FreezeView.RunAll` | frozen_django/management/commands/freeze_view.py:46-48 | The loop over view names leaves the files, status and calls that `RunViews` describes. |
| `FreezeView.Handle` | frozen_django/management/commands/freeze_view.py:36-48 | The parameters are built in place as `Params` describes, then every view is run in turn. |

## Left out

- Django's routing, rendering and settings machinery is not part of this model: `resolve`, `get_resolver`, `get_ns_resolver`, `_reverse_with_prefix`, `RequestFactory`, `render`, `import_string` and `get_script_prefix`. These are function-valued inputs. The script prefix is folded into `reverse`, and a route tree is given per language.
- BeautifulSoup's HTML parsing, `mimetypes.guess_type`, `urljoin`, `parse_qs` and `json.loads` are inputs as well. `json.loads` is taken to return an object. Each JSON value is kept as its JSON text, because the model only hands it on: to `reverse` as a keyword argument, or to `get_resolver` (`Env.routes`) when its key is `urlconf`.
- Real file I/O is a `map<string, string>` in the `FileSystem` class. `os.makedirs`, encoding and write failures are not modelled, and neither are exceptions raised by views or middlewares.
- `Links.FindNextHttpPage`: the header is looked up under the exact key `Link`. Django's case-insensitive header lookup is not modelled.
- `Urls.UrlSplit`: `urlsplit`'s stripping of leading spaces and C0 control characters, its removal of tabs and newlines, and its IPv6 bracket check are not modelled. So a body `href=" /p2.html"` has the path `" /p2.html"` in the model, where Python gives `/p2.html`.
- `Urls.OutputPath`: `..` components are not normalised, and neither is the source. So `OutputPath` is proved to start with `dest` as a string. It is not proved to stay inside `dest` as a directory.
- `Crawl.Chain`: the `while url:` loop has no bound in the source and can run forever on cyclic pagination. The model bounds each chain by `pageLimit` pages and reports `PageLimitReached` past it. Behaviour beyond that bound is not modelled, and termination of the source is not claimed.
- `FreezeView.Bind`: when several parameters clash with explicit arguments, which one Python names in its `TypeError` is not modelled. The model names one of them.
- `FreezeView.Handle`: `--base-url` left unset (`None`) is not modelled; the base URL is a string.
- `tasks_celery.py`, `tasks_uwsgi.py`, `apps.py` and `tests/test_command.py` are not part of this model. They only delegate to `generate_static_view` or configure the app.
- Logging is not modelled.

## Findings

| source | as written | input that shows it | evidently intended | confidence | as-written member | corrected member |
|---|---|---|---|---|---|---|
| frozen_django/main.py:53-57 | Inside the loop over `url_patterns`, a matching leaf under a non-empty namespace rebinds the loop's own `resolver` to `get_ns_resolver(ns_pattern, resolver, …)`. The rebinding stays in force for later leaves of the same resolver. | A namespaced resolver whose two leaves are both bound to the view. The second is paired with a wrapper around the first leaf's wrapper, so its URL would be reversed with the namespace pattern applied twice. | Each matching leaf is paired with one namespace wrapper of the resolver that lists it. | not executed | `Routes.SecondMatchWrappedTwice` and `Routes.FlatWalkWrapsAgain` (about `Routes.Walk`) | `Routes.FixedWalkWrapsOnce` (about `Routes.WalkFixed`) |
