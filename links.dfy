/**
 * Pagination: `find_next_http_page` (the `Link` response header, after
 * section 3 of RFC 8288), `find_next_html_page` (the header first, then the
 * body's `<link rel="next">`) and the choice `follow_url` makes between the
 * two by the URL's guessed mime type.
 */
module Links {
  import opened Wrappers
  import opened Errors
  import opened Text
  import Urls

  const Quotes: set<char> := {'\'', '"'}
  const Angles: set<char> := {'<', '>'}

  /** `[x.strip() for x in xs]`. */
  function StripAll(xs: seq<string>): (r: seq<string>)
    ensures |r| == |xs| && forall i :: 0 <= i < |xs| ==> r[i] == Strip(xs[i])
  {
    if xs == [] then [] else [Strip(xs[0])] + StripAll(xs[1..])
  }

  /** The header's comma-separated link entries, each stripped. */
  function Entries(header: string): seq<string> {
    StripAll(Split(header, ','))
  }

  /** An entry's `;`-separated fields, each stripped; there is always at least one. */
  function Fields(entry: string): (r: seq<string>)
    ensures |r| >= 1
  {
    StripAll(Split(entry, ';'))
  }

  /** The first field, the `<url>` part of the entry. */
  function Target(entry: string): string {
    Fields(entry)[0]
  }

  /** The remaining fields, the entry's `key=value` options. */
  function Options(entry: string): seq<string> {
    Fields(entry)[1..]
  }

  /** `key, val = opt.split('=')`, which raises unless the split gives exactly two pieces. */
  function ParseOption(opt: string): Result<(string, string), CrawlError> {
    var kv := Split(opt, '=');
    if |kv| == 2 then Ok((kv[0], kv[1])) else Err(MalformedLinkOption(opt))
  }

  /** `key == 'rel' and val.strip('\'"') == 'next'`; the key is compared as split, without stripping. */
  predicate IsNextOption(kv: (string, string)) {
    kv.0 == "rel" && StripChars(kv.1, Quotes) == "next"
  }

  /** The inner loop: `Ok(true)` at the first `rel=next` option, an error at the first malformed one. */
  function ScanOptions(opts: seq<string>): Result<bool, CrawlError> {
    if opts == [] then Ok(false)
    else
      match ParseOption(opts[0])
      case Err(e) => Err(e)
      case Ok(kv) => if IsNextOption(kv) then Ok(true) else ScanOptions(opts[1..])
  }

  /** The outer loop: the `<>`-trimmed target of the first entry carrying `rel=next`. */
  function ScanEntries(entries: seq<string>): Result<Option<string>, CrawlError> {
    if entries == [] then Ok(None)
    else
      match ScanOptions(Options(entries[0]))
      case Err(e) => Err(e)
      case Ok(found) =>
        if found then Ok(Some(StripChars(Target(entries[0]), Angles))) else ScanEntries(entries[1..])
  }

  /** `find_next_http_page(response)`: a missing or empty `Link` header gives no next page. */
  function FindNextHttpPage(headers: map<string, string>): Result<Option<string>, CrawlError> {
    if "Link" !in headers || headers["Link"] == "" then Ok(None)
    else ScanEntries(Entries(headers["Link"]))
  }

  // ---------------------------------------------------------------------
  // The header grammar stated on the option text itself

  /** An option the parser accepts: it holds exactly one `=`. */
  ghost predicate WellFormed(opt: string) {
    multiset(opt)['='] == 1
  }

  /** An option naming the next page: `rel=` followed by `next`, possibly quoted. */
  ghost predicate IsRelNext(opt: string) {
    |opt| >= 4 && opt[..4] == "rel=" && StripChars(opt[4..], Quotes) == "next"
  }

  /** Parsing an option succeeds exactly on well-formed options, and finds `rel=next` exactly on `IsRelNext`. */
  lemma ParseOptionSpec(opt: string)
    ensures ParseOption(opt).Ok? <==> WellFormed(opt)
    ensures (ParseOption(opt).Ok? && IsNextOption(ParseOption(opt).value)) <==> IsRelNext(opt)
  {
    SplitCount(opt, '=');
    if ParseOption(opt).Ok? && IsNextOption(ParseOption(opt).value) {
      ParsedNextIsRelNext(opt);
    }
    if IsRelNext(opt) {
      RelNextParses(opt);
    }
  }

  lemma ParsedNextIsRelNext(opt: string)
    requires ParseOption(opt).Ok? && IsNextOption(ParseOption(opt).value)
    ensures IsRelNext(opt)
  {
    var kv := Split(opt, '=');
    assert kv[1..] == [kv[1]];
    assert Join(kv[1..], '=') == kv[1];
    assert opt == kv[0] + ['='] + kv[1];
    assert kv[0] + ['='] == "rel=";
    assert opt[..4] == "rel=" && opt[4..] == kv[1];
  }

  lemma RelNextParses(opt: string)
    requires IsRelNext(opt)
    ensures ParseOption(opt) == Ok(("rel", opt[4..]))
  {
    var v := opt[4..];
    var key := opt[..3];
    assert key == "rel";
    NoEqualsAroundNext(v);
    assert opt == key + [opt[3]] + v;
    assert '=' !in key;
    SplitTwo(key, v, '=');
  }

  /** A value that strips to `next` is quotes around `next`, so it holds no `=`. */
  lemma NoEqualsAroundNext(v: string)
    requires StripChars(v, Quotes) == "next"
    ensures '=' !in v
  {
    StripCharsMembers(v, Quotes);
    forall k | 0 <= k < |v| ensures v[k] != '=' {
      assert v[k] in Quotes || v[k] in "next";
    }
  }

  /** No option before index `j` is malformed or names the next page. */
  ghost predicate PassesBefore(opts: seq<string>, j: nat)
    requires j <= |opts|
  {
    forall k :: 0 <= k < j ==> WellFormed(opts[k]) && !IsRelNext(opts[k])
  }

  /** An option that decides the scan: malformed, or `rel=next`. */
  predicate Decisive(opt: string) {
    ParseOption(opt).Err? || IsNextOption(ParseOption(opt).value)
  }

  /** The index of the first decisive option, or `|opts|`. */
  ghost function FirstDecisiveOption(opts: seq<string>): (j: nat)
    ensures j <= |opts|
    ensures forall k :: 0 <= k < j ==> !Decisive(opts[k])
    ensures j < |opts| ==> Decisive(opts[j])
  {
    if opts == [] then 0
    else if Decisive(opts[0]) then 0
    else
      var j := FirstDecisiveOption(opts[1..]);
      assert forall k :: 1 <= k < j + 1 ==> opts[k] == opts[1..][k - 1];
      j + 1
  }

  /** The option scan's result is decided by the first decisive option alone. */
  lemma {:induction false} ScanOptionsAtFirstDecisive(opts: seq<string>)
    ensures var j := FirstDecisiveOption(opts);
      ScanOptions(opts) ==
        if j == |opts| then Ok(false)
        else match ParseOption(opts[j])
          case Err(e) => Err(e)
          case Ok(_) => Ok(true)
  {
    if opts != [] && !Decisive(opts[0]) {
      ScanOptionsAtFirstDecisive(opts[1..]);
      assert opts[1..][FirstDecisiveOption(opts[1..])..] == opts[FirstDecisiveOption(opts)..];
    }
  }

  /** No option before `j` is decisive exactly when `j` does not pass the first decisive option. */
  lemma PassesBeforeUpTo(opts: seq<string>, j: nat)
    requires j <= |opts|
    ensures PassesBefore(opts, j) <==> j <= FirstDecisiveOption(opts)
  {
    var d := FirstDecisiveOption(opts);
    if j <= d {
      forall k | 0 <= k < j ensures WellFormed(opts[k]) && !IsRelNext(opts[k]) {
        ParseOptionSpec(opts[k]);
      }
    } else {
      ParseOptionSpec(opts[d]);
      assert !(WellFormed(opts[d]) && !IsRelNext(opts[d]));
    }
  }

  /** A passing option followed by one that is not passing sits at the first decisive index. */
  lemma AtFirstDecisiveOption(opts: seq<string>, j: nat)
    requires j < |opts| && PassesBefore(opts, j)
    requires !WellFormed(opts[j]) || IsRelNext(opts[j])
    ensures j == FirstDecisiveOption(opts)
  {
    PassesBeforeUpTo(opts, j);
    ParseOptionSpec(opts[j]);
  }

  /** The scan finds the next page exactly when a `rel=next` option comes before any malformed one. */
  lemma ScanOptionsNext(opts: seq<string>)
    ensures ScanOptions(opts) == Ok(true) <==>
      exists j :: 0 <= j < |opts| && PassesBefore(opts, j) && IsRelNext(opts[j])
  {
    var d := FirstDecisiveOption(opts);
    ScanOptionsAtFirstDecisive(opts);
    if ScanOptions(opts) == Ok(true) {
      PassesBeforeUpTo(opts, d);
      ParseOptionSpec(opts[d]);
      assert PassesBefore(opts, d) && IsRelNext(opts[d]);
    }
    if exists j :: 0 <= j < |opts| && PassesBefore(opts, j) && IsRelNext(opts[j]) {
      var j :| 0 <= j < |opts| && PassesBefore(opts, j) && IsRelNext(opts[j]);
      AtFirstDecisiveOption(opts, j);
      ParseOptionSpec(opts[j]);
    }
  }

  /** The scan fails exactly when a malformed option comes before any `rel=next`. */
  lemma ScanOptionsError(opts: seq<string>)
    ensures ScanOptions(opts).Err? <==>
      exists j :: 0 <= j < |opts| && PassesBefore(opts, j) && !WellFormed(opts[j])
  {
    var d := FirstDecisiveOption(opts);
    ScanOptionsAtFirstDecisive(opts);
    if ScanOptions(opts).Err? {
      PassesBeforeUpTo(opts, d);
      ParseOptionSpec(opts[d]);
      assert PassesBefore(opts, d) && !WellFormed(opts[d]);
    }
    if exists j :: 0 <= j < |opts| && PassesBefore(opts, j) && !WellFormed(opts[j]) {
      var j :| 0 <= j < |opts| && PassesBefore(opts, j) && !WellFormed(opts[j]);
      AtFirstDecisiveOption(opts, j);
      ParseOptionSpec(opts[j]);
    }
  }

  /** The scan ends without a next page exactly when every option is well formed and none is `rel=next`. */
  lemma ScanOptionsNone(opts: seq<string>)
    ensures ScanOptions(opts) == Ok(false) <==> PassesBefore(opts, |opts|)
  {
    ScanOptionsAtFirstDecisive(opts);
    PassesBeforeUpTo(opts, |opts|);
  }

  /**
   * The options are scanned in order: the result is `true` when a
   * `rel=next` option comes before any malformed one, an error when a
   * malformed option comes first, and `false` when neither occurs.
   */
  lemma ScanOptionsSpec(opts: seq<string>)
    ensures ScanOptions(opts) == Ok(true) <==>
      exists j :: 0 <= j < |opts| && PassesBefore(opts, j) && IsRelNext(opts[j])
    ensures ScanOptions(opts).Err? <==>
      exists j :: 0 <= j < |opts| && PassesBefore(opts, j) && !WellFormed(opts[j])
    ensures ScanOptions(opts) == Ok(false) <==> PassesBefore(opts, |opts|)
  {
    ScanOptionsNext(opts);
    ScanOptionsError(opts);
    ScanOptionsNone(opts);
  }

  /** The entry names the next page before any malformed option. */
  ghost predicate EntryHasNext(entry: string) {
    var opts := Options(entry);
    exists j :: 0 <= j < |opts| && PassesBefore(opts, j) && IsRelNext(opts[j])
  }

  /** The entry holds a malformed option before any `rel=next`. */
  ghost predicate EntryMalformed(entry: string) {
    var opts := Options(entry);
    exists j :: 0 <= j < |opts| && PassesBefore(opts, j) && !WellFormed(opts[j])
  }

  /** Every option of the entry is well formed and none names the next page. */
  ghost predicate EntryClean(entry: string) {
    PassesBefore(Options(entry), |Options(entry)|)
  }

  ghost predicate CleanBefore(entries: seq<string>, i: nat)
    requires i <= |entries|
  {
    forall k :: 0 <= k < i ==> EntryClean(entries[k])
  }

  /** An entry's three outcomes, read off the scan of its options. */
  lemma EntryOutcomes(entry: string)
    ensures EntryClean(entry) <==> ScanOptions(Options(entry)) == Ok(false)
    ensures EntryHasNext(entry) <==> ScanOptions(Options(entry)) == Ok(true)
    ensures EntryMalformed(entry) <==> ScanOptions(Options(entry)).Err?
  {
    ScanOptionsSpec(Options(entry));
  }

  /** The index of the first entry that decides the scan (a `rel=next` or a malformed option), or `|entries|`. */
  ghost function FirstDecisive(entries: seq<string>): (i: nat)
    ensures i <= |entries|
    ensures forall k :: 0 <= k < i ==> ScanOptions(Options(entries[k])) == Ok(false)
    ensures i < |entries| ==> ScanOptions(Options(entries[i])) != Ok(false)
  {
    if entries == [] then 0
    else if ScanOptions(Options(entries[0])) != Ok(false) then 0
    else
      var j := FirstDecisive(entries[1..]);
      assert forall k :: 1 <= k < j + 1 ==> entries[k] == entries[1..][k - 1];
      j + 1
  }

  /** The scan's result is decided by the first decisive entry alone. */
  lemma {:induction false} ScanEntriesAtFirstDecisive(entries: seq<string>)
    ensures var i := FirstDecisive(entries);
      ScanEntries(entries) ==
        if i == |entries| then Ok(None)
        else match ScanOptions(Options(entries[i]))
          case Err(e) => Err(e)
          case Ok(_) => Ok(Some(StripChars(Target(entries[i]), Angles)))
  {
    if entries != [] && ScanOptions(Options(entries[0])) == Ok(false) {
      ScanEntriesAtFirstDecisive(entries[1..]);
      assert entries[1..][FirstDecisive(entries[1..])..] == entries[FirstDecisive(entries)..];
    }
  }

  lemma CleanBeforeUpTo(entries: seq<string>, i: nat)
    requires i <= |entries|
    ensures CleanBefore(entries, i) <==> i <= FirstDecisive(entries)
  {
    var d := FirstDecisive(entries);
    if i <= d {
      forall k | 0 <= k < i ensures EntryClean(entries[k]) {
        EntryOutcomes(entries[k]);
      }
    } else {
      EntryOutcomes(entries[d]);
      assert !EntryClean(entries[d]);
    }
  }

  lemma AtFirstDecisive(entries: seq<string>, i: nat)
    requires i < |entries| && CleanBefore(entries, i) && !EntryClean(entries[i])
    ensures i == FirstDecisive(entries)
  {
    CleanBeforeUpTo(entries, i);
    EntryOutcomes(entries[i]);
  }

  /** The entry scan yields `u` exactly when the first entry that is not clean names the next page and has target `u`. */
  lemma ScanEntriesNext(entries: seq<string>, u: string)
    ensures ScanEntries(entries) == Ok(Some(u)) <==>
      exists i :: 0 <= i < |entries| && CleanBefore(entries, i) && EntryHasNext(entries[i])
        && u == StripChars(Target(entries[i]), Angles)
  {
    var d := FirstDecisive(entries);
    ScanEntriesAtFirstDecisive(entries);
    if ScanEntries(entries) == Ok(Some(u)) {
      CleanBeforeUpTo(entries, d);
      EntryOutcomes(entries[d]);
      var r := ScanOptions(Options(entries[d]));
      assert r.Ok? && r.value;
      assert CleanBefore(entries, d) && EntryHasNext(entries[d]);
    }
    if exists i :: 0 <= i < |entries| && CleanBefore(entries, i) && EntryHasNext(entries[i])
         && u == StripChars(Target(entries[i]), Angles) {
      var i :| 0 <= i < |entries| && CleanBefore(entries, i) && EntryHasNext(entries[i])
         && u == StripChars(Target(entries[i]), Angles);
      EntryOutcomes(entries[i]);
      AtFirstDecisive(entries, i);
    }
  }

  /** The entry scan fails exactly when the first entry that is not clean is malformed. */
  lemma ScanEntriesError(entries: seq<string>)
    ensures ScanEntries(entries).Err? <==>
      exists i :: 0 <= i < |entries| && CleanBefore(entries, i) && EntryMalformed(entries[i])
  {
    var d := FirstDecisive(entries);
    ScanEntriesAtFirstDecisive(entries);
    if ScanEntries(entries).Err? {
      CleanBeforeUpTo(entries, d);
      EntryOutcomes(entries[d]);
      assert CleanBefore(entries, d) && EntryMalformed(entries[d]);
    }
    if exists i :: 0 <= i < |entries| && CleanBefore(entries, i) && EntryMalformed(entries[i]) {
      var i :| 0 <= i < |entries| && CleanBefore(entries, i) && EntryMalformed(entries[i]);
      EntryOutcomes(entries[i]);
      AtFirstDecisive(entries, i);
    }
  }

  /** The entry scan finds nothing exactly when every entry is clean. */
  lemma ScanEntriesNone(entries: seq<string>)
    ensures ScanEntries(entries) == Ok(None) <==> CleanBefore(entries, |entries|)
  {
    ScanEntriesAtFirstDecisive(entries);
    CleanBeforeUpTo(entries, |entries|);
  }

  /** The entries are scanned in order, with the same three outcomes one level up. */
  lemma ScanEntriesSpec(entries: seq<string>, u: string)
    ensures ScanEntries(entries) == Ok(Some(u)) <==>
      exists i :: 0 <= i < |entries| && CleanBefore(entries, i) && EntryHasNext(entries[i])
        && u == StripChars(Target(entries[i]), Angles)
    ensures ScanEntries(entries).Err? <==>
      exists i :: 0 <= i < |entries| && CleanBefore(entries, i) && EntryMalformed(entries[i])
    ensures ScanEntries(entries) == Ok(None) <==> CleanBefore(entries, |entries|)
  {
    ScanEntriesNext(entries, u);
    ScanEntriesError(entries);
    ScanEntriesNone(entries);
  }

  /**
   * `find_next_http_page`: no next page without a non-empty `Link` header;
   * otherwise the trimmed target of the first entry with `rel=next`, an
   * error when a malformed option is reached first, and no next page when
   * the scan ends without either.
   */
  lemma FindNextHttpPageSpec(headers: map<string, string>, u: string)
    ensures "Link" !in headers || headers["Link"] == "" ==> FindNextHttpPage(headers) == Ok(None)
    ensures "Link" in headers && headers["Link"] != "" ==>
      var es := Entries(headers["Link"]);
      && (FindNextHttpPage(headers) == Ok(Some(u)) <==>
           exists i :: 0 <= i < |es| && CleanBefore(es, i) && EntryHasNext(es[i])
             && u == StripChars(Target(es[i]), Angles))
      && (FindNextHttpPage(headers).Err? <==>
           exists i :: 0 <= i < |es| && CleanBefore(es, i) && EntryMalformed(es[i]))
      && (FindNextHttpPage(headers) == Ok(None) <==> CleanBefore(es, |es|))
  {
    if "Link" in headers && headers["Link"] != "" {
      ScanEntriesSpec(Entries(headers["Link"]), u);
    }
  }

  /** An empty option, as a trailing `;` leaves, makes the parser raise. */
  lemma EmptyOptionIsMalformed()
    ensures ParseOption("").Err?
  {
    assert |Split("", '=')| == 1;
  }

  /** A key followed by a space is never `rel`: `rel = "next"` does not name the next page. */
  lemma SpacedKeyIsNotRel(rest: string)
    ensures !IsRelNext("rel " + rest)
    ensures ParseOption("rel " + rest).Ok? ==> !IsNextOption(ParseOption("rel " + rest).value)
  {
    ParseOptionSpec("rel " + rest);
    assert ("rel " + rest)[3] == ' ';
  }

  // ---------------------------------------------------------------------
  // find_next_html_page and the mime switch

  /** What the body's first `<link rel="next">` is: its `href` attribute, which may be missing. */
  datatype LinkTag = LinkTag(href: Option<string>)

  /** `link['href']` for the tag found, which raises when the tag has no `href`. */
  function BodyLink(tag: Option<LinkTag>): Result<Option<string>, CrawlError> {
    match tag
    case None => Ok(None)
    case Some(LinkTag(href)) => if href.None? then Err(LinkWithoutHref) else Ok(href)
  }

  /**
   * `find_next_html_page(response, content)`: a non-empty header result,
   * else the body's link. `findLinkNext` is BeautifulSoup's
   * `find('link', {'rel': 'next'})`.
   */
  function FindNextHtmlPage(headers: map<string, string>, content: string,
                            findLinkNext: string -> Option<LinkTag>): Result<Option<string>, CrawlError> {
    match FindNextHttpPage(headers)
    case Err(e) => Err(e)
    case Ok(link) => if link.Some? && link.value != "" then Ok(link) else BodyLink(findLinkNext(content))
  }

  /** A next page named by the header always wins, whatever the body holds. */
  lemma HeaderWins(headers: map<string, string>, content: string, findLinkNext: string -> Option<LinkTag>, u: string)
    requires FindNextHttpPage(headers) == Ok(Some(u)) && u != ""
    ensures FindNextHtmlPage(headers, content, findLinkNext) == Ok(Some(u))
  {
  }

  /** The header names no page, or an empty one, so the body is consulted. */
  predicate HeaderSilent(headers: map<string, string>) {
    FindNextHttpPage(headers) == Ok(None) || FindNextHttpPage(headers) == Ok(Some(""))
  }

  /** The only error the option scan raises is a malformed option. */
  lemma {:induction false} ScanOptionsRaisesMalformed(opts: seq<string>)
    ensures ScanOptions(opts).Err? ==> ScanOptions(opts).error.MalformedLinkOption?
  {
    if opts != [] && ParseOption(opts[0]).Ok? && !IsNextOption(ParseOption(opts[0]).value) {
      ScanOptionsRaisesMalformed(opts[1..]);
    }
  }

  /** The only error the entry scan raises is a malformed option. */
  lemma {:induction false} ScanEntriesRaisesMalformed(entries: seq<string>)
    ensures ScanEntries(entries).Err? ==> ScanEntries(entries).error.MalformedLinkOption?
  {
    if entries != [] {
      ScanOptionsRaisesMalformed(Options(entries[0]));
      if ScanOptions(Options(entries[0])) == Ok(false) {
        ScanEntriesRaisesMalformed(entries[1..]);
      }
    }
  }

  /** The header lookup raises only on a malformed option, never for a missing `href`. */
  lemma HttpRaisesMalformed(headers: map<string, string>)
    ensures FindNextHttpPage(headers) != Err(LinkWithoutHref)
  {
    if "Link" in headers && headers["Link"] != "" {
      ScanEntriesRaisesMalformed(Entries(headers["Link"]));
    }
  }

  /** A missing `href` raises exactly when the header is silent and the body's tag has none. */
  lemma HtmlRaisesWithoutHref(headers: map<string, string>, content: string, findLinkNext: string -> Option<LinkTag>)
    ensures FindNextHtmlPage(headers, content, findLinkNext) == Err(LinkWithoutHref) <==>
      HeaderSilent(headers) && findLinkNext(content) == Some(LinkTag(None))
  {
    HttpRaisesMalformed(headers);
    var h := FindNextHttpPage(headers);
    if h.Ok? && !(h.value.Some? && h.value.value != "") {
      assert HeaderSilent(headers);
    }
  }

  /** The next page is the header's non-empty link, or else, with the header silent, the body tag's `href`. */
  lemma HtmlFindsPage(headers: map<string, string>, content: string, findLinkNext: string -> Option<LinkTag>, u: string)
    ensures FindNextHtmlPage(headers, content, findLinkNext) == Ok(Some(u)) <==>
      (FindNextHttpPage(headers) == Ok(Some(u)) && u != "")
      || (HeaderSilent(headers) && findLinkNext(content) == Some(LinkTag(Some(u))))
  {
    var h := FindNextHttpPage(headers);
    if h.Ok? && !(h.value.Some? && h.value.value != "") {
      assert HeaderSilent(headers);
    }
  }

  /** There is no next page exactly when the header is silent and the body has no tag. */
  lemma HtmlFindsNone(headers: map<string, string>, content: string, findLinkNext: string -> Option<LinkTag>)
    ensures FindNextHtmlPage(headers, content, findLinkNext) == Ok(None) <==>
      HeaderSilent(headers) && findLinkNext(content).None?
  {
    var h := FindNextHttpPage(headers);
    if h.Ok? && !(h.value.Some? && h.value.value != "") {
      assert HeaderSilent(headers);
    }
  }

  /**
   * The outcomes of `find_next_html_page`: an error from the header is
   * raised as it is; a missing `href` raises exactly when the header is
   * silent and the body's tag has none; the next page is the header's
   * non-empty link, or else the body tag's `href`; there is none exactly
   * when the header is silent and the body has no tag.
   */
  lemma FindNextHtmlPageSpec(headers: map<string, string>, content: string,
                             findLinkNext: string -> Option<LinkTag>, u: string)
    ensures FindNextHttpPage(headers).Err? ==>
      FindNextHtmlPage(headers, content, findLinkNext) == FindNextHttpPage(headers)
    ensures FindNextHtmlPage(headers, content, findLinkNext) == Err(LinkWithoutHref) <==>
      HeaderSilent(headers) && findLinkNext(content) == Some(LinkTag(None))
    ensures FindNextHtmlPage(headers, content, findLinkNext) == Ok(Some(u)) <==>
      (FindNextHttpPage(headers) == Ok(Some(u)) && u != "")
      || (HeaderSilent(headers) && findLinkNext(content) == Some(LinkTag(Some(u))))
    ensures FindNextHtmlPage(headers, content, findLinkNext) == Ok(None) <==>
      HeaderSilent(headers) && findLinkNext(content).None?
  {
    HtmlRaisesWithoutHref(headers, content, findLinkNext);
    HtmlFindsPage(headers, content, findLinkNext, u);
    HtmlFindsNone(headers, content, findLinkNext);
  }

  /**
   * The value `follow_url` returns as the next URL: for an HTML URL the
   * header-then-body lookup, otherwise the header alone; a found link
   * becomes its path component, and an empty one counts as none.
   */
  function NextUrl(url: string, headers: map<string, string>, content: string,
                   guessMime: string -> Option<string>,
                   findLinkNext: string -> Option<LinkTag>): (r: Result<Option<string>, CrawlError>)
    ensures r.Ok? && r.value.Some? ==> '?' !in r.value.value && '#' !in r.value.value
  {
    LinkPath(if guessMime(url) == Some("text/html") then FindNextHtmlPage(headers, content, findLinkNext)
             else FindNextHttpPage(headers))
  }

  /** `if next_url: return urlparse(next_url).path`, else `None`; a lookup error is raised as it is. */
  function LinkPath(found: Result<Option<string>, CrawlError>): (r: Result<Option<string>, CrawlError>)
    ensures r.Ok? && r.value.Some? ==> '?' !in r.value.value && '#' !in r.value.value
  {
    match found
    case Err(e) => Err(e)
    case Ok(n) =>
      if n.Some? && n.value != "" then
        Urls.UrlPathHasNoQuery(n.value);
        Ok(Some(Urls.UrlPath(n.value)))
      else Ok(None)
  }

  /** A lookup error passes through; an absent or empty link gives none; a non-empty one gives its path. */
  lemma LinkPathSpec(found: Result<Option<string>, CrawlError>, u: string)
    ensures LinkPath(found).Err? <==> found.Err?
    ensures LinkPath(found).Err? ==> LinkPath(found) == found
    ensures LinkPath(found) == Ok(None) <==> found == Ok(None) || found == Ok(Some(""))
    ensures found == Ok(Some(u)) && u != "" ==> LinkPath(found) == Ok(Some(Urls.UrlPath(u)))
    ensures LinkPath(found).Ok? && LinkPath(found).value.Some? ==>
      found.Ok? && found.value.Some? && found.value.value != "" && LinkPath(found).value.value == Urls.UrlPath(found.value.value)
  {
    if found.Ok? && found.value.Some? && found.value.value == "" {
      assert found == Ok(Some(""));
    }
  }

  /** For a URL not guessed as `text/html` the body is never looked at. */
  lemma NonHtmlIgnoresBody(url: string, headers: map<string, string>, c1: string, c2: string,
                           guessMime: string -> Option<string>, f1: string -> Option<LinkTag>, f2: string -> Option<LinkTag>)
    requires guessMime(url) != Some("text/html")
    ensures NextUrl(url, headers, c1, guessMime, f1) == NextUrl(url, headers, c2, guessMime, f2)
  {
  }

  /**
   * For a URL not guessed as `text/html` the next URL comes from the
   * header alone: its error is raised as it is, a silent header gives none,
   * and a non-empty link gives its path component.
   */
  lemma NonHtmlNextUrl(url: string, headers: map<string, string>, content: string,
                       guessMime: string -> Option<string>, findLinkNext: string -> Option<LinkTag>, u: string)
    requires guessMime(url) != Some("text/html")
    ensures var r := NextUrl(url, headers, content, guessMime, findLinkNext);
      && (r.Err? <==> FindNextHttpPage(headers).Err?)
      && (r.Err? ==> r == FindNextHttpPage(headers))
      && (r == Ok(None) <==> HeaderSilent(headers))
      && (FindNextHttpPage(headers) == Ok(Some(u)) && u != "" ==> r == Ok(Some(Urls.UrlPath(u))))
      && (r.Ok? && r.value.Some? ==>
            var h := FindNextHttpPage(headers);
            h.Ok? && h.value.Some? && h.value.value != "" && r.value.value == Urls.UrlPath(h.value.value))
  {
    assert NextUrl(url, headers, content, guessMime, findLinkNext) == LinkPath(FindNextHttpPage(headers));
    LinkPathSpec(FindNextHttpPage(headers), u);
  }

  /**
   * For an HTML URL the next URL follows `find_next_html_page`: a header
   * error is raised as it is, a tag without `href` raises when the header
   * is silent, a non-empty header link wins over the body, and otherwise
   * the body's non-empty `href` is taken; the result is always a path.
   */
  lemma HtmlNextUrl(url: string, headers: map<string, string>, content: string,
                    guessMime: string -> Option<string>, findLinkNext: string -> Option<LinkTag>, u: string)
    requires guessMime(url) == Some("text/html")
    ensures var r := NextUrl(url, headers, content, guessMime, findLinkNext);
      && (FindNextHttpPage(headers).Err? ==> r == FindNextHttpPage(headers))
      && (r == Err(LinkWithoutHref) <==> HeaderSilent(headers) && findLinkNext(content) == Some(LinkTag(None)))
      && (r == Ok(None) <==>
            HeaderSilent(headers) && (findLinkNext(content).None? || findLinkNext(content) == Some(LinkTag(Some("")))))
      && (FindNextHttpPage(headers) == Ok(Some(u)) && u != "" ==> r == Ok(Some(Urls.UrlPath(u))))
      && (HeaderSilent(headers) && findLinkNext(content) == Some(LinkTag(Some(u))) && u != "" ==>
            r == Ok(Some(Urls.UrlPath(u))))
  {
    var found := FindNextHtmlPage(headers, content, findLinkNext);
    assert NextUrl(url, headers, content, guessMime, findLinkNext) == LinkPath(found);
    LinkPathSpec(found, u);
    FindNextHtmlPageSpec(headers, content, findLinkNext, u);
    FindNextHtmlPageSpec(headers, content, findLinkNext, "");
  }
}
