/**
 * `generate_static_view`: choose the output directory, then for every
 * configured language walk the URL tree for the view's routes, reverse
 * each one, and follow every new URL that has a file extension page by
 * page until no next page is named.
 */
module Crawl {
  import opened Wrappers
  import opened Errors
  import opened Routes
  import Urls
  import Fetch

  /** `settings.FROZEN_ROOT`: one directory, or a directory per host name. */
  datatype FrozenRoot = RootDir(dir: string) | RootPerHost(dirs: map<string, string>)

  /** A keyword argument for `reverse`: a query-string value, or a decoded JSON value kept in its JSON text. */
  datatype Param = Text(s: string) | Json(encoded: string)

  /**
   * What the crawl reads from Django: `routes(urlconf, language)` is
   * `get_resolver(urlconf)` as seen with `language` active (translated
   * patterns change with it); `reverse(language, solver, name, kwargs)` is
   * `iri_to_uri(solver._reverse_with_prefix(name, prefix, **kwargs))`,
   * `None` where it raises `NoReverseMatch`; `pageLimit` bounds the pages
   * of one pagination chain.
   */
  datatype Env = Env(
    routes: (Option<Param>, string) -> Urlconf,
    languages: seq<string>,
    frozenRoot: FrozenRoot,
    reverse: (string, Solver, Option<string>, map<string, Param>) -> Option<string>,
    fetcher: Fetch.Fetcher,
    pageLimit: nat)

  /** One call's fixed inputs once the output directory is chosen: the frozen host, that directory and the view's keyword arguments. */
  datatype Job = Job(env: Env, host: string, dest: string, kwargs: map<string, Param>)

  // ---------------------------------------------------------------------
  // The output directory

  /**
   * `base_dir`: a non-empty `frozen_dest` wins; otherwise a per-host root
   * is looked up by the host name without its port, and a missing host is
   * an error; otherwise the single root.
   */
  function DestRoot(frozenDest: Option<string>, root: FrozenRoot, host: string): (r: Result<string, CrawlError>)
    ensures frozenDest.Some? && frozenDest.value != "" ==> r == Ok(frozenDest.value)
    ensures (frozenDest.None? || frozenDest.value == "") && root.RootDir? ==> r == Ok(root.dir)
    ensures (frozenDest.None? || frozenDest.value == "") && root.RootPerHost? ==>
      var domain := Urls.HostDomain(host);
      && (r.Ok? <==> domain in root.dirs)
      && (r.Ok? ==> r.value == root.dirs[domain])
      && (r.Err? ==> r.error == UnknownHost(domain) && ':' !in domain)
  {
    if frozenDest.Some? && frozenDest.value != "" then Ok(frozenDest.value)
    else match root
      case RootDir(dir) => Ok(dir)
      case RootPerHost(dirs) =>
        var domain := Urls.HostDomain(host);
        if domain in dirs then Ok(dirs[domain]) else Err(UnknownHost(domain))
  }

  // ---------------------------------------------------------------------
  // One pagination chain: `while url: url = follow_url(url, host, base_dir)`

  /** The files after a chain, how it ended, and the URLs it fetched in order. */
  datatype ChainResult = ChainResult(files: map<string, string>, status: Result<(), CrawlError>, pages: seq<string>)

  /** `follow_url(·, host, dest)` with `language` active, as a function of the URL alone. */
  function Pager(f: Fetch.Fetcher, language: string, host: string, dest: string): string -> Fetch.Fetched {
    u => Fetch.Follow(f, language, u, host, dest)
  }

  /** The follow loop from `url` with at most `fuel` more pages, each fetched by `step`; running out of pages is an error. */
  function Chain(step: string -> Fetch.Fetched, files: map<string, string>, url: string, fuel: nat): ChainResult
    decreases fuel
  {
    if url == "" then ChainResult(files, Ok(()), [])
    else if fuel == 0 then ChainResult(files, Err(PageLimitReached(url)), [])
    else
      var after := Fetch.AfterFetch(files, step(url));
      match Fetch.NextOf(step(url))
      case Err(e) => ChainResult(after, Err(e), [url])
      case Ok(next) =>
        if next.None? then ChainResult(after, Ok(()), [url])
        else
          var rest := Chain(step, after, next.value, fuel - 1);
          ChainResult(rest.files, rest.status, [url] + rest.pages)
  }

  /**
   * The chain fetches `url` first and then each page the previous one
   * named, never an empty URL, and at most `fuel` pages.
   */
  lemma {:induction false} ChainFollowsNextLinks(step: string -> Fetch.Fetched, files: map<string, string>,
                                                 url: string, fuel: nat)
    ensures var c := Chain(step, files, url, fuel);
      && |c.pages| <= fuel
      && (url != "" && fuel > 0 <==> c.pages != [])
      && (c.pages != [] ==> c.pages[0] == url)
      && (forall i :: 0 <= i < |c.pages| ==> c.pages[i] != "")
      && (forall i :: 0 <= i < |c.pages| - 1 ==> Fetch.NextOf(step(c.pages[i])) == Ok(Some(c.pages[i + 1])))
    decreases fuel
  {
    if url != "" && fuel > 0 {
      var n := Fetch.NextOf(step(url));
      if n.Ok? && n.value.Some? {
        var after := Fetch.AfterFetch(files, step(url));
        var rest := Chain(step, after, n.value.value, fuel - 1);
        ChainFollowsNextLinks(step, after, n.value.value, fuel - 1);
        var c := Chain(step, files, url, fuel);
        assert c.pages == [url] + rest.pages;
        forall i | 0 <= i < |c.pages| ensures c.pages[i] != "" {
          if i > 0 {
            assert c.pages[i] == rest.pages[i - 1];
          }
        }
        forall i | 0 <= i < |c.pages| - 1
          ensures Fetch.NextOf(step(c.pages[i])) == Ok(Some(c.pages[i + 1]))
        {
          if i > 0 {
            assert c.pages[i] == rest.pages[i - 1] && c.pages[i + 1] == rest.pages[i];
          }
        }
      }
    }
  }

  /**
   * The chain stops only when `follow_url` returns a falsy value (no next
   * page, or an empty path), when a lookup fails, or when the page limit
   * is used up.
   */
  lemma {:induction false} ChainEnds(step: string -> Fetch.Fetched, files: map<string, string>, url: string, fuel: nat)
    ensures var c := Chain(step, files, url, fuel);
      c.pages != [] ==>
        var last := Fetch.NextOf(step(c.pages[|c.pages| - 1]));
        && (c.status.Ok? ==> last == Ok(None) || last == Ok(Some("")))
        && (c.status.Err? ==>
              (last.Err? && last.error == c.status.error) || (|c.pages| == fuel && last.Ok? && last.value.Some?))
    decreases fuel
  {
    if url != "" && fuel > 0 {
      var n := Fetch.NextOf(step(url));
      if n.Ok? && n.value.Some? {
        var after := Fetch.AfterFetch(files, step(url));
        var rest := Chain(step, after, n.value.value, fuel - 1);
        ChainEnds(step, after, n.value.value, fuel - 1);
        ChainFollowsNextLinks(step, after, n.value.value, fuel - 1);
        var c := Chain(step, files, url, fuel);
        assert c.pages == [url] + rest.pages;
        if rest.pages != [] {
          assert c.pages[|c.pages| - 1] == rest.pages[|rest.pages| - 1];
        }
      }
    }
  }

  /** What no call of the crawl may do to files outside `dest`, and where every new file lands. */
  ghost predicate OnlyUnder(dest: string, before: map<string, string>, after: map<string, string>) {
    && after.Keys >= before.Keys
    && (forall k :: k in before && !(dest <= k) ==> after[k] == before[k])
    && (forall k :: k in after && k !in before ==> dest <= k)
  }

  lemma OnlyUnderTransitive(dest: string, a: map<string, string>, b: map<string, string>, c: map<string, string>)
    requires OnlyUnder(dest, a, b) && OnlyUnder(dest, b, c)
    ensures OnlyUnder(dest, a, c)
  {
  }

  /** Every page `step` fetches is written under `dest`. */
  ghost predicate WritesUnder(step: string -> Fetch.Fetched, dest: string) {
    forall u :: step(u).Fetched? ==> dest <= step(u).path
  }

  lemma PagerWritesUnder(f: Fetch.Fetcher, language: string, host: string, dest: string)
    ensures WritesUnder(Pager(f, language, host, dest), dest)
  {
  }

  /** A chain writes only under `dest` and keeps every other file as it was. */
  lemma {:induction false} ChainOnlyUnderDest(step: string -> Fetch.Fetched, dest: string,
                                              files: map<string, string>, url: string, fuel: nat)
    requires WritesUnder(step, dest)
    ensures OnlyUnder(dest, files, Chain(step, files, url, fuel).files)
    decreases fuel
  {
    if url != "" && fuel > 0 {
      var after := Fetch.AfterFetch(files, step(url));
      assert OnlyUnder(dest, files, after);
      var n := Fetch.NextOf(step(url));
      if n.Ok? && n.value.Some? {
        ChainOnlyUnderDest(step, dest, after, n.value.value, fuel - 1);
        OnlyUnderTransitive(dest, files, after, Chain(step, after, n.value.value, fuel - 1).files);
      }
    }
  }

  /** The files after fetching `pages` one after the other, starting from `files`. */
  function Written(step: string -> Fetch.Fetched, files: map<string, string>, pages: seq<string>): map<string, string>
    decreases |pages|
  {
    if pages == [] then files else Written(step, Fetch.AfterFetch(files, step(pages[0])), pages[1..])
  }

  /** A chain's files are what fetching its pages in order writes. */
  lemma {:induction false} ChainWritesItsPages(step: string -> Fetch.Fetched, files: map<string, string>,
                                               url: string, fuel: nat)
    ensures var c := Chain(step, files, url, fuel); c.files == Written(step, files, c.pages)
    decreases fuel
  {
    if url != "" && fuel > 0 {
      var after := Fetch.AfterFetch(files, step(url));
      var n := Fetch.NextOf(step(url));
      var c := Chain(step, files, url, fuel);
      if n.Ok? && n.value.Some? {
        ChainWritesItsPages(step, after, n.value.value, fuel - 1);
        assert c.pages[1..] == Chain(step, after, n.value.value, fuel - 1).pages;
      } else {
        assert c.pages[1..] == [];
      }
    }
  }

  /** A page not fetched again later with the same file. */
  ghost predicate LastWrite(step: string -> Fetch.Fetched, pages: seq<string>, i: int)
    requires 0 <= i < |pages| && step(pages[i]).Fetched?
  {
    forall j :: i < j < |pages| && step(pages[j]).Fetched? ==> step(pages[j]).path != step(pages[i]).path
  }

  /** Fetching pages keeps every file and adds each fetched page's file, holding its body unless a later page rewrites it. */
  lemma {:induction false} WrittenKeeps(step: string -> Fetch.Fetched, files: map<string, string>, pages: seq<string>)
    ensures var w := Written(step, files, pages);
      && w.Keys >= files.Keys
      && (forall i :: 0 <= i < |pages| && step(pages[i]).Fetched? ==> step(pages[i]).path in w)
      && (forall i :: 0 <= i < |pages| && step(pages[i]).Fetched? && LastWrite(step, pages, i) ==>
            w[step(pages[i]).path] == step(pages[i]).content)
    decreases |pages|
  {
    if pages != [] {
      var after := Fetch.AfterFetch(files, step(pages[0]));
      var w := Written(step, files, pages);
      WrittenKeeps(step, after, pages[1..]);
      forall i | 0 <= i < |pages| && step(pages[i]).Fetched?
        ensures step(pages[i]).path in w
        ensures LastWrite(step, pages, i) ==> w[step(pages[i]).path] == step(pages[i]).content
      {
        if i > 0 {
          assert pages[1..][i - 1] == pages[i];
          if LastWrite(step, pages, i) {
            forall j | i - 1 < j < |pages[1..]| && step(pages[1..][j]).Fetched?
              ensures step(pages[1..][j]).path != step(pages[1..][i - 1]).path
            {
              assert pages[1..][j] == pages[j + 1];
            }
            assert LastWrite(step, pages[1..], i - 1);
          }
        } else if LastWrite(step, pages, 0) {
          var k := step(pages[0]).path;
          WrittenUntouched(step, after, pages[1..], k);
        }
      }
    }
  }

  /** A file no page writes keeps what it held. */
  lemma {:induction false} WrittenUntouched(step: string -> Fetch.Fetched, files: map<string, string>,
                                            pages: seq<string>, k: string)
    requires k in files
    requires forall j :: 0 <= j < |pages| && step(pages[j]).Fetched? ==> step(pages[j]).path != k
    ensures k in Written(step, files, pages) && Written(step, files, pages)[k] == files[k]
    decreases |pages|
  {
    if pages != [] {
      forall j | 0 <= j < |pages[1..]| && step(pages[1..][j]).Fetched? ensures step(pages[1..][j]).path != k {
        assert pages[1..][j] == pages[j + 1];
      }
      WrittenUntouched(step, Fetch.AfterFetch(files, step(pages[0])), pages[1..], k);
    }
  }

  /** Every file that fetching pages adds or changes is the file of some fetched page. */
  lemma {:induction false} WrittenOnlyPages(step: string -> Fetch.Fetched, files: map<string, string>, pages: seq<string>, k: string)
    requires k in Written(step, files, pages) && (k !in files || Written(step, files, pages)[k] != files[k])
    ensures exists i :: 0 <= i < |pages| && step(pages[i]).Fetched? && step(pages[i]).path == k
    decreases |pages|
  {
    var after := Fetch.AfterFetch(files, step(pages[0]));
    if step(pages[0]).Fetched? && step(pages[0]).path == k {
    } else {
      assert k in after ==> after[k] == files[k];
      WrittenOnlyPages(step, after, pages[1..], k);
      var i :| 0 <= i < |pages[1..]| && step(pages[1..][i]).Fetched? && step(pages[1..][i]).path == k;
      assert pages[1..][i] == pages[i + 1];
    }
  }

  /**
   * What a chain writes: every file stays, every page it fetches has its
   * file, holding that page's body unless a later page of the chain
   * rewrites it, and no other file is added or changed.
   */
  lemma ChainWrites(step: string -> Fetch.Fetched, files: map<string, string>, url: string, fuel: nat, k: string)
    ensures var c := Chain(step, files, url, fuel);
      && c.files.Keys >= files.Keys
      && (forall i :: 0 <= i < |c.pages| && step(c.pages[i]).Fetched? ==> step(c.pages[i]).path in c.files)
      && (forall i :: 0 <= i < |c.pages| && step(c.pages[i]).Fetched? && LastWrite(step, c.pages, i) ==>
            c.files[step(c.pages[i]).path] == step(c.pages[i]).content)
      && (k in c.files && (k !in files || c.files[k] != files[k]) ==>
            exists i :: 0 <= i < |c.pages| && step(c.pages[i]).Fetched? && step(c.pages[i]).path == k)
  {
    var c := Chain(step, files, url, fuel);
    ChainWritesItsPages(step, files, url, fuel);
    WrittenKeeps(step, files, c.pages);
    if k in c.files && (k !in files || c.files[k] != files[k]) {
      WrittenOnlyPages(step, files, c.pages, k);
    }
  }

  /** The URL the follow loop goes on with: the next page, or the empty URL, which ends it. */
  function GoOn(next: Option<string>): string {
    if next.Some? then next.value else ""
  }

  /** One turn of the follow loop: fetch `url`, then go on from the next page. */
  lemma ChainStep(step: string -> Fetch.Fetched, files: map<string, string>, after: map<string, string>,
                  url: string, fuel: nat, url': string, fuel': nat)
    requires url != "" && fuel > 0 && fuel' == fuel - 1
    requires Fetch.NextOf(step(url)).Ok? && url' == GoOn(Fetch.NextOf(step(url)).value)
    requires after == Fetch.AfterFetch(files, step(url))
    ensures Chain(step, after, url', fuel').files == Chain(step, files, url, fuel).files
    ensures Chain(step, after, url', fuel').status == Chain(step, files, url, fuel).status
  {
  }

  /** The follow loop, `url` reassigned until it is falsy, with the page limit as its bound. */
  method FollowPages(f: Fetch.Fetcher, fs: Fetch.FileSystem, language: string, start: string,
                     host: string, dest: string, limit: nat)
    returns (status: Result<(), CrawlError>)
    modifies fs
    ensures var c := Chain(Pager(f, language, host, dest), old(fs.files), start, limit);
      fs.files == c.files && status == c.status
  {
    ghost var step := Pager(f, language, host, dest);
    ghost var c0 := Chain(step, fs.files, start, limit);
    var url := start;
    var fuel := limit;
    while url != ""
      invariant Chain(step, fs.files, url, fuel).files == c0.files
      invariant Chain(step, fs.files, url, fuel).status == c0.status
      decreases fuel
    {
      if fuel == 0 {
        return Err(PageLimitReached(url));
      }
      ghost var before := fs.files;
      var next := Fetch.FollowUrl(f, fs, language, url, host, dest);
      assert step(url) == Fetch.Follow(f, language, url, host, dest);
      assert fs.files == Fetch.AfterFetch(before, step(url));
      assert next == Fetch.NextOf(step(url));
      if next.Err? {
        return Err(next.error);
      }
      ghost var prevUrl, prevFuel := url, fuel;
      url := GoOn(next.value);
      fuel := fuel - 1;
      ChainStep(step, before, fs.files, prevUrl, prevFuel, url, fuel);
    }
    return Ok(());
  }

  // ---------------------------------------------------------------------
  // The matches of one language: the loop over `walk_resolvers` with `done_urls`

  /** The crawl of one language so far: files, `done_urls`, how it stands, and the URLs whose chains were started. */
  datatype CrawlState = CrawlState(files: map<string, string>, done: set<string>,
                                   status: Result<(), CrawlError>, starts: seq<string>)

  /**
   * One match: reverse it (a failure propagates); skip a URL already done;
   * mark it done; skip it when it has no extension; otherwise follow its
   * chain. A failed state stays as it is.
   */
  function MatchStep(job: Job, language: string, st: CrawlState, m: Match): CrawlState {
    if st.status.Err? then st
    else match job.env.reverse(language, m.solver, m.name, job.kwargs)
      case None => st.(status := Err(NoReverseMatch(language, m.name)))
      case Some(url) =>
        if url in st.done then st
        else if Urls.Ext(url) == "" then st.(done := st.done + {url})
        else
          var c := Chain(Pager(job.env.fetcher, language, job.host, job.dest), st.files, url, job.env.pageLimit);
          CrawlState(c.files, st.done + {url}, c.status, st.starts + [url])
  }

  function CrawlMatches(job: Job, language: string, st: CrawlState, ms: seq<Match>): CrawlState
    decreases |ms|
  {
    if ms == [] then st else CrawlMatches(job, language, MatchStep(job, language, st, ms[0]), ms[1..])
  }

  /** What each match reverses to, in walk order. */
  function Reversals(job: Job, language: string, ms: seq<Match>): (r: seq<Option<string>>)
    ensures |r| == |ms|
    ensures forall i :: 0 <= i < |ms| ==> r[i] == job.env.reverse(language, ms[i].solver, ms[i].name, job.kwargs)
  {
    if ms == [] then [] else [job.env.reverse(language, ms[0].solver, ms[0].name, job.kwargs)] + Reversals(job, language, ms[1..])
  }

  /** Once the crawl has failed, the remaining matches change nothing. */
  lemma {:induction false} FailedStaysFailed(job: Job, language: string, st: CrawlState, ms: seq<Match>)
    requires st.status.Err?
    ensures CrawlMatches(job, language, st, ms) == st
    decreases |ms|
  {
    if ms != [] {
      FailedStaysFailed(job, language, st, ms[1..]);
    }
  }

  /** Started chains are distinct, done, and have a file extension. */
  ghost predicate StartsFresh(st: CrawlState) {
    && (forall i, j :: 0 <= i < j < |st.starts| ==> st.starts[i] != st.starts[j])
    && (forall i :: 0 <= i < |st.starts| ==> st.starts[i] in st.done && Urls.Ext(st.starts[i]) != "")
  }

  /** Every URL marked done since `st0` that has an extension had its chain started. */
  ghost predicate Covered(st0: CrawlState, st: CrawlState) {
    forall u :: u in st.done && u !in st0.done && Urls.Ext(u) != "" ==> u in st.starts
  }

  /** What crawling matches keeps of the state: starts and done only grow, and the written files stay under `dest`. */
  lemma {:induction false} CrawlMatchesGrows(job: Job, language: string, st: CrawlState, ms: seq<Match>)
    ensures var r := CrawlMatches(job, language, st, ms);
      && st.starts <= r.starts && st.done <= r.done
      && OnlyUnder(job.dest, st.files, r.files)
      && (forall i :: |st.starts| <= i < |r.starts| ==> Some(r.starts[i]) in Reversals(job, language, ms))
    decreases |ms|
  {
    if ms != [] {
      var st1 := MatchStep(job, language, st, ms[0]);
      CrawlMatchesGrows(job, language, st1, ms[1..]);
      var r := CrawlMatches(job, language, st, ms);
      if st.status.Ok? {
        var u := job.env.reverse(language, ms[0].solver, ms[0].name, job.kwargs);
        if u.Some? && u.value !in st.done && Urls.Ext(u.value) != "" {
          PagerWritesUnder(job.env.fetcher, language, job.host, job.dest);
          ChainOnlyUnderDest(Pager(job.env.fetcher, language, job.host, job.dest), job.dest, st.files, u.value, job.env.pageLimit);
        }
      }
      OnlyUnderTransitive(job.dest, st.files, st1.files, r.files);
      assert Reversals(job, language, ms) == [Reversals(job, language, ms)[0]] + Reversals(job, language, ms[1..]);
    }
  }

  /** One match keeps the starts fresh and covered; a start it adds was not done before. */
  lemma MatchStepStarts(job: Job, language: string, st0: CrawlState, st: CrawlState, m: Match)
    requires StartsFresh(st) && Covered(st0, st) && st0.done <= st.done
    ensures var st1 := MatchStep(job, language, st, m);
      && StartsFresh(st1) && Covered(st0, st1) && st0.done <= st1.done
      && st.starts <= st1.starts
      && (forall i :: |st.starts| <= i < |st1.starts| ==> st1.starts[i] !in st.done)
  {
    var st1 := MatchStep(job, language, st, m);
    if st.status.Ok? {
      var u := job.env.reverse(language, m.solver, m.name, job.kwargs);
      if u.Some? && u.value !in st.done && Urls.Ext(u.value) != "" {
        assert st1.starts == st.starts + [u.value];
        forall i | 0 <= i < |st.starts| ensures st1.starts[i] != u.value {
          assert st.starts[i] in st.done;
        }
      }
    }
  }

  /** Starts stay distinct, done and extended; a new start was not done before; every new done URL with an extension was started. */
  lemma {:induction false} CrawlMatchesStarts(job: Job, language: string, st0: CrawlState, st: CrawlState, ms: seq<Match>)
    requires StartsFresh(st) && Covered(st0, st) && st0.done <= st.done
    ensures var r := CrawlMatches(job, language, st, ms);
      && StartsFresh(r) && Covered(st0, r)
      && (forall i :: |st.starts| <= i < |r.starts| ==> r.starts[i] !in st.done)
    decreases |ms|
  {
    if ms != [] {
      var st1 := MatchStep(job, language, st, ms[0]);
      MatchStepStarts(job, language, st0, st, ms[0]);
      CrawlMatchesStarts(job, language, st0, st1, ms[1..]);
      CrawlMatchesGrows(job, language, st1, ms[1..]);
      var r := CrawlMatches(job, language, st, ms);
      forall i | |st.starts| <= i < |r.starts| ensures r.starts[i] !in st.done {
        if i < |st1.starts| {
          assert st1.starts[i] == r.starts[i];
        }
      }
    }
  }

  /** When the matches are crawled without error, every one reversed and its URL is done. */
  lemma {:induction false} CrawlMatchesComplete(job: Job, language: string, st: CrawlState, ms: seq<Match>)
    requires st.status.Ok?
    ensures var r := CrawlMatches(job, language, st, ms);
      r.status.Ok? ==> forall i :: 0 <= i < |ms| ==>
        var u := Reversals(job, language, ms)[i];
        u.Some? && u.value in r.done
    decreases |ms|
  {
    if ms != [] {
      var st1 := MatchStep(job, language, st, ms[0]);
      var r := CrawlMatches(job, language, st, ms);
      if st1.status.Err? {
        FailedStaysFailed(job, language, st1, ms[1..]);
      } else {
        CrawlMatchesComplete(job, language, st1, ms[1..]);
        CrawlMatchesGrows(job, language, st1, ms[1..]);
        var rs := Reversals(job, language, ms);
        assert rs == [rs[0]] + Reversals(job, language, ms[1..]);
      }
    }
  }

  /** A URL that resolves under `language` has its file among `files`. */
  ghost predicate Frozen(job: Job, language: string, url: string, files: map<string, string>) {
    Fetch.Follow(job.env.fetcher, language, url, job.host, job.dest).Fetched? ==>
      Urls.OutputPath(job.dest, url) in files
  }

  /** Every chain started so far has its first page's file. */
  ghost predicate StartsFrozen(job: Job, language: string, st: CrawlState) {
    forall i :: 0 <= i < |st.starts| ==> Frozen(job, language, st.starts[i], st.files)
  }

  /** A chain started with pages left to fetch writes its first page's file. */
  lemma ChainFreezesStart(job: Job, language: string, files: map<string, string>, url: string)
    requires url != "" && job.env.pageLimit > 0
    ensures var c := Chain(Pager(job.env.fetcher, language, job.host, job.dest), files, url, job.env.pageLimit);
      Frozen(job, language, url, c.files) && c.files.Keys >= files.Keys
  {
    var step := Pager(job.env.fetcher, language, job.host, job.dest);
    ChainFollowsNextLinks(step, files, url, job.env.pageLimit);
    ChainWrites(step, files, url, job.env.pageLimit, url);
  }

  lemma MatchStepFreezes(job: Job, language: string, st: CrawlState, m: Match)
    requires job.env.pageLimit > 0 && StartsFrozen(job, language, st)
    ensures var st1 := MatchStep(job, language, st, m);
      StartsFrozen(job, language, st1) && st1.files.Keys >= st.files.Keys
  {
    if st.status.Ok? {
      var u := job.env.reverse(language, m.solver, m.name, job.kwargs);
      if u.Some? && u.value !in st.done && Urls.Ext(u.value) != "" {
        ChainFreezesStart(job, language, st.files, u.value);
        var st1 := MatchStep(job, language, st, m);
        assert st1.starts == st.starts + [u.value];
        forall i | 0 <= i < |st1.starts| ensures Frozen(job, language, st1.starts[i], st1.files) {
          if i < |st.starts| {
            assert Frozen(job, language, st.starts[i], st.files);
          }
        }
      }
    }
  }

  /** Crawling matches keeps every started chain's first file and never drops a file. */
  lemma {:induction false} CrawlMatchesFreezes(job: Job, language: string, st: CrawlState, ms: seq<Match>)
    requires job.env.pageLimit > 0 && StartsFrozen(job, language, st)
    ensures var r := CrawlMatches(job, language, st, ms);
      StartsFrozen(job, language, r) && r.files.Keys >= st.files.Keys
    decreases |ms|
  {
    if ms != [] {
      MatchStepFreezes(job, language, st, ms[0]);
      CrawlMatchesFreezes(job, language, MatchStep(job, language, st, ms[0]), ms[1..]);
    }
  }

  /** The crawl of one language, with `done_urls` starting empty. */
  function LanguageCrawl(job: Job, urlconf: Option<Param>, viewName: string,
                         files: map<string, string>, language: string): CrawlState {
    CrawlMatches(job, language, CrawlState(files, {}, Ok(()), []),
                 Walk(viewName, job.env.routes(urlconf, language)))
  }

  /**
   * Within one language each URL's chain is started at most once, only
   * for URLs with an extension, and — when nothing failed — for every
   * reversed URL with an extension; every file written lies under `dest`.
   */
  lemma LanguageCrawlSpec(job: Job, urlconf: Option<Param>, viewName: string,
                          files: map<string, string>, language: string)
    ensures var r := LanguageCrawl(job, urlconf, viewName, files, language);
      var rs := Reversals(job, language, Walk(viewName, job.env.routes(urlconf, language)));
      && (forall i, j :: 0 <= i < j < |r.starts| ==> r.starts[i] != r.starts[j])
      && (forall i :: 0 <= i < |r.starts| ==> Urls.Ext(r.starts[i]) != "" && Some(r.starts[i]) in rs)
      && (r.status.Ok? ==> forall i :: 0 <= i < |rs| ==>
            rs[i].Some? && (Urls.Ext(rs[i].value) != "" ==> rs[i].value in r.starts))
      && OnlyUnder(job.dest, files, r.files)
      && (job.env.pageLimit > 0 ==> forall i :: 0 <= i < |r.starts| ==> Frozen(job, language, r.starts[i], r.files))
  {
    var ms := Walk(viewName, job.env.routes(urlconf, language));
    var st := CrawlState(files, {}, Ok(()), []);
    CrawlMatchesGrows(job, language, st, ms);
    CrawlMatchesStarts(job, language, st, st, ms);
    CrawlMatchesComplete(job, language, st, ms);
    if job.env.pageLimit > 0 {
      CrawlMatchesFreezes(job, language, st, ms);
    }
  }

  /** Every URL the language's matches reverse to, when it has an extension and resolves, has its file. */
  ghost predicate LanguageFrozen(job: Job, urlconf: Option<Param>, viewName: string, language: string,
                                 files: map<string, string>) {
    var rs := Reversals(job, language, Walk(viewName, job.env.routes(urlconf, language)));
    forall i :: 0 <= i < |rs| && rs[i].Some? && Urls.Ext(rs[i].value) != "" ==> Frozen(job, language, rs[i].value, files)
  }

  /** A language crawled without error has frozen every reversed URL with an extension. */
  lemma LanguageCrawlFreezes(job: Job, urlconf: Option<Param>, viewName: string,
                             files: map<string, string>, language: string)
    requires job.env.pageLimit > 0
    ensures var r := LanguageCrawl(job, urlconf, viewName, files, language);
      r.status.Ok? ==> LanguageFrozen(job, urlconf, viewName, language, r.files)
  {
    var ms := Walk(viewName, job.env.routes(urlconf, language));
    var st := CrawlState(files, {}, Ok(()), []);
    var r := CrawlMatches(job, language, st, ms);
    var rs := Reversals(job, language, ms);
    CrawlMatchesStarts(job, language, st, st, ms);
    CrawlMatchesComplete(job, language, st, ms);
    CrawlMatchesFreezes(job, language, st, ms);
    if r.status.Ok? {
      forall i | 0 <= i < |rs| && rs[i].Some? && Urls.Ext(rs[i].value) != ""
        ensures Frozen(job, language, rs[i].value, r.files)
      {
        assert rs[i].value in r.done;
        assert rs[i].value in r.starts;
        var j :| 0 <= j < |r.starts| && r.starts[j] == rs[i].value;
        assert Frozen(job, language, r.starts[j], r.files);
      }
    }
  }

  /** Freezing holds on for a larger file map. */
  lemma LanguageFrozenGrows(job: Job, urlconf: Option<Param>, viewName: string, language: string,
                            files: map<string, string>, files': map<string, string>)
    requires LanguageFrozen(job, urlconf, viewName, language, files) && files'.Keys >= files.Keys
    ensures LanguageFrozen(job, urlconf, viewName, language, files')
  {
    var rs := Reversals(job, language, Walk(viewName, job.env.routes(urlconf, language)));
    forall i | 0 <= i < |rs| && rs[i].Some? && Urls.Ext(rs[i].value) != ""
      ensures Frozen(job, language, rs[i].value, files')
    {
      assert Frozen(job, language, rs[i].value, files);
    }
  }

  // ---------------------------------------------------------------------
  // All languages, and the whole call

  /** The files after the call and how it ended. */
  datatype Outcome = Outcome(files: map<string, string>, status: Result<(), CrawlError>)

  /** The loop over `settings.LANGUAGES`; a failure ends the call. */
  function CrawlLanguages(job: Job, urlconf: Option<Param>, viewName: string,
                          files: map<string, string>, languages: seq<string>): Outcome
    decreases |languages|
  {
    if languages == [] then Outcome(files, Ok(()))
    else
      var c := LanguageCrawl(job, urlconf, viewName, files, languages[0]);
      if c.status.Err? then Outcome(c.files, c.status)
      else CrawlLanguages(job, urlconf, viewName, c.files, languages[1..])
  }

  /** `generate_static_view(view_name, frozen_host, frozen_dest, urlconf, **kwargs)`. */
  function Generate(env: Env, viewName: string, host: string, frozenDest: Option<string>,
                    urlconf: Option<Param>, kwargs: map<string, Param>, files: map<string, string>): Outcome {
    match DestRoot(frozenDest, env.frozenRoot, host)
    case Err(e) => Outcome(files, Err(e))
    case Ok(dest) => CrawlLanguages(Job(env, host, dest, kwargs), urlconf, viewName, files, env.languages)
  }

  lemma {:induction false} CrawlLanguagesOnlyUnder(job: Job, urlconf: Option<Param>, viewName: string,
                                                   files: map<string, string>, languages: seq<string>)
    ensures OnlyUnder(job.dest, files, CrawlLanguages(job, urlconf, viewName, files, languages).files)
    decreases |languages|
  {
    if languages != [] {
      var c := LanguageCrawl(job, urlconf, viewName, files, languages[0]);
      LanguageCrawlSpec(job, urlconf, viewName, files, languages[0]);
      if c.status.Ok? {
        CrawlLanguagesOnlyUnder(job, urlconf, viewName, c.files, languages[1..]);
        OnlyUnderTransitive(job.dest, files, c.files, CrawlLanguages(job, urlconf, viewName, c.files, languages[1..]).files);
      }
    }
  }

  /**
   * The call writes only under the directory `DestRoot` chooses and keeps
   * every other file; when no directory can be chosen it writes nothing.
   */
  lemma GenerateWritesUnderBase(env: Env, viewName: string, host: string, frozenDest: Option<string>,
                                urlconf: Option<Param>, kwargs: map<string, Param>, files: map<string, string>)
    ensures var g := Generate(env, viewName, host, frozenDest, urlconf, kwargs, files);
      match DestRoot(frozenDest, env.frozenRoot, host)
      case Err(e) => g == Outcome(files, Err(e))
      case Ok(dest) => OnlyUnder(dest, files, g.files)
  {
    var d := DestRoot(frozenDest, env.frozenRoot, host);
    if d.Ok? {
      CrawlLanguagesOnlyUnder(Job(env, host, d.value, kwargs), urlconf, viewName, files, env.languages);
    }
  }

  /** A call over the languages that ends without error has frozen each language's reversed URLs. */
  lemma {:induction false} CrawlLanguagesFreezes(job: Job, urlconf: Option<Param>, viewName: string,
                                                 files: map<string, string>, languages: seq<string>)
    requires job.env.pageLimit > 0
    ensures var o := CrawlLanguages(job, urlconf, viewName, files, languages);
      o.status.Ok? ==> forall l :: l in languages ==> LanguageFrozen(job, urlconf, viewName, l, o.files)
    decreases |languages|
  {
    if languages != [] {
      var c := LanguageCrawl(job, urlconf, viewName, files, languages[0]);
      var o := CrawlLanguages(job, urlconf, viewName, files, languages);
      if c.status.Ok? {
        LanguageCrawlFreezes(job, urlconf, viewName, files, languages[0]);
        CrawlLanguagesFreezes(job, urlconf, viewName, c.files, languages[1..]);
        CrawlLanguagesOnlyUnder(job, urlconf, viewName, c.files, languages[1..]);
        if o.status.Ok? {
          LanguageFrozenGrows(job, urlconf, viewName, languages[0], c.files, o.files);
          forall l | l in languages ensures LanguageFrozen(job, urlconf, viewName, l, o.files) {
            if l != languages[0] {
              assert l in languages[1..];
            }
          }
        }
      }
    }
  }

  /**
   * A call that ends without error has captured every URL it set out to:
   * for each configured language, every reversed URL with an extension
   * that resolves has its file under the chosen directory.
   */
  lemma GenerateFreezesEveryUrl(env: Env, viewName: string, host: string, frozenDest: Option<string>,
                                urlconf: Option<Param>, kwargs: map<string, Param>, files: map<string, string>)
    requires env.pageLimit > 0
    ensures var g := Generate(env, viewName, host, frozenDest, urlconf, kwargs, files);
      var d := DestRoot(frozenDest, env.frozenRoot, host);
      g.status.Ok? ==> d.Ok? && forall l :: l in env.languages ==>
        LanguageFrozen(Job(env, host, d.value, kwargs), urlconf, viewName, l, g.files)
  {
    var d := DestRoot(frozenDest, env.frozenRoot, host);
    if d.Ok? {
      CrawlLanguagesFreezes(Job(env, host, d.value, kwargs), urlconf, viewName, files, env.languages);
    }
  }

  /** With no languages configured nothing is crawled. */
  lemma NoLanguagesNoFiles(env: Env, viewName: string, host: string, frozenDest: Option<string>,
                           urlconf: Option<Param>, kwargs: map<string, Param>, files: map<string, string>)
    requires env.languages == []
    ensures Generate(env, viewName, host, frozenDest, urlconf, kwargs, files).files == files
  {
  }

  /** One turn of the loop over matches, at index `i`. */
  lemma MatchesStep(job: Job, language: string, st: CrawlState, st': CrawlState, ms: seq<Match>, i: nat)
    requires i < |ms| && st' == MatchStep(job, language, st, ms[i])
    ensures CrawlMatches(job, language, st', ms[i + 1..]) == CrawlMatches(job, language, st, ms[i..])
  {
    assert ms[i..][0] == ms[i] && ms[i..][1..] == ms[i + 1..];
  }

  /** One turn of the loop over languages, at index `i`. */
  lemma LanguagesStep(job: Job, urlconf: Option<Param>, viewName: string, files: map<string, string>,
                      languages: seq<string>, i: nat)
    requires i < |languages|
    ensures var c := LanguageCrawl(job, urlconf, viewName, files, languages[i]);
      CrawlLanguages(job, urlconf, viewName, files, languages[i..]) ==
        if c.status.Err? then Outcome(c.files, c.status)
        else CrawlLanguages(job, urlconf, viewName, c.files, languages[i + 1..])
  {
    assert languages[i..][0] == languages[i] && languages[i..][1..] == languages[i + 1..];
  }

  /** `generate_static_view`, with its nested loops and the `done_urls` set. */
  method GenerateStaticView(env: Env, fs: Fetch.FileSystem, viewName: string, host: string,
                            frozenDest: Option<string>, urlconf: Option<Param>, kwargs: map<string, Param>)
    returns (status: Result<(), CrawlError>)
    modifies fs
    ensures var g := Generate(env, viewName, host, frozenDest, urlconf, kwargs, old(fs.files));
      fs.files == g.files && status == g.status
  {
    var base := DestRoot(frozenDest, env.frozenRoot, host);
    if base.Err? {
      return Err(base.error);
    }
    var job := Job(env, host, base.value, kwargs);
    ghost var goal := CrawlLanguages(job, urlconf, viewName, fs.files, env.languages);
    assert env.languages[0..] == env.languages;
    for li := 0 to |env.languages|
      invariant CrawlLanguages(job, urlconf, viewName, fs.files, env.languages[li..]) == goal
    {
      var language := env.languages[li];
      var matches := Walk(viewName, env.routes(urlconf, language));
      ghost var langStart := fs.files;
      ghost var langGoal := LanguageCrawl(job, urlconf, viewName, langStart, language);
      LanguagesStep(job, urlconf, viewName, langStart, env.languages, li);
      var done: set<string> := {};
      ghost var starts: seq<string> := [];
      assert matches[0..] == matches;
      for mi := 0 to |matches|
        invariant CrawlMatches(job, language, CrawlState(fs.files, done, Ok(()), starts), matches[mi..]) == langGoal
      {
        ghost var st := CrawlState(fs.files, done, Ok(()), starts);
        var m := matches[mi];
        var url := env.reverse(language, m.solver, m.name, kwargs);
        if url.None? {
          ghost var failed := CrawlState(fs.files, done, Err(NoReverseMatch(language, m.name)), starts);
          MatchesStep(job, language, st, failed, matches, mi);
          FailedStaysFailed(job, language, failed, matches[mi + 1..]);
          return Err(NoReverseMatch(language, m.name));
        }
        if url.value in done {
          MatchesStep(job, language, st, st, matches, mi);
          continue;
        }
        done := done + {url.value};
        if Urls.Ext(url.value) == "" {
          MatchesStep(job, language, st, CrawlState(fs.files, done, Ok(()), starts), matches, mi);
          continue;
        }
        var chainStatus := FollowPages(env.fetcher, fs, language, url.value, host, base.value, env.pageLimit);
        starts := starts + [url.value];
        if chainStatus.Err? {
          ghost var failed := CrawlState(fs.files, done, chainStatus, starts);
          assert failed == MatchStep(job, language, st, m);
          MatchesStep(job, language, st, failed, matches, mi);
          FailedStaysFailed(job, language, failed, matches[mi + 1..]);
          return chainStatus;
        }
        assert chainStatus.value == ();
        ghost var st' := CrawlState(fs.files, done, Ok(()), starts);
        assert st' == MatchStep(job, language, st, m);
        MatchesStep(job, language, st, st', matches, mi);
      }
      assert matches[|matches|..] == [];
    }
    assert env.languages[|env.languages|..] == [];
    return Ok(());
  }
}
