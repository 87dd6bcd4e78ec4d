/**
 * `follow_url`: resolve one URL to its view, wrap the view in the
 * configured middlewares, render it for a request against the frozen host,
 * write the body under the destination directory and report the next
 * page to follow.
 */
module Fetch {
  import opened Wrappers
  import opened Errors
  import opened Text
  import Urls
  import Links

  /** The request `RequestFactory(SERVER_NAME=host).get(target)` builds, under the active language. */
  datatype Request = Request(language: string, serverName: string, target: string)

  /** A rendered response: its header map and its decoded body. */
  datatype Response = Response(headers: map<string, string>, content: string)

  /** A view with its resolved arguments bound (`partial(func, *args, **kwargs)`). */
  type Handler = Request -> Response

  /** A middleware factory: it takes the view and returns the wrapped view. */
  type Middleware = Handler -> Handler

  /** The view after `for m in middlewares: view = m(view)`: the last middleware listed is the outermost. */
  function Wrap(view: Handler, middlewares: seq<Middleware>): Handler
    decreases |middlewares|
  {
    if middlewares == [] then view
    else
      var n := |middlewares| - 1;
      middlewares[n](Wrap(view, middlewares[..n]))
  }

  /** The first middleware listed is applied first, directly around the view. */
  lemma {:induction false} WrapFirstInnermost(view: Handler, m: Middleware, rest: seq<Middleware>)
    ensures Wrap(view, [m] + rest) == Wrap(m(view), rest)
    decreases |rest|
  {
    if rest != [] {
      var n := |rest| - 1;
      assert ([m] + rest)[..n + 1] == [m] + rest[..n];
      WrapFirstInnermost(view, m, rest[..n]);
    }
  }

  /** Wrapping in `a` and then in `b` is wrapping in `a + b`. */
  lemma {:induction false} WrapAppend(view: Handler, a: seq<Middleware>, b: seq<Middleware>)
    ensures Wrap(Wrap(view, a), b) == Wrap(view, a + b)
    decreases |b|
  {
    if b == [] {
      assert a + b == a;
    } else {
      var n := |b| - 1;
      assert (a + b)[..|a| + n] == a + b[..n];
      WrapAppend(view, a, b[..n]);
    }
  }

  /** The middleware loop of `follow_url`. */
  method ApplyMiddlewares(view: Handler, middlewares: seq<Middleware>) returns (wrapped: Handler)
    ensures wrapped == Wrap(view, middlewares)
  {
    wrapped := view;
    for i := 0 to |middlewares|
      invariant wrapped == Wrap(view, middlewares[..i])
    {
      assert middlewares[..i + 1][..i] == middlewares[..i];
      wrapped := middlewares[i](wrapped);
    }
    assert middlewares[..|middlewares|] == middlewares;
  }

  /** The output tree: file path to the text last written there. */
  class FileSystem {
    var files: map<string, string>

    constructor()
      ensures files == map[]
    {
      files := map[];
    }

    /** `open(path, 'w').write(content)`: the file is created or replaced. */
    method Write(path: string, content: string)
      modifies this
      ensures files == old(files)[path := content]
    {
      files := files[path := content];
    }
  }

  /**
   * What `follow_url` takes from its surroundings:
   * `resolve(language, url)` is Django's `resolve` under the active
   * language, `None` where it raises `Resolver404`; `middlewares` is
   * `FROZEN_MIDDLEWARE` after `import_string`; `urljoin`, `guessMime`
   * (`guess_type(url)[0]`) and `findLinkNext` (BeautifulSoup's
   * `find('link', {'rel': 'next'})` over the body) are the library calls.
   */
  datatype Fetcher = Fetcher(
    resolve: (string, string) -> Option<Handler>,
    middlewares: seq<Middleware>,
    urljoin: (string, string) -> string,
    guessMime: string -> Option<string>,
    findLinkNext: string -> Option<Links.LinkTag>)

  /** What following one URL does: nothing when it does not resolve, else one file written and a next-page result. */
  datatype Fetched =
    | Unresolved
    | Fetched(path: string, content: string, next: Result<Option<string>, CrawlError>)

  /** The request for `url`: `urljoin(host, url.lstrip('/'))` against the frozen host. */
  function RequestFor(f: Fetcher, language: string, url: string, host: string): Request {
    Request(language, host, f.urljoin(host, LStripChars(url, {'/'})))
  }

  /**
   * `follow_url(url, host, dest)` as a value: an unresolvable URL writes
   * nothing; otherwise the wrapped view's body goes to the URL's path
   * under `dest`, and the next page is looked up afterwards.
   */
  function Follow(f: Fetcher, language: string, url: string, host: string, dest: string): (r: Fetched)
    ensures r.Unresolved? <==> f.resolve(language, url).None?
    ensures r.Fetched? ==> r.path == Urls.OutputPath(dest, url) && dest <= r.path
    ensures r.Fetched? && r.next.Ok? && r.next.value.Some? ==>
      '?' !in r.next.value.value && '#' !in r.next.value.value
  {
    match f.resolve(language, url)
    case None => Unresolved
    case Some(view) =>
      var response := Wrap(view, f.middlewares)(RequestFor(f, language, url, host));
      Fetched(Urls.OutputPath(dest, url), response.content,
              Links.NextUrl(url, response.headers, response.content, f.guessMime, f.findLinkNext))
  }

  /** The file map after a fetch. */
  function AfterFetch(files: map<string, string>, o: Fetched): map<string, string> {
    if o.Unresolved? then files else files[o.path := o.content]
  }

  /** The value `follow_url` returns: `None` for an unresolvable URL, else the next-page lookup. */
  function NextOf(o: Fetched): Result<Option<string>, CrawlError> {
    if o.Unresolved? then Ok(None) else o.next
  }

  /**
   * A fetch touches exactly one file, under `dest`, and none when the
   * URL does not resolve; an unresolvable URL has no next page.
   */
  lemma FollowWritesOnlyUnderDest(f: Fetcher, files: map<string, string>, language: string,
                                  url: string, host: string, dest: string)
    ensures var o := Follow(f, language, url, host, dest);
      && (f.resolve(language, url).None? ==> AfterFetch(files, o) == files && NextOf(o) == Ok(None))
      && (forall k :: k in files && !(dest <= k) ==> k in AfterFetch(files, o) && AfterFetch(files, o)[k] == files[k])
      && (forall k :: k in AfterFetch(files, o) && k !in files ==> dest <= k)
      && AfterFetch(files, o).Keys >= files.Keys
  {
  }

  /** The file written for a URL does not depend on its query string. */
  lemma FollowIgnoresQuery(f: Fetcher, language: string, p: string, q: string, host: string, dest: string)
    requires |p| >= 1 && p[0] == '/' && !(|p| >= 2 && p[1] == '/')
    requires '?' !in p && '#' !in p
    requires f.resolve(language, p).Some? && f.resolve(language, p + "?" + q).Some?
    ensures Follow(f, language, p + "?" + q, host, dest).path == Follow(f, language, p, host, dest).path
  {
    Urls.OutputPathIgnoresQuery(dest, p, q);
  }

  /**
   * The body written is the response of the view wrapped in the
   * middlewares, first listed innermost; with no middleware it is the
   * bare view's response.
   */
  lemma FollowRendersWrappedView(f: Fetcher, language: string, url: string, host: string, dest: string)
    requires f.resolve(language, url).Some?
    ensures var view, req := f.resolve(language, url).value, RequestFor(f, language, url, host);
      && (f.middlewares == [] ==> Follow(f, language, url, host, dest).content == view(req).content)
      && (f.middlewares != [] ==>
            Follow(f, language, url, host, dest).content == Wrap(f.middlewares[0](view), f.middlewares[1..])(req).content)
  {
    if f.middlewares != [] {
      assert f.middlewares == [f.middlewares[0]] + f.middlewares[1..];
      WrapFirstInnermost(f.resolve(language, url).value, f.middlewares[0], f.middlewares[1..]);
    }
  }

  /** `follow_url(url, host, dest)`. */
  method FollowUrl(f: Fetcher, fs: FileSystem, language: string, url: string, host: string, dest: string)
    returns (next: Result<Option<string>, CrawlError>)
    modifies fs
    ensures fs.files == AfterFetch(old(fs.files), Follow(f, language, url, host, dest))
    ensures next == NextOf(Follow(f, language, url, host, dest))
  {
    var routeMatch := f.resolve(language, url);
    if routeMatch.None? {
      return Ok(None);
    }
    var view := ApplyMiddlewares(routeMatch.value, f.middlewares);
    var response := view(RequestFor(f, language, url, host));
    var fullpath := Urls.OutputPath(dest, url);
    fs.Write(fullpath, response.content);
    next := Links.NextUrl(url, response.headers, response.content, f.guessMime, f.findLinkNext);
  }
}
