/**
 * The parts of `urllib.parse` and `os.path` that the crawler applies to
 * URLs and file names: the path component of `urlparse`, the network
 * location of `urlsplit`, `posixpath.splitext` and `posixpath.join`.
 */
module Urls {
  import opened Text

  /** The five fields of `urlsplit`. */
  datatype SplitResult = SplitResult(scheme: string, netloc: string, path: string, query: string, fragment: string)

  predicate IsAsciiLetter(c: char) {
    'a' <= c <= 'z' || 'A' <= c <= 'Z'
  }

  /** `urllib.parse.scheme_chars`. */
  predicate IsSchemeChar(c: char) {
    IsAsciiLetter(c) || '0' <= c <= '9' || c == '+' || c == '-' || c == '.'
  }

  /** ASCII lower-casing, as `str.lower` acts on a scheme. */
  function Lower(s: string): (r: string)
    ensures |r| == |s|
  {
    if s == [] then []
    else [if 'A' <= s[0] <= 'Z' then (s[0] as int + 32) as char else s[0]] + Lower(s[1..])
  }

  /** `urllib.parse.uses_params`: the schemes whose last path segment may carry `;params`. */
  const UsesParams: set<string> := {
    "", "ftp", "hdl", "prospero", "http", "imap", "https", "shttp", "rtsp", "rtsps",
    "rtspu", "sip", "sips", "mms", "sftp", "tel"
  }

  /** The scheme is the text before the first `:` when it starts with a letter and is made of scheme characters. */
  function SplitScheme(url: string): (string, string) {
    var i := FindAny(url, {':'}, 0);
    if i > 0 && IsAsciiLetter(url[0]) && forall k :: 0 <= k < i ==> IsSchemeChar(url[k])
    then (Lower(url[..i]), url[i + 1..])
    else ("", url)
  }

  /** `_splitnetloc(url, 2)`: the authority runs to the first `/`, `?` or `#`. */
  function SplitNetloc(url: string): (string, string)
    requires |url| >= 2
  {
    var d := FindAny(url, {'/', '?', '#'}, 2);
    var delim := if d < 0 then |url| else d;
    (url[2..delim], url[delim..])
  }

  /** `s.split(c, 1)` when `c in s`, and `(s, "")` otherwise. */
  function SplitOnce(s: string, c: char): (string, string) {
    var i := FindAny(s, {c}, 0);
    if i < 0 then (s, "") else (s[..i], s[i + 1..])
  }

  /** `urlsplit(url)`, without the stripping of leading spaces and control characters, the removal of tabs and newlines, and the IPv6 check. */
  function UrlSplit(url: string): SplitResult {
    var (scheme, rest) := SplitScheme(url);
    var (netloc, rest2) := if |rest| >= 2 && rest[..2] == "//" then SplitNetloc(rest) else ("", rest);
    var (rest3, fragment) := SplitOnce(rest2, '#');
    var (path, query) := SplitOnce(rest3, '?');
    SplitResult(scheme, netloc, path, query, fragment)
  }

  /** `_splitparams`: cut `;params` off the last path segment. */
  function StripParams(path: string): string {
    var slash := FindAny(path, {'/'}, 0);
    if slash >= 0 then
      var i := FindAny(path, {';'}, RFind(path, '/'));
      if i < 0 then path else path[..i]
    else
      var i := FindAny(path, {';'}, 0);
      if i < 0 then path else path[..i]
  }

  /** `urlparse(url).path`. */
  function UrlPath(url: string): string {
    var parts := UrlSplit(url);
    if parts.scheme in UsesParams && ';' in parts.path then StripParams(parts.path) else parts.path
  }

  /** The text before the first occurrence of `c` is free of `c`. */
  lemma SplitOnceHead(s: string, c: char)
    ensures c !in SplitOnce(s, c).0
    ensures c !in s ==> SplitOnce(s, c) == (s, "")
  {
    var i := FindAny(s, {c}, 0);
    if i >= 0 {
      assert forall k :: 0 <= k < i ==> s[k] != c;
    }
  }

  /** A prefix of a string free of `c` is free of `c`. */
  lemma PrefixFree(s: string, t: string, c: char)
    requires t <= s && c !in s
    ensures c !in t
  {
    forall k | 0 <= k < |t| ensures t[k] != c {
      assert t[k] == s[k];
    }
  }

  /** The head `SplitOnce` returns is a prefix of its input. */
  lemma SplitOncePrefix(s: string, c: char)
    ensures SplitOnce(s, c).0 <= s
  {
  }

  /** Cutting `;params` keeps a prefix of the path. */
  lemma StripParamsPrefix(path: string)
    ensures StripParams(path) <= path
  {
  }

  /** The path component never holds a query or a fragment. */
  lemma UrlPathHasNoQuery(url: string)
    ensures '?' !in UrlPath(url) && '#' !in UrlPath(url)
  {
    var (scheme, rest) := SplitScheme(url);
    var (netloc, rest2) := if |rest| >= 2 && rest[..2] == "//" then SplitNetloc(rest) else ("", rest);
    var rest3 := SplitOnce(rest2, '#').0;
    var p := SplitOnce(rest3, '?').0;
    assert UrlSplit(url).path == p;
    SplitOnceHead(rest2, '#');
    SplitOnceHead(rest3, '?');
    SplitOncePrefix(rest3, '?');
    PrefixFree(rest3, p, '#');
    StripParamsPrefix(p);
    if UrlSplit(url).scheme in UsesParams && ';' in p {
      PrefixFree(p, StripParams(p), '?');
      PrefixFree(p, StripParams(p), '#');
    }
  }

  /** A path that starts with a single `/` has no scheme and no network location. */
  lemma RootedHasNoAuthority(p: string)
    requires |p| >= 1 && p[0] == '/' && !(|p| >= 2 && p[1] == '/')
    ensures SplitScheme(p) == ("", p)
    ensures var u := UrlSplit(p); u.scheme == "" && u.netloc == ""
  {
  }

  /** Splitting `a + b` at the first `c`, when `a` holds none, splits inside `b`. */
  lemma SplitOnceAppend(a: string, b: string, c: char)
    requires c !in a
    ensures SplitOnce(a + b, c) == (a + SplitOnce(b, c).0, SplitOnce(b, c).1)
  {
    FindAnyAppend(a, b, {c}, 0);
    FindAnyNone(a, {c});
    var j := FindAny(b, {c}, 0);
    if j >= 0 {
      assert (a + b)[..|a| + j] == a + b[..j];
      assert (a + b)[|a| + j + 1..] == b[j + 1..];
    }
  }

  /** The first `c` of `a + [c] + b`, when `a` holds none, ends the head `a`. */
  lemma SplitOnceAt(a: string, b: string, c: char)
    requires c !in a
    ensures SplitOnce(a + [c] + b, c).0 == a
  {
    FindAnyAppend(a, [c] + b, {c}, 0);
    FindAnyNone(a, {c});
    assert a + [c] + b == a + ([c] + b);
    assert (a + [c] + b)[..|a|] == a;
  }

  /**
   * The query string does not reach the path: for a rooted path `p`
   * without `?` or `#`, `urlparse(p + "?" + q).path == urlparse(p).path`.
   */
  lemma QueryIgnored(p: string, q: string)
    requires |p| >= 1 && p[0] == '/' && !(|p| >= 2 && p[1] == '/')
    requires '?' !in p && '#' !in p
    ensures UrlPath(p + "?" + q) == UrlPath(p)
  {
    var u := p + "?" + q;
    RootedHasNoAuthority(p);
    RootedHasNoAuthority(u);
    SplitOnceHead(p, '#');
    SplitOnceHead(p, '?');
    assert UrlSplit(p).path == p;
    assert u == (p + "?") + q;
    SplitOnceAppend(p + "?", q, '#');
    var head := SplitOnce(u, '#').0;
    assert head == p + "?" + SplitOnce(q, '#').0;
    SplitOnceAt(p, SplitOnce(q, '#').0, '?');
    assert UrlSplit(u).path == p;
  }

  /** A string without any character of `cs` has no hit. */
  lemma FindAnyNone(s: string, cs: set<char>)
    requires forall k :: 0 <= k < |s| ==> s[k] !in cs
    ensures FindAny(s, cs, 0) == -1
  {
    FindAnyNoneFrom(s, cs, 0);
  }

  lemma {:induction false} FindAnyNoneFrom(s: string, cs: set<char>, start: nat)
    requires forall k :: start <= k < |s| ==> s[k] !in cs
    ensures FindAny(s, cs, start) == -1
    decreases |s| - start
  {
    if start < |s| {
      FindAnyNoneFrom(s, cs, start + 1);
    }
  }

  /** A rooted path with no `?`, `#` or `;` is its own path component. */
  lemma PlainPathIsItsOwnPath(p: string)
    requires |p| >= 1 && p[0] == '/' && !(|p| >= 2 && p[1] == '/')
    requires '?' !in p && '#' !in p && ';' !in p
    ensures UrlPath(p) == p
  {
    RootedHasNoAuthority(p);
    SplitOnceHead(p, '#');
    SplitOnceHead(p, '?');
  }

  // ---------------------------------------------------------------------
  // posixpath

  /**
   * `posixpath.splitext(p)[1]`: the suffix from the last `.` of the last
   * `/`-separated component, provided some character before that dot in the
   * component is not a dot (so `.bashrc` has no extension); `""` otherwise.
   */
  function Ext(p: string): (r: string)
    ensures r == "" || (r[0] == '.' && |r| <= |p| && r == p[|p| - |r|..])
    ensures r != "" ==> '/' !in r && '.' !in r[1..]
  {
    var sepIndex := RFind(p, '/');
    var dotIndex := RFind(p, '.');
    if dotIndex > sepIndex && exists k :: sepIndex + 1 <= k < dotIndex && p[k] != '.'
    then
      assert '/' !in p[dotIndex..] by {
        forall k | 0 <= k < |p[dotIndex..]| ensures p[dotIndex..][k] != '/' {
          assert p[dotIndex..][k] == p[dotIndex + k];
        }
      }
      assert '.' !in p[dotIndex..][1..] by {
        forall k | 0 <= k < |p[dotIndex..][1..]| ensures p[dotIndex..][1..][k] != '.' {
          assert p[dotIndex..][1..][k] == p[dotIndex + 1 + k];
        }
      }
      p[dotIndex..]
    else ""
  }

  /** The last `/`-separated component of `p`. */
  function LastComponent(p: string): (r: string)
    ensures '/' !in r
  {
    var i := RFind(p, '/');
    var r := p[i + 1..];
    assert '/' !in r by {
      forall k | 0 <= k < |r| ensures r[k] != '/' {
        assert r[k] == p[i + 1 + k];
      }
    }
    r
  }

  /** A component "has an extension" when a dot follows some non-dot character in it. */
  ghost predicate HasExtension(name: string) {
    exists i, j :: 0 <= j < i < |name| && name[j] != '.' && name[i] == '.'
  }

  /** `splitext` finds an extension exactly when the last component has one. */
  lemma ExtIffLastComponentHasExtension(p: string)
    ensures Ext(p) != "" <==> HasExtension(LastComponent(p))
  {
    if HasExtension(LastComponent(p)) {
      var name := LastComponent(p);
      var i, j :| 0 <= j < i < |name| && name[j] != '.' && name[i] == '.';
      ExtFound(p, i, j);
    }
    if Ext(p) != "" {
      ExtMeansExtension(p);
    }
  }

  lemma ExtFound(p: string, i: int, j: int)
    requires var name := LastComponent(p); 0 <= j < i < |name| && name[j] != '.' && name[i] == '.'
    ensures Ext(p) != ""
  {
    ComponentAt(p, i);
    ComponentAt(p, j);
    var sep := RFind(p, '/');
    RFindLast(p, '.', sep + 1 + i);
    ExtAt(p, sep + 1 + j);
  }

  /** Character `i` of the last component is character `RFind(p, '/') + 1 + i` of `p`. */
  lemma ComponentAt(p: string, i: int)
    requires 0 <= i < |LastComponent(p)|
    ensures RFind(p, '/') + 1 + i < |p| && p[RFind(p, '/') + 1 + i] == LastComponent(p)[i]
  {
  }

  /** No occurrence of `c` lies after `RFind(s, c)`. */
  lemma RFindLast(s: string, c: char, k: int)
    requires 0 <= k < |s| && s[k] == c
    ensures k <= RFind(s, c)
  {
  }

  /** A non-dot character between the last `/` and the last `.` makes `splitext` cut at that `.`. */
  lemma ExtAt(p: string, k: int)
    requires RFind(p, '/') + 1 <= k < RFind(p, '.') && p[k] != '.'
    ensures Ext(p) == p[RFind(p, '.')..]
  {
  }

  lemma ExtMeansExtension(p: string)
    requires Ext(p) != ""
    ensures HasExtension(LastComponent(p))
  {
    var sep := RFind(p, '/');
    var dot := RFind(p, '.');
    var name := LastComponent(p);
    assert name == p[sep + 1..];
    var k :| sep + 1 <= k < dot && p[k] != '.';
    assert name[k - sep - 1] == p[k];
    assert name[dot - sep - 1] == p[dot];
    assert 0 <= k - sep - 1 < dot - sep - 1 < |name|;
  }

  /** `posixpath.join(a, b)` for two components. */
  function PathJoin(a: string, b: string): string {
    if |b| > 0 && b[0] == '/' then b
    else if a == "" || a[|a| - 1] == '/' then a + b
    else a + "/" + b
  }

  /**
   * The file a URL is frozen to: the URL's path component with every
   * leading `/` removed, joined under `dest`.
   */
  function OutputPath(dest: string, url: string): (r: string)
    ensures var rel := LStripChars(UrlPath(url), {'/'});
      r == dest + rel || r == dest + "/" + rel
    ensures dest <= r
  {
    PathJoin(dest, LStripChars(UrlPath(url), {'/'}))
  }

  /** The written path depends on the path component only, so a query string changes nothing. */
  lemma OutputPathIgnoresQuery(dest: string, p: string, q: string)
    requires |p| >= 1 && p[0] == '/' && !(|p| >= 2 && p[1] == '/')
    requires '?' !in p && '#' !in p
    ensures OutputPath(dest, p + "?" + q) == OutputPath(dest, p)
  {
    QueryIgnored(p, q);
  }

  /** `urlsplit(url).netloc.split(':')[0]`: the host name without its port. */
  function HostDomain(url: string): (r: string)
    ensures var n := UrlSplit(url).netloc; r <= n && (|r| == |n| || n[|r|] == ':')
    ensures ':' !in r
  {
    SplitFirst(UrlSplit(url).netloc, ':');
    Split(UrlSplit(url).netloc, ':')[0]
  }
}
