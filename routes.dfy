/**
 * `walk_resolvers`: the depth-first search of Django's route tree for the
 * routes bound to one view, with the namespace pattern and the path
 * converters accumulated on the way down.
 */
module Routes {
  import opened Wrappers
  import opened Text

  /** A node of the route tree: an `include`d `URLResolver`, or a `URLPattern` leaf. */
  datatype Route =
    | Resolver(regex: string, converters: map<string, string>, children: seq<Route>)
    | Leaf(lookupStr: string, name: Option<string>)

  /** What `get_resolver(urlconf)` returns: always a resolver. */
  type Urlconf = r: Route | r.Resolver? witness Resolver("", map[], [])

  /**
   * The resolver a match is reversed against: a node of the tree, or the
   * wrapper `get_ns_resolver(ns_pattern, inner, converters)` builds.
   */
  datatype Solver =
    | Base(node: Route)
    | Namespaced(nsPattern: string, inner: Solver, converters: map<string, string>)

  /** One `(resolver, pat.name)` pair yielded by the walk. */
  datatype Match = Match(solver: Solver, name: Option<string>)

  /**
   * The converters handed to a resolver's children: the inherited map,
   * overridden by the resolver's own. The inherited map is reused as it is
   * when the resolver has none, and is otherwise copied, never updated.
   */
  function MergeConverters(inherited: map<string, string>, own: map<string, string>): (r: map<string, string>)
    ensures r.Keys == inherited.Keys + own.Keys
    ensures forall k :: k in own ==> r[k] == own[k]
    ensures forall k :: k in inherited && k !in own ==> r[k] == inherited[k]
  {
    if own == map[] then inherited else inherited + own
  }

  /** The anchors a nested resolver's regex loses: `^` at the start, `$` at the end. */
  const Caret: set<char> := {'^'}
  const Dollar: set<char> := {'$'}

  /** `regex.lstrip('^').rstrip('$')`: the pattern text a nested resolver adds to the namespace pattern. */
  function Anchorless(regex: string): string {
    RStripChars(LStripChars(regex, Caret), Dollar)
  }

  /**
   * What a nested resolver adds to the namespace pattern is its regex with
   * the leading `^`s and trailing `$`s cut off, and nothing else.
   */
  lemma AnchorlessSlice(regex: string)
    ensures var r, i := Anchorless(regex), LeadLength(regex, Caret);
      && i + |r| <= |regex| && r == regex[i..i + |r|]
      && (forall k :: 0 <= k < i ==> regex[k] in Caret)
      && (forall k :: i + |r| <= k < |regex| ==> regex[k] in Dollar)
      && (r != [] ==> r[0] !in Caret && r[|r| - 1] !in Dollar)
  {
    StripBoth(regex, Caret, Dollar);
  }

  // ---------------------------------------------------------------------
  // The walk as the source writes it

  /** `walk_resolvers(view_name, root, '', {})`. */
  function Walk(viewName: string, root: Urlconf): seq<Match> {
    WalkNode(viewName, root, "", map[])
  }

  /** One call of the generator on the resolver `node`. */
  function WalkNode(viewName: string, node: Route, ns: string, conv: map<string, string>): seq<Match>
    requires node.Resolver?
    decreases node, 1
  {
    WalkChildren(viewName, node.children, Base(node), ns, conv, MergeConverters(conv, node.converters))
  }

  /**
   * The loop over `resolver.url_patterns`. `cur` is the variable
   * `resolver`: a matching leaf under a non-empty namespace rebinds it to
   * the namespaced wrapper, and the rebinding stays in force for the later
   * leaves of the same loop.
   */
  function WalkChildren(viewName: string, pats: seq<Route>, cur: Solver, ns: string,
                        conv: map<string, string>, sub: map<string, string>): seq<Match>
    decreases pats, 0
  {
    if pats == [] then []
    else
      match pats[0]
      case Resolver(regex, _, _) =>
        WalkNode(viewName, pats[0], ns + Anchorless(regex), sub)
          + WalkChildren(viewName, pats[1..], cur, ns, conv, sub)
      case Leaf(lookupStr, name) =>
        if lookupStr == viewName then
          var solver := if ns != "" then Namespaced(ns, cur, conv) else cur;
          [Match(solver, name)] + WalkChildren(viewName, pats[1..], solver, ns, conv, sub)
        else WalkChildren(viewName, pats[1..], cur, ns, conv, sub)
  }

  // ---------------------------------------------------------------------
  // The walk as intended: every leaf is wrapped around its own resolver

  function WalkFixed(viewName: string, root: Urlconf): seq<Match> {
    WalkFixedNode(viewName, root, "", map[])
  }

  function WalkFixedNode(viewName: string, node: Route, ns: string, conv: map<string, string>): seq<Match>
    requires node.Resolver?
    decreases node, 1
  {
    WalkFixedChildren(viewName, node, node.children, ns, conv, MergeConverters(conv, node.converters))
  }

  function WalkFixedChildren(viewName: string, owner: Route, pats: seq<Route>, ns: string,
                             conv: map<string, string>, sub: map<string, string>): seq<Match>
    decreases pats, 0
  {
    if pats == [] then []
    else
      match pats[0]
      case Resolver(regex, _, _) =>
        WalkFixedNode(viewName, pats[0], ns + Anchorless(regex), sub)
          + WalkFixedChildren(viewName, owner, pats[1..], ns, conv, sub)
      case Leaf(lookupStr, name) =>
        if lookupStr == viewName then
          [Match(if ns != "" then Namespaced(ns, Base(owner), conv) else Base(owner), name)]
            + WalkFixedChildren(viewName, owner, pats[1..], ns, conv, sub)
        else WalkFixedChildren(viewName, owner, pats[1..], ns, conv, sub)
  }

  // ---------------------------------------------------------------------
  // Reference: every leaf of the tree in depth-first order, with its context

  /** A leaf together with the resolver that lists it, its namespace pattern and inherited converters. */
  datatype Site = Site(owner: Route, ns: string, conv: map<string, string>, lookupStr: string, name: Option<string>)

  function Sites(root: Urlconf): seq<Site> {
    SitesOf(root, "", map[])
  }

  function SitesOf(node: Route, ns: string, conv: map<string, string>): seq<Site>
    requires node.Resolver?
    decreases node, 1
  {
    SitesIn(node, node.children, ns, conv, MergeConverters(conv, node.converters))
  }

  function SitesIn(owner: Route, pats: seq<Route>, ns: string,
                   conv: map<string, string>, sub: map<string, string>): seq<Site>
    decreases pats, 0
  {
    if pats == [] then []
    else
      (match pats[0]
       case Resolver(regex, _, _) => SitesOf(pats[0], ns + Anchorless(regex), sub)
       case Leaf(lookupStr, name) => [Site(owner, ns, conv, lookupStr, name)])
      + SitesIn(owner, pats[1..], ns, conv, sub)
  }

  /** The pair a site's leaf should yield: its name, reversed against its own resolver in its namespace. */
  function SiteMatch(s: Site): Match {
    Match(if s.ns != "" then Namespaced(s.ns, Base(s.owner), s.conv) else Base(s.owner), s.name)
  }

  /** The sites bound to `viewName`, in order, as matches. */
  function Select(viewName: string, sites: seq<Site>): (r: seq<Match>)
    ensures |r| <= |sites|
  {
    if sites == [] then []
    else
      var head := if sites[0].lookupStr == viewName then [SiteMatch(sites[0])] else [];
      head + Select(viewName, sites[1..])
  }

  lemma {:induction false} SelectAppend(viewName: string, a: seq<Site>, b: seq<Site>)
    ensures Select(viewName, a + b) == Select(viewName, a) + Select(viewName, b)
  {
    if a != [] {
      assert (a + b)[0] == a[0];
      assert (a + b)[1..] == a[1..] + b;
      SelectAppend(viewName, a[1..], b);
      var head := if a[0].lookupStr == viewName then [SiteMatch(a[0])] else [];
      calc {
        Select(viewName, a + b);
        head + Select(viewName, a[1..] + b);
        head + (Select(viewName, a[1..]) + Select(viewName, b));
        (head + Select(viewName, a[1..])) + Select(viewName, b);
        Select(viewName, a) + Select(viewName, b);
      }
    } else {
      assert a + b == b;
    }
  }

  /** A match is selected exactly when some site bound to the view produces it. */
  lemma {:induction false} SelectMembers(viewName: string, sites: seq<Site>, m: Match)
    ensures m in Select(viewName, sites) <==>
      exists i :: 0 <= i < |sites| && sites[i].lookupStr == viewName && m == SiteMatch(sites[i])
  {
    if sites != [] {
      SelectMembers(viewName, sites[1..], m);
      if m in Select(viewName, sites[1..]) {
        var i :| 0 <= i < |sites[1..]| && sites[1..][i].lookupStr == viewName && m == SiteMatch(sites[1..][i]);
        assert sites[i + 1] == sites[1..][i];
      }
      if exists i :: 0 <= i < |sites| && sites[i].lookupStr == viewName && m == SiteMatch(sites[i]) {
        var i :| 0 <= i < |sites| && sites[i].lookupStr == viewName && m == SiteMatch(sites[i]);
        if i > 0 {
          assert sites[1..][i - 1] == sites[i];
        }
      }
    }
  }

  /** Nothing is selected exactly when no site is bound to the view. */
  lemma {:induction false} SelectEmpty(viewName: string, sites: seq<Site>)
    ensures Select(viewName, sites) == [] <==> forall i :: 0 <= i < |sites| ==> sites[i].lookupStr != viewName
  {
    if sites != [] {
      SelectEmpty(viewName, sites[1..]);
      assert forall i :: 1 <= i < |sites| ==> sites[i] == sites[1..][i - 1];
    }
  }

  /** The intended walk is the depth-first enumeration of the leaves, filtered by view and wrapped. */
  lemma WalkFixedSelectsSites(viewName: string, root: Urlconf)
    ensures WalkFixed(viewName, root) == Select(viewName, Sites(root))
  {
    WalkFixedNodeSelects(viewName, root, "", map[]);
  }

  lemma {:induction false} WalkFixedNodeSelects(viewName: string, node: Route, ns: string, conv: map<string, string>)
    requires node.Resolver?
    ensures WalkFixedNode(viewName, node, ns, conv) == Select(viewName, SitesOf(node, ns, conv))
    decreases node, 1
  {
    WalkFixedChildrenSelect(viewName, node, node.children, ns, conv, MergeConverters(conv, node.converters));
  }

  lemma {:induction false} WalkFixedChildrenSelect(viewName: string, owner: Route, pats: seq<Route>, ns: string,
                                                    conv: map<string, string>, sub: map<string, string>)
    ensures WalkFixedChildren(viewName, owner, pats, ns, conv, sub) == Select(viewName, SitesIn(owner, pats, ns, conv, sub))
    decreases pats, 0
  {
    if pats != [] {
      WalkFixedChildrenSelect(viewName, owner, pats[1..], ns, conv, sub);
      var head := match pats[0]
        case Resolver(regex, _, _) => SitesOf(pats[0], ns + Anchorless(regex), sub)
        case Leaf(lookupStr, name) => [Site(owner, ns, conv, lookupStr, name)];
      SelectAppend(viewName, head, SitesIn(owner, pats[1..], ns, conv, sub));
      match pats[0]
      case Resolver(regex, _, _) =>
        WalkFixedNodeSelects(viewName, pats[0], ns + Anchorless(regex), sub);
      case Leaf(_, _) =>
    }
  }

  /**
   * The walk yields a pair for every leaf bound to the view and for no
   * other, in depth-first `url_patterns` order, and nothing when no leaf is bound.
   */
  lemma WalkFixedMembers(viewName: string, root: Urlconf, m: Match)
    ensures m in WalkFixed(viewName, root) <==>
      exists i :: 0 <= i < |Sites(root)| && Sites(root)[i].lookupStr == viewName && m == SiteMatch(Sites(root)[i])
    ensures WalkFixed(viewName, root) == [] <==>
      forall i :: 0 <= i < |Sites(root)| ==> Sites(root)[i].lookupStr != viewName
  {
    WalkFixedSelectsSites(viewName, root);
    SelectMembers(viewName, Sites(root), m);
    SelectEmpty(viewName, Sites(root));
  }

  /** The route names of a sequence of matches. */
  function Names(ms: seq<Match>): (r: seq<Option<string>>)
    ensures |r| == |ms| && forall i :: 0 <= i < |ms| ==> r[i] == ms[i].name
  {
    if ms == [] then [] else [ms[0].name] + Names(ms[1..])
  }

  lemma {:induction false} NamesAppend(a: seq<Match>, b: seq<Match>)
    ensures Names(a + b) == Names(a) + Names(b)
  {
    if a != [] {
      assert (a + b)[1..] == a[1..] + b;
      NamesAppend(a[1..], b);
    }
  }

  /**
   * The walk as written yields the same route names, in the same order, as
   * the intended walk: only the resolvers paired with them can differ.
   */
  lemma WalkNamesAsIntended(viewName: string, root: Urlconf)
    ensures Names(Walk(viewName, root)) == Names(WalkFixed(viewName, root))
  {
    WalkNodeNames(viewName, root, "", map[]);
  }

  lemma {:induction false} WalkNodeNames(viewName: string, node: Route, ns: string, conv: map<string, string>)
    requires node.Resolver?
    ensures Names(WalkNode(viewName, node, ns, conv)) == Names(WalkFixedNode(viewName, node, ns, conv))
    decreases node, 1
  {
    WalkChildrenNames(viewName, node, node.children, Base(node), ns, conv, MergeConverters(conv, node.converters));
  }

  lemma {:induction false} WalkChildrenNames(viewName: string, owner: Route, pats: seq<Route>, cur: Solver, ns: string,
                                             conv: map<string, string>, sub: map<string, string>)
    ensures Names(WalkChildren(viewName, pats, cur, ns, conv, sub))
         == Names(WalkFixedChildren(viewName, owner, pats, ns, conv, sub))
    decreases pats, 0
  {
    if pats != [] {
      match pats[0]
      case Resolver(regex, _, _) =>
        WalkNodeNames(viewName, pats[0], ns + Anchorless(regex), sub);
        WalkChildrenNames(viewName, owner, pats[1..], cur, ns, conv, sub);
        NamesAppend(WalkNode(viewName, pats[0], ns + Anchorless(regex), sub),
                    WalkChildren(viewName, pats[1..], cur, ns, conv, sub));
        NamesAppend(WalkFixedNode(viewName, pats[0], ns + Anchorless(regex), sub),
                    WalkFixedChildren(viewName, owner, pats[1..], ns, conv, sub));
      case Leaf(lookupStr, name) =>
        var solver := if ns != "" then Namespaced(ns, cur, conv) else cur;
        var next := if lookupStr == viewName then solver else cur;
        WalkChildrenNames(viewName, owner, pats[1..], next, ns, conv, sub);
        if lookupStr == viewName {
          NamesAppend([Match(solver, name)], WalkChildren(viewName, pats[1..], solver, ns, conv, sub));
          NamesAppend([Match(if ns != "" then Namespaced(ns, Base(owner), conv) else Base(owner), name)],
                      WalkFixedChildren(viewName, owner, pats[1..], ns, conv, sub));
        }
    }
  }

  /** `s` wrapped `k` more times in its own namespace pattern and converters. */
  function Rewrapped(s: Solver, k: nat): Solver
    decreases k
  {
    if k == 0 || !s.Namespaced? then s else Namespaced(s.nsPattern, Rewrapped(s, k - 1), s.converters)
  }

  /** `w` pairs the same names as `f`, the `i`-th resolver wrapped in `ks[i]` extra copies of its own namespace. */
  ghost predicate ExtraLayers(w: seq<Match>, f: seq<Match>, ks: seq<nat>) {
    |w| == |f| == |ks| && forall i :: 0 <= i < |w| ==> w[i] == Match(Rewrapped(f[i].solver, ks[i]), f[i].name)
  }

  lemma ExtraLayersAppend(a: seq<Match>, b: seq<Match>, ka: seq<nat>, c: seq<Match>, d: seq<Match>, kc: seq<nat>)
    requires ExtraLayers(a, b, ka) && ExtraLayers(c, d, kc)
    ensures ExtraLayers(a + c, b + d, ka + kc)
  {
    forall i | 0 <= i < |a + c| ensures (a + c)[i] == Match(Rewrapped((b + d)[i].solver, (ka + kc)[i]), (b + d)[i].name) {
      if i >= |a| {
        assert (a + c)[i] == c[i - |a|] && (b + d)[i] == d[i - |a|] && (ka + kc)[i] == kc[i - |a|];
      }
    }
  }

  /**
   * For every route tree, the walk as written differs from the intended
   * one only in extra namespace layers: each pair keeps its name and its
   * leaf's own (possibly namespaced) resolver, wrapped again in the same
   * namespace pattern some number of times.
   */
  lemma WalkOnlyAddsLayers(viewName: string, root: Urlconf)
    ensures exists ks :: ExtraLayers(Walk(viewName, root), WalkFixed(viewName, root), ks)
  {
    var ks := WalkNodeLayers(viewName, root, "", map[]);
    assert ExtraLayers(Walk(viewName, root), WalkFixed(viewName, root), ks);
  }

  lemma WalkNodeLayers(viewName: string, node: Route, ns: string, conv: map<string, string>) returns (ks: seq<nat>)
    requires node.Resolver?
    ensures ExtraLayers(WalkNode(viewName, node, ns, conv), WalkFixedNode(viewName, node, ns, conv), ks)
    decreases node, 1
  {
    ks := WalkChildrenLayers(viewName, node, node.children, Base(node), ns, conv, MergeConverters(conv, node.converters), 0);
  }

  /** In one loop `resolver` is the owner itself, or its namespaced wrapper wrapped `j` more times. */
  lemma {:induction false} WalkChildrenLayers(viewName: string, owner: Route, pats: seq<Route>, cur: Solver, ns: string,
                                              conv: map<string, string>, sub: map<string, string>, j: nat)
    returns (ks: seq<nat>)
    requires cur == Base(owner) || (ns != "" && cur == Rewrapped(Namespaced(ns, Base(owner), conv), j))
    ensures ExtraLayers(WalkChildren(viewName, pats, cur, ns, conv, sub),
                        WalkFixedChildren(viewName, owner, pats, ns, conv, sub), ks)
    decreases pats, 0
  {
    if pats == [] {
      ks := [];
    } else {
      match pats[0]
      case Resolver(regex, _, _) =>
        var k0 := WalkNodeLayers(viewName, pats[0], ns + Anchorless(regex), sub);
        var k1 := WalkChildrenLayers(viewName, owner, pats[1..], cur, ns, conv, sub, j);
        ExtraLayersAppend(WalkNode(viewName, pats[0], ns + Anchorless(regex), sub),
                          WalkFixedNode(viewName, pats[0], ns + Anchorless(regex), sub), k0,
                          WalkChildren(viewName, pats[1..], cur, ns, conv, sub),
                          WalkFixedChildren(viewName, owner, pats[1..], ns, conv, sub), k1);
        ks := k0 + k1;
      case Leaf(lookupStr, name) =>
        if lookupStr == viewName {
          var fix := if ns != "" then Namespaced(ns, Base(owner), conv) else Base(owner);
          var solver := if ns != "" then Namespaced(ns, cur, conv) else cur;
          var k: nat := if ns == "" || cur == Base(owner) then 0 else j + 1;
          assert solver == Rewrapped(fix, k);
          assert ExtraLayers([Match(solver, name)], [Match(fix, name)], [k]);
          var k1 := WalkChildrenLayers(viewName, owner, pats[1..], solver, ns, conv, sub, k);
          ExtraLayersAppend([Match(solver, name)], [Match(fix, name)], [k],
                            WalkChildren(viewName, pats[1..], solver, ns, conv, sub),
                            WalkFixedChildren(viewName, owner, pats[1..], ns, conv, sub), k1);
          ks := [k] + k1;
        } else {
          ks := WalkChildrenLayers(viewName, owner, pats[1..], cur, ns, conv, sub, j);
        }
    }
  }

  /**
   * Under a non-empty namespace, in a resolver whose children are all
   * leaves bound to the view, the `i`-th leaf is paired with its
   * resolver's namespaced wrapper wrapped `i` more times, where the
   * intended walk wraps every leaf once.
   */
  lemma FlatWalkWrapsAgain(viewName: string, node: Route, ns: string, conv: map<string, string>)
    requires node.Resolver? && ns != ""
    requires forall i :: 0 <= i < |node.children| ==> node.children[i].Leaf? && node.children[i].lookupStr == viewName
    ensures var w, f := WalkNode(viewName, node, ns, conv), WalkFixedNode(viewName, node, ns, conv);
      var once := Namespaced(ns, Base(node), conv);
      && |w| == |f| == |node.children|
      && (forall i :: 0 <= i < |w| ==> w[i] == Match(Rewrapped(once, i), node.children[i].name))
      && (forall i :: 0 <= i < |f| ==> f[i] == Match(once, node.children[i].name))
  {
    var once := Namespaced(ns, Base(node), conv);
    var sub := MergeConverters(conv, node.converters);
    assert Namespaced(ns, Base(node), conv) == Rewrapped(once, 0);
    FlatChildrenWrap(viewName, node, node.children, Base(node), ns, conv, sub, 0);
    assert WalkNode(viewName, node, ns, conv) == WalkChildren(viewName, node.children, Base(node), ns, conv, sub);
    assert WalkFixedNode(viewName, node, ns, conv) == WalkFixedChildren(viewName, node, node.children, ns, conv, sub);
  }

  lemma {:induction false} FlatChildrenWrap(viewName: string, owner: Route, pats: seq<Route>, cur: Solver, ns: string,
                                            conv: map<string, string>, sub: map<string, string>, j: nat)
    requires ns != "" && Namespaced(ns, cur, conv) == Rewrapped(Namespaced(ns, Base(owner), conv), j)
    requires forall i :: 0 <= i < |pats| ==> pats[i].Leaf? && pats[i].lookupStr == viewName
    ensures var w, f := WalkChildren(viewName, pats, cur, ns, conv, sub), WalkFixedChildren(viewName, owner, pats, ns, conv, sub);
      var once := Namespaced(ns, Base(owner), conv);
      && |w| == |f| == |pats|
      && (forall i :: 0 <= i < |w| ==> w[i] == Match(Rewrapped(once, j + i), pats[i].name))
      && (forall i :: 0 <= i < |f| ==> f[i] == Match(once, pats[i].name))
    decreases pats
  {
    if pats != [] {
      var once := Namespaced(ns, Base(owner), conv);
      var solver := Namespaced(ns, cur, conv);
      assert Namespaced(ns, solver, conv) == Rewrapped(once, j + 1);
      assert forall i :: 0 <= i < |pats[1..]| ==> pats[1..][i] == pats[i + 1];
      FlatChildrenWrap(viewName, owner, pats[1..], solver, ns, conv, sub, j + 1);
    }
  }

  /** The resolver `walk_resolvers` ends at: two leaves bound to the same view under one namespace. */
  function TwoLeafTree(viewName: string, regex: string, first: Option<string>, second: Option<string>): Urlconf {
    Resolver("", map[], [Resolver(regex, map[], [Leaf(viewName, first), Leaf(viewName, second)])])
  }

  /**
   * A second leaf bound to the view inside the same namespaced resolver is
   * paired with the wrapper of the first leaf's wrapper, so its URL is
   * reversed with the namespace prefix twice.
   */
  lemma SecondMatchWrappedTwice(viewName: string, regex: string, first: Option<string>, second: Option<string>)
    requires Anchorless(regex) != ""
    ensures var root := TwoLeafTree(viewName, regex, first, second);
      var once := Namespaced(Anchorless(regex), Base(root.children[0]), map[]);
      Walk(viewName, root) == [Match(once, first), Match(Namespaced(Anchorless(regex), once, map[]), second)]
  {
    var root := TwoLeafTree(viewName, regex, first, second);
    var inner := root.children[0];
    var ns := Anchorless(regex);
    var once := Namespaced(ns, Base(inner), map[]);
    var rest := [Leaf(viewName, second)];
    assert WalkNode(viewName, inner, ns, map[]) == [Match(once, first), Match(Namespaced(ns, once, map[]), second)] by {
      assert inner.children[1..] == rest;
      assert rest[1..] == [];
      assert WalkChildren(viewName, rest, once, ns, map[], map[]) == [Match(Namespaced(ns, once, map[]), second)];
    }
    assert Walk(viewName, root) == WalkNode(viewName, inner, ns, map[]) by {
      assert root.children == [inner] && root.children[1..] == [];
      assert "" + ns == ns;
      assert MergeConverters(map[], map[]) == map[];
      assert Walk(viewName, root) == WalkChildren(viewName, root.children, Base(root), "", map[], map[]);
    }
  }

  /** The intended walk wraps that resolver once for each of the two leaves. */
  lemma FixedWalkWrapsOnce(viewName: string, regex: string, first: Option<string>, second: Option<string>)
    requires Anchorless(regex) != ""
    ensures var root := TwoLeafTree(viewName, regex, first, second);
      var once := Namespaced(Anchorless(regex), Base(root.children[0]), map[]);
      WalkFixed(viewName, root) == [Match(once, first), Match(once, second)]
  {
    var root := TwoLeafTree(viewName, regex, first, second);
    var inner := root.children[0];
    var ns := Anchorless(regex);
    var once := Namespaced(ns, Base(inner), map[]);
    var rest := [Leaf(viewName, second)];
    assert WalkFixedNode(viewName, inner, ns, map[]) == [Match(once, first), Match(once, second)] by {
      assert inner.children[1..] == rest;
      assert rest[1..] == [];
      assert WalkFixedChildren(viewName, inner, rest, ns, map[], map[]) == [Match(once, second)];
    }
    assert WalkFixed(viewName, root) == WalkFixedNode(viewName, inner, ns, map[]) by {
      assert root.children == [inner] && root.children[1..] == [];
      assert "" + ns == ns;
      assert MergeConverters(map[], map[]) == map[];
      assert WalkFixed(viewName, root) == WalkFixedChildren(viewName, root, root.children, "", map[], map[]);
    }
  }
}
