/**
 * The `freeze_view` management command: build the keyword arguments from
 * `--params-qs` and `--params-json`, then call `generate_static_view` once
 * per view name given on the command line.
 */
module FreezeView {
  import opened Wrappers
  import opened Errors
  import Crawl
  import Fetch

  /** The values `parse_qs` gives one key, in order; there is always at least one. */
  type QsValues = s: seq<string> | |s| >= 1 witness [""]

  /** `{k: v[0] for k, v in parsed.items()}`: each query-string key keeps its first value. */
  function FirstValues(parsed: map<string, QsValues>): (r: map<string, Crawl.Param>)
    ensures r.Keys == parsed.Keys
    ensures forall k :: k in parsed ==> r[k] == Crawl.Text(parsed[k][0])
  {
    map k | k in parsed :: Crawl.Text(parsed[k][0])
  }

  /** `params.update(obj)` with a decoded JSON object: JSON values win, other keys stay. */
  function UpdateWithJson(params: map<string, Crawl.Param>, obj: map<string, string>): (r: map<string, Crawl.Param>)
    ensures r.Keys == params.Keys + obj.Keys
    ensures forall k :: k in obj ==> r[k] == Crawl.Json(obj[k])
    ensures forall k :: k in params && k !in obj ==> r[k] == params[k]
  {
    params + map k | k in obj :: Crawl.Json(obj[k])
  }

  /**
   * The parameters `handle` builds: the query string's first values when
   * `--params-qs` is non-empty, then the JSON object over them when
   * `--params-json` is non-empty. `parseQs` is `parse_qs` and `loadJson`
   * is `json.loads` (an object, each value kept in its JSON text).
   */
  function Params(paramsQs: string, paramsJson: string,
                  parseQs: string -> map<string, QsValues>, loadJson: string -> map<string, string>): map<string, Crawl.Param> {
    var fromQs := if paramsQs != "" then FirstValues(parseQs(paramsQs)) else map[];
    if paramsJson != "" then UpdateWithJson(fromQs, loadJson(paramsJson)) else fromQs
  }

  /**
   * Where each parameter lands: with no query string the map starts empty;
   * a JSON key always carries its JSON value; a query-string key that the
   * JSON object does not mention carries its first value; nothing else is
   * present.
   */
  lemma ParamsSpec(paramsQs: string, paramsJson: string,
                   parseQs: string -> map<string, QsValues>, loadJson: string -> map<string, string>, k: string)
    ensures paramsQs == "" && paramsJson == "" ==> Params(paramsQs, paramsJson, parseQs, loadJson) == map[]
    ensures var p := Params(paramsQs, paramsJson, parseQs, loadJson);
      var inQs := paramsQs != "" && k in parseQs(paramsQs);
      var inJson := paramsJson != "" && k in loadJson(paramsJson);
      && (k in p <==> inQs || inJson)
      && (inJson ==> p[k] == Crawl.Json(loadJson(paramsJson)[k]))
      && (inQs && !inJson ==> p[k] == Crawl.Text(parseQs(paramsQs)[k][0]))
  {
  }

  /**
   * Binding `**params` in `generate_static_view(view_name, frozen_host=…,
   * frozen_dest=…, **params)`: a key named like one of those three
   * arguments raises; a key `urlconf` fills the `urlconf` argument; every
   * other key goes to `**kwargs`.
   */
  function Bind(params: map<string, Crawl.Param>): (r: Result<(Option<Crawl.Param>, map<string, Crawl.Param>), CrawlError>)
    ensures r.Ok? <==> "view_name" !in params && "frozen_host" !in params && "frozen_dest" !in params
    ensures r.Err? ==> r.error.ArgumentClash? && r.error.name in params
    ensures r.Ok? ==>
      && (r.value.0.Some? <==> "urlconf" in params)
      && (r.value.0.Some? ==> r.value.0.value == params["urlconf"])
      && r.value.1.Keys == params.Keys - {"urlconf"}
      && (forall k :: k in r.value.1 ==> r.value.1[k] == params[k])
  {
    if "view_name" in params then Err(ArgumentClash("view_name"))
    else if "frozen_host" in params then Err(ArgumentClash("frozen_host"))
    else if "frozen_dest" in params then Err(ArgumentClash("frozen_dest"))
    else Ok((if "urlconf" in params then Some(params["urlconf"]) else None, params - {"urlconf"}))
  }

  /** One call `generate_static_view(view_name, frozen_host=base_url, frozen_dest=dest, **params)`. */
  datatype Call = Call(viewName: string, baseUrl: string, dest: Option<string>, params: map<string, Crawl.Param>)

  /** The files after the command, how it ended, and the calls it made in order. */
  datatype Dispatch = Dispatch(files: map<string, string>, status: Result<(), CrawlError>, calls: seq<Call>)

  /** One call of `generate_static_view`, keyword binding included. */
  function Invoke(env: Crawl.Env, c: Call, files: map<string, string>): Crawl.Outcome {
    match Bind(c.params)
    case Err(e) => Crawl.Outcome(files, Err(e))
    case Ok(bound) => Crawl.Generate(env, c.viewName, c.baseUrl, c.dest, bound.0, bound.1, files)
  }

  /** What one call does to the files, as a function of the call and the files before it. */
  type Runner = (Call, map<string, string>) -> Crawl.Outcome

  function Invoker(env: Crawl.Env): Runner {
    (c, files) => Invoke(env, c, files)
  }

  /** The loop over `view_names`, each call run by `run`; an exception from one call ends the command. */
  function RunViews(run: Runner, files: map<string, string>, viewNames: seq<string>, baseUrl: string,
                    dest: Option<string>, params: map<string, Crawl.Param>): Dispatch
    decreases |viewNames|
  {
    if viewNames == [] then Dispatch(files, Ok(()), [])
    else
      var call := Call(viewNames[0], baseUrl, dest, params);
      var g := run(call, files);
      if g.status.Err? then Dispatch(g.files, g.status, [call])
      else
        var rest := RunViews(run, g.files, viewNames[1..], baseUrl, dest, params);
        Dispatch(rest.files, rest.status, [call] + rest.calls)
  }

  /**
   * The calls follow the view names in order, each with the same base
   * URL, destination and parameters; all of them are made when nothing
   * fails, and none when there are no view names.
   */
  lemma {:induction false} RunViewsCalls(run: Runner, files: map<string, string>, viewNames: seq<string>,
                                         baseUrl: string, dest: Option<string>, params: map<string, Crawl.Param>)
    ensures var d := RunViews(run, files, viewNames, baseUrl, dest, params);
      && |d.calls| <= |viewNames|
      && (forall i :: 0 <= i < |d.calls| ==> d.calls[i] == Call(viewNames[i], baseUrl, dest, params))
      && (d.status.Ok? ==> |d.calls| == |viewNames|)
      && (d.status.Err? ==> d.calls != [])
      && (viewNames == [] ==> d.calls == [] && d.files == files)
    decreases |viewNames|
  {
    if viewNames != [] {
      var call := Call(viewNames[0], baseUrl, dest, params);
      var g := run(call, files);
      if g.status.Ok? {
        var rest := RunViews(run, g.files, viewNames[1..], baseUrl, dest, params);
        RunViewsCalls(run, g.files, viewNames[1..], baseUrl, dest, params);
        var d := RunViews(run, files, viewNames, baseUrl, dest, params);
        assert d.calls == [call] + rest.calls;
        forall i | 0 <= i < |d.calls| ensures d.calls[i] == Call(viewNames[i], baseUrl, dest, params) {
          if i > 0 {
            assert d.calls[i] == rest.calls[i - 1];
          }
        }
      }
    }
  }

  /** A parameter named like an explicit argument makes the first call raise, before anything is written. */
  lemma ClashStopsFirstCall(env: Crawl.Env, files: map<string, string>, viewNames: seq<string>,
                            baseUrl: string, dest: Option<string>, params: map<string, Crawl.Param>)
    requires viewNames != [] && Bind(params).Err?
    ensures RunViews(Invoker(env), files, viewNames, baseUrl, dest, params) ==
      Dispatch(files, Err(Bind(params).error), [Call(viewNames[0], baseUrl, dest, params)])
  {
  }

  /** What is left of the loop over view names at index `i`, given the calls made so far, still comes to `goal`. */
  ghost predicate LeftToRun(run: Runner, goal: Dispatch, files: map<string, string>, viewNames: seq<string>,
                            baseUrl: string, dest: Option<string>, params: map<string, Crawl.Param>,
                            i: nat, calls: seq<Call>)
    requires i <= |viewNames|
  {
    var d := RunViews(run, files, viewNames[i..], baseUrl, dest, params);
    d.files == goal.files && d.status == goal.status && calls + d.calls == goal.calls
  }

  /** A call that fails at index `i` ends the loop with the files it left and its error. */
  lemma RunViewsStopsAt(run: Runner, goal: Dispatch, files: map<string, string>, after: map<string, string>,
                        viewNames: seq<string>, baseUrl: string, dest: Option<string>, params: map<string, Crawl.Param>,
                        i: nat, calls: seq<Call>, calls': seq<Call>, status: Result<(), CrawlError>)
    requires i < |viewNames| && LeftToRun(run, goal, files, viewNames, baseUrl, dest, params, i, calls)
    requires run(Call(viewNames[i], baseUrl, dest, params), files) == Crawl.Outcome(after, status) && status.Err?
    requires calls' == calls + [Call(viewNames[i], baseUrl, dest, params)]
    ensures goal == Dispatch(after, status, calls')
  {
    assert viewNames[i..][0] == viewNames[i];
  }

  /** A call that succeeds at index `i` hands the loop on to index `i + 1` with the files it left. */
  lemma RunViewsGoesOn(run: Runner, goal: Dispatch, files: map<string, string>, after: map<string, string>,
                       viewNames: seq<string>, baseUrl: string, dest: Option<string>, params: map<string, Crawl.Param>,
                       i: nat, calls: seq<Call>, calls': seq<Call>)
    requires i < |viewNames| && LeftToRun(run, goal, files, viewNames, baseUrl, dest, params, i, calls)
    requires run(Call(viewNames[i], baseUrl, dest, params), files) == Crawl.Outcome(after, Ok(()))
    requires calls' == calls + [Call(viewNames[i], baseUrl, dest, params)]
    ensures LeftToRun(run, goal, after, viewNames, baseUrl, dest, params, i + 1, calls')
  {
    assert viewNames[i..][0] == viewNames[i] && viewNames[i..][1..] == viewNames[i + 1..];
    var rest := RunViews(run, after, viewNames[i + 1..], baseUrl, dest, params);
    assert calls' + rest.calls == calls + ([Call(viewNames[i], baseUrl, dest, params)] + rest.calls);
  }

  /** One `generate_static_view(view_name, frozen_host=base_url, frozen_dest=dest, **params)` call. */
  method InvokeView(env: Crawl.Env, fs: Fetch.FileSystem, call: Call) returns (status: Result<(), CrawlError>)
    modifies fs
    ensures Invoker(env)(call, old(fs.files)) == Crawl.Outcome(fs.files, status)
  {
    var bound := Bind(call.params);
    if bound.Err? {
      return Err(bound.error);
    }
    status := Crawl.GenerateStaticView(env, fs, call.viewName, call.baseUrl, call.dest, bound.value.0, bound.value.1);
  }

  /** The loop over `view_names` of `handle`, with the parameters built. */
  method RunAll(env: Crawl.Env, fs: Fetch.FileSystem, viewNames: seq<string>, baseUrl: string, dest: Option<string>,
                params: map<string, Crawl.Param>)
    returns (status: Result<(), CrawlError>, calls: seq<Call>)
    modifies fs
    ensures var d := RunViews(Invoker(env), old(fs.files), viewNames, baseUrl, dest, params);
      fs.files == d.files && status == d.status && calls == d.calls
  {
    ghost var run := Invoker(env);
    ghost var goal := RunViews(run, fs.files, viewNames, baseUrl, dest, params);
    calls := [];
    assert viewNames[0..] == viewNames;
    for i := 0 to |viewNames|
      invariant LeftToRun(run, goal, fs.files, viewNames, baseUrl, dest, params, i, calls)
    {
      var call := Call(viewNames[i], baseUrl, dest, params);
      ghost var before, callsBefore := fs.files, calls;
      calls := calls + [call];
      var s := InvokeView(env, fs, call);
      if s.Err? {
        RunViewsStopsAt(run, goal, before, fs.files, viewNames, baseUrl, dest, params, i, callsBefore, calls, s);
        return s, calls;
      }
      assert s.value == ();
      RunViewsGoesOn(run, goal, before, fs.files, viewNames, baseUrl, dest, params, i, callsBefore, calls);
    }
    assert viewNames[|viewNames|..] == [];
    return Ok(()), calls;
  }

  /** `Command.handle`: build the parameters, then run every view in turn. */
  method Handle(env: Crawl.Env, fs: Fetch.FileSystem, viewNames: seq<string>, baseUrl: string, dest: Option<string>,
                paramsQs: string, paramsJson: string,
                parseQs: string -> map<string, QsValues>, loadJson: string -> map<string, string>)
    returns (status: Result<(), CrawlError>, calls: seq<Call>)
    modifies fs
    ensures var d := RunViews(Invoker(env), old(fs.files), viewNames, baseUrl, dest,
                              Params(paramsQs, paramsJson, parseQs, loadJson));
      fs.files == d.files && status == d.status && calls == d.calls
  {
    var params: map<string, Crawl.Param>;
    if paramsQs != "" {
      params := FirstValues(parseQs(paramsQs));
    } else {
      params := map[];
    }
    if paramsJson != "" {
      params := UpdateWithJson(params, loadJson(paramsJson));
    }
    status, calls := RunAll(env, fs, viewNames, baseUrl, dest, params);
  }
}
