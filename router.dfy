/**
 * The router of app/Core/Router.php: routes are registered in order with their compiled
 * pattern, and `dispatch` normalises the request URI and invokes the first route whose method
 * and pattern match, or takes the 404 path. The request (`$_SERVER`) is a parameter, and the
 * handler call and the 404 page are the returned outcome.
 */
module Router {
  import opened Wrappers
  import opened Assoc
  import opened Strs

  /** A route handler: `[ControllerClass, 'method']` or a closure, told apart by an identifier. */
  datatype Handler = ControllerAction(controller: string, action: string) | Closure(id: nat)

  /** One piece of a compiled pattern: a literal character or a named `[^/]+` group. */
  datatype Token = Lit(c: char) | Param(name: string)

  datatype Route = Route(httpMethod: string, path: string, pattern: seq<Token>, handler: Handler)

  /** What `dispatch` does: call one handler with the named captures, or the 404 page. */
  datatype Outcome = Invoke(handler: Handler, params: Entries<string>) | NotFound

  // ---------------------------------------------------------------- pattern compilation

  /** `[a-zA-Z0-9_]`. */
  predicate IsWordChar(c: char)
  {
    ('a' <= c <= 'z') || ('A' <= c <= 'Z') || ('0' <= c <= '9') || c == '_'
  }

  /** The number of leading word characters. */
  function WordRun(s: string): (n: nat)
    ensures n <= |s|
    ensures forall j :: 0 <= j < n ==> IsWordChar(s[j])
    ensures n < |s| ==> !IsWordChar(s[n])
  {
    if s == [] || !IsWordChar(s[0]) then 0 else 1 + WordRun(s[1..])
  }

  /**
   * `preg_replace('/\{([a-zA-Z0-9_]+)\}/', '(?P<$1>[^/]+)', $path)`: each `{name}` becomes a
   * named group; every other character stands for itself.
   */
  function Compile(path: string): seq<Token>
    decreases |path|
  {
    if path == [] then []
    else
      var n := WordRun(path[1..]);
      if path[0] == '{' && n >= 1 && n + 1 < |path| && path[n + 1] == '}' then
        [Param(path[1..n + 1])] + Compile(path[n + 2..])
      else [Lit(path[0])] + Compile(path[1..])
  }

  /** The all-literal pattern of a text. */
  function Literals(s: string): (t: seq<Token>)
    ensures |t| == |s| && forall i :: 0 <= i < |s| ==> t[i] == Lit(s[i])
  {
    seq(|s|, i requires 0 <= i < |s| => Lit(s[i]))
  }

  /** A path without '{' compiles to its characters, one literal each. */
  lemma {:induction false} CompileLiteral(path: string)
    requires forall i :: 0 <= i < |path| ==> path[i] != '{'
    ensures Compile(path) == Literals(path)
    decreases |path|
  {
    if path != [] {
      CompileLiteral(path[1..]);
      assert Literals(path) == [Lit(path[0])] + Literals(path[1..]);
    }
  }

  /** `{name}` followed by the rest of the path compiles to one named group followed by the rest. */
  lemma {:induction false} CompileParam(name: string, rest: string)
    requires |name| >= 1 && forall j :: 0 <= j < |name| ==> IsWordChar(name[j])
    ensures Compile("{" + name + "}" + rest) == [Param(name)] + Compile(rest)
  {
    var path := "{" + name + "}" + rest;
    assert path[1..] == name + "}" + rest;
    WordRunExact(path[1..], |name|);
    assert path[1..|name| + 1] == name;
    assert path[|name| + 2..] == rest;
  }

  lemma {:induction false} WordRunExact(s: string, n: nat)
    requires n < |s| && !IsWordChar(s[n]) && forall j :: 0 <= j < n ==> IsWordChar(s[j])
    ensures WordRun(s) == n
  {
    if n > 0 {
      assert forall j :: 0 <= j < n - 1 ==> s[1..][j] == s[j + 1];
      WordRunExact(s[1..], n - 1);
    }
  }

  // ---------------------------------------------------------------- pattern matching

  /**
   * `preg_match('#^' . $pattern . '$#', $s)` with its named captures: literals match themselves,
   * each group takes one or more characters other than '/', longest first with backtracking, and
   * the whole of `s` must be used.
   */
  function MatchTokens(tokens: seq<Token>, s: string): Option<Entries<string>>
    decreases |tokens|, |s| + 1
  {
    if tokens == [] then (if s == [] then Some([]) else None)
    else match tokens[0]
      case Lit(c) => if s != [] && s[0] == c then MatchTokens(tokens[1..], s[1..]) else None
      case Param(name) => MatchGroup(name, tokens[1..], s, RunUntil(s, '/'))
  }

  /** Try the group `name` with `k`, then `k - 1`, ... down to 1 characters of `s`. */
  function MatchGroup(name: string, rest: seq<Token>, s: string, k: nat): Option<Entries<string>>
    requires k <= RunUntil(s, '/')
    decreases |rest| + 1, k
  {
    if k == 0 then None
    else match MatchTokens(rest, s[k..])
      case Some(p) => Some([(name, s[..k])] + p)
      case None => MatchGroup(name, rest, s, k - 1)
  }

  /** The text a pattern produces with the given captures, in order. */
  function Fill(tokens: seq<Token>, captures: seq<string>): string
    decreases |tokens|
  {
    if tokens == [] then []
    else match tokens[0]
      case Lit(c) => [c] + Fill(tokens[1..], captures)
      case Param(_) => (if captures == [] then [] else captures[0]) + Fill(tokens[1..], if captures == [] then [] else captures[1..])
  }

  /** The group names of a pattern, in order. */
  function ParamNames(tokens: seq<Token>): seq<string>
  {
    if tokens == [] then []
    else (if tokens[0].Param? then [tokens[0].name] else []) + ParamNames(tokens[1..])
  }

  /** A capture `[^/]+` can take: non-empty and free of '/'. */
  predicate IsSegment(v: string)
  {
    |v| >= 1 && forall j :: 0 <= j < |v| ==> v[j] != '/'
  }

  /**
   * Soundness of matching: a match names the groups in pattern order, each capture is a
   * non-empty text free of '/', and filling the pattern with the captures gives back the whole
   * of `s` (the match is anchored at both ends).
   */
  lemma {:induction false} MatchSound(tokens: seq<Token>, s: string)
    requires MatchTokens(tokens, s).Some?
    ensures var p := MatchTokens(tokens, s).value;
      && KeysOf(p) == ParamNames(tokens)
      && (forall j :: 0 <= j < |p| ==> IsSegment(p[j].1))
      && Fill(tokens, ValuesOf(p)) == s
    decreases |tokens|, |s| + 1
  {
    if tokens != [] {
      match tokens[0]
      case Lit(c) => {
        MatchSound(tokens[1..], s[1..]);
      }
      case Param(name) => {
        GroupSound(name, tokens[1..], s, RunUntil(s, '/'));
        assert tokens == [tokens[0]] + tokens[1..];
      }
    }
  }

  lemma {:induction false} GroupSound(name: string, rest: seq<Token>, s: string, k: nat)
    requires k <= RunUntil(s, '/') && MatchGroup(name, rest, s, k).Some?
    ensures var p := MatchGroup(name, rest, s, k).value;
      && p != [] && p[0].0 == name && IsSegment(p[0].1)
      && KeysOf(p[1..]) == ParamNames(rest)
      && (forall j :: 0 <= j < |p| ==> IsSegment(p[j].1))
      && p[0].1 + Fill(rest, ValuesOf(p[1..])) == s
    decreases |rest| + 1, k
  {
    match MatchTokens(rest, s[k..])
    case Some(q) => {
      MatchSound(rest, s[k..]);
      var p := [(name, s[..k])] + q;
      assert p[1..] == q;
      assert s[..k] + s[k..] == s;
    }
    case None => {
      GroupSound(name, rest, s, k - 1);
    }
  }

  /**
   * Completeness of matching: filling a pattern with one capture per group, each non-empty and
   * free of '/', gives a text the pattern matches. The backtracking of MatchGroup reaches the
   * capture's own length whatever longer runs it tries first.
   */
  lemma {:induction false} MatchComplete(tokens: seq<Token>, captures: seq<string>)
    requires |captures| == |ParamNames(tokens)|
    requires forall j :: 0 <= j < |captures| ==> IsSegment(captures[j])
    ensures MatchTokens(tokens, Fill(tokens, captures)).Some?
    decreases |tokens|
  {
    if tokens != [] {
      var rest := tokens[1..];
      assert ParamNames(tokens) == (if tokens[0].Param? then [tokens[0].name] else []) + ParamNames(rest);
      match tokens[0]
      case Lit(c) => {
        var s := Fill(tokens, captures);
        assert s == [c] + Fill(rest, captures);
        assert s[1..] == Fill(rest, captures);
        MatchComplete(rest, captures);
      }
      case Param(name) => {
        var v, more := captures[0], captures[1..];
        var t := Fill(rest, more);
        var s := Fill(tokens, captures);
        assert s == v + t;
        assert forall j :: 0 <= j < |more| ==> more[j] == captures[j + 1];
        MatchComplete(rest, more);
        RunUntilPrefix(v, t);
        assert s[|v|..] == t;
        GroupComplete(name, rest, s, RunUntil(s, '/'), |v|);
      }
    }
  }

  /** A group whose try at `c` characters succeeds matches when started from any `k >= c`. */
  lemma {:induction false} GroupComplete(name: string, rest: seq<Token>, s: string, k: nat, c: nat)
    requires 1 <= c <= k <= RunUntil(s, '/')
    requires MatchTokens(rest, s[c..]).Some?
    ensures MatchGroup(name, rest, s, k).Some?
    decreases k
  {
    if k > c && MatchTokens(rest, s[k..]).None? {
      GroupComplete(name, rest, s, k - 1, c);
    }
  }

  /** The run before the first '/' covers a '/'-free prefix. */
  lemma {:induction false} RunUntilPrefix(v: string, t: string)
    requires Free(v, '/')
    ensures RunUntil(v + t, '/') >= |v|
    decreases |v|
  {
    if v != [] {
      assert (v + t)[1..] == v[1..] + t;
      RunUntilPrefix(v[1..], t);
    }
  }

  /** A pattern without groups matches exactly its own text, with no captures. */
  lemma {:induction false} MatchLiterals(lit: string, s: string)
    ensures MatchTokens(Literals(lit), s) == if s == lit then Some([]) else None
    decreases |lit|
  {
    if lit != [] {
      assert Literals(lit)[1..] == Literals(lit[1..]);
      MatchLiterals(lit[1..], if s == [] then [] else s[1..]);
      if s != [] && s[0] == lit[0] {
        assert s == lit <==> s[1..] == lit[1..];
      }
    }
  }

  /**
   * A path ending in one group, such as `/admin/user/{userId}`, matches its literal prefix
   * followed by any non-empty text free of '/', capturing that text, and nothing else with the
   * same prefix.
   */
  lemma {:induction false} ParamSuffix(prefix: string, name: string, v: string)
    ensures MatchTokens(Literals(prefix) + [Param(name)], prefix + v)
            == if IsSegment(v) then Some([(name, v)]) else None
  {
    LiteralsThenGroup(prefix, name, prefix + v);
    assert (prefix + v)[..|prefix|] == prefix && (prefix + v)[|prefix|..] == v;
    var run := RunUntil(v, '/');
    if IsSegment(v) {
      RunUntilWhole(v);
      assert v[run..] == [];
      assert v[..run] == v;
      assert MatchTokens([], v[run..]) == Some([]);
      assert MatchGroup(name, [], v, run) == Some([(name, v)] + []);
      assert [(name, v)] + [] == [(name, v)];
    } else if run >= 1 {
      GroupNeedsWhole(name, v, run);
    }
  }

  lemma {:induction false} RunUntilWhole(v: string)
    requires forall j :: 0 <= j < |v| ==> v[j] != '/'
    ensures RunUntil(v, '/') == |v|
  {
    if v != [] {
      assert forall j :: 0 <= j < |v[1..]| ==> v[1..][j] == v[j + 1];
      RunUntilWhole(v[1..]);
    }
  }

  /** A last group must take all of what is left, which it cannot when a '/' remains. */
  lemma {:induction false} GroupNeedsWhole(name: string, v: string, k: nat)
    requires k <= RunUntil(v, '/') && RunUntil(v, '/') < |v|
    ensures MatchGroup(name, [], v, k) == None
  {
    if k > 0 {
      GroupNeedsWhole(name, v, k - 1);
    }
  }

  /** A literal prefix is consumed character by character before the group is tried. */
  lemma {:induction false} LiteralsThenGroup(prefix: string, name: string, s: string)
    ensures MatchTokens(Literals(prefix) + [Param(name)], s)
            == if |prefix| <= |s| && s[..|prefix|] == prefix
               then MatchGroup(name, [], s[|prefix|..], RunUntil(s[|prefix|..], '/'))
               else None
    decreases |prefix|
  {
    var t := Literals(prefix) + [Param(name)];
    if prefix == [] {
      assert t == [Param(name)];
      assert s[0..] == s;
    } else {
      assert t[0] == Lit(prefix[0]) && t[1..] == Literals(prefix[1..]) + [Param(name)];
      if s != [] && s[0] == prefix[0] {
        LiteralsThenGroup(prefix[1..], name, s[1..]);
        if |prefix| <= |s| {
          assert s[..|prefix|] == prefix <==> s[1..][..|prefix| - 1] == prefix[1..];
          assert s[1..][|prefix| - 1..] == s[|prefix|..];
        }
      }
    }
  }

  // ---------------------------------------------------------------- dispatch

  /** Position of the first `c` in `s` (`strpos`). */
  function IndexOfChar(s: string, c: char): (r: Option<nat>)
    ensures r.Some? ==> r.value < |s| && s[r.value] == c && forall j :: 0 <= j < r.value ==> s[j] != c
    ensures r.None? ==> forall j :: 0 <= j < |s| ==> s[j] != c
  {
    if s == [] then None
    else if s[0] == c then Some(0)
    else match IndexOfChar(s[1..], c)
      case Some(p) => Some(p + 1)
      case None => None
  }

  /** PHP's `!empty($s)` for a string: neither "" nor "0". */
  predicate NotEmpty(s: string)
  {
    s != "" && s != "0"
  }


  /** Lines 75-77: everything from the first '?' on is dropped; a URI without '?' is kept whole. */
  function CutQuery(uri: string): (r: string)
    ensures Free(r, '?') && |r| <= |uri| && r == uri[..|r|]
    ensures Free(uri, '?') ==> r == uri
  {
    match IndexOfChar(uri, '?')
    case Some(pos) => uri[..pos]
    case None => uri
  }

  /** A suffix of a text free of `c` is free of `c`. */
  lemma {:induction false} SuffixFree(s: string, n: nat, c: char)
    requires Free(s, c) && n <= |s|
    ensures Free(s[n..], c)
  {
    assert forall j :: 0 <= j < |s| - n ==> s[n..][j] == s[n + j];
  }

  /**
   * Lines 74-85: cut at the first '?', drop `strlen(basePath)` leading characters when the base
   * path is not empty, whatever they are, then make the URI start with exactly one '/'.
   */
  function Normalize(basePath: string, uri: string): (r: string)
    ensures |r| >= 1 && r[0] == '/' && (|r| >= 2 ==> r[1] != '/')
    ensures Free(r, '?')
  {
    var path := CutQuery(uri);
    var rest := if NotEmpty(basePath) then DropPrefix(path, |basePath|) else path;
    assert Free(rest, '?') by {
      if NotEmpty(basePath) && |basePath| <= |path| {
        SuffixFree(path, |basePath|, '?');
      }
    }
    var trimmed := TrimLeft(rest, '/');
    SuffixFree(rest, |rest| - |trimmed|, '?');
    "/" + trimmed
  }

  /**
   * The base path is removed by length only: whatever the first `strlen(basePath)` characters
   * are, they are dropped and the rest is routed, so with base path "/app" the URI "/xyz/login"
   * is routed as "/login".
   */
  lemma {:induction false} BasePathUnchecked(basePath: string, skipped: string, rest: string)
    requires NotEmpty(basePath) && |skipped| == |basePath|
    requires Free(skipped + rest, '?')
    ensures Normalize(basePath, skipped + rest) == "/" + TrimLeft(rest, '/')
  {
    assert (skipped + rest)[|skipped|..] == rest;
  }

  /** The query string is ignored: the URI with `?` and anything after normalises as the part before it. */
  lemma {:induction false} QueryIgnored(basePath: string, path: string, query: string)
    requires Free(path, '?')
    ensures Normalize(basePath, path + "?" + query) == Normalize(basePath, path)
  {
    var uri := path + "?" + query;
    assert uri[|path|] == '?';
    assert forall j :: 0 <= j < |path| ==> uri[j] == path[j];
    assert IndexOfChar(uri, '?') == Some(|path|);
    assert uri[..|path|] == path;
  }

  /** Route `i` takes the request: same method, pattern matches the URI. */
  predicate Accepts(route: Route, httpMethod: string, uri: string)
  {
    route.httpMethod == httpMethod && MatchTokens(route.pattern, uri).Some?
  }

  /** The first route, in registration order, that takes the request. */
  function FirstMatch(routes: seq<Route>, httpMethod: string, uri: string): (r: Option<nat>)
    ensures r.Some? ==> r.value < |routes| && Accepts(routes[r.value], httpMethod, uri)
    ensures r.Some? ==> forall j :: 0 <= j < r.value ==> !Accepts(routes[j], httpMethod, uri)
    ensures r.None? ==> forall j :: 0 <= j < |routes| ==> !Accepts(routes[j], httpMethod, uri)
  {
    if routes == [] then None
    else if Accepts(routes[0], httpMethod, uri) then Some(0)
    else match FirstMatch(routes[1..], httpMethod, uri)
      case Some(i) => assert routes[1..][i] == routes[i + 1]; Some(i + 1)
      case None => None
  }

  /** `dispatch`: the first accepting route's handler with its captures, or the 404 path. */
  function DispatchSpec(routes: seq<Route>, basePath: string, httpMethod: string, requestUri: string): (o: Outcome)
    ensures var uri := Normalize(basePath, requestUri);
      o.Invoke? <==> exists j :: 0 <= j < |routes| && Accepts(routes[j], httpMethod, uri)
  {
    var uri := Normalize(basePath, requestUri);
    match FirstMatch(routes, httpMethod, uri)
    case Some(i) =>
      assert 0 <= i < |routes| && Accepts(routes[i], httpMethod, uri);
      Invoke(routes[i].handler, MatchTokens(routes[i].pattern, uri).value)
    case None => NotFound
  }

  class Router {
    var routes: seq<Route>
    const basePath: string

    /** `new Router($basePath)`: no routes yet. */
    constructor (basePath: string)
      ensures this.basePath == basePath && routes == []
    {
      this.basePath := basePath;
      routes := [];
    }

    /** `addRoute`: one route appended, with the pattern compiled from the path. */
    method AddRoute(httpMethod: string, path: string, handler: Handler)
      modifies this
      ensures routes == old(routes) + [Route(httpMethod, path, Compile(path), handler)]
    {
      var pattern := Compile(path);
      routes := routes + [Route(httpMethod, path, pattern, handler)];
    }

    /** `get`: a GET route appended. */
    method Get(path: string, handler: Handler)
      modifies this
      ensures routes == old(routes) + [Route("GET", path, Compile(path), handler)]
    {
      AddRoute("GET", path, handler);
    }

    /** `post`: a POST route appended. */
    method Post(path: string, handler: Handler)
      modifies this
      ensures routes == old(routes) + [Route("POST", path, Compile(path), handler)]
    {
      AddRoute("POST", path, handler);
    }

    /** Lines 74-85: the URI rewritten step by step. */
    static method NormalizeUri(basePath: string, requestUri: string) returns (uri: string)
      ensures uri == Normalize(basePath, requestUri)
    {
      uri := requestUri;
      var pos := IndexOfChar(uri, '?');
      if pos.Some? {
        uri := uri[..pos.value];
      }
      assert uri == CutQuery(requestUri);
      if NotEmpty(basePath) {
        uri := DropPrefix(uri, |basePath|);
      }
      uri := "/" + TrimLeft(uri, '/');
    }

    /** Lines 69-101; the request method and URI are `$_SERVER['REQUEST_METHOD']` and `['REQUEST_URI']`. */
    method Dispatch(httpMethod: string, requestUri: string) returns (o: Outcome)
      ensures o == DispatchSpec(routes, basePath, httpMethod, requestUri)
    {
      var uri := NormalizeUri(basePath, requestUri);
      var table := routes;
      for i := 0 to |table|
        invariant forall j :: 0 <= j < i ==> !Accepts(table[j], httpMethod, uri)
      {
        var route := table[i];
        var matches := if route.httpMethod == httpMethod then MatchTokens(route.pattern, uri) else None;
        if matches.Some? {
          DispatchFound(table, basePath, httpMethod, requestUri, i);
          return Invoke(route.handler, matches.value);
        }
        Rejected(table, httpMethod, uri, i);
      }
      DispatchNotFound(table, basePath, httpMethod, requestUri);
      o := NotFound;
    }
  }

  /** A route whose method differs or whose pattern does not match extends the run of routes that decline. */
  lemma {:induction false} Rejected(routes: seq<Route>, httpMethod: string, uri: string, i: nat)
    requires i < |routes| && forall j :: 0 <= j < i ==> !Accepts(routes[j], httpMethod, uri)
    requires routes[i].httpMethod != httpMethod || MatchTokens(routes[i].pattern, uri).None?
    ensures forall j :: 0 <= j < i + 1 ==> !Accepts(routes[j], httpMethod, uri)
  {
  }

  /** The first accepting route is route `i` when it accepts and none before it does. */
  lemma {:induction false} FirstMatchIs(routes: seq<Route>, httpMethod: string, uri: string, i: nat)
    requires i < |routes| && Accepts(routes[i], httpMethod, uri)
    requires forall j :: 0 <= j < i ==> !Accepts(routes[j], httpMethod, uri)
    ensures FirstMatch(routes, httpMethod, uri) == Some(i)
  {
    var r := FirstMatch(routes, httpMethod, uri);
    assert r.Some?;
    assert !(r.value < i) && !(r.value > i);
  }

  /** The request goes to route `i` when it is the first route that takes it. */
  lemma {:induction false} DispatchFound(routes: seq<Route>, basePath: string, httpMethod: string, requestUri: string, i: nat)
    requires var uri := Normalize(basePath, requestUri);
      i < |routes| && Accepts(routes[i], httpMethod, uri)
      && forall j :: 0 <= j < i ==> !Accepts(routes[j], httpMethod, uri)
    ensures var uri := Normalize(basePath, requestUri);
      DispatchSpec(routes, basePath, httpMethod, requestUri)
      == Invoke(routes[i].handler, MatchTokens(routes[i].pattern, uri).value)
  {
    FirstMatchIs(routes, httpMethod, Normalize(basePath, requestUri), i);
  }

  /** The request is not found when no route takes it. */
  lemma {:induction false} DispatchNotFound(routes: seq<Route>, basePath: string, httpMethod: string, requestUri: string)
    requires var uri := Normalize(basePath, requestUri);
      forall j :: 0 <= j < |routes| ==> !Accepts(routes[j], httpMethod, uri)
    ensures DispatchSpec(routes, basePath, httpMethod, requestUri) == NotFound
  {
  }

  /** Registering a route after the one that takes a request does not change where it goes. */
  lemma {:induction false} LaterRoutesIgnored(routes: seq<Route>, extra: Route, basePath: string, httpMethod: string, requestUri: string)
    requires DispatchSpec(routes, basePath, httpMethod, requestUri).Invoke?
    ensures DispatchSpec(routes + [extra], basePath, httpMethod, requestUri)
            == DispatchSpec(routes, basePath, httpMethod, requestUri)
  {
    var uri := Normalize(basePath, requestUri);
    var i := FirstMatch(routes, httpMethod, uri).value;
    FirstMatchIs(routes + [extra], httpMethod, uri, i);
    assert (routes + [extra])[i] == routes[i];
  }
}
