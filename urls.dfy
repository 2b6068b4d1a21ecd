/** URL dispatch of a link path (`Builder::dispatch`, `getUrl`, `isAbs`,
    `getRoute`, `getControllerAction`) and the two URL matchers used for
    activation: the RESTful prefix match of `Item::checkActivationStatus`
    and the wildcard pattern of `Item::active($pattern)`.

    The framework services are the fields of `Env`: the URL generator
    (`URL::to`, `URL::route`, `URL::action`), the current request, `e()`,
    `parse_url`, and the nickname derivation `Str::camel(Str::ascii(..))`. */
module Urls {
  import opened Php

  datatype Env = Env(
    to: (string, seq<Value>, Option<bool>) -> string,
    route: (Value, seq<Value>) -> string,
    action: (Value, seq<Value>) -> string,
    escape: Value -> string,
    /** `parse_url($s, PHP_URL_SCHEME)` */
    scheme: string -> Value,
    /** `parse_url($s, PHP_URL_PATH)`, with a missing path read as "" */
    urlPath: string -> string,
    /** `Str::camel(Str::ascii($title))` */
    nickname: string -> string,
    requestUrl: string,
    requestFullUrl: string,
    requestPath: string)

  const UrlKey: Key := Name("url")
  const RouteKey: Key := Name("route")
  const ActionKey: Key := Name("action")
  const SecureKey: Key := Name("secure")
  const PrefixKey: Key := Name("prefix")

  /** `Builder::isAbs($url)`: the URL has a (truthy) scheme. */
  predicate IsAbs(env: Env, url: Value)
  {
    Truthy(env.scheme(ToStr(url)))
  }

  /** `$url[0]` and `array_slice($url, 1)` of a list-valued option. */
  function Head(xs: seq<Value>): Value
  {
    if |xs| > 0 then xs[0] else Null
  }

  function Tail(xs: seq<Value>): seq<Value>
  {
    if |xs| > 0 then xs[1..] else []
  }

  /** `$secure` in `getUrl`: null unless the option is set, then whether it is exactly `true`. */
  function SecureFlag(options: PArray): Option<bool>
  {
    if IsSet(options, SecureKey) then Some(Get(options, SecureKey) == Bool(true)) else None
  }

  /** `Builder::getUrl($options)`. */
  function GetUrl(env: Env, options: PArray): Value
  {
    var url := Get(options, UrlKey);
    var prefix := ToStr(Get(options, PrefixKey));
    var secure := SecureFlag(options);
    if url.List? then
      if IsAbs(env, Head(url.elems)) then Head(url.elems)
      else Str(env.to(prefix + "/" + ToStr(Head(url.elems)), Tail(url.elems), secure))
    else if IsAbs(env, url) then url
    else Str(env.to(prefix + "/" + ToStr(url), [], secure))
  }

  /** `getRoute` and `getControllerAction`: a list names the target and its parameters. */
  function Generate(gen: (Value, seq<Value>) -> string, target: Value): string
  {
    if target.List? then gen(Head(target.elems), Tail(target.elems)) else gen(target, [])
  }

  /** `Builder::dispatch($options)`. */
  function Dispatch(env: Env, options: PArray): Value
  {
    if IsSet(options, UrlKey) then GetUrl(env, options)
    else if IsSet(options, RouteKey) then Str(Generate(env.route, Get(options, RouteKey)))
    else if IsSet(options, ActionKey) then Str(Generate(env.action, Get(options, ActionKey)))
    else Null
  }

  /** Dispatch gives null exactly when none of `url`, `route` and `action`
      is set (`parse_url` finds no scheme in the empty string). */
  lemma DispatchNull(env: Env, options: PArray)
    requires env.scheme("") == Null
    ensures Dispatch(env, options) == Null <==>
      !IsSet(options, UrlKey) && !IsSet(options, RouteKey) && !IsSet(options, ActionKey)
  {
    if IsSet(options, UrlKey) {
      var url := Get(options, UrlKey);
      if url.List? && IsAbs(env, Head(url.elems)) {
        assert ToStr(Head(url.elems)) != "";
      }
    }
  }

  /** `getUrl` reads only the `url`, `prefix` and `secure` options. */
  lemma GetUrlReads(env: Env, a: PArray, b: PArray)
    requires Get(a, UrlKey) == Get(b, UrlKey) && Get(a, PrefixKey) == Get(b, PrefixKey)
    requires Get(a, SecureKey) == Get(b, SecureKey)
    ensures GetUrl(env, a) == GetUrl(env, b)
  {
    assert SecureFlag(a) == SecureFlag(b);
  }

  /** `url` wins over `route`, which wins over `action`: a lower-ranked key
      never changes the result once a higher-ranked one is set. */
  lemma DispatchPrecedence(env: Env, options: PArray, v: Value)
    ensures IsSet(options, UrlKey) ==>
      Dispatch(env, Put(options, RouteKey, v)) == Dispatch(env, options) &&
      Dispatch(env, Put(options, ActionKey, v)) == Dispatch(env, options)
    ensures !IsSet(options, UrlKey) && IsSet(options, RouteKey) ==>
      Dispatch(env, Put(options, ActionKey, v)) == Dispatch(env, options)
  {
    var withRoute := Put(options, RouteKey, v);
    var withAction := Put(options, ActionKey, v);
    PutGet(options, RouteKey, v, UrlKey);
    PutGet(options, ActionKey, v, UrlKey);
    if IsSet(options, UrlKey) {
      PutGet(options, RouteKey, v, PrefixKey);
      PutGet(options, RouteKey, v, SecureKey);
      GetUrlReads(env, withRoute, options);
      PutGet(options, ActionKey, v, PrefixKey);
      PutGet(options, ActionKey, v, SecureKey);
      GetUrlReads(env, withAction, options);
    } else if IsSet(options, RouteKey) {
      PutGet(options, ActionKey, v, RouteKey);
      assert Dispatch(env, withAction) == Str(Generate(env.route, Get(options, RouteKey)));
    }
  }

  /** A URL with a scheme is returned verbatim; any other URL goes through
      `URL::to` under the group prefix. */
  lemma DispatchUrl(env: Env, options: PArray, u: string)
    requires Get(options, UrlKey) == Str(u)
    ensures Truthy(env.scheme(u)) ==> Dispatch(env, options) == Str(u)
    ensures !Truthy(env.scheme(u)) ==>
      Dispatch(env, options) == Str(env.to(ToStr(Get(options, PrefixKey)) + "/" + u, [], SecureFlag(options)))
  {
  }

  /** A list URL: its first element is the target, the rest are parameters. */
  lemma DispatchUrlList(env: Env, options: PArray, u: string, params: seq<Value>)
    requires Get(options, UrlKey) == List([Str(u)] + params)
    ensures Truthy(env.scheme(u)) ==> Dispatch(env, options) == Str(u)
    ensures !Truthy(env.scheme(u)) ==>
      Dispatch(env, options) == Str(env.to(ToStr(Get(options, PrefixKey)) + "/" + u, params, SecureFlag(options)))
  {
    assert ([Str(u)] + params)[1..] == params;
  }

  // ----- RESTful matching (Item::checkActivationStatus, restful mode) -----

  /** `preg_replace('@^(' . $base . ')/@', '', $s, 1)` for metacharacter-free
      alternatives: the first alternative that, followed by a slash, starts `s`
      is removed together with the slash. */
  function StripBase(alts: seq<string>, s: string): (r: string)
    ensures |r| <= |s|
  {
    if |alts| == 0 then s
    else
      var b := alts[0] + "/";
      if |b| <= |s| && s[..|b|] == b then s[|b|..] else StripBase(alts[1..], s)
  }

  /** The alternatives of `rest_base`: an array is joined with `|`, and the
      resulting pattern is split back at `|`. */
  function BaseAlternatives(base: Value): seq<string>
  {
    var joined := if base.List? then Implode("|", ToStrs(base.elems)) else ToStr(base);
    Explode('|', joined)
  }

  function ToStrs(vs: seq<Value>): (r: seq<string>)
    ensures |r| == |vs|
  {
    if |vs| == 0 then [] else [ToStr(vs[0])] + ToStrs(vs[1..])
  }

  /** The meaning of `preg_match("@^{$path}(/.+)?\z@", $rpath)` for a
      metacharacter-free path: the request path is the item path itself, or
      the item path, a slash and a non-empty rest without a newline. */
  ghost predicate RestSpec(path: string, rpath: string)
  {
    rpath == path || exists rest: string :: rest != "" && '\n' !in rest && rpath == path + "/" + rest
  }

  /** The same test, decided by comparing prefixes. */
  predicate RestMatch(path: string, rpath: string)
  {
    rpath == path ||
    (|rpath| > |path| + 1 && rpath[..|path|] == path && rpath[|path|] == '/' && '\n' !in rpath[|path| + 1..])
  }

  lemma RestMatchSpec(path: string, rpath: string)
    ensures RestMatch(path, rpath) <==> RestSpec(path, rpath)
  {
    if RestMatch(path, rpath) && rpath != path {
      var rest := rpath[|path| + 1..];
      assert rpath == path + "/" + rest;
    }
    if RestSpec(path, rpath) && rpath != path {
      var rest: string :| rest != "" && '\n' !in rest && rpath == path + "/" + rest;
      assert rpath[..|path|] == path;
      assert rpath[|path| + 1..] == rest;
    }
  }

  /** One alternative removed: if `b/` starts the path, the rest is what remains. */
  lemma StripBaseFirst(b: string, alts: seq<string>, s: string)
    requires |b| + 1 <= |s| && s[..|b| + 1] == b + "/"
    ensures StripBase([b] + alts, s) == s[|b| + 1..]
  {
  }

  /** No alternative starts the path: it is left unchanged. */
  lemma {:induction false} StripBaseNone(alts: seq<string>, s: string)
    requires forall j :: 0 <= j < |alts| ==> !(|alts[j]| + 1 <= |s| && s[..|alts[j]| + 1] == alts[j] + "/")
    ensures StripBase(alts, s) == s
  {
    if |alts| > 0 {
      StripBaseNone(alts[1..], s);
    }
  }

  /** The RESTful activation test of an item id: both paths lose their leading
      slashes and, when `rest_base` is truthy, one base prefix. */
  predicate RestfulActive(env: Env, url: Value, restBase: Value)
  {
    var path := TrimLeft(env.urlPath(ToStr(url)), {'/'});
    var rpath := TrimLeft(env.urlPath(env.requestPath), {'/'});
    var alts := BaseAlternatives(restBase);
    if Truthy(restBase) then RestMatch(StripBase(alts, path), StripBase(alts, rpath))
    else RestMatch(path, rpath)
  }

  /** The exact test of the non-RESTful mode: `url() == Request::url() || url() == Request::fullUrl()`. */
  predicate ExactActive(env: Env, url: Value)
  {
    LooseEq(url, Str(env.requestUrl)) || LooseEq(url, Str(env.requestFullUrl))
  }

  // ----- Wildcard patterns (Item::active($pattern)) -----

  /** The literal pieces of a pattern between its wildcards (a slash followed by a star). */
  function SplitWildcards(p: string): (r: seq<string>)
    ensures |r| >= 1
  {
    if |p| == 0 then [""]
    else if |p| >= 2 && p[..2] == "/*" then [""] + SplitWildcards(p[2..])
    else
      var rest := SplitWildcards(p[1..]);
      [[p[0]] + rest[0]] + rest[1..]
  }

  /** The pieces of the regular expression built by `active($pattern)`:
      every wildcard became `(/.*)?` and leading slashes were trimmed, which only
      touches the first piece. */
  function PatternPieces(pattern: string): (r: seq<string>)
    ensures |r| >= 1
  {
    var pieces := SplitWildcards(pattern);
    [TrimLeft(pieces[0], {'/'})] + pieces[1..]
  }

  /** A stretch matched by `(/.*)?`: empty, or a slash and newline-free characters. */
  predicate WildStretch(g: string)
  {
    g == "" || (g[0] == '/' && '\n' !in g)
  }

  /** `preg_match("@^{$regex}\z@", $s)` for the pieces `p0 (/.*)? p1 ... pn`,
      with metacharacter-free pieces. */
  predicate PiecesMatch(pieces: seq<string>, s: string)
    requires |pieces| >= 1
    decreases |pieces|
  {
    if |pieces| == 1 then s == pieces[0]
    else
      |pieces[0]| <= |s| && s[..|pieces[0]|] == pieces[0] &&
      exists k :: |pieces[0]| <= k <= |s| && WildStretch(s[|pieces[0]|..k]) && PiecesMatch(pieces[1..], s[k..])
  }

  ghost predicate PatternMatches(pattern: string, path: string)
  {
    PiecesMatch(PatternPieces(pattern), path)
  }

  lemma {:induction false} SplitFree(p: string)
    requires forall j :: 0 <= j < |p| - 1 ==> !(p[j] == '/' && p[j + 1] == '*')
    ensures SplitWildcards(p) == [p]
  {
    if |p| > 0 {
      SplitFree(p[1..]);
      assert [p[0]] + p[1..] == p;
    }
  }

  /** A pattern without wildcards matches exactly its own text without the
      leading slashes. */
  lemma PlainPattern(pattern: string, path: string)
    requires forall j :: 0 <= j < |pattern| - 1 ==> !(pattern[j] == '/' && pattern[j + 1] == '*')
    ensures PatternMatches(pattern, path) <==> path == TrimLeft(pattern, {'/'})
  {
    SplitFree(pattern);
  }

  /** `p` with a trailing wildcard matches `p` and every path continuing `p` with a slash and a
      newline-free rest (`p` without a leading slash, a wildcard or a star). */
  lemma TrailingWildcard(p: string, path: string)
    requires |p| > 0 && p[0] != '/' && '*' !in p
    ensures PatternMatches(p + "/*", path) <==>
      path == p || (|path| > |p| && path[..|p|] == p && path[|p|] == '/' && '\n' !in path[|p|..])
  {
    var q := p + "/*";
    assert q[|p|..] == "/*";
    SplitTail(p);
    assert PatternPieces(q) == [p, ""];
    TwoPieces(p, path);
    if |path| >= |p| && path[..|p|] == p && |path| == |p| {
      assert path == p;
    }
  }

  /** A literal piece followed by one wildcard. */
  lemma TwoPieces(p: string, s: string)
    ensures PiecesMatch([p, ""], s) <==> |p| <= |s| && s[..|p|] == p && WildStretch(s[|p|..])
  {
    if PiecesMatch([p, ""], s) {
      TwoPiecesOnlyIf(p, s);
    }
    if |p| <= |s| && s[..|p|] == p && WildStretch(s[|p|..]) {
      TwoPiecesIf(p, s);
    }
  }

  lemma TwoPiecesOnlyIf(p: string, s: string)
    requires PiecesMatch([p, ""], s)
    ensures |p| <= |s| && s[..|p|] == p && WildStretch(s[|p|..])
  {
    var ps := [p, ""];
    assert ps[1..] == [""];
    var k :| |p| <= k <= |s| && WildStretch(s[|p|..k]) && PiecesMatch(ps[1..], s[k..]);
    assert k == |s| by {
      assert s[k..] == "";
    }
    assert s[|p|..k] == s[|p|..];
  }

  lemma TwoPiecesIf(p: string, s: string)
    requires |p| <= |s| && s[..|p|] == p && WildStretch(s[|p|..])
    ensures PiecesMatch([p, ""], s)
  {
    var ps := [p, ""];
    assert ps[0] == p && ps[1..] == [""];
    var k := |s|;
    assert s[|p|..k] == s[|p|..];
    assert PiecesMatch(ps[1..], s[k..]) by {
      assert s[k..] == "";
    }
  }

  lemma {:induction false} SplitTail(p: string)
    requires '*' !in p
    ensures SplitWildcards(p + "/*") == [p, ""]
  {
    var q := p + "/*";
    if |p| == 0 {
      assert q == "/*" && q[2..] == "";
    } else {
      assert q[1..] == p[1..] + "/*";
      SplitTail(p[1..]);
      assert p[0] != '*';
      assert !(q[..2] == "/*") by {
        if |p| == 1 {
          assert q[1] == '/';
        } else {
          assert q[1] == p[1] && p[1] in p;
        }
      }
      assert [p[0]] + p[1..] == p;
    }
  }
}
