/**
 * `urlParamsAndQueries(pattern, url)`: meant to bind the `:name` segments of a
 * string pattern to the segments of a URL.  Its guard `!pattern instanceof
 * RegExp` reads as `(!pattern) instanceof RegExp`, and a boolean is never a
 * RegExp, so the function always returns empty `params` and `queries`.  The
 * path-segment loop it guards is modelled on its own, together with the
 * evidently intended function with the guard negated as a whole.
 */
module UrlParams {
  import opened JsStrings

  /** The JavaScript values the guard can see. */
  datatype JsValue = StringValue(text: string) | RegExpValue(source: string) | BoolValue(b: bool)

  predicate Truthy(v: JsValue) {
    match v
    case StringValue(s) => s != ""
    case RegExpValue(_) => true
    case BoolValue(b) => b
  }

  /** `!v` */
  function Not(v: JsValue): JsValue {
    BoolValue(!Truthy(v))
  }

  predicate InstanceOfRegExp(v: JsValue) {
    v.RegExpValue?
  }

  /** The result object; a parameter bound to a missing URL segment holds `undefined` (`None`). */
  datatype ParamsAndQueries = ParamsAndQueries(params: map<string, Option<string>>, queries: map<string, string>)

  const NoParams: ParamsAndQueries := ParamsAndQueries(map[], map[])

  // ---------------------------------------------------------------------------
  // The path-segment loop (lines 14-21)
  // ---------------------------------------------------------------------------

  /** `part.startsWith(':') && part.length > 1` */
  predicate IsParamSegment(part: string) {
    |part| > 1 && part[0] == ':'
  }

  /** `part.split(':')[1]`: the text between the first colon and the next one, or the end. */
  function ParamName(part: string): (name: string)
    requires IsParamSegment(part)
    ensures ':' !in name
    ensures 1 + |name| <= |part| && part[1..1 + |name|] == name
    ensures 1 + |name| == |part| || part[1 + |name|] == ':'
  {
    SplitHead(part, ':', 0);
    SplitFirstPart(part[1..], ':');
    var name := Split(part, ':')[1];
    assert part[1..][..|name|] == part[1..1 + |name|];
    assert 1 + |name| < |part| ==> part[1..][|name|] == part[1 + |name|];
    name
  }

  /** `urlPathParts[i]`: `undefined` past the end. */
  function SegmentAt(parts: seq<string>, i: nat): Option<string> {
    if i < |parts| then Some(parts[i]) else None
  }

  /** The `params` object after the first `n` rounds of the loop over the pattern's segments. */
  function PathParamsOf(patternParts: seq<string>, urlParts: seq<string>, n: nat): map<string, Option<string>>
    requires n <= |patternParts|
  {
    if n == 0 then map[]
    else
      var before := PathParamsOf(patternParts, urlParts, n - 1);
      if IsParamSegment(patternParts[n - 1]) then before[ParamName(patternParts[n - 1]) := SegmentAt(urlParts, n - 1)]
      else before
  }

  /** Lines 14-21. */
  method BindPathParams(patternParts: seq<string>, urlParts: seq<string>) returns (params: map<string, Option<string>>)
    ensures params == PathParamsOf(patternParts, urlParts, |patternParts|)
  {
    params := map[];
    for i := 0 to |patternParts|
      invariant params == PathParamsOf(patternParts, urlParts, i)
    {
      if IsParamSegment(patternParts[i]) {
        params := params[ParamName(patternParts[i]) := SegmentAt(urlParts, i)];
      }
    }
  }

  /** A name is bound exactly when some `:name` segment among the first `n` carries it. */
  lemma {:induction false} PathParamsKeys(patternParts: seq<string>, urlParts: seq<string>, n: nat, name: string)
    requires n <= |patternParts|
    ensures name in PathParamsOf(patternParts, urlParts, n) <==>
      exists i | 0 <= i < n :: IsParamSegment(patternParts[i]) && ParamName(patternParts[i]) == name
  {
    if n > 0 {
      PathParamsKeys(patternParts, urlParts, n - 1, name);
      if IsParamSegment(patternParts[n - 1]) && ParamName(patternParts[n - 1]) == name {
        assert name in PathParamsOf(patternParts, urlParts, n);
      }
    }
  }

  /** The last `:name` segment wins: it binds `name` to the URL segment at its own index. */
  lemma {:induction false} PathParamsLastWins(patternParts: seq<string>, urlParts: seq<string>, n: nat, i: nat)
    requires i < n <= |patternParts| && IsParamSegment(patternParts[i])
    requires forall j | i < j < n :: !IsParamSegment(patternParts[j]) || ParamName(patternParts[j]) != ParamName(patternParts[i])
    ensures ParamName(patternParts[i]) in PathParamsOf(patternParts, urlParts, n)
    ensures PathParamsOf(patternParts, urlParts, n)[ParamName(patternParts[i])] == SegmentAt(urlParts, i)
  {
    if i < n - 1 {
      PathParamsLastWins(patternParts, urlParts, n - 1, i);
    }
  }

  /** URL segments beyond the pattern's are never looked at. */
  lemma {:induction false} ExtraUrlSegmentsIgnored(patternParts: seq<string>, urlParts: seq<string>, extra: seq<string>, n: nat)
    requires n <= |patternParts| && |patternParts| <= |urlParts|
    ensures PathParamsOf(patternParts, urlParts + extra, n) == PathParamsOf(patternParts, urlParts, n)
  {
    if n > 0 {
      ExtraUrlSegmentsIgnored(patternParts, urlParts, extra, n - 1);
      assert (urlParts + extra)[n - 1] == urlParts[n - 1];
    }
  }

  /** A lone `:` binds nothing, and `:a:b` binds `a`: the name ends at the second colon. */
  lemma ParamNameStopsAtColon(a: string, b: string)
    requires a != "" && ':' !in a
    ensures !IsParamSegment(":")
    ensures IsParamSegment(":" + a + ":" + b) && ParamName(":" + a + ":" + b) == a
  {
    var part := ":" + a + ":" + b;
    var rest := a + ":" + b;
    assert part == ":" + rest by {
      ConcatAssoc(":", a + ":", b);
      ConcatAssoc(":", a, ":");
    }
    assert part[1..] == rest && part[..0] == "";
    SplitAt(part, ':', 0);
    assert rest[..|a|] == a;
    SplitAt(rest, ':', |a|);
  }

  // ---------------------------------------------------------------------------
  // urlParamsAndQueries
  // ---------------------------------------------------------------------------

  /** The guard of line 5 as written: `(!pattern) instanceof RegExp`. */
  predicate GuardAsWritten(pattern: JsValue) {
    InstanceOfRegExp(Not(pattern))
  }

  /** `!pattern` is a boolean, so `(!pattern) instanceof RegExp` is false for every pattern. */
  lemma GuardNeverHolds(pattern: JsValue)
    ensures !GuardAsWritten(pattern)
  {
  }

  /** The guard as evidently intended: `!(pattern instanceof RegExp)`. */
  predicate GuardIntended(pattern: JsValue) {
    !InstanceOfRegExp(pattern)
  }

  /** `patternParts[1] ? … : []` is non-empty: the pattern has a non-empty query part. */
  predicate HasQueryPart(pattern: string) {
    var parts := Split(pattern, '?');
    |parts| >= 2 && parts[1] != ""
  }

  /** The params bound once the guard is passed: the loop over the path parts of the pattern and of the URL. */
  function PathParams(pattern: string, url: string): map<string, Option<string>> {
    var patternPath := Split(Split(pattern, '?')[0], '/');
    PathParamsOf(patternPath, Split(Split(url, '?')[0], '/'), |patternPath|)
  }

  /** Lines 1-40 as written: the guard never holds, so both objects come back empty. */
  function UrlParamsAndQueries(pattern: JsValue, url: string): (r: ParamsAndQueries)
    ensures r == NoParams
  {
    if GuardAsWritten(pattern) then
      match pattern
      case StringValue(s) => if HasQueryPart(s) then NoParams else ParamsAndQueries(PathParams(s, url), map[])
      case _ => NoParams
    else NoParams
  }

  /**
   * Lines 1-40 with the guard negated as a whole.  `None` is a thrown error: a
   * non-string pattern has no `split`, and a pattern with a query part runs
   * line 25, which reads `urlQueryPart` before its initialisation.
   */
  function UrlParamsAndQueriesIntended(pattern: JsValue, url: string): (r: Option<ParamsAndQueries>)
    ensures pattern.RegExpValue? ==> r == Some(NoParams)
    ensures pattern.BoolValue? ==> r.None?
    ensures pattern.StringValue? && HasQueryPart(pattern.text) ==> r.None?
    ensures pattern.StringValue? && !HasQueryPart(pattern.text) ==>
      r == Some(ParamsAndQueries(PathParams(pattern.text, url), map[]))
  {
    if !GuardIntended(pattern) then Some(NoParams)
    else match pattern
      case StringValue(s) => if HasQueryPart(s) then None else Some(ParamsAndQueries(PathParams(s, url), map[]))
      case _ => None
  }

  /**
   * `/seg/:name` against `/seg/value` (such as `/post/:id` against `/post/42`):
   * as written nothing is bound; as intended `name` is bound to `value`.
   */
  lemma NamedSegmentExample(seg: string, name: string, value: string)
    requires '/' !in seg && '?' !in seg && (seg == "" || seg[0] != ':')
    requires name != "" && '/' !in name && '?' !in name && ':' !in name
    requires '/' !in value && '?' !in value
    ensures UrlParamsAndQueries(StringValue("/" + seg + "/:" + name), "/" + seg + "/" + value).params == map[]
    ensures UrlParamsAndQueriesIntended(StringValue("/" + seg + "/:" + name), "/" + seg + "/" + value)
      == Some(ParamsAndQueries(map[name := Some(value)], map[]))
  {
    var pattern, url := "/" + seg + "/:" + name, "/" + seg + "/" + value;
    PatternPathParts(seg, name);
    UrlPathParts(seg, value);
    NamedSegmentParams(seg, name, value);
    assert PathParams(pattern, url) == map[name := Some(value)];
  }

  lemma NamedSegmentParams(seg: string, name: string, value: string)
    requires seg == "" || seg[0] != ':'
    requires name != "" && ':' !in name
    ensures PathParamsOf(["", seg, ":" + name], ["", seg, value], 3) == map[name := Some(value)]
  {
    ParamNameOf(name);
    var pp, up := ["", seg, ":" + name], ["", seg, value];
    assert !IsParamSegment(pp[0]) && !IsParamSegment(pp[1]);
    assert PathParamsOf(pp, up, 1) == map[];
    assert PathParamsOf(pp, up, 2) == map[];
  }

  lemma PatternPathParts(seg: string, name: string)
    requires '/' !in seg && '?' !in seg && '/' !in name && '?' !in name && name != ""
    ensures var pattern := "/" + seg + "/:" + name;
      Split(Split(pattern, '?')[0], '/') == ["", seg, ":" + name] && !HasQueryPart(pattern)
  {
    var param := ":" + name;
    var pattern := "/" + seg + "/:" + name;
    assert param[0] == ':' && param[1..] == name;
    assert '/' !in param && '?' !in param;
    assert pattern == "/" + seg + "/" + param by {
      ConcatAssoc("/" + seg, "/", param);
      ConcatAssoc("/" + seg, "/", name);
      ConcatAssoc("/", ":", name);
    }
    NoSeparatorInPath(seg, param, '?');
    PathSplit(pattern, seg, param);
  }

  lemma UrlPathParts(seg: string, value: string)
    requires '/' !in seg && '?' !in seg && '/' !in value && '?' !in value
    ensures Split(Split("/" + seg + "/" + value, '?')[0], '/') == ["", seg, value]
  {
    NoSeparatorInPath(seg, value, '?');
    PathSplit("/" + seg + "/" + value, seg, value);
  }

  lemma NoSeparatorInPath(a: string, b: string, c: char)
    requires c != '/' && c !in a && c !in b
    ensures c !in "/" + a + "/" + b
  {
    var p := "/" + a + "/" + b;
    forall k | 0 <= k < |p| ensures p[k] != c {
      if 0 < k <= |a| { assert p[k] == a[k - 1]; }
      else if k > |a| + 1 { assert p[k] == b[k - |a| - 2]; }
    }
  }

  /** `/a/b` splits on `/` into `""`, `a` and `b`. */
  lemma PathSplit(path: string, a: string, b: string)
    requires path == "/" + a + "/" + b && '/' !in a && '/' !in b
    ensures Split(path, '/') == ["", a, b]
  {
    var rest := a + "/" + b;
    assert path == "/" + rest by {
      ConcatAssoc("/", a + "/", b);
      ConcatAssoc("/", a, "/");
    }
    assert path[1..] == rest && path[..0] == "";
    SplitAt(path, '/', 0);
    SegmentSplit(rest, a, b);
  }

  /** `a/b` splits on `/` into `a` and `b`. */
  lemma SegmentSplit(rest: string, a: string, b: string)
    requires rest == a + "/" + b && '/' !in a && '/' !in b
    ensures Split(rest, '/') == [a, b]
  {
    assert rest[..|a|] == a && rest[|a| + 1..] == b;
    SplitAt(rest, '/', |a|);
  }

  lemma ParamNameOf(name: string)
    requires name != "" && ':' !in name
    ensures IsParamSegment(":" + name) && ParamName(":" + name) == name
  {
    SplitAt(":" + name, ':', 0);
    assert (":" + name)[1..] == name;
  }
}
