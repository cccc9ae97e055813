/**
 * The router's pure string functions: route matching (`AZRouter.onMATCH`),
 * parameter extraction (`AZRouter.onPARAMS`) and the URL that
 * `AZRouter.navigateTo` pushes and processes.
 */
module Routes {
  import opened Wrappers
  import opened Strings

  /**
   * A route table entry: its pattern `on`, its `onSCROLL.RESTORE` setting
   * (`""` when the route has none) and whether it has an `onREDIRECT` affix.
   * The other affixes are opaque callbacks and are not represented.
   */
  datatype Route = Route(on: string, restore: string, redirects: bool)

  /** A pattern segment starting with `:` names a parameter and fits any segment. */
  predicate IsParam(seg: string) {
    |seg| > 0 && seg[0] == ':'
  }

  predicate SegmentFits(pat: string, seg: string) {
    IsParam(pat) || pat == seg
  }

  /**
   * A pattern matches a URL when both have the same number of `/`-separated
   * segments and every literal pattern segment equals the raw URL segment at
   * the same index (a `?query` stays part of the last URL segment).
   */
  predicate Matches(pattern: string, url: string) {
    var ps, us := Split(pattern, '/'), Split(url, '/');
    |ps| == |us| && forall i :: 0 <= i < |ps| ==> SegmentFits(ps[i], us[i])
  }

  /** `onMATCH`: the index of the first route, in table order, that matches `url`. */
  function Match(routes: seq<Route>, url: string): (r: Option<nat>)
    ensures r.Some? ==> r.value < |routes| && Matches(routes[r.value].on, url)
    ensures r.Some? ==> forall j :: 0 <= j < r.value ==> !Matches(routes[j].on, url)
    ensures r.None? <==> forall j :: 0 <= j < |routes| ==> !Matches(routes[j].on, url)
  {
    MatchFrom(routes, url, 0)
  }

  function MatchFrom(routes: seq<Route>, url: string, k: nat): (r: Option<nat>)
    requires k <= |routes|
    ensures r.Some? ==> k <= r.value < |routes| && Matches(routes[r.value].on, url)
    ensures r.Some? ==> forall j :: k <= j < r.value ==> !Matches(routes[j].on, url)
    ensures r.None? ==> forall j :: k <= j < |routes| ==> !Matches(routes[j].on, url)
    decreases |routes| - k
  {
    if k == |routes| then None
    else if Matches(routes[k].on, url) then Some(k)
    else MatchFrom(routes, url, k + 1)
  }

  /** A pattern that matches a more specific pattern matches every URL that one matches. */
  lemma MatchesThrough(general: string, specific: string, url: string)
    requires Matches(general, specific) && Matches(specific, url)
    ensures Matches(general, url)
  {
    var gs, ss, us := Split(general, '/'), Split(specific, '/'), Split(url, '/');
    forall i | 0 <= i < |gs| ensures SegmentFits(gs[i], us[i]) {
      assert SegmentFits(gs[i], ss[i]) && SegmentFits(ss[i], us[i]);
    }
  }

  /**
   * Table order decides: a later route is never chosen when an earlier one
   * matches its pattern, so `/users/:id` listed first shadows `/users/new`.
   */
  lemma Shadowed(routes: seq<Route>, i: nat, j: nat, url: string)
    requires i < j < |routes| && Matches(routes[i].on, routes[j].on)
    ensures Match(routes, url) != Some(j)
  {
    if Match(routes, url) == Some(j) {
      MatchesThrough(routes[i].on, routes[j].on, url);
    }
  }

  /**
   * A literal segment is compared with the raw URL segment, so a pattern
   * without `?` never matches a URL whose segment at a literal position
   * carries a `?query`.
   */
  lemma QueryDefeatsLiteral(pattern: string, url: string, k: nat)
    requires '?' !in pattern
    requires k < |Split(pattern, '/')| && !IsParam(Split(pattern, '/')[k])
    requires k < |Split(url, '/')| && '?' in Split(url, '/')[k]
    ensures !Matches(pattern, url)
  {
    if Matches(pattern, url) {
      SplitChars(pattern, '/', k, '?');
    }
  }

  /** The path: the URL text before its first `?` (`onURL.split('?')[0]`). */
  function PathOf(url: string): (r: string)
    ensures r <= url && '?' !in r
    ensures |r| == |url| || url[|r|] == '?'
  {
    SplitHead(url, '?');
    Split(url, '?')[0]
  }

  /** The query: the text between the first and the second `?`, or `""`. */
  function QueryOf(url: string): (r: string)
    ensures '?' !in r
  {
    var parts := Split(url, '?');
    if |parts| > 1 then parts[1] else ""
  }

  /**
   * One `&`-separated piece of a query as a name/value pair: the name is the
   * text before the first `=`, the value the text after it (`""` without one).
   */
  function NameValue(piece: string): (r: (string, string))
    ensures '=' !in r.0
    ensures (r.0 == piece && r.1 == "") || piece == r.0 + "=" + r.1
  {
    SplitHead(piece, '=');
    var name := Split(piece, '=')[0];
    if |name| < |piece| then
      assert piece == name + "=" + piece[|name| + 1..] by {
        assert piece == piece[..|name|] + [piece[|name|]] + piece[|name| + 1..];
      }
      (name, piece[|name| + 1..])
    else (name, "")
  }

  /** The pairs of a query in order, empty pieces skipped. */
  function PairsOf(pieces: seq<string>): (r: seq<(string, string)>)
    ensures |r| <= |pieces|
    ensures forall j :: 0 <= j < |r| ==> '=' !in r[j].0
  {
    if pieces == [] then []
    else (if pieces[0] == "" then [] else [NameValue(pieces[0])]) + PairsOf(pieces[1..])
  }

  function Pairs(query: string): (r: seq<(string, string)>)
    ensures |r| <= |Split(query, '&')|
    ensures forall j :: 0 <= j < |r| ==> '=' !in r[j].0
  {
    PairsOf(Split(query, '&'))
  }

  /** `Object.fromEntries`: the pairs written in order, so the last pair of a name wins. */
  function FromEntries(ps: seq<(string, string)>): map<string, string> {
    if ps == [] then map[]
    else FromEntries(ps[..|ps| - 1])[ps[|ps| - 1].0 := ps[|ps| - 1].1]
  }

  /** The query parameters of a URL. */
  function Query(url: string): map<string, string> {
    FromEntries(Pairs(QueryOf(url)))
  }

  /**
   * The fold of `onPARAMS` over the pattern segments from index `i`: a
   * parameter segment writes its name with the URL segment at the same index,
   * cut at its first `?`.  A parameter segment past the URL's last segment
   * makes the call fault (`None`).
   */
  function FoldParams(ps: seq<string>, us: seq<string>, i: nat, acc: map<string, string>): Option<map<string, string>>
    requires i <= |ps|
    decreases |ps| - i
  {
    if i == |ps| then Some(acc)
    else if IsParam(ps[i]) then
      if i < |us| then FoldParams(ps, us, i + 1, acc[ps[i][1..] := PathOf(us[i])]) else None
    else FoldParams(ps, us, i + 1, acc)
  }

  /** `onPARAMS(pattern, url)`: `on` is the path, the query spread over it, the path parameters over both. */
  function Params(pattern: string, url: string): Option<map<string, string>> {
    FoldParams(Split(pattern, '/'), Split(url, '/'), 0, map["on" := PathOf(url)] + Query(url))
  }

  /** The pattern segment `seg` is the parameter `:k`. */
  predicate Names(seg: string, k: string) {
    IsParam(seg) && seg[1..] == k
  }

  /** The index of the last parameter segment at or after `i` that is named `k`. */
  function LastParam(ps: seq<string>, k: string, i: nat): (r: Option<nat>)
    requires i <= |ps|
    ensures r.Some? ==> i <= r.value < |ps| && Names(ps[r.value], k)
    ensures r.Some? ==> forall j :: r.value < j < |ps| ==> !Names(ps[j], k)
    ensures r.None? <==> forall j :: i <= j < |ps| ==> !Names(ps[j], k)
    decreases |ps| - i
  {
    if i == |ps| then None
    else match LastParam(ps, k, i + 1)
      case Some(j) => Some(j)
      case None => if Names(ps[i], k) then Some(i) else None
  }

  /**
   * What the fold leaves under a name: the URL segment of the last
   * parameter segment with that name, and otherwise what was there before.
   */
  lemma {:induction false} FoldParamsValue(ps: seq<string>, us: seq<string>, i: nat, acc: map<string, string>, k: string)
    requires i <= |ps| && FoldParams(ps, us, i, acc).Some?
    ensures var m := FoldParams(ps, us, i, acc).value;
      match LastParam(ps, k, i)
      case Some(j) => j < |us| && k in m && m[k] == PathOf(us[j])
      case None => (k in m <==> k in acc) && (k in acc ==> m[k] == acc[k])
    decreases |ps| - i
  {
    if i < |ps| {
      if IsParam(ps[i]) {
        FoldParamsValue(ps, us, i + 1, acc[ps[i][1..] := PathOf(us[i])], k);
      } else {
        FoldParamsValue(ps, us, i + 1, acc, k);
      }
    }
  }

  /** The fold faults exactly when a parameter segment lies past the URL's last segment. */
  lemma {:induction false} FoldParamsFaults(ps: seq<string>, us: seq<string>, i: nat, acc: map<string, string>)
    requires i <= |ps|
    ensures FoldParams(ps, us, i, acc).None? <==> exists j :: i <= j < |ps| && IsParam(ps[j]) && |us| <= j
    decreases |ps| - i
  {
    if i < |ps| {
      if IsParam(ps[i]) && i < |us| {
        FoldParamsFaults(ps, us, i + 1, acc[ps[i][1..] := PathOf(us[i])]);
      } else if !IsParam(ps[i]) {
        FoldParamsFaults(ps, us, i + 1, acc);
      }
    }
  }

  /**
   * `onPARAMS` in full: a path parameter wins over the query, a query key
   * wins over `on`, and `on` is the path before the first `?`.
   */
  lemma ParamsValue(pattern: string, url: string, k: string)
    requires Params(pattern, url).Some?
    ensures var m, ps, us := Params(pattern, url).value, Split(pattern, '/'), Split(url, '/');
      match LastParam(ps, k, 0)
      case Some(j) => j < |us| && k in m && m[k] == PathOf(us[j])
      case None =>
        && (k in m <==> k == "on" || k in Query(url))
        && (k in Query(url) ==> m[k] == Query(url)[k])
        && (k == "on" && k !in Query(url) ==> m[k] == PathOf(url))
  {
    FoldParamsValue(Split(pattern, '/'), Split(url, '/'), 0, map["on" := PathOf(url)] + Query(url), k);
  }

  /** `onPARAMS` faults exactly on a pattern with a parameter segment beyond the URL's segments. */
  lemma ParamsFault(pattern: string, url: string)
    ensures Params(pattern, url).None? <==>
      exists j :: 0 <= j < |Split(pattern, '/')| && IsParam(Split(pattern, '/')[j]) && |Split(url, '/')| <= j
  {
    FoldParamsFaults(Split(pattern, '/'), Split(url, '/'), 0, map["on" := PathOf(url)] + Query(url));
  }

  /** After a match `onPARAMS` cannot fault, and `on` is always among the keys. */
  lemma MatchedParams(pattern: string, url: string)
    requires Matches(pattern, url)
    ensures Params(pattern, url).Some? && "on" in Params(pattern, url).value
  {
    ParamsFault(pattern, url);
    ParamsValue(pattern, url, "on");
  }

  /** The last pair written for a name is its value. */
  lemma {:induction false} FromEntriesLast(ps: seq<(string, string)>, i: nat)
    requires i < |ps|
    requires forall j :: i < j < |ps| ==> ps[j].0 != ps[i].0
    ensures ps[i].0 in FromEntries(ps) && FromEntries(ps)[ps[i].0] == ps[i].1
  {
    if i < |ps| - 1 {
      FromEntriesLast(ps[..|ps| - 1], i);
    }
  }

  /** A name is a key exactly when some pair carries it. */
  lemma {:induction false} FromEntriesKeys(ps: seq<(string, string)>, k: string)
    ensures k in FromEntries(ps) <==> exists j :: 0 <= j < |ps| && ps[j].0 == k
  {
    if ps != [] {
      FromEntriesKeys(ps[..|ps| - 1], k);
      if k in FromEntries(ps[..|ps| - 1]) {
        var j :| 0 <= j < |ps| - 1 && ps[..|ps| - 1][j].0 == k;
        assert ps[j].0 == k;
      }
    }
  }

  /** `navigateTo`: the first occurrence of the root is cut and the result prefixed with `#` or the root. */
  function BuildUrl(mode: string, root: string, url: string): (r: string)
    ensures mode == "hash" ==> |r| > 0 && r[0] == '#'
    ensures mode != "hash" ==> root <= r
  {
    var rest := RemoveFirst(url, root);
    if mode == "hash" then "#" + rest else root + rest
  }

  /** In history mode a URL that already starts with the root is pushed unchanged. */
  lemma BuildUrlRooted(mode: string, root: string, url: string)
    requires mode != "hash" && root <= url
    ensures BuildUrl(mode, root, url) == url
  {
    RemoveLeading(url, root);
  }

  /** In history mode building a URL twice gives the same URL as building it once. */
  lemma BuildUrlIdempotent(mode: string, root: string, url: string)
    requires mode != "hash"
    ensures BuildUrl(mode, root, BuildUrl(mode, root, url)) == BuildUrl(mode, root, url)
  {
    BuildUrlRooted(mode, root, BuildUrl(mode, root, url));
  }

  /**
   * In hash mode `navigateTo` hands the `#`-prefixed URL itself to
   * `onPROCESS`, whose first segment starts with `#`: no pattern that starts
   * with `/` matches it.
   */
  lemma HashUrlUnmatched(pattern: string, root: string, url: string)
    requires |pattern| > 0 && pattern[0] == '/'
    ensures !Matches(pattern, BuildUrl("hash", root, url))
  {
    var h := BuildUrl("hash", root, url);
    SplitHead(pattern, '/');
    SplitHead(h, '/');
    var p0, u0 := Split(pattern, '/')[0], Split(h, '/')[0];
    assert p0 == "";
    assert |u0| == |h| || h[|u0|] == '/';
    assert !SegmentFits(p0, u0);
  }

  /** Cutting the first occurrence of the root: `/x/app/y` under root `/app` becomes `/app/x/y`. */
  lemma RootCutAnywhere()
    ensures BuildUrl("history", "/app", "/x/app/y") == "/app/x/y"
  {
    var url := "/x/app/y";
    assert url[0..4][1] != "/app"[1] && url[1..5][0] != "/app"[0];
    assert !OccursAt(url, "/app", 0) && !OccursAt(url, "/app", 1) && OccursAt(url, "/app", 2);
    assert IndexFrom(url, "/app", 0) == Some(2);
    assert RemoveFirst(url, "/app") == url[..2] + url[6..] == "/x/y";
  }
}
