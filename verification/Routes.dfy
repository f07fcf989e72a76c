/** The route table: desugaring of route keys, first-wins matching, the overlap
    check and validation. */
module Routes {
  import opened Wrappers
  import opened Paths
  import Text

  datatype PathKind = Exact | Prefix | PrefixStrip

  datatype CanonicalRoute = CanonicalRoute(
    verb: string, path: string, kind: PathKind, action: string, headers: map<string, string>, priority: nat)

  datatype RequestView = RequestView(verb: string, host: string, path: string)

  // ---------------------------------------------------------------- matching

  predicate RouteMatches(route: CanonicalRoute, req: RequestView) {
    if route.verb != req.verb then false
    else
      var p, base := NormalizePath(req.path), NormalizePath(route.path);
      match route.kind
      case Exact => p == base
      case Prefix => p == base || RStrip(base) + "/" <= p
      case PrefixStrip => p == base || RStrip(base) + "/" <= p
  }

  /** What the string tests mean: equal segments, or a whole-segment prefix. */
  predicate Accepts(route: CanonicalRoute, segs: Segs) {
    if route.kind.Exact? then segs == Segments(route.path) else Segments(route.path) <= segs
  }

  lemma MatchIsBySegments(route: CanonicalRoute, req: RequestView)
    ensures RouteMatches(route, req) <==> route.verb == req.verb && Accepts(route, Segments(req.path))
  {
    NormalizeIsCanonical(req.path, route.path);
    UnderBaseIff(Segments(route.path), Segments(req.path));
  }

  /** Insertion before the first entry that does not come strictly earlier; this keeps the sort stable. */
  function Insert(r: CanonicalRoute, sorted: seq<CanonicalRoute>): (out: seq<CanonicalRoute>)
    ensures multiset(out) == multiset{r} + multiset(sorted)
  {
    if sorted == [] || r.priority <= sorted[0].priority then [r] + sorted
    else
      assert sorted == [sorted[0]] + sorted[1..];
      [sorted[0]] + Insert(r, sorted[1..])
  }

  /** `sorted(routes, key=priority)`. */
  function SortByPriority(routes: seq<CanonicalRoute>): (out: seq<CanonicalRoute>)
    ensures multiset(out) == multiset(routes)
  {
    if routes == [] then []
    else
      assert routes == [routes[0]] + routes[1..];
      Insert(routes[0], SortByPriority(routes[1..]))
  }

  function FirstMatch(routes: seq<CanonicalRoute>, req: RequestView): Option<CanonicalRoute> {
    if routes == [] then None
    else if RouteMatches(routes[0], req) then Some(routes[0])
    else FirstMatch(routes[1..], req)
  }

  function MatchRoute(routes: seq<CanonicalRoute>, req: RequestView): Option<CanonicalRoute> {
    FirstMatch(SortByPriority(routes), req)
  }

  // ---------------------------------------------------------------- desugaring

  datatype Extra = Header(name: string, value: string) | BadExtra(text: string)

  /** The key pattern admits capital letters only as the method. */
  predicate IsVerb(s: string) {
    s != "" && forall i :: 0 <= i < |s| ==> 'A' <= s[i] <= 'Z'
  }

  /** A route key taken apart at its spaces. */
  datatype RouteKey = RouteKey(verb: string, path: string, extras: seq<Extra>, action: string)

  datatype ConfigError = InvalidKey(verb: string) | InvalidExtra(text: string) | BadPath(path: string)

  function ParsePathKind(path: string): (string, PathKind) {
    if |path| >= 3 && path[|path| - 3..] == "/**" then (path[..|path| - 3], PrefixStrip)
    else if |path| >= 2 && path[|path| - 2..] == "/*" then (path[..|path| - 2], Prefix)
    else (path, Exact)
  }

  predicate Contains(s: string, sub: string) {
    sub <= s || (s != "" && Contains(s[1..], sub))
  }

  const SCHEME := "://"

  /** `s.replace("://", "")`. */
  function DropSchemes(s: string): string {
    if SCHEME <= s then DropSchemes(s[3..])
    else if s == "" then ""
    else [s[0]] + DropSchemes(s[1..])
  }

  /** The headers of the extras, later ones winning, or the first bad extra. */
  function HeadersOf(extras: seq<Extra>): Result<map<string, string>, ConfigError> {
    if extras == [] then Ok(map[])
    else
      var last := extras[|extras| - 1];
      match HeadersOf(extras[..|extras| - 1])
      case Err(e) => Err(e)
      case Ok(h) =>
        match last
        case BadExtra(text) => Err(InvalidExtra(text))
        case Header(name, value) => Ok(h[Text.Lower(name) := value])
  }

  function ParsedRoute(key: RouteKey, priority: nat): Result<CanonicalRoute, ConfigError> {
    if !IsVerb(key.verb) then Err(InvalidKey(key.verb))
    else
      match HeadersOf(key.extras)
      case Err(e) => Err(e)
      case Ok(headers) =>
        if Contains(key.path, "..") || Contains(DropSchemes(key.path), "//") then Err(BadPath(key.path))
        else
          var (path, kind) := ParsePathKind(key.path);
          Ok(CanonicalRoute(key.verb, path, kind, key.action, headers, priority))
  }

  // ---------------------------------------------------------------- what route a key becomes

  predicate PartAt(s: string, part: string, i: nat) {
    i + |part| <= |s| && s[i..i + |part|] == part
  }

  ghost predicate HasPart(s: string, part: string) {
    exists i: nat :: PartAt(s, part, i)
  }

  lemma PartAtFront(s: string, part: string)
    ensures PartAt(s, part, 0) <==> part <= s
  {}

  lemma PartAtNext(s: string, part: string, i: nat)
    requires s != ""
    ensures PartAt(s, part, i + 1) <==> PartAt(s[1..], part, i)
  {
    if i + 1 + |part| <= |s| { assert s[1..][i..i + |part|] == s[i + 1..i + 1 + |part|]; }
  }

  lemma {:induction false} ContainsIff(s: string, sub: string)
    ensures Contains(s, sub) <==> HasPart(s, sub)
  {
    PartAtFront(s, sub);
    if s != "" {
      ContainsIff(s[1..], sub);
      forall i: nat ensures PartAt(s, sub, i + 1) <==> PartAt(s[1..], sub, i) { PartAtNext(s, sub, i); }
      if i: nat :| PartAt(s, sub, i) { assert i > 0 ==> PartAt(s[1..], sub, i - 1); }
      if i: nat :| PartAt(s[1..], sub, i) { assert PartAt(s, sub, i + 1); }
    }
  }

  /** Text without "://" stays as it is. */
  lemma {:induction false} NoSchemeStays(s: string)
    requires forall i: nat :: !PartAt(s, SCHEME, i)
    ensures DropSchemes(s) == s
  {
    PartAtFront(s, SCHEME);
    if s != "" {
      forall i: nat ensures !PartAt(s[1..], SCHEME, i) { PartAtNext(s, SCHEME, i); }
      NoSchemeStays(s[1..]);
      assert s == [s[0]] + s[1..];
    }
  }

  /** The first "://" is dropped, and then those behind it. */
  lemma {:induction false} FirstSchemeDropped(s: string, n: nat)
    requires PartAt(s, SCHEME, n) && forall i: nat :: i < n ==> !PartAt(s, SCHEME, i)
    ensures DropSchemes(s) == s[..n] + DropSchemes(s[n + 3..])
    decreases n
  {
    PartAtFront(s, SCHEME);
    if n == 0 {
      assert s[..0] == [];
    } else {
      forall i: nat ensures PartAt(s, SCHEME, i + 1) <==> PartAt(s[1..], SCHEME, i) { PartAtNext(s, SCHEME, i); }
      assert PartAt(s[1..], SCHEME, n - 1);
      FirstSchemeDropped(s[1..], n - 1);
      DropOne(s);
      TailSlices(s, n, DropSchemes(s[n + 3..]));
    }
  }

  lemma DropOne(s: string)
    requires s != "" && !(SCHEME <= s)
    ensures DropSchemes(s) == [s[0]] + DropSchemes(s[1..])
  {}

  lemma TailSlices(s: string, n: nat, more: string)
    requires 0 < n && n + 3 <= |s|
    ensures s[1..][n - 1 + 3..] == s[n + 3..] && [s[0]] + (s[1..][..n - 1] + more) == s[..n] + more
  {}

  /** A path is acceptable: no "..", and no "//" once every "://" is dropped. */
  ghost predicate GoodPath(path: string) {
    !HasPart(path, "..") && !HasPart(DropSchemes(path), "//")
  }

  /** A key gives a route exactly if its method is a word of capitals, no extra is bad and its path is good. */
  lemma KeyIsGoodIff(key: RouteKey, priority: nat)
    ensures ParsedRoute(key, priority).Ok? <==>
            && key.verb != "" && (forall i :: 0 <= i < |key.verb| ==> 'A' <= key.verb[i] <= 'Z')
            && (forall i :: 0 <= i < |key.extras| ==> key.extras[i].Header?) && GoodPath(key.path)
  {
    HeadersFailIff(key.extras);
    ContainsIff(key.path, "..");
    ContainsIff(DropSchemes(key.path), "//");
  }

  /** Which error a bad key gives: its method is looked at first, then its extras, then its path. */
  lemma BadKeyError(key: RouteKey, priority: nat)
    requires ParsedRoute(key, priority).Err?
    ensures match ParsedRoute(key, priority).error
            case InvalidKey(verb) =>
              verb == key.verb && (verb == "" || exists i :: 0 <= i < |verb| && !('A' <= verb[i] <= 'Z'))
            case InvalidExtra(text) => exists i: nat :: FirstBadExtra(key.extras, i) && key.extras[i].text == text
            case BadPath(path) => path == key.path && (forall i :: 0 <= i < |key.extras| ==> key.extras[i].Header?)
  {
    HeadersFailIff(key.extras);
  }

  /** The route of a key: its method, action and position, and its path but for the suffix that gives the kind. */
  lemma RouteOfKey(key: RouteKey, priority: nat)
    requires ParsedRoute(key, priority).Ok?
    ensures var r := ParsedRoute(key, priority).value;
            && r.verb == key.verb && r.action == key.action && r.priority == priority
            && key.path == r.path + (match r.kind case Exact => "" case Prefix => "/*" case PrefixStrip => "/**")
            && (r.kind == Exact ==> forall base: string :: key.path != base + "/*" && key.path != base + "/**")
  {
    PathKindInverse(key.path);
  }

  /** End to end: the route of a key whose path is a base with a slash and one or two stars matches a request
      exactly if the methods agree and the segments of the base are the first of the request's. */
  lemma StarKeyMatches(key: RouteKey, priority: nat, base: string, req: RequestView)
    requires ParsedRoute(key, priority).Ok? && (key.path == base + "/*" || key.path == base + "/**")
    ensures RouteMatches(ParsedRoute(key, priority).value, req) <==>
            req.verb == key.verb && Segments(base) <= Segments(req.path)
  {
    var r := ParsedRoute(key, priority).value;
    RouteOfKey(key, priority);
    StarBase(r.path, base, key.path, r.kind);
    MatchIsBySegments(r, req);
  }

  lemma StarBase(path: string, base: string, whole: string, kind: PathKind)
    requires kind != Exact && whole == path + if kind == Prefix then "/*" else "/**"
    requires whole == base + "/*" || whole == base + "/**"
    ensures path == base
  {
    var n := |whole|;
    assert whole[n - 1] == '*';
    assert kind == Prefix ==> whole[n - 2] == '/';
    assert kind == PrefixStrip ==> whole[n - 2] == '*';
    if whole == base + "/*" {
      assert whole[n - 2] == '/' && base == whole[..n - 2] == path;
    } else {
      assert whole[n - 2] == '*' && base == whole[..n - 3] == path;
    }
  }

  /** The route of a key without such a suffix matches exactly the requests with the same segments. */
  lemma PlainKeyMatches(key: RouteKey, priority: nat, req: RequestView)
    requires ParsedRoute(key, priority).Ok?
    requires forall base: string :: key.path != base + "/*" && key.path != base + "/**"
    ensures RouteMatches(ParsedRoute(key, priority).value, req) <==>
            req.verb == key.verb && Segments(req.path) == Segments(key.path)
  {
    var r := ParsedRoute(key, priority).value;
    RouteOfKey(key, priority);
    assert r.kind == Exact && r.path + "" == r.path;
    MatchIsBySegments(r, req);
  }

  /** Extra `i` is the last that gives the lower-cased header `name`. */
  predicate LastFor(extras: seq<Extra>, i: nat, name: string) {
    && i < |extras| && extras[i].Header? && Text.Lower(extras[i].name) == name
    && forall j :: i < j < |extras| && extras[j].Header? ==> Text.Lower(extras[j].name) != name
  }

  lemma LastForOneMore(extras: seq<Extra>, i: nat, name: string)
    requires extras != [] && extras[|extras| - 1].Header?
    ensures var n := |extras| - 1;
            LastFor(extras, i, name) <==>
            if Text.Lower(extras[n].name) == name then i == n else LastFor(extras[..n], i, name)
  {
    var n := |extras| - 1;
    assert forall j :: 0 <= j < n ==> extras[..n][j] == extras[j];
  }

  /** The headers are the lower-cased names of the extras, each with the value given last. */
  lemma {:induction false} HeadersAreLastGiven(extras: seq<Extra>, name: string)
    requires HeadersOf(extras).Ok?
    ensures name in HeadersOf(extras).value <==> exists i: nat :: LastFor(extras, i, name)
    ensures forall i: nat :: LastFor(extras, i, name) ==> HeadersOf(extras).value[name] == extras[i].value
  {
    if extras != [] {
      var n := |extras| - 1;
      HeadersAreLastGiven(extras[..n], name);
      forall i: nat
        ensures LastFor(extras, i, name) <==>
                if Text.Lower(extras[n].name) == name then i == n else LastFor(extras[..n], i, name)
      {
        LastForOneMore(extras, i, name);
      }
      if Text.Lower(extras[n].name) == name {
        assert LastFor(extras, n, name);
      } else if i: nat :| LastFor(extras[..n], i, name) {
        assert LastFor(extras, i, name);
      }
    }
  }

  predicate FirstBadExtra(extras: seq<Extra>, i: nat) {
    i < |extras| && extras[i].BadExtra? && forall j :: 0 <= j < i ==> extras[j].Header?
  }

  /** A key is refused for its extras exactly if one of them is bad, and then for the first. */
  lemma {:induction false} HeadersFailIff(extras: seq<Extra>)
    ensures HeadersOf(extras).Ok? <==> forall i :: 0 <= i < |extras| ==> extras[i].Header?
    ensures HeadersOf(extras).Err? ==>
              exists i: nat :: FirstBadExtra(extras, i) && HeadersOf(extras) == Err(InvalidExtra(extras[i].text))
  {
    if extras != [] {
      var init := extras[..|extras| - 1];
      HeadersFailIff(init);
      assert forall j :: 0 <= j < |init| ==> init[j] == extras[j];
      if HeadersOf(init).Err? {
        var i: nat :| FirstBadExtra(init, i) && HeadersOf(init) == Err(InvalidExtra(init[i].text));
        assert FirstBadExtra(extras, i);
      } else if HeadersOf(extras).Err? {
        assert FirstBadExtra(extras, |init|);
      }
    }
  }

  method ParseRouteKey(key: RouteKey, priority: nat) returns (r: Result<CanonicalRoute, ConfigError>)
    ensures r == ParsedRoute(key, priority)
  {
    if !IsVerb(key.verb) { return Err(InvalidKey(key.verb)); }
    var headers: map<string, string> := map[];
    var i := 0;
    while i < |key.extras|
      invariant 0 <= i <= |key.extras|
      invariant HeadersOf(key.extras[..i]) == Ok(headers)
    {
      assert key.extras[..i + 1][..i] == key.extras[..i];
      match key.extras[i] {
        case BadExtra(text) =>
          HeaderErrorsStick(key.extras, i + 1);
          return Err(InvalidExtra(text));
        case Header(name, value) =>
          headers := headers[Text.Lower(name) := value];
      }
      i := i + 1;
    }
    assert key.extras[..i] == key.extras;
    if Contains(key.path, "..") || Contains(DropSchemes(key.path), "//") { return Err(BadPath(key.path)); }
    var (path, kind) := ParsePathKind(key.path);
    return Ok(CanonicalRoute(key.verb, path, kind, key.action, headers, priority));
  }

  lemma {:induction false} HeaderErrorsStick(extras: seq<Extra>, i: nat)
    requires i <= |extras| && HeadersOf(extras[..i]).Err?
    ensures HeadersOf(extras) == HeadersOf(extras[..i])
    decreases |extras|
  {
    if i < |extras| {
      assert extras[..|extras| - 1][..i] == extras[..i];
      HeaderErrorsStick(extras[..|extras| - 1], i);
    } else {
      assert extras[..i] == extras;
    }
  }

  /** Every key became the route of its position. */
  predicate IsDesugared(keys: seq<RouteKey>, routes: seq<CanonicalRoute>) {
    |routes| == |keys| && forall i :: 0 <= i < |keys| ==> ParsedRoute(keys[i], i) == Ok(routes[i])
  }

  predicate IsFirstBad(keys: seq<RouteKey>, i: nat, e: ConfigError)
    requires i < |keys|
  {
    ParsedRoute(keys[i], i) == Err(e) && forall j :: 0 <= j < i ==> ParsedRoute(keys[j], j).Ok?
  }

  /** The table in file order, or the error of the first bad key. */
  method DesugarConfig(keys: seq<RouteKey>) returns (r: Result<seq<CanonicalRoute>, ConfigError>)
    ensures r.Ok? ==> IsDesugared(keys, r.value)
    ensures r.Err? ==> exists i :: 0 <= i < |keys| && IsFirstBad(keys, i, r.error)
  {
    var out: seq<CanonicalRoute> := [];
    var i := 0;
    while i < |keys|
      invariant 0 <= i <= |keys| && |out| == i
      invariant forall j :: 0 <= j < i ==> ParsedRoute(keys[j], j) == Ok(out[j])
    {
      var route := ParseRouteKey(keys[i], i);
      if route.Err? {
        assert IsFirstBad(keys, i, route.error);
        return Err(route.error);
      }
      out := out + [route.value];
      i := i + 1;
    }
    return Ok(out);
  }

  // ---------------------------------------------------------------- file order

  /** Priorities are positions, as desugaring leaves them. */
  predicate InFileOrder(routes: seq<CanonicalRoute>) {
    forall i, j :: 0 <= i < j < |routes| ==> routes[i].priority < routes[j].priority
  }

  predicate Sorted(routes: seq<CanonicalRoute>) {
    forall i, j :: 0 <= i < j < |routes| ==> routes[i].priority <= routes[j].priority
  }

  lemma {:induction false} InsertElements(r: CanonicalRoute, sorted: seq<CanonicalRoute>, x: CanonicalRoute)
    requires x in Insert(r, sorted)
    ensures x == r || x in sorted
  {
    if sorted != [] && r.priority > sorted[0].priority && x in Insert(r, sorted[1..]) {
      InsertElements(r, sorted[1..], x);
    }
  }

  lemma {:induction false} InsertSorted(r: CanonicalRoute, sorted: seq<CanonicalRoute>)
    requires Sorted(sorted)
    ensures Sorted(Insert(r, sorted))
  {
    if sorted != [] && r.priority > sorted[0].priority {
      var more := Insert(r, sorted[1..]);
      InsertSorted(r, sorted[1..]);
      forall k | 0 <= k < |more| ensures sorted[0].priority <= more[k].priority {
        InsertElements(r, sorted[1..], more[k]);
      }
    }
  }

  lemma {:induction false} SortSorts(routes: seq<CanonicalRoute>)
    ensures Sorted(SortByPriority(routes))
  {
    if routes != [] {
      SortSorts(routes[1..]);
      InsertSorted(routes[0], SortByPriority(routes[1..]));
    }
  }

  /** The sort is stable: what is in order already stays, equal priorities included. */
  lemma {:induction false} SortedStays(routes: seq<CanonicalRoute>)
    requires Sorted(routes)
    ensures SortByPriority(routes) == routes
  {
    if routes != [] {
      SortedStays(routes[1..]);
      assert routes == [routes[0]] + routes[1..];
      assert |routes| > 1 ==> routes[1..][0] == routes[1];
    }
  }

  lemma SameFirst(table: seq<CanonicalRoute>, s: seq<CanonicalRoute>)
    requires InFileOrder(table) && Sorted(s) && multiset(s) == multiset(table) && table != [] && s != []
    ensures s[0] == table[0]
  {
    assert table[0] in multiset(s) && s[0] in multiset(table);
    var i :| 0 <= i < |s| && s[i] == table[0];
    var j :| 0 <= j < |table| && table[j] == s[0];
  }

  /** A sorted arrangement of a table in file order is that table. */
  lemma {:induction false} FileOrderIsUnique(table: seq<CanonicalRoute>, s: seq<CanonicalRoute>)
    requires InFileOrder(table) && Sorted(s) && multiset(s) == multiset(table)
    ensures s == table
  {
    assert |s| == |multiset(s)| == |multiset(table)| == |table|;
    if table != [] {
      SameFirst(table, s);
      assert s == [s[0]] + s[1..] && table == [table[0]] + table[1..];
      assert multiset(s[1..]) == multiset(s) - multiset{s[0]};
      FileOrderIsUnique(table[1..], s[1..]);
    }
  }

  lemma PermutationSortsBack(table: seq<CanonicalRoute>, perm: seq<CanonicalRoute>)
    requires InFileOrder(table) && multiset(perm) == multiset(table)
    ensures SortByPriority(perm) == table
  {
    SortSorts(perm);
    FileOrderIsUnique(table, SortByPriority(perm));
  }

  lemma {:induction false} FirstMatchIs(routes: seq<CanonicalRoute>, req: RequestView)
    ensures FirstMatch(routes, req).None? <==> forall i :: 0 <= i < |routes| ==> !RouteMatches(routes[i], req)
    ensures forall k :: 0 <= k < |routes| && RouteMatches(routes[k], req) &&
              (forall i :: 0 <= i < k ==> !RouteMatches(routes[i], req))
              ==> FirstMatch(routes, req) == Some(routes[k])
    ensures FirstMatch(routes, req).Some? ==>
              exists k :: 0 <= k < |routes| && FirstMatch(routes, req) == Some(routes[k]) &&
                RouteMatches(routes[k], req) && forall i :: 0 <= i < k ==> !RouteMatches(routes[i], req)
  {
    if routes != [] {
      var rest := routes[1..];
      FirstMatchIs(rest, req);
      assert forall i :: 1 <= i < |routes| ==> routes[i] == rest[i - 1];
      if !RouteMatches(routes[0], req) && FirstMatch(rest, req).Some? {
        var k :| 0 <= k < |rest| && FirstMatch(rest, req) == Some(rest[k]) &&
                 RouteMatches(rest[k], req) && forall i :: 0 <= i < k ==> !RouteMatches(rest[i], req);
        assert routes[k + 1] == rest[k];
        assert forall i :: 0 <= i < k + 1 ==> !RouteMatches(routes[i], req);
      }
    }
  }

  /** On any arrangement of a desugared table, the first key in file order that matches wins. */
  lemma MatchIsFirstInFileOrder(keys: seq<RouteKey>, table: seq<CanonicalRoute>, perm: seq<CanonicalRoute>,
                                req: RequestView, k: nat)
    requires IsDesugared(keys, table) && multiset(perm) == multiset(table) && k < |table|
    ensures MatchRoute(perm, req) == Some(table[k]) <==>
            RouteMatches(table[k], req) && forall i :: 0 <= i < k ==> !RouteMatches(table[i], req)
    ensures MatchRoute(perm, req) == None <==> forall i :: 0 <= i < |table| ==> !RouteMatches(table[i], req)
  {
    PermutationSortsBack(table, perm);
    FirstMatchIs(table, req);
  }

  /** Only the segments of the request path matter: normalising it first changes nothing. */
  lemma {:induction false} MatchIgnoresPathSpelling(routes: seq<CanonicalRoute>, req: RequestView)
    ensures MatchRoute(routes, req.(path := NormalizePath(req.path))) == MatchRoute(routes, req)
  {
    FirstMatchIgnoresSpelling(SortByPriority(routes), req);
  }

  lemma {:induction false} FirstMatchIgnoresSpelling(routes: seq<CanonicalRoute>, req: RequestView)
    ensures FirstMatch(routes, req.(path := NormalizePath(req.path))) == FirstMatch(routes, req)
  {
    if routes != [] {
      NormalizeIsCanonical(req.path, req.path);
      FirstMatchIgnoresSpelling(routes[1..], req);
    }
  }

  // ---------------------------------------------------------------- dead routes

  /** Everything `r` accepts, `q` accepts too. */
  predicate Shadows(q: CanonicalRoute, r: CanonicalRoute) {
    && q.verb == r.verb
    && if q.kind.Exact? then r.kind.Exact? && Segments(q.path) == Segments(r.path)
       else Segments(q.path) <= Segments(r.path)
  }

  ghost predicate NeverChosen(table: seq<CanonicalRoute>, k: nat)
    requires k < |table|
  {
    forall req :: MatchRoute(table, req) != Some(table[k])
  }

  /** The length of the longest segment of any base in the table. */
  function Longest(segs: Segs): (n: nat)
    ensures forall i :: 0 <= i < |segs| ==> |segs[i]| <= n
  {
    if segs == [] then 0
    else
      var n := Longest(segs[1..]);
      if |segs[0]| > n then |segs[0]| else n
  }

  function LongestBase(table: seq<CanonicalRoute>): (n: nat)
    ensures forall i, s :: 0 <= i < |table| && 0 <= s < |Segments(table[i].path)| ==> |Segments(table[i].path)[s]| <= n
  {
    if table == [] then 0
    else
      var n, m := LongestBase(table[1..]), Longest(Segments(table[0].path));
      if m > n then m else n
  }

  /** A request for a path of given segments. */
  function RequestFor(verb: string, segs: Segs): RequestView {
    RequestView(verb, "", Render(segs))
  }

  /** A request that `r` matches and no other route does, unless it shadows `r`. */
  function Witness(table: seq<CanonicalRoute>, r: CanonicalRoute): RequestView {
    if r.kind.Exact? then RequestFor(r.verb, Segments(r.path))
    else RequestFor(r.verb, Segments(r.path) + [seq(LongestBase(table) + 1, _ => 'x')])
  }

  lemma WitnessSegments(table: seq<CanonicalRoute>, r: CanonicalRoute)
    requires r in table
    ensures var segs := Segments(Witness(table, r).path);
            if r.kind.Exact? then segs == Segments(r.path)
            else segs == Segments(r.path) + [seq(LongestBase(table) + 1, _ => 'x')]
  {
    if r.kind.Exact? {
      SegmentsRender(Segments(r.path));
    } else {
      SegmentsRender(Segments(r.path) + [seq(LongestBase(table) + 1, _ => 'x')]);
    }
  }

  /** A base that is met by a path one long segment below another lies above that other. */
  lemma NotThroughLonger(q: Segs, base: Segs, longer: string)
    requires forall s :: 0 <= s < |q| ==> |q[s]| < |longer|
    ensures q <= base + [longer] <==> q <= base
    ensures q != base + [longer]
  {
    var segs := base + [longer];
    assert segs[|base|] == longer;
    if q <= segs { assert q == segs[..|q|] == base[..|q|]; }
  }

  lemma WitnessOnlyMetByShadows(table: seq<CanonicalRoute>, k: nat, i: nat)
    requires k < |table| && i < |table|
    ensures RouteMatches(table[k], Witness(table, table[k]))
    ensures RouteMatches(table[i], Witness(table, table[k])) ==> Shadows(table[i], table[k])
  {
    var r, q := table[k], table[i];
    WitnessSegments(table, r);
    MatchIsBySegments(r, Witness(table, r));
    MatchIsBySegments(q, Witness(table, r));
    if !r.kind.Exact? {
      NotThroughLonger(Segments(q.path), Segments(r.path), seq(LongestBase(table) + 1, _ => 'x'));
    }
  }

  lemma ShadowsAccepts(q: CanonicalRoute, r: CanonicalRoute, req: RequestView)
    requires Shadows(q, r) && RouteMatches(r, req)
    ensures RouteMatches(q, req)
  {
    MatchIsBySegments(q, req);
    MatchIsBySegments(r, req);
  }

  /** A route is dead exactly if an earlier one shadows it. */
  lemma DeadRouteIff(keys: seq<RouteKey>, table: seq<CanonicalRoute>, k: nat)
    requires IsDesugared(keys, table) && k < |table|
    ensures NeverChosen(table, k) <==> exists j :: 0 <= j < k && Shadows(table[j], table[k])
  {
    var w := Witness(table, table[k]);
    MatchIsFirstInFileOrder(keys, table, table, w, k);
    WitnessOnlyMetByShadows(table, k, k);
    if NeverChosen(table, k) {
      assert MatchRoute(table, w) != Some(table[k]);
      var j :| 0 <= j < k && RouteMatches(table[j], w);
      WitnessOnlyMetByShadows(table, k, j);
    }
    if j :| 0 <= j < k && Shadows(table[j], table[k]) {
      forall req ensures MatchRoute(table, req) != Some(table[k]) {
        MatchIsFirstInFileOrder(keys, table, table, req, k);
        if RouteMatches(table[k], req) { ShadowsAccepts(table[j], table[k], req); }
      }
    }
  }

  /** For a prefix route in a table of rendered bases, the shadowing test is the string test on bases. */
  lemma DeadPrefixRouteIff(keys: seq<RouteKey>, table: seq<CanonicalRoute>, k: nat)
    requires IsDesugared(keys, table) && k < |table| && !table[k].kind.Exact?
    requires forall i :: 0 <= i < |table| ==> Normalised(table[i])
    ensures NeverChosen(table, k) <==>
            exists j :: 0 <= j < k && !table[j].kind.Exact? && table[j].verb == table[k].verb &&
              var q, r := RStrip(table[j].path), RStrip(table[k].path); q == r || q + "/" <= r
  {
    DeadRouteIff(keys, table, k);
    forall j | 0 <= j < k && !table[j].kind.Exact?
      ensures Segments(table[j].path) <= Segments(table[k].path) <==>
              var q, r := RStrip(table[j].path), RStrip(table[k].path); q == r || q + "/" <= r
    {
      StrippedBases(table[j], table[k]);
    }
  }

  // ---------------------------------------------------------------- overlap

  predicate RoutesOverlap(a: CanonicalRoute, b: CanonicalRoute) {
    if a.verb != b.verb && a.verb != "*" && b.verb != "*" then false
    else if a.kind.Exact? && b.kind.Exact? then a.path == b.path
    else if !a.kind.Exact? && !b.kind.Exact? then
      var pa, pb := RStrip(a.path), RStrip(b.path);
      pa == pb || pb + "/" <= pa || pa + "/" <= pb
    else a.path == b.path
  }

  /** Some request is matched by both. */
  ghost predicate ShareRequest(a: CanonicalRoute, b: CanonicalRoute) {
    exists req :: RouteMatches(a, req) && RouteMatches(b, req)
  }

  /** The path is spelled as its own normal form, up to slashes a prefix base may end in. */
  predicate Normalised(r: CanonicalRoute) {
    if r.kind.Exact? then r.path == NormalizePath(r.path) else RStrip(r.path) == RStrip(NormalizePath(r.path))
  }

  lemma StrippedBases(a: CanonicalRoute, b: CanonicalRoute)
    requires !a.kind.Exact? && !b.kind.Exact? && Normalised(a) && Normalised(b)
    ensures RStrip(a.path) == RStrip(b.path) <==> Segments(a.path) == Segments(b.path)
    ensures RStrip(a.path) + "/" <= RStrip(b.path) <==> Segments(a.path) < Segments(b.path)
  {
    RStripRender(Segments(a.path));
    RStripRender(Segments(b.path));
    SlashedInjective(Segments(a.path), Segments(b.path));
    PrefixAtSlashIff(Segments(a.path), Segments(b.path));
  }

  /** Which pairs of routes share a request, by segments. */
  lemma ShareRequestIff(a: CanonicalRoute, b: CanonicalRoute)
    ensures ShareRequest(a, b) <==>
            a.verb == b.verb && (Accepts(a, Segments(b.path)) || Accepts(b, Segments(a.path)))
  {
    var sa, sb := Segments(a.path), Segments(b.path);
    forall s: Segs | s == sa || s == sb
      ensures Segments(RequestFor(a.verb, s).path) == s
      ensures RouteMatches(a, RequestFor(a.verb, s)) <==> Accepts(a, s)
      ensures RouteMatches(b, RequestFor(a.verb, s)) <==> a.verb == b.verb && Accepts(b, s)
    {
      SegmentsRender(s);
      MatchIsBySegments(a, RequestFor(a.verb, s));
      MatchIsBySegments(b, RequestFor(a.verb, s));
    }
    if req :| RouteMatches(a, req) && RouteMatches(b, req) {
      MatchIsBySegments(a, req);
      MatchIsBySegments(b, req);
      PrefixesOfOneList(sa, sb, Segments(req.path));
    }
  }

  lemma PrefixesOfOneList(a: Segs, b: Segs, whole: Segs)
    ensures a <= whole && b <= whole ==> a <= b || b <= a
  {}

  /** For two exact or two prefix-like routes of one method the check is exact. For an exact route and a
      prefix-like one a true answer is right, and a false one is wrong exactly if the base
      lies on the exact path but is spelled differently. */
  lemma OverlapAgreesWithMatching(a: CanonicalRoute, b: CanonicalRoute)
    requires Normalised(a) && Normalised(b) && a.verb == b.verb
    ensures a.kind.Exact? == b.kind.Exact? ==> (RoutesOverlap(a, b) <==> ShareRequest(a, b))
    ensures RoutesOverlap(a, b) ==> ShareRequest(a, b)
    ensures a.kind.Exact? && !b.kind.Exact? ==>
              (RoutesOverlap(a, b) != ShareRequest(a, b) <==> Segments(b.path) <= Segments(a.path) && a.path != b.path)
  {
    ShareRequestIff(a, b);
    if !a.kind.Exact? && !b.kind.Exact? {
      StrippedBases(a, b);
      StrippedBases(b, a);
    } else {
      NormalizeIsCanonical(a.path, b.path);
    }
  }

  lemma NotWildcard(key: RouteKey, priority: nat)
    requires ParsedRoute(key, priority).Ok?
    ensures ParsedRoute(key, priority).value.verb != "*"
  {
    assert key.verb[0] != '*';
  }

  /** On a desugared table a reported overlap is always shared: no key gives a route the method "*". */
  lemma DesugaredOverlapIsShared(keys: seq<RouteKey>, table: seq<CanonicalRoute>, i: nat, j: nat)
    requires IsDesugared(keys, table) && i < |table| && j < |table|
    requires Normalised(table[i]) && Normalised(table[j]) && RoutesOverlap(table[i], table[j])
    ensures ShareRequest(table[i], table[j])
  {
    NotWildcard(keys[i], i);
    NotWildcard(keys[j], j);
    OverlapAgreesWithMatching(table[i], table[j]);
  }

  /** An exact path strictly below a prefix base: both match its request, and nothing is reported. */
  lemma ExactBelowIsMissed(a: CanonicalRoute, b: CanonicalRoute, base: Segs, more: Segs)
    requires a.verb == b.verb && a.kind.Exact? && !b.kind.Exact? && Proper(base) && Proper(more) && more != []
    requires a.path == Render(base + more) && b.path == Render(base)
    ensures Normalised(a) && Normalised(b) && !RoutesOverlap(a, b) && ShareRequest(a, b)
  {
    SegmentsRender(base);
    SegmentsRender(base + more);
    assert base <= base + more && base != base + more;
    OverlapAgreesWithMatching(a, b);
  }

  lemma ExactUnderPrefixIsMissed(a: CanonicalRoute, b: CanonicalRoute)
    requires a.verb == b.verb && a.kind == Exact && a.path == "/api/users" && b.kind == Prefix && b.path == "/api"
    ensures Normalised(a) && Normalised(b) && !RoutesOverlap(a, b) && ShareRequest(a, b)
  {
    var base: Segs, more: Segs := ["api"], ["users"];
    assert base + more == ["api", "users"];
    Text.JoinCons("api", more, '/');
    assert Render(base) == "/api" && Render(base + more) == "/api/users";
    ExactBelowIsMissed(a, b, base, more);
  }

  /** Routes not made from keys: the check treats "*" as every method, the matcher does not. */
  lemma OverlapIsSharedIff(a: CanonicalRoute, b: CanonicalRoute)
    requires Normalised(a) && Normalised(b) && RoutesOverlap(a, b)
    ensures ShareRequest(a, b) <==> a.verb == b.verb
  {
    ShareRequestIff(a, b);
    if a.verb == b.verb { OverlapAgreesWithMatching(a, b); }
  }

  /** Only for routes built by hand. */
  lemma WildcardOverlapIsNotShared()
    ensures var a := CanonicalRoute("*", "/a", Exact, "static:x", map[], 0);
            var b := CanonicalRoute("GET", "/a", Exact, "static:y", map[], 1);
            RoutesOverlap(a, b) && !ShareRequest(a, b)
  {}

  // ---------------------------------------------------------------- validation

  predicate Clash(a: CanonicalRoute, b: CanonicalRoute) {
    RoutesOverlap(a, b) && a.priority == b.priority
  }

  /** The first clashing pair in scan order, if any. */
  method ValidateRoutes(routes: seq<CanonicalRoute>) returns (clash: Option<(nat, nat)>)
    ensures clash.None? <==> forall i, j :: 0 <= i < j < |routes| ==> !Clash(routes[i], routes[j])
    ensures clash.Some? ==>
              var (i, j) := clash.value;
              && i < j < |routes| && Clash(routes[i], routes[j])
              && forall x, y :: 0 <= x < y < |routes| && (x < i || (x == i && y < j)) ==> !Clash(routes[x], routes[y])
  {
    var i := 0;
    while i < |routes|
      invariant 0 <= i <= |routes|
      invariant forall x, y :: 0 <= x < i && x < y < |routes| ==> !Clash(routes[x], routes[y])
    {
      var j := i + 1;
      while j < |routes|
        invariant i < j <= |routes|
        invariant forall y :: i < y < j ==> !Clash(routes[i], routes[y])
      {
        if RoutesOverlap(routes[i], routes[j]) && routes[i].priority != routes[j].priority {
          j := j + 1;
          continue;
        }
        if RoutesOverlap(routes[i], routes[j]) { return Some((i, j)); }
        j := j + 1;
      }
      i := i + 1;
    }
    return None;
  }

  /** Two routes of one method clash exactly if some request is matched by both at one priority, but for an exact
      path below a prefix base, which never clashes. */
  lemma ClashIff(a: CanonicalRoute, b: CanonicalRoute)
    requires Normalised(a) && Normalised(b) && a.verb == b.verb && a.kind.Exact? == b.kind.Exact?
    ensures Clash(a, b) <==> ShareRequest(a, b) && a.priority == b.priority
  {
    OverlapAgreesWithMatching(a, b);
  }

  /** Validation can never reject a table that desugaring made. */
  lemma DesugaredTablesValidate(keys: seq<RouteKey>, table: seq<CanonicalRoute>)
    requires IsDesugared(keys, table)
    ensures forall i, j :: 0 <= i < j < |table| ==> !Clash(table[i], table[j])
  {}

  /** A key's path is the base of its route with the suffix of its kind, and no exact base ends in one. */
  lemma PathKindInverse(path: string)
    ensures var (base, kind) := ParsePathKind(path);
            && path == base + (match kind case Exact => "" case Prefix => "/*" case PrefixStrip => "/**")
            && (kind.Exact? ==> forall b: string :: path != b + "/*" && path != b + "/**")
  {}
}
