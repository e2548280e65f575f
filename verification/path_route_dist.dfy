/** The newer PATH route type of the built bundle: keys are normalised on both sides, a HEAD
    request falls back to the GET handler with the body suppressed, and a known path asked with
    an unregistered method answers 405 with an `Allow` header (sections 15.5.6 and 10.2.1 of
    RFC 9110). The sorted key table is the one of the source PATH route type. */
module PathRouteDist {
  import opened Options
  import opened Strings
  import opened Paths
  import opened HttpErrors
  import opened Response
  import opened Compose
  import opened Router
  import PathRoute

  /** The sorted table together with, for every normalised path, the methods registered for it
      in first-registration order (a JavaScript `Set`). */
  datatype DistTable<H> = DistTable(table: PathRoute.Table<H>, pathMethods: map<string, seq<string>>)

  /** A rule as given to the route type: pipes and handler are composed on insertion. */
  datatype DistRule<!C> = DistRule(
    path: string,
    methods: Option<seq<string>>,
    pipes: Option<seq<Step<C>>>,
    handler: Step<C>)

  /** No value occurs twice. */
  predicate Distinct(s: seq<string>)
  {
    forall i, j :: 0 <= i < j < |s| ==> s[i] != s[j]
  }

  /** The table is sorted and parallel, every path's method set is a non-empty `Set`, and every
      method recorded for a path has its key in the table. */
  predicate Valid<H>(d: DistTable<H>)
  {
    PathRoute.Valid(d.table)
    && (forall p :: p in d.pathMethods ==> |d.pathMethods[p]| > 0 && Distinct(d.pathMethods[p]))
    && (forall p, m :: p in d.pathMethods && m in d.pathMethods[p] ==> PathRoute.Key(m, p) in d.table.keys)
  }

  function EmptyTable<H>(): (d: DistTable<H>)
    ensures Valid(d) && d.table.keys == [] && d.pathMethods == map[]
  {
    DistTable(PathRoute.Table([], []), map[])
  }

  /** `xs.map(m => m.toUpperCase())`. */
  function UpperAll(xs: seq<string>): (ys: seq<string>)
    ensures |ys| == |xs|
    ensures forall i :: 0 <= i < |xs| ==> ys[i] == Upper(xs[i])
  {
    if |xs| == 0 then [] else [Upper(xs[0])] + UpperAll(xs[1..])
  }

  /** The upper-cased methods of a rule, all seven when none are given. */
  function Methods<C>(rule: DistRule<C>): (ms: seq<string>)
    ensures |ms| > 0
  {
    UpperAll(PathRoute.RuleMethods(PathRoute.Rule(rule.path, rule.methods, rule.handler)))
  }

  /** `for (const m of ms) s.add(m)` on a JavaScript `Set` kept as a sequence in insertion
      order: the members are the old ones and the added ones, each once, the old ones first. */
  function AddAll(s: seq<string>, ms: seq<string>): (r: seq<string>)
    ensures Distinct(s) ==> Distinct(r)
    ensures forall x :: x in r <==> x in s || x in ms
    ensures |s| <= |r| && r[..|s|] == s
    decreases |ms|
  {
    if |ms| == 0 then s
    else
      var s' := if ms[0] in s then s else s + [ms[0]];
      assert s'[..|s|] == s;
      var r := AddAll(s', ms[1..]);
      assert r[..|s|] == r[..|s'|][..|s|];
      r
  }

  /** `addRule(rule)`: the path is normalised and the methods upper-cased; one key per method
      goes into the sorted table, and the methods join the path's method set. Afterwards every
      method of the rule finds the composed handler at the normalised path, other keys and
      other paths are unaffected, and the method set keeps its earlier members first. */
  method AddRule<C>(d: DistTable<Step<C>>, rule: DistRule<C>) returns (d': DistTable<Step<C>>)
    requires Valid(d)
    ensures Valid(d')
    ensures forall m :: m in Methods(rule) ==>
      PathRoute.Lookup(d'.table, PathRoute.Key(m, NormalizePath(rule.path))) == Some(Compose.Compose(rule.pipes, rule.handler))
    ensures forall k :: (forall m :: m in Methods(rule) ==> k != PathRoute.Key(m, NormalizePath(rule.path))) ==>
      PathRoute.Lookup(d'.table, k) == PathRoute.Lookup(d.table, k)
    ensures d'.pathMethods.Keys == d.pathMethods.Keys + {NormalizePath(rule.path)}
    ensures forall p :: p in d.pathMethods && p != NormalizePath(rule.path) ==> d'.pathMethods[p] == d.pathMethods[p]
    ensures forall m :: m in d'.pathMethods[NormalizePath(rule.path)] <==>
      (NormalizePath(rule.path) in d.pathMethods && m in d.pathMethods[NormalizePath(rule.path)]) || m in Methods(rule)
    ensures NormalizePath(rule.path) in d.pathMethods ==>
      var before := d.pathMethods[NormalizePath(rule.path)];
      |before| <= |d'.pathMethods[NormalizePath(rule.path)]|
      && d'.pathMethods[NormalizePath(rule.path)][..|before|] == before
  {
    var e := NormalizePath(rule.path);
    var ms := Methods(rule);
    var exec := Compose.Compose(rule.pipes, rule.handler);
    var pr := PathRoute.Rule(e, Some(ms), exec);
    assert PathRoute.RuleMethods(pr) == ms;
    var t' := PathRoute.AddRule(d.table, pr);
    var before := if e in d.pathMethods then d.pathMethods[e] else [];
    d' := DistTable(t', d.pathMethods[e := AddAll(before, ms)]);
    forall p, m | p in d'.pathMethods && m in d'.pathMethods[p]
      ensures PathRoute.Key(m, p) in t'.keys
    {
      var k := PathRoute.Key(m, p);
      if p == e && m in ms {
        assert PathRoute.Lookup(t', k).Some?;
      } else {
        assert p in d.pathMethods && m in d.pathMethods[p];
        assert k in d.table.keys;
        if exists m' :: m' in ms && k == PathRoute.Key(m', e) {
          var m' :| m' in ms && k == PathRoute.Key(m', e);
          assert PathRoute.Lookup(t', k).Some?;
        } else {
          assert PathRoute.Lookup(t', k) == PathRoute.Lookup(d.table, k);
        }
      }
    }
  }

  /** The canonical method order of the `Allow` header. */
  const Canonical: seq<string> := ["GET", "HEAD", "POST", "PUT", "PATCH", "DELETE", "OPTIONS"]

  /** A method's position in the canonical order (7 for any other method). */
  function Rank(m: string): (n: nat)
    ensures n <= 7
    ensures n < 7 <==> m in Canonical
    ensures n < 7 ==> Canonical[n] == m
  {
    if m == "GET" then 0 else if m == "HEAD" then 1 else if m == "POST" then 2
    else if m == "PUT" then 3 else if m == "PATCH" then 4 else if m == "DELETE" then 5
    else if m == "OPTIONS" then 6 else 7
  }

  /** The members of `xs` that belong to `a`, in the order of `xs`. */
  function Keep(xs: seq<string>, a: seq<string>): seq<string>
    decreases |xs|
  {
    if |xs| == 0 then []
    else (if xs[0] in a then [xs[0]] else []) + Keep(xs[1..], a)
  }

  /** `Keep` keeps exactly the members of `xs` that are in `a`. */
  lemma {:induction false} KeepMembers(xs: seq<string>, a: seq<string>)
    ensures forall x :: x in Keep(xs, a) <==> x in xs && x in a
    decreases |xs|
  {
    if |xs| > 0 {
      KeepMembers(xs[1..], a);
      assert xs == [xs[0]] + xs[1..];
    }
  }

  /** Ordered strictly by canonical position. */
  predicate CanonicalOrder(s: seq<string>)
  {
    forall i, j :: 0 <= i < j < |s| ==> Rank(s[i]) < Rank(s[j])
  }

  lemma {:induction false} KeepOrdered(xs: seq<string>, a: seq<string>)
    requires CanonicalOrder(xs)
    ensures CanonicalOrder(Keep(xs, a))
    decreases |xs|
  {
    if |xs| > 0 {
      assert CanonicalOrder(xs[1..]) by {
        forall i, j | 0 <= i < j < |xs| - 1
          ensures Rank(xs[1..][i]) < Rank(xs[1..][j])
        {
          assert xs[1..][i] == xs[i + 1] && xs[1..][j] == xs[j + 1];
        }
      }
      KeepOrdered(xs[1..], a);
      KeepMembers(xs[1..], a);
      var rest := Keep(xs[1..], a);
      forall y | y in rest
        ensures Rank(xs[0]) < Rank(y)
      {
        var j :| 0 <= j < |xs[1..]| && xs[1..][j] == y;
        assert xs[j + 1] == y;
      }
    }
  }

  /** The `Allow` set: the registered methods, and HEAD too when GET is registered. */
  function AllowSet(ms: seq<string>): (a: seq<string>)
    ensures forall x :: x in a <==> x in ms || (x == "HEAD" && "GET" in ms)
  {
    if "GET" in ms && "HEAD" !in ms then ms + ["HEAD"] else ms
  }

  /** The methods listed by `Allow`: the allowed canonical methods in canonical order, or, when
      no allowed method is canonical, all of them in registration order. */
  function AllowList(ms: seq<string>): seq<string>
  {
    var o := Keep(Canonical, AllowSet(ms));
    if |o| > 0 then o else AllowSet(ms)
  }

  /** The `Allow` header value. */
  function AllowHeader(ms: seq<string>): string
  {
    Join(AllowList(ms), ", ")
  }

  /** When some allowed method is canonical, `Allow` lists exactly the allowed canonical
      methods (registered ones, plus HEAD when GET is registered), each once, in canonical order;
      any non-canonical method is then left out. Otherwise it lists the registered methods in
      registration order. */
  lemma AllowListSpec(ms: seq<string>)
    ensures (exists m :: m in ms && m in Canonical) ==>
      CanonicalOrder(AllowList(ms))
      && forall x :: x in AllowList(ms) <==> x in Canonical && (x in ms || (x == "HEAD" && "GET" in ms))
    ensures (forall m :: m in ms ==> m !in Canonical) ==> AllowList(ms) == ms
  {
    var a := AllowSet(ms);
    var o := Keep(Canonical, a);
    KeepMembers(Canonical, a);
    if exists m :: m in ms && m in Canonical {
      CanonicalOrdered();
      KeepOrdered(Canonical, a);
      var m :| m in ms && m in Canonical;
      assert m in o;
    } else {
      assert "GET" !in ms;
      assert a == ms;
      if |o| > 0 {
        assert false;
      }
    }
  }

  /** The canonical list is in canonical order. */
  lemma CanonicalOrdered()
    ensures CanonicalOrder(Canonical)
  {
    var k := Canonical;
    assert Rank(k[0]) == 0 && Rank(k[1]) == 1 && Rank(k[2]) == 2 && Rank(k[3]) == 3;
    assert Rank(k[4]) == 4 && Rank(k[5]) == 5 && Rank(k[6]) == 6;
  }

  /** In canonical order nothing is listed twice. */
  lemma CanonicalOrderDistinct(s: seq<string>)
    requires CanonicalOrder(s)
    ensures Distinct(s)
  {
  }

  /** A resource with GET and POST handlers announces `GET, HEAD, POST`. */
  lemma AllowGetPost()
    ensures AllowHeader(["GET", "POST"]) == "GET, HEAD, POST"
  {
    var ms := ["GET", "POST"];
    var a := AllowSet(ms);
    assert "GET" in ms && "HEAD" !in ms;
    assert a == ["GET", "POST", "HEAD"];
    KeepGetHeadPost(a);
    var l := ["GET", "HEAD", "POST"];
    assert AllowList(ms) == l;
    JoinGetHeadPost();
  }

  /** The `Allow` text of `AllowGetPost`, proved apart to keep that proof small. */
  lemma JoinGetHeadPost()
    ensures Join(["GET", "HEAD", "POST"], ", ") == "GET, HEAD, POST"
  {
    var l := ["GET", "HEAD", "POST"];
    assert Join(l[2..], ", ") == "POST";
    assert Join(l[1..], ", ") == "HEAD, POST";
  }

  lemma KeepGetHeadPost(a: seq<string>)
    requires a == ["GET", "POST", "HEAD"]
    ensures Keep(Canonical, a) == ["GET", "HEAD", "POST"]
  {
    var k := Canonical;
    KeepFromHead(a);
    assert k[0..][1..] == k[1..];
    assert k[0] == a[0];
    assert k[0..] == k;
  }

  lemma KeepFromHead(a: seq<string>)
    requires a == ["GET", "POST", "HEAD"]
    ensures Keep(Canonical[1..], a) == ["HEAD", "POST"]
  {
    KeepFromPost(a);
    assert Canonical[1..][1..] == Canonical[2..];
    assert Canonical[1] == a[2];
  }

  lemma KeepFromPost(a: seq<string>)
    requires a == ["GET", "POST", "HEAD"]
    ensures Keep(Canonical[2..], a) == ["POST"]
  {
    KeepPastPost(a);
    assert Canonical[2..][1..] == Canonical[3..];
    assert Canonical[2] == a[1];
  }

  /** None of the methods after POST in canonical order is GET, POST or HEAD. */
  lemma KeepPastPost(a: seq<string>)
    requires a == ["GET", "POST", "HEAD"]
    ensures Keep(Canonical[3..], a) == []
  {
    var r := Canonical[3..];
    forall i | 0 <= i < |r|
      ensures r[i] !in a
    {
      var m := r[i];
      assert m[0] != 'G' && m[0] != 'H' && (m[0] == 'P' ==> m[1] != 'O');
    }
    KeepNone(r, a);
  }

  /** Nothing is kept from a list that shares no member with `a`. */
  lemma {:induction false} KeepNone(xs: seq<string>, a: seq<string>)
    requires forall i :: 0 <= i < |xs| ==> xs[i] !in a
    ensures Keep(xs, a) == []
    decreases |xs|
  {
    if |xs| > 0 {
      assert xs[0] !in a;
      assert forall i :: 0 <= i < |xs[1..]| ==> xs[1..][i] == xs[i + 1];
      KeepNone(xs[1..], a);
    }
  }

  /** What `match` decides for a request. */
  datatype Outcome<H> =
    | Exec(h: H)
    | HeadOfGet(get: H)
    | NotAllowed(allow: string)
    | NoRoute

  /** The method `match` works with: upper-cased, GET when missing. */
  function RequestMethod(verb: string): string
  {
    Upper(if verb == "" then "GET" else verb)
  }

  /** The decision of `match` over the lookup table: the exact key wins; a HEAD request then
      falls back to the GET key; a path with registered methods gives 405 with its `Allow`
      list; anything else is no match. */
  function Resolve<H>(d: DistTable<H>, verb: string, pathname: string): (o: Outcome<H>)
    requires |d.table.keys| == |d.table.execs|
    ensures o.Exec? <==> PathRoute.Key(RequestMethod(verb), NormalizePath(pathname)) in d.table.keys
    ensures o.Exec? ==> Some(o.h) == PathRoute.Lookup(d.table, PathRoute.Key(RequestMethod(verb), NormalizePath(pathname)))
    ensures o.HeadOfGet? <==>
      !o.Exec? && RequestMethod(verb) == "HEAD" && PathRoute.Key("GET", NormalizePath(pathname)) in d.table.keys
    ensures o.HeadOfGet? ==> Some(o.get) == PathRoute.Lookup(d.table, PathRoute.Key("GET", NormalizePath(pathname)))
    ensures o.NotAllowed? <==> (!o.Exec? && !o.HeadOfGet?
      && NormalizePath(pathname) in d.pathMethods && |d.pathMethods[NormalizePath(pathname)]| > 0)
    ensures o.NotAllowed? ==> o.allow == AllowHeader(d.pathMethods[NormalizePath(pathname)])
  {
    var e := RequestMethod(verb);
    var n := NormalizePath(pathname);
    var exact := PathRoute.Lookup(d.table, PathRoute.Key(e, n));
    if exact.Some? then Exec(exact.value)
    else if e == "HEAD" && PathRoute.Lookup(d.table, PathRoute.Key("GET", n)).Some? then
      HeadOfGet(PathRoute.Lookup(d.table, PathRoute.Key("GET", n)).value)
    else if n in d.pathMethods && |d.pathMethods[n]| > 0 then NotAllowed(AllowHeader(d.pathMethods[n]))
    else NoRoute
  }

  /** `match(ctx)` with binary searches over the sorted keys: it decides exactly as `Resolve`. */
  method Match<H>(d: DistTable<H>, verb: string, pathname: string) returns (o: Outcome<H>)
    requires PathRoute.Valid(d.table)
    ensures o == Resolve(d, verb, pathname)
  {
    StripTrailingSlashIsNormalizePath(pathname);
    var exact := PathRoute.Match(d.table, verb, pathname);
    var n := NormalizePath(pathname);
    if exact.Some? {
      return Exec(exact.value);
    }
    if RequestMethod(verb) == "HEAD" {
      StripTrailingSlashIsNormalizePath(pathname);
      assert Upper("GET") == "GET";
      var get := PathRoute.Match(d.table, "GET", pathname);
      if get.Some? {
        return HeadOfGet(get.value);
      }
    }
    if n in d.pathMethods && |d.pathMethods[n]| > 0 {
      return NotAllowed(AllowHeader(d.pathMethods[n]));
    }
    return NoRoute;
  }

  /** A method registered for a path is served at that path, whatever trailing `/` and letter
      case the request uses. */
  lemma RegisteredIsServed<H>(d: DistTable<H>, verb: string, pathname: string)
    requires Valid(d)
    requires NormalizePath(pathname) in d.pathMethods
    requires RequestMethod(verb) in d.pathMethods[NormalizePath(pathname)]
    ensures Resolve(d, verb, pathname).Exec?
  {
  }

  /** A known path never gives "no match": it is served, falls back to GET, or answers 405. */
  lemma KnownPathAnswers<H>(d: DistTable<H>, verb: string, pathname: string)
    requires Valid(d)
    requires NormalizePath(pathname) in d.pathMethods
    ensures !Resolve(d, verb, pathname).NoRoute?
  {
  }

  /** The 405 handler: throws an exposed `HttpException` whose `Allow` header lists the
      allowed methods. */
  function MethodNotAllowed<C>(allow: string): Step<C>
  {
    c => Run(c, [], Some(Http(HttpException(405, "Method Not Allowed", true, [("Allow", allow)]))))
  }

  /** The HEAD wrapper as the bundle writes it: `res.end` is replaced by a no-op while the GET
      handler runs and put back only when the handler returns normally, which then finishes the
      response without a body. */
  function HeadWrapAsWritten<C>(get: Step<C>): Step<C>
  {
    c => var g := get(c);
         if g.thrown.None? then Run(g.ctx, [PatchEnd] + g.ops + [RestoreEnd, End(None)], None)
         else Run(g.ctx, [PatchEnd] + g.ops, g.thrown)
  }

  /** The HEAD wrapper with `res.end` put back in all cases (a `finally`), so that the router's
      error response can still finish the response when the GET handler throws. */
  function HeadWrap<C>(get: Step<C>): Step<C>
  {
    c => var g := get(c);
         Run(g.ctx, [PatchEnd] + g.ops + [RestoreEnd] + (if g.thrown.None? then [End(None)] else []), g.thrown)
  }

  /** The handler `match` returns for a decision, with the bundle's HEAD wrapper. */
  function Handler<C>(o: Outcome<Step<C>>): (h: Option<Step<C>>)
    ensures h.None? <==> o.NoRoute?
    ensures o.Exec? ==> h == Some(o.h)
  {
    match o
    case Exec(h) => Some(h)
    case HeadOfGet(get) => Some(HeadWrapAsWritten(get))
    case NotAllowed(allow) => Some(MethodNotAllowed(allow))
    case NoRoute => None
  }

  /** The handler `match` would return with `res.end` put back in all cases. */
  function HandlerCorrected<C>(o: Outcome<Step<C>>): (h: Option<Step<C>>)
    ensures h.None? <==> o.NoRoute?
    ensures o.Exec? ==> h == Some(o.h)
  {
    match o
    case Exec(h) => Some(h)
    case HeadOfGet(get) => Some(HeadWrap(get))
    case NotAllowed(allow) => Some(MethodNotAllowed(allow))
    case NoRoute => None
  }

  /** The two dispatches differ only where a HEAD request falls back to a GET handler that
      throws. */
  lemma HandlersAgreeWithoutError<C>(o: Outcome<Step<C>>, c: C)
    requires o.HeadOfGet? ==> o.get(c).thrown.None?
    ensures Handler(o).Some? <==> HandlerCorrected(o).Some?
    ensures Handler(o).Some? ==> Handler(o).value(c) == HandlerCorrected(o).value(c)
  {
    if o.HeadOfGet? {
      WrappersAgreeWithoutError(o.get, c);
    }
  }

  /** A 405 handler makes the router answer with status 405, the `Allow` header, and the
      exposed message `Method Not Allowed`. */
  lemma NotAllowedResponse<C>(allow: string, c: C, r: Res)
    requires Open(r)
    ensures var run := MethodNotAllowed<C>(allow)(c);
      run.thrown.Some? && run.ops == [] &&
      var out := Replay(r, ErrorOps(run.thrown.value));
      out.status == 405 && out.ended
      && "allow" in out.headers && out.headers["allow"] == allow
      && out.body == r.body + [ErrorJson("Method Not Allowed")]
  {
    var e := Http(HttpException(405, "Method Not Allowed", true, [("Allow", allow)]));
    ErrorResponse(r, e);
    assert Lower("Allow") == "allow";
    assert LastHeader(ErrorHeaders(e), "allow") == Some(allow);
  }

  /** When the GET handler returns normally, both wrappers do the same. */
  lemma WrappersAgreeWithoutError<C>(get: Step<C>, c: C)
    requires get(c).thrown.None?
    ensures HeadWrapAsWritten(get)(c) == HeadWrap(get)(c)
  {
    var g := get(c);
    assert [PatchEnd] + g.ops + [RestoreEnd] + [End(None)] == [PatchEnd] + g.ops + [RestoreEnd, End(None)];
  }

  /** A HEAD request served by a GET handler that returns normally gets the status and headers
      the GET request would get and is finished; the body holds only what the handler passed
      to `res.write`, because everything it passed to `res.end` is discarded. */
  lemma HeadServesGet<C>(get: Step<C>, c: C, r: Res)
    requires Open(r)
    requires get(c).thrown.None? && NoEndControl(get(c).ops)
    ensures var run := HeadWrap(get)(c);
      var out := Replay(r, run.ops);
      var plain := Replay(r, get(c).ops);
      run.thrown.None? && run.ctx == get(c).ctx
      && out.status == plain.status && out.headers == plain.headers
      && out.ended && !out.endPatched
      && out.body == r.body + Writes(get(c).ops)
  {
    var g := get(c);
    var patched := r.(endPatched := true);
    ReplayAppend(r, [PatchEnd], g.ops + [RestoreEnd, End(None)]);
    assert [PatchEnd] + g.ops + [RestoreEnd] + [End(None)] == [PatchEnd] + (g.ops + [RestoreEnd, End(None)]);
    assert Replay(r, [PatchEnd]) == patched;
    ReplayAppend(patched, g.ops, [RestoreEnd, End(None)]);
    PatchedReplay(patched, g.ops);
    ReplayIgnoresEnd(patched, r, g.ops);
    var mid := Replay(patched, g.ops);
    assert Replay(mid, [RestoreEnd, End(None)]) == Replay(Apply(mid, RestoreEnd), [End(None)]);
  }

  /** The bundle's wrapper, when the GET handler throws: the router's error response calls the
      replaced `res.end`, so the response is never finished. */
  lemma HeadAsWrittenNeverEnds<C>(get: Step<C>, c: C, r: Res)
    requires Open(r)
    requires get(c).thrown.Some? && NoEndControl(get(c).ops)
    ensures var run := HeadWrapAsWritten(get)(c);
      run.thrown == get(c).thrown
      && !Replay(r, run.ops + ErrorOps(run.thrown.value)).ended
  {
    var g := get(c);
    var e := g.thrown.value;
    var tail := g.ops + ErrorOps(e);
    assert [PatchEnd] + g.ops + ErrorOps(e) == [PatchEnd] + tail;
    ReplayAppend(r, [PatchEnd], tail);
    assert Replay(r, [PatchEnd]) == r.(endPatched := true);
    assert NoEndControl(ErrorOps(e)) by {
      var hs := HeaderOps(ErrorHeaders(e));
      assert ErrorOps(e) == [SetStatus(ErrorStatus(e))] + hs
        + [SetHeader("Content-Type", JsonType), End(Some(ErrorJson(ErrorText(e))))];
    }
    assert NoEndControl(tail);
    PatchedReplay(r.(endPatched := true), tail);
  }

  /** A concrete instance: a GET handler that throws a plain error before writing anything,
      asked with HEAD on a fresh response, leaves the response unfinished. */
  lemma HeadAsWrittenHangs<C>(c: C)
    ensures var get: Step<C> := x => Run(x, [], Some(Plain("boom")));
      var run := HeadWrapAsWritten(get)(c);
      run.thrown.Some? && !Replay(Fresh, run.ops + ErrorOps(run.thrown.value)).ended
  {
    var get: Step<C> := x => Run(x, [], Some(Plain("boom")));
    HeadAsWrittenNeverEnds(get, c, Fresh);
  }

  /** With `res.end` put back in all cases, a throwing GET handler behind a HEAD request still
      gets the router's complete error response. */
  lemma HeadWrapErrorEnds<C>(get: Step<C>, c: C, r: Res)
    requires Open(r)
    requires get(c).thrown.Some? && NoEndControl(get(c).ops)
    ensures var run := HeadWrap(get)(c);
      var e := get(c).thrown.value;
      var out := Replay(r, run.ops + ErrorOps(e));
      run.thrown == get(c).thrown
      && out.ended && out.status == ErrorStatus(e)
      && out.body == r.body + Writes(get(c).ops) + [ErrorJson(ErrorText(e))]
  {
    var g := get(c);
    var e := g.thrown.value;
    var patched := r.(endPatched := true);
    var run := HeadWrap(get)(c);
    assert run.ops == [PatchEnd] + g.ops + [RestoreEnd];
    ReplayAppend(r, [PatchEnd] + g.ops, [RestoreEnd]);
    ReplayAppend(r, [PatchEnd], g.ops);
    assert Replay(r, [PatchEnd]) == patched;
    PatchedReplay(patched, g.ops);
    var mid := Replay(patched, g.ops);
    var restored := Apply(mid, RestoreEnd);
    assert Replay(mid, [RestoreEnd]) == restored;
    ReplayAppend(r, run.ops, ErrorOps(e));
    ErrorResponse(restored, e);
  }
}
