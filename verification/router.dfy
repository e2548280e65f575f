/** The router: a registry of route types consulted in registration order, global pipes run
    before any of them, a 404 when nothing matches and the mapping of thrown errors to an
    HTTP error response. */
module Router {
  import opened Options
  import opened Strings
  import opened HttpErrors
  import opened Response
  import opened Compose

  /** What a route type's `match` gives back: nothing, or the handler to run together with the
      context it prepared (a PATTERN match binds `ctx.params`, for instance), or the error it
      threw (a user validator may throw) with the context as it left it. */
  datatype Matching<!C> = NoMatch | Matched(ctx: C, exec: Step<C>) | MatchThrew(ctx: C, error: Thrown)

  /** The operations every route type offers, over its own state `S` and rule type `R`.
      `add` returns the state afterwards even when it throws, because a route type may have
      changed part of its state before throwing. */
  datatype RouteKit<!S, !R, !C> = RouteKit(
    add: (S, R) -> (S, Option<Thrown>),
    matches: (S, C) -> Matching<C>)

  /** The router: registered route types by name, the names in registration order and the
      global pipes. */
  datatype Router<S, !C> = Router(reg: map<string, S>, order: seq<string>, globalPipes: seq<Step<C>>)

  /** A rule tagged with the name of the route type it is meant for. */
  datatype TypedRule<R> = TypedRule(typeName: string, rule: R)

  /** Every name in the consultation order is registered. */
  predicate Valid<S, C>(router: Router<S, C>)
  {
    forall i :: 0 <= i < |router.order| ==> router.order[i] in router.reg
  }

  /** A new router: nothing registered, no pipes. */
  function NewRouter<S, C>(): (router: Router<S, C>)
    ensures Valid(router)
    ensures router.reg == map[] && router.order == [] && router.globalPipes == []
  {
    Router(map[], [], [])
  }

  /** `useType(type)`: registers the type under its name, replacing an earlier type of the same
      name, and appends the name to the consultation order. */
  function UseType<S, C>(router: Router<S, C>, typeName: string, state: S): (r: Router<S, C>)
    ensures Valid(router) ==> Valid(r)
    ensures r.reg == router.reg[typeName := state]
    ensures r.order == router.order + [typeName]
    ensures r.globalPipes == router.globalPipes
  {
    Router(router.reg[typeName := state], router.order + [typeName], router.globalPipes)
  }

  /** `useGlobalPipes(...pipes)`: appends the pipes after those already registered. */
  function UseGlobalPipes<S, C>(router: Router<S, C>, pipes: seq<Step<C>>): (r: Router<S, C>)
    ensures |r.globalPipes| == |router.globalPipes| + |pipes|
    ensures r.globalPipes[..|router.globalPipes|] == router.globalPipes
    ensures r.globalPipes[|router.globalPipes|..] == pipes
    ensures r.reg == router.reg && r.order == router.order
  {
    router.(globalPipes := router.globalPipes + pipes)
  }

  /** The message of the error thrown for a rule whose type was never registered. */
  function NotRegistered(typeName: string): string
  {
    "Route type \"" + typeName + "\" is not registered"
  }

  /** `addRule(rule)`: hands the rule, without its type tag, to the route type registered under
      the tag. An unknown tag throws and changes nothing; an error thrown by the route type
      propagates with whatever that type had already changed. */
  function AddRule<S, R, C>(router: Router<S, C>, kit: RouteKit<S, R, C>, rule: TypedRule<R>)
    : (out: (Router<S, C>, Option<Thrown>))
    ensures rule.typeName !in router.reg ==>
      out == (router, Some(Plain(NotRegistered(rule.typeName))))
    ensures rule.typeName in router.reg ==>
      out.0 == router.(reg := router.reg[rule.typeName := kit.add(router.reg[rule.typeName], rule.rule).0])
      && out.1 == kit.add(router.reg[rule.typeName], rule.rule).1
    ensures out.0.order == router.order && out.0.globalPipes == router.globalPipes
    ensures out.0.reg.Keys == router.reg.Keys
    ensures Valid(router) ==> Valid(out.0)
  {
    if rule.typeName !in router.reg then (router, Some(Plain(NotRegistered(rule.typeName))))
    else
      var added := kit.add(router.reg[rule.typeName], rule.rule);
      (router.(reg := router.reg[rule.typeName := added.0]), added.1)
  }

  /** `addRules(rules)`: adds the rules in order and stops at the first one that throws. */
  function AddRules<S, R, C>(router: Router<S, C>, kit: RouteKit<S, R, C>, rules: seq<TypedRule<R>>)
    : (out: (Router<S, C>, Option<Thrown>))
    ensures out.0.order == router.order && out.0.globalPipes == router.globalPipes
    ensures Valid(router) ==> Valid(out.0)
    decreases |rules|
  {
    if |rules| == 0 then (router, None)
    else
      var first := AddRule(router, kit, rules[0]);
      if first.1.Some? then first else AddRules(first.0, kit, rules[1..])
  }

  /** Adding `rules` succeeds exactly when every rule is added in turn without an error, and
      then it is the same as adding them one at a time; the first rule that throws ends the
      batch with that rule's error, the rules before it kept and the rules after it not
      consulted. */
  lemma {:induction false} AddRulesFirstError<S, R, C>(
    router: Router<S, C>, kit: RouteKit<S, R, C>, rules: seq<TypedRule<R>>, k: nat)
    requires k < |rules|
    requires AddRules(router, kit, rules[..k]).1.None?
    ensures AddRules(router, kit, rules) ==
      (var before := AddRules(router, kit, rules[..k]).0;
       var kth := AddRule(before, kit, rules[k]);
       if kth.1.Some? then kth else AddRules(kth.0, kit, rules[k + 1..]))
    decreases k
  {
    if k == 0 {
      assert rules[..0] == [];
    } else {
      var first := AddRule(router, kit, rules[0]);
      assert first.1.None? by {
        assert rules[..k][0] == rules[0];
      }
      assert rules[..k][1..] == rules[1..][..k - 1];
      assert rules[1..][k - 1] == rules[k];
      assert rules[1..][k..] == rules[k + 1..];
      AddRulesFirstError(first.0, kit, rules[1..], k - 1);
    }
  }

  /** How a request context is created: a `factory` function, a `class` constructor, or
      neither (the default `RequestContext`). Both may be present at run time. */
  datatype CtxFactory<!Q, C> = CtxFactory(factory: Option<Q -> C>, ctor: Option<Q -> C>)

  /** `makeCtx(req, res)`: a factory takes precedence over a class, and with neither the
      default context is built. */
  function MakeCtx<Q, C>(cf: Option<CtxFactory<Q, C>>, default: Q -> C, req: Q): (c: C)
    ensures cf.Some? && cf.value.factory.Some? ==> c == cf.value.factory.value(req)
    ensures cf.Some? && cf.value.factory.None? && cf.value.ctor.Some? ==> c == cf.value.ctor.value(req)
    ensures cf.None? || (cf.value.factory.None? && cf.value.ctor.None?) ==> c == default(req)
  {
    if cf.Some? && cf.value.factory.Some? then cf.value.factory.value(req)
    else if cf.Some? && cf.value.ctor.Some? then cf.value.ctor.value(req)
    else default(req)
  }

  const JsonType := "application/json; charset=utf-8"

  /** The response calls for "nothing matched". */
  const NotFoundOps: seq<Op> :=
    [SetStatus(404), SetHeader("Content-Type", JsonType), End(Some(ErrorJson("Not Found")))]

  /** `e?.statusCode ?? 500`. */
  function ErrorStatus(e: Thrown): int
  {
    if e.Http? then e.ex.statusCode else 500
  }

  /** `e?.expose ? e.message : 'Internal Server Error'`. */
  function ErrorText(e: Thrown): string
  {
    if e.Http? && e.ex.expose then e.ex.message else "Internal Server Error"
  }

  /** The headers an error carries, in order. */
  function ErrorHeaders(e: Thrown): seq<(string, string)>
  {
    if e.Http? then e.ex.headers else []
  }

  function HeaderOps(hs: seq<(string, string)>): (ops: seq<Op>)
    ensures |ops| == |hs|
    ensures forall i :: 0 <= i < |hs| ==> ops[i] == SetHeader(hs[i].0, hs[i].1)
  {
    if |hs| == 0 then [] else [SetHeader(hs[0].0, hs[0].1)] + HeaderOps(hs[1..])
  }

  /** The response calls of the `catch` block. */
  function ErrorOps(e: Thrown): seq<Op>
  {
    [SetStatus(ErrorStatus(e))] + HeaderOps(ErrorHeaders(e))
      + [SetHeader("Content-Type", JsonType), End(Some(ErrorJson(ErrorText(e))))]
  }

  /** The matchers from position `i` of the order on: the first one that matches runs its
      handler, one that throws ends the loop with its error; when none matches, the 404
      response. */
  function Dispatch<S, R, C>(router: Router<S, C>, kit: RouteKit<S, R, C>, c: C, i: nat): Run<C>
    requires Valid(router) && i <= |router.order|
    decreases |router.order| - i
  {
    if i == |router.order| then Run(c, NotFoundOps, None)
    else match kit.matches(router.reg[router.order[i]], c)
      case Matched(c', exec) => exec(c')
      case MatchThrew(c', e) => Run(c', [], Some(e))
      case NoMatch => Dispatch(router, kit, c, i + 1)
  }

  /** The index of the first route type in the order whose `match` does not give null (it
      matches or throws), if any. */
  function FirstMatch<S, R, C>(router: Router<S, C>, kit: RouteKit<S, R, C>, c: C, i: nat): (k: Option<nat>)
    requires Valid(router) && i <= |router.order|
    ensures k.Some? ==> (
      i <= k.value < |router.order|
      && !kit.matches(router.reg[router.order[k.value]], c).NoMatch?
      && forall j :: i <= j < k.value ==> kit.matches(router.reg[router.order[j]], c).NoMatch?)
    ensures k.None? ==> forall j :: i <= j < |router.order| ==> kit.matches(router.reg[router.order[j]], c).NoMatch?
    decreases |router.order| - i
  {
    if i == |router.order| then None
    else if !kit.matches(router.reg[router.order[i]], c).NoMatch? then Some(i)
    else FirstMatch(router, kit, c, i + 1)
  }

  /** What the first deciding `match` leads to: its handler's run, or its error. */
  function Decided<C>(m: Matching<C>): Run<C>
    requires !m.NoMatch?
  {
    if m.Matched? then m.exec(m.ctx) else Run(m.ctx, [], Some(m.error))
  }

  /** `handler(req, res)` once the context exists: global pipes, then the matchers, all inside
      a `try` whose `catch` turns the thrown error into an error response. Nothing escapes. */
  function Handle<S, R, C>(router: Router<S, C>, kit: RouteKit<S, R, C>, c: C): (out: Run<C>)
    requires Valid(router)
    ensures out.thrown.None?
  {
    var pipes := RunPipes(router.globalPipes, c);
    var run := if pipes.thrown.Some? then pipes
               else var d := Dispatch(router, kit, pipes.ctx, 0);
                    Run(d.ctx, pipes.ops + d.ops, d.thrown);
    if run.thrown.Some? then Run(run.ctx, run.ops + ErrorOps(run.thrown.value), None)
    else run
  }

  /** Dispatching from `i` runs exactly the handler of the first route type (from `i` on) that
      matches, on the context it prepared, or ends with the error of the first `match` that
      throws, and gives the 404 calls when there is neither; route types after that one are
      never consulted. */
  lemma {:induction false} DispatchFirstMatch<S, R, C>(router: Router<S, C>, kit: RouteKit<S, R, C>, c: C, i: nat)
    requires Valid(router) && i <= |router.order|
    ensures FirstMatch(router, kit, c, i).None? ==> Dispatch(router, kit, c, i) == Run(c, NotFoundOps, None)
    ensures FirstMatch(router, kit, c, i).Some? ==>
      var m := kit.matches(router.reg[router.order[FirstMatch(router, kit, c, i).value]], c);
      Dispatch(router, kit, c, i) == Decided(m)
    decreases |router.order| - i
  {
    if i < |router.order| && kit.matches(router.reg[router.order[i]], c).NoMatch? {
      DispatchFirstMatch(router, kit, c, i + 1);
    }
  }

  /** A global pipe that throws ends the request with the error response: no route type is
      consulted, so any other registry with the same pipes gives the same outcome. */
  lemma PipeErrorSkipsRouting<S, R, C>(router: Router<S, C>, kit: RouteKit<S, R, C>, c: C, other: Router<S, C>, otherKit: RouteKit<S, R, C>)
    requires Valid(router) && Valid(other)
    requires other.globalPipes == router.globalPipes
    requires RunPipes(router.globalPipes, c).thrown.Some?
    ensures var p := RunPipes(router.globalPipes, c);
      Handle(router, kit, c) == Run(p.ctx, p.ops + ErrorOps(p.thrown.value), None)
    ensures Handle(router, kit, c) == Handle(other, otherKit, c)
  {
  }

  /** When the global pipes succeed: with no matching route type the request gets the pipes'
      calls followed by the 404 calls; otherwise the handler of the first matching route type
      runs after the pipes (or that type's `match` throws), followed by the error response if
      there is an error. */
  lemma HandleOutcome<S, R, C>(router: Router<S, C>, kit: RouteKit<S, R, C>, c: C)
    requires Valid(router)
    requires RunPipes(router.globalPipes, c).thrown.None?
    ensures var p := RunPipes(router.globalPipes, c);
      FirstMatch(router, kit, p.ctx, 0).None? ==> Handle(router, kit, c) == Run(p.ctx, p.ops + NotFoundOps, None)
    ensures var p := RunPipes(router.globalPipes, c);
      var k := FirstMatch(router, kit, p.ctx, 0);
      k.Some? ==>
        var m := kit.matches(router.reg[router.order[k.value]], p.ctx);
        var h := Decided(m);
        Handle(router, kit, c) ==
          if h.thrown.None? then Run(h.ctx, p.ops + h.ops, None)
          else Run(h.ctx, p.ops + h.ops + ErrorOps(h.thrown.value), None)
  {
    var p := RunPipes(router.globalPipes, c);
    DispatchFirstMatch(router, kit, p.ctx, 0);
  }

  /** A `match` that throws (a user validator, say) is caught like a handler's error: when it
      is the first route type not to give null, the request gets the pipes' calls and then the
      error response for that error, and no handler runs. */
  lemma MatchThrowAnswersError<S, R, C>(router: Router<S, C>, kit: RouteKit<S, R, C>, c: C, k: nat, e: Thrown)
    requires Valid(router) && k < |router.order|
    requires RunPipes(router.globalPipes, c).thrown.None?
    requires var p := RunPipes(router.globalPipes, c);
      (forall j :: 0 <= j < k ==> kit.matches(router.reg[router.order[j]], p.ctx).NoMatch?)
      && kit.matches(router.reg[router.order[k]], p.ctx).MatchThrew?
      && kit.matches(router.reg[router.order[k]], p.ctx).error == e
    ensures var p := RunPipes(router.globalPipes, c);
      var m := kit.matches(router.reg[router.order[k]], p.ctx);
      Handle(router, kit, c) == Run(m.ctx, p.ops + ErrorOps(e), None)
  {
    var p := RunPipes(router.globalPipes, c);
    DispatchFrom(router, kit, p.ctx, 0, k);
  }

  /** Route types that all give null are passed over. */
  lemma {:induction false} DispatchFrom<S, R, C>(router: Router<S, C>, kit: RouteKit<S, R, C>, c: C, i: nat, k: nat)
    requires Valid(router) && i <= k <= |router.order|
    requires forall j :: i <= j < k ==> kit.matches(router.reg[router.order[j]], c).NoMatch?
    ensures Dispatch(router, kit, c, i) == Dispatch(router, kit, c, k)
    decreases k - i
  {
    if i < k {
      DispatchFrom(router, kit, c, i + 1, k);
    }
  }

  /** Whether a response can still be finished by `end`. */
  predicate Open(r: Res)
  {
    !r.ended && !r.endPatched
  }

  /** The 404 calls on an open response: status 404, the JSON content type, the body
      `{"error":"Not Found"}` and the response finished; other headers are kept. */
  lemma NotFoundResponse(r: Res)
    requires Open(r)
    ensures var out := Replay(r, NotFoundOps);
      out.status == 404 && out.ended
      && out.headers == r.headers["content-type" := JsonType]
      && out.body == r.body + [ErrorJson("Not Found")]
  {
    var r1 := Apply(r, NotFoundOps[0]);
    var r2 := Apply(r1, NotFoundOps[1]);
    var r3 := Apply(r2, NotFoundOps[2]);
    assert Replay(r, NotFoundOps) == Replay(r1, NotFoundOps[1..]);
    assert Replay(r1, NotFoundOps[1..]) == Replay(r2, NotFoundOps[2..]);
    assert Replay(r2, NotFoundOps[2..]) == Replay(r3, []);
    assert Lower("Content-Type") == "content-type";
  }

  /** The last value given to header `name` (compared lower-cased) by `hs`, if any. */
  function LastHeader(hs: seq<(string, string)>, name: string): (v: Option<string>)
    ensures v.None? <==> forall i :: 0 <= i < |hs| ==> Lower(hs[i].0) != name
    decreases |hs|
  {
    if |hs| == 0 then None
    else if Lower(hs[|hs| - 1].0) == name then Some(hs[|hs| - 1].1)
    else LastHeader(hs[..|hs| - 1], name)
  }

  /** Setting the headers `hs` one after the other leaves every header name with the last value
      `hs` gave it, and every other header as it was. */
  lemma {:induction false} HeaderOpsReplay(r: Res, hs: seq<(string, string)>)
    ensures var out := Replay(r, HeaderOps(hs));
      out.status == r.status && out.body == r.body && out.ended == r.ended && out.endPatched == r.endPatched
      && (forall name :: name in out.headers <==> name in r.headers || LastHeader(hs, name).Some?)
      && (forall name :: name in out.headers ==>
            out.headers[name] == (if LastHeader(hs, name).Some? then LastHeader(hs, name).value else r.headers[name]))
    decreases |hs|
  {
    if |hs| > 0 {
      var n := |hs|;
      var init := hs[..n - 1];
      assert HeaderOps(hs) == HeaderOps(init) + [SetHeader(hs[n - 1].0, hs[n - 1].1)] by {
        var ops := HeaderOps(hs);
        var ops' := HeaderOps(init) + [SetHeader(hs[n - 1].0, hs[n - 1].1)];
        assert |ops| == |ops'|;
        forall i | 0 <= i < |ops|
          ensures ops[i] == ops'[i]
        {
          if i < n - 1 {
            assert init[i] == hs[i];
          }
        }
      }
      ReplayAppend(r, HeaderOps(init), [SetHeader(hs[n - 1].0, hs[n - 1].1)]);
      HeaderOpsReplay(r, init);
    } else {
      assert HeaderOps(hs) == [];
    }
  }

  /** The error response on an open response: the error's status (500 for a plain error), each
      header it carries with the last value it gives, the JSON content type, and a body whose
      `error` is the message when the error may be exposed and `Internal Server Error`
      otherwise; the response is finished. */
  lemma ErrorResponse(r: Res, e: Thrown)
    requires Open(r)
    ensures var out := Replay(r, ErrorOps(e));
      out.status == (if e.Http? then e.ex.statusCode else 500)
      && out.ended
      && out.body == r.body + [ErrorJson(if e.Http? && e.ex.expose then e.ex.message else "Internal Server Error")]
      && (forall name :: name in out.headers <==> name in r.headers || name == "content-type" || LastHeader(ErrorHeaders(e), name).Some?)
      && out.headers["content-type"] == JsonType
      && (forall name :: name != "content-type" && LastHeader(ErrorHeaders(e), name).Some? ==>
            out.headers[name] == LastHeader(ErrorHeaders(e), name).value)
  {
    var hs := HeaderOps(ErrorHeaders(e));
    var tail: seq<Op> := [SetHeader("Content-Type", JsonType), End(Some(ErrorJson(ErrorText(e))))];
    assert ErrorOps(e) == [SetStatus(ErrorStatus(e))] + (hs + tail);
    ReplayAppend(r, [SetStatus(ErrorStatus(e))], hs + tail);
    var r1 := Replay(r, [SetStatus(ErrorStatus(e))]);
    ReplayAppend(r1, hs, tail);
    HeaderOpsReplay(r1, ErrorHeaders(e));
    var r2 := Replay(r1, hs);
    var r3 := Apply(r2, tail[0]);
    assert Replay(r2, tail) == Replay(r3, tail[1..]);
    assert Replay(r3, tail[1..]) == Replay(Apply(r3, tail[1]), []);
    assert Lower("Content-Type") == "content-type";
  }
}
