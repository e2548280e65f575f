/** Matching a request path against the PATTERN trie: at every node the static child is tried
    first, then the parameter child (when its validator accepts the segment), then the wildcard
    child, backtracking on failure. */
module PatternMatch {
  import opened Options
  import opened Strings
  import opened Paths
  import opened PatternParse
  import opened PatternTrie

  /** The JavaScript the matcher calls: `decodeURIComponent` (None where it throws),
      `RegExp.prototype.test` and the user's predicate functions. */
  datatype Foreign = Foreign(
    decode: string -> Option<string>,
    regexTest: (Regex, string) -> bool,
    userTest: (nat, string) -> bool)

  type Params = map<string, string>

  /* ---------------- built-in validators ---------------- */

  predicate IsHexDigit(c: char)
  {
    IsDigit(c) || ('a' <= c <= 'f') || ('A' <= c <= 'F')
  }

  predicate IsAsciiLetter(c: char)
  {
    ('a' <= c <= 'z') || ('A' <= c <= 'Z')
  }

  /** `^-?\d+$`. */
  predicate IsIntText(s: string)
  {
    var digits := if |s| > 0 && s[0] == '-' then s[1..] else s;
    |digits| > 0 && forall i :: 0 <= i < |digits| ==> IsDigit(digits[i])
  }

  /** `^[0-9a-f]+$`, case-insensitive. */
  predicate IsHexText(s: string)
  {
    |s| > 0 && forall i :: 0 <= i < |s| ==> IsHexDigit(s[i])
  }

  /** `^[A-Za-z]+$`. */
  predicate IsAlphaText(s: string)
  {
    |s| > 0 && forall i :: 0 <= i < |s| ==> IsAsciiLetter(s[i])
  }

  /** Positions of the dashes in the 8-4-4-4-12 UUID layout. */
  predicate IsUuidDash(i: int)
  {
    i == 8 || i == 13 || i == 18 || i == 23
  }

  /** The case-insensitive UUID pattern: 8-4-4-4-12 hex digits, version digit 1 to 5, variant
      digit one of 8, 9, a, b. */
  predicate IsUuidText(s: string)
  {
    |s| == 36
    && (forall i :: 0 <= i < 36 && IsUuidDash(i) ==> s[i] == '-')
    && (forall i :: 0 <= i < 36 && !IsUuidDash(i) ==> IsHexDigit(s[i]))
    && '1' <= s[14] <= '5'
    && s[19] in {'8', '9', 'a', 'b', 'A', 'B'}
  }

  function BuiltinTest(b: Builtin, s: string): bool
  {
    match b
    case IntV => IsIntText(s)
    case UuidV => IsUuidText(s)
    case HexV => IsHexText(s)
    case AlphaV => IsAlphaText(s)
  }

  /** `!validate || validate(segDec)`. */
  function Accepts(f: Foreign, v: Option<Validator>, s: string): bool
  {
    match v
    case None => true
    case Some(BuiltinV(b)) => BuiltinTest(b, s)
    case Some(RegexV(re)) => f.regexTest(re, s)
    case Some(PredicateV(id)) => f.userTest(id, s)
  }

  /* ---------------- the search ---------------- */

  /** Every segment decoded, or None when one of them cannot be. */
  function DecodeAll(f: Foreign, parts: seq<string>): (r: Option<seq<string>>)
    ensures r.Some? <==> forall i :: 0 <= i < |parts| ==> f.decode(parts[i]).Some?
    ensures r.Some? ==> (|r.value| == |parts|
      && forall i :: 0 <= i < |parts| ==> r.value[i] == f.decode(parts[i]).value)
  {
    if |parts| == 0 then Some([])
    else match (f.decode(parts[0]), DecodeAll(f, parts[1..]))
      case (Some(d), Some(ds)) => Some([d] + ds)
      case _ => None
  }

  /** `params[name] = value`, creating the record on first use. */
  function Bind(params: Option<Params>, name: string, value: string): Option<Params>
  {
    Some(params.GetOr(map[])[name := value])
  }

  /** `delete params[name]`. */
  function Unbind(params: Option<Params>, name: string): Option<Params>
  {
    Some(params.GetOr(map[]) - {name})
  }

  /** What the walk found, and the shared `params` record afterwards. */
  datatype Found<H> = Found(handler: Option<H>, params: Option<Params>)

  /** `go(node, idx)`, threading the `params` record it mutates: the static child, then the
      parameter child, then the wildcard child, each tried only when the one before found
      nothing. */
  function Go<H>(n: Node<H>, parts: seq<string>, idx: nat, verb: string, f: Foreign, params: Option<Params>): Found<H>
    requires idx <= |parts|
    decreases n, 1
  {
    if idx == |parts| then Found(GetHandler(n, verb), params)
    else match f.decode(parts[idx])
      case None => Found(None, params)
      case Some(seg) =>
        var s := TryStatic(n, parts, idx, verb, f, seg, params);
        if s.handler.Some? then s
        else
          var pr := TryParam(n, parts, idx, verb, f, seg, s.params);
          if pr.handler.Some? then pr
          else TryWild(n, parts, idx, verb, f, pr.params)
  }

  /** The static child named by the decoded segment. */
  function TryStatic<H>(n: Node<H>, parts: seq<string>, idx: nat, verb: string, f: Foreign, seg: string, params: Option<Params>): Found<H>
    requires idx < |parts|
    decreases n, 0
  {
    if seg in n.statics then Go(n.statics[seg], parts, idx + 1, verb, f, params) else Found(None, params)
  }

  /** The parameter child, bound to the decoded segment while its subtree is searched and
      unbound again if that finds nothing. */
  function TryParam<H>(n: Node<H>, parts: seq<string>, idx: nat, verb: string, f: Foreign, seg: string, params: Option<Params>): Found<H>
    requires idx < |parts|
    decreases n, 0
  {
    if n.param.Some? && Accepts(f, n.param.value.validate, seg) then
      var below := Go(n.param.value.node, parts, idx + 1, verb, f, Bind(params, n.param.value.name, seg));
      if below.handler.Some? then below else Found(None, Unbind(below.params, n.param.value.name))
    else Found(None, params)
  }

  /** The wildcard child, bound to all remaining segments decoded and joined by `/`; nothing if
      one of them cannot be decoded. */
  function TryWild<H>(n: Node<H>, parts: seq<string>, idx: nat, verb: string, f: Foreign, params: Option<Params>): Found<H>
    requires idx < |parts|
  {
    if n.wild.Some? then
      match DecodeAll(f, parts[idx..])
      case None => Found(None, params)
      case Some(ds) =>
        var bound := Bind(params, n.wild.value.name, Join(ds, "/"));
        var h := GetHandler(n.wild.value.node, verb);
        if h.Some? then Found(h, bound) else Found(None, Unbind(bound, n.wild.value.name))
    else Found(None, params)
  }

  /** A matched handler and what the returned wrapper assigns to `ctx.params` (None: the
      wrapper leaves `ctx.params` alone). */
  datatype Matched<H> = Matched(handler: H, params: Option<Params>)

  /** `req.method || 'GET'`. */
  function EffectiveMethod(verb: string): string
  {
    if verb == "" then "GET" else verb
  }

  /** `match(ctx)` on the request's pathname and method. */
  function Match<H>(root: Node<H>, pathname: string, verb: string, f: Foreign): Option<Matched<H>>
  {
    var path := NormalizePath(pathname);
    var m := EffectiveMethod(verb);
    if path == "/" then
      match GetHandler(root, m)
      case Some(h) => Some(Matched(h, None))
      case None =>
        if root.wild.Some? && GetHandler(root.wild.value.node, m).Some? then
          Some(Matched(GetHandler(root.wild.value.node, m).value, Some(map[root.wild.value.name := ""])))
        else None
    else
      var g := Go(root, Split(path[1..], '/'), 0, m, f, None);
      if g.handler.Some? then Some(Matched(g.handler.value, g.params)) else None
  }

  /* ---------------- routes: what a match is ---------------- */

  /** Which child a route takes at a node. */
  datatype Choice = S | P | W

  /** The handler a route through the trie reaches for the remaining segments, if the route
      is possible: static steps need a static child named by the decoded segment, parameter
      steps a parameter child whose validator accepts it, and a wildcard step, which must be the
      last, a wildcard child, at least one remaining segment and every remaining segment
      decodable. */
  function Follow<H>(n: Node<H>, parts: seq<string>, idx: nat, r: seq<Choice>, verb: string, f: Foreign): Option<H>
    requires idx <= |parts|
    decreases |r|
  {
    if |r| == 0 then (if idx == |parts| then GetHandler(n, verb) else None)
    else if idx == |parts| then None
    else match f.decode(parts[idx])
      case None => None
      case Some(seg) =>
        match r[0]
        case S => if seg in n.statics then Follow(n.statics[seg], parts, idx + 1, r[1..], verb, f) else None
        case P =>
          if n.param.Some? && Accepts(f, n.param.value.validate, seg) then
            Follow(n.param.value.node, parts, idx + 1, r[1..], verb, f)
          else None
        case W =>
          if |r| == 1 && n.wild.Some? && DecodeAll(f, parts[idx..]).Some? then GetHandler(n.wild.value.node, verb)
          else None
  }

  function Rank(c: Choice): nat
  {
    match c
    case S => 0
    case P => 1
    case W => 2
  }

  /** Route priority: lexicographic, static before parameter before wildcard. */
  predicate RouteLe(a: seq<Choice>, b: seq<Choice>)
    decreases |a|
  {
    |a| == 0 || (|b| > 0 && (Rank(a[0]) < Rank(b[0]) || (a[0] == b[0] && RouteLe(a[1..], b[1..]))))
  }

  /** The walk finds a handler exactly when some route reaches one, and the handler it finds is
      the one of the route of highest priority: static before parameter before wildcard at
      every node, whatever order the rules were added in. */
  lemma {:induction false} GoSpec<H>(n: Node<H>, parts: seq<string>, idx: nat, verb: string, f: Foreign, params: Option<Params>)
    returns (r: seq<Choice>)
    requires idx <= |parts|
    ensures Go(n, parts, idx, verb, f, params).handler.Some? ==>
      Follow(n, parts, idx, r, verb, f) == Go(n, parts, idx, verb, f, params).handler
      && forall r' :: Follow(n, parts, idx, r', verb, f).Some? ==> RouteLe(r, r')
    ensures Go(n, parts, idx, verb, f, params).handler.None? ==>
      forall r' :: Follow(n, parts, idx, r', verb, f).None?
    decreases n, 1
  {
    r := [];
    if idx == |parts| {
      forall r' | |r'| > 0
        ensures Follow(n, parts, idx, r', verb, f).None?
      {
      }
      return;
    }
    if f.decode(parts[idx]).None? {
      return;
    }
    var seg := f.decode(parts[idx]).value;
    var s := TryStatic(n, parts, idx, verb, f, seg, params);
    if seg in n.statics {
      var rs := GoSpec(n.statics[seg], parts, idx + 1, verb, f, params);
      if s.handler.Some? {
        StepLeast(n, parts, idx, verb, f, seg, S, rs);
        return [S] + rs;
      }
    }
    StaticNone(n, parts, idx, verb, f, seg);
    r := GoSpecAfterStatic(n, parts, idx, verb, f, params, seg);
  }

  /** `GoSpec` once no route goes through the static child. */
  lemma {:induction false} GoSpecAfterStatic<H>(n: Node<H>, parts: seq<string>, idx: nat, verb: string, f: Foreign,
                                                params: Option<Params>, seg: string)
    returns (r: seq<Choice>)
    requires idx < |parts| && f.decode(parts[idx]) == Some(seg)
    requires TryStatic(n, parts, idx, verb, f, seg, params).handler.None?
    requires forall r' :: |r'| > 0 && r'[0] == S ==> Follow(n, parts, idx, r', verb, f).None?
    ensures Go(n, parts, idx, verb, f, params).handler.Some? ==>
      Follow(n, parts, idx, r, verb, f) == Go(n, parts, idx, verb, f, params).handler
      && forall r' :: Follow(n, parts, idx, r', verb, f).Some? ==> RouteLe(r, r')
    ensures Go(n, parts, idx, verb, f, params).handler.None? ==> NoRoute(n, parts, idx, verb, f)
    decreases n, 0
  {
    var s := TryStatic(n, parts, idx, verb, f, seg, params);
    if n.param.Some? && Accepts(f, n.param.value.validate, seg) {
      var bp := Bind(s.params, n.param.value.name, seg);
      var rp := GoSpec(n.param.value.node, parts, idx + 1, verb, f, bp);
      var below := Go(n.param.value.node, parts, idx + 1, verb, f, bp);
      if below.handler.Some? {
        assert TryParam(n, parts, idx, verb, f, seg, s.params) == below;
        StepLeast(n, parts, idx, verb, f, seg, P, rp);
        return [P] + rp;
      }
    }
    ParamNone(n, parts, idx, verb, f, seg);
    r := GoSpecWild(n, parts, idx, verb, f, params, seg);
  }

  /** `GoSpec` once no route goes through the static or the parameter child. */
  lemma GoSpecWild<H>(n: Node<H>, parts: seq<string>, idx: nat, verb: string, f: Foreign,
                      params: Option<Params>, seg: string)
    returns (r: seq<Choice>)
    requires idx < |parts| && f.decode(parts[idx]) == Some(seg)
    requires var s := TryStatic(n, parts, idx, verb, f, seg, params);
      s.handler.None? && TryParam(n, parts, idx, verb, f, seg, s.params).handler.None?
    requires forall r' :: |r'| > 0 && r'[0] == S ==> Follow(n, parts, idx, r', verb, f).None?
    requires forall r' :: |r'| > 0 && r'[0] == P ==> Follow(n, parts, idx, r', verb, f).None?
    ensures Go(n, parts, idx, verb, f, params).handler.Some? ==>
      Follow(n, parts, idx, r, verb, f) == Go(n, parts, idx, verb, f, params).handler
      && forall r' :: Follow(n, parts, idx, r', verb, f).Some? ==> RouteLe(r, r')
    ensures Go(n, parts, idx, verb, f, params).handler.None? ==> NoRoute(n, parts, idx, verb, f)
  {
    WildOnly(n, parts, idx, verb, f, seg);
    r := [W];
  }

  /** No route from `n` reaches a handler. */
  ghost predicate NoRoute<H>(n: Node<H>, parts: seq<string>, idx: nat, verb: string, f: Foreign)
    requires idx <= |parts|
  {
    forall r' :: Follow(n, parts, idx, r', verb, f).None?
  }

  /** No route starts with a static step when no route leads on from the static child. */
  lemma StaticNone<H>(n: Node<H>, parts: seq<string>, idx: nat, verb: string, f: Foreign, seg: string)
    requires idx < |parts| && f.decode(parts[idx]) == Some(seg)
    requires seg in n.statics ==> NoRoute(n.statics[seg], parts, idx + 1, verb, f)
    ensures forall r' :: |r'| > 0 && r'[0] == S ==> Follow(n, parts, idx, r', verb, f).None?
  {
    forall r' | |r'| > 0 && r'[0] == S
      ensures Follow(n, parts, idx, r', verb, f).None?
    {
      if seg in n.statics {
        assert Follow(n, parts, idx, r', verb, f) == Follow(n.statics[seg], parts, idx + 1, r'[1..], verb, f);
      }
    }
  }

  /** No route starts with a parameter step when the parameter child is absent, rejects the
      segment, or no route leads on from it. */
  lemma ParamNone<H>(n: Node<H>, parts: seq<string>, idx: nat, verb: string, f: Foreign, seg: string)
    requires idx < |parts| && f.decode(parts[idx]) == Some(seg)
    requires n.param.Some? && Accepts(f, n.param.value.validate, seg) ==>
      NoRoute(n.param.value.node, parts, idx + 1, verb, f)
    ensures forall r' :: |r'| > 0 && r'[0] == P ==> Follow(n, parts, idx, r', verb, f).None?
  {
    forall r' | |r'| > 0 && r'[0] == P
      ensures Follow(n, parts, idx, r', verb, f).None?
    {
      if n.param.Some? && Accepts(f, n.param.value.validate, seg) {
        assert Follow(n, parts, idx, r', verb, f) == Follow(n.param.value.node, parts, idx + 1, r'[1..], verb, f);
      }
    }
  }

  /** A best route through the child of a static or parameter step, with no route through a
      step of higher priority, gives a best route through the node. */
  lemma StepLeast<H>(n: Node<H>, parts: seq<string>, idx: nat, verb: string, f: Foreign, seg: string,
                     c: Choice, w: seq<Choice>)
    requires idx < |parts| && f.decode(parts[idx]) == Some(seg)
    requires c == S ==> seg in n.statics
    requires c == P ==> n.param.Some? && Accepts(f, n.param.value.validate, seg)
    requires c != W
    requires Follow(StepChild(n, seg, c), parts, idx + 1, w, verb, f).Some?
    requires forall r'' :: Follow(StepChild(n, seg, c), parts, idx + 1, r'', verb, f).Some? ==> RouteLe(w, r'')
    requires c == P ==> forall r' :: |r'| > 0 && r'[0] == S ==> Follow(n, parts, idx, r', verb, f).None?
    ensures Follow(n, parts, idx, [c] + w, verb, f) == Follow(StepChild(n, seg, c), parts, idx + 1, w, verb, f)
    ensures forall r' :: Follow(n, parts, idx, r', verb, f).Some? ==> RouteLe([c] + w, r')
  {
    var child := StepChild(n, seg, c);
    assert ([c] + w)[1..] == w;
    forall r' | Follow(n, parts, idx, r', verb, f).Some?
      ensures RouteLe([c] + w, r')
    {
      if r'[0] == c {
        assert Follow(child, parts, idx + 1, r'[1..], verb, f).Some?;
      }
    }
  }

  /** With no route through the static or parameter child, the only possible route is the
      wildcard step, and it reaches what the wildcard child has for the method. */
  lemma WildOnly<H>(n: Node<H>, parts: seq<string>, idx: nat, verb: string, f: Foreign, seg: string)
    requires idx < |parts| && f.decode(parts[idx]) == Some(seg)
    requires forall r' :: |r'| > 0 && r'[0] == S ==> Follow(n, parts, idx, r', verb, f).None?
    requires forall r' :: |r'| > 0 && r'[0] == P ==> Follow(n, parts, idx, r', verb, f).None?
    ensures forall r' :: Follow(n, parts, idx, r', verb, f).Some? ==> r' == [W]
  {
    forall r' | Follow(n, parts, idx, r', verb, f).Some?
      ensures r' == [W]
    {
      assert r'[0] != S && r'[0] != P;
    }
  }

  /** Priority is a total preorder on routes, so the highest-priority accepting route is well
      defined: any two routes are comparable. */
  lemma {:induction false} RouteLeTotal(a: seq<Choice>, b: seq<Choice>)
    ensures RouteLe(a, b) || RouteLe(b, a)
    decreases |a|
  {
    if |a| > 0 && |b| > 0 && a[0] == b[0] {
      RouteLeTotal(a[1..], b[1..]);
    }
  }

  /** A segment that cannot be decoded rules out every match that reaches it. */
  lemma {:induction false} UndecodableBlocks<H>(n: Node<H>, parts: seq<string>, idx: nat, j: nat, r: seq<Choice>, verb: string, f: Foreign)
    requires idx <= j < |parts|
    requires f.decode(parts[j]).None?
    ensures Follow(n, parts, idx, r, verb, f).None?
    decreases |r|
  {
    if |r| > 0 && f.decode(parts[idx]).Some? {
      var seg := f.decode(parts[idx]).value;
      assert idx < j;
      match r[0]
      case S =>
        if seg in n.statics {
          UndecodableBlocks(n.statics[seg], parts, idx + 1, j, r[1..], verb, f);
        }
      case P =>
        if n.param.Some? && Accepts(f, n.param.value.validate, seg) {
          UndecodableBlocks(n.param.value.node, parts, idx + 1, j, r[1..], verb, f);
        }
      case W =>
        assert parts[idx..][j - idx] == parts[j];
    }
  }

  /* ---------------- parameters ---------------- */

  /** The parameter values a possible route binds: each parameter step binds its child's name
      to the decoded segment, a wildcard step binds its name to the remaining decoded segments
      joined by `/`; a deeper binding replaces a shallower one of the same name. */
  function Bindings<H>(n: Node<H>, parts: seq<string>, idx: nat, r: seq<Choice>, verb: string, f: Foreign): Params
    requires idx <= |parts|
    requires Follow(n, parts, idx, r, verb, f).Some?
    decreases |r|
  {
    if |r| == 0 then map[]
    else
      var seg := f.decode(parts[idx]).value;
      match r[0]
      case S => Bindings(n.statics[seg], parts, idx + 1, r[1..], verb, f)
      case P => map[n.param.value.name := seg] + Bindings(n.param.value.node, parts, idx + 1, r[1..], verb, f)
      case W => map[n.wild.value.name := Join(DecodeAll(f, parts[idx..]).value, "/")]
  }

  /** No parameter or wildcard name below `n` repeats one of `bound` or one above it. */
  predicate NamesFresh<H>(n: Node<H>, bound: set<string>)
    decreases n
  {
    (forall k :: k in n.statics ==> NamesFresh(n.statics[k], bound))
    && (n.param.Some? ==>
          n.param.value.name !in bound && NamesFresh(n.param.value.node, bound + {n.param.value.name}))
    && (n.wild.Some? ==>
          n.wild.value.name !in bound && NamesFresh(n.wild.value.node, bound + {n.wild.value.name}))
  }

  /** `r` is a possible route of highest priority. */
  ghost predicate Least<H>(n: Node<H>, parts: seq<string>, idx: nat, r: seq<Choice>, verb: string, f: Foreign)
    requires idx <= |parts|
  {
    Follow(n, parts, idx, r, verb, f).Some?
    && forall r' :: Follow(n, parts, idx, r', verb, f).Some? ==> RouteLe(r, r')
  }

  /** The child a static or parameter step leads to. */
  function StepChild<H>(n: Node<H>, seg: string, c: Choice): Node<H>
    requires c == S ==> seg in n.statics
    requires c == P ==> n.param.Some?
    requires c != W
  {
    if c == S then n.statics[seg] else n.param.value.node
  }

  /** A step of highest priority is followed by a rest of highest priority. */
  lemma LeastTail<H>(n: Node<H>, parts: seq<string>, idx: nat, r: seq<Choice>, verb: string, f: Foreign)
    requires idx < |parts| && f.decode(parts[idx]).Some?
    requires Least(n, parts, idx, r, verb, f) && |r| > 0 && r[0] != W
    ensures var seg := f.decode(parts[idx]).value;
      (r[0] == S ==> seg in n.statics) && (r[0] == P ==> n.param.Some?)
      && Least(StepChild(n, seg, r[0]), parts, idx + 1, r[1..], verb, f)
  {
    var seg := f.decode(parts[idx]).value;
    var child := StepChild(n, seg, r[0]);
    forall r'' | Follow(child, parts, idx + 1, r'', verb, f).Some?
      ensures RouteLe(r[1..], r'')
    {
      var alt := [r[0]] + r'';
      assert alt[1..] == r'';
      assert Follow(n, parts, idx, alt, verb, f).Some?;
    }
  }

  /** A possible route through a child bounds the first step of the highest-priority route. */
  lemma LeastFirst<H>(n: Node<H>, parts: seq<string>, idx: nat, r: seq<Choice>, verb: string, f: Foreign, c: Choice, w: seq<Choice>)
    requires idx < |parts|
    requires Least(n, parts, idx, r, verb, f)
    requires Follow(n, parts, idx, [c] + w, verb, f).Some?
    ensures |r| > 0 && Rank(r[0]) <= Rank(c)
  {
  }

  /** With distinct names along every path of the trie, a failed walk leaves the parameters as
      they were (every binding it made was deleted again), and a successful one adds exactly the
      bindings of the route of highest priority. */
  lemma {:induction false} GoParams<H>(n: Node<H>, parts: seq<string>, idx: nat, verb: string, f: Foreign,
                                       params: Option<Params>, bound: set<string>, r: seq<Choice>)
    requires idx <= |parts|
    requires NamesFresh(n, bound) && params.GetOr(map[]).Keys <= bound
    requires Go(n, parts, idx, verb, f, params).handler.Some? ==> Least(n, parts, idx, r, verb, f)
    ensures Go(n, parts, idx, verb, f, params).handler.None? ==>
      Go(n, parts, idx, verb, f, params).params.GetOr(map[]) == params.GetOr(map[])
    ensures Go(n, parts, idx, verb, f, params).handler.Some? ==>
      Go(n, parts, idx, verb, f, params).params.GetOr(map[])
        == params.GetOr(map[]) + Bindings(n, parts, idx, r, verb, f)
    decreases n, 2
  {
    var g := Go(n, parts, idx, verb, f, params);
    var pm := params.GetOr(map[]);
    if idx == |parts| {
      if g.handler.Some? {
        assert |r| == 0;
        assert pm + map[] == pm;
      }
      return;
    }
    if f.decode(parts[idx]).None? {
      return;
    }
    var seg := f.decode(parts[idx]).value;
    var s := TryStatic(n, parts, idx, verb, f, seg, params);
    if seg in n.statics {
      var w := GoSpec(n.statics[seg], parts, idx + 1, verb, f, params);
      if s.handler.Some? {
        assert ([S] + w)[1..] == w;
        LeastFirst(n, parts, idx, r, verb, f, S, w);
        LeastTail(n, parts, idx, r, verb, f);
        GoParams(n.statics[seg], parts, idx + 1, verb, f, params, bound, r[1..]);
        return;
      }
      GoParams(n.statics[seg], parts, idx + 1, verb, f, params, bound, []);
    }
    GoParamStep(n, parts, idx, verb, f, params, bound, r, seg, s);
  }

  /** No route starts with a static step when the static child finds nothing. */
  lemma NoStaticRoute<H>(n: Node<H>, parts: seq<string>, idx: nat, verb: string, f: Foreign, seg: string, params: Option<Params>)
    requires idx < |parts| && f.decode(parts[idx]) == Some(seg)
    requires seg in n.statics ==> Go(n.statics[seg], parts, idx + 1, verb, f, params).handler.None?
    ensures forall r' :: |r'| > 0 && r'[0] == S ==> Follow(n, parts, idx, r', verb, f).None?
  {
    if seg in n.statics {
      var _ := GoSpec(n.statics[seg], parts, idx + 1, verb, f, params);
    }
    StaticNone(n, parts, idx, verb, f, seg);
  }

  /** No route starts with a parameter step when the parameter child is absent, rejects the
      segment or finds nothing. */
  lemma NoParamRoute<H>(n: Node<H>, parts: seq<string>, idx: nat, verb: string, f: Foreign, seg: string, params: Option<Params>)
    requires idx < |parts| && f.decode(parts[idx]) == Some(seg)
    requires n.param.Some? && Accepts(f, n.param.value.validate, seg) ==>
      Go(n.param.value.node, parts, idx + 1, verb, f, params).handler.None?
    ensures forall r' :: |r'| > 0 && r'[0] == P ==> Follow(n, parts, idx, r', verb, f).None?
  {
    if n.param.Some? && Accepts(f, n.param.value.validate, seg) {
      var _ := GoSpec(n.param.value.node, parts, idx + 1, verb, f, params);
    }
    ParamNone(n, parts, idx, verb, f, seg);
  }

  /** `GoParams` once the static child has failed. */
  lemma {:induction false} GoParamStep<H>(n: Node<H>, parts: seq<string>, idx: nat, verb: string, f: Foreign,
                                          params: Option<Params>, bound: set<string>, r: seq<Choice>,
                                          seg: string, s: Found<H>)
    requires idx < |parts| && f.decode(parts[idx]) == Some(seg)
    requires NamesFresh(n, bound) && params.GetOr(map[]).Keys <= bound
    requires s == TryStatic(n, parts, idx, verb, f, seg, params)
    requires s.handler.None? && s.params.GetOr(map[]) == params.GetOr(map[])
    requires Go(n, parts, idx, verb, f, params).handler.Some? ==> Least(n, parts, idx, r, verb, f)
    ensures Go(n, parts, idx, verb, f, params).handler.None? ==>
      Go(n, parts, idx, verb, f, params).params.GetOr(map[]) == params.GetOr(map[])
    ensures Go(n, parts, idx, verb, f, params).handler.Some? ==>
      Go(n, parts, idx, verb, f, params).params.GetOr(map[])
        == params.GetOr(map[]) + Bindings(n, parts, idx, r, verb, f)
    decreases n, 1
  {
    NoStaticRoute(n, parts, idx, verb, f, seg, params);
    var pr := TryParam(n, parts, idx, verb, f, seg, s.params);
    if n.param.Some? && Accepts(f, n.param.value.validate, seg) {
      var name := n.param.value.name;
      var bp := Bind(s.params, name, seg);
      var below := Go(n.param.value.node, parts, idx + 1, verb, f, bp);
      if below.handler.Some? {
        GoParamHit(n, parts, idx, verb, f, params, bound, r, seg, s);
        return;
      }
      GoParams(n.param.value.node, parts, idx + 1, verb, f, bp, bound + {name}, []);
      assert pr == Found(None, Unbind(below.params, name));
      assert params.GetOr(map[])[name := seg] - {name} == params.GetOr(map[]);
      NoParamRoute(n, parts, idx, verb, f, seg, bp);
    } else {
      NoParamRoute(n, parts, idx, verb, f, seg, params);
    }
    GoWildStep(n, parts, idx, verb, f, params, r, seg);
  }

  /** `GoParams` when the parameter child finds a handler. */
  lemma {:induction false} GoParamHit<H>(n: Node<H>, parts: seq<string>, idx: nat, verb: string, f: Foreign,
                                         params: Option<Params>, bound: set<string>, r: seq<Choice>,
                                         seg: string, s: Found<H>)
    requires idx < |parts| && f.decode(parts[idx]) == Some(seg)
    requires NamesFresh(n, bound) && params.GetOr(map[]).Keys <= bound
    requires s == TryStatic(n, parts, idx, verb, f, seg, params)
    requires s.handler.None? && s.params.GetOr(map[]) == params.GetOr(map[])
    requires forall r' :: |r'| > 0 && r'[0] == S ==> Follow(n, parts, idx, r', verb, f).None?
    requires n.param.Some? && Accepts(f, n.param.value.validate, seg)
    requires Go(n.param.value.node, parts, idx + 1, verb, f, Bind(s.params, n.param.value.name, seg)).handler.Some?
    requires Go(n, parts, idx, verb, f, params).handler.Some? ==> Least(n, parts, idx, r, verb, f)
    ensures Go(n, parts, idx, verb, f, params).handler.Some?
    ensures Go(n, parts, idx, verb, f, params).params.GetOr(map[])
        == params.GetOr(map[]) + Bindings(n, parts, idx, r, verb, f)
    decreases n, 0
  {
    var pm := params.GetOr(map[]);
    var name := n.param.value.name;
    var bp := Bind(s.params, name, seg);
    var below := Go(n.param.value.node, parts, idx + 1, verb, f, bp);
    assert TryParam(n, parts, idx, verb, f, seg, s.params) == below;
    assert Go(n, parts, idx, verb, f, params) == below;
    var w := GoSpec(n.param.value.node, parts, idx + 1, verb, f, bp);
    assert ([P] + w)[1..] == w;
    LeastFirst(n, parts, idx, r, verb, f, P, w);
    assert r[0] == P;
    LeastTail(n, parts, idx, r, verb, f);
    GoParams(n.param.value.node, parts, idx + 1, verb, f, bp, bound + {name}, r[1..]);
    ParamBindings(n, parts, idx, r, verb, f, seg, pm);
  }

  /** The bindings of a route through the parameter child: the parameter, then the rest. */
  lemma ParamBindings<H>(n: Node<H>, parts: seq<string>, idx: nat, r: seq<Choice>, verb: string, f: Foreign,
                         seg: string, pm: Params)
    requires idx < |parts| && f.decode(parts[idx]) == Some(seg)
    requires Follow(n, parts, idx, r, verb, f).Some? && |r| > 0 && r[0] == P
    ensures n.param.Some? && Follow(n.param.value.node, parts, idx + 1, r[1..], verb, f).Some?
    ensures pm[n.param.value.name := seg] + Bindings(n.param.value.node, parts, idx + 1, r[1..], verb, f)
      == pm + Bindings(n, parts, idx, r, verb, f)
  {
    var rest := Bindings(n.param.value.node, parts, idx + 1, r[1..], verb, f);
    var name := n.param.value.name;
    assert Bindings(n, parts, idx, r, verb, f) == map[name := seg] + rest;
    assert pm[name := seg] + rest == pm + (map[name := seg] + rest);
  }

  /** The wildcard step of `GoParams`, once the static and parameter children have failed. */
  lemma GoWildStep<H>(n: Node<H>, parts: seq<string>, idx: nat, verb: string, f: Foreign,
                      params: Option<Params>, r: seq<Choice>, seg: string)
    requires idx < |parts| && f.decode(parts[idx]) == Some(seg)
    requires n.wild.Some? ==> n.wild.value.name !in params.GetOr(map[])
    requires forall r' :: |r'| > 0 && r'[0] == S ==> Follow(n, parts, idx, r', verb, f).None?
    requires forall r' :: |r'| > 0 && r'[0] == P ==> Follow(n, parts, idx, r', verb, f).None?
    requires TryStatic(n, parts, idx, verb, f, seg, params).handler.None?
    requires var pr := TryParam(n, parts, idx, verb, f, seg, TryStatic(n, parts, idx, verb, f, seg, params).params);
      pr.handler.None? && pr.params.GetOr(map[]) == params.GetOr(map[])
    requires Go(n, parts, idx, verb, f, params).handler.Some? ==> Least(n, parts, idx, r, verb, f)
    ensures Go(n, parts, idx, verb, f, params).handler.None? ==>
      Go(n, parts, idx, verb, f, params).params.GetOr(map[]) == params.GetOr(map[])
    ensures Go(n, parts, idx, verb, f, params).handler.Some? ==>
      Go(n, parts, idx, verb, f, params).params.GetOr(map[])
        == params.GetOr(map[]) + Bindings(n, parts, idx, r, verb, f)
  {
    var pm := params.GetOr(map[]);
    var s := TryStatic(n, parts, idx, verb, f, seg, params);
    var pr := TryParam(n, parts, idx, verb, f, seg, s.params);
    var g := TryWild(n, parts, idx, verb, f, pr.params);
    assert Go(n, parts, idx, verb, f, params) == g;
    if g.handler.Some? {
      WildOnly(n, parts, idx, verb, f, seg);
    }
    WildParams(n, parts, idx, verb, f, pr.params);
  }

  /** The wildcard child binds its name to the joined remaining segments when it has a handler
      for the method, and leaves the parameters as they were otherwise. */
  lemma WildParams<H>(n: Node<H>, parts: seq<string>, idx: nat, verb: string, f: Foreign, q: Option<Params>)
    requires idx < |parts| && f.decode(parts[idx]).Some?
    requires n.wild.Some? ==> n.wild.value.name !in q.GetOr(map[])
    ensures var g := TryWild(n, parts, idx, verb, f, q);
      g.handler.None? ==> g.params.GetOr(map[]) == q.GetOr(map[])
    ensures var g := TryWild(n, parts, idx, verb, f, q);
      g.handler.Some? ==> (Follow(n, parts, idx, [W], verb, f) == g.handler
        && g.params.GetOr(map[]) == q.GetOr(map[]) + Bindings(n, parts, idx, [W], verb, f))
  {
    var pm := q.GetOr(map[]);
    if n.wild.Some? && DecodeAll(f, parts[idx..]).Some? {
      var wname := n.wild.value.name;
      var joined := Join(DecodeAll(f, parts[idx..]).value, "/");
      assert pm[wname := joined] - {wname} == pm;
      assert pm[wname := joined] == pm + map[wname := joined];
    }
  }

  /* ---------------- the whole match ---------------- */

  /** The segments a non-root pathname is matched on. */
  function PathParts(pathname: string): seq<string>
    requires NormalizePath(pathname) != "/"
  {
    Split(NormalizePath(pathname)[1..], '/')
  }

  /** The root path is served by the root's own handler (HEAD falling back to GET), else by the
      root wildcard's handler with that wildcard bound to the empty string, else not at all. */
  lemma MatchRoot<H>(root: Node<H>, pathname: string, verb: string, f: Foreign)
    requires NormalizePath(pathname) == "/"
    ensures var m := EffectiveMethod(verb);
      GetHandler(root, m).Some? ==> Match(root, pathname, verb, f) == Some(Matched(GetHandler(root, m).value, None))
    ensures var m := EffectiveMethod(verb);
      GetHandler(root, m).None? && root.wild.Some? && GetHandler(root.wild.value.node, m).Some? ==>
        Match(root, pathname, verb, f)
          == Some(Matched(GetHandler(root.wild.value.node, m).value, Some(map[root.wild.value.name := ""])))
    ensures var m := EffectiveMethod(verb);
      Match(root, pathname, verb, f).Some? <==>
        GetHandler(root, m).Some? || (root.wild.Some? && GetHandler(root.wild.value.node, m).Some?)
  {
  }

  /** Any other path matches exactly when a route through the trie reaches a handler for its
      segments, and the handler matched is that of the highest-priority such route. */
  lemma MatchPath<H>(root: Node<H>, pathname: string, verb: string, f: Foreign) returns (r: seq<Choice>)
    requires NormalizePath(pathname) != "/"
    ensures var parts, m := PathParts(pathname), EffectiveMethod(verb);
      Match(root, pathname, verb, f).None? <==> forall r' :: Follow(root, parts, 0, r', m, f).None?
    ensures var parts, m := PathParts(pathname), EffectiveMethod(verb);
      Match(root, pathname, verb, f).Some? ==>
        Follow(root, parts, 0, r, m, f) == Some(Match(root, pathname, verb, f).value.handler)
        && forall r' :: Follow(root, parts, 0, r', m, f).Some? ==> RouteLe(r, r')
  {
    r := GoSpec(root, PathParts(pathname), 0, EffectiveMethod(verb), f, None);
  }

  /** With distinct names along every path of the trie, a match assigns exactly the bindings of
      the route it chose. */
  lemma MatchParams<H>(root: Node<H>, pathname: string, verb: string, f: Foreign) returns (r: seq<Choice>)
    requires NormalizePath(pathname) != "/"
    requires NamesFresh(root, {})
    requires Match(root, pathname, verb, f).Some?
    ensures Follow(root, PathParts(pathname), 0, r, EffectiveMethod(verb), f).Some?
    ensures Match(root, pathname, verb, f).value.params.GetOr(map[])
      == Bindings(root, PathParts(pathname), 0, r, EffectiveMethod(verb), f)
  {
    var parts, m := PathParts(pathname), EffectiveMethod(verb);
    r := GoSpec(root, parts, 0, m, f, None);
    GoParams(root, parts, 0, m, f, None, {}, r);
    assert map[] + Bindings(root, parts, 0, r, m, f) == Bindings(root, parts, 0, r, m, f);
  }

  /** A path with a segment `decodeURIComponent` rejects matches nothing. */
  lemma MatchUndecodable<H>(root: Node<H>, pathname: string, verb: string, f: Foreign, j: nat)
    requires NormalizePath(pathname) != "/"
    requires j < |PathParts(pathname)| && f.decode(PathParts(pathname)[j]).None?
    ensures Match(root, pathname, verb, f).None?
  {
    var parts, m := PathParts(pathname), EffectiveMethod(verb);
    var r := GoSpec(root, parts, 0, m, f, None);
    if Match(root, pathname, verb, f).Some? {
      UndecodableBlocks(root, parts, 0, j, r, m, f);
    }
  }

  /* ---------------- repeated names ---------------- */

  /** A handler node for GET only. */
  function GetLeaf(h: int): Node<int>
  {
    Node(map[], None, None, map["GET" := h])
  }

  // The trie that `/:x/a`, `/:y/:x/b` and `/:z/*w` (GET, handlers 1, 2 and 3, added in that
  // order) build, as `RepeatedNamesBuilt` shows: the root's parameter child keeps the name
  // `x` of the first rule, and the second rule adds another parameter child named `x` one
  // level down.
  function RepeatedNamesTrie(): Node<int>
  {
    var inner := Node(map["b" := GetLeaf(2)], None, None, map[]);
    var mid := Node(map["a" := GetLeaf(1)], Some(ParamEdge("x", None, inner)), Some(WildEdge("w", GetLeaf(3))), map[]);
    Node(map[], Some(ParamEdge("x", None, mid)), None, map[])
  }

  /** The three rules, GET only, no constraints. */
  function RepeatedNamesRule(pattern: string, h: int): Rule<int>
  {
    Rule(pattern, Some(["GET"]), map[], h)
  }

  /** A `:name` segment with no constraints parses to an unvalidated parameter. */
  lemma PlainParamSegment(name: string, isLast: bool, compile: RegexCompiler)
    requires IsIdent(name)
    ensures ParseSegment(":" + name, isLast, map[], compile) == Ok(Param(name, None))
  {
    ParamSegmentRoundTrip(ParamSyntax(name, None));
    assert RenderParam(ParamSyntax(name, None)) == ":" + name;
    assert StartsWith(":" + name, ":");
  }

  /** A parse of `parts` from `i` on is the segment's token followed by the rest's. */
  lemma ParseSegmentsCons(parts: seq<string>, i: nat, constraints: map<string, ConstraintSpec>,
                          compile: RegexCompiler, t: Token, ts: seq<Token>)
    requires i < |parts|
    requires ParseSegment(parts[i], i == |parts| - 1, constraints, compile) == Ok(t)
    requires ParseSegments(parts, i + 1, constraints, compile) == Ok(ts)
    ensures ParseSegments(parts, i, constraints, compile) == Ok([t] + ts)
  {
  }

  /** A segment that starts with neither `:` nor `*` is static text. */
  lemma StaticSegment(seg: string, isLast: bool, constraints: map<string, ConstraintSpec>, compile: RegexCompiler)
    requires |seg| > 0 && seg[0] != ':' && seg[0] != '*'
    ensures ParseSegment(seg, isLast, constraints, compile) == Ok(Static(seg))
  {
    assert !StartsWith(seg, ":") && !StartsWith(seg, "*");
  }

  /** The segments of `/:x/a` parse to a parameter and a static token. */
  lemma ParseFirstSegments(compile: RegexCompiler)
    ensures ParseSegments([":x", "a"], 0, map[], compile) == Ok([Param("x", None), Static("a")])
  {
    var c: map<string, ConstraintSpec> := map[];
    var segs := [":x", "a"];
    assert IsIdent("x") && ":x" == ":" + "x";
    PlainParamSegment("x", false, compile);
    StaticSegment("a", true, c, compile);
    assert segs[0] == ":x" && segs[1] == "a" && |segs| == 2;
    assert ParseSegments(segs, 2, c, compile) == Ok([]);
    ParseSegmentsCons(segs, 1, c, compile, Static("a"), []);
    assert [Static("a")] + [] == [Static("a")];
    ParseSegmentsCons(segs, 0, c, compile, Param("x", None), [Static("a")]);
    assert [Param("x", None)] + [Static("a")] == [Param("x", None), Static("a")];
  }

  /** The segments of `/:y/:x/b` parse to two parameters and a static token. */
  lemma ParseSecondSegments(compile: RegexCompiler)
    ensures ParseSegments([":y", ":x", "b"], 0, map[], compile) == Ok([Param("y", None), Param("x", None), Static("b")])
  {
    var c: map<string, ConstraintSpec> := map[];
    var segs := [":y", ":x", "b"];
    assert IsIdent("x") && ":x" == ":" + "x";
    assert IsIdent("y") && ":y" == ":" + "y";
    PlainParamSegment("y", false, compile);
    PlainParamSegment("x", false, compile);
    StaticSegment("b", true, c, compile);
    assert segs[0] == ":y" && segs[1] == ":x" && segs[2] == "b" && |segs| == 3;
    assert ParseSegments(segs, 3, c, compile) == Ok([]);
    ParseSegmentsCons(segs, 2, c, compile, Static("b"), []);
    assert [Static("b")] + [] == [Static("b")];
    ParseSegmentsCons(segs, 1, c, compile, Param("x", None), [Static("b")]);
    assert [Param("x", None)] + [Static("b")] == [Param("x", None), Static("b")];
    ParseSegmentsCons(segs, 0, c, compile, Param("y", None), [Param("x", None), Static("b")]);
    assert [Param("y", None)] + [Param("x", None), Static("b")] == [Param("y", None), Param("x", None), Static("b")];
  }

  // The segments of `/:z/*w` parse to a parameter and a wildcard.
  lemma ParseThirdSegments(compile: RegexCompiler)
    ensures ParseSegments([":z", "*w"], 0, map[], compile) == Ok([Param("z", None), Wildcard("w")])
  {
    var c: map<string, ConstraintSpec> := map[];
    var segs := [":z", "*w"];
    assert IsIdent("z") && ":z" == ":" + "z";
    PlainParamSegment("z", false, compile);
    assert "*w"[1..] == "w" && StartsWith("*w", "*") && !StartsWith("*w", ":");
    assert ParseSegment("*w", true, c, compile) == Ok(Wildcard("w"));
    assert segs[0] == ":z" && segs[1] == "*w" && |segs| == 2;
    assert ParseSegments(segs, 2, c, compile) == Ok([]);
    ParseSegmentsCons(segs, 1, c, compile, Wildcard("w"), []);
    assert [Wildcard("w")] + [] == [Wildcard("w")];
    ParseSegmentsCons(segs, 0, c, compile, Param("z", None), [Wildcard("w")]);
    assert [Param("z", None)] + [Wildcard("w")] == [Param("z", None), Wildcard("w")];
  }

  /** `/:x/a` parses to a parameter and a static token. */
  lemma ParseFirstRule(compile: RegexCompiler)
    ensures ParsePattern("/:x/a", map[], compile) == Ok([Param("x", None), Static("a")])
  {
    var segs := [":x", "a"];
    assert Join(segs, "/") == ":x/a" by { assert segs[1..] == ["a"]; }
    ParseJoined(segs, map[], compile);
    ParseFirstSegments(compile);
  }

  /** `/:y/:x/b` parses to two parameters and a static token. */
  lemma ParseSecondRule(compile: RegexCompiler)
    ensures ParsePattern("/:y/:x/b", map[], compile) == Ok([Param("y", None), Param("x", None), Static("b")])
  {
    var segs := [":y", ":x", "b"];
    assert Join(segs, "/") == ":y/:x/b" by { assert segs[1..] == [":x", "b"] && segs[2..] == ["b"]; }
    ParseJoined(segs, map[], compile);
    ParseSecondSegments(compile);
  }

  // `/:z/*w` parses to a parameter and a wildcard.
  lemma ParseThirdRule(compile: RegexCompiler)
    ensures ParsePattern("/:z/*w", map[], compile) == Ok([Param("z", None), Wildcard("w")])
  {
    var segs := [":z", "*w"];
    assert Join(segs, "/") == ":z/*w" by { assert segs[1..] == ["*w"]; }
    ParseJoined(segs, map[], compile);
    ParseThirdSegments(compile);
  }

  /** Registering GET alone on a node without handlers. */
  lemma SetGetOnly(h: int)
    ensures SetHandlers<int>(map[], ["GET"], h) == (map["GET" := h], None)
  {
    assert !Taken<int>(map[], ["GET"], 0);
    assert Assign(["GET"], h) == map["GET" := h];
    assert map[] + map["GET" := h] == map["GET" := h];
  }

  // The tries after the first and the second rule.
  function FirstRuleTrie(): Node<int>
  {
    Node(map[], Some(ParamEdge("x", None, Node(map["a" := GetLeaf(1)], None, None, map[]))), None, map[])
  }

  function SecondRuleTrie(): Node<int>
  {
    var inner := Node(map["b" := GetLeaf(2)], None, None, map[]);
    var mid := Node(map["a" := GetLeaf(1)], Some(ParamEdge("x", None, inner)), None, map[]);
    Node(map[], Some(ParamEdge("x", None, mid)), None, map[])
  }

  lemma BuildFirstRule(compile: RegexCompiler)
    ensures AddRule(Empty<int>(), RepeatedNamesRule("/:x/a", 1), compile) == (FirstRuleTrie(), None)
  {
    ParseFirstRule(compile);
    SetGetOnly(1);
    var e := Empty<int>();
    var ts := [Param("x", None), Static("a")];
    assert Insert(e, ts, 2, ["GET"], 1) == (GetLeaf(1), None);
    assert Insert(e, ts, 1, ["GET"], 1) == (Node(map["a" := GetLeaf(1)], None, None, map[]), None);
  }

  lemma BuildSecondRule(compile: RegexCompiler)
    ensures AddRule(FirstRuleTrie(), RepeatedNamesRule("/:y/:x/b", 2), compile) == (SecondRuleTrie(), None)
  {
    ParseSecondRule(compile);
    SetGetOnly(2);
    var e := Empty<int>();
    var inner := Node(map["b" := GetLeaf(2)], None, None, map[]);
    var midA := FirstRuleTrie().param.value.node;
    var ts := [Param("y", None), Param("x", None), Static("b")];
    assert Insert(e, ts, 3, ["GET"], 2) == (GetLeaf(2), None);
    assert Insert(e, ts, 2, ["GET"], 2) == (inner, None);
    assert Insert(midA, ts, 1, ["GET"], 2) == (SecondRuleTrie().param.value.node, None);
  }

  lemma BuildThirdRule(compile: RegexCompiler)
    ensures AddRule(SecondRuleTrie(), RepeatedNamesRule("/:z/*w", 3), compile) == (RepeatedNamesTrie(), None)
  {
    ParseThirdRule(compile);
    SetGetOnly(3);
    var e := Empty<int>();
    var midB := SecondRuleTrie().param.value.node;
    var ts := [Param("z", None), Wildcard("w")];
    assert Insert(e, ts, 2, ["GET"], 3) == (GetLeaf(3), None);
    assert Insert(midB, ts, 1, ["GET"], 3) == (RepeatedNamesTrie().param.value.node, None);
  }

  /** Adding the three rules in order succeeds and builds `RepeatedNamesTrie`. */
  lemma RepeatedNamesBuilt(compile: RegexCompiler)
    ensures var t1 := AddRule(Empty<int>(), RepeatedNamesRule("/:x/a", 1), compile);
      var t2 := AddRule(t1.0, RepeatedNamesRule("/:y/:x/b", 2), compile);
      var t3 := AddRule(t2.0, RepeatedNamesRule("/:z/*w", 3), compile);
      t1.1.None? && t2.1.None? && t3 == (RepeatedNamesTrie(), None)
  {
    BuildFirstRule(compile);
    BuildSecondRule(compile);
    BuildThirdRule(compile);
  }

  /** Segments decoded as they are, and every validator accepting. */
  const Verbatim: Foreign := Foreign(s => Some(s), (re, s) => true, (id, s) => true)

  /** `Verbatim` decodes every list of segments to itself. */
  lemma {:induction false} DecodeVerbatim(parts: seq<string>)
    ensures DecodeAll(Verbatim, parts) == Some(parts)
    decreases |parts|
  {
    if |parts| > 0 {
      DecodeVerbatim(parts[1..]);
      assert Verbatim.decode(parts[0]) == Some(parts[0]);
      assert [parts[0]] + parts[1..] == parts;
    }
  }

  /** The segments of `/1/2/c`. */
  lemma RepeatedNamesParts()
    ensures NormalizePath("/1/2/c") != "/"
    ensures PathParts("/1/2/c") == ["1", "2", "c"]
  {
    var parts := ["1", "2", "c"];
    assert !EndsWith("/1/2/c", "/");
    assert NormalizePath("/1/2/c")[1..] == "1/2/c";
    assert Join(parts, "/") == "1/2/c" by {
      assert parts[1..] == ["2", "c"] && parts[2..] == ["c"];
      assert Join(parts[2..], "/") == "c";
      assert Join(parts[1..], "/") == "2/c";
    }
    SplitJoin(parts, '/');
  }

  /** The route `[P, W]` reaches handler 3 on `1/2/c`, binding `x` and `w`. */
  lemma RepeatedNamesRoute()
    ensures Follow(RepeatedNamesTrie(), ["1", "2", "c"], 0, [P, W], "GET", Verbatim) == Some(3)
    ensures Bindings(RepeatedNamesTrie(), ["1", "2", "c"], 0, [P, W], "GET", Verbatim)
      == map["x" := "1", "w" := "2/c"]
  {
    var t := RepeatedNamesTrie();
    var mid := t.param.value.node;
    var parts := ["1", "2", "c"];
    assert parts[1..] == ["2", "c"];
    DecodeVerbatim(["2", "c"]);
    assert Join(["2", "c"], "/") == "2/c" by {
      assert ["2", "c"][1..] == ["c"];
    }
    assert Follow(mid, parts, 1, [W], "GET", Verbatim) == Some(3);
    assert Bindings(mid, parts, 1, [W], "GET", Verbatim) == map["w" := "2/c"];
    assert [P, W][1..] == [W];
  }

  /** The walk on `1/2/c`: the inner `x` subtree fails, and unbinding `x` empties the record
      before the wildcard binds `w`. */
  lemma RepeatedNamesWalk()
    ensures Go(RepeatedNamesTrie(), ["1", "2", "c"], 0, "GET", Verbatim, None)
      == Found(Some(3), Some(map["w" := "2/c"]))
  {
    var t := RepeatedNamesTrie();
    var mid := t.param.value.node;
    var inner := mid.param.value.node;
    var parts := ["1", "2", "c"];
    assert parts[1..] == ["2", "c"];
    DecodeVerbatim(["2", "c"]);
    assert Join(["2", "c"], "/") == "2/c" by {
      assert ["2", "c"][1..] == ["c"];
    }
    assert Go(inner, parts, 2, "GET", Verbatim, Some(map["x" := "2"])) == Found(None, Some(map["x" := "2"]));
    assert map["x" := "1"]["x" := "2"] == map["x" := "2"];
    assert map["x" := "2"] - {"x"} == map[];
    assert TryParam(mid, parts, 1, "GET", Verbatim, "2", Some(map["x" := "1"])) == Found(None, Some(map[]));
    assert map[]["w" := "2/c"] == map["w" := "2/c"];
    assert TryWild(mid, parts, 1, "GET", Verbatim, Some(map[])) == Found(Some(3), Some(map["w" := "2/c"]));
    assert Go(mid, parts, 1, "GET", Verbatim, Some(map["x" := "1"])) == Found(Some(3), Some(map["w" := "2/c"]));
  }

  /** Without distinct names the match loses a binding. The three rules of
      `RepeatedNamesTrie` are added without error. For `GET /1/2/c` the walk binds `x` to
      `1`, then the inner `x` to `2`; that subtree fails, and `delete params[x]` removes `x`
      altogether. The wildcard then matches, so the chosen route binds `x` and `w`, but
      `ctx.params` receives only `w`. */
  lemma LostBinding(compile: RegexCompiler)
    ensures var t1 := AddRule(Empty<int>(), RepeatedNamesRule("/:x/a", 1), compile);
      var t2 := AddRule(t1.0, RepeatedNamesRule("/:y/:x/b", 2), compile);
      var t3 := AddRule(t2.0, RepeatedNamesRule("/:z/*w", 3), compile);
      t1.1.None? && t2.1.None? && t3 == (RepeatedNamesTrie(), None)
    ensures !NamesFresh(RepeatedNamesTrie(), {})
    ensures NormalizePath("/1/2/c") != "/" && PathParts("/1/2/c") == ["1", "2", "c"]
    ensures Follow(RepeatedNamesTrie(), ["1", "2", "c"], 0, [P, W], "GET", Verbatim) == Some(3)
    ensures Bindings(RepeatedNamesTrie(), ["1", "2", "c"], 0, [P, W], "GET", Verbatim)
      == map["x" := "1", "w" := "2/c"]
    ensures Match(RepeatedNamesTrie(), "/1/2/c", "GET", Verbatim) == Some(Matched(3, Some(map["w" := "2/c"])))
  {
    var mid := RepeatedNamesTrie().param.value.node;
    assert !NamesFresh(mid, {"x"});
    RepeatedNamesParts();
    RepeatedNamesRoute();
    RepeatedNamesWalk();
    RepeatedNamesBuilt(compile);
  }
}
