/** The PATTERN route trie: one node per path position, with static children keyed by their
    text, at most one parameter child and at most one wildcard child, and the handlers
    registered for each HTTP method at that node. */
module PatternTrie {
  import opened Options
  import opened PatternParse
  import opened Strings
  import opened Paths

  datatype Node<H> = Node(
    statics: map<string, Node<H>>,
    param: Option<ParamEdge<H>>,
    wild: Option<WildEdge<H>>,
    handlers: map<string, H>)

  /** The parameter child: the name and validator of the first rule that created it. */
  datatype ParamEdge<H> = ParamEdge(name: string, validate: Option<Validator>, node: Node<H>)

  /** The wildcard child: the name of the first rule that created it. */
  datatype WildEdge<H> = WildEdge(name: string, node: Node<H>)

  /** `new Node()`. */
  function Empty<H>(): Node<H>
  {
    Node(map[], None, None, map[])
  }

  /** The methods `addRule` registers when a rule names none. */
  const AllMethods: seq<string> := ["GET", "HEAD", "POST", "PUT", "PATCH", "DELETE", "OPTIONS"]

  /** `getHandler(method)`: the handler for `verb`, and for HEAD without one the GET handler. */
  function GetHandler<H>(n: Node<H>, verb: string): Option<H>
  {
    if verb in n.handlers then Some(n.handlers[verb])
    else if verb == "HEAD" && "GET" in n.handlers then Some(n.handlers["GET"])
    else None
  }

  /* ---------------- registering handlers ---------------- */

  /** Every method of `ms` mapped to `h`. */
  function Assign<H>(ms: seq<string>, h: H): map<string, H>
  {
    map m | m in ms :: h
  }

  /** The first index of `ms` whose method is already taken, by `hs` or earlier in `ms`. */
  predicate Taken<H>(hs: map<string, H>, ms: seq<string>, k: nat)
    requires k < |ms|
  {
    ms[k] in hs || ms[k] in ms[..k]
  }

  /** `setHandler(methods, exec)`: adds the methods one by one and throws on the first one that
      is already present, keeping the ones added before it. */
  function SetHandlers<H>(hs: map<string, H>, ms: seq<string>, h: H): (r: (map<string, H>, Option<string>))
    ensures r.1.None? <==> forall k :: 0 <= k < |ms| ==> !Taken(hs, ms, k)
    ensures r.1.None? ==> r.0 == hs + Assign(ms, h)
    decreases |ms|
  {
    if |ms| == 0 then (hs, None)
    else if ms[0] in hs then
      assert Taken(hs, ms, 0);
      (hs, Some("Duplicate handler for method " + ms[0]))
    else
      var rest := SetHandlers(hs[ms[0] := h], ms[1..], h);
      SetHandlersStep(hs, hs[ms[0] := h], ms, ms[1..], h);
      rest
  }

  /** Adding the first method and then the rest is adding them all. */
  lemma SetHandlersStep<H>(hs: map<string, H>, hs1: map<string, H>, ms: seq<string>, ms1: seq<string>, h: H)
    requires |ms| > 0 && ms[0] !in hs && hs1 == hs[ms[0] := h] && ms1 == ms[1..]
    ensures forall k :: 0 <= k < |ms1| ==> (Taken(hs1, ms1, k) <==> Taken(hs, ms, k + 1))
    ensures forall k :: 0 <= k <= |ms1| ==> hs1 + Assign(ms1[..k], h) == hs + Assign(ms[..k + 1], h)
    ensures !Taken(hs, ms, 0)
    ensures hs1 + Assign(ms1, h) == hs + Assign(ms, h)
    ensures (forall k :: 0 <= k < |ms1| ==> !Taken(hs1, ms1, k)) <==> (forall k :: 0 <= k < |ms| ==> !Taken(hs, ms, k))
  {
    forall k | 0 <= k < |ms1|
      ensures Taken(hs1, ms1, k) <==> Taken(hs, ms, k + 1)
    {
      assert ms[..k + 1] == [ms[0]] + ms1[..k];
    }
    forall k | 0 <= k <= |ms1|
      ensures hs1 + Assign(ms1[..k], h) == hs + Assign(ms[..k + 1], h)
    {
      assert ms[..k + 1] == [ms[0]] + ms1[..k];
    }
    assert ms1[..|ms1|] == ms1 && ms[..|ms1| + 1] == ms;
    if forall k :: 0 <= k < |ms1| ==> !Taken(hs1, ms1, k) {
      forall k | 0 <= k < |ms|
        ensures !Taken(hs, ms, k)
      {
        if k > 0 {
          assert !Taken(hs1, ms1, k - 1);
        }
      }
    }
  }

  /** A failed registration names the first taken method and keeps the ones before it. */
  lemma {:induction false} SetHandlersError<H>(hs: map<string, H>, ms: seq<string>, h: H) returns (k: nat)
    requires SetHandlers(hs, ms, h).1.Some?
    ensures k < |ms| && Taken(hs, ms, k)
    ensures forall j :: 0 <= j < k ==> !Taken(hs, ms, j)
    ensures SetHandlers(hs, ms, h).1 == Some("Duplicate handler for method " + ms[k])
    ensures SetHandlers(hs, ms, h).0 == hs + Assign(ms[..k], h)
    decreases |ms|
  {
    if ms[0] in hs {
      k := 0;
      assert ms[..0] == [];
      assert Assign([], h) == map[];
      assert hs + map[] == hs;
    } else {
      var hs1 := hs[ms[0] := h];
      var ms1 := ms[1..];
      SetHandlersStep(hs, hs1, ms, ms1, h);
      assert SetHandlers(hs, ms, h) == SetHandlers(hs1, ms1, h);
      var k1 := SetHandlersError(hs1, ms1, h);
      k := k1 + 1;
      assert ms1[k1] == ms[k];
      assert Taken(hs, ms, k);
      forall j | 0 <= j < k
        ensures !Taken(hs, ms, j)
      {
        if j > 0 {
          assert !Taken(hs1, ms1, j - 1);
        }
      }
    }
  }

  /* ---------------- inserting a rule ---------------- */

  /** One step from a node to a child: by static text, or into the parameter or wildcard child. */
  datatype Edge = ByStatic(text: string) | ByParam | ByWild

  /** The trie path a token sequence follows. */
  function PathOf(ts: seq<Token>): (p: seq<Edge>)
    ensures |p| == |ts|
    ensures forall k :: 0 <= k < |ts| ==>
      p[k] == (match ts[k] case Static(v) => ByStatic(v) case Param(_, _) => ByParam case Wildcard(_) => ByWild)
  {
    if |ts| == 0 then []
    else
      [match ts[0] case Static(v) => ByStatic(v) case Param(_, _) => ByParam case Wildcard(_) => ByWild]
      + PathOf(ts[1..])
  }

  /** The node at the end of a path, if the trie has one there. */
  function At<H>(n: Node<H>, p: seq<Edge>): Option<Node<H>>
    decreases |p|
  {
    if |p| == 0 then Some(n)
    else match p[0]
      case ByStatic(v) => if v in n.statics then At(n.statics[v], p[1..]) else None
      case ByParam => if n.param.Some? then At(n.param.value.node, p[1..]) else None
      case ByWild => if n.wild.Some? then At(n.wild.value.node, p[1..]) else None
  }

  /** The handlers registered at the end of a path (none where the trie has no node). */
  function HandlersAt<H>(n: Node<H>, p: seq<Edge>): map<string, H>
  {
    match At(n, p)
    case None => map[]
    case Some(m) => m.handlers
  }

  lemma {:induction false} EmptyHasNoHandlers<H>(p: seq<Edge>)
    ensures HandlersAt(Empty<H>(), p) == map[]
  {
    if |p| > 0 {
      assert At(Empty<H>(), p).None?;
    }
  }

  /** No wildcard before the last of the tokens from `i` on. */
  predicate WildcardsLast(ts: seq<Token>, i: nat)
  {
    forall k :: i <= k < |ts| - 1 ==> !ts[k].Wildcard?
  }

  /** The trie walk of `addRule`: follow (creating as needed) the child for each token, then
      register the handler for every method at the node reached. An existing parameter or
      wildcard child is reused as it is, whatever the token's name and validator. A wildcard
      that is not the last token throws after its child was created. The result is the
      updated trie and the message thrown, if any; what was created before a throw stays. */
  function Insert<H>(n: Node<H>, ts: seq<Token>, i: nat, ms: seq<string>, h: H): (r: (Node<H>, Option<string>))
    requires i <= |ts|
    ensures n.param.Some? ==>
      r.0.param.Some? && r.0.param.value.name == n.param.value.name
      && r.0.param.value.validate == n.param.value.validate
    ensures n.wild.Some? ==> r.0.wild.Some? && r.0.wild.value.name == n.wild.value.name
    ensures n.param.None? && i < |ts| && ts[i].Param? ==>
      r.0.param.Some? && r.0.param.value.name == ts[i].name && r.0.param.value.validate == ts[i].validate
    ensures n.wild.None? && i < |ts| && ts[i].Wildcard? ==>
      r.0.wild.Some? && r.0.wild.value.name == ts[i].name
    decreases |ts| - i
  {
    if i == |ts| then
      var s := SetHandlers(n.handlers, ms, h);
      (n.(handlers := s.0), s.1)
    else match ts[i]
      case Static(v) =>
        var child := if v in n.statics then n.statics[v] else Empty();
        var c := Insert(child, ts, i + 1, ms, h);
        (n.(statics := n.statics[v := c.0]), c.1)
      case Param(name, validate) =>
        var e := if n.param.Some? then n.param.value else ParamEdge(name, validate, Empty());
        var c := Insert(e.node, ts, i + 1, ms, h);
        (n.(param := Some(e.(node := c.0))), c.1)
      case Wildcard(name) =>
        var e := if n.wild.Some? then n.wild.value else WildEdge(name, Empty());
        if i != |ts| - 1 then (n.(wild := Some(e)), Some("Wildcard must be the last segment"))
        else
          var c := Insert(e.node, ts, i + 1, ms, h);
          (n.(wild := Some(e.(node := c.0))), c.1)
  }

  function EdgeOf(t: Token): Edge
  {
    match t
    case Static(v) => ByStatic(v)
    case Param(_, _) => ByParam
    case Wildcard(_) => ByWild
  }

  lemma PathOfStep(ts: seq<Token>, i: nat)
    requires i < |ts|
    ensures PathOf(ts[i..]) == [EdgeOf(ts[i])] + PathOf(ts[i + 1..])
  {
    assert ts[i..][1..] == ts[i + 1..];
  }

  /** The child `Insert` descends into for token `t` (an empty node if there is none yet). */
  function ChildFor<H>(n: Node<H>, t: Token): Node<H>
  {
    match t
    case Static(v) => if v in n.statics then n.statics[v] else Empty()
    case Param(_, _) => if n.param.Some? then n.param.value.node else Empty()
    case Wildcard(_) => if n.wild.Some? then n.wild.value.node else Empty()
  }

  /** Below a token, the handlers along a path are those of the child the token leads to. */
  lemma HandlersBelow<H>(n: Node<H>, t: Token, q: seq<Edge>)
    ensures HandlersAt(n, [EdgeOf(t)] + q) == HandlersAt(ChildFor(n, t), q)
  {
    var p := [EdgeOf(t)] + q;
    assert p[1..] == q;
    match t
    case Static(v) =>
      if v !in n.statics { EmptyHasNoHandlers<H>(q); }
    case Param(_, _) =>
      if n.param.None? { EmptyHasNoHandlers<H>(q); }
    case Wildcard(_) =>
      if n.wild.None? { EmptyHasNoHandlers<H>(q); }
  }

  /** Replacing the child for token `t` by `c` changes the trie only below that child. */
  lemma ReplaceChild<H>(n: Node<H>, t: Token, c: Node<H>, m: Node<H>, p: seq<Edge>)
    requires |p| > 0
    requires m == (match t
      case Static(v) => n.(statics := n.statics[v := c])
      case Param(name, validate) =>
        n.(param := Some((if n.param.Some? then n.param.value else ParamEdge(name, validate, Empty())).(node := c)))
      case Wildcard(name) =>
        n.(wild := Some((if n.wild.Some? then n.wild.value else WildEdge(name, Empty())).(node := c))))
    ensures p[0] == EdgeOf(t) ==> HandlersAt(m, p) == HandlersAt(c, p[1..])
    ensures p[0] != EdgeOf(t) ==> HandlersAt(m, p) == HandlersAt(n, p)
  {
  }

  /** Inserting succeeds exactly when no wildcard comes early and none of the methods is taken
      at the node the tokens lead to; an early wildcard is the error reported. */
  lemma {:induction false} InsertOk<H>(n: Node<H>, ts: seq<Token>, i: nat, ms: seq<string>, h: H)
    requires i <= |ts|
    ensures var r := Insert(n, ts, i, ms, h);
      r.1.None? <==> WildcardsLast(ts, i) && SetHandlers(HandlersAt(n, PathOf(ts[i..])), ms, h).1.None?
    ensures var r := Insert(n, ts, i, ms, h);
      !WildcardsLast(ts, i) ==> r.1 == Some("Wildcard must be the last segment")
    decreases |ts| - i
  {
    if i == |ts| {
      assert ts[i..] == [];
    } else {
      PathOfStep(ts, i);
      HandlersBelow(n, ts[i], PathOf(ts[i + 1..]));
      if ts[i].Wildcard? && i != |ts| - 1 {
        assert !WildcardsLast(ts, i);
      } else {
        InsertOk(ChildFor(n, ts[i]), ts, i + 1, ms, h);
        assert WildcardsLast(ts, i) <==> WildcardsLast(ts, i + 1);
      }
    }
  }

  /** A successful insert adds the methods at the node the tokens lead to and leaves the handlers
      of every other node as they were. */
  lemma {:induction false} InsertHandlers<H>(n: Node<H>, ts: seq<Token>, i: nat, ms: seq<string>, h: H, p: seq<Edge>)
    requires i <= |ts|
    requires Insert(n, ts, i, ms, h).1.None?
    ensures HandlersAt(Insert(n, ts, i, ms, h).0, p) ==
      (if p == PathOf(ts[i..]) then HandlersAt(n, p) + Assign(ms, h) else HandlersAt(n, p))
    decreases |ts| - i
  {
    var r := Insert(n, ts, i, ms, h);
    if i == |ts| {
      assert ts[i..] == [];
      if |p| > 0 {
        assert At(r.0, p) == At(n, p);
      }
    } else {
      PathOfStep(ts, i);
      var child := ChildFor(n, ts[i]);
      var c := Insert(child, ts, i + 1, ms, h);
      assert r.1 == c.1;
      if |p| == 0 {
        assert p != PathOf(ts[i..]);
      } else {
        ReplaceChild(n, ts[i], c.0, r.0, p);
        if p[0] == EdgeOf(ts[i]) {
          InsertHandlers(child, ts, i + 1, ms, h, p[1..]);
          assert p == [p[0]] + p[1..];
          HandlersBelow(n, ts[i], p[1..]);
          assert p == PathOf(ts[i..]) <==> p[1..] == PathOf(ts[i + 1..]);
        }
      }
    }
  }

  /* ---------------- addRule ---------------- */

  /** A PATTERN rule with its pipes already composed into `exec`. */
  datatype Rule<H> = Rule(
    pattern: string,
    methods: Option<seq<string>>,
    constraints: map<string, ConstraintSpec>,
    exec: H)

  /** `rule.methods?.length ? rule.methods : [all seven]`. */
  function RuleMethods<H>(rule: Rule<H>): (ms: seq<string>)
    ensures rule.methods.Some? && rule.methods.value != [] ==> ms == rule.methods.value
    ensures rule.methods.None? || rule.methods.value == [] ==> ms == AllMethods
  {
    if rule.methods.Some? && |rule.methods.value| > 0 then rule.methods.value else AllMethods
  }

  /** `addRule(rule)`: parse the pattern (a parse error, or an inline regex the engine does not
      compile, leaves the trie untouched and is thrown), then insert. */
  function AddRule<H>(root: Node<H>, rule: Rule<H>, compile: RegexCompiler): (r: (Node<H>, Option<string>))
    ensures ParsePattern(rule.pattern, rule.constraints, compile).Err? ==>
      r == (root, Some(ParsePattern(rule.pattern, rule.constraints, compile).error))
  {
    match ParsePattern(rule.pattern, rule.constraints, compile)
    case Err(e) => (root, Some(e))
    case Ok(ts) => Insert(root, ts, 0, RuleMethods(rule), rule.exec)
  }

  /** The trie path of a pattern that parses. */
  function RulePath<H>(rule: Rule<H>, compile: RegexCompiler): seq<Edge>
    requires ParsePattern(rule.pattern, rule.constraints, compile).Ok?
  {
    PathOf(ParsePattern(rule.pattern, rule.constraints, compile).value)
  }

  /** A parsed rule fails to insert only on a duplicate method; a successful `addRule` adds
      the rule's methods at the rule's node and leaves the handlers of every other node as they
      were. */
  lemma AddRuleSpec<H>(root: Node<H>, rule: Rule<H>, p: seq<Edge>, compile: RegexCompiler)
    requires ParsePattern(rule.pattern, rule.constraints, compile).Ok?
    ensures AddRule(root, rule, compile).1.None? <==> Free(HandlersAt(root, RulePath(rule, compile)), RuleMethods(rule))
    ensures AddRule(root, rule, compile).1.None? ==>
        HandlersAt(AddRule(root, rule, compile).0, p) ==
          (if p == RulePath(rule, compile) then HandlersAt(root, p) + Assign(RuleMethods(rule), rule.exec)
           else HandlersAt(root, p))
  {
    var ts := ParsePattern(rule.pattern, rule.constraints, compile).value;
    WildcardOnlyLast(rule.pattern, rule.constraints, compile);
    assert WildcardsLast(ts, 0);
    assert ts[0..] == ts;
    InsertOk(root, ts, 0, RuleMethods(rule), rule.exec);
    if AddRule(root, rule, compile).1.None? {
      InsertHandlers(root, ts, 0, RuleMethods(rule), rule.exec, p);
    }
  }

  /** After a successful `addRule`, every method of the rule finds the rule's handler at the
      rule's node (and HEAD falls back to it when only GET was given). */
  lemma AddRuleFinds<H>(root: Node<H>, rule: Rule<H>, m: string, compile: RegexCompiler)
    requires ParsePattern(rule.pattern, rule.constraints, compile).Ok?
    requires AddRule(root, rule, compile).1.None?
    requires m in RuleMethods(rule) || (m == "HEAD" && "GET" in RuleMethods(rule)
      && "HEAD" !in HandlersAt(root, RulePath(rule, compile)) && "HEAD" !in RuleMethods(rule))
    ensures At(AddRule(root, rule, compile).0, RulePath(rule, compile)).Some?
    ensures GetHandler(At(AddRule(root, rule, compile).0, RulePath(rule, compile)).value, m) == Some(rule.exec)
  {
    var r := AddRule(root, rule, compile);
    AddRuleSpec(root, rule, RulePath(rule, compile), compile);
    var hs := HandlersAt(r.0, RulePath(rule, compile));
    assert hs == HandlersAt(root, RulePath(rule, compile)) + Assign(RuleMethods(rule), rule.exec);
    assert "GET" in hs || m in hs;
  }

  /** None of `ms` is taken in `hs`, nor repeated. */
  predicate Free<H>(hs: map<string, H>, ms: seq<string>)
  {
    forall k :: 0 <= k < |ms| ==> !Taken(hs, ms, k)
  }

  lemma FreeShrink<H>(big: map<string, H>, small: map<string, H>, ms: seq<string>)
    requires Free(big, ms) && small.Keys <= big.Keys
    ensures Free(small, ms)
  {
    forall k | 0 <= k < |ms|
      ensures !Taken(small, ms, k)
    {
      assert !Taken(big, ms, k);
    }
  }

  lemma FreeGrow<H>(hs: map<string, H>, extra: map<string, H>, ms: seq<string>)
    requires Free(hs, ms) && forall m :: m in ms ==> m !in extra
    ensures Free(hs + extra, ms)
  {
    forall k | 0 <= k < |ms|
      ensures !Taken(hs + extra, ms, k)
    {
      assert !Taken(hs, ms, k);
      assert ms[k] in ms;
    }
  }

  lemma UnionCommute<H>(base: map<string, H>, x: map<string, H>, y: map<string, H>)
    requires x.Keys !! y.Keys
    ensures base + x + y == base + y + x
  {
  }

  /** Whenever two rules can be added one after the other, they can also be added in the other
      order. */
  lemma AddRulesCommuteOk<H>(root: Node<H>, a: Rule<H>, b: Rule<H>, compile: RegexCompiler)
    requires ParsePattern(a.pattern, a.constraints, compile).Ok? && ParsePattern(b.pattern, b.constraints, compile).Ok?
    requires AddRule(root, a, compile).1.None? && AddRule(AddRule(root, a, compile).0, b, compile).1.None?
    ensures AddRule(root, b, compile).1.None? && AddRule(AddRule(root, b, compile).0, a, compile).1.None?
    ensures RulePath(a, compile) == RulePath(b, compile) ==>
      Assign(RuleMethods(a), a.exec).Keys !! Assign(RuleMethods(b), b.exec).Keys
  {
    var ab := AddRule(root, a, compile).0;
    var ba := AddRule(root, b, compile).0;
    var ma, mb := RuleMethods(a), RuleMethods(b);
    var pa, pb := RulePath(a, compile), RulePath(b, compile);
    var ha, hb := Assign(ma, a.exec), Assign(mb, b.exec);
    AddRuleSpec(root, a, pb, compile);
    AddRuleSpec(ab, b, pb, compile);
    var hAB := HandlersAt(ab, pb);
    assert Free(hAB, mb);
    if pa == pb {
      forall m | m in mb
        ensures m !in ha
      {
        var j :| 0 <= j < |mb| && mb[j] == m;
        assert !Taken(hAB, mb, j);
      }
    }
    FreeShrink(hAB, HandlersAt(root, pb), mb);
    AddRuleSpec(root, b, pa, compile);
    AddRuleSpec(root, a, pa, compile);
    if pa == pb {
      FreeGrow(HandlersAt(root, pa), hb, ma);
    }
    AddRuleSpec(ba, a, pa, compile);
  }

  /** Registration order does not matter for the handlers: adding two rules in either order
      leaves the same handlers at every node. */
  lemma AddRulesCommute<H>(root: Node<H>, a: Rule<H>, b: Rule<H>, p: seq<Edge>, compile: RegexCompiler)
    requires ParsePattern(a.pattern, a.constraints, compile).Ok? && ParsePattern(b.pattern, b.constraints, compile).Ok?
    requires AddRule(root, a, compile).1.None? && AddRule(AddRule(root, a, compile).0, b, compile).1.None?
    ensures HandlersAt(AddRule(AddRule(root, a, compile).0, b, compile).0, p) == HandlersAt(AddRule(AddRule(root, b, compile).0, a, compile).0, p)
  {
    AddRulesCommuteOk(root, a, b, compile);
    var ab := AddRule(root, a, compile).0;
    var ba := AddRule(root, b, compile).0;
    AddRuleSpec(root, a, p, compile);
    AddRuleSpec(ab, b, p, compile);
    AddRuleSpec(root, b, p, compile);
    AddRuleSpec(ba, a, p, compile);
    if p == RulePath(a, compile) && p == RulePath(b, compile) {
      UnionCommute(HandlersAt(root, p), Assign(RuleMethods(a), a.exec), Assign(RuleMethods(b), b.exec));
    }
  }

  /** `/` + `:name` parses to the one parameter token, with the validator the parameter gets. */
  lemma ParseOneParam(name: string, constraints: map<string, ConstraintSpec>, compile: RegexCompiler)
    requires IsIdent(name)
    ensures ParsePattern("/:" + name, constraints, compile)
      == Ok([Param(name, ParamValidator(ParamSyntax(name, None), constraints, compile).value)])
  {
    var seg := ":" + name;
    assert "/:" + name == "/" + seg;
    assert !EndsWith("/" + seg, "/") by {
      assert ("/" + seg)[|"/" + seg| - 1..] == [name[|name| - 1]];
      assert IsIdentChar(name[|name| - 1]);
    }
    assert NormalizePath("/" + seg) == "/" + seg;
    assert ("/" + seg)[1..] == seg;
    assert '/' !in seg by {
      forall k | 0 <= k < |seg|
        ensures seg[k] != '/'
      {
        if k > 0 {
          assert seg[k] == name[k - 1] && IsIdentChar(name[k - 1]);
        }
      }
    }
    SplitNoSep(seg, '/');
    ParamSegmentRoundTrip(ParamSyntax(name, None));
    assert RenderParam(ParamSyntax(name, None)) == seg;
    assert StartsWith(seg, ":");
    var parts := Segments("/" + seg);
    assert parts == [seg];
    var v := ParamValidator(ParamSyntax(name, None), constraints, compile);
    assert ParseSegment(seg, true, constraints, compile) == Ok(Param(name, v.value));
    assert |parts| == 1 && parts[0] == seg;
    assert ParseSegments(parts, 1, constraints, compile) == Ok([]);
    assert [Param(name, v.value)] + [] == [Param(name, v.value)];
    assert ParseSegments(parts, 0, constraints, compile) == Ok([Param(name, v.value)]);
  }

  /** The two rules of `OrderChangesParamEdge` parse to one parameter token each. */
  lemma OrderExampleParses(compile: RegexCompiler)
    ensures ParsePattern("/:id", map["id" := Named("int")], compile) == Ok([Param("id", Some(BuiltinV(IntV)))])
    ensures ParsePattern("/:name", map[], compile) == Ok([Param("name", None)])
  {
    assert IsIdent("id") && IsIdent("name");
    assert "/:id" == "/:" + "id" && "/:name" == "/:" + "name";
    ParseOneParam("id", map["id" := Named("int")], compile);
    ParseOneParam("name", map[], compile);
  }

  /** A rule whose pattern is one root parameter hangs off the root's parameter child: the
      rule's own when the root had none, the existing one otherwise. */
  lemma RootParamEdge<H>(root: Node<H>, rule: Rule<H>, t: Token, compile: RegexCompiler)
    requires t.Param?
    requires ParsePattern(rule.pattern, rule.constraints, compile) == Ok([t])
    ensures var r := AddRule(root, rule, compile).0;
      r.param.Some?
      && (root.param.None? ==> r.param.value.name == t.name && r.param.value.validate == t.validate)
      && (root.param.Some? ==>
            r.param.value.name == root.param.value.name && r.param.value.validate == root.param.value.validate)
  {
    assert AddRule(root, rule, compile) == Insert(root, [t], 0, RuleMethods(rule), rule.exec);
  }

  /** Two rules whose patterns are one root parameter each, with disjoint methods, can be added
      one after the other to an empty trie. */
  lemma RootParamsAdd<H>(a: Rule<H>, b: Rule<H>, compile: RegexCompiler)
    requires ParsePattern(a.pattern, a.constraints, compile).Ok?
    requires ParsePattern(b.pattern, b.constraints, compile).Ok?
    requires RulePath(a, compile) == [ByParam] && RulePath(b, compile) == [ByParam]
    requires forall m :: m in RuleMethods(a) ==> m !in RuleMethods(b)
    requires Free<H>(map[], RuleMethods(a)) && Free<H>(map[], RuleMethods(b))
    ensures AddRule(Empty<H>(), a, compile).1.None?
    ensures AddRule(AddRule(Empty<H>(), a, compile).0, b, compile).1.None?
  {
    var p := [ByParam];
    var e := Empty<H>();
    EmptyHasNoHandlers<H>(p);
    AddRuleSpec(e, a, p, compile);
    var ea := AddRule(e, a, compile).0;
    assert HandlersAt(ea, p) == map[] + Assign(RuleMethods(a), a.exec);
    FreeGrow<H>(map[], Assign(RuleMethods(a), a.exec), RuleMethods(b));
    AddRuleSpec(ea, b, p, compile);
  }

  /** Registration order does matter for matching: the parameter child keeps the name and
      validator of the first rule that created it. Adding `/:id` (with `id` constrained to
      `int`) and `/:name` (with no constraint) succeeds in both orders, yet the root's
      parameter child validates with `int` and binds `id` in one order and accepts any
      segment as `name` in the other. */
  lemma OrderChangesParamEdge(compile: RegexCompiler)
    ensures var a := Rule("/:id", Some(["GET"]), map["id" := Named("int")], 1);
      var b := Rule("/:name", Some(["POST"]), map[], 2);
      var ab := AddRule(AddRule(Empty<int>(), a, compile).0, b, compile);
      var ba := AddRule(AddRule(Empty<int>(), b, compile).0, a, compile);
      && AddRule(Empty<int>(), a, compile).1.None? && ab.1.None?
      && AddRule(Empty<int>(), b, compile).1.None? && ba.1.None?
      && ab.0.param.Some? && ab.0.param.value.name == "id"
      && ab.0.param.value.validate == Some(BuiltinV(IntV))
      && ba.0.param.Some? && ba.0.param.value.name == "name"
      && ba.0.param.value.validate.None?
  {
    var a := Rule("/:id", Some(["GET"]), map["id" := Named("int")], 1);
    var b := Rule("/:name", Some(["POST"]), map[], 2);
    OrderExampleParses(compile);
    var ta, tb := Param("id", Some(BuiltinV(IntV))), Param("name", None);
    assert RulePath(a, compile) == [ByParam] && RulePath(b, compile) == [ByParam];
    assert RuleMethods(a) == ["GET"] && RuleMethods(b) == ["POST"];
    assert Free<int>(map[], ["GET"]) && Free<int>(map[], ["POST"]);
    RootParamsAdd(a, b, compile);
    RootParamsAdd(b, a, compile);
    var e := Empty<int>();
    RootParamEdge(e, a, ta, compile);
    RootParamEdge(AddRule(e, a, compile).0, b, tb, compile);
    RootParamEdge(e, b, tb, compile);
    RootParamEdge(AddRule(e, b, compile).0, a, ta, compile);
  }
}
