/** Compiling a PATTERN route pattern (static text, `:name(regex)` parameters, a final `*name` wildcard) into tokens. */
module PatternParse {
  import opened Options
  import opened Strings
  import opened Paths

  /** The four named validators a constraint may refer to. */
  datatype Builtin = IntV | UuidV | HexV | AlphaV

  /** A regular expression: one built from an inline `(regex)` (by its source text), or one the
      user passed in `constraints` (opaque, identified by a number). */
  datatype Regex = RegexSource(source: string) | UserRegex(id: nat)

  /** A segment validator: a built-in, `re.test(v)` for a regex, or a user predicate. */
  datatype Validator = BuiltinV(kind: Builtin) | RegexV(re: Regex) | PredicateV(id: nat)

  /** A `constraints[name]` entry: a built-in's name, a RegExp, or a function. */
  datatype ConstraintSpec = Named(name: string) | RegExpSpec(re: nat) | FuncSpec(fn: nat)

  datatype Token =
    | Static(val: string)
    | Param(name: string, validate: Option<Validator>)
    | Wildcard(name: string)

  /** `toValidator(spec)`: a falsy spec (absent, or the empty name) gives no validator, and so
      does a name that is not one of the built-ins. */
  function ToValidator(spec: Option<ConstraintSpec>): (v: Option<Validator>)
    ensures spec.None? ==> v.None?
    ensures spec.Some? && spec.value.FuncSpec? ==> v == Some(PredicateV(spec.value.fn))
    ensures spec.Some? && spec.value.RegExpSpec? ==> v == Some(RegexV(UserRegex(spec.value.re)))
    ensures v.Some? && v.value.BuiltinV? ==>
      spec == Some(Named(BuiltinName(v.value.kind)))
  {
    match spec
    case None => None
    case Some(FuncSpec(fn)) => Some(PredicateV(fn))
    case Some(RegExpSpec(re)) => Some(RegexV(UserRegex(re)))
    case Some(Named(n)) =>
      if n == "int" then Some(BuiltinV(IntV))
      else if n == "uuid" then Some(BuiltinV(UuidV))
      else if n == "hex" then Some(BuiltinV(HexV))
      else if n == "alpha" then Some(BuiltinV(AlphaV))
      else None
  }

  function BuiltinName(b: Builtin): string
  {
    match b
    case IntV => "int"
    case UuidV => "uuid"
    case HexV => "hex"
    case AlphaV => "alpha"
  }

  /* ---------------- `:name(regex)` segments ---------------- */

  predicate IsIdentStart(c: char)
  {
    ('A' <= c <= 'Z') || ('a' <= c <= 'z') || c == '_'
  }

  predicate IsIdentChar(c: char)
  {
    IsIdentStart(c) || IsDigit(c)
  }

  /** `[A-Za-z_][A-Za-z0-9_]*`. */
  predicate IsIdent(s: string)
  {
    |s| > 0 && IsIdentStart(s[0]) && forall i :: 0 <= i < |s| ==> IsIdentChar(s[i])
  }

  /** Characters a JavaScript regex `.` does not match. */
  predicate IsLineTerminator(c: char)
  {
    c == '\n' || c == '\r' || c == '\U{2028}' || c == '\U{2029}'
  }

  /** `.+`: a non-empty text without line terminators. */
  predicate IsDotPlus(s: string)
  {
    |s| > 0 && forall i :: 0 <= i < |s| ==> !IsLineTerminator(s[i])
  }

  /** The longest prefix of `s` made of identifier characters. */
  function IdentPrefix(s: string): (p: string)
    ensures |p| <= |s| && p == s[..|p|]
    ensures forall i :: 0 <= i < |p| ==> IsIdentChar(p[i])
    ensures |p| < |s| ==> !IsIdentChar(s[|p|])
    decreases |s|
  {
    if |s| > 0 && IsIdentChar(s[0]) then [s[0]] + IdentPrefix(s[1..]) else ""
  }

  /** A parameter segment's name and optional inline regex source. */
  datatype ParamSyntax = ParamSyntax(name: string, inline: Option<string>)

  /** The text of a parameter segment with the given parts. */
  function RenderParam(ps: ParamSyntax): string
  {
    ":" + ps.name + (if ps.inline.Some? then "(" + ps.inline.value + ")" else "")
  }

  /** Matching a `:`-segment against `^:([A-Za-z_][A-Za-z0-9_]*)(?:\((.+)\))?$`. */
  function ParseParamSegment(seg: string): (r: Option<ParamSyntax>)
    requires StartsWith(seg, ":")
    ensures r.Some? ==> RenderParam(r.value) == seg
    ensures r.Some? ==> IsIdent(r.value.name)
    ensures r.Some? && r.value.inline.Some? ==> IsDotPlus(r.value.inline.value)
  {
    var body := seg[1..];
    var name := IdentPrefix(body);
    var tail := body[|name|..];
    if |name| == 0 || !IsIdentStart(name[0]) then None
    else if tail == "" then
      assert seg == ":" + name;
      Some(ParamSyntax(name, None))
    else if |tail| >= 3 && tail[0] == '(' && tail[|tail| - 1] == ')'
            && IsDotPlus(tail[1..|tail| - 1]) then
      assert tail == "(" + tail[1..|tail| - 1] + ")";
      assert seg == ":" + name + tail;
      Some(ParamSyntax(name, Some(tail[1..|tail| - 1])))
    else None
  }

  lemma {:induction false} IdentPrefixOfConcat(name: string, rest: string)
    requires forall i :: 0 <= i < |name| ==> IsIdentChar(name[i])
    requires |rest| == 0 || !IsIdentChar(rest[0])
    ensures IdentPrefix(name + rest) == name
    decreases |name|
  {
    if |name| > 0 {
      assert (name + rest)[1..] == name[1..] + rest;
      IdentPrefixOfConcat(name[1..], rest);
      assert [name[0]] + name[1..] == name;
    } else {
      assert name + rest == rest;
    }
  }

  /** Every well-formed parameter segment is recognised with exactly its name and regex:
      with `ParseParamSegment`'s own contract, the segment grammar is matched precisely. */
  lemma ParamSegmentRoundTrip(ps: ParamSyntax)
    requires IsIdent(ps.name)
    requires ps.inline.Some? ==> IsDotPlus(ps.inline.value)
    ensures ParseParamSegment(RenderParam(ps)) == Some(ps)
  {
    var seg := RenderParam(ps);
    var rest := if ps.inline.Some? then "(" + ps.inline.value + ")" else "";
    assert seg == ":" + (ps.name + rest);
    assert seg[1..] == ps.name + rest;
    IdentPrefixOfConcat(ps.name, rest);
    assert seg[1..][|ps.name|..] == rest;
    if ps.inline.Some? {
      assert rest[1..|rest| - 1] == ps.inline.value;
    }
  }

  /* ---------------- whole patterns ---------------- */

  /** What `new RegExp(source)` does with a source text: `None` when it compiles, or the
      message of the `SyntaxError` it throws. The regex grammar is the engine's, so the model
      takes it as a parameter. */
  type RegexCompiler = string -> Option<string>

  /** The source an inline `(regex)` is compiled from: anchored as `^(?:regex)$`. */
  function Anchored(inline: string): string
  {
    "^(?:" + inline + ")$"
  }

  /** The inline regex of a parameter, if it has one, compiles. */
  predicate InlineCompiles(ps: ParamSyntax, compile: RegexCompiler)
  {
    ps.inline.Some? ==> compile(Anchored(ps.inline.value)).None?
  }

  /** The validator of a parameter: an inline regex (anchored, and thrown out with its
      `SyntaxError` when it does not compile) wins over a `constraints[name]` entry, which wins
      over none. */
  function ParamValidator(ps: ParamSyntax, constraints: map<string, ConstraintSpec>, compile: RegexCompiler)
    : (v: Result<Option<Validator>, string>)
    ensures v.Err? <==> !InlineCompiles(ps, compile)
    ensures v.Err? ==> v.error == compile(Anchored(ps.inline.value)).value
    ensures ps.inline.Some? && v.Ok? ==> v.value == Some(RegexV(RegexSource(Anchored(ps.inline.value))))
    ensures ps.inline.None? && ps.name in constraints ==> v == Ok(ToValidator(Some(constraints[ps.name])))
    ensures ps.inline.None? && ps.name !in constraints ==> v == Ok(None)
  {
    if ps.inline.Some? then
      match compile(Anchored(ps.inline.value))
      case Some(e) => Err(e)
      case None => Ok(Some(RegexV(RegexSource(Anchored(ps.inline.value)))))
    else if ps.name in constraints then Ok(ToValidator(Some(constraints[ps.name])))
    else Ok(None)
  }

  /** One segment: `:`-segments are parameters (or an error), `*`-segments wildcards named by
      the rest of the segment (`wild` for a bare `*`) that must come last, anything else is
      static text. */
  function ParseSegment(seg: string, isLast: bool, constraints: map<string, ConstraintSpec>, compile: RegexCompiler)
    : Result<Token, string>
  {
    if StartsWith(seg, ":") then
      match ParseParamSegment(seg)
      case None => Err("Invalid param segment: " + seg)
      case Some(ps) =>
        match ParamValidator(ps, constraints, compile)
        case Err(e) => Err(e)
        case Ok(v) => Ok(Param(ps.name, v))
    else if StartsWith(seg, "*") then
      if !isLast then Err("Wildcard must be the last segment")
      else Ok(Wildcard(if seg == "*" then "wild" else seg[1..]))
    else Ok(Static(seg))
  }

  /** The segments of a non-root normalised pattern: the text after its first character,
      split on `/`. */
  function Segments(clean: string): seq<string>
    requires clean != ""
  {
    Split(clean[1..], '/')
  }

  function ParseSegments(parts: seq<string>, i: nat, constraints: map<string, ConstraintSpec>, compile: RegexCompiler)
    : (r: Result<seq<Token>, string>)
    requires i <= |parts|
    ensures r.Ok? ==> |r.value| == |parts| - i
    decreases |parts| - i
  {
    if i == |parts| then Ok([])
    else match ParseSegment(parts[i], i == |parts| - 1, constraints, compile)
      case Err(e) => Err(e)
      case Ok(t) =>
        match ParseSegments(parts, i + 1, constraints, compile)
        case Err(e) => Err(e)
        case Ok(ts) => Ok([t] + ts)
  }

  /** `parsePattern(pattern, constraints)`. */
  function ParsePattern(pattern: string, constraints: map<string, ConstraintSpec>, compile: RegexCompiler)
    : (r: Result<seq<Token>, string>)
    ensures pattern == "" || pattern == "/" ==> r == Ok([])
    ensures r.Ok? && NormalizePath(pattern) != "/" ==>
      |r.value| == |Segments(NormalizePath(pattern))|
  {
    var clean := NormalizePath(pattern);
    if clean == "/" then Ok([]) else ParseSegments(Segments(clean), 0, constraints, compile)
  }

  /** A joined list ends with its last piece. */
  lemma {:induction false} JoinEndsWithLast(segs: seq<string>, sep: string)
    requires |segs| >= 1
    ensures EndsWith(Join(segs, sep), segs[|segs| - 1])
    decreases |segs|
  {
    if |segs| > 1 {
      JoinEndsWithLast(segs[1..], sep);
      var j := Join(segs[1..], sep);
      var last := segs[|segs| - 1];
      assert segs[1..][|segs[1..]| - 1] == last;
      var all := segs[0] + sep + j;
      assert all[|all| - |last|..] == j[|j| - |last|..];
    }
  }

  /** `/` followed by slash-free segments joined by `/`, the last one non-empty, needs no
      normalisation and is parsed segment by segment. */
  lemma ParseJoined(segs: seq<string>, constraints: map<string, ConstraintSpec>, compile: RegexCompiler)
    requires |segs| >= 1 && segs[|segs| - 1] != ""
    requires forall i :: 0 <= i < |segs| ==> '/' !in segs[i]
    ensures ParsePattern("/" + Join(segs, "/"), constraints, compile) == ParseSegments(segs, 0, constraints, compile)
  {
    var j := Join(segs, "/");
    var p := "/" + j;
    var last := segs[|segs| - 1];
    JoinEndsWithLast(segs, "/");
    assert p[|p| - 1] == last[|last| - 1] by {
      assert p[|p| - 1] == j[|j| - 1];
      assert j[|j| - |last|..][|last| - 1] == j[|j| - 1];
    }
    assert last[|last| - 1] in last;
    assert !EndsWith(p, "/");
    assert NormalizePath(p) == p;
    assert p[1..] == j;
    SplitJoin(segs, '/');
  }

  /* ---------------- what parsing promises ---------------- */

  /** A segment that parses on its own, given whether it is the last one: a `:` segment
      follows the parameter grammar and its inline regex compiles, a `*` segment is last. */
  predicate SegmentOk(seg: string, isLast: bool, compile: RegexCompiler)
  {
    (StartsWith(seg, ":") ==>
      ParseParamSegment(seg).Some? && InlineCompiles(ParseParamSegment(seg).value, compile))
    && (!StartsWith(seg, ":") && StartsWith(seg, "*") ==> isLast)
  }

  /** How a token spells its segment. */
  predicate Spells(t: Token, seg: string)
  {
    match t
    case Static(v) => v == seg && !StartsWith(seg, ":") && !StartsWith(seg, "*")
    case Param(name, _) =>
      StartsWith(seg, ":") && ParseParamSegment(seg).Some? && ParseParamSegment(seg).value.name == name
    case Wildcard(name) =>
      !StartsWith(seg, ":") && StartsWith(seg, "*")
      && (seg == "*" ==> name == "wild") && (seg != "*" ==> seg == "*" + name)
  }

  /** Parsing succeeds exactly when every segment is well formed for its position. */
  lemma {:induction false} ParseSegmentsOkIff(parts: seq<string>, i: nat, constraints: map<string, ConstraintSpec>,
                                              compile: RegexCompiler)
    requires i <= |parts|
    ensures ParseSegments(parts, i, constraints, compile).Ok?
      <==> forall j :: i <= j < |parts| ==> SegmentOk(parts[j], j == |parts| - 1, compile)
    decreases |parts| - i
  {
    if i < |parts| {
      ParseSegmentsOkIff(parts, i + 1, constraints, compile);
    }
  }

  /** On success the tokens spell the segments one for one. */
  lemma {:induction false} ParseSegmentsSpell(parts: seq<string>, i: nat, constraints: map<string, ConstraintSpec>,
                                              compile: RegexCompiler)
    requires i <= |parts|
    requires ParseSegments(parts, i, constraints, compile).Ok?
    ensures var ts := ParseSegments(parts, i, constraints, compile).value;
      forall k :: 0 <= k < |ts| ==> Spells(ts[k], parts[i + k])
    decreases |parts| - i
  {
    if i < |parts| {
      ParseSegmentsSpell(parts, i + 1, constraints, compile);
      var ts := ParseSegments(parts, i, constraints, compile).value;
      var rest := ParseSegments(parts, i + 1, constraints, compile).value;
      var t := ParseSegment(parts[i], i == |parts| - 1, constraints, compile);
      assert ts == [t.value] + rest;
      SegmentSpells(parts[i], i == |parts| - 1, constraints, compile);
      forall k | 0 < k < |ts|
        ensures Spells(ts[k], parts[i + k])
      {
        assert ts[k] == rest[k - 1];
      }
    }
  }

  /** A segment that parses is spelled by its token. */
  lemma SegmentSpells(seg: string, isLast: bool, constraints: map<string, ConstraintSpec>, compile: RegexCompiler)
    requires ParseSegment(seg, isLast, constraints, compile).Ok?
    ensures Spells(ParseSegment(seg, isLast, constraints, compile).value, seg)
  {
    if seg == "*" {
      assert StartsWith(seg, "*");
    }
  }

  /** On failure the error is the one of the first malformed segment. */
  lemma {:induction false} ParseSegmentsFirstError(parts: seq<string>, i: nat, constraints: map<string, ConstraintSpec>,
                                                   compile: RegexCompiler)
    requires i <= |parts|
    requires ParseSegments(parts, i, constraints, compile).Err?
    ensures exists j :: (i <= j < |parts| && !SegmentOk(parts[j], j == |parts| - 1, compile)
      && (forall k :: i <= k < j ==> SegmentOk(parts[k], k == |parts| - 1, compile))
      && ParseSegments(parts, i, constraints, compile).error == FirstError(parts[j], j == |parts| - 1, compile))
    decreases |parts| - i
  {
    var seg := parts[i];
    if ParseSegment(seg, i == |parts| - 1, constraints, compile).Err? {
      assert !SegmentOk(seg, i == |parts| - 1, compile);
    } else {
      assert SegmentOk(seg, i == |parts| - 1, compile);
      ParseSegmentsFirstError(parts, i + 1, constraints, compile);
    }
  }

  /** The message thrown for a malformed segment: a `:` segment off the parameter grammar, the
      `SyntaxError` of an inline regex that does not compile, or a wildcard before the end. */
  function FirstError(seg: string, isLast: bool, compile: RegexCompiler): string
    requires !SegmentOk(seg, isLast, compile)
  {
    if StartsWith(seg, ":") then
      if ParseParamSegment(seg).None? then "Invalid param segment: " + seg
      else compile(Anchored(ParseParamSegment(seg).value.inline.value)).value
    else "Wildcard must be the last segment"
  }

  /** A successful parse yields at most one wildcard, in last position. */
  lemma WildcardOnlyLast(pattern: string, constraints: map<string, ConstraintSpec>, compile: RegexCompiler)
    requires ParsePattern(pattern, constraints, compile).Ok?
    ensures var ts := ParsePattern(pattern, constraints, compile).value;
      forall j :: 0 <= j < |ts| && ts[j].Wildcard? ==> j == |ts| - 1
  {
    var clean := NormalizePath(pattern);
    if clean != "/" {
      var parts := Segments(clean);
      ParseSegmentsOkIff(parts, 0, constraints, compile);
      ParseSegmentsSpell(parts, 0, constraints, compile);
      var ts := ParsePattern(pattern, constraints, compile).value;
      forall j | 0 <= j < |ts| && ts[j].Wildcard?
        ensures j == |ts| - 1
      {
        assert Spells(ts[j], parts[j]);
        assert SegmentOk(parts[j], j == |parts| - 1, compile);
      }
    }
  }
}
