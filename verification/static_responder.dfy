/** The STATIC route type of the source version: `match` admits GET and HEAD requests whose
    pathname the index resolves, and the handler it returns answers with a response plan built
    from the file's metadata and the request's conditional and Range headers. Reading the file
    is abstracted: the plan names the file and the byte span to send. */
module StaticResponder {
  import opened Options
  import opened Strings
  import StaticIndex

  /** What `fs.stat` reports that the responder uses: the size in bytes, `Math.trunc(mtimeMs)`
      and the `toUTCString()` text of the modification time. */
  datatype Stat = Stat(size: nat, mtimeMs: nat, modified: string)

  /** The request facts the responder reads: the method and the `If-None-Match` and `Range`
      headers. */
  datatype Request = Request(verb: string, ifNoneMatch: Option<string>, range: Option<string>)

  /** What is streamed after the headers: nothing, the whole file, or the bytes `first..last`
      (both inclusive, as `createReadStream`'s `start` and `end`). */
  datatype Body = NoBody | WholeFile(path: string) | Span(path: string, first: int, last: int)

  /** The response headers the static responders set. */
  datatype Header =
    | NoSniff | AcceptRanges | LastModified | ContentType | ETag | ContentRange | ContentLength
    | Vary | ContentEncoding

  /** The name a header is sent under. */
  function HeaderName(h: Header): string
  {
    match h
    case NoSniff => "X-Content-Type-Options"
    case AcceptRanges => "Accept-Ranges"
    case LastModified => "Last-Modified"
    case ContentType => "Content-Type"
    case ETag => "ETag"
    case ContentRange => "Content-Range"
    case ContentLength => "Content-Length"
    case Vary => "Vary"
    case ContentEncoding => "Content-Encoding"
  }

  /** A response plan. Headers form a map: Node's `setHeader` treats names without regard to
      case, and a later value replaces an earlier one. */
  datatype Plan = Plan(status: int, headers: map<Header, string>, body: Body)

  /** The charset parameter of the textual entries. */
  const Utf8 := "; charset=utf-8"

  /** The extension to MIME type table, as written. */
  const TypeTable: seq<(string, string)> := [
    (".html", "text/html" + Utf8),
    (".json", "application/json" + Utf8),
    (".txt", "text/plain" + Utf8),
    (".js", "application/javascript" + Utf8),
    (".css", "text/css" + Utf8),
    (".png", "image/png"),
    (".jpg", "image/jpeg"),
    (".jpeg", "image/jpeg"),
    (".webp", "image/webp"),
    (".gif", "image/gif"),
    (".svg", "image/svg+xml"),
    (".mp4", "video/mp4"),
    (".webm", "video/webm"),
    (".mp3", "audio/mpeg"),
    (".wav", "audio/wav")
  ]

  /** An object built from key/value entries in order: a later entry for the same key wins. */
  function TableMap(t: seq<(string, string)>): (m: map<string, string>)
    decreases |t|
  {
    if |t| == 0 then map[] else TableMap(t[..|t| - 1])[t[|t| - 1].0 := t[|t| - 1].1]
  }

  /** The last entry for a key, if any. */
  function LastEntry(t: seq<(string, string)>, k: string): (r: Option<nat>)
    ensures r.Some? ==> r.value < |t| && t[r.value].0 == k && forall j :: r.value < j < |t| ==> t[j].0 != k
    ensures r.None? ==> forall j :: 0 <= j < |t| ==> t[j].0 != k
    decreases |t|
  {
    if |t| == 0 then None
    else if t[|t| - 1].0 == k then Some(|t| - 1)
    else
      var r := LastEntry(t[..|t| - 1], k);
      assert forall j :: 0 <= j < |t| - 1 ==> t[..|t| - 1][j] == t[j];
      r
  }

  /** A key is in the object exactly when some entry names it, and its value is the last such
      entry's. */
  lemma {:induction false} TableMapLastWins(t: seq<(string, string)>, k: string)
    ensures k in TableMap(t) <==> LastEntry(t, k).Some?
    ensures k in TableMap(t) ==> TableMap(t)[k] == t[LastEntry(t, k).value].1
    decreases |t|
  {
    if |t| > 0 && t[|t| - 1].0 != k {
      var init := t[..|t| - 1];
      TableMapLastWins(init, k);
      if LastEntry(init, k).Some? {
        assert init[LastEntry(init, k).value] == t[LastEntry(init, k).value];
      }
    }
  }

  const ContentTypes: map<string, string> := TableMap(TypeTable)

  const OctetStream := "application/octet-stream"

  /* ---------------- match ---------------- */

  /** `match(ctx)`: the file to serve, or `None` for "not mine". */
  function Match(idx: StaticIndex.Index, verb: string, pathname: string): (r: Option<string>)
    ensures r.Some? <==> (verb == "GET" || verb == "HEAD") && StaticIndex.ResolveUrl(idx, pathname).Some?
    ensures r.Some? ==> (StaticIndex.UnderBase(idx.base, pathname) && pathname in idx.entries
      && r.value == idx.entries[pathname] && StartsWith(r.value, idx.root))
  {
    if verb != "GET" && verb != "HEAD" then None else StaticIndex.ResolveUrl(idx, pathname)
  }

  /* ---------------- entity tags ---------------- */

  /** The weak entity tag `W/"<size>-<mtime>"`. */
  function WeakETag(size: nat, mtime: nat): string
  {
    "W/\"" + NatToString(size) + "-" + NatToString(mtime) + "\""
  }

  predicate AllDigits(s: string)
  {
    forall i :: 0 <= i < |s| ==> IsDigit(s[i])
  }

  /** Two digit runs each followed by text starting with a non-digit split the same way. */
  lemma DigitsThen(a: string, x: string, c: string, y: string)
    requires AllDigits(a) && AllDigits(c)
    requires |x| > 0 && !IsDigit(x[0]) && |y| > 0 && !IsDigit(y[0])
    requires a + x == c + y
    ensures a == c && x == y
  {
    var s := a + x;
    assert !IsDigit(s[|a|]) && forall i :: 0 <= i < |a| ==> IsDigit(s[i]);
    assert !IsDigit(s[|c|]) && forall i :: 0 <= i < |c| ==> IsDigit(s[i]);
    assert |a| == |c|;
    assert a == s[..|a|] && c == s[..|c|];
    assert x == s[|a|..] && y == s[|c|..];
  }

  /** Weak tags built from digit runs determine the runs. */
  lemma TagRuns(a: string, b: string, c: string, d: string)
    requires AllDigits(a) && AllDigits(b) && AllDigits(c) && AllDigits(d)
    requires "W/\"" + a + "-" + b + "\"" == "W/\"" + c + "-" + d + "\""
    ensures a == c && b == d
  {
    var t1 := "W/\"" + a + "-" + b + "\"";
    var t2 := "W/\"" + c + "-" + d + "\"";
    assert t1[3..] == a + ("-" + (b + "\""));
    assert t2[3..] == c + ("-" + (d + "\""));
    DigitsThen(a, "-" + (b + "\""), c, "-" + (d + "\""));
    assert ("-" + (b + "\""))[1..] == b + "\"";
    assert ("-" + (d + "\""))[1..] == d + "\"";
    DigitsThen(b, "\"", d, "\"");
  }

  /** Files whose size or modification time differ get different weak tags. */
  lemma WeakETagInjective(size1: nat, mtime1: nat, size2: nat, mtime2: nat)
    requires WeakETag(size1, mtime1) == WeakETag(size2, mtime2)
    ensures size1 == size2 && mtime1 == mtime2
  {
    TagRuns(NatToString(size1), NatToString(mtime1), NatToString(size2), NatToString(mtime2));
    NatToStringInjective(size1, size2);
    NatToStringInjective(mtime1, mtime2);
  }

  /* ---------------- Range ---------------- */

  /** How a `Range` header is read: not at all, unsatisfiable, or the span `first..last`. */
  datatype RangeOutcome = NoRange | Unsatisfiable | Satisfiable(first: int, last: int)

  /** A bound: an empty text or one `parseInt` finds no digits in gives the fallback. */
  function Bound(text: string, fallback: int): int
  {
    if text == "" then fallback else ParseInt(text).GetOr(fallback)
  }

  /** `parseInt` of a text without `-` is never negative. */
  lemma ParseIntNoMinus(s: string)
    requires '-' !in s
    ensures ParseInt(s).Some? ==> ParseInt(s).value >= 0
  {
    var t := TrimStart(s);
    if |t| > 0 {
      assert t[0] == s[|s| - |t|];
    }
  }

  /** The two texts around the first `-` after `bytes=`; a missing end is empty, which
      `parseInt` treats like an absent one. */
  function RangeTexts(spec: string): (r: (string, string))
    ensures '-' !in r.0 && '-' !in r.1
  {
    var parts := Split(spec, '-');
    (parts[0], if |parts| > 1 then parts[1] else "")
  }

  /** The `Range` decision for a file of `size` bytes. A header that does not start with
      `bytes=` is ignored; an absent or unreadable start is 0 and an absent or unreadable end is
      `size - 1`; the span is refused when it is reversed or starts at or past the end. */
  function RangeOf(range: Option<string>, size: nat): (o: RangeOutcome)
    ensures o.NoRange? <==> range.None? || !StartsWith(range.value, "bytes=")
    ensures o.Satisfiable? ==> 0 <= o.first <= o.last && o.first < size
  {
    if range.None? || !StartsWith(range.value, "bytes=") then NoRange
    else
      var texts := RangeTexts(range.value[6..]);
      var first := Bound(texts.0, 0);
      var last := Bound(texts.1, size - 1);
      ParseIntNoMinus(texts.0);
      Decide(first, last, size)
  }

  /** A reversed span, or one starting at or past the end, is refused. */
  function Decide(first: int, last: int, size: nat): RangeOutcome
  {
    if first > last || first >= size then Unsatisfiable else Satisfiable(first, last)
  }

  /** A `bytes=` header is decided on the bounds read from the rest. */
  lemma RangeOfSpec(spec: string, size: nat)
    ensures var t := RangeTexts(spec);
      RangeOf(Some("bytes=" + spec), size) == Decide(Bound(t.0, 0), Bound(t.1, size - 1), size)
  {
    BytesPrefix(spec);
  }

  /** Decimal numerals hold no `-`. */
  lemma NoDashInNumeral(n: nat)
    ensures '-' !in NatToString(n)
  {
    var s := NatToString(n);
    forall i | 0 <= i < |s|
      ensures s[i] != '-'
    {
      assert IsDigit(s[i]);
    }
  }

  /** The texts around a single `-` are read back as they were written. */
  lemma RangeTextsOf(x: string, y: string)
    requires '-' !in x && '-' !in y
    ensures RangeTexts(x + "-" + y) == (x, y)
  {
    assert x + "-" + y == x + ['-'] + y;
    SplitFirst(x, '-', y);
    SplitNoSep(y, '-');
  }

  /** A numeral is read back as its number, whatever the fallback. */
  lemma BoundOfNumeral(n: nat, fallback: int)
    ensures Bound(NatToString(n), fallback) == n
  {
    ParseIntNatToString(n);
  }

  /** A header made of `bytes=` and a spec is read with that spec. */
  lemma BytesPrefix(spec: string)
    ensures StartsWith("bytes=" + spec, "bytes=") && ("bytes=" + spec)[6..] == spec
  {
    assert ("bytes=" + spec)[..6] == "bytes=";
  }

  /** A `bytes=a-b` header with `a <= b` asks for exactly `a..b` when `a` lies inside the file
      and is refused otherwise. */
  lemma RangeExplicit(a: nat, b: nat, size: nat)
    requires a <= b
    ensures RangeOf(Some("bytes=" + NatToString(a) + "-" + NatToString(b)), size)
      == if a < size then Satisfiable(a, b) else Unsatisfiable
  {
    var sa, sb := NatToString(a), NatToString(b);
    NoDashInNumeral(a);
    NoDashInNumeral(b);
    var rest := sa + "-" + sb;
    assert "bytes=" + sa + "-" + sb == "bytes=" + rest;
    RangeOfSpec(rest, size);
    RangeTextsOf(sa, sb);
    BoundOfNumeral(a, 0);
    BoundOfNumeral(b, size - 1);
  }

  /** A suffix request `bytes=-n` is read as the span `0..n`, not as the last `n` bytes that
      section 14.1.2 of RFC 9110 gives it. */
  lemma RangeSuffixReadAsPrefix(n: nat, size: nat)
    requires size > 0
    ensures RangeOf(Some("bytes=-" + NatToString(n)), size) == Satisfiable(0, n)
  {
    var sn := NatToString(n);
    NoDashInNumeral(n);
    var rest := "-" + sn;
    assert "bytes=-" + sn == "bytes=" + rest;
    RangeOfSpec(rest, size);
    RangeTextsOf("", sn);
    assert "" + "-" + sn == rest;
    assert Bound("", 0) == 0;
    BoundOfNumeral(n, size - 1);
  }

  /* ---------------- the responder ---------------- */

  /** The plan sets header `name` to `value`. */
  predicate Sets(p: Plan, name: Header, value: string)
  {
    name in p.headers && p.headers[name] == value
  }

  function ContentTypeOf(ext: string): string
  {
    var e := Lower(ext);
    if e in ContentTypes then ContentTypes[e] else OctetStream
  }

  /** `Content-Range` for a span. */
  function SpanRange(first: nat, last: nat, size: nat): string
  {
    "bytes " + NatToString(first) + "-" + NatToString(last) + "/" + NatToString(size)
  }

  /** `Content-Length` of the span `first..last`. */
  function LengthText(first: nat, last: nat): string
    requires first <= last
  {
    NatToString(last - first + 1)
  }

  /** The headers every answer carries. */
  function BaseHeaders(ext: string, st: Stat): (h: map<Header, string>)
    ensures h.Keys == {NoSniff, AcceptRanges, LastModified, ContentType, ETag}
    ensures h[NoSniff] == "nosniff" && h[AcceptRanges] == "bytes"
    ensures h[LastModified] == st.modified && h[ETag] == WeakETag(st.size, st.mtimeMs)
    ensures h[ContentType] == if Lower(ext) in ContentTypes then ContentTypes[Lower(ext)] else OctetStream
  {
    map[
      NoSniff := "nosniff",
      AcceptRanges := "bytes",
      LastModified := st.modified,
      ContentType := ContentTypeOf(ext),
      ETag := WeakETag(st.size, st.mtimeMs)
    ]
  }

  /** What follows the conditional check, with headers `h` already set: the `Range` decision
      for a file of `size` bytes at `path`. An unsatisfiable range gives 416 and no body, a
      satisfiable one 206 with the span's `Content-Range` and `Content-Length`, no usable range
      200 with the whole length; HEAD never gets a body. */
  function Deliver(verb: string, range: Option<string>, path: string, size: nat, h: map<Header, string>): (p: Plan)
    ensures p.status in {200, 206, 416}
    ensures p.headers.Keys == h.Keys + (if p.status == 200 then {ContentLength} else if p.status == 416 then {ContentRange}
                                        else {ContentRange, ContentLength})
    ensures forall k :: k in h && k != ContentRange && k != ContentLength ==> p.headers[k] == h[k]
    ensures p.status == 416 <==> RangeOf(range, size).Unsatisfiable?
    ensures p.status == 416 ==> (p.body == NoBody && Sets(p, ContentRange, "bytes */" + NatToString(size)))
    ensures p.status == 206 <==> RangeOf(range, size).Satisfiable?
    ensures p.status == 206 ==> (
      var o := RangeOf(range, size);
      0 <= o.first <= o.last && o.first < size
      && Sets(p, ContentRange, SpanRange(o.first, o.last, size))
      && Sets(p, ContentLength, LengthText(o.first, o.last))
      && p.body == (if verb == "HEAD" then NoBody else Span(path, o.first, o.last)))
    ensures p.status == 200 ==> (Sets(p, ContentLength, NatToString(size))
      && p.body == (if verb == "HEAD" then NoBody else WholeFile(path)))
  {
    var isHead := verb == "HEAD";
    match RangeOf(range, size)
    case Unsatisfiable => Plan(416, h[ContentRange := "bytes */" + NatToString(size)], NoBody)
    case Satisfiable(first, last) =>
      Plan(206, h[ContentRange := SpanRange(first, last, size)][ContentLength := LengthText(first, last)],
           if isHead then NoBody else Span(path, first, last))
    case NoRange =>
      Plan(200, h[ContentLength := NatToString(size)], if isHead then NoBody else WholeFile(path))
  }

  /** The handler `match` returns, for the file `abs` with extension `ext` (as `extname`
      reports it) and metadata `st`. Every answer carries `nosniff`, `Accept-Ranges: bytes`,
      the modification date, the content type of the lower-cased extension and the weak tag; a
      matching `If-None-Match` gives 304 before any Range is read; an unsatisfiable Range gives
      416 and a satisfiable one 206 with the span; otherwise 200 with the whole file. HEAD gets
      the same status and headers and no body. */
  function Respond(req: Request, abs: string, ext: string, st: Stat): (p: Plan)
    ensures p.status in {200, 206, 304, 416}
    ensures Sets(p, NoSniff, "nosniff") && Sets(p, AcceptRanges, "bytes")
    ensures Sets(p, LastModified, st.modified)
    ensures Lower(ext) in ContentTypes ==> Sets(p, ContentType, ContentTypes[Lower(ext)])
    ensures Lower(ext) !in ContentTypes ==> Sets(p, ContentType, "application/octet-stream")
    ensures Sets(p, ETag, WeakETag(st.size, st.mtimeMs))
    ensures p.status == 304 <==> req.ifNoneMatch == Some(WeakETag(st.size, st.mtimeMs))
    ensures p.status == 304 ==> p.body == NoBody && p.headers == BaseHeaders(ext, st)
    ensures p.status != 304 ==> p == Deliver(req.verb, req.range, abs, st.size, BaseHeaders(ext, st))
  {
    var etag := WeakETag(st.size, st.mtimeMs);
    var h := BaseHeaders(ext, st);
    if req.ifNoneMatch == Some(etag) then Plan(304, h, NoBody)
    else Deliver(req.verb, req.range, abs, st.size, h)
  }

  /** HEAD is answered exactly like GET, less the body. */
  lemma HeadLikeGet(ifNoneMatch: Option<string>, range: Option<string>, abs: string, ext: string, st: Stat)
    ensures Respond(Request("HEAD", ifNoneMatch, range), abs, ext, st)
      == Respond(Request("GET", ifNoneMatch, range), abs, ext, st).(body := NoBody)
  {
  }

  /** A span `a..b` inside a file of `size` bytes is answered with 206, `bytes a-b/size`, a
      length of `b - a + 1` and exactly those bytes, unless the tag matched. */
  lemma {:induction false} ExplicitRangeServed(a: nat, b: nat, abs: string, ext: string, st: Stat, ifNoneMatch: Option<string>)
    requires a <= b && a < st.size
    requires ifNoneMatch != Some(WeakETag(st.size, st.mtimeMs))
    ensures var p := Respond(Request("GET", ifNoneMatch, Some("bytes=" + NatToString(a) + "-" + NatToString(b))), abs, ext, st);
      p.status == 206 && p.body == Span(abs, a, b)
      && Sets(p, ContentRange, "bytes " + NatToString(a) + "-" + NatToString(b) + "/" + NatToString(st.size))
      && Sets(p, ContentLength, NatToString(b - a + 1))
  {
    var range := Some("bytes=" + NatToString(a) + "-" + NatToString(b));
    RangeExplicit(a, b, st.size);
    var p := Respond(Request("GET", ifNoneMatch, range), abs, ext, st);
    assert p.status == 206;
    assert SpanRange(a, b, st.size) == "bytes " + NatToString(a) + "-" + NatToString(b) + "/" + NatToString(st.size);
    assert LengthText(a, b) == NatToString(b - a + 1);
  }

  // A span whose start lies at or past the end of the file is refused with 416 and
  // `bytes */size`, unless the tag matched.
  lemma {:induction false} RangePastEndRefused(a: nat, b: nat, abs: string, ext: string, st: Stat, ifNoneMatch: Option<string>)
    requires a <= b && a >= st.size
    requires ifNoneMatch != Some(WeakETag(st.size, st.mtimeMs))
    ensures var p := Respond(Request("GET", ifNoneMatch, Some("bytes=" + NatToString(a) + "-" + NatToString(b))), abs, ext, st);
      p.status == 416 && p.body == NoBody && Sets(p, ContentRange, "bytes */" + NatToString(st.size))
  {
    RangeExplicit(a, b, st.size);
  }

  /** The end of a span is not clamped to the file: `bytes=0-<n>` past the end still announces
      `n + 1` bytes, where section 14.1.2 of RFC 9110 would cut the span at the last byte. */
  lemma RangeEndNotClamped(n: nat, abs: string, ext: string, st: Stat)
    requires 0 < st.size <= n
    ensures var p := Respond(Request("GET", None, Some("bytes=0-" + NatToString(n))), abs, ext, st);
      p.status == 206 && Sets(p, ContentLength, NatToString(n + 1)) && p.body == Span(abs, 0, n)
  {
    assert "bytes=0-" + NatToString(n) == "bytes=" + NatToString(0) + "-" + NatToString(n);
    ExplicitRangeServed(0, n, abs, ext, st, None);
  }
}
