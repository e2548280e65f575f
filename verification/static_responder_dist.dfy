/** The STATIC route type of the built bundle. Over the source version it adds configurable
    content types with a default charset for textual types, a guard against `..` in the raw
    request URL, and serving precompressed sibling files (`.br`, `.gz`) negotiated from
    `Accept-Encoding`. File metadata and sibling existence are inputs; the number parser that
    reads q-values is a parameter whose result is only told apart as not-a-number, zero or
    non-zero. */
module StaticResponderDist {
  import opened Options
  import opened Strings
  import opened StaticResponder
  import StaticIndexDist

  /* ---------------- configuration ---------------- */

  /** The precompression switches. */
  datatype Precompression = Precompression(
    enabled: bool,
    prefer: seq<string>,
    useSiblingFiles: bool,
    allowRangesForCompressed: bool,
    alwaysSetVary: bool)

  /** The responder's settings after defaults are applied. */
  datatype Config = Config(types: map<string, string>, defaultType: string, charset: string, pre: Precompression)

  /** The precompression options as given; `None` is an option left out. */
  datatype PrecompressionOptions = PrecompressionOptions(
    enabled: Option<bool>,
    prefer: Option<seq<string>>,
    useSiblingFiles: Option<bool>,
    allowRangesForCompressed: Option<bool>,
    alwaysSetVary: Option<bool>)

  /** The constructor's options as given. `contentTypes` lists the entries of the option object
      in the order `Object.entries` yields them. */
  datatype Settings = Settings(
    contentTypes: Option<seq<(string, string)>>,
    defaultContentType: Option<string>,
    defaultTextCharset: Option<string>,
    precompressed: Option<PrecompressionOptions>)

  /** The table key of a configured extension: lower-cased, with a leading `.` added when it
      has none. */
  function TypeKey(e: string): (k: string)
    ensures StartsWith(k, ".") && Lower(k) == k
  {
    LowerIdempotent(e);
    if StartsWith(e, ".") then Lower(e) else "." + Lower(e)
  }

  lemma LowerIdempotent(s: string)
    ensures Lower(Lower(s)) == Lower(s)
  {
  }

  /** The configured entries under their table keys. */
  function Keyed(es: seq<(string, string)>): (t: seq<(string, string)>)
    ensures |t| == |es|
    ensures forall i :: 0 <= i < |es| ==> t[i] == (TypeKey(es[i].0), es[i].1)
  {
    seq(|es|, i requires 0 <= i < |es| => (TypeKey(es[i].0), es[i].1))
  }

  /** `I(contentTypes)`: the configured content types under their table keys; when two entries
      share a key, the later one wins. */
  function NormalizeTypes(es: seq<(string, string)>): map<string, string>
  {
    TableMap(Keyed(es))
  }

  /** Every key of the normalised table starts with `.` and is lower-case; each holds the value
      of the last entry that maps to it. */
  lemma NormalizeTypesLastWins(es: seq<(string, string)>, k: string)
    ensures k in NormalizeTypes(es) ==> StartsWith(k, ".") && Lower(k) == k
    ensures k in NormalizeTypes(es) <==> exists i :: 0 <= i < |es| && TypeKey(es[i].0) == k
    ensures k in NormalizeTypes(es) ==> exists i :: (0 <= i < |es| && TypeKey(es[i].0) == k
      && NormalizeTypes(es)[k] == es[i].1 && forall j :: i < j < |es| ==> TypeKey(es[j].0) != k)
  {
    var t := Keyed(es);
    TableMapLastWins(t, k);
    var r := LastEntry(t, k);
    if r.Some? {
      assert t[r.value].0 == TypeKey(es[r.value].0);
    } else {
      assert forall i :: 0 <= i < |es| ==> TypeKey(es[i].0) == t[i].0;
    }
  }

  /** `new StaticRouteType(options)`: the built-in table overlaid with the configured types,
      `application/octet-stream` as the default type, `utf-8` as the default charset, and
      precompression off, preferring `br` then `gzip`, probing siblings, refusing ranges on
      compressed bodies and setting `Vary`. */
  function NewConfig(s: Settings): (c: Config)
    ensures s.contentTypes.None? ==> c.types == ContentTypes
    ensures forall e :: (e in ContentTypes && (s.contentTypes.None? || e !in NormalizeTypes(s.contentTypes.value))
      ==> e in c.types && c.types[e] == ContentTypes[e])
    ensures s.contentTypes.Some? ==> forall e :: (e in NormalizeTypes(s.contentTypes.value)
      ==> e in c.types && c.types[e] == NormalizeTypes(s.contentTypes.value)[e])
    ensures c.defaultType == s.defaultContentType.GetOr(OctetStream)
    ensures c.charset == s.defaultTextCharset.GetOr("utf-8")
    ensures s.precompressed.None? ==>
      c.pre == Precompression(false, ["br", "gzip"], true, false, true)
  {
    var o := s.precompressed.GetOr(PrecompressionOptions(None, None, None, None, None));
    Config(
      ContentTypes + NormalizeTypes(s.contentTypes.GetOr([])),
      s.defaultContentType.GetOr(OctetStream),
      s.defaultTextCharset.GetOr("utf-8"),
      Precompression(
        o.enabled.GetOr(false),
        o.prefer.GetOr(["br", "gzip"]),
        o.useSiblingFiles.GetOr(true),
        o.allowRangesForCompressed.GetOr(false),
        o.alwaysSetVary.GetOr(true)))
  }

  /* ---------------- charset ---------------- */

  /** A regular-expression word character. */
  predicate IsWordChar(c: char)
  {
    'a' <= c <= 'z' || 'A' <= c <= 'Z' || '0' <= c <= '9' || c == '_'
  }

  /** `/^text\//` or `/^application\/json\b/`. */
  predicate TextLike(t: string)
  {
    StartsWith(t, "text/") || (StartsWith(t, "application/json") && (|t| == 16 || !IsWordChar(t[16])))
  }

  /** The text after a `;` continues with white space and then `charset=` in any case. */
  predicate CharsetParam(t: string)
    decreases |t|
  {
    |t| > 0 && if IsSpace(t[0]) then CharsetParam(t[1..]) else |t| >= 8 && Lower(t[..8]) == "charset="
  }

  /** `/;\s*charset=/i` finds a match. */
  predicate DeclaresCharset(t: string)
    decreases |t|
  {
    |t| > 0 && ((t[0] == ';' && CharsetParam(t[1..])) || DeclaresCharset(t[1..]))
  }

  /** `L(type, charset)`: a textual type without a charset parameter gets `; charset=` and the
      default charset, when that is not empty. */
  function WithCharset(t: string, charset: string): string
  {
    if charset != "" && TextLike(t) && !DeclaresCharset(t) then t + "; charset=" + charset else t
  }

  /** A match in the text after the first character is a match in the text. */
  lemma DeclaresStep(t: string)
    requires |t| > 0 && DeclaresCharset(t[1..])
    ensures DeclaresCharset(t)
  {
  }

  /** A charset parameter anywhere in the tail is still found after a prefix. */
  lemma {:induction false} DeclaresAfterPrefix(t: string, u: string)
    requires DeclaresCharset(u)
    ensures DeclaresCharset(t + u)
    decreases |t|
  {
    if |t| > 0 {
      var tail := t[1..] + u;
      assert (t + u)[1..] == tail;
      DeclaresAfterPrefix(t[1..], u);
      DeclaresStep(t + u);
    } else {
      assert t + u == u;
    }
  }

  /** `charset=` in lower case. */
  lemma CharsetWord(c: string)
    ensures CharsetParam(" charset=" + c)
  {
    var t := " charset=" + c;
    var u := "charset=" + c;
    assert t[1..] == u;
    assert u[0] == 'c' && !IsSpace(u[0]);
    assert u[..8] == "charset=";
    assert Lower("charset=") == "charset=";
    assert CharsetParam(u);
    assert IsSpace(t[0]);
  }

  /** `; charset=<c>` declares a charset. */
  lemma CharsetSuffixDeclares(c: string)
    ensures DeclaresCharset("; charset=" + c)
  {
    var t := "; charset=" + c;
    CharsetWord(c);
    assert t[0] == ';';
    assert t[1..] == " charset=" + c;
  }

  /** The charset parameter is added once: afterwards the type declares a charset, so a second
      pass changes nothing. */
  lemma WithCharsetIdempotent(t: string, charset: string)
    ensures WithCharset(WithCharset(t, charset), charset) == WithCharset(t, charset)
    ensures charset != "" && TextLike(t) ==> DeclaresCharset(WithCharset(t, charset))
  {
    if charset != "" && TextLike(t) && !DeclaresCharset(t) {
      CharsetSuffixDeclares(charset);
      DeclaresAfterPrefix(t, "; charset=" + charset);
      assert t + "; charset=" + charset == t + ("; charset=" + charset);
    }
  }

  /** A type carrying `; charset=utf-8` is left alone. */
  lemma Utf8Kept(base: string, charset: string)
    ensures WithCharset(base + Utf8, charset) == base + Utf8
  {
    CharsetSuffixDeclares("utf-8");
    assert "; charset=" + "utf-8" == Utf8;
    DeclaresAfterPrefix(base, Utf8);
  }

  /** A type that starts neither with `t` nor with `ap` is not textual. */
  lemma NotTextLike(v: string)
    requires |v| >= 2 && v[0] != 't' && (v[0] != 'a' || v[1] != 'p')
    ensures !TextLike(v)
  {
    assert v[0] != "text/"[0];
    assert v[0] != "application/json"[0] || v[1] != "application/json"[1];
  }

  /** No entry of the built-in table is changed by the charset rule. */
  lemma TableEntriesKept(charset: string)
    ensures forall i :: 0 <= i < |TypeTable| ==> WithCharset(TypeTable[i].1, charset) == TypeTable[i].1
  {
    forall i | 0 <= i < |TypeTable|
      ensures WithCharset(TypeTable[i].1, charset) == TypeTable[i].1
    {
      if i < 5 {
        TextEntryKept(i, charset);
      } else {
        OtherEntryKept(i);
      }
    }
  }

  lemma TextEntryKept(i: nat, charset: string)
    requires i < 5
    ensures WithCharset(TypeTable[i].1, charset) == TypeTable[i].1
  {
    if i == 0 {
      Utf8Kept("text/html", charset);
    } else if i == 1 {
      Utf8Kept("application/json", charset);
    } else if i == 2 {
      Utf8Kept("text/plain", charset);
    } else if i == 3 {
      Utf8Kept("application/javascript", charset);
    } else {
      Utf8Kept("text/css", charset);
    }
  }

  lemma OtherEntryKept(i: nat)
    requires 5 <= i < |TypeTable|
    ensures !TextLike(TypeTable[i].1)
  {
    var v := TypeTable[i].1;
    assert |v| >= 2 && v[0] in {'i', 'v', 'a'} && v[1] in {'m', 'i', 'u'};
    NotTextLike(v);
  }

  /** No type of the built-in table, and not the default type, is changed by the charset rule. */
  lemma TableKeepsCharset(ext: string, charset: string)
    ensures WithCharset(ContentTypeOf(ext), charset) == ContentTypeOf(ext)
  {
    var e := Lower(ext);
    TableMapLastWins(TypeTable, e);
    if e in ContentTypes {
      TableEntriesKept(charset);
    } else {
      assert OctetStream[0] != "text/"[0];
      assert !StartsWith(OctetStream, "text/");
      assert OctetStream[12] != "application/json"[12];
      assert !StartsWith(OctetStream, "application/json");
      assert !TextLike(OctetStream);
    }
  }

  /* ---------------- Accept-Encoding ---------------- */

  /** What `Number()` makes of a q-value text: not a number, zero, or some other number. */
  datatype Num = NaN | Number(zero: bool)

  /** An encoding's weight, told apart only as zero or not. */
  datatype Weight = Zero | NonZero

  /** A `;`-parameter that sets the weight: it is named `q` (trimmed, in any case) and its
      value is a number. */
  predicate SetsWeight(param: string, number: string -> Num)
  {
    var kv := Split(param, '=');
    var name := Trim(kv[0]);
    name != "" && Lower(name) == "q" && |kv| > 1 && number(Trim(kv[1])).Number?
  }

  /** The weight a weight-setting parameter gives. */
  function QWeight(param: string, number: string -> Num): Weight
    requires SetsWeight(param, number)
  {
    if number(Trim(Split(param, '=')[1])).zero then Zero else NonZero
  }

  /** One `;`-parameter of an item: a `q` parameter whose value is a number sets the weight,
      anything else leaves it. */
  function ParamWeight(param: string, number: string -> Num, w: Weight): Weight
  {
    if SetsWeight(param, number) then QWeight(param, number) else w
  }

  /** `params[i]` is the last parameter that sets the weight. */
  predicate LastSetter(params: seq<string>, i: int, number: string -> Num)
  {
    0 <= i < |params| && SetsWeight(params[i], number)
    && forall j :: i < j < |params| ==> !SetsWeight(params[j], number)
  }

  /** Past the first parameter, the last setter is the same parameter one place earlier. */
  lemma LastSetterTail(params: seq<string>, number: string -> Num)
    requires |params| > 0
    ensures forall i :: LastSetter(params, i, number) && i > 0 ==> LastSetter(params[1..], i - 1, number)
    ensures (forall i :: 0 <= i < |params| ==> !SetsWeight(params[i], number)) ==>
      forall i :: 0 <= i < |params[1..]| ==> !SetsWeight(params[1..][i], number)
    ensures LastSetter(params, 0, number) ==>
      forall i :: 0 <= i < |params[1..]| ==> !SetsWeight(params[1..][i], number)
  {
    assert forall i :: 1 <= i < |params| ==> params[i] == params[1..][i - 1];
  }

  /** The weight of an item from its parameters, starting at `w`: the last `q` parameter with
      a numeric value decides, and without one the weight stays `w`. */
  function ParamsWeight(params: seq<string>, number: string -> Num, w: Weight): (r: Weight)
    ensures (forall i :: 0 <= i < |params| ==> !SetsWeight(params[i], number)) ==> r == w
    ensures forall i :: LastSetter(params, i, number) ==> r == QWeight(params[i], number)
    decreases |params|
  {
    if |params| == 0 then w
    else
      var r := ParamsWeight(params[1..], number, ParamWeight(params[0], number, w));
      LastSetterTail(params, number);
      r
  }

  /** The coding an item names: the text before its first `;`, trimmed and lower-cased. */
  function ItemName(item: string): string
  {
    Lower(Trim(Split(Trim(item), ';')[0]))
  }

  /** The `;`-parameters of an item: what follows its name. */
  function ItemParams(item: string): seq<string>
  {
    Split(Trim(item), ';')[1..]
  }

  /** One item: its coding and weight, or nothing for an empty item or an empty name. The
      weight is that of the item's last `q` parameter with a numeric value, and 1 without
      one. */
  function ItemEntry(item: string, number: string -> Num): (r: Option<(string, Weight)>)
    ensures r.Some? <==> ItemName(item) != ""
    ensures r.Some? ==> r.value.0 == ItemName(item)
    ensures r.Some? && (forall i :: 0 <= i < |ItemParams(item)| ==> !SetsWeight(ItemParams(item)[i], number)) ==>
      r.value.1 == NonZero
    ensures r.Some? ==> forall i :: LastSetter(ItemParams(item), i, number) ==>
      r.value.1 == QWeight(ItemParams(item)[i], number)
  {
    var l := Trim(item);
    if l == "" then
      SplitNoSep("", ';');
      assert Trim("") == "";
      None
    else if ItemName(item) == "" then None
    else Some((ItemName(item), ParamsWeight(ItemParams(item), number, NonZero)))
  }

  /** The items' entries, in order. */
  function Entries(items: seq<string>, number: string -> Num): (es: seq<Option<(string, Weight)>>)
    ensures |es| == |items|
    ensures forall i :: 0 <= i < |items| ==> es[i] == ItemEntry(items[i], number)
  {
    seq(|items|, i requires 0 <= i < |items| => ItemEntry(items[i], number))
  }

  /** Some entry names the coding. */
  predicate Named(es: seq<Option<(string, Weight)>>, k: string)
  {
    exists i :: 0 <= i < |es| && es[i].Some? && es[i].value.0 == k
  }

  /** `es[i]` is the last entry naming its coding. */
  predicate LastNames(es: seq<Option<(string, Weight)>>, i: int)
  {
    0 <= i < |es| && es[i].Some?
    && forall j :: i < j < |es| ==> !(es[j].Some? && es[j].value.0 == es[i].value.0)
  }

  /** Past the first entry, the last entry naming a coding is the same entry one place earlier,
      and codings no entry names are not named by the rest either. */
  lemma LastNamesTail(es: seq<Option<(string, Weight)>>)
    requires |es| > 0
    ensures forall i :: LastNames(es, i) && i > 0 ==> LastNames(es[1..], i - 1)
    ensures LastNames(es, 0) ==> !Named(es[1..], es[0].value.0)
    ensures forall k :: !Named(es, k) ==> !Named(es[1..], k)
  {
    assert forall i :: 1 <= i < |es| ==> es[i] == es[1..][i - 1];
  }

  /** Entries in order; a later entry for the same coding replaces the earlier weight. */
  function AddEntries(es: seq<Option<(string, Weight)>>, acc: map<string, Weight>): (m: map<string, Weight>)
    ensures acc.Keys <= m.Keys
    ensures forall k :: k in m && k !in acc ==> Named(es, k)
    ensures forall i :: 0 <= i < |es| && es[i].Some? ==> es[i].value.0 in m
    ensures forall i :: LastNames(es, i) ==> m[es[i].value.0] == es[i].value.1
    ensures forall k :: k in acc && !Named(es, k) ==> m[k] == acc[k]
    decreases |es|
  {
    if |es| == 0 then acc
    else
      var next := if es[0].Some? then acc[es[0].value.0 := es[0].value.1] else acc;
      var m := AddEntries(es[1..], next);
      assert forall i :: 1 <= i < |es| ==> es[i] == es[1..][i - 1];
      assert forall k :: k in m && k !in acc ==> Named(es, k) by {
        forall k | k in m && k !in acc
          ensures Named(es, k)
        {
          if k !in next {
            var i :| 0 <= i < |es[1..]| && es[1..][i].Some? && es[1..][i].value.0 == k;
            assert es[i + 1] == es[1..][i];
          } else {
            assert es[0].Some? && es[0].value.0 == k;
          }
        }
      }
      LastNamesTail(es);
      m
  }

  /** `U(header)`: the weights the `Accept-Encoding` header gives, by lower-cased coding name;
      exactly the codings some item names are present, each with the weight of the last item
      naming it. An absent or empty header gives none. */
  function Weights(header: Option<string>, number: string -> Num): (m: map<string, Weight>)
    ensures header.None? || header.value == "" ==> m == map[]
    ensures header.Some? && header.value != "" ==>
      forall k :: k in m <==> Named(Entries(Split(header.value, ','), number), k)
    ensures header.Some? && header.value != "" ==>
      var es := Entries(Split(header.value, ','), number);
      forall i :: LastNames(es, i) ==> es[i].value.0 in m && m[es[i].value.0] == es[i].value.1
  {
    if header.None? || header.value == "" then map[]
    else
      var es := Entries(Split(header.value, ','), number);
      AddEntries(es, map[])
  }

  /** The codings weighed are the non-empty names the comma-separated items give. */
  lemma WeightsNames(header: string, number: string -> Num, k: string)
    requires header != ""
    ensures k in Weights(Some(header), number) <==> k != "" && exists item :: item in Split(header, ',') && ItemName(item) == k
  {
    var items := Split(header, ',');
    var es := Entries(items, number);
    if k in Weights(Some(header), number) {
      var i :| 0 <= i < |es| && es[i].Some? && es[i].value.0 == k;
      assert ItemEntry(items[i], number).Some?;
      assert items[i] in items;
    }
    forall item | item in items && ItemName(item) == k && k != ""
      ensures k in Weights(Some(header), number)
    {
      var i :| 0 <= i < |items| && items[i] == item;
      assert es[i].Some? && es[i].value.0 == k;
    }
  }

  /* ---------------- sibling files ---------------- */

  /** A compressed variant: the file to send and its coding. */
  datatype Variant = Variant(path: string, encoding: string)

  /** The sibling probed for a coding: `.br` for `br`, `.gz` for anything else. */
  function SiblingPath(abs: string, enc: string): string
  {
    abs + "." + (if enc == "br" then "br" else "gz")
  }

  /** The client takes the coding: it weighs it other than zero, or names no coding at all. */
  predicate Acceptable(w: map<string, Weight>, enc: string)
  {
    if enc in w then w[enc] == NonZero else |w| == 0
  }

  /** The coding is acceptable and its sibling exists. */
  predicate Offers(w: map<string, Weight>, abs: string, enc: string, isFile: string -> bool)
  {
    Acceptable(w, enc) && isFile(SiblingPath(abs, enc))
  }

  /** `enc` is the first coding of `prefer` on offer. */
  ghost predicate FirstOffered(prefer: seq<string>, w: map<string, Weight>, abs: string, enc: string,
                               isFile: string -> bool)
  {
    exists i :: 0 <= i < |prefer| && prefer[i] == enc && Offers(w, abs, prefer[i], isFile)
      && forall j :: 0 <= j < i ==> !Offers(w, abs, prefer[j], isFile)
  }

  /** No coding of `prefer` is on offer. */
  ghost predicate NoneOffered(prefer: seq<string>, w: map<string, Weight>, abs: string, isFile: string -> bool)
  {
    forall i :: 0 <= i < |prefer| ==> !Offers(w, abs, prefer[i], isFile)
  }

  /** `B(abs, prefer, weights)`: the first preferred coding on offer, with its sibling. */
  function Sibling(abs: string, prefer: seq<string>, w: map<string, Weight>, isFile: string -> bool): (r: Option<Variant>)
    ensures r.None? <==> NoneOffered(prefer, w, abs, isFile)
    ensures r.Some? ==> (r.value.path == SiblingPath(abs, r.value.encoding)
      && FirstOffered(prefer, w, abs, r.value.encoding, isFile))
    decreases |prefer|
  {
    if |prefer| == 0 then None
    else if Offers(w, abs, prefer[0], isFile) then
      assert FirstOffered(prefer, w, abs, prefer[0], isFile);
      Some(Variant(SiblingPath(abs, prefer[0]), prefer[0]))
    else
      var r := Sibling(abs, prefer[1..], w, isFile);
      OfferedPastHead(prefer, w, abs, isFile);
      r
  }

  /** When the head of `prefer` is not on offer, what is on offer is decided by the rest. */
  lemma OfferedPastHead(prefer: seq<string>, w: map<string, Weight>, abs: string, isFile: string -> bool)
    requires |prefer| > 0 && !Offers(w, abs, prefer[0], isFile)
    ensures NoneOffered(prefer, w, abs, isFile) <==> NoneOffered(prefer[1..], w, abs, isFile)
    ensures forall enc :: FirstOffered(prefer[1..], w, abs, enc, isFile) ==> FirstOffered(prefer, w, abs, enc, isFile)
  {
    var t := prefer[1..];
    assert forall i :: 1 <= i < |prefer| ==> prefer[i] == t[i - 1];
    forall enc | FirstOffered(t, w, abs, enc, isFile)
      ensures FirstOffered(prefer, w, abs, enc, isFile)
    {
      var i :| 0 <= i < |t| && t[i] == enc && Offers(w, abs, t[i], isFile)
        && forall j :: 0 <= j < i ==> !Offers(w, abs, t[j], isFile);
      assert prefer[i + 1] == enc;
      assert forall j :: 0 <= j < i + 1 ==> !Offers(w, abs, prefer[j], isFile) by {
        forall j | 0 <= j < i + 1 ensures !Offers(w, abs, prefer[j], isFile) {
          if j > 0 { assert prefer[j] == t[j - 1]; }
        }
      }
    }
  }

  /* ---------------- entity tags ---------------- */

  /** The tag of a compressed variant: `W/"<size>-<mtime>-<coding>"`. */
  function EncodedETag(size: nat, mtime: nat, enc: string): string
  {
    "W/\"" + NatToString(size) + "-" + NatToString(mtime) + "-" + enc + "\""
  }

  /** The longest run of digits at the head of a text stops before a non-digit. */
  lemma {:induction false} DigitPrefixStops(a: string, x: string)
    requires AllDigits(a) && |x| > 0 && !IsDigit(x[0])
    ensures DigitPrefix(a + x) == a
    decreases |a|
  {
    if |a| > 0 {
      assert (a + x)[1..] == a[1..] + x;
      DigitPrefixStops(a[1..], x);
      assert [a[0]] + a[1..] == a;
    } else {
      assert a + x == x;
    }
  }

  /** The character that ends the second run of digits after `W/"`, or `'"'` when there is
      none. */
  function SecondStop(tag: string): char
  {
    if |tag| < 3 then '"'
    else
      var r := tag[3..];
      var k := |DigitPrefix(r)|;
      if k >= |r| then '"'
      else
        var r2 := r[k + 1..];
        var k2 := |DigitPrefix(r2)|;
        if k2 >= |r2| then '"' else r2[k2]
  }

  /** After `W/"`, a digit run, one separator, a digit run: the character that follows. */
  lemma {:induction false} SecondStopOf(a: string, b: string, rest: string)
    requires AllDigits(a) && AllDigits(b) && |rest| > 0 && !IsDigit(rest[0])
    ensures SecondStop("W/\"" + a + "-" + b + rest) == rest[0]
  {
    var tag := "W/\"" + a + "-" + b + rest;
    var r := tag[3..];
    assert r == a + ("-" + b + rest);
    DigitPrefixStops(a, "-" + b + rest);
    assert r[|a| + 1..] == b + rest;
    DigitPrefixStops(b, rest);
  }

  /** A compressed variant's tag never equals the tag of an uncompressed file, so a cached
      uncompressed copy never validates a compressed one or the other way round. */
  lemma EncodedETagDiffers(size: nat, mtime: nat, enc: string, size2: nat, mtime2: nat)
    ensures EncodedETag(size, mtime, enc) != WeakETag(size2, mtime2)
  {
    var a, b := NatToString(size), NatToString(mtime);
    var c, d := NatToString(size2), NatToString(mtime2);
    assert EncodedETag(size, mtime, enc) == "W/\"" + a + "-" + b + ("-" + enc + "\"");
    SecondStopOf(a, b, "-" + enc + "\"");
    SecondStopOf(c, d, "\"");
  }

  /* ---------------- match ---------------- */

  /** The path part of the raw request URL: before the first `?`, then before the first `#`. */
  function RawPath(url: string): string
  {
    Split(Split(url, '?')[0], '#')[0]
  }

  /** The raw path, percent-decoded when `decodeURIComponent` accepts it, has a `..` segment. */
  predicate RawTraversal(url: string, decode: string -> Option<string>)
  {
    var n := RawPath(url);
    ".." in Split(decode(n).GetOr(n), '/')
  }

  /** `match(ctx)`: GET and HEAD only, no `..` in the raw URL, and a pathname the index
      resolves. */
  function MatchDist(idx: StaticIndexDist.DistIndex, verb: string, url: string, pathname: string,
                     decode: string -> Option<string>): (r: Option<string>)
    ensures r.Some? <==> ((verb == "GET" || verb == "HEAD") && !RawTraversal(url, decode)
      && StaticIndexDist.ResolveUrlDist(idx, pathname).Some?)
    ensures r.Some? ==> r == StaticIndexDist.ResolveUrlDist(idx, pathname) && StartsWith(r.value, idx.root)
  {
    if verb != "GET" && verb != "HEAD" then None
    else if RawTraversal(url, decode) then None
    else StaticIndexDist.ResolveUrlDist(idx, pathname)
  }

  /** A raw URL whose decoded path has a `..` segment is refused, whatever the index holds
      and however the URL parser normalised the pathname. */
  lemma EncodedTraversalRefused(idx: StaticIndexDist.DistIndex, verb: string, url: string, pathname: string,
                                decode: string -> Option<string>, decoded: string)
    requires decode(RawPath(url)) == Some(decoded) && ".." in Split(decoded, '/')
    ensures MatchDist(idx, verb, url, pathname, decode).None?
  {
  }

  /* ---------------- the responder ---------------- */

  /** The request facts the bundle's responder reads. */
  datatype DistRequest = DistRequest(
    verb: string,
    ifNoneMatch: Option<string>,
    range: Option<string>,
    acceptEncoding: Option<string>)

  /** The file system as the responder sees it: whether a path is a regular file, and the
      metadata of a path. */
  datatype Disk = Disk(isFile: string -> bool, stat: string -> Stat)

  /** The compressed variant served, if any: with precompression on and sibling probing on, the
      first preferred coding on offer, provided the header named some coding. */
  function Chosen(cfg: Config, req: DistRequest, abs: string, disk: Disk, number: string -> Num): (v: Option<Variant>)
    ensures v.Some? ==> cfg.pre.enabled && cfg.pre.useSiblingFiles && v.value.encoding != ""
    ensures v.Some? ==> (
      var w := Weights(req.acceptEncoding, number);
      |w| > 0 && v.value.path == SiblingPath(abs, v.value.encoding)
      && FirstOffered(cfg.pre.prefer, w, abs, v.value.encoding, disk.isFile))
    ensures v.None? && cfg.pre.enabled && cfg.pre.useSiblingFiles ==> (
      var w := Weights(req.acceptEncoding, number);
      |w| == 0 || NoneOffered(cfg.pre.prefer, w, abs, disk.isFile))
  {
    if !cfg.pre.enabled || !cfg.pre.useSiblingFiles then None
    else
      var w := Weights(req.acceptEncoding, number);
      if |w| == 0 then None
      else
        var v := Sibling(abs, cfg.pre.prefer, w, disk.isFile);
        assert v.Some? ==> v.value.encoding != "" by {
          if v.Some? {
            WeightsNames(req.acceptEncoding.value, number, "");
          }
        }
        v
  }

  /** The headers set before the conditional check, for the variant `v` (if any). */
  function LeadHeaders(cfg: Config, ext: string, st: Stat, v: Option<Variant>): (h: map<Header, string>)
    ensures h.Keys == {NoSniff, LastModified, ContentType}
      + (if cfg.pre.enabled && cfg.pre.alwaysSetVary then {Vary} else {})
      + (if v.Some? then {ContentEncoding} else {})
    ensures h[NoSniff] == "nosniff" && h[LastModified] == st.modified
    ensures var e := Lower(ext);
      h[ContentType] == WithCharset(if e in cfg.types then cfg.types[e] else cfg.defaultType, cfg.charset)
    ensures Vary in h ==> h[Vary] == "Accept-Encoding"
    ensures v.Some? ==> h[ContentEncoding] == v.value.encoding
    ensures ETag !in h && AcceptRanges !in h && ContentRange !in h && ContentLength !in h
  {
    var e := Lower(ext);
    var t := if e in cfg.types then cfg.types[e] else cfg.defaultType;
    var h0 := map[NoSniff := "nosniff", LastModified := st.modified, ContentType := WithCharset(t, cfg.charset)];
    var h1 := if cfg.pre.enabled && cfg.pre.alwaysSetVary then h0[Vary := "Accept-Encoding"] else h0;
    if v.Some? then h1[ContentEncoding := v.value.encoding] else h1
  }

  /** The tag of what is served: the variant's with its coding, else the file's own. */
  function TagOf(st: Stat, v: Option<Variant>, d: Stat): string
  {
    if v.Some? then EncodedETag(d.size, d.mtimeMs, v.value.encoding) else WeakETag(st.size, st.mtimeMs)
  }

  /** A tag is never empty, so the bundle's test for a non-empty `If-None-Match` adds nothing. */
  lemma TagOfNonEmpty(st: Stat, v: Option<Variant>, d: Stat)
    ensures |TagOf(st, v, d)| > 2
  {
  }

  /** The answer past the conditional check: without a variant, or with ranges allowed for
      variants, `Accept-Ranges: bytes` and the source version's Range decision on the served
      file; otherwise `Accept-Ranges: none`, any Range ignored and the whole variant sent. */
  function Ship(allowRanges: bool, verb: string, range: Option<string>, f: string, size: nat,
                compressed: bool, h: map<Header, string>): (p: Plan)
    requires AcceptRanges !in h && ContentRange !in h && ContentLength !in h
    ensures p.status in {200, 206, 416}
    ensures forall k :: k in h ==> k in p.headers && p.headers[k] == h[k]
    ensures p.headers.Keys <= h.Keys + {AcceptRanges, ContentRange, ContentLength}
    ensures compressed && !allowRanges ==> (
      Sets(p, AcceptRanges, "none") && p.status == 200 && ContentRange !in p.headers
      && Sets(p, ContentLength, NatToString(size))
      && p.body == (if verb == "HEAD" then NoBody else WholeFile(f)))
    ensures !compressed || allowRanges ==> (
      Sets(p, AcceptRanges, "bytes")
      && (p.status == 416 <==> RangeOf(range, size).Unsatisfiable?)
      && (p.status == 206 <==> RangeOf(range, size).Satisfiable?)
      && p == Deliver(verb, range, f, size, h[AcceptRanges := "bytes"]))
  {
    if !compressed || allowRanges then Deliver(verb, range, f, size, h[AcceptRanges := "bytes"])
    else Deliver(verb, None, f, size, h[AcceptRanges := "none"])
  }

  /** The conditional check on the served file `f` of `size` bytes, with tag `etag` and the
      headers `h` set before it: a matching `If-None-Match` gives 304 before any Range is read,
      with the tag and nothing else added; otherwise `Ship` decides. */
  function Serve(allowRanges: bool, req: DistRequest, f: string, size: nat, compressed: bool,
                 h: map<Header, string>, etag: string): (p: Plan)
    requires etag != ""
    requires ETag !in h && AcceptRanges !in h && ContentRange !in h && ContentLength !in h
    ensures Sets(p, ETag, etag)
    ensures forall k :: k in h ==> k in p.headers && p.headers[k] == h[k]
    ensures p.headers.Keys <= h.Keys + {ETag, AcceptRanges, ContentRange, ContentLength}
    ensures p.status == 304 <==> req.ifNoneMatch == Some(etag)
    ensures p.status == 304 ==> p.body == NoBody && p.headers == h[ETag := etag]
    ensures p.status != 304 ==> p == Ship(allowRanges, req.verb, req.range, f, size, compressed, h[ETag := etag])
  {
    var h' := h[ETag := etag];
    if req.ifNoneMatch.Some? && req.ifNoneMatch.value != "" && req.ifNoneMatch.value == etag then Plan(304, h', NoBody)
    else Ship(allowRanges, req.verb, req.range, f, size, compressed, h')
  }

  /** The handler `match` returns, for the file `abs` with extension `ext` and metadata `st`:
      the variant is chosen from the request and the disk, and served with its own metadata. */
  function RespondDist(cfg: Config, req: DistRequest, abs: string, ext: string, st: Stat, disk: Disk,
                       number: string -> Num): (p: Plan)
    ensures !cfg.pre.enabled ==> ContentEncoding !in p.headers && Sets(p, ETag, WeakETag(st.size, st.mtimeMs))
    ensures ContentEncoding in p.headers ==> (
      var enc := p.headers[ContentEncoding];
      var w := Weights(req.acceptEncoding, number);
      var d := disk.stat(SiblingPath(abs, enc));
      cfg.pre.enabled && cfg.pre.useSiblingFiles && enc != ""
      && Sets(p, ETag, EncodedETag(d.size, d.mtimeMs, enc))
      && FirstOffered(cfg.pre.prefer, w, abs, enc, disk.isFile))
  {
    var v := Chosen(cfg, req, abs, disk, number);
    var d := if v.Some? then disk.stat(v.value.path) else st;
    var h := LeadHeaders(cfg, ext, st, v);
    TagOfNonEmpty(st, v, d);
    var p := Serve(cfg.pre.allowRangesForCompressed, req, if v.Some? then v.value.path else abs,
                   if v.Some? then d.size else st.size, v.Some?, h, TagOf(st, v, d));
    assert ContentEncoding in p.headers <==> ContentEncoding in h;
    assert ContentEncoding in p.headers ==> v.Some? && p.headers[ContentEncoding] == v.value.encoding;
    p
  }

  /** With precompression off and no configured types or default type, the bundle answers as
      the source version does, except that a 304 lacks `Accept-Ranges`, which the bundle only
      sets after the conditional check. */
  lemma DistAgreesWithSource(charset: string, pre: Precompression, req: DistRequest, abs: string, ext: string,
                             st: Stat, disk: Disk, number: string -> Num)
    requires !pre.enabled
    ensures var cfg := Config(ContentTypes, OctetStream, charset, pre);
      var p := Respond(Request(req.verb, req.ifNoneMatch, req.range), abs, ext, st);
      RespondDist(cfg, req, abs, ext, st, disk, number)
        == if p.status == 304 then p.(headers := p.headers - {AcceptRanges}) else p
  {
    var cfg := Config(ContentTypes, OctetStream, charset, pre);
    var v := Chosen(cfg, req, abs, disk, number);
    assert v == None;
    var etag := WeakETag(st.size, st.mtimeMs);
    assert TagOf(st, None, st) == etag;
    TableKeepsCharset(ext, charset);
    var base := BaseHeaders(ext, st);
    var lead := LeadHeaders(cfg, ext, st, None)[ETag := etag];
    assert lead == base - {AcceptRanges};
    assert lead[AcceptRanges := "bytes"] == base;
    var r := Request(req.verb, req.ifNoneMatch, req.range);
    if req.ifNoneMatch == Some(etag) {
      assert Respond(r, abs, ext, st) == Plan(304, base, NoBody);
    } else {
      assert Respond(r, abs, ext, st) == Deliver(req.verb, req.range, abs, st.size, base);
    }
  }
}
