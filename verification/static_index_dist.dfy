/** The static file index of the built bundle: `.well-known` may be exempted from the dot-name
    rule, a directory holding an index file is also reachable under the directory's own URL,
    and `resolveUrl` rejects empty, relative and `..`-containing paths. Symbolic links are
    skipped (links are followed only on request, which is not modelled). */
module StaticIndexDist {
  import opened Options
  import opened Strings
  import opened StaticIndex

  /** The index: resolved root, URL base, the index file names, whether `.well-known` is
      exempt, and the current map. */
  datatype DistIndex = DistIndex(
    root: string,
    base: string,
    indexFiles: seq<string>,
    allowWellKnown: bool,
    entries: map<string, string>)

  const DefaultIndexFiles: seq<string> := ["index.html", "index.htm"]

  /** The constructor: `/` stays `/`, any other base loses one trailing `/`; index files
      default to `index.html`, `index.htm`. */
  function NewDistIndex(root: string, urlBase: string, indexFiles: Option<seq<string>>, allowWellKnown: bool)
    : (idx: DistIndex)
    ensures urlBase == "/" ==> idx.base == "/"
    ensures urlBase != "/" ==> idx.base + "/" == urlBase || (idx.base == urlBase && !EndsWith(urlBase, "/"))
    ensures indexFiles.None? ==> idx.indexFiles == DefaultIndexFiles
    ensures indexFiles.Some? ==> idx.indexFiles == indexFiles.value
    ensures idx.entries == map[] && idx.root == root && idx.allowWellKnown == allowWellKnown
  {
    DistIndex(
      root,
      if urlBase == "/" then "/" else if EndsWith(urlBase, "/") then urlBase[..|urlBase| - 1] else urlBase,
      indexFiles.GetOr(DefaultIndexFiles),
      allowWellKnown,
      map[])
  }

  /** The prefix of every key: the base, or nothing when the base is `/`. */
  function KeyBase(base: string): string
  {
    if base == "/" then "" else base
  }

  /** Dot-names are hidden, except `.well-known` when it is allowed. */
  function Hidden(allowWellKnown: bool): string -> bool
  {
    name => StartsWith(name, ".") && !(allowWellKnown && name == ".well-known")
  }

  /** The URL key of the directory with relative path `o`: the key base, then `/o` unless `o` is
      the root. */
  function DirUrl(s: string, o: string): string
  {
    if o == "" then s else s + "/" + o
  }

  /** The directory key as the bundle computes it: key base and relative path run together. */
  function DirUrlAsWritten(s: string, o: string): string
  {
    s + o
  }

  /** The first index file name `w` for which `a/w` is already a key. */
  function FirstIndexFile(t: map<string, string>, a: string, ws: seq<string>): (w: Option<string>)
    ensures w.Some? ==> w.value in ws && a + "/" + w.value in t
    ensures w.None? <==> forall i :: 0 <= i < |ws| ==> a + "/" + ws[i] !in t
    ensures w.Some? ==> exists i :: (0 <= i < |ws| && ws[i] == w.value
      && forall j :: 0 <= j < i ==> a + "/" + ws[j] !in t)
    decreases |ws|
  {
    if |ws| == 0 then None
    else if a + "/" + ws[0] in t then Some(ws[0])
    else
      var w := FirstIndexFile(t, a, ws[1..]);
      assert w.Some? ==> ws[1..] != [] by {
        if w.Some? {
          var i :| 0 <= i < |ws[1..]| && ws[1..][i] == w.value;
        }
      }
      if w.Some? then
        var i :| 0 <= i < |ws[1..]| && ws[1..][i] == w.value && forall j :: 0 <= j < i ==> a + "/" + ws[1..][j] !in t;
        assert ws[i + 1] == w.value;
        assert forall j :: 0 <= j < i + 1 ==> a + "/" + ws[j] !in t by {
          forall j | 0 <= j < i + 1
            ensures a + "/" + ws[j] !in t
          {
            if j > 0 {
              assert ws[j] == ws[1..][j - 1];
            }
          }
        }
        w
      else w
  }

  /** After an entry: the directory key `a` gets the file of the first index name found under
      it, if any. */
  function IndexAlias(t: map<string, string>, a: string, ws: seq<string>): (r: map<string, string>)
    ensures FirstIndexFile(t, a, ws).None? ==> r == t
    ensures FirstIndexFile(t, a, ws).Some? ==>
      r == t[a := t[a + "/" + FirstIndexFile(t, a, ws).value]]
  {
    var w := FirstIndexFile(t, a, ws);
    if w.Some? then t[a := t[a + "/" + w.value]] else t
  }

  /** The bundle's walk over one directory's entries, in order; `aliasOf` gives the directory
      key that index aliases go to. */
  function WalkDist(
    es: seq<Entry>, dirAbs: string, o: string, join: (string, string) -> string,
    hidden: string -> bool, s: string, ws: seq<string>, aliasOf: (string, string) -> string,
    t: map<string, string>): map<string, string>
    decreases SizeAll(es), 1
  {
    if |es| == 0 then t
    else WalkDist(es[1..], dirAbs, o, join, hidden, s, ws, aliasOf, EnterDist(es[0], dirAbs, o, join, hidden, s, ws, aliasOf, t))
  }

  /** One entry: hidden names and links are skipped outright; a directory is walked, a file is
      entered under `s/rel`, and then the index alias of the current directory is refreshed. */
  function EnterDist(
    e: Entry, dirAbs: string, o: string, join: (string, string) -> string,
    hidden: string -> bool, s: string, ws: seq<string>, aliasOf: (string, string) -> string,
    t: map<string, string>): map<string, string>
    decreases EntrySize(e), 0
  {
    if hidden(e.name) || e.Link? then t
    else
      var t1 :=
        if e.Dir? then WalkDist(e.children, join(dirAbs, e.name), ChildRel(o, e.name), join, hidden, s, ws, aliasOf, t)
        else if e.File? then t[s + "/" + ChildRel(o, e.name) := join(dirAbs, e.name)]
        else t;
      IndexAlias(t1, aliasOf(s, o), ws)
  }

  /** `rebuild()` with the directory keys corrected: a fresh map replaces the old one, and
      nothing else in the index changes. What the map holds is stated by `RebuildDistFiles`
      and `RebuildDistAliases`. */
  function RebuildDist(idx: DistIndex, tree: seq<Entry>, join: (string, string) -> string): (r: DistIndex)
    ensures r.(entries := idx.entries) == idx
  {
    idx.(entries := WalkDist(tree, idx.root, "", join, Hidden(idx.allowWellKnown), KeyBase(idx.base), idx.indexFiles, DirUrl, map[]))
  }

  /** `rebuild()` as the bundle writes it; what the map holds is stated by
      `RebuildDistAsWrittenFiles`. */
  function RebuildDistAsWritten(idx: DistIndex, tree: seq<Entry>, join: (string, string) -> string): (r: DistIndex)
    ensures r.(entries := idx.entries) == idx
  {
    idx.(entries := WalkDist(tree, idx.root, "", join, Hidden(idx.allowWellKnown), KeyBase(idx.base), idx.indexFiles, DirUrlAsWritten, map[]))
  }

  /** With no index file names the bundle's walk is the plain walk under the `.well-known`
      rule, with keys `s/rel`. */
  lemma {:induction false} WalkDistWithoutIndexFiles(
    es: seq<Entry>, dirAbs: string, o: string, join: (string, string) -> string,
    hidden: string -> bool, s: string, aliasOf: (string, string) -> string, t: map<string, string>)
    ensures WalkDist(es, dirAbs, o, join, hidden, s, [], aliasOf, t)
      == Walk(es, dirAbs, o, join, hidden, rel => s + "/" + rel, t)
    decreases SizeAll(es), 1
  {
    if |es| > 0 {
      EnterDistWithoutIndexFiles(es[0], dirAbs, o, join, hidden, s, aliasOf, t);
      WalkDistWithoutIndexFiles(es[1..], dirAbs, o, join, hidden, s, aliasOf, EnterDist(es[0], dirAbs, o, join, hidden, s, [], aliasOf, t));
    }
  }

  lemma {:induction false} EnterDistWithoutIndexFiles(
    e: Entry, dirAbs: string, o: string, join: (string, string) -> string,
    hidden: string -> bool, s: string, aliasOf: (string, string) -> string, t: map<string, string>)
    ensures EnterDist(e, dirAbs, o, join, hidden, s, [], aliasOf, t)
      == Enter(e, dirAbs, o, join, hidden, rel => s + "/" + rel, t)
    decreases EntrySize(e), 0
  {
    if !hidden(e.name) && e.Dir? {
      WalkDistWithoutIndexFiles(e.children, join(dirAbs, e.name), ChildRel(o, e.name), join, hidden, s, aliasOf, t);
    }
  }

  /* ---------------- what a rebuild holds ---------------- */

  /** An entry the bundle's walk does not skip: its name is not hidden and it is not a link.
      Each such entry is followed by a refresh of the current directory's key. */
  predicate Walked(e: Entry, hidden: string -> bool)
  {
    !hidden(e.name) && !e.Link?
  }

  /** The directories (by relative path) whose key the walk of `es` in `o` refreshes: `o` when
      some entry is walked, and likewise in every directory entered below. */
  ghost function LiveDirs(es: seq<Entry>, o: string, hidden: string -> bool): set<string>
    decreases SizeAll(es), 2
  {
    (if exists i :: 0 <= i < |es| && Walked(es[i], hidden) then {o} else {}) + LiveBelow(es, o, hidden)
  }

  ghost function LiveBelow(es: seq<Entry>, o: string, hidden: string -> bool): set<string>
    decreases SizeAll(es), 1
  {
    if |es| == 0 then {} else LiveDirsOf(es[0], o, hidden) + LiveBelow(es[1..], o, hidden)
  }

  ghost function LiveDirsOf(e: Entry, o: string, hidden: string -> bool): set<string>
    decreases EntrySize(e), 0
  {
    if Walked(e, hidden) && e.Dir? then LiveDirs(e.children, ChildRel(o, e.name), hidden) else {}
  }

  /** The keys the walk of `es` in `o` may give directories. */
  ghost function DirKeys(es: seq<Entry>, o: string, hidden: string -> bool, s: string,
                         aliasOf: (string, string) -> string): set<string>
  {
    set d | d in LiveDirs(es, o, hidden) :: aliasOf(s, d)
  }

  /** `k` is absent from both maps or present in both with the same value. */
  predicate Same(t: map<string, string>, u: map<string, string>, k: string)
  {
    (k in t <==> k in u) && (k in t ==> t[k] == u[k])
  }

  /** `t` and `u` agree on every key outside `K`. */
  ghost predicate AgreeOutside(t: map<string, string>, u: map<string, string>, K: set<string>)
  {
    forall k :: k !in K ==> Same(t, u, k)
  }

  /** The rest of a walk refreshes fewer directories. */
  lemma LiveRest(es: seq<Entry>, o: string, hidden: string -> bool)
    requires |es| > 0
    ensures LiveDirs(es[1..], o, hidden) <= LiveDirs(es, o, hidden)
    ensures LiveDirsOf(es[0], o, hidden) <= LiveDirs(es, o, hidden)
    ensures Walked(es[0], hidden) ==> o in LiveDirs(es, o, hidden)
  {
    if exists i :: 0 <= i < |es[1..]| && Walked(es[1..][i], hidden) {
      var i :| 0 <= i < |es[1..]| && Walked(es[1..][i], hidden);
      assert Walked(es[i + 1], hidden);
    }
    if Walked(es[0], hidden) {
      assert exists i :: 0 <= i < |es| && Walked(es[i], hidden);
    }
  }

  /** Refreshing a key in `K` keeps two maps in agreement outside `K`. */
  lemma AliasAgrees(t: map<string, string>, u: map<string, string>, a: string, ws: seq<string>, K: set<string>)
    requires AgreeOutside(t, u, K) && a in K
    ensures AgreeOutside(IndexAlias(t, a, ws), u, K)
  {
    var r := IndexAlias(t, a, ws);
    forall k | k !in K
      ensures Same(r, u, k)
    {
      assert Same(t, u, k);
    }
  }

  /** Outside the directory keys, the bundle's walk (with either directory key) does what the
      plain walk does with keys `s/rel`. */
  lemma {:induction false} WalkDistAgrees(
    es: seq<Entry>, dirAbs: string, o: string, join: (string, string) -> string,
    hidden: string -> bool, s: string, ws: seq<string>, aliasOf: (string, string) -> string,
    t: map<string, string>, u: map<string, string>, K: set<string>)
    requires AgreeOutside(t, u, K)
    requires forall d :: d in LiveDirs(es, o, hidden) ==> aliasOf(s, d) in K
    ensures AgreeOutside(WalkDist(es, dirAbs, o, join, hidden, s, ws, aliasOf, t),
                         Walk(es, dirAbs, o, join, hidden, rel => s + "/" + rel, u), K)
    decreases SizeAll(es), 1
  {
    if |es| > 0 {
      LiveRest(es, o, hidden);
      EnterDistAgrees(es[0], dirAbs, o, join, hidden, s, ws, aliasOf, t, u, K);
      WalkDistAgrees(es[1..], dirAbs, o, join, hidden, s, ws, aliasOf,
        EnterDist(es[0], dirAbs, o, join, hidden, s, ws, aliasOf, t),
        Enter(es[0], dirAbs, o, join, hidden, rel => s + "/" + rel, u), K);
    }
  }

  lemma {:induction false} EnterDistAgrees(
    e: Entry, dirAbs: string, o: string, join: (string, string) -> string,
    hidden: string -> bool, s: string, ws: seq<string>, aliasOf: (string, string) -> string,
    t: map<string, string>, u: map<string, string>, K: set<string>)
    requires AgreeOutside(t, u, K)
    requires Walked(e, hidden) ==> aliasOf(s, o) in K
    requires forall d :: d in LiveDirsOf(e, o, hidden) ==> aliasOf(s, d) in K
    ensures AgreeOutside(EnterDist(e, dirAbs, o, join, hidden, s, ws, aliasOf, t),
                         Enter(e, dirAbs, o, join, hidden, rel => s + "/" + rel, u), K)
    decreases EntrySize(e), 0
  {
    if Walked(e, hidden) {
      var url := rel => s + "/" + rel;
      if e.Dir? {
        var c := ChildRel(o, e.name);
        WalkDistAgrees(e.children, join(dirAbs, e.name), c, join, hidden, s, ws, aliasOf, t, u, K);
        AliasAgrees(WalkDist(e.children, join(dirAbs, e.name), c, join, hidden, s, ws, aliasOf, t),
          Walk(e.children, join(dirAbs, e.name), c, join, hidden, url, u), aliasOf(s, o), ws, K);
      } else if e.File? {
        var k := s + "/" + ChildRel(o, e.name);
        var v := join(dirAbs, e.name);
        assert url(ChildRel(o, e.name)) == k;
        forall k' | k' !in K
          ensures Same(t[k := v], u[k := v], k')
        {
          assert Same(t, u, k');
        }
        AliasAgrees(t[k := v], u[k := v], aliasOf(s, o), ws, K);
      } else {
        AliasAgrees(t, u, aliasOf(s, o), ws, K);
      }
    }
  }

  /** Whatever the index file names, a rebuild holds, outside the keys of the directories it
      walked, exactly the files reached without passing a hidden name (dot-names,
      `.well-known` exempt when allowed), each under the key base followed by `/` and its
      relative path, the last one winning. */
  lemma RebuildDistFiles(idx: DistIndex, tree: seq<Entry>, join: (string, string) -> string)
    ensures var s := KeyBase(idx.base);
      var hidden := Hidden(idx.allowWellKnown);
      AgreeOutside(RebuildDist(idx, tree, join).entries,
        Fold(map[], Filter(Files(tree, idx.root, "", [], join), hidden), rel => s + "/" + rel),
        DirKeys(tree, "", hidden, s, DirUrl))
  {
    var s := KeyBase(idx.base);
    var hidden := Hidden(idx.allowWellKnown);
    WalkDistAgrees(tree, idx.root, "", join, hidden, s, idx.indexFiles, DirUrl, map[], map[],
      DirKeys(tree, "", hidden, s, DirUrl));
    WalkIsFold(tree, idx.root, "", [], join, hidden, rel => s + "/" + rel, map[]);
  }

  /** The same holds of the bundle's rebuild, outside its own directory keys. */
  lemma RebuildDistAsWrittenFiles(idx: DistIndex, tree: seq<Entry>, join: (string, string) -> string)
    ensures var s := KeyBase(idx.base);
      var hidden := Hidden(idx.allowWellKnown);
      AgreeOutside(RebuildDistAsWritten(idx, tree, join).entries,
        Fold(map[], Filter(Files(tree, idx.root, "", [], join), hidden), rel => s + "/" + rel),
        DirKeys(tree, "", hidden, s, DirUrlAsWritten))
  {
    var s := KeyBase(idx.base);
    var hidden := Hidden(idx.allowWellKnown);
    WalkDistAgrees(tree, idx.root, "", join, hidden, s, idx.indexFiles, DirUrlAsWritten, map[], map[],
      DirKeys(tree, "", hidden, s, DirUrlAsWritten));
    WalkIsFold(tree, idx.root, "", [], join, hidden, rel => s + "/" + rel, map[]);
  }

  /* ---------------- directory keys ---------------- */

  /** A name `readdir` can report: non-empty and without `/`. */
  predicate PlainName(n: string)
  {
    n != "" && '/' !in n
  }

  /** Listings as `readdir` gives them: plain names, none twice in one directory. */
  predicate WellFormed(es: seq<Entry>)
    decreases SizeAll(es), 1
  {
    (forall i, j :: 0 <= i < j < |es| ==> es[i].name != es[j].name)
    && (|es| > 0 ==> WellFormedEntry(es[0]) && WellFormed(es[1..]))
  }

  predicate WellFormedEntry(e: Entry)
    decreases EntrySize(e), 0
  {
    PlainName(e.name) && (e.Dir? ==> WellFormed(e.children))
  }

  lemma {:induction false} WellFormedEach(es: seq<Entry>)
    requires WellFormed(es)
    ensures forall i :: 0 <= i < |es| ==> WellFormedEntry(es[i])
    decreases |es|
  {
    if |es| > 0 {
      WellFormedEach(es[1..]);
      assert forall i :: 1 <= i < |es| ==> es[i] == es[1..][i - 1];
    }
  }

  /** The key of directory `a` agrees with its first index file: refreshing it changes
      nothing. */
  predicate Settled(t: map<string, string>, a: string, ws: seq<string>)
  {
    IndexAlias(t, a, ws) == t
  }

  /** The keys the refresh of directory `a` reads or writes. */
  predicate Probe(a: string, ws: seq<string>, q: string)
  {
    q == a || exists j :: 0 <= j < |ws| && q == a + "/" + ws[j]
  }

  /** The first index file found depends only on which probed keys are present. */
  lemma {:induction false} FirstIndexFileFrame(t: map<string, string>, u: map<string, string>, a: string, ws: seq<string>)
    requires forall j :: 0 <= j < |ws| ==> (a + "/" + ws[j] in t <==> a + "/" + ws[j] in u)
    ensures FirstIndexFile(t, a, ws) == FirstIndexFile(u, a, ws)
    decreases |ws|
  {
    if |ws| > 0 {
      assert a + "/" + ws[0] in t <==> a + "/" + ws[0] in u;
      forall j | 0 <= j < |ws[1..]|
        ensures a + "/" + ws[1..][j] in t <==> a + "/" + ws[1..][j] in u
      {
        assert ws[1..][j] == ws[j + 1];
      }
      FirstIndexFileFrame(t, u, a, ws[1..]);
    }
  }

  /** A settled key stays settled while none of its probed keys change. */
  lemma SettledKept(t: map<string, string>, u: map<string, string>, a: string, ws: seq<string>)
    requires Settled(t, a, ws)
    requires forall q :: Probe(a, ws, q) ==> Same(t, u, q)
    ensures Settled(u, a, ws)
  {
    forall j | 0 <= j < |ws|
      ensures a + "/" + ws[j] in t <==> a + "/" + ws[j] in u
    {
      assert Probe(a, ws, a + "/" + ws[j]);
    }
    FirstIndexFileFrame(t, u, a, ws);
    assert Probe(a, ws, a);
    var w := FirstIndexFile(u, a, ws);
    if w.Some? {
      var j :| 0 <= j < |ws| && ws[j] == w.value;
      assert Probe(a, ws, a + "/" + ws[j]);
    }
  }

  /** A refresh settles the key it refreshes. */
  lemma AliasSettles(t: map<string, string>, a: string, ws: seq<string>)
    ensures Settled(IndexAlias(t, a, ws), a, ws)
  {
    var r := IndexAlias(t, a, ws);
    forall j | 0 <= j < |ws|
      ensures a + "/" + ws[j] in t <==> a + "/" + ws[j] in r
    {
      assert |a + "/" + ws[j]| > |a|;
    }
    FirstIndexFileFrame(t, r, a, ws);
    var w := FirstIndexFile(t, a, ws);
    if w.Some? {
      assert |a + "/" + w.value| > |a|;
    }
  }

  /** Entries that are all skipped leave the map alone. */
  lemma {:induction false} SkippedWalk(
    es: seq<Entry>, dirAbs: string, o: string, join: (string, string) -> string,
    hidden: string -> bool, s: string, ws: seq<string>, aliasOf: (string, string) -> string,
    t: map<string, string>)
    requires forall i :: 0 <= i < |es| ==> !Walked(es[i], hidden)
    ensures WalkDist(es, dirAbs, o, join, hidden, s, ws, aliasOf, t) == t
    decreases |es|
  {
    if |es| > 0 {
      assert !Walked(es[0], hidden);
      assert forall i :: 0 <= i < |es[1..]| ==> es[1..][i] == es[i + 1];
      SkippedWalk(es[1..], dirAbs, o, join, hidden, s, ws, aliasOf, t);
    }
  }

  /** A walk with some entry walked ends with its directory's key settled: the last walked
      entry refreshes it, and the skipped entries after it change nothing. */
  lemma {:induction false} WalkDistEndsSettled(
    es: seq<Entry>, dirAbs: string, o: string, join: (string, string) -> string,
    hidden: string -> bool, s: string, ws: seq<string>, aliasOf: (string, string) -> string,
    t: map<string, string>)
    requires exists i :: 0 <= i < |es| && Walked(es[i], hidden)
    ensures Settled(WalkDist(es, dirAbs, o, join, hidden, s, ws, aliasOf, t), aliasOf(s, o), ws)
    decreases |es|
  {
    var t1 := EnterDist(es[0], dirAbs, o, join, hidden, s, ws, aliasOf, t);
    if exists i :: 0 <= i < |es[1..]| && Walked(es[1..][i], hidden) {
      WalkDistEndsSettled(es[1..], dirAbs, o, join, hidden, s, ws, aliasOf, t1);
    } else {
      SkippedWalk(es[1..], dirAbs, o, join, hidden, s, ws, aliasOf, t1);
      assert forall i :: 1 <= i < |es| ==> es[i] == es[1..][i - 1];
      assert Walked(es[0], hidden);
      var t0 :=
        if es[0].Dir? then WalkDist(es[0].children, join(dirAbs, es[0].name), ChildRel(o, es[0].name), join, hidden, s, ws, aliasOf, t)
        else if es[0].File? then t[s + "/" + ChildRel(o, es[0].name) := join(dirAbs, es[0].name)]
        else t;
      assert t1 == IndexAlias(t0, aliasOf(s, o), ws);
      AliasSettles(t0, aliasOf(s, o), ws);
    }
  }

  /** `p` is `c` or lies below it; everything lies below the root `""`. */
  predicate Within(p: string, c: string)
  {
    c == "" || p == c || StartsWith(p, c + "/")
  }

  /** The key `k` is that of `c`, or of something below it, under the key base `s`. */
  predicate KeyWithin(s: string, k: string, c: string)
  {
    StartsWith(k, s + "/") && Within(k[|s| + 1..], c)
  }

  /** What lies below a child lies below its parent. */
  lemma WithinChild(p: string, c: string, n: string)
    requires Within(p, ChildRel(c, n))
    ensures Within(p, c)
  {
    if c != "" {
      var x := c + "/" + n;
      if p == x {
        assert p[..|c| + 1] == c + "/";
      } else {
        assert p[..|x| + 1] == x + "/";
        assert p[..|c| + 1] == (x + "/")[..|c| + 1] == c + "/";
      }
    }
  }

  /** Nothing lies below two different children of one directory. */
  lemma WithinSiblings(p: string, o: string, n: string, m: string)
    requires PlainName(n) && PlainName(m)
    requires Within(p, ChildRel(o, n)) && Within(p, ChildRel(o, m))
    ensures n == m
  {
    var x := if o == "" then "" else o + "/";
    assert ChildRel(o, n) == x + n && ChildRel(o, m) == x + m;
    SiblingPrefix(p, x, n, m);
    SiblingPrefix(p, x, m, n);
    assert p[..|x + n|] == x + n && p[..|x + m|] == x + m;
    assert n == (x + n)[|x|..] == (x + m)[|x|..] == m;
  }

  /** When `p` lies below both `x + n` and a longer `x + m`, the text of `m` past `n` starts
      with a `/`. */
  lemma SiblingPrefix(p: string, x: string, n: string, m: string)
    requires x + n != "" && x + m != ""
    requires Within(p, x + n) && Within(p, x + m)
    ensures p[..|x + n|] == x + n
    ensures |n| < |m| ==> '/' in m
  {
    if p != x + n {
      assert p[..|x + n| + 1] == x + n + "/";
    }
    if p != x + m {
      assert p[..|x + m| + 1] == x + m + "/";
    }
    if |n| < |m| {
      var i := |x| + |n|;
      assert p[..|x + m|] == x + m;
      assert p[i] == m[|n|];
      assert p[..i + 1] == x + n + "/";
      assert m[|n|] in m;
    }
  }

  /** The keys written by the corrected walk of `es` in `o`: the key of `o` and keys within
      its entries. */
  ghost predicate WrittenBy(es: seq<Entry>, o: string, s: string, k: string)
  {
    k == DirUrl(s, o) || exists i :: 0 <= i < |es| && KeyWithin(s, k, ChildRel(o, es[i].name))
  }

  /** The corrected walk changes no key it does not write. */
  lemma {:induction false} WalkDistFrame(
    es: seq<Entry>, dirAbs: string, o: string, join: (string, string) -> string,
    hidden: string -> bool, s: string, ws: seq<string>, t: map<string, string>, k: string)
    requires WellFormed(es)
    requires !WrittenBy(es, o, s, k)
    ensures Same(t, WalkDist(es, dirAbs, o, join, hidden, s, ws, DirUrl, t), k)
    decreases SizeAll(es), 1
  {
    if |es| > 0 {
      assert !KeyWithin(s, k, ChildRel(o, es[0].name));
      EnterDistFrame(es[0], dirAbs, o, join, hidden, s, ws, t, k);
      assert !WrittenBy(es[1..], o, s, k) by {
        forall i | 0 <= i < |es[1..]|
          ensures !KeyWithin(s, k, ChildRel(o, es[1..][i].name))
        {
          assert es[1..][i] == es[i + 1];
        }
      }
      WalkDistFrame(es[1..], dirAbs, o, join, hidden, s, ws,
        EnterDist(es[0], dirAbs, o, join, hidden, s, ws, DirUrl, t), k);
    }
  }

  lemma {:induction false} EnterDistFrame(
    e: Entry, dirAbs: string, o: string, join: (string, string) -> string,
    hidden: string -> bool, s: string, ws: seq<string>, t: map<string, string>, k: string)
    requires WellFormedEntry(e)
    requires k != DirUrl(s, o) && !KeyWithin(s, k, ChildRel(o, e.name))
    ensures Same(t, EnterDist(e, dirAbs, o, join, hidden, s, ws, DirUrl, t), k)
    decreases EntrySize(e), 0
  {
    if Walked(e, hidden) {
      var c := ChildRel(o, e.name);
      var t0 :=
        if e.Dir? then WalkDist(e.children, join(dirAbs, e.name), c, join, hidden, s, ws, DirUrl, t)
        else if e.File? then t[s + "/" + c := join(dirAbs, e.name)]
        else t;
      if e.Dir? {
        assert !WrittenBy(e.children, c, s, k) by {
          assert c != "";
          if k == DirUrl(s, c) {
            assert k[|s| + 1..] == c;
            assert KeyWithin(s, k, c);
          }
          forall i | 0 <= i < |e.children|
            ensures !KeyWithin(s, k, ChildRel(c, e.children[i].name))
          {
            if KeyWithin(s, k, ChildRel(c, e.children[i].name)) {
              WithinChild(k[|s| + 1..], c, e.children[i].name);
            }
          }
        }
        WalkDistFrame(e.children, join(dirAbs, e.name), c, join, hidden, s, ws, t, k);
      } else if e.File? {
        var key := s + "/" + c;
        assert key[|s| + 1..] == c;
        assert KeyWithin(s, key, c);
      }
      assert Same(t, t0, k);
    }
  }

  /** The keys a directory's refresh reads and writes lie within the directory. */
  lemma ProbeWithin(s: string, d: string, c: string, ws: seq<string>, q: string)
    requires c != "" && Within(d, c)
    requires Probe(DirUrl(s, d), ws, q)
    ensures KeyWithin(s, q, c)
  {
    assert d != "";
    if q == DirUrl(s, d) {
      assert q[|s| + 1..] == d;
    } else {
      var j :| 0 <= j < |ws| && q == DirUrl(s, d) + "/" + ws[j];
      var p := d + "/" + ws[j];
      assert q == s + "/" + p;
      assert q[|s| + 1..] == p;
      if d == c {
        assert p[..|c| + 1] == c + "/";
      } else {
        assert d[..|c| + 1] == c + "/";
        assert p[..|c| + 1] == c + "/";
      }
    }
  }

  /** A key within a child of `o` is not the key of `o` itself. */
  lemma NotParentKey(s: string, k: string, o: string, n: string)
    requires PlainName(n) && KeyWithin(s, k, ChildRel(o, n))
    ensures k != DirUrl(s, o)
  {
    var p := k[|s| + 1..];
    assert |k| > |s|;
    if o != "" {
      var c := o + "/" + n;
      assert |p| >= |c|;
    }
  }

  /** In the corrected walk of well-formed listings, the key of every directory whose key the
      walk refreshes ends settled. */
  lemma {:induction false} WalkDistSettles(
    es: seq<Entry>, dirAbs: string, o: string, join: (string, string) -> string,
    hidden: string -> bool, s: string, ws: seq<string>, t: map<string, string>)
    requires WellFormed(es)
    ensures var r := WalkDist(es, dirAbs, o, join, hidden, s, ws, DirUrl, t);
      forall d :: d in LiveDirs(es, o, hidden) ==> Settled(r, DirUrl(s, d), ws)
    decreases SizeAll(es), 1
  {
    if |es| > 0 {
      var r := WalkDist(es, dirAbs, o, join, hidden, s, ws, DirUrl, t);
      var t1 := EnterDist(es[0], dirAbs, o, join, hidden, s, ws, DirUrl, t);
      var rest := es[1..];
      assert r == WalkDist(rest, dirAbs, o, join, hidden, s, ws, DirUrl, t1);
      assert LiveBelow(es, o, hidden) == LiveDirsOf(es[0], o, hidden) + LiveBelow(rest, o, hidden);
      assert LiveBelow(rest, o, hidden) <= LiveDirs(rest, o, hidden);
      EnterDistSettles(es[0], dirAbs, o, join, hidden, s, ws, t);
      WalkDistSettles(rest, dirAbs, o, join, hidden, s, ws, t1);
      forall d | d in LiveDirs(es, o, hidden)
        ensures Settled(r, DirUrl(s, d), ws)
      {
        if d in LiveDirsOf(es[0], o, hidden) {
          SettledPastSiblings(es, dirAbs, o, join, hidden, s, ws, t1, d);
        } else if d in LiveDirs(rest, o, hidden) {
        } else {
          assert d == o;
          WalkDistEndsSettled(es, dirAbs, o, join, hidden, s, ws, DirUrl, t);
        }
      }
    }
  }

  /** A directory entered from the first entry stays settled while the walk goes on with the
      first entry's siblings: they write only within themselves and the parent's key. */
  lemma SettledPastSiblings(
    es: seq<Entry>, dirAbs: string, o: string, join: (string, string) -> string,
    hidden: string -> bool, s: string, ws: seq<string>, t1: map<string, string>, d: string)
    requires WellFormed(es) && |es| > 0
    requires d in LiveDirsOf(es[0], o, hidden)
    requires Settled(t1, DirUrl(s, d), ws)
    ensures Settled(WalkDist(es[1..], dirAbs, o, join, hidden, s, ws, DirUrl, t1), DirUrl(s, d), ws)
  {
    var rest := es[1..];
    var r := WalkDist(rest, dirAbs, o, join, hidden, s, ws, DirUrl, t1);
    var c := ChildRel(o, es[0].name);
    LiveWithin(es[0].children, c, hidden, d);
    WellFormedEach(es);
    forall q | Probe(DirUrl(s, d), ws, q)
      ensures Same(t1, r, q)
    {
      ProbeWithin(s, d, c, ws, q);
      NotParentKey(s, q, o, es[0].name);
      forall i | 0 <= i < |rest|
        ensures !KeyWithin(s, q, ChildRel(o, rest[i].name))
      {
        assert rest[i] == es[i + 1];
        if KeyWithin(s, q, ChildRel(o, rest[i].name)) {
          WithinSiblings(q[|s| + 1..], o, es[0].name, rest[i].name);
        }
      }
      WalkDistFrame(rest, dirAbs, o, join, hidden, s, ws, t1, q);
    }
    SettledKept(t1, r, DirUrl(s, d), ws);
  }

  lemma {:induction false} EnterDistSettles(
    e: Entry, dirAbs: string, o: string, join: (string, string) -> string,
    hidden: string -> bool, s: string, ws: seq<string>, t: map<string, string>)
    requires WellFormedEntry(e)
    ensures var r := EnterDist(e, dirAbs, o, join, hidden, s, ws, DirUrl, t);
      forall d :: d in LiveDirsOf(e, o, hidden) ==> Settled(r, DirUrl(s, d), ws)
    decreases EntrySize(e), 0
  {
    if Walked(e, hidden) && e.Dir? {
      var c := ChildRel(o, e.name);
      var t0 := WalkDist(e.children, join(dirAbs, e.name), c, join, hidden, s, ws, DirUrl, t);
      var r := IndexAlias(t0, DirUrl(s, o), ws);
      WalkDistSettles(e.children, join(dirAbs, e.name), c, join, hidden, s, ws, t);
      forall d | d in LiveDirsOf(e, o, hidden)
        ensures Settled(r, DirUrl(s, d), ws)
      {
        LiveWithin(e.children, c, hidden, d);
        forall q | Probe(DirUrl(s, d), ws, q)
          ensures Same(t0, r, q)
        {
          ProbeWithin(s, d, c, ws, q);
          NotParentKey(s, q, o, e.name);
        }
        SettledKept(t0, r, DirUrl(s, d), ws);
      }
    }
  }

  /** The directories a walk in `c` refreshes lie within `c`. */
  lemma {:induction false} LiveWithin(es: seq<Entry>, c: string, hidden: string -> bool, d: string)
    requires d in LiveDirs(es, c, hidden)
    ensures Within(d, c)
    decreases SizeAll(es), 1
  {
    if d != c {
      var i := LiveBelowIndex(es, c, hidden, d);
      var n := es[i].name;
      LiveWithin(es[i].children, ChildRel(c, n), hidden, d);
      WithinChild(d, c, n);
    }
  }

  /** A directory refreshed below the entries is refreshed within one walked directory entry. */
  lemma {:induction false} LiveBelowIndex(es: seq<Entry>, c: string, hidden: string -> bool, d: string) returns (i: nat)
    requires d in LiveBelow(es, c, hidden)
    ensures i < |es| && Walked(es[i], hidden) && es[i].Dir?
    ensures d in LiveDirs(es[i].children, ChildRel(c, es[i].name), hidden)
    ensures SizeAll(es[i].children) < SizeAll(es)
    decreases |es|
  {
    if d in LiveDirsOf(es[0], c, hidden) {
      i := 0;
    } else {
      var j := LiveBelowIndex(es[1..], c, hidden, d);
      i := j + 1;
      assert es[i] == es[1..][j];
    }
  }

  /** With listings as `readdir` gives them, every directory the corrected rebuild refreshes
      (the root, or one entered without passing a hidden name, with some entry that is not
      hidden and not a link) ends with its key holding what the key of its first index file
      holds. */
  lemma RebuildDistAliases(idx: DistIndex, tree: seq<Entry>, join: (string, string) -> string)
    requires WellFormed(tree)
    ensures var s := KeyBase(idx.base);
      var t := RebuildDist(idx, tree, join).entries;
      forall d :: d in LiveDirs(tree, "", Hidden(idx.allowWellKnown)) ==>
        var a := DirUrl(s, d);
        FirstIndexFile(t, a, idx.indexFiles).Some? ==>
          a in t && t[a] == t[a + "/" + FirstIndexFile(t, a, idx.indexFiles).value]
  {
    var s := KeyBase(idx.base);
    var hidden := Hidden(idx.allowWellKnown);
    WalkDistSettles(tree, idx.root, "", join, hidden, s, idx.indexFiles, map[]);
  }

  /** `.well-known` is visible exactly when it is allowed; every other dot-name is hidden. */
  lemma WellKnownRule(allowWellKnown: bool, name: string)
    ensures name == ".well-known" ==> (Hidden(allowWellKnown)(name) <==> !allowWellKnown)
    ensures name != ".well-known" ==> (Hidden(allowWellKnown)(name) <==> StartsWith(name, "."))
  {
  }

  /** With the corrected directory key, the probe for index file `w` in directory `o` is exactly
      the key the walk gives that file, at the root and in every sub-directory. */
  lemma ProbeFindsIndexFile(s: string, o: string, w: string)
    ensures DirUrl(s, o) + "/" + w == s + "/" + ChildRel(o, w)
  {
  }

  /** As the bundle writes it, the probe in a sub-directory never equals the key of the index
      file it looks for: the `/` between the key base and the directory is missing. */
  lemma ProbeAsWrittenMisses(s: string, o: string, w: string)
    requires o != "" && !StartsWith(o, "/")
    ensures DirUrlAsWritten(s, o) + "/" + w != s + "/" + ChildRel(o, w)
  {
    var probe := DirUrlAsWritten(s, o) + "/" + w;
    var key := s + "/" + ChildRel(o, w);
    assert key[|s|] == '/';
    if |probe| > |s| {
      assert probe[|s|] == o[0];
    }
  }

  /** A name that does not start with a dot is never hidden. */
  lemma PlainNameVisible(allowWellKnown: bool, name: string)
    requires name != "" && name[0] != '.'
    ensures !Hidden(allowWellKnown)(name)
  {
    assert name[..1] != ".";
  }

  /** `path.join(dir, name)` for an absolute directory without trailing `/` and a plain name. */
  function PlainJoin(dir: string, name: string): string
  {
    dir + "/" + name
  }

  /** The example site: `/srv` holding `docs/index.html`. */
  const Site: seq<Entry> := [Dir("docs", [File("index.html")])]

  /** Its only file, entered under `/static`. */
  const SiteFiles: map<string, string> := map["/static/docs/index.html" := "/srv/docs/index.html"]

  lemma SiteFileEntered()
    ensures var t := map[]["/static" + "/" + ChildRel("docs", "index.html") := PlainJoin("/srv/docs", "index.html")];
      t == SiteFiles
  {
    assert ChildRel("docs", "index.html") == "docs/index.html";
    assert "/static" + "/" + "docs/index.html" == "/static/docs/index.html";
    assert PlainJoin("/srv/docs", "index.html") == "/srv/docs/index.html";
  }

  lemma SiteInnerAsWritten()
    ensures EnterDist(File("index.html"), "/srv/docs", "docs", PlainJoin, Hidden(false), "/static", ["index.html"], DirUrlAsWritten, map[])
      == SiteFiles
  {
    PlainNameVisible(false, "index.html");
    SiteFileEntered();
    assert DirUrlAsWritten("/static", "docs") == "/staticdocs";
    assert "/staticdocs" + "/" + "index.html" == "/staticdocs/index.html";
    assert SiteFiles.Keys == {"/static/docs/index.html"};
    assert "/staticdocs/index.html" != "/static/docs/index.html";
    assert FirstIndexFile(SiteFiles, "/staticdocs", ["index.html"]).None?;
    assert IndexAlias(SiteFiles, DirUrlAsWritten("/static", "docs"), ["index.html"]) == SiteFiles;
  }

  /** The names and keys met at the top of the example site. */
  lemma SitePaths()
    ensures !Hidden(false)("docs")
    ensures ChildRel("", "docs") == "docs" && PlainJoin("/srv", "docs") == "/srv/docs"
    ensures DirUrlAsWritten("/static", "") + "/" + "index.html" == "/static/index.html"
    ensures DirUrl("/static", "") + "/" + "index.html" == "/static/index.html"
    ensures "/static/index.html" != "/static/docs/index.html" && "/static/index.html" != "/static/docs"
  {
    PlainNameVisible(false, "docs");
  }

  lemma SiteAsWritten()
    ensures WalkDist(Site, "/srv", "", PlainJoin, Hidden(false), "/static", ["index.html"], DirUrlAsWritten, map[])
      == SiteFiles
  {
    var ws := ["index.html"];
    SiteInnerAsWritten();
    assert WalkDist([File("index.html")], "/srv/docs", "docs", PlainJoin, Hidden(false), "/static", ws, DirUrlAsWritten, map[])
      == SiteFiles;
    SitePaths();
    assert FirstIndexFile(SiteFiles, "/static", ws).None?;
    assert EnterDist(Site[0], "/srv", "", PlainJoin, Hidden(false), "/static", ws, DirUrlAsWritten, map[]) == SiteFiles;
  }

  /** The site served under `/static`, as the bundle writes the walk: the directory key
      `/static/docs` is never created, though the index file itself is indexed. */
  lemma AliasAsWrittenMissing()
    ensures var idx := NewDistIndex("/srv", "/static", Some(["index.html"]), false);
      var t := RebuildDistAsWritten(idx, Site, PlainJoin).entries;
      "/static/docs/index.html" in t && "/static/docs" !in t
  {
    SiteAsWritten();
    assert "/static/docs" != "/static/docs/index.html";
  }

  lemma SiteInner()
    ensures EnterDist(File("index.html"), "/srv/docs", "docs", PlainJoin, Hidden(false), "/static", ["index.html"], DirUrl, map[])
      == SiteFiles["/static/docs" := "/srv/docs/index.html"]
  {
    PlainNameVisible(false, "index.html");
    SiteFileEntered();
    assert DirUrl("/static", "docs") == "/static/docs";
    assert "/static/docs" + "/" + "index.html" == "/static/docs/index.html";
    assert "/static/docs/index.html" in SiteFiles;
    assert FirstIndexFile(SiteFiles, "/static/docs", ["index.html"]) == Some("index.html");
    assert IndexAlias(SiteFiles, DirUrl("/static", "docs"), ["index.html"]) == SiteFiles["/static/docs" := "/srv/docs/index.html"];
  }

  lemma SiteCorrected()
    ensures WalkDist(Site, "/srv", "", PlainJoin, Hidden(false), "/static", ["index.html"], DirUrl, map[])
      == SiteFiles["/static/docs" := "/srv/docs/index.html"]
  {
    var ws := ["index.html"];
    var t2 := SiteFiles["/static/docs" := "/srv/docs/index.html"];
    SiteInner();
    assert WalkDist([File("index.html")], "/srv/docs", "docs", PlainJoin, Hidden(false), "/static", ws, DirUrl, map[]) == t2;
    SitePaths();
    assert FirstIndexFile(t2, "/static", ws).None?;
    assert EnterDist(Site[0], "/srv", "", PlainJoin, Hidden(false), "/static", ws, DirUrl, map[]) == t2;
  }

  /** The same site with the corrected directory key: `/static/docs` maps to the index file. */
  lemma AliasCorrected()
    ensures var idx := NewDistIndex("/srv", "/static", Some(["index.html"]), false);
      var t := RebuildDist(idx, Site, PlainJoin).entries;
      "/static/docs" in t && t["/static/docs"] == "/srv/docs/index.html"
  {
    SiteCorrected();
  }

  /** `resolveUrl(url)`: one trailing `/` is dropped; an empty path, one not starting with `/`
      or one with a `..` segment is refused; outside a base other than `/` nothing resolves;
      otherwise the indexed file, if its path is non-empty and starts with the root, and
      nothing when it is not. */
  function ResolveUrlDist(idx: DistIndex, pathname: string): (r: Option<string>)
    ensures var e := if EndsWith(pathname, "/") then pathname[..|pathname| - 1] else pathname;
      r.Some? <==> (e != "" && StartsWith(e, "/") && ".." !in Split(e, '/')
        && (idx.base != "/" ==> UnderBase(idx.base, e))
        && e in idx.entries && idx.entries[e] != "" && StartsWith(idx.entries[e], idx.root))
    ensures var e := if EndsWith(pathname, "/") then pathname[..|pathname| - 1] else pathname;
      r.Some? ==> e in idx.entries && r.value == idx.entries[e]
  {
    var e := if EndsWith(pathname, "/") then pathname[..|pathname| - 1] else pathname;
    if e == "" || !StartsWith(e, "/") || ".." in Split(e, '/') then None
    else if idx.base != "/" && !UnderBase(idx.base, e) then None
    else if e in idx.entries && idx.entries[e] != "" && StartsWith(idx.entries[e], idx.root) then Some(idx.entries[e])
    else None
  }

  /** For a base other than `/` and a pathname that starts with `/`, has no trailing `/` and no
      `..` segment, the bundle resolves exactly as the source version over the same map. */
  lemma ResolveAgreesWithSource(idx: DistIndex, pathname: string)
    requires idx.base != "/"
    requires StartsWith(pathname, "/") && !EndsWith(pathname, "/") && ".." !in Split(pathname, '/')
    ensures ResolveUrlDist(idx, pathname) == ResolveUrl(Index(idx.root, idx.base, idx.entries), pathname)
  {
  }

  /** A pathname with a `..` segment never resolves, whatever the index holds. */
  lemma TraversalRefused(idx: DistIndex, pathname: string)
    requires !EndsWith(pathname, "/") && ".." in Split(pathname, '/')
    ensures ResolveUrlDist(idx, pathname).None?
  {
  }
}
