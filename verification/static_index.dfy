/** The static file index: a walk over the directory tree under the root builds a map from URL
    paths to absolute file paths, and requests are resolved against that map. The file system
    is given as an immutable tree; `path.join` is a parameter. */
module StaticIndex {
  import opened Options
  import opened Strings

  /** A directory entry as `readdir` reports it. `Link` is a symbolic link, `Other` anything that
      is neither file, directory nor link. */
  datatype Entry =
    | File(name: string)
    | Dir(name: string, children: seq<Entry>)
    | Link(name: string)
    | Other(name: string)

  /** A termination measure: every entry counts one, plus what it contains. */
  function EntrySize(e: Entry): nat
  {
    if e.Dir? then 1 + SizeAll(e.children) else 1
  }

  function SizeAll(es: seq<Entry>): nat
  {
    if |es| == 0 then 0 else EntrySize(es[0]) + SizeAll(es[1..])
  }

  /** `rel ? rel + '/' + name : name`. */
  function ChildRel(rel: string, name: string): string
  {
    if rel == "" then name else rel + "/" + name
  }

  /** A file found under the root: the names on its path, its relative path and its absolute
      path. */
  datatype Found = Found(segs: seq<string>, rel: string, abs: string)

  /** Every file under `es`, depth first in directory order, whatever its name. */
  function Files(es: seq<Entry>, dirAbs: string, rel: string, segs: seq<string>, join: (string, string) -> string)
    : (fs: seq<Found>)
    ensures forall i :: 0 <= i < |fs| ==> |fs[i].segs| > |segs| && fs[i].segs[..|segs|] == segs
    decreases SizeAll(es), 1
  {
    if |es| == 0 then [] else FilesOf(es[0], dirAbs, rel, segs, join) + Files(es[1..], dirAbs, rel, segs, join)
  }

  /** Every file at or under one entry; each has the entry's name right after `segs`. */
  function FilesOf(e: Entry, dirAbs: string, rel: string, segs: seq<string>, join: (string, string) -> string)
    : (fs: seq<Found>)
    ensures forall i :: 0 <= i < |fs| ==> |fs[i].segs| > |segs| && fs[i].segs[..|segs| + 1] == segs + [e.name]
    ensures forall i :: 0 <= i < |fs| ==> fs[i].segs[..|segs|] == segs
    decreases EntrySize(e), 0
  {
    var here :=
      if e.File? then [Found(segs + [e.name], ChildRel(rel, e.name), join(dirAbs, e.name))]
      else if e.Dir? then Files(e.children, join(dirAbs, e.name), ChildRel(rel, e.name), segs + [e.name], join)
      else [];
    assert forall i :: 0 <= i < |here| ==> |here[i].segs| > |segs| && here[i].segs[..|segs| + 1] == segs + [e.name] by {
      if e.Dir? {
        forall i | 0 <= i < |here|
          ensures |here[i].segs| > |segs| && here[i].segs[..|segs| + 1] == segs + [e.name]
        {
          assert here[i].segs[..|segs| + 1] == here[i].segs[..|segs + [e.name]|];
        }
      }
    }
    assert forall i :: 0 <= i < |here| ==> here[i].segs[..|segs|] == segs by {
      forall i | 0 <= i < |here|
        ensures here[i].segs[..|segs|] == segs
      {
        assert here[i].segs[..|segs|] == here[i].segs[..|segs| + 1][..|segs|];
      }
    }
    here
  }

  /** A file is visible when no name on its path is hidden. */
  predicate Visible(f: Found, hidden: string -> bool)
  {
    forall i :: 0 <= i < |f.segs| ==> !hidden(f.segs[i])
  }

  /** The visible files, in order. */
  function Filter(fs: seq<Found>, hidden: string -> bool): (r: seq<Found>)
    ensures forall f :: f in r <==> f in fs && Visible(f, hidden)
    decreases |fs|
  {
    if |fs| == 0 then []
    else (if Visible(fs[0], hidden) then [fs[0]] else []) + Filter(fs[1..], hidden)
  }

  lemma {:induction false} FilterAppend(a: seq<Found>, b: seq<Found>, hidden: string -> bool)
    ensures Filter(a + b, hidden) == Filter(a, hidden) + Filter(b, hidden)
    decreases |a|
  {
    if |a| == 0 {
      assert a + b == b;
    } else {
      assert (a + b)[1..] == a[1..] + b;
      FilterAppend(a[1..], b, hidden);
    }
  }

  /** Entering each file of `fs` into `acc` in order, under the key `url(rel)`. */
  function Fold(acc: map<string, string>, fs: seq<Found>, url: string -> string): map<string, string>
    decreases |fs|
  {
    if |fs| == 0 then acc else Fold(acc[url(fs[0].rel) := fs[0].abs], fs[1..], url)
  }

  lemma {:induction false} FoldAppend(acc: map<string, string>, a: seq<Found>, b: seq<Found>, url: string -> string)
    ensures Fold(acc, a + b, url) == Fold(Fold(acc, a, url), b, url)
    decreases |a|
  {
    if |a| == 0 {
      assert a + b == b;
    } else {
      assert (a + b)[1..] == a[1..] + b;
      FoldAppend(acc[url(a[0].rel) := a[0].abs], a[1..], b, url);
    }
  }

  /** The last file of `fs` whose key is `k`, if any. */
  function LastFor(fs: seq<Found>, url: string -> string, k: string): (f: Option<Found>)
    ensures f.None? <==> forall i :: 0 <= i < |fs| ==> url(fs[i].rel) != k
    ensures f.Some? ==> f.value in fs && url(f.value.rel) == k
    decreases |fs|
  {
    if |fs| == 0 then None
    else if url(fs[|fs| - 1].rel) == k then Some(fs[|fs| - 1])
    else LastFor(fs[..|fs| - 1], url, k)
  }

  /** After the fold, a key is present exactly when it was before or some file has it, and it
      maps to the last such file's absolute path. */
  lemma {:induction false} FoldLookup(acc: map<string, string>, fs: seq<Found>, url: string -> string, k: string)
    ensures k in Fold(acc, fs, url) <==> k in acc || LastFor(fs, url, k).Some?
    ensures LastFor(fs, url, k).Some? ==> Fold(acc, fs, url)[k] == LastFor(fs, url, k).value.abs
    ensures LastFor(fs, url, k).None? && k in acc ==> Fold(acc, fs, url)[k] == acc[k]
    decreases |fs|
  {
    if |fs| > 0 {
      var n := |fs|;
      assert fs == fs[..n - 1] + [fs[n - 1]];
      FoldAppend(acc, fs[..n - 1], [fs[n - 1]], url);
      FoldLookup(acc, fs[..n - 1], url, k);
      var mid := Fold(acc, fs[..n - 1], url);
      assert Fold(mid, [fs[n - 1]], url) == mid[url(fs[n - 1].rel) := fs[n - 1].abs];
    }
  }

  /** The walk, as `rebuild` performs it, over the entries of one directory in order. */
  function Walk(
    es: seq<Entry>, dirAbs: string, rel: string, join: (string, string) -> string,
    hidden: string -> bool, url: string -> string, acc: map<string, string>): map<string, string>
    decreases SizeAll(es), 1
  {
    if |es| == 0 then acc
    else Walk(es[1..], dirAbs, rel, join, hidden, url, Enter(es[0], dirAbs, rel, join, hidden, url, acc))
  }

  /** One entry of the walk: a hidden name is skipped together with everything below it, a
      directory is entered, a file is entered under `url(rel)`, and anything else (links
      included) is ignored. */
  function Enter(
    e: Entry, dirAbs: string, rel: string, join: (string, string) -> string,
    hidden: string -> bool, url: string -> string, acc: map<string, string>): map<string, string>
    decreases EntrySize(e), 0
  {
    if hidden(e.name) then acc
    else if e.Dir? then Walk(e.children, join(dirAbs, e.name), ChildRel(rel, e.name), join, hidden, url, acc)
    else if e.File? then acc[url(ChildRel(rel, e.name)) := join(dirAbs, e.name)]
    else acc
  }

  /** The walk enters exactly the visible files, in depth-first directory order: pruning a
      hidden directory is the same as dropping every file that has a hidden name on its path. */
  lemma {:induction false} WalkIsFold(
    es: seq<Entry>, dirAbs: string, rel: string, segs: seq<string>, join: (string, string) -> string,
    hidden: string -> bool, url: string -> string, acc: map<string, string>)
    requires forall i :: 0 <= i < |segs| ==> !hidden(segs[i])
    ensures Walk(es, dirAbs, rel, join, hidden, url, acc)
      == Fold(acc, Filter(Files(es, dirAbs, rel, segs, join), hidden), url)
    decreases SizeAll(es), 1
  {
    if |es| > 0 {
      var here := FilesOf(es[0], dirAbs, rel, segs, join);
      var rest := Files(es[1..], dirAbs, rel, segs, join);
      FilterAppend(here, rest, hidden);
      FoldAppend(acc, Filter(here, hidden), Filter(rest, hidden), url);
      EnterIsFold(es[0], dirAbs, rel, segs, join, hidden, url, acc);
      WalkIsFold(es[1..], dirAbs, rel, segs, join, hidden, url, Enter(es[0], dirAbs, rel, join, hidden, url, acc));
    }
  }

  lemma {:induction false} EnterIsFold(
    e: Entry, dirAbs: string, rel: string, segs: seq<string>, join: (string, string) -> string,
    hidden: string -> bool, url: string -> string, acc: map<string, string>)
    requires forall i :: 0 <= i < |segs| ==> !hidden(segs[i])
    ensures Enter(e, dirAbs, rel, join, hidden, url, acc)
      == Fold(acc, Filter(FilesOf(e, dirAbs, rel, segs, join), hidden), url)
    decreases EntrySize(e), 0
  {
    var here := FilesOf(e, dirAbs, rel, segs, join);
    if hidden(e.name) {
      HiddenContributesNothing(here, segs, e.name, hidden);
    } else if e.Dir? {
      WalkIsFold(e.children, join(dirAbs, e.name), ChildRel(rel, e.name), segs + [e.name], join, hidden, url, acc);
    } else if e.File? {
      var f := here[0];
      assert Visible(f, hidden) by {
        forall i | 0 <= i < |f.segs|
          ensures !hidden(f.segs[i])
        {
          if i < |segs| {
            assert f.segs[i] == segs[i];
          }
        }
      }
      assert Filter(here, hidden) == [f] by {
        assert here[1..] == [];
      }
    } else {
      assert here == [];
    }
  }

  /** Files below a hidden name are all invisible. */
  lemma HiddenContributesNothing(here: seq<Found>, segs: seq<string>, name: string, hidden: string -> bool)
    requires hidden(name)
    requires forall i :: 0 <= i < |here| ==> |here[i].segs| > |segs| && here[i].segs[..|segs| + 1] == segs + [name]
    ensures Filter(here, hidden) == []
  {
    forall f | f in here
      ensures !Visible(f, hidden)
    {
      var i :| 0 <= i < |here| && here[i] == f;
      assert f.segs[|segs|] == f.segs[..|segs| + 1][|segs|];
    }
    if |Filter(here, hidden)| > 0 {
      assert Filter(here, hidden)[0] in Filter(here, hidden);
    }
  }

  /** The index of the source version: resolved root, URL base and the current map. */
  datatype Index = Index(root: string, base: string, entries: map<string, string>)

  /** The constructor: `urlBase` loses one trailing `/` (so `/` becomes the empty base). */
  function NewIndex(root: string, urlBase: string): (idx: Index)
    ensures idx.root == root && idx.entries == map[]
    ensures idx.base + "/" == urlBase || (idx.base == urlBase && !EndsWith(urlBase, "/"))
  {
    Index(root, if EndsWith(urlBase, "/") then urlBase[..|urlBase| - 1] else urlBase, map[])
  }

  /** Names starting with a dot are hidden. */
  predicate DotName(name: string)
  {
    StartsWith(name, ".")
  }

  /** `childRel.replace(/\\/g, '/')`. */
  function Slashes(s: string): (r: string)
    ensures |r| == |s|
    ensures forall i :: 0 <= i < |s| ==> r[i] == (if s[i] == '\\' then '/' else s[i])
  {
    if |s| == 0 then "" else [if s[0] == '\\' then '/' else s[0]] + Slashes(s[1..])
  }

  /** The URL key of a file: base, `/`, the relative path with backslashes turned into `/`. */
  function UrlOf(base: string, rel: string): string
  {
    base + "/" + Slashes(rel)
  }

  /** `rebuild()`: walks the tree from the root into a fresh map and replaces the old map. The
      tree is taken as fully readable: a failing `readdir` is not modelled. */
  function Rebuild(idx: Index, tree: seq<Entry>, join: (string, string) -> string): (r: Index)
    ensures r.root == idx.root && r.base == idx.base
    ensures r.entries == Fold(map[], Filter(Files(tree, idx.root, "", [], join), DotName), rel => UrlOf(idx.base, rel))
  {
    WalkIsFold(tree, idx.root, "", [], join, DotName, rel => UrlOf(idx.base, rel), map[]);
    idx.(entries := Walk(tree, idx.root, "", join, DotName, rel => UrlOf(idx.base, rel), map[]))
  }

  /** `lookup(urlPath)`: a read of the current map. */
  function Lookup(idx: Index, urlPath: string): (r: Option<string>)
    ensures r.Some? <==> urlPath in idx.entries
    ensures r.Some? ==> r.value == idx.entries[urlPath]
  {
    if urlPath in idx.entries then Some(idx.entries[urlPath]) else None
  }

  /** Whether a pathname lies under the base: equal to it or below it. */
  predicate UnderBase(base: string, pathname: string)
  {
    pathname == base || StartsWith(pathname, base + "/")
  }

  /** `resolveUrl(url)`: the indexed file for a pathname under the base, provided its path is
      non-empty and starts with the root. */
  function ResolveUrl(idx: Index, pathname: string): (r: Option<string>)
    ensures r.Some? ==> UnderBase(idx.base, pathname) && Lookup(idx, pathname) == r
    ensures r.Some? ==> r.value != "" && StartsWith(r.value, idx.root)
  {
    if !UnderBase(idx.base, pathname) then None
    else
      var abs := Lookup(idx, pathname);
      if abs.Some? && abs.value != "" && StartsWith(abs.value, idx.root) then abs else None
  }

  /** After a rebuild, a pathname resolves exactly when it lies under the base and is the key of
      a file reached without passing a dot-name, whose absolute path is non-empty and starts
      with the root; it resolves to the last such file in walk order. */
  lemma ResolveAfterRebuild(idx: Index, tree: seq<Entry>, join: (string, string) -> string, pathname: string)
    ensures var r := ResolveUrl(Rebuild(idx, tree, join), pathname);
      var f := LastFor(Filter(Files(tree, idx.root, "", [], join), DotName), rel => UrlOf(idx.base, rel), pathname);
      r.Some? <==> (UnderBase(idx.base, pathname) && f.Some? && f.value.abs != "" && StartsWith(f.value.abs, idx.root))
    ensures var r := ResolveUrl(Rebuild(idx, tree, join), pathname);
      var f := LastFor(Filter(Files(tree, idx.root, "", [], join), DotName), rel => UrlOf(idx.base, rel), pathname);
      r.Some? ==> r.value == f.value.abs && Visible(f.value, DotName)
  {
    var fs := Filter(Files(tree, idx.root, "", [], join), DotName);
    FoldLookup(map[], fs, rel => UrlOf(idx.base, rel), pathname);
  }

  /** Rebuilding a fully readable tree does not depend on the map it replaces. */
  lemma RebuildReplaces(idx: Index, other: map<string, string>, tree: seq<Entry>, join: (string, string) -> string)
    ensures Rebuild(idx, tree, join) == Rebuild(idx.(entries := other), tree, join)
  {
  }
}
