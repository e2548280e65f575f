/** The PATH route type: exact matching on `"METHOD PATH"` keys kept in a sorted sequence,
    with a parallel sequence of handlers, searched by binary search. */
module PathRoute {
  import opened Options
  import opened Strings
  import opened Paths

  /** The `keys` and `execs` arrays. */
  datatype Table<H> = Table(keys: seq<string>, execs: seq<H>)

  /** Ascending in JavaScript string order (equal keys allowed). */
  predicate Sorted(keys: seq<string>)
  {
    forall i, j :: 0 <= i < j < |keys| ==> !Less(keys[j], keys[i])
  }

  /** Keys sorted and handlers parallel to them. */
  predicate Valid<H>(t: Table<H>)
  {
    |t.keys| == |t.execs| && Sorted(t.keys)
  }

  /** The reference definition of a lower bound: the first index whose key is not below `key`
      (the length when there is none). */
  function FirstNotLess(arr: seq<string>, key: string): (i: nat)
    ensures i <= |arr|
    ensures forall j :: 0 <= j < i ==> Less(arr[j], key)
    ensures i < |arr| ==> !Less(arr[i], key)
    decreases |arr|
  {
    if |arr| == 0 || !Less(arr[0], key) then 0 else 1 + FirstNotLess(arr[1..], key)
  }

  /** `lowerBound(arr, key)`: binary search with midpoint `(l + r) >>> 1`; indices stay far
      below 2^32, where the unsigned shift is plain halving. */
  method LowerBound(arr: seq<string>, key: string) returns (i: nat)
    ensures i <= |arr|
    ensures Sorted(arr) ==> (forall j :: 0 <= j < i ==> Less(arr[j], key))
    ensures Sorted(arr) ==> (forall j :: i <= j < |arr| ==> !Less(arr[j], key))
    ensures Sorted(arr) ==> i == FirstNotLess(arr, key)
  {
    var l, r := 0, |arr|;
    while l < r
      invariant 0 <= l <= r <= |arr|
      invariant Sorted(arr) ==> forall j :: 0 <= j < l ==> Less(arr[j], key)
      invariant Sorted(arr) ==> forall j :: r <= j < |arr| ==> !Less(arr[j], key)
      decreases r - l
    {
      var mid := (l + r) / 2;
      if Less(arr[mid], key) {
        if Sorted(arr) {
          forall j | l <= j <= mid
            ensures Less(arr[j], key)
          {
            if j < mid {
              NotLessMeansLessEq(arr[mid], arr[j]);
              LessEqLessTrans(arr[j], arr[mid], key);
            }
          }
        }
        l := mid + 1;
      } else {
        if Sorted(arr) {
          forall j | mid <= j < r
            ensures !Less(arr[j], key)
          {
            if j > mid {
              NotLessMeansLessEq(arr[mid], key);
              NotLessMeansLessEq(arr[j], arr[mid]);
              LessEqTransitive(key, arr[mid], arr[j]);
              LessEqNotLess(key, arr[j]);
            }
          }
        }
        r := mid;
      }
    }
    i := l;
    if Sorted(arr) {
      FirstNotLessUnique(arr, key, i);
    }
  }

  lemma LessEqNotLess(a: string, b: string)
    requires LessEq(a, b)
    ensures !Less(b, a)
  {
    if a != b {
      LessAsymmetric(a, b);
    } else {
      LessIrreflexive(a);
    }
  }

  lemma LessEqTransitive(a: string, b: string, c: string)
    requires LessEq(a, b) && LessEq(b, c)
    ensures LessEq(a, c)
  {
    if a != b && b != c {
      LessTransitive(a, b, c);
    }
  }

  /** The boundary between keys below `key` and the rest is unique. */
  lemma FirstNotLessUnique(arr: seq<string>, key: string, i: nat)
    requires i <= |arr|
    requires forall j :: 0 <= j < i ==> Less(arr[j], key)
    requires forall j :: i <= j < |arr| ==> !Less(arr[j], key)
    ensures i == FirstNotLess(arr, key)
  {
    var f := FirstNotLess(arr, key);
    assert i < |arr| ==> !Less(arr[i], key);
  }

  /** The handler of the first entry with exactly this key. */
  function Lookup<H>(t: Table<H>, key: string): (r: Option<H>)
    requires |t.keys| == |t.execs|
    ensures r.Some? <==> key in t.keys
    decreases |t.keys|
  {
    if |t.keys| == 0 then None
    else if t.keys[0] == key then Some(t.execs[0])
    else Lookup(Table(t.keys[1..], t.execs[1..]), key)
  }

  /** The index of the first entry with this key. */
  function FirstIndex(keys: seq<string>, key: string): (i: nat)
    requires key in keys
    ensures i < |keys| && keys[i] == key && key !in keys[..i]
    decreases |keys|
  {
    if keys[0] == key then 0 else 1 + FirstIndex(keys[1..], key)
  }

  lemma {:induction false} LookupFirst<H>(t: Table<H>, key: string)
    requires |t.keys| == |t.execs| && key in t.keys
    ensures Lookup(t, key) == Some(t.execs[FirstIndex(t.keys, key)])
    decreases |t.keys|
  {
    if t.keys[0] != key {
      assert key in t.keys[1..];
      LookupFirst(Table(t.keys[1..], t.execs[1..]), key);
    }
  }

  /** An entry whose key is not in `keys[..i]` is the first with that key. */
  lemma FirstIndexAt(keys: seq<string>, key: string, i: nat)
    requires i < |keys| && keys[i] == key && key !in keys[..i]
    ensures FirstIndex(keys, key) == i
  {
    var f := FirstIndex(keys, key);
    assert forall j :: 0 <= j < i ==> keys[..i][j] == keys[j];
    assert forall j :: 0 <= j < f ==> keys[..f][j] == keys[j];
  }

  /** Inserting one key at its lower bound (`splice(i, 0, key)` on both arrays). The new
      entry comes before every equal key, so it is the one found for that key; every other key
      keeps its handler, and the table stays sorted and parallel. */
  method Insert<H>(t: Table<H>, key: string, exec: H) returns (t': Table<H>)
    requires Valid(t)
    ensures Valid(t')
    ensures multiset(t'.keys) == multiset(t.keys) + multiset{key}
    ensures |t'.keys| == |t.keys| + 1
    ensures Lookup(t', key) == Some(exec)
    ensures forall k :: k != key ==> Lookup(t', k) == Lookup(t, k)
  {
    var i := LowerBound(t.keys, key);
    t' := Table(t.keys[..i] + [key] + t.keys[i..], t.execs[..i] + [exec] + t.execs[i..]);
    assert t.keys == t.keys[..i] + t.keys[i..];
    InsertSorted(t.keys, key, i);
    assert key !in t'.keys[..i] by {
      assert t'.keys[..i] == t.keys[..i];
      forall j | 0 <= j < i
        ensures t.keys[j] != key
      {
        LessIrreflexive(key);
      }
    }
    FirstIndexAt(t'.keys, key, i);
    LookupFirst(t', key);
    forall k | k != key
      ensures Lookup(t', k) == Lookup(t, k)
    {
      LookupShift(t, i, key, exec, k);
    }
  }

  /** A key inserted at its lower bound keeps the keys sorted. */
  lemma InsertSorted(keys: seq<string>, key: string, i: nat)
    requires Sorted(keys) && i <= |keys|
    requires forall j :: 0 <= j < i ==> Less(keys[j], key)
    requires forall j :: i <= j < |keys| ==> !Less(keys[j], key)
    ensures Sorted(keys[..i] + [key] + keys[i..])
  {
    var ks := keys[..i] + [key] + keys[i..];
    forall a, b | 0 <= a < b < |ks|
      ensures !Less(ks[b], ks[a])
    {
      if a == i {
        assert ks[b] == keys[b - 1];
      } else if b == i {
        assert ks[a] == keys[a];
        LessAsymmetric(keys[a], key);
      } else {
        var a0 := if a < i then a else a - 1;
        var b0 := if b < i then b else b - 1;
        assert ks[a] == keys[a0] && ks[b] == keys[b0];
      }
    }
  }

  /** Inserting one entry does not change the handler found for any other key. */
  lemma LookupShift<H>(t: Table<H>, i: nat, key: string, exec: H, k: string)
    requires |t.keys| == |t.execs| && i <= |t.keys| && k != key
    ensures Lookup(Table(t.keys[..i] + [key] + t.keys[i..], t.execs[..i] + [exec] + t.execs[i..]), k) == Lookup(t, k)
  {
    var t' := Table(t.keys[..i] + [key] + t.keys[i..], t.execs[..i] + [exec] + t.execs[i..]);
    assert t.keys == t.keys[..i] + t.keys[i..];
    if k in t.keys {
      var f := FirstIndex(t.keys, k);
      var f' := if f < i then f else f + 1;
      assert t'.keys[f'] == k && t'.execs[f'] == t.execs[f];
      assert k !in t'.keys[..f'] by {
        if f < i {
          assert t'.keys[..f'] == t.keys[..f];
        } else {
          assert t'.keys[..f'] == t.keys[..i] + [key] + t.keys[i..f];
          assert t.keys[..f] == t.keys[..i] + t.keys[i..f];
        }
      }
      FirstIndexAt(t'.keys, k, f');
      LookupFirst(t', k);
      LookupFirst(t, k);
    } else {
      assert k !in t'.keys;
    }
  }

  /** A PATH rule with its pipes already composed into `exec`; the path is kept verbatim. */
  datatype Rule<H> = Rule(path: string, methods: Option<seq<string>>, exec: H)

  const AllMethods: seq<string> := ["GET", "HEAD", "POST", "PUT", "PATCH", "DELETE", "OPTIONS"]

  /** `rule.methods?.length ? rule.methods : [all seven]`. */
  function RuleMethods<H>(rule: Rule<H>): (ms: seq<string>)
    ensures |ms| > 0
    ensures rule.methods.Some? && rule.methods.value != [] ==> ms == rule.methods.value
    ensures rule.methods.None? || rule.methods.value == [] ==> ms == AllMethods
  {
    if rule.methods.Some? && |rule.methods.value| > 0 then rule.methods.value else AllMethods
  }

  /** The key for a method and a path: `${m} ${path}`. */
  function Key(m: string, path: string): string
  {
    m + " " + path
  }

  /** Keys determine their method and path when the method has no space (every HTTP method
      token): distinct rules never share a key by accident. */
  lemma KeyInjective(m1: string, p1: string, m2: string, p2: string)
    requires ' ' !in m1 && ' ' !in m2
    requires Key(m1, p1) == Key(m2, p2)
    ensures m1 == m2 && p1 == p2
  {
    var k := Key(m1, p1);
    assert k[..|m1|] == m1 && k[|m1| + 1..] == p1;
    assert Key(m2, p2)[..|m2|] == m2 && k[|m2| + 1..] == p2;
    assert k[|m1|] == ' ' && k[|m2|] == ' ';
    assert |m1| == |m2|;
    assert m1 == k[..|m1|] == m2;
    assert p1 == k[|m1| + 1..] == p2;
  }

  /** `addRule(rule)`: one key per method, each inserted at its lower bound. Afterwards every
      method of the rule finds the rule's handler at the rule's verbatim path, and all other
      keys keep theirs. */
  method AddRule<H>(t: Table<H>, rule: Rule<H>) returns (t': Table<H>)
    requires Valid(t)
    ensures Valid(t')
    ensures |t'.keys| == |t.keys| + |RuleMethods(rule)|
    ensures forall m :: m in RuleMethods(rule) ==> Lookup(t', Key(m, rule.path)) == Some(rule.exec)
    ensures forall k :: (forall m :: m in RuleMethods(rule) ==> k != Key(m, rule.path)) ==> Lookup(t', k) == Lookup(t, k)
  {
    var ms := RuleMethods(rule);
    t' := t;
    var n := 0;
    while n < |ms|
      invariant 0 <= n <= |ms|
      invariant Valid(t')
      invariant |t'.keys| == |t.keys| + n
      invariant forall m :: m in ms[..n] ==> Lookup(t', Key(m, rule.path)) == Some(rule.exec)
      invariant forall k :: (forall m :: m in ms[..n] ==> k != Key(m, rule.path)) ==> Lookup(t', k) == Lookup(t, k)
    {
      var before := t';
      t' := Insert(t', Key(ms[n], rule.path), rule.exec);
      assert ms[..n + 1] == ms[..n] + [ms[n]];
      forall k | forall m :: m in ms[..n + 1] ==> k != Key(m, rule.path)
        ensures Lookup(t', k) == Lookup(t, k)
      {
        assert k != Key(ms[n], rule.path);
        assert Lookup(t', k) == Lookup(before, k);
      }
      n := n + 1;
    }
    assert ms[..n] == ms;
  }

  /** The key `match` searches for: the method upper-cased (GET when missing) and the
      pathname without one trailing `/` (`/` when that leaves nothing). */
  function RequestKey(verb: string, pathname: string): string
  {
    Key(Upper(if verb == "" then "GET" else verb), StripTrailingSlash(pathname))
  }

  /** `match(ctx)`: the handler of the first entry with exactly the request's key, found by
      binary search; no HEAD fallback and no 405. */
  method Match<H>(t: Table<H>, verb: string, pathname: string) returns (r: Option<H>)
    requires Valid(t)
    ensures r == Lookup(t, RequestKey(verb, pathname))
    ensures r.Some? <==> RequestKey(verb, pathname) in t.keys
  {
    var key := RequestKey(verb, pathname);
    var i := LowerBound(t.keys, key);
    if i < |t.keys| && t.keys[i] == key {
      r := Some(t.execs[i]);
      assert key !in t.keys[..i] by {
        forall j | 0 <= j < i
          ensures t.keys[j] != key
        {
          LessIrreflexive(key);
        }
      }
      FirstIndexAt(t.keys, key, i);
      LookupFirst(t, key);
    } else {
      r := None;
      forall j | 0 <= j < |t.keys|
        ensures t.keys[j] != key
      {
        LessIrreflexive(key);
        if j >= i {
          NotLessMeansLessEq(t.keys[i], key);
          assert Less(key, t.keys[i]);
          if j > i {
            NotLessMeansLessEq(t.keys[j], t.keys[i]);
            LessLessEqTrans(key, t.keys[i], t.keys[j]);
          }
        }
      }
    }
  }

  lemma LessLessEqTrans(a: string, b: string, c: string)
    requires Less(a, b) && LessEq(b, c)
    ensures Less(a, c)
  {
    if b != c {
      LessTransitive(a, b, c);
    }
  }

  /** Re-adding a rule for a method and path already present makes the newest handler the
      one matched: there is no duplicate check. */
  method ReAddWins<H>(t: Table<H>, m: string, path: string, first: H, second: H) returns (t': Table<H>)
    requires Valid(t)
    ensures Valid(t')
    ensures Lookup(t', Key(m, path)) == Some(second)
    ensures |t'.keys| == |t.keys| + 2
  {
    var t1 := AddRule(t, Rule(path, Some([m]), first));
    t' := AddRule(t1, Rule(path, Some([m]), second));
    assert m in RuleMethods(Rule(path, Some([m]), second));
  }
}
