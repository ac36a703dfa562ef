/**
 * PHP arrays with string keys, as the controller uses them: ordered, with unique
 * keys. `$a[$k] = $v` replaces the value in place when `$k` is already a key and
 * appends otherwise; `$l + $r` keeps all of `$l` and appends the entries of `$r`
 * whose keys `$l` lacks.
 */
module PhpArrays {
  import opened Wrappers

  type OrderedMap = seq<(string, string)>

  predicate UniqueKeys(a: OrderedMap)
  {
    forall i, j :: 0 <= i < j < |a| ==> a[i].0 != a[j].0
  }

  /** The keys of an array, in order. */
  function Keys(a: OrderedMap): seq<string>
  {
    if a == [] then [] else [a[0].0] + Keys(a[1..])
  }

  /** The keys of `ks` that `drop` lacks, in their order. */
  function Without(ks: seq<string>, drop: seq<string>): seq<string>
  {
    if ks == [] then []
    else (if ks[0] in drop then [] else [ks[0]]) + Without(ks[1..], drop)
  }

  /** `$a[$k] ?? null`: the value stored under `k`, if any. */
  function Get(a: OrderedMap, k: string): (v: Option<string>)
    ensures v.Some? <==> exists i :: 0 <= i < |a| && a[i].0 == k
    ensures v.Some? ==> exists i :: 0 <= i < |a| && a[i] == (k, v.value)
  {
    if a == [] then None
    else if a[0].0 == k then Some(a[0].1)
    else Get(a[1..], k)
  }

  /** With unique keys, the first key does not occur again. */
  lemma HeadKeyNotInTail(a: OrderedMap)
    requires UniqueKeys(a) && a != []
    ensures Get(a[1..], a[0].0).None?
  {
    forall i | 0 <= i < |a| - 1 ensures a[1..][i].0 != a[0].0 {
      assert a[1..][i] == a[i + 1];
    }
  }

  /** Dropping the first entry keeps keys unique. */
  lemma TailUnique(a: OrderedMap)
    requires UniqueKeys(a) && a != []
    ensures UniqueKeys(a[1..])
  {
    var t := a[1..];
    forall i, j | 0 <= i < j < |t| ensures t[i].0 != t[j].0 {
      assert t[i] == a[i + 1] && t[j] == a[j + 1];
    }
  }

  /** The first array decides a key it holds; otherwise the second does. */
  lemma {:induction false} GetAppend(x: OrderedMap, y: OrderedMap, k: string)
    ensures Get(x + y, k) == if Get(x, k).Some? then Get(x, k) else Get(y, k)
  {
    if x == [] {
      assert x + y == y;
    } else {
      assert (x + y)[0] == x[0];
      assert (x + y)[1..] == x[1..] + y;
      GetAppend(x[1..], y, k);
    }
  }

  /** `$a[$k] = $v`: replaces the value in place when `k` is a key, appends otherwise. */
  function Put(a: OrderedMap, k: string, v: string): (r: OrderedMap)
    ensures forall j :: Get(r, j) == if j == k then Some(v) else Get(a, j)
    ensures |r| == if Get(a, k).Some? then |a| else |a| + 1
    ensures forall i :: 0 <= i < |a| ==> r[i].0 == a[i].0
  {
    if a == [] then [(k, v)]
    else if a[0].0 == k then [(k, v)] + a[1..]
    else [a[0]] + Put(a[1..], k, v)
  }

  /** An entry whose key the rest lacks can go in front. */
  lemma ConsUnique(e: (string, string), t: OrderedMap)
    requires UniqueKeys(t) && Get(t, e.0).None?
    ensures UniqueKeys([e] + t)
  {
    var m := [e] + t;
    forall i, j | 0 <= i < j < |m| ensures m[i].0 != m[j].0 {
      assert m[j] == t[j - 1];
      if i > 0 {
        assert m[i] == t[i - 1];
      }
    }
  }

  /** Assignment keeps the keys unique. */
  lemma {:induction false} PutUnique(a: OrderedMap, k: string, v: string)
    requires UniqueKeys(a)
    ensures UniqueKeys(Put(a, k, v))
  {
    if a == [] {
    } else if a[0].0 == k {
      HeadKeyNotInTail(a);
      TailUnique(a);
      ConsUnique((k, v), a[1..]);
    } else {
      HeadKeyNotInTail(a);
      TailUnique(a);
      PutUnique(a[1..], k, v);
      ConsUnique(a[0], Put(a[1..], k, v));
    }
  }

  /** A lookup succeeds exactly for the keys of the array. */
  lemma {:induction false} GetKeys(a: OrderedMap, k: string)
    ensures Get(a, k).Some? <==> k in Keys(a)
  {
    if a != [] {
      GetKeys(a[1..], k);
    }
  }

  /** The keys of a concatenation are the keys of its parts. */
  lemma {:induction false} KeysAppend(x: OrderedMap, y: OrderedMap)
    ensures Keys(x + y) == Keys(x) + Keys(y)
  {
    if x == [] {
      assert x + y == y;
    } else {
      assert (x + y)[0] == x[0];
      assert (x + y)[1..] == x[1..] + y;
      KeysAppend(x[1..], y);
    }
  }

  /** `$a[$k] = $v` keeps the order of the keys, and appends `k` when it is new. */
  lemma {:induction false} PutKeys(a: OrderedMap, k: string, v: string)
    ensures Keys(Put(a, k, v)) == if Get(a, k).Some? then Keys(a) else Keys(a) + [k]
  {
    if a != [] && a[0].0 != k {
      PutKeys(a[1..], k, v);
      assert ([a[0]] + Put(a[1..], k, v))[1..] == Put(a[1..], k, v);
    } else if a != [] {
      assert ([(k, v)] + a[1..])[1..] == a[1..];
    }
  }

  /** Appending to a non-empty array appends to its tail. */
  lemma AppendAfterHead(a: OrderedMap, e: (string, string))
    requires a != []
    ensures a + [e] == [a[0]] + (a[1..] + [e])
  {
    assert a == [a[0]] + a[1..];
  }

  /** A new key is appended at the end, after all existing entries. */
  lemma {:induction false} PutAbsent(a: OrderedMap, k: string, v: string)
    requires Get(a, k).None?
    ensures Put(a, k, v) == a + [(k, v)]
  {
    if a != [] {
      assert a[0].0 != k && Get(a[1..], k).None?;
      PutAbsent(a[1..], k, v);
      AppendAfterHead(a, (k, v));
    }
  }

  /** The entries of `r` whose keys `l` lacks, in their order. */
  function Missing(r: OrderedMap, l: OrderedMap): OrderedMap
  {
    if r == [] then []
    else if Get(l, r[0].0).Some? then Missing(r[1..], l)
    else [r[0]] + Missing(r[1..], l)
  }

  /** A key survives in `Missing(r, l)` exactly when `l` lacks it, with its value in `r`. */
  lemma {:induction false} MissingGet(r: OrderedMap, l: OrderedMap, k: string)
    ensures Get(Missing(r, l), k) == if Get(l, k).Some? then None else Get(r, k)
  {
    if r != [] {
      var rest := Missing(r[1..], l);
      MissingGet(r[1..], l, k);
      if Get(l, r[0].0).None? {
        assert ([r[0]] + rest)[1..] == rest;
      }
    }
  }

  /** Dropping entries keeps keys unique. */
  lemma {:induction false} MissingUnique(r: OrderedMap, l: OrderedMap)
    requires UniqueKeys(r)
    ensures UniqueKeys(Missing(r, l))
  {
    if r != [] {
      var rest := Missing(r[1..], l);
      TailUnique(r);
      MissingUnique(r[1..], l);
      if Get(l, r[0].0).None? {
        HeadKeyNotInTail(r);
        MissingGet(r[1..], l, r[0].0);
        ConsUnique(r[0], rest);
      }
    }
  }

  /** The keys `Missing(r, l)` keeps are those of `r` that `l` lacks, in the order of `r`. */
  lemma {:induction false} MissingKeys(r: OrderedMap, l: OrderedMap)
    ensures Keys(Missing(r, l)) == Without(Keys(r), Keys(l))
  {
    if r != [] {
      var rest := Missing(r[1..], l);
      MissingKeys(r[1..], l);
      GetKeys(l, r[0].0);
      if Get(l, r[0].0).None? {
        assert ([r[0]] + rest)[1..] == rest;
      }
    }
  }

  /** When `l` holds none of the keys of `r`, nothing is dropped. */
  lemma {:induction false} MissingDisjoint(r: OrderedMap, l: OrderedMap)
    ensures (forall i :: 0 <= i < |r| ==> Get(l, r[i].0).None?) ==> Missing(r, l) == r
  {
    if r != [] && forall i :: 0 <= i < |r| ==> Get(l, r[i].0).None? {
      assert forall i :: 0 <= i < |r[1..]| ==> r[1..][i] == r[i + 1];
      MissingDisjoint(r[1..], l);
      assert [r[0]] + r[1..] == r;
    }
  }

  /** The array union `l + r`: the left operand wins on a shared key. */
  function Union(l: OrderedMap, r: OrderedMap): (u: OrderedMap)
    requires UniqueKeys(l) && UniqueKeys(r)
    ensures UniqueKeys(u)
    ensures |u| >= |l| && u[..|l|] == l
    ensures forall k :: Get(u, k) == if Get(l, k).Some? then Get(l, k) else Get(r, k)
    ensures Keys(u) == Keys(l) + Without(Keys(r), Keys(l))
    ensures (forall i :: 0 <= i < |r| ==> Get(l, r[i].0).None?) ==> u == l + r
  {
    var m := Missing(r, l);
    MissingUnique(r, l);
    forall k ensures Get(l + m, k) == if Get(l, k).Some? then Get(l, k) else Get(r, k) {
      GetAppend(l, m, k);
      MissingGet(r, l, k);
    }
    assert UniqueKeys(l + m) by {
      forall i, j | 0 <= i < j < |l + m| ensures (l + m)[i].0 != (l + m)[j].0 {
        if i < |l| <= j {
          var k := (l + m)[j].0;
          assert (l + m)[j] == m[j - |l|];
          MissingGet(r, l, k);
          assert Get(m, k).Some?;
          assert Get(l, k).None?;
        }
      }
    }
    MissingDisjoint(r, l);
    MissingKeys(r, l);
    KeysAppend(l, m);
    assert (l + m)[..|l|] == l;
    l + m
  }
}
