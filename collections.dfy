/** Sequence helpers shared by the in-memory tables: keyed lookup, filtering, counting and ordering. */
module Collections {
  import opened Wrappers

  /** No two rows of `s` share a key (a primary key or a unique column). */
  ghost predicate Distinct<T, K>(s: seq<T>, key: T -> K) {
    forall i, j :: 0 <= i < j < |s| ==> key(s[i]) != key(s[j])
  }

  /** Every key in `s` is smaller than `bound` (it was issued before `bound`). */
  ghost predicate Below<T>(s: seq<T>, key: T -> nat, bound: nat) {
    forall i :: 0 <= i < |s| ==> key(s[i]) < bound
  }

  /** Position of the first row whose key is `k`. */
  function IndexOfKey<T, K(==)>(s: seq<T>, key: T -> K, k: K): (r: Option<nat>)
    ensures r.Some? ==> r.value < |s| && key(s[r.value]) == k
    ensures r.Some? ==> forall j :: 0 <= j < r.value ==> key(s[j]) != k
    ensures r.None? <==> forall j :: 0 <= j < |s| ==> key(s[j]) != k
  {
    if s == [] then None
    else if key(s[0]) == k then Some(0)
    else
      match IndexOfKey(s[1..], key, k)
      case None => None
      case Some(i) => Some(i + 1)
  }

  /** The first row whose key is `k`: a `findUnique`/`findFirst` on a key column. */
  function FindByKey<T, K(==)>(s: seq<T>, key: T -> K, k: K): (r: Option<T>)
    ensures r.Some? ==> r.value in s && key(r.value) == k
    ensures r.None? <==> forall x :: x in s ==> key(x) != k
  {
    match IndexOfKey(s, key, k)
    case None => None
    case Some(i) => Some(s[i])
  }

  /** Under a unique key, the row found is the one row carrying that key. */
  lemma FindByKeyDistinct<T, K>(s: seq<T>, key: T -> K, x: T)
    requires Distinct(s, key) && x in s
    ensures FindByKey(s, key, key(x)) == Some(x)
  {
    var i :| 0 <= i < |s| && s[i] == x;
    assert key(s[i]) == key(x);
  }

  /** `s` without its row at position `k`: a delete by unique key. */
  function RemoveAt<T>(s: seq<T>, k: nat): (r: seq<T>)
    requires k < |s|
    ensures |r| == |s| - 1
    ensures forall i :: 0 <= i < k ==> r[i] == s[i]
    ensures forall i :: k <= i < |r| ==> r[i] == s[i + 1]
  {
    s[..k] + s[k + 1..]
  }

  /** Deleting the row with a unique key removes exactly that row and keeps the keys unique and issued. */
  lemma RemoveKeyed<T, K>(s: seq<T>, key: T -> K, k: nat)
    requires k < |s| && Distinct(s, key)
    ensures Distinct(RemoveAt(s, k), key)
    ensures forall y :: y in RemoveAt(s, k) <==> y in s && key(y) != key(s[k])
    ensures forall i :: 0 <= i < |RemoveAt(s, k)| ==> key(RemoveAt(s, k)[i]) != key(s[k])
  {
    var r := RemoveAt(s, k);
    forall y ensures y in r <==> y in s && key(y) != key(s[k]) {
      if y in s && key(y) != key(s[k]) {
        var i :| 0 <= i < |s| && s[i] == y;
        if i < k { assert r[i] == y; } else { assert r[i - 1] == y; }
      }
    }
  }

  lemma BelowRemoveAt<T>(s: seq<T>, key: T -> nat, bound: nat, k: nat)
    requires k < |s| && Below(s, key, bound)
    ensures Below(RemoveAt(s, k), key, bound)
  {
  }

  /** Appending a row under the next unissued key keeps keys unique and issued. */
  lemma AppendFresh<T>(s: seq<T>, key: T -> nat, bound: nat, x: T)
    requires Below(s, key, bound) && Distinct(s, key) && key(x) == bound
    ensures Below(s + [x], key, bound + 1) && Distinct(s + [x], key)
  {
  }

  /** Appending a row whose key no row has keeps keys unique. */
  lemma AppendDistinct<T, K>(s: seq<T>, key: T -> K, x: T)
    requires Distinct(s, key) && forall i :: 0 <= i < |s| ==> key(s[i]) != key(x)
    ensures Distinct(s + [x], key)
  {
  }

  lemma BelowAppend<T>(s: seq<T>, key: T -> nat, bound: nat, x: T)
    requires Below(s, key, bound) && key(x) < bound
    ensures Below(s + [x], key, bound)
  {
  }

  /** Raising the bound keeps every key below it. */
  lemma BelowRaise<T>(s: seq<T>, key: T -> nat, bound: nat, bound': nat)
    requires Below(s, key, bound) && bound <= bound'
    ensures Below(s, key, bound')
  {
  }

  /** Overwriting a row with one carrying the same key keeps keys unique. */
  lemma ReplaceKeyed<T, K>(s: seq<T>, key: T -> K, k: nat, x: T)
    requires k < |s| && Distinct(s, key) && key(x) == key(s[k])
    ensures Distinct(s[k := x], key)
  {
  }

  /** A lookup after an insert finds the old row if there was one, else the new row if it matches. */
  lemma {:induction false} FindByKeyAppend<T, K>(s: seq<T>, key: T -> K, x: T, k: K)
    ensures FindByKey(s + [x], key, k) ==
      if FindByKey(s, key, k).Some? then FindByKey(s, key, k)
      else if key(x) == k then Some(x) else None
  {
    if s != [] {
      FindByKeyAppend(s[1..], key, x, k);
      assert (s + [x])[1..] == s[1..] + [x];
    }
  }

  /** Overwriting one row in place (same key) changes no lookup of another key,
      and under a unique key the lookup of its own key finds the new row. */
  lemma {:induction false} FindByKeyReplace<T, K>(s: seq<T>, key: T -> K, i: nat, x: T, k: K)
    requires i < |s| && key(x) == key(s[i])
    ensures k != key(x) ==> FindByKey(s[i := x], key, k) == FindByKey(s, key, k)
    ensures k == key(x) && Distinct(s, key) ==> FindByKey(s[i := x], key, k) == Some(x)
  {
    if i > 0 {
      FindByKeyReplace(s[1..], key, i - 1, x, k);
      assert s[i := x][1..] == s[1..][i - 1 := x];
    }
  }

  /** The rows of `s` that satisfy `p`, in their original order. */
  function Filter<T(!new)>(s: seq<T>, p: T -> bool): (r: seq<T>)
    ensures |r| <= |s|
    ensures forall i :: 0 <= i < |r| ==> p(r[i])
    ensures forall x :: x in r <==> x in s && p(x)
  {
    if s == [] then []
    else
      var rest := Filter(s[1..], p);
      assert s == [s[0]] + s[1..];
      if p(s[0]) then [s[0]] + rest else rest
  }

  /** When no row satisfies `p`, nothing is kept. */
  lemma {:induction false} FilterNone<T(!new)>(s: seq<T>, p: T -> bool)
    requires forall i :: 0 <= i < |s| ==> !p(s[i])
    ensures Filter(s, p) == []
  {
    if s != [] {
      FilterNone(s[1..], p);
    }
  }

  /** Filtering keeps each satisfying row as often as it occurs, and no other row. */
  lemma {:induction false} FilterMultiset<T(!new)>(s: seq<T>, p: T -> bool)
    ensures forall x :: multiset(Filter(s, p))[x] == if p(x) then multiset(s)[x] else 0
  {
    if s != [] {
      FilterMultiset(s[1..], p);
      assert s == [s[0]] + s[1..];
    }
  }

  lemma {:induction false} FilterAppend<T(!new)>(a: seq<T>, b: seq<T>, p: T -> bool)
    ensures Filter(a + b, p) == Filter(a, p) + Filter(b, p)
  {
    if a == [] {
      assert a + b == b;
    } else {
      assert (a + b)[1..] == a[1..] + b;
      FilterAppend(a[1..], b, p);
    }
  }

  /** Filtering by two predicates that agree on every row gives the same rows. */
  lemma {:induction false} FilterCongruent<T(!new)>(s: seq<T>, p: T -> bool, q: T -> bool)
    requires forall i :: 0 <= i < |s| ==> p(s[i]) == q(s[i])
    ensures Filter(s, p) == Filter(s, q)
  {
    if s != [] {
      FilterCongruent(s[1..], p, q);
    }
  }

  /** A stronger filter keeps no more rows than a weaker one. */
  lemma {:induction false} FilterMonotone<T(!new)>(s: seq<T>, p: T -> bool, q: T -> bool)
    requires forall i :: 0 <= i < |s| ==> p(s[i]) ==> q(s[i])
    ensures |Filter(s, p)| <= |Filter(s, q)|
  {
    if s != [] {
      FilterMonotone(s[1..], p, q);
    }
  }

  // ----- ordering -----

  /** `s` is in ascending order of `key` (ties in any order). */
  ghost predicate Ascending<T>(s: seq<T>, key: T -> int) {
    forall i, j :: 0 <= i < j < |s| ==> key(s[i]) <= key(s[j])
  }

  lemma AscendingTail<T>(s: seq<T>, key: T -> int)
    requires s != [] && Ascending(s, key)
    ensures Ascending(s[1..], key)
    ensures forall y :: y in s ==> key(s[0]) <= key(y)
  {
  }

  /** A row no larger than every row of an ascending sequence can go in front of it. */
  lemma AscendingCons<T>(h: T, t: seq<T>, key: T -> int)
    requires Ascending(t, key) && forall y :: y in t ==> key(h) <= key(y)
    ensures Ascending([h] + t, key)
  {
    var r := [h] + t;
    forall i, j | 0 <= i < j < |r| ensures key(r[i]) <= key(r[j]) {
      assert r[j] == t[j - 1];
      if i > 0 {
        assert r[i] == t[i - 1];
      }
    }
  }

  function Insert<T>(x: T, s: seq<T>, key: T -> int): (r: seq<T>)
    requires Ascending(s, key)
    ensures Ascending(r, key)
    ensures forall y :: y in r ==> y == x || y in s
    ensures multiset(r) == multiset(s) + multiset{x}
  {
    if s == [] || key(x) <= key(s[0]) then
      assert forall y :: y in s ==> key(x) <= key(y) by {
        if s != [] {
          AscendingTail(s, key);
        }
      }
      AscendingCons(x, s, key);
      [x] + s
    else
      AscendingTail(s, key);
      var rest := Insert(x, s[1..], key);
      AscendingCons(s[0], rest, key);
      assert s == [s[0]] + s[1..];
      [s[0]] + rest
  }

  /** `orderBy: { key: 'asc' }`: the rows of `s` rearranged into ascending key order. */
  function SortBy<T>(s: seq<T>, key: T -> int): (r: seq<T>)
    ensures Ascending(r, key)
    ensures multiset(r) == multiset(s)
    ensures |r| == |s|
  {
    if s == [] then []
    else
      assert s == [s[0]] + s[1..];
      Insert(s[0], SortBy(s[1..], key), key)
  }

  /** Two sequences holding the same rows (as multisets) hold the same rows (as sets). */
  lemma SameRows<T>(a: seq<T>, b: seq<T>)
    requires multiset(a) == multiset(b)
    ensures forall x :: x in a <==> x in b
  {
    forall x ensures x in a <==> x in b {
      assert x in a <==> x in multiset(a);
      assert x in b <==> x in multiset(b);
    }
  }

  /** In an ascending sequence, every row beyond the first `m` has a key at least that of each of the first `m`. */
  lemma PrefixHoldsSmallest<T(!new)>(sorted: seq<T>, key: T -> int, m: nat)
    requires Ascending(sorted, key) && m <= |sorted|
    ensures forall x, i :: 0 <= i < m && x in multiset(sorted) - multiset(sorted[..m]) ==> key(sorted[i]) <= key(x)
  {
    assert sorted == sorted[..m] + sorted[m..];
    assert multiset(sorted) == multiset(sorted[..m]) + multiset(sorted[m..]);
    forall x, i | 0 <= i < m && x in multiset(sorted) - multiset(sorted[..m])
      ensures key(sorted[i]) <= key(x)
    {
      assert x in multiset(sorted[m..]);
      assert x in sorted[m..];
      var j :| m <= j < |sorted| && sorted[j] == x;
    }
  }

  /** A prefix holds some of the rows of the whole, in ascending order when the whole is. */
  lemma PrefixRows<T>(s: seq<T>, key: T -> int, m: nat)
    requires m <= |s|
    ensures multiset(s[..m]) <= multiset(s)
    ensures forall x :: x in s[..m] ==> x in s
    ensures Ascending(s, key) ==> Ascending(s[..m], key)
  {
    assert s == s[..m] + s[m..];
  }

  /** The first `m` rows of an ascending rearrangement of `s` are `m` of its rows with the smallest keys. */
  lemma SmallestPrefix<T(!new)>(s: seq<T>, sorted: seq<T>, key: T -> int, m: nat)
    requires Ascending(sorted, key) && multiset(sorted) == multiset(s) && m <= |sorted|
    ensures Ascending(sorted[..m], key)
    ensures multiset(sorted[..m]) <= multiset(s)
    ensures forall x :: x in sorted[..m] ==> x in s
    ensures forall x, i :: 0 <= i < m && x in multiset(s) - multiset(sorted[..m]) ==> key(sorted[..m][i]) <= key(x)
  {
    PrefixHoldsSmallest(sorted, key, m);
    PrefixRows(sorted, key, m);
    SameRows(sorted, s);
  }

  /** `orderBy: { key: 'asc' }, take: n`: the `n` rows of `s` with the smallest keys, in ascending order. */
  function TakeSmallest<T(!new)>(s: seq<T>, key: T -> int, n: nat): (r: seq<T>)
    ensures |r| == if |s| < n then |s| else n
    ensures Ascending(r, key)
    ensures multiset(r) <= multiset(s)
    ensures forall x :: x in r ==> x in s
    ensures forall x, i :: 0 <= i < |r| && x in multiset(s) - multiset(r) ==> key(r[i]) <= key(x)
  {
    var sorted := SortBy(s, key);
    var m := if |s| < n then |s| else n;
    SmallestPrefix(s, sorted, key, m);
    sorted[..m]
  }
}
