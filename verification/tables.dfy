/** Order-keeping operations on the rows of a table, the few pandas
    operations the longest-prefix match is built from: row selection, a
    descending sort on one column and dropping later rows with a repeated
    key. Rows are of any type; the column read is a function parameter. */
module Tables {

  /** The rows satisfying `keep`, in order (a boolean-mask `loc`). */
  function Where<T(!new)>(s: seq<T>, keep: T -> bool): (r: seq<T>)
    ensures forall x :: x in r <==> x in s && keep(x)
    ensures |r| <= |s|
    decreases |s|
  {
    if |s| == 0 then []
    else
      var rest := Where(s[1..], keep);
      assert forall x :: x in s <==> x == s[0] || x in s[1..];
      if keep(s[0]) then [s[0]] + rest else rest
  }

  /** Each row transformed by `f`, in order. */
  function Map<T, U>(s: seq<T>, f: T -> U): (r: seq<U>)
    ensures |r| == |s|
    ensures forall i :: 0 <= i < |s| ==> r[i] == f(s[i])
  {
    seq(|s|, i requires 0 <= i < |s| => f(s[i]))
  }

  /** The rows of a filtered and transformed table are the transformed
      kept rows. */
  lemma MapWhereMember<T(!new), U>(s: seq<T>, keep: T -> bool, f: T -> U)
    ensures forall y :: y in Map(Where(s, keep), f) <==> exists k :: 0 <= k < |s| && keep(s[k]) && y == f(s[k])
  {
    var w := Where(s, keep);
    forall y | y in Map(w, f) ensures exists k :: 0 <= k < |s| && keep(s[k]) && y == f(s[k]) {
      var i :| 0 <= i < |w| && Map(w, f)[i] == y;
      assert w[i] in w;
    }
    forall y | exists k :: 0 <= k < |s| && keep(s[k]) && y == f(s[k]) ensures y in Map(w, f) {
      var k :| 0 <= k < |s| && keep(s[k]) && y == f(s[k]);
      assert s[k] in s;
      var i :| 0 <= i < |w| && w[i] == s[k];
      assert Map(w, f)[i] == y;
    }
  }

  /** Transforming a table row by row, from its first row. */
  lemma MapCons<T, U>(x: T, s: seq<T>, f: T -> U)
    ensures Map([x] + s, f) == [f(x)] + Map(s, f)
  {
    var m := Map([x] + s, f);
    forall i | 0 <= i < |m| ensures m[i] == ([f(x)] + Map(s, f))[i] {
      if i > 0 {
        assert ([x] + s)[i] == s[i - 1];
      }
    }
  }

  /** Filtering and transforming a table row by row, from its first row. */
  lemma MapWhereCons<T(!new), U>(s: seq<T>, keep: T -> bool, f: T -> U)
    requires |s| > 0
    ensures Map(Where(s, keep), f) ==
              (if keep(s[0]) then [f(s[0])] else []) + Map(Where(s[1..], keep), f)
  {
    var w := Where(s[1..], keep);
    if keep(s[0]) {
      assert Where(s, keep) == [s[0]] + w;
      MapCons(s[0], w, f);
    } else {
      assert Where(s, keep) == w;
    }
  }

  /** Every row is at least as large in `len` as every later row. */
  predicate Descending<T>(s: seq<T>, len: T -> int) {
    forall p, q :: 0 <= p < q < |s| ==> len(s[p]) >= len(s[q])
  }

  /** `x` placed into a descending list before the first row smaller than
      it, so that rows of equal size keep their order. */
  function Insert<T>(x: T, s: seq<T>, len: T -> int): (r: seq<T>)
    requires Descending(s, len)
    ensures Descending(r, len)
    ensures multiset(r) == multiset(s) + multiset{x}
    decreases |s|
  {
    if |s| == 0 || len(x) >= len(s[0]) then [x] + s
    else
      var rest := Insert(x, s[1..], len);
      InsertBelow(x, s, len, rest);
      [s[0]] + rest
  }

  lemma InsertBelow<T>(x: T, s: seq<T>, len: T -> int, rest: seq<T>)
    requires |s| > 0 && Descending(s, len) && len(x) < len(s[0])
    requires Descending(rest, len) && multiset(rest) == multiset(s[1..]) + multiset{x}
    ensures Descending([s[0]] + rest, len)
    ensures multiset([s[0]] + rest) == multiset(s) + multiset{x}
  {
    assert [s[0]] + s[1..] == s;
    forall q | 0 <= q < |rest| ensures len(s[0]) >= len(rest[q]) {
      assert rest[q] in multiset(rest);
      if rest[q] != x {
        assert rest[q] in s[1..];
      }
    }
  }

  /** `sort_values(column, ascending=False)`: a descending permutation. */
  function SortDescending<T>(s: seq<T>, len: T -> int): (r: seq<T>)
    ensures Descending(r, len)
    ensures multiset(r) == multiset(s)
    decreases |s|
  {
    if |s| == 0 then []
    else
      assert [s[0]] + s[1..] == s;
      Insert(s[0], SortDescending(s[1..], len), len)
  }

  /** `drop_duplicates(columns)`: the first row of every key not yet in
      `seen`, in order. */
  function DropDuplicates<T(!new), K>(s: seq<T>, key: T -> K, seen: set<K>): (r: seq<T>)
    ensures forall x :: x in r ==> x in s && key(x) !in seen
    ensures forall p, q :: 0 <= p < q < |r| ==> key(r[p]) != key(r[q])
    decreases |s|
  {
    if |s| == 0 then []
    else if key(s[0]) in seen then DropDuplicates(s[1..], key, seen)
    else
      var rest := DropDuplicates(s[1..], key, seen + {key(s[0])});
      assert forall q :: 0 <= q < |rest| ==> rest[q] in rest;
      [s[0]] + rest
  }

  /** Every key of the rows not in `seen` keeps its first row. */
  lemma {:induction false} DropDuplicatesKeepsFirst<T(!new), K>(s: seq<T>, key: T -> K, seen: set<K>, i: int)
    requires 0 <= i < |s| && key(s[i]) !in seen
    ensures exists j :: 0 <= j <= i && key(s[j]) == key(s[i]) && s[j] in DropDuplicates(s, key, seen)
    decreases |s|
  {
    if key(s[0]) == key(s[i]) {
      assert s[0] in DropDuplicates(s, key, seen);
    } else {
      var seen' := if key(s[0]) in seen then seen else seen + {key(s[0])};
      assert s[1..][i - 1] == s[i];
      DropDuplicatesKeepsFirst(s[1..], key, seen', i - 1);
      var j :| 0 <= j <= i - 1 && key(s[1..][j]) == key(s[i]) && s[1..][j] in DropDuplicates(s[1..], key, seen');
      assert s[j + 1] == s[1..][j];
    }
  }

  /** Dropping rows keeps a descending list descending. */
  lemma {:induction false} DropDuplicatesDescending<T(!new), K>(s: seq<T>, key: T -> K, seen: set<K>, len: T -> int)
    requires Descending(s, len)
    ensures Descending(DropDuplicates(s, key, seen), len)
    decreases |s|
  {
    if |s| > 0 {
      var seen' := if key(s[0]) in seen then seen else seen + {key(s[0])};
      DropDuplicatesDescending(s[1..], key, seen', len);
      var rest := DropDuplicates(s[1..], key, seen');
      forall x | x in rest ensures len(s[0]) >= len(x) {
        var k :| 0 <= k < |s[1..]| && s[1..][k] == x;
        assert s[k + 1] == x;
      }
    }
  }

  /** The rows satisfying `hit`, sorted by descending `len`, keeping the
      first row of every key. */
  function LongestPerKey<T(!new), K(==)>(t: seq<T>, hit: T -> bool, len: T -> int, key: T -> K): seq<T> {
    DropDuplicates(SortDescending(Where(t, hit), len), key, {})
  }

  /** A longest-per-key answer: rows of `t` satisfying `hit`, one per key,
      in descending `len`, and for every such row a row of its key at
      least as large. */
  ghost predicate IsLongestPerKey<T(!new), K>(t: seq<T>, hit: T -> bool, len: T -> int, key: T -> K, out: seq<T>) {
    && (forall x :: x in out ==> x in t && hit(x))
    && (forall p, q :: 0 <= p < q < |out| ==> key(out[p]) != key(out[q]))
    && (forall i :: 0 <= i < |t| && hit(t[i]) ==>
          exists x :: x in out && key(x) == key(t[i]) && len(x) >= len(t[i]))
    && Descending(out, len)
  }

  lemma LongestPerKeySound<T(!new), K>(t: seq<T>, hit: T -> bool, len: T -> int, key: T -> K)
    ensures IsLongestPerKey(t, hit, len, key, LongestPerKey(t, hit, len, key))
  {
    var s := SortDescending(Where(t, hit), len);
    var out := DropDuplicates(s, key, {});
    DropDuplicatesDescending(s, key, {}, len);
    forall x | x in out
      ensures x in t && hit(x)
    {
      assert x in multiset(s);
    }
    forall i | 0 <= i < |t| && hit(t[i])
      ensures exists x :: x in out && key(x) == key(t[i]) && len(x) >= len(t[i])
    {
      var x := LongestCovers(t, hit, len, key, i);
    }
  }

  /** The answer's row for the key of a row satisfying `hit`. */
  lemma LongestCovers<T(!new), K>(t: seq<T>, hit: T -> bool, len: T -> int, key: T -> K, i: int) returns (x: T)
    requires 0 <= i < |t| && hit(t[i])
    ensures x in LongestPerKey(t, hit, len, key) && key(x) == key(t[i]) && len(x) >= len(t[i])
  {
    var s := SortDescending(Where(t, hit), len);
    var k := SortedPlace(t, hit, len, i);
    DropDuplicatesKeepsFirst(s, key, {}, k);
    var j :| 0 <= j <= k && key(s[j]) == key(s[k]) && s[j] in DropDuplicates(s, key, {});
    assert Descending(s, len);
    assert j < k ==> len(s[j]) >= len(s[k]);
    x := s[j];
  }

  /** Where a row satisfying `hit` lands in the sorted selection. */
  lemma SortedPlace<T(!new)>(t: seq<T>, hit: T -> bool, len: T -> int, i: int) returns (k: int)
    requires 0 <= i < |t| && hit(t[i])
    ensures var s := SortDescending(Where(t, hit), len);
            0 <= k < |s| && s[k] == t[i]
  {
    var s := SortDescending(Where(t, hit), len);
    assert t[i] in multiset(s);
    k :| 0 <= k < |s| && s[k] == t[i];
  }

  // ------------------------------------------- insertion-ordered dictionary

  /* A Python dictionary is held as the list of its entries in insertion
     order. */

  /** The keys of a dictionary. */
  ghost function EntryKeys<K, T>(d: seq<(K, T)>): set<K> {
    if d == [] then {} else {d[0].0} + EntryKeys(d[1..])
  }

  /** No key is held twice. */
  ghost predicate DistinctKeys<K, T>(d: seq<(K, T)>) {
    forall i, j :: 0 <= i < j < |d| ==> d[i].0 != d[j].0
  }

  lemma {:induction false} EntryKeysMember<K, T>(d: seq<(K, T)>, y: K)
    ensures y in EntryKeys(d) <==> exists i :: 0 <= i < |d| && d[i].0 == y
  {
    if d != [] {
      EntryKeysMember(d[1..], y);
      if exists i :: 0 <= i < |d| && d[i].0 == y {
        var i :| 0 <= i < |d| && d[i].0 == y;
        if i > 0 { assert d[1..][i - 1].0 == y; }
      }
      if exists i :: 0 <= i < |d[1..]| && d[1..][i].0 == y {
        var i :| 0 <= i < |d[1..]| && d[1..][i].0 == y;
        assert d[i + 1].0 == y;
      }
    }
  }

  /** `k in d`. */
  function HasKey<K(==), T>(d: seq<(K, T)>, k: K): (b: bool)
    ensures b <==> k in EntryKeys(d)
  {
    d != [] && (d[0].0 == k || HasKey(d[1..], k))
  }

  /** `d[k] = x`: an existing key keeps its position and takes the new
      value, a new key is added last. */
  function Assign<K(==), T>(d: seq<(K, T)>, k: K, x: T): (r: seq<(K, T)>)
    ensures |d| <= |r| <= |d| + 1
    ensures forall i :: 0 <= i < |d| ==> r[i] == if d[i].0 == k then (k, x) else d[i]
    ensures |r| == |d| <==> k in EntryKeys(d)
    ensures |r| == |d| + 1 ==> r[|d|] == (k, x)
  {
    if HasKey(d, k) then
      seq(|d|, i requires 0 <= i < |d| => if d[i].0 == k then (k, x) else d[i])
    else
      EntryKeysMember(d, k);
      d + [(k, x)]
  }

  /** Entries with the same keys position by position have the same keys. */
  lemma {:induction false} SameKeys<K, T>(d: seq<(K, T)>, r: seq<(K, T)>)
    requires |r| == |d| && forall i :: 0 <= i < |d| ==> r[i].0 == d[i].0
    ensures EntryKeys(r) == EntryKeys(d)
  {
    if d != [] {
      SameKeys(d[1..], r[1..]);
    }
  }

  lemma {:induction false} AppendKeys<K, T>(d: seq<(K, T)>, e: (K, T))
    ensures EntryKeys(d + [e]) == EntryKeys(d) + {e.0}
  {
    if d != [] {
      assert (d + [e])[1..] == d[1..] + [e];
      AppendKeys(d[1..], e);
    } else {
      assert [e][1..] == [];
    }
  }

  /** Assigning a key adds it to the keys. */
  lemma AssignKeys<K, T>(d: seq<(K, T)>, k: K, x: T)
    ensures EntryKeys(Assign(d, k, x)) == EntryKeys(d) + {k}
  {
    if k in EntryKeys(d) {
      SameKeys(d, Assign(d, k, x));
    } else {
      AppendKeys(d, (k, x));
    }
  }

  /** The dictionary built by assigning each of the first `n` rows under
      its key, in order. */
  function IndexBy<K(==), T>(xs: seq<T>, key: T -> K, n: nat): seq<(K, T)>
    requires n <= |xs|
  {
    if n == 0 then [] else Assign(IndexBy(xs, key, n - 1), key(xs[n - 1]), xs[n - 1])
  }

  /** The keys of the first `n` rows. */
  ghost function RowKeys<K, T>(xs: seq<T>, key: T -> K, n: nat): set<K>
    requires n <= |xs|
  {
    if n == 0 then {} else RowKeys(xs, key, n - 1) + {key(xs[n - 1])}
  }

  lemma {:induction false} RowKeysMember<K, T>(xs: seq<T>, key: T -> K, n: nat, y: K)
    requires n <= |xs|
    ensures y in RowKeys(xs, key, n) <==> exists j :: 0 <= j < n && key(xs[j]) == y
  {
    if n > 0 {
      RowKeysMember(xs, key, n - 1, y);
    }
  }

  /** The keys of the dictionary are exactly the keys of the rows. */
  lemma {:induction false} IndexKeys<K, T>(xs: seq<T>, key: T -> K, n: nat)
    requires n <= |xs|
    ensures EntryKeys(IndexBy(xs, key, n)) == RowKeys(xs, key, n)
  {
    if n > 0 {
      IndexKeys(xs, key, n - 1);
      AssignKeys(IndexBy(xs, key, n - 1), key(xs[n - 1]), xs[n - 1]);
    }
  }

  /** The dictionary holds each key once. */
  lemma {:induction false} IndexDistinct<K, T>(xs: seq<T>, key: T -> K, n: nat)
    requires n <= |xs|
    ensures DistinctKeys(IndexBy(xs, key, n))
  {
    if n > 0 {
      IndexDistinct(xs, key, n - 1);
      var d := IndexBy(xs, key, n - 1);
      var k := key(xs[n - 1]);
      var r := IndexBy(xs, key, n);
      forall i, j | 0 <= i < j < |r| ensures r[i].0 != r[j].0 {
        if j == |d| {
          EntryKeysMember(d, k);
          assert r[i].0 == d[i].0;
        } else {
          assert r[i].0 == d[i].0 && r[j].0 == d[j].0;
        }
      }
    }
  }

  /** Each entry holds the last row with its key. */
  lemma {:induction false} IndexLast<K, T>(xs: seq<T>, key: T -> K, n: nat, i: nat) returns (j: nat)
    requires n <= |xs| && i < |IndexBy(xs, key, n)|
    ensures j < n && IndexBy(xs, key, n)[i] == (key(xs[j]), xs[j])
    ensures forall q :: j < q < n ==> key(xs[q]) != key(xs[j])
  {
    var d := IndexBy(xs, key, n - 1);
    var r := IndexBy(xs, key, n);
    if r[i].0 == key(xs[n - 1]) {
      assert r[i] == (key(xs[n - 1]), xs[n - 1]);
      j := n - 1;
    } else {
      assert i < |d| && r[i] == d[i];
      j := IndexLast(xs, key, n - 1, i);
    }
  }

  /** Entries are in the order of their keys' first rows: every row with
      the key of a later entry comes after a row with the key of an earlier
      entry. */
  lemma {:induction false} IndexOrder<K, T>(xs: seq<T>, key: T -> K, n: nat, i: nat, i': nat, q: nat) returns (j: nat)
    requires n <= |xs| && i < i' < |IndexBy(xs, key, n)|
    requires q < n && key(xs[q]) == IndexBy(xs, key, n)[i'].0
    ensures j < q && key(xs[j]) == IndexBy(xs, key, n)[i].0
  {
    if q == n - 1 {
      j := EarlierEntryRow(xs, key, n, i, i');
    } else {
      OlderEntries(xs, key, n, i, i', q);
      j := IndexOrder(xs, key, n - 1, i, i', q);
    }
  }

  /** An entry before another one has a row before the last row. */
  lemma EarlierEntryRow<K, T>(xs: seq<T>, key: T -> K, n: nat, i: nat, i': nat) returns (j: nat)
    requires 0 < n <= |xs| && i < i' < |IndexBy(xs, key, n)|
    ensures j < n - 1 && key(xs[j]) == IndexBy(xs, key, n)[i].0
  {
    var d := IndexBy(xs, key, n - 1);
    assert i < |d| && IndexBy(xs, key, n)[i].0 == d[i].0;
    IndexKeys(xs, key, n - 1);
    EntryKeysMember(d, d[i].0);
    RowKeysMember(xs, key, n - 1, d[i].0);
    j :| 0 <= j < n - 1 && key(xs[j]) == d[i].0;
  }

  /** Entries whose key has a row before the last row were there before
      the last row was assigned, at the same positions. */
  lemma OlderEntries<K, T>(xs: seq<T>, key: T -> K, n: nat, i: nat, i': nat, q: nat)
    requires 0 < n <= |xs| && i < i' < |IndexBy(xs, key, n)|
    requires q < n - 1 && key(xs[q]) == IndexBy(xs, key, n)[i'].0
    ensures i' < |IndexBy(xs, key, n - 1)|
    ensures IndexBy(xs, key, n - 1)[i].0 == IndexBy(xs, key, n)[i].0
    ensures IndexBy(xs, key, n - 1)[i'].0 == IndexBy(xs, key, n)[i'].0
  {
    var d := IndexBy(xs, key, n - 1);
    IndexKeys(xs, key, n - 1);
    RowKeysMember(xs, key, n - 1, key(xs[q]));
    EntryKeysMember(d, key(xs[q]));
  }
}
