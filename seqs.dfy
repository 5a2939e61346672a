/** Sequence helpers that stand in for the parts of SQL the queries use:
    scanning a table in key order, WHERE filters, GROUP BY keys and ORDER BY. */
module Seqs {

  ghost predicate StrictlyDecreasing(s: seq<int>) {
    forall i, j :: 0 <= i < j < |s| ==> s[i] > s[j]
  }

  /** Inserts a new key into a strictly decreasing sequence of keys. */
  function InsertDesc(x: int, s: seq<int>): (r: seq<int>)
    requires StrictlyDecreasing(s) && x !in s
    ensures StrictlyDecreasing(r)
    ensures |r| == |s| + 1
    ensures forall y :: y in r <==> y == x || y in s
  {
    if s == [] then [x]
    else if x > s[0] then [x] + s
    else
      var rest := InsertDesc(x, s[1..]);
      assert forall j :: 0 <= j < |rest| ==> rest[j] == x || rest[j] in s[1..];
      [s[0]] + rest
  }

  /** The keys of a table, largest first: the order of `ORDER BY id DESC`. */
  ghost function Descending(keys: set<int>): (r: seq<int>)
    ensures StrictlyDecreasing(r)
    ensures |r| == |keys|
    ensures forall k :: k in r <==> k in keys
    decreases keys
  {
    if keys == {} then []
    else
      assert exists k :: k in keys by {
        if forall k :: k !in keys {
          assert false;
        }
      }
      var k :| k in keys;
      InsertDesc(k, Descending(keys - {k}))
  }

  /** The rows of `table` at the keys `ks`, in that order. */
  function Pick<T>(table: map<int, T>, ks: seq<int>): (rows: seq<T>)
    requires forall i :: 0 <= i < |ks| ==> ks[i] in table
    ensures |rows| == |ks|
    ensures forall i :: 0 <= i < |ks| ==> rows[i] == table[ks[i]]
  {
    if ks == [] then []
    else Pick(table, ks[..|ks| - 1]) + [table[ks[|ks| - 1]]]
  }

  /** A full scan of a table: every row exactly once, in descending key order. */
  ghost function Rows<T>(table: map<int, T>): (rows: seq<T>)
    ensures |rows| == |table|
  {
    Pick(table, Descending(table.Keys))
  }

  lemma RowsHold<T>(table: map<int, T>, k: int)
    requires k in table
    ensures table[k] in Rows(table)
  {
    var ids := Descending(table.Keys);
    var i :| 0 <= i < |ids| && ids[i] == k;
    assert Rows(table)[i] == table[k];
  }

  lemma RowsFrom<T>(table: map<int, T>, x: T)
    requires x in Rows(table)
    ensures exists k :: k in table && table[k] == x
  {
    var ids := Descending(table.Keys);
    var i :| 0 <= i < |ids| && Rows(table)[i] == x;
    assert table[ids[i]] == x;
  }

  /** The elements of `xs` that satisfy `p`, in their original order: a WHERE clause. */
  function Filter<T(!new)>(xs: seq<T>, p: T -> bool): (r: seq<T>)
    ensures |r| <= |xs|
    ensures forall x :: x in r <==> x in xs && p(x)
  {
    if xs == [] then []
    else
      var init, last := xs[..|xs| - 1], xs[|xs| - 1];
      assert xs == init + [last];
      Filter(init, p) + if p(last) then [last] else []
  }

  ghost predicate SortedDesc<T>(xs: seq<T>, key: T -> int) {
    forall i, j :: 0 <= i < j < |xs| ==> key(xs[i]) >= key(xs[j])
  }

  /** Inserts `x` into a sequence sorted by descending key. */
  function Insert<T>(x: T, xs: seq<T>, key: T -> int): (r: seq<T>)
    requires SortedDesc(xs, key)
    ensures SortedDesc(r, key)
    ensures multiset(r) == multiset(xs) + multiset{x}
  {
    if xs == [] then [x]
    else if key(x) >= key(xs[0]) then [x] + xs
    else
      var rest := Insert(x, xs[1..], key);
      assert xs == [xs[0]] + xs[1..];
      HeadBound(xs[0], xs[1..], x, rest, key);
      [xs[0]] + rest
  }

  /** A head no smaller than the tail and than `x` is no smaller than any
      arrangement of the two. */
  lemma HeadBound<T>(head: T, tail: seq<T>, x: T, rest: seq<T>, key: T -> int)
    requires SortedDesc([head] + tail, key) && key(x) < key(head)
    requires multiset(rest) == multiset(tail) + multiset{x}
    ensures forall j :: 0 <= j < |rest| ==> key(head) >= key(rest[j])
  {
    var xs := [head] + tail;
    forall j | 0 <= j < |rest| ensures key(head) >= key(rest[j]) {
      assert rest[j] in multiset(rest);
      if rest[j] != x {
        assert rest[j] in multiset(tail);
        var k :| 0 <= k < |tail| && tail[k] == rest[j];
        assert xs[0] == head && xs[k + 1] == tail[k];
        assert key(xs[0]) >= key(xs[k + 1]);
      }
    }
  }

  /** `ORDER BY key DESC`: a permutation of `xs` sorted by descending key.
      Rows with equal keys come in an unspecified order, as in SQL. */
  function SortDesc<T>(xs: seq<T>, key: T -> int): (r: seq<T>)
    ensures SortedDesc(r, key)
    ensures multiset(r) == multiset(xs)
  {
    if xs == [] then []
    else
      assert xs == [xs[0]] + xs[1..];
      Insert(xs[0], SortDesc(xs[1..], key), key)
  }

  lemma FilterSnoc<T(!new)>(xs: seq<T>, x: T, p: T -> bool)
    ensures Filter(xs + [x], p) == Filter(xs, p) + if p(x) then [x] else []
  {
    var ys := xs + [x];
    assert ys[..|ys| - 1] == xs;
  }

  lemma SetSnoc<T(!new)>(table: map<int, T>, ks: seq<int>, last: int, p: T -> bool)
    requires last !in ks && last in table
    ensures |set k | k in ks + [last] && k in table && p(table[k])|
         == |set k | k in ks && k in table && p(table[k])| + if p(table[last]) then 1 else 0
  {
    var before := set k | k in ks && k in table && p(table[k]);
    var after := set k | k in ks + [last] && k in table && p(table[k]);
    if p(table[last]) {
      assert after == before + {last};
    } else {
      assert after == before;
    }
  }

  /** Filtering the rows at distinct keys counts the keys whose row satisfies `p`. */
  lemma {:induction false} PickFilterCount<T(!new)>(table: map<int, T>, ks: seq<int>, p: T -> bool)
    requires forall i :: 0 <= i < |ks| ==> ks[i] in table
    requires forall i, j :: 0 <= i < j < |ks| ==> ks[i] != ks[j]
    ensures |Filter(Pick(table, ks), p)| == |set k | k in ks && k in table && p(table[k])|
  {
    if ks != [] {
      var init, last := ks[..|ks| - 1], ks[|ks| - 1];
      assert ks == init + [last];
      PickFilterCount(table, init, p);
      assert Pick(table, ks) == Pick(table, init) + [table[last]];
      FilterSnoc(Pick(table, init), table[last], p);
      SetSnoc(table, init, last, p);
    }
  }

  /** The keys of the rows of `table` that satisfy `p`. */
  ghost function KeysWhere<T>(table: map<int, T>, p: T -> bool): set<int> {
    set k | k in table && p(table[k])
  }

  /** The length of a filtered table scan is the number of rows satisfying the
      filter, whatever order the scan takes. */
  lemma RowsFilterCount<T(!new)>(table: map<int, T>, p: T -> bool)
    ensures |Filter(Rows(table), p)| == |KeysWhere(table, p)|
  {
    var ks := Descending(table.Keys);
    PickFilterCount(table, ks, p);
    assert (set k | k in ks && k in table && p(table[k])) == KeysWhere(table, p);
  }

  /** The conjunction of two conditions: a WHERE clause and a `CASE WHEN` inside it. */
  function Both<T>(p: T -> bool, q: T -> bool): T -> bool {
    (x: T) => p(x) && q(x)
  }

  /** Filtering twice keeps the elements that meet both conditions, in order. */
  lemma {:induction false} FilterFilter<T(!new)>(xs: seq<T>, p: T -> bool, q: T -> bool)
    ensures Filter(Filter(xs, p), q) == Filter(xs, Both(p, q))
  {
    if xs != [] {
      var init, last := xs[..|xs| - 1], xs[|xs| - 1];
      assert xs == init + [last];
      FilterFilter(init, p, q);
      FilterSnoc(init, last, p);
      FilterSnoc(init, last, Both(p, q));
      if p(last) {
        FilterSnoc(Filter(init, p), last, q);
      } else {
        assert Filter(xs, p) == Filter(init, p);
      }
    }
  }

  /** Counting the elements of a filtered scan that meet a second condition
      counts the rows that meet both. */
  lemma ScanCount<T(!new)>(table: map<int, T>, p: T -> bool, q: T -> bool)
    ensures |Filter(Filter(Rows(table), p), q)| == |KeysWhere(table, Both(p, q))|
  {
    FilterFilter(Rows(table), p, q);
    RowsFilterCount(table, Both(p, q));
  }

  /** The elements of a set, each once, in some order: the groups of a GROUP BY. */
  ghost function Enumerate<T(!new)>(s: set<T>): (xs: seq<T>)
    ensures |xs| == |s|
    ensures forall x :: x in xs <==> x in s
    ensures forall i, j :: 0 <= i < j < |xs| ==> xs[i] != xs[j]
  {
    if s == {} then []
    else
      assert exists x :: x in s by { SomeElement(s); }
      var x :| x in s;
      var rest := Enumerate(s - {x});
      [x] + rest
  }

  /** A non-empty set has an element. */
  lemma SomeElement<T>(s: set<T>)
    requires s != {}
    ensures exists x :: x in s
  {
    if forall x :: x !in s {
      assert false;
    }
  }

  /** A rearrangement holds the same elements, as many of them. */
  lemma SameElements<T>(xs: seq<T>, ys: seq<T>)
    requires multiset(xs) == multiset(ys)
    ensures |xs| == |ys|
    ensures forall x :: x in xs <==> x in ys
  {
    assert |xs| == |multiset(xs)|;
    forall x ensures x in xs <==> x in ys {
      assert x in xs <==> x in multiset(xs);
      assert x in ys <==> x in multiset(ys);
    }
  }

  /** A row of a filtered scan satisfies the filter and is stored under some key. */
  lemma FilteredRowFrom<T(!new)>(table: map<int, T>, p: T -> bool, x: T)
    requires x in Filter(Rows(table), p)
    ensures p(x) && exists k :: k in table && table[k] == x
  {
    RowsFrom(table, x);
  }
}
