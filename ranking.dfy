/** Ranking of counted keys, as the analyser and the link-text cloud do it with
    `Object.entries(freq).filter(...).sort(([, a], [, b]) => b - a).slice(0, N)`:
    a plain object yields its (non-numeric) keys in the order they were first
    assigned, `Array.prototype.sort` is stable, so rows with equal counts keep
    that first-seen order, and the slice keeps the first N rows. */
module Ranking {

  /** One `[key, count]` pair of `Object.entries`. */
  datatype Row = Row(key: string, count: nat)

  function RowCount(r: Row): int {
    r.count
  }

  /** The keys of a table, in order. */
  function Keys(rows: seq<Row>): (ks: seq<string>)
    ensures |ks| == |rows|
    ensures forall i :: 0 <= i < |rows| ==> ks[i] == rows[i].key
  {
    seq(|rows|, i requires 0 <= i < |rows| => rows[i].key)
  }

  // ---------------------------------------------------------------------------
  // First-seen order of keys
  // ---------------------------------------------------------------------------

  ghost predicate NoDuplicates(s: seq<string>) {
    forall i, j :: 0 <= i < j < |s| ==> s[i] != s[j]
  }

  /** The distinct keys of s in the order of their first occurrence. */
  function Distinct(s: seq<string>): (d: seq<string>)
    ensures forall x :: x in d <==> x in s
    ensures NoDuplicates(d)
  {
    if s == [] then []
    else
      var d := Distinct(s[..|s| - 1]);
      var x := s[|s| - 1];
      assert s == s[..|s| - 1] + [x];
      if x in d then d else d + [x]
  }

  /** The position of the first occurrence of x in s. */
  function FirstIndex(s: seq<string>, x: string): (i: nat)
    requires x in s
    ensures i < |s| && s[i] == x && x !in s[..i]
  {
    if s[0] == x then 0
    else
      var i := FirstIndex(s[1..], x);
      assert s[..i + 1] == [s[0]] + s[1..][..i];
      1 + i
  }

  lemma FirstIndexOfPrefix(p: seq<string>, x: string, y: string)
    requires y in p
    ensures FirstIndex(p + [x], y) == FirstIndex(p, y)
  {
    var s := p + [x];
    var f, g := FirstIndex(s, y), FirstIndex(p, y);
    PrefixMember(s, f, g);
    assert s[g] == y;
    PrefixMember(p, g, f);
    assert p[f] == s[f];
  }

  /** Distinct lists the keys in increasing order of first occurrence. */
  lemma {:induction false} DistinctFirstSeenOrder(s: seq<string>)
    ensures forall i, j :: 0 <= i < j < |Distinct(s)| ==>
      FirstIndex(s, Distinct(s)[i]) < FirstIndex(s, Distinct(s)[j])
  {
    if s != [] {
      var p := s[..|s| - 1];
      var x := s[|s| - 1];
      assert s == p + [x];
      DistinctFirstSeenOrder(p);
      var d := Distinct(p);
      forall y | y in d ensures FirstIndex(s, y) == FirstIndex(p, y) {
        FirstIndexOfPrefix(p, x, y);
      }
      var e := Distinct(s);
      assert e == if x in d then d else d + [x];
      forall i, j | 0 <= i < j < |e| ensures FirstIndex(s, e[i]) < FirstIndex(s, e[j]) {
        assert e[i] == d[i] && e[i] in d;
        if j < |d| {
          assert e[j] == d[j] && e[j] in d;
        } else {
          assert e[j] == x && FirstIndex(s, x) == |p|;
        }
      }
    }
  }

  // ---------------------------------------------------------------------------
  // Counting table, filter, stable sort, slice
  // ---------------------------------------------------------------------------

  /** `Object.entries` of the frequency object built from keys: each distinct key,
      in first-seen order, with its number of occurrences. */
  function Tally(keys: seq<string>): (rows: seq<Row>)
    ensures |rows| == |Distinct(keys)|
    ensures forall i :: 0 <= i < |rows| ==>
      rows[i] == Row(Distinct(keys)[i], multiset(keys)[Distinct(keys)[i]])
  {
    var d := Distinct(keys);
    seq(|d|, i requires 0 <= i < |d| => Row(d[i], multiset(keys)[d[i]]))
  }

  /** `.filter(([, count]) => count > threshold)` */
  function Above(rows: seq<Row>, threshold: nat): (r: seq<Row>)
    ensures forall k :: 0 <= k < |r| ==> r[k] in rows && r[k].count > threshold
    ensures multiset(r) <= multiset(rows)
  {
    if rows == [] then []
    else
      assert rows == [rows[0]] + rows[1..];
      if rows[0].count > threshold then [rows[0]] + Above(rows[1..], threshold)
      else Above(rows[1..], threshold)
  }

  /** The filter keeps every row whose count passes the threshold. */
  lemma {:induction false} AboveKeeps(rows: seq<Row>, threshold: nat, x: Row)
    requires x in rows && x.count > threshold
    ensures x in Above(rows, threshold)
  {
    if rows[0] != x {
      AboveKeeps(rows[1..], threshold, x);
    }
  }

  ghost predicate SortedDesc<T>(xs: seq<T>, count: T -> int) {
    forall i, j :: 0 <= i < j < |xs| ==> count(xs[i]) >= count(xs[j])
  }

  /** Puts x in front of the first element whose count is not above its own. */
  function Insert<T(==,!new)>(x: T, ys: seq<T>, count: T -> int): (r: seq<T>)
    ensures multiset(r) == multiset(ys) + multiset{x}
    ensures |r| == |ys| + 1 && (r[0] == x || (ys != [] && r[0] == ys[0]))
  {
    if ys == [] || count(x) >= count(ys[0]) then [x] + ys
    else
      assert ys == [ys[0]] + ys[1..];
      [ys[0]] + Insert(x, ys[1..], count)
  }

  lemma {:induction false} InsertSorted<T(!new)>(x: T, ys: seq<T>, count: T -> int)
    requires SortedDesc(ys, count)
    ensures SortedDesc(Insert(x, ys, count), count)
  {
    if ys != [] && count(x) < count(ys[0]) {
      var rest := ys[1..];
      assert SortedDesc(rest, count) by {
        forall i, j | 0 <= i < j < |rest| ensures count(rest[i]) >= count(rest[j]) {
          assert rest[i] == ys[i + 1] && rest[j] == ys[j + 1];
        }
      }
      InsertSorted(x, rest, count);
      var ins := Insert(x, rest, count);
      var r := [ys[0]] + ins;
      assert Insert(x, ys, count) == r;
      assert count(ys[0]) >= count(ins[0]) by {
        if rest != [] {
          assert rest[0] == ys[1];
        }
      }
      forall i, j | 0 <= i < j < |r| ensures count(r[i]) >= count(r[j]) {
        assert r[j] == ins[j - 1];
        if i > 0 {
          assert r[i] == ins[i - 1];
        }
      }
    }
  }

  /** A stable sort by count, highest first: what `Array.prototype.sort` does
      with the comparator `([, a], [, b]) => b - a`. */
  function SortByCount<T(==,!new)>(xs: seq<T>, count: T -> int): (r: seq<T>)
    ensures multiset(r) == multiset(xs)
    ensures SortedDesc(r, count)
  {
    if xs == [] then []
    else
      assert xs == [xs[0]] + xs[1..];
      InsertSorted(xs[0], SortByCount(xs[1..], count), count);
      Insert(xs[0], SortByCount(xs[1..], count), count)
  }

  /** The elements of xs whose count is c, in order. */
  function WithCount<T(!new)>(xs: seq<T>, count: T -> int, c: int): (r: seq<T>)
    ensures forall k :: 0 <= k < |r| ==> r[k] in xs && count(r[k]) == c
  {
    if xs == [] then []
    else
      assert xs == [xs[0]] + xs[1..];
      (if count(xs[0]) == c then [xs[0]] else []) + WithCount(xs[1..], count, c)
  }

  lemma {:induction false} WithCountKeeps<T(!new)>(xs: seq<T>, count: T -> int, c: int, x: T)
    requires x in xs && count(x) == c
    ensures x in WithCount(xs, count, c)
  {
    if xs[0] != x {
      WithCountKeeps(xs[1..], count, c, x);
    }
  }

  /** The elements with count c of a sequence with one more element in front. */
  lemma WithCountCons<T(!new)>(y: T, rest: seq<T>, count: T -> int, c: int)
    ensures WithCount([y] + rest, count, c) == (if count(y) == c then [y] else []) + WithCount(rest, count, c)
  {
    assert ([y] + rest)[0] == y && ([y] + rest)[1..] == rest;
  }

  lemma {:induction false} InsertStable<T(!new)>(x: T, ys: seq<T>, count: T -> int, c: int)
    ensures WithCount(Insert(x, ys, count), count, c) ==
      (if count(x) == c then [x] else []) + WithCount(ys, count, c)
  {
    var hx := if count(x) == c then [x] else [];
    if ys == [] || count(x) >= count(ys[0]) {
      WithCountCons(x, ys, count, c);
    } else {
      var y, rest := ys[0], ys[1..];
      var h0 := if count(y) == c then [y] else [];
      var ins := Insert(x, rest, count);
      var w := WithCount(rest, count, c);
      assert Insert(x, ys, count) == [y] + ins;
      assert WithCount(ins, count, c) == hx + w by {
        InsertStable(x, rest, count, c);
      }
      assert WithCount([y] + ins, count, c) == h0 + (hx + w) by {
        WithCountCons(y, ins, count, c);
      }
      assert WithCount(ys, count, c) == h0 + w;
      if h0 == [] {
        assert h0 + (hx + w) == hx + w && h0 + w == w;
      } else {
        assert hx == [];
        assert hx + w == w && hx + (h0 + w) == h0 + w;
      }
    }
  }

  /** The sort is stable: for every count, the elements with that count keep
      their relative order. */
  lemma {:induction false} SortStable<T(!new)>(xs: seq<T>, count: T -> int, c: int)
    ensures WithCount(SortByCount(xs, count), count, c) == WithCount(xs, count, c)
  {
    if xs != [] {
      SortStable(xs[1..], count, c);
      InsertStable(xs[0], SortByCount(xs[1..], count), count, c);
    }
  }

  /** `.slice(0, n)` */
  function Take<T>(xs: seq<T>, n: nat): (r: seq<T>)
    ensures |r| <= n && |r| <= |xs|
    ensures |r| == n || r == xs
    ensures r == xs[..|r|]
  {
    if |xs| <= n then xs else xs[..n]
  }

  /** Filter, stable sort by count, slice: one ranked table. */
  function Rank(rows: seq<Row>, threshold: nat, limit: nat): seq<Row> {
    Take(SortByCount(Above(rows, threshold), RowCount), limit)
  }

  /** The ranked table of the keys occurring in a sequence. */
  function Ranked(keys: seq<string>, threshold: nat, limit: nat): seq<Row> {
    Rank(Tally(keys), threshold, limit)
  }

  // ---------------------------------------------------------------------------
  // Facts about sorted slices and ranked tables
  // ---------------------------------------------------------------------------

  /** An element that a sorted slice leaves out has no count above the slice's
      last one, and the slice is full. */
  lemma TakeSortedComplete<T>(xs: seq<T>, count: T -> int, limit: nat, x: T)
    requires SortedDesc(xs, count) && x in xs && x !in Take(xs, limit)
    ensures |Take(xs, limit)| == limit
    ensures limit > 0 ==> count(x) <= count(Take(xs, limit)[limit - 1])
  {
    var i :| 0 <= i < |xs| && xs[i] == x;
    PrefixMember(xs, |Take(xs, limit)|, i);
  }

  lemma PrefixMember<T>(xs: seq<T>, n: nat, i: nat)
    requires i < |xs| && n <= |xs|
    ensures i < n ==> xs[i] in xs[..n]
  {
    if i < n {
      assert xs[..n][i] == xs[i];
    }
  }

  /** Every element of a multiset occurs at most once. */
  ghost predicate Unique<T(!new)>(xs: seq<T>) {
    forall x :: multiset(xs)[x] <= 1
  }

  lemma UniqueDistinctPositions<T(!new)>(xs: seq<T>)
    requires Unique(xs)
    ensures forall i, j :: 0 <= i < j < |xs| ==> xs[i] != xs[j]
  {
    forall i, j | 0 <= i < j < |xs| ensures xs[i] != xs[j] {
      assert xs == xs[..j] + [xs[j]] + xs[j + 1..];
      assert xs[..j][i] == xs[i];
      assert multiset(xs)[xs[j]] >= multiset(xs[..j])[xs[j]] + 1;
    }
  }

  lemma {:induction false} DistinctPositionsUnique<T(!new)>(xs: seq<T>)
    requires forall i, j :: 0 <= i < j < |xs| ==> xs[i] != xs[j]
    ensures Unique(xs)
  {
    if xs != [] {
      DistinctPositionsUnique(xs[1..]);
      assert xs == [xs[0]] + xs[1..];
      assert xs[0] !in xs[1..];
    }
  }

  /** Every row of the table belongs to keys. */
  ghost predicate KeysIn(rows: seq<Row>, keys: seq<string>) {
    forall i :: 0 <= i < |rows| ==> rows[i].key in keys
  }

  /** Rows listed in increasing order of their key's first occurrence in keys. */
  ghost predicate FirstSeenOrdered(rows: seq<Row>, keys: seq<string>) {
    KeysIn(rows, keys)
    && forall i, j :: 0 <= i < j < |rows| ==>
      FirstIndex(keys, rows[i].key) < FirstIndex(keys, rows[j].key)
  }

  lemma TallyFirstSeenOrdered(keys: seq<string>)
    ensures FirstSeenOrdered(Tally(keys), keys)
  {
    DistinctFirstSeenOrder(keys);
  }

  lemma OrderedTail(rows: seq<Row>, keys: seq<string>)
    requires rows != [] && FirstSeenOrdered(rows, keys)
    ensures FirstSeenOrdered(rows[1..], keys)
    ensures forall x :: x in rows[1..] ==> x.key in keys && FirstIndex(keys, rows[0].key) < FirstIndex(keys, x.key)
  {
    var rest := rows[1..];
    forall i, j | 0 <= i < j < |rest| ensures FirstIndex(keys, rest[i].key) < FirstIndex(keys, rest[j].key) {
      assert rest[i] == rows[i + 1] && rest[j] == rows[j + 1];
    }
    forall x | x in rest ensures x.key in keys && FirstIndex(keys, rows[0].key) < FirstIndex(keys, x.key) {
      var m :| 0 <= m < |rest| && rest[m] == x;
      assert rows[m + 1] == x;
    }
  }

  lemma OrderedCons(x: Row, rest: seq<Row>, keys: seq<string>, from: seq<Row>)
    requires FirstSeenOrdered(rest, keys) && x.key in keys
    requires forall k :: 0 <= k < |rest| ==> rest[k] in from
    requires forall y :: y in from ==> y.key in keys && FirstIndex(keys, x.key) < FirstIndex(keys, y.key)
    ensures FirstSeenOrdered([x] + rest, keys)
  {
    var r := [x] + rest;
    forall i, j | 0 <= i < j < |r| ensures FirstIndex(keys, r[i].key) < FirstIndex(keys, r[j].key) {
      assert r[j] == rest[j - 1];
      if i > 0 {
        assert r[i] == rest[i - 1];
      }
    }
  }

  lemma {:induction false} AboveKeepsOrder(rows: seq<Row>, keys: seq<string>, threshold: nat)
    requires FirstSeenOrdered(rows, keys)
    ensures FirstSeenOrdered(Above(rows, threshold), keys)
  {
    if rows != [] {
      OrderedTail(rows, keys);
      AboveKeepsOrder(rows[1..], keys, threshold);
      if rows[0].count > threshold {
        OrderedCons(rows[0], Above(rows[1..], threshold), keys, rows[1..]);
      }
    }
  }

  lemma {:induction false} WithCountKeepsOrder(rows: seq<Row>, keys: seq<string>, c: int)
    requires FirstSeenOrdered(rows, keys)
    ensures FirstSeenOrdered(WithCount(rows, RowCount, c), keys)
  {
    if rows != [] {
      OrderedTail(rows, keys);
      WithCountKeepsOrder(rows[1..], keys, c);
      if rows[0].count == c {
        OrderedCons(rows[0], WithCount(rows[1..], RowCount, c), keys, rows[1..]);
      }
    }
  }

  lemma {:induction false} WithCountConcat<T(!new)>(xs: seq<T>, ys: seq<T>, count: T -> int, c: int)
    ensures WithCount(xs + ys, count, c) == WithCount(xs, count, c) + WithCount(ys, count, c)
  {
    if xs != [] {
      assert (xs + ys)[0] == xs[0] && (xs + ys)[1..] == xs[1..] + ys;
      WithCountConcat(xs[1..], ys, count, c);
      var head := if count(xs[0]) == c then [xs[0]] else [];
      assert WithCount(xs + ys, count, c) == head + WithCount(xs[1..] + ys, count, c);
      assert WithCount(xs, count, c) == head + WithCount(xs[1..], count, c);
    } else {
      assert xs + ys == ys;
    }
  }

  /** Two rows with the same count, at positions i < j of xs, appear in the same
      order among the rows with that count. */
  lemma WithCountPositions<T(!new)>(xs: seq<T>, count: T -> int, i: nat, j: nat)
    requires i < j < |xs| && count(xs[i]) == count(xs[j])
    ensures exists p, q ::
      (0 <= p < q < |WithCount(xs, count, count(xs[i]))|
       && WithCount(xs, count, count(xs[i]))[p] == xs[i]
       && WithCount(xs, count, count(xs[i]))[q] == xs[j])
  {
    var c := count(xs[i]);
    assert xs == xs[..j] + xs[j..];
    WithCountConcat(xs[..j], xs[j..], count, c);
    var front := WithCount(xs[..j], count, c);
    assert xs[..j][i] == xs[i];
    WithCountKeeps(xs[..j], count, c, xs[i]);
    var p :| 0 <= p < |front| && front[p] == xs[i];
    assert xs[j..] == [xs[j]] + xs[j + 1..];
    assert xs[j..][0] == xs[j] && xs[j..][1..] == xs[j + 1..];
    assert WithCount(xs[j..], count, c) == [xs[j]] + WithCount(xs[j + 1..], count, c);
    var w := WithCount(xs, count, c);
    assert w == front + WithCount(xs[j..], count, c);
    assert 0 <= p < |front| < |w| && w[p] == xs[i] && w[|front|] == xs[j];
  }

  /** A slice of a sorted sequence is sorted and drawn from it. */
  lemma TakeSorted<T>(xs: seq<T>, count: T -> int, limit: nat)
    requires SortedDesc(xs, count)
    ensures SortedDesc(Take(xs, limit), count)
    ensures multiset(Take(xs, limit)) <= multiset(xs)
  {
    var r := Take(xs, limit);
    assert xs == r + xs[|r|..];
    forall i, j | 0 <= i < j < |r| ensures count(r[i]) >= count(r[j]) {
      assert r[i] == xs[i] && r[j] == xs[j];
    }
  }

  /** Every element of a sorted slice comes from the unsorted sequence. */
  lemma SortedTakeFrom<T(!new)>(xs: seq<T>, count: T -> int, limit: nat, i: nat)
    requires i < |Take(SortByCount(xs, count), limit)|
    ensures Take(SortByCount(xs, count), limit)[i] in xs
  {
    var sorted := SortByCount(xs, count);
    assert Take(sorted, limit)[i] == sorted[i];
    assert sorted[i] in multiset(sorted);
  }

  /** A ranked table is drawn from its rows: a sub-multiset of them, every count
      above the threshold, sorted, at most `limit` long. */
  lemma RankDrawnFrom(rows: seq<Row>, threshold: nat, limit: nat)
    ensures multiset(Rank(rows, threshold, limit)) <= multiset(rows)
    ensures forall k :: 0 <= k < |Rank(rows, threshold, limit)| ==> Rank(rows, threshold, limit)[k].count > threshold
    ensures SortedDesc(Rank(rows, threshold, limit), RowCount)
    ensures |Rank(rows, threshold, limit)| <= limit
  {
    var above := Above(rows, threshold);
    var sorted := SortByCount(above, RowCount);
    var r := Take(sorted, limit);
    TakeSorted(sorted, RowCount, limit);
    assert multiset(r) <= multiset(rows) by {
      assert multiset(r) <= multiset(sorted) == multiset(above);
    }
    forall k | 0 <= k < |r| ensures r[k].count > threshold {
      SortedTakeFrom(above, RowCount, limit, k);
    }
  }

  /** The rows of Tally: each key once, with its number of occurrences. */
  lemma TallyRows(keys: seq<string>)
    ensures Unique(Tally(keys))
    ensures forall x :: x in Tally(keys) ==> x.key in keys && x.count == multiset(keys)[x.key]
  {
    var tally := Tally(keys);
    var d := Distinct(keys);
    forall i, j | 0 <= i < j < |tally| ensures tally[i] != tally[j] {
      assert tally[i].key == d[i] && tally[j].key == d[j];
    }
    DistinctPositionsUnique(tally);
  }

  /** The facts that hold of every ranked table: at most `limit` rows, each row's
      count is the number of occurrences of its key and above the threshold, the
      counts do not increase, and no key appears twice. */
  lemma RankedFacts(keys: seq<string>, threshold: nat, limit: nat)
    ensures |Ranked(keys, threshold, limit)| <= limit
    ensures forall i :: 0 <= i < |Ranked(keys, threshold, limit)| ==>
      var r := Ranked(keys, threshold, limit)[i];
      r.key in keys && r.count == multiset(keys)[r.key] && r.count > threshold
    ensures SortedDesc(Ranked(keys, threshold, limit), RowCount)
    ensures forall i, j :: 0 <= i < j < |Ranked(keys, threshold, limit)| ==>
      Ranked(keys, threshold, limit)[i].key != Ranked(keys, threshold, limit)[j].key
  {
    var tally := Tally(keys);
    var r := Rank(tally, threshold, limit);
    RankDrawnFrom(tally, threshold, limit);
    TallyRows(keys);
    forall i | 0 <= i < |r| ensures r[i] in tally {
      assert r[i] in multiset(r);
    }
    assert Unique(r) by {
      forall x ensures multiset(r)[x] <= 1 {
        assert multiset(r)[x] <= multiset(tally)[x];
      }
    }
    UniqueDistinctPositions(r);
  }

  /** One row of the ranking, on its own. */
  lemma RankedRow(keys: seq<string>, threshold: nat, limit: nat, i: nat)
    requires i < |Ranked(keys, threshold, limit)|
    ensures Ranked(keys, threshold, limit)[i].key in keys
    ensures Ranked(keys, threshold, limit)[i].count == multiset(keys)[Ranked(keys, threshold, limit)[i].key]
    ensures Ranked(keys, threshold, limit)[i].count > threshold
  {
    RankedFacts(keys, threshold, limit);
  }

  /** A row that passes the threshold but is not in the ranked table: the table
      is full and its last row's count is at least the row's. */
  lemma RankComplete(rows: seq<Row>, threshold: nat, limit: nat, x: Row)
    requires x in rows && x.count > threshold && x !in Rank(rows, threshold, limit)
    ensures |Rank(rows, threshold, limit)| == limit
    ensures limit > 0 ==> x.count <= Rank(rows, threshold, limit)[limit - 1].count
  {
    var above := Above(rows, threshold);
    AboveKeeps(rows, threshold, x);
    var sorted := SortByCount(above, RowCount);
    assert x in multiset(sorted);
    TakeSortedComplete(sorted, RowCount, limit, x);
  }

  /** A key whose count passes the threshold but that the table leaves out: the
      table is full, no entry of it has a lower count, and when the last entry
      has the same count its key occurred first, so the stable sort put it
      ahead. */
  lemma RankedComplete(keys: seq<string>, threshold: nat, limit: nat, k: string)
    requires k in keys && multiset(keys)[k] > threshold
    requires k !in Keys(Ranked(keys, threshold, limit))
    ensures |Ranked(keys, threshold, limit)| == limit
    ensures limit > 0 ==> multiset(keys)[k] <= Ranked(keys, threshold, limit)[limit - 1].count
    ensures limit > 0 && multiset(keys)[k] == Ranked(keys, threshold, limit)[limit - 1].count ==>
      && Ranked(keys, threshold, limit)[limit - 1].key in keys
      && FirstIndex(keys, Ranked(keys, threshold, limit)[limit - 1].key) < FirstIndex(keys, k)
  {
    var tally := Tally(keys);
    var d := Distinct(keys);
    assert k in d;
    var i :| 0 <= i < |d| && d[i] == k;
    var row := Row(k, multiset(keys)[k]);
    assert tally[i] == row;
    var r := Rank(tally, threshold, limit);
    assert r == Ranked(keys, threshold, limit);
    forall m | 0 <= m < |r| ensures r[m] != row {
      assert Keys(r)[m] == r[m].key;
    }
    RankComplete(tally, threshold, limit, row);
    if limit > 0 && row.count == r[limit - 1].count {
      RankedLastTie(keys, threshold, limit, k, r);
    }
  }

  /** The tie case of RankedComplete: the table is full and its last entry has
      the left-out key's count. */
  lemma RankedLastTie(keys: seq<string>, threshold: nat, limit: nat, k: string, r: seq<Row>)
    requires r == Ranked(keys, threshold, limit)
    requires k in keys && multiset(keys)[k] > threshold && k !in Keys(r)
    requires 0 < limit == |r| && multiset(keys)[k] == r[limit - 1].count
    ensures r[limit - 1].key in keys
    ensures FirstIndex(keys, r[limit - 1].key) < FirstIndex(keys, k)
  {
    var sorted := SortByCount(Above(Tally(keys), threshold), RowCount);
    var q := LeftOutPosition(keys, threshold, limit, k);
    SortedTieOrdered(keys, threshold, sorted);
    LastTie(keys, sorted, r, limit, q, k);
  }

  /** Rows with equal counts stand in the order in which their keys first
      occur. */
  ghost predicate TieOrdered(rows: seq<Row>, keys: seq<string>) {
    && KeysIn(rows, keys)
    && forall i, j :: 0 <= i < j < |rows| && rows[i].count == rows[j].count ==>
         FirstIndex(keys, rows[i].key) < FirstIndex(keys, rows[j].key)
  }

  lemma SortedTieOrdered(keys: seq<string>, threshold: nat, sorted: seq<Row>)
    requires sorted == SortByCount(Above(Tally(keys), threshold), RowCount)
    ensures TieOrdered(sorted, keys)
  {
    forall i | 0 <= i < |sorted| ensures sorted[i].key in keys {
      SortedTakeFrom(Above(Tally(keys), threshold), RowCount, |sorted|, i);
      TallyRows(keys);
      assert Take(sorted, |sorted|) == sorted;
    }
    forall i, j | 0 <= i < j < |sorted| && sorted[i].count == sorted[j].count
      ensures FirstIndex(keys, sorted[i].key) < FirstIndex(keys, sorted[j].key)
    {
      SortedTieOrder(keys, threshold, sorted, i, j);
    }
  }

  /** The last row of a full slice and a row after the slice with the same
      count: the last row's key occurs first. */
  lemma LastTie(keys: seq<string>, sorted: seq<Row>, r: seq<Row>, limit: nat, q: nat, k: string)
    requires TieOrdered(sorted, keys)
    requires r == Take(sorted, limit) && 0 < limit == |r| <= q < |sorted|
    requires sorted[q].key == k && sorted[q].count == r[limit - 1].count
    ensures r[limit - 1].key in keys
    ensures FirstIndex(keys, r[limit - 1].key) < FirstIndex(keys, k)
  {
    assert r[limit - 1] == sorted[limit - 1];
  }

  /** Where a key the table leaves out stands among the sorted rows: at or
      after the end of the slice. */
  lemma LeftOutPosition(keys: seq<string>, threshold: nat, limit: nat, k: string) returns (q: nat)
    requires k in keys && multiset(keys)[k] > threshold
    requires k !in Keys(Ranked(keys, threshold, limit))
    ensures limit <= q < |SortByCount(Above(Tally(keys), threshold), RowCount)|
    ensures SortByCount(Above(Tally(keys), threshold), RowCount)[q] == Row(k, multiset(keys)[k])
  {
    var tally := Tally(keys);
    var d := Distinct(keys);
    assert k in d;
    var i :| 0 <= i < |d| && d[i] == k;
    var row := Row(k, multiset(keys)[k]);
    assert tally[i] == row;
    var sorted := SortByCount(Above(tally, threshold), RowCount);
    var r := Take(sorted, limit);
    assert row !in r by {
      forall m | 0 <= m < |r| ensures r[m] != row {
        assert Keys(r)[m] == r[m].key;
      }
    }
    assert row in sorted by {
      AboveKeeps(tally, threshold, row);
      assert row in multiset(sorted);
    }
    q := TakeLeftOut(sorted, limit, row);
  }

  /** An element that a slice leaves out stands at or after the slice's end. */
  lemma TakeLeftOut<T>(xs: seq<T>, limit: nat, x: T) returns (q: nat)
    requires x in xs && x !in Take(xs, limit)
    ensures limit <= q < |xs| && xs[q] == x
  {
    q :| 0 <= q < |xs| && xs[q] == x;
    PrefixMember(xs, |Take(xs, limit)|, q);
  }

  /** In the sorted rows, two rows with equal counts keep the order in which
      their keys first occur. */
  lemma SortedTieOrder(keys: seq<string>, threshold: nat, sorted: seq<Row>, i: nat, j: nat)
    requires sorted == SortByCount(Above(Tally(keys), threshold), RowCount)
    requires i < j < |sorted| && sorted[i].count == sorted[j].count
    ensures sorted[i].key in keys && sorted[j].key in keys
    ensures FirstIndex(keys, sorted[i].key) < FirstIndex(keys, sorted[j].key)
  {
    var tally := Tally(keys);
    var above := Above(tally, threshold);
    var c := RowCount(sorted[i]);
    TallyFirstSeenOrdered(keys);
    AboveKeepsOrder(tally, keys, threshold);
    WithCountPositions(sorted, RowCount, i, j);
    SortStable(above, RowCount, c);
    WithCountKeepsOrder(above, keys, c);
    var w := WithCount(sorted, RowCount, c);
    var p, q :| 0 <= p < q < |w| && w[p] == sorted[i] && w[q] == sorted[j];
  }

  /** Rows with equal counts keep the order in which their keys first occur. */
  lemma RankedTieOrder(keys: seq<string>, threshold: nat, limit: nat)
    ensures KeysIn(Ranked(keys, threshold, limit), keys)
    ensures forall i, j ::
      (0 <= i < j < |Ranked(keys, threshold, limit)|
       && Ranked(keys, threshold, limit)[i].count == Ranked(keys, threshold, limit)[j].count) ==>
      FirstIndex(keys, Ranked(keys, threshold, limit)[i].key) < FirstIndex(keys, Ranked(keys, threshold, limit)[j].key)
  {
    var sorted := SortByCount(Above(Tally(keys), threshold), RowCount);
    var r := Take(sorted, limit);
    RankedFacts(keys, threshold, limit);
    forall i, j | 0 <= i < j < |r| && r[i].count == r[j].count
      ensures FirstIndex(keys, r[i].key) < FirstIndex(keys, r[j].key)
    {
      assert r[i] == sorted[i] && r[j] == sorted[j];
      SortedTieOrder(keys, threshold, sorted, i, j);
    }
  }
}
