/** The table queries every controller relies on: `findAll({ where })` is a filter,
    `findOne({ where })` finds the first matching row, `destroy()` removes a row
    (written `s[..i] + s[i + 1..]` for row `i`). */
module Seqs {
  import opened Common

  /** The rows of `s` that satisfy `p`, in table order. */
  function Filter<T(==,!new)>(s: seq<T>, p: T -> bool): (r: seq<T>)
    ensures |r| <= |s|
    ensures forall x :: x in r <==> x in s && p(x)
  {
    if s == [] then []
    else
      assert s == [s[0]] + s[1..];
      (if p(s[0]) then [s[0]] else []) + Filter(s[1..], p)
  }

  /** The index of the first row of `s` that satisfies `p`, if any. */
  function FindFirst<T>(s: seq<T>, p: T -> bool): (r: Option<nat>)
    ensures r.Some? ==> r.value < |s| && p(s[r.value])
    ensures r.Some? ==> forall j :: 0 <= j < r.value ==> !p(s[j])
    ensures r.None? <==> forall j :: 0 <= j < |s| ==> !p(s[j])
  {
    if s == [] then None
    else if p(s[0]) then Some(0)
    else
      match FindFirst(s[1..], p)
      case None => None
      case Some(j) => Some(j + 1)
  }

  lemma {:induction false} FilterAppend<T(!new)>(s: seq<T>, t: seq<T>, p: T -> bool)
    ensures Filter(s + t, p) == Filter(s, p) + Filter(t, p)
  {
    if s == [] {
      assert s + t == t;
    } else {
      assert (s + t)[1..] == s[1..] + t;
      FilterAppend(s[1..], t, p);
    }
  }

  /** Rewriting a row that the filter rejects, into one it still rejects, does not change the filter. */
  lemma FilterUpdateUnselected<T(!new)>(s: seq<T>, i: nat, x: T, p: T -> bool)
    requires i < |s| && !p(s[i]) && !p(x)
    ensures Filter(s[i := x], p) == Filter(s, p)
  {
    assert s == s[..i] + [s[i]] + s[i + 1..];
    assert s[i := x] == s[..i] + [x] + s[i + 1..];
    FilterAppend(s[..i] + [s[i]], s[i + 1..], p);
    FilterAppend(s[..i], [s[i]], p);
    FilterAppend(s[..i] + [x], s[i + 1..], p);
    FilterAppend(s[..i], [x], p);
  }

  /** A rejected first row does not reach the filter. */
  lemma FilterConsUnselected<T(!new)>(x: T, s: seq<T>, p: T -> bool)
    requires !p(x)
    ensures Filter([x] + s, p) == Filter(s, p)
  {
    assert ([x] + s)[1..] == s;
  }

  /** Removing a row that the filter rejects does not change the filter. */
  lemma FilterRemoveUnselected<T(!new)>(s: seq<T>, i: nat, p: T -> bool)
    requires i < |s| && !p(s[i])
    ensures Filter(s[..i] + s[i + 1..], p) == Filter(s, p)
  {
    assert s == s[..i] + s[i..];
    assert s[i..] == [s[i]] + s[i + 1..];
    FilterAppend(s[..i], s[i..], p);
    FilterConsUnselected(s[i], s[i + 1..], p);
    FilterAppend(s[..i], s[i + 1..], p);
  }

  /** Appending a row that the filter rejects does not change the filter. */
  lemma FilterAppendUnselected<T(!new)>(s: seq<T>, x: T, p: T -> bool)
    requires !p(x)
    ensures Filter(s + [x], p) == Filter(s, p)
  {
    FilterAppend(s, [x], p);
  }

  /** Filtering twice, the second time by a stronger condition, is filtering once by it. */
  lemma {:induction false} FilterOfFilter<T(!new)>(s: seq<T>, p: T -> bool, q: T -> bool)
    requires forall x :: q(x) ==> p(x)
    ensures Filter(Filter(s, p), q) == Filter(s, q)
  {
    if s != [] {
      FilterOfFilter(s[1..], p, q);
      FilterAppend(if p(s[0]) then [s[0]] else [], Filter(s[1..], p), q);
    }
  }

  /** The filter keeps every row that satisfies `p` exactly as often as the table holds it. */
  lemma {:induction false} FilterCount<T(!new)>(s: seq<T>, p: T -> bool, x: T)
    ensures multiset(Filter(s, p))[x] == if p(x) then multiset(s)[x] else 0
  {
    if s != [] {
      assert s == [s[0]] + s[1..];
      FilterCount(s[1..], p, x);
    }
  }

  /** When no row satisfies `p`, the filter is empty. */
  lemma FilterNone<T(!new)>(s: seq<T>, p: T -> bool)
    requires forall j :: 0 <= j < |s| ==> !p(s[j])
    ensures Filter(s, p) == []
  {
  }

  /** Every two distinct rows of `s`, in table order, are related by `ok`:
      the shape of "ids are unique" and "at most one row per pair". */
  ghost predicate Pairwise<T>(s: seq<T>, ok: (T, T) -> bool)
  {
    forall i, j :: 0 <= i < j < |s| ==> ok(s[i], s[j])
  }

  lemma PairwiseAppend<T>(s: seq<T>, x: T, ok: (T, T) -> bool)
    requires Pairwise(s, ok)
    requires forall k :: 0 <= k < |s| ==> ok(s[k], x)
    ensures Pairwise(s + [x], ok)
  {
  }

  lemma PairwiseRemove<T>(s: seq<T>, i: nat, ok: (T, T) -> bool)
    requires i < |s| && Pairwise(s, ok)
    ensures Pairwise(s[..i] + s[i + 1..], ok)
  {
    var r := s[..i] + s[i + 1..];
    forall a, b | 0 <= a < b < |r| ensures ok(r[a], r[b]) {
      var a', b' := if a < i then a else a + 1, if b < i then b else b + 1;
      assert r[a] == s[a'] && r[b] == s[b'];
    }
  }

  lemma PairwiseUpdate<T>(s: seq<T>, i: nat, x: T, ok: (T, T) -> bool)
    requires i < |s| && Pairwise(s, ok)
    requires forall k :: 0 <= k < |s| && k != i ==> ok(s[k], x) && ok(x, s[k])
    ensures Pairwise(s[i := x], ok)
  {
  }

  lemma {:induction false} PairwiseFilter<T(!new)>(s: seq<T>, ok: (T, T) -> bool, p: T -> bool)
    requires Pairwise(s, ok)
    ensures Pairwise(Filter(s, p), ok)
  {
    if s != [] {
      PairwiseFilter(s[1..], ok, p);
      var rest := Filter(s[1..], p);
      forall k | 0 <= k < |rest| ensures ok(s[0], rest[k]) {
        assert rest[k] in s[1..];
        var m :| 0 <= m < |s[1..]| && s[1..][m] == rest[k];
        assert s[m + 1] == rest[k];
      }
    }
  }

  /** A search over two tables of equal length whose rows agree on `p` finds the same index. */
  lemma {:induction false} FindFirstAgrees<T>(s: seq<T>, t: seq<T>, p: T -> bool)
    requires |s| == |t|
    requires forall k :: 0 <= k < |s| ==> p(s[k]) == p(t[k])
    ensures FindFirst(s, p) == FindFirst(t, p)
  {
    if s != [] {
      FindFirstAgrees(s[1..], t[1..], p);
    }
  }
}
