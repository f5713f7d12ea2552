/**
 * The JavaScript array and map operations the storage layer is built from:
 * `filter`, `find`, `slice`, `[...new Set(xs)]` and `Array.from(map.values())`.
 */
module Collections {
  import opened Wrappers

  /** `xs.filter(p)`: the elements satisfying `p`, in their original order. */
  function Filter<T(!new)>(xs: seq<T>, p: T -> bool): (r: seq<T>)
    ensures |r| <= |xs|
    ensures forall x :: x in r <==> x in xs && p(x)
    ensures multiset(r) <= multiset(xs)
  {
    if |xs| == 0 then []
    else
      assert xs == [xs[0]] + xs[1..];
      (if p(xs[0]) then [xs[0]] else []) + Filter(xs[1..], p)
  }

  /** `filter` keeps each passing element exactly as often as it occurs, and drops every other. */
  lemma {:induction false} FilterCounts<T(!new)>(xs: seq<T>, p: T -> bool)
    ensures forall x :: multiset(Filter(xs, p))[x] == if p(x) then multiset(xs)[x] else 0
  {
    if |xs| > 0 {
      assert xs == [xs[0]] + xs[1..];
      FilterCounts(xs[1..], p);
      assert multiset(Filter(xs, p)) == multiset(if p(xs[0]) then [xs[0]] else []) + multiset(Filter(xs[1..], p));
    }
  }

  /** Filtering a concatenation filters each part. */
  lemma {:induction false} FilterAppend<T(!new)>(a: seq<T>, b: seq<T>, p: T -> bool)
    ensures Filter(a + b, p) == Filter(a, p) + Filter(b, p)
  {
    if |a| == 0 {
      assert a + b == b;
    } else {
      assert (a + b)[1..] == a[1..] + b;
      FilterAppend(a[1..], b, p);
    }
  }

  /** Two tails that filter alike still filter alike behind the same head. */
  lemma FilterSameTail<T(!new)>(x: T, a: seq<T>, b: seq<T>, p: T -> bool)
    requires Filter(a, p) == Filter(b, p)
    ensures Filter([x] + a, p) == Filter([x] + b, p)
  {
    FilterCons(x, a, p);
    FilterCons(x, b, p);
  }

  /** Filtering a list with a given head. */
  lemma FilterCons<T(!new)>(x: T, xs: seq<T>, p: T -> bool)
    ensures Filter([x] + xs, p) == (if p(x) then [x] else []) + Filter(xs, p)
  {
    assert ([x] + xs)[1..] == xs;
  }

  /** Filtering a one-element list. */
  lemma SingletonFilter<T(!new)>(x: T, p: T -> bool)
    ensures Filter([x], p) == if p(x) then [x] else []
  {
    assert [x][1..] == [];
  }

  /** Filtering a list whose head is rejected. */
  lemma FilterDropsHead<T(!new)>(x: T, xs: seq<T>, p: T -> bool)
    requires !p(x)
    ensures Filter([x] + xs, p) == Filter(xs, p)
  {
    FilterCons(x, xs, p);
  }

  /** Two leading elements of which at most one survives the filter can trade places. */
  lemma FilterSwap<T(!new)>(a: T, b: T, c: seq<T>, p: T -> bool)
    requires !(p(a) && p(b))
    ensures Filter([a] + ([b] + c), p) == Filter([b] + ([a] + c), p)
  {
    if p(a) {
      FilterDropsHead(b, [a] + c, p);
      FilterDropsHead(b, c, p);
      FilterAppend([a], [b] + c, p);
      FilterAppend([a], c, p);
    } else {
      FilterDropsHead(a, [b] + c, p);
      FilterDropsHead(a, c, p);
      FilterAppend([b], [a] + c, p);
      FilterAppend([b], c, p);
    }
  }

  /**
   * Moving `x` past `y`, when at most one of them survives the filter, leaves
   * the filtered list unchanged.
   */
  lemma FilterPastFront<T(!new)>(y: T, x: T, rest: seq<T>, moved: seq<T>, p: T -> bool)
    requires !(p(x) && p(y))
    requires Filter(moved, p) == Filter([x] + rest, p)
    ensures Filter([y] + moved, p) == Filter([x] + ([y] + rest), p)
  {
    calc {
      Filter([y] + moved, p);
      { FilterAppend([y], moved, p); }
      Filter([y], p) + Filter(moved, p);
      Filter([y], p) + Filter([x] + rest, p);
      { FilterAppend([y], [x] + rest, p); }
      Filter([y] + ([x] + rest), p);
      { FilterSwap(y, x, rest, p); }
      Filter([x] + ([y] + rest), p);
    }
  }

  /** A filter whose predicate holds of every element keeps the whole sequence. */
  lemma {:induction false} FilterAll<T(!new)>(xs: seq<T>, p: T -> bool)
    requires forall i :: 0 <= i < |xs| ==> p(xs[i])
    ensures Filter(xs, p) == xs
  {
    if |xs| > 0 {
      FilterAll(xs[1..], p);
      assert [xs[0]] + xs[1..] == xs;
    }
  }

  /** A relation that holds between every earlier and later element still holds after filtering. */
  lemma {:induction false} FilterKeepsOrder<T(!new)>(xs: seq<T>, p: T -> bool, before: (T, T) -> bool)
    requires forall i, j :: 0 <= i < j < |xs| ==> before(xs[i], xs[j])
    ensures forall i, j :: 0 <= i < j < |Filter(xs, p)| ==> before(Filter(xs, p)[i], Filter(xs, p)[j])
  {
    if |xs| > 0 {
      var rest := Filter(xs[1..], p);
      FilterKeepsOrder(xs[1..], p, before);
      FilterCons(xs[0], xs[1..], p);
      assert xs == [xs[0]] + xs[1..];
      if p(xs[0]) {
        var r := [xs[0]] + rest;
        forall i, j | 0 <= i < j < |r| ensures before(r[i], r[j]) {
          if i == 0 {
            assert r[j] == rest[j - 1];
            assert rest[j - 1] in rest;
            var k :| 0 <= k < |xs[1..]| && xs[1..][k] == r[j];
            assert xs[k + 1] == r[j];
          } else {
            assert r[i] == rest[i - 1] && r[j] == rest[j - 1];
          }
        }
      }
    }
  }

  /** In a list without repeats every value occurs at most once. */
  lemma {:induction false} DistinctCountsOne<T>(xs: seq<T>, v: T)
    requires Distinct(xs)
    ensures multiset(xs)[v] <= 1
  {
    if |xs| > 0 {
      var rest := xs[1..];
      assert xs == [xs[0]] + rest;
      assert Distinct(rest) by {
        forall i, j | 0 <= i < j < |rest| ensures rest[i] != rest[j] {
          assert rest[i] == xs[i + 1] && rest[j] == xs[j + 1];
        }
      }
      DistinctCountsOne(rest, v);
      if v == xs[0] {
        assert v !in rest by {
          forall i | 0 <= i < |rest| ensures rest[i] != v {
            assert rest[i] == xs[i + 1];
          }
        }
      }
    }
  }

  /** A value found at two positions occurs at least twice. */
  lemma RepeatCountsTwice<T>(xs: seq<T>, i: int, j: int)
    requires 0 <= i < j < |xs|
    ensures xs[i] == xs[j] ==> multiset(xs)[xs[i]] >= 2
  {
    var front, back := xs[..j], xs[j..];
    assert xs == front + back;
    assert xs[i] == front[i] && xs[j] == back[0];
    assert multiset(front)[xs[i]] >= 1;
    assert multiset(back)[xs[j]] >= 1;
  }

  /** A rearrangement of a list without repeats has no repeats. */
  lemma PermutationKeepsDistinct<T>(xs: seq<T>, ys: seq<T>)
    requires Distinct(xs) && multiset(xs) == multiset(ys)
    ensures Distinct(ys)
  {
    forall i, j | 0 <= i < j < |ys| ensures ys[i] != ys[j] {
      RepeatCountsTwice(ys, i, j);
      DistinctCountsOne(xs, ys[i]);
    }
  }

  /**
   * How `slice` reads one of its bounds against an array of length `n`:
   * a negative bound counts from the end, and every bound is clamped into `[0, n]`.
   */
  function ClampIndex(i: int, n: nat): (r: nat)
    ensures r <= n
    ensures 0 <= i ==> r == if i <= n then i else n
    ensures i < 0 ==> r == if n + i < 0 then 0 else n + i
  {
    if i < 0 then (if n + i < 0 then 0 else n + i)
    else if i > n then n
    else i
  }

  /** `xs.slice(start, end)`, with JavaScript's reading of negative and out-of-range bounds. */
  function JsSlice<T>(xs: seq<T>, start: int, end: int): (r: seq<T>)
    ensures |r| <= |xs|
    ensures start <= end ==> |r| <= end - start
    ensures 0 <= start && 0 <= end ==> r == if start < |xs| && start < end then xs[start..Min(end, |xs|)] else []
    ensures exists lo :: WindowAt(xs, lo, r)
  {
    var lo := ClampIndex(start, |xs|);
    var hi := ClampIndex(end, |xs|);
    if lo < hi then
      assert WindowAt(xs, lo, xs[lo..hi]);
      xs[lo..hi]
    else
      assert WindowAt(xs, 0, []);
      []
  }

  /**
   * Every call reduces to the non-negative case: `slice` first reads each
   * bound through `ClampIndex` (a negative one counts from the end), then cuts.
   */
  lemma JsSliceClamps<T>(xs: seq<T>, start: int, end: int)
    ensures JsSlice(xs, start, end) == JsSlice(xs, ClampIndex(start, |xs|), ClampIndex(end, |xs|))
  {
  }

  /** A run cut from `xs` keeps every relation that holds between earlier and later elements of `xs`. */
  lemma WindowKeepsOrder<T>(xs: seq<T>, lo: int, r: seq<T>, before: (T, T) -> bool)
    requires WindowAt(xs, lo, r)
    requires forall i, j :: 0 <= i < j < |xs| ==> before(xs[i], xs[j])
    ensures forall i, j :: 0 <= i < j < |r| ==> before(r[i], r[j])
  {
    forall i, j | 0 <= i < j < |r| ensures before(r[i], r[j]) {
      assert r[i] == xs[lo + i] && r[j] == xs[lo + j];
    }
  }

  /** A run cut from `xs` holds only elements of `xs`. */
  lemma WindowWithin<T>(xs: seq<T>, lo: int, r: seq<T>)
    requires WindowAt(xs, lo, r)
    ensures forall x :: x in r ==> x in xs
  {
    forall x | x in r ensures x in xs {
      var i :| 0 <= i < |r| && r[i] == x;
      assert xs[lo + i] == x;
    }
  }

  /** `r` is the contiguous run of `xs` that starts at index `lo`. */
  ghost predicate WindowAt<T>(xs: seq<T>, lo: int, r: seq<T>) {
    0 <= lo <= |xs| - |r| && r == xs[lo..lo + |r|]
  }

  function Min(a: int, b: int): int {
    if a <= b then a else b
  }

  /** No value appears twice. */
  predicate Distinct<T(==)>(xs: seq<T>) {
    forall i, j :: 0 <= i < j < |xs| ==> xs[i] != xs[j]
  }

  /** `[...new Set(xs)]`: each value once, at the place it first occurs. */
  function Dedup<T(==,!new)>(xs: seq<T>): (r: seq<T>)
    ensures Distinct(r)
    ensures forall x :: x in r <==> x in xs
    ensures |r| <= |xs|
    decreases |xs|
  {
    if |xs| == 0 then []
    else
      var d := Dedup(xs[..|xs| - 1]);
      var last := xs[|xs| - 1];
      assert xs == xs[..|xs| - 1] + [last];
      if last in d then d else d + [last]
  }

  /** The position of the first occurrence of `v` in `xs`. */
  function FirstIndex<T(==)>(xs: seq<T>, v: T): (k: nat)
    requires v in xs
    ensures k < |xs| && xs[k] == v
    ensures forall j :: 0 <= j < k ==> xs[j] != v
  {
    if xs[0] == v then 0
    else
      assert v in xs[1..] by {
        var i :| 0 <= i < |xs| && xs[i] == v;
        assert xs[1..][i - 1] == v;
      }
      1 + FirstIndex(xs[1..], v)
  }

  /** Appending to a list does not move the first occurrence of a value already in it. */
  lemma FirstIndexExtend<T>(front: seq<T>, x: T, v: T)
    requires v in front
    ensures v in front + [x] && FirstIndex(front + [x], v) == FirstIndex(front, v)
  {
    var xs := front + [x];
    var k := FirstIndex(front, v);
    assert xs[k] == v;
    forall j | 0 <= j < k ensures xs[j] != v {
      assert xs[j] == front[j];
    }
  }

  /** The values of `r` all occur in `xs`, in the order of their first occurrences there. */
  predicate InFirstOccurrenceOrder<T(==)>(xs: seq<T>, r: seq<T>) {
    forall i, j :: 0 <= i < j < |r| ==> r[i] in xs && r[j] in xs && FirstIndex(xs, r[i]) < FirstIndex(xs, r[j])
  }

  /**
   * `[...new Set(xs)]` lists the values in the order of their first
   * occurrences in `xs`.
   */
  lemma {:induction false} DedupFirstOccurrenceOrder<T(!new)>(xs: seq<T>)
    ensures InFirstOccurrenceOrder(xs, Dedup(xs))
    decreases |xs|
  {
    if |xs| > 0 {
      var front, last := xs[..|xs| - 1], xs[|xs| - 1];
      assert xs == front + [last];
      var d := Dedup(front);
      DedupFirstOccurrenceOrder(front);
      if last in d {
        assert Dedup(xs) == d;
        DedupSkipsOld(front, last, d);
      } else {
        assert Dedup(xs) == d + [last];
        DedupAppendsNew(front, last, d);
      }
    }
  }

  /** A list ordered by first occurrence in `front` is still so ordered in `front + [last]`. */
  lemma DedupSkipsOld<T>(front: seq<T>, last: T, d: seq<T>)
    requires forall x :: x in d ==> x in front
    requires InFirstOccurrenceOrder(front, d)
    ensures InFirstOccurrenceOrder(front + [last], d)
  {
    forall i | 0 <= i < |d| ensures FirstIndex(front + [last], d[i]) == FirstIndex(front, d[i]) {
      assert d[i] in d;
      FirstIndexExtend(front, last, d[i]);
    }
  }

  /** Appending a value new to `front` puts it after everything ordered by first occurrence in `front`. */
  lemma DedupAppendsNew<T>(front: seq<T>, last: T, d: seq<T>)
    requires last !in front
    requires forall x :: x in d ==> x in front
    requires InFirstOccurrenceOrder(front, d)
    ensures InFirstOccurrenceOrder(front + [last], d + [last])
  {
    var xs, r := front + [last], d + [last];
    assert FirstIndex(xs, last) == |front| by {
      forall j | 0 <= j < |front| ensures xs[j] != last {
        assert xs[j] == front[j];
      }
    }
    forall i | 0 <= i < |d| ensures FirstIndex(xs, d[i]) == FirstIndex(front, d[i]) {
      assert d[i] in d;
      FirstIndexExtend(front, last, d[i]);
    }
    forall i, j | 0 <= i < j < |r| ensures r[i] in xs && r[j] in xs && FirstIndex(xs, r[i]) < FirstIndex(xs, r[j]) {
      assert r[i] == d[i];
      if j < |d| {
        assert r[j] == d[j];
      } else {
        assert r[j] == last;
      }
    }
  }

  /** `m` belongs to `s` and is at most every element of `s`. */
  predicate IsLeast(s: set<int>, m: int) {
    m in s && forall x :: x in s ==> m <= x
  }

  /** The least element of a non-empty finite set of integers. */
  function MinOf(s: set<int>): (m: int)
    requires s != {}
    ensures m in s
    ensures forall x :: x in s ==> m <= x
  {
    MinExists(s);
    var m :| IsLeast(s, m);
    m
  }

  lemma {:induction false} MinExists(s: set<int>)
    requires s != {}
    ensures exists m :: IsLeast(s, m)
    decreases |s|
  {
    assert (forall x :: x !in s) ==> s == {};
    var y :| y in s;
    var rest := s - {y};
    if rest == {} {
      forall x | x in s ensures y <= x {
        assert x !in rest;
      }
      assert IsLeast(s, y);
    } else {
      assert |rest| == |s| - 1;
      MinExists(rest);
      var m :| IsLeast(rest, m);
      var least := if y < m then y else m;
      assert IsLeast(s, least) by {
        forall x | x in s ensures least <= x {
          if x != y {
            assert x in rest;
          }
        }
      }
    }
  }

  /** The keys of a set in ascending order. */
  function SortedIds(s: set<int>): (r: seq<int>)
    ensures |r| == |s|
    ensures forall x :: x in r <==> x in s
    ensures forall i, j :: 0 <= i < j < |r| ==> r[i] < r[j]
    decreases |s|
  {
    if s == {} then []
    else
      var m := MinOf(s);
      var rest := SortedIds(s - {m});
      SortedCons(s, m, rest);
      [m] + rest
  }

  /** Putting the least element in front of the ascending list of the others lists the whole set ascending. */
  lemma SortedCons(s: set<int>, m: int, rest: seq<int>)
    requires m in s && forall x :: x in s ==> m <= x
    requires |rest| == |s - {m}|
    requires forall x :: x in rest <==> x in s - {m}
    requires forall i, j :: 0 <= i < j < |rest| ==> rest[i] < rest[j]
    ensures |[m] + rest| == |s|
    ensures forall x :: x in [m] + rest <==> x in s
    ensures forall i, j :: 0 <= i < j < |[m] + rest| ==> ([m] + rest)[i] < ([m] + rest)[j]
  {
    var r := [m] + rest;
    forall i, j | 0 <= i < j < |r| ensures r[i] < r[j] {
      assert r[j] == rest[j - 1];
      assert rest[j - 1] in rest;
      if i > 0 {
        assert r[i] == rest[i - 1];
      }
    }
  }
  lemma SortedIdsWithin(s: set<int>)
    ensures forall i :: 0 <= i < |SortedIds(s)| ==> SortedIds(s)[i] in s
  {
    var ids := SortedIds(s);
    forall i | 0 <= i < |ids| ensures ids[i] in s {
      assert ids[i] in ids;
    }
  }


  /**
   * `Array.from(m.values()).find(p)` for a map whose keys were inserted in
   * ascending order, reported as the key of the entry found: the smallest key
   * whose value satisfies `p`.
   */
  function FindValue<T(!new)>(m: map<int, T>, p: T -> bool): (r: Option<int>)
    ensures r.Some? ==> r.value in m && p(m[r.value])
    ensures r.Some? ==> forall k :: k in m && k < r.value ==> !p(m[k])
    ensures r.None? <==> forall k :: k in m ==> !p(m[k])
    decreases |m|
  {
    if m.Keys == {} then None
    else
      var least := MinOf(m.Keys);
      if p(m[least]) then Some(least)
      else
        var rest := m - {least};
        assert |rest| < |m| by {
          assert rest.Keys == m.Keys - {least};
        }
        var r := FindValue(rest, p);
        assert forall k :: k in m && k != least ==> k in rest && rest[k] == m[k];
        r
  }

  /**
   * `Array.from(m.values())` for a map whose keys were inserted in ascending
   * order: the values listed by ascending key.
   */
  function Values<T(!new)>(m: map<int, T>): (r: seq<T>)
    ensures |r| == |m|
    ensures forall v :: v in r <==> exists k :: k in m && m[k] == v
  {
    var ids := SortedIds(m.Keys);
    SortedIdsWithin(m.Keys);
    var r := seq(|ids|, i requires 0 <= i < |ids| => m[ids[i]]);
    ValuesExactly(m, ids, r);
    r
  }

  /** The values come in ascending key order. */
  lemma ValuesInKeyOrder<T(!new)>(m: map<int, T>)
    ensures |Values(m)| == |SortedIds(m.Keys)|
    ensures forall i :: 0 <= i < |Values(m)| ==> SortedIds(m.Keys)[i] in m && Values(m)[i] == m[SortedIds(m.Keys)[i]]
  {
    var ids := SortedIds(m.Keys);
    forall i | 0 <= i < |ids| ensures ids[i] in m {
      assert ids[i] in ids;
    }
  }

  lemma ValuesExactly<T(!new)>(m: map<int, T>, ids: seq<int>, r: seq<T>)
    requires forall x :: x in ids <==> x in m
    requires forall i :: 0 <= i < |ids| ==> ids[i] in m
    requires |r| == |ids|
    requires forall i :: 0 <= i < |ids| ==> r[i] == m[ids[i]]
    ensures forall v :: v in r <==> exists k :: k in m && m[k] == v
  {
    forall k | k in m ensures m[k] in r {
      var i :| 0 <= i < |ids| && ids[i] == k;
      assert r[i] == m[k];
    }
    forall v | v in r ensures exists k :: k in m && m[k] == v {
      var i :| 0 <= i < |r| && r[i] == v;
      var k := ids[i];
      assert k in m && m[k] == v;
    }
  }
}
