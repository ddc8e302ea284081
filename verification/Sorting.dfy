/** The runtime's `qsort` and `bsearch`.
  *
  * An element is one value of type `T`; the comparator is any function with the
  * sign of a total preorder, as C asks of it. Stability is said through classes:
  * for every `x`, the elements that compare equal to `x` stand in the same order
  * before and after. */
module Sorting {

  type Comparator<!T(!new)> = (T, T) -> int

  ghost predicate TotalPreorder<T(!new)>(cmp: Comparator<T>) {
    && (forall a, b :: cmp(a, b) < 0 <==> cmp(b, a) > 0)
    && (forall a, b, c :: cmp(a, b) <= 0 && cmp(b, c) <= 0 ==> cmp(a, c) <= 0)
  }

  ghost predicate Ordered<T(!new)>(s: seq<T>, cmp: Comparator<T>) {
    forall i, j :: 0 <= i < j < |s| ==> cmp(s[i], s[j]) <= 0
  }

  /** The elements that compare equal to `x`, in order. */
  ghost function Class<T(!new)>(s: seq<T>, x: T, cmp: Comparator<T>): seq<T> {
    if s == [] then []
    else (if cmp(x, s[0]) == 0 then [s[0]] else []) + Class(s[1..], x, cmp)
  }

  ghost predicate Stable<T(!new)>(r: seq<T>, s: seq<T>, cmp: Comparator<T>) {
    && |r| == |s|
    && forall x :: Class(r, x, cmp) == Class(s, x, cmp)
  }

  // -------------------------------------------------------------- reference

  ghost function Merge<T(!new)>(a: seq<T>, b: seq<T>, cmp: Comparator<T>): (r: seq<T>)
    ensures |r| == |a| + |b|
    decreases |a| + |b|
  {
    if a == [] then b
    else if b == [] then a
    else if cmp(b[0], a[0]) < 0 then [b[0]] + Merge(a, b[1..], cmp)
    else [a[0]] + Merge(a[1..], b, cmp)
  }

  /** The one ordered, stable arrangement of `s`. */
  ghost function SortOf<T(!new)>(s: seq<T>, cmp: Comparator<T>): seq<T> {
    if s == [] then [] else Merge([s[0]], SortOf(s[1..], cmp), cmp)
  }

  // ---------------------------------------------------------------- classes

  lemma {:induction false} ClassAppend<T(!new)>(a: seq<T>, b: seq<T>, x: T, cmp: Comparator<T>)
    ensures Class(a + b, x, cmp) == Class(a, x, cmp) + Class(b, x, cmp)
  {
    if a == [] {
      assert a + b == b;
    } else {
      var head := if cmp(x, a[0]) == 0 then [a[0]] else [];
      assert (a + b)[1..] == a[1..] + b && (a + b)[0] == a[0];
      ClassAppend(a[1..], b, x, cmp);
      assert head + (Class(a[1..], x, cmp) + Class(b, x, cmp)) == (head + Class(a[1..], x, cmp)) + Class(b, x, cmp);
    }
  }

  lemma {:induction false} ClassEmpty<T(!new)>(s: seq<T>, x: T, cmp: Comparator<T>)
    requires forall i :: 0 <= i < |s| ==> cmp(x, s[i]) != 0
    ensures Class(s, x, cmp) == []
  {
    if s != [] {
      ClassEmpty(s[1..], x, cmp);
    }
  }

  lemma {:induction false} ClassMembers<T(!new)>(s: seq<T>, x: T, cmp: Comparator<T>)
    ensures forall y :: y in Class(s, x, cmp) ==> y in s && cmp(x, y) == 0
    ensures forall y :: y in s && cmp(x, y) == 0 ==> y in Class(s, x, cmp)
  {
    if s != [] {
      ClassMembers(s[1..], x, cmp);
      assert s == [s[0]] + s[1..];
    }
  }

  lemma {:induction false} ClassCounts<T(!new)>(s: seq<T>, x: T, cmp: Comparator<T>)
    requires cmp(x, x) == 0
    ensures multiset(Class(s, x, cmp))[x] == multiset(s)[x]
  {
    if s != [] {
      ClassCounts(s[1..], x, cmp);
      assert s == [s[0]] + s[1..];
    }
  }

  /** A stable rearrangement is a permutation. */
  lemma {:induction false} StablePermutes<T(!new)>(r: seq<T>, s: seq<T>, cmp: Comparator<T>)
    requires TotalPreorder(cmp) && Stable(r, s, cmp)
    ensures multiset(r) == multiset(s)
  {
    forall x
      ensures multiset(r)[x] == multiset(s)[x]
    {
      ClassCounts(r, x, cmp);
      ClassCounts(s, x, cmp);
    }
  }

  // ------------------------------------------------------------------ merge

  lemma {:induction false} MergeMembers<T(!new)>(a: seq<T>, b: seq<T>, cmp: Comparator<T>)
    ensures forall y :: y in Merge(a, b, cmp) ==> y in a || y in b
    decreases |a| + |b|
  {
    if a != [] && b != [] {
      if cmp(b[0], a[0]) < 0 {
        MergeMembers(a, b[1..], cmp);
      } else {
        MergeMembers(a[1..], b, cmp);
      }
    }
  }

  lemma {:induction false} OrderedCons<T(!new)>(x: T, s: seq<T>, cmp: Comparator<T>)
    requires Ordered(s, cmp)
    requires forall y :: y in s ==> cmp(x, y) <= 0
    ensures Ordered([x] + s, cmp)
  {}

  lemma {:induction false} HeadIsLeast<T(!new)>(s: seq<T>, y: T, cmp: Comparator<T>)
    requires TotalPreorder(cmp) && Ordered(s, cmp) && s != [] && y in s
    ensures cmp(s[0], y) <= 0
  {
    var i :| 0 <= i < |s| && s[i] == y;
  }

  lemma {:induction false} MergeOrdered<T(!new)>(a: seq<T>, b: seq<T>, cmp: Comparator<T>)
    requires TotalPreorder(cmp) && Ordered(a, cmp) && Ordered(b, cmp)
    ensures Ordered(Merge(a, b, cmp), cmp)
    decreases |a| + |b|
  {
    if a != [] && b != [] {
      var fromB := cmp(b[0], a[0]) < 0;
      var a', b' := if fromB then a else a[1..], if fromB then b[1..] else b;
      var x := if fromB then b[0] else a[0];
      MergeOrdered(a', b', cmp);
      MergeMembers(a', b', cmp);
      forall y | y in Merge(a', b', cmp)
        ensures cmp(x, y) <= 0
      {
        if y in a' {
          HeadIsLeast(a, y, cmp);
        } else {
          HeadIsLeast(b, y, cmp);
        }
      }
      OrderedCons(x, Merge(a', b', cmp), cmp);
    }
  }

  /** A run that starts above `low` has nothing in the class of `low`. */
  lemma {:induction false} NothingBelow<T(!new)>(a: seq<T>, low: T, x: T, cmp: Comparator<T>)
    requires TotalPreorder(cmp) && Ordered(a, cmp) && a != []
    requires cmp(low, a[0]) < 0 && cmp(x, low) == 0
    ensures Class(a, x, cmp) == []
  {
    forall i | 0 <= i < |a|
      ensures cmp(x, a[i]) != 0
    {
      HeadIsLeast(a, a[i], cmp);
      Above(x, low, a[0], a[i], cmp);
    }
    ClassEmpty(a, x, cmp);
  }

  lemma {:induction false} ClassCons<T(!new)>(y: T, s: seq<T>, x: T, cmp: Comparator<T>)
    ensures Class([y] + s, x, cmp) == (if cmp(x, y) == 0 then [y] else []) + Class(s, x, cmp)
  {
    assert ([y] + s)[1..] == s;
  }

  lemma {:induction false} OrderedTail<T(!new)>(s: seq<T>, cmp: Comparator<T>)
    requires Ordered(s, cmp) && s != []
    ensures Ordered(s[1..], cmp)
  {}

  lemma {:induction false} Regroup<T>(h: seq<T>, p: seq<T>, q: seq<T>)
    ensures h + (p + q) == (h + p) + q
    ensures p == [] || h == [] ==> h + (p + q) == p + (h + q)
  {
    if p == [] {
      assert p + q == q && p + (h + q) == h + q;
    } else if h == [] {
      assert h + (p + q) == p + q && h + q == q;
    }
  }

  lemma {:induction false} MergeLeft<T(!new)>(a: seq<T>, b: seq<T>, x: T, cmp: Comparator<T>)
    requires a != [] && b != [] && cmp(b[0], a[0]) >= 0
    requires Class(Merge(a[1..], b, cmp), x, cmp) == Class(a[1..], x, cmp) + Class(b, x, cmp)
    ensures Class(Merge(a, b, cmp), x, cmp) == Class(a, x, cmp) + Class(b, x, cmp)
  {
    hide Class;
    ClassCons(a[0], Merge(a[1..], b, cmp), x, cmp);
    ClassHead(a, x, cmp);
    Regroup(if cmp(x, a[0]) == 0 then [a[0]] else [], Class(a[1..], x, cmp), Class(b, x, cmp));
  }

  lemma {:induction false} MergeRight<T(!new)>(a: seq<T>, b: seq<T>, x: T, cmp: Comparator<T>)
    requires a != [] && b != [] && cmp(b[0], a[0]) < 0
    requires cmp(x, b[0]) == 0 ==> Class(a, x, cmp) == []
    requires Class(Merge(a, b[1..], cmp), x, cmp) == Class(a, x, cmp) + Class(b[1..], x, cmp)
    ensures Class(Merge(a, b, cmp), x, cmp) == Class(a, x, cmp) + Class(b, x, cmp)
  {
    hide Class;
    ClassCons(b[0], Merge(a, b[1..], cmp), x, cmp);
    ClassHead(b, x, cmp);
    Regroup(if cmp(x, b[0]) == 0 then [b[0]] else [], Class(a, x, cmp), Class(b[1..], x, cmp));
  }

  /** Merging keeps each class: those of the left run, then those of the right. */
  lemma {:induction false} MergeClass<T(!new)>(a: seq<T>, b: seq<T>, x: T, cmp: Comparator<T>)
    requires TotalPreorder(cmp) && Ordered(a, cmp) && Ordered(b, cmp)
    ensures Class(Merge(a, b, cmp), x, cmp) == Class(a, x, cmp) + Class(b, x, cmp)
    decreases |a| + |b|
  {
    hide TotalPreorder, Ordered, Class, Merge;
    if a == [] || b == [] {
      MergeRest(a, b, cmp);
      ClassAppend(a, b, x, cmp);
    } else if cmp(b[0], a[0]) < 0 {
      OrderedTail(b, cmp);
      MergeClass(a, b[1..], x, cmp);
      if cmp(x, b[0]) == 0 {
        NothingBelow(a, b[0], x, cmp);
      }
      MergeRight(a, b, x, cmp);
    } else {
      OrderedTail(a, cmp);
      MergeClass(a[1..], b, x, cmp);
      MergeLeft(a, b, x, cmp);
    }
  }

  lemma {:induction false} ClassHead<T(!new)>(s: seq<T>, x: T, cmp: Comparator<T>)
    requires s != []
    ensures Class(s, x, cmp) == (if cmp(x, s[0]) == 0 then [s[0]] else []) + Class(s[1..], x, cmp)
  {}

  lemma {:induction false} Above<T(!new)>(x: T, low: T, a: T, y: T, cmp: Comparator<T>)
    requires TotalPreorder(cmp) && cmp(x, low) == 0 && cmp(low, a) < 0 && cmp(a, y) <= 0
    ensures cmp(x, y) != 0
  {
    assert cmp(x, y) == 0 ==> cmp(y, x) <= 0;
    assert cmp(x, y) == 0 ==> cmp(a, x) <= 0;
  }

  lemma {:induction false} SortOfSorts<T(!new)>(s: seq<T>, cmp: Comparator<T>)
    requires TotalPreorder(cmp)
    ensures Ordered(SortOf(s, cmp), cmp) && Stable(SortOf(s, cmp), s, cmp)
  {
    if s != [] {
      var rest := SortOf(s[1..], cmp);
      SortOfSorts(s[1..], cmp);
      MergeOrdered([s[0]], rest, cmp);
      forall x
        ensures Class(SortOf(s, cmp), x, cmp) == Class(s, x, cmp)
      {
        MergeClass([s[0]], rest, x, cmp);
        ClassAppend([s[0]], s[1..], x, cmp);
        assert s == [s[0]] + s[1..];
      }
    }
  }

  // ------------------------------------------------------------- uniqueness

  lemma {:induction false} HeadsAgree<T(!new)>(r: seq<T>, s: seq<T>, cmp: Comparator<T>)
    requires TotalPreorder(cmp) && Ordered(r, cmp) && Ordered(s, cmp) && Stable(r, s, cmp)
    requires r != []
    ensures r[0] == s[0]
  {
    var x, y := r[0], s[0];
    assert Class(r, x, cmp) == Class(s, x, cmp) && Class(r, y, cmp) == Class(s, y, cmp);
    ClassMembers(r, x, cmp);
    ClassMembers(s, x, cmp);
    ClassMembers(r, y, cmp);
    ClassMembers(s, y, cmp);
    HeadIsLeast(s, x, cmp);
    HeadIsLeast(r, y, cmp);
    assert cmp(x, y) == 0;
    assert Class(r, x, cmp)[0] == x && Class(s, x, cmp)[0] == y;
  }

  lemma {:induction false} TailsStable<T(!new)>(r: seq<T>, s: seq<T>, cmp: Comparator<T>)
    requires Stable(r, s, cmp) && r != [] && r[0] == s[0]
    ensures Stable(r[1..], s[1..], cmp)
  {
    forall x
      ensures Class(r[1..], x, cmp) == Class(s[1..], x, cmp)
    {
      var head := if cmp(x, r[0]) == 0 then [r[0]] else [];
      assert Class(r, x, cmp) == Class(s, x, cmp);
      assert head + Class(r[1..], x, cmp) == head + Class(s[1..], x, cmp);
      assert Class(r[1..], x, cmp) == (head + Class(r[1..], x, cmp))[|head|..];
      assert Class(s[1..], x, cmp) == (head + Class(s[1..], x, cmp))[|head|..];
    }
  }

  /** There is only one ordered, stable arrangement. */
  lemma {:induction false} Unique<T(!new)>(r: seq<T>, s: seq<T>, cmp: Comparator<T>)
    requires TotalPreorder(cmp) && Ordered(r, cmp) && Ordered(s, cmp) && Stable(r, s, cmp)
    ensures r == s
  {
    hide TotalPreorder, Ordered, Class;
    if r != [] {
      HeadsAgree(r, s, cmp);
      OrderedTail(r, cmp);
      OrderedTail(s, cmp);
      TailsStable(r, s, cmp);
      Unique(r[1..], s[1..], cmp);
      assert r == [r[0]] + r[1..] && s == [s[0]] + s[1..];
    }
  }

  lemma {:induction false} StableTrans<T(!new)>(r: seq<T>, s: seq<T>, t: seq<T>, cmp: Comparator<T>)
    requires Stable(r, s, cmp) && Stable(s, t, cmp)
    ensures Stable(r, t, cmp)
  {
    forall x
      ensures Class(r, x, cmp) == Class(t, x, cmp)
    {
      assert Class(s, x, cmp) == Class(t, x, cmp);
    }
  }

  /** Being ordered and stable pins the result down. */
  lemma {:induction false} IsSortOf<T(!new)>(r: seq<T>, s: seq<T>, cmp: Comparator<T>)
    requires TotalPreorder(cmp) && Ordered(r, cmp) && Stable(r, s, cmp)
    ensures r == SortOf(s, cmp)
  {
    SortOfSorts(s, cmp);
    StableTrans(r, s, SortOf(s, cmp), cmp);
    Unique(r, SortOf(s, cmp), cmp);
  }

  // ---------------------------------------------------------- bottom-up pass

  function Min(a: nat, b: nat): nat { if a < b then a else b }

  /** `s` cut into consecutive ordered runs of `width` elements, the last one short. */
  ghost predicate Runs<T(!new)>(s: seq<T>, width: nat, cmp: Comparator<T>)
    requires width > 0
  {
    if |s| <= width then Ordered(s, cmp)
    else Ordered(s[..width], cmp) && Runs(s[width..], width, cmp)
  }

  ghost function Pass<T(!new)>(s: seq<T>, width: nat, cmp: Comparator<T>): (r: seq<T>)
    requires width > 0
    ensures |r| == |s|
  {
    if s == [] then []
    else
      var mid, right := Min(width, |s|), Min(2 * width, |s|);
      Merge(s[..mid], s[mid..right], cmp) + Pass(s[right..], width, cmp)
  }

  lemma {:induction false} SingletonRuns<T(!new)>(s: seq<T>, cmp: Comparator<T>)
    ensures Runs(s, 1, cmp)
  {
    if |s| > 1 {
      SingletonRuns(s[1..], cmp);
    }
  }

  lemma {:induction false} FirstRuns<T(!new)>(s: seq<T>, width: nat, cmp: Comparator<T>)
    requires width > 0 && Runs(s, width, cmp)
    ensures Ordered(s[..Min(width, |s|)], cmp)
    ensures Ordered(s[Min(width, |s|)..Min(2 * width, |s|)], cmp)
    ensures Runs(s[Min(2 * width, |s|)..], width, cmp)
  {
    var mid, right := Min(width, |s|), Min(2 * width, |s|);
    if |s| <= width {
      assert s[..mid] == s && s[mid..right] == [] && s[right..] == [];
    } else {
      var rest := s[width..];
      if |rest| <= width {
        assert s[mid..right] == rest && s[right..] == [];
      } else {
        assert s[mid..right] == rest[..width] && s[right..] == rest[width..];
      }
    }
  }

  lemma {:induction false} JoinRuns<T(!new)>(head: seq<T>, tail: seq<T>, width: nat, cmp: Comparator<T>)
    requires width > 0 && Ordered(head, cmp) && Runs(tail, width, cmp)
    requires |head| == width || (|head| < width && tail == [])
    ensures Runs(head + tail, width, cmp)
  {
    if tail == [] {
      assert head + tail == head;
    } else {
      assert (head + tail)[..width] == head && (head + tail)[width..] == tail;
    }
  }

  lemma {:induction false} JoinClasses<T(!new)>(left: seq<T>, next: seq<T>, rest: seq<T>, tail: seq<T>, x: T, cmp: Comparator<T>)
    requires TotalPreorder(cmp) && Ordered(left, cmp) && Ordered(next, cmp)
    requires Class(tail, x, cmp) == Class(rest, x, cmp)
    ensures Class(Merge(left, next, cmp) + tail, x, cmp) == Class(left + next + rest, x, cmp)
  {
    hide TotalPreorder, Ordered, Class, Merge;
    ClassAppend(left + next, rest, x, cmp);
    ClassAppend(left, next, x, cmp);
    MergeClass(left, next, x, cmp);
    ClassAppend(Merge(left, next, cmp), tail, x, cmp);
  }

  /** One pass doubles the runs and keeps every class. */
  lemma {:induction false} PassDoubles<T(!new)>(s: seq<T>, width: nat, cmp: Comparator<T>)
    requires TotalPreorder(cmp) && width > 0 && Runs(s, width, cmp)
    ensures Runs(Pass(s, width, cmp), 2 * width, cmp)
    ensures Stable(Pass(s, width, cmp), s, cmp)
    decreases |s|
  {
    hide TotalPreorder, Ordered, Class, Merge, Runs;
    if s == [] {
      NoRuns<T>(2 * width, cmp);
    } else {
      var mid, right := Min(width, |s|), Min(2 * width, |s|);
      var left, next, rest := s[..mid], s[mid..right], s[right..];
      FirstRuns(s, width, cmp);
      MergeOrdered(left, next, cmp);
      PassDoubles(rest, width, cmp);
      var tail := Pass(rest, width, cmp);
      JoinRuns(Merge(left, next, cmp), tail, 2 * width, cmp);
      assert s == left + next + rest;
      forall x
        ensures Class(Pass(s, width, cmp), x, cmp) == Class(s, x, cmp)
      {
        JoinClasses(left, next, rest, tail, x, cmp);
      }
    }
  }

  lemma {:induction false} NoRuns<T(!new)>(width: nat, cmp: Comparator<T>)
    requires width > 0
    ensures Runs([], width, cmp)
  {}

  // ------------------------------------------------------------ the methods

  /** Copies `src[from..to]` to `dst[at..]`. */
  method CopyRun<T(!new)>(src: array<T>, from: nat, to: nat, dst: array<T>, at: nat)
    requires src != dst && from <= to <= src.Length && at + (to - from) <= dst.Length
    modifies dst
    ensures dst[at..at + (to - from)] == src[from..to]
    ensures forall q :: 0 <= q < dst.Length && !(at <= q < at + (to - from)) ==> dst[q] == old(dst[q])
  {
    var i, k := from, at;
    while i < to
      invariant from <= i <= to && k == at + (i - from)
      invariant forall q :: at <= q < k ==> dst[q] == src[q - at + from]
      invariant forall q :: 0 <= q < dst.Length && !(at <= q < k) ==> dst[q] == old(dst[q])
    {
      dst[k] := src[i];
      k, i := k + 1, i + 1;
    }
  }

  lemma {:induction false} MergeStep<T(!new)>(done: seq<T>, s: seq<T>, i: nat, mid: nat, j: nat, right: nat,
                           goal: seq<T>, cmp: Comparator<T>)
    requires i < mid <= j < right <= |s|
    requires done + Merge(s[i..mid], s[j..right], cmp) == goal
    ensures cmp(s[j], s[i]) < 0 ==> (done + [s[j]]) + Merge(s[i..mid], s[j + 1..right], cmp) == goal
    ensures cmp(s[j], s[i]) >= 0 ==> (done + [s[i]]) + Merge(s[i + 1..mid], s[j..right], cmp) == goal
  {
    assert s[i..mid][1..] == s[i + 1..mid] && s[j..right][1..] == s[j + 1..right];
  }

  lemma {:induction false} MergeRest<T(!new)>(a: seq<T>, b: seq<T>, cmp: Comparator<T>)
    requires a == [] || b == []
    ensures Merge(a, b, cmp) == a + b
  {}

  /** `d` holds from `left` on what the heads of both runs up to `i` and `j` merge to. */
  ghost predicate MergedTo<T(!new)>(d: seq<T>, s: seq<T>, left: nat, i: nat, mid: nat, j: nat, right: nat, cmp: Comparator<T>) {
    && left <= i <= mid <= j <= right <= |s| == |d|
    && d[left..i + j - mid] + Merge(s[i..mid], s[j..right], cmp) == Merge(s[left..mid], s[mid..right], cmp)
  }

  lemma {:induction false} MergeStarts<T(!new)>(d: seq<T>, s: seq<T>, left: nat, mid: nat, right: nat, cmp: Comparator<T>)
    requires left <= mid <= right <= |s| == |d|
    ensures MergedTo(d, s, left, left, mid, mid, right, cmp)
  {
    hide Merge;
    assert d[left..left] == [];
  }

  lemma {:induction false} MergeAdvances<T(!new)>(d: seq<T>, s: seq<T>, left: nat, i: nat, mid: nat, j: nat, right: nat, cmp: Comparator<T>)
    requires MergedTo(d, s, left, i, mid, j, right, cmp) && i < mid && j < right
    ensures cmp(s[j], s[i]) < 0 ==> MergedTo(d[i + j - mid := s[j]], s, left, i, mid, j + 1, right, cmp)
    ensures cmp(s[j], s[i]) >= 0 ==> MergedTo(d[i + j - mid := s[i]], s, left, i + 1, mid, j, right, cmp)
  {
    hide Merge;
    var k := i + j - mid;
    MergeStep(d[left..k], s, i, mid, j, right, Merge(s[left..mid], s[mid..right], cmp), cmp);
    assert d[k := s[j]][left..k + 1] == d[left..k] + [s[j]];
    assert d[k := s[i]][left..k + 1] == d[left..k] + [s[i]];
  }

  lemma {:induction false} Joins<T>(d: seq<T>, a: nat, b: nat, c: nat)
    requires a <= b <= c <= |d|
    ensures d[a..c] == d[a..b] + d[b..c]
  {
  }

  /** One run is used up, so the rest of the other completes the merge. */
  lemma {:induction false} MergeEnds<T(!new)>(d: seq<T>, d': seq<T>, s: seq<T>, left: nat, i: nat, mid: nat, j: nat, right: nat, cmp: Comparator<T>)
    requires MergedTo(d, s, left, i, mid, j, right, cmp) && (i == mid || j == right) && |d'| == |d|
    requires d'[left..i + j - mid] == d[left..i + j - mid] && d'[i + j - mid..j] == s[i..mid] && d'[j..right] == s[j..right]
    ensures d'[left..right] == Merge(s[left..mid], s[mid..right], cmp)
  {
    hide Merge;
    MergeRest(s[i..mid], s[j..right], cmp);
    Joins(d', i + j - mid, j, right);
    Joins(d', left, i + j - mid, right);
  }

  /** The loop that takes from whichever run has the smaller head. */
  method MergeHeads<T(!new)>(src: array<T>, dst: array<T>, left: nat, mid: nat, right: nat, cmp: Comparator<T>)
      returns (i: nat, j: nat, k: nat)
    requires src != dst && src.Length == dst.Length
    requires left <= mid <= right <= src.Length
    modifies dst
    ensures left <= i <= mid <= j <= right && k == i + j - mid && (i == mid || j == right)
    ensures MergedTo(dst[..], src[..], left, i, mid, j, right, cmp)
    ensures forall q :: 0 <= q < dst.Length && !(left <= q < k) ==> dst[q] == old(dst[q])
  {
    hide Merge, MergedTo;
    i, j, k := left, mid, left;
    MergeStarts(dst[..], src[..], left, mid, right, cmp);
    while i < mid && j < right
      invariant left <= i <= mid <= j <= right && k == i + j - mid
      invariant MergedTo(dst[..], src[..], left, i, mid, j, right, cmp)
      invariant forall q :: 0 <= q < dst.Length && !(left <= q < k) ==> dst[q] == old(dst[q])
    {
      ghost var d := dst[..];
      MergeAdvances(d, src[..], left, i, mid, j, right, cmp);
      if cmp(src[j], src[i]) < 0 {
        dst[k] := src[j];
        assert dst[..] == d[k := src[j]];
        k, j := k + 1, j + 1;
      } else {
        dst[k] := src[i];
        assert dst[..] == d[k := src[i]];
        k, i := k + 1, i + 1;
      }
    }
  }

  /** Merges `src[left..mid]` and `src[mid..right]` into `dst[left..right]`. */
  method MergeRuns<T(!new)>(src: array<T>, dst: array<T>, left: nat, mid: nat, right: nat, cmp: Comparator<T>)
    requires src != dst && src.Length == dst.Length
    requires left <= mid <= right <= src.Length
    modifies dst
    ensures dst[left..right] == Merge(src[left..mid], src[mid..right], cmp)
    ensures forall q :: 0 <= q < dst.Length && !(left <= q < right) ==> dst[q] == old(dst[q])
  {
    hide Merge, MergedTo;
    var i, j, k := MergeHeads(src, dst, left, mid, right, cmp);
    ghost var d, s := dst[..], src[..];
    CopyRun(src, i, mid, dst, k);
    ghost var kept := dst[k..j];
    k := k + (mid - i);
    CopyRun(src, j, right, dst, k);
    assert dst[..][i + j - mid..j] == kept == s[i..mid];
    assert dst[..][j..right] == s[j..right] && dst[..][left..i + j - mid] == d[left..i + j - mid];
    MergeEnds(d, dst[..], s, left, i, mid, j, right, cmp);
    assert dst[..][left..right] == dst[left..right];
    assert s[left..mid] == src[left..mid] && s[mid..right] == src[mid..right];
  }

  lemma {:induction false} PassUnfolds<T(!new)>(s: seq<T>, width: nat, cmp: Comparator<T>)
    requires width > 0 && s != []
    ensures var mid, right := Min(width, |s|), Min(2 * width, |s|);
            Pass(s, width, cmp) == Merge(s[..mid], s[mid..right], cmp) + Pass(s[right..], width, cmp)
  {
    hide Merge;
  }

  lemma {:induction false} PassStep<T(!new)>(s: seq<T>, start: nat, width: nat, cmp: Comparator<T>)
    requires width > 0 && start < |s|
    ensures var mid, right := Min(start + width, |s|), Min(start + 2 * width, |s|);
            Pass(s[start..], width, cmp) == Merge(s[start..mid], s[mid..right], cmp) + Pass(s[right..], width, cmp)
  {
    hide Merge, Pass;
    var mid, right := Min(start + width, |s|), Min(start + 2 * width, |s|);
    var rest := s[start..];
    PassUnfolds(rest, width, cmp);
    assert rest[..mid - start] == s[start..mid] && rest[mid - start..right - start] == s[mid..right];
    assert rest[right - start..] == s[right..];
  }

  /** The first `n` places of `d` hold their share of the pass over `s`. */
  ghost predicate PassedTo<T(!new)>(d: seq<T>, s: seq<T>, n: nat, width: nat, cmp: Comparator<T>)
    requires width > 0
  {
    n <= |d| == |s| && d[..n] + Pass(s[n..], width, cmp) == Pass(s, width, cmp)
  }

  lemma {:induction false} PassStarts<T(!new)>(d: seq<T>, s: seq<T>, width: nat, cmp: Comparator<T>)
    requires width > 0 && |d| == |s|
    ensures PassedTo(d, s, 0, width, cmp)
  {
    hide Pass;
    assert s[0..] == s;
  }

  lemma {:induction false} PassEnds<T(!new)>(d: seq<T>, s: seq<T>, width: nat, cmp: Comparator<T>)
    requires width > 0 && PassedTo(d, s, |s|, width, cmp)
    ensures d == Pass(s, width, cmp)
  {
    hide Pass;
    NoPass<T>(width, cmp);
    assert s[|s|..] == [] && d[..|s|] == d;
  }

  lemma {:induction false} PassAdvances<T(!new)>(d: seq<T>, d': seq<T>, s: seq<T>, start: nat, width: nat, cmp: Comparator<T>)
    requires width > 0 && start < |s| && |d'| == |d| && PassedTo(d, s, start, width, cmp)
    requires forall q :: 0 <= q < start ==> d'[q] == d[q]
    requires var mid, right := Min(start + width, |s|), Min(start + 2 * width, |s|);
             d'[start..right] == Merge(s[start..mid], s[mid..right], cmp)
    ensures PassedTo(d', s, Min(start + 2 * width, |s|), width, cmp)
  {
    hide Merge, Pass;
    var right := Min(start + 2 * width, |s|);
    PassStep(s, start, width, cmp);
    assert d'[..right] == d[..start] + d'[start..right];
  }

  /** One pass over the array: every pair of neighbouring runs merged into `dst`. */
  method MergePass<T(!new)>(src: array<T>, dst: array<T>, width: nat, cmp: Comparator<T>)
    requires src != dst && src.Length == dst.Length && width > 0
    modifies dst
    ensures dst[..] == Pass(src[..], width, cmp)
  {
    hide Merge, Pass, PassedTo;
    var count := src.Length;
    ghost var s := src[..];
    var start := 0;
    PassStarts(dst[..], s, width, cmp);
    while start < count
      invariant start >= 0
      invariant PassedTo(dst[..], s, Min(start, count), width, cmp)
    {
      var mid := if start + width > count then count else start + width;
      var right := if start + width * 2 > count then count else start + width * 2;
      ghost var before := dst[..];
      MergeRuns(src, dst, start, mid, right, cmp);
      assert s[start..mid] == src[start..mid] && s[mid..right] == src[mid..right];
      assert dst[..][start..right] == dst[start..right];
      PassAdvances(before, dst[..], s, start, width, cmp);
      start := start + width * 2;
    }
    PassEnds(dst[..], s, width, cmp);
  }

  lemma {:induction false} NoPass<T(!new)>(width: nat, cmp: Comparator<T>)
    requires width > 0
    ensures Pass([], width, cmp) == []
  {}

  lemma {:induction false} AllOneRun<T(!new)>(s: seq<T>, width: nat, cmp: Comparator<T>)
    requires width > 0 && |s| <= width && Runs(s, width, cmp)
    ensures Ordered(s, cmp)
  {}

  /** The path with a scratch buffer: passes of doubling width, swapping the two buffers. */
  method MergeSort<T(!new)>(base: array<T>, buffer: array<T>, cmp: Comparator<T>)
    requires base != buffer && base.Length == buffer.Length && TotalPreorder(cmp)
    modifies base, buffer
    ensures Ordered(base[..], cmp) && Stable(base[..], old(base[..]), cmp)
  {
    hide TotalPreorder, Ordered, Class, Runs, Pass;
    ghost var was := base[..];
    var src, scratch := base, buffer;
    var width := 1;
    SingletonRuns(was, cmp);
    while width < base.Length
      invariant width > 0
      invariant (src == base && scratch == buffer) || (src == buffer && scratch == base)
      invariant Runs(src[..], width, cmp)
      invariant Stable(src[..], was, cmp)
      decreases base.Length - width
    {
      MergePass(src, scratch, width, cmp);
      PassDoubles(src[..], width, cmp);
      StableTrans(scratch[..], src[..], was, cmp);
      src, scratch := scratch, src;
      width := width * 2;
    }
    AllOneRun(src[..], width, cmp);
    if src != base {
      CopyRun(src, 0, base.Length, base, 0);
      assert base[..] == base[0..base.Length] && src[..] == src[0..base.Length];
    }
  }

  // ------------------------------------------------------ the in-place path

  lemma {:induction false} SwapStable<T(!new)>(p: seq<T>, u: T, v: T, q: seq<T>, cmp: Comparator<T>)
    requires TotalPreorder(cmp) && cmp(u, v) > 0
    ensures Stable(p + [v, u] + q, p + [u, v] + q, cmp)
  {
    forall x
      ensures Class(p + [v, u] + q, x, cmp) == Class(p + [u, v] + q, x, cmp)
    {
      SwapClass(p, u, v, q, x, cmp);
    }
  }

  lemma {:induction false} SwapClass<T(!new)>(p: seq<T>, u: T, v: T, q: seq<T>, x: T, cmp: Comparator<T>)
    requires TotalPreorder(cmp) && cmp(u, v) > 0
    ensures Class(p + [v, u] + q, x, cmp) == Class(p + [u, v] + q, x, cmp)
  {
    hide TotalPreorder;
    ClassAppend(p + [v, u], q, x, cmp);
    ClassAppend(p + [u, v], q, x, cmp);
    ClassAppend(p, [v, u], x, cmp);
    ClassAppend(p, [u, v], x, cmp);
    assert [v, u][1..] == [u] && [u, v][1..] == [v] && [u][1..] == [] && [v][1..] == [];
    NotBoth(x, u, v, cmp);
  }

  lemma {:induction false} NotBoth<T(!new)>(x: T, u: T, v: T, cmp: Comparator<T>)
    requires TotalPreorder(cmp) && cmp(u, v) > 0
    ensures cmp(x, u) != 0 || cmp(x, v) != 0
  {
    assert cmp(x, u) == 0 ==> cmp(u, x) <= 0;
  }

  /** Ordered but for the element at `j`, which is no larger than everything after it. */
  ghost predicate Sinking<T(!new)>(s: seq<T>, j: nat, cmp: Comparator<T>) {
    && j < |s|
    && (forall p, q :: 0 <= p < q < |s| && p != j && q != j ==> cmp(s[p], s[q]) <= 0)
    && (forall q :: j < q < |s| ==> cmp(s[j], s[q]) <= 0)
  }

  lemma {:induction false} SinkStep<T(!new)>(s: seq<T>, j: nat, t: seq<T>, cmp: Comparator<T>)
    requires TotalPreorder(cmp) && 0 < j && Sinking(s, j, cmp) && cmp(s[j - 1], s[j]) > 0
    requires t == s[j - 1 := s[j]][j := s[j - 1]]
    ensures Sinking(t, j - 1, cmp)
  {}

  lemma {:induction false} Sunk<T(!new)>(s: seq<T>, j: nat, cmp: Comparator<T>)
    requires TotalPreorder(cmp) && Sinking(s, j, cmp) && (j == 0 || cmp(s[j - 1], s[j]) <= 0)
    ensures Ordered(s, cmp)
  {
    forall p, q | 0 <= p < q < |s|
      ensures cmp(s[p], s[q]) <= 0
    {
      if q == j && p < j - 1 {
        assert cmp(s[p], s[j - 1]) <= 0;
      }
    }
  }

  /** Sinks `a[i]` to its place among `a[..i]`, swapping with its left neighbour. */
  method SinkElement<T(!new)>(a: array<T>, i: nat, cmp: Comparator<T>)
    requires TotalPreorder(cmp) && i < a.Length && Ordered(a[..i], cmp)
    modifies a
    ensures Ordered(a[..i + 1], cmp)
    ensures Stable(a[..], old(a[..]), cmp)
  {
    hide TotalPreorder, Class, Ordered, Sinking;
    ghost var was := a[..];
    var j := i;
    assert a[..i + 1][..i] == a[..i];
    SinkStart(a[..i + 1], i, cmp);
    while j > 0
      invariant 0 <= j <= i
      invariant Sinking(a[..i + 1], j, cmp)
      invariant Stable(a[..], was, cmp)
    {
      if cmp(a[j - 1], a[j]) <= 0 {
        break;
      }
      ghost var s := a[..];
      a[j - 1], a[j] := a[j], a[j - 1];
      SwapStable(s[..j - 1], s[j - 1], s[j], s[j + 1..], cmp);
      assert s == s[..j - 1] + [s[j - 1], s[j]] + s[j + 1..];
      assert a[..] == s[..j - 1] + [s[j], s[j - 1]] + s[j + 1..];
      StableTrans(a[..], s, was, cmp);
      SinkStep(s[..i + 1], j, a[..i + 1], cmp);
      j := j - 1;
    }
    Sunk(a[..i + 1], j, cmp);
  }

  lemma {:induction false} SinkStart<T(!new)>(s: seq<T>, i: nat, cmp: Comparator<T>)
    requires |s| == i + 1 && Ordered(s[..i], cmp)
    ensures Sinking(s, i, cmp)
  {
    forall p, q | 0 <= p < q < i
      ensures cmp(s[p], s[q]) <= 0
    {
      assert s[p] == s[..i][p] && s[q] == s[..i][q];
    }
  }

  /** The path without a scratch buffer. */
  method InsertionSort<T(!new)>(a: array<T>, cmp: Comparator<T>)
    requires TotalPreorder(cmp)
    modifies a
    ensures Ordered(a[..], cmp) && Stable(a[..], old(a[..]), cmp)
  {
    hide TotalPreorder, Class;
    ghost var was := a[..];
    var i := 1;
    while i < a.Length
      invariant i >= 1
      invariant Ordered(a[..Min(i, a.Length)], cmp)
      invariant Stable(a[..], was, cmp)
    {
      ghost var s := a[..];
      SinkElement(a, i, cmp);
      StableTrans(a[..], s, was, cmp);
      i := i + 1;
    }
    assert a[..Min(i, a.Length)] == a[..];
  }

  /** `qsort`: whether or not the scratch buffer could be had (`room`), the result is
    * the one ordered, stable arrangement of the input. */
  method Qsort<T(0,!new)>(base: array<T>, cmp: Comparator<T>, room: bool)
    requires TotalPreorder(cmp)
    modifies base
    ensures base[..] == SortOf(old(base[..]), cmp)
    ensures Ordered(base[..], cmp) && Stable(base[..], old(base[..]), cmp)
    ensures multiset(base[..]) == multiset(old(base[..]))
  {
    hide TotalPreorder, Class, SortOf;
    ghost var was := base[..];
    if base.Length >= 2 {
      if room {
        var scratch := new T[base.Length];
        MergeSort(base, scratch, cmp);
      } else {
        InsertionSort(base, cmp);
      }
    }
    IsSortOf(base[..], was, cmp);
    StablePermutes(base[..], was, cmp);
  }

  // ---------------------------------------------------------------- bsearch

  /** The signs of the comparisons with `key` go down along the array: what C asks of `bsearch`. */
  ghost predicate Partitioned<K(!new), T(!new)>(key: K, s: seq<T>, cmp: (K, T) -> int) {
    forall i, j :: 0 <= i < j < |s| ==>
      && (cmp(key, s[i]) < 0 ==> cmp(key, s[j]) < 0)
      && (cmp(key, s[j]) > 0 ==> cmp(key, s[i]) > 0)
  }

  datatype Found = At(index: nat) | Nowhere

  /** `bsearch` finds a match exactly when there is one. */
  method Bsearch<K(!new), T(!new)>(key: K, base: array<T>, cmp: (K, T) -> int) returns (r: Found)
    requires Partitioned(key, base[..], cmp)
    ensures r.At? ==> r.index < base.Length && cmp(key, base[r.index]) == 0
    ensures r.Nowhere? ==> forall i :: 0 <= i < base.Length ==> cmp(key, base[i]) != 0
  {
    var lo, n := 0, base.Length;
    while n != 0
      invariant 0 <= lo <= lo + n <= base.Length
      invariant forall i :: 0 <= i < lo ==> cmp(key, base[i]) > 0
      invariant forall i :: lo + n <= i < base.Length ==> cmp(key, base[i]) < 0
    {
      var half := n / 2;
      var mid := lo + half;
      assert base[..][mid] == base[mid];
      forall i | 0 <= i < base.Length
        ensures i < mid && cmp(key, base[mid]) > 0 ==> cmp(key, base[i]) > 0
        ensures mid < i && cmp(key, base[mid]) < 0 ==> cmp(key, base[i]) < 0
      {
        assert base[..][i] == base[i];
      }
      var order := cmp(key, base[mid]);
      if order == 0 {
        return At(mid);
      }
      if order > 0 {
        lo := mid + 1;
        n := n - (half + 1);
      } else {
        n := half;
      }
    }
    return Nowhere;
  }

  /** An array that `qsort` left can be searched with the same comparator, for any key. */
  lemma {:induction false} SortedIsPartitioned<T(!new)>(s: seq<T>, key: T, cmp: Comparator<T>)
    requires TotalPreorder(cmp)
    ensures Partitioned(key, SortOf(s, cmp), cmp)
  {
    SortOfSorts(s, cmp);
    var r := SortOf(s, cmp);
    forall i, j | 0 <= i < j < |r|
      ensures cmp(key, r[i]) < 0 ==> cmp(key, r[j]) < 0
      ensures cmp(key, r[j]) > 0 ==> cmp(key, r[i]) > 0
    {
      assert cmp(r[i], r[j]) <= 0;
      assert cmp(r[j], key) <= 0 ==> cmp(r[i], key) <= 0;
    }
  }
}
