/**
 * The vantage-point tree of VPTree.cs, built in place over an array of items
 * and searched by radius.
 */
module VpTrees {

  /** Comparer<int>.Default.Compare: -1, 0 or 1 as `x` is below, equal to or above `y`. */
  function Compare(x: int, y: int): (c: int)
    ensures c == -1 <==> x < y
    ensures c == 0 <==> x == y
    ensures c == 1 <==> x > y
  {
    if x < y then -1 else if x > y then 1 else 0
  }

  /** The smallest key among positions `lo..hi` (inclusive). */
  ghost function MinKey<T>(s: seq<T>, lo: int, hi: int, key: T -> int): (m: int)
    requires 0 <= lo <= hi < |s|
    ensures forall i :: lo <= i <= hi ==> m <= key(s[i])
    ensures exists i :: lo <= i <= hi && key(s[i]) == m
    decreases hi - lo
  {
    if lo == hi then key(s[lo])
    else
      var m' := MinKey(s, lo + 1, hi, key);
      if key(s[lo]) <= m' then key(s[lo]) else m'
  }

  /** The largest key among positions `lo..hi` (inclusive). */
  ghost function MaxKey<T>(s: seq<T>, lo: int, hi: int, key: T -> int): (m: int)
    requires 0 <= lo <= hi < |s|
    ensures forall i :: lo <= i <= hi ==> key(s[i]) <= m
    decreases hi - lo
  {
    if lo == hi then key(s[lo])
    else
      var m' := MaxKey(s, lo + 1, hi, key);
      if key(s[lo]) >= m' then key(s[lo]) else m'
  }

  /** The first position in `i..last` whose key is `k`, or `last + 1` when there is none. */
  ghost function FirstWithKey<T>(s: seq<T>, i: int, last: int, k: int, key: T -> int): (r: int)
    requires 0 <= i <= last + 1 <= |s|
    ensures i <= r <= last + 1
    ensures forall j :: i <= j < r ==> key(s[j]) != k
    ensures r <= last ==> key(s[r]) == k
    decreases last + 1 - i
  {
    if i > last then i
    else if key(s[i]) == k then i
    else FirstWithKey(s, i + 1, last, k, key)
  }

  /**
   * Termination measure of the outer loop of nth_element when the range does
   * not shrink: how far right of `first + 1` the first minimum of the range lies.
   */
  ghost function Slack<T>(s: seq<T>, first: int, last: int, key: T -> int): int
    requires 0 <= first <= last < |s|
  {
    FirstWithKey(s, first + 1, last, MinKey(s, first, last, key), key) - (first + 1)
  }

  /**
   * When a partition pass ends with the reader still at `first`, the range has
   * been rotated left by one around a minimal pivot; the first minimum then
   * moves one place towards `first`.
   */
  lemma RotationShrinksSlack<T>(s: seq<T>, s': seq<T>, first: int, last: int, key: T -> int, p: int)
    requires 0 <= first < last < |s| == |s'|
    requires forall i :: first <= i < last ==> s'[i] == s[i + 1]
    requires s'[last] == s[first]
    requires key(s[(first + last) / 2]) == p
    requires forall i :: first <= i <= last ==> key(s'[i]) >= p
    requires key(s'[first]) > p
    ensures 0 <= Slack(s', first, last, key) < Slack(s, first, last, key)
  {
    var c := (first + last) / 2;
    forall i | first <= i <= last ensures key(s[i]) >= p {
      if i == first { assert s[i] == s'[last]; } else { assert s[i] == s'[i - 1]; }
    }
    var m := MinKey(s, first, last, key);
    var m' := MinKey(s', first, last, key);
    assert m == p;
    if c == first {
      assert key(s'[last]) == p;
    } else {
      assert key(s'[c - 1]) == p;
    }
    assert m' == p;
    var k := FirstWithKey(s, first + 1, last, p, key);
    var k' := FirstWithKey(s', first + 1, last, p, key);
    if k <= last {
      assert k != first + 1 by { assert s[first + 1] == s'[first]; }
      assert key(s'[k - 1]) == p by { assert s'[k - 1] == s[k]; }
      assert k' <= k - 1;
    } else {
      assert c == first;
      assert k' == last;
    }
  }

  /** Swap: exchanges two entries of the array and changes nothing else. */
  method Swap<T>(arr: array<T>, index1: int, index2: int)
    requires 0 <= index1 < arr.Length && 0 <= index2 < arr.Length
    modifies arr
    ensures arr[..] == old(arr[..])[index1 := old(arr[index2])][index2 := old(arr[index1])]
  {
    arr[index1], arr[index2] := arr[index2], arr[index1];
  }

  lemma SwapKeepsMultiset<T>(s: seq<T>, i: int, j: int)
    requires 0 <= i < |s| && 0 <= j < |s|
    ensures multiset(s[i := s[j]][j := s[i]]) == multiset(s)
  {
  }

  /**
   * Keys during a partition pass over `s[first..last]`: reader `r`, writer `w`,
   * pivot key `p` held at `pk`, all keys of the range within `lb..ub`.
   */
  ghost predicate PassKeys<T>(s: seq<T>, first: int, last: int, r: int, w: int,
                              pk: int, p: int, lb: int, ub: int, key: T -> int)
  {
    0 <= first <= r <= w <= last < |s|
    && r <= pk <= last && key(s[pk]) == p && (pk < last || w < last)
    && (forall i :: first <= i < r ==> key(s[i]) < p)
    && (forall i :: w < i <= last ==> key(s[i]) >= p)
    && (forall i :: first <= i <= last ==> lb <= key(s[i]) <= ub)
  }

  /** A pass begun on `s0` permutes the range `first..last` of it and nothing else. */
  ghost predicate PassFrame<T>(s: seq<T>, s0: seq<T>, first: int, last: int)
  {
    |s| == |s0| && multiset(s) == multiset(s0)
    && (forall i :: 0 <= i < |s| && !(first <= i <= last) ==> s[i] == s0[i])
  }

  /**
   * While the reader has not moved, the pass has rotated `s0[first..w+1]` left
   * through the positions the writer has passed.
   */
  ghost predicate PassRotation<T>(s: seq<T>, s0: seq<T>, first: int, last: int, r: int, w: int)
    requires |s| == |s0| && 0 <= first <= r <= w <= last < |s|
  {
    (w == last ==> s[first] == s0[first])
    && (r == first ==> forall i :: first < i <= w ==> s[i] == s0[i])
    && (r == first ==> forall i :: w < i < last ==> s[i] == s0[i + 1])
    && (r == first && w < last ==> s[last] == s0[first] && s[first] == s0[w + 1])
  }

  /** The state of a partition pass, as the three predicates above. */
  ghost predicate PassState<T>(s: seq<T>, s0: seq<T>, first: int, last: int, r: int, w: int,
                               pk: int, p: int, lb: int, ub: int, key: T -> int)
  {
    PassKeys(s, first, last, r, w, pk, p, lb, ub, key) && PassFrame(s, s0, first, last)
    && PassRotation(s, s0, first, last, r, w)
  }

  lemma PassStart<T>(s: seq<T>, first: int, last: int, lb: int, ub: int, key: T -> int)
    requires 0 <= first < last < |s|
    requires forall i :: first <= i <= last ==> lb <= key(s[i]) <= ub
    ensures PassState(s, s, first, last, first, last, (first + last) / 2, key(s[(first + last) / 2]), lb, ub, key)
  {
  }

  lemma PassSwapKeys<T>(s: seq<T>, first: int, last: int, r: int, w: int,
                        pk: int, p: int, lb: int, ub: int, key: T -> int)
    requires PassKeys(s, first, last, r, w, pk, p, lb, ub, key)
    requires r < w && key(s[r]) >= p
    ensures PassKeys(s[w := s[r]][r := s[w]], first, last, r, w - 1,
                     if pk == r then w else if pk == w then r else pk, p, lb, ub, key)
  {
  }

  lemma PassSwapFrame<T>(s: seq<T>, s0: seq<T>, first: int, last: int, r: int, w: int)
    requires PassFrame(s, s0, first, last)
    requires 0 <= first <= r < w <= last < |s|
    ensures PassFrame(s[w := s[r]][r := s[w]], s0, first, last)
  {
    SwapKeepsMultiset(s, w, r);
  }

  lemma PassSwapRotation<T>(s: seq<T>, s0: seq<T>, first: int, last: int, r: int, w: int)
    requires |s| == |s0| && 0 <= first <= r < w <= last < |s|
    requires PassRotation(s, s0, first, last, r, w)
    ensures PassRotation(s[w := s[r]][r := s[w]], s0, first, last, r, w - 1)
  {
  }

  /** The writer step: a value at or above the pivot goes to the writer's place. */
  lemma PassSwap<T>(s: seq<T>, s0: seq<T>, first: int, last: int, r: int, w: int,
                    pk: int, p: int, lb: int, ub: int, key: T -> int)
    requires PassState(s, s0, first, last, r, w, pk, p, lb, ub, key)
    requires r < w && key(s[r]) >= p
    ensures PassState(s[w := s[r]][r := s[w]], s0, first, last, r, w - 1,
                      if pk == r then w else if pk == w then r else pk, p, lb, ub, key)
  {
    PassSwapKeys(s, first, last, r, w, pk, p, lb, ub, key);
    PassSwapFrame(s, s0, first, last, r, w);
    PassSwapRotation(s, s0, first, last, r, w);
  }

  /** The reader step: a value below the pivot stays where it is. */
  lemma PassSkip<T>(s: seq<T>, s0: seq<T>, first: int, last: int, r: int, w: int,
                    pk: int, p: int, lb: int, ub: int, key: T -> int)
    requires PassState(s, s0, first, last, r, w, pk, p, lb, ub, key)
    requires r < w && key(s[r]) < p
    ensures PassState(s, s0, first, last, r + 1, w, pk, p, lb, ub, key)
  {
  }

  /** What a finished pass establishes about the reader's final position `r'`. */
  ghost predicate Partitioned<T>(s: seq<T>, s0: seq<T>, first: int, last: int, r': int,
                                 lb: int, ub: int, key: T -> int)
    requires 0 <= first < last < |s0|
  {
    var p := key(s0[(first + last) / 2]);
    |s| == |s0| && first - 1 <= r' < last
    && multiset(s) == multiset(s0)
    && (forall i :: 0 <= i < |s| && !(first <= i <= last) ==> s[i] == s0[i])
    && (forall i :: first <= i <= last ==> lb <= key(s[i]) <= ub)
    && (forall i :: first <= i <= r' ==> key(s[i]) <= p)
    && (forall i :: r' < i <= last ==> p <= key(s[i]))
    && (r' < first ==> p < key(s[first]))
    && (r' < first ==> s[last] == s0[first] && forall i :: first <= i < last ==> s[i] == s0[i + 1])
  }

  lemma PassEnd<T>(s: seq<T>, s0: seq<T>, first: int, last: int, r: int,
                   pk: int, p: int, lb: int, ub: int, key: T -> int)
    requires PassState(s, s0, first, last, r, r, pk, p, lb, ub, key)
    requires p == key(s0[(first + last) / 2])
    ensures Partitioned(s, s0, first, last, if key(s[r]) > p then r - 1 else r, lb, ub, key)
  {
  }

  /**
   * One partition pass of nth_element over `a[first..last]` (inclusive): the
   * reader `r` skips values below the pivot, values at or above it are swapped
   * to the writer `w` at the end; finally the reader steps back if it stopped
   * on a value above the pivot. The pivot is the value at the centre of the range.
   */
  method Partition<T>(a: array<T>, first: int, last: int, key: T -> int, ghost lb: int, ghost ub: int)
    returns (r: int)
    requires 0 <= first < last < a.Length
    requires forall i :: first <= i <= last ==> lb <= key(a[i]) <= ub
    modifies a
    ensures Partitioned(a[..], old(a[..]), first, last, r, lb, ub, key)
  {
    var w;
    r, w := first, last;
    var mid := a[(r + w) / 2];
    ghost var p := key(mid);
    ghost var pk := (r + w) / 2;
    PassStart(a[..], first, last, lb, ub, key);
    // stop if the reader and writer meet
    while r < w
      invariant PassState(a[..], old(a[..]), first, last, r, w, pk, p, lb, ub, key)
      decreases w - r
    {
      r, w, pk := PassRound(a, old(a[..]), first, last, r, w, pk, mid, lb, ub, key);
    }
    PassEnd(a[..], old(a[..]), first, last, r, pk, p, lb, ub, key);
    // step back when the reader stopped on a value above the pivot
    if Compare(key(a[r]), key(mid)) > 0 {
      r := r - 1;
    }
  }

  /**
   * One step of the partition pass: a value at or above the pivot is swapped
   * to the writer's place, one below it is stepped over by the reader.
   */
  method PassRound<T>(a: array<T>, ghost s0: seq<T>, first: int, last: int, r: int, w: int, ghost pk: int,
                      mid: T, ghost lb: int, ghost ub: int, key: T -> int)
    returns (r': int, w': int, ghost pk': int)
    requires r < w && PassState(a[..], s0, first, last, r, w, pk, key(mid), lb, ub, key)
    modifies a
    ensures PassState(a[..], s0, first, last, r', w', pk', key(mid), lb, ub, key)
    ensures w' - r' == w - r - 1
  {
    if Compare(key(a[r]), key(mid)) > -1 {
      // put the large values at the end
      PassSwap(a[..], s0, first, last, r, w, pk, key(mid), lb, ub, key);
      Swap(a, w, r);
      pk' := if pk == r then w else if pk == w then r else pk;
      r', w' := r, w - 1;
    } else {
      // the value is below the pivot: skip it
      PassSkip(a[..], s0, first, last, r, w, pk, key(mid), lb, ub, key);
      r', w', pk' := r + 1, w, pk;
    }
  }

  /**
   * nth_element: a quickselect that permutes `a[start..end]` (inclusive) so
   * that position `nth` holds an element no key in `start..nth-1` exceeds and
   * no key in `nth+1..end` falls below. The comparison of the original is the
   * comparison of the keys of the two items.
   */
  method NthElement<T>(a: array<T>, start: int, nth: int, end: int, key: T -> int)
    requires 0 <= start <= nth <= end < a.Length
    modifies a
    ensures multiset(a[..]) == old(multiset(a[..]))
    ensures forall i :: 0 <= i < a.Length && !(start <= i <= end) ==> a[i] == old(a[i])
    ensures forall i :: start <= i < nth ==> key(a[i]) <= key(a[nth])
    ensures forall i :: nth < i <= end ==> key(a[nth]) <= key(a[i])
  {
    var first, last := start, end;
    // everything left of `first` is at most `lb`, everything from `first` on at least `lb`;
    // everything up to `last` is at most `ub`, everything right of `last` at least `ub`
    ghost var lb := MinKey(a[..], start, end, key);
    ghost var ub := MaxKey(a[..], start, end, key);
    while first < last
      invariant SelectState(a[..], old(a[..]), start, nth, end, first, last, lb, ub, key)
      decreases last - first, Slack(a[..], first, last, key)
    {
      first, last, lb, ub := SelectRound(a, old(a[..]), start, nth, end, first, last, lb, ub, key);
    }
    SelectEnd(a[..], old(a[..]), start, nth, end, lb, ub, key);
  }

  /**
   * One pass of the loop of nth_element: partition `first..last` around the
   * key of its middle item and keep the side that holds `nth`.
   */
  method SelectRound<T>(a: array<T>, ghost s0: seq<T>, start: int, nth: int, end: int,
                        first: int, last: int, ghost lb: int, ghost ub: int, key: T -> int)
    returns (first': int, last': int, ghost lb': int, ghost ub': int)
    requires first < last && SelectState(a[..], s0, start, nth, end, first, last, lb, ub, key)
    modifies a
    ensures SelectState(a[..], s0, start, nth, end, first', last', lb', ub', key)
    ensures last' - first' < last - first
            || (first' == first && last' == last
                && 0 <= Slack(a[..], first, last, key) < Slack(old(a[..]), first, last, key))
  {
    ghost var before := a[..];
    ghost var p := key(a[(first + last) / 2]);
    SelectBounds(a[..], s0, start, nth, end, first, last, lb, ub, key);
    var r := Partition(a, first, last, key, lb, ub);
    SelectStep(a[..], before, s0, start, nth, end, first, last, r, lb, ub, key);
    if nth <= r {
      first', last', lb', ub' := first, r, lb, p;
    } else {
      first', last', lb', ub' := r + 1, last, p, ub;
    }
  }

  /**
   * State of nth_element on `s`, begun on `s0`: the unsettled range is
   * `first..last`, with `lb` separating what lies left of `first` from the rest
   * and `ub` separating what lies right of `last` from the rest.
   */
  ghost predicate SelectState<T>(s: seq<T>, s0: seq<T>, start: int, nth: int, end: int,
                                 first: int, last: int, lb: int, ub: int, key: T -> int)
  {
    |s| == |s0| && 0 <= start <= first <= nth <= last <= end < |s|
    && multiset(s) == multiset(s0)
    && (forall i :: 0 <= i < |s| && !(start <= i <= end) ==> s[i] == s0[i])
    && (forall i :: start <= i < first ==> key(s[i]) <= lb)
    && (forall i :: first <= i <= end ==> lb <= key(s[i]))
    && (forall i :: start <= i <= last ==> key(s[i]) <= ub)
    && (forall i :: last < i <= end ==> ub <= key(s[i]))
  }

  lemma SelectBounds<T>(s: seq<T>, s0: seq<T>, start: int, nth: int, end: int,
                        first: int, last: int, lb: int, ub: int, key: T -> int)
    requires SelectState(s, s0, start, nth, end, first, last, lb, ub, key)
    ensures forall i :: first <= i <= last ==> lb <= key(s[i]) <= ub
  {
  }

  /** A partition pass keeps the state, narrowed to the side that holds `nth`. */
  lemma SelectStep<T>(s: seq<T>, s1: seq<T>, s0: seq<T>, start: int, nth: int, end: int,
                      first: int, last: int, r: int, lb: int, ub: int, key: T -> int)
    requires first < last
    requires SelectState(s1, s0, start, nth, end, first, last, lb, ub, key)
    requires Partitioned(s, s1, first, last, r, lb, ub, key)
    ensures var p := key(s1[(first + last) / 2]);
      if nth <= r then SelectState(s, s0, start, nth, end, first, r, lb, p, key)
      else SelectState(s, s0, start, nth, end, r + 1, last, p, ub, key)
    ensures first - 1 <= r < last
    ensures r < first ==> 0 <= Slack(s, first, last, key) < Slack(s1, first, last, key)
  {
    var p := key(s1[(first + last) / 2]);
    assert lb <= p <= ub;
    if r < first {
      RotationShrinksSlack(s1, s, first, last, key, p);
    }
  }

  lemma SelectEnd<T>(s: seq<T>, s0: seq<T>, start: int, nth: int, end: int,
                     lb: int, ub: int, key: T -> int)
    requires SelectState(s, s0, start, nth, end, nth, nth, lb, ub, key)
    ensures forall i :: start <= i < nth ==> key(s[i]) <= key(s[nth])
    ensures forall i :: nth < i <= end ==> key(s[nth]) <= key(s[i])
  {
  }

  /** VPTree.Node; a null reference is `Null`. */
  datatype Tree = Null | Node(index: int, threshold: int, left: Tree, right: Tree)

  /** VPTree.HeapItem: the index of an item and its distance to the query. */
  datatype HeapItem = HeapItem(index: int, dist: int)

  /** What the tree asks of its distance function, on the values of `xs`. */
  ghost predicate MetricOn<T>(d: (T, T) -> int, xs: seq<T>)
  {
    (forall i, j :: 0 <= i < |xs| && 0 <= j < |xs| ==> 0 <= d(xs[i], xs[j]))
    && (forall i :: 0 <= i < |xs| ==> d(xs[i], xs[i]) == 0)
    && (forall i, j :: 0 <= i < |xs| && 0 <= j < |xs| ==> d(xs[i], xs[j]) == d(xs[j], xs[i]))
    && (forall i, j, k :: 0 <= i < |xs| && 0 <= j < |xs| && 0 <= k < |xs| ==>
          d(xs[i], xs[k]) <= d(xs[i], xs[j]) + d(xs[j], xs[k]))
  }

  /** Every item of `xs` lies within `t` of the vantage point `v`. */
  ghost predicate Near<T>(xs: seq<T>, v: T, t: int, d: (T, T) -> int)
  {
    forall x :: x in xs ==> d(v, x) <= t
  }

  /** Every item of `xs` lies at least `t` away from the vantage point `v`. */
  ghost predicate Far<T>(xs: seq<T>, v: T, t: int, d: (T, T) -> int)
  {
    forall x :: x in xs ==> t <= d(v, x)
  }

  /** Some item of `xs` lies exactly `t` away from `v`. */
  ghost predicate Reaches<T>(xs: seq<T>, v: T, t: int, d: (T, T) -> int)
  {
    exists x :: x in xs && d(v, x) == t
  }

  /**
   * `t` is a vantage-point tree over positions `lo..hi-1` of `s`: the node of
   * a range is its first position; a range of two or more has its left
   * subtree on `lo+1..mid-1`, all within the threshold of the vantage point,
   * and its right subtree on `mid..hi-1`, all at least the threshold away,
   * the threshold being the distance to one of them.
   */
  ghost predicate TreeOk<T>(t: Tree, lo: int, hi: int, s: seq<T>, d: (T, T) -> int)
    decreases hi - lo
  {
    0 <= lo <= hi <= |s|
    && if lo == hi then t == Null
    else
      t.Node? && t.index == lo
      && if hi - lo == 1 then t.left == Null && t.right == Null && t.threshold == 0
      else
        var mid := (lo + hi) / 2;
        Near(s[lo + 1..mid], s[lo], t.threshold, d)
        && Far(s[mid..hi], s[lo], t.threshold, d)
        && Reaches(s[mid..hi], s[lo], t.threshold, d)
        && TreeOk(t.left, lo + 1, mid, s, d) && TreeOk(t.right, mid, hi, s, d)
  }

  /** A tree over `lo..hi-1` depends only on those positions. */
  lemma {:induction false} TreeOkFrame<T>(t: Tree, lo: int, hi: int, s: seq<T>, s': seq<T>, d: (T, T) -> int)
    requires TreeOk(t, lo, hi, s, d)
    requires |s'| == |s| && s'[lo..hi] == s[lo..hi]
    ensures TreeOk(t, lo, hi, s', d)
    decreases hi - lo
  {
    if hi - lo > 1 {
      var mid := (lo + hi) / 2;
      forall i | lo <= i < hi ensures s'[i] == s[i] {
        assert s'[i] == s'[lo..hi][i - lo] && s[i] == s[lo..hi][i - lo];
      }
      assert s'[lo + 1..mid] == s[lo + 1..mid];
      assert s'[mid..hi] == s[mid..hi];
      TreeOkFrame(t.left, lo + 1, mid, s, s', d);
      TreeOkFrame(t.right, mid, hi, s, s', d);
    }
  }

  /** One level of a tree that is not `Null`: a leaf exactly for a range of one. */
  lemma TreeOkNode<T>(t: Tree, lo: int, hi: int, s: seq<T>, d: (T, T) -> int)
    requires TreeOk(t, lo, hi, s, d) && t.Node?
    ensures 0 <= lo < hi <= |s| && t.index == lo
    ensures t.left.Null? && t.right.Null? <==> hi - lo == 1
    ensures hi - lo > 1 ==>
      var mid := (lo + hi) / 2;
      lo < mid < hi
      && Near(s[lo + 1..mid], s[lo], t.threshold, d) && Far(s[mid..hi], s[lo], t.threshold, d)
      && TreeOk(t.left, lo + 1, mid, s, d) && TreeOk(t.right, mid, hi, s, d)
  {
    if hi - lo > 1 {
      assert t.right.Node?;
    }
  }

  /** The node indices of a tree in preorder. */
  function Indices(t: Tree): (r: seq<int>)
    ensures t.Node? ==> |r| > 0 && r[0] == t.index
  {
    match t
    case Null => []
    case Node(i, _, l, r) => [i] + Indices(l) + Indices(r)
  }

  /** The integers `lo..hi-1` in ascending order. */
  function Range(lo: int, hi: int): (r: seq<int>)
    requires lo <= hi
    ensures |r| == hi - lo && forall k :: 0 <= k < |r| ==> r[k] == lo + k
    decreases hi - lo
  {
    if lo == hi then [] else [lo] + Range(lo + 1, hi)
  }

  lemma RangeSplit(lo: int, mid: int, hi: int)
    requires lo < mid <= hi
    ensures Range(lo, hi) == [lo] + Range(lo + 1, mid) + Range(mid, hi)
  {
    var r := [lo] + Range(lo + 1, mid) + Range(mid, hi);
    assert |r| == hi - lo;
    forall k | 0 <= k < hi - lo ensures r[k] == lo + k {
      if k == 0 {
      } else if k < mid - lo {
        assert r[k] == Range(lo + 1, mid)[k - 1];
      } else {
        assert r[k] == Range(mid, hi)[k - (mid - lo)];
      }
    }
  }

  /**
   * Every position of the range is the index of exactly one node: the
   * preorder of the tree lists `lo..hi-1` in ascending order.
   */
  lemma {:induction false} TreeIndices<T>(t: Tree, lo: int, hi: int, s: seq<T>, d: (T, T) -> int)
    requires TreeOk(t, lo, hi, s, d)
    ensures Indices(t) == Range(lo, hi)
    decreases hi - lo
  {
    if t.Null? {
      assert lo == hi;
    } else {
      TreeOkNode(t, lo, hi, s, d);
      if hi - lo > 1 {
        var mid := (lo + hi) / 2;
        TreeIndices(t.left, lo + 1, mid, s, d);
        TreeIndices(t.right, mid, hi, s, d);
        NodeIndices(t, lo, mid, hi);
      } else {
        LeafIndices(t, lo, hi);
      }
    }
  }

  /** A node over `lo..hi-1` lists its own position, then those of its two subtrees. */
  lemma NodeIndices(t: Tree, lo: int, mid: int, hi: int)
    requires t.Node? && t.index == lo && lo < mid <= hi
    requires Indices(t.left) == Range(lo + 1, mid) && Indices(t.right) == Range(mid, hi)
    ensures Indices(t) == Range(lo, hi)
  {
    RangeSplit(lo, mid, hi);
  }

  /** A leaf lists its one position. */
  lemma LeafIndices(t: Tree, lo: int, hi: int)
    requires t.Node? && t.index == lo && hi == lo + 1 && t.left.Null? && t.right.Null?
    ensures Indices(t) == Range(lo, hi)
  {
    assert Range(lo, hi) == [lo];
  }

  /**
   * The hits of a linear scan over positions `lo..hi-1`: each position whose
   * item lies strictly closer than `m` to the query, in ascending order, with
   * its distance.
   */
  function LinearScan<T>(s: seq<T>, lo: int, hi: int, q: T, m: int, d: (T, T) -> int): (r: seq<HeapItem>)
    requires 0 <= lo <= hi <= |s|
    ensures |r| <= hi - lo
    ensures forall k :: 0 <= k < |r| ==> lo <= r[k].index < hi && r[k].dist < m
    decreases hi - lo
  {
    if lo == hi then []
    else (if d(s[lo], q) < m then [HeapItem(lo, d(s[lo], q))] else []) + LinearScan(s, lo + 1, hi, q, m, d)
  }

  lemma {:induction false} LinearScanSplit<T>(s: seq<T>, lo: int, mid: int, hi: int, q: T, m: int, d: (T, T) -> int)
    requires 0 <= lo <= mid <= hi <= |s|
    ensures LinearScan(s, lo, hi, q, m, d) == LinearScan(s, lo, mid, q, m, d) + LinearScan(s, mid, hi, q, m, d)
    decreases mid - lo
  {
    if lo < mid {
      LinearScanSplit(s, lo + 1, mid, hi, q, m, d);
    }
  }

  lemma {:induction false} LinearScanEmpty<T>(s: seq<T>, lo: int, hi: int, q: T, m: int, d: (T, T) -> int)
    requires 0 <= lo <= hi <= |s|
    requires forall i :: lo <= i < hi ==> m <= d(s[i], q)
    ensures LinearScan(s, lo, hi, q, m, d) == []
    decreases hi - lo
  {
    if lo < hi {
      LinearScanEmpty(s, lo + 1, hi, q, m, d);
    }
  }

  /** A hit of the scan is exactly a position in range strictly closer than `m`, with its distance. */
  lemma {:induction false} LinearScanMembers<T>(s: seq<T>, lo: int, hi: int, q: T, m: int, d: (T, T) -> int, h: HeapItem)
    requires 0 <= lo <= hi <= |s|
    ensures h in LinearScan(s, lo, hi, q, m, d)
        <==> lo <= h.index < hi && h.dist == d(s[h.index], q) && h.dist < m
    decreases hi - lo
  {
    if lo < hi {
      LinearScanMembers(s, lo + 1, hi, q, m, d, h);
    }
  }

  /** Hits in strictly ascending index order. */
  ghost predicate Ascending(hs: seq<HeapItem>)
  {
    forall j, k :: 0 <= j < k < |hs| ==> hs[j].index < hs[k].index
  }

  /** The hits come in strictly ascending index order, so no index is reported twice. */
  lemma {:induction false} LinearScanAscending<T>(s: seq<T>, lo: int, hi: int, q: T, m: int, d: (T, T) -> int)
    requires 0 <= lo <= hi <= |s|
    ensures Ascending(LinearScan(s, lo, hi, q, m, d))
    decreases hi - lo
  {
    if lo < hi {
      LinearScanAscending(s, lo + 1, hi, q, m, d);
      var rest := LinearScan(s, lo + 1, hi, q, m, d);
      if d(s[lo], q) < m {
        var r := [HeapItem(lo, d(s[lo], q))] + rest;
        forall j, k | 0 <= j < k < |r| ensures r[j].index < r[k].index {
          assert r[k] == rest[k - 1] && lo + 1 <= rest[k - 1].index;
          if j > 0 { assert r[j] == rest[j - 1] && rest[j - 1].index < rest[k - 1].index; }
        }
      }
    }
  }

  /** The radius is strict: an item exactly `m` away is not a hit. */
  lemma LinearScanStrict<T>(s: seq<T>, lo: int, hi: int, q: T, m: int, d: (T, T) -> int, i: int)
    requires 0 <= lo <= i < hi <= |s| && d(s[i], q) == m
    ensures forall h :: h in LinearScan(s, lo, hi, q, m, d) ==> h.index != i
  {
    forall h | h in LinearScan(s, lo, hi, q, m, d) ensures h.index != i {
      LinearScanMembers(s, lo, hi, q, m, d, h);
    }
  }

  /** When the distance is a metric on the items, a query equal to an item is found at distance 0 whenever `m >= 1`. */
  lemma LinearScanFindsQuery<T>(s: seq<T>, lo: int, hi: int, m: int, d: (T, T) -> int, i: int)
    requires MetricOn(d, s) && 0 <= lo <= i < hi <= |s| && 1 <= m
    ensures HeapItem(i, 0) in LinearScan(s, lo, hi, s[i], m, d)
  {
    assert d(s[i], s[i]) == 0;
    LinearScanMembers(s, lo, hi, s[i], m, d, HeapItem(i, 0));
  }

  /** Every node index of `t` is a position below `n`. */
  ghost predicate Bounded(t: Tree, n: int)
  {
    match t
    case Null => true
    case Node(i, _, l, r) => 0 <= i < n && Bounded(l, n) && Bounded(r, n)
  }

  lemma {:induction false} TreeOkBounded<T>(t: Tree, lo: int, hi: int, s: seq<T>, d: (T, T) -> int)
    requires TreeOk(t, lo, hi, s, d)
    ensures Bounded(t, |s|)
    decreases hi - lo
  {
    if hi - lo > 1 {
      TreeOkBounded(t.left, lo + 1, (lo + hi) / 2, s, d);
      TreeOkBounded(t.right, (lo + hi) / 2, hi, s, d);
    }
  }

  /**
   * The hits SearchByMaxd reports for the subtree `t`, in the order it reports
   * them: the node itself when strictly closer than `m`; then, unless the node
   * is a leaf, the left subtree when the query may lie within the threshold
   * plus `m`, and the right subtree when it may lie beyond the threshold minus `m`.
   */
  function SearchTree<T>(t: Tree, s: seq<T>, q: T, m: int, d: (T, T) -> int): (r: seq<HeapItem>)
    requires Bounded(t, |s|)
    ensures forall k :: 0 <= k < |r| ==> 0 <= r[k].index < |s|
  {
    match t
    case Null => []
    case Node(i, threshold, left, right) =>
      var dist := d(s[i], q);
      (if dist < m then [HeapItem(i, dist)] else [])
      + (if left.Null? && right.Null? then []
         else
           (if dist - m <= threshold then SearchTree(left, s, q, m, d) else [])
           + (if dist + m >= threshold then SearchTree(right, s, q, m, d) else []))
  }

  /**
   * The main theorem of the tree: when the distance is a metric on the items
   * and the query, pruning loses nothing, so the tree search reports exactly
   * what a linear scan reports, in the same order.
   */
  lemma {:induction false} SearchTreeIsScan<T>(t: Tree, lo: int, hi: int, s: seq<T>, q: T, m: int, d: (T, T) -> int)
    requires TreeOk(t, lo, hi, s, d) && MetricOn(d, s + [q])
    ensures Bounded(t, |s|) && SearchTree(t, s, q, m, d) == LinearScan(s, lo, hi, q, m, d)
    decreases hi - lo
  {
    TreeOkBounded(t, lo, hi, s, d);
    if t.Null? {
      EmptySearch(t, lo, hi, s, q, m, d);
    } else {
      TreeOkNode(t, lo, hi, s, d);
      if hi - lo == 1 {
        LeafSearch(t, lo, hi, s, q, m, d);
      } else {
        var mid := (lo + hi) / 2;
        if d(s[lo], q) - m <= t.threshold {
          SearchTreeIsScan(t.left, lo + 1, mid, s, q, m, d);
        }
        if d(s[lo], q) + m >= t.threshold {
          SearchTreeIsScan(t.right, mid, hi, s, q, m, d);
        }
        NodeSearch(t, lo, hi, s, q, m, d);
      }
    }
  }

  /** The empty tree covers an empty range, which has no hits. */
  lemma EmptySearch<T>(t: Tree, lo: int, hi: int, s: seq<T>, q: T, m: int, d: (T, T) -> int)
    requires TreeOk(t, lo, hi, s, d) && t.Null?
    ensures 0 <= lo <= hi <= |s| && SearchTree(t, s, q, m, d) == LinearScan(s, lo, hi, q, m, d) == []
  {
  }

  /** A leaf reports its own item exactly when the scan of its one position does. */
  lemma LeafSearch<T>(t: Tree, lo: int, hi: int, s: seq<T>, q: T, m: int, d: (T, T) -> int)
    requires TreeOk(t, lo, hi, s, d) && t.Node? && hi - lo == 1 && Bounded(t, |s|)
    ensures SearchTree(t, s, q, m, d) == LinearScan(s, lo, hi, q, m, d)
  {
    assert LinearScan(s, lo + 1, hi, q, m, d) == [];
  }

  /**
   * An inner node: the search visits the vantage point, then each subtree
   * unless the triangle inequality rules it out, and the scan of a ruled-out
   * subtree is empty.
   */
  lemma NodeSearch<T>(t: Tree, lo: int, hi: int, s: seq<T>, q: T, m: int, d: (T, T) -> int)
    requires TreeOk(t, lo, hi, s, d) && t.Node? && hi - lo > 1 && Bounded(t, |s|) && MetricOn(d, s + [q])
    requires d(s[lo], q) - m <= t.threshold ==>
               SearchTree(t.left, s, q, m, d) == LinearScan(s, lo + 1, (lo + hi) / 2, q, m, d)
    requires d(s[lo], q) + m >= t.threshold ==>
               SearchTree(t.right, s, q, m, d) == LinearScan(s, (lo + hi) / 2, hi, q, m, d)
    ensures SearchTree(t, s, q, m, d) == LinearScan(s, lo, hi, q, m, d)
  {
    TreeOkNode(t, lo, hi, s, d);
    var mid := (lo + hi) / 2;
    var dist := d(s[lo], q);
    var head := LinearScan(s, lo, lo + 1, q, m, d);
    var leftHits := LinearScan(s, lo + 1, mid, q, m, d);
    var rightHits := LinearScan(s, mid, hi, q, m, d);
    if dist - m > t.threshold {
      PruneLeft(s, lo, mid, q, m, t.threshold, d);
    }
    if dist + m < t.threshold {
      PruneRight(s, lo, mid, hi, q, m, t.threshold, d);
    }
    LinearScanSplit(s, lo + 1, mid, hi, q, m, d);
    LinearScanSplit(s, lo, lo + 1, hi, q, m, d);
    assert LinearScan(s, lo + 1, lo + 1, q, m, d) == [];
    assert SearchTree(t, s, q, m, d) == head + (leftHits + rightHits);
  }

  /** The left subtree can be skipped when the query is farther than `m` beyond the threshold. */
  lemma PruneLeft<T>(s: seq<T>, lo: int, mid: int, q: T, m: int, t: int, d: (T, T) -> int)
    requires MetricOn(d, s + [q]) && 0 <= lo < mid <= |s|
    requires Near(s[lo + 1..mid], s[lo], t, d) && d(s[lo], q) - m > t
    ensures LinearScan(s, lo + 1, mid, q, m, d) == []
  {
    forall i | lo + 1 <= i < mid ensures m <= d(s[i], q) {
      assert s[i] == s[lo + 1..mid][i - (lo + 1)];
      var xs := s + [q];
      assert s[lo] == xs[lo] && s[i] == xs[i] && q == xs[|s|];
      assert d(xs[lo], xs[|s|]) <= d(xs[lo], xs[i]) + d(xs[i], xs[|s|]);
    }
    LinearScanEmpty(s, lo + 1, mid, q, m, d);
  }

  /** The right subtree can be skipped when the query is more than `m` inside the threshold. */
  lemma PruneRight<T>(s: seq<T>, lo: int, mid: int, hi: int, q: T, m: int, t: int, d: (T, T) -> int)
    requires MetricOn(d, s + [q]) && 0 <= lo < mid <= hi <= |s|
    requires Far(s[mid..hi], s[lo], t, d) && d(s[lo], q) + m < t
    ensures LinearScan(s, mid, hi, q, m, d) == []
  {
    forall i | mid <= i < hi ensures m <= d(s[i], q) {
      assert s[i] == s[mid..hi][i - mid];
      var xs := s + [q];
      assert s[lo] == xs[lo] && s[i] == xs[i] && q == xs[|s|];
      assert d(xs[lo], xs[i]) <= d(xs[lo], xs[|s|]) + d(xs[|s|], xs[i]);
      assert d(xs[|s|], xs[i]) == d(xs[i], xs[|s|]);
    }
    LinearScanEmpty(s, mid, hi, q, m, d);
  }

  /** Equal slice multisets have the same members. */
  lemma SameMembers<T>(xs: seq<T>, ys: seq<T>)
    requires multiset(xs) == multiset(ys)
    ensures forall x :: x in xs <==> x in ys
  {
    forall x ensures x in xs <==> x in ys {
      assert x in xs <==> x in multiset(xs);
      assert x in ys <==> x in multiset(ys);
    }
  }

  /**
   * Permuting the slice `a..b-1` of a range `lo..hi-1` and nothing else
   * permutes the range and leaves the rest of it in place.
   */
  lemma SlicePermutation<T>(s: seq<T>, s': seq<T>, lo: int, a: int, b: int, hi: int)
    requires 0 <= lo <= a <= b <= hi <= |s| == |s'|
    requires s'[..a] == s[..a] && s'[b..] == s[b..]
    requires multiset(s'[a..b]) == multiset(s[a..b])
    ensures s'[..lo] == s[..lo] && s'[hi..] == s[hi..]
    ensures s'[lo..a] == s[lo..a] && s'[b..hi] == s[b..hi]
    ensures multiset(s'[lo..hi]) == multiset(s[lo..hi])
  {
    assert s'[..lo] == s'[..a][..lo];
    assert s[..lo] == s[..a][..lo];
    assert s'[hi..] == s'[b..][hi - b..];
    assert s[hi..] == s[b..][hi - b..];
    assert s'[lo..a] == s'[..a][lo..];
    assert s[lo..a] == s[..a][lo..];
    assert s'[b..hi] == s'[b..][..hi - b];
    assert s[b..hi] == s[b..][..hi - b];
    assert s'[lo..hi] == s'[lo..a] + s'[a..b] + s'[b..hi];
    assert s[lo..hi] == s[lo..a] + s[a..b] + s[b..hi];
  }

  /** A permutation of the whole sequence that fixes everything outside `a..b-1` permutes that slice. */
  lemma WholeToSlice<T>(s: seq<T>, s': seq<T>, a: int, b: int)
    requires 0 <= a <= b <= |s| == |s'| && multiset(s') == multiset(s)
    requires forall i :: 0 <= i < |s| && !(a <= i < b) ==> s'[i] == s[i]
    ensures s'[..a] == s[..a] && s'[b..] == s[b..]
    ensures multiset(s'[a..b]) == multiset(s[a..b])
  {
    SameOutside(s, s', a, b);
    MultisetSplit(s, a, b);
    MultisetSplit(s', a, b);
    MultisetCancel(multiset(s[..a]), multiset(s[a..b]), multiset(s'[a..b]), multiset(s[b..]));
  }

  /** Sequences that agree outside `a..b-1` have the same prefix and suffix around it. */
  lemma SameOutside<T>(s: seq<T>, s': seq<T>, a: int, b: int)
    requires 0 <= a <= b <= |s| == |s'|
    requires forall i :: 0 <= i < |s| && !(a <= i < b) ==> s'[i] == s[i]
    ensures s'[..a] == s[..a] && s'[b..] == s[b..]
  {
    forall i | 0 <= i < a ensures s'[..a][i] == s[..a][i] {
      assert s'[i] == s[i];
    }
    forall i | 0 <= i < |s| - b ensures s'[b..][i] == s[b..][i] {
      assert s'[b + i] == s[b + i];
    }
  }

  lemma MultisetSplit<T>(s: seq<T>, a: int, b: int)
    requires 0 <= a <= b <= |s|
    ensures multiset(s) == multiset(s[..a]) + multiset(s[a..b]) + multiset(s[b..])
  {
    assert s == s[..a] + s[a..b] + s[b..];
  }

  lemma MultisetCancel<T>(p: multiset<T>, m: multiset<T>, m': multiset<T>, q: multiset<T>)
    requires p + m + q == p + m' + q
    ensures m == m'
  {
    forall x ensures m[x] == m'[x] {
      assert (p + m + q)[x] == (p + m' + q)[x];
    }
  }

  /** Swapping the first position of a range with another one of it permutes that range only. */
  lemma SwapIntoRange<T>(s: seq<T>, s': seq<T>, lo: int, v: int, hi: int)
    requires 0 <= lo < v < hi <= |s| && s' == s[lo := s[v]][v := s[lo]]
    ensures s'[..lo] == s[..lo] && s'[hi..] == s[hi..]
    ensures multiset(s'[lo..hi]) == multiset(s[lo..hi])
  {
    SwapKeepsMultiset(s, lo, v);
    WholeToSlice(s, s', lo, hi);
  }

  /**
   * VPTree: the items, permuted in place by construction, the root of the
   * tree built over them and the distance function.
   */
  class VpTree<T> {
    var items: array<T>
    var root: Tree
    var calculateDistance: (T, T) -> int

    /** The root is a vantage-point tree over all the items. */
    ghost predicate Valid()
      reads this, items
    {
      TreeOk(root, 0, items.Length, items[..], calculateDistance)
    }

    /** The constructor: the tree takes the array it is given and permutes it. */
    constructor (items: array<T>, distanceCalculator: (T, T) -> int)
      modifies items
      ensures this.items == items && calculateDistance == distanceCalculator
      ensures multiset(items[..]) == old(multiset(items[..]))
      ensures items.Length == 0 ==> root == Null
      ensures Valid()
    {
      this.items := items;
      calculateDistance := distanceCalculator;
      root := Null;
      new;
      Create(items, distanceCalculator);
    }

    /** Create: installs the items and the distance function and builds the tree over all items. */
    method Create(newItems: array<T>, distanceCalculator: (T, T) -> int)
      modifies this, newItems
      ensures items == newItems && calculateDistance == distanceCalculator
      ensures multiset(newItems[..]) == old(multiset(newItems[..]))
      ensures newItems.Length == 0 ==> root == Null
      ensures Valid()
    {
      items := newItems;
      calculateDistance := distanceCalculator;
      var t := BuildFromPoints(0, newItems.Length);
      root := t;
      assert newItems[..] == newItems[0..newItems.Length];
      assert old(newItems[..]) == old(newItems[0..newItems.Length]);
    }

    /**
     * BuildFromPoints: builds the tree over positions `lowerIndex..upperIndex-1`,
     * permuting them and nothing else. A range of two or more gets an arbitrary
     * vantage point from `lowerIndex+1..upperIndex-1` (the original draws it at
     * random), swapped to `lowerIndex`; nth_element, comparing by distance to
     * the vantage point, then moves the median to the centre.
     */
    method BuildFromPoints(lowerIndex: int, upperIndex: int) returns (node: Tree)
      requires 0 <= lowerIndex <= upperIndex <= items.Length
      modifies items
      ensures items[..lowerIndex] == old(items[..lowerIndex])
      ensures items[upperIndex..] == old(items[upperIndex..])
      ensures multiset(items[lowerIndex..upperIndex]) == old(multiset(items[lowerIndex..upperIndex]))
      ensures TreeOk(node, lowerIndex, upperIndex, items[..], calculateDistance)
      decreases upperIndex - lowerIndex
    {
      if upperIndex == lowerIndex {
        return Null;
      }
      if upperIndex - lowerIndex > 1 {
        ghost var s0 := items[..];
        var v :| lowerIndex + 1 <= v < upperIndex;
        Swap(items, lowerIndex, v);
        ghost var s1 := items[..];
        SwapIntoRange(s0, s1, lowerIndex, v, upperIndex);
        var medianIndex := (upperIndex + lowerIndex) / 2;
        var vantage := items[lowerIndex];
        var d := calculateDistance;
        NthElement(items, lowerIndex + 1, medianIndex, upperIndex - 1, x => d(vantage, x));
        ghost var s2 := items[..];
        WholeToSlice(s1, s2, lowerIndex + 1, upperIndex);
        SlicePermutation(s1, s2, lowerIndex, lowerIndex + 1, upperIndex, upperIndex);
        var threshold := calculateDistance(items[lowerIndex], items[medianIndex]);
        MedianSplit(s2, lowerIndex, medianIndex, upperIndex, threshold, d);
        var left := BuildFromPoints(lowerIndex + 1, medianIndex);
        ghost var s3 := items[..];
        SlicePermutation(s2, s3, lowerIndex, lowerIndex + 1, medianIndex, upperIndex);
        var right := BuildFromPoints(medianIndex, upperIndex);
        ghost var s4 := items[..];
        SlicePermutation(s3, s4, lowerIndex, medianIndex, upperIndex, upperIndex);
        node := Node(lowerIndex, threshold, left, right);
        NodeOk(s2, s3, s4, lowerIndex, medianIndex, upperIndex, node, d);
      } else {
        node := Node(lowerIndex, 0, Null, Null);
      }
    }

    /**
     * SearchByMaxd: appends to `closestHits` the hits of the subtree `node`,
     * as `SearchTree` describes them.
     */
    method SearchByMaxd(node: Tree, target: T, maxd: int, closestHits: seq<HeapItem>)
      returns (hits: seq<HeapItem>)
      requires Bounded(node, items.Length)
      ensures hits == closestHits + SearchTree(node, items[..], target, maxd, calculateDistance)
      decreases node
    {
      if node.Null? {
        return closestHits;
      }
      var dist := calculateDistance(items[node.index], target);
      hits := closestHits;
      // an item strictly within the radius is a hit
      if dist < maxd {
        hits := hits + [HeapItem(node.index, dist)];
      }
      if node.left.Null? && node.right.Null? {
        return;
      }
      ghost var own := hits;
      ghost var s := items[..];
      ghost var d := calculateDistance;
      if dist - maxd <= node.threshold {
        hits := SearchByMaxd(node.left, target, maxd, hits);
      }
      ghost var leftHits := if dist - maxd <= node.threshold then SearchTree(node.left, s, target, maxd, d) else [];
      assert hits == own + leftHits;
      ghost var middle := hits;
      if dist + maxd >= node.threshold {
        hits := SearchByMaxd(node.right, target, maxd, hits);
      }
      ghost var rightHits := if dist + maxd >= node.threshold then SearchTree(node.right, s, target, maxd, d) else [];
      assert hits == middle + rightHits;
      AppendThree(closestHits, own[|closestHits|..], leftHits, rightHits);
      assert own == closestHits + own[|closestHits|..];
    }

    /**
     * SearchByMaxDist: every item strictly closer than `maxDist` to the query,
     * paired with its distance, in the order of the items.
     */
    method SearchByMaxDist(query: T, maxDist: int) returns (result: seq<(T, int)>)
      requires Valid()
      ensures MetricOn(calculateDistance, items[..] + [query]) ==>
        ScanPairs(items[..], query, maxDist, calculateDistance, result)
        && WithinRadius(items[..], query, maxDist, calculateDistance, result)
    {
      ghost var s := items[..];
      TreeOkBounded(root, 0, items.Length, s, calculateDistance);
      var hits := SearchByMaxd(root, query, maxDist, []);
      assert hits == SearchTree(root, s, query, maxDist, calculateDistance);
      result := Pairs(items[..], hits);
      if MetricOn(calculateDistance, s + [query]) {
        RadiusSearch(root, s, query, maxDist, calculateDistance, hits, result);
      }
    }
  }

  lemma AppendThree<X>(a: seq<X>, b: seq<X>, c: seq<X>, e: seq<X>)
    ensures a + b + c + e == a + (b + (c + e))
  {
  }

  /** What nth_element leaves around the median, as the three bounds of a node. */
  lemma MedianSplit<T>(s: seq<T>, lo: int, mid: int, hi: int, t: int, d: (T, T) -> int)
    requires 0 <= lo < mid < hi <= |s| && t == d(s[lo], s[mid])
    requires forall i :: lo + 1 <= i < mid ==> d(s[lo], s[i]) <= d(s[lo], s[mid])
    requires forall i :: mid < i <= hi - 1 ==> d(s[lo], s[mid]) <= d(s[lo], s[i])
    ensures Near(s[lo + 1..mid], s[lo], t, d)
    ensures Far(s[mid..hi], s[lo], t, d) && Reaches(s[mid..hi], s[lo], t, d)
  {
    assert s[mid..hi][0] == s[mid];
  }

  /** The node built over `lo..hi-1` is a tree there once both subtrees are built. */
  lemma NodeOk<T>(s2: seq<T>, s3: seq<T>, s4: seq<T>, lo: int, mid: int, hi: int, node: Tree, d: (T, T) -> int)
    requires 0 <= lo < mid < hi <= |s2| == |s3| == |s4| && mid == (lo + hi) / 2
    requires node.Node? && node.index == lo
    requires Near(s2[lo + 1..mid], s2[lo], node.threshold, d)
    requires Far(s2[mid..hi], s2[lo], node.threshold, d) && Reaches(s2[mid..hi], s2[lo], node.threshold, d)
    requires s3[..lo + 1] == s2[..lo + 1] && s3[mid..] == s2[mid..]
    requires multiset(s3[lo + 1..mid]) == multiset(s2[lo + 1..mid])
    requires TreeOk(node.left, lo + 1, mid, s3, d)
    requires s4[..mid] == s3[..mid] && s4[hi..] == s3[hi..]
    requires multiset(s4[mid..hi]) == multiset(s3[mid..hi])
    requires TreeOk(node.right, mid, hi, s4, d)
    ensures TreeOk(node, lo, hi, s4, d)
  {
    NodeBoundsKept(s2, s3, s4, lo, mid, hi, node.threshold, d);
    TreeOkFrame(node.left, lo + 1, mid, s3, s4, d);
  }

  /** Building the two subtrees permutes their slices only, so the bounds of the node still hold. */
  lemma NodeBoundsKept<T>(s2: seq<T>, s3: seq<T>, s4: seq<T>, lo: int, mid: int, hi: int, t: int, d: (T, T) -> int)
    requires 0 <= lo < mid < hi <= |s2| == |s3| == |s4|
    requires Near(s2[lo + 1..mid], s2[lo], t, d)
    requires Far(s2[mid..hi], s2[lo], t, d) && Reaches(s2[mid..hi], s2[lo], t, d)
    requires s3[..lo + 1] == s2[..lo + 1] && s3[mid..] == s2[mid..]
    requires multiset(s3[lo + 1..mid]) == multiset(s2[lo + 1..mid])
    requires s4[..mid] == s3[..mid] && s4[hi..] == s3[hi..]
    requires multiset(s4[mid..hi]) == multiset(s3[mid..hi])
    ensures s4[lo] == s2[lo] && s4[lo + 1..mid] == s3[lo + 1..mid]
    ensures Near(s4[lo + 1..mid], s4[lo], t, d)
    ensures Far(s4[mid..hi], s4[lo], t, d) && Reaches(s4[mid..hi], s4[lo], t, d)
  {
    assert s3[lo] == s2[lo] by { assert s3[lo] == s3[..lo + 1][lo]; assert s2[lo] == s2[..lo + 1][lo]; }
    assert s4[lo] == s3[lo] by { assert s4[lo] == s4[..mid][lo]; assert s3[lo] == s3[..mid][lo]; }
    assert s3[mid..hi] == s2[mid..hi] by { assert s3[mid..hi] == s3[mid..][..hi - mid]; assert s2[mid..hi] == s2[mid..][..hi - mid]; }
    assert s4[lo + 1..mid] == s3[lo + 1..mid] by { assert s4[lo + 1..mid] == s4[..mid][lo + 1..]; assert s3[lo + 1..mid] == s3[..mid][lo + 1..]; }
    SameMembers(s3[lo + 1..mid], s2[lo + 1..mid]);
    SameMembers(s4[mid..hi], s3[mid..hi]);
  }

  /** The Select of SearchByMaxDist: each hit as its item and its distance. */
  function Pairs<T>(s: seq<T>, hits: seq<HeapItem>): (r: seq<(T, int)>)
    requires forall k :: 0 <= k < |hits| ==> 0 <= hits[k].index < |s|
    ensures |r| == |hits| && forall k :: 0 <= k < |r| ==> r[k] == (s[hits[k].index], hits[k].dist)
  {
    if hits == [] then [] else [(s[hits[0].index], hits[0].dist)] + Pairs(s, hits[1..])
  }

  /** `result` pairs each hit of a linear scan of `s` with its item, in the order of the scan. */
  ghost predicate ScanPairs<T>(s: seq<T>, q: T, m: int, d: (T, T) -> int, result: seq<(T, int)>)
  {
    var scan := LinearScan(s, 0, |s|, q, m, d);
    |result| == |scan| && forall k :: 0 <= k < |result| ==> result[k] == (s[scan[k].index], scan[k].dist)
  }

  /**
   * `result` holds exactly the items of `s` strictly within distance `m` of
   * `q`, each with its distance.
   */
  ghost predicate WithinRadius<T>(s: seq<T>, q: T, m: int, d: (T, T) -> int, result: seq<(T, int)>)
  {
    && (forall k :: 0 <= k < |result| ==> result[k].0 in s && result[k].1 == d(result[k].0, q) && result[k].1 < m)
    && (forall x :: x in s && d(x, q) < m ==> (x, d(x, q)) in result)
  }

  /** The pairs of a tree search are the pairs of a linear scan, and so exactly the items within the radius. */
  lemma RadiusSearch<T>(t: Tree, s: seq<T>, q: T, m: int, d: (T, T) -> int, hits: seq<HeapItem>, result: seq<(T, int)>)
    requires TreeOk(t, 0, |s|, s, d) && MetricOn(d, s + [q]) && Bounded(t, |s|)
    requires hits == SearchTree(t, s, q, m, d) && result == Pairs(s, hits)
    ensures ScanPairs(s, q, m, d, result) && WithinRadius(s, q, m, d, result)
  {
    SearchTreeIsScan(t, 0, |s|, s, q, m, d);
    SearchResultMembers(s, q, m, d, hits, result);
  }

  /** The pairs built from the hits are exactly the items within the radius, with their distances. */
  lemma SearchResultMembers<T>(s: seq<T>, q: T, m: int, d: (T, T) -> int, hits: seq<HeapItem>, result: seq<(T, int)>)
    requires hits == LinearScan(s, 0, |s|, q, m, d)
    requires |result| == |hits| && forall k :: 0 <= k < |result| ==> result[k] == (s[hits[k].index], hits[k].dist)
    ensures forall x, dist :: (x, dist) in result
                              <==> (exists i :: 0 <= i < |s| && s[i] == x && dist == d(x, q) && dist < m)
    ensures forall k :: 0 <= k < |result| ==> result[k].0 in s && result[k].1 == d(result[k].0, q) && result[k].1 < m
    ensures forall x :: x in s && d(x, q) < m ==> (x, d(x, q)) in result
  {
    forall x, dist ensures (x, dist) in result <==> exists i :: 0 <= i < |s| && s[i] == x && dist == d(x, q) && dist < m {
      if (x, dist) in result {
        var k :| 0 <= k < |result| && result[k] == (x, dist);
        LinearScanMembers(s, 0, |s|, q, m, d, hits[k]);
      }
      if exists i :: 0 <= i < |s| && s[i] == x && dist == d(x, q) && dist < m {
        var i :| 0 <= i < |s| && s[i] == x && dist == d(x, q) && dist < m;
        LinearScanMembers(s, 0, |s|, q, m, d, HeapItem(i, dist));
        var k :| 0 <= k < |hits| && hits[k] == HeapItem(i, dist);
        assert result[k] == (x, dist);
      }
    }
    forall k | 0 <= k < |result| ensures result[k].0 in s && result[k].1 == d(result[k].0, q) && result[k].1 < m {
      LinearScanMembers(s, 0, |s|, q, m, d, hits[k]);
    }
    forall x | x in s && d(x, q) < m ensures (x, d(x, q)) in result {
      var i :| 0 <= i < |s| && s[i] == x;
      assert (x, d(x, q)) in result;
    }
  }
}
