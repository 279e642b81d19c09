/**
 * BestPhotoSelector.cs: the photo a group keeps. The group is ordered by the
 * first preference descending, then by each further preference descending,
 * and the first photo of that order is taken. LINQ's ordering is stable, so
 * this is the earliest photo whose key tuple is lexicographically greatest.
 */
module BestPhotoSelection {
  import opened Wrappers
  import opened MappedImages
  import opened KeepPreferences

  /** The key tuple of `p` under a chain of named preferences. */
  function KeyTuple(p: Photo, prefs: seq<KeepPreference>): (t: seq<int>)
    requires forall k :: 0 <= k < |prefs| ==> Named(prefs[k])
    ensures |t| == |prefs| && forall k :: 0 <= k < |prefs| ==> t[k] == Key(prefs[k], p)
  {
    if prefs == [] then [] else [Key(prefs[0], p)] + KeyTuple(p, prefs[1..])
  }

  /** `a` comes before `b` in the descending order: greater at the first position where they differ. */
  predicate Above(a: seq<int>, b: seq<int>)
  {
    |a| > 0 && |b| > 0 && (a[0] > b[0] || (a[0] == b[0] && Above(a[1..], b[1..])))
  }

  lemma {:induction false} AboveTransitive(a: seq<int>, b: seq<int>, c: seq<int>)
    requires Above(a, b) && Above(b, c)
    ensures Above(a, c)
  {
    if a[0] == b[0] && b[0] == c[0] {
      AboveTransitive(a[1..], b[1..], c[1..]);
    }
  }

  /** Of two tuples of one length, one is above the other, or they are equal. */
  lemma {:induction false} AboveTotal(a: seq<int>, b: seq<int>)
    requires |a| == |b|
    ensures Above(a, b) || Above(b, a) || a == b
  {
    if |a| > 0 && a[0] == b[0] {
      AboveTotal(a[1..], b[1..]);
      if a[1..] == b[1..] {
        assert a == [a[0]] + a[1..] && b == [b[0]] + b[1..];
      }
    }
  }

  lemma {:induction false} AboveAsymmetric(a: seq<int>, b: seq<int>)
    requires Above(a, b)
    ensures !Above(b, a)
  {
    if a[0] == b[0] {
      AboveAsymmetric(a[1..], b[1..]);
    }
  }

  lemma {:induction false} AboveIrreflexive(a: seq<int>)
    ensures !Above(a, a)
  {
    if |a| > 0 {
      AboveIrreflexive(a[1..]);
    }
  }

  /**
   * The position among `group[..n]` that the stable descending order puts
   * first: the earlier of two photos wins unless the later one is strictly
   * above it (BestIndexOrder).
   */
  function BestIndex(group: seq<Photo>, prefs: seq<KeepPreference>, n: int): (i: int)
    requires forall k :: 0 <= k < |prefs| ==> Named(prefs[k])
    requires 0 < n <= |group|
    ensures 0 <= i < n
  {
    if n == 1 then 0
    else
      var b := BestIndex(group, prefs, n - 1);
      if Above(KeyTuple(group[n - 1], prefs), KeyTuple(group[b], prefs)) then n - 1 else b
  }

  /** No photo of `group[..n]` is above the chosen one, and it is strictly above every photo before it. */
  lemma {:induction false} BestIndexOrder(group: seq<Photo>, prefs: seq<KeepPreference>, n: int)
    requires forall k :: 0 <= k < |prefs| ==> Named(prefs[k])
    requires 0 < n <= |group|
    ensures forall j :: 0 <= j < n ==>
              !Above(KeyTuple(group[j], prefs), KeyTuple(group[BestIndex(group, prefs, n)], prefs))
    ensures forall j :: 0 <= j < BestIndex(group, prefs, n) ==>
              Above(KeyTuple(group[BestIndex(group, prefs, n)], prefs), KeyTuple(group[j], prefs))
  {
    if n == 1 {
      AboveIrreflexive(KeyTuple(group[0], prefs));
    } else {
      var b := BestIndex(group, prefs, n - 1);
      BestIndexOrder(group, prefs, n - 1);
      if Above(KeyTuple(group[n - 1], prefs), KeyTuple(group[b], prefs)) {
        BeatsAll(group, prefs, n, b);
      } else {
        StaysBest(group, prefs, n, b);
      }
    }
  }

  /** A photo not above the best of the first `n - 1` leaves it the best of the first `n`. */
  lemma StaysBest(group: seq<Photo>, prefs: seq<KeepPreference>, n: int, b: int)
    requires forall k :: 0 <= k < |prefs| ==> Named(prefs[k])
    requires 1 < n <= |group| && 0 <= b < n - 1
    requires forall j :: 0 <= j < n - 1 ==> !Above(KeyTuple(group[j], prefs), KeyTuple(group[b], prefs))
    requires !Above(KeyTuple(group[n - 1], prefs), KeyTuple(group[b], prefs))
    ensures forall j :: 0 <= j < n ==> !Above(KeyTuple(group[j], prefs), KeyTuple(group[b], prefs))
  {
  }

  /** A photo above the best of the first `n - 1` is above every one of them. */
  lemma BeatsAll(group: seq<Photo>, prefs: seq<KeepPreference>, n: int, b: int)
    requires forall k :: 0 <= k < |prefs| ==> Named(prefs[k])
    requires 1 < n <= |group| && 0 <= b < n - 1
    requires forall j :: 0 <= j < n - 1 ==> !Above(KeyTuple(group[j], prefs), KeyTuple(group[b], prefs))
    requires Above(KeyTuple(group[n - 1], prefs), KeyTuple(group[b], prefs))
    ensures forall j :: 0 <= j < n - 1 ==> Above(KeyTuple(group[n - 1], prefs), KeyTuple(group[j], prefs))
    ensures forall j :: 0 <= j < n ==> !Above(KeyTuple(group[j], prefs), KeyTuple(group[n - 1], prefs))
  {
    var last := KeyTuple(group[n - 1], prefs);
    var best := KeyTuple(group[b], prefs);
    AboveIrreflexive(last);
    forall j | 0 <= j < n - 1 ensures Above(last, KeyTuple(group[j], prefs)) && !Above(KeyTuple(group[j], prefs), last) {
      var t := KeyTuple(group[j], prefs);
      AboveTotal(t, best);
      if Above(best, t) {
        AboveTransitive(last, best, t);
      }
      AboveAsymmetric(last, t);
    }
  }

  /** Why FindBestPhoto throws: no preference, a preference out of range, or an empty group. */
  datatype SelectError = NoPreferences | UnknownPreference(preference: KeepPreference) | EmptyGroup

  /** The first preference of `prefs` that is not one of the eight named values, if any. */
  function FirstUnnamed(prefs: seq<KeepPreference>): (r: Option<KeepPreference>)
    ensures r.None? <==> forall k :: 0 <= k < |prefs| ==> Named(prefs[k])
    ensures r.Some? ==> exists k :: 0 <= k < |prefs| && prefs[k] == r.value && !Named(r.value)
                                    && forall j :: 0 <= j < k ==> Named(prefs[j])
  {
    if prefs == [] then None
    else if !Named(prefs[0]) then Some(prefs[0])
    else
      var r := FirstUnnamed(prefs[1..]);
      if r.Some? then
        var k :| 0 <= k < |prefs[1..]| && prefs[1..][k] == r.value && !Named(r.value)
                 && forall j :: 0 <= j < k ==> Named(prefs[1..][j]);
        assert prefs[k + 1] == r.value && forall j :: 0 <= j < k + 1 ==> Named(prefs[j]);
        r
      else r
  }

  /**
   * FindBestPhoto. `keepPreferences.First()` throws on an empty chain; Convert
   * runs on every preference in order while the query is built and throws on
   * the first unknown one; `query.First()` throws on an empty group.
   */
  function FindBestPhoto(group: seq<Photo>, keepPreferences: seq<KeepPreference>): (r: Result<Photo, SelectError>)
    ensures r.Success? <==> |keepPreferences| > 0 && FirstUnnamed(keepPreferences).None? && |group| > 0
    ensures r.Failure? ==>
      r.error == (if |keepPreferences| == 0 then NoPreferences
                  else if FirstUnnamed(keepPreferences).Some? then UnknownPreference(FirstUnnamed(keepPreferences).value)
                  else EmptyGroup)
    ensures r.Success? ==> r.value in group
  {
    if |keepPreferences| == 0 then Failure(NoPreferences)
    else
      var unknown := FirstUnnamed(keepPreferences);
      if unknown.Some? then Failure(UnknownPreference(unknown.value))
      else if |group| == 0 then Failure(EmptyGroup)
      else Success(group[BestIndex(group, keepPreferences, |group|)])
  }

  /**
   * The selected photo is the first of the stable descending order: no photo
   * of the group is above it, and it is strictly above every photo before it.
   */
  lemma FindBestPhotoOrder(group: seq<Photo>, keepPreferences: seq<KeepPreference>)
    requires FindBestPhoto(group, keepPreferences).Success?
    ensures exists i ::
              && 0 <= i < |group| && group[i] == FindBestPhoto(group, keepPreferences).value
              && (forall j :: 0 <= j < |group| ==>
                    !Above(KeyTuple(group[j], keepPreferences), KeyTuple(group[i], keepPreferences)))
              && (forall j :: 0 <= j < i ==>
                    Above(KeyTuple(group[i], keepPreferences), KeyTuple(group[j], keepPreferences)))
  {
    var i := BestIndex(group, keepPreferences, |group|);
    BestIndexOrder(group, keepPreferences, |group|);
    assert group[i] == FindBestPhoto(group, keepPreferences).value;
  }

  /** No photo of the group outranks the selected one. */
  lemma BestIsMaximal(group: seq<Photo>, keepPreferences: seq<KeepPreference>, q: Photo)
    requires FindBestPhoto(group, keepPreferences).Success? && q in group
    ensures FindBestPhoto(group, keepPreferences).value in group
    ensures !Above(KeyTuple(q, keepPreferences), KeyTuple(FindBestPhoto(group, keepPreferences).value, keepPreferences))
  {
    FindBestPhotoOrder(group, keepPreferences);
  }

  /** Under [Largest] the selected photo has the greatest size of the group. */
  lemma LargestHasMaxSize(group: seq<Photo>, q: Photo)
    requires |group| > 0 && q in group
    ensures FindBestPhoto(group, [Largest]).Success?
    ensures q.size <= FindBestPhoto(group, [Largest]).value.size
  {
    var best := FindBestPhoto(group, [Largest]).value;
    BestIsMaximal(group, [Largest], q);
    SingleKeyAbove(q, best, Largest);
  }

  /** Under [Smallest] the selected photo has the least size of the group. */
  lemma SmallestHasMinSize(group: seq<Photo>, q: Photo)
    requires |group| > 0 && q in group
    ensures FindBestPhoto(group, [Smallest]).Success?
    ensures FindBestPhoto(group, [Smallest]).value.size <= q.size
  {
    var best := FindBestPhoto(group, [Smallest]).value;
    BestIsMaximal(group, [Smallest], q);
    SingleKeyAbove(q, best, Smallest);
  }

  /** With a single preference, one photo is above another exactly when its key is greater. */
  lemma SingleKeyAbove(p: Photo, q: Photo, preference: KeepPreference)
    requires Named(preference)
    ensures Above(KeyTuple(p, [preference]), KeyTuple(q, [preference])) <==> Key(preference, p) > Key(preference, q)
  {
    var a, b := KeyTuple(p, [preference]), KeyTuple(q, [preference]);
    assert a == [Key(preference, p)] && b == [Key(preference, q)];
    assert a[1..] == [] && b[1..] == [];
  }

  /** In a group of two or more distinct sizes, [Largest] and [Smallest] keep different photos. */
  lemma LargestAndSmallestDiffer(group: seq<Photo>, x: Photo, y: Photo)
    requires x in group && y in group && x.size != y.size
    ensures FindBestPhoto(group, [Largest]).value != FindBestPhoto(group, [Smallest]).value
  {
    LargestHasMaxSize(group, x);
    LargestHasMaxSize(group, y);
    SmallestHasMinSize(group, x);
    SmallestHasMinSize(group, y);
  }
}
