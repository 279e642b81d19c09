/**
 * The union-find structure of DisjointSetUnion.cs: a parent array with
 * path-compressing Find, Union of two roots, and AsGroups, which lists the
 * components.
 */
module DisjointSets {

  /**
   * The parent array `pa` is a forest: `rootOf` names the root of every
   * element, and `depth` strictly decreases from child to parent, with every
   * root at depth 0.
   */
  ghost predicate Forest(pa: seq<int>, rootOf: seq<int>, depth: seq<nat>)
  {
    |rootOf| == |pa| && |depth| == |pa|
    && (forall i {:trigger pa[i]} :: 0 <= i < |pa| ==> 0 <= pa[i] < |pa|)
    && (forall i {:trigger rootOf[i]} :: 0 <= i < |pa| ==> 0 <= rootOf[i] < |pa|)
    && (forall i {:trigger rootOf[i]} :: 0 <= i < |pa| ==> pa[rootOf[i]] == rootOf[i])
    && (forall i {:trigger rootOf[i]} :: 0 <= i < |pa| && pa[i] == i ==> rootOf[i] == i && depth[i] == 0)
    && (forall i {:trigger rootOf[pa[i]]} {:trigger depth[pa[i]]} :: 0 <= i < |pa| && pa[i] != i ==>
          rootOf[pa[i]] == rootOf[i] && depth[pa[i]] < depth[i])
  }

  /** The element reached by following parents from `i` until a self-loop. */
  ghost function FollowParents(pa: seq<int>, rootOf: seq<int>, depth: seq<nat>, i: int): int
    requires Forest(pa, rootOf, depth) && 0 <= i < |pa|
    decreases depth[i]
  {
    if pa[i] == i then i else FollowParents(pa, rootOf, depth, pa[i])
  }

  /** The recorded root of every element is the one its parent chain ends at. */
  lemma {:induction false} RootIsReached(pa: seq<int>, rootOf: seq<int>, depth: seq<nat>, i: int)
    requires Forest(pa, rootOf, depth) && 0 <= i < |pa|
    ensures FollowParents(pa, rootOf, depth, i) == rootOf[i]
    decreases depth[i]
  {
    if pa[i] != i {
      RootIsReached(pa, rootOf, depth, pa[i]);
    }
  }

  /** Pointing a non-root straight at its root keeps the forest and every root. */
  lemma CompressKeepsForest(pa: seq<int>, rootOf: seq<int>, depth: seq<nat>, e: int)
    requires Forest(pa, rootOf, depth) && 0 <= e < |pa| && pa[e] != e
    ensures Forest(pa[e := rootOf[e]], rootOf, depth)
  {
    var pa' := pa[e := rootOf[e]];
    CompressKeepsRoots(pa, pa', rootOf, depth, e);
    CompressDescends(pa, pa', rootOf, depth, e);
  }

  /** Re-pointing `e` at its root keeps every parent in range, every root its own parent, and only roots self-looped. */
  lemma CompressKeepsRoots(pa: seq<int>, pa': seq<int>, rootOf: seq<int>, depth: seq<nat>, e: int)
    requires Forest(pa, rootOf, depth) && 0 <= e < |pa| && pa[e] != e && pa' == pa[e := rootOf[e]]
    ensures forall i :: 0 <= i < |pa| ==> 0 <= pa'[i] < |pa| && pa'[rootOf[i]] == rootOf[i]
    ensures forall i :: 0 <= i < |pa| && pa'[i] == i ==> rootOf[i] == i && depth[i] == 0
  {
    var r := rootOf[e];
    assert pa[r] == r;
    forall i | 0 <= i < |pa| ensures 0 <= pa'[i] < |pa| && pa'[rootOf[i]] == rootOf[i] {
      assert 0 <= pa[i] < |pa|;
      assert pa[rootOf[i]] == rootOf[i];
    }
    forall i | 0 <= i < |pa| && pa'[i] == i ensures rootOf[i] == i && depth[i] == 0 {
      assert i != e;
      assert pa[i] == i;
    }
  }

  /** Re-pointing `e` at its root keeps every parent in the same tree and closer to the root. */
  lemma CompressDescends(pa: seq<int>, pa': seq<int>, rootOf: seq<int>, depth: seq<nat>, e: int)
    requires Forest(pa, rootOf, depth) && 0 <= e < |pa| && pa[e] != e && pa' == pa[e := rootOf[e]]
    ensures forall i :: 0 <= i < |pa| && pa'[i] != i ==> rootOf[pa'[i]] == rootOf[i] && depth[pa'[i]] < depth[i]
  {
    var r := rootOf[e];
    assert pa[r] == r && rootOf[r] == r && depth[r] == 0;
    assert rootOf[pa[e]] == r && depth[pa[e]] < depth[e];
    forall i | 0 <= i < |pa| && pa'[i] != i ensures rootOf[pa'[i]] == rootOf[i] && depth[pa'[i]] < depth[i] {
      if i != e {
        assert rootOf[pa[i]] == rootOf[i];
      }
    }
  }

  /** The roots after the root `ra` is hung under the root `rb`. */
  ghost function Merge(rootOf: seq<int>, ra: int, rb: int): seq<int>
  {
    seq(|rootOf|, i requires 0 <= i < |rootOf| => if rootOf[i] == ra then rb else rootOf[i])
  }

  /** Depths after the tree of `ra` is hung one level below a root. */
  ghost function Lift(rootOf: seq<int>, depth: seq<nat>, ra: int): seq<nat>
    requires |depth| == |rootOf|
  {
    seq(|depth|, i requires 0 <= i < |depth| => if rootOf[i] == ra then depth[i] + 1 else depth[i])
  }

  /**
   * `rt'` joins the components of `a` and `b` of `rt` and no others: `a` and
   * `b` now share a root, and two elements share one exactly when they did
   * before or one was with `a` and the other with `b`.
   */
  ghost predicate MergedComponents(rt: seq<int>, rt': seq<int>, a: int, b: int)
  {
    |rt'| == |rt| && 0 <= a < |rt| && 0 <= b < |rt| && rt'[a] == rt'[b]
    && forall x, y :: 0 <= x < |rt| && 0 <= y < |rt| ==>
         (rt'[x] == rt'[y] <==> rt[x] == rt[y] || (rt[x] == rt[a] && rt[y] == rt[b]) || (rt[x] == rt[b] && rt[y] == rt[a]))
  }

  /** Merge joins exactly the two components. */
  lemma MergeJoins(rt: seq<int>, a: int, b: int)
    requires 0 <= a < |rt| && 0 <= b < |rt|
    ensures MergedComponents(rt, Merge(rt, rt[a], rt[b]), a, b)
  {
    var m := Merge(rt, rt[a], rt[b]);
    forall x, y | 0 <= x < |rt| && 0 <= y < |rt|
      ensures m[x] == m[y] <==> rt[x] == rt[y] || (rt[x] == rt[a] && rt[y] == rt[b]) || (rt[x] == rt[b] && rt[y] == rt[a])
    {
    }
  }

  /** Hanging one root under another keeps the forest. */
  lemma LinkKeepsForest(pa: seq<int>, rootOf: seq<int>, depth: seq<nat>, ra: int, rb: int)
    requires Forest(pa, rootOf, depth)
    requires 0 <= ra < |pa| && 0 <= rb < |pa| && ra != rb && pa[ra] == ra && pa[rb] == rb
    ensures Forest(pa[ra := rb], Merge(rootOf, ra, rb), Lift(rootOf, depth, ra))
  {
    var pa', rt', dp' := pa[ra := rb], Merge(rootOf, ra, rb), Lift(rootOf, depth, ra);
    assert rootOf[ra] == ra && rootOf[rb] == rb;
    forall i | 0 <= i < |pa| && pa'[i] != i ensures rt'[pa'[i]] == rt'[i] && dp'[pa'[i]] < dp'[i] {
      if i != ra {
        assert pa[i] != i;
      }
    }
    forall i | 0 <= i < |pa| ensures pa'[rt'[i]] == rt'[i] {
      assert pa[rootOf[i]] == rootOf[i];
    }
  }

  /** DisjointSetUnion: the parent array `pa`, with the forest it stands for as ghost state. */
  class DisjointSetUnion {
    const pa: array<int>
    ghost var rootOf: seq<int>
    ghost var depth: seq<nat>

    ghost predicate Valid()
      reads this, pa
    {
      Forest(pa[..], rootOf, depth)
    }

    /** Elements `i` and `j` are in the same component. */
    ghost predicate Same(i: int, j: int)
      reads this
      requires 0 <= i < |rootOf| && 0 <= j < |rootOf|
    {
      rootOf[i] == rootOf[j]
    }

    /** The constructor: every element is its own parent, hence its own root. */
    constructor (size: nat)
      ensures Valid() && fresh(pa) && pa.Length == size
      ensures forall i :: 0 <= i < size ==> pa[i] == i && rootOf[i] == i
    {
      pa := new int[size](i => i);
      rootOf := seq(size, i => i);
      depth := seq(size, i => 0);
    }

    /**
     * Find: the root of `elem`; on the way back every element of the path is
     * pointed straight at that root. No element changes root.
     */
    method Find(elem: int) returns (r: int)
      requires Valid() && 0 <= elem < pa.Length
      modifies pa
      ensures Valid()
      ensures r == rootOf[elem] && pa[r] == r
      decreases depth[elem]
    {
      if pa[elem] == elem {
        r := elem;
      } else {
        r := Find(pa[elem]);
        CompressKeepsForest(pa[..], rootOf, depth, elem);
        pa[elem] := r;
      }
    }

    /**
     * Union: hangs the root of `a` under the root of `b`; nothing at all
     * changes when `a == b`.
     */
    method Union(a: int, b: int)
      requires Valid() && 0 <= a < pa.Length && 0 <= b < pa.Length
      modifies this, pa
      ensures Valid()
      ensures a == b ==> pa[..] == old(pa[..]) && rootOf == old(rootOf)
      ensures rootOf == Merge(old(rootOf), old(rootOf[a]), old(rootOf[b]))
      ensures MergedComponents(old(rootOf), rootOf, a, b)
    {
      ghost var rt := rootOf;
      if a == b {
        assert Merge(rootOf, rootOf[a], rootOf[b]) == rootOf;
        MergeJoins(rt, a, b);
        return;
      }
      var ra := Find(a);
      var rb := Find(b);
      ghost var p := pa[..];
      pa[ra] := rb;
      assert pa[..] == p[ra := rb];
      if ra != rb {
        LinkKeepsForest(p, rootOf, depth, ra, rb);
        depth := Lift(rootOf, depth, ra);
        rootOf := Merge(rootOf, ra, rb);
      } else {
        assert p[ra := rb] == p;
        assert Merge(rootOf, ra, rb) == rootOf;
      }
      MergeJoins(rt, a, b);
    }

    /**
     * AsGroups: the components, each listed in ascending order, in the order of
     * their first listed element. With `ignoreSingletons`, roots are left out
     * of the scan and appended to their group afterwards, so a component with
     * only its root never gets a group.
     */
    method AsGroups(ignoreSingletons: bool) returns (result: seq<seq<int>>)
      requires Valid()
      modifies pa
      ensures Valid()
      ensures result == Groups(rootOf, ignoreSingletons)
    {
      var keys: seq<int> := [];
      var groups: map<int, seq<int>> := map[];
      for i := 0 to pa.Length
        invariant Valid()
        invariant ScanState(rootOf, i, ignoreSingletons, keys, groups)
      {
        var root := Find(i);
        ScanStep(rootOf, i, ignoreSingletons, keys, groups);
        if ignoreSingletons && root == i {
          // roots are added after the scan
        } else if root in groups {
          groups := groups[root := groups[root] + [i]];
        } else {
          groups := groups[root := [i]];
          keys := keys + [root];
        }
      }
      ghost var rt := rootOf;
      KeysDistinct(rt, |rt|, ignoreSingletons);
      ScanDone(rt, ignoreSingletons, keys, groups);
      if ignoreSingletons {
        groups := AppendRoots(rt, keys, groups);
      }
      result := ListGroups(rt, ignoreSingletons, keys, groups);
    }
  }

  /** Every root of `keys` maps to its finished group. */
  ghost predicate GroupsFilled(rt: seq<int>, ig: bool, keys: seq<int>, groups: map<int, seq<int>>)
  {
    forall j :: 0 <= j < |keys| ==> keys[j] in groups && groups[keys[j]] == Group(rt, |rt|, ig, keys[j])
  }

  /** The second loop of AsGroups: each root is appended to its own group. */
  method AppendRoots(ghost rt: seq<int>, keys: seq<int>, groups: map<int, seq<int>>)
    returns (filled: map<int, seq<int>>)
    requires RootsAppended(rt, keys, groups, 0)
    ensures GroupsFilled(rt, true, keys, filled)
  {
    filled := groups;
    for k := 0 to |keys|
      invariant RootsAppended(rt, keys, filled, k)
    {
      AppendRootStep(rt, keys, filled, k);
      filled := filled[keys[k] := filled[keys[k]] + [keys[k]]];
    }
  }

  /** The last loop of AsGroups: the groups of the roots, in the order the roots were met. */
  method ListGroups(ghost rt: seq<int>, ig: bool, keys: seq<int>, groups: map<int, seq<int>>)
    returns (result: seq<seq<int>>)
    requires GroupsFilled(rt, ig, keys, groups)
    ensures result == GroupList(rt, |rt|, ig, keys)
  {
    result := [];
    for k := 0 to |keys|
      invariant result == GroupList(rt, |rt|, ig, keys[..k])
    {
      assert keys[..k + 1][..k] == keys[..k];
      result := result + [groups[keys[k]]];
    }
    assert keys[..|keys|] == keys;
  }

  /** No root is listed twice. */
  ghost predicate Distinct(ks: seq<int>)
  {
    forall j, k :: 0 <= j < k < |ks| ==> ks[j] != ks[k]
  }

  /** Strictly ascending. */
  ghost predicate Ascending(xs: seq<int>)
  {
    forall j, k :: 0 <= j < k < |xs| ==> xs[j] < xs[k]
  }

  /** The dictionary of AsGroups after its scan has taken the elements `0..i-1`. */
  ghost predicate ScanState(rt: seq<int>, i: int, ig: bool, keys: seq<int>, groups: map<int, seq<int>>)
  {
    0 <= i <= |rt| && keys == KeysUpTo(rt, i, ig)
    && (forall r :: r in groups <==> r in keys)
    && (forall r :: r in groups ==> groups[r] == MembersUpTo(rt, i, ig, r))
  }

  /** One step of the scan of AsGroups. */
  lemma ScanStep(rt: seq<int>, i: int, ig: bool, keys: seq<int>, groups: map<int, seq<int>>)
    requires ScanState(rt, i, ig, keys, groups) && i < |rt|
    ensures var r := rt[i];
      if Skipped(rt, i, ig) then ScanState(rt, i + 1, ig, keys, groups)
      else if r in groups then ScanState(rt, i + 1, ig, keys, groups[r := groups[r] + [i]])
      else ScanState(rt, i + 1, ig, keys + [r], groups[r := [i]])
  {
    KeysHaveMembers(rt, i, ig, rt[i]);
  }

  /** After the scan every key is filed with its group as it stands before roots are appended. */
  lemma ScanDone(rt: seq<int>, ig: bool, keys: seq<int>, groups: map<int, seq<int>>)
    requires ScanState(rt, |rt|, ig, keys, groups) && Distinct(keys)
    ensures ig ==> RootsAppended(rt, keys, groups, 0)
    ensures !ig ==> GroupsFilled(rt, ig, keys, groups)
  {
    forall j | 0 <= j < |keys| ensures keys[j] in groups && groups[keys[j]] == MembersUpTo(rt, |rt|, ig, keys[j]) {
      var r := keys[j];
      assert r in keys;
      assert r in groups;
      assert groups[r] == MembersUpTo(rt, |rt|, ig, r);
    }
  }

  /** The dictionary while roots are appended to the groups of `keys[..k]`. */
  ghost predicate RootsAppended(rt: seq<int>, keys: seq<int>, groups: map<int, seq<int>>, k: int)
  {
    0 <= k <= |keys| && Distinct(keys)
    && forall j :: 0 <= j < |keys| ==>
         keys[j] in groups && groups[keys[j]] == MembersUpTo(rt, |rt|, true, keys[j]) + (if j < k then [keys[j]] else [])
  }

  lemma AppendRootStep(rt: seq<int>, keys: seq<int>, groups: map<int, seq<int>>, k: int)
    requires RootsAppended(rt, keys, groups, k) && k < |keys|
    ensures RootsAppended(rt, keys, groups[keys[k] := groups[keys[k]] + [keys[k]]], k + 1)
  {
  }

  /** The scan of AsGroups leaves element `j` out. */
  predicate Skipped(rt: seq<int>, j: int, ig: bool)
    requires 0 <= j < |rt|
  {
    ig && rt[j] == j
  }

  /** The roots of the elements `0..i-1` the scan takes, in order of first appearance. */
  ghost function KeysUpTo(rt: seq<int>, i: int, ig: bool): seq<int>
    requires 0 <= i <= |rt|
  {
    if i == 0 then []
    else
      var ks := KeysUpTo(rt, i - 1, ig);
      if Skipped(rt, i - 1, ig) || rt[i - 1] in ks then ks else ks + [rt[i - 1]]
  }

  /** The elements among `0..i-1` the scan files under root `r`, in ascending order. */
  ghost function MembersUpTo(rt: seq<int>, i: int, ig: bool, r: int): seq<int>
    requires 0 <= i <= |rt|
  {
    if i == 0 then []
    else MembersUpTo(rt, i - 1, ig, r) + (if !Skipped(rt, i - 1, ig) && rt[i - 1] == r then [i - 1] else [])
  }

  /** The group of root `r`: its members, followed by `r` itself when roots were left out of the scan. */
  ghost function Group(rt: seq<int>, i: int, ig: bool, r: int): seq<int>
    requires 0 <= i <= |rt|
  {
    MembersUpTo(rt, i, ig, r) + (if ig then [r] else [])
  }

  /** The groups of the roots `ks`, in that order. */
  ghost function GroupList(rt: seq<int>, i: int, ig: bool, ks: seq<int>): (gs: seq<seq<int>>)
    requires 0 <= i <= |rt|
    ensures |gs| == |ks| && forall k {:trigger gs[k]} :: 0 <= k < |ks| ==> gs[k] == Group(rt, i, ig, ks[k])
  {
    if ks == [] then [] else GroupList(rt, i, ig, ks[..|ks| - 1]) + [Group(rt, i, ig, ks[|ks| - 1])]
  }

  /** What AsGroups returns for the roots `rt`. */
  ghost function Groups(rt: seq<int>, ig: bool): seq<seq<int>>
  {
    GroupList(rt, |rt|, ig, KeysUpTo(rt, |rt|, ig))
  }

  /** A root has been met by the scan exactly when it already has a member. */
  lemma {:induction false} KeysHaveMembers(rt: seq<int>, i: int, ig: bool, r: int)
    requires 0 <= i <= |rt|
    ensures r in KeysUpTo(rt, i, ig) <==> MembersUpTo(rt, i, ig, r) != []
  {
    if i > 0 {
      KeysHaveMembers(rt, i - 1, ig, r);
    }
  }

  /** Each root is met once. */
  lemma {:induction false} KeysDistinct(rt: seq<int>, i: int, ig: bool)
    requires 0 <= i <= |rt|
    ensures Distinct(KeysUpTo(rt, i, ig))
  {
    if i > 0 {
      KeysDistinct(rt, i - 1, ig);
      var ks := KeysUpTo(rt, i - 1, ig);
      if !(Skipped(rt, i - 1, ig) || rt[i - 1] in ks) {
        var ks' := ks + [rt[i - 1]];
        forall j, k | 0 <= j < k < |ks'| ensures ks'[j] != ks'[k] {
          assert ks'[j] == ks[j];
          if k == |ks| { assert ks[j] in ks; } else { assert ks'[k] == ks[k]; }
        }
      }
    }
  }

  /** Members of root `r`: exactly the elements the scan takes whose root is `r`, ascending. */
  lemma {:induction false} MembersExactly(rt: seq<int>, i: int, ig: bool, r: int)
    requires 0 <= i <= |rt|
    ensures forall x :: x in MembersUpTo(rt, i, ig, r) <==> 0 <= x < i && !Skipped(rt, x, ig) && rt[x] == r
    ensures Ascending(MembersUpTo(rt, i, ig, r))
  {
    if i > 0 {
      MembersExactly(rt, i - 1, ig, r);
      var ms := MembersUpTo(rt, i - 1, ig, r);
      if !Skipped(rt, i - 1, ig) && rt[i - 1] == r {
        var ms' := ms + [i - 1];
        forall j, k | 0 <= j < k < |ms'| ensures ms'[j] < ms'[k] {
          assert ms'[j] == ms[j] && ms[j] in ms;
          if k < |ms| { assert ms'[k] == ms[k]; }
        }
      }
    }
  }

  /** The roots met: exactly those of an element the scan takes. */
  lemma {:induction false} KeysExactly(rt: seq<int>, i: int, ig: bool, r: int)
    requires 0 <= i <= |rt|
    ensures r in KeysUpTo(rt, i, ig) <==> exists x :: 0 <= x < i && !Skipped(rt, x, ig) && rt[x] == r
  {
    KeysHaveMembers(rt, i, ig, r);
    MembersExactly(rt, i, ig, r);
    var ms := MembersUpTo(rt, i, ig, r);
    if ms != [] {
      assert ms[0] in ms;
    }
  }

  /** Every element's root is a root: it is its own root. */
  ghost predicate RootMap(rt: seq<int>)
  {
    forall i :: 0 <= i < |rt| ==> 0 <= rt[i] < |rt| && rt[rt[i]] == rt[i]
  }

  /** The roots of a forest form a root map. */
  lemma ForestRootMap(pa: seq<int>, rootOf: seq<int>, depth: seq<nat>)
    requires Forest(pa, rootOf, depth)
    ensures RootMap(rootOf)
  {
    forall i | 0 <= i < |rootOf| ensures rootOf[rootOf[i]] == rootOf[i] {
      var r := rootOf[i];
      assert pa[r] == r;
    }
  }

  /** Every group lists distinct elements, all of them in range and with the group's key as root. */
  lemma GroupsWellFormed(rt: seq<int>, ig: bool, k: int)
    requires RootMap(rt) && 0 <= k < |Groups(rt, ig)|
    ensures var g := Groups(rt, ig)[k];
      Distinct(g) && forall l :: 0 <= l < |g| ==> 0 <= g[l] < |rt| && rt[g[l]] == KeysUpTo(rt, |rt|, ig)[k]
  {
    var ks := KeysUpTo(rt, |rt|, ig);
    var r := ks[k];
    var g := Groups(rt, ig)[k];
    assert g == Group(rt, |rt|, ig, r);
    assert r in ks;
    forall l | 0 <= l < |g| ensures 0 <= g[l] < |rt| && rt[g[l]] == r {
      GroupMembers(rt, ig, r, g[l]);
    }
    if ig {
      IgnoredGroupShape(rt, k);
    } else {
      MembersExactly(rt, |rt|, ig, r);
    }
  }

  /**
   * Membership in a group, for either setting: `x` is in the group of key
   * `r` exactly when the root of `x` is `r`. Hence, without
   * `ignoreSingletons`, the groups partition `0..size-1` by root.
   */
  lemma GroupMembers(rt: seq<int>, ig: bool, r: int, x: int)
    requires RootMap(rt) && r in KeysUpTo(rt, |rt|, ig)
    ensures x in Group(rt, |rt|, ig, r) <==> 0 <= x < |rt| && rt[x] == r
  {
    KeysExactly(rt, |rt|, ig, r);
    MembersExactly(rt, |rt|, ig, r);
  }

  /** Without `ignoreSingletons` every element's root is a key. */
  lemma EveryRootGrouped(rt: seq<int>, x: int)
    requires 0 <= x < |rt|
    ensures rt[x] in KeysUpTo(rt, |rt|, false)
  {
    KeysExactly(rt, |rt|, false, rt[x]);
  }

  /** Without `ignoreSingletons`, `x` and `y` share a group exactly when they share a root. */
  lemma SameGroupIffSameRoot(rt: seq<int>, x: int, y: int)
    requires RootMap(rt) && 0 <= x < |rt| && 0 <= y < |rt|
    ensures (exists k :: 0 <= k < |Groups(rt, false)| && x in Groups(rt, false)[k] && y in Groups(rt, false)[k])
            <==> rt[x] == rt[y]
  {
    var ks := KeysUpTo(rt, |rt|, false);
    var gs := Groups(rt, false);
    if rt[x] == rt[y] {
      EveryRootGrouped(rt, x);
      var k :| 0 <= k < |ks| && ks[k] == rt[x];
      GroupMembers(rt, false, ks[k], x);
      GroupMembers(rt, false, ks[k], y);
      assert x in gs[k] && y in gs[k];
    }
    if exists k :: 0 <= k < |gs| && x in gs[k] && y in gs[k] {
      var k :| 0 <= k < |gs| && x in gs[k] && y in gs[k];
      GroupMembers(rt, false, ks[k], x);
      GroupMembers(rt, false, ks[k], y);
    }
  }

  /**
   * With `ignoreSingletons`, two different elements share a group exactly
   * when they share a root: one of them is not the root, so the scan takes
   * it and the root becomes a key.
   */
  lemma IgnoredSameGroupIffSameRoot(rt: seq<int>, x: int, y: int)
    requires RootMap(rt) && 0 <= x < |rt| && 0 <= y < |rt| && x != y
    ensures (exists k :: 0 <= k < |Groups(rt, true)| && x in Groups(rt, true)[k] && y in Groups(rt, true)[k])
            <==> rt[x] == rt[y]
  {
    var ks := KeysUpTo(rt, |rt|, true);
    var gs := Groups(rt, true);
    if rt[x] == rt[y] {
      var z := if rt[x] == x then y else x;
      assert !Skipped(rt, z, true) && rt[z] == rt[x];
      KeysExactly(rt, |rt|, true, rt[x]);
      var k :| 0 <= k < |ks| && ks[k] == rt[x];
      GroupMembers(rt, true, ks[k], x);
      GroupMembers(rt, true, ks[k], y);
      assert x in gs[k] && y in gs[k];
    }
    if exists k :: 0 <= k < |gs| && x in gs[k] && y in gs[k] {
      var k :| 0 <= k < |gs| && x in gs[k] && y in gs[k];
      GroupMembers(rt, true, ks[k], x);
      GroupMembers(rt, true, ks[k], y);
    }
  }

  /** The total size of a list of groups. */
  function TotalSize(gs: seq<seq<int>>): nat
  {
    if gs == [] then 0 else TotalSize(gs[..|gs| - 1]) + |gs[|gs| - 1]|
  }

  lemma {:induction false} TotalSizeStep(rt: seq<int>, i: int, ks: seq<int>)
    requires 0 < i <= |rt| && Distinct(ks)
    ensures TotalSize(GroupList(rt, i, false, ks))
         == TotalSize(GroupList(rt, i - 1, false, ks)) + (if rt[i - 1] in ks then 1 else 0)
    decreases |ks|
  {
    if ks != [] {
      var ks', last := ks[..|ks| - 1], ks[|ks| - 1];
      DistinctPrefix(ks);
      TotalSizeStep(rt, i, ks');
      GroupListAppend(rt, i, false, ks', last);
      GroupListAppend(rt, i - 1, false, ks', last);
      TotalSizeAppend(GroupList(rt, i, false, ks'), Group(rt, i, false, last));
      TotalSizeAppend(GroupList(rt, i - 1, false, ks'), Group(rt, i - 1, false, last));
      GroupSizeStep(rt, i, last);
      assert rt[i - 1] in ks <==> rt[i - 1] in ks' || rt[i - 1] == last;
    }
  }

  /** Scanning element `i - 1` adds it to the group of its own root only. */
  lemma GroupSizeStep(rt: seq<int>, i: int, r: int)
    requires 0 < i <= |rt|
    ensures |Group(rt, i, false, r)| == |Group(rt, i - 1, false, r)| + (if rt[i - 1] == r then 1 else 0)
  {
  }

  /** Dropping the last of distinct roots leaves distinct roots, none of them the dropped one. */
  lemma DistinctPrefix(ks: seq<int>)
    requires Distinct(ks) && ks != []
    ensures ks == ks[..|ks| - 1] + [ks[|ks| - 1]]
    ensures Distinct(ks[..|ks| - 1]) && ks[|ks| - 1] !in ks[..|ks| - 1]
  {
    var ks', last := ks[..|ks| - 1], ks[|ks| - 1];
    assert ks == ks' + [last];
    forall j, k | 0 <= j < k < |ks'| ensures ks'[j] != ks'[k] { assert ks'[j] == ks[j] && ks'[k] == ks[k]; }
    forall j | 0 <= j < |ks'| ensures ks'[j] != last { assert ks'[j] == ks[j]; }
  }

  /** The first element the scan meets with root `r` starts a group of its own. */
  lemma FirstMember(rt: seq<int>, i: int, r: int)
    requires 0 < i <= |rt| && rt[i - 1] == r && r !in KeysUpTo(rt, i - 1, false)
    ensures KeysUpTo(rt, i, false) == KeysUpTo(rt, i - 1, false) + [r]
    ensures Group(rt, i, false, r) == [i - 1]
  {
    KeysHaveMembers(rt, i - 1, false, r);
  }

  lemma TotalSizeAppend(gs: seq<seq<int>>, g: seq<int>)
    ensures TotalSize(gs + [g]) == TotalSize(gs) + |g|
  {
    assert (gs + [g])[..|gs|] == gs;
  }

  /** The number of elements in the groups of the first `i` elements of the scan. */
  ghost function PrefixSize(rt: seq<int>, i: int): nat
    requires 0 <= i <= |rt|
  {
    TotalSize(GroupList(rt, i, false, KeysUpTo(rt, i, false)))
  }

  lemma {:induction false} TotalSizePrefix(rt: seq<int>, i: int)
    requires 0 <= i <= |rt|
    decreases i
    ensures PrefixSize(rt, i) == i
  {
    if i == 0 {
      NoKeysNoGroups(rt);
    } else {
      TotalSizePrefix(rt, i - 1);
      PrefixSizeStep(rt, i);
    }
  }

  /** Scanning one more element adds one to the total size of the groups. */
  lemma PrefixSizeStep(rt: seq<int>, i: int)
    requires 0 < i <= |rt|
    requires PrefixSize(rt, i - 1) == i - 1
    ensures PrefixSize(rt, i) == i
  {
    if rt[i - 1] in KeysUpTo(rt, i - 1, false) {
      KnownRootSize(rt, i);
    } else {
      NewRootSize(rt, i);
    }
  }

  lemma NoKeysNoGroups(rt: seq<int>)
    ensures PrefixSize(rt, 0) == 0
  {
    assert KeysUpTo(rt, 0, false) == [];
  }

  /** An element whose root was met before joins that root's group. */
  lemma KnownRootSize(rt: seq<int>, i: int)
    requires 0 < i <= |rt|
    requires PrefixSize(rt, i - 1) == i - 1
    requires rt[i - 1] in KeysUpTo(rt, i - 1, false)
    ensures PrefixSize(rt, i) == i
  {
    KeysStepSize(rt, i);
    KnownRootKeepsKeys(rt, i);
  }

  /** An element whose root was not met before starts a new group of one. */
  lemma NewRootSize(rt: seq<int>, i: int)
    requires 0 < i <= |rt|
    requires PrefixSize(rt, i - 1) == i - 1
    requires rt[i - 1] !in KeysUpTo(rt, i - 1, false)
    ensures PrefixSize(rt, i) == i
  {
    var ks := KeysUpTo(rt, i - 1, false);
    var r := rt[i - 1];
    KeysStepSize(rt, i);
    FirstMember(rt, i, r);
    GroupListAppend(rt, i, false, ks, r);
    TotalSizeAppend(GroupList(rt, i, false, ks), Group(rt, i, false, r));
  }

  /** Scanning element `i - 1` adds it to one of the groups of the roots met before it, if its root is one of them. */
  lemma KeysStepSize(rt: seq<int>, i: int)
    requires 0 < i <= |rt|
    ensures TotalSize(GroupList(rt, i, false, KeysUpTo(rt, i - 1, false)))
         == TotalSize(GroupList(rt, i - 1, false, KeysUpTo(rt, i - 1, false)))
            + (if rt[i - 1] in KeysUpTo(rt, i - 1, false) then 1 else 0)
  {
    KeysDistinct(rt, i - 1, false);
    TotalSizeStep(rt, i, KeysUpTo(rt, i - 1, false));
  }

  lemma KnownRootKeepsKeys(rt: seq<int>, i: int)
    requires 0 < i <= |rt| && rt[i - 1] in KeysUpTo(rt, i - 1, false)
    ensures KeysUpTo(rt, i, false) == KeysUpTo(rt, i - 1, false)
  {
  }

  lemma GroupListAppend(rt: seq<int>, i: int, ig: bool, ks: seq<int>, r: int)
    requires 0 <= i <= |rt|
    ensures GroupList(rt, i, ig, ks + [r]) == GroupList(rt, i, ig, ks) + [Group(rt, i, ig, r)]
  {
    assert (ks + [r])[..|ks|] == ks;
  }

  /** Without `ignoreSingletons`, the group sizes add up to the number of elements. */
  lemma GroupsTotal(rt: seq<int>)
    ensures TotalSize(Groups(rt, false)) == |rt|
  {
    TotalSizePrefix(rt, |rt|);
  }

  /**
   * With `ignoreSingletons`, a group is its non-root members in ascending
   * order followed by its root, so it holds at least two elements.
   */
  lemma IgnoredGroupShape(rt: seq<int>, k: int)
    requires RootMap(rt) && 0 <= k < |KeysUpTo(rt, |rt|, true)|
    ensures var r := KeysUpTo(rt, |rt|, true)[k];
      var g := Groups(rt, true)[k];
      |g| >= 2 && g[|g| - 1] == r
      && (forall j :: 0 <= j < |g| - 1 ==> 0 <= g[j] < |rt| && rt[g[j]] == r && g[j] != r)
      && (forall j, l :: 0 <= j < l < |g| - 1 ==> g[j] < g[l])
  {
    var ks := KeysUpTo(rt, |rt|, true);
    var r := ks[k];
    KeysHaveMembers(rt, |rt|, true, r);
    MembersExactly(rt, |rt|, true, r);
    var ms := MembersUpTo(rt, |rt|, true, r);
    var g := Groups(rt, true)[k];
    assert g == ms + [r];
    forall j | 0 <= j < |g| - 1 ensures 0 <= g[j] < |rt| && rt[g[j]] == r && g[j] != r {
      assert g[j] == ms[j] && ms[j] in ms;
    }
  }

  /** With `ignoreSingletons`, an element that is alone in its component is in no group. */
  lemma LoneElementUngrouped(rt: seq<int>, x: int)
    requires RootMap(rt) && 0 <= x < |rt|
    requires forall y :: 0 <= y < |rt| && rt[y] == rt[x] ==> y == x
    ensures forall k :: 0 <= k < |Groups(rt, true)| ==> x !in Groups(rt, true)[k]
  {
    var ks := KeysUpTo(rt, |rt|, true);
    assert rt[rt[x]] == rt[x];
    assert rt[x] == x;
    assert |Groups(rt, true)| == |ks|;
    forall k | 0 <= k < |ks| ensures x !in Groups(rt, true)[k] {
      var r := ks[k];
      KeysExactly(rt, |rt|, true, r);
      GroupMembers(rt, true, r, x);
    }
  }
}
