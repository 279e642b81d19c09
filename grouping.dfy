/**
 * The grouping step of DedupEngine.cs: the similarity bar becomes a distance
 * threshold, and BuildImageGroups joins, through a vantage-point tree and a
 * union-find structure, every two images closer than that threshold. Its
 * groups are the connected components of the graph whose edges are those
 * close pairs.
 */
module ImageGrouping {
  import opened Hamming
  import opened MappedImages
  import opened VpTrees
  import opened DisjointSets

  /**
   * Math.Round of the quotient `n / d`: the nearest integer, a tie going to
   * the even one (MidpointRounding.ToEven, the default of Math.Round).
   */
  function RoundHalfEven(n: int, d: int): (r: int)
    requires d > 0
    ensures -d <= 2 * (n - r * d) <= d
    ensures (2 * (n - r * d) == d || 2 * (n - r * d) == -d) ==> r % 2 == 0
  {
    var q := n / d;
    var rem := n % d;
    assert n == q * d + rem;
    if 2 * rem < d then q
    else if 2 * rem > d then
      assert n - (q + 1) * d == rem - d;
      q + 1
    else if q % 2 == 0 then q
    else
      assert n - (q + 1) * d == rem - d;
      q + 1
  }

  /**
   * The maxDistance of BuildImageGroups and DedupCopyAsync:
   * `64 - (int)Math.Round(64 * similarityBar / 100.0) + 1`, where the product
   * is an `int` product.
   */
  function MaxDistance(similarityBar: int): int
  {
    64 - RoundHalfEven(Int32Mul(64, similarityBar), 100) + 1
  }

  /**
   * `64 * s / 100` is never halfway between two integers (that would need
   * `32 * s` to be odd), so the rounding mode does not matter and the
   * threshold has the integer form `65 - (32 * s + 25) / 50`.
   */
  lemma MaxDistanceClosedForm(s: int)
    requires -0x200_0000 <= s < 0x200_0000
    ensures MaxDistance(s) == 65 - (32 * s + 25) / 50
  {
    assert Int32Mul(64, s) == 64 * s;
    RoundWithoutTie(s);
  }

  lemma RoundWithoutTie(s: int)
    ensures RoundHalfEven(64 * s, 100) == (32 * s + 25) / 50
  {
    var r := RoundHalfEven(64 * s, 100);
    // 64 * s - 100 * r lies in [-50, 50] and is twice the even number 32 * s - 50 * r, so never -50 or 50.
    var h := 16 * s - 25 * r;
    assert 64 * s - r * 100 == 4 * h;
    assert -25 < 2 * h < 25;
    QuotientBetween(32 * s + 25, r);
  }

  /** The quotient by 50 of a number strictly between two consecutive multiples of 50. */
  lemma QuotientBetween(a: int, r: int)
    requires 50 * r < a < 50 * r + 50
    ensures a / 50 == r
  {
    var k := a / 50;
    assert a == 50 * k + a % 50;
  }

  /** The thresholds of the bars 100, 99, 90 and 0. */
  lemma MaxDistanceSamples()
    ensures MaxDistance(100) == 1
    ensures MaxDistance(99) == 2
    ensures MaxDistance(90) == 7
    ensures MaxDistance(0) == 65
  {
    MaxDistanceClosedForm(100);
    MaxDistanceClosedForm(99);
    MaxDistanceClosedForm(90);
    MaxDistanceClosedForm(0);
  }

  /**
   * What the threshold means: two hashes `d` bits apart are close enough
   * exactly when their `64 - d` equal bits reach `similarityBar` percent of 64
   * bits, less half a bit for the rounding.
   */
  lemma ThresholdMeaning(similarityBar: int, d: int)
    requires -0x200_0000 <= similarityBar < 0x200_0000
    ensures d < MaxDistance(similarityBar) <==> 64 * similarityBar < 100 * (64 - d) + 50
  {
    MaxDistanceClosedForm(similarityBar);
    var a := 32 * similarityBar + 25;
    var k := a / 50;
    assert a == 50 * k + a % 50;
  }

  /** A higher bar never allows a larger distance. */
  lemma MaxDistanceAntitone(s: int, t: int)
    requires -0x200_0000 <= s <= t < 0x200_0000
    ensures MaxDistance(t) <= MaxDistance(s)
  {
    MaxDistanceClosedForm(s);
    MaxDistanceClosedForm(t);
    var a, b := 32 * s + 25, 32 * t + 25;
    assert a == 50 * (a / 50) + a % 50 && b == 50 * (b / 50) + b % 50;
  }

  /** ImageDiff on photos is a metric on every sequence of photos, as the tree needs. */
  lemma PhotoDiffMetric(xs: seq<Photo>)
    ensures MetricOn(PhotoDiff, xs)
  {
    forall i, j | 0 <= i < |xs| && 0 <= j < |xs| ensures PhotoDiff(xs[i], xs[j]) == PhotoDiff(xs[j], xs[i]) {
      ImageDiffSymmetric(xs[i].hash, xs[j].hash);
    }
    forall i | 0 <= i < |xs| ensures PhotoDiff(xs[i], xs[i]) == 0 {
      ImageDiffZero(xs[i].hash, xs[i].hash);
    }
    forall i, j, k | 0 <= i < |xs| && 0 <= j < |xs| && 0 <= k < |xs|
      ensures PhotoDiff(xs[i], xs[k]) <= PhotoDiff(xs[i], xs[j]) + PhotoDiff(xs[j], xs[k])
    {
      ImageDiffTriangle(xs[i].hash, xs[j].hash, xs[k].hash);
    }
  }

  /** The ids are the positions, as ImageHasher sets them: what BuildImageGroups relies on. */
  predicate DenseIds(xs: seq<Photo>)
  {
    forall i :: 0 <= i < |xs| ==> xs[i].id == i
  }

  /** Positions `i` and `j` hold photos closer than `m`: an edge of the similarity graph. */
  ghost predicate Edge(xs: seq<Photo>, m: int, i: int, j: int)
  {
    0 <= i < |xs| && 0 <= j < |xs| && PhotoDiff(xs[i], xs[j]) < m
  }

  /** The `k`-th step of `p` is an edge. */
  ghost predicate Hop(xs: seq<Photo>, m: int, p: seq<int>, k: int)
  {
    0 <= k < |p| - 1 && Edge(xs, m, p[k], p[k + 1])
  }

  /** `p` is a walk in the similarity graph: positions, each an edge away from the next. */
  ghost predicate IsPath(xs: seq<Photo>, m: int, p: seq<int>)
  {
    |p| > 0 && (forall k :: 0 <= k < |p| ==> 0 <= p[k] < |xs|)
    && forall k :: 0 <= k < |p| - 1 ==> Hop(xs, m, p, k)
  }

  /** A chain of close pairs links position `i` to position `j`. */
  ghost predicate Connected(xs: seq<Photo>, m: int, i: int, j: int)
  {
    exists p :: IsPath(xs, m, p) && p[0] == i && p[|p| - 1] == j
  }

  lemma ConnectedRefl(xs: seq<Photo>, m: int, i: int)
    requires 0 <= i < |xs|
    ensures Connected(xs, m, i, i)
  {
    assert IsPath(xs, m, [i]);
  }

  lemma ConnectedEdge(xs: seq<Photo>, m: int, i: int, j: int)
    requires Edge(xs, m, i, j)
    ensures Connected(xs, m, i, j)
  {
    assert Hop(xs, m, [i, j], 0);
    assert IsPath(xs, m, [i, j]);
  }

  lemma ConnectedSymmetric(xs: seq<Photo>, m: int, i: int, j: int)
    requires Connected(xs, m, i, j)
    ensures Connected(xs, m, j, i)
  {
    var p :| IsPath(xs, m, p) && p[0] == i && p[|p| - 1] == j;
    var q := Reversed(p);
    forall k | 0 <= k < |q| - 1 ensures Hop(xs, m, q, k) {
      ReversedHop(xs, m, p, q, k);
    }
    assert IsPath(xs, m, q);
  }

  /** `p` backwards. */
  function Reversed(p: seq<int>): (q: seq<int>)
    ensures |q| == |p| && forall k :: 0 <= k < |p| ==> q[k] == p[|p| - 1 - k]
  {
    if p == [] then [] else Reversed(p[1..]) + [p[0]]
  }

  /** A step of a walk, taken backwards, is a step of the reversed walk. */
  lemma ReversedHop(xs: seq<Photo>, m: int, p: seq<int>, q: seq<int>, k: int)
    requires IsPath(xs, m, p) && q == Reversed(p) && 0 <= k < |q| - 1
    ensures Hop(xs, m, q, k)
  {
    assert q[k] == p[|p| - 1 - k] && q[k + 1] == p[|p| - 2 - k];
    assert Hop(xs, m, p, |p| - 2 - k);
    ImageDiffSymmetric(xs[q[k]].hash, xs[q[k + 1]].hash);
  }

  lemma ConnectedTransitive(xs: seq<Photo>, m: int, i: int, j: int, k: int)
    requires Connected(xs, m, i, j) && Connected(xs, m, j, k)
    ensures Connected(xs, m, i, k)
  {
    var p :| IsPath(xs, m, p) && p[0] == i && p[|p| - 1] == j;
    var q :| IsPath(xs, m, q) && q[0] == j && q[|q| - 1] == k;
    var w := p + q[1..];
    forall l | 0 <= l < |w| - 1 ensures Hop(xs, m, w, l) {
      if l < |p| - 1 {
        assert w[l] == p[l] && w[l + 1] == p[l + 1];
        assert Hop(xs, m, p, l);
      } else {
        assert w[l] == q[l - |p| + 1] && w[l + 1] == q[l - |p| + 2];
        assert Hop(xs, m, q, l - |p| + 1);
      }
    }
    assert IsPath(xs, m, w);
  }

  /** Marks that every edge respects: equal at both ends of each edge. */
  ghost predicate EdgeClosed(xs: seq<Photo>, m: int, marks: seq<int>)
  {
    |marks| == |xs| && forall a, b :: Edge(xs, m, a, b) ==> marks[a] == marks[b]
  }

  lemma {:induction false} PathKeepsMarks(xs: seq<Photo>, m: int, marks: seq<int>, p: seq<int>)
    requires EdgeClosed(xs, m, marks) && IsPath(xs, m, p)
    ensures marks[p[|p| - 1]] == marks[p[0]]
    decreases |p|
  {
    if |p| > 1 {
      var p' := p[..|p| - 1];
      assert IsPath(xs, m, p') by {
        forall k | 0 <= k < |p'| - 1 ensures Hop(xs, m, p', k) {
          assert p'[k] == p[k] && p'[k + 1] == p[k + 1];
          assert Hop(xs, m, p, k);
        }
      }
      PathKeepsMarks(xs, m, marks, p');
      assert Hop(xs, m, p, |p| - 2);
    }
  }

  /** Connectivity is the finest relation that joins every edge: marks that every edge respects are equal on connected positions. */
  lemma ConnectedKeepsMarks(xs: seq<Photo>, m: int, marks: seq<int>, i: int, j: int)
    requires EdgeClosed(xs, m, marks) && Connected(xs, m, i, j)
    ensures marks[i] == marks[j]
  {
    var p :| IsPath(xs, m, p) && p[0] == i && p[|p| - 1] == j;
    PathKeepsMarks(xs, m, marks, p);
  }

  /** Elements sharing a root are connected. */
  ghost predicate Sound(xs: seq<Photo>, m: int, rt: seq<int>)
  {
    |rt| == |xs| && forall x, y :: 0 <= x < |rt| && 0 <= y < |rt| && rt[x] == rt[y] ==> Connected(xs, m, x, y)
  }

  /** Every edge leaving one of the positions `0..k-1` joins two elements with one root. */
  ghost predicate Complete(xs: seq<Photo>, m: int, rt: seq<int>, k: int)
  {
    |rt| == |xs| && forall i, j :: 0 <= i < k && Edge(xs, m, i, j) ==> rt[i] == rt[j]
  }

  lemma UnionKeepsSound(xs: seq<Photo>, m: int, rt: seq<int>, rt': seq<int>, a: int, b: int)
    requires Sound(xs, m, rt) && MergedComponents(rt, rt', a, b) && Connected(xs, m, a, b)
    ensures Sound(xs, m, rt')
  {
    forall x, y | 0 <= x < |rt'| && 0 <= y < |rt'| && rt'[x] == rt'[y] ensures Connected(xs, m, x, y) {
      if rt[x] == rt[y] {
      } else if rt[x] == rt[a] && rt[y] == rt[b] {
        ConnectedTransitive(xs, m, x, a, b);
        ConnectedTransitive(xs, m, x, b, y);
      } else {
        assert rt[x] == rt[b] && rt[y] == rt[a];
        ConnectedSymmetric(xs, m, a, b);
        ConnectedTransitive(xs, m, x, b, a);
        ConnectedTransitive(xs, m, x, a, y);
      }
    }
  }

  lemma UnionKeepsComplete(xs: seq<Photo>, m: int, rt: seq<int>, rt': seq<int>, a: int, b: int, k: int)
    requires Complete(xs, m, rt, k) && MergedComponents(rt, rt', a, b)
    ensures Complete(xs, m, rt', k)
  {
  }

  /** Sound and complete over all positions: the roots are exactly the connected components. */
  lemma RootsAreComponents(xs: seq<Photo>, m: int, rt: seq<int>)
    requires Sound(xs, m, rt) && Complete(xs, m, rt, |xs|)
    ensures forall i, j :: 0 <= i < |xs| && 0 <= j < |xs| ==> (rt[i] == rt[j] <==> Connected(xs, m, i, j))
  {
    forall i, j | 0 <= i < |xs| && 0 <= j < |xs| && Connected(xs, m, i, j) ensures rt[i] == rt[j] {
      ConnectedKeepsMarks(xs, m, rt, i, j);
    }
  }

  /** Every group's ids are positions of the photo array. */
  ghost predicate IdsInRange(gs: seq<seq<int>>, n: int)
  {
    forall k, l :: 0 <= k < |gs| && 0 <= l < |gs[k]| ==> 0 <= gs[k][l] < n
  }

  /** `ids.Select(id => mappedImages[id])`. */
  function MapIds(xs: seq<Photo>, ids: seq<int>): (r: seq<Photo>)
    requires forall k :: 0 <= k < |ids| ==> 0 <= ids[k] < |xs|
    ensures |r| == |ids| && forall k :: 0 <= k < |ids| ==> r[k] == xs[ids[k]]
  {
    if ids == [] then [] else [xs[ids[0]]] + MapIds(xs, ids[1..])
  }

  /** The groups of ids as groups of photos. */
  function MapGroups(xs: seq<Photo>, gs: seq<seq<int>>): (r: seq<seq<Photo>>)
    requires IdsInRange(gs, |xs|)
    ensures |r| == |gs| && forall k :: 0 <= k < |gs| ==> r[k] == MapIds(xs, gs[k])
  {
    if gs == [] then [] else [MapIds(xs, gs[0])] + MapGroups(xs, gs[1..])
  }

  /**
   * What BuildImageGroups returns: for a root map `rt` whose components are
   * exactly the connected components of the similarity graph, the groups of
   * AsGroups turned into photos.
   */
  ghost predicate Grouping(xs: seq<Photo>, m: int, ig: bool, rt: seq<int>, groups: seq<seq<Photo>>)
  {
    |rt| == |xs| && RootMap(rt)
    && (forall i, j :: 0 <= i < |xs| && 0 <= j < |xs| ==> (rt[i] == rt[j] <==> Connected(xs, m, i, j)))
    && IdsInRange(Groups(rt, ig), |xs|)
    && groups == MapGroups(xs, Groups(rt, ig))
  }

  /** Under dense ids, a photo found in the array is the photo at the position of its id. */
  lemma PhotoAtId(xs: seq<Photo>, x: Photo)
    requires DenseIds(xs) && x in xs
    ensures 0 <= x.id < |xs| && xs[x.id] == x
  {
    var j :| 0 <= j < |xs| && xs[j] == x;
  }

  /** The matches of a search: photos of the array within `m` of the photo at `i`, paired with their distance. */
  ghost predicate Matches(xs: seq<Photo>, m: int, i: int, matches: seq<(Photo, int)>)
  {
    forall l :: 0 <= l < |matches| ==> 0 <= matches[l].0.id < |xs| && xs[matches[l].0.id] == matches[l].0
                                       && Edge(xs, m, i, matches[l].0.id)
  }

  /** What the tree search yields, read back on the original array. */
  lemma SearchMatches(xs: seq<Photo>, items: seq<Photo>, m: int, i: int, matches: seq<(Photo, int)>)
    requires DenseIds(xs) && multiset(items) == multiset(xs) && 0 <= i < |xs|
    requires forall l :: 0 <= l < |matches| ==>
               matches[l].0 in items && matches[l].1 == PhotoDiff(matches[l].0, xs[i]) && matches[l].1 < m
    requires forall x :: x in items && PhotoDiff(x, xs[i]) < m ==> (x, PhotoDiff(x, xs[i])) in matches
    ensures Matches(xs, m, i, matches)
    ensures forall j :: Edge(xs, m, i, j) ==> exists l :: 0 <= l < |matches| && matches[l].0.id == j
  {
    forall l | 0 <= l < |matches|
      ensures 0 <= matches[l].0.id < |xs| && xs[matches[l].0.id] == matches[l].0 && Edge(xs, m, i, matches[l].0.id)
    {
      var x := matches[l].0;
      assert x in multiset(items);
      PhotoAtId(xs, x);
      ImageDiffSymmetric(x.hash, xs[i].hash);
    }
    forall j | Edge(xs, m, i, j) ensures exists l :: 0 <= l < |matches| && matches[l].0.id == j {
      var x := xs[j];
      assert x in multiset(xs);
      ImageDiffSymmetric(x.hash, xs[i].hash);
      assert (x, PhotoDiff(x, xs[i])) in matches;
      var l :| 0 <= l < |matches| && matches[l] == (x, PhotoDiff(x, xs[i]));
    }
  }

  /** BuildImageGroups's union-find state after the photos `0..i-1`: sound, and complete for their edges. */
  ghost predicate Joined(xs: seq<Photo>, m: int, rt: seq<int>, i: int)
  {
    Sound(xs, m, rt) && Complete(xs, m, rt, i)
  }

  /** While the matches of photo `i` are unioned: the first `k` of them share its root. */
  ghost predicate RowJoined(rt: seq<int>, i: int, matches: seq<(Photo, int)>, k: int)
  {
    0 <= i < |rt| && 0 <= k <= |matches|
    && forall l :: 0 <= l < k ==> 0 <= matches[l].0.id < |rt| && rt[i] == rt[matches[l].0.id]
  }

  /** Before any union every element is its own root. */
  lemma InitiallyJoined(xs: seq<Photo>, m: int)
    ensures Joined(xs, m, seq(|xs|, i => i), 0)
  {
    var rt := seq(|xs|, i => i);
    forall x, y | 0 <= x < |rt| && 0 <= y < |rt| && rt[x] == rt[y] ensures Connected(xs, m, x, y) {
      ConnectedRefl(xs, m, x);
    }
  }

  /** The union of photo `i` with its `k`-th match. */
  lemma UnionStep(xs: seq<Photo>, m: int, rt: seq<int>, rt': seq<int>, i: int, matches: seq<(Photo, int)>, k: int)
    requires Joined(xs, m, rt, i) && RowJoined(rt, i, matches, k) && k < |matches| && Matches(xs, m, i, matches)
    requires MergedComponents(rt, rt', i, matches[k].0.id)
    ensures Joined(xs, m, rt', i) && RowJoined(rt', i, matches, k + 1)
  {
    var j := matches[k].0.id;
    assert Edge(xs, m, i, j);
    UnionKeepsJoined(xs, m, rt, rt', i, j);
    UnionKeepsRow(rt, rt', i, matches, k);
  }

  /** Uniting the two ends of an edge keeps the components of the roots those of the graph. */
  lemma UnionKeepsJoined(xs: seq<Photo>, m: int, rt: seq<int>, rt': seq<int>, i: int, j: int)
    requires Joined(xs, m, rt, i) && Edge(xs, m, i, j) && MergedComponents(rt, rt', i, j)
    ensures Joined(xs, m, rt', i)
  {
    ConnectedEdge(xs, m, i, j);
    UnionKeepsSound(xs, m, rt, rt', i, j);
    UnionKeepsComplete(xs, m, rt, rt', i, j, i);
  }

  /** Uniting photo `i` with its `k`-th match keeps the earlier matches with it and adds that one. */
  lemma UnionKeepsRow(rt: seq<int>, rt': seq<int>, i: int, matches: seq<(Photo, int)>, k: int)
    requires RowJoined(rt, i, matches, k) && k < |matches| && MergedComponents(rt, rt', i, matches[k].0.id)
    ensures RowJoined(rt', i, matches, k + 1)
  {
  }

  /** Once every match of photo `i` is unioned, every edge leaving `i` is joined. */
  lemma RowDone(xs: seq<Photo>, m: int, rt: seq<int>, i: int, matches: seq<(Photo, int)>)
    requires Joined(xs, m, rt, i) && RowJoined(rt, i, matches, |matches|)
    requires forall j :: Edge(xs, m, i, j) ==> exists l :: 0 <= l < |matches| && matches[l].0.id == j
    ensures Joined(xs, m, rt, i + 1)
  {
    forall a, b | 0 <= a < i + 1 && Edge(xs, m, a, b) ensures rt[a] == rt[b] {
      if a == i {
        var l :| 0 <= l < |matches| && matches[l].0.id == b;
      }
    }
  }

  /** The groups of ids AsGroups returns, turned into a Grouping. */
  lemma GroupingAtEnd(xs: seq<Photo>, m: int, ig: bool, pa: seq<int>, rt: seq<int>, depth: seq<nat>)
    requires Forest(pa, rt, depth) && Joined(xs, m, rt, |xs|)
    ensures IdsInRange(Groups(rt, ig), |xs|) && Grouping(xs, m, ig, rt, MapGroups(xs, Groups(rt, ig)))
  {
    RootsAreComponents(xs, m, rt);
    ForestRootMap(pa, rt, depth);
    var gs := Groups(rt, ig);
    forall k | 0 <= k < |gs| ensures forall l :: 0 <= l < |gs[k]| ==> 0 <= gs[k][l] < |xs| {
      GroupsWellFormed(rt, ig, k);
    }
  }

  /**
   * BuildImageGroups: a tree over a copy of the photos, so that `mappedImages`
   * keeps its order; a union for every photo and every photo the tree finds
   * within `maxDistance` of it; then the groups of the union-find structure,
   * mapped back from ids to photos. The groups are those of a root map whose
   * components are exactly the connected components of the similarity graph.
   */
  method BuildImageGroups(mappedImages: array<Photo>, similarityBar: int, ignoreSingletons: bool)
    returns (imageGroups: seq<seq<Photo>>, ghost rt: seq<int>)
    requires DenseIds(mappedImages[..])
    ensures Grouping(mappedImages[..], MaxDistance(similarityBar), ignoreSingletons, rt, imageGroups)
  {
    ghost var xs := mappedImages[..];
    var n := mappedImages.Length;
    var maxDistance := MaxDistance(similarityBar);
    var imageTree := BuildTree(mappedImages);
    var dsu := new DisjointSetUnion(n);
    assert dsu.rootOf == seq(n, i => i);
    InitiallyJoined(xs, maxDistance);
    JoinAll(mappedImages, imageTree, dsu, maxDistance);
    var groupIds := dsu.AsGroups(ignoreSingletons);
    rt := dsu.rootOf;
    GroupingAtEnd(xs, maxDistance, ignoreSingletons, dsu.pa[..], rt, dsu.depth);
    imageGroups := MapGroups(mappedImages[..], groupIds);
  }

  /** The outer loop of BuildImageGroups: one JoinRow per photo, in id order. */
  method JoinAll(mappedImages: array<Photo>, imageTree: VpTree<Photo>, dsu: DisjointSetUnion, maxDistance: int)
    requires DenseIds(mappedImages[..])
    requires imageTree.Valid() && imageTree.calculateDistance == PhotoDiff
    requires multiset(imageTree.items[..]) == multiset(mappedImages[..])
    requires dsu.Valid() && dsu.pa.Length == mappedImages.Length
    requires Joined(mappedImages[..], maxDistance, dsu.rootOf, 0)
    modifies dsu, dsu.pa
    ensures dsu.Valid() && Joined(mappedImages[..], maxDistance, dsu.rootOf, mappedImages.Length)
  {
    for i := 0 to mappedImages.Length
      modifies dsu, dsu.pa
      invariant dsu.Valid() && dsu.pa.Length == mappedImages.Length
      invariant imageTree.Valid()
      invariant Joined(mappedImages[..], maxDistance, dsu.rootOf, i)
    {
      JoinRow(mappedImages, imageTree, dsu, maxDistance, i);
    }
  }

  /** `new VPTree<MappedImage>(mappedImages.Clone(), ImageDiff)`: a tree over a fresh copy of the photos. */
  method BuildTree(mappedImages: array<Photo>) returns (imageTree: VpTree<Photo>)
    ensures fresh(imageTree) && fresh(imageTree.items)
    ensures imageTree.Valid() && imageTree.calculateDistance == PhotoDiff
    ensures multiset(imageTree.items[..]) == multiset(mappedImages[..])
  {
    var n := mappedImages.Length;
    var copy := new Photo[n](i requires 0 <= i < n reads mappedImages => mappedImages[i]);
    assert copy[..] == mappedImages[..];
    imageTree := new VpTree<Photo>(copy, PhotoDiff);
  }

  /**
   * One pass of the outer loop of BuildImageGroups: the photos the tree finds
   * within `maxDistance` of photo `i`, each unioned with it. Afterwards every
   * edge leaving `0..i` is joined.
   */
  method JoinRow(mappedImages: array<Photo>, imageTree: VpTree<Photo>, dsu: DisjointSetUnion, maxDistance: int, i: int)
    requires DenseIds(mappedImages[..]) && 0 <= i < mappedImages.Length
    requires imageTree.Valid() && imageTree.calculateDistance == PhotoDiff
    requires multiset(imageTree.items[..]) == multiset(mappedImages[..])
    requires dsu.Valid() && dsu.pa.Length == mappedImages.Length
    requires Joined(mappedImages[..], maxDistance, dsu.rootOf, i)
    modifies dsu, dsu.pa
    ensures dsu.Valid() && Joined(mappedImages[..], maxDistance, dsu.rootOf, i + 1)
  {
    ghost var xs := mappedImages[..];
    var matches := FindMatches(mappedImages, imageTree, maxDistance, i);
    UnionAll(dsu, xs, maxDistance, i, mappedImages[i], matches);
    RowDone(xs, maxDistance, dsu.rootOf, i, matches);
  }

  /** The tree search for photo `i`: exactly its neighbours in the similarity graph, read back by id. */
  method FindMatches(mappedImages: array<Photo>, imageTree: VpTree<Photo>, maxDistance: int, i: int)
    returns (matches: seq<(Photo, int)>)
    requires DenseIds(mappedImages[..]) && 0 <= i < mappedImages.Length
    requires imageTree.Valid() && imageTree.calculateDistance == PhotoDiff
    requires multiset(imageTree.items[..]) == multiset(mappedImages[..])
    ensures Matches(mappedImages[..], maxDistance, i, matches)
    ensures forall j :: Edge(mappedImages[..], maxDistance, i, j) ==> exists l :: 0 <= l < |matches| && matches[l].0.id == j
  {
    var item := mappedImages[i];
    matches := imageTree.SearchByMaxDist(item, maxDistance);
    PhotoDiffMetric(imageTree.items[..] + [item]);
    SearchMatches(mappedImages[..], imageTree.items[..], maxDistance, i, matches);
  }

  /** The inner loop of BuildImageGroups: `Union(item.Id, match.Id)` for each match of `item`, the photo at `i`. */
  method UnionAll(dsu: DisjointSetUnion, ghost xs: seq<Photo>, ghost maxDistance: int, ghost i: int, item: Photo,
                  matches: seq<(Photo, int)>)
    requires dsu.Valid() && dsu.pa.Length == |xs| && 0 <= i < |xs|
    requires DenseIds(xs) && item == xs[i]
    requires Joined(xs, maxDistance, dsu.rootOf, i) && Matches(xs, maxDistance, i, matches)
    modifies dsu, dsu.pa
    ensures dsu.Valid() && Joined(xs, maxDistance, dsu.rootOf, i) && RowJoined(dsu.rootOf, i, matches, |matches|)
  {
    for k := 0 to |matches|
      modifies dsu, dsu.pa
      invariant dsu.Valid() && dsu.pa.Length == |xs|
      invariant Joined(xs, maxDistance, dsu.rootOf, i) && RowJoined(dsu.rootOf, i, matches, k)
    {
      ghost var before := dsu.rootOf;
      dsu.Union(item.id, matches[k].0.id);
      UnionStep(xs, maxDistance, before, dsu.rootOf, i, matches, k);
    }
  }

  /** Under dense ids, a photo is in a mapped group exactly when its position is in the group of ids. */
  lemma MappedMember(xs: seq<Photo>, g: seq<int>, x: int)
    requires DenseIds(xs) && 0 <= x < |xs| && forall k :: 0 <= k < |g| ==> 0 <= g[k] < |xs|
    ensures xs[x] in MapIds(xs, g) <==> x in g
  {
    var r := MapIds(xs, g);
    if xs[x] in r {
      var k :| 0 <= k < |r| && r[k] == xs[x];
      assert xs[g[k]].id == g[k];
    }
    if x in g {
      var k :| 0 <= k < |g| && g[k] == x;
      assert r[k] == xs[x];
    }
  }

  /** No photo appears twice in a group of photos. */
  predicate NoRepeats(s: seq<Photo>)
  {
    forall j, k :: 0 <= j < k < |s| ==> s[j] != s[k]
  }

  /** Every group lists distinct photos, all connected to each other. */
  lemma GroupsAreComponents(xs: seq<Photo>, m: int, ig: bool, rt: seq<int>, groups: seq<seq<Photo>>, k: int)
    requires DenseIds(xs) && Grouping(xs, m, ig, rt, groups) && 0 <= k < |groups|
    ensures NoRepeats(groups[k])
    ensures forall a, b :: 0 <= a < |groups[k]| && 0 <= b < |groups[k]| ==>
              Connected(xs, m, groups[k][a].id, groups[k][b].id)
  {
    GroupsDistinct(xs, m, ig, rt, groups, k);
    GroupsWellFormed(rt, ig, k);
    var g := Groups(rt, ig)[k];
    forall a, b | 0 <= a < |groups[k]| && 0 <= b < |groups[k]| ensures Connected(xs, m, groups[k][a].id, groups[k][b].id) {
      assert groups[k][a].id == g[a] && groups[k][b].id == g[b];
    }
  }

  /** No group lists a photo twice. */
  lemma GroupsDistinct(xs: seq<Photo>, m: int, ig: bool, rt: seq<int>, groups: seq<seq<Photo>>, k: int)
    requires DenseIds(xs) && Grouping(xs, m, ig, rt, groups) && 0 <= k < |groups|
    ensures NoRepeats(groups[k])
  {
    GroupsWellFormed(rt, ig, k);
    var g := Groups(rt, ig)[k];
    forall a, b | 0 <= a < b < |groups[k]| ensures groups[k][a] != groups[k][b] {
      assert groups[k][a].id == g[a] && groups[k][b].id == g[b];
    }
  }

  /** Under dense ids, photo `i` is in the `k`-th group of photos exactly when `i` is in the `k`-th group of ids. */
  lemma InGroup(xs: seq<Photo>, m: int, ig: bool, rt: seq<int>, groups: seq<seq<Photo>>, k: int, i: int)
    requires DenseIds(xs) && Grouping(xs, m, ig, rt, groups) && 0 <= k < |groups| && 0 <= i < |xs|
    ensures xs[i] in groups[k] <==> i in Groups(rt, ig)[k]
  {
    MappedMember(xs, Groups(rt, ig)[k], i);
  }

  /** Without `ignoreSingletons` (DedupCopyAsync) every photo is in some group. */
  lemma CopyGroupingCovers(xs: seq<Photo>, m: int, rt: seq<int>, groups: seq<seq<Photo>>, i: int)
    requires DenseIds(xs) && Grouping(xs, m, false, rt, groups) && 0 <= i < |xs|
    ensures exists k :: 0 <= k < |groups| && xs[i] in groups[k]
  {
    EveryRootGrouped(rt, i);
    var ks := KeysUpTo(rt, |rt|, false);
    var k :| 0 <= k < |ks| && ks[k] == rt[i];
    GroupMembers(rt, false, rt[i], i);
    InGroup(xs, m, false, rt, groups, k, i);
  }

  /** No photo is in two groups. */
  lemma GroupingUnique(xs: seq<Photo>, m: int, ig: bool, rt: seq<int>, groups: seq<seq<Photo>>, i: int, k: int, k': int)
    requires DenseIds(xs) && Grouping(xs, m, ig, rt, groups) && 0 <= i < |xs|
    requires 0 <= k < |groups| && 0 <= k' < |groups| && xs[i] in groups[k] && xs[i] in groups[k']
    ensures k == k'
  {
    InGroup(xs, m, ig, rt, groups, k, i);
    InGroup(xs, m, ig, rt, groups, k', i);
    var gs := Groups(rt, ig);
    GroupsWellFormed(rt, ig, k);
    GroupsWellFormed(rt, ig, k');
    var l :| 0 <= l < |gs[k]| && gs[k][l] == i;
    var l' :| 0 <= l' < |gs[k']| && gs[k'][l'] == i;
    KeysDistinct(rt, |rt|, ig);
  }

  /**
   * Without `ignoreSingletons` two photos share a group exactly when a chain
   * of close pairs links them: tree plus union-find equals all-pairs
   * connectivity.
   */
  lemma CopyGroupingComponents(xs: seq<Photo>, m: int, rt: seq<int>, groups: seq<seq<Photo>>, i: int, j: int)
    requires DenseIds(xs) && Grouping(xs, m, false, rt, groups) && 0 <= i < |xs| && 0 <= j < |xs|
    ensures (exists k :: 0 <= k < |groups| && xs[i] in groups[k] && xs[j] in groups[k]) <==> Connected(xs, m, i, j)
  {
    var gs := Groups(rt, false);
    forall k | 0 <= k < |groups| ensures (xs[i] in groups[k] <==> i in gs[k]) && (xs[j] in groups[k] <==> j in gs[k]) {
      InGroup(xs, m, false, rt, groups, k, i);
      InGroup(xs, m, false, rt, groups, k, j);
    }
    SameGroupIffSameRoot(rt, i, j);
  }

  /** Without `ignoreSingletons` the groups hold as many photos as the array. */
  lemma CopyGroupingTotal(xs: seq<Photo>, m: int, rt: seq<int>, groups: seq<seq<Photo>>)
    requires Grouping(xs, m, false, rt, groups)
    ensures PhotoCount(groups) == |xs|
  {
    GroupsTotal(rt);
    SameCount(xs, Groups(rt, false), groups);
  }

  /** The number of photos in all groups. */
  function PhotoCount(groups: seq<seq<Photo>>): nat
  {
    if groups == [] then 0 else PhotoCount(groups[..|groups| - 1]) + |groups[|groups| - 1]|
  }

  lemma {:induction false} SameCount(xs: seq<Photo>, gs: seq<seq<int>>, groups: seq<seq<Photo>>)
    requires IdsInRange(gs, |xs|) && groups == MapGroups(xs, gs)
    ensures PhotoCount(groups) == TotalSize(gs)
    decreases |gs|
  {
    if gs != [] {
      var gs' := gs[..|gs| - 1];
      assert IdsInRange(gs', |xs|);
      var groups' := MapGroups(xs, gs');
      assert groups[..|groups| - 1] == groups';
      SameCount(xs, gs', groups');
    }
  }

  /** With singletons left out, every group holds at least two photos. */
  lemma DedupGroupsArePairs(xs: seq<Photo>, m: int, rt: seq<int>, groups: seq<seq<Photo>>, k: int)
    requires Grouping(xs, m, true, rt, groups) && 0 <= k < |groups|
    ensures |groups[k]| >= 2
  {
    IgnoredGroupShape(rt, k);
  }

  /**
   * With `ignoreSingletons` (DedupAsync, DedupPatchAsync) every group holds at
   * least two photos, and a photo with no other photo within the threshold is
   * in no group.
   */
  lemma DedupGroupingShape(xs: seq<Photo>, m: int, rt: seq<int>, groups: seq<seq<Photo>>, i: int)
    requires DenseIds(xs) && Grouping(xs, m, true, rt, groups) && 0 <= i < |xs|
    requires forall j :: 0 <= j < |xs| && j != i ==> !Edge(xs, m, i, j)
    ensures forall k :: 0 <= k < |groups| ==> |groups[k]| >= 2 && xs[i] !in groups[k]
  {
    var gs := Groups(rt, true);
    forall k | 0 <= k < |groups| ensures |groups[k]| >= 2 {
      IgnoredGroupShape(rt, k);
    }
    var marks := seq(|xs|, a requires 0 <= a < |xs| => if a == i then 1 else 0);
    assert EdgeClosed(xs, m, marks) by {
      forall a, b | Edge(xs, m, a, b) ensures marks[a] == marks[b] {
        ImageDiffSymmetric(xs[a].hash, xs[b].hash);
        assert Edge(xs, m, b, a);
        assert a == i ==> b == i;
        assert b == i ==> a == i;
      }
    }
    forall y | 0 <= y < |rt| && rt[y] == rt[i] ensures y == i {
      ConnectedKeepsMarks(xs, m, marks, i, y);
    }
    LoneElementUngrouped(rt, i);
    forall k | 0 <= k < |groups| ensures xs[i] !in groups[k] {
      GroupsWellFormed(rt, true, k);
      MappedMember(xs, gs[k], i);
    }
  }

  /**
   * With `ignoreSingletons` (DedupAsync, DedupPatchAsync) two different
   * photos share a group exactly when a chain of close pairs links them.
   */
  lemma DedupGroupingComponents(xs: seq<Photo>, m: int, rt: seq<int>, groups: seq<seq<Photo>>, i: int, j: int)
    requires DenseIds(xs) && Grouping(xs, m, true, rt, groups)
    requires 0 <= i < |xs| && 0 <= j < |xs| && i != j
    ensures (exists k :: 0 <= k < |groups| && xs[i] in groups[k] && xs[j] in groups[k]) <==> Connected(xs, m, i, j)
  {
    var gs := Groups(rt, true);
    forall k | 0 <= k < |groups| ensures (xs[i] in groups[k] <==> i in gs[k]) && (xs[j] in groups[k] <==> j in gs[k]) {
      InGroup(xs, m, true, rt, groups, k, i);
      InGroup(xs, m, true, rt, groups, k, j);
    }
    IgnoredSameGroupIffSameRoot(rt, i, j);
  }

  /** Two photos whose hashes differ in their two lowest bits, as the sample pair does. */
  predicate TwoBitsApart(xs: seq<Photo>)
  {
    |xs| == 2 && DenseIds(xs) && xs[1].hash == xs[0].hash ^ 3
  }

  /** The sample pair is two bits apart in both directions. */
  lemma TwoBitsDiffs(xs: seq<Photo>)
    requires |xs| == 2 && xs[1].hash == xs[0].hash ^ 3
    ensures PhotoDiff(xs[0], xs[1]) == 2 && PhotoDiff(xs[1], xs[0]) == 2
  {
    ImageDiffTwoBits(xs[0].hash);
    ImageDiffSymmetric(xs[0].hash, xs[1].hash);
  }

  /** A root map over two elements: both under 0, both under 1, or each its own root. */
  lemma PairRootMaps(rt: seq<int>)
    requires |rt| == 2 && RootMap(rt)
    ensures rt == [0, 0] || rt == [1, 1] || rt == [0, 1]
  {
    assert rt[0] == 0 || rt[0] == 1;
    assert rt[1] == 0 || rt[1] == 1;
    assert rt[0] == 1 ==> rt[1] == 1;
    assert rt[1] == 0 ==> rt[0] == 0;
  }

  /** What AsGroups(true) yields when both elements are under root 0: the group [1, 0]. */
  lemma PairGroupsUnderZero()
    ensures Groups([0, 0], true) == [[1, 0]]
  {
    var a := [0, 0];
    assert KeysUpTo(a, 1, true) == [];
    assert KeysUpTo(a, 2, true) == [0];
    assert MembersUpTo(a, 1, true, 0) == [];
    assert MembersUpTo(a, 2, true, 0) == [1];
    assert Group(a, 2, true, 0) == [1, 0];
    assert GroupList(a, 2, true, []) == [];
    assert GroupList(a, 2, true, [0]) == [[1, 0]];
  }

  /** What AsGroups(true) yields when both elements are under root 1: the group [0, 1]. */
  lemma PairGroupsUnderOne()
    ensures Groups([1, 1], true) == [[0, 1]]
  {
    var b := [1, 1];
    assert KeysUpTo(b, 1, true) == [1];
    assert KeysUpTo(b, 2, true) == [1];
    assert MembersUpTo(b, 1, true, 1) == [0];
    assert MembersUpTo(b, 2, true, 1) == [0];
    assert Group(b, 2, true, 1) == [0, 1];
    assert GroupList(b, 2, true, []) == [];
    assert GroupList(b, 2, true, [1]) == [[0, 1]];
  }

  /** What AsGroups(true) yields when each element is its own root: no group. */
  lemma PairGroupsApart()
    ensures Groups([0, 1], true) == []
  {
    var c := [0, 1];
    assert KeysUpTo(c, 1, true) == [];
    assert KeysUpTo(c, 2, true) == [];
  }

  /** At bar 90 (threshold 7) the pair forms one group of two. */
  lemma PairGroupedAt90(xs: seq<Photo>, rt: seq<int>, groups: seq<seq<Photo>>)
    requires TwoBitsApart(xs) && Grouping(xs, MaxDistance(90), true, rt, groups)
    ensures groups == [[xs[1], xs[0]]] || groups == [[xs[0], xs[1]]]
  {
    assert Connected(xs, MaxDistance(90), 0, 1) by {
      MaxDistanceSamples();
      TwoBitsDiffs(xs);
      ConnectedEdge(xs, 7, 0, 1);
    }
    assert rt[0] == rt[1];
    PairRootMaps(rt);
    PairGroupsUnderZero();
    PairGroupsUnderOne();
    MapPairs(xs);
  }

  /** The two orders of the pair, mapped from ids to photos. */
  lemma MapPairs(xs: seq<Photo>)
    requires |xs| == 2
    ensures MapGroups(xs, [[1, 0]]) == [[xs[1], xs[0]]]
    ensures MapGroups(xs, [[0, 1]]) == [[xs[0], xs[1]]]
  {
    MapPair(xs, 1, 0);
    MapPair(xs, 0, 1);
  }

  /** One group of two ids, mapped from ids to photos. */
  lemma MapPair(xs: seq<Photo>, a: int, b: int)
    requires 0 <= a < |xs| && 0 <= b < |xs|
    ensures MapGroups(xs, [[a, b]]) == [[xs[a], xs[b]]]
  {
    var ids := MapIds(xs, [a, b]);
    assert ids == [xs[a], xs[b]];
    var r := MapGroups(xs, [[a, b]]);
    assert |r| == 1 && r[0] == ids;
  }

  /** Positions whose marks differ, for marks that every edge respects, are not connected. */
  lemma MarksSeparate(xs: seq<Photo>, m: int, marks: seq<int>, i: int, j: int)
    requires EdgeClosed(xs, m, marks) && 0 <= i < |xs| && 0 <= j < |xs| && marks[i] != marks[j]
    ensures !Connected(xs, m, i, j)
  {
    if Connected(xs, m, i, j) {
      ConnectedKeepsMarks(xs, m, marks, i, j);
    }
  }

  /** Photos two bits apart are not linked under threshold 2: no edge joins the two positions. */
  lemma PairNotConnected(xs: seq<Photo>)
    requires |xs| == 2 && xs[1].hash == xs[0].hash ^ 3
    ensures !Connected(xs, 2, 0, 1)
  {
    var marks := [0, 1];
    assert EdgeClosed(xs, 2, marks) by {
      TwoBitsDiffs(xs);
    }
    MarksSeparate(xs, 2, marks, 0, 1);
  }

  /** At bar 99 (threshold 2) the pair is two bits too far apart and forms no group. */
  lemma PairApartAt99(xs: seq<Photo>, rt: seq<int>, groups: seq<seq<Photo>>)
    requires TwoBitsApart(xs) && Grouping(xs, MaxDistance(99), true, rt, groups)
    ensures groups == []
  {
    MaxDistanceSamples();
    PairNotConnected(xs);
    PairRootMaps(rt);
    PairGroupsApart();
  }

  /**
   * BuildImageGroups calls Union(p, q): the search from the photo at some
   * position, whose id is p, returns a photo within the threshold whose id
   * is q. Both arguments are ids, not positions.
   */
  ghost predicate UnionCalled(xs: seq<Photo>, m: int, p: int, q: int)
  {
    exists i, l :: 0 <= i < |xs| && 0 <= l < |xs| && PhotoDiff(xs[l], xs[i]) < m && xs[i].id == p && xs[l].id == q
  }

  /** With dense ids, the unions BuildImageGroups performs are exactly the edges of the similarity graph. */
  lemma UnionsAreEdges(xs: seq<Photo>, m: int, i: int, j: int)
    requires DenseIds(xs)
    ensures UnionCalled(xs, m, i, j) <==> Edge(xs, m, i, j)
  {
    if UnionCalled(xs, m, i, j) {
      var a, l :| 0 <= a < |xs| && 0 <= l < |xs| && PhotoDiff(xs[l], xs[a]) < m && xs[a].id == i && xs[l].id == j;
      ImageDiffSymmetric(xs[l].hash, xs[a].hash);
    }
    if Edge(xs, m, i, j) {
      ImageDiffSymmetric(xs[i].hash, xs[j].hash);
      assert PhotoDiff(xs[j], xs[i]) < m && xs[i].id == i && xs[j].id == j;
    }
  }

  /**
   * Two fetches, each numbering its photos from zero, concatenated: source
   * photos a and c with ids 0 and 1, destination photo b with id 0, b
   * identical to c and a two bits away from both. The search from c finds
   * b, so Union(1, 0) is called, and AsGroups puts ids 0 and 1, which name
   * a and c in the concatenation, into one group although a and c are not
   * similar.
   */
  lemma RepeatedIdsJoinApartPhotos(a: Photo, c: Photo, b: Photo)
    requires a.id == 0 && c.id == 1 && b.id == 0
    requires c.hash == a.hash ^ 3 && b.hash == c.hash
    ensures DenseIds([a, c]) && DenseIds([b])
    ensures UnionCalled([a, c] + [b], MaxDistance(99), 1, 0)
    ensures ([a, c] + [b])[0] == a && ([a, c] + [b])[1] == c
    ensures !Connected([a, c] + [b], MaxDistance(99), 0, 1)
  {
    var xs := [a, c] + [b];
    MaxDistanceSamples();
    ImageDiffZero(b.hash, c.hash);
    assert PhotoDiff(xs[2], xs[1]) < 2 && xs[1].id == 1 && xs[2].id == 0;
    TwoBitsDiffs([a, c]);
    forall k | 0 <= k < |xs| && k != 0 ensures PhotoDiff(xs[0], xs[k]) >= 2 && PhotoDiff(xs[k], xs[0]) >= 2 {
      assert xs[k].hash == c.hash;
    }
    IsolatedNotConnected(xs, 2, 0, 1);
  }

  /** A photo at least `m` from every other photo, both ways, is connected to no other photo. */
  lemma IsolatedNotConnected(xs: seq<Photo>, m: int, i: int, j: int)
    requires 0 <= i < |xs| && 0 <= j < |xs| && i != j
    requires forall k :: 0 <= k < |xs| && k != i ==> PhotoDiff(xs[i], xs[k]) >= m && PhotoDiff(xs[k], xs[i]) >= m
    ensures !Connected(xs, m, i, j)
  {
    var marks := seq(|xs|, a requires 0 <= a < |xs| => if a == i then 1 else 0);
    assert EdgeClosed(xs, m, marks) by {
      forall a, b | Edge(xs, m, a, b) ensures marks[a] == marks[b] {
        assert a == i ==> b == i;
        assert b == i ==> a == i;
      }
    }
    MarksSeparate(xs, m, marks, i, j);
  }

  /**
   * The same concatenation with one photo per fetch, a and b identical and
   * both with id 0: they are an edge of the similarity graph, but every
   * union called is Union(0, 0), so the pair is never grouped.
   */
  lemma RepeatedIdsMissDuplicate(a: Photo, b: Photo, m: int)
    requires a.id == 0 && b.id == 0 && b.hash == a.hash && 0 < m
    ensures Edge([a] + [b], m, 0, 1)
    ensures forall p, q :: UnionCalled([a] + [b], m, p, q) ==> p == 0 && q == 0
  {
    ImageDiffZero(a.hash, b.hash);
    OnlyZeroIds([a] + [b], m);
  }

  /** When every photo has id 0, every union called is Union(0, 0). */
  lemma OnlyZeroIds(xs: seq<Photo>, m: int)
    requires forall k :: 0 <= k < |xs| ==> xs[k].id == 0
    ensures forall p, q :: UnionCalled(xs, m, p, q) ==> p == 0 && q == 0
  {
    forall p, q | UnionCalled(xs, m, p, q) ensures p == 0 && q == 0 {
      var i, l :| 0 <= i < |xs| && 0 <= l < |xs| && PhotoDiff(xs[l], xs[i]) < m && xs[i].id == p && xs[l].id == q;
    }
  }
}
