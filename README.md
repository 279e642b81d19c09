# NiBot near-duplicate photo pipeline, modelled in Dafny

NiBot finds groups of near-duplicate photos and acts on them. Each photo has a
64-bit perceptual hash. Two photos are similar when the Hamming distance of
their hashes is below a threshold derived from a similarity percentage. A
vantage-point tree answers the "who is within this distance" searches. A
disjoint-set union joins every similar pair, and each resulting group is one
connected component of the similarity graph. Inside a group, a chain of keep
preferences ranks the photos and picks the one to keep. Then one of three
workflows plans its file operations:

- **dedup** deletes or trashes the other members, or links them to the kept photo;
- **copy** copies the kept photo of each source group unless the destination already holds a near duplicate;
- **patch** overwrites the destination members of a group with its kept photo.

Two smaller pieces are modelled too. A grayscale heuristic feeds one of the
preferences. A console progress bar redraws itself by writing only the
difference between the old text and the new one.

The project has one module per source file:

| module | file | form |
|---|---|---|
| `Hamming` | hamming.dfy | the distance between hashes and its metric laws |
| `GrayscaleChecker` | grayscale_checker.dfy | a method with nested loops over an `array2` of pixels, proved against a counting function |
| `MappedImages` | mapped_image.dfy | the `MappedImage` class with its compute-once grayscale cell, and the `Photo` value that ranking and grouping read |
| `VpTrees` | vp_tree.dfy | the `VpTree` class over an `array`, with in-place quickselect and a recursive radius search |
| `DisjointSets` | disjoint_set_union.dfy | the `DisjointSetUnion` class over an `int` array, with ghost roots and depths |
| `KeepPreferences` | keep_preference.dfy | the enum and its key functions |
| `BestPhotoSelection` | best_photo_selector.dfy | the stable lexicographic arg-max |
| `ImageGrouping` | grouping.dfy | the threshold formula and `BuildImageGroups` (tree, then union-find, then mapping back to photos) |
| `DedupEngine` | dedup_engine.dfy | the three workflows, as plans of file operations |
| `ProgressBars` | progress_bar.dfy | the `ProgressBar` class, with the console as a string and a modelled terminal line |
| `Wrappers` | wrappers.dfy | `Option` and `Result` |

Code that changes state is modelled as classes and methods:

- the tree construction and quickselect;
- `Find`, `Union` and `AsGroups`;
- the grayscale loops;
- the lazy grayscale cell;
- `BuildImageGroups` and the workflow loops;
- the progress bar.

Each method is proved against a specification function or predicate, and the
promised properties are lemmas about that function. The ranking, the key
functions and the threshold formula are pure in the source and are functions
here.

Choices where the code decides the model:

- **`DuplicateAction` is open.** The switch at DedupEngine.cs:91-116 has a
  `default` arm that throws, and a value cast from an integer reaches it. The
  model keeps that arm as `OtherAction` with the error `ActionOutOfRange`.
- **Rounding.** `Math.Round` rounds half to even. `MaxDistanceClosedForm`
  shows that `64 * similarityBar / 100` is never a tie for an integer bar, so
  the threshold does not depend on the rounding mode.
- **Patch ids.** `DedupPatchAsync` concatenates two separately fetched arrays
  and keeps their ids; see "## Findings".

## Model

| member | source | states |
|---|---|---|
| Hamming.ImageDiffRange | src/Aiursoft.NiBot.Dedup/Models/MappedImage.cs:68-71 | the distance of two hashes, the popcount of their xor, lies in 0..64 |
| Hamming.ImageDiffZero | src/Aiursoft.NiBot.Dedup/Models/MappedImage.cs:70 | the distance is 0 exactly when the two hashes are equal |
| Hamming.ImageDiffSymmetric | src/Aiursoft.NiBot.Dedup/Models/MappedImage.cs:70 | the distance is symmetric |
| Hamming.ImageDiffTriangle | src/Aiursoft.NiBot.Dedup/Models/MappedImage.cs:70 | the distance satisfies the triangle inequality |
| Hamming.CountXorTriangle | src/Aiursoft.NiBot.Dedup/Models/MappedImage.cs:70 | bitwise: the differing positions of s and u are at most those of s and t plus those of t and u |
| Hamming.BitsXor | src/Aiursoft.NiBot.Dedup/Models/MappedImage.cs:70 | the bits of `a ^ c` are the pointwise exclusive or of the bits of a and of c |
| Hamming.PopCountZero | src/Aiursoft.NiBot.Dedup/Models/MappedImage.cs:70 | a 64-bit value has popcount 0 exactly when it is 0 |
| Hamming.ImageDiffOneBit | src/Aiursoft.NiBot.Dedup/Models/MappedImage.cs:70 | flipping the lowest bit gives distance 1 |
| Hamming.ImageDiffTwoBits | src/Aiursoft.NiBot.Dedup/Models/MappedImage.cs:70 | flipping the two lowest bits gives distance 2, the test pair's distance |
| MappedImages.Int32Mul | src/Aiursoft.NiBot.Dedup/Models/MappedImage.cs:52 | `int` multiplication stays within 32 bits and equals the true product whenever that product fits |
| MappedImages.MappedImage.constructor | src/Aiursoft.NiBot.Dedup/Models/MappedImage.cs:21-45 | path, hash and resolution are the arguments; size and write time come from the file; the grayscale cell starts empty and unevaluated |
| MappedImages.MappedImage.CreateAsync | src/Aiursoft.NiBot.Dedup/Models/MappedImage.cs:21-56 | fails with FileNotFound when the file-info lookup finds no file; otherwise a fresh image whose resolution is width times height with `int` wrap-around |
| MappedImages.MappedImage.IsGrayscale | src/Aiursoft.NiBot.Dedup/Models/MappedImage.cs:11-44 | returns the grayscale verdict of the image's pixels and caches it; the check runs at most once over the object's life, and no property of the image changes |
| MappedImages.MappedImage.ImageDiff | src/Aiursoft.NiBot.Dedup/Models/MappedImage.cs:68-71 | lies in 0..64, and is 0 exactly for equal hashes |
| MappedImages.MappedImage.SimilarityNumerator | src/Aiursoft.NiBot.Dedup/Models/MappedImage.cs:63-66 | the numerator `64 - ImageDiff` of the similarity ratio lies in 0..64, and is 64 exactly for equal hashes |
| MappedImages.TwoBitsApartSimilarity | tests/Aiursoft.NiBot.Tests/IntegrationTests.cs:74 | two hashes that differ in two bits have numerator 62 (62/64, the 96.88% of the test) |
| MappedImages.SimilaritySymmetric | src/Aiursoft.NiBot.Dedup/Models/MappedImage.cs:63-66 | the similarity numerator is symmetric |
| GrayscaleChecker.DifferentColorNumber | src/Aiursoft.NiBot.Core/Util/GrayscaleChecker.cs:28-32 | true exactly when the two channel values differ by 32 or more |
| GrayscaleChecker.IsImageGrayscale | src/Aiursoft.NiBot.Core/Util/GrayscaleChecker.cs:8-26 | the loops answer exactly `IsGrayscale`: the count of sampled pixels (even column, even row) with some pair of R, G and B 32 or more apart, alpha ignored, is below `totalPixelCount >> 10` |
| GrayscaleChecker.RowCount | src/Aiursoft.NiBot.Core/Util/GrayscaleChecker.cs:13-23 | the colourful sampled pixels of one row among the first x columns number at most ceil(x/2) |
| GrayscaleChecker.CountBound | src/Aiursoft.NiBot.Core/Util/GrayscaleChecker.cs:10-24 | among the first y rows, at most ceil(y/2) times ceil(W/2) pixels are counted |
| GrayscaleChecker.CountWithinSamples | src/Aiursoft.NiBot.Core/Util/GrayscaleChecker.cs:10-24 | the count never exceeds ceil(H/2) times ceil(W/2) |
| GrayscaleChecker.SmallImageNotGrayscale | src/Aiursoft.NiBot.Core/Util/GrayscaleChecker.cs:25 | with fewer than 1024 pixels the answer is always false |
| GrayscaleChecker.OnlySamplesMatter | src/Aiursoft.NiBot.Core/Util/GrayscaleChecker.cs:11-13 | two images of one size that agree in R, G and B on the sampled pixels get the same count |
| GrayscaleChecker.UniformGrayIsGrayscale | src/Aiursoft.NiBot.Core/Util/GrayscaleChecker.cs:16-25 | an image with R = G = B everywhere and at least 1024 pixels is reported grayscale |
| KeepPreferences.Convert | src/Aiursoft.NiBot.Core/Models/KeepPreference.cs:17-31 | yields a key exactly for the eight named preferences; every other value of the enum is an ArgumentOutOfRange error carrying that value |
| KeepPreferences.DirectKeys | src/Aiursoft.NiBot.Core/Models/KeepPreference.cs:21-25 | Newest keys on the write time, Largest on the size, HighestResolution on the resolution |
| KeepPreferences.OppositeOrders | src/Aiursoft.NiBot.Core/Models/KeepPreference.cs:21-26 | Newest and Oldest, Largest and Smallest, HighestResolution and LowestResolution order any two photos in opposite directions, and tie on the same pairs |
| KeepPreferences.GrayscaleKeys | src/Aiursoft.NiBot.Core/Models/KeepPreference.cs:27-28 | GrayScale keys 1 exactly on grayscale photos; Colorful is its complement, and the two sum to 1 |
| KeepPreferences.KeysInRange | src/Aiursoft.NiBot.Core/Models/KeepPreference.cs:22-26 | for a well-formed photo, `MaxValue - LastWriteTime`, `long.MaxValue - Size` and `-1 * Resolution` stay within their C# types |
| BestPhotoSelection.KeyTuple | src/Aiursoft.NiBot.Core/Services/BestPhotoSelector.cs:9-12 | the key tuple has one entry per preference, each the key of that preference |
| BestPhotoSelection.AboveTransitive | src/Aiursoft.NiBot.Core/Services/BestPhotoSelector.cs:9-12 | the lexicographic descending order of key tuples is transitive |
| BestPhotoSelection.AboveTotal | src/Aiursoft.NiBot.Core/Services/BestPhotoSelector.cs:9-12 | of two tuples of one length, one is above the other or they are equal |
| BestPhotoSelection.AboveAsymmetric | src/Aiursoft.NiBot.Core/Services/BestPhotoSelector.cs:9-12 | the order is asymmetric |
| BestPhotoSelection.AboveIrreflexive | src/Aiursoft.NiBot.Core/Services/BestPhotoSelector.cs:9-12 | the order is irreflexive |
| BestPhotoSelection.BestIndex | src/Aiursoft.NiBot.Core/Services/BestPhotoSelector.cs:9-13 | the position chosen among the first n photos is one of them |
| BestPhotoSelection.BestIndexOrder | src/Aiursoft.NiBot.Core/Services/BestPhotoSelector.cs:9-13 | no photo is above the chosen one, and the chosen one is strictly above every earlier photo: the first element of the stable sort |
| BestPhotoSelection.FirstUnnamed | src/Aiursoft.NiBot.Core/Services/BestPhotoSelector.cs:9-12 | finds the first preference of the chain that Convert rejects, and none exactly when all are named |
| BestPhotoSelection.FindBestPhoto | src/Aiursoft.NiBot.Core/Services/BestPhotoSelector.cs:7-15 | succeeds exactly when the chain is non-empty, every preference is named and the group is non-empty; otherwise it names the first of those exceptions; the result is a member of the group |
| BestPhotoSelection.FindBestPhotoOrder | src/Aiursoft.NiBot.Core/Services/BestPhotoSelector.cs:9-13 | the result is at a position whose key tuple no member exceeds, and which is strictly above every earlier member: ties go to the earliest photo |
| BestPhotoSelection.BestIsMaximal | src/Aiursoft.NiBot.Core/Services/BestPhotoSelector.cs:9-12 | no member of the group outranks the result |
| BestPhotoSelection.SingleKeyAbove | src/Aiursoft.NiBot.Core/Services/BestPhotoSelector.cs:9 | with one preference, one photo is above another exactly when its key is greater |
| BestPhotoSelection.LargestHasMaxSize | src/Aiursoft.NiBot.Core/Services/BestPhotoSelector.cs:9 | under [Largest] the result has the greatest size of the group |
| BestPhotoSelection.SmallestHasMinSize | src/Aiursoft.NiBot.Core/Services/BestPhotoSelector.cs:9 | under [Smallest] the result has the least size of the group |
| BestPhotoSelection.LargestAndSmallestDiffer | src/Aiursoft.NiBot.Core/Services/BestPhotoSelector.cs:9 | when two sizes in the group differ, [Largest] and [Smallest] keep different photos |
| VpTrees.Compare | src/Aiursoft.NiBot.Core/Util/VPTree.cs:79-80 | `Comparer.Default.Compare` on integers: -1, 0 or 1 exactly for less, equal or greater |
| VpTrees.Swap | src/Aiursoft.NiBot.Core/Util/VPTree.cs:123-126 | the two entries are exchanged and nothing else changes |
| VpTrees.SwapKeepsMultiset | src/Aiursoft.NiBot.Core/Util/VPTree.cs:123-126 | a swap keeps the multiset of the array |
| VpTrees.Partition | src/Aiursoft.NiBot.Core/Util/VPTree.cs:136-159 | one pass of the inner loop with its step back permutes only `[first, last]`; the result r splits it into keys at most the pivot key up to r and keys at least the pivot key after it; r below `first` only after a left rotation |
| VpTrees.PassRound | src/Aiursoft.NiBot.Core/Util/VPTree.cs:142-152 | one step of the reader and writer keeps the pass invariant and brings them one closer |
| VpTrees.SelectRound | src/Aiursoft.NiBot.Core/Util/VPTree.cs:136-169 | one outer iteration keeps the selection invariant and either narrows `[from, to]` or leaves it and strictly lowers the slack measure (the left rotation case) |
| VpTrees.RotationShrinksSlack | src/Aiursoft.NiBot.Core/Util/VPTree.cs:156-168 | when r ends before `from` the range is rotated left by one, and the termination measure still decreases |
| VpTrees.SelectEnd | src/Aiursoft.NiBot.Core/Util/VPTree.cs:134 | when `from == to == nth`, every key before nth is at most that of nth and every key after it is at least that |
| VpTrees.NthElement | src/Aiursoft.NiBot.Core/Util/VPTree.cs:128-171 | terminates; permutes the array, leaves positions outside `[start, end]` unchanged, puts keys at most that of nth before it and keys at least that after it |
| VpTrees.MedianSplit | src/Aiursoft.NiBot.Core/Util/VPTree.cs:76-82 | after nth_element, with threshold d(vantage, median), the left range is within the threshold and the right range is at least at the threshold, which some right-range item attains |
| VpTrees.TreeOkNode | src/Aiursoft.NiBot.Core/Util/VPTree.cs:60-88 | a node over `[lo, hi)` has index lo; it is a leaf exactly when the range has one item; otherwise its subtrees cover `[lo+1, mid)` and `[mid, hi)` and respect the threshold |
| VpTrees.TreeIndices | src/Aiursoft.NiBot.Core/Util/VPTree.cs:60-88 | the preorder indices of a tree over `[lo, hi)` are exactly lo, lo+1, ..., hi-1: every index is the index of exactly one node |
| VpTrees.VpTree.BuildFromPoints | src/Aiursoft.NiBot.Core/Util/VPTree.cs:60-89 | for any vantage choice in `[lo+1, hi)`, permutes only `[lo, hi)` and returns a well-formed tree over it: null for an empty range, else a node with index lo |
| VpTrees.VpTree.Create | src/Aiursoft.NiBot.Core/Util/VPTree.cs:22-27 | installs the items and distance, permutes the items, and builds a well-formed tree over all of them; an empty array gives a null root |
| VpTrees.VpTree.constructor | src/Aiursoft.NiBot.Core/Util/VPTree.cs:16-20 | the same as Create |
| VpTrees.LinearScan | src/Aiursoft.NiBot.Core/Util/VPTree.cs:100-105 | the reference search, a brute-force filter: every hit is an index of the range at distance below m |
| VpTrees.LinearScanMembers | src/Aiursoft.NiBot.Core/Util/VPTree.cs:100-105 | an index and distance pair is a hit exactly when the index is in range and its distance is below m |
| VpTrees.LinearScanAscending | src/Aiursoft.NiBot.Core/Util/VPTree.cs:100-105 | the hits are strictly ascending by index, so each index appears at most once |
| VpTrees.LinearScanStrict | src/Aiursoft.NiBot.Core/Util/VPTree.cs:101 | an item at distance exactly m is not a hit |
| VpTrees.LinearScanFindsQuery | src/Aiursoft.NiBot.Core/Util/VPTree.cs:101-105 | under a metric with m at least 1, an indexed item queried against itself is a hit at distance 0 |
| VpTrees.SearchTree | src/Aiursoft.NiBot.Core/Util/VPTree.cs:91-121 | the tree search as a function: every hit is an index of the items |
| VpTrees.PruneLeft | src/Aiursoft.NiBot.Core/Util/VPTree.cs:112 | by the triangle inequality, when `dist - maxd > threshold` the left subtree holds no hit |
| VpTrees.PruneRight | src/Aiursoft.NiBot.Core/Util/VPTree.cs:117 | by the triangle inequality, when `dist + maxd < threshold` the right subtree holds no hit |
| VpTrees.EmptySearch | src/Aiursoft.NiBot.Core/Util/VPTree.cs:93-96 | a search of a null tree is empty |
| VpTrees.SearchTreeIsScan | src/Aiursoft.NiBot.Core/Util/VPTree.cs:91-121 | under a metric, the pruned tree search returns exactly the brute-force hits of its range, in the same order |
| VpTrees.VpTree.SearchByMaxd | src/Aiursoft.NiBot.Core/Util/VPTree.cs:91-121 | appends to the hits so far exactly the tree search of the node |
| VpTrees.Pairs | src/Aiursoft.NiBot.Core/Util/VPTree.cs:33 | each hit becomes its item and its distance, in order |
| VpTrees.RadiusSearch | src/Aiursoft.NiBot.Core/Util/VPTree.cs:29-34 | the pairs of a tree search are those of the brute-force scan, and so exactly the items within the radius |
| VpTrees.SearchResultMembers | src/Aiursoft.NiBot.Core/Util/VPTree.cs:29-34 | the pairs of the scan are exactly the items at distance below m, each with its distance |
| VpTrees.VpTree.SearchByMaxDist | src/Aiursoft.NiBot.Core/Util/VPTree.cs:29-34 | under a metric, for any tree the construction can build, returns exactly the items strictly closer than maxDist, each with its distance, ordered as the brute-force scan of the items |
| DisjointSets.DisjointSetUnion.constructor | src/NiBot.Dedup/Util/DisjointSetUnion.cs:3-5 | every element is its own parent and its own root |
| DisjointSets.RootIsReached | src/NiBot.Dedup/Util/DisjointSetUnion.cs:9 | following parents from any element ends at its recorded root, so the recursion of Find terminates |
| DisjointSets.CompressKeepsForest | src/NiBot.Dedup/Util/DisjointSetUnion.cs:9 | pointing an element straight at its root keeps the forest and every element's root |
| DisjointSets.DisjointSetUnion.Find | src/NiBot.Dedup/Util/DisjointSetUnion.cs:7-10 | returns the root of the element, a self-parented entry; compression keeps the array a forest with the same roots |
| DisjointSets.LinkKeepsForest | src/NiBot.Dedup/Util/DisjointSetUnion.cs:15 | hanging one root under another keeps the parent array acyclic |
| DisjointSets.MergeJoins | src/NiBot.Dedup/Util/DisjointSetUnion.cs:15 | relabelling the root of a to the root of b joins exactly the two components |
| DisjointSets.DisjointSetUnion.Union | src/NiBot.Dedup/Util/DisjointSetUnion.cs:12-16 | a and b end with one root; two elements share a root exactly when they did before or one was with a and the other with b; Union(a, a) changes nothing |
| DisjointSets.ScanDone | src/NiBot.Dedup/Util/DisjointSetUnion.cs:21-35 | at the end of the scan the dictionary holds, per root in first-seen order, its scanned members |
| DisjointSets.AppendRoots | src/NiBot.Dedup/Util/DisjointSetUnion.cs:35-41 | appending each key to its own list completes the groups |
| DisjointSets.ListGroups | src/NiBot.Dedup/Util/DisjointSetUnion.cs:42 | the values of the dictionary are listed in key insertion order |
| DisjointSets.DisjointSetUnion.AsGroups | src/NiBot.Dedup/Util/DisjointSetUnion.cs:18-43 | returns exactly `Groups(rootOf, ignoreSingletons)`, and compression keeps the roots |
| DisjointSets.KeysDistinct | src/NiBot.Dedup/Util/DisjointSetUnion.cs:25-32 | no root gets two groups |
| DisjointSets.MembersExactly | src/NiBot.Dedup/Util/DisjointSetUnion.cs:21-33 | the scanned members of a root are exactly the elements with that root that are not skipped, ascending |
| DisjointSets.KeysExactly | src/NiBot.Dedup/Util/DisjointSetUnion.cs:21-33 | a root is a key exactly when some element with that root is not skipped |
| DisjointSets.GroupsWellFormed | src/NiBot.Dedup/Util/DisjointSetUnion.cs:18-43 | every group lists distinct elements, all with the root of that group |
| DisjointSets.GroupMembers | src/NiBot.Dedup/Util/DisjointSetUnion.cs:18-43 | without ignoring singletons, the group of a root holds exactly the elements with that root |
| DisjointSets.EveryRootGrouped | src/NiBot.Dedup/Util/DisjointSetUnion.cs:21-33 | without ignoring singletons, every element's root has a group |
| DisjointSets.SameGroupIffSameRoot | src/NiBot.Dedup/Util/DisjointSetUnion.cs:18-43 | with `AsGroups(false)` two ids share a group exactly when they share a root |
| DisjointSets.IgnoredSameGroupIffSameRoot | src/NiBot.Dedup/Util/DisjointSetUnion.cs:18-43 | with `AsGroups(true)` two different ids share a group exactly when they share a root |
| DisjointSets.TotalSizePrefix | src/NiBot.Dedup/Util/DisjointSetUnion.cs:21-33 | after scanning i elements without skipping, the groups hold i members in all |
| DisjointSets.GroupsTotal | src/NiBot.Dedup/Util/DisjointSetUnion.cs:18-43 | `AsGroups(false)` holds `size` members in all, a partition of `0..size-1` |
| DisjointSets.IgnoredGroupShape | src/NiBot.Dedup/Util/DisjointSetUnion.cs:21-41 | with `AsGroups(true)` every group has at least two members: its non-root members ascending, then its root last |
| DisjointSets.LoneElementUngrouped | src/NiBot.Dedup/Util/DisjointSetUnion.cs:24-41 | with `AsGroups(true)` an element alone in its component appears in no group |
| ImageGrouping.RoundHalfEven | src/Aiursoft.NiBot.Core/Services/DedupEngine.cs:311 | `Math.Round(n / d)`: within half of d from the exact quotient, and even on a tie |
| ImageGrouping.MaxDistanceClosedForm | src/Aiursoft.NiBot.Core/Services/DedupEngine.cs:310-311 | for every percentage whose `64 * s` fits in an `int`, the threshold is `65 - (32s + 25) / 50`; no tie occurs, so the rounding mode does not matter |
| ImageGrouping.MaxDistanceSamples | src/Aiursoft.NiBot.Core/Services/DedupEngine.cs:310-311 | s = 100 gives 1, s = 99 gives 2, s = 90 gives 7, s = 0 gives 65 |
| ImageGrouping.ThresholdMeaning | src/Aiursoft.NiBot.Core/Services/DedupEngine.cs:310-311 | a distance d is below the threshold exactly when `64 * s / 100`, rounded, is at most the number `64 - d` of agreeing bits |
| ImageGrouping.MaxDistanceAntitone | src/Aiursoft.NiBot.Core/Services/DedupEngine.cs:310-311 | a higher similarity bar never gives a larger threshold |
| ImageGrouping.PhotoDiffMetric | src/Aiursoft.NiBot.Core/Services/DedupEngine.cs:312 | the distance the tree is built with is a metric on any photos |
| ImageGrouping.ConnectedSymmetric | src/Aiursoft.NiBot.Core/Services/DedupEngine.cs:314-321 | connection by chains of close pairs is symmetric |
| ImageGrouping.ConnectedTransitive | src/Aiursoft.NiBot.Core/Services/DedupEngine.cs:314-321 | connection by chains of close pairs is transitive |
| ImageGrouping.UnionKeepsSound | src/Aiursoft.NiBot.Core/Services/DedupEngine.cs:319 | uniting two connected photos keeps every component within one connected set |
| ImageGrouping.UnionKeepsComplete | src/Aiursoft.NiBot.Core/Services/DedupEngine.cs:319 | a union never separates two elements that share a root |
| ImageGrouping.RootsAreComponents | src/Aiursoft.NiBot.Core/Services/DedupEngine.cs:312-321 | once sound and complete for every photo, two photos share a root exactly when they are connected |
| ImageGrouping.PhotoAtId | src/Aiursoft.NiBot.Dedup/Services/ImageHasher.cs:50-53 | with dense ids, a photo of the array is the one at the position of its id |
| ImageGrouping.SearchMatches | src/Aiursoft.NiBot.Core/Services/DedupEngine.cs:312-316 | because the tree is built on a copy, each match's id leads back to that photo in the original array, it is an edge, and every edge from the photo is matched |
| ImageGrouping.FindMatches | src/Aiursoft.NiBot.Core/Services/DedupEngine.cs:316 | the tree search from photo i finds exactly its edges, read back on the original array |
| ImageGrouping.UnionAll | src/Aiursoft.NiBot.Core/Services/DedupEngine.cs:317-320 | `Union(item.Id, match.Id)` for each match of the photo at i keeps the union-find sound and gives every match the root of i |
| ImageGrouping.JoinRow | src/Aiursoft.NiBot.Core/Services/DedupEngine.cs:316-320 | after photo i every edge leaving photos up to i joins one component, and components stay connected |
| ImageGrouping.JoinAll | src/Aiursoft.NiBot.Core/Services/DedupEngine.cs:314-321 | after the loop the union-find components are sound and complete for every edge |
| ImageGrouping.BuildTree | src/Aiursoft.NiBot.Core/Services/DedupEngine.cs:312 | the tree is well formed over a fresh copy of the photos, under the hash distance |
| ImageGrouping.MapIds | src/Aiursoft.NiBot.Core/Services/DedupEngine.cs:325-327 | each id becomes the photo at that position |
| ImageGrouping.MapGroups | src/Aiursoft.NiBot.Core/Services/DedupEngine.cs:323-328 | each group of ids becomes its photos, group by group |
| ImageGrouping.BuildImageGroups | src/Aiursoft.NiBot.Core/Services/DedupEngine.cs:302-332 | with dense ids, the groups are those of AsGroups over a root map whose components are exactly the connected components of the graph of pairs closer than the threshold, mapped back to photos |
| ImageGrouping.GroupsAreComponents | src/Aiursoft.NiBot.Core/Services/DedupEngine.cs:302-332 | a group has no repeated photo, and any two of its photos are connected |
| ImageGrouping.InGroup | src/Aiursoft.NiBot.Core/Services/DedupEngine.cs:323-328 | a photo is in a group exactly when its id is in the group of ids |
| ImageGrouping.GroupingUnique | src/Aiursoft.NiBot.Core/Services/DedupEngine.cs:302-332 | no photo is in two groups |
| ImageGrouping.CopyGroupingCovers | src/Aiursoft.NiBot.Core/Services/DedupEngine.cs:302-303 | without ignoring singletons, every photo is in some group |
| ImageGrouping.CopyGroupingComponents | src/Aiursoft.NiBot.Core/Services/DedupEngine.cs:302-332 | without ignoring singletons, two photos share a group exactly when they are connected: tree and union-find grouping equals brute-force connectivity |
| ImageGrouping.CopyGroupingTotal | src/Aiursoft.NiBot.Core/Services/DedupEngine.cs:323-328 | without ignoring singletons, the groups hold every photo once: their sizes sum to the number of photos |
| ImageGrouping.DedupGroupsArePairs | src/Aiursoft.NiBot.Core/Services/DedupEngine.cs:302-303 | with the default `ignoreSingletons`, every group has at least two photos |
| ImageGrouping.DedupGroupingShape | src/Aiursoft.NiBot.Core/Services/DedupEngine.cs:302-303 | with the default, a photo with no close neighbour is in no group |
| ImageGrouping.DedupGroupingComponents | src/Aiursoft.NiBot.Core/Services/DedupEngine.cs:302-332 | with the default, two different photos share a group exactly when a chain of close pairs links them |
| ImageGrouping.PairGroupedAt90 | tests/Aiursoft.NiBot.Tests/IntegrationTests.cs:80-117 | two photos two bits apart form one group of two at similarity 90 |
| ImageGrouping.PairApartAt99 | tests/Aiursoft.NiBot.Tests/IntegrationTests.cs:160-178 | two photos two bits apart form no group at similarity 99 |
| ImageGrouping.UnionsAreEdges | src/Aiursoft.NiBot.Core/Services/DedupEngine.cs:316-319 | with dense ids, `Union(p, q)` on the ids of the searched photo and of a match is called exactly for the close pairs (p, q) |
| ImageGrouping.RepeatedIdsJoinApartPhotos | src/Aiursoft.NiBot.Core/Services/DedupEngine.cs:266-268 | source photos a, c (ids 0, 1) and destination photo b (id 0) identical to c: the search from c calls `Union(1, 0)`, joining the ids of a and c, which are not connected |
| ImageGrouping.RepeatedIdsMissDuplicate | src/Aiursoft.NiBot.Core/Services/DedupEngine.cs:266-268 | one identical photo per fetch, both with id 0: they are an edge, yet every union called is `Union(0, 0)` |
| DedupEngine.Others | src/Aiursoft.NiBot.Core/Services/DedupEngine.cs:78 | the photos of the group other than the best, exactly |
| DedupEngine.OthersCount | src/Aiursoft.NiBot.Core/Services/DedupEngine.cs:78 | in a group without repeats that holds the best photo, there are `group.Length - 1` others |
| DedupEngine.PhotoOps | src/Aiursoft.NiBot.Core/Services/DedupEngine.cs:91-112 | each named action plans a fixed number of operations per photo, each acting on that photo's path and none of them a copy |
| DedupEngine.GroupOpsTargets | src/Aiursoft.NiBot.Core/Services/DedupEngine.cs:78-116 | the operations of a group are exactly those of its photos' arms |
| DedupEngine.DedupErrorSticks | src/Aiursoft.NiBot.Core/Services/DedupEngine.cs:62-118 | once an exception ends the run, later groups add nothing |
| DedupEngine.NothingPlansNoOps | src/Aiursoft.NiBot.Core/Services/DedupEngine.cs:99-100 | the action Nothing plans no file operation |
| DedupEngine.DedupPlanSucceeds | src/Aiursoft.NiBot.Core/Services/DedupEngine.cs:62-118 | the run ends without an exception exactly when every group can select a best photo and, if it has others, the action is named |
| DedupEngine.GroupStepCount | src/Aiursoft.NiBot.Core/Services/DedupEngine.cs:64-116 | a group without repeats plans its per-photo count times `group.Length - 1` operations |
| DedupEngine.DedupPlanActsOnOthers | src/Aiursoft.NiBot.Core/Services/DedupEngine.cs:64-116 | every planned operation comes from some group's arm for some photo other than its best |
| DedupEngine.DedupPlanVictims | src/Aiursoft.NiBot.Core/Services/DedupEngine.cs:64-116 | every planned operation acts on a member of a group that is not that group's best photo |
| DedupEngine.DedupPlanCoversOthers | src/Aiursoft.NiBot.Core/Services/DedupEngine.cs:64-116 | in a run without exception, every operation of every other photo's arm is planned |
| DedupEngine.DedupAsyncGroupCount | src/Aiursoft.NiBot.Core/Services/DedupEngine.cs:60-116 | on the groups of BuildImageGroups, every group has at least one other, and it plans exactly its per-photo count times `group.Length - 1` operations |
| DedupEngine.OtherActionRaises | src/Aiursoft.NiBot.Core/Services/DedupEngine.cs:113-115 | an action outside the five named members ends a run over any non-empty grouping with an exception |
| DedupEngine.SwitchOthers | src/Aiursoft.NiBot.Core/Services/DedupEngine.cs:78-116 | the loop over the others plans exactly their arms' operations, or reaches the default arm |
| DedupEngine.DedupGroup | src/Aiursoft.NiBot.Core/Services/DedupEngine.cs:64-116 | one group: select the best, then the switch over the others |
| DedupEngine.DedupGroups | src/Aiursoft.NiBot.Core/Services/DedupEngine.cs:62-117 | the outer loop plans exactly the fold of the groups, stopping at the first exception |
| DedupEngine.DedupAsync | src/Aiursoft.NiBot.Core/Services/DedupEngine.cs:32-119 | groups the photos with `ignoreSingletons` and plans the fold over those groups |
| DedupEngine.CopyPlan | src/Aiursoft.NiBot.Core/Services/DedupEngine.cs:165-219 | `copied` counts the planned copies; without exception `copied + skipped` is the number of source groups, so each is counted once; an exception leaves some uncounted |
| DedupEngine.CopyErrorSticks | src/Aiursoft.NiBot.Core/Services/DedupEngine.cs:167-219 | once an exception ends the copy run, later groups add nothing |
| DedupEngine.CopyPlanTargets | src/Aiursoft.NiBot.Core/Services/DedupEngine.cs:170-218 | without exception, a copy is planned exactly for the best photo of each group that has no near duplicate in the destination |
| DedupEngine.HitsMeanDuplicate | src/Aiursoft.NiBot.Core/Services/DedupEngine.cs:171-173 | the destination search has a hit exactly when some destination photo is closer than the threshold to the best photo |
| DedupEngine.FindDuplicate | src/Aiursoft.NiBot.Core/Services/DedupEngine.cs:171-173 | the tree search over the destination finds a hit exactly when a near duplicate exists |
| DedupEngine.CopyGroups | src/Aiursoft.NiBot.Core/Services/DedupEngine.cs:165-219 | the copy loop computes exactly the copy plan |
| DedupEngine.DedupCopyAsync | src/Aiursoft.NiBot.Core/Services/DedupEngine.cs:121-224 | groups the source photos keeping singletons, and plans the copy fold against the destination photos |
| DedupEngine.FoldCase | src/Aiursoft.NiBot.Core/Services/DedupEngine.cs:278-280 | maps ASCII lower-case letters to upper case and leaves every other character |
| DedupEngine.StartsWithIgnoreCaseMeaning | src/Aiursoft.NiBot.Core/Services/DedupEngine.cs:278-280 | the prefix test does not depend on the case of the prefix, and an exact prefix always matches |
| DedupEngine.PatchOps | src/Aiursoft.NiBot.Core/Services/DedupEngine.cs:280-292 | an overwrite of a member by the best photo is planned exactly for the members whose path starts with the destination folder |
| DedupEngine.PatchPlan | src/Aiursoft.NiBot.Core/Services/DedupEngine.cs:274-295 | the patched counter equals the number of planned overwrites |
| DedupEngine.PatchErrorSticks | src/Aiursoft.NiBot.Core/Services/DedupEngine.cs:275-295 | once an exception ends the patch run, later groups add nothing |
| DedupEngine.PatchPlanTargets | src/Aiursoft.NiBot.Core/Services/DedupEngine.cs:277-293 | without exception, an overwrite is planned exactly for a destination member of a group whose best photo lives in the source folder |
| DedupEngine.PatchGroup | src/Aiursoft.NiBot.Core/Services/DedupEngine.cs:280-293 | the inner loop of one group computes exactly its overwrites |
| DedupEngine.PatchGroups | src/Aiursoft.NiBot.Core/Services/DedupEngine.cs:274-295 | the outer loop computes exactly the patch plan |
| DedupEngine.Renumber | src/Aiursoft.NiBot.Dedup/Services/ImageHasher.cs:50-53 | the concatenated photos, with each id set to its position and nothing else changed |
| DedupEngine.RenumberedUnionsAreEdges | src/Aiursoft.NiBot.Core/Services/DedupEngine.cs:266-268 | after renumbering, the unions are exactly the close pairs of the concatenation |
| DedupEngine.DedupPatchAsync | src/Aiursoft.NiBot.Core/Services/DedupEngine.cs:231-300 | groups the renumbered concatenation of source and destination with `ignoreSingletons`, and plans the patch fold over those groups |
| ProgressBars.Repeat | src/Aiursoft.NiBot.Core/ProgressBar.cs:62-73 | `Append(c, n)`: n copies of c |
| ProgressBars.CommonPrefixLength | src/Aiursoft.NiBot.Core/ProgressBar.cs:54-59 | a common prefix, no longer than either text, that cannot be extended |
| ProgressBars.CommonPrefixUnique | src/Aiursoft.NiBot.Core/ProgressBar.cs:54-59 | any common prefix that cannot be extended has that length: it is the longest one |
| ProgressBars.CountCommonPrefix | src/Aiursoft.NiBot.Core/ProgressBar.cs:55-59 | the while loop ends at the length of the longest common prefix |
| ProgressBars.RedrawSame | src/Aiursoft.NiBot.Core/ProgressBar.cs:55-73 | redrawing the same text writes nothing |
| ProgressBars.ReplayConcat | src/Aiursoft.NiBot.Core/ProgressBar.cs:62-75 | writing two strings in turn is writing their concatenation |
| ProgressBars.ReplayBackspaces | src/Aiursoft.NiBot.Core/ProgressBar.cs:63 | k backspaces move the cursor k columns left and change no cell |
| ProgressBars.ReplayPlain | src/Aiursoft.NiBot.Core/ProgressBar.cs:66 | a text without backspaces overwrites the cells from the cursor on and moves the cursor past it |
| ProgressBars.RewriteShows | src/Aiursoft.NiBot.Core/ProgressBar.cs:61-66 | after the backspaces and the suffix, the line starts with the new text, the cursor is after it, and the rest of the old text is left behind it |
| ProgressBars.BlankShows | src/Aiursoft.NiBot.Core/ProgressBar.cs:68-73 | the overlap blanks and their backspaces clear what is left of the old text and bring the cursor back |
| ProgressBars.RedrawShows | src/Aiursoft.NiBot.Core/ProgressBar.cs:61-73 | replaying the redraw on a line that shows the old text leaves the new text followed only by blanks, with the cursor at its end |
| ProgressBars.ProgressBar.constructor | src/Aiursoft.NiBot.Core/ProgressBar.cs:18-31 | nothing written or shown, not disposed, animation at 0 |
| ProgressBars.ProgressBar.UpdateText | src/Aiursoft.NiBot.Core/ProgressBar.cs:53-77 | writes exactly the redraw of the old text into the new one, and then remembers the new text; a line that showed the old text now shows the new one |
| ProgressBars.ProgressBar.TimerHandler | src/Aiursoft.NiBot.Core/ProgressBar.cs:39-51 | after Dispose it changes nothing; otherwise it redraws the bar text followed by the next spinner character and advances the animation |
| ProgressBars.ProgressBar.Dispose | src/Aiursoft.NiBot.Core/ProgressBar.cs:83-88 | sets the disposed flag, redraws the empty text, and leaves a line of blanks with the cursor at the start |

## Left out

- Image decoding and perceptual hashing are foreign libraries. The hash is a given `bv64`, and the decoded pixels are a given `array2` of RGBA bytes.
- The file system is left out. `CreateAsync` receives the file's length and write time as an optional value, absent when the file-info lookup finds no file. A file already missing when the image is decoded fails inside `Image.Load`, which is not modelled.
- File effects are planned operations, not performed: `File.Delete`, `File.Copy`, and the `FilesHelper` calls `MoveToTrashAsync` and `CreateLink`. `FilesHelper`'s internals are not part of this model.
- The destination name that `DedupCopyAsync` builds for a copy is left out. It depends on the file system and `Guid` retries, so the plan records `CopyToFolder(source, folder)`.
- `Directory.CreateDirectory` is left out.
- The interactive confirmation (`Console.ReadLine`) and all logging are left out.
- Exceptions are errors that end the run. A run stops at the first exception and keeps the operations planned before it.
- `FilesHelper.GetPhotosUnderPath` and `GetActualFilePath` are not part of this model. The photos arrive as arrays.
- The dense ids that ImageHasher.cs:50-53 assigns are a precondition of `BuildImageGroups`, `DedupAsync` and `DedupCopyAsync`.
- Concurrency is left out: the thread pool of the hasher, `Interlocked`, the `Lazy` cell's thread safety, and the progress bar's `Timer`, `lock` and `ResetTimer`. The model is sequential.
- Floating point is left out.
  - `ImageSimilarityRatio` is modelled by its integer numerator `64 - ImageDiff`.
  - `ProgressBar.Report` is left out, as is the progress text's `(int)(progress * 50)` arithmetic. `TimerHandler` receives the text before the spinner as a parameter.
  - `Math.Round(64 * s / 100.0)` is modelled as exact half-even rounding. That is exact here, because the double division of integers this small is correctly rounded, and no tie occurs.
- The random vantage choice is any index in `[lo + 1, hi)`, chosen by `:|`. Every property holds for every choice.
- Counter overflow is left out. `copiedImagesCount`, `skippedImagesCount`, `patchedImagesCount`, the grayscale checker's `differentPixelCount` and the animation index are unbounded integers. The source's `int` counters wrap only beyond 2^31 groups, sampled pixels or timer ticks.
- DisjointSets.DisjointSetUnion.AsGroups: lists groups in the order their keys entered the dictionary. That is the enumeration order of .NET's `Dictionary` when nothing is removed, which the documentation does not promise.
- DedupEngine.StartsWithIgnoreCaseMeaning: `OrdinalIgnoreCase` is modelled as ASCII upper-casing. Non-ASCII case folding is left out.
- DedupEngine.DedupAsync: the per-group count is proved (`DedupAsyncGroupCount`), but the whole run's total is not stated as one sum.
- The `DuplicateAction` enum's declaration is not part of this model. Its five members come from the switch, and `OtherAction` stands for any other value a cast can give.
- Object identity is modelled as value equality. `photo != bestPhoto` compares records, so two equal records would be one photo. Within a grouping, photos have distinct ids and so are distinct values.
- That the same group and preference chain always give the same photo needs no lemma, because `FindBestPhoto` is a function.
- Several methods are inline code in the source, written as separate methods with their own contracts:
  - `SelectRound` and `PassRound` are the loop bodies of `nth_element`;
  - `AppendRoots` and `ListGroups` are the second loop and the `Values` of `AsGroups`;
  - `CountCommonPrefix` is the first loop of `UpdateText`;
  - `BuildTree`, `JoinAll`, `JoinRow`, `FindMatches` and `UnionAll` are the statements and loops of `BuildImageGroups`;
  - `DedupGroup`, `SwitchOthers`, `DedupGroups`, `CopyGroups`, `FindDuplicate`, `PatchGroup` and `PatchGroups` are the loops of the three workflows.
- Superseded copies of the modelled code are left out, because they are older versions of the same logic:
  - src/Aiursoft.NiBot.Dedup/Services/DedupEngine.cs;
  - src/NiBot.Dedup/Services/DedupEngine.cs;
  - src/NiBot.Core/DedupEngine.cs;
  - src/NiBot.Core/ProgressBar.cs;
  - src/NiBot.Dedup/Util/GrayscaleChecker.cs;
  - src/NiBot.Dedup/Models/MappedImage.cs;
  - src/NiBot.Core/MappedImage.cs.
- The command-line handlers, option parsing, dependency injection, the calendar feature and cluster distribution are left out. They are wiring or outside the duplicate pipeline.

## Findings

| source | as written | input that shows it | evidently intended | confidence | as-written member | corrected member |
|---|---|---|---|---|---|---|
| src/Aiursoft.NiBot.Core/Services/DedupEngine.cs:266 | `sourceFiles.Concat(destinationFiles)` keeps each photo's `Id`. If each fetch numbers its photos from 0, as ImageHasher.cs:50-53 does, then `Union(item.Id, match.Item1.Id)` at line 319 unites the ids of the wrong photos. | source `[a, c]` with ids 0 and 1, destination `[b]` with id 0, `c.hash == a.hash ^ 3`, `b.hash == c.hash`, similarity 99: the search from c finds b, so `Union(1, 0)` puts ids 0 and 1, that is a and c, in one group though they are 2 bits apart where the threshold is 2 (and with one identical photo per fetch, `RepeatedIdsMissDuplicate` shows the pair is never joined) | ids renumbered to positions in the concatenated array, so that groups are the connected components of the combined photos | medium, not executed: GetPhotosUnderPath is not part of this model, so whether it renumbers is unknown | ImageGrouping.RepeatedIdsJoinApartPhotos | DedupEngine.DedupPatchAsync (via DedupEngine.Renumber and DedupEngine.RenumberedUnionsAreEdges) |
