# k-d tree builder, modelled in Dafny

This project models the construction half of the `nn` library's k-d tree
(`src/kdtree.h`, class `KDTree<T, N, A>`), and proves what the builder
guarantees about the tree it leaves behind.

A `KDTree` owns two index-aligned arrays: `elements` (the points, of any type
`T`) and `nodes` (one `Node(axis, position)` per slot). The axis accessor `A`
is a pure function from a point and an axis in `[0, N)` to a coordinate. Here
it is the constant `axisPosition: (T, nat) -> int`, and `N` is a constant with
`N >= 1`. `build_tree(left, right)` works on every half-open range with at
least two slots, in this order:

1. It computes the bounding box of the range in one pass (`assign`, then
   `if_less_assign` / `if_greater_assign` for each further element).
2. It picks a split axis.
3. It reorders the range in place with `std::nth_element` around
   `median = (left + right) / 2`.
4. It records the split axis and the median element's coordinate in
   `nodes[median]`.
5. It recurses on `[left, median)` and `[median + 1, right)`.

Files:

- `kdspec.dfy`, module `KdSpec`: the value-level specification. It holds the
  `Node` datatype, `Median`, the bounding-box folds `MinCoord` / `MaxCoord`,
  and `SplitAxisOf`, the axis scan of `build_tree` over the box's extents.
  It defines:
  - `Permuted` ("only this range was reordered");
  - `KdRange`, the partition property at every median of a range, on that
    median's own axis;
  - `SplitAxesChosen`: every median records the axis `build_tree` chooses for
    its range;
  - `IsSplitSlot` and `LeavesKept`: the slots whose node `build_tree` writes,
    and the rest keeping theirs;
  - `SplitAt` and `Built`: what one split does, and what building a range
    leaves.

  It also holds the lemmas:
  - the bounding box and the split axis depend only on the points of a range;
  - partition survives reordering;
  - one split plus two sub-builds build the range;
  - the rank of the median;
  - sortedness in one dimension;
  - the depth bound.
- `kdtree.dfy`, module `KdTree`: the imperative model. It holds the class
  `KDTree<T>` with `elements: array<T>` and `nodes: array<Node>`, the helpers
  `Assign`, `IfLessAssign` and `IfGreaterAssign` on a coordinate array, the
  bounding-box loop, and the module-level `SplitAxis` loop. `NthElement` is a
  verified quickselect over a Lomuto `Partition`, standing in for
  `std::nth_element`. Then come `SplitRange` (the body of
  `build_tree(left, right)` up to its recursive calls), the recursive
  `BuildTree`, `BuildAll` (`build_tree()`), the constructor, and the
  one-dimensional scenario of `test/kdtree.cc`.

Where the comments of `src/kdtree.h` and its code disagree, the model follows
the code:

- Split axis. The comment at `src/kdtree.h:57` says the larger axis is chosen.
  The loop at lines 58-61 keeps an axis only when its extent is strictly
  *smaller* than the best so far. So it picks the first axis of smallest
  extent. `SplitAxis`, `SplitAxisOf` and `SplitAxesChosen` state exactly
  that, and the built tree records that axis at every median.
- Layout. The comment at `src/kdtree.h:30` places children at `2i+1` and
  `2i+2`. The code places the node of range `[l, r)` at `(l + r) / 2`, with
  its subtrees over `[l, m)` and `[m + 1, r)`. `KdRange` and `Median` model
  this range layout.

## Model

| member | source | states |
|---|---|---|
| `KdSpec.Median` | src/kdtree.h:56 | the median of a range of at least two slots lies strictly inside it, so both recursive ranges are shorter; the left part is as long as the right part or one longer |
| `KdSpec.MinCoordIsMin` | src/kdtree.h:50-55 | the folded lower corner of the bounding box is at most every coordinate of the range on that axis and equals one of them |
| `KdSpec.MaxCoordIsMax` | src/kdtree.h:50-55 | the folded upper corner is at least every coordinate of the range on that axis and equals one of them |
| `KdSpec.BoxAgrees` | src/kdtree.h:50-55 | two ranges holding the same multiset of points have the same bounding box, whatever their order |
| `KdSpec.FirstMin` | src/kdtree.h:57-61 | the scan that starts at index 0 and moves only on a strictly smaller value returns an index of a smallest value, and every earlier value is strictly larger |
| `KdSpec.SplitAxisIsFirstMin` | src/kdtree.h:57-61 | the axis scan over a range's points is that scan run over the range's per-axis extents |
| `KdSpec.SplitAxisSmallest` | src/kdtree.h:57-61 | the split axis of a range has the smallest bounding-box extent of all N axes, and every lower-indexed axis has a strictly larger one |
| `KdSpec.SplitAxisOfAgrees` | src/kdtree.h:57-64 | reordering a range's points (as nth_element does) does not change its split axis |
| `KdSpec.PermutedKeepsAtMost` | src/kdtree.h:71 | reordering a range keeps every upper bound on its coordinates, so a recursive call on the left half keeps the parent's "at most the split position" side |
| `KdSpec.PermutedKeepsAtLeast` | src/kdtree.h:72 | reordering a range keeps every lower bound on its coordinates, so a recursive call on the right half keeps the parent's "at least the split position" side |
| `KdSpec.KdRangeFrame` | src/kdtree.h:71-72 | a k-d subtree depends only on the element and node slots of its own range, so the right-hand recursive call cannot break the left subtree |
| `KdSpec.SplitAxesFrame` | src/kdtree.h:71-72 | the axes recorded in a subtree stay the chosen ones when only slots outside its range change |
| `KdSpec.SubtreesCompose` | src/kdtree.h:62-72 | after partitioning at the median and building both halves, the whole range is a k-d subtree and a reordering of the partitioned range |
| `KdSpec.SplitAxesCompose` | src/kdtree.h:57-72 | the axis written at the median is still the chosen axis of the range after both halves are built, so every median of the range records its chosen axis |
| `KdSpec.LeafNodesKept` | src/kdtree.h:66-72 | one level writes only the median's node and the two calls only their split slots, so every node of the range that is not a split slot keeps its old value |
| `KdSpec.BuildStep` | src/kdtree.h:47-72 | a split at the median followed by the builds of both halves builds the whole range: a reordering of it, with new nodes only at split slots, the partition at every median and the chosen axis at every median |
| `KdSpec.MedianRank` | src/kdtree.h:62-64 | a range partitioned at m holds at m its sorted-order element: at most m - lo elements lie strictly below it and at most hi - 1 - m strictly above it |
| `KdSpec.KdRangeOneAxisSorted` | src/kdtree.h:62-72 | with N = 1 every split is on axis 0, so a built range is in ascending order of that coordinate |
| `KdSpec.OneAxisTreeIsSorted` | src/kdtree.h:62-72 | a one-dimensional tree over integer points is the unique ascending arrangement of its input values |
| `KdSpec.DepthBound` | src/kdtree.h:47-72 | the recursion of build_tree over fewer than 2^h elements is at most h levels deep, so the height is at most ceil(log2(n+1)) |
| `KdTree.SplitAxis` | src/kdtree.h:57-61 | the loop returns the FirstMin of the extents bbmax[i] - bbmin[i]: the chosen axis has the smallest extent of all axes, and every lower-indexed axis has a strictly larger one |
| `KdTree.KDTree.Assign` | src/kdtree.h:32-35 | after the call, a[i] is the point's coordinate on axis i for every i < N |
| `KdTree.KDTree.IfLessAssign` | src/kdtree.h:37-40 | each a[i] becomes the minimum of its old value and the point's coordinate on axis i |
| `KdTree.KDTree.IfGreaterAssign` | src/kdtree.h:42-45 | each a[i] becomes the maximum of its old value and the point's coordinate on axis i |
| `KdTree.KDTree.BoundingBox` | src/kdtree.h:50-55 | the two fresh N-element arrays hold, per axis, the minimum and the maximum coordinate over elements[left..right) |
| `KdTree.KDTree.Partition` | src/kdtree.h:63-64 | reorders only [lo, hi) and moves the range's last element (the pivot) to the returned slot p, with no larger coordinate before p and no smaller one after it |
| `KdTree.KDTree.NthElement` | src/kdtree.h:63-64 | the contract of std::nth_element: only [left, right) is reordered, with no larger coordinate on the axis before nth and no smaller one after it |
| `KdTree.KDTree.SplitRange` | src/kdtree.h:48-67 | only [left, right) of elements is reordered and only the median's node is written; that node holds the range's chosen split axis (computed on the original order) and the median element's coordinate on it, with the range partitioned around it |
| `KdTree.KDTree.BuildTree` | src/kdtree.h:47-74 | only [left, right) of elements is reordered; only the split slots of [left, right) get a new node, and every other node keeps its value; a range of at most one slot is left as it was; afterwards every median of the range records the chosen split axis (the first axis of smallest extent) and the median element's coordinate on it, with the partition at every median |
| `KdTree.KDTree.BuildAll` | src/kdtree.h:76-79 | nodes is resized to the length of elements, the elements keep their multiset, and the whole array is a k-d tree with the chosen axis at every median; leaf slots keep the resized node (the old one, or Node(0, 0) past the old length) |
| `KdTree.KDTree.constructor` | src/kdtree.h:81-83 | the tree holds exactly the multiset of the input, satisfies the k-d tree property with the chosen axis at every median, and its leaf slots hold Node(0, 0) |
| `KdTree.OneDimensionalExample` | test/kdtree.cc:5-7 | building the points 9,3,2,7,4,5,6,1,8 in one dimension leaves the elements in the order 1,2,...,9 |

## Left out

- The nearest-neighbour query (`nearest_neighbors`) and the external-storage variant (`kdtree_external`) are not defined in `src/kdtree.h`. They are not part of this model.
- Coordinates are `int`, not floating point. Extents `bbmax[i] - bbmin[i]` are therefore exact, with no rounding and no NaN.
- `std::nth_element` is replaced by a verified quickselect. `NthElement` promises what `std::nth_element` promises. The model does not fix which of several equal or unordered arrangements the library would produce. For that reason the two-dimensional scenario of `test/kdtree.cc:10-13` is not modelled: its printed order depends on the library's internal arrangement.
- The `RandomAccess` adapter and the `kdtree<N>(c)` factory (`src/kdtree.h:86-95`) are left out. The axis accessor is a constructor parameter. The OneDimensionalExample takes each one-coordinate point as its own coordinate.
- The two C++ constructors, moving or copying a collection, are one constructor taking a sequence. Move semantics and the template plumbing that selects between them are not modelled.
- `assign`, `if_less_assign` and `if_greater_assign` return their array by reference. The source never uses that return value, so the model's methods return nothing.
- `size_t` arithmetic is unbounded here. The overflow of `left + right` for vectors longer than half the address space is not modelled.
- `build_tree()` is modelled as taking `nodes` and `elements` as distinct arrays. In the source they are separate vectors of different types, so they cannot alias.
- The benchmark harness `test/time.cc` and all console printing are left out.
