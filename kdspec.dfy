/**
 * Specification of the k-d tree built by KDTree::build_tree (src/kdtree.h).
 *
 * An element is any value of type T; `pos(t, d)` is its coordinate on axis d
 * (the caller-supplied axis accessor). Coordinates are modelled as `int`, so
 * the extent `max - min` of a bounding box is exact.
 *
 * The tree is implicit: the node for the half-open range [left, right) sits at
 * index Median(left, right), its left subtree covers [left, median) and its
 * right subtree covers [median + 1, right).
 */
module KdSpec {

  /** Split metadata stored for one slot of the tree. */
  datatype Node = Node(axis: nat, position: int)

  /** The median index of [left, right): the slot of the node for that range. */
  function Median(left: nat, right: nat): (m: nat)
    ensures left <= right ==> left <= m <= right
    ensures right - left >= 2 ==> left < m < right
    // the left part [left, m) is as large as, or one larger than, the right part (m, right)
    ensures left < right ==> right - (m + 1) <= m - left <= right - m
  {
    (left + right) / 2
  }

  function Max(a: int, b: int): int
  {
    if a < b then b else a
  }

  // ---------------------------------------------------------------------------
  // Bounding box of a range

  /** The smallest coordinate on `axis` among es[lo..hi], folded left to right. */
  function MinCoord<T>(pos: (T, nat) -> int, es: seq<T>, lo: nat, hi: nat, axis: nat): int
    requires lo < hi <= |es|
    decreases hi
  {
    if hi == lo + 1 then pos(es[lo], axis)
    else
      var m := MinCoord(pos, es, lo, hi - 1, axis);
      var c := pos(es[hi - 1], axis);
      if m > c then c else m
  }

  /** The largest coordinate on `axis` among es[lo..hi], folded left to right. */
  function MaxCoord<T>(pos: (T, nat) -> int, es: seq<T>, lo: nat, hi: nat, axis: nat): int
    requires lo < hi <= |es|
    decreases hi
  {
    if hi == lo + 1 then pos(es[lo], axis)
    else
      var m := MaxCoord(pos, es, lo, hi - 1, axis);
      var c := pos(es[hi - 1], axis);
      if m < c then c else m
  }

  /**
   * The folded lower corner is at most every coordinate of the range on
   * that axis, and is one of them.
   */
  lemma {:induction false} MinCoordIsMin<T>(pos: (T, nat) -> int, es: seq<T>, lo: nat, hi: nat, axis: nat)
    requires lo < hi <= |es|
    ensures forall k :: lo <= k < hi ==> MinCoord(pos, es, lo, hi, axis) <= pos(es[k], axis)
    ensures exists k :: lo <= k < hi && MinCoord(pos, es, lo, hi, axis) == pos(es[k], axis)
    decreases hi
  {
    if hi > lo + 1 {
      MinCoordIsMin(pos, es, lo, hi - 1, axis);
      var k :| lo <= k < hi - 1 && MinCoord(pos, es, lo, hi - 1, axis) == pos(es[k], axis);
      if MinCoord(pos, es, lo, hi - 1, axis) > pos(es[hi - 1], axis) {
        assert MinCoord(pos, es, lo, hi, axis) == pos(es[hi - 1], axis);
      } else {
        assert MinCoord(pos, es, lo, hi, axis) == pos(es[k], axis);
      }
    } else {
      assert MinCoord(pos, es, lo, hi, axis) == pos(es[lo], axis);
    }
  }

  /**
   * The folded upper corner is at least every coordinate of the range on
   * that axis, and is one of them.
   */
  lemma {:induction false} MaxCoordIsMax<T>(pos: (T, nat) -> int, es: seq<T>, lo: nat, hi: nat, axis: nat)
    requires lo < hi <= |es|
    ensures forall k :: lo <= k < hi ==> pos(es[k], axis) <= MaxCoord(pos, es, lo, hi, axis)
    ensures exists k :: lo <= k < hi && MaxCoord(pos, es, lo, hi, axis) == pos(es[k], axis)
    decreases hi
  {
    if hi > lo + 1 {
      MaxCoordIsMax(pos, es, lo, hi - 1, axis);
      var k :| lo <= k < hi - 1 && MaxCoord(pos, es, lo, hi - 1, axis) == pos(es[k], axis);
      if MaxCoord(pos, es, lo, hi - 1, axis) < pos(es[hi - 1], axis) {
        assert MaxCoord(pos, es, lo, hi, axis) == pos(es[hi - 1], axis);
      } else {
        assert MaxCoord(pos, es, lo, hi, axis) == pos(es[k], axis);
      }
    } else {
      assert MaxCoord(pos, es, lo, hi, axis) == pos(es[lo], axis);
    }
  }

  /** The extent of the bounding box of es[lo..hi) on `axis`. */
  function Extent<T>(pos: (T, nat) -> int, es: seq<T>, lo: nat, hi: nat, axis: nat): int
    requires lo < hi <= |es|
  {
    MaxCoord(pos, es, lo, hi, axis) - MinCoord(pos, es, lo, hi, axis)
  }

  /**
   * `a` is the first index of a smallest value of `ext`: no value is
   * smaller than ext[a], and every value before it is strictly larger.
   */
  ghost predicate IsFirstMin(ext: seq<int>, a: nat)
  {
    a < |ext|
    && (forall i :: 0 <= i < |ext| ==> ext[a] <= ext[i])
    && (forall i :: 0 <= i < a ==> ext[a] < ext[i])
  }

  /**
   * The scan build_tree runs over the extents: index 0 first, then each
   * further index taken only when its value is strictly smaller than that
   * of the best index so far.
   */
  function FirstMin(ext: seq<int>): (a: nat)
    requires |ext| >= 1
    ensures IsFirstMin(ext, a)
    decreases |ext|
  {
    if |ext| == 1 then 0
    else
      var b := FirstMin(ext[..|ext| - 1]);
      if ext[|ext| - 1] < ext[b] then |ext| - 1 else b
  }

  /** The per-axis extents of the bounding box of es[lo..hi), on axes 0..n-1. */
  function Extents<T>(pos: (T, nat) -> int, n: nat, es: seq<T>, lo: nat, hi: nat): seq<int>
    requires lo < hi <= |es|
  {
    seq(n, i requires 0 <= i < n => Extent(pos, es, lo, hi, i))
  }

  /**
   * The axis build_tree splits es[lo..hi) on, scanning axes 0..n-1: axis 0
   * first, then each further axis taken only when its extent is strictly
   * smaller than that of the best axis so far.
   */
  function SplitAxisOf<T>(pos: (T, nat) -> int, n: nat, es: seq<T>, lo: nat, hi: nat): (a: nat)
    requires lo < hi <= |es|
    ensures n >= 1 ==> a < n
    decreases n
  {
    if n <= 1 then 0
    else
      var b := SplitAxisOf(pos, n - 1, es, lo, hi);
      if Extent(pos, es, lo, hi, n - 1) < Extent(pos, es, lo, hi, b) then n - 1 else b
  }

  /** The axis scan is FirstMin run over the range's extents. */
  lemma {:induction false} SplitAxisIsFirstMin<T>(pos: (T, nat) -> int, n: nat, es: seq<T>, lo: nat, hi: nat)
    requires lo < hi <= |es| && n >= 1
    ensures SplitAxisOf(pos, n, es, lo, hi) == FirstMin(Extents(pos, n, es, lo, hi))
    decreases n
  {
    if n > 1 {
      SplitAxisIsFirstMin(pos, n - 1, es, lo, hi);
      var ext := Extents(pos, n, es, lo, hi);
      assert ext[..n - 1] == Extents(pos, n - 1, es, lo, hi);
    }
  }

  /**
   * The split axis has the smallest bounding-box extent of all n axes, and
   * every axis before it a strictly larger one.
   */
  lemma SplitAxisSmallest<T>(pos: (T, nat) -> int, n: nat, es: seq<T>, lo: nat, hi: nat)
    requires lo < hi <= |es|
    ensures var a := SplitAxisOf(pos, n, es, lo, hi);
      (forall i :: 0 <= i < n ==> Extent(pos, es, lo, hi, a) <= Extent(pos, es, lo, hi, i))
      && (forall i :: 0 <= i < a ==> Extent(pos, es, lo, hi, a) < Extent(pos, es, lo, hi, i))
  {
    if n >= 1 {
      SplitAxisIsFirstMin(pos, n, es, lo, hi);
      var ext := Extents(pos, n, es, lo, hi);
      assert IsFirstMin(ext, SplitAxisOf(pos, n, es, lo, hi));
      assert forall i :: 0 <= i < n ==> ext[i] == Extent(pos, es, lo, hi, i);
    }
  }

  /** A value of a range's multiset sits at some slot of that range. */
  lemma InRange<T>(s: seq<T>, lo: int, hi: int, x: T) returns (j: int)
    requires 0 <= lo <= hi <= |s|
    requires x in multiset(s[lo..hi])
    ensures lo <= j < hi && s[j] == x
  {
    var i :| 0 <= i < hi - lo && s[lo..hi][i] == x;
    j := lo + i;
  }

  /**
   * The bounding box depends only on the multiset of points in the range:
   * two ranges holding the same points have the same corners.
   */
  lemma BoxAgrees<T>(pos: (T, nat) -> int, s: seq<T>, lo: nat, hi: nat, t: seq<T>, lo': nat, hi': nat, axis: nat)
    requires lo < hi <= |s| && lo' < hi' <= |t|
    requires multiset(s[lo..hi]) == multiset(t[lo'..hi'])
    ensures MinCoord(pos, s, lo, hi, axis) == MinCoord(pos, t, lo', hi', axis)
    ensures MaxCoord(pos, s, lo, hi, axis) == MaxCoord(pos, t, lo', hi', axis)
  {
    MinCoordIsMin(pos, s, lo, hi, axis);
    MinCoordIsMin(pos, t, lo', hi', axis);
    MaxCoordIsMax(pos, s, lo, hi, axis);
    MaxCoordIsMax(pos, t, lo', hi', axis);
    var ks :| lo <= ks < hi && MinCoord(pos, s, lo, hi, axis) == pos(s[ks], axis);
    assert s[ks] == s[lo..hi][ks - lo];
    var jt := InRange(t, lo', hi', s[ks]);
    var kt :| lo' <= kt < hi' && MinCoord(pos, t, lo', hi', axis) == pos(t[kt], axis);
    assert t[kt] == t[lo'..hi'][kt - lo'];
    var js := InRange(s, lo, hi, t[kt]);

    var ks' :| lo <= ks' < hi && MaxCoord(pos, s, lo, hi, axis) == pos(s[ks'], axis);
    assert s[ks'] == s[lo..hi][ks' - lo];
    var jt' := InRange(t, lo', hi', s[ks']);
    var kt' :| lo' <= kt' < hi' && MaxCoord(pos, t, lo', hi', axis) == pos(t[kt'], axis);
    assert t[kt'] == t[lo'..hi'][kt' - lo'];
    var js' := InRange(s, lo, hi, t[kt']);
  }

  /** Two ranges holding the same points are split on the same axis. */
  lemma SplitAxisOfAgrees<T>(pos: (T, nat) -> int, n: nat, s: seq<T>, t: seq<T>, lo: nat, hi: nat)
    requires lo < hi <= |s| && hi <= |t|
    requires multiset(s[lo..hi]) == multiset(t[lo..hi])
    ensures SplitAxisOf(pos, n, s, lo, hi) == SplitAxisOf(pos, n, t, lo, hi)
  {
    forall i | 0 <= i < n
      ensures Extent(pos, s, lo, hi, i) == Extent(pos, t, lo, hi, i)
    {
      BoxAgrees(pos, s, lo, hi, t, lo, hi, i);
    }
    if n >= 1 {
      assert Extents(pos, n, s, lo, hi) == Extents(pos, n, t, lo, hi);
      SplitAxisIsFirstMin(pos, n, s, lo, hi);
      SplitAxisIsFirstMin(pos, n, t, lo, hi);
    }
  }

  // ---------------------------------------------------------------------------
  // Partition predicates

  ghost predicate AllAtMost<T>(pos: (T, nat) -> int, es: seq<T>, lo: nat, hi: nat, axis: nat, v: int)
    requires lo <= hi <= |es|
  {
    forall k :: lo <= k < hi ==> pos(es[k], axis) <= v
  }

  ghost predicate AllAtLeast<T>(pos: (T, nat) -> int, es: seq<T>, lo: nat, hi: nat, axis: nat, v: int)
    requires lo <= hi <= |es|
  {
    forall k :: lo <= k < hi ==> v <= pos(es[k], axis)
  }

  /** t is s with only the slots [lo, hi) reordered among themselves. */
  ghost predicate Permuted<T>(s: seq<T>, t: seq<T>, lo: int, hi: int)
  {
    0 <= lo <= hi <= |s| == |t|
    && (forall k :: 0 <= k < |s| && !(lo <= k < hi) ==> s[k] == t[k])
    && multiset(s[lo..hi]) == multiset(t[lo..hi])
  }

  /**
   * The range [left, right) of (es, ns) is a k-d subtree: if it has at least
   * two slots, the node at its median records an axis below n and the
   * median element's coordinate on it, the elements before the median are
   * at most that coordinate, those after it at least, and both halves are
   * k-d subtrees in turn.
   */
  ghost predicate KdRange<T>(pos: (T, nat) -> int, n: nat, es: seq<T>, ns: seq<Node>, left: nat, right: nat)
    requires left <= right <= |es| == |ns|
    decreases right - left
  {
    right - left <= 1 ||
    (var m := Median(left, right);
     var a := ns[m].axis;
     a < n
     && ns[m].position == pos(es[m], a)
     && AllAtMost(pos, es, left, m, a, ns[m].position)
     && AllAtLeast(pos, es, m + 1, right, a, ns[m].position)
     && KdRange(pos, n, es, ns, left, m)
     && KdRange(pos, n, es, ns, m + 1, right))
  }

  /**
   * k is the median of [left, right) or, recursively, of one of its halves:
   * a slot whose node build_tree writes. The other slots of the range are
   * the leaves, whose nodes it leaves as they were.
   */
  ghost predicate IsSplitSlot(left: nat, right: nat, k: int)
    decreases right - left
  {
    left <= k < right && right - left > 1 &&
    (var m := Median(left, right);
     k == m || IsSplitSlot(left, m, k) || IsSplitSlot(m + 1, right, k))
  }

  /** ns' is ns with at most the slots [left, right) changed. */
  ghost predicate NodesKeptOutside(ns: seq<Node>, ns': seq<Node>, left: int, right: int)
  {
    |ns'| == |ns| && forall k :: 0 <= k < |ns| && !(left <= k < right) ==> ns'[k] == ns[k]
  }

  /** ns' is ns with at most the split slots of [left, right) changed. */
  ghost predicate LeavesKept(ns: seq<Node>, ns': seq<Node>, left: nat, right: nat)
  {
    |ns'| == |ns| && forall k :: 0 <= k < |ns| && !IsSplitSlot(left, right, k) ==> ns'[k] == ns[k]
  }

  /**
   * Every median of the range [left, right) of (es, ns) records the axis
   * build_tree chooses for its range: the first axis of smallest
   * bounding-box extent over that range's points.
   */
  ghost predicate SplitAxesChosen<T>(pos: (T, nat) -> int, n: nat, es: seq<T>, ns: seq<Node>, left: nat, right: nat)
    requires left <= right <= |es| == |ns|
    decreases right - left
  {
    right - left <= 1 ||
    (var m := Median(left, right);
     ns[m].axis == SplitAxisOf(pos, n, es, left, right)
     && SplitAxesChosen(pos, n, es, ns, left, m)
     && SplitAxesChosen(pos, n, es, ns, m + 1, right))
  }

  // ---------------------------------------------------------------------------
  // Permutations of a sub-range

  /** Every element of a permuted range came from that range. */
  lemma PermutedSource<T>(s: seq<T>, t: seq<T>, lo: int, hi: int, k: int) returns (j: int)
    requires Permuted(s, t, lo, hi)
    requires lo <= k < hi
    ensures lo <= j < hi && s[j] == t[k]
  {
    assert t[k] == t[lo..hi][k - lo];
    assert t[k] in multiset(s[lo..hi]);
    var i :| 0 <= i < hi - lo && s[lo..hi][i] == t[k];
    j := lo + i;
  }

  /** Reordering a range keeps an upper bound on its coordinates. */
  lemma PermutedKeepsAtMost<T>(pos: (T, nat) -> int, s: seq<T>, t: seq<T>, lo: nat, hi: nat, axis: nat, v: int)
    requires Permuted(s, t, lo, hi)
    requires AllAtMost(pos, s, lo, hi, axis, v)
    ensures AllAtMost(pos, t, lo, hi, axis, v)
  {
    forall k | lo <= k < hi
      ensures pos(t[k], axis) <= v
    {
      var j := PermutedSource(s, t, lo, hi, k);
    }
  }

  /** Reordering a range keeps a lower bound on its coordinates. */
  lemma PermutedKeepsAtLeast<T>(pos: (T, nat) -> int, s: seq<T>, t: seq<T>, lo: nat, hi: nat, axis: nat, v: int)
    requires Permuted(s, t, lo, hi)
    requires AllAtLeast(pos, s, lo, hi, axis, v)
    ensures AllAtLeast(pos, t, lo, hi, axis, v)
  {
    forall k | lo <= k < hi
      ensures v <= pos(t[k], axis)
    {
      var j := PermutedSource(s, t, lo, hi, k);
    }
  }

  lemma PermutedTrans<T>(s: seq<T>, t: seq<T>, u: seq<T>, lo: int, hi: int)
    requires Permuted(s, t, lo, hi) && Permuted(t, u, lo, hi)
    ensures Permuted(s, u, lo, hi)
  {
  }

  /** A reordering of [lo, hi) is also a reordering of any enclosing range. */
  lemma PermutedWiden<T>(s: seq<T>, t: seq<T>, lo: int, hi: int, lo': int, hi': int)
    requires Permuted(s, t, lo, hi)
    requires 0 <= lo' <= lo && hi <= hi' <= |s|
    ensures Permuted(s, t, lo', hi')
  {
    assert s[lo'..hi'] == s[lo'..lo] + s[lo..hi] + s[hi..hi'];
    assert t[lo'..hi'] == t[lo'..lo] + t[lo..hi] + t[hi..hi'];
    assert s[lo'..lo] == t[lo'..lo];
    assert s[hi..hi'] == t[hi..hi'];
  }

  /** Exchanging two slots of [lo, hi) reorders [lo, hi). */
  lemma SwapPermuted<T>(s: seq<T>, i: int, j: int, lo: int, hi: int)
    requires 0 <= lo <= i < hi <= |s| && lo <= j < hi
    ensures Permuted(s, s[i := s[j]][j := s[i]], lo, hi)
  {
  }

  // ---------------------------------------------------------------------------
  // The k-d tree property is local to its range

  /** A k-d subtree only depends on the slots of its own range. */
  lemma {:induction false} KdRangeFrame<T>(pos: (T, nat) -> int, n: nat, es: seq<T>, ns: seq<Node>,
                                           es': seq<T>, ns': seq<Node>, left: nat, right: nat)
    requires left <= right <= |es| == |ns| && |es'| == |es| && |ns'| == |ns|
    requires forall k :: left <= k < right ==> es[k] == es'[k] && ns[k] == ns'[k]
    requires KdRange(pos, n, es, ns, left, right)
    ensures KdRange(pos, n, es', ns', left, right)
    decreases right - left
  {
    if right - left > 1 {
      var m := Median(left, right);
      KdRangeFrame(pos, n, es, ns, es', ns', left, m);
      KdRangeFrame(pos, n, es, ns, es', ns', m + 1, right);
    }
  }

  /**
   * Building the two halves of a range partitioned at its median keeps the
   * partition: the left build only reorders [left, m) and writes nodes there,
   * the right build only reorders (m, right) and writes nodes there, so the
   * median slot, its node and the bounds on each side all survive, and the
   * whole range becomes a k-d subtree that is a reordering of the
   * partitioned one.
   */
  lemma SubtreesCompose<T>(pos: (T, nat) -> int, n: nat, left: nat, right: nat,
                           e1: seq<T>, n1: seq<Node>, e2: seq<T>, n2: seq<Node>, e3: seq<T>, n3: seq<Node>)
    requires right - left > 1 && right <= |e1| == |n1|
    requires var m := Median(left, right);
      n1[m].axis < n && n1[m].position == pos(e1[m], n1[m].axis)
      && AllAtMost(pos, e1, left, m, n1[m].axis, n1[m].position)
      && AllAtLeast(pos, e1, m + 1, right, n1[m].axis, n1[m].position)
    // the left build
    requires Permuted(e1, e2, left, Median(left, right)) && NodesKeptOutside(n1, n2, left, Median(left, right))
    requires KdRange(pos, n, e2, n2, left, Median(left, right))
    // the right build
    requires Permuted(e2, e3, Median(left, right) + 1, right) && NodesKeptOutside(n2, n3, Median(left, right) + 1, right)
    requires KdRange(pos, n, e3, n3, Median(left, right) + 1, right)
    ensures Permuted(e1, e3, left, right)
    ensures KdRange(pos, n, e3, n3, left, right)
  {
    var m := Median(left, right);
    var a, v := n1[m].axis, n1[m].position;
    assert e3[m] == e2[m] == e1[m] && n3[m] == n2[m] == n1[m];
    PermutedKeepsAtMost(pos, e1, e2, left, m, a, v);
    assert AllAtMost(pos, e3, left, m, a, v);
    assert AllAtLeast(pos, e2, m + 1, right, a, v);
    PermutedKeepsAtLeast(pos, e2, e3, m + 1, right, a, v);
    KdRangeFrame(pos, n, e2, n2, e3, n3, left, m);
    PermutedWiden(e1, e2, left, m, left, right);
    PermutedWiden(e2, e3, m + 1, right, left, right);
    PermutedTrans(e1, e2, e3, left, right);
  }

  /** The split axes of a subtree depend only on the slots of its own range. */
  lemma {:induction false} SplitAxesFrame<T>(pos: (T, nat) -> int, n: nat, es: seq<T>, ns: seq<Node>,
                                             es': seq<T>, ns': seq<Node>, left: nat, right: nat)
    requires left <= right <= |es| == |ns| && |es'| == |es| && |ns'| == |ns|
    requires forall k :: left <= k < right ==> es[k] == es'[k] && ns[k] == ns'[k]
    requires SplitAxesChosen(pos, n, es, ns, left, right)
    ensures SplitAxesChosen(pos, n, es', ns', left, right)
    decreases right - left
  {
    if right - left > 1 {
      var m := Median(left, right);
      assert es[left..right] == es'[left..right];
      SplitAxisOfAgrees(pos, n, es, es', left, right);
      SplitAxesFrame(pos, n, es, ns, es', ns', left, m);
      SplitAxesFrame(pos, n, es, ns, es', ns', m + 1, right);
    }
  }

  /**
   * The axis written at the median before the two recursive builds is still
   * the split axis of the reordered range after them, and the two halves
   * bring their own split axes, so the whole range records the chosen axis
   * at every median.
   */
  lemma SplitAxesCompose<T>(pos: (T, nat) -> int, n: nat, left: nat, right: nat,
                            e1: seq<T>, n1: seq<Node>, e2: seq<T>, n2: seq<Node>, e3: seq<T>, n3: seq<Node>)
    requires right - left > 1 && right <= |e1| == |n1|
    requires n1[Median(left, right)].axis == SplitAxisOf(pos, n, e1, left, right)
    requires Permuted(e1, e3, left, right)
    requires Permuted(e1, e2, left, Median(left, right)) && NodesKeptOutside(n1, n2, left, Median(left, right))
    requires SplitAxesChosen(pos, n, e2, n2, left, Median(left, right))
    requires Permuted(e2, e3, Median(left, right) + 1, right) && NodesKeptOutside(n2, n3, Median(left, right) + 1, right)
    requires SplitAxesChosen(pos, n, e3, n3, Median(left, right) + 1, right)
    ensures SplitAxesChosen(pos, n, e3, n3, left, right)
  {
    var m := Median(left, right);
    SplitAxisOfAgrees(pos, n, e1, e3, left, right);
    assert n3[m] == n1[m];
    SplitAxesFrame(pos, n, e2, n2, e3, n3, left, m);
  }

  /**
   * build_tree on a range writes the median's node and leaves the rest to
   * its two recursive calls, so the only nodes that change are those at
   * split slots of the range.
   */
  lemma LeafNodesKept(left: nat, right: nat, n0: seq<Node>, n1: seq<Node>, n2: seq<Node>, n3: seq<Node>)
    requires right - left > 1
    requires NodesKeptOutside(n0, n1, Median(left, right), Median(left, right) + 1)
    requires LeavesKept(n1, n2, left, Median(left, right))
    requires LeavesKept(n2, n3, Median(left, right) + 1, right)
    ensures LeavesKept(n0, n3, left, right)
  {
    var m := Median(left, right);
    forall k | 0 <= k < |n3| && !IsSplitSlot(left, right, k)
      ensures n3[k] == n0[k]
    {
      if left <= k < right {
        assert k != m && !IsSplitSlot(left, m, k) && !IsSplitSlot(m + 1, right, k);
      } else {
        assert !IsSplitSlot(left, m, k) && !IsSplitSlot(m + 1, right, k);
      }
    }
  }

  /**
   * What one split does to the range [left, right) of (e0, n0), giving
   * (e1, n1): the elements are reordered within the range, only the
   * median's node is written, and it holds the chosen axis and the median
   * element's coordinate on it, with the range partitioned around that
   * coordinate.
   */
  ghost predicate SplitAt<T>(pos: (T, nat) -> int, n: nat, e0: seq<T>, n0: seq<Node>, e1: seq<T>, n1: seq<Node>,
                             left: nat, right: nat)
  {
    right - left > 1 && right <= |e0| == |n0|
    && Permuted(e0, e1, left, right)
    && NodesKeptOutside(n0, n1, Median(left, right), Median(left, right) + 1)
    && (var m := Median(left, right);
        n1[m].axis < n && n1[m].axis == SplitAxisOf(pos, n, e1, left, right)
        && n1[m].position == pos(e1[m], n1[m].axis)
        && AllAtMost(pos, e1, left, m, n1[m].axis, n1[m].position)
        && AllAtLeast(pos, e1, m + 1, right, n1[m].axis, n1[m].position))
  }

  /**
   * What building the range [left, right) of (e0, n0) leaves, as (e, ns):
   * the elements are reordered within the range, only the split slots of
   * the range hold new nodes, and the range is a k-d subtree with the
   * chosen axis at every median.
   */
  ghost predicate Built<T>(pos: (T, nat) -> int, n: nat, e0: seq<T>, n0: seq<Node>, e: seq<T>, ns: seq<Node>,
                           left: nat, right: nat)
  {
    Permuted(e0, e, left, right) && |n0| == |e0|
    && NodesKeptOutside(n0, ns, left, right) && LeavesKept(n0, ns, left, right)
    && KdRange(pos, n, e, ns, left, right) && SplitAxesChosen(pos, n, e, ns, left, right)
  }

  /**
   * One level of build_tree: a split at the median followed by the builds
   * of its two halves builds the whole range.
   */
  lemma BuildStep<T>(pos: (T, nat) -> int, n: nat, left: nat, right: nat, e0: seq<T>, n0: seq<Node>,
                     e1: seq<T>, n1: seq<Node>, e2: seq<T>, n2: seq<Node>, e3: seq<T>, n3: seq<Node>)
    requires SplitAt(pos, n, e0, n0, e1, n1, left, right)
    requires Built(pos, n, e1, n1, e2, n2, left, Median(left, right))
    requires Built(pos, n, e2, n2, e3, n3, Median(left, right) + 1, right)
    ensures Built(pos, n, e0, n0, e3, n3, left, right)
  {
    SubtreesCompose(pos, n, left, right, e1, n1, e2, n2, e3, n3);
    SplitAxesCompose(pos, n, left, right, e1, n1, e2, n2, e3, n3);
    PermutedTrans(e0, e1, e3, left, right);
    LeafNodesKept(left, right, n0, n1, n2, n3);
  }

  // ---------------------------------------------------------------------------
  // One dimension: a k-d tree is a sorted array

  /**
   * With a single axis every split is on axis 0, so the partition at each
   * median, applied recursively, orders the whole range.
   */
  lemma {:induction false} KdRangeOneAxisSorted<T>(pos: (T, nat) -> int, es: seq<T>, ns: seq<Node>, left: nat, right: nat)
    requires left <= right <= |es| == |ns|
    requires KdRange(pos, 1, es, ns, left, right)
    ensures forall i, j :: left <= i < j < right ==> pos(es[i], 0) <= pos(es[j], 0)
    decreases right - left
  {
    if right - left > 1 {
      var m := Median(left, right);
      KdRangeOneAxisSorted(pos, es, ns, left, m);
      KdRangeOneAxisSorted(pos, es, ns, m + 1, right);
      assert ns[m].axis == 0;
      forall i, j | left <= i < j < right
        ensures pos(es[i], 0) <= pos(es[j], 0)
      {
        if i < m && m < j {
          assert pos(es[i], 0) <= pos(es[m], 0) <= pos(es[j], 0);
        }
      }
    }
  }

  predicate Ascending(s: seq<int>)
  {
    forall i, j :: 0 <= i < j < |s| ==> s[i] <= s[j]
  }

  /** Two ascending arrangements of the same multiset of integers are equal. */
  lemma {:induction false} AscendingUnique(a: seq<int>, b: seq<int>)
    requires Ascending(a) && Ascending(b)
    requires multiset(a) == multiset(b)
    ensures a == b
    decreases |a|
  {
    assert |a| == |multiset(a)| == |multiset(b)| == |b|;
    if |a| > 0 {
      assert a[0] in multiset(b);
      assert b[0] in multiset(a);
      assert a[0] == b[0];
      assert a == [a[0]] + a[1..];
      assert b == [b[0]] + b[1..];
      assert multiset(a) == multiset{a[0]} + multiset(a[1..]);
      assert multiset(b) == multiset{b[0]} + multiset(b[1..]);
      assert multiset(a[1..]) == multiset(a) - multiset{a[0]} == multiset(b[1..]);
      AscendingUnique(a[1..], b[1..]);
    }
  }

  /**
   * A one-dimensional k-d tree over integer points (each point its own
   * coordinate) is the unique ascending arrangement of its values.
   */
  lemma OneAxisTreeIsSorted(pos: (int, nat) -> int, es: seq<int>, ns: seq<Node>, sorted: seq<int>)
    requires forall x :: pos(x, 0) == x
    requires |es| == |ns| && KdRange(pos, 1, es, ns, 0, |es|)
    requires Ascending(sorted) && multiset(es) == multiset(sorted)
    ensures es == sorted
  {
    KdRangeOneAxisSorted(pos, es, ns, 0, |es|);
    assert Ascending(es);
    AscendingUnique(es, sorted);
  }

  // ---------------------------------------------------------------------------
  // The median holds its sorted-order element

  /** How many elements of s lie strictly below v on `axis`. */
  function CountBelow<T>(pos: (T, nat) -> int, s: seq<T>, axis: nat, v: int): (c: nat)
    ensures c <= |s|
  {
    if s == [] then 0
    else (if pos(s[0], axis) < v then 1 else 0) + CountBelow(pos, s[1..], axis, v)
  }

  /** How many elements of s lie strictly above v on `axis`. */
  function CountAbove<T>(pos: (T, nat) -> int, s: seq<T>, axis: nat, v: int): (c: nat)
    ensures c <= |s|
  {
    if s == [] then 0
    else (if v < pos(s[0], axis) then 1 else 0) + CountAbove(pos, s[1..], axis, v)
  }

  lemma {:induction false} CountsSplit<T>(pos: (T, nat) -> int, a: seq<T>, b: seq<T>, axis: nat, v: int)
    ensures CountBelow(pos, a + b, axis, v) == CountBelow(pos, a, axis, v) + CountBelow(pos, b, axis, v)
    ensures CountAbove(pos, a + b, axis, v) == CountAbove(pos, a, axis, v) + CountAbove(pos, b, axis, v)
    decreases |a|
  {
    if a != [] {
      assert (a + b)[0] == a[0];
      assert (a + b)[1..] == a[1..] + b;
      CountsSplit(pos, a[1..], b, axis, v);
    } else {
      assert a + b == b;
    }
  }

  lemma {:induction false} NoneBelow<T>(pos: (T, nat) -> int, s: seq<T>, axis: nat, v: int)
    requires forall k :: 0 <= k < |s| ==> v <= pos(s[k], axis)
    ensures CountBelow(pos, s, axis, v) == 0
    decreases |s|
  {
    if s != [] {
      NoneBelow(pos, s[1..], axis, v);
    }
  }

  lemma {:induction false} NoneAbove<T>(pos: (T, nat) -> int, s: seq<T>, axis: nat, v: int)
    requires forall k :: 0 <= k < |s| ==> pos(s[k], axis) <= v
    ensures CountAbove(pos, s, axis, v) == 0
    decreases |s|
  {
    if s != [] {
      NoneAbove(pos, s[1..], axis, v);
    }
  }

  /**
   * A range partitioned at m holds at m an element of rank m - lo: at most
   * m - lo elements of the range lie strictly below it and at most hi - 1 - m
   * strictly above it, so some fully sorted arrangement of the range puts it
   * at m.
   */
  lemma MedianRank<T>(pos: (T, nat) -> int, es: seq<T>, lo: nat, m: nat, hi: nat, axis: nat)
    requires lo <= m < hi <= |es|
    requires AllAtMost(pos, es, lo, m, axis, pos(es[m], axis))
    requires AllAtLeast(pos, es, m + 1, hi, axis, pos(es[m], axis))
    ensures CountBelow(pos, es[lo..hi], axis, pos(es[m], axis)) <= m - lo
    ensures CountAbove(pos, es[lo..hi], axis, pos(es[m], axis)) <= hi - 1 - m
  {
    var v := pos(es[m], axis);
    var before, after := es[lo..m], es[m + 1..hi];
    assert es[lo..hi] == before + ([es[m]] + after);
    CountsSplit(pos, before, [es[m]] + after, axis, v);
    CountsSplit(pos, [es[m]], after, axis, v);
    assert forall k :: 0 <= k < |after| ==> after[k] == es[m + 1 + k];
    assert forall k :: 0 <= k < |before| ==> before[k] == es[lo + k];
    NoneBelow(pos, after, axis, v);
    NoneAbove(pos, before, axis, v);
    assert [es[m]][1..] == [];
  }

  // ---------------------------------------------------------------------------
  // Balance

  function Pow2(h: nat): nat
  {
    if h == 0 then 1 else 2 * Pow2(h - 1)
  }

  /** Number of levels of the implicit tree over [left, right): build_tree's recursion depth. */
  function Depth(left: nat, right: nat): nat
    requires left <= right
    decreases right - left
  {
    if right - left <= 1 then right - left
    else
      var m := Median(left, right);
      1 + Max(Depth(left, m), Depth(m + 1, right))
  }

  /** A range of fewer than 2^h elements builds a tree of at most h levels. */
  lemma {:induction false} DepthBound(left: nat, right: nat, h: nat)
    requires left <= right
    requires right - left < Pow2(h)
    ensures Depth(left, right) <= h
    decreases right - left
  {
    if right - left > 1 {
      var m := Median(left, right);
      assert h > 0;
      assert Pow2(h) == 2 * Pow2(h - 1);
      DepthBound(left, m, h - 1);
      DepthBound(m + 1, right, h - 1);
    } else if right - left == 1 {
      assert h > 0;
    }
  }
}
