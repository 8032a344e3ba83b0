/**
 * The k-d tree builder of src/kdtree.h: class KDTree<T, N, A>.
 *
 * `elements` and `nodes` are the two index-aligned arrays of the tree; the
 * builder reorders `elements` in place and writes `nodes` at every median.
 * The axis accessor A is the constant `axisPosition`; N is the constant `N`.
 */
module KdTree {
  import opened KdSpec

  /** The per-axis extents hi[i] - lo[i] of a bounding box. */
  function Spread(lo: seq<int>, hi: seq<int>): seq<int>
    requires |lo| == |hi|
  {
    seq(|lo|, i requires 0 <= i < |lo| => hi[i] - lo[i])
  }

  /** A box whose corners are the folded minima and maxima has the range's extents. */
  lemma SpreadIsExtents<T>(bbmin: seq<int>, bbmax: seq<int>, pos: (T, nat) -> int, n: nat, es: seq<T>, lo: nat, hi: nat)
    requires lo < hi <= |es| && |bbmin| == |bbmax| == n
    requires forall i :: 0 <= i < n ==>
      bbmin[i] == MinCoord(pos, es, lo, hi, i) && bbmax[i] == MaxCoord(pos, es, lo, hi, i)
    ensures Spread(bbmin, bbmax) == Extents(pos, n, es, lo, hi)
  {
  }

  /**
   * The split axis for a bounding box: the first axis whose extent
   * bbmax[i] - bbmin[i] is smallest (strict comparison, so ties keep the
   * lower index).
   */
  method SplitAxis(bbmin: array<int>, bbmax: array<int>) returns (axis: nat)
    requires 1 <= bbmin.Length == bbmax.Length
    ensures axis == FirstMin(Spread(bbmin[..], bbmax[..]))
    ensures axis < bbmin.Length
    ensures forall i :: 0 <= i < bbmin.Length ==> bbmax[axis] - bbmin[axis] <= bbmax[i] - bbmin[i]
    ensures forall i :: 0 <= i < axis ==> bbmax[axis] - bbmin[axis] < bbmax[i] - bbmin[i]
  {
    ghost var ext := Spread(bbmin[..], bbmax[..]);
    axis := 0;
    // named after the source's variable; it holds the smallest extent seen so far
    var maxBound := bbmax[0] - bbmin[0];
    for i := 1 to bbmin.Length
      invariant axis < i
      invariant axis == FirstMin(ext[..i])
      invariant maxBound == ext[axis]
    {
      assert ext[..i + 1][..i] == ext[..i];
      if bbmax[i] - bbmin[i] < maxBound {
        axis := i;
        maxBound := bbmax[i] - bbmin[i];
      }
    }
    assert ext[..bbmin.Length] == ext;
    assert IsFirstMin(ext, axis);
    assert forall i :: 0 <= i < bbmin.Length ==> ext[i] == bbmax[i] - bbmin[i];
  }

  // ---------------------------------------------------------------------------
  // Partition and selection, on sequences

  /**
   * The state of a Lomuto partition of s0[lo..hi) around its last element,
   * after scanning [lo, j): s is a reordering of the range with the pivot
   * still last, the slots [lo, i) hold coordinates below the pivot's and
   * [i, j) hold coordinates at least the pivot's.
   */
  ghost predicate LomutoInv<T>(pos: (T, nat) -> int, s0: seq<T>, s: seq<T>, lo: nat, hi: nat, i: nat, j: nat, axis: nat)
  {
    lo <= i <= j < hi <= |s0|
    && Permuted(s0, s, lo, hi)
    && s[hi - 1] == s0[hi - 1]
    && AllAtMost(pos, s, lo, i, axis, pos(s0[hi - 1], axis))
    && AllAtLeast(pos, s, i, j, axis, pos(s0[hi - 1], axis))
  }

  /** Scanning an element at least the pivot leaves it where it is. */
  lemma LomutoKeep<T>(pos: (T, nat) -> int, s0: seq<T>, s: seq<T>, lo: nat, hi: nat, i: nat, j: nat, axis: nat)
    requires LomutoInv(pos, s0, s, lo, hi, i, j, axis) && j < hi - 1
    requires pos(s0[hi - 1], axis) <= pos(s[j], axis)
    ensures LomutoInv(pos, s0, s, lo, hi, i, j + 1, axis)
  {
  }

  /** Scanning an element below the pivot swaps it to slot i. */
  lemma LomutoSwap<T>(pos: (T, nat) -> int, s0: seq<T>, s: seq<T>, lo: nat, hi: nat, i: nat, j: nat, axis: nat)
    requires LomutoInv(pos, s0, s, lo, hi, i, j, axis) && j < hi - 1
    requires pos(s[j], axis) < pos(s0[hi - 1], axis)
    ensures LomutoInv(pos, s0, s[i := s[j]][j := s[i]], lo, hi, i + 1, j + 1, axis)
  {
    var t := s[i := s[j]][j := s[i]];
    SwapPermuted(s, i, j, lo, hi);
    PermutedTrans(s0, s, t, lo, hi);
  }

  /** The final swap puts the pivot at slot i, between the two sides. */
  lemma LomutoFinish<T>(pos: (T, nat) -> int, s0: seq<T>, s: seq<T>, lo: nat, hi: nat, i: nat, axis: nat)
    requires lo < hi && LomutoInv(pos, s0, s, lo, hi, i, hi - 1, axis)
    ensures var t := s[i := s[hi - 1]][hi - 1 := s[i]];
      Permuted(s0, t, lo, hi) && t[i] == s0[hi - 1]
      && AllAtMost(pos, t, lo, i, axis, pos(t[i], axis))
      && AllAtLeast(pos, t, i + 1, hi, axis, pos(t[i], axis))
  {
    var t := s[i := s[hi - 1]][hi - 1 := s[i]];
    SwapPermuted(s, i, hi - 1, lo, hi);
    PermutedTrans(s0, s, t, lo, hi);
  }

  /**
   * The state of quickselect on s0[left..right) for slot nth: s is a
   * reordering of the range, nth lies in [lo, hi), and no coordinate before
   * lo or hi exceeds one from lo or hi on.
   */
  ghost predicate SelectInv<T>(pos: (T, nat) -> int, s0: seq<T>, s: seq<T>, left: nat, right: nat,
                               lo: nat, hi: nat, nth: nat, axis: nat)
  {
    left <= lo <= nth < hi <= right
    && Permuted(s0, s, left, right)
    && (forall i, j :: left <= i < lo <= j < right ==> pos(s[i], axis) <= pos(s[j], axis))
    && (forall i, j :: left <= i < hi <= j < right ==> pos(s[i], axis) <= pos(s[j], axis))
  }

  /** A partition of [lo, hi) at p narrows the search to the side holding nth. */
  lemma SelectStep<T>(pos: (T, nat) -> int, s0: seq<T>, s: seq<T>, t: seq<T>, left: nat, right: nat,
                      lo: nat, hi: nat, nth: nat, axis: nat, p: nat)
    requires SelectInv(pos, s0, s, left, right, lo, hi, nth, axis)
    requires Permuted(s, t, lo, hi) && lo <= p < hi
    requires AllAtMost(pos, t, lo, p, axis, pos(t[p], axis))
    requires AllAtLeast(pos, t, p + 1, hi, axis, pos(t[p], axis))
    ensures nth < p ==> SelectInv(pos, s0, t, left, right, lo, p, nth, axis)
    ensures p < nth ==> SelectInv(pos, s0, t, left, right, p + 1, hi, nth, axis)
    ensures p == nth ==> SelectInv(pos, s0, t, left, right, p, p + 1, nth, axis)
  {
    PermutedWiden(s, t, lo, hi, left, right);
    PermutedTrans(s0, s, t, left, right);
    // the outer bounds survive the reordering of [lo, hi)
    forall i | left <= i < lo
      ensures AllAtLeast(pos, t, lo, hi, axis, pos(t[i], axis))
    {
      PermutedKeepsAtLeast(pos, s, t, lo, hi, axis, pos(s[i], axis));
    }
    forall j | hi <= j < right
      ensures AllAtMost(pos, t, lo, hi, axis, pos(t[j], axis))
    {
      PermutedKeepsAtMost(pos, s, t, lo, hi, axis, pos(s[j], axis));
    }
  }

  /** Once the search range is the single slot nth, s is partitioned at nth. */
  lemma SelectDone<T>(pos: (T, nat) -> int, s0: seq<T>, s: seq<T>, left: nat, right: nat,
                      lo: nat, hi: nat, nth: nat, axis: nat)
    requires SelectInv(pos, s0, s, left, right, lo, hi, nth, axis) && hi - lo <= 1
    ensures AllAtMost(pos, s, left, nth, axis, pos(s[nth], axis))
    ensures AllAtLeast(pos, s, nth + 1, right, axis, pos(s[nth], axis))
  {
  }

  class KDTree<T> {
    const axisPosition: (T, nat) -> int
    const N: nat
    var nodes: array<Node>
    var elements: array<T>

    ghost predicate Valid()
      reads this
    {
      N >= 1 && nodes.Length == elements.Length && elements as object != nodes as object
    }

    /** The k-d tree property over the whole of `elements` and `nodes`. */
    ghost predicate IsKdTree()
      reads this, elements, nodes
      requires Valid()
    {
      KdRange(axisPosition, N, elements[..], nodes[..], 0, elements.Length)
      && SplitAxesChosen(axisPosition, N, elements[..], nodes[..], 0, elements.Length)
    }

    /** Builds the tree over a copy of `input` (both public constructors). */
    constructor (input: seq<T>, axisPosition: (T, nat) -> int, N: nat)
      requires N >= 1
      ensures this.axisPosition == axisPosition && this.N == N
      ensures Valid() && fresh(elements) && fresh(nodes)
      ensures multiset(elements[..]) == multiset(input)
      ensures IsKdTree()
      ensures forall k :: 0 <= k < nodes.Length && !IsSplitSlot(0, nodes.Length, k) ==> nodes[k] == Node(0, 0)
    {
      this.axisPosition := axisPosition;
      this.N := N;
      elements := new T[|input|](i requires 0 <= i < |input| => input[i]);
      nodes := new Node[0];
      new;
      assert elements[..] == input;
      BuildAll();
    }

    /** Copies the coordinates of t into a. */
    method Assign(a: array<int>, t: T)
      requires a.Length == N
      modifies a
      ensures forall i :: 0 <= i < N ==> a[i] == axisPosition(t, i)
    {
      for i := 0 to N
        invariant forall k :: 0 <= k < i ==> a[k] == axisPosition(t, k)
      {
        a[i] := axisPosition(t, i);
      }
    }

    /** Lowers each a[i] to t's coordinate on axis i where that is smaller. */
    method IfLessAssign(a: array<int>, t: T)
      requires a.Length == N
      modifies a
      ensures forall i :: 0 <= i < N ==>
        a[i] <= old(a[i]) && a[i] <= axisPosition(t, i) && (a[i] == old(a[i]) || a[i] == axisPosition(t, i))
    {
      for i := 0 to N
        invariant forall k :: 0 <= k < i ==>
          a[k] <= old(a[k]) && a[k] <= axisPosition(t, k) && (a[k] == old(a[k]) || a[k] == axisPosition(t, k))
        invariant forall k :: i <= k < N ==> a[k] == old(a[k])
      {
        if a[i] > axisPosition(t, i) {
          a[i] := axisPosition(t, i);
        }
      }
    }

    /** Raises each a[i] to t's coordinate on axis i where that is larger. */
    method IfGreaterAssign(a: array<int>, t: T)
      requires a.Length == N
      modifies a
      ensures forall i :: 0 <= i < N ==>
        old(a[i]) <= a[i] && axisPosition(t, i) <= a[i] && (a[i] == old(a[i]) || a[i] == axisPosition(t, i))
    {
      for i := 0 to N
        invariant forall k :: 0 <= k < i ==>
          old(a[k]) <= a[k] && axisPosition(t, k) <= a[k] && (a[k] == old(a[k]) || a[k] == axisPosition(t, k))
        invariant forall k :: i <= k < N ==> a[k] == old(a[k])
      {
        if a[i] < axisPosition(t, i) {
          a[i] := axisPosition(t, i);
        }
      }
    }

    /** The bounding box of elements[left..right), built in one pass. */
    method BoundingBox(left: nat, right: nat) returns (bbmin: array<int>, bbmax: array<int>)
      requires Valid() && left < right <= elements.Length
      ensures fresh(bbmin) && fresh(bbmax) && bbmin.Length == N && bbmax.Length == N
      ensures forall i :: 0 <= i < N ==>
        bbmin[i] == MinCoord(axisPosition, elements[..], left, right, i)
        && bbmax[i] == MaxCoord(axisPosition, elements[..], left, right, i)
    {
      bbmin := new int[N];
      bbmax := new int[N];
      Assign(bbmin, elements[left]);
      Assign(bbmax, elements[left]);
      for i := left + 1 to right
        invariant forall k :: 0 <= k < N ==>
          bbmin[k] == MinCoord(axisPosition, elements[..], left, i, k)
          && bbmax[k] == MaxCoord(axisPosition, elements[..], left, i, k)
      {
        IfLessAssign(bbmin, elements[i]);
        IfGreaterAssign(bbmax, elements[i]);
      }
    }

    /** Exchanges elements[i] and elements[j]. */
    method Swap(i: nat, j: nat)
      requires i < elements.Length && j < elements.Length
      modifies elements
      ensures elements[..] == old(elements[..])[i := old(elements[j])][j := old(elements[i])]
    {
      elements[i], elements[j] := elements[j], elements[i];
    }

    /**
     * Lomuto partition of elements[lo..hi) on `axis` around the last element:
     * returns its final index p, with no larger coordinate before p and no
     * smaller one after it.
     */
    method Partition(lo: nat, hi: nat, axis: nat) returns (p: nat)
      requires lo < hi <= elements.Length
      modifies elements
      ensures lo <= p < hi && elements[p] == old(elements[hi - 1])
      ensures Permuted(old(elements[..]), elements[..], lo, hi)
      ensures AllAtMost(axisPosition, elements[..], lo, p, axis, axisPosition(elements[p], axis))
      ensures AllAtLeast(axisPosition, elements[..], p + 1, hi, axis, axisPosition(elements[p], axis))
    {
      ghost var s0 := elements[..];
      var pivot := axisPosition(elements[hi - 1], axis);
      var i := lo;
      for j := lo to hi - 1
        invariant LomutoInv(axisPosition, s0, elements[..], lo, hi, i, j, axis)
      {
        ghost var s := elements[..];
        if axisPosition(elements[j], axis) < pivot {
          LomutoSwap(axisPosition, s0, s, lo, hi, i, j, axis);
          Swap(i, j);
          i := i + 1;
        } else {
          LomutoKeep(axisPosition, s0, s, lo, hi, i, j, axis);
        }
      }
      LomutoFinish(axisPosition, s0, elements[..], lo, hi, i, axis);
      Swap(i, hi - 1);
      p := i;
    }

    /**
     * Stands for std::nth_element: reorders elements[left..right) so that
     * elements[nth] is the element a full sort on `axis` would put there,
     * with no larger coordinate before it and no smaller one after it
     * (quickselect over Partition).
     */
    method NthElement(left: nat, nth: nat, right: nat, axis: nat)
      requires left <= nth < right <= elements.Length
      modifies elements
      ensures Permuted(old(elements[..]), elements[..], left, right)
      ensures AllAtMost(axisPosition, elements[..], left, nth, axis, axisPosition(elements[nth], axis))
      ensures AllAtLeast(axisPosition, elements[..], nth + 1, right, axis, axisPosition(elements[nth], axis))
    {
      ghost var s0 := elements[..];
      var lo: nat, hi: nat := left, right;
      while hi - lo > 1
        invariant SelectInv(axisPosition, s0, elements[..], left, right, lo, hi, nth, axis)
        decreases hi - lo
      {
        ghost var before := elements[..];
        var p := Partition(lo, hi, axis);
        SelectStep(axisPosition, s0, before, elements[..], left, right, lo, hi, nth, axis, p);
        if nth < p {
          hi := p;
        } else if p < nth {
          lo := p + 1;
        } else {
          lo, hi := p, p + 1;
        }
      }
      SelectDone(axisPosition, s0, elements[..], left, right, lo, hi, nth, axis);
    }

    /**
     * The body of build_tree(left, right) before its recursive calls: the
     * bounding box, the split axis, the selection around the median and the
     * write of the median's node. Returns the median.
     */
    method SplitRange(left: nat, right: nat) returns (median: nat)
      requires Valid() && left + 1 < right <= elements.Length
      modifies elements, nodes
      ensures median == Median(left, right)
      ensures SplitAt(axisPosition, N, old(elements[..]), old(nodes[..]), elements[..], nodes[..], left, right)
    {
      ghost var e0 := elements[..];
      var bbmin, bbmax := BoundingBox(left, right);
      median := Median(left, right);
      var axis := SplitAxis(bbmin, bbmax);
      SpreadIsExtents(bbmin[..], bbmax[..], axisPosition, N, e0, left, right);
      SplitAxisIsFirstMin(axisPosition, N, e0, left, right);
      NthElement(left, median, right, axis);
      ghost var e1 := elements[..];
      SplitAxisOfAgrees(axisPosition, N, e0, e1, left, right);
      var position := axisPosition(elements[median], axis);
      nodes[median] := Node(axis, position);
      assert elements[..] == e1;
    }

    /**
     * build_tree(left, right): builds the k-d subtree of [left, right) in
     * place, touching no slot outside that range.
     */
    method BuildTree(left: nat, right: nat)
      requires Valid() && left <= right <= elements.Length
      modifies elements, nodes
      ensures Built(axisPosition, N, old(elements[..]), old(nodes[..]), elements[..], nodes[..], left, right)
      ensures right - left <= 1 ==> elements[..] == old(elements[..]) && nodes[..] == old(nodes[..])
      decreases right - left
    {
      if right - left > 1 {
        ghost var e0, n0 := elements[..], nodes[..];
        var median := SplitRange(left, right);
        ghost var e1, n1 := elements[..], nodes[..];
        BuildTree(left, median);
        ghost var e2, n2 := elements[..], nodes[..];
        BuildTree(median + 1, right);
        BuildStep(axisPosition, N, left, right, e0, n0, e1, n1, e2, n2, elements[..], nodes[..]);
      }
    }

    /**
     * build_tree(): sizes `nodes` like `elements` (keeping existing nodes, as
     * std::vector::resize does) and builds the tree over the whole array.
     */
    method BuildAll()
      requires N >= 1 && elements as object != nodes as object
      modifies this, elements
      ensures Valid() && elements == old(elements) && fresh(nodes)
      ensures multiset(elements[..]) == old(multiset(elements[..]))
      ensures IsKdTree()
      // leaf slots keep the node resize gave them
      ensures forall k :: 0 <= k < nodes.Length && !IsSplitSlot(0, nodes.Length, k) ==>
        nodes[k] == if k < old(nodes.Length) then old(nodes[k]) else Node(0, 0)
    {
      ghost var e0 := elements[..];
      var resized := new Node[elements.Length](_ => Node(0, 0));
      forall i | 0 <= i < elements.Length && i < nodes.Length {
        resized[i] := nodes[i];
      }
      nodes := resized;
      assert elements[..] == e0;
      BuildTree(0, elements.Length);
      assert elements[..] == elements[..][0..elements.Length];
      assert e0 == e0[0..elements.Length];
    }
  }

  /**
   * The one-dimensional scenario of test/kdtree.cc: the points {9},{3},...,{8}
   * (each a single coordinate, so a point is its coordinate) end up in
   * ascending order.
   */
  method OneDimensionalExample() returns (order: seq<int>)
    ensures order == [1, 2, 3, 4, 5, 6, 7, 8, 9]
  {
    var input := [9, 3, 2, 7, 4, 5, 6, 1, 8];
    var sorted := [1, 2, 3, 4, 5, 6, 7, 8, 9];
    var kd := new KDTree(input, (x: int, d: nat) => x, 1);
    order := kd.elements[..];
    ExampleSameValues(input, sorted);
    OneAxisTreeIsSorted(kd.axisPosition, order, kd.nodes[..], sorted);
  }

  // The two nine-element sequences of the example hold the same values; the
  // steps go through multiset displays, one literal at a time.

  lemma ExampleInputValues(s: seq<int>)
    requires s == [9, 3, 2, 7, 4, 5, 6, 1, 8]
    ensures multiset(s) == multiset{9, 3, 2, 7, 4, 5, 6, 1, 8}
  {
  }

  lemma ExampleSortedValues(s: seq<int>)
    requires s == [1, 2, 3, 4, 5, 6, 7, 8, 9]
    ensures multiset(s) == multiset{1, 2, 3, 4, 5, 6, 7, 8, 9}
    ensures Ascending(s)
  {
  }

  lemma ExampleDisplaysAgree()
    ensures multiset{9, 3, 2, 7, 4, 5, 6, 1, 8} == multiset{1, 2, 3, 4, 5, 6, 7, 8, 9}
  {
  }

  lemma ExampleSameValues(input: seq<int>, sorted: seq<int>)
    requires input == [9, 3, 2, 7, 4, 5, 6, 1, 8]
    requires sorted == [1, 2, 3, 4, 5, 6, 7, 8, 9]
    ensures multiset(input) == multiset(sorted) && Ascending(sorted)
  {
    ExampleInputValues(input);
    ExampleSortedValues(sorted);
    ExampleDisplaysAgree();
  }
}
