/**
 * Value-level model of the K-dimensional tree of kd_tree.hpp.
 *
 * A node at depth `d` splits on axis `d % K`: a point whose coordinate on that
 * axis is strictly smaller goes left, every other point (ties included) goes
 * right. The functions below follow the recursive members of `KDTree`
 * (insertRecursive, searchRecursive, findMin, removeRecursive,
 * rangeSearchRecursive) branch for branch; the lemmas state what they promise
 * on a tree that satisfies the split invariant.
 */
module KdTree {

  /** The number of coordinates of every point (the template parameter K). */
  type Dimension = k: nat | 0 < k witness 1

  /** A point: K ordered coordinates (`std::array<T, K>`, here with T = int). */
  type Point = seq<int>

  datatype Option<T> = None | Some(value: T)

  /** A (sub)tree: `Empty` is a null `KDNode*`, `Node` owns one point and two children. */
  datatype Tree = Empty | Node(point: Point, left: Tree, right: Tree)

  /** The axis a node at `depth` splits on (`cd = depth % K`). */
  function Axis(depth: nat, k: Dimension): (a: nat)
    ensures a < k
  {
    depth % k
  }

  /** The points stored in `t`, with multiplicity (duplicates are kept). */
  function Elems(t: Tree): multiset<Point>
  {
    match t
    case Empty => multiset{}
    case Node(p, l, r) => multiset{p} + Elems(l) + Elems(r)
  }

  /** Every stored point has exactly `k` coordinates (a type-level fact in the source). */
  ghost predicate WellFormed(t: Tree, k: Dimension)
  {
    match t
    case Empty => true
    case Node(p, l, r) => |p| == k && WellFormed(l, k) && WellFormed(r, k)
  }

  lemma {:induction false} ElemsWellFormed(t: Tree, k: Dimension)
    requires WellFormed(t, k)
    ensures forall q | q in Elems(t) :: |q| == k
    decreases t
  {
    if t.Node? {
      ElemsWellFormed(t.left, k);
      ElemsWellFormed(t.right, k);
    }
  }

  // ---------------------------------------------------------------------
  // The split invariant
  // ---------------------------------------------------------------------

  /** Which side of a splitting value a coordinate must lie on. */
  datatype Side = Below | AtLeast

  predicate OnSide(x: int, side: Side, v: int)
  {
    match side
    case Below => x < v
    case AtLeast => x >= v
  }

  /** Every point of `t` has coordinate `a`, and it lies on `side` of `v`. */
  ghost predicate AllOnSide(t: Tree, a: nat, side: Side, v: int)
  {
    match t
    case Empty => true
    case Node(p, l, r) =>
      a < |p| && OnSide(p[a], side, v) && AllOnSide(l, a, side, v) && AllOnSide(r, a, side, v)
  }

  /**
   * The split invariant of a subtree rooted at `depth`: at every node with
   * axis `a`, every point of the left subtree is strictly below the node's
   * point on `a`, every point of the right subtree is at or above it.
   */
  ghost predicate KdInvariant(t: Tree, depth: nat, k: Dimension)
  {
    match t
    case Empty => true
    case Node(p, l, r) =>
      var a := Axis(depth, k);
      && |p| == k
      && AllOnSide(l, a, Below, p[a])
      && AllOnSide(r, a, AtLeast, p[a])
      && KdInvariant(l, depth + 1, k)
      && KdInvariant(r, depth + 1, k)
  }

  /** A stored point of a subtree bounded by `AllOnSide` lies on that side. */
  lemma {:induction false} OnSideMember(t: Tree, a: nat, side: Side, v: int, q: Point)
    requires AllOnSide(t, a, side, v) && q in Elems(t)
    ensures a < |q| && OnSide(q[a], side, v)
    decreases t
  {
    if q != t.point {
      if q in Elems(t.left) {
        OnSideMember(t.left, a, side, v, q);
      } else {
        OnSideMember(t.right, a, side, v, q);
      }
    }
  }

  lemma AllOnSideElems(t: Tree, a: nat, side: Side, v: int)
    requires AllOnSide(t, a, side, v)
    ensures forall q | q in Elems(t) :: a < |q| && OnSide(q[a], side, v)
  {
    forall q | q in Elems(t)
      ensures a < |q| && OnSide(q[a], side, v)
    {
      OnSideMember(t, a, side, v, q);
    }
  }

  /** Moving the splitting value away from the points keeps them on their side. */
  lemma {:induction false} AllOnSideWeaken(t: Tree, a: nat, side: Side, v: int, w: int)
    requires AllOnSide(t, a, side, v)
    requires if side == Below then v <= w else w <= v
    ensures AllOnSide(t, a, side, w)
    decreases t
  {
    if t.Node? {
      AllOnSideWeaken(t.left, a, side, v, w);
      AllOnSideWeaken(t.right, a, side, v, w);
    }
  }

  lemma {:induction false} InvariantWellFormed(t: Tree, depth: nat, k: Dimension)
    requires KdInvariant(t, depth, k)
    ensures WellFormed(t, k)
    decreases t
  {
    if t.Node? {
      InvariantWellFormed(t.left, depth + 1, k);
      InvariantWellFormed(t.right, depth + 1, k);
    }
  }

  /** Inclusive box containment: `low[i] <= p[i] <= high[i]` on every axis. */
  predicate InBox(p: Point, low: Point, high: Point)
    requires |low| == |p| && |high| == |p|
  {
    forall i | 0 <= i < |p| :: low[i] <= p[i] <= high[i]
  }

  // ---------------------------------------------------------------------
  // insertRecursive
  // ---------------------------------------------------------------------

  /** `insertRecursive(node, p, depth)`: descend by the axis rule, add a leaf. */
  function Insert(t: Tree, p: Point, depth: nat, k: Dimension): (r: Tree)
    requires WellFormed(t, k) && |p| == k
    ensures r.Node?
    ensures WellFormed(r, k)
    decreases t
  {
    match t
    case Empty => Node(p, Empty, Empty)
    case Node(q, l, rt) =>
      var a := Axis(depth, k);
      if p[a] < q[a] then Node(q, Insert(l, p, depth + 1, k), rt)
      else Node(q, l, Insert(rt, p, depth + 1, k))
  }

  /** Insert adds exactly one occurrence of `p` and keeps every stored point. */
  lemma {:induction false} InsertElems(t: Tree, p: Point, depth: nat, k: Dimension)
    requires WellFormed(t, k) && |p| == k
    ensures Elems(Insert(t, p, depth, k)) == Elems(t) + multiset{p}
    decreases t
  {
    match t
    case Empty =>
    case Node(q, l, r) =>
      if p[Axis(depth, k)] < q[Axis(depth, k)] {
        InsertElems(l, p, depth + 1, k);
        assert Insert(t, p, depth, k) == Node(q, Insert(l, p, depth + 1, k), r);
        AddElems(q, p, Elems(l), Elems(Insert(l, p, depth + 1, k)), Elems(r));
      } else {
        InsertElems(r, p, depth + 1, k);
        assert Insert(t, p, depth, k) == Node(q, l, Insert(r, p, depth + 1, k));
        AddElems(q, p, Elems(r), Elems(Insert(r, p, depth + 1, k)), Elems(l));
      }
  }

  /** Multiset bookkeeping for an insertion that descends into one child (`c`) past `q`. */
  lemma AddElems(q: Point, p: Point, c: multiset<Point>, c': multiset<Point>, other: multiset<Point>)
    requires c' == c + multiset{p}
    ensures multiset{q} + c' + other == (multiset{q} + c + other) + multiset{p}
    ensures multiset{q} + other + c' == (multiset{q} + other + c) + multiset{p}
  {
  }

  /** A point on the right side of a bound keeps a whole subtree on that side after insertion. */
  lemma {:induction false} InsertOnSide(t: Tree, p: Point, depth: nat, k: Dimension, a: nat, side: Side, v: int)
    requires WellFormed(t, k) && |p| == k
    requires AllOnSide(t, a, side, v) && a < |p| && OnSide(p[a], side, v)
    ensures AllOnSide(Insert(t, p, depth, k), a, side, v)
    decreases t
  {
    match t
    case Empty =>
    case Node(q, l, r) =>
      if p[Axis(depth, k)] < q[Axis(depth, k)] {
        InsertOnSide(l, p, depth + 1, k, a, side, v);
      } else {
        InsertOnSide(r, p, depth + 1, k, a, side, v);
      }
  }

  /** Insert keeps the split invariant. */
  lemma {:induction false} InsertPreservesInvariant(t: Tree, p: Point, depth: nat, k: Dimension)
    requires KdInvariant(t, depth, k) && |p| == k
    ensures WellFormed(t, k)
    ensures KdInvariant(Insert(t, p, depth, k), depth, k)
    decreases t
  {
    InvariantWellFormed(t, depth, k);
    match t
    case Empty =>
    case Node(q, l, r) =>
      var a := Axis(depth, k);
      if p[a] < q[a] {
        InsertPreservesInvariant(l, p, depth + 1, k);
        InsertOnSide(l, p, depth + 1, k, a, Below, q[a]);
      } else {
        InsertPreservesInvariant(r, p, depth + 1, k);
        InsertOnSide(r, p, depth + 1, k, a, AtLeast, q[a]);
      }
  }

  // ---------------------------------------------------------------------
  // searchRecursive
  // ---------------------------------------------------------------------

  /** `searchRecursive(node, p, depth)`: exact match along the single descent path. */
  function Search(t: Tree, p: Point, depth: nat, k: Dimension): (found: bool)
    requires WellFormed(t, k) && |p| == k
    ensures found ==> p in Elems(t)
    decreases t
  {
    match t
    case Empty => false
    case Node(q, l, r) =>
      if q == p then true
      else
        var a := Axis(depth, k);
        if p[a] < q[a] then Search(l, p, depth + 1, k)
        else Search(r, p, depth + 1, k)
  }

  /** On an invariant-satisfying tree, search finds exactly the stored points. */
  lemma {:induction false} SearchCorrect(t: Tree, p: Point, depth: nat, k: Dimension)
    requires KdInvariant(t, depth, k) && |p| == k
    ensures WellFormed(t, k)
    ensures Search(t, p, depth, k) <==> p in Elems(t)
    decreases t
  {
    InvariantWellFormed(t, depth, k);
    match t
    case Empty =>
    case Node(q, l, r) =>
      if q != p {
        var a := Axis(depth, k);
        if p[a] < q[a] {
          SearchCorrect(l, p, depth + 1, k);
          if p in Elems(r) { OnSideMember(r, a, AtLeast, q[a], p); }
        } else {
          SearchCorrect(r, p, depth + 1, k);
          if p in Elems(l) { OnSideMember(l, a, Below, q[a], p); }
        }
      }
  }

  // ---------------------------------------------------------------------
  // findMin
  // ---------------------------------------------------------------------

  /**
   * `findMin(node, dim, depth)`: the point of smallest coordinate `dim` in `t`,
   * `None` for an empty subtree. On a node splitting on `dim` only the left
   * spine is followed; otherwise the node, the left result and the right
   * result are compared in that order, a later one winning only when strictly
   * smaller.
   */
  function FindMin(t: Tree, dim: nat, depth: nat, k: Dimension): (m: Option<Point>)
    requires WellFormed(t, k) && dim < k
    ensures m.None? <==> t == Empty
    ensures m.Some? ==> |m.value| == k
    decreases t
  {
    match t
    case Empty => None
    case Node(q, l, r) =>
      if Axis(depth, k) == dim then
        if l == Empty then Some(q) else FindMin(l, dim, depth + 1, k)
      else
        var leftMin := FindMin(l, dim, depth + 1, k);
        var rightMin := FindMin(r, dim, depth + 1, k);
        var afterLeft := if leftMin.Some? && leftMin.value[dim] < q[dim] then leftMin.value else q;
        var afterRight := if rightMin.Some? && rightMin.value[dim] < afterLeft[dim] then rightMin.value else afterLeft;
        Some(afterRight)
  }

  /** findMin returns a point that is stored in the subtree. */
  lemma {:induction false} FindMinMember(t: Tree, dim: nat, depth: nat, k: Dimension)
    requires WellFormed(t, k) && dim < k && t != Empty
    ensures FindMin(t, dim, depth, k).value in Elems(t)
    decreases t
  {
    match t
    case Node(q, l, r) =>
      var m := FindMin(t, dim, depth, k).value;
      if l != Empty {
        FindMinMember(l, dim, depth + 1, k);
      }
      if Axis(depth, k) == dim {
        assert m == q || (l != Empty && m == FindMin(l, dim, depth + 1, k).value);
      } else {
        if r != Empty {
          FindMinMember(r, dim, depth + 1, k);
        }
        assert m == q || (l != Empty && m == FindMin(l, dim, depth + 1, k).value)
          || (r != Empty && m == FindMin(r, dim, depth + 1, k).value);
      }
      ChildElems(q, l, r, m);
  }

  /** A point of the node or of either child is a point of the subtree. */
  lemma ChildElems(q: Point, l: Tree, r: Tree, x: Point)
    requires x == q || x in Elems(l) || x in Elems(r)
    ensures x in Elems(Node(q, l, r))
  {
  }

  /** On an invariant-satisfying tree, no stored point is below findMin's point on `dim`. */
  lemma FindMinIsMinimal(t: Tree, dim: nat, depth: nat, k: Dimension)
    requires KdInvariant(t, depth, k) && dim < k && t != Empty
    ensures WellFormed(t, k)
    ensures FindMin(t, dim, depth, k).Some?
    ensures forall q | q in Elems(t) :: dim < |q| && FindMin(t, dim, depth, k).value[dim] <= q[dim]
  {
    FindMinLowerBound(t, dim, depth, k);
    AllOnSideElems(t, dim, AtLeast, FindMin(t, dim, depth, k).value[dim]);
  }

  /** The inductive core of FindMinIsMinimal, stated with the structural bound. */
  lemma {:induction false} FindMinLowerBound(t: Tree, dim: nat, depth: nat, k: Dimension)
    requires KdInvariant(t, depth, k) && dim < k && t != Empty
    ensures WellFormed(t, k)
    ensures FindMin(t, dim, depth, k).Some?
    ensures AllOnSide(t, dim, AtLeast, FindMin(t, dim, depth, k).value[dim])
    decreases t
  {
    InvariantWellFormed(t, depth, k);
    match t
    case Node(p, l, r) =>
      if l != Empty {
        FindMinLowerBound(l, dim, depth + 1, k);
      }
      if Axis(depth, k) == dim {
        FindMinSplitStep(p, l, r, dim, depth, k);
      } else {
        if r != Empty {
          FindMinLowerBound(r, dim, depth + 1, k);
        }
        FindMinOtherStep(p, l, r, dim, depth, k);
      }
  }

  /** One node of FindMinLowerBound when the node splits on `dim`: the right subtree cannot win. */
  lemma FindMinSplitStep(p: Point, l: Tree, r: Tree, dim: nat, depth: nat, k: Dimension)
    requires WellFormed(Node(p, l, r), k) && dim < k && Axis(depth, k) == dim
    requires AllOnSide(l, dim, Below, p[dim]) && AllOnSide(r, dim, AtLeast, p[dim])
    requires l != Empty ==> AllOnSide(l, dim, AtLeast, FindMin(l, dim, depth + 1, k).value[dim])
    ensures AllOnSide(Node(p, l, r), dim, AtLeast, FindMin(Node(p, l, r), dim, depth, k).value[dim])
  {
    if l != Empty {
      var m := FindMin(l, dim, depth + 1, k).value;
      assert FindMin(Node(p, l, r), dim, depth, k).value == m;
      FindMinMember(l, dim, depth + 1, k);
      OnSideMember(l, dim, Below, p[dim], m);
      AllOnSideWeaken(r, dim, AtLeast, p[dim], m[dim]);
    } else {
      assert FindMin(Node(p, l, r), dim, depth, k).value == p;
    }
  }

  /** One node of FindMinLowerBound when the node splits on another axis: the smallest of three wins. */
  lemma FindMinOtherStep(p: Point, l: Tree, r: Tree, dim: nat, depth: nat, k: Dimension)
    requires WellFormed(Node(p, l, r), k) && dim < k && Axis(depth, k) != dim
    requires l != Empty ==> AllOnSide(l, dim, AtLeast, FindMin(l, dim, depth + 1, k).value[dim])
    requires r != Empty ==> AllOnSide(r, dim, AtLeast, FindMin(r, dim, depth + 1, k).value[dim])
    ensures AllOnSide(Node(p, l, r), dim, AtLeast, FindMin(Node(p, l, r), dim, depth, k).value[dim])
  {
    var m := FindMin(Node(p, l, r), dim, depth, k).value;
    assert m[dim] <= p[dim];
    if l != Empty {
      AllOnSideWeaken(l, dim, AtLeast, FindMin(l, dim, depth + 1, k).value[dim], m[dim]);
    }
    if r != Empty {
      AllOnSideWeaken(r, dim, AtLeast, FindMin(r, dim, depth + 1, k).value[dim], m[dim]);
    }
  }

  // ---------------------------------------------------------------------
  // removeRecursive
  // ---------------------------------------------------------------------

  /**
   * `removeRecursive(node, p, depth)`. At the first node on the descent path
   * whose point equals `p`: with a right subtree, the minimum of the right
   * subtree on this node's axis is promoted and removed from the right; with
   * only a left subtree, the minimum of the left subtree on this node's axis is
   * promoted, removed from the left, and the shrunken left subtree becomes the
   * right child; a leaf disappears.
   */
  function Remove(t: Tree, p: Point, depth: nat, k: Dimension): (r: Tree)
    requires WellFormed(t, k) && |p| == k
    ensures WellFormed(r, k)
    decreases t
  {
    match t
    case Empty => Empty
    case Node(q, l, rt) =>
      var a := Axis(depth, k);
      if q == p then
        if rt != Empty then
          var m := FindMin(rt, a, depth + 1, k).value;
          Node(m, l, Remove(rt, m, depth + 1, k))
        else if l != Empty then
          var m := FindMin(l, a, depth + 1, k).value;
          Node(m, Empty, Remove(l, m, depth + 1, k))
        else
          Empty
      else if p[a] < q[a] then Node(q, Remove(l, p, depth + 1, k), rt)
      else Node(q, l, Remove(rt, p, depth + 1, k))
  }

  /** Removing a point that is not stored changes nothing at all. */
  lemma {:induction false} RemoveAbsent(t: Tree, p: Point, depth: nat, k: Dimension)
    requires WellFormed(t, k) && |p| == k && p !in Elems(t)
    ensures Remove(t, p, depth, k) == t
    decreases t
  {
    match t
    case Empty =>
    case Node(q, l, r) =>
      var a := Axis(depth, k);
      if p[a] < q[a] {
        RemoveAbsent(l, p, depth + 1, k);
      } else {
        RemoveAbsent(r, p, depth + 1, k);
      }
  }

  /** Every point left after a removal was there before, so bounds on a subtree survive it. */
  lemma {:induction false} RemoveOnSide(t: Tree, p: Point, depth: nat, k: Dimension, a: nat, side: Side, v: int)
    requires WellFormed(t, k) && |p| == k && AllOnSide(t, a, side, v)
    ensures AllOnSide(Remove(t, p, depth, k), a, side, v)
    decreases t
  {
    match t
    case Empty =>
    case Node(q, l, r) =>
      var cd := Axis(depth, k);
      if q == p {
        if r != Empty {
          var m := FindMin(r, cd, depth + 1, k).value;
          FindMinMember(r, cd, depth + 1, k);
          OnSideMember(r, a, side, v, m);
          RemoveOnSide(r, m, depth + 1, k, a, side, v);
        } else if l != Empty {
          var m := FindMin(l, cd, depth + 1, k).value;
          FindMinMember(l, cd, depth + 1, k);
          OnSideMember(l, a, side, v, m);
          RemoveOnSide(l, m, depth + 1, k, a, side, v);
        }
      } else if p[cd] < q[cd] {
        RemoveOnSide(l, p, depth + 1, k, a, side, v);
      } else {
        RemoveOnSide(r, p, depth + 1, k, a, side, v);
      }
  }

  /** On an invariant-satisfying tree, remove deletes exactly one occurrence of `p`, if any. */
  lemma {:induction false} RemoveElems(t: Tree, p: Point, depth: nat, k: Dimension)
    requires KdInvariant(t, depth, k) && |p| == k
    ensures WellFormed(t, k)
    ensures Elems(Remove(t, p, depth, k)) == Elems(t) - multiset{p}
    decreases t
  {
    InvariantWellFormed(t, depth, k);
    match t
    case Empty =>
    case Node(q, l, r) =>
      var a := Axis(depth, k);
      if q == p {
        if r != Empty {
          RemoveElems(r, FindMin(r, a, depth + 1, k).value, depth + 1, k);
          PromoteRightElems(q, l, r, depth, k);
        } else if l != Empty {
          RemoveElems(l, FindMin(l, a, depth + 1, k).value, depth + 1, k);
          PromoteLeftElems(q, l, depth, k);
        }
      } else if p[a] < q[a] {
        RemoveElems(l, p, depth + 1, k);
        RemoveElemsLeftStep(q, l, r, p, depth, k);
      } else {
        RemoveElems(r, p, depth + 1, k);
        RemoveElemsRightStep(q, l, r, p, depth, k);
      }
  }

  /** One step of RemoveElems when the descent goes left: `p` cannot be stored on the right. */
  lemma RemoveElemsLeftStep(q: Point, l: Tree, r: Tree, p: Point, depth: nat, k: Dimension)
    requires WellFormed(Node(q, l, r), k) && |p| == k
    requires AllOnSide(r, Axis(depth, k), AtLeast, q[Axis(depth, k)])
    requires q != p && p[Axis(depth, k)] < q[Axis(depth, k)]
    requires Elems(Remove(l, p, depth + 1, k)) == Elems(l) - multiset{p}
    ensures Elems(Remove(Node(q, l, r), p, depth, k)) == Elems(Node(q, l, r)) - multiset{p}
  {
    assert Remove(Node(q, l, r), p, depth, k) == Node(q, Remove(l, p, depth + 1, k), r);
    if p in Elems(r) {
      OnSideMember(r, Axis(depth, k), AtLeast, q[Axis(depth, k)], p);
    }
    DescendElems(q, p, Elems(l), Elems(Remove(l, p, depth + 1, k)), Elems(r));
  }

  /** One step of RemoveElems when the descent goes right: `p` cannot be stored on the left. */
  lemma RemoveElemsRightStep(q: Point, l: Tree, r: Tree, p: Point, depth: nat, k: Dimension)
    requires WellFormed(Node(q, l, r), k) && |p| == k
    requires AllOnSide(l, Axis(depth, k), Below, q[Axis(depth, k)])
    requires q != p && p[Axis(depth, k)] >= q[Axis(depth, k)]
    requires Elems(Remove(r, p, depth + 1, k)) == Elems(r) - multiset{p}
    ensures Elems(Remove(Node(q, l, r), p, depth, k)) == Elems(Node(q, l, r)) - multiset{p}
  {
    assert Remove(Node(q, l, r), p, depth, k) == Node(q, l, Remove(r, p, depth + 1, k));
    if p in Elems(l) {
      OnSideMember(l, Axis(depth, k), Below, q[Axis(depth, k)], p);
    }
    DescendElems(q, p, Elems(r), Elems(Remove(r, p, depth + 1, k)), Elems(l));
  }

  /** One step of RemoveElems at the matching node, promoting from the right subtree. */
  lemma PromoteRightElems(q: Point, l: Tree, r: Tree, depth: nat, k: Dimension)
    requires WellFormed(Node(q, l, r), k) && r != Empty
    requires var m := FindMin(r, Axis(depth, k), depth + 1, k).value;
      Elems(Remove(r, m, depth + 1, k)) == Elems(r) - multiset{m}
    ensures Elems(Remove(Node(q, l, r), q, depth, k)) == Elems(Node(q, l, r)) - multiset{q}
  {
    var m := FindMin(r, Axis(depth, k), depth + 1, k).value;
    var r' := Remove(r, m, depth + 1, k);
    FindMinMember(r, Axis(depth, k), depth + 1, k);
    assert Remove(Node(q, l, r), q, depth, k) == Node(m, l, r');
    PromoteElems(m, q, Elems(l), Elems(r), Elems(r'));
  }

  /** One step of RemoveElems at the matching node, promoting from a lone left subtree. */
  lemma PromoteLeftElems(q: Point, l: Tree, depth: nat, k: Dimension)
    requires WellFormed(Node(q, l, Empty), k) && l != Empty
    requires var m := FindMin(l, Axis(depth, k), depth + 1, k).value;
      Elems(Remove(l, m, depth + 1, k)) == Elems(l) - multiset{m}
    ensures Elems(Remove(Node(q, l, Empty), q, depth, k)) == Elems(Node(q, l, Empty)) - multiset{q}
  {
    var m := FindMin(l, Axis(depth, k), depth + 1, k).value;
    var l' := Remove(l, m, depth + 1, k);
    FindMinMember(l, Axis(depth, k), depth + 1, k);
    RemoveLeftOnlyShape(q, l, depth, k);
    assert Elems(Node(m, Empty, l')) == multiset{m} + Elems(l');
    assert Elems(Node(q, l, Empty)) == multiset{q} + Elems(l);
    SwapElems(m, q, Elems(l), Elems(l'));
  }

  /** Multiset bookkeeping for promoting `m` out of the only child `c` into the node that held `p`. */
  lemma SwapElems(m: Point, p: Point, c: multiset<Point>, c': multiset<Point>)
    requires m in c && c' == c - multiset{m}
    ensures multiset{m} + c' == (multiset{p} + c) - multiset{p}
  {
  }

  /** Multiset bookkeeping for a removal that descends into one child (`c`) past `q`. */
  lemma DescendElems(q: Point, p: Point, c: multiset<Point>, c': multiset<Point>, other: multiset<Point>)
    requires p != q && p !in other && c' == c - multiset{p}
    ensures multiset{q} + c' + other == (multiset{q} + c + other) - multiset{p}
    ensures multiset{q} + other + c' == (multiset{q} + other + c) - multiset{p}
  {
  }

  /** Multiset bookkeeping for promoting `m` out of child `c` into the node that held `p`. */
  lemma PromoteElems(m: Point, p: Point, other: multiset<Point>, c: multiset<Point>, c': multiset<Point>)
    requires m in c && c' == c - multiset{m}
    ensures multiset{m} + other + c' == (multiset{p} + other + c) - multiset{p}
  {
  }

  /** Remove keeps the split invariant. */
  lemma {:induction false} RemovePreservesInvariant(t: Tree, p: Point, depth: nat, k: Dimension)
    requires KdInvariant(t, depth, k) && |p| == k
    ensures WellFormed(t, k)
    ensures KdInvariant(Remove(t, p, depth, k), depth, k)
    decreases t
  {
    InvariantWellFormed(t, depth, k);
    match t
    case Empty =>
    case Node(q, l, r) =>
      var a := Axis(depth, k);
      if q == p {
        if r != Empty {
          var m := FindMin(r, a, depth + 1, k).value;
          RemovePreservesInvariant(r, m, depth + 1, k);
          FindMinLowerBound(r, a, depth + 1, k);
          RemoveOnSide(r, m, depth + 1, k, a, AtLeast, m[a]);
          FindMinMember(r, a, depth + 1, k);
          OnSideMember(r, a, AtLeast, q[a], m);
          AllOnSideWeaken(l, a, Below, q[a], m[a]);
        } else if l != Empty {
          var m := FindMin(l, a, depth + 1, k).value;
          RemovePreservesInvariant(l, m, depth + 1, k);
          FindMinLowerBound(l, a, depth + 1, k);
          RemoveOnSide(l, m, depth + 1, k, a, AtLeast, m[a]);
        }
      } else if p[a] < q[a] {
        RemovePreservesInvariant(l, p, depth + 1, k);
        RemoveOnSide(l, p, depth + 1, k, a, Below, q[a]);
      } else {
        RemovePreservesInvariant(r, p, depth + 1, k);
        RemoveOnSide(r, p, depth + 1, k, a, AtLeast, q[a]);
      }
  }

  /** Removing a point other than the node's own descends on the side its coordinate picks, one level deep. */
  lemma RemoveDescendShape(q: Point, l: Tree, r: Tree, p: Point, depth: nat, k: Dimension)
    requires WellFormed(Node(q, l, r), k) && |p| == k && q != p
    ensures var a := Axis(depth, k);
      Remove(Node(q, l, r), p, depth, k)
      == if p[a] < q[a] then Node(q, Remove(l, p, depth + 1, k), r) else Node(q, l, Remove(r, p, depth + 1, k))
  {
  }

  /** What removing the point of a node with only a left child builds, one level deep. */
  lemma RemoveLeftOnlyShape(p: Point, l: Tree, depth: nat, k: Dimension)
    requires WellFormed(Node(p, l, Empty), k) && l != Empty
    ensures var m := FindMin(l, Axis(depth, k), depth + 1, k).value;
      Remove(Node(p, l, Empty), p, depth, k) == Node(m, Empty, Remove(l, m, depth + 1, k))
  {
  }

  /**
   * The left-only case: the node keeps no left child, and its right child is
   * the former left subtree without the promoted point, which is the minimum
   * of that subtree on the node's axis.
   */
  lemma RemoveLeftOnly(p: Point, l: Tree, depth: nat, k: Dimension)
    requires KdInvariant(Node(p, l, Empty), depth, k) && l != Empty
    ensures WellFormed(l, k)
    ensures var t' := Remove(Node(p, l, Empty), p, depth, k);
      && t'.Node? && t'.left == Empty
      && t'.point in Elems(l)
      && Elems(t'.right) == Elems(l) - multiset{t'.point}
      && (forall q | q in Elems(l) :: |q| == k && t'.point[Axis(depth, k)] <= q[Axis(depth, k)])
  {
    var a := Axis(depth, k);
    InvariantWellFormed(l, depth + 1, k);
    var m := FindMin(l, a, depth + 1, k).value;
    RemoveLeftOnlyShape(p, l, depth, k);
    FindMinMember(l, a, depth + 1, k);
    FindMinIsMinimal(l, a, depth + 1, k);
    ElemsWellFormed(l, k);
    RemoveElems(l, m, depth + 1, k);
  }

  // ---------------------------------------------------------------------
  // rangeSearchRecursive
  // ---------------------------------------------------------------------

  /**
   * `rangeSearchRecursive(node, low, high, depth, results)`: the points it
   * appends, in visiting order. The node's own point first if it lies in the
   * box; the left subtree only when the node's split coordinate is `>= low`
   * on that axis; the right subtree only when it is `<= high`.
   */
  function RangeSearch(t: Tree, low: Point, high: Point, depth: nat, k: Dimension): (found: seq<Point>)
    requires WellFormed(t, k) && |low| == k && |high| == k
    decreases t
  {
    match t
    case Empty => []
    case Node(q, l, r) =>
      var a := Axis(depth, k);
      (if InBox(q, low, high) then [q] else [])
      + (if q[a] >= low[a] then RangeSearch(l, low, high, depth + 1, k) else [])
      + (if q[a] <= high[a] then RangeSearch(r, low, high, depth + 1, k) else [])
  }

  /** Soundness on every tree, invariant or not: each point the search reports is stored and passes `inRange`. */
  lemma {:induction false} RangeSearchSound(t: Tree, low: Point, high: Point, depth: nat, k: Dimension)
    requires WellFormed(t, k) && |low| == k && |high| == k
    ensures forall x | x in RangeSearch(t, low, high, depth, k) :: x in Elems(t) && |x| == k && InBox(x, low, high)
    decreases t
  {
    match t
    case Empty =>
    case Node(q, l, r) =>
      RangeSearchSound(l, low, high, depth + 1, k);
      RangeSearchSound(r, low, high, depth + 1, k);
  }

  /** Reference definition: every stored occurrence that lies in the box, without pruning. */
  function BoxElems(t: Tree, low: Point, high: Point, k: Dimension): multiset<Point>
    requires WellFormed(t, k) && |low| == k && |high| == k
    decreases t
  {
    match t
    case Empty => multiset{}
    case Node(q, l, r) =>
      (if InBox(q, low, high) then multiset{q} else multiset{})
      + BoxElems(l, low, high, k) + BoxElems(r, low, high, k)
  }

  /** `BoxElems` holds each point as often as it is stored when it is in the box, otherwise never. */
  lemma {:induction false} BoxElemsCount(t: Tree, low: Point, high: Point, k: Dimension, x: Point)
    requires WellFormed(t, k) && |low| == k && |high| == k && |x| == k
    ensures BoxElems(t, low, high, k)[x] == if InBox(x, low, high) then Elems(t)[x] else 0
    decreases t
  {
    match t
    case Empty =>
    case Node(q, l, r) =>
      BoxElemsCount(l, low, high, k, x);
      BoxElemsCount(r, low, high, k, x);
  }

  /** A subtree lying wholly outside the box on one axis holds nothing in the box. */
  lemma {:induction false} BoxElemsOutside(t: Tree, low: Point, high: Point, k: Dimension, a: nat, side: Side, v: int)
    requires WellFormed(t, k) && |low| == k && |high| == k && a < k
    requires AllOnSide(t, a, side, v)
    requires if side == Below then v <= low[a] else high[a] < v
    ensures BoxElems(t, low, high, k) == multiset{}
    decreases t
  {
    if t.Node? {
      BoxElemsOutside(t.left, low, high, k, a, side, v);
      BoxElemsOutside(t.right, low, high, k, a, side, v);
    }
  }

  /**
   * Range search is complete on an invariant-satisfying tree: the pruning on
   * the split axis loses nothing, so the result holds every stored point in
   * the box exactly as often as it is stored.
   */
  lemma {:induction false} RangeSearchComplete(t: Tree, low: Point, high: Point, depth: nat, k: Dimension)
    requires KdInvariant(t, depth, k) && |low| == k && |high| == k
    ensures WellFormed(t, k)
    ensures multiset(RangeSearch(t, low, high, depth, k)) == BoxElems(t, low, high, k)
    decreases t
  {
    InvariantWellFormed(t, depth, k);
    match t
    case Empty =>
    case Node(q, l, r) =>
      RangeSearchComplete(l, low, high, depth + 1, k);
      RangeSearchComplete(r, low, high, depth + 1, k);
      RangeSearchStep(q, l, r, low, high, depth, k);
  }

  /** What range search returns at one node, one level deep. */
  lemma RangeSearchShape(q: Point, l: Tree, r: Tree, low: Point, high: Point, depth: nat, k: Dimension)
    requires WellFormed(Node(q, l, r), k) && |low| == k && |high| == k
    ensures var a := Axis(depth, k);
      RangeSearch(Node(q, l, r), low, high, depth, k)
      == (if InBox(q, low, high) then [q] else [])
         + (if q[a] >= low[a] then RangeSearch(l, low, high, depth + 1, k) else [])
         + (if q[a] <= high[a] then RangeSearch(r, low, high, depth + 1, k) else [])
  {
  }

  /** What the reference collects at one node, one level deep. */
  lemma BoxElemsShape(q: Point, l: Tree, r: Tree, low: Point, high: Point, k: Dimension)
    requires WellFormed(Node(q, l, r), k) && |low| == k && |high| == k
    ensures BoxElems(Node(q, l, r), low, high, k)
      == multiset(if InBox(q, low, high) then [q] else []) + BoxElems(l, low, high, k) + BoxElems(r, low, high, k)
  {
  }

  /** The multiset of a concatenation of three sequences. */
  lemma ConcatElems(a: seq<Point>, b: seq<Point>, c: seq<Point>)
    ensures multiset(a + b + c) == multiset(a) + multiset(b) + multiset(c)
  {
  }

  /** One node of RangeSearchComplete: a pruned child would have contributed nothing. */
  lemma RangeSearchStep(q: Point, l: Tree, r: Tree, low: Point, high: Point, depth: nat, k: Dimension)
    requires WellFormed(Node(q, l, r), k) && |low| == k && |high| == k
    requires AllOnSide(l, Axis(depth, k), Below, q[Axis(depth, k)])
    requires AllOnSide(r, Axis(depth, k), AtLeast, q[Axis(depth, k)])
    requires multiset(RangeSearch(l, low, high, depth + 1, k)) == BoxElems(l, low, high, k)
    requires multiset(RangeSearch(r, low, high, depth + 1, k)) == BoxElems(r, low, high, k)
    ensures multiset(RangeSearch(Node(q, l, r), low, high, depth, k)) == BoxElems(Node(q, l, r), low, high, k)
  {
    var a := Axis(depth, k);
    var here: seq<Point> := if InBox(q, low, high) then [q] else [];
    var fromLeft := if q[a] >= low[a] then RangeSearch(l, low, high, depth + 1, k) else [];
    var fromRight := if q[a] <= high[a] then RangeSearch(r, low, high, depth + 1, k) else [];
    assert multiset(fromLeft) == BoxElems(l, low, high, k) by {
      if q[a] < low[a] {
        BoxElemsOutside(l, low, high, k, a, Below, q[a]);
      }
    }
    assert multiset(fromRight) == BoxElems(r, low, high, k) by {
      if q[a] > high[a] {
        BoxElemsOutside(r, low, high, k, a, AtLeast, q[a]);
      }
    }
    RangeSearchShape(q, l, r, low, high, depth, k);
    BoxElemsShape(q, l, r, low, high, k);
    ConcatElems(here, fromLeft, fromRight);

  }

  /**
   * Soundness and completeness together: on an invariant-satisfying tree,
   * range search reports a point exactly as often as it is stored when it is
   * in the box, and never otherwise.
   */
  lemma RangeSearchCount(t: Tree, low: Point, high: Point, depth: nat, k: Dimension, x: Point)
    requires KdInvariant(t, depth, k) && |low| == k && |high| == k && |x| == k
    ensures WellFormed(t, k)
    ensures multiset(RangeSearch(t, low, high, depth, k))[x] == if InBox(x, low, high) then Elems(t)[x] else 0
  {
    RangeSearchComplete(t, low, high, depth, k);
    BoxElemsCount(t, low, high, k, x);
  }
}
