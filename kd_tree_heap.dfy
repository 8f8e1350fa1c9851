/**
 * The pointer-based `KDNode` / `KDTree` classes of kd_tree.hpp.
 *
 * Every node keeps two ghost fields: `Repr`, the nodes of its subtree, and
 * `Model`, the value of that subtree as a `KdTree.Tree`. The recursive
 * members update nodes in place as the source does, and each is proved to
 * produce the tree the matching function of module `KdTree` computes; the
 * public members then inherit the lemmas proved there. Two differences of
 * order: after a recursive call `Relink` writes the node's point and both
 * children, where the source writes only the child that changed; and
 * `RemoveAt` writes the promoted point after the recursive call that removes
 * it below, where the source writes it before. The call neither reads nor
 * changes this node, so the resulting tree is the same.
 */
module KdTreeHeap {
  import opened KdTree

  /** `KDNode<K, T>`: one point and two owned children (`null` for none). */
  class KDNode {
    var point: Point
    var left: KDNode?
    var right: KDNode?
    ghost var Repr: set<object>
    ghost var Model: Tree

    /** The children own disjoint sets of nodes, none of which is this one, and `Model` mirrors the fields. */
    ghost predicate Valid()
      reads this, Repr
      decreases Repr
    {
      && this in Repr
      && (left != null ==>
            left in Repr && left.Repr <= Repr && this !in left.Repr && left.Valid())
      && (right != null ==>
            right in Repr && right.Repr <= Repr && this !in right.Repr && right.Valid())
      && (left != null && right != null ==> left.Repr !! right.Repr)
      && Model == Node(point, ModelOf(left), ModelOf(right))
    }

    /** `KDNode(p)`: a leaf holding `p`. */
    constructor (p: Point)
      ensures Valid() && fresh(Repr)
      ensures point == p && left == null && right == null
      ensures Model == Node(p, Empty, Empty)
    {
      point := p;
      left := null;
      right := null;
      Repr := {this};
      Model := Node(p, Empty, Empty);
    }
  }

  /** The tree a possibly-null node pointer stands for. */
  ghost function ModelOf(n: KDNode?): Tree
    reads n
  {
    if n == null then Empty else n.Model
  }

  /** The nodes a possibly-null node pointer owns. */
  ghost function ReprOf(n: KDNode?): set<object>
    reads n
  {
    if n == null then {} else n.Repr
  }

  /**
   * The field writes a recursive member makes to one node after its
   * recursive call: the node gets point `p` and children `l` and `r`, and
   * its ghost fields are brought up to date.
   */
  method Relink(node: KDNode, p: Point, l: KDNode?, r: KDNode?)
    requires l != null ==> l.Valid() && node !in l.Repr
    requires r != null ==> r.Valid() && node !in r.Repr
    requires l != null && r != null ==> l.Repr !! r.Repr
    modifies node
    ensures node.point == p && node.left == l && node.right == r
    ensures node.Repr == {node} + ReprOf(l) + ReprOf(r)
    ensures node.Model == Node(p, ModelOf(l), ModelOf(r))
    ensures node.Valid()
  {
    node.point, node.left, node.right := p, l, r;
    node.Repr := {node} + ReprOf(l) + ReprOf(r);
    node.Model := Node(p, ModelOf(l), ModelOf(r));
  }

  /** The `inRange` loop of `rangeSearchRecursive`: true exactly when `point` lies in the inclusive box. */
  method InRange(point: Point, low: Point, high: Point) returns (inRange: bool)
    requires |low| == |point| && |high| == |point|
    ensures inRange == InBox(point, low, high)
  {
    inRange := true;
    var i := 0;
    while i < |point|
      invariant 0 <= i <= |point|
      invariant inRange
      invariant forall j | 0 <= j < i :: low[j] <= point[j] <= high[j]
    {
      if point[i] < low[i] || point[i] > high[i] {
        inRange := false;
        break;
      }
      i := i + 1;
    }
  }

  /** Appending three pieces one by one appends their concatenation. */
  lemma AppendSteps(x: seq<Point>, y: seq<Point>, z: seq<Point>, w: seq<Point>, a: seq<Point>, b: seq<Point>, c: seq<Point>)
    requires y == x + a && z == y + b && w == z + c
    ensures w == x + (a + b + c)
  {
  }

  /** `KDTree<K, T>`: the root pointer; `k` is the template parameter K. */
  class KDTree {
    var root: KDNode?
    const k: Dimension
    ghost var Repr: set<object>

    /** The stored tree. */
    ghost function Model(): Tree
      reads this, root
    {
      ModelOf(root)
    }

    /** The nodes are well linked and the stored tree satisfies the split invariant from depth 0. */
    ghost predicate Valid()
      reads this, Repr
    {
      && this in Repr
      && (root != null ==>
            root in Repr && root.Repr <= Repr && this !in root.Repr && root.Valid())
      && WellFormed(ModelOf(root), k)
      && KdInvariant(ModelOf(root), 0, k)
    }

    /** `KDTree()`: an empty tree. */
    constructor (k: Dimension)
      ensures Valid() && fresh(Repr)
      ensures this.k == k && Model() == Empty
    {
      this.k := k;
      root := null;
      Repr := {this};
    }

    /** Stores `newRoot` as the root; the tree is valid when the new subtree is. */
    method SetRoot(newRoot: KDNode?)
      requires newRoot != null ==> newRoot.Valid() && this !in newRoot.Repr
      requires WellFormed(ModelOf(newRoot), k) && KdInvariant(ModelOf(newRoot), 0, k)
      modifies this
      ensures Valid() && root == newRoot && Repr == {this} + ReprOf(newRoot)
      ensures Model() == old(ModelOf(newRoot))
    {
      root, Repr := newRoot, {this} + ReprOf(newRoot);
    }

    // -------------------------------------------------------------------
    // insert
    // -------------------------------------------------------------------

    /** `insertRecursive`: returns the same node (or a fresh leaf) after inserting `p` below it. */
    method InsertRec(node: KDNode?, p: Point, depth: nat) returns (r: KDNode)
      requires node != null ==> node.Valid()
      requires WellFormed(ModelOf(node), k) && |p| == k
      modifies ReprOf(node)
      ensures r.Valid()
      ensures r.Model == KdTree.Insert(old(ModelOf(node)), p, depth, k)
      ensures node != null ==> r == node
      ensures fresh(r.Repr - old(ReprOf(node)))
      decreases ReprOf(node)
    {
      if node == null {
        r := new KDNode(p);
        return;
      }
      var cd := Axis(depth, k);
      if p[cd] < node.point[cd] {
        var newLeft := InsertRec(node.left, p, depth + 1);
        Relink(node, node.point, newLeft, node.right);
      } else {
        var newRight := InsertRec(node.right, p, depth + 1);
        Relink(node, node.point, node.left, newRight);
      }
      r := node;
    }

    /** `insert`: the tree afterwards is the model's insertion from the root (which holds `p` once more, by `InsertElems`). */
    method Insert(p: Point)
      requires Valid() && |p| == k
      modifies Repr
      ensures Valid() && fresh(Repr - old(Repr))
      ensures Model() == KdTree.Insert(old(Model()), p, 0, k)
    {
      ghost var t := Model();
      InsertPreservesInvariant(t, p, 0, k);
      var newRoot := InsertRec(root, p, 0);
      SetRoot(newRoot);
    }

    // -------------------------------------------------------------------
    // search
    // -------------------------------------------------------------------

    /** `searchRecursive`: follows one path from `node`, reading only. */
    method SearchRec(node: KDNode?, p: Point, depth: nat) returns (found: bool)
      requires node != null ==> node.Valid()
      requires WellFormed(ModelOf(node), k) && |p| == k
      ensures found == KdTree.Search(ModelOf(node), p, depth, k)
      decreases ReprOf(node)
    {
      if node == null {
        return false;
      }
      if node.point == p {
        return true;
      }
      var cd := Axis(depth, k);
      if p[cd] < node.point[cd] {
        found := SearchRec(node.left, p, depth + 1);
      } else {
        found := SearchRec(node.right, p, depth + 1);
      }
    }

    /** `search`: true exactly when `p` is stored. */
    method Search(p: Point) returns (found: bool)
      requires Valid() && |p| == k
      ensures found <==> p in Elems(Model())
    {
      SearchCorrect(Model(), p, 0, k);
      found := SearchRec(root, p, 0);
    }

    // -------------------------------------------------------------------
    // findMin
    // -------------------------------------------------------------------

    /** `findMin`: a node of the subtree holding the point the model's FindMin picks; null for an empty subtree. */
    method FindMinRec(node: KDNode?, dim: nat, depth: nat) returns (m: KDNode?)
      requires node != null ==> node.Valid()
      requires WellFormed(ModelOf(node), k) && dim < k
      ensures m == null <==> node == null
      ensures m != null ==> m in ReprOf(node) && KdTree.FindMin(ModelOf(node), dim, depth, k) == Some(m.point)
      decreases ReprOf(node)
    {
      if node == null {
        return null;
      }
      var cd := Axis(depth, k);
      if cd == dim {
        if node.left == null {
          return node;
        }
        m := FindMinRec(node.left, dim, depth + 1);
        return;
      }
      var leftMin := FindMinRec(node.left, dim, depth + 1);
      var rightMin := FindMinRec(node.right, dim, depth + 1);
      var res := node;
      if leftMin != null && leftMin.point[dim] < res.point[dim] {
        res := leftMin;
      }
      if rightMin != null && rightMin.point[dim] < res.point[dim] {
        res := rightMin;
      }
      m := res;
    }

    // -------------------------------------------------------------------
    // remove
    // -------------------------------------------------------------------

    /**
     * `removeRecursive`: the subtree that replaces `node` after deleting `p`
     * below it; the node of a deleted leaf is dropped (null is returned).
     */
    method RemoveRec(node: KDNode?, p: Point, depth: nat) returns (r: KDNode?)
      requires node != null ==> node.Valid()
      requires WellFormed(ModelOf(node), k) && |p| == k
      modifies ReprOf(node)
      ensures r != null ==> r.Valid() && r.Repr <= old(ReprOf(node))
      ensures ModelOf(r) == KdTree.Remove(old(ModelOf(node)), p, depth, k)
      decreases ReprOf(node), 1
    {
      if node == null {
        return null;
      }
      if node.point == p {
        r := RemoveAt(node, depth);
        return;
      }
      RemoveBelow(node, p, depth);
      r := node;
    }

    /** The branch of `removeRecursive` for a node holding another point: remove `p` from the child its coordinate picks. */
    method RemoveBelow(node: KDNode, p: Point, depth: nat)
      requires node.Valid() && node.point != p
      requires WellFormed(node.Model, k) && |p| == k
      modifies node.Repr
      ensures node.Valid() && node.Repr <= old(node.Repr)
      ensures node.Model == KdTree.Remove(old(node.Model), p, depth, k)
      decreases node.Repr, 0
    {
      RemoveDescendShape(node.point, ModelOf(node.left), ModelOf(node.right), p, depth, k);
      var cd := Axis(depth, k);
      if p[cd] < node.point[cd] {
        var newLeft := RemoveRec(node.left, p, depth + 1);
        Relink(node, node.point, newLeft, node.right);
      } else {
        var newRight := RemoveRec(node.right, p, depth + 1);
        Relink(node, node.point, node.left, newRight);
      }
    }

    /**
     * The branch of `removeRecursive` for the node whose point is the one
     * deleted: promote the minimum of the right subtree on this node's axis,
     * or, with only a left subtree, the minimum of the left subtree, which then
     * moves to the right; a leaf is dropped.
     */
    method RemoveAt(node: KDNode, depth: nat) returns (r: KDNode?)
      requires node.Valid()
      requires WellFormed(node.Model, k)
      modifies node.Repr
      ensures r != null ==> r.Valid() && r.Repr <= old(node.Repr)
      ensures ModelOf(r) == KdTree.Remove(old(node.Model), old(node.point), depth, k)
      decreases node.Repr, 0
    {
      var cd := Axis(depth, k);
      if node.right != null {
        var minNode := FindMinRec(node.right, cd, depth + 1);
        var m := minNode.point;
        var newRight := RemoveRec(node.right, m, depth + 1);
        Relink(node, m, node.left, newRight);
      } else if node.left != null {
        var minNode := FindMinRec(node.left, cd, depth + 1);
        var m := minNode.point;
        var newRight := RemoveRec(node.left, m, depth + 1);
        Relink(node, m, null, newRight);
      } else {
        return null;
      }
      r := node;
    }

    /** `remove`: the tree afterwards is the model's removal from the root (one occurrence fewer, by `RemoveElems`); an absent `p` changes nothing. */
    method Remove(p: Point)
      requires Valid() && |p| == k
      modifies Repr
      ensures Valid() && Repr <= old(Repr)
      ensures Model() == KdTree.Remove(old(Model()), p, 0, k)
      ensures p !in old(Elems(Model())) ==> Model() == old(Model())
    {
      ghost var t := Model();
      RemovePreservesInvariant(t, p, 0, k);
      if p !in Elems(t) {
        RemoveAbsent(t, p, 0, k);
      }
      var newRoot := RemoveRec(root, p, 0);
      SetRoot(newRoot);
    }

    // -------------------------------------------------------------------
    // rangeSearch
    // -------------------------------------------------------------------

    /**
     * `rangeSearchRecursive`: `results` is the caller's vector before the
     * call, `out` after it; the points appended are those the model's
     * RangeSearch lists, in the same order.
     */
    method RangeSearchRec(node: KDNode?, low: Point, high: Point, depth: nat, results: seq<Point>)
      returns (out: seq<Point>)
      requires node != null ==> node.Valid()
      requires WellFormed(ModelOf(node), k) && |low| == k && |high| == k
      ensures out == results + KdTree.RangeSearch(ModelOf(node), low, high, depth, k)
      decreases ReprOf(node)
    {
      if node == null {
        return results;
      }
      ghost var q, l, r := node.point, ModelOf(node.left), ModelOf(node.right);
      ghost var cut := Axis(depth, k);
      ghost var here: seq<Point> := if InBox(q, low, high) then [q] else [];
      ghost var fromLeft := if q[cut] >= low[cut] then KdTree.RangeSearch(l, low, high, depth + 1, k) else [];
      ghost var fromRight := if q[cut] <= high[cut] then KdTree.RangeSearch(r, low, high, depth + 1, k) else [];
      RangeSearchShape(q, l, r, low, high, depth, k);
      var inRange := InRange(node.point, low, high);
      var mid := results;
      if inRange {
        mid := mid + [node.point];
      }
      var cd := Axis(depth, k);
      var afterLeft := mid;
      if node.point[cd] >= low[cd] {
        afterLeft := RangeSearchRec(node.left, low, high, depth + 1, mid);
      }
      out := afterLeft;
      if node.point[cd] <= high[cd] {
        out := RangeSearchRec(node.right, low, high, depth + 1, afterLeft);
      }
      AppendSteps(results, mid, afterLeft, out, here, fromLeft, fromRight);
    }

    /** `rangeSearch`: every stored point in the inclusive box, as often as it is stored, and nothing else. */
    method RangeSearch(low: Point, high: Point) returns (results: seq<Point>)
      requires Valid() && |low| == k && |high| == k
      ensures results == KdTree.RangeSearch(Model(), low, high, 0, k)
      ensures multiset(results) == BoxElems(Model(), low, high, k)
    {
      RangeSearchComplete(Model(), low, high, 0, k);
      results := RangeSearchRec(root, low, high, 0, []);
    }
  }
}
