/** libuv's binary heap: nodes linked by left, right and parent pointers, with no array behind
    them. `layout` is the level order the pointers are meant to spell out. */
module PointerHeap {
  /** What `heap_compare_fn` must be: a strict weak order. */
  ghost predicate StrictWeakOrder<K(!new)>(less: (K, K) -> bool) {
    && (forall a :: !less(a, a))
    && (forall a, b, c :: less(a, b) && less(b, c) ==> less(a, c))
    && (forall a, b, c :: less(a, c) ==> less(a, b) || less(b, c))
  }

  /** What libuv's timers are compared by: the timeout, then the order they were started in. */
  datatype TimerKey = TimerKey(timeout: nat, startId: nat)

  /** `timer_less_than`. */
  predicate TimerLessThan(a: TimerKey, b: TimerKey) {
    if a.timeout < b.timeout then true
    else if b.timeout < a.timeout then false
    else a.startId < b.startId
  }

  /** The timers' comparison is a strict weak order, and tells any two different keys apart. */
  lemma TimersAreOrdered()
    ensures StrictWeakOrder(TimerLessThan)
    ensures forall a, b :: a != b ==> TimerLessThan(a, b) || TimerLessThan(b, a)
  {
  }

  class HeapNode<K> {
    const key: K
    var left: HeapNode?<K>
    var right: HeapNode?<K>
    var parent: HeapNode?<K>

    constructor (key: K)
      ensures this.key == key
    {
      this.key := key;
    }
  }

  /** Node k of a level order, or null past its end. */
  ghost function NodeAt<K>(layout: seq<HeapNode<K>>, k: int): HeapNode?<K> {
    if 0 <= k < |layout| then layout[k] else null
  }

  ghost function ParentIndex(k: nat): int { if k == 0 then -1 else (k - 1) / 2 }

  ghost predicate Distinct<K>(layout: seq<HeapNode<K>>) {
    forall i, j | 0 <= i < j < |layout| :: layout[i] != layout[j]
  }

  /** The three links of a node. */
  datatype Links<K> = Links(left: HeapNode?<K>, right: HeapNode?<K>, parent: HeapNode?<K>)

  ghost function LinksOf<K>(node: HeapNode<K>): Links<K>
    reads node
  {
    Links(node.left, node.right, node.parent)
  }

  /** The links that node k of a level order must have. */
  ghost function Expected<K>(layout: seq<HeapNode<K>>, k: nat): Links<K> {
    Links(NodeAt(layout, 2 * k + 1), NodeAt(layout, 2 * k + 2), NodeAt(layout, ParentIndex(k)))
  }

  /** Node k has the links that place `at` of `target` requires. */
  ghost predicate LinkedAs<K>(layout: seq<HeapNode<K>>, k: nat, target: seq<HeapNode<K>>, at: nat)
    requires k < |layout|
    reads layout[k]
  {
    LinksOf(layout[k]) == Expected(target, at)
  }

  ghost predicate LinkedAt<K>(layout: seq<HeapNode<K>>, k: nat)
    requires k < |layout|
    reads layout[k]
  {
    LinksOf(layout[k]) == Expected(layout, k)
  }

  /** No node has two places. */
  lemma OnePlace<K>(layout: seq<HeapNode<K>>, k: nat, at: int)
    requires Distinct(layout) && k < |layout|
    ensures layout[k] == NodeAt(layout, at) <==> k == at
  {
  }

  lemma ParentIsBefore(k: nat)
    ensures ParentIndex(k) < k && (k == 0 <==> ParentIndex(k) < 0)
  {
  }

  lemma Family(i: nat, j: nat, k: nat)
    requires ParentIndex(j) == i && i < j
    ensures ParentIndex(k) == i <==> k == 2 * i + 1 || k == 2 * i + 2
    ensures ParentIndex(k) == j <==> k == 2 * j + 1 || k == 2 * j + 2
    ensures j == 2 * i + 1 || j == 2 * i + 2
  {
  }

  lemma ChildrenOf(i: nat, k: nat)
    ensures ParentIndex(k) == i <==> k == 2 * i + 1 || k == 2 * i + 2
  {
  }

  /** The links that the node at place k has after the nodes at i and j were swapped. */
  ghost function SwappedLinks<K>(layout: seq<HeapNode<K>>, i: nat, j: nat, k: nat): Links<K>
    requires i < j < |layout| && k < |layout|
  {
    var parent, child, was := layout[i], layout[j], Expected(layout, k);
    if k == i then Expected(layout, j).(parent := child)
    else if k == j then
      if j == 2 * i + 1 then Expected(layout, i).(left := parent) else Expected(layout, i).(right := parent)
    else if ParentIndex(k) == i then was.(parent := child)
    else if ParentIndex(k) == j then was.(parent := parent)
    else if k == ParentIndex(i) then
      if was.left == parent then was.(left := child) else was.(right := child)
    else was
  }

  ghost predicate AllDiffer<K>(parent: HeapNode<K>, child: HeapNode<K>, g: HeapNode?<K>, s: HeapNode?<K>,
                               cl: HeapNode?<K>, cr: HeapNode?<K>)
  {
    && (g != null ==> g != parent && g != child && g != s && g != cl && g != cr)
    && (s != null ==> s != parent && s != child && s != cl && s != cr)
    && (cl != null ==> cl != parent && cl != child && cl != cr)
    && (cr != null ==> cr != parent && cr != child)
  }

  lemma RelativesDiffer<K>(layout: seq<HeapNode<K>>, i: nat, j: nat, s: nat, above: int)
    requires Distinct(layout) && i < j < |layout| && ParentIndex(j) == i && above == ParentIndex(i)
    requires s == if j == 2 * i + 1 then 2 * i + 2 else 2 * i + 1
    ensures AllDiffer(layout[i], layout[j], NodeAt(layout, above), NodeAt(layout, s),
                      NodeAt(layout, 2 * j + 1), NodeAt(layout, 2 * j + 2))
  {
  }

  lemma ClosestDiffer<K>(layout: seq<HeapNode<K>>, p: nat, above: int, child: HeapNode<K>)
    requires Distinct(layout) && p < |layout| && above == ParentIndex(p) && child !in layout
    ensures AllDiffer(layout[p], child, NodeAt(layout, above), NodeAt(layout, 2 * p + 1),
                      NodeAt(layout, 2 * p + 2), null)
  {
  }

  function SwappedPlace(i: nat, j: nat, k: nat): nat {
    if k == i then j else if k == j then i else k
  }

  /** Those links spell the level order in which the two nodes have changed places. */
  lemma SwappedLinksSpell<K>(layout: seq<HeapNode<K>>, i: nat, j: nat, k: nat)
    requires Distinct(layout) && i < j < |layout| && ParentIndex(j) == i && k < |layout|
    ensures var swapped := layout[i := layout[j]][j := layout[i]];
            SwappedLinks(layout, i, j, k) == Expected(swapped, SwappedPlace(i, j, k))
  {
  }

  // ---------------------------------------------------------------- the order, on level orders

  /** The heap property: no node is less than its parent. */
  ghost predicate Ordered<K(!new)>(layout: seq<HeapNode<K>>, less: (K, K) -> bool) {
    forall k | 0 < k < |layout| :: !less(layout[k].key, layout[ParentIndex(k)].key)
  }

  /** Ordered but for the link from i up to its parent; i's children are not less than that parent. */
  ghost predicate OrderedButUp<K(!new)>(layout: seq<HeapNode<K>>, less: (K, K) -> bool, i: nat) {
    && (forall k | 0 < k < |layout| && k != i :: !less(layout[k].key, layout[ParentIndex(k)].key))
    && (forall k | 0 < k < |layout| && 0 < i == ParentIndex(k) ::
          !less(layout[k].key, layout[ParentIndex(i)].key))
  }

  /** Ordered but for the links from i up and down. */
  ghost predicate OrderedButAround<K(!new)>(layout: seq<HeapNode<K>>, less: (K, K) -> bool, i: nat) {
    && (forall k | 0 < k < |layout| && k != i && ParentIndex(k) != i ::
          !less(layout[k].key, layout[ParentIndex(k)].key))
    && (forall k | 0 < k < |layout| && 0 < i == ParentIndex(k) ::
          !less(layout[k].key, layout[ParentIndex(i)].key))
  }

  lemma LiftKeepsOrder<K(!new)>(layout: seq<HeapNode<K>>, less: (K, K) -> bool, i: nat)
    requires StrictWeakOrder(less) && 0 < i < |layout| && OrderedButUp(layout, less, i)
    requires less(layout[i].key, layout[ParentIndex(i)].key)
    ensures var p := ParentIndex(i);
            OrderedButUp(layout[p := layout[i]][i := layout[p]], less, p)
  {
    var p := ParentIndex(i);
    var r := layout[p := layout[i]][i := layout[p]];
    forall k | 0 < k < |r| && k != p
      ensures !less(r[k].key, r[ParentIndex(k)].key)
    {
      if ParentIndex(k) == i {
        assert !less(layout[k].key, layout[p].key);
      } else if ParentIndex(k) == p && k != i {
        assert !less(layout[k].key, layout[p].key);
      }
    }
  }

  lemma SinkKeepsOrder<K(!new)>(layout: seq<HeapNode<K>>, less: (K, K) -> bool, i: nat, j: nat)
    requires StrictWeakOrder(less) && i < j < |layout| && ParentIndex(j) == i
    requires OrderedButAround(layout, less, i)
    requires forall k | 0 < k < |layout| && ParentIndex(k) == i :: !less(layout[k].key, layout[j].key)
    ensures OrderedButAround(layout[i := layout[j]][j := layout[i]], less, j)
  {
  }

  lemma SunkIsOrdered<K(!new)>(layout: seq<HeapNode<K>>, less: (K, K) -> bool, at: nat)
    requires at < |layout| && OrderedButAround(layout, less, at)
    requires forall k | 0 < k < |layout| && ParentIndex(k) == at :: !less(layout[k].key, layout[at].key)
    ensures OrderedButUp(layout, less, at)
  {
  }

  /** In a heap the root is a least node. */
  lemma {:induction false} RootIsLeast<K(!new)>(layout: seq<HeapNode<K>>, less: (K, K) -> bool, k: nat)
    requires StrictWeakOrder(less) && Ordered(layout, less) && k < |layout|
    ensures !less(layout[k].key, layout[0].key)
  {
    if k > 0 {
      RootIsLeast(layout, less, ParentIndex(k));
    }
  }

  lemma PrefixIsLinked<K>(layout: seq<HeapNode<K>>, r: seq<HeapNode<K>>)
    requires Distinct(layout) && |layout| > 0 && r == layout[..|layout| - 1]
    requires forall k | 0 <= k < |r| :: LinkedAs(layout, k, r, k)
    ensures Distinct(r) && forall k | 0 <= k < |r| :: LinkedAt(r, k)
  {
    forall k | 0 <= k < |r|
      ensures LinkedAt(r, k)
    {
      assert LinkedAs(layout, k, r, k) && r[k] == layout[k];
    }
  }

  lemma ReplacedIsLinked<K>(layout: seq<HeapNode<K>>, p: nat, child: HeapNode<K>, r: seq<HeapNode<K>>)
    requires Distinct(layout) && p < |layout| && child !in layout && r == layout[p := child]
    requires forall k | 0 <= k < |r| && k != p :: LinkedAs(layout, k, r, k)
    requires LinksOf(child) == Expected(r, p)
    ensures Distinct(r) && forall k | 0 <= k < |r| :: LinkedAt(r, k)
  {
    forall k | 0 <= k < |r|
      ensures LinkedAt(r, k)
    {
      if k != p {
        assert LinkedAs(layout, k, r, k) && r[k] == layout[k];
      }
    }
  }

  lemma RemovedOrder<K(!new)>(layout: seq<HeapNode<K>>, less: (K, K) -> bool, p: nat)
    requires StrictWeakOrder(less) && Ordered(layout, less) && p < |layout|
    ensures var n := |layout| - 1;
            if p == n then Ordered(layout[..n], less)
            else OrderedButAround(layout[..n][p := layout[n]], less, p)
  {
    var n := |layout| - 1;
    if p < n {
      var r := layout[..n][p := layout[n]];
      forall k | 0 < k < |r| && 0 < p == ParentIndex(k)
        ensures !less(r[k].key, r[ParentIndex(p)].key)
      {
        assert !less(layout[k].key, layout[p].key) && !less(layout[p].key, layout[ParentIndex(p)].key);
      }
    }
  }

  lemma LastIsElsewhere<K>(layout: seq<HeapNode<K>>, p: nat)
    requires Distinct(layout) && p < |layout| && layout[p] != layout[|layout| - 1]
    ensures layout[|layout| - 1] !in layout[..|layout| - 1] && p < |layout| - 1
  {
  }

  /** All nodes but this one, each as often as before. */
  ghost predicate Removed<K>(before: seq<HeapNode<K>>, node: HeapNode<K>, after: seq<HeapNode<K>>) {
    && node in before
    && multiset(after) == multiset(before) - multiset{node}
    && |after| == |before| - 1
    && forall k | 0 <= k < |after| :: after[k] in before && after[k] != node
  }

  lemma OneForAnother<T>(all: multiset<T>, a: T, b: T)
    requires a in all
    ensures all - multiset{a} + multiset{b} == all + multiset{b} - multiset{a}
  {
  }

  lemma MovedNodes<K>(layout: seq<HeapNode<K>>, p: nat)
    requires p < |layout| - 1
    ensures var n := |layout| - 1;
            multiset(layout[..n][p := layout[n]]) == multiset(layout) - multiset{layout[p]}
  {
    var n := |layout| - 1;
    var rest := layout[..n];
    assert layout == rest + [layout[n]] && rest[p] == layout[p];
    assert multiset(rest[p := layout[n]]) == multiset(rest) - multiset{rest[p]} + multiset{layout[n]};
    OneForAnother(multiset(rest), rest[p], layout[n]);
  }

  lemma DroppedNode<K>(layout: seq<HeapNode<K>>)
    requires |layout| > 0
    ensures var n := |layout| - 1;
            multiset(layout[..n]) == multiset(layout) - multiset{layout[n]}
  {
    var n := |layout| - 1;
    assert layout == layout[..n] + [layout[n]];
  }

  /** Moving the last node into place p, or dropping it if it is the one, removes one node. */
  lemma RemovedNodes<K>(layout: seq<HeapNode<K>>, p: nat)
    requires Distinct(layout) && p < |layout|
    ensures var n := |layout| - 1;
            var r := if p == n then layout[..n] else layout[..n][p := layout[n]];
            Removed(layout, layout[p], r)
  {
    var n := |layout| - 1;
    var r := if p == n then layout[..n] else layout[..n][p := layout[n]];
    if p == n {
      DroppedNode(layout);
    } else {
      MovedNodes(layout, p);
    }
    forall k | 0 <= k < |r|
      ensures r[k] in layout && r[k] != layout[p]
    {
      assert r[k] == layout[if k == p then n else k];
    }
  }

  /** The same nodes, each as often, in some order. */
  ghost predicate SameNodes<K>(a: seq<HeapNode<K>>, b: seq<HeapNode<K>>) {
    && multiset(a) == multiset(b)
    && |a| == |b|
    && forall k | 0 <= k < |a| :: a[k] in b
  }

  lemma AppendedIsLinked<K>(layout: seq<HeapNode<K>>, node: HeapNode<K>)
    requires Distinct(layout) && node !in layout
    requires forall k | 0 <= k < |layout| :: LinkedAs(layout, k, layout + [node], k)
    requires LinksOf(node) == Expected(layout + [node], |layout|)
    ensures var r := layout + [node];
            Distinct(r) && forall k | 0 <= k < |r| :: LinkedAt(r, k)
  {
    var r := layout + [node];
    forall k | 0 <= k < |r|
      ensures LinkedAt(r, k)
    {
      if k < |layout| {
        assert LinkedAs(layout, k, r, k) && r[k] == layout[k];
      }
    }
  }

  /** What a node more at the end means for the links of the others. */
  lemma AppendedLinks<K>(layout: seq<HeapNode<K>>, node: HeapNode<K>, k: nat)
    requires k < |layout|
    ensures var was, n := Expected(layout, k), |layout|;
            && Expected(layout + [node], k) == (if n == 2 * k + 1 then was.(left := node)
                                                else if n == 2 * k + 2 then was.(right := node) else was)
            && (n == 2 * k + 1 ==> was.left == null) && (n == 2 * k + 2 ==> was.right == null)
            && (ParentIndex(n) == k <==> n == 2 * k + 1 || n == 2 * k + 2)
  {
    ChildrenOf(k, |layout|);
    assert ParentIndex(k) < k;
    hide ParentIndex;
  }

  /** What another node at place p means for the links of the others. */
  lemma ReplacedLinks<K>(layout: seq<HeapNode<K>>, p: nat, child: HeapNode<K>, k: nat)
    requires p < |layout| && k < |layout| && k != p
    ensures var was := Expected(layout, k);
            Expected(layout[p := child], k)
            == if k == 2 * p + 1 || k == 2 * p + 2 then was.(parent := child)
               else if p == 2 * k + 1 then was.(left := child)
               else if p == 2 * k + 2 then was.(right := child) else was
    ensures ParentIndex(p) == k <==> p == 2 * k + 1 || p == 2 * k + 2
  {
    ChildrenOf(p, k);
    ChildrenOf(k, p);
    hide ParentIndex;
  }

  lemma SwapIsPermutation<K>(layout: seq<HeapNode<K>>, i: nat, j: nat)
    requires i < j < |layout|
    ensures SameNodes(layout[i := layout[j]][j := layout[i]], layout)
  {
  }

  ghost function ShiftRight(n: nat, k: nat): nat {
    if k == 0 then n else ShiftRight(n, k - 1) / 2
  }

  /** The k low bits of n in reverse order. */
  ghost function PathBits(n: nat, k: nat): nat {
    if k == 0 then 0 else 2 * PathBits(n, k - 1) + ShiftRight(n, k - 1) % 2
  }

  lemma {:induction false} ShiftRightShrinks(n: nat, k: nat)
    requires k > 0 && ShiftRight(n, k) >= 1
    ensures ShiftRight(n, k) <= n / 2
  {
    if k > 1 {
      ShiftRightShrinks(n, k - 1);
    }
  }

  /** The lowest bit of the path leads from one position to the next. */
  lemma OneBitDown(n: nat, k: nat)
    requires k > 0
    ensures PathBits(n, k) / 2 == PathBits(n, k - 1)
    ensures ShiftRight(n, k - 1) == 2 * ShiftRight(n, k) + PathBits(n, k) % 2
    ensures ShiftRight(n, k - 1) / 2 == ShiftRight(n, k) && ShiftRight(n, k - 1) % 2 == PathBits(n, k) % 2
  {
  }

  lemma RelinkedIsLinked<K>(layout: seq<HeapNode<K>>, i: nat, j: nat, swapped: seq<HeapNode<K>>)
    requires Distinct(layout) && i < j < |layout|
    requires swapped == layout[i := layout[j]][j := layout[i]]
    requires forall k | 0 <= k < |layout| :: LinkedAs(layout, k, swapped, SwappedPlace(i, j, k))
    ensures Distinct(swapped) && forall k | 0 <= k < |swapped| :: LinkedAt(swapped, k)
  {
    forall k | 0 <= k < |swapped|
      ensures LinkedAt(swapped, k)
    {
      var m := SwappedPlace(i, j, k);
      assert LinkedAs(layout, m, swapped, SwappedPlace(i, j, m));
      assert swapped[k] == layout[m] && SwappedPlace(i, j, m) == k;
    }
  }

  class Heap<K(!new)> {
    var min: HeapNode?<K>
    var nelts: nat
    ghost var layout: seq<HeapNode<K>>

    /** The pointers spell out a complete binary tree of exactly `nelts` nodes. */
    ghost predicate Linked()
      reads this, layout
    {
      && nelts == |layout|
      && min == NodeAt(layout, 0)
      && Distinct(layout)
      && forall k | 0 <= k < |layout| :: LinkedAt(layout, k)
    }

    constructor ()
      ensures Linked() && layout == []
    {
      min, nelts, layout := null, 0, [];
    }

    /** Tells the children of a node that it is their parent. */
    method PointUp(node: HeapNode<K>, ghost l: HeapNode?<K>, ghost r: HeapNode?<K>)
      requires node.left == l && node.right == r && l != node && r != node && (l != null ==> l != r)
      modifies l, r
      ensures l != null ==> LinksOf(l) == old(LinksOf(l)).(parent := node)
      ensures r != null ==> LinksOf(r) == old(LinksOf(r)).(parent := node)
    {
      if node.left != null {
        node.left.parent := node;
      }
      if node.right != null {
        node.right.parent := node;
      }
    }

    /** Puts a node below its parent, or at the top, in place of another one. */
    method PointDown(node: HeapNode<K>, was: HeapNode<K>, ghost g: HeapNode?<K>)
      requires node.parent == g && g != node
      modifies this`min, g
      ensures g != null ==>
        LinksOf(g) == if old(g.left) == was then old(LinksOf(g)).(left := node) else old(LinksOf(g)).(right := node)
      ensures min == if g == null then node else old(min)
    {
      if node.parent == null {
        min := node;
      } else if node.parent.left == was {
        node.parent.left := node;
      } else {
        node.parent.right := node;
      }
    }

    /** `heap_node_swap` on the nodes it can touch: parent and child, the grandparent g, the sibling
        s and the child's children cl and cr. */
    method SwapLinks(parent: HeapNode<K>, child: HeapNode<K>, ghost g: HeapNode?<K>, ghost s: HeapNode?<K>,
                     ghost cl: HeapNode?<K>, ghost cr: HeapNode?<K>, ghost isLeft: bool)
      requires LinksOf(parent) == if isLeft then Links(child, s, g) else Links(s, child, g)
      requires LinksOf(child) == Links(cl, cr, parent) && parent != child
      requires AllDiffer(parent, child, g, s, cl, cr)
      requires g != null ==> (g.left == parent) != (g.right == parent) && g.left != child && g.right != child
      modifies this`min, parent, child, g, s, cl, cr
      ensures LinksOf(parent) == Links(cl, cr, child)
      ensures LinksOf(child) == if isLeft then Links(parent, s, g) else Links(s, parent, g)
      ensures s != null ==> LinksOf(s) == old(LinksOf(s)).(parent := child)
      ensures cl != null ==> LinksOf(cl) == old(LinksOf(cl)).(parent := parent)
      ensures cr != null ==> LinksOf(cr) == old(LinksOf(cr)).(parent := parent)
      ensures g != null ==>
        LinksOf(g) == if old(g.left) == parent then old(LinksOf(g)).(left := child)
                                               else old(LinksOf(g)).(right := child)
      ensures min == if g == null then child else old(min)
    {
      var tLeft, tRight, tParent := parent.left, parent.right, parent.parent;
      parent.left, parent.right, parent.parent := child.left, child.right, child.parent;
      child.left, child.right, child.parent := tLeft, tRight, tParent;

      parent.parent := child;
      var sibling;
      if child.left == child {
        child.left := parent;
        sibling := child.right;
      } else {
        child.right := parent;
        sibling := child.left;
      }
      if sibling != null {
        sibling.parent := child;
      }
      PointUp(parent, cl, cr);
      PointDown(child, parent, g);
    }

    /** What the nodes around a parent and its child are linked to. */
    lemma ReadyToSwap(i: nat, j: nat, s: nat, above: int)
      requires Linked() && i < j < |layout| && ParentIndex(j) == i && above == ParentIndex(i)
      requires s == if j == 2 * i + 1 then 2 * i + 2 else 2 * i + 1
      ensures var parent, child, g := layout[i], layout[j], NodeAt(layout, above);
              var cl, cr, other := NodeAt(layout, 2 * j + 1), NodeAt(layout, 2 * j + 2), NodeAt(layout, s);
              && LinksOf(parent) == (if j == 2 * i + 1 then Links(child, other, g) else Links(other, child, g))
              && LinksOf(child) == Links(cl, cr, parent) && parent != child
              && AllDiffer(parent, child, g, other, cl, cr)
              && (g != null ==>
                    (g.left == parent) != (g.right == parent) && g.left != child && g.right != child)
    {
      assert LinkedAt(layout, i) && LinkedAt(layout, j) && (above >= 0 ==> LinkedAt(layout, above));
      RelativesDiffer(layout, i, j, s, above);
    }

    /** The swap, node by node. */
    method SwapNodes(parent: HeapNode<K>, child: HeapNode<K>, ghost i: nat, ghost j: nat,
                     ghost swapped: seq<HeapNode<K>>)
      requires Linked()
      requires i < j < |layout| && ParentIndex(j) == i && layout[i] == parent && layout[j] == child
      requires swapped == layout[i := child][j := parent]
      modifies this`min, layout
      ensures forall k | 0 <= k < |layout| ::
        LinkedAs(layout, k, swapped, SwappedPlace(i, j, k))
      ensures min == if i == 0 then child else old(min)
    {
      hide ParentIndex, Distinct;
      ParentIsBefore(i);
      ghost var isLeft := j == 2 * i + 1;
      ghost var s, above := if isLeft then 2 * i + 2 else 2 * i + 1, ParentIndex(i);
      ReadyToSwap(i, j, s, above);
      SwapLinks(parent, child, NodeAt(layout, above), NodeAt(layout, s),
                NodeAt(layout, 2 * j + 1), NodeAt(layout, 2 * j + 2), isLeft);
      forall k | 0 <= k < |layout|
        ensures LinkedAs(layout, k, swapped, SwappedPlace(i, j, k))
      {
        Family(i, j, k);
        assert old(LinkedAt(layout, k));
        OnePlace(layout, k, i);
        OnePlace(layout, k, j);
        OnePlace(layout, k, s);
        OnePlace(layout, k, above);
        OnePlace(layout, k, 2 * j + 1);
        OnePlace(layout, k, 2 * j + 2);
        assert LinksOf(layout[k]) == SwappedLinks(layout, i, j, k);
        SwappedLinksSpell(layout, i, j, k);
      }
    }

    /** Parent and child trade places in the level order. */
    method Swap(parent: HeapNode<K>, child: HeapNode<K>, ghost i: nat, ghost j: nat)
      requires Linked()
      requires i < j < |layout| && ParentIndex(j) == i && layout[i] == parent && layout[j] == child
      modifies this`min, this`layout, layout
      ensures Linked() && layout == old(layout)[i := child][j := parent]
    {
      ghost var swapped := layout[i := child][j := parent];
      SwapNodes(parent, child, i, j, swapped);
      RelinkedIsLinked(layout, i, j, swapped);
      layout := swapped;
    }

    // -------------------------------------------------------------- walking to a position

    /** The first loop of both operations: the low bits of n, lowest first, as a path. */
    method PathTo(n: nat) returns (path: nat, k: nat)
      requires n >= 1
      ensures path == PathBits(n, k) && ShiftRight(n, k) == 1
    {
      path, k := 0, 0;
      var m := n;
      while m >= 2
        invariant m >= 1 && m == ShiftRight(n, k) && path == PathBits(n, k)
      {
        path := path * 2 + m % 2;
        k := k + 1;
        m := m / 2;
      }
    }

    /** The second loop: down to position n (counted from 1) of the level order, or to the free
        place where it would be. */
    method Walk(n: nat) returns (parent: HeapNode?<K>, goRight: bool, child: HeapNode?<K>)
      requires Linked() && 1 <= n <= nelts + 1
      ensures child == NodeAt(layout, n - 1) && parent == NodeAt(layout, n / 2 - 1)
      ensures n > 1 ==> parent != null && (goRight <==> n % 2 == 1)
    {
      var path, k := PathTo(n);
      parent, goRight, child := null, false, min;
      while k > 0
        invariant path == PathBits(n, k) && 1 <= ShiftRight(n, k)
        invariant child == NodeAt(layout, ShiftRight(n, k) - 1)
        invariant parent == NodeAt(layout, ShiftRight(n, k) / 2 - 1)
        invariant ShiftRight(n, k) > 1 ==> parent != null && (goRight <==> ShiftRight(n, k) % 2 == 1)
      {
        ShiftRightShrinks(n, k);
        OneBitDown(n, k);
        assert LinkedAt(layout, ShiftRight(n, k) - 1);
        hide ShiftRight, PathBits;
        parent := child;
        goRight := path % 2 == 1;
        child := if goRight then parent.right else parent.left;
        path := path / 2;
        k := k - 1;
      }
    }

    // -------------------------------------------------------------- insertion

    /** Links a node at the left-most free place of the bottom row. */
    method Append(node: HeapNode<K>)
      requires Linked() && node !in layout
      modifies this, node, layout
      ensures Linked() && layout == old(layout) + [node]
    {
      node.left, node.right, node.parent := null, null, null;
      var parent, goRight, free := Walk(1 + nelts);
      ghost var above := ParentIndex(nelts);
      assert above >= 0 ==> LinkedAt(layout, above);
      node.parent := parent;
      if parent == null {
        min := node;
      } else if goRight {
        parent.right := node;
      } else {
        parent.left := node;
      }
      nelts := nelts + 1;
      forall k | 0 <= k < |layout|
        ensures LinkedAs(layout, k, layout + [node], k)
      {
        assert old(LinkedAt(layout, k));
        AppendedLinks(layout, node, k);
        OnePlace(layout, k, above);
        hide Expected, Distinct;
      }
      AppendedIsLinked(layout, node);
      layout := layout + [node];
    }

    /** One turn of the upward loop. */
    method LiftOnce(node: HeapNode<K>, ghost less: (K, K) -> bool, ghost at: nat)
      requires Linked() && StrictWeakOrder(less) && 0 < at < |layout| && layout[at] == node
      requires node.parent != null && less(node.key, node.parent.key) && OrderedButUp(layout, less, at)
      modifies this`min, this`layout, layout
      ensures Linked() && |layout| == |old(layout)| && layout[ParentIndex(at)] == node
      ensures OrderedButUp(layout, less, ParentIndex(at))
      ensures SameNodes(layout, old(layout))
    {
      assert LinkedAt(layout, at);
      LiftKeepsOrder(layout, less, at);
      SwapIsPermutation(layout, ParentIndex(at), at);
      Swap(node.parent, node, ParentIndex(at), at);
    }

    /** Swaps the node at i upwards while it is less than its parent. */
    method SiftUp(node: HeapNode<K>, less: (K, K) -> bool, ghost i: nat)
      requires Linked() && StrictWeakOrder(less) && i < |layout| && layout[i] == node
      requires OrderedButUp(layout, less, i)
      modifies this`min, this`layout, layout
      ensures Linked() && Ordered(layout, less) && SameNodes(layout, old(layout))
    {
      ghost var at: nat := i;
      assert LinkedAt(layout, at);
      while node.parent != null && less(node.key, node.parent.key)
        invariant Linked() && SameNodes(layout, old(layout))
        invariant at < |layout| && layout[at] == node && node.parent == NodeAt(layout, ParentIndex(at))
        invariant OrderedButUp(layout, less, at)
        decreases at
      {
        LiftOnce(node, less, at);
        at := ParentIndex(at);
        assert LinkedAt(layout, at);
      }
    }

    /** `heap_insert`. */
    method Insert(node: HeapNode<K>, less: (K, K) -> bool)
      requires Linked() && StrictWeakOrder(less) && Ordered(layout, less) && node !in layout
      modifies this, node, layout
      ensures Linked() && Ordered(layout, less) && nelts == old(nelts) + 1
      ensures multiset(layout) == old(multiset(layout)) + multiset{node}
    {
      Append(node);
      SiftUp(node, less, |layout| - 1);
    }

    // -------------------------------------------------------------- removal

    /** Unlinks the left-most node of the bottom row. */
    method UnlinkLast() returns (last: HeapNode<K>)
      requires Linked() && |layout| > 0
      modifies this, layout
      ensures last == old(layout)[|old(layout)| - 1]
      ensures Linked() && layout == old(layout)[..|old(layout)| - 1]
    {
      var parent, goRight, child := Walk(nelts);
      ghost var above, was := ParentIndex(nelts - 1), layout;
      ghost var rest := was[..|was| - 1];
      assert above >= 0 ==> LinkedAt(layout, above);
      last := child;
      assert was == rest + [last];
      nelts := nelts - 1;
      if parent == null {
        min := null;
      } else if goRight {
        parent.right := null;
      } else {
        parent.left := null;
      }
      forall k | 0 <= k < |rest|
        ensures LinkedAs(was, k, rest, k)
      {
        assert old(LinkedAt(was, k));
        AppendedLinks(rest, last, k);
        OnePlace(was, k, above);
        hide Expected, Distinct;
      }
      PrefixIsLinked(was, rest);
      layout := rest;
    }

    /** The replacement on the nodes it can touch: the old node's parent g and children l and r. */
    method ReplaceLinks(node: HeapNode<K>, child: HeapNode<K>, ghost g: HeapNode?<K>, ghost l: HeapNode?<K>,
                        ghost r: HeapNode?<K>)
      requires LinksOf(node) == Links(l, r, g) && node != child
      requires AllDiffer(node, child, g, l, r, null)
      requires g != null ==> (g.left == node) != (g.right == node)
      modifies this`min, child, g, l, r
      ensures LinksOf(child) == Links(l, r, g)
      ensures l != null ==> LinksOf(l) == old(LinksOf(l)).(parent := child)
      ensures r != null ==> LinksOf(r) == old(LinksOf(r)).(parent := child)
      ensures g != null ==>
        LinksOf(g) == if old(g.left) == node then old(LinksOf(g)).(left := child)
                                             else old(LinksOf(g)).(right := child)
      ensures min == if g == null then child else old(min)
    {
      child.left := node.left;
      child.right := node.right;
      child.parent := node.parent;
      PointUp(child, l, r);
      PointDown(child, node, g);
    }

    /** Puts a free node into the place of a linked one. */
    method Replace(node: HeapNode<K>, child: HeapNode<K>, ghost p: nat)
      requires Linked() && p < |layout| && layout[p] == node && child !in layout
      modifies this, child, layout
      ensures Linked() && layout == old(layout)[p := child]
    {
      ghost var was, r, above := layout, layout[p := child], ParentIndex(p);
      assert LinkedAt(layout, p) && (above >= 0 ==> LinkedAt(layout, above));
      ClosestDiffer(was, p, above, child);
      ReplaceLinks(node, child, NodeAt(layout, above), NodeAt(layout, 2 * p + 1), NodeAt(layout, 2 * p + 2));
      forall k | 0 <= k < |was| && k != p
        ensures LinkedAs(was, k, r, k)
      {
        assert old(LinkedAt(was, k));
        ReplacedLinks(was, p, child, k);
        OnePlace(was, k, above);
        OnePlace(was, k, 2 * p + 1);
        OnePlace(was, k, 2 * p + 2);
        hide Distinct;
      }
      ReplacedIsLinked(was, p, child, r);
      layout := r;
    }

    /** The smaller child if one is less than the node, else the node itself. */
    method Smallest(node: HeapNode<K>, less: (K, K) -> bool, ghost at: nat)
      returns (smallest: HeapNode<K>, ghost j: nat)
      requires Linked() && StrictWeakOrder(less) && at < |layout| && layout[at] == node
      ensures j < |layout| && layout[j] == smallest
      ensures j == at || (ParentIndex(j) == at < j)
      ensures forall k | 0 < k < |layout| && ParentIndex(k) == at :: !less(layout[k].key, smallest.key)
    {
      assert LinkedAt(layout, at);
      smallest, j := node, at;
      if node.left != null && less(node.left.key, smallest.key) {
        smallest, j := node.left, 2 * at + 1;
      }
      if node.right != null && less(node.right.key, smallest.key) {
        smallest, j := node.right, 2 * at + 2;
      }
      forall k | 0 < k < |layout| && ParentIndex(k) == at
        ensures !less(layout[k].key, smallest.key)
      {
        ChildrenOf(at, k);
        assert layout[k] == node.left || layout[k] == node.right;
      }
    }

    /** One turn of the downward loop. */
    method SinkOnce(node: HeapNode<K>, smallest: HeapNode<K>, ghost less: (K, K) -> bool, ghost at: nat, ghost j: nat)
      requires Linked() && StrictWeakOrder(less) && at < j < |layout| && ParentIndex(j) == at
      requires layout[at] == node && layout[j] == smallest && OrderedButAround(layout, less, at)
      requires forall k | 0 < k < |layout| && ParentIndex(k) == at :: !less(layout[k].key, smallest.key)
      modifies this`min, this`layout, layout
      ensures Linked() && |layout| == |old(layout)| && layout[j] == node
      ensures OrderedButAround(layout, less, j) && SameNodes(layout, old(layout))
    {
      SinkKeepsOrder(layout, less, at, j);
      SwapIsPermutation(layout, at, j);
      Swap(node, smallest, at, j);
    }

    /** Swaps the node at i downwards while one of its children is less. */
    method SiftDown(node: HeapNode<K>, less: (K, K) -> bool, ghost i: nat) returns (ghost at: nat)
      requires Linked() && StrictWeakOrder(less) && i < |layout| && layout[i] == node
      requires OrderedButAround(layout, less, i)
      modifies this`min, this`layout, layout
      ensures Linked() && SameNodes(layout, old(layout))
      ensures at < |layout| && layout[at] == node && OrderedButUp(layout, less, at)
    {
      at := i;
      hide OrderedButAround, OrderedButUp, StrictWeakOrder;
      while true
        invariant Linked() && SameNodes(layout, old(layout))
        invariant at < |layout| && layout[at] == node && OrderedButAround(layout, less, at)
        decreases |layout| - at
      {
        var smallest;
        ghost var j;
        smallest, j := Smallest(node, less, at);
        if smallest == node {
          assert j == at;
          SunkIsOrdered(layout, less, at);
          break;
        }
        SinkOnce(node, smallest, less, at, j);
        at := j;
      }
    }

    /** Unlinks a member and fills its place with the last node of the bottom row. */
    method TakeOut(node: HeapNode<K>, ghost p: nat, ghost less: (K, K) -> bool) returns (child: HeapNode<K>)
      requires Linked() && StrictWeakOrder(less) && Ordered(layout, less)
      requires p < |layout| && layout[p] == node
      modifies this, layout
      ensures Linked() && Removed(old(layout), node, layout)
      ensures if child == node then Ordered(layout, less)
              else p < |layout| && layout[p] == child && OrderedButAround(layout, less, p)
    {
      hide Removed, Ordered, OrderedButAround, StrictWeakOrder;
      ghost var was := layout;
      RemovedNodes(was, p);
      RemovedOrder(was, less, p);
      child := UnlinkLast();
      if child != node {
        LastIsElsewhere(was, p);
        Replace(node, child, p);
        assert layout == was[..|was| - 1][p := was[|was| - 1]];
      }
    }

    /** `heap_remove` of a member, the root or any other. */
    method Remove(node: HeapNode<K>, less: (K, K) -> bool)
      requires Linked() && StrictWeakOrder(less) && Ordered(layout, less)
      requires nelts > 0 ==> node in layout
      modifies this, layout
      ensures Linked() && Ordered(layout, less)
      ensures if old(nelts) == 0 then nelts == 0
              else nelts == old(nelts) - 1 && Removed(old(layout), node, layout)
    {
      if nelts == 0 {
        return;
      }
      ghost var p :| 0 <= p < |layout| && layout[p] == node;
      var child := TakeOut(node, p, less);
      if child == node {
        return;
      }
      ghost var at := SiftDown(child, less, p);
      SiftUp(child, less, at);
    }

    /** `heap_dequeue`: removes a least node. */
    method Dequeue(less: (K, K) -> bool)
      requires Linked() && StrictWeakOrder(less) && Ordered(layout, less) && nelts > 0
      modifies this, layout
      ensures Linked() && Ordered(layout, less) && nelts == old(nelts) - 1
      ensures Removed(old(layout), old(layout)[0], layout)
      ensures forall k | 0 <= k < |old(layout)| :: !less(old(layout)[k].key, old(layout)[0].key)
    {
      forall k | 0 <= k < |layout|
        ensures !less(layout[k].key, layout[0].key)
      {
        RootIsLeast(layout, less, k);
      }
      Remove(min, less);
    }
  }

  /** No earlier timer than the root, and among those of the same time none started before it. */
  lemma RootIsEarliest(layout: seq<HeapNode<TimerKey>>, k: nat)
    requires Ordered(layout, TimerLessThan) && k < |layout|
    ensures layout[0].key.timeout <= layout[k].key.timeout
    ensures layout[0].key.timeout == layout[k].key.timeout ==> layout[0].key.startId <= layout[k].key.startId
  {
    TimersAreOrdered();
    RootIsLeast(layout, TimerLessThan, k);
  }

  /** One turn of the loop in `uv__run_timers`: takes the timer that is due first out of the heap, if any
      is due at all. */
  method TakeDue(timers: Heap<TimerKey>, nowMs: nat) returns (due: HeapNode?<TimerKey>)
    requires timers.Linked() && Ordered(timers.layout, TimerLessThan)
    modifies timers, timers.layout
    ensures timers.Linked() && Ordered(timers.layout, TimerLessThan)
    ensures due == null <==> forall k | 0 <= k < |old(timers.layout)| :: old(timers.layout)[k].key.timeout > nowMs
    ensures due == null ==> timers.layout == old(timers.layout)
    ensures due != null ==>
              && due.key.timeout <= nowMs && Removed(old(timers.layout), due, timers.layout)
              && forall k | 0 <= k < |old(timers.layout)| ::
                   var other := old(timers.layout)[k].key;
                   due.key.timeout < other.timeout
                   || (due.key.timeout == other.timeout && due.key.startId <= other.startId)
  {
    TimersAreOrdered();
    ghost var was := timers.layout;
    forall k | 0 <= k < |was|
      ensures was[0].key.timeout <= was[k].key.timeout
      ensures was[0].key.timeout == was[k].key.timeout ==> was[0].key.startId <= was[k].key.startId
    {
      RootIsEarliest(was, k);
    }
    due := timers.min;
    if due == null || due.key.timeout > nowMs {
      return null;
    }
    timers.Remove(due, TimerLessThan);
  }
}
