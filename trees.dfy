/**
 * Binary trees as values: the shape both search trees store in their nodes,
 * with size, height and the four traversals.
 */
module Trees {

  datatype Tree<T> = Leaf | Node(left: Tree<T>, key: T, right: Tree<T>)

  function Keys<T>(t: Tree<T>): set<T>
  {
    match t
    case Leaf => {}
    case Node(l, k, r) => Keys(l) + {k} + Keys(r)
  }

  /** Every key with its number of occurrences. */
  function Elements<T>(t: Tree<T>): multiset<T>
  {
    match t
    case Leaf => multiset{}
    case Node(l, k, r) => Elements(l) + multiset{k} + Elements(r)
  }

  /** The number of nodes: 0 for an empty tree, 1 + left + right otherwise. */
  function Size<T>(t: Tree<T>): nat
  {
    match t
    case Leaf => 0
    case Node(l, _, r) => 1 + Size(l) + Size(r)
  }

  /** Edges on the longest path down from the root: -1 for an empty tree. */
  function Height<T>(t: Tree<T>): int
  {
    match t
    case Leaf => -1
    case Node(l, _, r) => (if Height(l) >= Height(r) then Height(l) else Height(r)) + 1
  }

  /** Left subtree, root, right subtree. */
  function InOrder<T>(t: Tree<T>): seq<T>
  {
    match t
    case Leaf => []
    case Node(l, k, r) => InOrder(l) + [k] + InOrder(r)
  }

  /** Root, left subtree, right subtree. */
  function PreOrder<T>(t: Tree<T>): seq<T>
  {
    match t
    case Leaf => []
    case Node(l, k, r) => [k] + PreOrder(l) + PreOrder(r)
  }

  /** Left subtree, right subtree, root. */
  function PostOrder<T>(t: Tree<T>): seq<T>
  {
    match t
    case Leaf => []
    case Node(l, k, r) => PostOrder(l) + PostOrder(r) + [k]
  }

  /** The keys are the elements, counted once. */
  lemma {:induction false} KeysAreElements<T>(t: Tree<T>)
    ensures forall x :: x in Keys(t) <==> x in Elements(t)
  {
    match t
    case Leaf =>
    case Node(l, _, r) =>
      KeysAreElements(l);
      KeysAreElements(r);
  }

  /** In-order lists exactly the keys. */
  lemma {:induction false} InOrderHasKeys<T>(t: Tree<T>)
    ensures forall x :: x in InOrder(t) <==> x in Keys(t)
  {
    match t
    case Leaf =>
    case Node(l, _, r) =>
      InOrderHasKeys(l);
      InOrderHasKeys(r);
  }

  /** Each traversal lists every element once: Size(t) of them, the tree's multiset. */
  lemma {:induction false} TraversalsArePermutations<T>(t: Tree<T>)
    ensures |InOrder(t)| == |PreOrder(t)| == |PostOrder(t)| == Size(t)
    ensures multiset(InOrder(t)) == Elements(t)
    ensures multiset(PreOrder(t)) == Elements(t)
    ensures multiset(PostOrder(t)) == Elements(t)
  {
    match t
    case Leaf =>
    case Node(l, k, r) =>
      TraversalsArePermutations(l);
      TraversalsArePermutations(r);
  }

  /** A tree is at most as tall as it has nodes, and empty exactly at height -1. */
  lemma {:induction false} HeightBelowSize<T>(t: Tree<T>)
    ensures -1 <= Height(t) < Size(t)
    ensures Height(t) == -1 <==> t == Leaf
  {
    match t
    case Leaf =>
    case Node(l, _, r) =>
      HeightBelowSize(l);
      HeightBelowSize(r);
  }

  // ---------------------------------------------------------------------------
  // Level order
  // ---------------------------------------------------------------------------

  /** The non-empty subtrees of t, left first: what level order enqueues after visiting t. */
  function Children<T>(t: Tree<T>): seq<Tree<T>>
  {
    match t
    case Leaf => []
    case Node(l, _, r) => (if l == Leaf then [] else [l]) + (if r == Leaf then [] else [r])
  }

  /** A measure that visiting the head of a queue of trees decreases. */
  function Weight<T>(q: seq<Tree<T>>): nat
  {
    if q == [] then 0 else 2 * Size(q[0]) + 1 + Weight(q[1..])
  }

  lemma {:induction false} WeightAppend<T>(a: seq<Tree<T>>, b: seq<Tree<T>>)
    ensures Weight(a + b) == Weight(a) + Weight(b)
  {
    if a == [] {
      assert a + b == b;
    } else {
      assert (a + b)[1..] == a[1..] + b;
      WeightAppend(a[1..], b);
    }
  }

  lemma ChildrenWeight<T>(t: Tree<T>)
    ensures Weight(Children(t)) < 2 * Size(t) + 1
  {
    match t
    case Leaf =>
    case Node(l, _, r) =>
      var ls: seq<Tree<T>> := if l == Leaf then [] else [l];
      var rs: seq<Tree<T>> := if r == Leaf then [] else [r];
      WeightAppend(ls, rs);
  }

  /**
   * Breadth-first order of a queue of trees: visit the head's root, enqueue
   * its non-empty children at the back, go on with the rest.
   */
  function BfsOrder<T>(q: seq<Tree<T>>): seq<T>
    decreases Weight(q)
  {
    if q == [] then []
    else
      WeightAppend(q[1..], Children(q[0]));
      ChildrenWeight(q[0]);
      match q[0]
      case Leaf => BfsOrder(q[1..])
      case Node(_, k, _) => [k] + BfsOrder(q[1..] + Children(q[0]))
  }

  /** The elements of all the trees in a queue. */
  function ForestElements<T>(q: seq<Tree<T>>): multiset<T>
  {
    if q == [] then multiset{} else Elements(q[0]) + ForestElements(q[1..])
  }

  lemma {:induction false} ForestElementsAppend<T>(a: seq<Tree<T>>, b: seq<Tree<T>>)
    ensures ForestElements(a + b) == ForestElements(a) + ForestElements(b)
  {
    if a == [] {
      assert a + b == b;
    } else {
      assert (a + b)[1..] == a[1..] + b;
      ForestElementsAppend(a[1..], b);
    }
  }

  lemma ChildrenElements<T>(t: Tree<T>)
    requires t.Node?
    ensures ForestElements(Children(t)) == Elements(t.left) + Elements(t.right)
  {
    var ls: seq<Tree<T>> := if t.left == Leaf then [] else [t.left];
    var rs: seq<Tree<T>> := if t.right == Leaf then [] else [t.right];
    ForestElementsAppend(ls, rs);
    assert ForestElements(ls) == Elements(t.left) by {
      if ls != [] {
        assert ls[1..] == [];
      }
    }
    assert ForestElements(rs) == Elements(t.right) by {
      if rs != [] {
        assert rs[1..] == [];
      }
    }
  }

  /** Breadth-first order lists every element of the queue's trees once. */
  lemma {:induction false} BfsPermutation<T>(q: seq<Tree<T>>)
    ensures multiset(BfsOrder(q)) == ForestElements(q)
    decreases Weight(q)
  {
    if q != [] {
      WeightAppend(q[1..], Children(q[0]));
      ChildrenWeight(q[0]);
      match q[0]
      case Leaf =>
        BfsPermutation(q[1..]);
      case Node(_, k, _) =>
        BfsPermutation(q[1..] + Children(q[0]));
        ForestElementsAppend(q[1..], Children(q[0]));
        ChildrenElements(q[0]);
    }
  }

  /** Level order of a tree is a permutation of its elements, Size(t) of them, and empty for an empty tree. */
  lemma LevelOrderPermutation<T>(t: Tree<T>)
    ensures multiset(BfsOrder([t])) == Elements(t)
    ensures |BfsOrder([t])| == Size(t)
    ensures t == Leaf ==> BfsOrder([t]) == []
  {
    BfsPermutation([t]);
    assert [t][1..] == [];
    TraversalsArePermutations(t);
    assert |BfsOrder([t])| == |multiset(BfsOrder([t]))| == |multiset(InOrder(t))|;
  }
}
