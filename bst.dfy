/**
 * A binary search tree of ints over heap nodes: recursive insert, search and
 * delete (a node with two children takes the least key of its right subtree),
 * the least and greatest key, height, count and four traversals.
 */
module BinarySearchTrees {
  import opened Errors
  import opened Trees

  /** At every node the left subtree's keys are below the node's key and the right subtree's above it. */
  ghost predicate IsBst(t: Tree<int>) {
    match t
    case Leaf => true
    case Node(l, k, r) =>
      && (forall x :: x in Keys(l) ==> x < k)
      && (forall x :: x in Keys(r) ==> x > k)
      && IsBst(l) && IsBst(r)
  }

  /** What InsertRecursive makes of a tree: a new leaf where the search for v ends, unless v is found. */
  function InsertKey(t: Tree<int>, v: int): Tree<int>
  {
    match t
    case Leaf => Node(Leaf, v, Leaf)
    case Node(l, k, r) =>
      if v < k then Node(InsertKey(l, v), k, r)
      else if v > k then Node(l, k, InsertKey(r, v))
      else t
  }

  /** The leftmost key, which FindMin reaches by following left children. */
  function MinKey(t: Tree<int>): int
    requires t.Node?
  {
    if t.left == Leaf then t.key else MinKey(t.left)
  }

  /** The rightmost key, which FindMax reaches by following right children. */
  function MaxKey(t: Tree<int>): int
    requires t.Node?
  {
    if t.right == Leaf then t.key else MaxKey(t.right)
  }

  /**
   * What DeleteRecursive makes of a tree: the node holding v is dropped when
   * it has at most one child and otherwise takes the least key of its right
   * subtree, which is then deleted from there.
   */
  function DeleteKey(t: Tree<int>, v: int): Tree<int>
  {
    match t
    case Leaf => Leaf
    case Node(l, k, r) =>
      if v < k then Node(DeleteKey(l, v), k, r)
      else if v > k then Node(l, k, DeleteKey(r, v))
      else if l == Leaf && r == Leaf then Leaf
      else if l == Leaf then r
      else if r == Leaf then l
      else Node(l, MinKey(r), DeleteKey(r, MinKey(r)))
  }

  /** Insertion adds exactly v to the keys. */
  lemma {:induction false} InsertKeys(t: Tree<int>, v: int)
    ensures Keys(InsertKey(t, v)) == Keys(t) + {v}
  {
    match t
    case Leaf =>
    case Node(l, k, r) =>
      if v < k {
        InsertKeys(l, v);
      } else if v > k {
        InsertKeys(r, v);
      }
  }

  /** Insertion keeps the search-tree ordering. */
  lemma {:induction false} InsertKeepsOrder(t: Tree<int>, v: int)
    requires IsBst(t)
    ensures IsBst(InsertKey(t, v))
  {
    match t
    case Leaf =>
    case Node(l, k, r) =>
      if v < k {
        InsertKeepsOrder(l, v);
        InsertKeys(l, v);
      } else if v > k {
        InsertKeepsOrder(r, v);
        InsertKeys(r, v);
      }
  }

  /** Inserting a key already present changes nothing: no node is added. */
  lemma {:induction false} InsertPresentIsNoOp(t: Tree<int>, v: int)
    requires IsBst(t) && v in Keys(t)
    ensures InsertKey(t, v) == t
  {
    match t
    case Node(l, k, r) =>
      if v < k {
        InsertPresentIsNoOp(l, v);
      } else if v > k {
        InsertPresentIsNoOp(r, v);
      }
  }

  /** Inserting an absent key adds one node. */
  lemma {:induction false} InsertAbsentGrows(t: Tree<int>, v: int)
    requires v !in Keys(t)
    ensures Size(InsertKey(t, v)) == Size(t) + 1
  {
    match t
    case Leaf =>
    case Node(l, k, r) =>
      if v < k {
        InsertAbsentGrows(l, v);
      } else {
        InsertAbsentGrows(r, v);
      }
  }

  /** The leftmost key is a key and, in a search tree, the least one. */
  lemma {:induction false} MinKeyIsLeast(t: Tree<int>)
    requires t.Node?
    ensures MinKey(t) in Keys(t)
    ensures IsBst(t) ==> forall x :: x in Keys(t) ==> MinKey(t) <= x
  {
    if t.left != Leaf {
      MinKeyIsLeast(t.left);
    }
  }

  /** The rightmost key is a key and, in a search tree, the greatest one. */
  lemma {:induction false} MaxKeyIsGreatest(t: Tree<int>)
    requires t.Node?
    ensures MaxKey(t) in Keys(t)
    ensures IsBst(t) ==> forall x :: x in Keys(t) ==> x <= MaxKey(t)
  {
    if t.right != Leaf {
      MaxKeyIsGreatest(t.right);
    }
  }

  /** In a search tree, deletion removes exactly v from the keys and keeps the ordering. */
  lemma {:induction false} DeleteKeys(t: Tree<int>, v: int)
    requires IsBst(t)
    ensures Keys(DeleteKey(t, v)) == Keys(t) - {v}
    ensures IsBst(DeleteKey(t, v))
  {
    match t
    case Leaf =>
    case Node(l, k, r) =>
      if v < k {
        DeleteKeys(l, v);
      } else if v > k {
        DeleteKeys(r, v);
      } else if l != Leaf && r != Leaf {
        var m := MinKey(r);
        MinKeyIsLeast(r);
        DeleteKeys(r, m);
        assert k !in Keys(l) && k !in Keys(r);
      }
  }

  /** Deleting an absent key changes nothing. */
  lemma {:induction false} DeleteAbsentIsNoOp(t: Tree<int>, v: int)
    requires v !in Keys(t)
    ensures DeleteKey(t, v) == t
  {
    match t
    case Leaf =>
    case Node(l, k, r) =>
      if v < k {
        DeleteAbsentIsNoOp(l, v);
      } else {
        DeleteAbsentIsNoOp(r, v);
      }
  }

  /** Deleting a present key removes one node, also when a successor takes its place. */
  lemma {:induction false} DeletePresentShrinks(t: Tree<int>, v: int)
    requires IsBst(t) && v in Keys(t)
    ensures Size(DeleteKey(t, v)) == Size(t) - 1
  {
    match t
    case Node(l, k, r) =>
      if v < k {
        DeletePresentShrinks(l, v);
      } else if v > k {
        DeletePresentShrinks(r, v);
      } else if l != Leaf && r != Leaf {
        MinKeyIsLeast(r);
        DeletePresentShrinks(r, MinKey(r));
      }
  }

  /** A search tree holds distinct keys: as many keys as nodes. */
  lemma {:induction false} SizeIsKeyCount(t: Tree<int>)
    requires IsBst(t)
    ensures |Keys(t)| == Size(t)
  {
    match t
    case Leaf =>
    case Node(l, k, r) =>
      SizeIsKeyCount(l);
      SizeIsKeyCount(r);
      forall x | x in Keys(l)
        ensures x !in Keys(r)
      {
        assert x < k;
      }
      assert k !in Keys(l) + Keys(r);
      assert Keys(t) == (Keys(l) + Keys(r)) + {k};
  }

  predicate StrictlyIncreasing(s: seq<int>) {
    forall i, j :: 0 <= i < j < |s| ==> s[i] < s[j]
  }

  /** The in-order traversal of a tree is strictly ascending exactly when the tree is a search tree. */
  lemma {:induction false} InOrderSortedIffBst(t: Tree<int>)
    ensures IsBst(t) <==> StrictlyIncreasing(InOrder(t))
  {
    match t
    case Leaf =>
    case Node(l, k, r) =>
      InOrderSortedIffBst(l);
      InOrderSortedIffBst(r);
      InOrderHasKeys(l);
      InOrderHasKeys(r);
      var sl, sr := InOrder(l), InOrder(r);
      var s := InOrder(t);
      assert s == sl + [k] + sr;
      if IsBst(t) {
        forall i, j | 0 <= i < j < |s|
          ensures s[i] < s[j]
        {
          if j < |sl| {
          } else if i < |sl| {
            assert sl[i] in Keys(l);
            if j > |sl| {
              assert sr[j - |sl| - 1] in Keys(r);
            }
          } else if i == |sl| {
            assert sr[j - |sl| - 1] in Keys(r);
          } else {
            assert s[i] == sr[i - |sl| - 1] && s[j] == sr[j - |sl| - 1];
          }
        }
      }
      if StrictlyIncreasing(s) {
        assert StrictlyIncreasing(sl) by {
          forall i, j | 0 <= i < j < |sl| ensures sl[i] < sl[j] {
            assert s[i] == sl[i] && s[j] == sl[j];
          }
        }
        assert StrictlyIncreasing(sr) by {
          forall i, j | 0 <= i < j < |sr| ensures sr[i] < sr[j] {
            assert s[|sl| + 1 + i] == sr[i] && s[|sl| + 1 + j] == sr[j];
          }
        }
        forall x | x in Keys(l) ensures x < k {
          var i :| 0 <= i < |sl| && sl[i] == x;
          assert s[i] == x && s[|sl|] == k;
        }
        forall x | x in Keys(r) ensures x > k {
          var i :| 0 <= i < |sr| && sr[i] == x;
          assert s[|sl| + 1 + i] == x && s[|sl|] == k;
        }
      }
  }

  // ---------------------------------------------------------------------------
  // Heap nodes
  // ---------------------------------------------------------------------------

  class TreeNode {
    var value: int
    var left: TreeNode?
    var right: TreeNode?
    /** The nodes of this subtree. */
    ghost var Repr: set<object>
    /** The subtree as a value. */
    ghost var Content: Tree<int>

    /** The children own disjoint parts of Repr, and Content is this node's subtree. */
    ghost predicate Valid()
      reads this, Repr
      decreases Repr
    {
      && this in Repr
      && (left != null ==>
            left in Repr && left.Repr <= Repr && this !in left.Repr && left.Valid())
      && (right != null ==>
            right in Repr && right.Repr <= Repr && this !in right.Repr && right.Valid())
      && (left != null && right != null ==> left.Repr !! right.Repr)
      && Content == Node(TreeOf(left), value, TreeOf(right))
    }

    constructor(value: int)
      ensures Valid() && fresh(Repr) && Content == Node(Leaf, value, Leaf)
      ensures this.value == value && left == null && right == null
    {
      this.value := value;
      left := null;
      right := null;
      Repr := {this};
      Content := Node(Leaf, value, Leaf);
    }
  }

  /** The subtree rooted at n; an empty tree for null. */
  ghost function TreeOf(n: TreeNode?): Tree<int>
    reads n
  {
    if n == null then Leaf else n.Content
  }

  ghost function ReprOf(n: TreeNode?): set<object>
    reads n
  {
    if n == null then {} else n.Repr
  }

  /** The subtrees rooted at the nodes of a queue. */
  ghost function Forest(q: seq<TreeNode>): seq<Tree<int>>
    reads set n | n in q
  {
    if q == [] then [] else [q[0].Content] + Forest(q[1..])
  }

  lemma {:induction false} ForestAppend(a: seq<TreeNode>, b: seq<TreeNode>)
    ensures Forest(a + b) == Forest(a) + Forest(b)
  {
    if a == [] {
      assert a + b == b;
    } else {
      assert (a + b)[1..] == a[1..] + b;
      ForestAppend(a[1..], b);
    }
  }

  class BinarySearchTree {
    var root: TreeNode?
    ghost var Repr: set<object>

    /** The nodes are well formed and their keys are ordered. */
    ghost predicate Valid()
      reads this, Repr
    {
      && this in Repr
      && (root != null ==> root in Repr && root.Repr <= Repr && this !in root.Repr && root.Valid())
      && IsBst(TreeOf(root))
    }

    /** The whole tree as a value. */
    ghost function Content(): Tree<int>
      reads this, root
    {
      TreeOf(root)
    }

    constructor()
      ensures Valid() && fresh(Repr) && Content() == Leaf
    {
      root := null;
      Repr := {this};
    }

    /** Adds value to the keys; a value already present leaves the tree as it was. */
    method Insert(value: int)
      requires Valid()
      modifies Repr
      ensures Valid() && fresh(Repr - old(Repr))
      ensures Content() == InsertKey(old(Content()), value)
      ensures Keys(Content()) == old(Keys(Content())) + {value}
      ensures value in old(Keys(Content())) ==> Content() == old(Content())
      ensures value !in old(Keys(Content())) ==> Size(Content()) == old(Size(Content())) + 1
    {
      ghost var before := Content();
      var newRoot := InsertRecursive(root, value);
      root := newRoot;
      Repr := Repr + root.Repr;
      InsertKeys(before, value);
      InsertKeepsOrder(before, value);
      if value in Keys(before) {
        InsertPresentIsNoOp(before, value);
      } else {
        InsertAbsentGrows(before, value);
      }
    }

    /** Walks down to where value belongs and hangs a new node there; an equal key stops the walk. */
    static method InsertRecursive(node: TreeNode?, value: int) returns (r: TreeNode)
      requires node != null ==> node.Valid()
      modifies ReprOf(node)
      ensures r.Valid()
      ensures r.Content == InsertKey(old(TreeOf(node)), value)
      ensures node == null ==> fresh(r.Repr)
      ensures node != null ==> r == node && fresh(r.Repr - old(node.Repr))
      decreases ReprOf(node)
    {
      if node == null {
        r := new TreeNode(value);
        return;
      }
      if value < node.value {
        var newLeft := InsertRecursive(node.left, value);
        node.left := newLeft;
        node.Repr := node.Repr + newLeft.Repr;
      } else if value > node.value {
        var newRight := InsertRecursive(node.right, value);
        node.right := newRight;
        node.Repr := node.Repr + newRight.Repr;
      }
      node.Content := Node(TreeOf(node.left), node.value, TreeOf(node.right));
      r := node;
    }

    /** Whether value is a key. */
    method Search(value: int) returns (r: bool)
      requires Valid()
      ensures r <==> value in Keys(Content())
    {
      r := SearchRecursive(root, value);
    }

    /**
     * Compares with the node's key and goes left or right. A true answer is
     * always a key; in a search tree every key is found.
     */
    static method SearchRecursive(node: TreeNode?, value: int) returns (r: bool)
      requires node != null ==> node.Valid()
      ensures r ==> value in Keys(TreeOf(node))
      ensures IsBst(TreeOf(node)) && value in Keys(TreeOf(node)) ==> r
      decreases ReprOf(node)
    {
      if node == null {
        return false;
      }
      if value == node.value {
        return true;
      }
      ghost var t := TreeOf(node);
      assert t == Node(TreeOf(node.left), node.value, TreeOf(node.right));
      if IsBst(t) && value in Keys(t) {
        SearchDescends(t, value);
      }
      if value < node.value {
        r := SearchRecursive(node.left, value);
      } else {
        r := SearchRecursive(node.right, value);
      }
    }

    /** Removes value from the keys; an absent value leaves the tree as it was. */
    method Delete(value: int)
      requires Valid()
      modifies Repr
      ensures Valid() && Repr <= old(Repr)
      ensures Content() == DeleteKey(old(Content()), value)
      ensures Keys(Content()) == old(Keys(Content())) - {value}
      ensures value !in old(Keys(Content())) ==> Content() == old(Content())
      ensures value in old(Keys(Content())) ==> Size(Content()) == old(Size(Content())) - 1
    {
      ghost var before := Content();
      var newRoot := DeleteRecursive(root, value);
      root := newRoot;
      Repr := {this} + ReprOf(root);
      DeleteKeys(before, value);
      if value in Keys(before) {
        DeletePresentShrinks(before, value);
      } else {
        DeleteAbsentIsNoOp(before, value);
      }
    }

    /**
     * Finds the node holding value and unlinks it when it has at most one
     * child; a node with two children takes the least key of its right
     * subtree, which is then deleted from that subtree.
     */
    static method DeleteRecursive(node: TreeNode?, value: int) returns (r: TreeNode?)
      requires node != null ==> node.Valid()
      modifies ReprOf(node)
      ensures r != null ==> r.Valid() && r.Repr <= old(ReprOf(node))
      ensures TreeOf(r) == DeleteKey(old(TreeOf(node)), value)
      decreases ReprOf(node), 1
    {
      if node == null {
        return null;
      }
      if value < node.value {
        var newLeft := DeleteRecursive(node.left, value);
        node.left := newLeft;
      } else if value > node.value {
        var newRight := DeleteRecursive(node.right, value);
        node.right := newRight;
      } else {
        if node.left == null && node.right == null {
          return null;
        }
        if node.left == null {
          return node.right;
        }
        if node.right == null {
          return node.left;
        }
        ReplaceWithSuccessor(node);
        return node;
      }
      node.Repr := {node} + ReprOf(node.left) + ReprOf(node.right);
      node.Content := Node(TreeOf(node.left), node.value, TreeOf(node.right));
      r := node;
    }

    /**
     * The two-children case of DeleteRecursive: the node takes the least key
     * of its right subtree, which is then deleted from that subtree.
     */
    static method ReplaceWithSuccessor(node: TreeNode)
      requires node.Valid() && node.left != null && node.right != null
      modifies node.Repr
      ensures node.Valid() && node.Repr <= old(node.Repr)
      ensures var t := old(node.Content);
              t.right.Node? && node.Content == Node(t.left, MinKey(t.right), DeleteKey(t.right, MinKey(t.right)))
      decreases node.Repr, 0
    {
      var minValue := FindMin(node.right);
      node.value := minValue;
      var newRight := DeleteRecursive(node.right, minValue);
      node.right := newRight;
      node.Repr := {node} + ReprOf(node.left) + ReprOf(node.right);
      node.Content := Node(TreeOf(node.left), node.value, TreeOf(node.right));
    }

    /** Follows left children to the leftmost key: the least key of a search tree. */
    static method FindMin(node: TreeNode) returns (m: int)
      requires node.Valid()
      ensures m == MinKey(node.Content)
      ensures m in Keys(node.Content)
      ensures IsBst(node.Content) ==> forall x :: x in Keys(node.Content) ==> m <= x
    {
      var current: TreeNode := node;
      while current.left != null
        invariant current.Valid() && MinKey(current.Content) == MinKey(node.Content)
        decreases current.Repr
      {
        current := current.left;
      }
      MinKeyIsLeast(node.Content);
      return current.value;
    }

    /** Follows right children to the greatest key; an empty tree throws. */
    method FindMax() returns (r: Result<int>)
      requires Valid()
      ensures Content() == Leaf ==> r == Throws(InvalidOperationException)
      ensures Content() != Leaf ==>
                && r.Ok? && r.value in Keys(Content())
                && forall x :: x in Keys(Content()) ==> x <= r.value
    {
      if root == null {
        return Throws(InvalidOperationException);
      }
      var current: TreeNode := root;
      while current.right != null
        invariant current.Valid() && MaxKey(current.Content) == MaxKey(root.Content)
        decreases current.Repr
      {
        current := current.right;
      }
      MaxKeyIsGreatest(root.Content);
      return Ok(current.value);
    }

    /** -1 for an empty tree, otherwise one more than the taller subtree; below Count. */
    method Height() returns (h: int)
      requires Valid()
      ensures h == Trees.Height(Content())
      ensures -1 <= h < Size(Content()) && (h == -1 <==> Content() == Leaf)
    {
      h := HeightRecursive(root);
      HeightBelowSize(Content());
    }

    static method HeightRecursive(node: TreeNode?) returns (h: int)
      requires node != null ==> node.Valid()
      ensures h == Trees.Height(TreeOf(node))
      decreases ReprOf(node)
    {
      if node == null {
        return -1;
      }
      var leftHeight := HeightRecursive(node.left);
      var rightHeight := HeightRecursive(node.right);
      return (if leftHeight >= rightHeight then leftHeight else rightHeight) + 1;
    }

    /** The number of nodes, which in a search tree is the number of distinct keys. */
    method Count() returns (n: int)
      requires Valid()
      ensures n == Size(Content()) && n == |Keys(Content())|
    {
      n := CountRecursive(root);
      SizeIsKeyCount(Content());
    }

    static method CountRecursive(node: TreeNode?) returns (n: int)
      requires node != null ==> node.Valid()
      ensures n == Size(TreeOf(node))
      decreases ReprOf(node)
    {
      if node == null {
        return 0;
      }
      var leftCount := CountRecursive(node.left);
      var rightCount := CountRecursive(node.right);
      return 1 + leftCount + rightCount;
    }

    /** The keys in ascending order, each once. */
    method InOrderTraversal() returns (result: seq<int>)
      requires Valid()
      ensures result == InOrder(Content())
      ensures StrictlyIncreasing(result) && |result| == Size(Content())
      ensures forall x :: x in result <==> x in Keys(Content())
    {
      ghost var t := Content();
      result := InOrderRecursive(root, []);
      assert result == InOrder(t);
      InOrderSortedIffBst(t);
      InOrderHasKeys(t);
      TraversalsArePermutations(t);
    }

    /** Appends the subtree's keys, left subtree first, to result (the list the source passes down). */
    static method InOrderRecursive(node: TreeNode?, result: seq<int>) returns (result': seq<int>)
      requires node != null ==> node.Valid()
      ensures result' == result + InOrder(TreeOf(node))
      decreases ReprOf(node)
    {
      result' := result;
      if node != null {
        result' := InOrderRecursive(node.left, result');
        result' := result' + [node.value];
        result' := InOrderRecursive(node.right, result');
      }
    }

    /** Each node before its subtrees: a permutation of the elements, Count of them. */
    method PreOrderTraversal() returns (result: seq<int>)
      requires Valid()
      ensures result == PreOrder(Content())
      ensures multiset(result) == Elements(Content()) && |result| == Size(Content())
    {
      result := PreOrderRecursive(root, []);
      TraversalsArePermutations(Content());
    }

    static method PreOrderRecursive(node: TreeNode?, result: seq<int>) returns (result': seq<int>)
      requires node != null ==> node.Valid()
      ensures result' == result + PreOrder(TreeOf(node))
      decreases ReprOf(node)
    {
      result' := result;
      if node != null {
        result' := result' + [node.value];
        result' := PreOrderRecursive(node.left, result');
        result' := PreOrderRecursive(node.right, result');
      }
    }

    /** Each node after its subtrees: a permutation of the elements, Count of them. */
    method PostOrderTraversal() returns (result: seq<int>)
      requires Valid()
      ensures result == PostOrder(Content())
      ensures multiset(result) == Elements(Content()) && |result| == Size(Content())
    {
      result := PostOrderRecursive(root, []);
      TraversalsArePermutations(Content());
    }

    static method PostOrderRecursive(node: TreeNode?, result: seq<int>) returns (result': seq<int>)
      requires node != null ==> node.Valid()
      ensures result' == result + PostOrder(TreeOf(node))
      decreases ReprOf(node)
    {
      result' := result;
      if node != null {
        result' := PostOrderRecursive(node.left, result');
        result' := PostOrderRecursive(node.right, result');
        result' := result' + [node.value];
      }
    }

    /**
     * Breadth first with a queue of nodes: empty for an empty tree, otherwise
     * a permutation of the elements, Count of them.
     */
    method LevelOrderTraversal() returns (result: seq<int>)
      requires Valid()
      ensures result == BfsOrder([Content()])
      ensures multiset(result) == Elements(Content()) && |result| == Size(Content())
    {
      LevelOrderPermutation(Content());
      result := [];
      if root == null {
        return;
      }
      assert Forest([root]) == [Content()];
      result := LevelOrderLoop([root], result);
    }

    /** Dequeues each node in turn, appends its key and enqueues its children. */
    static method LevelOrderLoop(queue0: seq<TreeNode>, result0: seq<int>) returns (result: seq<int>)
      requires forall i :: 0 <= i < |queue0| ==> queue0[i].Valid()
      ensures result == result0 + BfsOrder(Forest(queue0))
    {
      result := result0;
      var queue := queue0;
      while |queue| > 0
        invariant forall i :: 0 <= i < |queue| ==> queue[i].Valid()
        invariant result + BfsOrder(Forest(queue)) == result0 + BfsOrder(Forest(queue0))
        decreases Weight(Forest(queue))
      {
        var current := queue[0];
        LevelOrderStep(queue);
        var next := Enqueue(queue[1..], current);
        result := result + [current.value];
        queue := next;
      }
    }

    /** Appends the node's non-null children to the queue, left first. */
    static method Enqueue(rest: seq<TreeNode>, current: TreeNode) returns (next: seq<TreeNode>)
      requires current.Valid()
      requires forall i :: 0 <= i < |rest| ==> rest[i].Valid()
      ensures forall i :: 0 <= i < |next| ==> next[i].Valid()
      ensures Forest(next) == Forest(rest) + Children(current.Content)
    {
      var l: seq<TreeNode> := if current.left != null then [current.left] else [];
      var r: seq<TreeNode> := if current.right != null then [current.right] else [];
      next := rest + l + r;
      ChildrenForest(rest, current);
    }

    /** Whether the tree has no nodes. */
    predicate IsEmpty(): (r: bool)
      reads this, Repr
      requires Valid()
      ensures r <==> Content() == Leaf
    {
      root == null
    }

    /** Drops every node. */
    method Clear()
      requires Valid()
      modifies this
      ensures Valid() && Content() == Leaf && Repr == {this}
      ensures Size(Content()) == 0 && Trees.Height(Content()) == -1
    {
      root := null;
      Repr := {this};
    }
  }

  /** In a search tree a key other than the root's lies in the subtree on its side of the root. */
  lemma SearchDescends(t: Tree<int>, v: int)
    requires IsBst(t) && t.Node? && v in Keys(t) && v != t.key
    ensures v < t.key ==> IsBst(t.left) && v in Keys(t.left)
    ensures v > t.key ==> IsBst(t.right) && v in Keys(t.right)
  {
  }

  /** Visiting the head of a queue of valid nodes lists its key before the rest of the level order. */
  lemma LevelOrderStep(queue: seq<TreeNode>)
    requires |queue| > 0 && queue[0].Valid()
    ensures Forest(queue)[0] == queue[0].Content && Forest(queue)[1..] == Forest(queue[1..])
    ensures BfsOrder(Forest(queue)) ==
              [queue[0].value] + BfsOrder(Forest(queue[1..]) + Children(queue[0].Content))
    ensures Weight(Forest(queue[1..]) + Children(queue[0].Content)) < Weight(Forest(queue))
  {
    var f := Forest(queue);
    assert f[1..] == Forest(queue[1..]);
    WeightAppend(f[1..], Children(f[0]));
    ChildrenWeight(f[0]);
  }

  /** The children a valid node enqueues are the non-empty subtrees of its content. */
  lemma ChildrenForest(rest: seq<TreeNode>, n: TreeNode)
    requires n.Valid()
    ensures var l: seq<TreeNode> := if n.left != null then [n.left] else [];
            var r: seq<TreeNode> := if n.right != null then [n.right] else [];
            Forest(rest + l + r) == Forest(rest) + Children(n.Content)
  {
    var l: seq<TreeNode> := if n.left != null then [n.left] else [];
    var r: seq<TreeNode> := if n.right != null then [n.right] else [];
    ForestAppend(rest + l, r);
    ForestAppend(rest, l);
    assert Forest(l) == if n.left == null then [] else [TreeOf(n.left)] by {
      if n.left != null {
        assert l[1..] == [];
      }
    }
    assert Forest(r) == if n.right == null then [] else [TreeOf(n.right)] by {
      if n.right != null {
        assert r[1..] == [];
      }
    }
    assert n.left != null ==> TreeOf(n.left) != Leaf;
    assert n.right != null ==> TreeOf(n.right) != Leaf;
  }
}
