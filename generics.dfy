/**
 * Generic members: the largest element under CompareTo, a stack over an
 * array that grows by its initial capacity whenever it is full, and a binary
 * search tree ordered by CompareTo that supports insertion.
 */
module Generics {
  import opened Errors
  import DynamicArrays
  import Seqs
  import opened Trees

  /**
   * cmp behaves as CompareTo on a total order: a > b exactly when b < a, and
   * "at most" is transitive.
   */
  ghost predicate IsComparison<T(!new)>(cmp: (T, T) -> int) {
    && (forall a, b :: cmp(a, b) > 0 <==> cmp(b, a) < 0)
    && (forall a, b, c :: cmp(a, b) <= 0 && cmp(b, c) <= 0 ==> cmp(a, c) <= 0)
  }

  /** s[k] is at least every element, and strictly above every element before it. */
  ghost predicate IsFirstMax<T>(s: seq<T>, cmp: (T, T) -> int, k: int) {
    && 0 <= k < |s|
    && (forall j :: 0 <= j < |s| ==> cmp(s[j], s[k]) <= 0)
    && (forall j :: 0 <= j < k ==> cmp(s[j], s[k]) < 0)
  }

  /**
   * Keeps array[0] and replaces it by each later item that compares greater,
   * so of several equal largest elements the first is kept. An empty array
   * throws.
   */
  method FindMax<T(!new)>(values: array<T>, cmp: (T, T) -> int) returns (r: Result<T>)
    requires IsComparison(cmp)
    ensures values.Length == 0 ==> r == Throws(ArgumentException)
    ensures values.Length > 0 ==> r.Ok? && exists k :: IsFirstMax(values[..], cmp, k) && r.value == values[k]
  {
    if values.Length == 0 {
      return Throws(ArgumentException);
    }
    var max := values[0];
    ghost var m := 0;
    for i := 1 to values.Length
      invariant 0 <= m < i && max == values[m]
      invariant forall j :: 0 <= j < i ==> cmp(values[j], max) <= 0
      invariant forall j :: 0 <= j < m ==> cmp(values[j], max) < 0
    {
      if cmp(values[i], max) > 0 {
        forall j | 0 <= j < i
          ensures cmp(values[j], values[i]) < 0
        {
          StrictlyAbove(cmp, values[j], max, values[i]);
        }
        max := values[i];
        m := i;
      }
    }
    assert IsFirstMax(values[..], cmp, m);
    return Ok(max);
  }

  /** a <= b < c gives a < c. */
  lemma StrictlyAbove<T(!new)>(cmp: (T, T) -> int, a: T, b: T, c: T)
    requires IsComparison(cmp)
    requires cmp(a, b) <= 0 && cmp(c, b) > 0
    ensures cmp(a, c) < 0
  {
    assert cmp(c, a) <= 0 && cmp(a, b) <= 0 ==> cmp(c, b) <= 0;
  }

  /** The first largest element is determined by the sequence. */
  lemma FirstMaxUnique<T(!new)>(s: seq<T>, cmp: (T, T) -> int, k1: int, k2: int)
    requires IsComparison(cmp)
    requires IsFirstMax(s, cmp, k1) && IsFirstMax(s, cmp, k2)
    ensures k1 == k2
  {
    assert cmp(s[k1], s[k2]) <= 0 && cmp(s[k2], s[k1]) <= 0;
    assert !(cmp(s[k1], s[k2]) < 0) && !(cmp(s[k2], s[k1]) < 0);
  }

  /** Int32.CompareTo. */
  function IntCompare(a: int, b: int): int {
    if a < b then -1 else if a > b then 1 else 0
  }

  /** On ints the element FindMax keeps is the maximum, at its first occurrence. */
  lemma IntFirstMax(s: seq<int>, k: int)
    requires IsFirstMax(s, IntCompare, k)
    ensures s[k] == Seqs.Max(s)
    ensures forall j :: 0 <= j < k ==> s[j] < s[k]
  {
    Seqs.MaxIsMaximum(s);
    var w :| 0 <= w < |s| && s[w] == Seqs.Max(s);
    assert IntCompare(s[w], s[k]) <= 0;
  }

  /** IntCompare is a comparison, so FindMax may be used with it. */
  lemma IntCompareIsComparison()
    ensures IsComparison(IntCompare)
  {
  }

  /**
   * A stack over an array: top indexes the top item, -1 when empty. A full
   * stack grows by the capacity it was created with; a capacity of 0 never
   * grows, so every Push indexes past the end.
   */
  class Stack<T> {
    var items: array<T>
    var top: int
    const capacity: int
    /** default(T), which new slots hold. */
    const defaultValue: T

    ghost predicate Valid()
      reads this
    {
      && capacity >= 0 && -1 <= top
      && (capacity > 0 ==> top < items.Length)
      && (capacity == 0 ==> items.Length == 0)
    }

    /** The items from bottom to top; with capacity 0 none is ever stored. */
    function Contents(): seq<T>
      reads this, items
      requires Valid()
    {
      if capacity == 0 then [] else items[..top + 1]
    }

    constructor(capacity: int, defaultValue: T)
      requires capacity >= 0
      ensures Valid() && top == -1 && Contents() == []
      ensures this.capacity == capacity && this.defaultValue == defaultValue
      ensures fresh(items) && items[..] == seq(capacity, _ => defaultValue)
    {
      this.capacity := capacity;
      this.defaultValue := defaultValue;
      items := new T[capacity](_ => defaultValue);
      top := -1;
    }

    predicate IsEmpty(): (r: bool)
      reads this, items
      requires Valid()
      ensures capacity > 0 ==> (r <==> Contents() == [])
      ensures capacity == 0 ==> (r <==> top == -1)
    {
      top == -1
    }

    /** Array.Resize to capacity more slots; with capacity 0 the size is unchanged and nothing happens. */
    method Resize()
      requires Valid()
      modifies this
      ensures Valid() && top == old(top)
      ensures capacity == 0 ==> items == old(items)
      ensures capacity > 0 ==> fresh(items) && items[..] == old(items[..]) + seq(capacity, _ => defaultValue)
    {
      if capacity == 0 {
        return;
      }
      var newItems := new T[items.Length + capacity](_ => defaultValue);
      DynamicArrays.CopyPrefix(items, newItems, items.Length);
      items := newItems;
    }

    /**
     * Grows the array when full, then stores item above the old top. With
     * capacity 0, ++top has run when the store past the end throws.
     */
    method Push(item: T) returns (r: Result<()>)
      requires Valid()
      modifies this, items
      ensures Valid() && top == old(top) + 1
      ensures capacity > 0 ==> r == Ok(()) && Contents() == old(Contents()) + [item]
      ensures capacity == 0 ==> r == Throws(IndexOutOfRangeException) && items == old(items)
      ensures capacity > 0 && old(top) < old(items.Length) - 1 ==>
                items == old(items) && items[..] == old(items[..])[top := item]
      ensures capacity > 0 && old(top) == old(items.Length) - 1 ==>
                && fresh(items)
                && items[..] == old(items[..]) + [item] + seq(capacity - 1, _ => defaultValue)
    {
      if top == items.Length - 1 {
        Resize();
      }
      top := top + 1;
      if top >= items.Length {
        return Throws(IndexOutOfRangeException);
      }
      ghost var before := items[..];
      items[top] := item;
      assert items[..top + 1] == before[..top] + [item];
      return Ok(());
    }

    /**
     * Removes and returns the top item; an empty stack throws. With capacity
     * 0, top-- has run when the read past the end throws.
     */
    method Pop() returns (r: Result<T>)
      requires Valid()
      modifies this
      ensures Valid() && items == old(items)
      ensures old(top) == -1 ==> r == Throws(InvalidOperationException) && top == -1
      ensures old(top) >= 0 ==> top == old(top) - 1
      ensures old(top) >= 0 && capacity > 0 ==>
                && r == Ok(old(Contents())[|old(Contents())| - 1])
                && Contents() == old(Contents())[..|old(Contents())| - 1]
      ensures old(top) >= 0 && capacity == 0 ==> r == Throws(IndexOutOfRangeException)
    {
      if top == -1 {
        return Throws(InvalidOperationException);
      }
      var index := top;
      top := top - 1;
      if index >= items.Length {
        return Throws(IndexOutOfRangeException);
      }
      return Ok(items[index]);
    }

    /** The top item, left in place (the source names it pick); an empty stack throws. */
    method Pick() returns (r: Result<T>)
      requires Valid()
      ensures top == -1 ==> r == Throws(InvalidOperationException)
      ensures top >= 0 && capacity > 0 ==> r == Ok(Contents()[|Contents()| - 1])
      ensures top >= 0 && capacity == 0 ==> r == Throws(IndexOutOfRangeException)
    {
      if top == -1 {
        return Throws(InvalidOperationException);
      }
      if top >= items.Length {
        return Throws(IndexOutOfRangeException);
      }
      return Ok(items[top]);
    }
  }

  /**
   * Last in, first out: after Push(x), Pick sees x and Pop returns x and
   * leaves the stack's items as they were.
   */
  method PushPickPop<T>(stack: Stack<T>, x: T) returns (seen: Result<T>, popped: Result<T>)
    requires stack.Valid() && stack.capacity > 0
    modifies stack, stack.items
    ensures stack.Valid() && seen == Ok(x) && popped == Ok(x)
    ensures stack.Contents() == old(stack.Contents())
  {
    var pushed := stack.Push(x);
    seen := stack.Pick();
    popped := stack.Pop();
  }

  // ---------------------------------------------------------------------------
  // Binary search tree ordered by a comparison
  // ---------------------------------------------------------------------------

  /** At every node the left subtree's keys compare below the node's key and the right subtree's above it. */
  ghost predicate IsOrderedBy<T>(cmp: (T, T) -> int, t: Tree<T>) {
    match t
    case Leaf => true
    case Node(l, k, r) =>
      && (forall x :: x in Keys(l) ==> cmp(x, k) < 0)
      && (forall x :: x in Keys(r) ==> cmp(x, k) > 0)
      && IsOrderedBy(cmp, l) && IsOrderedBy(cmp, r)
  }

  /**
   * What InsertRecursively makes of a tree: a new leaf where the search for v
   * ends, unless a key comparing equal to v is met on the way.
   */
  function InsertBy<T>(cmp: (T, T) -> int, t: Tree<T>, v: T): Tree<T>
  {
    match t
    case Leaf => Node(Leaf, v, Leaf)
    case Node(l, k, r) =>
      if cmp(v, k) < 0 then Node(InsertBy(cmp, l, v), k, r)
      else if cmp(v, k) > 0 then Node(l, k, InsertBy(cmp, r, v))
      else t
  }

  /** Insertion either leaves the tree as it was or adds exactly v. */
  lemma {:induction false} InsertByElements<T>(cmp: (T, T) -> int, t: Tree<T>, v: T)
    ensures InsertBy(cmp, t, v) == t || Elements(InsertBy(cmp, t, v)) == Elements(t) + multiset{v}
  {
    match t
    case Leaf =>
    case Node(l, k, r) =>
      if cmp(v, k) < 0 {
        InsertByElements(cmp, l, v);
      } else if cmp(v, k) > 0 {
        InsertByElements(cmp, r, v);
      }
  }

  /** Insertion leaves a tree as it was only when the search meets a key comparing equal to v. */
  lemma {:induction false} InsertByStays<T>(cmp: (T, T) -> int, t: Tree<T>, v: T)
    ensures InsertBy(cmp, t, v) == t ==> exists x :: x in Keys(t) && cmp(v, x) == 0
  {
    match t
    case Leaf =>
    case Node(l, k, r) =>
      if cmp(v, k) < 0 {
        InsertByStays(cmp, l, v);
      } else if cmp(v, k) > 0 {
        InsertByStays(cmp, r, v);
      } else {
        assert k in Keys(t);
      }
  }

  /** A key equal to v under a comparison sits on the same side of every other key as v. */
  lemma EquivalentSide<T(!new)>(cmp: (T, T) -> int, v: T, x: T, k: T)
    requires IsComparison(cmp) && cmp(v, x) == 0
    ensures cmp(v, k) < 0 ==> cmp(x, k) < 0
    ensures cmp(v, k) > 0 ==> cmp(x, k) > 0
  {
    assert cmp(x, v) == 0;
    assert cmp(x, v) <= 0 && cmp(v, k) <= 0 ==> cmp(x, k) <= 0;
    assert cmp(k, v) <= 0 && cmp(v, x) <= 0 ==> cmp(k, x) <= 0;
    assert cmp(x, k) <= 0 && cmp(k, v) <= 0 ==> cmp(x, v) <= 0;
    assert cmp(v, x) <= 0 && cmp(x, k) <= 0 ==> cmp(v, k) <= 0;
  }

  /** Insertion adds no key other than v. */
  lemma {:induction false} InsertByKeys<T>(cmp: (T, T) -> int, t: Tree<T>, v: T)
    ensures Keys(InsertBy(cmp, t, v)) <= Keys(t) + {v}
  {
    match t
    case Leaf =>
    case Node(l, k, r) =>
      if cmp(v, k) < 0 {
        InsertByKeys(cmp, l, v);
      } else if cmp(v, k) > 0 {
        InsertByKeys(cmp, r, v);
      }
  }

  /** In an ordered tree insertion keeps the order. */
  lemma {:induction false} InsertByKeepsOrder<T>(cmp: (T, T) -> int, t: Tree<T>, v: T)
    requires IsOrderedBy(cmp, t)
    ensures IsOrderedBy(cmp, InsertBy(cmp, t, v))
  {
    match t
    case Leaf =>
    case Node(l, k, r) =>
      if cmp(v, k) < 0 {
        InsertByKeepsOrder(cmp, l, v);
        InsertByKeys(cmp, l, v);
      } else if cmp(v, k) > 0 {
        InsertByKeepsOrder(cmp, r, v);
        InsertByKeys(cmp, r, v);
      }
  }

  /**
   * In an ordered tree insertion leaves the tree as it was exactly when some
   * key compares equal to v.
   */
  lemma {:induction false} InsertByStaysIffEqualKey<T(!new)>(cmp: (T, T) -> int, t: Tree<T>, v: T)
    requires IsComparison(cmp) && IsOrderedBy(cmp, t)
    ensures InsertBy(cmp, t, v) == t <==> exists x :: x in Keys(t) && cmp(v, x) == 0
  {
    InsertByStays(cmp, t, v);
    match t
    case Leaf =>
    case Node(l, k, r) =>
      if cmp(v, k) < 0 {
        InsertByStaysIffEqualKey(cmp, l, v);
        forall x | x in Keys(t) && cmp(v, x) == 0
          ensures x in Keys(l)
        {
          EquivalentSide(cmp, v, x, k);
        }
      } else if cmp(v, k) > 0 {
        InsertByStaysIffEqualKey(cmp, r, v);
        forall x | x in Keys(t) && cmp(v, x) == 0
          ensures x in Keys(r)
        {
          EquivalentSide(cmp, v, x, k);
        }
      }
  }

  class TreeNode<T> {
    var value: T
    var left: TreeNode?<T>
    var right: TreeNode?<T>
    /** The nodes of this subtree. */
    ghost var Repr: set<object>
    /** The subtree as a value. */
    ghost var Content: Tree<T>

    /** The children own disjoint parts of Repr, and Content is this node's subtree. */
    ghost predicate Valid()
      reads this, Repr
      decreases Repr
    {
      && this in Repr
      && (left != null ==>
            left in Repr && left.Repr <= Repr && this !in left.Repr && left.Valid())
      && (right != null ==>
            right in Repr && right.Repr <= Repr && this !in right.Repr && right.Valid())
      && (left != null && right != null ==> left.Repr !! right.Repr)
      && Content == Node(TreeOf(left), value, TreeOf(right))
    }

    constructor(value: T)
      ensures Valid() && fresh(Repr) && Content == Node(Leaf, value, Leaf)
    {
      this.value := value;
      left := null;
      right := null;
      Repr := {this};
      Content := Node(Leaf, value, Leaf);
    }
  }

  /** The subtree rooted at n; an empty tree for null. */
  ghost function TreeOf<T>(n: TreeNode?<T>): Tree<T>
    reads n
  {
    if n == null then Leaf else n.Content
  }

  ghost function ReprOf<T>(n: TreeNode?<T>): set<object>
    reads n
  {
    if n == null then {} else n.Repr
  }

  /** A search tree whose keys are ordered by cmp, the CompareTo of T. */
  class BinarySearchTree<T(!new)> {
    var root: TreeNode?<T>
    const cmp: (T, T) -> int
    ghost var Repr: set<object>

    ghost predicate Valid()
      reads this, Repr
    {
      && this in Repr
      && (root != null ==> root in Repr && root.Repr <= Repr && this !in root.Repr && root.Valid())
      && IsComparison(cmp)
      && IsOrderedBy(cmp, TreeOf(root))
    }

    /** The whole tree as a value. */
    ghost function Content(): Tree<T>
      reads this, root
    {
      TreeOf(root)
    }

    constructor(cmp: (T, T) -> int)
      requires IsComparison(cmp)
      ensures Valid() && fresh(Repr) && Content() == Leaf && this.cmp == cmp
    {
      root := null;
      this.cmp := cmp;
      Repr := {this};
    }

    /**
     * Adds value unless a key comparing equal to it is present; the keys stay
     * ordered.
     */
    method Insert(value: T)
      requires Valid()
      modifies Repr
      ensures Valid() && fresh(Repr - old(Repr))
      ensures Content() == InsertBy(cmp, old(Content()), value)
      ensures (exists x :: x in old(Keys(Content())) && cmp(value, x) == 0) ==> Content() == old(Content())
      ensures (forall x :: x in old(Keys(Content())) ==> cmp(value, x) != 0) ==>
                Elements(Content()) == old(Elements(Content())) + multiset{value}
    {
      ghost var before := Content();
      var newRoot := InsertRecursively(root, value);
      root := newRoot;
      Repr := Repr + root.Repr;
      InsertByKeepsOrder(cmp, before, value);
      InsertByStaysIffEqualKey(cmp, before, value);
      InsertByElements(cmp, before, value);
    }

    /** Walks down by cmp to where value belongs and hangs a new node there; an equal key stops the walk. */
    method InsertRecursively(node: TreeNode?<T>, value: T) returns (r: TreeNode<T>)
      requires node != null ==> node.Valid()
      modifies ReprOf(node)
      ensures r.Valid()
      ensures r.Content == InsertBy(cmp, old(TreeOf(node)), value)
      ensures node == null ==> fresh(r.Repr)
      ensures node != null ==> r == node && fresh(r.Repr - old(node.Repr))
      decreases ReprOf(node)
    {
      if node == null {
        r := new TreeNode(value);
        return;
      }
      if cmp(value, node.value) < 0 {
        var newLeft := InsertRecursively(node.left, value);
        node.left := newLeft;
        node.Repr := node.Repr + newLeft.Repr;
      } else if cmp(value, node.value) > 0 {
        var newRight := InsertRecursively(node.right, value);
        node.right := newRight;
        node.Repr := node.Repr + newRight.Repr;
      }
      node.Content := Node(TreeOf(node.left), node.value, TreeOf(node.right));
      r := node;
    }
  }
}
