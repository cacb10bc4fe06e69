/**
 * Floyd's fast/slow pointer walks over a singly linked list of heap nodes:
 * cycle detection, the first node of the cycle, and the middle node.
 * The walks only read the list; no method here has a modifies clause.
 */
module FastSlowPointers {

  /** A list node; `next` is the reference the walks follow. */
  class ListNode {
    var value: int
    var next: ListNode?

    constructor (value: int)
      ensures this.value == value && next == null
    {
      this.value := value;
      next := null;
    }
  }

  /** Every node in `nodes` points to null or to another node in `nodes`. */
  ghost predicate Closed(nodes: set<ListNode>)
    reads nodes
  {
    forall n :: n in nodes ==> n.next == null || n.next in nodes
  }

  predicate InList(nodes: set<ListNode>, x: ListNode?)
  {
    x == null || x in nodes
  }

  /** The reference reached from x by k steps of `?.Next` (null stays null). */
  ghost function Iter(nodes: set<ListNode>, x: ListNode?, k: nat): (r: ListNode?)
    requires Closed(nodes) && InList(nodes, x)
    reads nodes
    ensures InList(nodes, r)
  {
    if k == 0 then x
    else
      var y := Iter(nodes, x, k - 1);
      if y == null then null else y.next
  }

  /** Following Next from x eventually yields null: the list has no cycle. */
  ghost predicate ReachesNull(nodes: set<ListNode>, x: ListNode?)
    requires Closed(nodes) && InList(nodes, x)
    reads nodes
  {
    exists k :: Iter(nodes, x, k) == null
  }

  /** x lies on a cycle: some positive number of steps brings it back to x. */
  ghost predicate OnCycle(nodes: set<ListNode>, x: ListNode?)
    requires Closed(nodes) && InList(nodes, x)
    reads nodes
  {
    x != null && exists p :: p >= 1 && Iter(nodes, x, p) == x
  }

  /** Position m is the first position on the walk from x whose node lies on a cycle. */
  ghost predicate FirstOnCycle(nodes: set<ListNode>, x: ListNode?, m: nat)
    requires Closed(nodes) && InList(nodes, x)
    reads nodes
  {
    OnCycle(nodes, Iter(nodes, x, m)) &&
    forall k :: 0 <= k < m ==> !OnCycle(nodes, Iter(nodes, x, k))
  }

  /** The list from x has exactly n nodes. */
  ghost predicate IsLength(nodes: set<ListNode>, x: ListNode?, n: nat)
    requires Closed(nodes) && InList(nodes, x)
    reads nodes
  {
    Iter(nodes, x, n) == null && forall k :: 0 <= k < n ==> Iter(nodes, x, k) != null
  }

  // ---------------------------------------------------------------------
  // Walk arithmetic

  lemma {:induction false} IterAdd(nodes: set<ListNode>, x: ListNode?, a: nat, b: nat)
    requires Closed(nodes) && InList(nodes, x)
    ensures Iter(nodes, x, a + b) == Iter(nodes, Iter(nodes, x, a), b)
  {
    if b > 0 {
      IterAdd(nodes, x, a, b - 1);
    }
  }

  /** Once the walk reaches null it stays there. */
  lemma {:induction false} NullStays(nodes: set<ListNode>, x: ListNode?, a: nat, b: nat)
    requires Closed(nodes) && InList(nodes, x)
    requires a <= b
    ensures Iter(nodes, x, a) == null ==> Iter(nodes, x, b) == null
  {
    if a < b {
      NullStays(nodes, x, a, b - 1);
    }
  }

  /** A repetition at positions i and i + p makes the walk p-periodic from i on. */
  lemma {:induction false} Periodic(nodes: set<ListNode>, x: ListNode?, i: nat, p: nat, a: nat, y: nat)
    requires Closed(nodes) && InList(nodes, x)
    requires Iter(nodes, x, i) == Iter(nodes, x, i + p) && i <= a
    ensures Iter(nodes, x, a + p * y) == Iter(nodes, x, a)
  {
    if y > 0 {
      var b := a + p * (y - 1);
      Periodic(nodes, x, i, p, a, y - 1);
      IterAdd(nodes, x, i + p, b - i);
      IterAdd(nodes, x, i, b - i);
      assert b + p == a + p * y;
    }
  }

  /** A meeting of slow (t steps) and fast (2t steps) on a node means there is no end. */
  lemma MeetMeansCycle(nodes: set<ListNode>, x: ListNode?, t: nat)
    requires Closed(nodes) && InList(nodes, x)
    requires t >= 1 && Iter(nodes, x, t) == Iter(nodes, x, 2 * t) != null
    ensures !ReachesNull(nodes, x)
  {
    forall m: nat ensures Iter(nodes, x, m) != null {
      if m < 2 * t {
        NullStays(nodes, x, m, 2 * t);
      } else {
        var q, r := (m - t) / t, (m - t) % t;
        Periodic(nodes, x, t, t, t + r, q);
        assert t + r + t * q == m;
        NullStays(nodes, x, t + r, 2 * t);
      }
    }
  }

  /**
   * If the node k steps from x returns to itself after p steps, then it is also
   * reached again after any t steps at which slow and fast meet.
   */
  lemma RepeatGivesMeet(nodes: set<ListNode>, x: ListNode?, t: nat, k: nat, p: nat)
    requires Closed(nodes) && InList(nodes, x)
    requires t >= 1 && Iter(nodes, x, t) == Iter(nodes, x, 2 * t) && p >= 1
    ensures Iter(nodes, Iter(nodes, x, k), p) == Iter(nodes, x, k) ==>
              Iter(nodes, x, k) == Iter(nodes, x, k + t)
  {
    if Iter(nodes, Iter(nodes, x, k), p) == Iter(nodes, x, k) {
      IterAdd(nodes, x, k, p);
      Periodic(nodes, x, k, p, k, t);
      Periodic(nodes, x, t, t, k + t, p - 1);
      assert k + t + t * (p - 1) == k + p * t;
    }
  }

  /** A node at position k lies on a cycle exactly when it repeats at position k + p. */
  lemma OnCycleAt(nodes: set<ListNode>, x: ListNode?, k: nat, p: nat)
    requires Closed(nodes) && InList(nodes, x)
    requires p >= 1 && Iter(nodes, x, k) == Iter(nodes, x, k + p) != null
    ensures OnCycle(nodes, Iter(nodes, x, k))
  {
    IterAdd(nodes, x, k, p);
  }

  // ---------------------------------------------------------------------
  // Pigeonhole: a walk of more steps than nodes repeats a node

  lemma {:induction false} DistinctCard<T>(s: seq<T>)
    ensures (forall i, j :: 0 <= i < j < |s| ==> s[i] != s[j]) ==> |set v | v in s| == |s|
  {
    if |s| > 0 {
      var init := s[..|s| - 1];
      DistinctCard(init);
      assert (set v | v in s) == (set v | v in init) + {s[|s| - 1]};
      if forall i, j :: 0 <= i < j < |s| ==> s[i] != s[j] {
        forall i, j | 0 <= i < j < |init| ensures init[i] != init[j] {
          assert init[i] == s[i] && init[j] == s[j];
        }
        forall i | 0 <= i < |init| ensures init[i] != s[|s| - 1] {
          assert init[i] == s[i];
        }
      }
    }
  }

  lemma Pigeonhole<T>(s: seq<T>, S: set<T>)
    requires forall i :: 0 <= i < |s| ==> s[i] in S
    requires |s| > |S|
    ensures exists i, j :: 0 <= i < j < |s| && s[i] == s[j]
  {
    DistinctCard(s);
    var V := set v | v in s;
    assert S == V + (S - V);
  }

  /** The first n positions of the walk from x. */
  ghost function Prefix(nodes: set<ListNode>, x: ListNode?, n: nat): (r: seq<ListNode?>)
    requires Closed(nodes) && InList(nodes, x)
    reads nodes
    ensures |r| == n && forall k :: 0 <= k < n ==> r[k] == Iter(nodes, x, k)
  {
    if n == 0 then [] else Prefix(nodes, x, n - 1) + [Iter(nodes, x, n - 1)]
  }

  lemma {:induction false} MultipleAbove(lo: nat, p: nat) returns (q: nat)
    requires lo >= 1 && p >= 1
    ensures q >= 1 && lo <= p * q < lo + p
    decreases lo
  {
    if lo <= p {
      q := 1;
    } else {
      var q' := MultipleAbove(lo - p, p);
      q := q' + 1;
      assert p * q == p * q' + p;
    }
  }

  /**
   * If the walk from x survives |nodes| steps, slow and fast meet within
   * |nodes| iterations.
   */
  lemma MeetingBound(nodes: set<ListNode>, x: ListNode?)
    requires Closed(nodes) && InList(nodes, x)
    ensures Iter(nodes, x, |nodes|) != null ==>
              exists t :: 1 <= t <= |nodes| && Iter(nodes, x, t) == Iter(nodes, x, 2 * t)
  {
    var N := |nodes|;
    if Iter(nodes, x, N) != null {
      var s := Prefix(nodes, x, N + 1);
      forall k | 0 <= k < N + 1 ensures s[k] in nodes {
        NullStays(nodes, x, k, N);
      }
      Pigeonhole(s, nodes);
      var i, j :| 0 <= i < j < N + 1 && s[i] == s[j];
      var p := j - i;
      var q := MultipleAbove(if i == 0 then 1 else i, p);
      var t := p * q;
      Periodic(nodes, x, i, p, t, q);
      assert t + p * q == 2 * t;
    }
  }

  /** Walking from x, the first null is at some position no later than m. */
  lemma {:induction false} FirstNull(nodes: set<ListNode>, x: ListNode?, m: nat) returns (n: nat)
    requires Closed(nodes) && InList(nodes, x)
    requires Iter(nodes, x, m) == null
    ensures n <= m && IsLength(nodes, x, n)
  {
    if m == 0 {
      n := 0;
    } else if Iter(nodes, x, m - 1) == null {
      n := FirstNull(nodes, x, m - 1);
    } else {
      n := m;
      forall k | 0 <= k < m ensures Iter(nodes, x, k) != null {
        NullStays(nodes, x, k, m - 1);
      }
    }
  }

  // ---------------------------------------------------------------------
  // The three walks

  /** Floyd's cycle detection: true exactly when the list never ends. */
  method HasCycle(ghost nodes: set<ListNode>, head: ListNode?) returns (b: bool)
    requires Closed(nodes) && InList(nodes, head)
    ensures b <==> !ReachesNull(nodes, head)
  {
    var fast := head;
    var slow := head;
    ghost var t: nat := 0;
    MeetingBound(nodes, head);
    while fast != null && fast.next != null
      invariant t <= |nodes|
      invariant slow == Iter(nodes, head, t) && fast == Iter(nodes, head, 2 * t)
      invariant forall s :: 1 <= s <= t ==> Iter(nodes, head, s) != Iter(nodes, head, 2 * s)
      decreases |nodes| - t
    {
      NullStays(nodes, head, t, 2 * t);
      slow := if slow == null then null else slow.next;
      fast := if fast.next == null then null else fast.next.next;
      t := t + 1;
      NullStays(nodes, head, t, 2 * t - 1);
      if slow == fast {
        MeetMeansCycle(nodes, head, t);
        return true;
      }
      if |nodes| <= 2 * t - 1 {
        NullStays(nodes, head, |nodes|, 2 * t - 1);
      }
    }
    assert Iter(nodes, head, 2 * t + 1) == null;
    return false;
  }

  /**
   * Floyd's cycle start: null for a list that ends, otherwise the first node
   * of the walk from head that lies on the cycle.
   */
  method DetectCycle(ghost nodes: set<ListNode>, head: ListNode?) returns (r: ListNode?)
    requires Closed(nodes) && InList(nodes, head)
    ensures r == null <==> ReachesNull(nodes, head)
    ensures r != null ==> exists m :: r == Iter(nodes, head, m) && FirstOnCycle(nodes, head, m)
  {
    var fast := head;
    var slow := head;
    ghost var t: nat := 0;
    MeetingBound(nodes, head);
    while fast != null && fast.next != null
      invariant t <= |nodes|
      invariant slow == Iter(nodes, head, t) && fast == Iter(nodes, head, 2 * t)
      invariant forall s :: 1 <= s <= t ==> Iter(nodes, head, s) != Iter(nodes, head, 2 * s)
      decreases |nodes| - t
    {
      NullStays(nodes, head, t, 2 * t);
      slow := if slow == null then null else slow.next;
      fast := if fast.next == null then null else fast.next.next;
      t := t + 1;
      NullStays(nodes, head, t, 2 * t - 1);
      if slow == fast {
        MeetMeansCycle(nodes, head, t);
        slow := FindCycleStart(nodes, head, fast, t);
        return slow;
      }
      if |nodes| <= 2 * t - 1 {
        NullStays(nodes, head, |nodes|, 2 * t - 1);
      }
    }
    assert Iter(nodes, head, 2 * t + 1) == null;
    return null;
  }

  /**
   * The second phase of DetectCycle: with fast at the meeting point t steps
   * from head, restart slow at head and step both by one until they meet.
   */
  method FindCycleStart(ghost nodes: set<ListNode>, head: ListNode?, meet: ListNode?, ghost t: nat)
    returns (slow: ListNode?)
    requires Closed(nodes) && InList(nodes, head)
    requires t >= 1 && meet == Iter(nodes, head, t) == Iter(nodes, head, 2 * t) != null
    ensures slow != null && exists m :: slow == Iter(nodes, head, m) && FirstOnCycle(nodes, head, m)
  {
    var fast := meet;
    slow := head;
    ghost var s: nat := 0;
    while slow != fast
      invariant s <= t
      invariant slow == Iter(nodes, head, s) && fast == Iter(nodes, head, s + t)
      invariant forall k :: 0 <= k < s ==> Iter(nodes, head, k) != Iter(nodes, head, k + t)
      decreases t - s
    {
      slow := if slow == null then null else slow.next;
      fast := if fast == null then null else fast.next;
      s := s + 1;
    }
    MeetMeansCycle(nodes, head, t);
    assert Iter(nodes, head, s) != null;
    OnCycleAt(nodes, head, s, t);
    forall k | 0 <= k < s ensures !OnCycle(nodes, Iter(nodes, head, k)) {
      forall p | p >= 1 ensures Iter(nodes, Iter(nodes, head, k), p) != Iter(nodes, head, k) {
        RepeatGivesMeet(nodes, head, t, k, p);
      }
    }
  }

  /**
   * The middle node of a list that ends: position n / 2 for a list of n nodes,
   * the second of the two middles when n is even. On a cyclic list the walk
   * never stops, so the list must end.
   */
  method MiddleNode(ghost nodes: set<ListNode>, head: ListNode) returns (r: ListNode?)
    requires Closed(nodes) && head in nodes
    requires ReachesNull(nodes, head)
    ensures exists n: nat :: IsLength(nodes, head, n) && r == Iter(nodes, head, n / 2)
  {
    var slow: ListNode? := head;
    var fast: ListNode? := head;
    ghost var m :| Iter(nodes, head, m) == null;
    ghost var n := FirstNull(nodes, head, m);
    ghost var t: nat := 0;
    while fast != null && fast.next != null
      invariant 2 * t <= n
      invariant slow == Iter(nodes, head, t) && fast == Iter(nodes, head, 2 * t)
      decreases n - 2 * t
    {
      slow := if slow == null then null else slow.next;
      fast := if fast.next == null then null else fast.next.next;
      t := t + 1;
    }
    if fast != null {
      assert Iter(nodes, head, 2 * t + 1) == null;
    }
    assert n / 2 == t;
    r := slow;
  }
}
