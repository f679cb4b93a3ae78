/**
 * lib/algorithms/heap.ts: an array-backed binary min-heap ordered by an injected
 * comparator. `compare(a, b) < 0` means that `a` must leave the heap before `b`.
 */
module Heap {
  import opened Wrappers

  /** `a` compares strictly below `b`. */
  predicate Below<T>(compare: (T, T) -> int, a: T, b: T) {
    compare(a, b) < 0
  }

  /**
   * What the heap needs from its comparator: "compares below" is a strict weak
   * order (asymmetric and negatively transitive). Both comparators of the
   * scheduler are of this kind.
   */
  ghost predicate StrictWeakOrder<T(!new)>(compare: (T, T) -> int) {
    && (forall a, b :: Below(compare, a, b) ==> !Below(compare, b, a))
    && (forall a, b, c {:trigger NegativelyTransitive(compare, a, b, c)} :: NegativelyTransitive(compare, a, b, c))
  }

  /** If `a` is below `c`, then any `b` is above `a` or below `c`. */
  ghost predicate NegativelyTransitive<T>(compare: (T, T) -> int, a: T, b: T, c: T) {
    Below(compare, a, c) ==> Below(compare, a, b) || Below(compare, b, c)
  }

  /** Index of the parent of slot `k` in the implicit binary tree. */
  function Parent(k: nat): nat
    requires k > 0
  {
    (k - 1) / 2
  }

  /** Heap order: no element compares below its parent. */
  ghost predicate HeapOrdered<T>(q: seq<T>, compare: (T, T) -> int) {
    forall k {:trigger q[Parent(k)]} :: 0 < k < |q| ==> !Below(compare, q[k], q[Parent(k)])
  }

  /** Heap order on every edge except the one from slot `i` to its parent (sift-up). */
  ghost predicate OrderedExceptUp<T>(q: seq<T>, compare: (T, T) -> int, i: nat) {
    && (forall k :: 0 < k < |q| && k != i ==> !Below(compare, q[k], q[Parent(k)]))
    && (0 < i < |q| ==>
          forall k :: 0 < k < |q| && Parent(k) == i ==> !Below(compare, q[k], q[Parent(i)]))
  }

  /** Heap order on every edge except those from slot `i` to its children (sift-down). */
  ghost predicate OrderedExceptDown<T>(q: seq<T>, compare: (T, T) -> int, i: nat) {
    && (forall k :: 0 < k < |q| && Parent(k) != i ==> !Below(compare, q[k], q[Parent(k)]))
    && (0 < i < |q| ==>
          forall k :: 0 < k < |q| && Parent(k) == i ==> !Below(compare, q[k], q[Parent(i)]))
  }

  /** "Does not compare below" is transitive under a strict weak order. */
  lemma NotBelowTrans<T(!new)>(compare: (T, T) -> int, a: T, b: T, c: T)
    requires StrictWeakOrder(compare)
    requires !Below(compare, a, b) && !Below(compare, b, c)
    ensures !Below(compare, a, c)
  {
    assert NegativelyTransitive(compare, a, b, c);
  }

  lemma ParentOfChild(k: nat, i: nat)
    requires k > 0
    ensures Parent(k) == i <==> k == 2 * i + 1 || k == 2 * i + 2
  {
  }

  /** In a heap-ordered sequence nothing compares below slot `k`'s ancestors' root. */
  lemma {:induction false} RootNotAbove<T(!new)>(q: seq<T>, compare: (T, T) -> int, k: nat)
    requires StrictWeakOrder(compare) && HeapOrdered(q, compare)
    requires k < |q|
    ensures !Below(compare, q[k], q[0])
    decreases k
  {
    if k > 0 {
      var p := Parent(k);
      RootNotAbove(q, compare, p);
      NotBelowTrans(compare, q[k], q[p], q[0]);
    }
  }

  /** The root of a heap-ordered sequence is a minimum of its elements. */
  lemma RootIsMinimum<T(!new)>(q: seq<T>, compare: (T, T) -> int)
    requires StrictWeakOrder(compare) && HeapOrdered(q, compare) && |q| > 0
    ensures forall x | x in multiset(q) :: !Below(compare, x, q[0])
  {
    forall x | x in multiset(q) ensures !Below(compare, x, q[0]) {
      var k :| 0 <= k < |q| && q[k] == x;
      RootNotAbove(q, compare, k);
    }
  }

  /**
   * The slot `_siftDown` picks at `i`: the left child if it compares below `i`, then
   * the right child if it compares below that pick.
   */
  function LowestOfFamily<T>(q: seq<T>, compare: (T, T) -> int, i: nat): (next: nat)
    requires i < |q|
    ensures next < |q|
  {
    var l := 2 * i + 1;
    var r := 2 * i + 2;
    var n1 := if l < |q| && Below(compare, q[l], q[i]) then l else i;
    if r < |q| && Below(compare, q[r], q[n1]) then r else n1
  }

  lemma LowestOfFamilyIsLowest<T(!new)>(q: seq<T>, compare: (T, T) -> int, i: nat)
    requires StrictWeakOrder(compare) && i < |q|
    ensures var next := LowestOfFamily(q, compare, i);
      && (next == i || next == 2 * i + 1 || next == 2 * i + 2)
      && (next != i ==> Below(compare, q[next], q[i]))
      && !Below(compare, q[i], q[next])
      && forall k :: 0 < k < |q| && Parent(k) == i ==> !Below(compare, q[k], q[next])
  {
    var l := 2 * i + 1;
    var r := 2 * i + 2;
    var next := LowestOfFamily(q, compare, i);
    forall k | 0 < k < |q| && Parent(k) == i
      ensures !Below(compare, q[k], q[next])
    {
      ParentOfChild(k, i);
      if l < |q| && Below(compare, q[l], q[i]) {
        if next == r {
          assert NegativelyTransitive(compare, q[r], q[i], q[l]);
        }
      } else if next == r {
        if k == l {
          NotBelowTrans(compare, q[l], q[i], q[r]);
        }
      }
    }
    if next != i {
      assert Below(compare, q[next], q[i]) by {
        if next == r && l < |q| && Below(compare, q[l], q[i]) {
          assert NegativelyTransitive(compare, q[r], q[i], q[l]);
        }
      }
    }
  }

  /** Sift-down stops when no child of the hole compares below it. */
  lemma FamilyInOrder<T(!new)>(q: seq<T>, compare: (T, T) -> int, i: nat)
    requires StrictWeakOrder(compare) && i < |q|
    requires OrderedExceptDown(q, compare, i) && LowestOfFamily(q, compare, i) == i
    ensures HeapOrdered(q, compare)
  {
    LowestOfFamilyIsLowest(q, compare, i);
  }

  /** Sift-up stops when the slot does not compare below its parent. */
  lemma UpInOrder<T>(q: seq<T>, compare: (T, T) -> int, i: nat)
    requires 0 < i < |q| && OrderedExceptUp(q, compare, i)
    requires !Below(compare, q[i], q[Parent(i)])
    ensures HeapOrdered(q, compare)
  {
    forall k | 0 < k < |q|
      ensures !Below(compare, q[k], q[Parent(k)])
    {
      if k == i {
        assert !Below(compare, q[i], q[Parent(i)]);
      }
    }
  }

  /** `pop` moves the last element into the vacated root: only the root's edges may be out of order. */
  lemma LastToRoot<T(!new)>(q: seq<T>, compare: (T, T) -> int)
    requires HeapOrdered(q, compare) && |q| > 1
    ensures var q' := [q[|q| - 1]] + q[1..|q| - 1];
      && |q'| == |q| - 1
      && multiset(q') == multiset(q) - multiset{q[0]}
      && OrderedExceptDown(q', compare, 0)
  {
    var q' := [q[|q| - 1]] + q[1..|q| - 1];
    assert q == [q[0]] + q[1..|q| - 1] + [q[|q| - 1]];
    forall k | 0 < k < |q'| && Parent(k) != 0
      ensures !Below(compare, q'[k], q'[Parent(k)])
    {
      assert q'[k] == q[k] && q'[Parent(k)] == q[Parent(k)];
    }
  }

  /** Exchanging two slots keeps the multiset of elements. */
  lemma SwapKeepsElements<T>(q: seq<T>, i: nat, j: nat)
    requires i < |q| && j < |q|
    ensures multiset(q[i := q[j]][j := q[i]]) == multiset(q)
  {
    if i != j {
      calc {
        multiset(q[i := q[j]][j := q[i]]);
        multiset(q[i := q[j]]) - multiset{q[i := q[j]][j]} + multiset{q[i]};
        multiset(q) - multiset{q[i]} + multiset{q[j]} - multiset{q[j]} + multiset{q[i]};
        multiset(q);
      }
    }
  }

  class MinHeap<T(!new)> {
    /** The backing array, kept in heap order. */
    var queue: seq<T>
    const compare: (T, T) -> int

    ghost predicate Valid()
      reads this
    {
      StrictWeakOrder(compare) && HeapOrdered(queue, compare)
    }

    /** The elements held, without their order. */
    ghost function Elements(): multiset<T>
      reads this
    {
      multiset(queue)
    }

    constructor (compare: (T, T) -> int)
      requires StrictWeakOrder(compare)
      ensures Valid() && this.compare == compare && queue == []
    {
      this.compare := compare;
      queue := [];
    }

    function Len(): (n: nat)
      reads this
      ensures n == |Elements()|
    {
      |queue|
    }

    function IsEmpty(): (b: bool)
      reads this
      ensures b <==> Elements() == multiset{}
    {
      |queue| == 0
    }

    /** The element `Pop` would return, without removing it. */
    function Peek(): (r: Option<T>)
      reads this
      requires Valid()
      ensures r.None? <==> Elements() == multiset{}
      ensures r.Some? ==> r.value in Elements()
      ensures r.Some? ==> forall x | x in Elements() :: !Below(compare, x, r.value)
    {
      if |queue| == 0 then None
      else
        RootIsMinimum(queue, compare);
        Some(queue[0])
    }

    method Push(val: T)
      requires Valid()
      modifies this
      ensures Valid()
      ensures Elements() == old(Elements()) + multiset{val}
      ensures Len() == old(Len()) + 1
    {
      queue := queue + [val];
      SiftUp(|queue| - 1);
    }

    method Pop() returns (r: Option<T>)
      requires Valid()
      modifies this
      ensures Valid()
      ensures r == old(Peek())
      ensures old(Len()) == 0 ==> queue == []
      ensures old(Len()) > 0 ==> Len() == old(Len()) - 1
      ensures r.Some? ==> Elements() == old(Elements()) - multiset{r.value}
    {
      if |queue| == 0 {
        return None;
      }
      if |queue| == 1 {
        r := Some(queue[0]);
        assert queue == [queue[0]];
        queue := [];
        return;
      }
      var head := queue[0];
      var last := queue[|queue| - 1];
      LastToRoot(queue, compare);
      queue := [last] + queue[1..|queue| - 1];
      SiftDownFromRoot();
      r := Some(head);
    }

    method Clear()
      modifies this
      ensures Valid() <==> StrictWeakOrder(compare)
      ensures Len() == 0 && IsEmpty()
    {
      queue := [];
    }

    /** `_siftUp`: moves the element at `index` up until its parent does not compare above it. */
    method SiftUp(index: nat)
      requires StrictWeakOrder(compare)
      requires index < |queue| && OrderedExceptUp(queue, compare, index)
      modifies this
      ensures Valid()
      ensures Elements() == old(Elements())
    {
      var i: nat := index;
      while i > 0
        invariant i < |queue| && |queue| == |old(queue)|
        invariant OrderedExceptUp(queue, compare, i)
        invariant Elements() == old(Elements())
      {
        var parent := Parent(i);
        if Below(compare, queue[i], queue[parent]) {
          SwapUp(i);
          i := parent;
        } else {
          UpInOrder(queue, compare, i);
          break;
        }
      }
    }

    /** One sift-up step: exchange slot `i` with its parent, which compares above it. */
    method SwapUp(i: nat)
      requires StrictWeakOrder(compare)
      requires 0 < i < |queue| && OrderedExceptUp(queue, compare, i)
      requires Below(compare, queue[i], queue[Parent(i)])
      modifies this
      ensures |queue| == |old(queue)|
      ensures OrderedExceptUp(queue, compare, Parent(i))
      ensures Elements() == old(Elements())
    {
      var p := Parent(i);
      ghost var q := queue;
      SwapKeepsElements(queue, p, i);
      queue := queue[p := queue[i]][i := queue[p]];
      forall k | 0 < k < |queue| && k != p
        ensures !Below(compare, queue[k], queue[Parent(k)])
      {
        if k == i {
          assert !Below(compare, q[p], q[i]);
        } else if Parent(k) == i {
          assert !Below(compare, q[k], q[p]);
        } else if Parent(k) == p {
          assert !Below(compare, q[p], q[i]);
          NotBelowTrans(compare, q[k], q[p], q[i]);
        }
      }
      if p > 0 {
        var g := Parent(p);
        assert !Below(compare, q[p], q[g]);
        forall k | 0 < k < |queue| && Parent(k) == p
          ensures !Below(compare, queue[k], queue[g])
        {
          if k != i {
            NotBelowTrans(compare, q[k], q[p], q[g]);
          }
        }
      }
    }

    /** `_siftDown(0)` after the last element was moved to the root. */
    method SiftDownFromRoot()
      requires StrictWeakOrder(compare)
      requires |queue| > 0 && OrderedExceptDown(queue, compare, 0)
      modifies this
      ensures Valid()
      ensures Elements() == old(Elements())
      ensures |queue| == |old(queue)|
    {
      var i := 0;
      while true
        invariant i < |queue| && |queue| == |old(queue)|
        invariant OrderedExceptDown(queue, compare, i)
        invariant Elements() == old(Elements())
        decreases |queue| - i
      {
        var next := LowestOfFamily(queue, compare, i);
        LowestOfFamilyIsLowest(queue, compare, i);
        if next != i {
          SwapDown(i, next);
          i := next;
        } else {
          FamilyInOrder(queue, compare, i);
          break;
        }
      }
    }

    /** One sift-down step: exchange slot `i` with `c`, the child of `i` that compares lowest. */
    method SwapDown(i: nat, c: nat)
      requires StrictWeakOrder(compare)
      requires c < |queue| && (c == 2 * i + 1 || c == 2 * i + 2)
      requires OrderedExceptDown(queue, compare, i)
      requires Below(compare, queue[c], queue[i])
      requires forall k :: 0 < k < |queue| && Parent(k) == i ==> !Below(compare, queue[k], queue[c])
      modifies this
      ensures |queue| == |old(queue)|
      ensures OrderedExceptDown(queue, compare, c)
      ensures Elements() == old(Elements())
    {
      ghost var q := queue;
      ParentOfChild(c, i);
      SwapKeepsElements(queue, i, c);
      queue := queue[i := queue[c]][c := queue[i]];
      forall k | 0 < k < |queue| && Parent(k) != c
        ensures !Below(compare, queue[k], queue[Parent(k)])
      {
        if k == c {
          assert !Below(compare, q[i], q[c]);
        } else if Parent(k) == i {
          assert !Below(compare, q[k], q[c]);
        } else if k == i {
          assert !Below(compare, q[c], q[Parent(i)]);
        } else {
          assert queue[k] == q[k];
        }
      }
      forall k | 0 < k < |queue| && Parent(k) == c
        ensures !Below(compare, queue[k], queue[Parent(c)])
      {
        assert !Below(compare, q[k], q[c]);
      }
    }
  }
}
