/**
  The array-backed binary heap of scheduler_script.py (class MaxHeap).

  The heap never looks at what it stores: every decision is taken by the
  element comparison `a > b`, which is the const field `gt` here. The heap
  keeps "no child compares greater than its parent" and therefore pops an
  element that nothing left in it compares greater than.
 */
module Heap {

  /** The outcome of `heappop`: the removed root, or Python's IndexError on an empty heap. */
  datatype PopResult<T> = Popped(value: T) | IndexError

  /** `gt` is a strict weak order: irreflexive, transitive, and its
      complement is transitive too (so "not greater" is a total preorder). */
  ghost predicate StrictWeakOrder<T(!new)>(gt: (T, T) -> bool) {
    && (forall a :: !gt(a, a))
    && (forall a, b, c :: gt(a, b) && gt(b, c) ==> gt(a, c))
    && (forall a, b, c :: gt(a, c) ==> gt(a, b) || gt(b, c))
  }

  /** The index of the parent of the element at index i > 0. */
  function Parent(i: nat): (p: nat)
    requires i > 0
    ensures 2 * p + 1 == i || 2 * p + 2 == i
  {
    (i - 1) / 2
  }

  /** No element compares greater than its parent. */
  ghost predicate HeapOrdered<T>(s: seq<T>, gt: (T, T) -> bool) {
    forall i {:trigger s[Parent(i)]} :: 0 < i < |s| ==> !gt(s[i], s[Parent(i)])
  }

  /** The state inside `_bubble_up(k)`: ordered except possibly between k and
      its parent, and k's children are not greater than k's parent. */
  ghost predicate OrderedAbove<T>(s: seq<T>, k: nat, gt: (T, T) -> bool) {
    && (forall j {:trigger s[Parent(j)]} :: 0 < j < |s| && j != k ==> !gt(s[j], s[Parent(j)]))
    && (0 < k < |s| ==> forall j :: 0 < j < |s| && Parent(j) == k ==> !gt(s[j], s[Parent(k)]))
  }

  /** The state inside `_heapify(i)`: ordered except possibly between i and
      its children, and i's children are not greater than i's parent. */
  ghost predicate OrderedBelow<T>(s: seq<T>, i: nat, gt: (T, T) -> bool) {
    && (forall j {:trigger s[Parent(j)]} :: 0 < j < |s| && Parent(j) != i ==> !gt(s[j], s[Parent(j)]))
    && (0 < i < |s| ==> forall j :: 0 < j < |s| && Parent(j) == i ==> !gt(s[j], s[Parent(i)]))
  }

  /** The list after `s[i], s[j] = s[j], s[i]`. */
  function Swap<T>(s: seq<T>, i: nat, j: nat): (r: seq<T>)
    requires i < |s| && j < |s|
    ensures |r| == |s| && r[i] == s[j] && r[j] == s[i]
    ensures forall k :: 0 <= k < |s| && k != i && k != j ==> r[k] == s[k]
    ensures multiset(r) == multiset(s)
  {
    s[i := s[j]][j := s[i]]
  }

  /** The root of an ordered heap is not beaten by any element. */
  lemma RootNotBeaten<T(!new)>(s: seq<T>, gt: (T, T) -> bool)
    requires StrictWeakOrder(gt) && HeapOrdered(s, gt) && s != []
    ensures forall x :: x in s ==> !gt(x, s[0])
  {
    forall j | 0 <= j < |s| ensures !gt(s[j], s[0]) {
      AncestorNotBeaten(s, gt, j);
    }
  }

  lemma {:induction false} AncestorNotBeaten<T(!new)>(s: seq<T>, gt: (T, T) -> bool, j: nat)
    requires StrictWeakOrder(gt) && HeapOrdered(s, gt) && j < |s|
    ensures !gt(s[j], s[0])
    decreases j
  {
    if j > 0 {
      var p := Parent(j);
      AncestorNotBeaten(s, gt, p);
      assert !gt(s[j], s[p]);
    }
  }

  /** Moving the last element to the root leaves the rest of a heap
      ordered below the root. */
  lemma LastToRoot<T>(s: seq<T>, gt: (T, T) -> bool)
    requires HeapOrdered(s, gt) && |s| >= 2
    ensures OrderedBelow([s[|s| - 1]] + s[1..|s| - 1], 0, gt)
    ensures multiset([s[|s| - 1]] + s[1..|s| - 1]) == multiset(s) - multiset{s[0]}
  {
    var r := [s[|s| - 1]] + s[1..|s| - 1];
    forall j | 0 < j < |r| && Parent(j) != 0 ensures !gt(r[j], r[Parent(j)]) {
      assert r[j] == s[j] && r[Parent(j)] == s[Parent(j)];
    }
    assert s == [s[0]] + s[1..|s| - 1] + [s[|s| - 1]];
  }

  /** What the root beat, nothing left in the same elements beats. */
  lemma NothingBeatsRemovedRoot<T>(s: seq<T>, r: seq<T>, gt: (T, T) -> bool)
    requires s != [] && forall x :: x in s ==> !gt(x, s[0])
    requires multiset(r) == multiset(s) - multiset{s[0]}
    ensures forall x :: x in r ==> !gt(x, s[0])
  {
    forall x | x in r ensures !gt(x, s[0]) {
      assert x in multiset(r);
      assert x in multiset(s);
    }
  }

  /** One swap of `_bubble_up`: the element at k beats its parent, swapping
      the two moves the only possible disorder one level up. */
  lemma SiftUpStep<T(!new)>(s: seq<T>, k: nat, gt: (T, T) -> bool)
    requires StrictWeakOrder(gt) && 0 < k < |s| && OrderedAbove(s, k, gt)
    requires gt(s[k], s[Parent(k)])
    ensures OrderedAbove(Swap(s, k, Parent(k)), Parent(k), gt)
  {
    var p := Parent(k);
    var r := Swap(s, k, p);
    forall j | 0 < j < |r| && j != p ensures !gt(r[j], r[Parent(j)]) {
      var q := Parent(j);
      if j == k {
      } else if q == k {
        assert !gt(s[j], s[p]);
      } else if q == p {
        assert !gt(s[j], s[p]);
      } else {
        assert j != p && q != p && q != k;
      }
    }
    if 0 < p {
      var g := Parent(p);
      forall j | 0 < j < |r| && Parent(j) == p ensures !gt(r[j], r[g]) {
        assert !gt(s[p], s[g]);
        if j != k {
          assert !gt(s[j], s[p]);
        }
      }
    }
  }

  /** One swap of `_heapify`: m is the child of i that `largest` picked,
      it beats the element at i and is not beaten by either child of i. */
  lemma SiftDownStep<T(!new)>(s: seq<T>, i: nat, m: nat, gt: (T, T) -> bool)
    requires StrictWeakOrder(gt) && m < |s| && OrderedBelow(s, i, gt)
    requires m == 2 * i + 1 || m == 2 * i + 2
    requires gt(s[m], s[i])
    requires 2 * i + 1 < |s| ==> !gt(s[2 * i + 1], s[m])
    requires 2 * i + 2 < |s| ==> !gt(s[2 * i + 2], s[m])
    ensures OrderedBelow(Swap(s, i, m), m, gt)
  {
    var r := Swap(s, i, m);
    assert Parent(m) == i;
    forall j | 0 < j < |r| && Parent(j) != m ensures !gt(r[j], r[Parent(j)]) {
      var q := Parent(j);
      if j == m {
      } else if q == i {
        assert j == 2 * i + 1 || j == 2 * i + 2;
        assert !gt(s[j], s[m]);
      } else if j == i {
        assert !gt(s[m], s[q]);
      } else {
        assert q != i && q != m && j != i;
      }
    }
    forall j | 0 < j < |r| && Parent(j) == m ensures !gt(r[j], r[i]) {
      assert !gt(s[j], s[m]);
    }
  }

  /** `_heapify` stops: neither child of i beats it, so the heap is ordered. */
  lemma SiftDownDone<T>(s: seq<T>, i: nat, gt: (T, T) -> bool)
    requires i < |s| && OrderedBelow(s, i, gt)
    requires 2 * i + 1 < |s| ==> !gt(s[2 * i + 1], s[i])
    requires 2 * i + 2 < |s| ==> !gt(s[2 * i + 2], s[i])
    ensures HeapOrdered(s, gt)
  {
    forall j | 0 < j < |s| ensures !gt(s[j], s[Parent(j)]) {
      if Parent(j) == i {
        assert j == 2 * i + 1 || j == 2 * i + 2;
      }
    }
  }

  class MaxHeap<T(!new)> {
    /** The element comparison `a > b` that the Python heap uses. */
    const gt: (T, T) -> bool
    /** The Python list `self.heap`. */
    var heap: seq<T>

    ghost predicate Valid()
      reads this
    {
      StrictWeakOrder(gt) && HeapOrdered(heap, gt)
    }

    constructor (gt: (T, T) -> bool)
      requires StrictWeakOrder(gt)
      ensures Valid() && this.gt == gt && heap == []
    {
      this.gt := gt;
      heap := [];
    }

    /** `__len__`: the number of elements held, counting repeats. */
    function Len(): (n: nat)
      reads this
      ensures n == |multiset(heap)|
    {
      |heap|
    }

    /** `heappush`: append, then bubble the new element up. */
    method HeapPush(task: T)
      requires Valid()
      modifies this
      ensures Valid()
      ensures multiset(heap) == old(multiset(heap)) + multiset{task}
      ensures |heap| == old(|heap|) + 1
    {
      heap := heap + [task];
      BubbleUp(|heap| - 1);
    }

    /** `heappop`: IndexError when empty; otherwise remove and return the
        root, replacing it by the last element and sifting that down. */
    method HeapPop() returns (r: PopResult<T>)
      requires Valid()
      modifies this
      ensures Valid()
      ensures old(heap) == [] ==> r == IndexError && heap == []
      ensures old(heap) != [] ==> && r == Popped(old(heap)[0])
                                  && multiset(heap) == old(multiset(heap)) - multiset{r.value}
                                  && |heap| == old(|heap|) - 1
                                  && forall x :: x in heap ==> !gt(x, r.value)
    {
      if heap == [] {
        return IndexError;
      }
      RootNotBeaten(heap, gt);
      ghost var before := heap;
      if |heap| == 1 {
        r := Popped(heap[0]);
        heap := [];
        return;
      }
      var maxTask := heap[0];
      var last := heap[|heap| - 1];
      heap := heap[..|heap| - 1];
      heap := heap[0 := last];
      LastToRoot(before, gt);
      assert heap == [last] + before[1..|before| - 1];
      Heapify(0);
      r := Popped(maxTask);
      NothingBeatsRemovedRoot(before, heap, gt);
    }

    /** `_bubble_up(index)`. */
    method BubbleUp(index: nat)
      requires StrictWeakOrder(gt) && index < |heap| && OrderedAbove(heap, index, gt)
      modifies this
      ensures Valid()
      ensures multiset(heap) == old(multiset(heap)) && |heap| == old(|heap|)
    {
      var k: nat := index;
      while k > 0
        invariant k < |heap| && OrderedAbove(heap, k, gt)
        invariant multiset(heap) == old(multiset(heap)) && |heap| == old(|heap|)
      {
        var parent := Parent(k);
        if gt(heap[k], heap[parent]) {
          SiftUpStep(heap, k, gt);
          heap := Swap(heap, k, parent);
          k := parent;
        } else {
          break;
        }
      }
    }

    /** `_heapify(i)`, recursive as in the source. */
    method Heapify(i: nat)
      requires StrictWeakOrder(gt) && i < |heap| && OrderedBelow(heap, i, gt)
      modifies this
      ensures Valid()
      ensures multiset(heap) == old(multiset(heap)) && |heap| == old(|heap|)
      decreases |heap| - i
    {
      var largest := i;
      var left := 2 * i + 1;
      var right := 2 * i + 2;
      if left < |heap| && gt(heap[left], heap[largest]) {
        largest := left;
      }
      if right < |heap| && gt(heap[right], heap[largest]) {
        largest := right;
      }
      if largest != i {
        SiftDownStep(heap, i, largest, gt);
        heap := Swap(heap, i, largest);
        Heapify(largest);
      } else {
        SiftDownDone(heap, i, gt);
      }
    }

    /** `reset_heap(tasks)`: empty the heap and push each task in order. */
    method ResetHeap(tasks: seq<T>)
      requires Valid()
      modifies this
      ensures Valid()
      ensures multiset(heap) == multiset(tasks) && |heap| == |tasks|
    {
      heap := [];
      for i := 0 to |tasks|
        invariant Valid()
        invariant multiset(heap) == multiset(tasks[..i]) && |heap| == i
      {
        assert tasks[..i + 1] == tasks[..i] + [tasks[i]];
        HeapPush(tasks[i]);
      }
      assert tasks[..|tasks|] == tasks;
    }
  }
}
