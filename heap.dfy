/**
 * The array-backed binary min-heap of `{element, priority}` entries. The entry
 * at index i has its children at 2i+1 and 2i+2 and its parent at
 * floor((i-1)/2); the root has the parent index -1, i.e. no parent.
 */
module Heap {
  import opened Wrappers

  datatype Entry = Entry(element: string, priority: int)

  /** Heap order: no entry has a smaller priority than its parent. */
  ghost predicate HeapOrdered(h: seq<Entry>)
  {
    forall j :: 0 < j < |h| ==> h[MinHeap.ParentIndex(j)].priority <= h[j].priority
  }

  /**
   * Heap order holds everywhere except on the edge from `i` to its parent;
   * the parent of `i` is nevertheless no greater than the children of `i`.
   * This is what `heapifyUp` keeps while it moves `i` towards the root.
   */
  ghost predicate OrderedExceptAbove(h: seq<Entry>, i: int)
  {
    && 0 <= i < |h|
    && (forall j :: 0 < j < |h| && j != i ==> h[MinHeap.ParentIndex(j)].priority <= h[j].priority)
    && (forall j :: 0 < j < |h| && i > 0 && MinHeap.ParentIndex(j) == i ==>
          h[MinHeap.ParentIndex(i)].priority <= h[j].priority)
  }

  /**
   * Heap order holds everywhere except on the edges from `i` to its children;
   * the parent of `i` is nevertheless no greater than those children.
   * This is what `heapifyDown` keeps while it moves `i` towards the leaves.
   */
  ghost predicate OrderedExceptBelow(h: seq<Entry>, i: int)
  {
    && 0 <= i
    && (forall j :: 0 < j < |h| && MinHeap.ParentIndex(j) != i ==> h[MinHeap.ParentIndex(j)].priority <= h[j].priority)
    && (forall j :: 0 < j < |h| && 0 < i && MinHeap.ParentIndex(j) == i ==>
          h[MinHeap.ParentIndex(i)].priority <= h[j].priority)
  }

  /** In a heap-ordered list every entry's priority is at least the root's. */
  lemma {:induction false} RootIsMin(h: seq<Entry>, j: nat)
    requires HeapOrdered(h) && j < |h|
    ensures h[0].priority <= h[j].priority
    decreases j
  {
    if j > 0 {
      RootIsMin(h, MinHeap.ParentIndex(j));
    }
  }

  /** The root of a heap-ordered list has the least priority of all its entries. */
  lemma RootIsMinimum(h: seq<Entry>)
    requires |h| > 0
    ensures HeapOrdered(h) ==> forall e :: e in h ==> h[0].priority <= e.priority
  {
    forall e | HeapOrdered(h) && e in h ensures h[0].priority <= e.priority {
      var j :| 0 <= j < |h| && h[j] == e;
      RootIsMin(h, j);
    }
  }

  /** One step of `heapifyUp`: swapping `i` with its greater parent moves the exception up to the parent. */
  lemma SiftUpStep(h: seq<Entry>, i: int)
    requires OrderedExceptAbove(h, i) && i > 0
    requires h[MinHeap.ParentIndex(i)].priority > h[i].priority
    ensures var p := MinHeap.ParentIndex(i);
      OrderedExceptAbove(h[p := h[i]][i := h[p]], p)
  {
    var p := MinHeap.ParentIndex(i);
    var h' := h[p := h[i]][i := h[p]];
    forall j | 0 < j < |h'| && j != p
      ensures h'[MinHeap.ParentIndex(j)].priority <= h'[j].priority
    {
      var q := MinHeap.ParentIndex(j);
      if j == i {
      } else if q == i {
      } else if q == p {
      } else {
      }
    }
  }

  /** `heapifyUp` stops in heap order: the entry at `i` is the root or below its parent. */
  lemma SiftUpDone(h: seq<Entry>, i: int)
    requires OrderedExceptAbove(h, i)
    requires i > 0 ==> h[MinHeap.ParentIndex(i)].priority <= h[i].priority
    ensures HeapOrdered(h)
  {
  }

  /**
   * `c` is the child of `i` that `heapifyDown` picks: the right child when it
   * exists and is strictly smaller than the left one, else the left child.
   */
  predicate SmallerChild(h: seq<Entry>, i: int, c: int)
  {
    && 0 <= i && MinHeap.LeftChildIndex(i) < |h|
    && if MinHeap.RightChildIndex(i) < |h| && h[MinHeap.RightChildIndex(i)].priority < h[MinHeap.LeftChildIndex(i)].priority
       then c == MinHeap.RightChildIndex(i)
       else c == MinHeap.LeftChildIndex(i)
  }

  /** The picked child is no greater than any child of `i`. */
  lemma SmallerChildIsLeast(h: seq<Entry>, i: int, c: int)
    requires SmallerChild(h, i, c)
    ensures 0 <= i < c < |h| && MinHeap.ParentIndex(c) == i
    ensures forall j :: 0 < j < |h| && MinHeap.ParentIndex(j) == i ==> h[c].priority <= h[j].priority
  {
  }

  /** One step of `heapifyDown`: swapping `i` with its smaller child `c` moves the exception down to `c`. */
  lemma SiftDownStep(h: seq<Entry>, i: int, c: int)
    requires OrderedExceptBelow(h, i) && SmallerChild(h, i, c)
    requires h[c].priority <= h[i].priority
    ensures 0 <= i < c < |h|
    ensures OrderedExceptBelow(h[i := h[c]][c := h[i]], c)
  {
    SmallerChildIsLeast(h, i, c);
    var h' := h[i := h[c]][c := h[i]];
    forall j | 0 < j < |h'| && MinHeap.ParentIndex(j) != c
      ensures h'[MinHeap.ParentIndex(j)].priority <= h'[j].priority
    {
      var p := MinHeap.ParentIndex(j);
      if j == c {
      } else if p == i {
      } else if j == i {
      } else {
      }
    }
  }

  /** `heapifyDown` stops in heap order: the entry at `i` is below its smaller child, or it has none. */
  lemma SiftDownDone(h: seq<Entry>, i: int, c: int)
    requires OrderedExceptBelow(h, i)
    requires MinHeap.LeftChildIndex(i) < |h| ==> SmallerChild(h, i, c) && h[i].priority < h[c].priority
    ensures HeapOrdered(h)
  {
    if MinHeap.LeftChildIndex(i) < |h| {
      SmallerChildIsLeast(h, i, c);
    }
  }

  /** Dropping the last entry keeps heap order, and so does any root when only the root is new. */
  lemma PopLastThenReplaceRoot(h: seq<Entry>, x: Entry)
    requires HeapOrdered(h) && |h| >= 2
    ensures OrderedExceptBelow(h[..|h| - 1][0 := x], 0)
  {
  }

  class MinHeap {
    var heap: seq<Entry>

    ghost predicate Valid()
      reads this
    {
      HeapOrdered(heap)
    }

    constructor ()
      ensures Valid() && heap == []
    {
      heap := [];
    }

    static function LeftChildIndex(parentIndex: int): (i: int)
      ensures parentIndex >= 0 ==> parentIndex < i && ParentIndex(i) == parentIndex
    {
      2 * parentIndex + 1
    }

    static function RightChildIndex(parentIndex: int): (i: int)
      ensures parentIndex >= 0 ==> LeftChildIndex(parentIndex) < i && ParentIndex(i) == parentIndex
    {
      2 * parentIndex + 2
    }

    /** `Math.floor((childIndex - 1) / 2)`; Dafny's division by a positive divisor rounds down as well. */
    static function ParentIndex(childIndex: int): (p: int)
      ensures childIndex == 0 ==> p == -1
      ensures childIndex > 0 ==> 0 <= p < childIndex
      ensures childIndex > 0 ==> childIndex == 2 * p + 1 || childIndex == 2 * p + 2
    {
      (childIndex - 1) / 2
    }

    /** A non-negative index has a left child exactly when some entry has it as parent. */
    function HasLeftChild(index: int): (b: bool)
      reads this
      ensures index >= 0 ==> (b <==> exists j :: 0 < j < |heap| && ParentIndex(j) == index)
    {
      LeftChildIndex(index) < |heap|
    }

    /**
     * A non-negative index has a right child exactly when some entry other
     * than its left child has it as parent. A right child comes with a left
     * child; a lone left child is the last entry.
     */
    function HasRightChild(index: int): (b: bool)
      reads this
      ensures index >= 0 ==> (b <==> exists j :: 0 < j < |heap| && ParentIndex(j) == index && j != LeftChildIndex(index))
      ensures b ==> HasLeftChild(index)
      ensures index >= 0 && HasLeftChild(index) && !b ==> LeftChildIndex(index) == |heap| - 1
    {
      var b := RightChildIndex(index) < |heap|;
      assert b ==> ParentIndex(RightChildIndex(index)) == index;
      b
    }

    /** True exactly for the indices that are not the root, among non-negative ones. */
    static function HasParent(index: int): (b: bool)
      ensures index >= 0 ==> (b <==> index > 0)
    {
      ParentIndex(index) >= 0
    }

    /** An entry of the heap; in heap order, no smaller than the entry at `index`. */
    function LeftChild(index: int): (r: Entry)
      reads this
      requires 0 <= LeftChildIndex(index) < |heap|
      ensures r in heap
      ensures Valid() && index >= 0 ==> heap[index].priority <= r.priority
    {
      heap[LeftChildIndex(index)]
    }

    /** An entry of the heap; in heap order, no smaller than the entry at `index`. */
    function RightChild(index: int): (r: Entry)
      reads this
      requires 0 <= RightChildIndex(index) < |heap|
      ensures r in heap
      ensures Valid() && index >= 0 ==> heap[index].priority <= r.priority
    {
      heap[RightChildIndex(index)]
    }

    /** An entry of the heap; in heap order, no greater than the entry at `index`. */
    function Parent(index: int): (r: Entry)
      reads this
      requires 0 <= ParentIndex(index) < |heap|
      ensures r in heap
      ensures Valid() && 0 < index < |heap| ==> r.priority <= heap[index].priority
    {
      heap[ParentIndex(index)]
    }

    function IsEmpty(): (b: bool)
      reads this
      ensures b <==> heap == []
    {
      |heap| == 0
    }

    /** Exchanges two entries; nothing else moves. */
    method Swap(index1: int, index2: int)
      requires 0 <= index1 < |heap| && 0 <= index2 < |heap|
      modifies this
      ensures heap == old(heap)[index1 := old(heap)[index2]][index2 := old(heap)[index1]]
      ensures multiset(heap) == multiset(old(heap))
    {
      var temp := heap[index1];
      heap := heap[index1 := heap[index2]];
      heap := heap[index2 := temp];
    }

    /** `null` on an empty heap, otherwise the root, which has the least priority. */
    function Peek(): (r: Option<Entry>)
      reads this
      ensures r == None <==> heap == []
      ensures r != None ==> r.value == heap[0]
      ensures r != None && Valid() ==> forall e :: e in heap ==> r.value.priority <= e.priority
    {
      if |heap| == 0 then None
      else
        RootIsMinimum(heap);
        Some(heap[0])
    }

    /** Adds exactly one entry and restores heap order. */
    method Enqueue(element: string, priority: int)
      requires Valid()
      modifies this
      ensures Valid()
      ensures multiset(heap) == multiset(old(heap)) + multiset{Entry(element, priority)}
      ensures |heap| == |old(heap)| + 1
    {
      heap := heap + [Entry(element, priority)];
      HeapifyUp();
    }

    /**
     * `dequeue` as the source writes it: `heap[0] = heap.pop()`. On a heap of two
     * or more entries this removes the root; on a one-entry heap the popped
     * entry is written straight back, so the heap never becomes empty.
     */
    method Dequeue() returns (r: Option<Entry>)
      requires Valid()
      modifies this
      ensures Valid()
      ensures old(heap) == [] ==> r == None && heap == old(heap)
      ensures old(heap) != [] ==> r == Some(old(heap)[0])
      ensures old(heap) != [] ==> forall e :: e in old(heap) ==> r.value.priority <= e.priority
      ensures |old(heap)| >= 2 ==> |heap| == |old(heap)| - 1
      ensures |old(heap)| >= 2 ==> multiset(heap) == multiset(old(heap)) - multiset{old(heap)[0]}
      ensures |old(heap)| == 1 ==> heap == old(heap)
    {
      if |heap| == 0 {
        return None;
      }
      RootIsMinimum(heap);
      var element := heap[0];
      var last := heap[|heap| - 1];
      ghost var before := heap;
      heap := heap[..|heap| - 1];
      assert before == heap + [last];
      if |heap| == 0 {
        heap := [last];
      } else {
        PopLastThenReplaceRoot(before, last);
        heap := heap[0 := last];
        assert multiset(heap) == multiset(before) - multiset{element};
      }
      HeapifyDown();
      return Some(element);
    }

    /**
     * The intended `dequeue`: the root is removed and the last entry takes its
     * place only when some entry remains, so every call on a non-empty heap
     * removes exactly one entry.
     */
    method DequeueFixed() returns (r: Option<Entry>)
      requires Valid()
      modifies this
      ensures Valid()
      ensures old(heap) == [] ==> r == None && heap == old(heap)
      ensures old(heap) != [] ==> r == Some(old(heap)[0])
      ensures old(heap) != [] ==> forall e :: e in old(heap) ==> r.value.priority <= e.priority
      ensures old(heap) != [] ==> |heap| == |old(heap)| - 1
      ensures old(heap) != [] ==> multiset(heap) == multiset(old(heap)) - multiset{old(heap)[0]}
    {
      if |heap| == 0 {
        return None;
      }
      RootIsMinimum(heap);
      var element := heap[0];
      var last := heap[|heap| - 1];
      ghost var before := heap;
      heap := heap[..|heap| - 1];
      assert before == heap + [last];
      if |heap| > 0 {
        PopLastThenReplaceRoot(before, last);
        heap := heap[0 := last];
        assert multiset(heap) == multiset(before) - multiset{element};
        HeapifyDown();
      }
      return Some(element);
    }

    /** Moves the last entry up while its parent has a greater priority. */
    method HeapifyUp()
      requires heap == [] || OrderedExceptAbove(heap, |heap| - 1)
      modifies this
      ensures HeapOrdered(heap)
      ensures multiset(heap) == multiset(old(heap))
      ensures |heap| == |old(heap)|
    {
      var index := |heap| - 1;
      while HasParent(index) && Parent(index).priority > heap[index].priority
        invariant -1 <= index < |heap|
        invariant heap == [] || OrderedExceptAbove(heap, index)
        invariant multiset(heap) == multiset(old(heap))
        invariant |heap| == |old(heap)|
        decreases index + 1
      {
        var parentIndex := ParentIndex(index);
        SiftUpStep(heap, index);
        Swap(parentIndex, index);
        index := parentIndex;
      }
      if heap != [] {
        SiftUpDone(heap, index);
      }
    }

    /** Moves the root entry down, swapping it with its smaller child, until it is smaller than both. */
    method HeapifyDown()
      requires OrderedExceptBelow(heap, 0)
      modifies this
      ensures HeapOrdered(heap)
      ensures multiset(heap) == multiset(old(heap))
      ensures |heap| == |old(heap)|
    {
      var index := 0;
      while HasLeftChild(index)
        invariant 0 <= index && (index < |heap| || heap == [])
        invariant OrderedExceptBelow(heap, index)
        invariant multiset(heap) == multiset(old(heap))
        invariant |heap| == |old(heap)|
        decreases |heap| - index
      {
        var smallerChildIndex := LeftChildIndex(index);
        if HasRightChild(index) && RightChild(index).priority < LeftChild(index).priority {
          smallerChildIndex := RightChildIndex(index);
        }
        if heap[index].priority < heap[smallerChildIndex].priority {
          SiftDownDone(heap, index, smallerChildIndex);
          break;
        }
        SiftDownStep(heap, index, smallerChildIndex);
        Swap(index, smallerChildIndex);
        index := smallerChildIndex;
      }
      if !HasLeftChild(index) {
        SiftDownDone(heap, index, 0);
      }
    }
  }

  /** The source's `dequeue` on a heap holding one entry leaves that entry in place. */
  method DequeueNeverEmpties(element: string, priority: int) returns (size: nat)
    ensures size == 1
  {
    var queue := new MinHeap();
    queue.Enqueue(element, priority);
    var _ := queue.Dequeue();
    size := |queue.heap|;
  }

  /** The corrected `dequeue` empties a heap holding one entry. */
  method DequeueFixedEmpties(element: string, priority: int) returns (size: nat)
    ensures size == 0
  {
    var queue := new MinHeap();
    queue.Enqueue(element, priority);
    var _ := queue.DequeueFixed();
    size := |queue.heap|;
  }
}
