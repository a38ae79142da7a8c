/** The min-heap of the long-piece tokenizer (plugins/tokens.ts): a growable
    array in heap order, with sift-up and sift-down that move a hole instead of
    swapping. The proofs look at the array with the travelling key put into the
    hole, where one iteration is one exchange of a node with its parent. */
module BinaryHeap {
  function Parent(i: nat): nat
    requires 0 < i
  {
    (i - 1) / 2
  }

  predicate InOrder(heap: seq<nat>, i: nat) {
    0 < i < |heap| ==> heap[Parent(i)] <= heap[i]
  }

  ghost predicate IsHeap(heap: seq<nat>) {
    forall i: nat :: InOrder(heap, i)
  }

  // The children of `node` are not below the parent of `node`.
  predicate SkipInOrder(heap: seq<nat>, node: nat, child: nat) {
    0 < node < child < |heap| && Parent(child) == node ==> heap[Parent(node)] <= heap[child]
  }

  // Only the edge from `node` up to its parent may be out of order.
  ghost predicate RisingAt(heap: seq<nat>, node: nat) {
    && (forall i: nat :: i != node ==> InOrder(heap, i))
    && (forall child: nat :: SkipInOrder(heap, node, child))
  }

  // Only the edges from `node` down to its children may be out of order.
  ghost predicate SinkingAt(heap: seq<nat>, node: nat) {
    && (forall i: nat :: 0 < i && Parent(i) != node ==> InOrder(heap, i))
    && (forall child: nat :: SkipInOrder(heap, node, child))
  }

  function Exchange(heap: seq<nat>, i: nat, j: nat): seq<nat>
    requires i < |heap| && j < |heap|
  {
    heap[i := heap[j]][j := heap[i]]
  }

  lemma ExchangeKeepsKeys(heap: seq<nat>, i: nat, j: nat)
    requires i < |heap| && j < |heap| && i != j
    ensures multiset(Exchange(heap, i, j)) == multiset(heap)
  {
  }

  lemma RiseStep(heap: seq<nat>, node: nat)
    requires 0 < node < |heap| && RisingAt(heap, node) && heap[node] < heap[Parent(node)]
    ensures RisingAt(Exchange(heap, node, Parent(node)), Parent(node))
  {
    var up := Parent(node);
    var moved := Exchange(heap, node, up);
    forall i: nat | i != up ensures InOrder(moved, i) {
      assert InOrder(heap, i) || i == node;
      assert SkipInOrder(heap, node, i);
    }
    forall child: nat ensures SkipInOrder(moved, up, child) {
      assert InOrder(heap, up);
      assert child != node ==> InOrder(heap, child);
    }
  }

  lemma SinkStep(heap: seq<nat>, node: nat, child: nat)
    requires node < child < |heap| && Parent(child) == node && SinkingAt(heap, node)
    requires heap[child] <= heap[2 * node + 1] && (2 * node + 2 < |heap| ==> heap[child] <= heap[2 * node + 2])
    requires heap[child] < heap[node]
    ensures SinkingAt(Exchange(heap, node, child), child)
  {
    var moved := Exchange(heap, node, child);
    assert SkipInOrder(heap, node, child);
    forall i: nat | 0 < i && Parent(i) != child ensures InOrder(moved, i) {
      assert Parent(i) != node ==> InOrder(heap, i);
      assert Parent(i) == node ==> i == 2 * node + 1 || i == 2 * node + 2;
    }
    forall grand: nat ensures SkipInOrder(moved, child, grand) {
      assert 0 < grand && Parent(grand) == child ==> InOrder(heap, grand);
    }
  }

  lemma RiseDone(heap: seq<nat>, node: nat)
    requires RisingAt(heap, node) && InOrder(heap, node)
    ensures IsHeap(heap)
  {
    forall i: nat ensures InOrder(heap, i) {
      assert i != node ==> InOrder(heap, i);
    }
  }

  lemma SinkDone(heap: seq<nat>, node: nat)
    requires node < |heap| && SinkingAt(heap, node)
    requires 2 * node + 1 < |heap| ==> heap[node] <= heap[2 * node + 1]
    requires 2 * node + 2 < |heap| ==> heap[node] <= heap[2 * node + 2]
    ensures IsHeap(heap)
  {
    forall i: nat ensures InOrder(heap, i) {
      assert 0 < i && Parent(i) != node ==> InOrder(heap, i);
      assert 0 < i && Parent(i) == node ==> i == 2 * node + 1 || i == 2 * node + 2;
    }
  }

  lemma {:induction false} RootIsLeast(heap: seq<nat>, i: nat)
    requires IsHeap(heap) && i < |heap|
    ensures heap[0] <= heap[i]
  {
    if i > 0 {
      assert InOrder(heap, i);
      RootIsLeast(heap, Parent(i));
    }
  }

  lemma RootBoundsAll(heap: seq<nat>)
    requires IsHeap(heap) && heap != []
    ensures forall key :: key in heap ==> heap[0] <= key
  {
    forall key | key in heap ensures heap[0] <= key {
      var i :| 0 <= i < |heap| && heap[i] == key;
      RootIsLeast(heap, i);
    }
  }

  // Appending a key can only break the edge above it.
  lemma AppendRises(heap: seq<nat>, key: nat)
    requires IsHeap(heap)
    ensures RisingAt(heap + [key], |heap|)
  {
    forall i: nat | i != |heap| ensures InOrder(heap + [key], i) {
      assert InOrder(heap, i);
    }
  }

  // Replacing the root of a heap by its last key can only break the edges below it.
  lemma RootSinks(heap: seq<nat>)
    requires IsHeap(heap) && |heap| >= 2
    ensures SinkingAt(heap[..|heap| - 1][0 := heap[|heap| - 1]], 0)
  {
    var moved := heap[..|heap| - 1][0 := heap[|heap| - 1]];
    forall i: nat | 0 < i && Parent(i) != 0 ensures InOrder(moved, i) {
      assert InOrder(heap, i);
    }
  }

  method Push(heap: seq<nat>, key: nat) returns (grown: seq<nat>)
    requires IsHeap(heap)
    ensures IsHeap(grown) && multiset(grown) == multiset(heap) + multiset{key}
  {
    var index := |heap|;
    grown := heap + [key];
    ghost var view := grown;
    AppendRises(heap, key);
    while index > 0
      invariant 0 <= index < |grown| == |view|
      invariant view == grown[index := key]
      invariant RisingAt(view, index)
      invariant multiset(view) == multiset(heap) + multiset{key}
    {
      var parent := (index - 1) / 2;
      if grown[parent] <= key {
        break;
      }
      RiseStep(view, index);
      ExchangeKeepsKeys(view, index, parent);
      view := Exchange(view, index, parent);
      grown := grown[index := grown[parent]];
      index := parent;
    }
    grown := grown[index := key];
    RiseDone(grown, index);
  }

  lemma LastToRoot(heap: seq<nat>)
    requires |heap| >= 2
    ensures var moved := heap[..|heap| - 1][0 := heap[|heap| - 1]];
      multiset(heap) == multiset(moved) + multiset{heap[0]}
  {
    var n := |heap| - 1;
    assert heap == [heap[0]] + heap[1..n] + [heap[n]];
    assert heap[..n][0 := heap[n]] == [heap[n]] + heap[1..n];
  }

  method Pop(heap: seq<nat>) returns (least: nat, rest: seq<nat>)
    requires IsHeap(heap) && heap != []
    ensures IsHeap(rest) && multiset(heap) == multiset(rest) + multiset{least}
    ensures forall key :: key in heap ==> least <= key
  {
    RootBoundsAll(heap);
    least := heap[0];
    var last := heap[|heap| - 1];
    rest := heap[..|heap| - 1];
    assert heap == rest + [last];
    if rest == [] {
      return;
    }
    RootSinks(heap);
    LastToRoot(heap);
    rest := Sink(rest, last);
  }

  function LeastChild(heap: seq<nat>, node: nat): (child: nat)
    requires 2 * node + 1 < |heap|
    ensures node < child < |heap| && Parent(child) == node
    ensures heap[child] <= heap[2 * node + 1] && (2 * node + 2 < |heap| ==> heap[child] <= heap[2 * node + 2])
  {
    var left := node * 2 + 1;
    if left + 1 < |heap| && heap[left + 1] < heap[left] then left + 1 else left
  }

  /** The loop of `pop`: the root is a hole and `last` travels down to its place. */
  method Sink(heap: seq<nat>, last: nat) returns (settled: seq<nat>)
    requires heap != [] && SinkingAt(heap[0 := last], 0)
    ensures IsHeap(settled) && multiset(settled) == multiset(heap[0 := last])
  {
    settled := heap;
    var index := 0;
    ghost var view := settled[0 := last];
    while index * 2 + 1 < |settled| && settled[LeastChild(settled, index)] < last
      invariant 0 <= index < |settled| == |view|
      invariant view == settled[index := last]
      invariant SinkingAt(view, index)
      invariant multiset(view) == multiset(heap[0 := last])
      decreases |settled| - index
    {
      var child := LeastChild(settled, index);
      SinkStep(view, index, child);
      ExchangeKeepsKeys(view, index, child);
      view := Exchange(view, index, child);
      settled := settled[index := settled[child]];
      index := child;
    }
    settled := settled[index := last];
    SinkDone(settled, index);
  }
}
