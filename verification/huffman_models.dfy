/**
  The Huffman tree node and the min-priority collection the tree is built
  with (`Node`, `MinHeap`).

  The heap is modelled abstractly as the collection of nodes it holds, in
  insertion order; `Pop` takes a node of minimal frequency, the first such
  one in insertion order. The tie order of Python's `heapq` is not modelled:
  the tree construction only has to be a deterministic function of the
  table, which this choice is.
 */
module HuffmanModels {
  import opened Outcomes

  /** A byte value 0..255, or the end-of-data marker 256. */
  type Symbol = s: int | 0 <= s <= 256

  const EndMarker: Symbol := 256

  /**
    A tree node: a leaf carries exactly one symbol; an internal node has
    exactly two children and no symbol. `freq` is the node's frequency.
   */
  datatype Node = Leaf(freq: nat, symbol: Symbol) | Internal(freq: nat, left: Node, right: Node)

  /** `Node.__lt__`: nodes are ordered by frequency alone. */
  predicate Less(a: Node, b: Node) {
    a.freq < b.freq
  }

  /** The nodes a `MinHeap` holds, in the order they were pushed. */
  datatype Heap = Heap(items: seq<Node>)

  const EmptyHeap: Heap := Heap([])

  function Size(h: Heap): nat {
    |h.items|
  }

  predicate IsEmpty(h: Heap) {
    |h.items| == 0
  }

  /** `push`: the heap gains exactly the one node. */
  function Push(h: Heap, n: Node): (r: Heap)
    ensures Size(r) == Size(h) + 1 && !IsEmpty(r)
    ensures multiset(r.items) == multiset(h.items) + multiset{n}
  {
    Heap(h.items + [n])
  }

  /** The position of the first node of minimal frequency. */
  function MinIndex(items: seq<Node>): (i: nat)
    requires |items| > 0
    ensures i < |items|
    ensures forall j :: 0 <= j < |items| ==> !Less(items[j], items[i])
    ensures forall j :: 0 <= j < i ==> Less(items[i], items[j])
  {
    if |items| == 1 then 0
    else
      var k := MinIndex(items[..|items| - 1]);
      if Less(items[|items| - 1], items[k]) then |items| - 1 else k
  }

  /**
    `pop`: None on an empty heap (no exception); otherwise a node of minimal
    frequency, and the heap without it.
   */
  function Pop(h: Heap): (r: (Option<Node>, Heap))
    ensures IsEmpty(h) ==> r == (None, h)
    ensures !IsEmpty(h) ==> r.0.Some? && Size(r.1) == Size(h) - 1
    ensures !IsEmpty(h) ==> multiset(r.1.items) + multiset{r.0.value} == multiset(h.items)
    ensures !IsEmpty(h) ==> forall n :: n in h.items ==> !Less(n, r.0.value)
  {
    if IsEmpty(h) then (None, h)
    else
      var i := MinIndex(h.items);
      assert h.items == h.items[..i] + [h.items[i]] + h.items[i + 1..];
      (Some(h.items[i]), Heap(h.items[..i] + h.items[i + 1..]))
  }

  /** `is_empty` holds exactly when `size` is 0, and `push`/`pop` move the size by one. */
  lemma SizeAccounting(h: Heap, n: Node)
    ensures IsEmpty(h) <==> Size(h) == 0
    ensures Size(Pop(Push(h, n)).1) == Size(h)
    ensures Pop(h).0.None? <==> IsEmpty(h)
  {
  }
}
