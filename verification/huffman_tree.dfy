/**
  The Huffman frequency table and tree construction (`build_frequency_table`,
  `build_huffman_tree`, `serialize_tree`).

  A frequency table is a Python dict; it is modelled as the sequence of its
  items in insertion order, because that order decides how the heap breaks
  ties and therefore the shape of the tree.
 */
module HuffmanTree {
  import opened Outcomes
  import opened Bytes
  import opened HuffmanModels

  /** One `symbol: count` item of a frequency table. */
  datatype Entry = Entry(symbol: Symbol, count: nat)

  /** A dict from symbol to count, as its items in insertion order. */
  type FreqTable = seq<Entry>

  /** `t.get(s)`: the count stored for `s`, if any. */
  function Lookup(t: FreqTable, s: Symbol): Option<nat> {
    if |t| == 0 then None
    else if t[0].symbol == s then Some(t[0].count)
    else Lookup(t[1..], s)
  }

  /** No symbol occurs twice, as in every dict. */
  predicate DistinctKeys(t: FreqTable) {
    |t| == 0 || (Lookup(t[1..], t[0].symbol).None? && DistinctKeys(t[1..]))
  }

  /** The keys of a table, as a multiset. */
  function Keys(t: FreqTable): multiset<Symbol> {
    if |t| == 0 then multiset{} else multiset{t[0].symbol} + Keys(t[1..])
  }

  /** The sum of the counts. */
  function Total(t: FreqTable): nat {
    if |t| == 0 then 0 else t[0].count + Total(t[1..])
  }

  /** `t[s] = c`: an existing key is updated in place, a new key goes last. */
  function Put(t: FreqTable, s: Symbol, c: nat): (r: FreqTable)
    ensures Lookup(r, s) == Some(c)
    ensures forall x :: x != s ==> Lookup(r, x) == Lookup(t, x)
    ensures DistinctKeys(t) ==> DistinctKeys(r)
    ensures DistinctKeys(t) ==> Total(r) + Lookup(t, s).GetOr(0) == Total(t) + c
    ensures |r| == if Lookup(t, s).Some? then |t| else |t| + 1
  {
    if |t| == 0 then [Entry(s, c)]
    else if t[0].symbol == s then [Entry(s, c)] + t[1..]
    else
      var r := [t[0]] + Put(t[1..], s, c);
      assert r[1..] == Put(t[1..], s, c);
      r
  }

  /** In a table without repeated keys each key occurs once, and exactly the looked-up ones occur. */
  lemma {:induction false} KeysOfDistinct(t: FreqTable)
    requires DistinctKeys(t)
    ensures forall s :: Keys(t)[s] <= 1
    ensures forall s :: s in Keys(t) <==> Lookup(t, s).Some?
  {
    if |t| > 0 {
      KeysOfDistinct(t[1..]);
    }
  }

  // ---------------------------------------------------------------------------
  // build_frequency_table
  // ---------------------------------------------------------------------------

  /** The number of times `s` occurs in `data`. */
  function Occurrences(data: seq<byte>, s: int): (r: nat)
    ensures r <= |data|
    ensures s < 0 || s > 255 ==> r == 0
  {
    if |data| == 0 then 0
    else Occurrences(data[..|data| - 1], s) + (if data[|data| - 1] == s then 1 else 0)
  }

  /** The counting loop `frequency[byte] = frequency.get(byte, 0) + 1`. */
  function CountBytes(data: seq<byte>): (r: FreqTable)
    ensures DistinctKeys(r)
    ensures forall s: Symbol :: Lookup(r, s) == if Occurrences(data, s) > 0 then Some(Occurrences(data, s)) else None
    ensures Total(r) == |data|
  {
    if |data| == 0 then []
    else
      var front := data[..|data| - 1];
      var t := CountBytes(front);
      var b := data[|data| - 1];
      var r := Put(t, b, Lookup(t, b).GetOr(0) + 1);
      assert forall s: Symbol :: Occurrences(data, s) == Occurrences(front, s) + (if b == s then 1 else 0);
      r
  }

  /**
    `build_frequency_table`: every occurring byte maps to its number of
    occurrences, and the end marker 256 maps to 1.
   */
  function BuildFrequencyTable(data: seq<byte>): (r: FreqTable)
    ensures DistinctKeys(r)
    ensures Lookup(r, EndMarker) == Some(1)
    ensures forall s: Symbol :: s != EndMarker ==>
              Lookup(r, s) == if Occurrences(data, s) > 0 then Some(Occurrences(data, s)) else None
    ensures Total(r) == |data| + 1
    ensures |r| >= 1 && (|data| > 0 ==> |r| >= 2)
  {
    var t := CountBytes(data);
    assert |data| > 0 ==> |t| >= 1 by {
      if |data| > 0 {
        assert Occurrences(data, data[|data| - 1]) > 0;
        assert Lookup(t, data[|data| - 1]).Some?;
      }
    }
    assert Lookup(t, EndMarker).None?;
    Put(t, EndMarker, 1)
  }

  // ---------------------------------------------------------------------------
  // Trees
  // ---------------------------------------------------------------------------

  /** The symbols at the leaves of a tree. */
  function Symbols(n: Node): multiset<Symbol> {
    match n
    case Leaf(_, s) => multiset{s}
    case Internal(_, l, r) => Symbols(l) + Symbols(r)
  }

  /** No symbol sits at two leaves. */
  ghost predicate Distinct(n: Node) {
    forall s :: Symbols(n)[s] <= 1
  }

  /**
    Every internal node's frequency is the sum of its children's, and its
    left child (the first one popped) is no heavier than its right child.
   */
  predicate WellFormed(n: Node) {
    match n
    case Leaf(_, _) => true
    case Internal(f, l, r) => f == l.freq + r.freq && l.freq <= r.freq && WellFormed(l) && WellFormed(r)
  }

  function TotalFreq(items: seq<Node>): nat {
    if |items| == 0 then 0 else items[0].freq + TotalFreq(items[1..])
  }

  function AllSymbols(items: seq<Node>): multiset<Symbol> {
    if |items| == 0 then multiset{} else Symbols(items[0]) + AllSymbols(items[1..])
  }

  lemma {:induction false} SummaryAppend(a: seq<Node>, b: seq<Node>)
    ensures TotalFreq(a + b) == TotalFreq(a) + TotalFreq(b)
    ensures AllSymbols(a + b) == AllSymbols(a) + AllSymbols(b)
    decreases |a|
  {
    if |a| == 0 {
      assert a + b == b;
    } else {
      assert (a + b)[1..] == a[1..] + b;
      SummaryAppend(a[1..], b);
    }
  }

  /** What `Pop` takes out is exactly what the heap loses. */
  lemma PopSummary(h: Heap)
    requires !IsEmpty(h)
    ensures TotalFreq(h.items) == Pop(h).0.value.freq + TotalFreq(Pop(h).1.items)
    ensures AllSymbols(h.items) == Symbols(Pop(h).0.value) + AllSymbols(Pop(h).1.items)
  {
    var i := MinIndex(h.items);
    var x := h.items[i];
    assert h.items == h.items[..i] + ([x] + h.items[i + 1..]);
    SummaryAppend(h.items[..i], [x] + h.items[i + 1..]);
    SummaryAppend([x], h.items[i + 1..]);
    SummaryAppend(h.items[..i], h.items[i + 1..]);
    assert [x][1..] == [];
  }

  /**
    The loop of `build_huffman_tree`: while more than one node is left, pop
    the two lightest, merge them under a new internal node, push it back;
    finally pop the root.
   */
  function MergeAll(h: Heap): (root: Node)
    requires Size(h) >= 1
    requires forall n :: n in h.items ==> WellFormed(n)
    ensures WellFormed(root)
    ensures root.freq == TotalFreq(h.items)
    ensures Symbols(root) == AllSymbols(h.items)
    ensures Size(h) == 1 ==> root == h.items[0]
    ensures Size(h) >= 2 ==> root.Internal?
    decreases Size(h)
  {
    if Size(h) > 1 then
      MergeAll(MergeTwo(h))
    else
      // the final `pop` of a one-node heap returns its only node
      assert h.items == [h.items[0]] && h.items[1..] == [];
      h.items[0]
  }

  /**
    One round of the merge loop: the two lightest nodes leave the heap and
    their parent is pushed last; frequencies and leaves are conserved.
   */
  function MergeTwo(h: Heap): (next: Heap)
    requires Size(h) >= 2
    requires forall n :: n in h.items ==> WellFormed(n)
    ensures Size(next) == Size(h) - 1
    ensures forall n :: n in next.items ==> WellFormed(n)
    ensures next.items[|next.items| - 1].Internal?
    ensures TotalFreq(next.items) == TotalFreq(h.items)
    ensures AllSymbols(next.items) == AllSymbols(h.items)
  {
    var h1 := Pop(h).1;
    var left := Pop(h).0.value;
    var h2 := Pop(h1).1;
    var right := Pop(h1).0.value;
    PopSummary(h);
    PopSummary(h1);
    PopKeeps(h);
    PopKeeps(h1);
    assert WellFormed(left) && WellFormed(right) && left.freq <= right.freq;
    var merged := Internal(left.freq + right.freq, left, right);
    SummaryAppend(h2.items, [merged]);
    AllWellFormedAppend(h2.items, merged);
    Push(h2, merged)
  }

  lemma AllWellFormedAppend(items: seq<Node>, n: Node)
    requires forall x :: x in items ==> WellFormed(x)
    requires WellFormed(n)
    ensures forall x :: x in items + [n] ==> WellFormed(x)
  {
  }

  /** `Pop` only takes out nodes that were in the heap. */
  lemma PopKeeps(h: Heap)
    requires !IsEmpty(h)
    ensures Pop(h).0.value in h.items
    ensures forall n :: n in Pop(h).1.items ==> n in h.items
  {
    var (x, rest) := Pop(h);
    assert x.value in multiset(h.items);
    forall n | n in rest.items
      ensures n in h.items
    {
      assert n in multiset(rest.items);
      assert n in multiset(h.items);
    }
  }

  /** The leaves pushed for a table, in its order. */
  function LeafNodes(t: FreqTable): (r: seq<Node>)
    ensures |r| == |t|
    ensures forall n :: n in r ==> WellFormed(n)
  {
    if |t| == 0 then [] else [Leaf(t[0].count, t[0].symbol)] + LeafNodes(t[1..])
  }

  lemma {:induction false} LeafNodesSummary(t: FreqTable)
    ensures TotalFreq(LeafNodes(t)) == Total(t)
    ensures AllSymbols(LeafNodes(t)) == Keys(t)
  {
    if |t| > 0 {
      LeafNodesSummary(t[1..]);
      assert LeafNodes(t)[1..] == LeafNodes(t[1..]);
    }
  }

  /** The push loop `for symbol, freq in frequency.items(): heap.push(Node(freq, symbol))`. */
  function PushLeaves(h: Heap, t: FreqTable): (r: Heap)
    ensures r.items == h.items + LeafNodes(t)
    decreases |t|
  {
    if |t| == 0 then h
    else
      var r := PushLeaves(Push(h, Leaf(t[0].count, t[0].symbol)), t[1..]);
      assert h.items + [Leaf(t[0].count, t[0].symbol)] + LeafNodes(t[1..]) == h.items + LeafNodes(t);
      r
  }

  /**
    `build_huffman_tree`: None exactly for an empty table; otherwise a
    well-formed tree whose root frequency is the sum of the counts and whose
    leaves carry exactly the table's keys.
   */
  function BuildHuffmanTree(t: FreqTable): (r: Option<Node>)
    ensures r.None? <==> |t| == 0
    ensures r.Some? ==> WellFormed(r.value) && r.value.freq == Total(t) && Symbols(r.value) == Keys(t)
    ensures r.Some? && DistinctKeys(t) ==> Distinct(r.value)
    ensures |t| >= 2 ==> r.Some? && r.value.Internal?
  {
    if |t| == 0 then None
    else
      var h := PushLeaves(EmptyHeap, t);
      assert h.items == LeafNodes(t);
      LeafNodesSummary(t);
      var root := MergeAll(h);
      assert DistinctKeys(t) ==> Distinct(root) by {
        if DistinctKeys(t) {
          KeysOfDistinct(t);
        }
      }
      Some(root)
  }

  // ---------------------------------------------------------------------------
  // serialize_tree
  // ---------------------------------------------------------------------------

  /**
    The frequency of the leaf for `s`; were `s` at two leaves, the one
    visited last (the right one), as a dict assignment keeps the last value.
   */
  function LeafFreq(n: Node, s: Symbol): (r: Option<nat>)
    ensures r.Some? <==> s in Symbols(n)
  {
    match n
    case Leaf(f, x) => if x == s then Some(f) else None
    case Internal(_, l, r) => if LeafFreq(r, s).Some? then LeafFreq(r, s) else LeafFreq(l, s)
  }

  /** The depth-first walk of `serialize_tree`: leaves in pre-order, left child first. */
  function CollectLeaves(acc: FreqTable, n: Node): (r: FreqTable)
    ensures DistinctKeys(acc) ==> DistinctKeys(r)
    ensures forall s :: Lookup(r, s) == if s in Symbols(n) then LeafFreq(n, s) else Lookup(acc, s)
    decreases n
  {
    match n
    case Leaf(f, s) => Put(acc, s, f)
    case Internal(_, l, r) => CollectLeaves(CollectLeaves(acc, l), r)
  }

  /** `serialize_tree`: the table of every leaf's symbol and frequency. */
  function SerializeTree(root: Node): (r: FreqTable)
    ensures DistinctKeys(r)
    ensures forall s :: Lookup(r, s) == LeafFreq(root, s)
  {
    CollectLeaves([], root)
  }
}
