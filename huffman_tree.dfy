/**
  The Huffman tree builder (`HuffmanNode`, `build_huffman_tree`). The heap is
  a sequence of trees from which `PopMin` removes some node of least
  frequency; which of several equal nodes is taken is left open, as it is
  decided by `heapq`'s internal layout and not by the builder.
 */
module HuffmanTree {
  import opened Pixels
  import opened Wrappers
  import opened Frequency

  /**
    A `HuffmanNode`: a leaf holds a symbol and its count; an internal node
    holds no symbol, only a frequency and its `left` and `right` children.
   */
  datatype Tree =
    | Leaf(symbol: Byte, freq: nat)
    | Node(freq: nat, left: Tree, right: Tree)
  {
    /** `__lt__`: nodes are ordered by frequency alone. */
    predicate Less(other: Tree)
    {
      freq < other.freq
    }
  }

  /** The symbols at the leaves, with multiplicity. */
  function Symbols(t: Tree): multiset<Byte>
  {
    match t
    case Leaf(s, _) => multiset{s}
    case Node(_, l, r) => Symbols(l) + Symbols(r)
  }

  /** Number of internal (merged) nodes. */
  function InternalCount(t: Tree): nat
  {
    match t
    case Leaf(_, _) => 0
    case Node(_, l, r) => 1 + InternalCount(l) + InternalCount(r)
  }

  /** Every internal node carries the sum of its children's frequencies. */
  ghost predicate Consistent(t: Tree)
  {
    match t
    case Leaf(_, _) => true
    case Node(f, l, r) => f == l.freq + r.freq && Consistent(l) && Consistent(r)
  }

  /** Every leaf carries a symbol of the table together with that symbol's count. */
  ghost predicate LeavesFrom(t: Tree, freq: Table)
  {
    match t
    case Leaf(s, f) => s in freq && freq[s] == f
    case Node(_, l, r) => LeavesFrom(l, freq) && LeavesFrom(r, freq)
  }

  /** Sum of the frequencies of the trees on the heap. */
  function ForestFreq(heap: seq<Tree>): nat
  {
    if heap == [] then 0 else heap[0].freq + ForestFreq(heap[1..])
  }

  /** All leaf symbols of the trees on the heap. */
  function ForestSymbols(heap: seq<Tree>): multiset<Byte>
  {
    if heap == [] then multiset{} else Symbols(heap[0]) + ForestSymbols(heap[1..])
  }

  /** Number of internal nodes over all trees on the heap. */
  function ForestInternal(heap: seq<Tree>): nat
  {
    if heap == [] then 0 else InternalCount(heap[0]) + ForestInternal(heap[1..])
  }

  /** The heap totals split over a concatenation. */
  lemma {:induction false} ForestSplit(a: seq<Tree>, b: seq<Tree>)
    ensures ForestFreq(a + b) == ForestFreq(a) + ForestFreq(b)
    ensures ForestSymbols(a + b) == ForestSymbols(a) + ForestSymbols(b)
    ensures ForestInternal(a + b) == ForestInternal(a) + ForestInternal(b)
  {
    if a == [] {
      assert a + b == b;
    } else {
      assert (a + b)[1..] == a[1..] + b;
      ForestSplit(a[1..], b);
    }
  }

  /** Removing the tree at position `k` removes exactly its share of the heap totals. */
  lemma RemoveAt(heap: seq<Tree>, k: nat)
    requires k < |heap|
    ensures ForestFreq(heap) == heap[k].freq + ForestFreq(heap[..k] + heap[k + 1..])
    ensures ForestSymbols(heap) == Symbols(heap[k]) + ForestSymbols(heap[..k] + heap[k + 1..])
    ensures ForestInternal(heap) == InternalCount(heap[k]) + ForestInternal(heap[..k] + heap[k + 1..])
    ensures forall t :: t in heap[..k] + heap[k + 1..] ==> t in heap
  {
    var before, x, after := heap[..k], heap[k], heap[k + 1..];
    var tail := [x] + after;
    assert heap == before + tail;
    assert tail[1..] == after;
    ForestSplit(before, tail);
    ForestSplit(before, after);
  }

  /** A non-empty heap has a node that no other node is `Less` than. */
  lemma {:induction false} MinimumExists(heap: seq<Tree>)
    requires |heap| > 0
    ensures exists k :: 0 <= k < |heap| && forall t :: t in heap ==> !t.Less(heap[k])
  {
    if |heap| == 1 {
      assert forall t :: t in heap ==> t == heap[0];
      assert forall t :: t in heap ==> !t.Less(heap[0]);
    } else {
      var tail := heap[1..];
      MinimumExists(tail);
      var j :| 0 <= j < |tail| && forall t :: t in tail ==> !t.Less(tail[j]);
      assert forall t :: t in heap ==> t == heap[0] || t in tail;
      if heap[0].Less(tail[j]) {
        assert forall t :: t in heap ==> !t.Less(heap[0]);
      } else {
        assert heap[j + 1] == tail[j];
        assert forall t :: t in heap ==> !t.Less(heap[j + 1]);
      }
    }
  }

  /**
    `heapq.heappop`: removes and returns a node of least frequency; `k`
    (proof only) is the position it was taken from.
   */
  method PopMin(heap: seq<Tree>) returns (node: Tree, rest: seq<Tree>, ghost k: nat)
    requires |heap| > 0
    ensures k < |heap| && node == heap[k] && rest == heap[..k] + heap[k + 1..]
    ensures forall t :: t in heap ==> !t.Less(node)
  {
    MinimumExists(heap);
    var j :| 0 <= j < |heap| && forall t :: t in heap ==> !t.Less(heap[j]);
    node, rest, k := heap[j], heap[..j] + heap[j + 1..], j;
  }

  /** The invariant of the builder's heap: well-formed trees over the table's symbols and counts. */
  ghost predicate HeapOver(heap: seq<Tree>, freq: Table)
  {
    forall t :: t in heap ==> Consistent(t) && LeavesFrom(t, freq)
  }

  /**
    While the initial heap is filled: the leaves made so far and the table
    entries still pending together account for the whole table.
   */
  ghost predicate LeavesSoFar(heap: seq<Tree>, pending: Table, freq: Table)
  {
    && (forall b :: b in pending ==> b in freq && pending[b] == freq[b])
    && |heap| + |pending| == |freq|
    && ForestSymbols(heap) + multiset(pending.Keys) == multiset(freq.Keys)
    && ForestFreq(heap) + TableSum(pending) == TableSum(freq)
    && ForestInternal(heap) == 0
    && HeapOver(heap, freq)
  }

  /** Turning one pending entry into a leaf keeps the account. */
  lemma AddLeaf(heap: seq<Tree>, pending: Table, freq: Table, s: Byte)
    requires LeavesSoFar(heap, pending, freq) && s in pending
    ensures LeavesSoFar(heap + [Leaf(s, pending[s])], pending - {s}, freq)
  {
    var leaf := Leaf(s, pending[s]);
    ForestSplit(heap, [leaf]);
    SingleTree([leaf]);
    assert LeavesFrom(leaf, freq);
    assert multiset(pending.Keys) == multiset((pending - {s}).Keys) + multiset{s};
    TableSumRemove(pending, s);
    assert HeapOver(heap + [leaf], freq) by {
      forall t | t in heap + [leaf] ensures Consistent(t) && LeavesFrom(t, freq) {
        if t != leaf {
          assert t in heap;
        }
      }
    }
  }

  /**
    The initial heap of `build_huffman_tree`: one leaf per table entry,
    holding the symbol and its count, in the table's (unspecified) order.
   */
  method LeafHeap(freq: Table) returns (heap: seq<Tree>)
    ensures |heap| == |freq|
    ensures HeapOver(heap, freq) && ForestInternal(heap) == 0
    ensures ForestSymbols(heap) == multiset(freq.Keys)
    ensures ForestFreq(heap) == TableSum(freq)
  {
    heap := [];
    var pending := freq;
    TableSumEmpty();
    while |pending| > 0
      invariant LeavesSoFar(heap, pending, freq)
      decreases |pending|
    {
      var s :| s in pending;
      AddLeaf(heap, pending, freq, s);
      heap := heap + [Leaf(s, pending[s])];
      pending := pending - {s};
    }
    assert pending == map[];
  }

  /**
    One iteration of the builder's loop: pop a least-frequent node (`node1`),
    pop a least-frequent node of what remains (`node2`), and push a new node
    with `node1` on the left, `node2` on the right and their summed
    frequency. The heap loses one entry, keeps its total frequency and its
    symbols, and gains one internal node.
   */
  method MergeStep(heap: seq<Tree>) returns (next: seq<Tree>)
    requires |heap| > 1
    ensures |next| == |heap| - 1
    ensures var merged := next[|next| - 1];
      && merged.Node?
      && merged.freq == merged.left.freq + merged.right.freq
      && merged.left in heap && merged.right in heap
      && (forall t :: t in heap ==> !t.Less(merged.left))
      && (forall t :: t in next[..|next| - 1] ==> !t.Less(merged.right) && t in heap)
    ensures ForestFreq(next) == ForestFreq(heap)
    ensures ForestSymbols(next) == ForestSymbols(heap)
    ensures ForestInternal(next) == ForestInternal(heap) + 1
    ensures var merged := next[|next| - 1];
      multiset(next[..|next| - 1]) + multiset{merged.left, merged.right} == multiset(heap)
  {
    var node1, rest1;
    ghost var k1;
    node1, rest1, k1 := PopMin(heap);
    RemoveAt(heap, k1);
    var node2, rest2;
    ghost var k2;
    node2, rest2, k2 := PopMin(rest1);
    RemoveAt(rest1, k2);
    var merged := Node(node1.freq + node2.freq, node1, node2);
    ForestSplit(rest2, [merged]);
    SingleTree([merged]);
    next := rest2 + [merged];
    assert next[..|next| - 1] == rest2;
    PopTwice(heap, k1, k2);
  }

  /** Removing position `k1`, then position `k2` of what is left, removes exactly those two trees. */
  lemma PopTwice(heap: seq<Tree>, k1: nat, k2: nat)
    requires k1 < |heap| && k2 < |heap| - 1
    ensures var rest1 := heap[..k1] + heap[k1 + 1..];
      multiset(rest1[..k2] + rest1[k2 + 1..]) + multiset{heap[k1], rest1[k2]} == multiset(heap)
  {
    var rest1 := heap[..k1] + heap[k1 + 1..];
    var rest2 := rest1[..k2] + rest1[k2 + 1..];
    assert heap == heap[..k1] + [heap[k1]] + heap[k1 + 1..];
    assert multiset(heap) == multiset(rest1) + multiset{heap[k1]};
    assert rest1 == rest1[..k2] + [rest1[k2]] + rest1[k2 + 1..];
    assert multiset(rest1) == multiset(rest2) + multiset{rest1[k2]};
  }

  /**
    `build_huffman_tree`: merge steps until one tree is left; `None` for an
    empty table. The root holds every symbol of the table exactly once, with
    its count, its frequency is the table's total, and it took one merge per
    symbol beyond the first.
   */
  method BuildHuffmanTree(freq: Table) returns (root: Option<Tree>)
    ensures root.None? <==> |freq| == 0
    ensures root.Some? ==> Consistent(root.value) && LeavesFrom(root.value, freq)
    ensures root.Some? ==> Symbols(root.value) == multiset(freq.Keys)
    ensures root.Some? ==> root.value.freq == TableSum(freq)
    ensures root.Some? ==> InternalCount(root.value) == |freq| - 1
  {
    var heap := LeafHeap(freq);
    while |heap| > 1
      invariant |heap| > 0 <==> |freq| > 0
      invariant HeapOver(heap, freq)
      invariant ForestSymbols(heap) == multiset(freq.Keys)
      invariant ForestFreq(heap) == TableSum(freq)
      invariant ForestInternal(heap) + |heap| == |freq|
      decreases |heap|
    {
      ghost var before := heap;
      heap := MergeStep(heap);
      MergeKeepsHeapOver(before, heap, freq);
    }
    if |heap| > 0 {
      root := Some(heap[0]);
      SingleTree(heap);
    } else {
      root := None;
    }
  }

  /** The merged node is well-formed when its children are, and the other trees come from the old heap. */
  lemma MergeKeepsHeapOver(heap: seq<Tree>, next: seq<Tree>, freq: Table)
    requires HeapOver(heap, freq) && |next| > 0
    requires var merged := next[|next| - 1];
      && merged.Node?
      && merged.freq == merged.left.freq + merged.right.freq
      && merged.left in heap && merged.right in heap
      && (forall t :: t in next[..|next| - 1] ==> t in heap)
    ensures HeapOver(next, freq)
  {
    forall t | t in next
      ensures Consistent(t) && LeavesFrom(t, freq)
    {
      if t != next[|next| - 1] {
        assert next == next[..|next| - 1] + [next[|next| - 1]];
        assert t in next[..|next| - 1];
      }
    }
  }

  /** The heap totals of a one-tree heap are those of its tree. */
  lemma SingleTree(heap: seq<Tree>)
    requires |heap| == 1
    ensures heap[0] in heap
    ensures ForestFreq(heap) == heap[0].freq
    ensures ForestSymbols(heap) == Symbols(heap[0])
    ensures ForestInternal(heap) == InternalCount(heap[0])
  {
    assert heap[1..] == [];
  }
}
