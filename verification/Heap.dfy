/** The binary min-heap of tree roots. */
module Heaps {
  import opened Trees
  import opened Forests

  function Parent(j: nat): nat
    requires j > 0
  {
    (j - 1) / 2
  }

  /** Heap order between every entry and its parent, as far as the parent is at `lo` or after. */
  ghost predicate OrderedFrom(s: seq<Tree>, lo: nat) {
    forall j :: 0 < j < |s| && lo <= Parent(j) ==> s[Parent(j)].frequency <= s[j].frequency
  }

  /** The same, but the entry at `k` may be larger than its children. */
  ghost predicate OrderedExceptAt(s: seq<Tree>, lo: nat, k: nat) {
    && (forall j :: 0 < j < |s| && lo <= Parent(j) && Parent(j) != k ==> s[Parent(j)].frequency <= s[j].frequency)
    && (forall j :: 0 < j < |s| && Parent(j) == k && 0 < k && lo <= Parent(k) ==>
        s[Parent(k)].frequency <= s[j].frequency)
  }

  /** The same, but the entry at `k` may be smaller than its parent. */
  ghost predicate OrderedExceptAbove(s: seq<Tree>, k: nat) {
    && (forall j :: 0 < j < |s| && j != k ==> s[Parent(j)].frequency <= s[j].frequency)
    && (forall j :: 0 < j < |s| && Parent(j) == k && 0 < k ==> s[Parent(k)].frequency <= s[j].frequency)
  }

  function Swapped(s: seq<Tree>, i: nat, j: nat): seq<Tree>
    requires i < |s| && j < |s|
  {
    s[i := s[j]][j := s[i]]
  }

  lemma SwappedContents(s: seq<Tree>, i: nat, j: nat)
    requires i < |s| && j < |s|
    ensures multiset(Swapped(s, i, j)) == multiset(s)
  {
  }

  /** `m` is the position of the least of entry `k` and its children. */
  ghost predicate SmallestOfThree(s: seq<Tree>, k: nat, m: nat) {
    && (m == k || (k < m < |s| && Parent(m) == k && s[m].frequency < s[k].frequency))
    && (forall j :: k < j < |s| && Parent(j) == k ==> s[m].frequency <= s[j].frequency)
  }

  lemma SiftDownEnd(s: seq<Tree>, lo: nat, k: nat)
    requires OrderedExceptAt(s, lo, k) && SmallestOfThree(s, k, k)
    ensures OrderedFrom(s, lo)
  {
    forall j | 0 < j < |s| && lo <= Parent(j) ensures s[Parent(j)].frequency <= s[j].frequency {
      if Parent(j) == k { assert k < j; }
    }
  }

  /** Moving the smaller child up leaves the only possible violation at that child. */
  lemma SiftDownStep(s: seq<Tree>, lo: nat, k: nat, c: nat)
    requires lo <= k && OrderedExceptAt(s, lo, k)
    requires c != k && SmallestOfThree(s, k, c)
    ensures OrderedExceptAt(Swapped(s, k, c), lo, c)
  {
    var r := Swapped(s, k, c);
    forall j | 0 < j < |r| && lo <= Parent(j) && Parent(j) != c
      ensures r[Parent(j)].frequency <= r[j].frequency
    {
      if Parent(j) == k { assert k < j; }
    }
    forall j | 0 < j < |r| && Parent(j) == c ensures r[Parent(c)].frequency <= r[j].frequency {
      assert s[Parent(j)].frequency <= s[j].frequency;
    }
  }

  lemma SiftUpStep(s: seq<Tree>, k: nat)
    requires 0 < k < |s| && OrderedExceptAbove(s, k) && s[k].frequency < s[Parent(k)].frequency
    ensures OrderedExceptAbove(Swapped(s, k, Parent(k)), Parent(k))
  {
    var p := Parent(k);
    var r := Swapped(s, k, p);
    forall j | 0 < j < |r| && j != p ensures r[Parent(j)].frequency <= r[j].frequency {
      if Parent(j) == p && j != k { assert s[p].frequency <= s[j].frequency; }
    }
    forall j | 0 < j < |r| && Parent(j) == p && 0 < p ensures r[Parent(p)].frequency <= r[j].frequency {
      assert s[Parent(p)].frequency <= s[p].frequency;
      if j != k { assert s[Parent(j)].frequency <= s[j].frequency; }
    }
  }

  /** A node put behind an ordered heap may be out of order only with its parent. */
  lemma SiftUpStart(s: seq<Tree>, node: Tree)
    requires OrderedFrom(s, 0)
    ensures OrderedExceptAbove(s + [node], |s|) && multiset(s + [node]) == multiset(s) + multiset{node}
  {
    var r := s + [node];
    forall j | 0 < j < |r| && j != |s| ensures r[Parent(j)].frequency <= r[j].frequency {
      assert r[Parent(j)] == s[Parent(j)];
    }
  }

  /** `s` rearranges `start` and has the node at `k`, where only its parent may be out of order. */
  ghost predicate Sifting(start: seq<Tree>, s: seq<Tree>, node: Tree, k: nat) {
    k < |s| && s[k] == node && multiset(s) == multiset(start) && OrderedExceptAbove(s, k)
  }

  ghost predicate AgreeExceptAt(a: seq<Tree>, s: seq<Tree>, k: nat) {
    |a| == |s| && forall j :: 0 <= j < |s| && j != k ==> a[j] == s[j]
  }

  lemma SiftUpBody(a: seq<Tree>, start: seq<Tree>, s: seq<Tree>, node: Tree, k: nat)
    requires 0 < k < |a| && Sifting(start, s, node, k) && AgreeExceptAt(a, s, k)
    requires node.frequency < a[Parent(k)].frequency
    ensures Sifting(start, Swapped(s, k, Parent(k)), node, Parent(k))
    ensures AgreeExceptAt(a[k := a[Parent(k)]], Swapped(s, k, Parent(k)), Parent(k))
  {
    SiftUpStep(s, k);
    SwappedContents(s, k, Parent(k));
  }

  lemma SiftUpEnd(s: seq<Tree>, k: nat)
    requires k < |s| && OrderedExceptAbove(s, k) && (k == 0 || s[Parent(k)].frequency <= s[k].frequency)
    ensures OrderedFrom(s, 0)
  {
  }

  /** The root of an ordered heap is a least entry. */
  lemma {:induction false} RootIsLeast(s: seq<Tree>, k: nat)
    requires OrderedFrom(s, 0) && k < |s|
    ensures s[0].frequency <= s[k].frequency
  {
    if k > 0 {
      RootIsLeast(s, Parent(k));
    }
  }

  /** An `HF_Heap`. */
  class Heap {
    var size: nat
    const capacity: nat
    const nodes: array<Tree>

    ghost predicate Valid()
      reads this
    {
      size <= capacity == nodes.Length
    }

    /** The part of the array in use. */
    ghost function Entries(): seq<Tree>
      requires Valid()
      reads this, nodes
    {
      nodes[..size]
    }

    ghost function Contents(): Forest
      requires Valid()
      reads this, nodes
    {
      multiset(Entries())
    }

    /** A valid heap: every parent at most its children. */
    ghost predicate Ordered()
      requires Valid()
      reads this, nodes
    {
      OrderedFrom(Entries(), 0)
    }

    constructor (capacity: nat)
      ensures Valid() && fresh(nodes) && size == 0 && this.capacity == capacity
    {
      size := 0;
      this.capacity := capacity;
      nodes := new Tree[capacity](_ => Leaf('$', 0));
    }

    method SwapNodes(a: nat, b: nat)
      requires Valid() && a < size && b < size
      modifies nodes
      ensures Entries() == Swapped(old(Entries()), a, b)
      ensures nodes[size..] == old(nodes[size..])
    {
      nodes[a], nodes[b] := nodes[b], nodes[a];
    }

    /** The position of the least of an entry and its two children. */
    method SmallestAt(index: nat) returns (smallest: nat)
      requires Valid()
      ensures SmallestOfThree(Entries(), index, smallest)
    {
      smallest := index;
      var leftIndex := 2 * index + 1;
      var rightIndex := 2 * index + 2;
      if leftIndex < size && nodes[leftIndex].frequency < nodes[smallest].frequency {
        smallest := leftIndex;
      }
      if rightIndex < size && nodes[rightIndex].frequency < nodes[smallest].frequency {
        smallest := rightIndex;
      }
      assert forall j :: index < j && Parent(j) == index ==> j == leftIndex || j == rightIndex;
    }

    /** Repair a heap that may be out of order at `index` only. */
    method Heapify(index: nat, ghost lo: nat)
      requires Valid() && lo <= index && OrderedExceptAt(Entries(), lo, index)
      modifies nodes
      ensures Valid() && OrderedFrom(Entries(), lo)
      ensures Contents() == old(Contents()) && nodes[size..] == old(nodes[size..])
      decreases size - index
    {
      var smallest := SmallestAt(index);
      if smallest == index {
        SiftDownEnd(Entries(), lo, index);
      } else {
        SiftDownStep(Entries(), lo, index, smallest);
        SwappedContents(Entries(), index, smallest);
        SwapNodes(index, smallest);
        Heapify(smallest, lo);
      }
    }

    /** Take out the root. */
    method Pop() returns (root: Tree)
      requires Valid() && Ordered() && size > 0
      modifies this`size, nodes
      ensures Valid() && Ordered() && size == old(size) - 1
      ensures Least(root, old(Contents()))
      ensures Contents() == old(Contents()) - multiset{root}
    {
      ghost var s := Entries();
      forall k | 0 <= k < |s| ensures s[0].frequency <= s[k].frequency { RootIsLeast(s, k); }
      root := nodes[0];
      nodes[0] := nodes[size - 1];
      size := size - 1;
      LastToRoot(s, Entries());
      Heapify(0, 0);
    }

    /** Put a node in; a full heap is left as it is. */
    method Push(node: Tree)
      requires Valid() && Ordered()
      modifies this`size, nodes
      ensures Valid() && Ordered()
      ensures size == if old(size) == capacity then old(size) else old(size) + 1
      ensures Contents() == if old(size) == capacity then old(Contents()) else old(Contents()) + multiset{node}
    {
      if size == capacity {
        return;
      }
      SiftUpStart(Entries(), node);
      size := size + 1;
      SiftUp(node, old(Entries()) + [node]);
    }

    /** Find the place of a new node, starting from the last slot and moving parents down;
        `start` is the array with the node dropped into the last slot. */
    method SiftUp(node: Tree, ghost start: seq<Tree>)
      requires Valid() && |start| == size > 0 && OrderedExceptAbove(start, size - 1)
      requires start == nodes[..size - 1] + [node]
      modifies nodes
      ensures Valid() && Ordered() && Contents() == multiset(start)
    {
      var i := size - 1;
      ghost var s := start;
      while i != 0 && node.frequency < nodes[(i - 1) / 2].frequency
        invariant 0 <= i < size && |s| == size
        invariant Sifting(start, s, node, i) && AgreeExceptAt(Entries(), s, i)
      {
        SiftUpBody(Entries(), start, s, node, i);
        ghost var entries := Entries();
        nodes[i] := nodes[(i - 1) / 2];
        assert Entries() == entries[i := entries[Parent(i)]];
        s := Swapped(s, i, Parent(i));
        i := (i - 1) / 2;
      }
      SiftUpEnd(s, i);
      nodes[i] := node;
      assert Entries() == s;
    }

    /** Turn an arbitrary array into a heap, from the last parent back to the root. */
    method Build()
      requires Valid()
      modifies nodes
      ensures Valid() && Ordered() && Contents() == old(Contents())
    {
      var n: int := size - 1;
      // C division rounds towards zero.
      var i: int := if n >= 1 then (n - 1) / 2 else if n == 0 then 0 else -1;
      while i >= 0
        invariant -1 <= i
        invariant OrderedFrom(Entries(), i + 1)
        invariant Contents() == old(Contents())
      {
        Heapify(i, i);
        i := i - 1;
      }
    }
  }

  /** Replacing the root by the last entry disturbs the order at the root only. */
  lemma LastToRoot(s: seq<Tree>, r: seq<Tree>)
    requires |s| > 0 && OrderedFrom(s, 0)
    requires r == s[0 := s[|s| - 1]][..|s| - 1]
    ensures |r| == |s| - 1 && OrderedExceptAt(r, 0, 0) && multiset(r) == multiset(s) - multiset{s[0]}
  {
    forall j | 0 < j < |r| && Parent(j) != 0 ensures r[Parent(j)].frequency <= r[j].frequency {
      assert s[Parent(j)].frequency <= s[j].frequency;
    }
    var n := |s| - 1;
    assert s == s[..n] + [s[n]];
    if n == 0 {
      assert s == [s[0]];
    } else {
      assert r == [s[n]] + s[1..n];
      assert s == [s[0]] + s[1..n] + [s[n]];
    }
  }

  /** One leaf node for every letter, arranged as a heap. */
  method CreateHeap(data: string, frequencies: seq<nat>) returns (heap: Heap)
    requires |data| == |frequencies|
    ensures fresh(heap) && fresh(heap.nodes) && heap.Valid() && heap.Ordered()
    ensures heap.size == heap.capacity == |data|
    ensures heap.Contents() == multiset(LeafTrees(data, frequencies))
  {
    heap := new Heap(|data|);
    for i := 0 to |data|
      invariant fresh(heap) && fresh(heap.nodes) && heap.Valid() && heap.capacity == |data|
      invariant forall k :: 0 <= k < i ==> heap.nodes[k] == Leaf(data[k], frequencies[k])
    {
      heap.nodes[i] := Leaf(data[i], frequencies[i]);
    }
    heap.size := |data|;
    assert heap.Entries() == LeafTrees(data, frequencies);
    heap.Build();
  }

  /** Merge the two smallest trees until one is left. */
  method BuildTree(data: string, frequencies: seq<nat>) returns (root: Tree)
    requires |data| == |frequencies| > 0
    ensures HuffmanTree(data, frequencies, root)
  {
    var heap := CreateHeap(data, frequencies);
    ghost var start := heap.Contents();
    while heap.size != 1
      invariant fresh(heap) && fresh(heap.nodes) && heap.Valid() && heap.Ordered()
      invariant 1 <= heap.size <= heap.capacity == |data|
      invariant forall t :: Merges(heap.Contents(), t) ==> Merges(start, t)
      decreases heap.size
    {
      ghost var f := heap.Contents();
      var left := heap.Pop();
      var right := heap.Pop();
      var top := Join(left, right);
      heap.Push(top);
      MergeBack(f, left, right, heap.Contents(), start);
    }
    root := heap.nodes[0];
    assert heap.Entries() == [root];
    assert Merges(heap.Contents(), root);
  }

  lemma MergeBack(f: Forest, l: Tree, r: Tree, g: Forest, start: Forest)
    requires |f| >= 2 && MergeOf(f, l, r, g)
    requires forall t :: Merges(f, t) ==> Merges(start, t)
    ensures forall t :: Merges(g, t) ==> Merges(start, t)
  {
    assert r in f - multiset{l};
    assert |g| < |f|;
    assert MergeStep(f, g);
  }
}
