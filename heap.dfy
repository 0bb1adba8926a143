/**
 * The array-backed binary min-heap of nodes keyed by distance (`NodeHeap.java`).
 * Slot `k > 0` hangs under slot `Parent(k)`; a heap keeps every parent's key at
 * most its children's keys, so the smallest key sits in slot 0.
 */
module Heap {
  import opened Wrappers
  import opened Nodes

  /** A node with its key (Java's inner class `DistNode`; the key is a `double`). */
  datatype DistNode = DistNode(node: Node, dist: real)

  /** Java's `/` on `int`, which truncates toward zero (Dafny's `/` is Euclidean). */
  function TruncDiv(a: int, b: int): (q: int)
    requires b > 0
    ensures a >= 0 ==> q * b <= a < q * b + b
    ensures a < 0 ==> q * b - b < a <= q * b
  {
    if a >= 0 then a / b else -((-a) / b)
  }

  /**
   * `parent`: `(index - 1) / 2` in Java arithmetic. Slot `k > 0` is the left or the
   * right child of its parent; the root is its own parent, which is what stops
   * sift-up there.
   */
  function Parent(index: int): (r: int)
    ensures index >= 1 ==> 0 <= r < index && (index == 2 * r + 1 || index == 2 * r + 2)
    ensures index == 0 ==> r == 0
  {
    TruncDiv(index - 1, 2)
  }

  /** Every parent's key is at most its child's key. */
  ghost predicate IsHeap(s: seq<DistNode>)
  {
    forall k :: 0 < k < |s| ==> s[Parent(k)].dist <= s[k].dist
  }

  /**
   * The order holds below every parent from `lo` on, except under `hole`, whose
   * children are still to be compared with it (sift-down).
   */
  ghost predicate OrderedBelow(s: seq<DistNode>, lo: int, hole: int)
  {
    forall k :: 0 < k < |s| && Parent(k) >= lo && Parent(k) != hole ==> s[Parent(k)].dist <= s[k].dist
  }

  /** The parent of `hole` (when it is in range) is no heavier than `hole`'s children. */
  ghost predicate Bridged(s: seq<DistNode>, lo: int, hole: int)
  {
    0 < hole < |s| && Parent(hole) >= lo ==>
      forall k :: 0 < k < |s| && Parent(k) == hole ==> s[Parent(hole)].dist <= s[k].dist
  }

  /** The order holds everywhere except between `hole` and its parent (sift-up). */
  ghost predicate OrderedAbove(s: seq<DistNode>, hole: int)
  {
    && (forall k :: 0 < k < |s| && k != hole ==> s[Parent(k)].dist <= s[k].dist)
    && (0 < hole < |s| ==> forall k :: 0 < k < |s| && Parent(k) == hole ==> s[Parent(hole)].dist <= s[k].dist)
  }

  ghost predicate AllKeysEqual(s: seq<DistNode>)
  {
    forall a, b :: 0 <= a < |s| && 0 <= b < |s| ==> s[a].dist == s[b].dist
  }

  ghost predicate KeysAre(s: seq<DistNode>, c: real)
  {
    forall k :: 0 <= k < |s| ==> s[k].dist == c
  }

  /** `s` with slots `a` and `b` exchanged. */
  function Swapped(s: seq<DistNode>, a: nat, b: nat): (t: seq<DistNode>)
    requires a < |s| && b < |s|
    ensures |t| == |s| && t[a] == s[b] && t[b] == s[a]
    ensures forall k :: 0 <= k < |s| && k != a && k != b ==> t[k] == s[k]
    ensures multiset(t) == multiset(s)
  {
    s[a := s[b]][b := s[a]]
  }

  /** The key `get` reports for `n`: that of the first entry holding `n`, or -1. */
  function KeyOf(s: seq<DistNode>, n: Node): real
  {
    if s == [] then -1.0
    else if s[0].node == n then s[0].dist
    else KeyOf(s[1..], n)
  }

  /** `KeyOf` is the key of the earliest entry holding `n`... */
  lemma {:induction false} KeyOfFirst(s: seq<DistNode>, n: Node, k: nat)
    requires k < |s| && s[k].node == n
    requires forall j :: 0 <= j < k ==> s[j].node != n
    ensures KeyOf(s, n) == s[k].dist
    decreases k
  {
    if k > 0 {
      assert s[0].node != n;
      KeyOfFirst(s[1..], n, k - 1);
    }
  }

  /** ...and -1 when no entry holds `n`. */
  lemma {:induction false} KeyOfAbsent(s: seq<DistNode>, n: Node)
    requires forall k :: 0 <= k < |s| ==> s[k].node != n
    ensures KeyOf(s, n) == -1.0
    decreases |s|
  {
    if s != [] {
      assert s[0].node != n;
      KeyOfAbsent(s[1..], n);
    }
  }

  /** In a heap no key is smaller than the root's. */
  lemma {:induction false} HeapRootIsMin(s: seq<DistNode>, k: nat)
    requires IsHeap(s) && k < |s|
    ensures s[0].dist <= s[k].dist
    decreases k
  {
    if k > 0 {
      HeapRootIsMin(s, Parent(k));
    }
  }

  lemma SwappedKeysAre(s: seq<DistNode>, a: nat, b: nat, c: real)
    requires a < |s| && b < |s| && KeysAre(s, c)
    ensures KeysAre(Swapped(s, a, b), c)
  {
  }

  /** One sift-up swap: the hole moves from `j` to its parent. */
  lemma SiftUpStep(s: seq<DistNode>, j: nat)
    requires 0 < j < |s| && OrderedAbove(s, j) && s[j].dist < s[Parent(j)].dist
    ensures OrderedAbove(Swapped(s, Parent(j), j), Parent(j))
  {
    var p := Parent(j);
    var t := Swapped(s, p, j);
    forall k | 0 < k < |t| && k != p
      ensures t[Parent(k)].dist <= t[k].dist
    {
      if k == j {
      } else if Parent(k) == j {
        assert s[p].dist <= s[k].dist;
      } else if Parent(k) == p {
        assert s[p].dist <= s[k].dist;
      }
    }
    if 0 < p {
      forall k | 0 < k < |t| && Parent(k) == p
        ensures t[Parent(p)].dist <= t[k].dist
      {
        assert s[Parent(p)].dist <= s[p].dist;
        if k != j {
          assert s[p].dist <= s[k].dist;
        }
      }
    }
  }

  /** One sift-down swap of the hole `j` with its lightest child `m`. */
  lemma SiftDownStep(s: seq<DistNode>, lo: int, j: nat, m: nat)
    requires j < m < |s| && Parent(m) == j && lo <= j
    requires OrderedBelow(s, lo, j) && Bridged(s, lo, j)
    requires forall k :: 0 < k < |s| && Parent(k) == j ==> s[m].dist <= s[k].dist
    requires s[m].dist <= s[j].dist
    ensures OrderedBelow(Swapped(s, j, m), lo, m) && Bridged(Swapped(s, j, m), lo, m)
  {
    var t := Swapped(s, j, m);
    forall k | 0 < k < |t| && Parent(k) >= lo && Parent(k) != m
      ensures t[Parent(k)].dist <= t[k].dist
    {
      if k == j {
        assert s[Parent(j)].dist <= s[m].dist;
      } else if Parent(k) == j {
        assert s[m].dist <= s[k].dist;
      }
    }
    forall k | 0 < k < |t| && Parent(k) == m
      ensures t[j].dist <= t[k].dist
    {
      assert s[m].dist <= s[k].dist;
    }
  }

  /** A hole no heavier than any of its children closes the order. */
  lemma SiftDownDone(s: seq<DistNode>, lo: int, j: int)
    requires OrderedBelow(s, lo, j)
    requires forall k :: 0 < k < |s| && Parent(k) == j ==> s[j].dist <= s[k].dist
    ensures OrderedBelow(s, lo, -1)
  {
  }

  /** A slot with no left child in range has no child at all. */
  lemma NoChildren(s: seq<DistNode>, i: int)
    requires 2 * i + 1 >= |s|
    ensures forall k :: 0 < k < |s| ==> Parent(k) != i
  {
  }

  /** Dropping the first slot for the last one removes exactly the first entry. */
  lemma ReplaceRootByLast(s: seq<DistNode>)
    requires |s| > 0
    ensures multiset(s[0 := s[|s| - 1]][..|s| - 1]) == multiset(s) - multiset{s[0]}
  {
    var t := s[0 := s[|s| - 1]][..|s| - 1];
    if |s| > 1 {
      assert s == [s[0]] + s[1..|s| - 1] + [s[|s| - 1]];
      assert t == [s[|s| - 1]] + s[1..|s| - 1];
    }
  }

  class NodeHeap {
    var heap: seq<DistNode>
    /** Returned by `LeftChild`/`RightChild` for a child past the end. */
    const sentinel: int := -1

    ghost predicate Valid()
      reads this`heap
    {
      IsHeap(heap)
    }

    /** `NodeHeap()`: an empty heap. */
    constructor ()
      ensures Valid() && heap == []
    {
      heap := [];
    }

    /** `NodeHeap(aHeap)`: arranges the given entries into a heap. */
    constructor FromList(aHeap: seq<DistNode>)
      ensures Valid()
      ensures multiset(heap) == multiset(aHeap) && |heap| == |aHeap|
    {
      heap := aHeap;
      new;
      BuildHeap();
    }

    /** `leftChild`: slot `2 * index + 1`, or the sentinel when that is past the end. */
    function LeftChild(index: int): (r: int)
      reads this`heap
      requires index >= 0
      ensures r == -1 <==> 2 * index + 1 >= |heap|
      ensures r != -1 ==> r < |heap| && Parent(r) == index && r == 2 * index + 1
    {
      var leftIndex := index * 2 + 1;
      if leftIndex >= |heap| then -1 else leftIndex
    }

    /** `rightChild`: slot `2 * index + 2`, or the sentinel when that is past the end. */
    function RightChild(index: int): (r: int)
      reads this`heap
      requires index >= 0
      ensures r == -1 <==> 2 * index + 2 >= |heap|
      ensures r != -1 ==> r < |heap| && Parent(r) == index && r == 2 * index + 2
    {
      var rightIndex := index * 2 + 2;
      if rightIndex >= |heap| then -1 else rightIndex
    }

    /**
     * The child `downwardReheapify` compares slot `index` with: the sentinel when there
     * is no left child, the left child when it is the only one, and otherwise the
     * lighter of the two, the right one when their keys are equal.
     */
    function MinChild(index: nat): (m: int)
      reads this`heap
      ensures m == -1 <==> 2 * index + 1 >= |heap|
      ensures m != -1 ==> m < |heap| && Parent(m) == index
      ensures m != -1 ==> forall k :: 0 < k < |heap| && Parent(k) == index ==> heap[m].dist <= heap[k].dist
      ensures 2 * index + 2 < |heap| && heap[2 * index + 1].dist == heap[2 * index + 2].dist ==> m == 2 * index + 2
    {
      var leftIndex := LeftChild(index);
      var rightIndex := RightChild(index);
      if leftIndex == sentinel then -1
      else if rightIndex == sentinel then leftIndex
      else
        var leftChild := heap[leftIndex].dist;
        var rightChild := heap[rightIndex].dist;
        if leftChild < rightChild then leftIndex else rightIndex
    }

    function Size(): (r: nat)
      reads this`heap
    {
      |heap|
    }

    function IsEmpty(): (r: bool)
      reads this`heap
      ensures r <==> Size() == 0
    {
      heap == []
    }

    /** Some entry holds `n` (by reference). */
    ghost predicate Holds(n: Node)
      reads this`heap
    {
      exists k :: 0 <= k < |heap| && heap[k].node == n
    }

    /** `swap`: exchanges two slots, losing and duplicating nothing. */
    method Swap(index1: nat, index2: nat)
      requires index1 < |heap| && index2 < |heap|
      modifies this`heap
      ensures heap == Swapped(old(heap), index1, index2)
      ensures multiset(heap) == multiset(old(heap))
    {
      var light := heap[index2];
      var heavy := heap[index1];
      heap := heap[index1 := light];
      heap := heap[index2 := heavy];
    }

    /**
     * `upwardReheapify`: moves the entry at `i` up while it is strictly lighter than
     * its parent. Given order everywhere but between `i` and its parent, it leaves a
     * heap with the same entries.
     */
    method UpwardReheapify(i: nat)
      requires i < |heap| && OrderedAbove(heap, i)
      modifies this`heap
      ensures IsHeap(heap)
      ensures multiset(heap) == multiset(old(heap)) && |heap| == |old(heap)|
    {
      var j := i;
      var index1 := Parent(j);
      while heap[j].dist < heap[index1].dist
        invariant j < |heap| == |old(heap)| && index1 == Parent(j) && 0 <= index1 <= j
        invariant OrderedAbove(heap, j)
        invariant multiset(heap) == multiset(old(heap))
        decreases j
      {
        SiftUpStep(heap, j);
        Swap(index1, j);
        j := index1;
        index1 := Parent(j);
      }
    }

    /**
     * `downwardReheapify`: while `i` has a child, picks the lighter child (the right
     * one when both keys are equal) and swaps it with `i` when `i`'s key is greater
     * than or equal to it. Given order from `lo` on except under `i`, it leaves order
     * from `lo` on with the same entries. When all keys are equal, the entry that
     * started at `i` sinks all the way to a slot without children.
     */
    method DownwardReheapify(i: nat, ghost lo: nat)
      requires lo <= i
      requires OrderedBelow(heap, lo, i) && Bridged(heap, lo, i)
      modifies this`heap
      ensures OrderedBelow(heap, lo, -1)
      ensures multiset(heap) == multiset(old(heap)) && |heap| == |old(heap)|
      ensures AllKeysEqual(old(heap)) && i < |heap| ==>
                exists p :: i <= p < |heap| && heap[p] == old(heap)[i] && 2 * p + 1 >= |heap|
    {
      var j := i;
      ghost var flat := AllKeysEqual(heap) && i < |heap|;
      while j < |heap|
        invariant lo <= j && |heap| == |old(heap)|
        invariant OrderedBelow(heap, lo, j) && Bridged(heap, lo, j)
        invariant multiset(heap) == multiset(old(heap))
        invariant flat ==> i <= j < |heap| && heap[j] == old(heap)[i] && KeysAre(heap, old(heap)[i].dist)
        decreases |heap| - j
      {
        var minIndex := MinChild(j);
        if minIndex == sentinel {
          NoChildren(heap, j);
          break;
        }
        var child := heap[minIndex];
        var parent := heap[j];
        if flat {
          assert parent.dist == child.dist;
          SwappedKeysAre(heap, j, minIndex, old(heap)[i].dist);
        }
        if parent.dist >= child.dist {
          SiftDownStep(heap, lo, j, minIndex);
          Swap(j, minIndex);
          j := minIndex;
        } else {
          SiftDownDone(heap, lo, j);
          break;
        }
      }
    }

    /** `buildHeap`: sifts down every slot that has a child, last such slot first. */
    method BuildHeap()
      modifies this`heap
      ensures IsHeap(heap)
      ensures multiset(heap) == multiset(old(heap)) && |heap| == |old(heap)|
    {
      var i := |heap| / 2 - 1;
      while i >= 0
        invariant -1 <= i < |heap|
        invariant OrderedBelow(heap, i + 1, -1)
        invariant multiset(heap) == multiset(old(heap)) && |heap| == |old(heap)|
      {
        DownwardReheapify(i, i);
        i := i - 1;
      }
    }

    /** `add`: inserts `n` with key -1 and sifts it up. */
    method Add(n: Node)
      requires Valid()
      modifies this`heap
      ensures Valid() && Holds(n)
      ensures multiset(heap) == multiset(old(heap)) + multiset{DistNode(n, -1.0)}
      ensures |heap| == |old(heap)| + 1
    {
      heap := heap + [DistNode(n, -1.0)];
      UpwardReheapify(|heap| - 1);
      assert DistNode(n, -1.0) in multiset(heap);
    }

    /**
     * `removeMin`: `None` (Java `null`) on an empty heap, which stays empty.
     * Otherwise returns the root's node, which carries the smallest key, and
     * removes exactly that entry, keeping a heap.
     */
    method RemoveMin() returns (r: Option<Node>)
      requires Valid()
      modifies this`heap
      ensures Valid()
      ensures old(heap) == [] ==> r == None && heap == []
      ensures old(heap) != [] ==>
                && r == Some(old(heap)[0].node)
                && (forall k :: 0 <= k < |old(heap)| ==> old(heap)[0].dist <= old(heap)[k].dist)
                && multiset(heap) == multiset(old(heap)) - multiset{old(heap)[0]}
                && |heap| == |old(heap)| - 1
    {
      if heap == [] {
        return None;
      }
      forall k | 0 <= k < |heap| ensures heap[0].dist <= heap[k].dist {
        HeapRootIsMin(heap, k);
      }
      var toReturn := heap[0].node;
      var lastV := heap[|heap| - 1];
      ReplaceRootByLast(heap);
      heap := heap[0 := lastV];
      heap := heap[..|heap| - 1];
      DownwardReheapify(0, 0);
      r := Some(toReturn);
    }

    /** `contains`: scans the entries for one holding `n`. */
    method Contains(n: Node) returns (b: bool)
      ensures b <==> Holds(n)
    {
      var t := 0;
      while t < |heap|
        invariant t <= |heap|
        invariant forall j :: 0 <= j < t ==> heap[j].node != n
      {
        if heap[t].node == n {
          return true;
        }
        t := t + 1;
      }
      return false;
    }

    /**
     * `get`: the key of the first entry holding `n`, or -1 when none does, which
     * cannot be told apart from the key -1 that `add` stores.
     */
    method Get(n: Node) returns (d: real)
      ensures d == KeyOf(heap, n)
    {
      var t := 0;
      while t < |heap|
        invariant t <= |heap|
        invariant KeyOf(heap[t..], n) == KeyOf(heap, n)
      {
        if heap[t].node == n {
          return heap[t].dist;
        }
        assert heap[t..][1..] == heap[t + 1..];
        t := t + 1;
      }
      return -1.0;
    }
  }
}
