/**
 The min-heap of expiry nodes behind the revocation store: the sifting loops of the Go
 package container/heap, run over the `revocationExpiryHeap` slice ordered by `expiresAt`.
 The slice is a sequence that the loops reassign.
 */
module ExpiryHeap {
  datatype ExpiryNode = ExpiryNode(id: string, expiresAt: int, generation: nat)

  predicate Less(a: ExpiryNode, b: ExpiryNode) {
    a.expiresAt < b.expiresAt
  }

  function Parent(i: nat): nat
    requires i > 0
  {
    (i - 1) / 2
  }

  function Swap(h: seq<ExpiryNode>, i: nat, j: nat): (r: seq<ExpiryNode>)
    requires i < |h| && j < |h|
  {
    h[i := h[j]][j := h[i]]
  }

  /** No node is before its parent. */
  ghost predicate IsHeap(h: seq<ExpiryNode>) {
    forall i :: 0 < i < |h| ==> !Less(h[i], h[Parent(i)])
  }

  /** A heap except that the node at `bad` may be before its parent. */
  ghost predicate HeapExceptAbove(h: seq<ExpiryNode>, bad: nat) {
    && (forall i :: 0 < i < |h| && i != bad ==> !Less(h[i], h[Parent(i)]))
    && (forall i :: 0 < i < |h| && bad > 0 && Parent(i) == bad ==> !Less(h[i], h[Parent(bad)]))
  }

  /** From index `lo` on, a heap over the first `n` nodes except that `bad` may be after its children. */
  ghost predicate HeapExceptBelow(h: seq<ExpiryNode>, n: nat, lo: nat, bad: nat)
    requires n <= |h|
  {
    && (forall i :: 0 < i < n && lo <= Parent(i) && Parent(i) != bad ==> !Less(h[i], h[Parent(i)]))
    && (forall i :: 0 < i < n && lo < bad && lo <= Parent(bad) && Parent(i) == bad ==> !Less(h[i], h[Parent(bad)]))
  }

  ghost predicate HeapFrom(h: seq<ExpiryNode>, n: nat, lo: nat)
    requires n <= |h|
  {
    forall i :: 0 < i < n && lo <= Parent(i) ==> !Less(h[i], h[Parent(i)])
  }

  /** The root of a heap is one of its earliest nodes. */
  lemma {:induction false} RootIsEarliest(h: seq<ExpiryNode>, i: nat)
    requires IsHeap(h) && i < |h|
    ensures h[0].expiresAt <= h[i].expiresAt
    decreases i
  {
    if i > 0 {
      RootIsEarliest(h, Parent(i));
    }
  }

  lemma SwapKeepsNodes(h: seq<ExpiryNode>, i: nat, j: nat)
    requires i < |h| && j < |h|
    ensures multiset(Swap(h, i, j)) == multiset(h)
  {
  }

  /** One step up: after swapping with the parent, only the parent's place is in doubt. */
  lemma UpStep(h: seq<ExpiryNode>, j: nat)
    requires 0 < j < |h| && HeapExceptAbove(h, j) && Less(h[j], h[Parent(j)])
    ensures HeapExceptAbove(Swap(h, Parent(j), j), Parent(j))
  {
    var i := Parent(j);
    var s := Swap(h, i, j);
    forall k | 0 < k < |s| && k != i
      ensures !Less(s[k], s[Parent(k)])
    {
      if k != j && Parent(k) != i && Parent(k) != j {
        assert !Less(h[k], h[Parent(k)]);
      } else if k != j {
        assert !Less(h[k], h[i]);
      }
    }
    forall k | 0 < k < |s| && i > 0 && Parent(k) == i
      ensures !Less(s[k], s[Parent(i)])
    {
      assert !Less(h[i], h[Parent(i)]);
      if k != j {
        assert !Less(h[k], h[i]);
      }
    }
  }

  /** Moves the node at `start` up to its place. */
  method Up(nodes: seq<ExpiryNode>, start: nat) returns (h: seq<ExpiryNode>)
    requires start < |nodes| && HeapExceptAbove(nodes, start)
    ensures IsHeap(h) && multiset(h) == multiset(nodes)
  {
    h := nodes;
    var j: nat := start;
    while j > 0 && Less(h[j], h[Parent(j)])
      invariant j < |h| && HeapExceptAbove(h, j)
      invariant multiset(h) == multiset(nodes)
    {
      var i := Parent(j);
      SwapKeepsNodes(h, i, j);
      UpStep(h, j);
      h := Swap(h, i, j);
      j := i;
    }
  }

  /** One step down: after swapping with the earlier child, only that child's place is in doubt. */
  lemma DownStep(h: seq<ExpiryNode>, n: nat, lo: nat, i: nat, j: nat)
    requires n <= |h| && lo <= i && HeapExceptBelow(h, n, lo, i)
    requires 0 < j < n && Parent(j) == i && Less(h[j], h[i])
    requires forall k :: 0 < k < n && Parent(k) == i ==> !Less(h[k], h[j])
    ensures HeapExceptBelow(Swap(h, i, j), n, lo, j)
  {
    var s := Swap(h, i, j);
    forall k | 0 < k < n && lo <= Parent(k) && Parent(k) != j
      ensures !Less(s[k], s[Parent(k)])
    {
      if k == i {
        assert !Less(h[j], h[Parent(i)]);
      } else if Parent(k) == i {
        assert !Less(h[k], h[j]);
      } else {
        assert !Less(h[k], h[Parent(k)]);
      }
    }
    forall k | 0 < k < n && lo <= Parent(j) && Parent(k) == j
      ensures !Less(s[k], s[Parent(j)])
    {
      assert !Less(h[k], h[Parent(k)]);
    }
  }

  /** Nothing is in doubt once no child is before the node. */
  lemma DownDone(h: seq<ExpiryNode>, n: nat, lo: nat, i: nat)
    requires n <= |h| && HeapExceptBelow(h, n, lo, i)
    requires forall k :: 0 < k < n && Parent(k) == i ==> !Less(h[k], h[i])
    ensures HeapFrom(h, n, lo)
  {
  }

  /** The child to compare with: the earlier one, the left one on a tie. */
  function EarlierChild(h: seq<ExpiryNode>, n: nat, i: nat): (j: nat)
    requires 2 * i + 1 < n <= |h|
    ensures 0 < j < n && Parent(j) == i
    ensures forall k :: 0 < k < n && Parent(k) == i ==> !Less(h[k], h[j])
  {
    if 2 * i + 2 < n && Less(h[2 * i + 2], h[2 * i + 1]) then 2 * i + 2 else 2 * i + 1
  }

  /** Moves the node at `start` down to its place among the first `n` nodes; the rest stay put. */
  method Down(nodes: seq<ExpiryNode>, start: nat, n: nat) returns (h: seq<ExpiryNode>)
    requires start <= n <= |nodes| && HeapFrom(nodes, n, start + 1)
    ensures |h| == |nodes| && HeapFrom(h, n, start)
    ensures forall k :: n <= k < |h| ==> h[k] == nodes[k]
    ensures multiset(h) == multiset(nodes)
  {
    h := nodes;
    var i: nat := start;
    while 2 * i + 1 < n
      invariant start <= i && |h| == |nodes|
      invariant forall k :: n <= k < |h| ==> h[k] == nodes[k]
      invariant HeapExceptBelow(h, n, start, i)
      invariant multiset(h) == multiset(nodes)
      decreases n - i
    {
      var j := EarlierChild(h, n, i);
      if !Less(h[j], h[i]) {
        break;
      }
      SwapKeepsNodes(h, i, j);
      DownStep(h, n, start, i, j);
      h := Swap(h, i, j);
      i := j;
    }
    DownDone(h, n, start, i);
  }

  /** `heap.Push`: append, then move the new node up. */
  method Push(nodes: seq<ExpiryNode>, x: ExpiryNode) returns (h: seq<ExpiryNode>)
    requires IsHeap(nodes)
    ensures IsHeap(h) && multiset(h) == multiset(nodes) + multiset{x}
  {
    h := Up(nodes + [x], |nodes|);
  }

  /** `heap.Pop`: swap the root with the last node, move it down, cut the last node off. */
  method Pop(nodes: seq<ExpiryNode>) returns (h: seq<ExpiryNode>, x: ExpiryNode)
    requires IsHeap(nodes) && |nodes| > 0
    ensures IsHeap(h) && x == nodes[0] && multiset(nodes) == multiset(h) + multiset{x}
  {
    var n := |nodes| - 1;
    SwapKeepsNodes(nodes, 0, n);
    var down := Down(Swap(nodes, 0, n), 0, n);
    assert down == down[..n] + [down[n]];
    h, x := down[..n], down[n];
  }

  /** `heap.Init`: order an arbitrary slice bottom up. */
  method Init(nodes: seq<ExpiryNode>) returns (h: seq<ExpiryNode>)
    ensures IsHeap(h) && multiset(h) == multiset(nodes)
  {
    h := nodes;
    var i: nat := |nodes| / 2;
    while i > 0
      invariant |h| == |nodes| && i <= |nodes|
      invariant HeapFrom(h, |h|, i) && multiset(h) == multiset(nodes)
    {
      i := i - 1;
      h := Down(h, i, |h|);
    }
  }
}
