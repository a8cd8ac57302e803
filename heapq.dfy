/**
 * The binary-heap algorithms of Python's heapq module, as used by
 * PriorityQueue: a heap is a sequence of (priority, item) entries in which
 * every entry's priority is at least its parent's, the parent of index k > 0
 * being (k - 1) / 2. Entries are compared by priority alone.
 *
 * heapq moves a "hole" instead of swapping; the layout it produces is the
 * same as the swap form used here.
 */
module Heapq {

  /** One stored (f(x), x) pair of a priority queue. */
  datatype Entry<T> = Entry(priority: int, item: T)

  ghost predicate IsHeap<T>(h: seq<Entry<T>>)
  {
    forall p, k :: 0 <= p < |h| && 0 < k < |h| && p == (k - 1) / 2 ==>
      h[p].priority <= h[k].priority
  }

  /** Every parent-child edge whose parent index is at least lo is ordered,
      except the edge that leads into index `hole`. */
  ghost predicate OrderedFrom<T>(h: seq<Entry<T>>, lo: nat, hole: int)
  {
    forall p, k :: lo <= p < |h| && 0 < k < |h| && p == (k - 1) / 2 && k != hole ==>
      h[p].priority <= h[k].priority
  }

  /** Like OrderedFrom, but neither the edge into `hole` nor the edges out of
      it need be ordered. */
  ghost predicate OrderedAroundHole<T>(h: seq<Entry<T>>, lo: nat, hole: nat)
  {
    forall p, k :: lo <= p < |h| && 0 < k < |h| && p == (k - 1) / 2 && k != hole && p != hole ==>
      h[p].priority <= h[k].priority
  }

  /** When `hole` lies strictly below lo, the entry above the hole is no
      greater than the entries below it. */
  ghost predicate Bridged<T>(h: seq<Entry<T>>, lo: nat, hole: nat)
    requires hole < |h|
  {
    lo < hole ==>
      forall k :: 0 < k < |h| && (k - 1) / 2 == hole ==>
        h[(hole - 1) / 2].priority <= h[k].priority
  }

  /** Index i lies in the subtree rooted at index lo. */
  ghost predicate InSubtree(lo: nat, i: nat)
    decreases i
  {
    i == lo || (lo < i && InSubtree(lo, (i - 1) / 2))
  }

  function Swap<T>(h: seq<T>, i: nat, j: nat): (r: seq<T>)
    requires i < |h| && j < |h|
    ensures |r| == |h| && r[i] == h[j] && r[j] == h[i]
    ensures forall m :: 0 <= m < |h| && m != i && m != j ==> r[m] == h[m]
    ensures multiset(r) == multiset(h)
  {
    h[i := h[j]][j := h[i]]
  }

  /**
   * heapq._siftdown(heap, lo, pos): moves the entry at pos towards the root,
   * past every ancestor with a larger priority, stopping at index lo.
   */
  method SiftUp<T>(h: seq<Entry<T>>, lo: nat, pos: nat) returns (r: seq<Entry<T>>)
    requires lo <= pos < |h| && InSubtree(lo, pos)
    requires OrderedFrom(h, lo, pos) && Bridged(h, lo, pos)
    ensures |r| == |h| && multiset(r) == multiset(h)
    ensures OrderedFrom(r, lo, -1)
  {
    r := h;
    var i := pos;
    while lo < i
      invariant lo <= i < |r| && InSubtree(lo, i)
      invariant |r| == |h| && multiset(r) == multiset(h)
      invariant OrderedFrom(r, lo, i) && Bridged(r, lo, i)
      decreases i
    {
      var p := (i - 1) / 2;
      if r[i].priority < r[p].priority {
        SiftUpStep(r, lo, i);
        r := Swap(r, i, p);
        i := p;
      } else {
        break;
      }
    }
  }

  /**
   * heapq._siftup(heap, lo): the entry at lo may be out of place while the
   * subtrees below it are heaps. The hole at lo is walked down to a leaf,
   * always lifting the smaller child (the right one on a tie), and the entry
   * is then sifted back up, no further than lo.
   */
  method SiftDown<T>(h: seq<Entry<T>>, lo: nat) returns (r: seq<Entry<T>>)
    requires lo < |h|
    requires OrderedFrom(h, lo + 1, -1)
    ensures |r| == |h| && multiset(r) == multiset(h)
    ensures OrderedFrom(r, lo, -1)
  {
    r := h;
    var i := lo;
    var c := 2 * i + 1;
    while c < |r|
      invariant lo <= i < |r| && InSubtree(lo, i) && c == 2 * i + 1
      invariant |r| == |h| && multiset(r) == multiset(h)
      invariant OrderedAroundHole(r, lo, i) && Bridged(r, lo, i)
      decreases |r| - i
    {
      if c + 1 < |r| && !(r[c].priority < r[c + 1].priority) {
        c := c + 1;
      }
      forall k | 0 < k < |r| && (k - 1) / 2 == i ensures r[c].priority <= r[k].priority {
        assert k == 2 * i + 1 || k == 2 * i + 2;
      }
      SiftDownStep(r, lo, i, c);
      r := Swap(r, i, c);
      i := c;
      c := 2 * i + 1;
    }
    assert OrderedFrom(r, lo, i);
    r := SiftUp(r, lo, i);
  }

  /** One step of SiftUp: swapping the hole with its larger parent moves the
      hole up one level. */
  lemma SiftUpStep<T>(r: seq<Entry<T>>, lo: nat, i: nat)
    requires lo < i < |r| && InSubtree(lo, i)
    requires OrderedFrom(r, lo, i) && Bridged(r, lo, i)
    requires r[i].priority < r[(i - 1) / 2].priority
    ensures OrderedFrom(Swap(r, i, (i - 1) / 2), lo, (i - 1) / 2)
    ensures Bridged(Swap(r, i, (i - 1) / 2), lo, (i - 1) / 2)
  {
    var p := (i - 1) / 2;
    assert InSubtree(lo, p);
    SiftUpStepOrdered(r, lo, i, p);
    if lo < p {
      SiftUpStepBridged(r, lo, i, p);
    }
  }

  lemma SiftUpStepOrdered<T>(r: seq<Entry<T>>, lo: nat, i: nat, p: nat)
    requires lo <= p < i < |r| && p == (i - 1) / 2
    requires OrderedFrom(r, lo, i) && Bridged(r, lo, i)
    requires r[i].priority < r[p].priority
    ensures OrderedFrom(Swap(r, i, p), lo, p)
  {
    var s := Swap(r, i, p);
    forall q, k | lo <= q < |s| && 0 < k < |s| && q == (k - 1) / 2 && k != p
      ensures s[q].priority <= s[k].priority
    {
      if q == p {
        if k != i {
          assert s[q] == r[i] && s[k] == r[k];
          assert r[p].priority <= r[k].priority;
        }
      } else if q == i {
        assert s[q] == r[p] && s[k] == r[k];
        assert r[p].priority <= r[k].priority;
      } else if k == i {
        assert false;
      } else {
        assert s[q] == r[q] && s[k] == r[k];
      }
    }
  }

  lemma SiftUpStepBridged<T>(r: seq<Entry<T>>, lo: nat, i: nat, p: nat)
    requires lo < p < i < |r| && p == (i - 1) / 2 && InSubtree(lo, p)
    requires OrderedFrom(r, lo, i)
    requires r[i].priority < r[p].priority
    ensures Bridged(Swap(r, i, p), lo, p)
  {
    var s := Swap(r, i, p);
    var g := (p - 1) / 2;
    assert InSubtree(lo, g);
    assert r[g].priority <= r[p].priority;
    assert s[g] == r[g];
    forall k | 0 < k < |s| && (k - 1) / 2 == p
      ensures s[g].priority <= s[k].priority
    {
      if k != i {
        assert s[k] == r[k];
        assert r[p].priority <= r[k].priority;
      }
    }
  }

  /** One step of SiftDown's descent: lifting the smaller child c into the
      hole moves the hole down to c. */
  lemma SiftDownStep<T>(r: seq<Entry<T>>, lo: nat, i: nat, c: nat)
    requires lo <= i < c < |r| && InSubtree(lo, i) && (c - 1) / 2 == i
    requires OrderedAroundHole(r, lo, i) && Bridged(r, lo, i)
    requires forall k :: 0 < k < |r| && (k - 1) / 2 == i ==> r[c].priority <= r[k].priority
    ensures InSubtree(lo, c)
    ensures OrderedAroundHole(Swap(r, i, c), lo, c)
    ensures Bridged(Swap(r, i, c), lo, c)
  {
    var s := Swap(r, i, c);
    forall q, k | lo <= q < |s| && 0 < k < |s| && q == (k - 1) / 2 && k != c && q != c
      ensures s[q].priority <= s[k].priority
    {
      if k == i {
        assert lo < i;
        assert r[q].priority <= r[c].priority;
      } else if q == i {
        assert r[c].priority <= r[k].priority;
      }
    }
    forall k | 0 < k < |s| && (k - 1) / 2 == c
      ensures s[i].priority <= s[k].priority
    {
      assert r[c].priority <= r[k].priority;
    }
  }

  /** heapq.heappush: append the entry, then sift it up from the end. */
  method HeapPush<T>(h: seq<Entry<T>>, e: Entry<T>) returns (r: seq<Entry<T>>)
    requires IsHeap(h)
    ensures IsHeap(r)
    ensures |r| == |h| + 1 && multiset(r) == multiset(h) + multiset{e}
  {
    EveryIndexUnderRoot(|h|);
    r := SiftUp(h + [e], 0, |h|);
  }

  /** heapq.heappop: take the last entry off; if entries remain, it replaces
      the root, which is returned, and is sifted down from index 0. */
  method HeapPop<T>(h: seq<Entry<T>>) returns (e: Entry<T>, r: seq<Entry<T>>)
    requires IsHeap(h) && |h| > 0
    ensures e == h[0]
    ensures forall m :: 0 <= m < |h| ==> e.priority <= h[m].priority
    ensures IsHeap(r)
    ensures |r| == |h| - 1 && multiset(r) + multiset{e} == multiset(h)
  {
    var last := h[|h| - 1];
    r := h[..|h| - 1];
    assert h == r + [last];
    if |r| > 0 {
      e := r[0];
      r := SiftDown(r[0 := last], 0);
    } else {
      e := last;
    }
    forall m | 0 <= m < |h| ensures e.priority <= h[m].priority {
      RootIsMinimum(h, m);
    }
  }

  /** heapq.heapify: sift down every inner node, the last one first. */
  method Heapify<T>(h: seq<Entry<T>>) returns (r: seq<Entry<T>>)
    ensures IsHeap(r)
    ensures |r| == |h| && multiset(r) == multiset(h)
  {
    r := h;
    var i := |h| / 2;
    while i > 0
      invariant 0 <= i <= |h| / 2
      invariant |r| == |h| && multiset(r) == multiset(h)
      invariant OrderedFrom(r, i, -1)
    {
      i := i - 1;
      r := SiftDown(r, i);
    }
  }

  /** Every index lies in the subtree of the root. */
  lemma {:induction false} EveryIndexUnderRoot(i: nat)
    ensures InSubtree(0, i)
    decreases i
  {
    if i > 0 {
      EveryIndexUnderRoot((i - 1) / 2);
    }
  }

  /** The root of a heap holds a least priority. */
  lemma {:induction false} RootIsMinimum<T>(h: seq<Entry<T>>, k: nat)
    requires IsHeap(h) && k < |h|
    ensures h[0].priority <= h[k].priority
    decreases k
  {
    if k > 0 {
      RootIsMinimum(h, (k - 1) / 2);
    }
  }
}
