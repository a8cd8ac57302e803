/**
 * PriorityQueue of utils.py: a list of (f(x), x) entries kept in heap order,
 * from which the item with the least stored priority is popped first. With
 * order "max" the stored priority is -f(x), so the item with the largest
 * f(x) comes first. The queue also answers dict-like lookups by item.
 */
module PriorityQueues {
  import opened Results
  import opened Heapq

  datatype Order = Min | Max

  /** The exceptions the queue raises. */
  datatype QueueError =
    | ValueError   // an order other than "min" or "max"
    | EmptyQueue   // pop on an empty queue
    | KeyError     // lookup or deletion of an item that is not stored

  /** The order argument of the constructor, checked. */
  function ParseOrder(order: string): (r: Result<Order, QueueError>)
    ensures r == Ok(Min) <==> order == "min"
    ensures r == Ok(Max) <==> order == "max"
    ensures r.Err? <==> order != "min" && order != "max"
    ensures r.Err? ==> r.error == ValueError
  {
    if order == "min" then Ok(Min)
    else if order == "max" then Ok(Max)
    else Err(ValueError)
  }

  /** The list [item == key for _, item in heap], where `eq` is the items'
      own equality. */
  function Matches<T>(h: seq<Entry<T>>, key: T, eq: (T, T) -> bool): (m: seq<bool>)
    ensures |m| == |h|
    ensures forall i :: 0 <= i < |h| ==> m[i] == eq(h[i].item, key)
  {
    if h == [] then [] else [eq(h[0].item, key)] + Matches(h[1..], key, eq)
  }

  /** Python's any() over a list of booleans. */
  function Any(m: seq<bool>): (b: bool)
    ensures b <==> exists i :: 0 <= i < |m| && m[i]
  {
    if m == [] then false else m[0] || Any(m[1..])
  }

  /** list.index(True): the first position holding True, or ValueError. */
  function IndexOfTrue(m: seq<bool>): (r: Result<nat, QueueError>)
    ensures r.Ok? <==> exists i :: 0 <= i < |m| && m[i]
    ensures r.Ok? ==> r.value < |m| && m[r.value] && forall j :: 0 <= j < r.value ==> !m[j]
    ensures r.Err? ==> r.error == ValueError
  {
    if m == [] then Err(ValueError)
    else if m[0] then Ok(0)
    else match IndexOfTrue(m[1..])
      case Ok(i) => Ok(i + 1)
      case Err(e) => Err(e)
  }

  /** The entries append(x) stores for each x of items, in order. */
  function EntriesFor<T>(f: T -> int, items: seq<T>): (r: seq<Entry<T>>)
    ensures |r| == |items|
    ensures forall i :: 0 <= i < |items| ==> r[i] == Entry(f(items[i]), items[i])
  {
    if items == [] then []
    else EntriesFor(f, items[..|items| - 1]) + [Entry(f(items[|items| - 1]), items[|items| - 1])]
  }

  /** The sequence with its entry at index i deleted. */
  function RemoveAt<T>(h: seq<T>, i: nat): (r: seq<T>)
    requires i < |h|
    ensures |r| == |h| - 1
    ensures multiset(r) == multiset(h) - multiset{h[i]}
  {
    assert h == h[..i] + [h[i]] + h[i + 1..];
    h[..i] + h[i + 1..]
  }

  class PriorityQueue<T> {
    /** The (priority, item) entries, in heap order. */
    var heap: seq<Entry<T>>
    /** The priority function: f itself for "min", x => -f(x) for "max". */
    const f: T -> int
    /** The items' `==`. It may equate items that f tells apart (two search
        nodes for one state, reached at different costs), so equal items can
        be stored with different priorities. */
    const eq: (T, T) -> bool

    /** Heap order holds, and every stored priority is f of its item. */
    ghost predicate Valid()
      reads this
    {
      IsHeap(heap) && forall e | e in multiset(heap) :: e.priority == f(e.item)
    }

    constructor (order: Order, g: T -> int, itemEq: (T, T) -> bool)
      ensures Valid() && heap == [] && eq == itemEq
      ensures forall x :: f(x) == if order == Min then g(x) else -g(x)
    {
      heap := [];
      eq := itemEq;
      if order == Min {
        f := g;
      } else {
        f := x => -g(x);
      }
    }

    /** PriorityQueue(order, f): raises ValueError unless order is "min" or "max". */
    static method Create(order: string, g: T -> int, itemEq: (T, T) -> bool)
      returns (r: Result<PriorityQueue<T>, QueueError>)
      ensures r.Err? <==> order != "min" && order != "max"
      ensures r.Err? ==> r.error == ValueError
      ensures r.Ok? ==> fresh(r.value) && r.value.Valid() && r.value.heap == [] && r.value.eq == itemEq
      ensures r.Ok? ==> forall x :: r.value.f(x) == if order == "min" then g(x) else -g(x)
    {
      var o := ParseOrder(order);
      match o
      case Err(e) =>
        r := Err(e);
      case Ok(ord) =>
        var q := new PriorityQueue(ord, g, itemEq);
        r := Ok(q);
    }

    /** Stores one more entry, (f(item), item); f is evaluated once, here. */
    method Append(item: T)
      requires Valid()
      modifies this
      ensures Valid()
      ensures multiset(heap) == old(multiset(heap)) + multiset{Entry(f(item), item)}
      ensures |heap| == old(|heap|) + 1
    {
      heap := HeapPush(heap, Entry(f(item), item));
    }

    /** Appends each item in turn. */
    method Extend(items: seq<T>)
      requires Valid()
      modifies this
      ensures Valid()
      ensures multiset(heap) == old(multiset(heap)) + multiset(EntriesFor(f, items))
      ensures |heap| == old(|heap|) + |items|
    {
      ghost var start := multiset(heap);
      var i := 0;
      while i < |items|
        invariant 0 <= i <= |items| && Valid()
        invariant multiset(heap) == start + multiset(EntriesFor(f, items[..i]))
        invariant |heap| == old(|heap|) + i
      {
        ghost var added := EntriesFor(f, items[..i]);
        assert items[..i + 1][..i] == items[..i];
        assert EntriesFor(f, items[..i + 1]) == added + [Entry(f(items[i]), items[i])];
        Append(items[i]);
        i := i + 1;
      }
      assert items[..i] == items;
    }

    /** Removes and returns the item of an entry with the least stored
        priority; on an empty queue raises and leaves it empty. */
    method Pop() returns (r: Result<T, QueueError>)
      requires Valid()
      modifies this
      ensures Valid()
      ensures old(heap) == [] ==> r == Err(EmptyQueue) && heap == []
      ensures old(heap) != [] ==>
        && r == Ok(old(heap)[0].item)
        && (forall e | e in old(heap) :: old(heap)[0].priority <= e.priority)
        && multiset(heap) == old(multiset(heap)) - multiset{old(heap)[0]}
        && |heap| == old(|heap|) - 1
    {
      if heap != [] {
        var e, rest := HeapPop(heap);
        heap := rest;
        r := Ok(e.item);
      } else {
        r := Err(EmptyQueue);
      }
    }

    /** The number of stored entries. */
    function Len(): (n: nat)
      reads this
      ensures n == |heap|
      ensures n == 0 <==> heap == []
    {
      |heap|
    }

    /** key in queue: some stored entry's item equals key. */
    function Contains(key: T): (b: bool)
      reads this
      ensures b <==> exists i :: 0 <= i < |heap| && eq(heap[i].item, key)
    {
      Any(Matches(heap, key, eq))
    }

    /** queue[key]: the priority stored with the first entry whose item
        equals key, or KeyError. */
    method Get(key: T) returns (r: Result<int, QueueError>)
      ensures r.Ok? <==> Contains(key)
      ensures r.Err? ==> r.error == KeyError
      ensures r.Ok? ==>
        exists i :: 0 <= i < |heap| && eq(heap[i].item, key) && heap[i].priority == r.value &&
          forall j :: 0 <= j < i ==> !eq(heap[j].item, key)
    {
      var i := 0;
      while i < |heap|
        invariant 0 <= i <= |heap|
        invariant forall j :: 0 <= j < i ==> !eq(heap[j].item, key)
      {
        if eq(heap[i].item, key) {
          return Ok(heap[i].priority);
        }
        i := i + 1;
      }
      return Err(KeyError);
    }

    /** del queue[key]: deletes the first entry whose item equals key and
        restores heap order, or raises KeyError and changes nothing. */
    method Delete(key: T) returns (r: Outcome<QueueError>)
      requires Valid()
      modifies this
      ensures Valid()
      ensures r.Fail? <==> !old(Contains(key))
      ensures r.Fail? ==> r.error == KeyError && heap == old(heap)
      ensures r.Pass? ==>
        exists i :: 0 <= i < |old(heap)| && eq(old(heap)[i].item, key) &&
          (forall j :: 0 <= j < i ==> !eq(old(heap)[j].item, key)) &&
          multiset(heap) == old(multiset(heap)) - multiset{old(heap)[i]}
      ensures r.Pass? ==> |heap| == old(|heap|) - 1
    {
      match IndexOfTrue(Matches(heap, key, eq))
      case Err(_) =>
        r := Fail(KeyError);
      case Ok(i) =>
        heap := Heapify(RemoveAt(heap, i));
        r := Pass;
    }
  }

  /** With order "max" the queue's first item has the largest g(x). */
  lemma MaxOrderPopsLargest<T>(q: PriorityQueue<T>, g: T -> int)
    requires q.Valid() && q.heap != []
    requires forall x :: q.f(x) == -g(x)
    ensures forall e | e in q.heap :: g(e.item) <= g(q.heap[0].item)
  {
    forall e | e in q.heap ensures g(e.item) <= g(q.heap[0].item) {
      var k :| 0 <= k < |q.heap| && q.heap[k] == e;
      RootIsMinimum(q.heap, k);
    }
  }
}
