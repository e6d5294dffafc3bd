/**
 * The bounded top-K selector: a max-heap of capacity RETRIEVE_KNN holding
 * (distance, code) nodes. A push to a full heap evicts the maximum only for a
 * strictly smaller node; `sorted` hands the contents back closest first.
 */
module MaxHeap {
  import opened Params
  import opened PrimitiveTypes

  /**
   * `HeapNode`: a distance that is never NaN, and the code it belongs to. The
   * derived ordering and equality look at `distance` only, so every
   * comparison below is on `.distance`.
   */
  datatype HeapNode = HeapNode(distance: real, code: PqCode)

  /** `Result<(), HeapNode>`: a rejected node comes back in the error. */
  datatype PushResult = Ok | Err(rejected: HeapNode)

  /**
   * The first position holding a node of maximal distance. `pop` takes a node
   * of maximal distance; among equal maxima the model evicts this one.
   */
  function MaxIndex(items: seq<HeapNode>): (j: nat)
    requires |items| > 0
    ensures j < |items|
    ensures forall i :: 0 <= i < |items| ==> items[i].distance <= items[j].distance
  {
    if |items| == 1 then 0
    else
      var k := MaxIndex(items[1..]) + 1;
      assert forall i :: 1 <= i < |items| ==> items[i] == items[1..][i - 1];
      if items[0].distance >= items[k].distance then 0 else k
  }

  /** The largest distance held. */
  function MaxDistance(items: seq<HeapNode>): (d: real)
    requires |items| > 0
    ensures forall i :: 0 <= i < |items| ==> items[i].distance <= d
    ensures exists i :: 0 <= i < |items| && items[i].distance == d
  {
    items[MaxIndex(items)].distance
  }

  function RemoveAt(items: seq<HeapNode>, j: nat): (r: seq<HeapNode>)
    requires j < |items|
    ensures |r| == |items| - 1
    ensures multiset(r) == multiset(items) - multiset{items[j]}
    ensures forall a :: a in r ==> a in items
  {
    assert items == items[..j] + [items[j]] + items[j + 1..];
    items[..j] + items[j + 1..]
  }

  /**
   * What `push` leaves in the heap: with spare capacity the node goes in; a
   * full heap trades a node of maximal distance (the first one, `MaxIndex`)
   * for a strictly smaller node and otherwise stays as it is.
   */
  function PushSpec(items: seq<HeapNode>, item: HeapNode): (r: seq<HeapNode>)
    requires |items| <= RETRIEVE_KNN
    ensures |r| <= RETRIEVE_KNN
  {
    if |items| < RETRIEVE_KNN then items + [item]
    else if MaxDistance(items) > item.distance then RemoveAt(items, MaxIndex(items)) + [item]
    else items
  }

  /** The node a push discards: none, the evicted maximum, or the pushed node itself. */
  function Dropped(items: seq<HeapNode>, item: HeapNode): seq<HeapNode>
    requires |items| <= RETRIEVE_KNN
  {
    if |items| < RETRIEVE_KNN then []
    else if MaxDistance(items) > item.distance then [items[MaxIndex(items)]]
    else [item]
  }

  /** The heap after pushing `xs` in order. */
  function PushAll(items: seq<HeapNode>, xs: seq<HeapNode>): (r: seq<HeapNode>)
    requires |items| <= RETRIEVE_KNN
    ensures |r| <= RETRIEVE_KNN
    decreases |xs|
  {
    if |xs| == 0 then items
    else PushAll(PushSpec(items, xs[0]), xs[1..])
  }

  /** Every node discarded while pushing `xs` in order. */
  function DroppedAll(items: seq<HeapNode>, xs: seq<HeapNode>): seq<HeapNode>
    requires |items| <= RETRIEVE_KNN
    decreases |xs|
  {
    if |xs| == 0 then []
    else Dropped(items, xs[0]) + DroppedAll(PushSpec(items, xs[0]), xs[1..])
  }

  function Min(a: nat, b: nat): nat
  {
    if a <= b then a else b
  }

  /** No kept node is farther than a discarded one. */
  predicate KeptBeforeDropped(kept: seq<HeapNode>, dropped: seq<HeapNode>)
  {
    forall a, b :: a in kept && b in dropped ==> a.distance <= b.distance
  }

  /**
   * The three cases of a push: a heap with room takes the node; a full heap
   * whose maximum is strictly farther loses one node of maximal distance and
   * takes the node, staying full; a full heap whose maximum is no farther
   * (ties included) is unchanged.
   */
  lemma PushSpecCases(items: seq<HeapNode>, item: HeapNode)
    requires |items| <= RETRIEVE_KNN
    ensures |items| < RETRIEVE_KNN ==> multiset(PushSpec(items, item)) == multiset(items) + multiset{item}
    ensures |items| == RETRIEVE_KNN && item.distance < MaxDistance(items) ==>
      && |PushSpec(items, item)| == RETRIEVE_KNN
      && item in PushSpec(items, item)
      && exists j :: 0 <= j < RETRIEVE_KNN && items[j].distance == MaxDistance(items) &&
        multiset(PushSpec(items, item)) == multiset(items) - multiset{items[j]} + multiset{item}
    ensures |items| == RETRIEVE_KNN && item.distance >= MaxDistance(items) ==> PushSpec(items, item) == items
  {
    if |items| == RETRIEVE_KNN && item.distance < MaxDistance(items) {
      var j := MaxIndex(items);
      assert PushSpec(items, item) == RemoveAt(items, j) + [item];
    }
  }

  /** One push grows the heap by one up to the capacity, and discards only from a full heap. */
  lemma PushStepSize(items: seq<HeapNode>, item: HeapNode)
    requires |items| <= RETRIEVE_KNN
    ensures |PushSpec(items, item)| == Min(|items| + 1, RETRIEVE_KNN)
    ensures |Dropped(items, item)| > 0 ==> |items| == RETRIEVE_KNN
  {
  }

  /** One push loses nothing: kept plus discarded is the old heap plus the node. */
  lemma PushStepConserves(items: seq<HeapNode>, item: HeapNode)
    requires |items| <= RETRIEVE_KNN
    ensures multiset(PushSpec(items, item)) + multiset(Dropped(items, item)) == multiset(items) + multiset{item}
  {
    if |items| == RETRIEVE_KNN && MaxDistance(items) > item.distance {
      var j := MaxIndex(items);
      var rest := RemoveAt(items, j);
      assert items[j] in multiset(items);
      assert multiset(rest) + multiset{items[j]} == multiset(items);
    }
  }

  /**
   * What one push discards is no closer than anything it keeps: it is the
   * pushed node or the old maximum, and the heap keeps only old nodes and the
   * pushed one.
   */
  lemma PushStepOrder(items: seq<HeapNode>, item: HeapNode)
    requires |items| <= RETRIEVE_KNN
    ensures KeptBeforeDropped(PushSpec(items, item), Dropped(items, item))
    ensures forall a :: a in PushSpec(items, item) ==> a in items || a == item
    ensures forall b :: b in Dropped(items, item) ==> b.distance >= item.distance || (b in items && b.distance == MaxDistance(items))
  {
    if |items| == RETRIEVE_KNN && MaxDistance(items) > item.distance {
      var j := MaxIndex(items);
      var rest := RemoveAt(items, j);
      assert PushSpec(items, item) == rest + [item];
      forall a | a in rest + [item]
        ensures a in items || a == item
        ensures a.distance <= items[j].distance
      {
      }
    }
  }

  /** A push keeps every kept distance at most every discarded one, old discards included. */
  lemma PushKeepsOrder(items: seq<HeapNode>, dropped: seq<HeapNode>, x: HeapNode)
    requires |items| <= RETRIEVE_KNN
    requires |dropped| > 0 ==> |items| == RETRIEVE_KNN
    requires KeptBeforeDropped(items, dropped)
    ensures KeptBeforeDropped(PushSpec(items, x), dropped + Dropped(items, x))
    ensures |dropped + Dropped(items, x)| > 0 ==> |PushSpec(items, x)| == RETRIEVE_KNN
  {
    var next := PushSpec(items, x);
    var d := Dropped(items, x);
    PushStepOrder(items, x);
    PushStepSize(items, x);
    forall a, b | a in next && b in dropped + d
      ensures a.distance <= b.distance
    {
      if b in dropped && a == x && a !in items {
        // x was kept in a full heap, so it is below the maximum, which was kept before b
        var m := items[MaxIndex(items)];
        assert m in items;
      }
    }
  }

  /** After pushing `xs`, the heap holds min(n, RETRIEVE_KNN) nodes, n counting those it started with. */
  lemma {:induction false} PushAllSize(items: seq<HeapNode>, xs: seq<HeapNode>)
    requires |items| <= RETRIEVE_KNN
    ensures |PushAll(items, xs)| == Min(|items| + |xs|, RETRIEVE_KNN)
    decreases |xs|
  {
    if |xs| > 0 {
      PushStepSize(items, xs[0]);
      PushAllSize(PushSpec(items, xs[0]), xs[1..]);
    }
  }

  /** Pushing loses no node: every node pushed is either still held or discarded. */
  lemma {:induction false} PushAllConserves(items: seq<HeapNode>, xs: seq<HeapNode>)
    requires |items| <= RETRIEVE_KNN
    ensures multiset(PushAll(items, xs)) + multiset(DroppedAll(items, xs)) == multiset(items) + multiset(xs)
    decreases |xs|
  {
    if |xs| > 0 {
      var x, rest := xs[0], xs[1..];
      var next := PushSpec(items, x);
      var d := Dropped(items, x);
      PushStepConserves(items, x);
      PushAllConserves(next, rest);
      assert xs == [x] + rest;
      Regroup(multiset(PushAll(next, rest)), multiset(DroppedAll(next, rest)), multiset(next),
        multiset(rest), multiset(d), multiset(items), multiset{x});
    }
  }

  lemma Regroup<T>(kept: multiset<T>, later: multiset<T>, next: multiset<T>, rest: multiset<T>,
                   d: multiset<T>, items: multiset<T>, x: multiset<T>)
    requires kept + later == next + rest
    requires next + d == items + x
    ensures kept + (d + later) == items + (x + rest)
  {
    forall e
      ensures (kept + (d + later))[e] == (items + (x + rest))[e]
    {
      assert (kept + later)[e] == (next + rest)[e];
      assert (next + d)[e] == (items + x)[e];
    }
  }

  /**
   * Pushing keeps every held distance at most every discarded one, the nodes
   * discarded before (`dropped`) included.
   */
  lemma {:induction false} PushAllKeepsSmallest(items: seq<HeapNode>, dropped: seq<HeapNode>, xs: seq<HeapNode>)
    requires |items| <= RETRIEVE_KNN
    requires |dropped| > 0 ==> |items| == RETRIEVE_KNN
    requires KeptBeforeDropped(items, dropped)
    ensures KeptBeforeDropped(PushAll(items, xs), dropped + DroppedAll(items, xs))
    decreases |xs|
  {
    if |xs| > 0 {
      var x, rest := xs[0], xs[1..];
      var next := PushSpec(items, x);
      var d := Dropped(items, x);
      PushKeepsOrder(items, dropped, x);
      PushAllKeepsSmallest(next, dropped + d, rest);
      var later := DroppedAll(next, rest);
      assert DroppedAll(items, xs) == d + later;
      ConcatAssoc(dropped, d, later);
    }
  }

  /**
   * Regrouping a concatenation, proved apart from any caller so that the
   * sequence extensionality it needs does not meet the caller's quantifiers.
   */
  lemma ConcatAssoc<T>(a: seq<T>, b: seq<T>, c: seq<T>)
    ensures a + b + c == a + (b + c)
  {
  }

  /** Reordering the kept nodes keeps them before the discarded ones. */
  lemma KeptBeforeDroppedReordered(kept: seq<HeapNode>, kept': seq<HeapNode>, dropped: seq<HeapNode>)
    requires multiset(kept) == multiset(kept')
    requires KeptBeforeDropped(kept, dropped)
    ensures KeptBeforeDropped(kept', dropped)
  {
    forall a, b | a in kept' && b in dropped
      ensures a.distance <= b.distance
    {
      assert a in multiset(kept');
      assert a in kept;
    }
  }

  /** Pushing n nodes into an empty heap keeps min(n, RETRIEVE_KNN) of them, the closest ones. */
  lemma TopK(xs: seq<HeapNode>)
    ensures |PushAll([], xs)| == Min(|xs|, RETRIEVE_KNN)
    ensures multiset(PushAll([], xs)) + multiset(DroppedAll([], xs)) == multiset(xs)
    ensures KeptBeforeDropped(PushAll([], xs), DroppedAll([], xs))
  {
    PushAllSize([], xs);
    PushAllConserves([], xs);
    PushAllKeepsSmallest([], [], xs);
    assert [] + DroppedAll([], xs) == DroppedAll([], xs);
  }

  /** Pushing `xs` and then `x` is pushing `x` onto the heap `xs` left. */
  lemma {:induction false} PushAllSnoc(items: seq<HeapNode>, xs: seq<HeapNode>, x: HeapNode)
    requires |items| <= RETRIEVE_KNN
    ensures PushAll(items, xs + [x]) == PushSpec(PushAll(items, xs), x)
    decreases |xs|
  {
    if |xs| == 0 {
      assert xs + [x] == [x];
    } else {
      assert (xs + [x])[1..] == xs[1..] + [x];
      PushAllSnoc(PushSpec(items, xs[0]), xs[1..], x);
    }
  }

  /** `sorted`'s order: nondecreasing distance. */
  predicate SortedByDistance(s: seq<HeapNode>)
  {
    forall i, j :: 0 <= i < j < |s| ==> s[i].distance <= s[j].distance
  }

  /** `x` placed before the first node of the sorted `s` that is farther. */
  function Insert(x: HeapNode, s: seq<HeapNode>): (r: seq<HeapNode>)
    requires SortedByDistance(s)
    ensures SortedByDistance(r)
    ensures multiset(r) == multiset(s) + multiset{x}
    ensures |r| == |s| + 1
    ensures r[0] == x || (|s| > 0 && r[0] == s[0])
  {
    if |s| == 0 || x.distance <= s[0].distance then [x] + s
    else
      var tail := Insert(x, s[1..]);
      assert s == [s[0]] + s[1..];
      [s[0]] + tail
  }

  /** `Vec::sort` on nodes: the same nodes, closest first. */
  function SortByDistance(s: seq<HeapNode>): (r: seq<HeapNode>)
    ensures SortedByDistance(r)
    ensures multiset(r) == multiset(s)
    ensures |r| == |s|
  {
    if |s| == 0 then []
    else
      assert s == [s[0]] + s[1..];
      Insert(s[0], SortByDistance(s[1..]))
  }

  /** `BinaryHeapWrapper`: a `heapless` max-heap of capacity RETRIEVE_KNN. */
  class BinaryHeapWrapper {
    var items: seq<HeapNode>

    ghost predicate Valid()
      reads this
    {
      |items| <= RETRIEVE_KNN
    }

    /** `BinaryHeapWrapper::new`: an empty heap. */
    constructor ()
      ensures Valid() && items == []
    {
      items := [];
    }

    /**
     * `push`: on a full heap, pop the maximum and insert `item` when the
     * maximum is strictly farther, otherwise leave the heap alone; on a heap
     * with room, insert. The underlying insertion always has room, so the
     * result is always `Ok`.
     */
    method Push(item: HeapNode) returns (r: PushResult)
      requires Valid()
      modifies this
      ensures Valid()
      ensures r == Ok
      ensures items == PushSpec(old(items), item)
    {
      if |items| == RETRIEVE_KNN {
        var j := MaxIndex(items);
        var peek := items[j];
        if peek.distance > item.distance {
          items := RemoveAt(items, j);
          items := items + [item];
          return Ok;
        } else {
          return Ok;
        }
      } else {
        items := items + [item];
        return Ok;
      }
    }

    /** `sorted`: every node held, in nondecreasing distance, copied out one by one. */
    method Sorted() returns (heapVec: seq<HeapNode>)
      requires Valid()
      ensures SortedByDistance(heapVec)
      ensures multiset(heapVec) == multiset(items)
      ensures |heapVec| == |items| <= RETRIEVE_KNN
    {
      var vec := SortByDistance(items);
      heapVec := [];
      for i := 0 to |vec|
        invariant heapVec == vec[..i]
      {
        heapVec := heapVec + [vec[i]];
      }
      assert vec[..|vec|] == vec;
    }
  }
}
