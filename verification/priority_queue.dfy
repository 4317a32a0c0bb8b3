/** The fixed-capacity binary min-heap of CommonSource/PriorityQueue.cs.

    The array is `store`, a sequence of slots of fixed length (the capacity);
    the slots below `bottom` hold items and the slots from `bottom` on are
    null. An item's weight comes from a function supplied by the caller; the
    source re-evaluates it on every comparison, which is sound because the
    scheduler only re-keys an item while it is outside the queue.

    Push and Pop need only the structural invariant `WellFormed`; the heap
    ordering is carried as `Ordered(before) ==> Ordered(after)` so that a
    caller whose weights change can still use the queue (and lose only the
    ordering, exactly as the source would). */
module PriorityQueue {
  import opened Common

  datatype Heap<T> = Heap(store: seq<Option<T>>, bottom: nat)

  function Parent(pos: nat): nat
  {
    if pos == 0 then 0 else (pos - 1) / 2
  }

  function LChild(pos: nat): nat
  {
    2 * pos + 1
  }

  function RChild(pos: nat): nat
  {
    2 * pos + 2
  }

  /** The source's `isLessThan`: a null slot is never less, and anything
      non-null is less than a null slot. */
  function IsLessThan<T(==)>(x: Option<T>, y: Option<T>, weight: T -> nat): bool
  {
    if x.None? then false
    else if y.None? then true
    else weight(x.value) < weight(y.value)
  }

  /** The source's `isGreaterThan`: a null slot is always greater. */
  function IsGreaterThan<T(==)>(x: Option<T>, y: Option<T>, weight: T -> nat): bool
  {
    if x.None? then true
    else if y.None? then false
    else weight(x.value) > weight(y.value)
  }

  function Swap<T(==)>(s: seq<T>, i: nat, j: nat): (r: seq<T>)
    requires i < |s| && j < |s|
    ensures |r| == |s| && r[i] == s[j] && r[j] == s[i]
    ensures forall k :: 0 <= k < |s| && k != i && k != j ==> r[k] == s[k]
  {
    s[i := s[j]][j := s[i]]
  }

  /** Slots below `bottom` are occupied, slots from `bottom` on are null. */
  predicate WellFormed<T(==)>(h: Heap<T>)
  {
    && h.bottom <= |h.store|
    && (forall i :: 0 <= i < |h.store| ==> (h.store[i].Some? <==> i < h.bottom))
  }

  /** The heap property: no item weighs less than its parent. */
  predicate Ordered<T(==)>(h: Heap<T>, weight: T -> nat)
    requires WellFormed(h)
  {
    forall i :: 0 < i < h.bottom ==> weight(h.store[Parent(i)].value) <= weight(h.store[i].value)
  }

  /** The items held, as a multiset of occupied slots. */
  function Held<T(==)>(h: Heap<T>): multiset<Option<T>>
    requires h.bottom <= |h.store|
  {
    multiset(h.store[..h.bottom])
  }

  function Capacity<T(==)>(h: Heap<T>): nat
  {
    |h.store|
  }

  /** `new PriorityQueue(size, getWeight)`: every slot null, nothing held. */
  function New<T(==)>(size: nat): (h: Heap<T>)
    ensures WellFormed(h) && Capacity(h) == size
    ensures IsEmpty(h) && Held(h) == multiset{}
    ensures forall i :: 0 <= i < size ==> h.store[i] == None
  {
    Heap(seq(size, _ => None), 0)
  }

  function IsEmpty<T(==)>(h: Heap<T>): bool
  {
    h.bottom == 0
  }

  /** `IsEmpty` holds exactly when the queue holds nothing. */
  lemma IsEmptyIffNothingHeld<T>(h: Heap<T>)
    requires WellFormed(h)
    ensures IsEmpty(h) <==> Held(h) == multiset{}
  {
    if !IsEmpty(h) {
      assert h.store[0] in Held(h);
    }
  }

  // ---------------------------------------------------------------------
  // Sift-up (the loop in Push)

  /** All slots below `n` occupied. */
  predicate Full<T(==)>(s: seq<Option<T>>, n: nat)
  {
    n <= |s| && forall k :: 0 <= k < n ==> s[k].Some?
  }

  /** Ordered below `n` except possibly between `pos` and its parent; and the
      parent of `pos` is no heavier than the children of `pos`. */
  predicate OrderedExceptUp<T(==)>(s: seq<Option<T>>, n: nat, pos: nat, weight: T -> nat)
    requires Full(s, n) && pos < n
  {
    && (forall i :: 0 < i < n && i != pos ==> weight(s[Parent(i)].value) <= weight(s[i].value))
    && (pos > 0 ==> forall c :: 0 < c < n && Parent(c) == pos ==>
          weight(s[Parent(pos)].value) <= weight(s[c].value))
  }

  predicate OrderedBelow<T(==)>(s: seq<Option<T>>, n: nat, weight: T -> nat)
    requires Full(s, n)
  {
    forall i :: 0 < i < n ==> weight(s[Parent(i)].value) <= weight(s[i].value)
  }

  lemma SwapPrefixMultiset<T>(s: seq<T>, i: nat, j: nat, n: nat)
    requires i < n && j < n && n <= |s|
    ensures multiset(Swap(s, i, j)[..n]) == multiset(s[..n])
    ensures Swap(s, i, j)[n..] == s[n..]
  {
    assert Swap(s, i, j)[..n] == Swap(s[..n], i, j);
  }

  lemma ParentBelow(i: nat)
    requires i > 0
    ensures Parent(i) < i
    ensures LChild(Parent(i)) == i || RChild(Parent(i)) == i
  {
  }

  /** The loop of `Push`: swap the item at `pos` with its parent while it is
      strictly lighter. */
  function SiftUp<T(==)>(s: seq<Option<T>>, pos: nat, n: nat, weight: T -> nat): (r: seq<Option<T>>)
    requires Full(s, n) && pos < n
    ensures |r| == |s| && Full(r, n)
    ensures r[n..] == s[n..]
    ensures multiset(r[..n]) == multiset(s[..n])
    ensures OrderedExceptUp(s, n, pos, weight) ==> OrderedBelow(r, n, weight)
    decreases pos
  {
    if pos > 0 && IsLessThan(s[pos], s[Parent(pos)], weight) then
      var pp := Parent(pos);
      var s' := Swap(s, pos, pp);
      SwapPrefixMultiset(s, pos, pp, n);
      SiftUpStep(s, pos, n, weight);
      SiftUp(s', pp, n, weight)
    else
      SiftUpDone(s, pos, n, weight);
      s
  }

  lemma SiftUpDone<T>(s: seq<Option<T>>, pos: nat, n: nat, weight: T -> nat)
    requires Full(s, n) && pos < n
    requires !(pos > 0 && IsLessThan(s[pos], s[Parent(pos)], weight))
    ensures OrderedExceptUp(s, n, pos, weight) ==> OrderedBelow(s, n, weight)
  {
  }

  lemma SiftUpStep<T>(s: seq<Option<T>>, pos: nat, n: nat, weight: T -> nat)
    requires Full(s, n) && 0 < pos < n
    requires IsLessThan(s[pos], s[Parent(pos)], weight)
    ensures Full(Swap(s, pos, Parent(pos)), n)
    ensures OrderedExceptUp(s, n, pos, weight) ==>
              OrderedExceptUp(Swap(s, pos, Parent(pos)), n, Parent(pos), weight)
  {
    var pp := Parent(pos);
    var s' := Swap(s, pos, pp);
    if OrderedExceptUp(s, n, pos, weight) {
      forall i | 0 < i < n && i != pp
        ensures weight(s'[Parent(i)].value) <= weight(s'[i].value)
      {
        if i == pos {
        } else if Parent(i) == pos {
        } else if Parent(i) == pp {
          assert weight(s[pp].value) <= weight(s[i].value);
        } else {
          ParentBelow(i);
        }
      }
      if pp > 0 {
        forall c | 0 < c < n && Parent(c) == pp
          ensures weight(s'[Parent(pp)].value) <= weight(s'[c].value)
        {
          ParentBelow(pp);
          assert weight(s[Parent(pp)].value) <= weight(s[pp].value);
          if c != pos {
            assert weight(s[pp].value) <= weight(s[c].value);
          }
        }
      }
    }
  }

  // ---------------------------------------------------------------------
  // Sift-down (the loop in Pop)

  /** Slots below `n` occupied and every slot from `n` on null. */
  predicate Shaped<T(==)>(s: seq<Option<T>>, n: nat)
  {
    n <= |s| && forall k :: 0 <= k < |s| ==> (s[k].Some? <==> k < n)
  }

  /** Ordered below `n` except possibly between `pos` and its children; and
      the parent of `pos` is no heavier than the children of `pos`. */
  predicate OrderedExceptDown<T(==)>(s: seq<Option<T>>, n: nat, pos: nat, weight: T -> nat)
    requires Full(s, n) && pos < n
  {
    && (forall i :: 0 < i < n && Parent(i) != pos ==> weight(s[Parent(i)].value) <= weight(s[i].value))
    && (pos > 0 ==> forall c :: 0 < c < n && Parent(c) == pos ==>
          weight(s[Parent(pos)].value) <= weight(s[c].value))
  }

  /** The slot the source's sift-down loop picks: the left child if the item
      is heavier than it, then the right child if the pick so far is heavier
      than it. The scan is bounded by the array length, not by the count. */
  function MinSlot<T(==)>(s: seq<Option<T>>, pos: nat, weight: T -> nat): (m: nat)
    requires pos < |s|
    ensures m == pos || m == LChild(pos) || m == RChild(pos)
    ensures m < |s|
  {
    var m1 := if LChild(pos) < |s| && IsGreaterThan(s[pos], s[LChild(pos)], weight) then LChild(pos) else pos;
    if RChild(pos) < |s| && IsGreaterThan(s[m1], s[RChild(pos)], weight) then RChild(pos) else m1
  }

  /** The pick is never a null slot, it is no heavier than either child, and
      it differs from `pos` only when it is strictly lighter than the item. */
  lemma MinSlotFacts<T>(s: seq<Option<T>>, n: nat, pos: nat, weight: T -> nat)
    requires Shaped(s, n) && pos < n
    ensures MinSlot(s, pos, weight) < n
    ensures var m := MinSlot(s, pos, weight);
      && (LChild(pos) < n ==> weight(s[m].value) <= weight(s[LChild(pos)].value))
      && (RChild(pos) < n ==> weight(s[m].value) <= weight(s[RChild(pos)].value))
      && (m != pos ==> weight(s[m].value) < weight(s[pos].value))
  {
  }

  function SiftDown<T(==)>(s: seq<Option<T>>, pos: nat, n: nat, weight: T -> nat): (r: seq<Option<T>>)
    requires Shaped(s, n) && pos < n
    ensures |r| == |s| && Shaped(r, n)
    ensures r[n..] == s[n..]
    ensures multiset(r[..n]) == multiset(s[..n])
    ensures OrderedExceptDown(s, n, pos, weight) ==> OrderedBelow(r, n, weight)
    decreases |s| - pos
  {
    MinSlotFacts(s, n, pos, weight);
    var m := MinSlot(s, pos, weight);
    if m == pos then
      SiftDownDone(s, n, pos, weight);
      s
    else
      var s' := Swap(s, pos, m);
      SwapPrefixMultiset(s, pos, m, n);
      SiftDownStep(s, n, pos, weight);
      SiftDown(s', m, n, weight)
  }

  lemma SiftDownDone<T>(s: seq<Option<T>>, n: nat, pos: nat, weight: T -> nat)
    requires Shaped(s, n) && pos < n
    requires MinSlot(s, pos, weight) == pos
    ensures OrderedExceptDown(s, n, pos, weight) ==> OrderedBelow(s, n, weight)
  {
    MinSlotFacts(s, n, pos, weight);
    if OrderedExceptDown(s, n, pos, weight) {
      forall i | 0 < i < n
        ensures weight(s[Parent(i)].value) <= weight(s[i].value)
      {
        if Parent(i) == pos {
          ParentBelow(i);
        }
      }
    }
  }

  lemma SiftDownStep<T>(s: seq<Option<T>>, n: nat, pos: nat, weight: T -> nat)
    requires Shaped(s, n) && pos < n
    requires MinSlot(s, pos, weight) != pos
    ensures MinSlot(s, pos, weight) < n
    ensures Shaped(Swap(s, pos, MinSlot(s, pos, weight)), n)
    ensures OrderedExceptDown(s, n, pos, weight) ==>
              OrderedExceptDown(Swap(s, pos, MinSlot(s, pos, weight)), n, MinSlot(s, pos, weight), weight)
  {
    MinSlotFacts(s, n, pos, weight);
    var m := MinSlot(s, pos, weight);
    var s' := Swap(s, pos, m);
    assert Parent(m) == pos;
    if OrderedExceptDown(s, n, pos, weight) {
      forall i | 0 < i < n && Parent(i) != m
        ensures weight(s'[Parent(i)].value) <= weight(s'[i].value)
      {
        ParentBelow(i);
        if i == m {
        } else if i == pos {
        } else if Parent(i) == pos {
        } else {
        }
      }
      forall c | 0 < c < n && Parent(c) == m
        ensures weight(s'[Parent(m)].value) <= weight(s'[c].value)
      {
        ParentBelow(c);
        assert weight(s[m].value) <= weight(s[c].value);
      }
    }
  }

  // ---------------------------------------------------------------------
  // Push and Pop

  /** `Push`: at full capacity the write `store[bottom]` faults before any
      slot or the count changes; otherwise the item enters at `bottom` and
      sifts up. */
  function Push<T(==)>(h: Heap<T>, x: T, weight: T -> nat): (r: Result<Heap<T>>)
    requires WellFormed(h)
    ensures r.Err? <==> h.bottom == Capacity(h)
    ensures r.Err? ==> r.error == CapacityError
    ensures r.Ok? ==> && WellFormed(r.value)
                      && Capacity(r.value) == Capacity(h)
                      && r.value.bottom == h.bottom + 1
                      && Held(r.value) == Held(h) + multiset{Some(x)}
                      && (Ordered(h, weight) ==> Ordered(r.value, weight))
  {
    if h.bottom == |h.store| then Err(CapacityError)
    else
      PushShape(h, x, weight);
      PushHeld(h, x, weight);
      PushOrdered(h, x, weight);
      Ok(Insert(h, x, weight))
  }

  /** The item written at `bottom` and sifted up. */
  function Insert<T(==)>(h: Heap<T>, x: T, weight: T -> nat): Heap<T>
    requires WellFormed(h) && h.bottom < |h.store|
  {
    var s := h.store[h.bottom := Some(x)];
    Heap(SiftUp(s, h.bottom, h.bottom + 1, weight), h.bottom + 1)
  }

  /** Inserting keeps the slots shaped, one more held. */
  lemma PushShape<T>(h: Heap<T>, x: T, weight: T -> nat)
    requires WellFormed(h) && h.bottom < |h.store|
    ensures WellFormed(Insert(h, x, weight)) && Capacity(Insert(h, x, weight)) == Capacity(h)
  {
    var s := h.store[h.bottom := Some(x)];
    var n := h.bottom + 1;
    var s' := SiftUp(s, h.bottom, n, weight);
    assert forall k :: n <= k < |s'| ==> s'[k] == s'[n..][k - n] == s[k];
  }

  /** Inserting adds exactly the new item to the items held. */
  lemma PushHeld<T>(h: Heap<T>, x: T, weight: T -> nat)
    requires WellFormed(h) && h.bottom < |h.store|
    ensures Insert(h, x, weight).bottom <= |Insert(h, x, weight).store|
    ensures Held(Insert(h, x, weight)) == Held(h) + multiset{Some(x)}
  {
    var s := h.store[h.bottom := Some(x)];
    assert s[..h.bottom + 1] == h.store[..h.bottom] + [Some(x)];
  }

  /** Inserting into an ordered heap leaves it ordered. */
  lemma PushOrdered<T>(h: Heap<T>, x: T, weight: T -> nat)
    requires WellFormed(h) && h.bottom < |h.store|
    ensures WellFormed(Insert(h, x, weight))
    ensures Ordered(h, weight) ==> Ordered(Insert(h, x, weight), weight)
  {
    PushShape(h, x, weight);
    if Ordered(h, weight) {
      PushOrders(h, x, weight);
    }
  }

  /** The item written at `bottom` can only be out of order with its parent. */
  lemma PushOrders<T>(h: Heap<T>, x: T, weight: T -> nat)
    requires WellFormed(h) && h.bottom < |h.store| && Ordered(h, weight)
    ensures Full(h.store[h.bottom := Some(x)], h.bottom + 1)
    ensures OrderedExceptUp(h.store[h.bottom := Some(x)], h.bottom + 1, h.bottom, weight)
  {
    var s := h.store[h.bottom := Some(x)];
    var n := h.bottom + 1;
    forall i | 0 < i < n && i != h.bottom
      ensures weight(s[Parent(i)].value) <= weight(s[i].value)
    {
      ParentBelow(i);
    }
    forall c | 0 < c < n
      ensures Parent(c) < h.bottom
    {
      ParentBelow(c);
    }
  }

  /** `Pop` on a non-empty queue: the root leaves, the last item moves to
      the root (its slot becomes null) and sifts down. Pop on an empty
      queue faults in the source (`store[-1]`), hence the precondition. */
  function Pop<T(==)>(h: Heap<T>, weight: T -> nat): (r: (T, Heap<T>))
    requires WellFormed(h) && !IsEmpty(h)
    ensures WellFormed(r.1) && Capacity(r.1) == Capacity(h)
    ensures r.1.bottom == h.bottom - 1
    ensures Held(h) == Held(r.1) + multiset{Some(r.0)}
    ensures Ordered(h, weight) ==> Ordered(r.1, weight)
    ensures Ordered(h, weight) ==> forall y :: y in Held(h) ==> weight(r.0) <= weight(y.value)
  {
    PopShape(h, weight);
    PopHeld(h, weight);
    PopOrdered(h, weight);
    RootIsLightest(h, weight);
    (h.store[0].value, Remove(h, weight))
  }

  /** The root taken out: the last item moved to the root and sifted down. */
  function Remove<T(==)>(h: Heap<T>, weight: T -> nat): Heap<T>
    requires WellFormed(h) && !IsEmpty(h)
  {
    var b := h.bottom - 1;
    var s := h.store[0 := h.store[b]][b := None];
    if b == 0 then Heap(s, 0)
    else
      PopReorders(h, weight);
      Heap(SiftDown(s, 0, b, weight), b)
  }

  /** Removing the root keeps the slots shaped, one fewer held. */
  lemma PopShape<T>(h: Heap<T>, weight: T -> nat)
    requires WellFormed(h) && !IsEmpty(h)
    ensures var r := Remove(h, weight);
      WellFormed(r) && Capacity(r) == Capacity(h) && r.bottom == h.bottom - 1
  {
    if h.bottom > 1 {
      PopReorders(h, weight);
    }
  }

  /** Removing the root takes exactly the root out of the items held. */
  lemma PopHeld<T>(h: Heap<T>, weight: T -> nat)
    requires WellFormed(h) && !IsEmpty(h)
    ensures Remove(h, weight).bottom <= |Remove(h, weight).store|
    ensures Held(h) == Held(Remove(h, weight)) + multiset{h.store[0]}
  {
    var b := h.bottom - 1;
    var s := h.store[0 := h.store[b]][b := None];
    PopMultiset(h.store, b);
    if b > 0 {
      PopReorders(h, weight);
      var s' := SiftDown(s, 0, b, weight);
      assert Remove(h, weight) == Heap(s', b);
      assert Held(Heap(s', b)) == multiset(s[..b]);
    } else {
      assert Remove(h, weight) == Heap(s, 0);
    }
  }

  /** Removing the root of an ordered heap leaves it ordered. */
  lemma PopOrdered<T>(h: Heap<T>, weight: T -> nat)
    requires WellFormed(h) && !IsEmpty(h)
    ensures WellFormed(Remove(h, weight))
    ensures Ordered(h, weight) ==> Ordered(Remove(h, weight), weight)
  {
    PopShape(h, weight);
    var b := h.bottom - 1;
    if b > 0 {
      var s := h.store[0 := h.store[b]][b := None];
      PopReorders(h, weight);
      assert Remove(h, weight) == Heap(SiftDown(s, 0, b, weight), b);
    }
  }

  lemma PopMultiset<T>(s: seq<Option<T>>, b: nat)
    requires b < |s|
    ensures multiset(s[..b + 1]) == multiset(s[0 := s[b]][b := None][..b]) + multiset{s[0]}
  {
    var t := s[0 := s[b]][b := None];
    if b == 0 {
      assert s[..1] == [s[0]];
    } else {
      assert s[..b + 1] == [s[0]] + s[1..b] + [s[b]];
      assert t[..b] == [s[b]] + s[1..b];
    }
  }

  lemma PopReorders<T>(h: Heap<T>, weight: T -> nat)
    requires WellFormed(h) && h.bottom > 1
    ensures var b := h.bottom - 1;
      var s := h.store[0 := h.store[b]][b := None];
      && Shaped(s, b)
      && (Ordered(h, weight) ==> OrderedExceptDown(s, b, 0, weight))
  {
    var b := h.bottom - 1;
    var s := h.store[0 := h.store[b]][b := None];
    if Ordered(h, weight) {
      forall i | 0 < i < b && Parent(i) != 0
        ensures weight(s[Parent(i)].value) <= weight(s[i].value)
      {
        ParentBelow(i);
      }
    }
  }

  /** In an ordered heap the root is no heavier than any held item. */
  lemma {:induction false} RootIsLightestAt<T>(h: Heap<T>, weight: T -> nat, i: nat)
    requires WellFormed(h) && Ordered(h, weight) && i < h.bottom
    ensures weight(h.store[0].value) <= weight(h.store[i].value)
    decreases i
  {
    if i > 0 {
      ParentBelow(i);
      RootIsLightestAt(h, weight, Parent(i));
    }
  }

  lemma RootIsLightest<T>(h: Heap<T>, weight: T -> nat)
    requires WellFormed(h) && !IsEmpty(h)
    ensures Ordered(h, weight) ==> forall y :: y in Held(h) ==> weight(h.store[0].value) <= weight(y.value)
  {
    if Ordered(h, weight) {
      forall y | y in Held(h)
        ensures weight(h.store[0].value) <= weight(y.value)
      {
        var i :| 0 <= i < h.bottom && h.store[..h.bottom][i] == y;
        RootIsLightestAt(h, weight, i);
      }
    }
  }

  /** The ordering depends only on the weights of held items, so re-keying
      an item that is outside the queue keeps the queue ordered. */
  lemma OrderedSameWeights<T>(h: Heap<T>, w1: T -> nat, w2: T -> nat)
    requires WellFormed(h)
    requires forall y :: y in Held(h) ==> w1(y.value) == w2(y.value)
    ensures Ordered(h, w1) ==> Ordered(h, w2)
  {
    if Ordered(h, w1) {
      forall i | 0 < i < h.bottom
        ensures w2(h.store[Parent(i)].value) <= w2(h.store[i].value)
      {
        ParentBelow(i);
        assert h.store[..h.bottom][i] == h.store[i];
        assert h.store[..h.bottom][Parent(i)] == h.store[Parent(i)];
      }
    }
  }
}
