/**
 `HeapTimer` of server/src/timer: an array heap with a back index from id to slot. The ghost field `index`
 is what `ref_` ought to be; the operations are proved on it, and `Exact` says that `ref_` agrees.
 */
module HeapTimers {
  import opened TimerHeap

  /** Clock ticks (nanoseconds) per millisecond. */
  const MS := 1_000_000

  const INIT_REFS := 65536
  const MAX_REFS := 0x1_0000_0000

  type Int32 = x: int | -0x8000_0000 <= x < 0x8000_0000

  /** `duration_cast<milliseconds>`: division toward zero. */
  function ToMillis(d: int): (ms: int)
    ensures ms > 0 <==> d >= MS
    ensures ms < 0 <==> d <= -MS
    ensures d >= 0 ==> ms * MS <= d < (ms + 1) * MS
    ensures d <= 0 ==> (ms - 1) * MS < d <= ms * MS
  {
    if d >= 0 then d / MS else -((-d) / MS)
  }

  /** The test on which `Tick` stops is negative: less than one millisecond is left. */
  predicate Due(expires: int, now: int) {
    expires - now < MS
  }

  /** Conversion of a `size_t` to `int` keeps the low 32 bits. */
  function ToInt32(x: int): (r: int)
    ensures -0x8000_0000 <= x < 0x8000_0000 ==> r == x
  {
    var low := x % 0x1_0000_0000;
    if low < 0x8000_0000 then low else low - 0x1_0000_0000
  }

  class HeapTimer {
    var heap: seq<TimerNode>
    var refs: seq<int>
    ghost var index: seq<int>

    /** `index` inverts the heap; heap order may be broken, and `refs` may differ. */
    ghost predicate Tracked()
      reads this
    {
      RefsMatch(heap, index) && |refs| == |index| && INIT_REFS <= |index| <= MAX_REFS
    }

    /** `ref_` is the exact inverse of the heap; by `IndexIsUnique` there is only one. */
    ghost predicate Exact()
      reads this
    {
      refs == index
    }

    /** Every node but the front has its slot in `ref_`. */
    ghost predicate OthersRight()
      reads this
    {
      SlotsRight(heap, refs, 1, |heap|)
    }

    /** The front has lost its slot in `ref_`, and no other node has: `Adjust` fails its assertion for it alone. */
    ghost predicate FrontLost()
      reads this
    {
      OthersRight() && (|heap| > 0 ==> 0 <= heap[0].id < |refs| && refs[heap[0].id] == NO_SLOT)
    }

    ghost predicate Sorted()
      reads this
    {
      Tracked() && Ordered(heap, |heap|)
    }

    ghost predicate Valid()
      reads this
    {
      Sorted() && Exact()
    }

    /** The abstract state: a map from id to expiry. */
    ghost function Timers(): map<int, int>
      requires Tracked()
      reads this
    {
      TimersOf(heap, index)
    }

    constructor ()
      ensures Valid() && Timers() == map[]
    {
      heap := [];
      refs := seq(INIT_REFS, _ => NO_SLOT);
      index := seq(INIT_REFS, _ => NO_SLOT);
    }

    method SwapNode(i: int, j: int)
      requires 0 <= i < |heap| && 0 <= j < |heap| && Tracked()
      modifies this
      ensures Tracked() && Timers() == old(Timers()) && Steady(old(refs), old(index), refs, index)
      ensures heap == Swapped(old(heap), i, j) && refs[heap[i].id] == i && refs[heap[j].id] == j
    {
      SwapKeepsTimers(heap, index, i, j);
      heap := heap[i := heap[j]][j := heap[i]];
      refs := refs[heap[i].id := i];
      refs := refs[heap[j].id := j];
      index := index[heap[i].id := i][heap[j].id := j];
    }

    /** One round of `SiftUp_`: a swap with the parent, if that one is after the node. */
    method Rise(i: int, ghost n: int) returns (next: int, outside: bool)
      requires 0 <= i < n <= |heap| && Tracked() && OrderedBelow(heap, n, i)
      modifies this
      ensures 0 <= next <= i && (outside <==> i == 0)
      ensures next < i <==> i > 0 && old(heap)[Parent(i)].expires > old(heap)[i].expires
      ensures next == i ==> heap == old(heap) && refs == old(refs) && index == old(index) && Ordered(heap, n)
      ensures next < i ==> next == Parent(i) && heap == Swapped(old(heap), i, next) && OrderedBelow(heap, n, next)
      ensures Tracked() && Timers() == old(Timers()) && Steady(old(refs), old(index), refs, index)
    {
      HeapFitsIndex(heap, index);
      var parent := UnsignedParent(i);
      next, outside := i, parent >= |heap|;
      if !outside && heap[parent].expires > heap[i].expires {
        SwapUp(heap, n, i);
        SwapNode(i, parent);
        next := parent;
      }
    }

    /**
     `SiftUp_` as written. At the root the unsigned parent is far outside the vector, and the loop reads
     there: exactly when it starts at the root or with a node before the root. What such a read yields is
     undefined; the model goes on as if it had ended the loop.
     */
    method SiftUp(start: int, ghost n: int) returns (outside: bool)
      requires 0 <= start < n <= |heap| && Tracked() && OrderedBelow(heap, n, start)
      modifies this
      ensures Tracked() && Timers() == old(Timers()) && Steady(old(refs), old(index), refs, index)
      ensures |heap| == |old(heap)| && Ordered(heap, n)
      ensures forall k :: n <= k < |heap| ==> heap[k] == old(heap)[k]
      ensures outside <==> start == 0 || old(heap)[start].expires < old(heap)[0].expires
    {
      ghost var h, r, x, timers := heap, refs, index, Timers();
      var i, done := start, false;
      outside := false;
      while !done
        invariant 0 <= i < n <= |heap| == |h| && (done ==> Ordered(heap, n)) && (!done ==> !outside)
        invariant Tracked() && Timers() == timers && Steady(r, x, refs, index)
        invariant !done ==> OrderedBelow(heap, n, i) && heap[i] == h[start]
        invariant !done && i > 0 ==> heap[0] == h[0]
        invariant !done && i == 0 < start ==> h[start].expires < h[0].expires
        invariant done ==> (outside <==> start == 0 || h[start].expires < h[0].expires)
        invariant forall k :: n <= k < |heap| ==> heap[k] == h[k]
        decreases !done, i
      {
        ghost var r1, x1 := refs, index;
        if i > 0 {
          RootIsLeastBefore(heap, n, i, Parent(i));
        }
        var next;
        next, outside := Rise(i, n);
        SteadyTwice(r, x, r1, x1, refs, index);
        done, i := next == i, next;
      }
    }

    /** One round of `SiftDown_`: a swap with the least child, unless that one is after the node. */
    method Sink(i: int, n: int) returns (next: int)
      requires 0 <= i && 2 * i + 1 < n <= |heap| && Tracked() && OrderedAround(heap, n, i)
      modifies this
      ensures i <= next < n
      ensures next > i <==> old(heap)[LeastChild(old(heap), n, i)].expires <= old(heap)[i].expires
      ensures next == i ==> heap == old(heap) && refs == old(refs) && index == old(index)
      ensures Tracked() && Timers() == old(Timers()) && Steady(old(refs), old(index), refs, index)
      ensures |heap| == |old(heap)| && OrderedAround(heap, n, next)
      ensures next > i ==> heap[Parent(next)].expires <= heap[next].expires
      ensures forall k :: n <= k < |heap| ==> heap[k] == old(heap)[k]
    {
      var child := LeastChild(heap, n, i);
      if heap[i].expires < heap[child].expires {
        return i;
      }
      SwapDown(heap, n, i, child);
      SwapNode(i, child);
      next := child;
    }

    /** Moves the node down while a child is not after it; it stays exactly when it is before both. */
    method SiftDown(slot: int, n: int) returns (moved: bool)
      requires 0 <= slot < |heap| && 0 <= n <= |heap| && Tracked() && OrderedAround(heap, n, slot)
      modifies this
      ensures Tracked() && Timers() == old(Timers()) && Steady(old(refs), old(index), refs, index)
      ensures |heap| == |old(heap)|
      ensures moved <==> 2 * slot + 1 < n
                         && old(heap)[LeastChild(old(heap), n, slot)].expires <= old(heap)[slot].expires
      ensures moved ==> Ordered(heap, n)
      ensures !moved ==> heap == old(heap) && refs == old(refs) && index == old(index) && OrderedBelow(heap, n, slot)
      ensures forall k :: n <= k < |heap| ==> heap[k] == old(heap)[k]
    {
      ghost var h, r, x, timers := heap, refs, index, Timers();
      ghost var sinks := 2 * slot + 1 < n && h[LeastChild(h, n, slot)].expires <= h[slot].expires;
      var i := slot;
      while 2 * i + 1 < n
        invariant slot <= i < |heap| == |h|
        invariant Tracked() && Timers() == timers && Steady(r, x, refs, index)
        invariant OrderedAround(heap, n, i)
        invariant i == slot ==> heap == h && refs == r && index == x
        invariant i > slot ==> sinks && i < n && heap[Parent(i)].expires <= heap[i].expires
        invariant forall k :: n <= k < |heap| ==> heap[k] == h[k]
        decreases n - i
      {
        ghost var r1, x1 := refs, index;
        var next := Sink(i, n);
        SteadyTwice(r, x, r1, x1, refs, index);
        if next == i {
          break;
        }
        i := next;
      }
      SettledAt(heap, n, i);
      moved := i > slot;
    }

    /** `SiftDown_` on its own: order is restored exactly when the edge above the slot was in order. */
    method SinkOnly(slot: int) returns (moved: bool)
      requires 0 <= slot < |heap| && Tracked() && OrderedAround(heap, |heap|, slot)
      modifies this
      ensures Tracked() && Timers() == old(Timers()) && Steady(old(refs), old(index), refs, index)
      ensures Ordered(heap, |heap|) <==> slot == 0 || old(heap)[Parent(slot)].expires <= old(heap)[slot].expires
    {
      ghost var n := |heap|;
      if slot > 0 && 2 * slot + 1 < n && heap[LeastChild(heap, n, slot)].expires <= heap[slot].expires {
        SinkerIsBelowParent(heap, n, slot);
      }
      moved := SiftDown(slot, |heap|);
      if !moved {
        EdgeDecides(heap, n, slot);
      }
    }

    /** Lines 49-51 and 73-75: down, or else up. The stray read happens exactly when the node is first of all. */
    method Settle(slot: int, n: int) returns (outside: bool)
      requires 0 <= slot < n <= |heap| && Tracked() && OrderedAround(heap, n, slot)
      modifies this
      ensures Tracked() && Timers() == old(Timers()) && Steady(old(refs), old(index), refs, index)
      ensures |heap| == |old(heap)| && Ordered(heap, n)
      ensures forall k :: n <= k < |heap| ==> heap[k] == old(heap)[k]
      ensures outside <==> First(old(heap), n, slot)
    {
      outside := false;
      var moved := SiftDown(slot, n);
      if !moved {
        FirstIff(heap, n, slot);
        outside := SiftUp(slot, n);
      }
    }

    /** Line 48: the victim changes places with the last node. */
    method SwapOut(slot: int)
      requires 0 <= slot < |heap| - 1 && Sorted()
      modifies this
      ensures Tracked() && Timers() == old(Timers()) && Steady(old(refs), old(index), refs, index)
      ensures heap == Swapped(old(heap), slot, |old(heap)| - 1) && OrderedAround(heap, |heap| - 1, slot)
      ensures heap[|heap| - 1] == old(heap)[slot] && refs[heap[|heap| - 1].id] == |heap| - 1
      ensures slot == 0 && old(OthersRight()) ==> SlotsRight(heap, refs, 0, |heap|)
    {
      MoveLast(heap, slot);
      SwapNode(slot, |heap| - 1);
      if slot == 0 && old(OthersRight()) {
        SwapRepairsFront(old(heap), old(refs), old(index), heap, refs, index);
      }
    }

    /** `Settle` on the nodes that stay, for a removal. */
    method Resettle(slot: int) returns (outside: bool)
      requires 0 <= slot < |heap| - 1 && Tracked() && OrderedAround(heap, |heap| - 1, slot)
      requires refs[heap[|heap| - 1].id] == |heap| - 1
      modifies this
      ensures Tracked() && Timers() == old(Timers()) && Steady(old(refs), old(index), refs, index)
      ensures |heap| == |old(heap)| && Ordered(heap, |heap| - 1)
      ensures heap[|heap| - 1] == old(heap)[|old(heap)| - 1]
      ensures refs[heap[|heap| - 1].id] == |heap| - 1
      ensures old(SlotsRight(heap, refs, 0, |heap|)) ==> SlotsRight(heap, refs, 0, |heap|)
      ensures outside <==> First(old(heap), |heap| - 1, slot)
    {
      outside := Settle(slot, |heap| - 1);
      if old(SlotsRight(heap, refs, 0, |heap|)) {
        SteadyKeepsSlots(old(heap), old(refs), old(index), heap, refs, index);
      }
    }

    /** Lines 48-51: the victim goes to the end and the rest is put in order again. */
    method MoveToEnd(slot: int) returns (outside: bool)
      requires 0 <= slot < |heap| - 1 && Sorted()
      modifies this
      ensures Tracked() && Timers() == old(Timers()) && Steady(old(refs), old(index), refs, index)
      ensures |heap| == |old(heap)| && Ordered(heap, |heap| - 1) && heap[|heap| - 1] == old(heap)[slot]
      ensures refs[heap[|heap| - 1].id] == |heap| - 1
      ensures slot == 0 && old(OthersRight()) ==> SlotsRight(heap, refs, 0, |heap| - 1)
      ensures outside <==> First(Swapped(old(heap), slot, |old(heap)| - 1), |old(heap)| - 1, slot)
    {
      ghost var victim := heap[slot];
      SwapOut(slot);
      assert heap[|heap| - 1] == victim;
      outside := Resettle(slot);
      assert heap[|heap| - 1] == victim;
    }

    /** Lines 46-52: the same unless the victim is at the end already. */
    method Detach(slot: int) returns (outside: bool)
      requires 0 <= slot < |heap| && Sorted()
      modifies this
      ensures Tracked() && Timers() == old(Timers()) && Steady(old(refs), old(index), refs, index)
      ensures |heap| == |old(heap)| && Ordered(heap, |heap| - 1) && heap[|heap| - 1] == old(heap)[slot]
      ensures slot < |heap| - 1 ==> refs[heap[|heap| - 1].id] == |heap| - 1
      ensures slot == 0 && old(OthersRight()) ==> SlotsRight(heap, refs, 0, |heap| - 1)
      ensures GapsKept(old(refs), old(index), refs, index)
      ensures outside <==> var last := |old(heap)| - 1; slot < last && First(Swapped(old(heap), slot, last), last, slot)
    {
      outside := false;
      if slot < |heap| - 1 {
        outside := MoveToEnd(slot);
      }
      SteadyKeepsGaps(old(heap), old(refs), old(index), heap, refs, index);
    }

    /** `Del_` with line 53 clearing the slot of the node it removes. */
    method Del(slot: int) returns (outside: bool)
      requires 0 <= slot < |heap| && Valid()
      modifies this
      ensures Valid() && |heap| == |old(heap)| - 1 && Timers() == old(Timers()) - {old(heap)[slot].id}
      ensures outside <==> var last := |old(heap)| - 1; slot < last && First(Swapped(old(heap), slot, last), last, slot)
    {
      outside := Detach(slot);
      DropLast(heap, index);
      var last := |heap| - 1;
      refs := refs[heap[last].id := NO_SLOT];
      index := index[heap[last].id := NO_SLOT];
      heap := heap[..last];
    }

    /** Lines 53-54 as written. */
    method ClearAndPop(slot: int)
      requires 0 <= slot < |heap| && Tracked()
      modifies this
      ensures heap == old(heap)[..|old(heap)| - 1]
      ensures refs == old(refs)[old(heap)[slot].id := NO_SLOT]
      ensures index == old(index)[old(heap)[|old(heap)| - 1].id := NO_SLOT]
    {
      var last := |heap| - 1;
      refs := refs[heap[slot].id := NO_SLOT];
      index := index[heap[last].id := NO_SLOT];
      heap := heap[..last];
    }

    /**
     `Del_` exactly as written: line 53 clears the slot of whatever node now sits at `slot`. When `slot` is
     not the last one, the removed id keeps a stale entry and the node at `slot` has lost its entry; if
     `ref_` was exact before, these two entries are wrong and no others.
     */
    method DelAsWritten(slot: int) returns (outside: bool)
      requires 0 <= slot < |heap| && Sorted()
      modifies this
      ensures Sorted() && |heap| == |old(heap)| - 1 && Timers() == old(Timers()) - {old(heap)[slot].id}
      ensures outside <==> var last := |old(heap)| - 1; slot < last && First(Swapped(old(heap), slot, last), last, slot)
      ensures old(Exact()) ==> (Exact() <==> slot == |old(heap)| - 1)
      ensures slot == 0 && old(OthersRight()) ==> FrontLost()
      ensures GapsKept(old(refs), old(index), refs, index)
      ensures slot < |old(heap)| - 1 ==>
                var gone, hurt := old(heap)[slot].id, heap[slot].id;
                && WrongEntries(refs, index, gone, hurt, slot, |heap|)
                && (old(Exact()) ==> refs == index[gone := |heap|][hurt := NO_SLOT])
    {
      outside := Detach(slot);
      DropLast(heap, index);
      ClearKeepsGaps(heap, refs, index, slot);
      if slot < |heap| - 1 {
        ClearWrongSlot(heap, refs, index, slot);
      }
      if slot == 0 && old(OthersRight()) {
        ClearFront(heap, refs, index);
      }
      ClearAndPop(slot);
    }

    /** Lines 65-67. `overflows` tells that the product does not fit an `int`; the model goes on with the product. */
    method Grow(id: Int32) returns (overflows: bool)
      requires id >= 0 && Valid()
      modifies this`refs, this`index
      ensures Valid() && id < |refs| && Timers() == old(Timers())
      ensures |refs| == if id >= |old(refs)| then 2 * id else |old(refs)|
      ensures overflows <==> id >= |old(refs)| && id >= 0x4000_0000
    {
      overflows := id >= |refs| && id * 2 >= 0x8000_0000;
      if id >= |refs| {
        refs := refs + seq(id * 2 - |refs|, _ => NO_SLOT);
        index := refs;
      }
    }

    /** Lines 59 and 72: the expiry of an existing node is overwritten in place. */
    method SetExpiry(id: int, expires: int) returns (slot: int)
      requires 0 <= id < |refs| && refs[id] != NO_SLOT && Valid()
      modifies this`heap
      ensures slot == refs[id] && 0 <= slot < |heap| && heap == old(heap)[slot := TimerNode(id, expires)]
      ensures Tracked() && Timers() == old(Timers())[id := expires] && OrderedAround(heap, |heap|, slot)
    {
      slot := refs[id];
      ReplaceAt(heap, refs, slot, expires);
      heap := heap[slot := TimerNode(id, expires)];
    }

    /** Lines 71-75. */
    method Reschedule(id: int, expires: int) returns (outside: bool)
      requires 0 <= id < |refs| && refs[id] != NO_SLOT && Valid()
      modifies this
      ensures Valid() && Timers() == old(Timers())[id := expires]
      ensures outside <==> ComesFirst(old(Timers()), id, expires)
    {
      ComesFirstAt(heap, index, refs[id], expires);
      var slot := SetExpiry(id, expires);
      outside := Settle(slot, |heap|);
    }

    /** Lines 78-81. */
    method Push(id: int, expires: int) returns (outside: bool)
      requires 0 <= id < |refs| && refs[id] == NO_SLOT && Valid()
      modifies this
      ensures Valid() && Timers() == old(Timers())[id := expires]
      ensures outside <==> |old(heap)| == 0 || expires < old(heap)[0].expires
      ensures outside <==> ComesFirst(old(Timers()), id, expires)
    {
      var n := |heap|;
      PushLast(heap, refs, id, expires);
      if n > 0 {
        FrontIsLeast();
      }
      refs := refs[id := n];
      index := refs;
      heap := heap + [TimerNode(id, expires)];
      outside := SiftUp(n, |heap|);
    }

    /**
     Sets the expiry of `id`. `SiftUp_` reads outside the vector exactly when the new expiry is strictly before
     that of every other timer, in particular for the first timer of all; line 66 overflows exactly when the id
     is beyond the index and at least 2^30.
     */
    method Add(id: Int32, timeOut: int, now: int) returns (outside: bool, overflows: bool)
      requires id >= 0 && Valid()
      modifies this
      ensures Valid() && Timers() == old(Timers())[id := now + timeOut * MS]
      ensures outside <==> ComesFirst(old(Timers()), id, now + timeOut * MS)
      ensures overflows <==> id >= |old(refs)| && id >= 0x4000_0000
    {
      overflows := Grow(id);
      var expires := now + timeOut * MS;
      if refs[id] != NO_SLOT {
        outside := Reschedule(id, expires);
      } else {
        outside := Push(id, expires);
      }
    }

    /**
     The expiry is replaced, but only `SiftDown_` runs: heap order survives exactly when the new
     expiry is not before that of the slot's parent.
     */
    method Adjust(id: int, timeOut: int, now: int)
      requires 0 <= id < |refs| && refs[id] != NO_SLOT && Valid()
      modifies this
      ensures Tracked() && Exact() && Timers() == old(Timers())[id := now + timeOut * MS]
      ensures Valid() <==>
                old(refs[id]) == 0 || old(heap[Parent(refs[id])]).expires <= now + timeOut * MS
    {
      var slot := SetExpiry(id, now + timeOut * MS);
      ghost var edge := slot == 0 || heap[Parent(slot)].expires <= heap[slot].expires;
      assert edge <==> old(refs[id]) == 0 || old(heap[Parent(refs[id])]).expires <= now + timeOut * MS;
      var moved := SinkOnly(slot);
      assert Exact();
    }

    /** The front of the heap is a timer of least expiry. */
    lemma FrontIsLeast()
      requires Sorted() && |heap| > 0
      ensures heap[0].id in Timers() && Timers()[heap[0].id] == heap[0].expires
      ensures forall id :: id in Timers() ==> heap[0].expires <= Timers()[id]
    {
      forall id | id in Timers()
        ensures heap[0].expires <= Timers()[id]
      {
        RootIsLeast(heap, index[id]);
      }
    }

    /** `ref_` still names a slot for an id that has no timer. */
    ghost predicate Stale(id: int)
      requires Tracked()
      reads this
    {
      0 <= id < |refs| && index[id] == NO_SLOT != refs[id]
    }

    /**
     Removes the front; as written, a stale entry stays for it unless it was the only timer, and the new front
     has lost its slot. The stray read happens exactly when the last node comes strictly before all others but
     the front, so always with two timers.
     */
    method Pop(asWritten: bool) returns (outside: bool)
      requires |heap| > 0 && Sorted() && (!asWritten ==> Exact())
      modifies this
      ensures Sorted() && |heap| == |old(heap)| - 1 && Timers() == old(Timers()) - {old(heap)[0].id}
      ensures !asWritten ==> Exact()
      ensures asWritten && |old(heap)| == 1 && old(Exact()) ==> Exact()
      ensures asWritten && |old(heap)| > 1 ==> Stale(old(heap)[0].id)
      ensures asWritten && old(OthersRight()) ==> FrontLost()
      ensures forall id :: old(Stale(id)) ==> Stale(id)
      ensures outside <==> var last := |old(heap)| - 1; 0 < last && First(Swapped(old(heap), 0, last), last, 0)
    {
      if asWritten {
        outside := DelAsWritten(0);
      } else {
        outside := Del(0);
      }
    }

    /** What the fired timers have done to `ref_`, given how many timers there were. */
    ghost predicate TickIndex(asWritten: bool, size: nat, fired: seq<int>)
      requires Tracked()
      reads this
    {
      && (!asWritten || |fired| == 0 || size == 1 ==> Exact())
      && (asWritten && |fired| > 0 && size > 1 ==> Stale(fired[0]))
      && (asWritten && |fired| > 0 ==> FrontLost())
    }

    /** One round of the loop of lines 97-104: the front is fired if due, and otherwise nothing is due. */
    method FireFront(asWritten: bool, now: int, ghost size: nat, ghost fired: seq<int>)
      returns (id: int, due: bool, outside: bool)
      requires |heap| > 0 && Sorted() && TickIndex(asWritten, size, fired) && |heap| == size - |fired|
      modifies this
      ensures Sorted()
      ensures !due ==> heap == old(heap) && Timers() == old(Timers()) && TickIndex(asWritten, size, fired)
      ensures !due ==> forall k :: k in Timers() ==> !Due(Timers()[k], now)
      ensures due ==> |heap| == |old(heap)| - 1 && TickIndex(asWritten, size, fired + [id])
      ensures due ==> id in old(Timers()) && Timers() == old(Timers()) - {id}
      ensures due ==> Due(old(Timers())[id], now)
      ensures due ==> forall k :: k in old(Timers()) ==> old(Timers())[id] <= old(Timers())[k]
      ensures outside ==> due && |old(heap)| > 1
      ensures due && |old(heap)| == 2 ==> outside
    {
      FrontIsLeast();
      id, outside := heap[0].id, false;
      due := ToMillis(heap[0].expires - now) <= 0;
      if due {
        assert OthersRight();
        outside := Pop(asWritten);
      }
    }

    /**
     Fires due timers while the clock, first read as `t0` and last as `t1`, may advance between any two
     reads. Everything due at the start fires, nothing fires that is not due at the end, each id once,
     in order of expiry, and nothing due is left. With a standing clock (`t0 == t1`) this says that
     exactly the due timers fire. With line 53 `asWritten`, `ref_` is exact afterwards if and only if nothing
     fired or there was one timer only, and if something fired and timers are left, the front is the one that
     has lost its slot; with the line as intended `ref_` always is exact. `outside` tells of a stray read of
     `SiftUp_`: never with a single timer, always when firing goes on until at most one of several is left.
     */
    method Tick(t0: int, asWritten: bool) returns (fired: seq<int>, t1: int, outside: bool)
      requires Valid()
      modifies this
      ensures Sorted() && t0 <= t1
      ensures Exact() <==> !asWritten || |fired| == 0 || |old(heap)| == 1
      ensures asWritten && |fired| > 0 ==> FrontLost()
      ensures outside ==> |fired| > 0 && |old(heap)| > 1
      ensures |fired| > 0 && |old(heap)| > 1 && |heap| <= 1 ==> outside
      ensures FiredInOrder(old(Timers()), fired)
      ensures Timers() == old(Timers()) - set id | id in fired
      ensures forall id :: id in old(Timers()) && Due(old(Timers())[id], t0) ==> id in fired
      ensures forall id :: id in fired ==> Due(old(Timers())[id], t1)
      ensures forall id :: id in Timers() ==> !Due(Timers()[id], t1)
    {
      fired, t1, outside := [], t0, false;
      ghost var before := Timers();
      var due := |heap| > 0;
      while due
        invariant Sorted() && t0 <= t1 && |heap| == |old(heap)| - |fired|
        invariant Firing(before, Timers(), fired, t1)
        invariant TickIndex(asWritten, |old(heap)|, fired)
        invariant outside ==> |fired| > 0 && |old(heap)| > 1
        invariant |fired| > 0 && |old(heap)| > 1 && |heap| <= 1 ==> outside
        invariant due ==> |heap| > 0
        invariant !due ==> heap == [] || forall id :: id in Timers() ==> !Due(Timers()[id], t1)
        decreases |heap|, due
      {
        ghost var left := Timers();
        var id, stray;
        id, due, stray := FireFront(asWritten, t1, |old(heap)|, fired);
        outside := outside || stray;
        if due {
          FireOne(before, left, fired, id, t1);
          fired := fired + [id];
          var later: int := *;
          t1 := if later > t1 then later else t1;
          due := |heap| > 0;
        }
      }
      assert heap == [] ==> Timers() == map[];
      FiringDone(before, Timers(), fired, t0, t1);
    }

    /**
     The wait handed to the event loop: that of the least expiry, or -1 when no timer is left. `t2` is the
     clock read at line 121, after `Tick`; a `size_t` is never negative, so line 122 changes nothing, and
     with a timer left the result is negative exactly when the clock has passed the expiry by a millisecond.
     */
    method GetNextTick(t0: int, asWritten: bool)
      returns (r: int, fired: seq<int>, t1: int, t2: int, ghost least: int)
      requires Valid()
      modifies this
      ensures Sorted() && t0 <= t1 <= t2
      ensures Exact() <==> !asWritten || |fired| == 0 || |old(heap)| == 1
      ensures asWritten && |fired| > 0 ==> FrontLost()
      ensures FiredInOrder(old(Timers()), fired)
      ensures Timers() == old(Timers()) - set id | id in fired
      ensures forall id :: id in old(Timers()) && Due(old(Timers())[id], t0) ==> id in fired
      ensures forall id :: id in fired ==> Due(old(Timers())[id], t1)
      ensures Timers() == map[] ==> r == -1
      ensures Timers() != map[] ==>
                && least in Timers() && (forall k :: k in Timers() ==> Timers()[least] <= Timers()[k])
                && r == ToInt32(ToMillis(Timers()[least] - t2)) && !Due(Timers()[least], t1)
                && (-0x8000_0000 * MS <= Timers()[least] - t2 < 0x8000_0000 * MS ==>
                      && r == ToMillis(Timers()[least] - t2)
                      && (r < 0 <==> Timers()[least] - t2 <= -MS)
                      && (t1 == t2 ==> r > 0))
    {
      var outside;
      fired, t1, outside := Tick(t0, asWritten);
      var later: int := *;
      t2 := if later > t1 then later else t1;
      r, least := -1, 0;
      if |heap| > 0 {
        FrontIsLeast();
        least := heap[0].id;
        r := ToInt32(ToMillis(heap[0].expires - t2));
      } else {
        assert Timers() == map[];
      }
    }
  }

  /** Part of a tick: `fired` have gone from `timers` to `left`, due by `t` and none after what is left. */
  ghost predicate Firing(timers: map<int, int>, left: map<int, int>, fired: seq<int>, t: int) {
    && FiredInOrder(timers, fired)
    && left == timers - (set id | id in fired)
    && (forall k :: k in fired ==> Due(timers[k], t))
    && (forall id, k :: id in left && k in fired ==> timers[k] <= left[id])
  }

  lemma FireOne(timers: map<int, int>, left: map<int, int>, fired: seq<int>, id: int, t: int)
    requires Firing(timers, left, fired, t)
    requires id in left && Due(left[id], t) && forall k :: k in left ==> left[id] <= left[k]
    ensures Firing(timers, left - {id}, fired + [id], t)
  {
    assert forall k :: k in fired + [id] <==> k in fired || k == id;
  }

  /** A tick that stopped with nothing due left. */
  lemma FiringDone(timers: map<int, int>, left: map<int, int>, fired: seq<int>, t0: int, t1: int)
    requires Firing(timers, left, fired, t1) && t0 <= t1
    requires forall id :: id in left ==> !Due(left[id], t1)
    ensures forall id :: id in timers && Due(timers[id], t0) ==> id in fired
  {
    assert forall id :: id in timers ==> id in fired || (id in left && left[id] == timers[id]);
  }

  /** `expires` is strictly before every timer but that of `id`. */
  ghost predicate ComesFirst(timers: map<int, int>, id: int, expires: int) {
    forall k :: k in timers && k != id ==> expires < timers[k]
  }

  /** The same on the heap once the expiry is in its slot. */
  lemma ComesFirstAt(heap: seq<TimerNode>, index: seq<int>, slot: int, expires: int)
    requires RefsMatch(heap, index) && 0 <= slot < |heap|
    ensures First(heap[slot := TimerNode(heap[slot].id, expires)], |heap|, slot) <==>
              ComesFirst(TimersOf(heap, index), heap[slot].id, expires)
  {
    var heap', timers := heap[slot := TimerNode(heap[slot].id, expires)], TimersOf(heap, index);
    if First(heap', |heap|, slot) {
      forall k | k in timers && k != heap[slot].id
        ensures expires < timers[k]
      {
        assert heap'[index[k]].expires == timers[k];
      }
    }
    if ComesFirst(timers, heap[slot].id, expires) {
      forall k | 0 <= k < |heap| && k != slot
        ensures expires < heap'[k].expires
      {
        assert timers[heap[k].id] == heap[k].expires;
      }
    }
  }

  /** `fired` names distinct timers of `timers` by non-decreasing expiry. */
  ghost predicate FiredInOrder(timers: map<int, int>, fired: seq<int>) {
    && (forall i :: 0 <= i < |fired| ==> fired[i] in timers)
    && (forall i, j :: 0 <= i < j < |fired| ==> fired[i] != fired[j] && timers[fired[i]] <= timers[fired[j]])
  }
}
