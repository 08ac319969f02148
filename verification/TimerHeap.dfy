/** Pure facts about the array heap and its back index in server/src/timer/heaptimer.cpp. */
module TimerHeap {
  datatype TimerNode = TimerNode(id: int, expires: int)

  /** The value that `size_t(-1)` stands for in `ref_`: the id has no timer. */
  const NO_SLOT := -1

  function Parent(j: int): int
    requires j > 0
  {
    (j - 1) / 2
  }

  /** `(i - 1) / 2` in 64-bit unsigned arithmetic: at the root the subtraction wraps around. */
  function UnsignedParent(i: nat): (p: nat)
    ensures i == 0 ==> p == 0x7FFF_FFFF_FFFF_FFFF
    ensures i > 0 ==> p == Parent(i)
  {
    if i == 0 then (0x1_0000_0000_0000_0000 - 1) / 2 else (i - 1) / 2
  }

  /** `refs` is an exact inverse of `heap`. */
  ghost predicate RefsMatch(heap: seq<TimerNode>, refs: seq<int>) {
    && (forall i :: 0 <= i < |heap| ==> 0 <= heap[i].id < |refs| && refs[heap[i].id] == i)
    && (forall id :: 0 <= id < |refs| ==>
          refs[id] == NO_SLOT || (0 <= refs[id] < |heap| && heap[refs[id]].id == id))
  }

  ghost predicate Ordered(heap: seq<TimerNode>, n: int)
    requires n <= |heap|
  {
    forall j :: 0 < j < n ==> heap[Parent(j)].expires <= heap[j].expires
  }

  /** Ordered but perhaps between slot `i` and its parent. */
  ghost predicate OrderedBelow(heap: seq<TimerNode>, n: int, i: int)
    requires n <= |heap|
  {
    && (forall j :: 0 < j < n && j != i ==> heap[Parent(j)].expires <= heap[j].expires)
    && Bridged(heap, n, i)
  }

  /** Ordered but perhaps on the edges at slot `i`. */
  ghost predicate OrderedAround(heap: seq<TimerNode>, n: int, i: int)
    requires n <= |heap|
  {
    && (forall j :: 0 < j < n && j != i && Parent(j) != i ==> heap[Parent(j)].expires <= heap[j].expires)
    && Bridged(heap, n, i)
  }

  /** The children of `i` are not before the parent of `i`. */
  ghost predicate Bridged(heap: seq<TimerNode>, n: int, i: int)
    requires n <= |heap|
  {
    forall j :: 0 < i && 0 < j < n && Parent(j) == i ==> heap[Parent(i)].expires <= heap[j].expires
  }

  /** The abstract timer set: id to expiry. */
  function TimersOf(heap: seq<TimerNode>, refs: seq<int>): map<int, int>
    requires RefsMatch(heap, refs)
  {
    map id | 0 <= id < |refs| && refs[id] != NO_SLOT :: heap[refs[id]].expires
  }

  function Swapped(heap: seq<TimerNode>, i: int, j: int): (h: seq<TimerNode>)
    requires 0 <= i < |heap| && 0 <= j < |heap|
    ensures |h| == |heap|
  {
    heap[i := heap[j]][j := heap[i]]
  }

  lemma SwapKeepsTimers(heap: seq<TimerNode>, refs: seq<int>, i: int, j: int)
    requires RefsMatch(heap, refs) && 0 <= i < |heap| && 0 <= j < |heap|
    ensures var heap', refs' := Swapped(heap, i, j), refs[heap[j].id := i][heap[i].id := j];
            RefsMatch(heap', refs') && TimersOf(heap', refs') == TimersOf(heap, refs)
  {
  }

  /** With an exact index, the heap holds each timer of the map once and nothing else. */
  lemma NodesAreTimers(heap: seq<TimerNode>, refs: seq<int>, x: TimerNode)
    requires RefsMatch(heap, refs)
    ensures multiset(heap)[x]
            == if x.id in TimersOf(heap, refs) && TimersOf(heap, refs)[x.id] == x.expires then 1 else 0
  {
    if x in heap {
      var i := refs[x.id];
      var before, after := heap[..i], heap[i + 1..];
      assert heap == before + [heap[i]] + after;
      assert x !in before && x !in after;
    }
  }

  /** So operations that keep the map also keep the multiset of nodes. */
  lemma SameTimersSameNodes(heap: seq<TimerNode>, refs: seq<int>, heap': seq<TimerNode>, refs': seq<int>)
    requires RefsMatch(heap, refs) && RefsMatch(heap', refs') && TimersOf(heap, refs) == TimersOf(heap', refs')
    ensures multiset(heap) == multiset(heap')
  {
    forall x
      ensures multiset(heap)[x] == multiset(heap')[x]
    {
      NodesAreTimers(heap, refs, x);
      NodesAreTimers(heap', refs', x);
    }
  }

  /** One step of `SiftUp_`. */
  lemma SwapUp(heap: seq<TimerNode>, n: int, i: int)
    requires 0 < i < n <= |heap| && OrderedBelow(heap, n, i)
    requires heap[Parent(i)].expires > heap[i].expires
    ensures OrderedBelow(Swapped(heap, i, Parent(i)), n, Parent(i))
  {
    var p := Parent(i);
    var h := Swapped(heap, i, p);
    forall j | 0 < j < n && j != p
      ensures h[Parent(j)].expires <= h[j].expires
    {
      if j != i && Parent(j) == i {
        assert heap[p].expires <= heap[j].expires;
      }
    }
    forall j | 0 < p && 0 < j < n && Parent(j) == p
      ensures h[Parent(p)].expires <= h[j].expires
    {
      assert heap[Parent(p)].expires <= heap[p].expires;
      if j != i {
        assert heap[p].expires <= heap[j].expires;
      }
    }
  }

  /** One step of `SiftDown_`: `c` is the least child of `i` below `n`. */
  lemma SwapDown(heap: seq<TimerNode>, n: int, i: int, c: int)
    requires 0 <= i < c < n <= |heap| && Parent(c) == i && OrderedAround(heap, n, i)
    requires forall j :: 0 < j < n && Parent(j) == i ==> heap[c].expires <= heap[j].expires
    requires heap[c].expires <= heap[i].expires
    ensures OrderedAround(Swapped(heap, i, c), n, c)
    ensures 0 < i ==> heap[Parent(i)].expires <= heap[c].expires
  {
    var h := Swapped(heap, i, c);
    forall j | 0 < j < n && j != c && Parent(j) != c
      ensures h[Parent(j)].expires <= h[j].expires
    {
      if j == i {
        assert Parent(c) == i;
      }
    }
  }

  /** The child that `SiftDown_` compares with: the lesser one below `n`. */
  function LeastChild(heap: seq<TimerNode>, n: int, i: int): (c: int)
    requires 0 <= i && 2 * i + 1 < n <= |heap|
    ensures i < c < n && Parent(c) == i
    ensures forall j :: 0 < j < n && Parent(j) == i ==> heap[c].expires <= heap[j].expires
  {
    var child := 2 * i + 1;
    if child + 1 < n && heap[child + 1].expires < heap[child].expires then child + 1 else child
  }

  /** No child of `i` is before it, so only the edge above `i` can be out of order. */
  lemma SettledAt(heap: seq<TimerNode>, n: int, i: int)
    requires 0 <= i < |heap| && n <= |heap| && OrderedAround(heap, n, i)
    requires 2 * i + 1 < n ==> heap[i].expires <= heap[LeastChild(heap, n, i)].expires
    ensures OrderedBelow(heap, n, i)
    ensures i == 0 || n <= i || heap[Parent(i)].expires <= heap[i].expires ==> Ordered(heap, n)
  {
  }

  /** When only the edge above `i` is open, that edge decides. */
  lemma EdgeDecides(heap: seq<TimerNode>, n: int, i: int)
    requires 0 <= i < n <= |heap| && OrderedBelow(heap, n, i)
    ensures Ordered(heap, n) <==> i == 0 || heap[Parent(i)].expires <= heap[i].expires
  {
  }

  /** A new expiry in one slot disturbs only the edges at that slot. */
  lemma ReplaceAt(heap: seq<TimerNode>, refs: seq<int>, slot: int, expires: int)
    requires 0 <= slot < |heap| && RefsMatch(heap, refs) && Ordered(heap, |heap|)
    ensures var heap' := heap[slot := TimerNode(heap[slot].id, expires)];
            && RefsMatch(heap', refs) && OrderedAround(heap', |heap'|, slot)
            && TimersOf(heap', refs) == TimersOf(heap, refs)[heap[slot].id := expires]
  {
    var heap' := heap[slot := TimerNode(heap[slot].id, expires)];
    forall j | 0 < slot && 0 < j < |heap| && Parent(j) == slot
      ensures heap'[Parent(slot)].expires <= heap'[j].expires
    {
      assert heap[Parent(slot)].expires <= heap[slot].expires <= heap[j].expires;
    }
  }

  /** A node pushed at the end disturbs only the edge above it. */
  lemma PushLast(heap: seq<TimerNode>, refs: seq<int>, id: int, expires: int)
    requires RefsMatch(heap, refs) && Ordered(heap, |heap|) && 0 <= id < |refs| && refs[id] == NO_SLOT
    ensures var heap', refs' := heap + [TimerNode(id, expires)], refs[id := |heap|];
            && RefsMatch(heap', refs') && OrderedBelow(heap', |heap'|, |heap|)
            && TimersOf(heap', refs') == TimersOf(heap, refs)[id := expires]
  {
  }

  /** A node not before its least child is not before its parent either. */
  lemma SinkerIsBelowParent(heap: seq<TimerNode>, n: int, i: int)
    requires 0 < i && 2 * i + 1 < n <= |heap| && OrderedAround(heap, n, i)
    requires heap[LeastChild(heap, n, i)].expires <= heap[i].expires
    ensures heap[Parent(i)].expires <= heap[i].expires
  {
  }

  /** The last node moved into `slot` disturbs only the edges at `slot`. */
  lemma MoveLast(heap: seq<TimerNode>, slot: int)
    requires 0 <= slot < |heap| - 1 && Ordered(heap, |heap|)
    ensures OrderedAround(Swapped(heap, slot, |heap| - 1), |heap| - 1, slot)
  {
    forall j | 0 < slot && 0 < j < |heap| - 1 && Parent(j) == slot
      ensures heap[Parent(slot)].expires <= heap[j].expires
    {
      assert heap[Parent(slot)].expires <= heap[slot].expires <= heap[j].expires;
    }
  }

  /** Popping the last node takes its timer away. */
  lemma DropLast(heap: seq<TimerNode>, refs: seq<int>)
    requires |heap| > 0 && RefsMatch(heap, refs) && Ordered(heap, |heap| - 1)
    ensures var heap', refs' := heap[..|heap| - 1], refs[heap[|heap| - 1].id := NO_SLOT];
            && RefsMatch(heap', refs') && Ordered(heap', |heap'|)
            && TimersOf(heap', refs') == TimersOf(heap, refs) - {heap[|heap| - 1].id}
  {
  }

  /** Every entry was left alone, or written with the same slot in `ref_` and in the index it should be. */
  ghost predicate Steady(refs: seq<int>, index: seq<int>, refs': seq<int>, index': seq<int>) {
    && |refs| == |index| == |refs'| == |index'|
    && forall id :: 0 <= id < |refs| ==>
         (refs'[id] == refs[id] && index'[id] == index[id]) || refs'[id] == index'[id] != NO_SLOT
  }

  lemma SteadyTwice(refs: seq<int>, index: seq<int>, refs1: seq<int>, index1: seq<int>,
                    refs2: seq<int>, index2: seq<int>)
    requires Steady(refs, index, refs1, index1) && Steady(refs1, index1, refs2, index2)
    ensures Steady(refs, index, refs2, index2)
  {
  }

  /** Ids without a timer keep their entry, right or wrong. */
  ghost predicate GapsKept(refs: seq<int>, index: seq<int>, refs': seq<int>, index': seq<int>) {
    && |refs| == |index| == |refs'| == |index'|
    && forall id :: 0 <= id < |refs| && index[id] == NO_SLOT ==> index'[id] == NO_SLOT && refs'[id] == refs[id]
  }

  lemma SteadyKeepsGaps(heap: seq<TimerNode>, refs: seq<int>, index: seq<int>,
                        heap': seq<TimerNode>, refs': seq<int>, index': seq<int>)
    requires RefsMatch(heap, index) && RefsMatch(heap', index') && TimersOf(heap, index) == TimersOf(heap', index')
    requires Steady(refs, index, refs', index')
    ensures GapsKept(refs, index, refs', index')
  {
    forall id | 0 <= id < |refs| && index[id] == NO_SLOT
      ensures index'[id] == NO_SLOT
    {
      assert id !in TimersOf(heap', index');
    }
  }

  /** The root is a minimum. */
  lemma {:induction false} RootIsLeast(heap: seq<TimerNode>, i: int)
    requires 0 <= i < |heap| && Ordered(heap, |heap|)
    ensures heap[0].expires <= heap[i].expires
    decreases i
  {
    if i > 0 {
      RootIsLeast(heap, Parent(i));
    }
  }

  // ---------- who is least ----------

  /** Below a slot whose edge upwards is open, the root is still least among the slots before it. */
  lemma {:induction false} RootIsLeastBefore(heap: seq<TimerNode>, n: int, i: int, j: int)
    requires 0 <= j < i < n <= |heap| && OrderedBelow(heap, n, i)
    ensures heap[0].expires <= heap[j].expires
    decreases j
  {
    if j > 0 {
      RootIsLeastBefore(heap, n, i, Parent(j));
    }
  }

  /** With only the edges at `i > 0` open, the root is least among all other slots. */
  lemma {:induction false} RootIsLeastAround(heap: seq<TimerNode>, n: int, i: int, k: int)
    requires 0 < i < n <= |heap| && 0 <= k < n && k != i && OrderedAround(heap, n, i)
    ensures heap[0].expires <= heap[k].expires
    decreases k
  {
    if k > 0 {
      RootIsLeastAround(heap, n, i, if Parent(k) == i then Parent(i) else Parent(k));
    }
  }

  /** A root strictly before its children is strictly before every other slot. */
  lemma {:induction false} StrictRoot(heap: seq<TimerNode>, n: int, k: int)
    requires 0 < k < n <= |heap| && OrderedAround(heap, n, 0)
    requires heap[0].expires < heap[LeastChild(heap, n, 0)].expires
    ensures heap[0].expires < heap[k].expires
    decreases k
  {
    if Parent(k) > 0 {
      StrictRoot(heap, n, Parent(k));
    }
  }

  /** Slot `i` is strictly before every other slot below `n`. */
  ghost predicate First(heap: seq<TimerNode>, n: int, i: int)
    requires 0 <= i < n <= |heap|
  {
    forall k :: 0 <= k < n && k != i ==> heap[i].expires < heap[k].expires
  }

  /** A slot not after its least child is first exactly when it is the root or before the root. */
  lemma FirstIff(heap: seq<TimerNode>, n: int, i: int)
    requires 0 <= i < n <= |heap| && OrderedAround(heap, n, i)
    requires 2 * i + 1 < n ==> heap[i].expires < heap[LeastChild(heap, n, i)].expires
    ensures First(heap, n, i) <==> i == 0 || heap[i].expires < heap[0].expires
  {
    forall k | 0 <= k < n && k != i && (i == 0 || heap[i].expires < heap[0].expires)
      ensures heap[i].expires < heap[k].expires
    {
      if i == 0 {
        assert 1 < n;
        StrictRoot(heap, n, k);
      } else {
        RootIsLeastAround(heap, n, i, k);
      }
    }
  }

  // ---------- the index ----------

  /** There is only one exact index of its length. */
  lemma IndexIsUnique(heap: seq<TimerNode>, refs: seq<int>, refs': seq<int>)
    requires RefsMatch(heap, refs) && |refs| == |refs'|
    ensures RefsMatch(heap, refs') <==> refs' == refs
  {
    if RefsMatch(heap, refs') {
      forall id | 0 <= id < |refs|
        ensures refs'[id] == refs[id]
      {
      }
    }
  }

  function UpTo(n: nat): (r: set<int>)
    ensures |r| == n && forall x :: x in r <==> 0 <= x < n
  {
    if n == 0 then {} else UpTo(n - 1) + {n - 1}
  }

  function IdsUpTo(heap: seq<TimerNode>, n: nat): (r: set<int>)
    requires n <= |heap| && forall i, j :: 0 <= i < j < |heap| ==> heap[i].id != heap[j].id
    ensures |r| == n && forall x :: x in r <==> exists i :: 0 <= i < n && heap[i].id == x
  {
    if n == 0 then {} else IdsUpTo(heap, n - 1) + {heap[n - 1].id}
  }

  lemma SubsetSize(a: set<int>, b: set<int>)
    requires a <= b
    ensures |a| <= |b|
  {
    assert b == a + (b - a);
  }

  /** Distinct ids within the index: the heap is no longer than the index. */
  lemma HeapFitsIndex(heap: seq<TimerNode>, refs: seq<int>)
    requires RefsMatch(heap, refs)
    ensures |heap| <= |refs|
  {
    SubsetSize(IdsUpTo(heap, |heap|), UpTo(|refs|));
  }

  /** The map has as many timers as the heap has nodes. */
  lemma AsManyTimers(heap: seq<TimerNode>, refs: seq<int>)
    requires RefsMatch(heap, refs)
    ensures |TimersOf(heap, refs)| == |heap|
  {
    assert TimersOf(heap, refs).Keys == IdsUpTo(heap, |heap|);
    assert |TimersOf(heap, refs).Keys| == |TimersOf(heap, refs)|;
  }

  /** `refs` has the right slot for the nodes in slots `from` up to `n`, whatever it has for other ids. */
  ghost predicate SlotsRight(heap: seq<TimerNode>, refs: seq<int>, from: int, n: int) {
    forall k :: 0 <= from <= k < n && k < |heap| ==> 0 <= heap[k].id < |refs| && refs[heap[k].id] == k
  }

  lemma SteadyKeepsSlots(heap: seq<TimerNode>, refs: seq<int>, index: seq<int>,
                         heap': seq<TimerNode>, refs': seq<int>, index': seq<int>)
    requires RefsMatch(heap, index) && RefsMatch(heap', index') && Steady(refs, index, refs', index')
    requires |heap| == |heap'| && SlotsRight(heap, refs, 0, |heap|)
    ensures SlotsRight(heap', refs', 0, |heap'|)
  {
    forall k | 0 <= k < |heap'|
      ensures refs'[heap'[k].id] == k
    {
      var id := heap'[k].id;
      assert index'[id] == k;
      if index[id] == k {
        assert heap[k].id == id;
      }
    }
  }

  /** Line 53 as written on the front, then the pop: the front is the only node without its slot. */
  lemma ClearFront(heap: seq<TimerNode>, refs: seq<int>, index: seq<int>)
    requires |heap| > 0 && RefsMatch(heap, index) && |refs| == |index| && SlotsRight(heap, refs, 0, |heap| - 1)
    ensures var heap', refs' := heap[..|heap| - 1], refs[heap[0].id := NO_SLOT];
            SlotsRight(heap', refs', 1, |heap'|) && (|heap'| > 0 ==> refs'[heap'[0].id] == NO_SLOT)
  {
    forall k | 0 < k < |heap|
      ensures heap[k].id != heap[0].id
    {
      assert index[heap[k].id] == k;
    }
  }

  /** A swap of the front with the last node that records both slots leaves every slot right. */
  lemma SwapRepairsFront(heap: seq<TimerNode>, refs: seq<int>, index: seq<int>,
                         heap': seq<TimerNode>, refs': seq<int>, index': seq<int>)
    requires |heap| > 0 && heap' == Swapped(heap, 0, |heap| - 1)
    requires RefsMatch(heap', index') && Steady(refs, index, refs', index') && SlotsRight(heap, refs, 1, |heap|)
    requires refs'[heap'[0].id] == 0 && refs'[heap'[|heap| - 1].id] == |heap| - 1
    ensures SlotsRight(heap', refs', 0, |heap'|)
  {
    forall k | 0 < k < |heap| - 1
      ensures refs'[heap'[k].id] == k
    {
      assert heap'[k] == heap[k] && index'[heap[k].id] == k;
    }
  }

  /** `gone` has no timer and keeps the entry `last`; the timer of `hurt` is at `slot` and has no entry. */
  ghost predicate WrongEntries(refs: seq<int>, index: seq<int>, gone: int, hurt: int, slot: int, last: int) {
    && 0 <= gone < |refs| == |index| && 0 <= hurt < |refs| && gone != hurt
    && index[gone] == NO_SLOT && refs[gone] == last
    && index[hurt] == slot && refs[hurt] == NO_SLOT
  }

  /** What lines 53-54 as written do to the entries of the removed id and of the node now at `slot`. */
  lemma ClearWrongSlot(heap: seq<TimerNode>, refs: seq<int>, index: seq<int>, slot: int)
    requires 0 <= slot < |heap| - 1 && RefsMatch(heap, index) && |refs| == |index|
    requires refs[heap[|heap| - 1].id] == |heap| - 1
    ensures var last := |heap| - 1;
            var gone, hurt := heap[last].id, heap[slot].id;
            var refs', index' := refs[hurt := NO_SLOT], index[gone := NO_SLOT];
            && WrongEntries(refs', index', gone, hurt, slot, last)
            && (refs == index ==> refs' == index'[gone := last][hurt := NO_SLOT])
  {
    assert index[heap[slot].id] == slot && index[heap[|heap| - 1].id] == |heap| - 1;
  }

  lemma ClearKeepsGaps(heap: seq<TimerNode>, refs: seq<int>, index: seq<int>, slot: int)
    requires 0 <= slot < |heap| && RefsMatch(heap, index) && |refs| == |index|
    ensures GapsKept(refs, index, refs[heap[slot].id := NO_SLOT], index[heap[|heap| - 1].id := NO_SLOT])
  {
  }
}
