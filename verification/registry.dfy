/** The fixed-capacity subscriber slot arena and the priority-ordered
    doubly-linked list threaded through it by index (`insert_subscriber`,
    `remove_subscriber`, `sub_finde_free_slot`, `sub_add`).

    The list is described by a ghost sequence `order` of slot indices read
    from `head` along `next`; `Linked` ties the arena's links to it. The
    links of a free slot are not constrained: nothing reads them, and
    `sub_add` resets them before linking the slot. */
module Registry {
  import opened Types

  datatype SlotStatus = Free | Used | InWork

  /** One arena slot; `context` and `callback` stand for the opaque
      pointers the caller registered. */
  datatype Subscriber = Subscriber(
    status: SlotStatus,
    etype: EventType,
    priority: u8,
    context: nat,
    callback: nat,
    prev: int,
    next: int)

  datatype Registry = Registry(subs: seq<Subscriber>, head: int)

  /** The slot with its link fields blanked: what it holds apart from the list. */
  function Unlinked(s: Subscriber): (u: Subscriber)
  {
    s.(prev := Nil, next := Nil)
  }

  /** Two arenas that differ at most in their link fields. */
  ghost predicate SameData(a: seq<Subscriber>, b: seq<Subscriber>)
  {
    |a| == |b| && forall i | 0 <= i < |a| :: Unlinked(a[i]) == Unlinked(b[i])
  }

  ghost predicate InRange(subs: seq<Subscriber>, order: seq<int>)
  {
    forall k | 0 <= k < |order| :: 0 <= order[k] < |subs|
  }

  ghost predicate Distinct(order: seq<int>)
  {
    forall i, j | 0 <= i < j < |order| :: order[i] != order[j]
  }

  /** The slot after position k of the list, or Nil at the end. */
  function Succ(order: seq<int>, k: nat): (next: int)
    requires k < |order|
  {
    if k + 1 < |order| then order[k + 1] else Nil
  }

  /** The slot before position k of the list, or Nil at the front. */
  function Pred(order: seq<int>, k: nat): (prev: int)
    requires k < |order|
  {
    if k == 0 then Nil else order[k - 1]
  }

  /** Following `head` and the links visits the slots of `order` in turn. */
  ghost predicate Chain(r: Registry, order: seq<int>)
  {
    && InRange(r.subs, order)
    && r.head == (if |order| == 0 then Nil else order[0])
    && (forall k {:trigger r.subs[order[k]]} | 0 <= k < |order| :: r.subs[order[k]].next == Succ(order, k))
    && (forall k {:trigger r.subs[order[k]]} | 0 <= k < |order| :: r.subs[order[k]].prev == Pred(order, k))
  }

  /** The arena's head and links spell out exactly the list `order`,
      which visits no slot twice. */
  ghost predicate Threads(r: Registry, order: seq<int>)
  {
    Chain(r, order) && Distinct(order)
  }

  /** The full registry invariant: the list threads the arena and holds
      exactly the slots that are not free. */
  ghost predicate Linked(r: Registry, order: seq<int>)
  {
    && Threads(r, order)
    && forall i | 0 <= i < |r.subs| :: (r.subs[i].status == Free <==> i !in order)
  }

  /** The registry with slot i's status set to s. */
  function SetStatus(r: Registry, i: int, s: SlotStatus): (r': Registry)
    requires 0 <= i < |r.subs|
  {
    r.(subs := r.subs[i := r.subs[i].(status := s)])
  }

  /** Priorities never decrease walking the list from its head. */
  ghost predicate Sorted(subs: seq<Subscriber>, order: seq<int>)
    requires InRange(subs, order)
  {
    forall i, j | 0 <= i < j < |order| :: subs[order[i]].priority <= subs[order[j]].priority
  }

  /** The list `order` with `x` spliced in before position k. */
  function InsertAt(order: seq<int>, k: nat, x: int): (o: seq<int>)
    requires k <= |order|
    ensures |o| == |order| + 1 && o[k] == x
    ensures forall j | 0 <= j < k :: o[j] == order[j]
    ensures forall j | k < j < |o| :: o[j] == order[j - 1]
  {
    order[..k] + [x] + order[k..]
  }

  /** The list `order` with position k cut out. */
  function RemoveAt(order: seq<int>, k: nat): (o: seq<int>)
    requires k < |order|
    ensures |o| == |order| - 1
    ensures forall j | 0 <= j < k :: o[j] == order[j]
    ensures forall j | k <= j < |o| :: o[j] == order[j + 1]
  {
    order[..k] + order[k + 1..]
  }

  /** Where a slot of priority p belongs: the first position of the list
      whose priority exceeds p, or the end of the list. */
  ghost function InsertPos(subs: seq<Subscriber>, order: seq<int>, p: u8): (k: nat)
    requires InRange(subs, order)
    ensures k <= |order|
    ensures forall j | 0 <= j < k :: subs[order[j]].priority <= p
    ensures k < |order| ==> subs[order[k]].priority > p
  {
    if |order| == 0 || subs[order[0]].priority > p then 0
    else 1 + InsertPos(subs, order[1..], p)
  }

  /** `sub_finde_free_slot`: the lowest free slot index, or -1 when every
      slot is taken. */
  method FindFreeSlot(r: Registry) returns (slot: int)
    ensures slot == Nil <==> forall i | 0 <= i < |r.subs| :: r.subs[i].status != Free
    ensures slot != Nil ==>
              && 0 <= slot < |r.subs| && r.subs[slot].status == Free
              && forall i | 0 <= i < slot :: r.subs[i].status != Free
  {
    var i := 0;
    while i < |r.subs|
      invariant 0 <= i <= |r.subs|
      invariant forall j | 0 <= j < i :: r.subs[j].status != Free
    {
      if r.subs[i].status == Free {
        return i;
      }
      i := i + 1;
    }
    return Nil;
  }

  /** `insert_subscriber`: walks from the head past every slot whose
      priority is at most the new slot's and splices the new slot in there,
      so it lands after all equal-priority incumbents. Only link fields
      change. */
  method InsertSubscriber(r: Registry, idx: int, ghost order: seq<int>) returns (r': Registry)
    requires Threads(r, order)
    requires 0 <= idx < |r.subs| && idx !in order
    ensures SameData(r.subs, r'.subs)
    ensures Threads(r', InsertAt(order, InsertPos(r.subs, order, r.subs[idx].priority), idx))
  {
    var p := r.subs[idx].priority;
    if r.head == Nil {
      r' := Registry(r.subs[idx := r.subs[idx].(next := Nil, prev := Nil)], idx);
      assert order == [];
      return;
    }
    var cur := r.head;
    var prev := Nil;
    ghost var k := 0;
    while cur != Nil && r.subs[cur].priority <= p
      invariant 0 <= k <= |order|
      invariant cur == (if k < |order| then order[k] else Nil)
      invariant prev == (if k == 0 then Nil else order[k - 1])
      invariant forall j | 0 <= j < k :: r.subs[order[j]].priority <= p
      decreases |order| - k
    {
      prev := cur;
      cur := r.subs[cur].next;
      k := k + 1;
    }
    assert k == InsertPos(r.subs, order, p);
    if prev == Nil {
      SpliceFront(r, order, idx);
      r' := LinkFront(r, idx);
    } else {
      SpliceAfter(r, order, k, idx);
      r' := LinkAfter(r, idx, prev, cur);
    }
  }

  /** The splice of `insert_subscriber` at the front of a non-empty list:
      `idx` points at the old head, which points back, and becomes the head. */
  function LinkFront(r: Registry, idx: int): (r': Registry)
    requires 0 <= idx < |r.subs| && 0 <= r.head < |r.subs|
  {
    var s1 := r.subs[idx := r.subs[idx].(next := r.head, prev := Nil)];
    Registry(s1[r.head := s1[r.head].(prev := idx)], idx)
  }

  /** The splice of `insert_subscriber` between `prev` and `cur` (Nil at the
      end of the list). */
  function LinkAfter(r: Registry, idx: int, prev: int, cur: int): (r': Registry)
    requires 0 <= idx < |r.subs| && 0 <= prev < |r.subs| && LinkOk(cur, |r.subs|)
  {
    var s1 := r.subs[idx := r.subs[idx].(next := cur, prev := prev)];
    var s2 := s1[prev := s1[prev].(next := idx)];
    Registry(if cur != Nil then s2[cur := s2[cur].(prev := idx)] else s2, r.head)
  }

  /** Splicing a slot in front of a non-empty list. */
  lemma SpliceFront(r: Registry, order: seq<int>, idx: int)
    requires Threads(r, order) && |order| > 0
    requires 0 <= idx < |r.subs| && idx !in order
    ensures Threads(LinkFront(r, idx), InsertAt(order, 0, idx)) && SameData(r.subs, LinkFront(r, idx).subs)
  {
    var s2 := LinkFront(r, idx).subs;
    var o' := InsertAt(order, 0, idx);
    InsertAtDistinct(r.subs, order, 0, idx);
    forall j | 0 <= j < |o'|
      ensures s2[o'[j]].next == Succ(o', j) && s2[o'[j]].prev == Pred(o', j)
    {
      if j == 0 {
      } else if j == 1 {
        assert o'[j] == order[0] == r.head;
      } else {
        assert o'[j] == order[j - 1] != order[0];
      }
    }
  }

  /** Splicing keeps the list's slots in range and pairwise distinct. */
  lemma InsertAtDistinct(subs: seq<Subscriber>, order: seq<int>, k: nat, idx: int)
    requires InRange(subs, order) && Distinct(order) && k <= |order|
    requires 0 <= idx < |subs| && idx !in order
    ensures InRange(subs, InsertAt(order, k, idx)) && Distinct(InsertAt(order, k, idx))
  {
    var o' := InsertAt(order, k, idx);
    forall i, j | 0 <= i < j < |o'| ensures o'[i] != o'[j] {
      if i != k && j != k {
        var i0 := if i < k then i else i - 1;
        var j0 := if j < k then j else j - 1;
        assert o'[i] == order[i0] && o'[j] == order[j0] && i0 < j0;
      }
    }
  }

  /** Splicing a slot in after position k - 1 of the list. */
  lemma SpliceAfter(r: Registry, order: seq<int>, k: nat, idx: int)
    requires Threads(r, order) && 0 < k <= |order|
    requires 0 <= idx < |r.subs| && idx !in order
    ensures var r' := LinkAfter(r, idx, order[k - 1], if k < |order| then order[k] else Nil);
            Threads(r', InsertAt(order, k, idx)) && SameData(r.subs, r'.subs)
  {
    var prev := order[k - 1];
    var cur := if k < |order| then order[k] else Nil;
    assert prev != idx && prev != cur && cur != idx;
    var s := LinkAfter(r, idx, prev, cur).subs;
    InsertAtDistinct(r.subs, order, k, idx);
    RelinkNext(r, order, k, idx, s);
    RelinkPrev(r, order, k, idx, s);
  }

  /** The list with `idx` spliced in at position k is followed forwards by
      any arena that agrees with `r` except that `idx` points at its two
      new neighbours and those neighbours point back at it. */
  lemma RelinkNext(r: Registry, order: seq<int>, k: nat, idx: int, s: seq<Subscriber>)
    requires Threads(r, order) && 0 < k <= |order|
    requires 0 <= idx < |r.subs| && idx !in order && |s| == |r.subs|
    requires s[idx] == r.subs[idx].(next := Succ(InsertAt(order, k, idx), k), prev := order[k - 1])
    requires s[order[k - 1]] == r.subs[order[k - 1]].(next := idx)
    requires k < |order| ==> s[order[k]] == r.subs[order[k]].(prev := idx)
    requires forall x | 0 <= x < |s| && x != idx && x != order[k - 1] && x != Succ(order, k - 1) :: s[x] == r.subs[x]
    ensures forall j | 0 <= j < |InsertAt(order, k, idx)| :: s[InsertAt(order, k, idx)[j]].next == Succ(InsertAt(order, k, idx), j)
  {
    var o' := InsertAt(order, k, idx);
    forall j | 0 <= j < |o'|
      ensures s[o'[j]].next == Succ(o', j)
    {
      if j < k - 1 {
        assert o'[j] == order[j] && o'[j + 1] == order[j + 1];
      } else if j > k + 1 {
        assert o'[j] == order[j - 1];
      }
    }
  }

  /** ... and backwards. */
  lemma RelinkPrev(r: Registry, order: seq<int>, k: nat, idx: int, s: seq<Subscriber>)
    requires Threads(r, order) && 0 < k <= |order|
    requires 0 <= idx < |r.subs| && idx !in order && |s| == |r.subs|
    requires s[idx] == r.subs[idx].(next := Succ(InsertAt(order, k, idx), k), prev := order[k - 1])
    requires s[order[k - 1]] == r.subs[order[k - 1]].(next := idx)
    requires k < |order| ==> s[order[k]] == r.subs[order[k]].(prev := idx)
    requires forall x | 0 <= x < |s| && x != idx && x != order[k - 1] && x != Succ(order, k - 1) :: s[x] == r.subs[x]
    ensures forall j | 0 <= j < |InsertAt(order, k, idx)| :: s[InsertAt(order, k, idx)[j]].prev == Pred(InsertAt(order, k, idx), j)
  {
    var o' := InsertAt(order, k, idx);
    forall j | 0 <= j < |o'|
      ensures s[o'[j]].prev == Pred(o', j)
    {
      if j < k - 1 {
        assert o'[j] == order[j];
      } else if j > k + 1 {
        assert o'[j] == order[j - 1] && o'[j - 1] == order[j - 2];
      }
    }
  }

  /** Whether a link value is Nil or a slot index of an arena of n slots. */
  predicate LinkOk(link: int, n: nat)
  {
    link == Nil || 0 <= link < n
  }

  /** `remove_subscriber`: rewires the neighbours of `idx` around it, moves
      the head on when `idx` was the head, then clears the links of `idx`
      and marks it free. */
  function RemoveSubscriber(r: Registry, idx: int): (r': Registry)
    requires 0 <= idx < |r.subs|
    requires LinkOk(r.subs[idx].prev, |r.subs|) && LinkOk(r.subs[idx].next, |r.subs|)
    ensures |r'.subs| == |r.subs|
  {
    var prev := r.subs[idx].prev;
    var next := r.subs[idx].next;
    var s1 := if prev != Nil then r.subs[prev := r.subs[prev].(next := next)] else r.subs;
    var head := if prev != Nil then r.head else next;
    var s2 := if next != Nil then s1[next := s1[next].(prev := prev)] else s1;
    Registry(s2[idx := s2[idx].(next := Nil, prev := Nil, status := Free)], head)
  }

  /** Removing the slot at position k of a well-formed list leaves the same
      list with that position cut out, in the same order and still sorted;
      the removed slot ends free and unlinked and no other slot's data
      changes. */
  lemma RemoveUnlinks(r: Registry, order: seq<int>, k: nat)
    requires Linked(r, order) && k < |order|
    ensures var r' := RemoveSubscriber(r, order[k]);
            && Linked(r', RemoveAt(order, k))
            && r'.subs[order[k]] == Unlinked(r.subs[order[k]]).(status := Free)
            && (forall i | 0 <= i < |r.subs| && i != order[k] :: Unlinked(r'.subs[i]) == Unlinked(r.subs[i]))
            && (Sorted(r.subs, order) ==> Sorted(r'.subs, RemoveAt(order, k)))
  {
    var r' := RemoveSubscriber(r, order[k]);
    RemoveEffect(r, order, k);
    UnlinkThreads(r, order, k, r');
    UnlinkStatus(r, order, k, r');
    assert Linked(r', RemoveAt(order, k));
    if Sorted(r.subs, order) {
      forall x | 0 <= x < |r.subs| && x != order[k]
        ensures r'.subs[x].priority == r.subs[x].priority
      {
        assert Unlinked(r'.subs[x]).priority == Unlinked(r.subs[x]).priority;
      }
      RemoveKeepsSorted(r.subs, r'.subs, order, k);
    }
  }

  /** What `RemoveSubscriber` does to each slot of a well-formed list. */
  lemma RemoveEffect(r: Registry, order: seq<int>, k: nat)
    requires Threads(r, order) && k < |order|
    ensures var r' := RemoveSubscriber(r, order[k]);
            && r'.head == (if k == 0 then Succ(order, k) else r.head)
            && r'.subs[order[k]] == r.subs[order[k]].(next := Nil, prev := Nil, status := Free)
            && (k > 0 ==> r'.subs[order[k - 1]] == r.subs[order[k - 1]].(next := Succ(order, k)))
            && (k + 1 < |order| ==> r'.subs[order[k + 1]] == r.subs[order[k + 1]].(prev := Pred(order, k)))
            && (forall x | 0 <= x < |r.subs| && x != order[k] && x != Pred(order, k) && x != Succ(order, k) :: r'.subs[x] == r.subs[x])
            && forall x | 0 <= x < |r.subs| && x != order[k] :: Unlinked(r'.subs[x]) == Unlinked(r.subs[x])
  {
    assert k > 0 ==> order[k - 1] != order[k];
    assert k + 1 < |order| ==> order[k + 1] != order[k];
    assert k > 0 && k + 1 < |order| ==> order[k - 1] != order[k + 1];
  }

  lemma RemoveAtDistinct(subs: seq<Subscriber>, order: seq<int>, k: nat)
    requires InRange(subs, order) && Distinct(order) && k < |order|
    ensures InRange(subs, RemoveAt(order, k)) && Distinct(RemoveAt(order, k))
  {
    var o' := RemoveAt(order, k);
    forall i, j | 0 <= i < j < |o'| ensures o'[i] != o'[j] {
      var i0 := if i < k then i else i + 1;
      var j0 := if j < k then j else j + 1;
      assert o'[i] == order[i0] && o'[j] == order[j0] && i0 < j0;
    }
  }

  /** The list with position k cut out is threaded by any arena that agrees
      with `r` except that the removed slot is unlinked and its neighbours
      point at each other. */
  lemma UnlinkThreads(r: Registry, order: seq<int>, k: nat, r': Registry)
    requires Threads(r, order) && k < |order| && |r'.subs| == |r.subs|
    requires r'.head == (if k == 0 then Succ(order, k) else r.head)
    requires k > 0 ==> r'.subs[order[k - 1]] == r.subs[order[k - 1]].(next := Succ(order, k))
    requires k + 1 < |order| ==> r'.subs[order[k + 1]] == r.subs[order[k + 1]].(prev := Pred(order, k))
    requires forall x | 0 <= x < |r.subs| && x != order[k] && x != Pred(order, k) && x != Succ(order, k) :: r'.subs[x] == r.subs[x]
    ensures Threads(r', RemoveAt(order, k))
  {
    var o' := RemoveAt(order, k);
    RemoveAtDistinct(r.subs, order, k);
    UnlinkNext(r, order, k, r');
    UnlinkPrev(r, order, k, r');
    assert |o'| > 0 ==> o'[0] == (if k == 0 then order[1] else order[0]);
  }

  /** ... followed forwards ... */
  lemma UnlinkNext(r: Registry, order: seq<int>, k: nat, r': Registry)
    requires Threads(r, order) && k < |order| && |r'.subs| == |r.subs|
    requires r'.head == (if k == 0 then Succ(order, k) else r.head)
    requires k > 0 ==> r'.subs[order[k - 1]] == r.subs[order[k - 1]].(next := Succ(order, k))
    requires k + 1 < |order| ==> r'.subs[order[k + 1]] == r.subs[order[k + 1]].(prev := Pred(order, k))
    requires forall x | 0 <= x < |r.subs| && x != order[k] && x != Pred(order, k) && x != Succ(order, k) :: r'.subs[x] == r.subs[x]
    ensures forall j | 0 <= j < |RemoveAt(order, k)| :: r'.subs[RemoveAt(order, k)[j]].next == Succ(RemoveAt(order, k), j)
  {
    var o' := RemoveAt(order, k);
    forall j | 0 <= j < |o'|
      ensures r'.subs[o'[j]].next == Succ(o', j)
    {
      if j < k - 1 {
        assert o'[j] == order[j] && o'[j + 1] == order[j + 1];
      } else if j >= k + 1 {
        assert o'[j] == order[j + 1];
      }
    }
  }

  /** ... and backwards. */
  lemma UnlinkPrev(r: Registry, order: seq<int>, k: nat, r': Registry)
    requires Threads(r, order) && k < |order| && |r'.subs| == |r.subs|
    requires r'.head == (if k == 0 then Succ(order, k) else r.head)
    requires k > 0 ==> r'.subs[order[k - 1]] == r.subs[order[k - 1]].(next := Succ(order, k))
    requires k + 1 < |order| ==> r'.subs[order[k + 1]] == r.subs[order[k + 1]].(prev := Pred(order, k))
    requires forall x | 0 <= x < |r.subs| && x != order[k] && x != Pred(order, k) && x != Succ(order, k) :: r'.subs[x] == r.subs[x]
    ensures forall j | 0 <= j < |RemoveAt(order, k)| :: r'.subs[RemoveAt(order, k)[j]].prev == Pred(RemoveAt(order, k), j)
  {
    var o' := RemoveAt(order, k);
    forall j | 0 <= j < |o'|
      ensures r'.subs[o'[j]].prev == Pred(o', j)
    {
      if j < k {
        assert o'[j] == order[j];
      } else if j > k {
        assert o'[j] == order[j + 1] && o'[j - 1] == order[j];
      }
    }
  }

  /** After the removal, exactly the slots left in the list are not free. */
  lemma UnlinkStatus(r: Registry, order: seq<int>, k: nat, r': Registry)
    requires Linked(r, order) && k < |order| && |r'.subs| == |r.subs|
    requires r'.subs[order[k]].status == Free
    requires forall x | 0 <= x < |r.subs| && x != order[k] :: Unlinked(r'.subs[x]) == Unlinked(r.subs[x])
    ensures forall x | 0 <= x < |r'.subs| :: (r'.subs[x].status == Free <==> x !in RemoveAt(order, k))
  {
    var o' := RemoveAt(order, k);
    forall x | 0 <= x < |r'.subs|
      ensures r'.subs[x].status == Free <==> x !in o'
    {
      if x in o' {
        var j :| 0 <= j < |o'| && o'[j] == x;
        var j0 := if j < k then j else j + 1;
        assert x == order[j0] && j0 != k;
      }
      if x in order && x != order[k] {
        var j :| 0 <= j < |order| && order[j] == x;
        var j' := if j < k then j else j - 1;
        assert o'[j'] == x;
      }
      if x != order[k] {
        assert Unlinked(r'.subs[x]).status == Unlinked(r.subs[x]).status;
      }
    }
  }

  /** Cutting a position out of a sorted list leaves it sorted. */
  lemma RemoveKeepsSorted(a: seq<Subscriber>, b: seq<Subscriber>, order: seq<int>, k: nat)
    requires InRange(a, order) && Sorted(a, order) && k < |order| && |b| == |a|
    requires forall x | 0 <= x < |a| && x != order[k] :: b[x].priority == a[x].priority
    requires Distinct(order)
    ensures InRange(b, RemoveAt(order, k)) && Sorted(b, RemoveAt(order, k))
  {
    var o' := RemoveAt(order, k);
    forall i, j | 0 <= i < j < |o'|
      ensures b[o'[i]].priority <= b[o'[j]].priority
    {
      var i0 := if i < k then i else i + 1;
      var j0 := if j < k then j else j + 1;
      assert o'[i] == order[i0] && o'[j] == order[j0] && i0 < j0;
    }
  }

  /** InsertPos reads only the priorities of the listed slots. */
  lemma {:induction false} InsertPosFrame(a: seq<Subscriber>, b: seq<Subscriber>, order: seq<int>, p: u8)
    requires InRange(a, order) && InRange(b, order)
    requires forall k | 0 <= k < |order| :: a[order[k]].priority == b[order[k]].priority
    ensures InsertPos(a, order, p) == InsertPos(b, order, p)
  {
    if |order| > 0 && a[order[0]].priority <= p {
      InsertPosFrame(a, b, order[1..], p);
    }
  }

  /** Inserting at InsertPos keeps a sorted list sorted, and the new slot
      lands after exactly the slots whose priority is at most its own: ties
      go after the incumbents. */
  lemma InsertKeepsSorted(subs: seq<Subscriber>, order: seq<int>, idx: int)
    requires InRange(subs, order) && Sorted(subs, order) && 0 <= idx < |subs|
    ensures var p := subs[idx].priority;
            var k := InsertPos(subs, order, p);
            && InRange(subs, InsertAt(order, k, idx))
            && Sorted(subs, InsertAt(order, k, idx))
            && forall j | 0 <= j < |order| :: (subs[order[j]].priority <= p <==> j < k)
  {
    InsertPosSplits(subs, order, subs[idx].priority);
    InsertSplitSorted(subs, order, InsertPos(subs, order, subs[idx].priority), idx);
  }

  /** On a sorted list, InsertPos separates the slots of priority at most
      p (before it) from those above p (from it on). */
  lemma InsertPosSplits(subs: seq<Subscriber>, order: seq<int>, p: u8)
    requires InRange(subs, order) && Sorted(subs, order)
    ensures var k := InsertPos(subs, order, p);
            forall j | 0 <= j < |order| :: (subs[order[j]].priority <= p <==> j < k)
  {
    var k := InsertPos(subs, order, p);
    forall j | 0 <= j < |order| && j >= k
      ensures subs[order[j]].priority > p
    {
      assert subs[order[k]].priority > p;
    }
  }

  /** Splicing a slot in at a position that separates the lower-or-equal
      priorities from the higher ones keeps the list sorted. */
  lemma InsertSplitSorted(subs: seq<Subscriber>, order: seq<int>, k: nat, idx: int)
    requires InRange(subs, order) && Sorted(subs, order) && 0 <= idx < |subs| && k <= |order|
    requires forall j | 0 <= j < |order| :: (subs[order[j]].priority <= subs[idx].priority <==> j < k)
    ensures InRange(subs, InsertAt(order, k, idx))
    ensures Sorted(subs, InsertAt(order, k, idx))
  {
    var o' := InsertAt(order, k, idx);
    forall i, j | 0 <= i < j < |o'|
      ensures subs[o'[i]].priority <= subs[o'[j]].priority
    {
      if j == k {
        assert o'[i] == order[i];
      } else if i == k {
        assert o'[j] == order[j - 1];
      } else {
        var i0 := if i < k then i else i - 1;
        var j0 := if j < k then j else j - 1;
        assert o'[i] == order[i0] && o'[j] == order[j0];
      }
    }
  }

  /** `sub_add`: takes the lowest free slot, fills it with the
      subscription, marks it used and links it into the priority list.
      With no free slot it returns `None` (NULL) and changes nothing. */
  method SubAdd(r: Registry, t: EventType, p: u8, context: nat, callback: nat, ghost order: seq<int>)
    returns (r': Registry, handle: Option<int>)
    requires Linked(r, order) && Sorted(r.subs, order)
    ensures handle.None? <==> forall i | 0 <= i < |r.subs| :: r.subs[i].status != Free
    ensures handle.None? ==> r' == r
    ensures |r'.subs| == |r.subs|
    ensures handle.Some? ==>
              var i := handle.value;
              && 0 <= i < |r.subs| && r.subs[i].status == Free
              && (forall j | 0 <= j < i :: r.subs[j].status != Free)
              && Unlinked(r'.subs[i]) == Subscriber(Used, t, p, context, callback, Nil, Nil)
              && (forall j | 0 <= j < |r.subs| && j != i :: Unlinked(r'.subs[j]) == Unlinked(r.subs[j]))
              && Linked(r', InsertAt(order, InsertPos(r.subs, order, p), i))
              && Sorted(r'.subs, InsertAt(order, InsertPos(r.subs, order, p), i))
  {
    var slot := FindFreeSlot(r);
    if slot == Nil {
      return r, None;
    }
    var filled := Registry(r.subs[slot := Subscriber(Used, t, p, context, callback, Nil, Nil)], r.head);
    FillKeepsThreads(r, order, slot, filled);
    r' := InsertSubscriber(filled, slot, order);
    handle := Some(slot);
    AddLinked(r, order, slot, p, filled, r');
    assert Unlinked(r'.subs[slot]) == Unlinked(filled.subs[slot]);
    forall j | 0 <= j < |r.subs| && j != slot
      ensures Unlinked(r'.subs[j]) == Unlinked(r.subs[j])
    {
      assert Unlinked(r'.subs[j]) == Unlinked(filled.subs[j]);
    }
  }

  /** Filling a free slot leaves the list and its insert position alone. */
  lemma FillKeepsThreads(r: Registry, order: seq<int>, slot: int, filled: Registry)
    requires Linked(r, order) && 0 <= slot < |r.subs| && r.subs[slot].status == Free
    requires filled.head == r.head && |filled.subs| == |r.subs|
    requires forall x | 0 <= x < |r.subs| && x != slot :: filled.subs[x] == r.subs[x]
    ensures slot !in order && Threads(filled, order)
    ensures InsertPos(filled.subs, order, filled.subs[slot].priority) == InsertPos(r.subs, order, filled.subs[slot].priority)
  {
    assert forall k | 0 <= k < |order| :: filled.subs[order[k]] == r.subs[order[k]];
    InsertPosFrame(filled.subs, r.subs, order, filled.subs[slot].priority);
  }

  /** The filled slot, spliced in at its insert position, completes a
      well-formed sorted registry. */
  lemma AddLinked(r: Registry, order: seq<int>, slot: int, p: u8, filled: Registry, r': Registry)
    requires Linked(r, order) && Sorted(r.subs, order)
    requires 0 <= slot < |r.subs| && r.subs[slot].status == Free
    requires |filled.subs| == |r.subs| && filled.subs[slot].status == Used
    requires filled.subs[slot].priority == p
    requires forall x | 0 <= x < |r.subs| && x != slot :: filled.subs[x] == r.subs[x]
    requires SameData(filled.subs, r'.subs)
    requires Threads(r', InsertAt(order, InsertPos(filled.subs, order, p), slot))
    requires InsertPos(filled.subs, order, p) == InsertPos(r.subs, order, p)
    ensures |r'.subs| == |r.subs|
    ensures Linked(r', InsertAt(order, InsertPos(r.subs, order, p), slot))
    ensures Sorted(r'.subs, InsertAt(order, InsertPos(r.subs, order, p), slot))
  {
    var k := InsertPos(r.subs, order, p);
    AddStatus(r, order, slot, filled, r', k);
    AddSorted(r, order, slot, filled, r', k);
  }

  lemma AddStatus(r: Registry, order: seq<int>, slot: int, filled: Registry, r': Registry, k: nat)
    requires Linked(r, order) && k <= |order|
    requires 0 <= slot < |r.subs| && r.subs[slot].status == Free
    requires |filled.subs| == |r.subs| && filled.subs[slot].status == Used
    requires forall x | 0 <= x < |r.subs| && x != slot :: filled.subs[x] == r.subs[x]
    requires SameData(filled.subs, r'.subs)
    ensures forall x | 0 <= x < |r'.subs| :: (r'.subs[x].status == Free <==> x !in InsertAt(order, k, slot))
  {
    var o' := InsertAt(order, k, slot);
    forall x | 0 <= x < |r'.subs|
      ensures r'.subs[x].status == Free <==> x !in o'
    {
      if x in o' && x != slot {
        var j :| 0 <= j < |o'| && o'[j] == x;
        var j0 := if j < k then j else j - 1;
        assert x == order[j0];
      }
      if x in order {
        var j :| 0 <= j < |order| && order[j] == x;
        var j' := if j < k then j else j + 1;
        assert o'[j'] == x;
      }
      assert Unlinked(r'.subs[x]).status == Unlinked(filled.subs[x]).status;
    }
  }

  lemma AddSorted(r: Registry, order: seq<int>, slot: int, filled: Registry, r': Registry, k: nat)
    requires InRange(r.subs, order) && Sorted(r.subs, order) && slot !in order
    requires 0 <= slot < |r.subs| && |filled.subs| == |r.subs|
    requires forall x | 0 <= x < |r.subs| && x != slot :: filled.subs[x] == r.subs[x]
    requires SameData(filled.subs, r'.subs)
    requires k == InsertPos(r.subs, order, filled.subs[slot].priority)
    ensures InRange(r'.subs, InsertAt(order, k, slot)) && Sorted(r'.subs, InsertAt(order, k, slot))
  {
    var o' := InsertAt(order, k, slot);
    assert forall j | 0 <= j < |order| :: filled.subs[order[j]] == r.subs[order[j]];
    InsertPosFrame(filled.subs, r.subs, order, filled.subs[slot].priority);
    assert Sorted(filled.subs, order);
    InsertKeepsSorted(filled.subs, order, slot);
    forall i | 0 <= i < |o'|
      ensures r'.subs[o'[i]].priority == filled.subs[o'[i]].priority
    {
      assert Unlinked(r'.subs[o'[i]]).priority == Unlinked(filled.subs[o'[i]]).priority;
    }
  }
}
