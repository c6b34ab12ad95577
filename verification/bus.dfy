/** The event bus as a whole (`eventbus_init`, `eventbus_publish`,
    `eventbus_subscribe`, `eventbus_unsubscribe`, `eventbus_stop` and one
    turn of the worker loop `eventbus_thread_func`). Threads and mutexes
    are not modelled: each operation is one atomic step on the bus state,
    and a stop request racing with a callback is the `stopAfter` oracle of
    `Dispatch.ProcessEvent`. */
module Bus {
  import opened Types
  import opened EventQueue
  import opened Registry
  import opened Dispatch

  /** The worker thread's status word (`bus_thread_*`). */
  datatype WorkerStatus = NotStarted | Working | Stopping | Stopped

  datatype Bus = Bus(status: WorkerStatus, queue: Queue, registry: Registry)

  /** What one worker turn did: the event it popped and the slots whose
      callbacks it ran, in call order. */
  datatype Dispatched = Dispatched(event: Event, calls: seq<int>)

  /** The registry between two events: a well-formed list none of whose
      slots is marked in-work. */
  ghost predicate Idle(r: Registry, order: seq<int>)
  {
    && Linked(r, order)
    && forall i | 0 <= i < |r.subs| :: r.subs[i].status != InWork
  }

  /** `eventbus_init` after both allocations succeeded. Only the input of
      each queue record and the status and links of each slot are set; the
      remaining fields keep whatever `blankEvents` and `blankSubs` hold.
      The queue starts empty and the subscriber list empty. */
  function Init(blankEvents: seq<Event>, blankSubs: seq<Subscriber>): (b: Bus)
    requires |blankEvents| > 0
    ensures b.status == NotStarted
    ensures Valid(b.queue) && |b.queue.buf| == |blankEvents| && Contents(b.queue) == []
    ensures |b.registry.subs| == |blankSubs| && Idle(b.registry, [])
    ensures forall i | 0 <= i < |blankSubs| ::
              && b.registry.subs[i].status == Free
              && b.registry.subs[i].prev == Nil && b.registry.subs[i].next == Nil
              && b.registry.subs[i].etype == blankSubs[i].etype
    ensures forall i | 0 <= i < |blankEvents| ::
              && b.queue.buf[i].input.direct.None? && b.queue.buf[i].input.dataSize == 0
              && b.queue.buf[i].etype == blankEvents[i].etype
  {
    var buf := seq(|blankEvents|, i requires 0 <= i < |blankEvents| => blankEvents[i].(input := Input(None, 0)));
    var subs := seq(|blankSubs|, i requires 0 <= i < |blankSubs| =>
                      blankSubs[i].(status := Free, prev := Nil, next := Nil));
    Bus(NotStarted, Queue(buf, 0, 0), Registry(subs, Nil))
  }

  /** `eventbus_publish`: an event type with a wildcard field is refused
      with -1, and so is an event that does not fit in the ring; otherwise
      the event joins the back of the queue and nothing else changes. */
  function Publish(b: Bus, t: EventType, input: Input, result: nat): (res: (int, Bus))
    requires Valid(b.queue)
    ensures res.0 == 0 || res.0 == -1
    ensures res.0 == -1 <==> t.category == 0 || t.id == 0 || Count(b.queue) == |b.queue.buf| - 1
    ensures res.0 == -1 ==> res.1 == b
    ensures res.0 == 0 ==>
              && res.1 == b.(queue := res.1.queue)
              && Valid(res.1.queue) && |res.1.queue.buf| == |b.queue.buf|
              && Contents(res.1.queue) == Contents(b.queue) + [Event(t, input, result)]
  {
    if t.category == 0 || t.id == 0 then
      (-1, b)
    else
      var (code, q') := Push(b.queue, Event(t, input, result));
      (code, b.(queue := q'))
  }

  /** `eventbus_subscribe`: `sub_add` on the registry, nothing else. The
      handle is the slot index (the C pointer `&subs[i]`) or `None`. No
      slot's status is consulted beyond free or not, so a slot a stopped
      dispatch left in-work does not matter; a registry with no slot
      in-work stays so. */
  method Subscribe(b: Bus, t: EventType, p: u8, context: nat, callback: nat, ghost order: seq<int>)
    returns (b': Bus, handle: Option<int>)
    requires Linked(b.registry, order) && Sorted(b.registry.subs, order)
    ensures b' == b.(registry := b'.registry)
    ensures |b'.registry.subs| == |b.registry.subs|
    ensures handle.None? <==> forall i | 0 <= i < |b.registry.subs| :: b.registry.subs[i].status != Free
    ensures handle.None? ==> b' == b
    ensures handle.Some? ==>
              var i := handle.value;
              var order' := InsertAt(order, InsertPos(b.registry.subs, order, p), i);
              && 0 <= i < |b.registry.subs| && b.registry.subs[i].status == Free
              && (forall j | 0 <= j < i :: b.registry.subs[j].status != Free)
              && Unlinked(b'.registry.subs[i]) == Subscriber(Used, t, p, context, callback, Nil, Nil)
              && (forall j | 0 <= j < |b.registry.subs| && j != i ::
                    Unlinked(b'.registry.subs[j]) == Unlinked(b.registry.subs[j]))
              && Linked(b'.registry, order') && Sorted(b'.registry.subs, order')
              && (Idle(b.registry, order) ==> Idle(b'.registry, order'))
  {
    var r', h := SubAdd(b.registry, t, p, context, callback, order);
    if h.Some? && Idle(b.registry, order) {
      forall i | 0 <= i < |r'.subs| ensures r'.subs[i].status != InWork {
        if i != h.value {
          assert Unlinked(r'.subs[i]).status == Unlinked(b.registry.subs[i]).status;
        } else {
          assert Unlinked(r'.subs[i]).status == Used;
        }
      }
    }
    b' := b.(registry := r');
    handle := h;
  }

  /** `eventbus_unsubscribe`: -1 for a null handle or a free slot,
      otherwise the slot is removed from the list and 0 returned. The C
      code first waits until the worker no longer marks the slot in-work;
      here that wait has finished, so the slot is in use. */
  function Unsubscribe(b: Bus, handle: Option<int>): (res: (int, Bus))
    requires handle.Some? ==> 0 <= handle.value < |b.registry.subs|
    requires handle.Some? && b.registry.subs[handle.value].status != Free ==>
               && b.registry.subs[handle.value].status == Used
               && LinkOk(b.registry.subs[handle.value].prev, |b.registry.subs|)
               && LinkOk(b.registry.subs[handle.value].next, |b.registry.subs|)
    ensures res.0 == -1 <==> handle.None? || b.registry.subs[handle.value].status == Free
    ensures res.0 == -1 ==> res.1 == b
    ensures res.0 == 0 ==> res.1 == b.(registry := res.1.registry)
  {
    if handle.None? then
      (-1, b)
    else if b.registry.subs[handle.value].status == Free then
      (-1, b)
    else
      (0, b.(registry := RemoveSubscriber(b.registry, handle.value)))
  }

  /** Unsubscribing a listed slot that is not in-work frees it, takes
      exactly it out of the list, keeps every other subscriber and keeps the
      list sorted; a registry with no slot in-work keeps none. */
  lemma UnsubscribeRemoves(b: Bus, order: seq<int>, k: nat)
    requires Linked(b.registry, order) && k < |order|
    requires b.registry.subs[order[k]].status == Used
    ensures Unsubscribe.requires(b, Some(order[k]))
    ensures var (code, b') := Unsubscribe(b, Some(order[k]));
            && code == 0
            && Linked(b'.registry, RemoveAt(order, k))
            && (Idle(b.registry, order) ==> Idle(b'.registry, RemoveAt(order, k)))
            && b'.registry.subs[order[k]].status == Free
            && (forall i | 0 <= i < |b.registry.subs| && i != order[k] ::
                  Unlinked(b'.registry.subs[i]) == Unlinked(b.registry.subs[i]))
            && (Sorted(b.registry.subs, order) ==> Sorted(b'.registry.subs, RemoveAt(order, k)))
  {
    var r := b.registry;
    var x := order[k];
    assert r.subs[x] == r.subs[order[k]];
    assert r.subs[x].prev == Pred(order, k) && r.subs[x].next == Succ(order, k);
    RemoveUnlinks(r, order, k);
    var r' := RemoveSubscriber(r, x);
    assert Unsubscribe(b, Some(x)) == (0, b.(registry := r'));
    if Idle(r, order) {
      RemoveKeepsIdle(r, r', x, RemoveAt(order, k));
    }
  }

  /** A removal that frees slot x and keeps every other slot's data leaves
      no slot in-work if there was none. */
  lemma RemoveKeepsIdle(r: Registry, r': Registry, x: int, order': seq<int>)
    requires forall i | 0 <= i < |r.subs| :: r.subs[i].status != InWork
    requires |r'.subs| == |r.subs| && 0 <= x < |r.subs| && Linked(r', order')
    requires r'.subs[x].status == Free
    requires forall i | 0 <= i < |r.subs| && i != x :: Unlinked(r'.subs[i]) == Unlinked(r.subs[i])
    ensures Idle(r', order')
  {
    forall i | 0 <= i < |r'.subs| ensures r'.subs[i].status != InWork {
      if i != x {
        assert Unlinked(r'.subs[i]).status == Unlinked(r.subs[i]).status;
      }
    }
  }

  /** The slot a stopped dispatch leaves in-work is never restored, so the
      wait of `eventbus_unsubscribe` on it does not end: no call of
      `Unsubscribe` on that slot is possible. */
  lemma InWorkBlocksUnsubscribe(b: Bus, x: int)
    requires 0 <= x < |b.registry.subs|
    ensures !Unsubscribe.requires(b.(registry := SetStatus(b.registry, x, InWork)), Some(x))
  {
  }

  /** Every listed slot of an idle registry is in use, which is what
      `process_event` expects of the list it walks. */
  lemma IdleListed(r: Registry, order: seq<int>)
    requires Idle(r, order)
    ensures Chain(r, order)
    ensures forall k {:trigger r.subs[order[k]]} | 0 <= k < |order| :: r.subs[order[k]].status == Used
  {
    forall k | 0 <= k < |order| ensures r.subs[order[k]].status == Used {
      assert order[k] in order;
    }
  }

  /** `eventbus_stop`'s first statement: request a stop. (The rest of it
      waits for the worker and frees the arrays.) */
  function RequestStop(b: Bus): (b': Bus)
    ensures b'.status == Stopping && b'.queue == b.queue && b'.registry == b.registry
  {
    b.(status := Stopping)
  }

  /** The buffers the stopping worker frees while emptying the queue, and
      the emptied queue: the drain loop of `eventbus_thread_func`. */
  method Drain(q: Queue) returns (q': Queue, freed: seq<nat>)
    requires Valid(q)
    ensures Valid(q') && |q'.buf| == |q.buf| && Contents(q') == []
    ensures freed == Payloads(Contents(q))
  {
    q', freed := q, [];
    while true
      invariant Valid(q') && |q'.buf| == |q.buf|
      invariant freed + Payloads(Contents(q')) == Payloads(Contents(q))
      decreases Count(q')
    {
      var popped := Pop(q');
      if popped.None? {
        break;
      }
      var (ev, q2) := popped.value;
      PayloadsCons(ev, Contents(q2));
      freed := freed + Payloads([ev]);
      q' := q2;
    }
  }

  /** The buffers owned by a run of events are those of its first event
      followed by those of the rest. */
  lemma PayloadsCons(ev: Event, s: seq<Event>)
    ensures Payloads([ev] + s) == Payloads([ev]) + Payloads(s)
  {
    assert ([ev] + s)[1..] == s;
    assert [ev][1..] == [];
  }

  /** One turn of the worker loop. Stopping: drain the queue, freeing every
      owned buffer and calling nobody, then stop. Working: pop one event
      and, if there was one, dispatch it with `process_event` and free its
      buffer; a stop seen during dispatch leaves the bus stopping. An empty
      queue costs a delay and changes nothing. */
  method WorkerStep(b: Bus, stopAfter: Option<nat>, ghost order: seq<int>)
    returns (b': Bus, dispatched: Option<Dispatched>, freed: seq<nat>)
    requires Valid(b.queue)
    requires b.status == Working ==> Idle(b.registry, order)
    ensures Valid(b'.queue) && |b'.queue.buf| == |b.queue.buf|
    ensures b.status == Stopping ==>
              && b' == b.(status := Stopped, queue := b'.queue)
              && Contents(b'.queue) == []
              && dispatched.None? && freed == Payloads(Contents(b.queue))
    ensures b.status == Working && Contents(b.queue) == [] ==>
              b' == b && dispatched.None? && freed == []
    ensures b.status == Working && Contents(b.queue) != [] ==>
              var ev := Contents(b.queue)[0];
              var m := MatchingSlots(b.registry.subs, order, ev.etype);
              var calls := m[..Budget(stopAfter, |m|)];
              && dispatched == Some(Dispatched(ev, calls))
              && freed == Payloads([ev])
              && Contents(b'.queue) == Contents(b.queue)[1..]
              && b'.status == (if Halted(stopAfter, |m|) then Stopping else Working)
              && (!Halted(stopAfter, |m|) ==> b'.registry == b.registry)
              && (Halted(stopAfter, |m|) ==>
                    |calls| > 0 && b'.registry == SetStatus(b.registry, calls[|calls| - 1], InWork))
    ensures b.status == NotStarted || b.status == Stopped ==> b' == b && dispatched.None? && freed == []
  {
    if b.status == Stopping {
      var q', f := Drain(b.queue);
      return b.(status := Stopped, queue := q'), None, f;
    }
    if b.status != Working {
      return b, None, [];
    }
    var popped := Pop(b.queue);
    if popped.None? {
      return b, None, [];
    }
    var (ev, q') := popped.value;
    assert Contents(b.queue)[0] == ev;
    IdleListed(b.registry, order);
    var r', calls, ev', halted := ProcessEvent(b.registry, ev, order, stopAfter);
    var status := if halted then Stopping else Working;
    b' := Bus(status, q', r');
    dispatched := Some(Dispatched(ev, calls));
    freed := Payloads([ev]);
  }

  /** The worker thread's first statement as written: it sets the status
      to working whatever it was. A stop requested between thread creation
      and this statement is overwritten. */
  function StartAsWritten(b: Bus): (b': Bus)
    ensures b'.status == Working && b'.queue == b.queue && b'.registry == b.registry
  {
    b.(status := Working)
  }

  /** A stop requested before the worker first runs is lost: the worker
      starts working, and a working bus only becomes stopping through a stop
      it sees (`WorkerStep`), so `eventbus_stop`'s wait for the stopped
      status does not end. */
  lemma StopLostAsWritten(b: Bus)
    requires b.status == NotStarted
    ensures RequestStop(b).status == Stopping
    ensures StartAsWritten(RequestStop(b)).status == Working
  {
  }

  /** The worker's first statement as intended: a bus that has not started
      starts working; a stop already requested is kept, so the first turn
      drains the queue and stops. */
  function WorkerStart(b: Bus): (b': Bus)
    ensures b.status == NotStarted ==> b'.status == Working
    ensures b.status != NotStarted ==> b' == b
    ensures b'.queue == b.queue && b'.registry == b.registry
  {
    if b.status == NotStarted then b.(status := Working) else b
  }

  /** With the intended start a stop request survives, whenever it came. */
  lemma StopKept(b: Bus)
    ensures WorkerStart(RequestStop(b)).status == Stopping
    ensures WorkerStart(b).status == Stopping ==> b.status == Stopping
  {
  }
}
