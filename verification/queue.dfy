/** The fixed-capacity circular event queue (`queue_push`, `queue_pop`).
    The ring holds `|buf|` records; `head` is the oldest event and `tail`
    the next free record. One record always stays unused, so a ring of N
    records holds at most N - 1 events. */
module EventQueue {
  import opened Types

  datatype Queue = Queue(buf: seq<Event>, head: nat, tail: nat)

  /** Both indices lie inside a ring of at least one record. */
  predicate Valid(q: Queue)
  {
    0 < |q.buf| && q.head < |q.buf| && q.tail < |q.buf|
  }

  /** Number of events held: the forward distance from head to tail. */
  function Count(q: Queue): (n: nat)
    requires Valid(q)
    ensures n <= |q.buf| - 1
    ensures n == 0 <==> q.head == q.tail
  {
    if q.head <= q.tail then q.tail - q.head else |q.buf| - q.head + q.tail
  }

  /** Ring index of the event `i` places after the head. */
  function Slot(q: Queue, i: nat): (p: nat)
    requires Valid(q) && i < |q.buf|
    ensures p < |q.buf|
    ensures p == (if q.head + i < |q.buf| then q.head + i else q.head + i - |q.buf|)
  {
    Wrap(q.head + i, |q.buf|);
    (q.head + i) % |q.buf|
  }

  /** The abstract FIFO sequence the ring stands for, oldest event first. */
  function Contents(q: Queue): (s: seq<Event>)
    requires Valid(q)
    ensures |s| == Count(q)
  {
    seq(Count(q), i requires 0 <= i < Count(q) => q.buf[Slot(q, i)])
  }

  /** `queue_push`: -1 when the ring is full, otherwise the event is
      stored at the old tail and tail advances modulo the ring size. */
  function Push(q: Queue, e: Event): (res: (int, Queue))
    requires Valid(q)
    ensures Valid(res.1) && |res.1.buf| == |q.buf|
    ensures res.0 == -1 <==> Count(q) == |q.buf| - 1
    ensures res.0 == -1 ==> res.1 == q
    ensures res.0 != -1 ==> res.0 == 0 && Contents(res.1) == Contents(q) + [e]
  {
    var next := (q.tail + 1) % |q.buf|;
    Wrap(q.tail + 1, |q.buf|);
    if next == q.head then
      (-1, q)
    else
      var q' := Queue(q.buf[q.tail := e], q.head, next);
      PushContents(q, e, q');
      (0, q')
  }

  /** `queue_pop`: `None` (the C -1) on an empty ring, otherwise the event
      at head together with the ring whose head advanced modulo its size. */
  function Pop(q: Queue): (res: Option<(Event, Queue)>)
    requires Valid(q)
    ensures res.None? <==> Contents(q) == []
    ensures res.Some? ==>
              && Valid(res.value.1) && |res.value.1.buf| == |q.buf|
              && [res.value.0] + Contents(res.value.1) == Contents(q)
  {
    if q.head == q.tail then
      None
    else
      Wrap(q.head + 1, |q.buf|);
      var q' := Queue(q.buf, (q.head + 1) % |q.buf|, q.tail);
      PopContents(q, q');
      Some((q.buf[q.head], q'))
  }

  /** First in, first out: after a successful push the next pop returns
      the oldest event held before, or the pushed one if there was none. */
  lemma PushThenPop(q: Queue, e: Event)
    requires Valid(q) && Count(q) < |q.buf| - 1
    ensures var (code, q1) := Push(q, e);
            && code == 0
            && Pop(q1).Some?
            && Pop(q1).value.0 == (if Contents(q) == [] then e else Contents(q)[0])
            && Contents(Pop(q1).value.1) == (Contents(q) + [e])[1..]
  {
    var (code, q1) := Push(q, e);
    var (ev, q2) := Pop(q1).value;
    assert [ev] + Contents(q2) == Contents(q) + [e];
    assert ([ev] + Contents(q2))[1..] == Contents(q2);
  }

  /** Reduction modulo n of a value below 2n subtracts n at most once. */
  lemma Wrap(x: nat, n: nat)
    requires 0 < n && x < 2 * n
    ensures x % n == (if x < n then x else x - n)
  {
    if x >= n {
      assert x == (x - n) + n;
    }
  }

  /** The ring index `Count(q)` places after the head is the tail, and no
      earlier event sits there. */
  lemma TailSlot(q: Queue)
    requires Valid(q) && Count(q) < |q.buf|
    ensures Slot(q, Count(q)) == q.tail
    ensures forall i | 0 <= i < Count(q) :: Slot(q, i) != q.tail
  {
  }

  lemma PushContents(q: Queue, e: Event, q': Queue)
    requires Valid(q) && Valid(q')
    requires q'.buf == q.buf[q.tail := e] && q'.head == q.head
    requires q'.tail == (if q.tail + 1 < |q.buf| then q.tail + 1 else 0)
    requires q'.tail != q.head
    ensures Contents(q') == Contents(q) + [e]
  {
    TailSlot(q);
    assert Count(q') == Count(q) + 1;
    forall i | 0 <= i < Count(q')
      ensures Contents(q')[i] == (Contents(q) + [e])[i]
    {
      assert Slot(q', i) == Slot(q, i);
    }
  }

  lemma PopContents(q: Queue, q': Queue)
    requires Valid(q) && Valid(q') && q.head != q.tail
    requires q'.buf == q.buf && q'.tail == q.tail
    requires q'.head == (if q.head + 1 < |q.buf| then q.head + 1 else 0)
    ensures Contents(q) == [q.buf[q.head]] + Contents(q')
  {
    assert Count(q') == Count(q) - 1;
    forall i | 0 <= i < Count(q')
      ensures Slot(q', i) == Slot(q, i + 1)
    {
    }
    assert Slot(q, 0) == q.head;
  }
}
