/** Per-event dispatch: the wildcard matching walk of `sub_next` and the
    traversal of `process_event`. Callbacks are foreign code, so each
    invocation is recorded as the index of the slot whose callback ran. */
module Dispatch {
  import opened Types
  import opened Registry

  /** The `id` value that asks `sub_next` to start from the list head. */
  const Start: int := -2

  /** The matching rule: a subscription of category 0 takes every event; one
      of the event's category takes it when its id is the event's or 0. */
  predicate Matches(sub: EventType, ev: EventType)
  {
    sub.category == 0 || (sub.category == ev.category && (sub.id == ev.id || sub.id == 0))
  }

  /** What the rule means for a publishable event type (neither field 0):
      category 0 takes everything whatever its id, a full type takes only
      itself, and a type with id 0 takes its whole category. */
  lemma WildcardRule(sub: EventType, ev: EventType)
    requires ev.category != 0 && ev.id != 0
    ensures sub.category == 0 ==> Matches(sub, ev)
    ensures sub.category != 0 && sub.id != 0 ==> (Matches(sub, ev) <==> sub == ev)
    ensures sub.category != 0 && sub.id == 0 ==> (Matches(sub, ev) <==> sub.category == ev.category)
    ensures Matches(sub, ev) ==> Matches(sub.(id := 0), ev)
  {
  }

  /** Reference definition of a dispatch: the listed slots whose
      subscription matches `t`, in list order. */
  ghost function MatchingSlots(subs: seq<Subscriber>, order: seq<int>, t: EventType): (ms: seq<int>)
    requires InRange(subs, order)
    ensures InRange(subs, ms) && |ms| <= |order|
  {
    if |order| == 0 then []
    else (if Matches(subs[order[0]].etype, t) then [order[0]] else []) + MatchingSlots(subs, order[1..], t)
  }

  /** A slot is matched exactly when it is listed and its subscription
      matches the event type. */
  lemma {:induction false} MatchingSlotsMembers(subs: seq<Subscriber>, order: seq<int>, t: EventType, x: int)
    requires InRange(subs, order)
    ensures x in MatchingSlots(subs, order, t) <==> x in order && 0 <= x < |subs| && Matches(subs[x].etype, t)
  {
    if |order| > 0 {
      MatchingSlotsMembers(subs, order[1..], t, x);
      assert order == [order[0]] + order[1..];
    }
  }

  /** The slots a dispatch visits keep the list's order, so on a sorted list
      they are called in non-decreasing priority. */
  lemma {:induction false} MatchingSlotsSorted(subs: seq<Subscriber>, order: seq<int>, t: EventType)
    requires InRange(subs, order) && Sorted(subs, order)
    ensures InRange(subs, MatchingSlots(subs, order, t))
    ensures Sorted(subs, MatchingSlots(subs, order, t))
  {
    if |order| > 0 {
      var rest := MatchingSlots(subs, order[1..], t);
      MatchingSlotsSorted(subs, order[1..], t);
      forall i | 0 <= i < |rest|
        ensures subs[order[0]].priority <= subs[rest[i]].priority
      {
        MatchingSlotsMembers(subs, order[1..], t, rest[i]);
        var j :| 0 <= j < |order[1..]| && order[1..][j] == rest[i];
        assert order[j + 1] == rest[i];
      }
    }
  }

  /** Only the subscription types of the listed slots decide the matches. */
  lemma {:induction false} MatchingFrame(a: seq<Subscriber>, b: seq<Subscriber>, order: seq<int>, t: EventType)
    requires InRange(a, order) && InRange(b, order)
    requires forall k | 0 <= k < |order| :: a[order[k]].etype == b[order[k]].etype
    ensures MatchingSlots(a, order, t) == MatchingSlots(b, order, t)
  {
    if |order| > 0 {
      MatchingFrame(a, b, order[1..], t);
    }
  }

  /** One step of the walk: the matches from position j are those of the
      slot at j followed by the matches after it. */
  lemma MatchingStep(subs: seq<Subscriber>, order: seq<int>, t: EventType, j: nat)
    requires InRange(subs, order) && j < |order|
    ensures MatchingSlots(subs, order[j..], t)
            == (if Matches(subs[order[j]].etype, t) then [order[j]] else []) + MatchingSlots(subs, order[j + 1..], t)
  {
    assert order[j..][0] == order[j] && order[j..][1..] == order[j + 1..];
  }

  /** Where a walk from `id` resumes in the list: the head for -2,
      otherwise just after position `pos`, where `id` sits. */
  function From(id: int, pos: nat): (from: nat)
  {
    if id == Start then 0 else pos + 1
  }

  /** The registry with slot `id`, when it is one, set back to used. */
  function Restored(r: Registry, id: int): (r': Registry)
    ensures r'.head == r.head && |r'.subs| == |r.subs|
  {
    if 0 <= id < |r.subs| then SetStatus(r, id, Used) else r
  }

  /** What a walk from list position `from` answers: -1 exactly when
      nothing from there on matches `t`, otherwise the first matching slot,
      at position `fpos`, after which the remaining matches follow. */
  ghost predicate NextMatch(subs: seq<Subscriber>, order: seq<int>, t: EventType, from: nat, found: int, fpos: nat)
    requires InRange(subs, order) && from <= |order|
  {
    var m := MatchingSlots(subs, order[from..], t);
    && (found == Nil <==> m == [])
    && (found != Nil ==>
          && from <= fpos < |order| && order[fpos] == found
          && m == [found] + MatchingSlots(subs, order[fpos + 1..], t))
  }

  /** `sub_next`: -1 stays -1. Otherwise the walk starts at the head (for
      -2) or after `id`, whose status is first restored to used, and stops
      at the first slot whose subscription matches `t`; that slot is marked
      in-work and returned, or -1 when the list runs out. The ghost `pos`
      and `fpos` are the list positions of `id` and of the result. */
  method SubNext(r: Registry, id: int, t: EventType, ghost order: seq<int>, ghost pos: nat)
    returns (r': Registry, found: int, ghost fpos: nat)
    requires Chain(r, order)
    requires id == Nil || id == Start || (pos < |order| && order[pos] == id)
    ensures found == Nil || 0 <= found < |r.subs|
    ensures r' == (if found == Nil then Restored(r, id) else SetStatus(Restored(r, id), found, InWork))
    ensures id == Nil ==> found == Nil
    ensures id != Nil ==> NextMatch(r.subs, order, t, From(id, pos), found, fpos)
  {
    if id == Nil {
      return r, Nil, 0;
    }
    var base := Restored(r, id);
    RestoredFrame(r, order, id);
    var cur := if id == Start then base.head else base.subs[id].next;
    ghost var from := From(id, pos);
    assert id != Start ==> base.subs[order[pos]].next == Succ(order, pos);
    ghost var j := from;
    while cur != Nil
      invariant from <= j <= |order|
      invariant j < |order| ==> cur == order[j]
      invariant j == |order| ==> cur == Nil
      invariant forall k {:trigger Matches(base.subs[order[k]].etype, t)} | from <= k < j :: !Matches(base.subs[order[k]].etype, t)
      decreases |order| - j
    {
      var sub := base.subs[cur];
      assert sub.next == Succ(order, j);
      if sub.etype.category == 0 {
        break;
      } else if sub.etype.category == t.category {
        if sub.etype.id == t.id || sub.etype.id == 0 {
          break;
        }
      }
      cur := sub.next;
      j := j + 1;
    }
    if cur != Nil {
      FirstMatchAt(base.subs, r.subs, order, t, from, j, cur);
      r' := SetStatus(base, cur, InWork);
    } else {
      NoMatchFrom(base.subs, r.subs, order, t, from, j);
      r' := base;
    }
    found := cur;
    fpos := j;
  }

  /** When the walk from position `from` first matches at position j, the
      match list from `from` starts with that slot and goes on with the
      matches after it; `a` and `b` agree on every listed subscription type. */
  lemma FirstMatchAt(a: seq<Subscriber>, b: seq<Subscriber>, order: seq<int>, t: EventType, from: nat, j: nat, x: int)
    requires InRange(a, order) && InRange(b, order) && from <= j < |order| && order[j] == x
    requires forall x | 0 <= x < |a| && x < |b| :: a[x].etype == b[x].etype
    requires forall k {:trigger Matches(a[order[k]].etype, t)} | from <= k < j :: !Matches(a[order[k]].etype, t)
    requires Matches(a[x].etype, t)
    ensures NextMatch(b, order, t, from, x, j)
  {
    SkipUnmatched(a, order, t, from, j);
    MatchingStep(a, order, t, j);
    MatchingFrame(a, b, order[from..], t);
    MatchingFrame(a, b, order[j + 1..], t);
  }

  /** When the walk from position `from` runs off the end of the list, no
      slot from there on matches. */
  lemma NoMatchFrom(a: seq<Subscriber>, b: seq<Subscriber>, order: seq<int>, t: EventType, from: nat, j: nat)
    requires InRange(a, order) && InRange(b, order) && from <= j == |order|
    requires forall x | 0 <= x < |a| && x < |b| :: a[x].etype == b[x].etype
    requires forall k {:trigger Matches(a[order[k]].etype, t)} | from <= k < j :: !Matches(a[order[k]].etype, t)
    ensures NextMatch(b, order, t, from, Nil, j)
  {
    SkipUnmatched(a, order, t, from, j);
    MatchingFrame(a, b, order[from..], t);
    assert order[j..] == [];
  }

  /** Restoring a slot's status leaves the list and every subscription
      type in place. */
  lemma RestoredFrame(r: Registry, order: seq<int>, id: int)
    requires Chain(r, order)
    ensures Chain(Restored(r, id), order)
    ensures forall x | 0 <= x < |r.subs| :: Restored(r, id).subs[x].etype == r.subs[x].etype
  {
  }

  /** Whether the worker, checking the bus status after its `calls`-th
      callback of this event, finds a stop requested. `stopAfter` is the
      environment's choice: `Some(n)` when another thread's stop request is
      visible from the n-th check on, `None` when no stop arrives. */
  predicate StopSeen(stopAfter: Option<nat>, calls: nat)
  {
    stopAfter.Some? && calls >= stopAfter.value
  }

  /** How many of m matching callbacks run before a stop cuts the walk off:
      at least one when there is one, since the status is only checked
      after a callback. */
  function Budget(stopAfter: Option<nat>, m: nat): (n: nat)
  {
    match stopAfter
    case None => m
    case Some(n) => if n <= 1 then (if m == 0 then 0 else 1) else (if m <= n then m else n)
  }

  /** Whether a stop cut the walk off; the last called slot is then left
      in-work, since no further `sub_next` restores it. */
  predicate Halted(stopAfter: Option<nat>, m: nat)
  {
    stopAfter.Some? && m > 0 && (if stopAfter.value <= 1 then 1 else stopAfter.value) <= m
  }

  /** The event after `process_event` released its owned input buffer. */
  function Released(ev: Event): (ev': Event)
    ensures ev'.input.direct.None? && ev'.etype == ev.etype && ev'.result == ev.result
    ensures ev.input.direct.None? ==> ev' == ev
    ensures ev.input.direct.Some? ==> ev'.input.dataSize == 0
  {
    if ev.input.direct.Some? then ev.(input := Input(None, 0)) else ev
  }

  /** `process_event`: calls every matching subscriber in list order,
      checking for a stop request after each callback, then releases the
      event's input buffer. Without a stop the calls are exactly the
      matching slots in list order and the registry comes back unchanged. */
  method ProcessEvent(r: Registry, ev: Event, ghost order: seq<int>, stopAfter: Option<nat>)
    returns (r': Registry, calls: seq<int>, ev': Event, halted: bool)
    requires Chain(r, order)
    requires forall k {:trigger r.subs[order[k]]} | 0 <= k < |order| :: r.subs[order[k]].status == Used
    ensures var m := MatchingSlots(r.subs, order, ev.etype);
            && calls == m[..Budget(stopAfter, |m|)]
            && (halted <==> Halted(stopAfter, |m|))
            && (!Halted(stopAfter, |m|) ==> r' == r)
            && (Halted(stopAfter, |m|) ==> |calls| > 0 && r' == SetStatus(r, calls[|calls| - 1], InWork))
    ensures ev' == Released(ev)
  {
    ghost var m := MatchingSlots(r.subs, order, ev.etype);
    var reg, id;
    ghost var pos: nat;
    reg, id, pos := SubNext(r, Start, ev.etype, order, 0);
    WalkStart(r, order, ev.etype, reg, id, pos);
    calls := [];
    halted := false;
    while id != Nil
      invariant |calls| <= |m| && calls == m[..|calls|]
      invariant Cursor(r.subs, order, ev.etype, m, |calls|, id, pos)
      invariant id == Nil || 0 <= id < |r.subs|
      invariant reg == (if id == Nil then r else SetStatus(r, id, InWork))
      invariant calls == [] || !StopSeen(stopAfter, |calls|)
      invariant !halted
      decreases |m| - |calls|
    {
      ghost var c := |calls|;
      TraceStep(m, calls, id);
      calls := calls + [id];
      if StopSeen(stopAfter, |calls|) {
        halted := true;
        break;
      }
      var prev := id;
      ghost var ppos := pos;
      InWorkChain(r, order, prev);
      reg, id, pos := SubNext(reg, prev, ev.etype, order, ppos);
      InWorkNext(r, order, ev.etype, prev, ppos, id, pos);
      WalkTrace(r.subs, order, ev.etype, m, c, prev, ppos, id, pos);
      assert |calls| == c + 1;
      WalkRegistry(r, prev, id, reg);
    }
    TraceEnd(m, calls, stopAfter, halted);
    r' := reg;
    ev' := Released(ev);
  }

  /** Marking a slot in-work leaves the list in place ... */
  lemma InWorkChain(r: Registry, order: seq<int>, id: int)
    requires Chain(r, order) && 0 <= id < |r.subs|
    ensures Chain(SetStatus(r, id, InWork), order)
  {
  }

  /** ... nor which slots a walk from any point of it matches. */
  lemma InWorkMatches(r: Registry, order: seq<int>, id: int, from: nat, t: EventType)
    requires InRange(r.subs, order) && 0 <= id < |r.subs| && from <= |order|
    ensures MatchingSlots(SetStatus(r, id, InWork).subs, order[from..], t)
            == MatchingSlots(r.subs, order[from..], t)
  {
    MatchingFrame(SetStatus(r, id, InWork).subs, r.subs, order[from..], t);
  }

  /** Slots the walk passes without a match contribute nothing: the
      matches from position `from` are those from position j. */
  lemma {:induction false} SkipUnmatched(subs: seq<Subscriber>, order: seq<int>, t: EventType, from: nat, j: nat)
    requires InRange(subs, order) && from <= j <= |order|
    requires forall k {:trigger Matches(subs[order[k]].etype, t)} | from <= k < j :: !Matches(subs[order[k]].etype, t)
    ensures MatchingSlots(subs, order[from..], t) == MatchingSlots(subs, order[j..], t)
    decreases j - from
  {
    if from < j {
      MatchingStep(subs, order, t, from);
      SkipUnmatched(subs, order, t, from + 1, j);
    }
  }

  /** Restoring a used slot that was marked in-work gives back the
      registry it was marked in. */
  lemma RestoreMarked(r: Registry, prev: int)
    requires 0 <= prev < |r.subs| && r.subs[prev].status == Used
    ensures Restored(SetStatus(r, prev, InWork), prev) == r
  {
    assert Restored(SetStatus(r, prev, InWork), prev).subs == r.subs;
  }

  /** The first `sub_next` call of `process_event` yields the head of the
      match list, marked in-work, or -1 when nothing matches. */
  lemma WalkStart(r: Registry, order: seq<int>, t: EventType, reg: Registry, found: int, fpos: nat)
    requires Chain(r, order)
    requires found == Nil || 0 <= found < |r.subs|
    requires reg == (if found == Nil then Restored(r, Start) else SetStatus(Restored(r, Start), found, InWork))
    requires NextMatch(r.subs, order, t, From(Start, 0), found, fpos)
    ensures Cursor(r.subs, order, t, MatchingSlots(r.subs, order, t), 0, found, fpos)
    ensures reg == (if found == Nil then r else SetStatus(r, found, InWork))
  {
    assert order[From(Start, 0)..] == order;
  }

  /** The registry after one turn of the `process_event` loop: `sub_next`
      from the called slot `prev` leaves only the slot it found in-work. */
  lemma WalkRegistry(r: Registry, prev: int, found: int, reg: Registry)
    requires 0 <= prev < |r.subs| && r.subs[prev].status == Used
    requires found == Nil || 0 <= found < |r.subs|
    requires reg == (if found == Nil then Restored(SetStatus(r, prev, InWork), prev)
                     else SetStatus(Restored(SetStatus(r, prev, InWork), prev), found, InWork))
    ensures reg == (if found == Nil then r else SetStatus(r, found, InWork))
  {
    RestoreMarked(r, prev);
  }

  /** The trace after one turn of the `process_event` loop: `sub_next` from
      the called slot `prev` yields the next element of the match list, or
      -1 exactly when the match list is exhausted. */
  lemma WalkTrace(subs: seq<Subscriber>, order: seq<int>, t: EventType, m: seq<int>, c: nat,
                  prev: int, ppos: nat, found: int, fpos: nat)
    requires InRange(subs, order)
    requires prev != Nil && Cursor(subs, order, t, m, c, prev, ppos)
    requires NextMatch(subs, order, t, ppos + 1, found, fpos)
    ensures Cursor(subs, order, t, m, c + 1, found, fpos)
  {
    var rest := if found == Nil then [] else MatchingSlots(subs, order[fpos + 1..], t);
    TraceAdvance(m, c + 1, m[c + 1..], found, rest);
  }

  /** Marking the called slot in-work does not change what the next walk
      answers. */
  lemma InWorkNext(r: Registry, order: seq<int>, t: EventType, prev: int, ppos: nat, found: int, fpos: nat)
    requires InRange(r.subs, order) && ppos < |order| && order[ppos] == prev
    requires NextMatch(SetStatus(r, prev, InWork).subs, order, t, From(prev, ppos), found, fpos)
    ensures NextMatch(r.subs, order, t, ppos + 1, found, fpos)
  {
    assert From(prev, ppos) == ppos + 1;
    InWorkMatches(r, order, prev, ppos + 1, t);
    if found != Nil {
      InWorkMatches(r, order, prev, fpos + 1, t);
    }
  }

  /** Where `process_event` stands in the match list m after c callbacks:
      `id` is the slot to call next, at list position `pos`, with the rest
      of m still ahead of it, or -1 once all of m has been called. */
  ghost predicate Cursor(subs: seq<Subscriber>, order: seq<int>, t: EventType, m: seq<int>, c: nat, id: int, pos: nat)
    requires InRange(subs, order)
  {
    if id == Nil then c == |m|
    else
      && c < |m| && id == m[c]
      && pos < |order| && order[pos] == id
      && MatchingSlots(subs, order[pos + 1..], t) == m[c + 1..]
  }

  /** Recording the callback of the next matching slot extends the trace
      by one more element of the match list. */
  lemma TraceStep(m: seq<int>, calls: seq<int>, id: int)
    requires |calls| < |m| && calls == m[..|calls|] && id == m[|calls|]
    ensures calls + [id] == m[..|calls| + 1]
  {
  }

  /** The next `sub_next` answer continues the match list where the trace
      has got to: Nil exactly when the trace is complete. */
  lemma TraceAdvance(m: seq<int>, c: nat, next: seq<int>, found: int, rest: seq<int>)
    requires c <= |m| && next == m[c..]
    requires found == Nil <==> next == []
    requires found != Nil ==> next == [found] + rest
    ensures found == Nil ==> c == |m|
    ensures found != Nil ==> c < |m| && found == m[c] && rest == m[c + 1..]
  {
    if found != Nil {
      assert m[c..][1..] == m[c + 1..];
    }
  }

  /** How the walk ended decides how much of the match list it called:
      all of it when no stop was seen, up to the first check that saw one
      otherwise. */
  lemma TraceEnd(m: seq<int>, calls: seq<int>, stopAfter: Option<nat>, halted: bool)
    requires |calls| <= |m| && calls == m[..|calls|]
    requires halted ==> 0 < |calls| && StopSeen(stopAfter, |calls|) && (|calls| == 1 || !StopSeen(stopAfter, |calls| - 1))
    requires !halted ==> |calls| == |m| && (calls == [] || !StopSeen(stopAfter, |calls|))
    ensures calls == m[..Budget(stopAfter, |m|)]
    ensures Halted(stopAfter, |m|) <==> halted
  {
    if halted {
      StopBudget(|calls|, |m|, stopAfter);
    } else {
      ExhaustBudget(|m|, stopAfter);
    }
  }

  /** A stop first seen after callback c cuts the walk at c callbacks,
      leaving it halted. */
  lemma StopBudget(c: nat, mlen: nat, stopAfter: Option<nat>)
    requires 0 < c <= mlen && StopSeen(stopAfter, c)
    requires c == 1 || !StopSeen(stopAfter, c - 1)
    ensures c == Budget(stopAfter, mlen) && Halted(stopAfter, mlen)
  {
  }

  /** A walk that ran through all mlen matches without seeing a stop was
      not cut off. */
  lemma ExhaustBudget(mlen: nat, stopAfter: Option<nat>)
    requires mlen == 0 || !StopSeen(stopAfter, mlen)
    ensures mlen == Budget(stopAfter, mlen) && !Halted(stopAfter, mlen)
  {
  }
}
