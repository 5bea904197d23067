/** How long the loop may sleep, and what it does when the clock goes backwards. */
module EventTimeouts {
  import opened Basics
  import opened Timevals
  import opened EventQueues
  import opened EventLoop
  import opened EventDispatch

  lemma {:induction false} QueueInTotal(queues: Queues, n: nat, p: nat)
    requires p < n && forall i :: 0 <= i < n ==> Active(i) in queues
    ensures |queues[Active(p)]| <= ActiveTotal(queues, n)
  {
    if p < n - 1 { QueueInTotal(queues, n - 1, p); }
  }

  /** The count of active events is 0 only if no event is active. */
  lemma NoneActive(b: Base)
    requires b.Core() && b.countActive == 0
    ensures forall j :: 0 <= j < |b.ev| ==> !b.ev[j].active
  {
    forall j | 0 <= j < |b.ev| ensures !b.ev[j].active {
      EventHas(b, j);
      var q := Active(b.ev[j].pri);
      assert ValidKind(q, b.nactive, |b.timers|);
      assert forall p :: 0 <= p < b.nactive ==> ValidKind(Active(p), b.nactive, |b.timers|);
      QueueInTotal(b.queues, b.nactive, b.ev[j].pri);
      assert QueueOk(b.ev, b.queues[q], q);
    }
  }

  /** Any pending timeout, in the heap or in a list, is no earlier than some timeout in the heap. */
  lemma HeapCovers(b: Base, j: Id) returns (k: nat)
    requires b.Valid({}) && b.countActive == 0 && j < |b.ev| && b.ev[j].pending
    ensures Heap in b.queues && k < |b.queues[Heap]| && b.queues[Heap][k] < |b.ev|
    ensures When(b.ev, b.queues[Heap][k]) <= When(b.ev, j)
  {
    HeapIs(b);
    NoneActive(b);
    EventHas(b, j);
    var heap := b.queues[Heap];
    if Tag(b.ev[j].timeout) == 0 {
      k :| 0 <= k < |heap| && heap[k] == j;
    } else {
      var i := Tag(b.ev[j].timeout) - COMMON_TIMEOUT_TAG;
      assert Served(b.ev, b.queues, b.timers, {}, i);
      var ids := b.queues[Common(i)];
      assert QueueOk(b.ev, ids, Common(i));
      assert j in ids;
      var n :| 0 <= n < |ids| && ids[n] == j;
      assert When(b.ev, ids[0]) <= When(b.ev, ids[n]);
      EventHas(b, b.timers[i]);
      assert b.timers[i] in heap;
      k :| 0 <= k < |heap| && heap[k] == b.timers[i];
    }
  }

  /** timeout_next: how long to wait for; for ever, if there is no timeout in the heap */
  method TimeoutNext(b: Base, now: Timeval) returns (wait: Option<Timeval>)
    requires b.Valid({}) && Plain(now)
    ensures wait.Some? ==> Plain(wait.value) && Time(wait.value) >= 0
    ensures b.countActive == 0 ==> forall j :: 0 <= j < |b.ev| && b.ev[j].pending ==>
      wait.Some? && Time(now) + Time(wait.value) <= Max(Time(now), Time(b.ev[j].timeout))
    ensures wait.Some? ==>
      exists j ::
        0 <= j < |b.ev| && b.ev[j].pending && Time(now) + Time(wait.value) == Max(Time(now), Time(b.ev[j].timeout))
  {
    hide EventQueues.Core, TimersOk, AllServed, Plain, Tag, Time, Plus, Minus;
    HeapIs(b);
    NoEarlier(b);
    if b.queues[Heap] == [] {
      return None;
    }
    var ev := HeapTop(b.ev, b.queues[Heap]);
    var left := Left(b.ev[ev].timeout, now);
    wait := Some(left);
  }

  method Left(at: Timeval, now: Timeval) returns (left: Timeval)
    requires Plain(at) && Plain(now)
    ensures Plain(left) && Time(left) >= 0 && Time(now) + Time(left) == Max(Time(now), Time(at))
  {
    hide Time, Le, Minus, Plain;
    PlainOrder(at, now);
    if Le(at, now) {
      ZeroTime();
      return ZERO;
    }
    MinusIs(at, now);
    left := Minus(at, now);
  }

  /** What is earliest in the heap is earliest of all. */
  lemma NoEarlier(b: Base)
    requires b.Valid({})
    ensures Heap in b.queues
    ensures b.countActive == 0 ==> forall j :: 0 <= j < |b.ev| && b.ev[j].pending ==>
      exists k :: 0 <= k < |b.queues[Heap]| && When(b.ev, b.queues[Heap][k]) <= Time(b.ev[j].timeout)
  {
    hide EventQueues.Core, TimersOk, AllServed, Tag, Time;
    HeapIs(b);
    if b.countActive == 0 {
      forall j | 0 <= j < |b.ev| && b.ev[j].pending
        ensures exists k :: 0 <= k < |b.queues[Heap]| && When(b.ev, b.queues[Heap][k]) <= When(b.ev, j) {
        var k := HeapCovers(b, j);
      }
    }
  }

  // ----- the clock goes backwards

  /** The same timeout, off earlier. */
  function Earlier(tv: Timeval, off: Timeval): (r: Timeval)
    requires Plain(off)
  {
    Tagged(Minus(Untagged(tv), off), Tag(tv))
  }

  lemma EarlierIs(tv: Timeval, off: Timeval, ncommon: nat)
    requires IsTime(tv, ncommon) && Plain(off)
    ensures IsTime(Earlier(tv, off), ncommon) && Tag(Earlier(tv, off)) == Tag(tv)
    ensures Time(Earlier(tv, off)) == Time(tv) - Time(off)
  {
    UntagRoundTrip(tv);
    MinusIs(Untagged(tv), off);
    TagRoundTrip(Minus(Untagged(tv), off), Tag(tv));
  }

  /** The inner loops of timeout_correct, over the heap with tag 0 and over list i with its tag */
  method ShiftAll(ev: seq<Event>, ids: seq<Id>, off: Timeval, tag: nat) returns (ev': seq<Event>)
    requires Plain(off) && Distinct(ids)
    requires forall k :: 0 <= k < |ids| ==> ids[k] < |ev| && Tag(ev[ids[k]].timeout) == tag
    ensures |ev'| == |ev|
    ensures forall j ::
      0 <= j < |ev| ==> ev'[j] == if j in ids then ev[j].(timeout := Earlier(ev[j].timeout, off)) else ev[j]
  {
    hide Tag, Plain, Tagged, Untagged;
    ev' := ev;
    for k := 0 to |ids|
      invariant |ev'| == |ev|
      invariant forall j ::
        0 <= j < |ev| ==> ev'[j] == if j in ids[..k] then ev[j].(timeout := Earlier(ev[j].timeout, off)) else ev[j]
    {
      var id := ids[k];
      assert id !in ids[..k];
      var tv := Untagged(ev'[id].timeout);
      tv := Minus(tv, off);
      ev' := ev'[id := ev'[id].(timeout := Tagged(tv, tag))];
      assert ids[..k + 1] == ids[..k] + [id];
    }
    assert ids[..|ids|] == ids;
  }

  /** An event after its timeout has been corrected, if it is pending. */
  function Corrected(e: Event, off: Timeval): (e': Event)
    requires Plain(off)
  {
    if e.pending then e.(timeout := Earlier(e.timeout, off)) else e
  }

  /** The heap and the first i lists have been done. */
  ghost predicate CorrectedTo(ev: seq<Event>, ev': seq<Event>, off: Timeval, i: nat)
    requires Plain(off)
  {
    |ev'| == |ev| && forall j :: 0 <= j < |ev| ==>
      ev'[j] == if Tag(ev[j].timeout) < TagOf(i) then Corrected(ev[j], off) else ev[j]
  }

  /** timeout_correct: returns the time remembered for the next call. */
  method TimeoutCorrect(b: Base, eventTv: Timeval, tv: Timeval) returns (b': Base, eventTv': Timeval)
    requires b.Valid({}) && WellTagged(b.ev, |b.timers|) && Plain(eventTv) && Plain(tv)
    ensures b'.Valid({}) && WellTagged(b'.ev, |b.timers|) && b' == b.(ev := b'.ev) && |b'.ev| == |b.ev|
    ensures eventTv' == tv
    ensures forall j :: 0 <= j < |b.ev| ==>
      b'.ev[j] == b.ev[j].(timeout := b'.ev[j].timeout) && Tag(b'.ev[j].timeout) == Tag(b.ev[j].timeout)
    ensures forall j :: 0 <= j < |b.ev| && b.ev[j].pending ==>
      Time(b'.ev[j].timeout) - Time(tv) == Time(b.ev[j].timeout) - Max(Time(tv), Time(eventTv))
  {
    hide EventQueues.Core, TimersOk, AllServed, WellTagged, Plain, Tag, Micro, CorrectedTo, Members, EventsOk;
    PlainOrder(eventTv, tv);
    b', eventTv' := b, tv;
    if Le(eventTv, tv) {
      return;
    }
    var off := Minus(eventTv, tv);
    MinusIs(eventTv, tv);
    CoreHas(b);
    ListIs(b, Heap);
    var ev := ShiftAll(b.ev, b.queues[Heap], off, 0);
    CorrectedHeap(b, ev, off);
    for i := 0 to |b.timers|
      invariant CorrectedTo(b.ev, ev, off, i)
    {
      ListIs(b, Common(i));
      StillTagged(b.ev, ev, off, i, b.queues[Common(i)]);
      ghost var ev0 := ev;
      ev := ShiftAll(ev, b.queues[Common(i)], off, TagOf(i));
      CorrectedNext(b, ev0, ev, off, i);
    }
    b' := b.(ev := ev);
    CorrectedValid(b, ev, off);
  }

  lemma ListIs(b: Base, q: Queue)
    requires b.Core() && ValidKind(q, b.nactive, |b.timers|) && (q.Heap? || q.Common?)
    ensures q in b.queues && Distinct(b.queues[q])
    ensures var tag := if q.Heap? then 0 else TagOf(q.i);
      && (forall id: nat :: id in b.queues[q] <==> id < |b.ev| && b.ev[id].pending && Tag(b.ev[id].timeout) == tag)
      && (forall k :: 0 <= k < |b.queues[q]| ==> b.queues[q][k] < |b.ev| && Tag(b.ev[b.queues[q][k]].timeout) == tag)
  {
    assert QueueOk(b.ev, b.queues[q], q);
    forall k | 0 <= k < |b.queues[q]|
      ensures b.queues[q][k] < |b.ev| && Tag(b.ev[b.queues[q][k]].timeout) == if q.Heap? then 0 else TagOf(q.i) {
      assert b.queues[q][k] in b.queues[q];
    }
  }

  lemma CorrectedHeap(b: Base, ev: seq<Event>, off: Timeval)
    requires b.Core() && Plain(off) && |ev| == |b.ev| && Heap in b.queues
    requires forall j :: 0 <= j < |ev| ==>
      ev[j] == if j in b.queues[Heap] then b.ev[j].(timeout := Earlier(b.ev[j].timeout, off)) else b.ev[j]
    ensures CorrectedTo(b.ev, ev, off, 0)
  {
    ListIs(b, Heap);
    forall j | 0 <= j < |ev| ensures ev[j] ==
      if Tag(b.ev[j].timeout) < TagOf(0) then Corrected(b.ev[j], off) else b.ev[j] {
      EventHas(b, j);
    }
  }

  lemma StillTagged(ev: seq<Event>, ev': seq<Event>, off: Timeval, i: nat, ids: seq<Id>)
    requires Plain(off) && CorrectedTo(ev, ev', off, i)
    requires forall k :: 0 <= k < |ids| ==> ids[k] < |ev| && Tag(ev[ids[k]].timeout) == TagOf(i)
    ensures forall k :: 0 <= k < |ids| ==> ids[k] < |ev'| && Tag(ev'[ids[k]].timeout) == TagOf(i)
  {}

  lemma CorrectedNext(b: Base, ev: seq<Event>, ev': seq<Event>, off: Timeval, i: nat)
    requires b.Core() && Plain(off) && i < |b.timers| && CorrectedTo(b.ev, ev, off, i) && |ev'| == |ev|
    requires Common(i) in b.queues
    requires forall j :: 0 <= j < |ev| ==>
      ev'[j] == if j in b.queues[Common(i)] then ev[j].(timeout := Earlier(ev[j].timeout, off)) else ev[j]
    ensures CorrectedTo(b.ev, ev', off, i + 1)
  {
    hide EventQueues.Core;
    ListIs(b, Common(i));
  }

  /** All pending timeouts moved by the same amount: every queue and every list stays as it is. */
  lemma CorrectedValid(b: Base, ev: seq<Event>, off: Timeval)
    requires b.Valid({}) && WellTagged(b.ev, |b.timers|) && Plain(off) && CorrectedTo(b.ev, ev, off, |b.timers|)
    ensures b.(ev := ev).Valid({}) && WellTagged(ev, |b.timers|) && |ev| == |b.ev|
    ensures forall j ::
      0 <= j < |ev| ==> ev[j] == b.ev[j].(timeout := ev[j].timeout) && Tag(ev[j].timeout) == Tag(b.ev[j].timeout)
    ensures forall j :: 0 <= j < |ev| && b.ev[j].pending ==> Time(ev[j].timeout) == Time(b.ev[j].timeout) - Time(off)
  {
    hide Counted, KindsOk, Tagged, Untagged, IsTime, Tag;
    forall j | 0 <= j < |ev|
      ensures ev[j] == Corrected(b.ev[j], off) && Tag(ev[j].timeout) == Tag(b.ev[j].timeout)
      ensures b.ev[j].pending ==>
        Time(ev[j].timeout) == Time(b.ev[j].timeout) - Time(off) && IsTime(ev[j].timeout, |b.timers|) {
      EventHas(b, j);
      ProperTag(b.ev[j].timeout, |b.timers|);
      if b.ev[j].pending { EarlierIs(b.ev[j].timeout, off, |b.timers|); }
    }
    CoreRetimed(b, ev);
    ServedRetimed(b, ev, Time(off));
  }

  /** Changing when pending events are due, but no queue. */
  lemma CoreRetimed(b: Base, ev: seq<Event>)
    requires b.Core() && |ev| == |b.ev|
    requires forall j ::
      0 <= j < |ev| ==> ev[j] == b.ev[j].(timeout := ev[j].timeout) && Tag(ev[j].timeout) == Tag(b.ev[j].timeout)
    requires forall j :: 0 <= j < |ev| && ev[j].pending ==> IsTime(ev[j].timeout, |b.timers|)
    ensures b.(ev := ev).Core()
  {
    hide Counted, KindsOk, Tag;
    var kinds, n := AllKinds(b.nactive, |b.timers|), |b.timers|;
    forall q | q in b.queues ensures QueueOk(ev, b.queues[q], q) {
      assert QueueOk(b.ev, b.queues[q], q);
    }
    KindIn(b.queues, kinds, b.nactive, n, Inserted, []);
    KindIn(b.queues, kinds, b.nactive, n, Inserted, b.queues[Inserted]);
    assert b.queues[Inserted := b.queues[Inserted]] == b.queues;
    CountedChange(b.ev, ev, b.queues, kinds, b.nactive, n, b.count, b.countActive, Inserted, b.queues[Inserted]);
    CountSame(b.ev, ev, b.queues[Inserted]);
  }

  lemma ServedRetimed(b: Base, ev: seq<Event>, off: int)
    requires b.Valid({}) && |ev| == |b.ev|
    requires forall j :: 0 <= j < |ev| ==> ev[j] == b.ev[j].(timeout := ev[j].timeout)
    requires forall j :: 0 <= j < |ev| && ev[j].pending ==> Time(ev[j].timeout) == Time(b.ev[j].timeout) - off
    ensures AllServed(ev, b.queues, b.timers, {}) && TimersOk(ev, b.timers)
  {
    hide Time, Tag;
    forall i | 0 <= i < |b.timers| ensures Served(ev, b.queues, b.timers, {}, i) {
      assert Served(b.ev, b.queues, b.timers, {}, i);
      var ids := b.queues[Common(i)];
      ListIs(b, Common(i));
      forall k | 0 <= k < |ids| ensures When(ev, ids[k]) == When(b.ev, ids[k]) - off {
        assert ids[k] in ids;
      }
    }
  }

  lemma ProperTag(tv: Timeval, n: nat)
    ensures IsTime(tv, n) ==> Tag(tv) < TagOf(n)
  {}
}
