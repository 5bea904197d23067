/** Activating and running events: expiry of timeouts, and callbacks by priority. */
module EventDispatch {
  import opened Basics
  import opened Timevals
  import opened EventQueues
  import opened EventLoop

  /** An event off every queue. */
  function Deleted(e: Event): (e': Event)
  {
    e.(pending := false, active := false, inserted := false)
  }

  /** How many queues an event is on. */
  function Places(e: Event): (n: nat)
  {
    (if e.inserted then 1 else 0) + (if e.active then 1 else 0) + (if e.pending then 1 else 0)
  }

  /** The event goes off every queue, and nothing else changes. */
  lemma OffQueues(b: Base, b': Base, id: Id)
    requires b.Core() && b'.Core() && b'.Beside(b) && id < |b.ev| && b'.ev == b.ev[id := Deleted(b.ev[id])]
    ensures b'.queues.Keys == b.queues.Keys && forall q :: q in b'.queues ==> id !in b'.queues[q]
    ensures forall q, j: nat :: q in b.queues && j != id ==> (j in b'.queues[q] <==> j in b.queues[q])
    ensures forall q :: q in b.queues && b'.queues[q] == b.queues[q] ==> b'.queues[q] == Without(b.queues[q], id)
  {
    hide Counted, EventOk, Belongs;
    forall q ensures q in b'.queues <==> q in b.queues {
      assert q in b'.queues <==> ValidKind(q, b.nactive, |b.timers|);
      assert q in b.queues <==> ValidKind(q, b.nactive, |b.timers|);
    }
    forall q | q in b.queues
      ensures id !in b'.queues[q] && forall j: nat :: j != id ==> (j in b'.queues[q] <==> j in b.queues[q]) {
      assert QueueOk(b.ev, b.queues[q], q) && QueueOk(b'.ev, b'.queues[q], q);
      DeletedBelongs(b.ev[id], q);
    }
  }

  lemma DeletedBelongs(e: Event, q: Queue)
    ensures !Belongs(Deleted(e), q)
  {}

  /** The event goes off the queue for f if it is on it, and the others are as they were. */
  ghost predicate TakenFrom(b: Base, b': Base, id: Id, f: Flag)
    requires id < |b.ev|
  {
    var q := QueueOf(b.ev[id], f, |b.timers|);
    if HasFlag(b.ev[id], f) then
      && q in b.queues && b'.queues == b.queues[q := Without(b.queues[q], id)]
      && |Without(b.queues[q], id)| < |b.queues[q]|
    else b'.queues == b.queues
  }

  lemma TakenFromAll(b: Base, b1: Base, b2: Base, b3: Base, id: Id)
    requires id < |b.ev| && b1.timers == b.timers && b2.timers == b.timers
    requires b1.ev == b.ev[id := SetFlag(b.ev[id], FTimeout, false)] && TakenFrom(b, b1, id, FTimeout)
    requires b2.ev == b1.ev[id := SetFlag(b1.ev[id], FActive, false)] && TakenFrom(b1, b2, id, FActive)
    requires TakenFrom(b2, b3, id, FInserted)
    ensures b3.queues.Keys == b.queues.Keys
    ensures forall q :: q in b.queues ==> b3.queues[q] == b.queues[q] || b3.queues[q] == Without(b.queues[q], id)
    ensures b.ev[id].pending ==> var q := QueueOf(b.ev[id], FTimeout, |b.timers|);
      q in b.queues && |b3.queues[q]| < |b.queues[q]|
  {
    hide Without, IsCommon, CommonIdx;
  }

  /** The removal from one queue that event_del_internal makes, if the flag is set */
  method RemoveIf(b: Base, ghost cb: set<nat>, id: Id, f: Flag) returns (b': Base)
    requires b.Valid(cb) && id < |b.ev| && (f.FInserted? || !OnDuty(b.timers, cb, id))
    ensures b'.Valid(cb) && b'.Beside(b) && b'.ev == b.ev[id := SetFlag(b.ev[id], f, false)]
    ensures var n := if HasFlag(b.ev[id], f) then 1 else 0;
      && b'.count == b.count - (if b.ev[id].internal then 0 else n)
      && b'.countActive == b.countActive - (if f.FActive? then n else 0)
    ensures TakenFrom(b, b', id, f)
  {
    hide EventQueues.Core, TimersOk, AllServed, OnDuty, Without, QueueOf;
    b' := b;
    if HasFlag(b.ev[id], f) {
      b' := QueueRemove(b, cb, id, f);
      WithoutLength(b.queues[QueueOf(b.ev[id], f, |b.timers|)], id);
    }
  }

  /** event_del_internal: the event is on no queue any more, and is counted for none. */
  method DelInternal(b: Base, ghost cb: set<nat>, id: Id) returns (b': Base)
    requires b.Valid(cb) && id < |b.ev| && !OnDuty(b.timers, cb, id)
    ensures b'.Valid(cb) && b'.Beside(b) && b'.ev == b.ev[id := Deleted(b.ev[id])]
    ensures !b'.ev[id].inserted && !b'.ev[id].active && !b'.ev[id].pending
    ensures var e := b.ev[id];
      && b'.ev == b.ev[id := e.(inserted := false, active := false, pending := false)]
      && b'.count == b.count - (if e.internal then 0 else Places(e))
      && b'.countActive == b.countActive - (if e.active then 1 else 0)
    ensures b'.queues.Keys == b.queues.Keys && forall q :: q in b'.queues ==> id !in b'.queues[q]
    ensures forall q, j: nat :: q in b.queues && j != id ==> (j in b'.queues[q] <==> j in b.queues[q])
    ensures forall q :: q in b.queues ==> b'.queues[q] == Without(b.queues[q], id)
    ensures b.ev[id].pending ==> var q := QueueOf(b.ev[id], FTimeout, |b.timers|);
      q in b.queues && q in b'.queues && |b'.queues[q]| < |b.queues[q]|
  {
    hide EventQueues.Core, TimersOk, AllServed, OnDuty, QueueOf, Without, TakenFrom;
    b' := RemoveIf(b, cb, id, FTimeout);
    ghost var b1 := b';
    b' := RemoveIf(b', cb, id, FActive);
    ghost var b2 := b';
    b' := RemoveIf(b', cb, id, FInserted);
    TakenFromAll(b, b1, b2, b', id);
    OffQueues(b, b', id);
  }

  /** An event that is on the queue of active events, for one reason more. */
  function Activated(e: Event, res: set<Cause>): (e': Event)
  {
    e.(active := true, res := if e.active then e.res + res else res)
  }

  /** event_active_nolock */
  method ActiveNolock(b: Base, ghost cb: set<nat>, id: Id, res: set<Cause>) returns (b': Base)
    requires b.Valid(cb) && id < |b.ev|
    ensures b'.Valid(cb) && b'.ev == b.ev[id := Activated(b.ev[id], res)]
    ensures b'.(continue_ := b.continue_).Beside(b)
    ensures b'.continue_ == (b.continue_ || (!b.ev[id].active && b.ev[id].pri < b.running))
    ensures var e := b.ev[id];
      && b'.ev == b.ev[id := e.(active := true, res := if e.active then e.res + res else res)]
      && Active(e.pri) in b.queues
      && b'.queues == (if e.active then b.queues else b.queues[Active(e.pri) := b.queues[Active(e.pri)] + [id]])
      && b'.count == b.count + (if e.active || e.internal then 0 else 1)
      && b'.countActive == b.countActive + (if e.active then 0 else 1)
  {
    hide EventQueues.Core, TimersOk, AllServed, OnDuty, EventOk, SameFlags, Activated, SetFlag, QueueOf, HasFlag;
    HasActive(b, id);
    EventHas(b, id);
    var e := b.ev[id].(res := if b.ev[id].active then b.ev[id].res + res else res);
    ResOk(b.ev[id], e.res, b.nactive, |b.timers|);
    ActiveIs(b.ev[id], res, |b.timers|);
    Stored(b, cb, id, e);
    b' := b.(ev := b.ev[id := e]);
    if !e.active {
      ContinueValid(b', cb);
      if e.pri < b'.running {
        b' := b'.(continue_ := true);
      }
      ghost var cb';
      b', cb' := QueueInsert(b', cb, id, FActive);
    }
  }

  lemma HasActive(b: Base, id: Id)
    requires b.Core() && id < |b.ev|
    ensures Active(b.ev[id].pri) in b.queues
  {
    EventHas(b, id);
    assert ValidKind(Active(b.ev[id].pri), b.nactive, |b.timers|);
  }

  lemma ActiveIs(e: Event, res: set<Cause>, ncommon: nat)
    ensures var e' := e.(res := if e.active then e.res + res else res);
      && QueueOf(e', FActive, ncommon) == Active(e.pri) && HasFlag(e', FActive) == e.active
      && (if e.active then e' else SetFlag(e', FActive, true)) == Activated(e, res)
      && Activated(e, res) == e.(active := true, res := if e.active then e.res + res else res)
  {}

  lemma ResOk(e: Event, res: set<Cause>, nactive: nat, ncommon: nat)
    requires EventOk(e, nactive, ncommon)
    ensures EventOk(e.(res := res), nactive, ncommon) && SameFlags(e, e.(res := res))
    ensures EventOk(SetFlag(e.(res := res), FActive, true), nactive, ncommon)
  {}

  /** Only the events and queues matter. */
  lemma ContinueValid(b: Base, cb: set<nat>)
    requires b.Valid(cb)
    ensures b.(continue_ := true).Valid(cb)
  {}

  // ----- the order in which events expire

  lemma {:induction false} WithoutSum(a: seq<Id>, c: seq<Id>, id: Id)
    requires id !in c
    ensures Without(a + c, id) == Without(a, id) + c
  {
    if id in a {
      IndexSum(a, c, id);
      var k := IndexIn(a, id);
      assert (a + c)[..k] + (a + c)[k + 1..] == a[..k] + a[k + 1..] + c;
    }
  }

  lemma {:induction false} IndexSum(a: seq<Id>, c: seq<Id>, id: Id)
    requires id in a
    ensures IndexIn(a + c, id) == IndexIn(a, id)
  {
    if a[0] != id {
      assert (a + c)[1..] == a[1..] + c;
      IndexSum(a[1..], c, id);
    }
  }

  /** Those that are gone have come back at the end, in the order of their times. */
  ghost predicate Lined(ev: seq<Event>, ids: seq<Id>, ids': seq<Id>, gone: set<nat>)
  {
    exists late: seq<Id> ::
      ids' == Staying(ids, gone) + late && (forall id :: id in late ==> id in gone) && InOrder(ev, late)
  }

  lemma LinedNone(ev: seq<Event>, ids: seq<Id>)
    ensures Lined(ev, ids, ids, {})
  {
    StayingAll(ids);
    assert ids == Staying(ids, {}) + [];
  }

  lemma LinedNext(ev: seq<Event>, ids: seq<Id>, ids': seq<Id>, gone: set<nat>, id: Id, back: bool)
    requires Lined(ev, ids, ids', gone) && Distinct(ids) && id !in gone
    requires forall g :: g in gone ==> When(ev, g) <= When(ev, id)
    ensures Lined(ev, ids, Without(ids', id) + if back then [id] else [], gone + {id})
  {
    hide Without, Staying, When;
    var late :| ids' == Staying(ids, gone) + late && (forall id :: id in late ==> id in gone) && InOrder(ev, late);
    StayingMore(ids, gone, id);
    WithoutSum(Staying(ids, gone), late, id);
    var late' := late + if back then [id] else [];
    assert InOrder(ev, late') by {
      forall i, j | 0 <= i < j < |late'| ensures When(ev, late'[i]) <= When(ev, late'[j]) {
        assert late'[i] in late;
      }
    }
    assert Without(ids', id) + (if back then [id] else []) == Staying(ids, gone + {id}) + late';
  }

  /** Every queue of active events, as Lined says. */
  ghost predicate AllLined(b: Base, b': Base, gone: set<nat>)
  {
    forall p: nat :: Active(p) in b.queues ==>
      Active(p) in b'.queues && Lined(b.ev, b.queues[Active(p)], b'.queues[Active(p)], gone)
  }

  lemma AllLinedNone(b: Base)
    ensures AllLined(b, b, {})
  {
    forall p: nat | Active(p) in b.queues ensures Lined(b.ev, b.queues[Active(p)], b.queues[Active(p)], {}) {
      LinedNone(b.ev, b.queues[Active(p)]);
    }
  }

  /** One more event is taken off its queues and put at the end of that of its priority. */
  lemma AllLinedNext(b: Base, b1: Base, b2: Base, gone: set<nat>, id: Id, pri: nat)
    requires b.Core() && AllLined(b, b1, gone) && id !in gone
    requires forall g :: g in gone ==> When(b.ev, g) <= When(b.ev, id)
    requires Active(pri) in b1.queues
    requires forall p: nat :: Active(p) in b.queues && Active(p) in b1.queues ==>
      && Active(p) in b2.queues
      && b2.queues[Active(p)] == Without(b1.queues[Active(p)], id) + if p == pri then [id] else []
    ensures AllLined(b, b2, gone + {id})
  {
    hide Lined, Without, When, Counted, EventsOk;
    forall p: nat | Active(p) in b.queues
      ensures Active(p) in b2.queues && Lined(b.ev, b.queues[Active(p)], b2.queues[Active(p)], gone + {id}) {
      assert QueueOk(b.ev, b.queues[Active(p)], Active(p));
      LinedNext(b.ev, b.queues[Active(p)], b1.queues[Active(p)], gone, id, p == pri);
    }
  }

  /** As Lined, but for internal timers that have been taken off as well. */
  ghost predicate LinedBut(ev: seq<Event>, ids: seq<Id>, ids': seq<Id>, gone: set<nat>)
  {
    exists off: set<nat>, late: seq<Id> ::
      && ids' == Staying(ids, gone + off) + late && (forall id :: id in late ==> id in gone) && InOrder(ev, late)
      && Internals(ev, off)
  }

  ghost predicate Internals(ev: seq<Event>, off: set<nat>)
  {
    forall g :: g in off ==> g < |ev| && ev[g].internal
  }

  ghost predicate NoInternals(ev: seq<Event>, gone: set<nat>)
  {
    forall g :: g in gone ==> g < |ev| && !ev[g].internal
  }

  ghost predicate AllLinedBut(b: Base, b': Base, gone: set<nat>)
  {
    forall p: nat :: Active(p) in b.queues ==>
      Active(p) in b'.queues && LinedBut(b.ev, b.queues[Active(p)], b'.queues[Active(p)], gone)
  }

  lemma {:induction false} StayingSum(a: seq<Id>, c: seq<Id>, gone: set<nat>)
    ensures Staying(a + c, gone) == Staying(a, gone) + Staying(c, gone)
  {
    if a == [] {
      assert a + c == c;
    } else {
      assert (a + c)[1..] == a[1..] + c;
      StayingSum(a[1..], c, gone);
    }
  }

  lemma {:induction false} StayingApart(ids: seq<Id>, gone: set<nat>)
    requires forall id :: id in ids ==> id !in gone
    ensures Staying(ids, gone) == ids
  {
    if ids != [] { StayingApart(ids[1..], gone); }
  }

  lemma LinedThen(ev: seq<Event>, ev1: seq<Event>, ids: seq<Id>, ids1: seq<Id>, ids2: seq<Id>, gone: set<nat>, t: Id)
    requires Lined(ev, ids, ids1, gone) && Fewer(ev1, ids1, ids2, t) && t < |ev| == |ev1| && ev[t].internal
    requires forall j :: 0 <= j < |ev| ==> ev1[j].internal == ev[j].internal
    requires NoInternals(ev, gone)
    ensures LinedBut(ev, ids, ids2, gone)
  {
    hide Staying, InOrder;
    var late :| ids1 == Staying(ids, gone) + late && (forall id :: id in late ==> id in gone) && InOrder(ev, late);
    var off: set<nat> :| OwnOnly(ev1, off, t) && ids2 == Staying(ids1, off);
    StayingSum(Staying(ids, gone), late, off);
    StayingTwice(ids, gone, off);
    StayingApart(late, off);
    assert Internals(ev, off);
  }

  lemma LinedButNone(ev: seq<Event>, ids: seq<Id>, ids': seq<Id>, gone: set<nat>)
    requires Lined(ev, ids, ids', gone)
    ensures LinedBut(ev, ids, ids', gone)
  {
    hide Staying, InOrder;
    var late :| ids' == Staying(ids, gone) + late && (forall id :: id in late ==> id in gone) && InOrder(ev, late);
    assert gone + {} == gone && Internals(ev, {});
  }

  lemma AllLinedThen(b: Base, b1: Base, b2: Base, gone: set<nat>, t: Id)
    requires AllLined(b, b1, gone)
    requires b2.queues == b1.queues || (t < |b.ev| && b.ev[t].internal && OrderKept(b1.ev, b1.queues, b2.queues, t))
    requires |b.ev| == |b1.ev| && forall j :: 0 <= j < |b.ev| ==> b1.ev[j].internal == b.ev[j].internal
    requires NoInternals(b.ev, gone)
    ensures AllLinedBut(b, b2, gone)
  {
    hide Lined, LinedBut, Fewer, NoInternals;
    forall p: nat | Active(p) in b.queues
      ensures Active(p) in b2.queues && LinedBut(b.ev, b.queues[Active(p)], b2.queues[Active(p)], gone) {
      var ids, ids1, ids2 := b.queues[Active(p)], b1.queues[Active(p)], b2.queues[Active(p)];
      if b2.queues == b1.queues {
        LinedButNone(b.ev, ids, ids1, gone);
      } else {
        LinedThen(b.ev, b1.ev, ids, ids1, ids2, gone, t);
      }
    }
  }

  /** What is to expire of the timeouts with a tag. */
  predicate DueOn(e: Event, tag: nat, now: Timeval)
  {
    e.pending && Tag(e.timeout) == tag && Time(e.timeout) <= Time(now)
  }

  ghost function AllDue(ev: seq<Event>, tag: nat, now: Timeval): (ids: set<nat>)
  {
    set id | 0 <= id < |ev| && DueOn(ev[id], tag, now)
  }

  /** The events of gone have expired, no later than the others with that tag will. */
  ghost predicate Gone(ev: seq<Event>, ev': seq<Event>, gone: set<nat>, tag: nat, now: Timeval)
  {
    && |ev'| == |ev|
    && (forall g :: g in gone ==> g < |ev| && DueOn(ev[g], tag, now) && !ev'[g].pending)
    && (forall j :: 0 <= j < |ev| && j !in gone ==> ev'[j] == ev[j])
    && (forall g, j: nat :: g in gone && j < |ev| && ev'[j].pending && Tag(ev'[j].timeout) == tag ==>
      When(ev, g) <= When(ev', j))
  }

  lemma GoneNone(ev: seq<Event>, tag: nat, now: Timeval)
    ensures Gone(ev, ev, {}, tag, now)
  {}

  lemma GoneNext(ev: seq<Event>, ev1: seq<Event>, ev2: seq<Event>, gone: set<nat>, tag: nat, now: Timeval, id: Id)
    requires Gone(ev, ev1, gone, tag, now) && id < |ev1| && DueOn(ev1[id], tag, now)
    requires forall j: nat ::
      j < |ev1| && ev1[j].pending && Tag(ev1[j].timeout) == tag ==> When(ev1, id) <= When(ev1, j)
    requires ev2 == ev1[id := Deleted(ev1[id])][id := Activated(Deleted(ev1[id]), {Timeout})]
    ensures id !in gone && Gone(ev, ev2, gone + {id}, tag, now)
    ensures forall g :: g in gone ==> When(ev, g) <= When(ev, id)
  {
    hide Time, Tag;
  }

  lemma GoneAll(ev: seq<Event>, ev': seq<Event>, gone: set<nat>, tag: nat, now: Timeval)
    requires Gone(ev, ev', gone, tag, now) && forall j :: 0 <= j < |ev| ==> !DueOn(ev'[j], tag, now)
    ensures gone == AllDue(ev, tag, now)
  {}

  // ----- expiry

  /** An event whose timeout has expired. */
  function Expired(e: Event): (e': Event)
  {
    Deleted(e).(active := true, res := {Timeout})
  }

  /** What common_timeout_callback does to an event that was on its list. */
  ghost predicate Swept(e: Event, e': Event, i: nat, now: Timeval)
  {
    if e.pending && Tag(e.timeout) == TagOf(i) && Time(e.timeout) <= Time(now) then e' == Expired(e)
    else e' == e
  }

  /** Like Swept, for every event but the timer; some that are due may still be on the list. */
  ghost predicate Sweeping(ev: seq<Event>, ev': seq<Event>, i: nat, now: Timeval)
  {
    |ev'| == |ev| && forall j :: 0 <= j < |ev| ==> ev'[j] == ev[j] || (!ev[j].internal && Swept(ev[j], ev'[j], i, now))
  }

  /** common_timeout_callback, up to where it schedules the timer for what is left */
  method SweepList(b: Base, ghost cb: set<nat>, i: nat, now: Timeval) returns (b': Base)
    requires b.Valid(cb) && i < |b.timers| && Plain(now) && WellTagged(b.ev, |b.timers|)
    ensures b'.Valid(cb) && b'.(continue_ := b.continue_).Beside(b) && WellTagged(b'.ev, |b.timers|)
    ensures Sweeping(b.ev, b'.ev, i, now) && (b.continue_ ==> b'.continue_)
    ensures (b'.continue_ && !b.continue_ ==> b.running > 0)
    ensures Common(i) in b'.queues && (b'.queues[Common(i)] != [] ==> Time(now) < When(b'.ev, b'.queues[Common(i)][0]))
    ensures AllLined(b, b', AllDue(b.ev, 0x500 + i, now))
  {
    hide EventQueues.Core, TimersOk, AllServed, OnDuty, EventOk, WellTagged, Sweeping, Swept, QueueOf, IsTime, Tag,
      AllLined, Gone, AllDue, Without, Places, Time, Micro, Plain, Activated, Deleted;
    b' := b;
    ghost var gone: set<nat> := {};
    AllLinedNone(b);
    GoneNone(b.ev, 0x500 + i, now);
    SweptNone(b.ev, i, now);
    HasList(b, cb, i);
    while b'.queues[Common(i)] != []
      invariant b'.Valid(cb) && b'.(continue_ := b.continue_).Beside(b) && WellTagged(b'.ev, |b.timers|)
      invariant Sweeping(b.ev, b'.ev, i, now) && (b.continue_ ==> b'.continue_)
      invariant (b'.continue_ && !b.continue_ ==> b.running > 0) && |b'.ev| == |b.ev| && Common(i) in b'.queues
      invariant AllLined(b, b', gone) && Gone(b.ev, b'.ev, gone, 0x500 + i, now)
      decreases |b'.queues[Common(i)]|
    {
      var id := b'.queues[Common(i)][0];
      HeadOf(b', cb, i);
      HeadQueue(b', cb, i);
      var at := b'.ev[id].timeout;
      LaterIs(at, now, |b.timers|);
      FirstOnList(b', cb, i);
      if at.sec > now.sec || (at.sec == now.sec && Micro(at) > now.usec) {
        GoneAll(b.ev, b'.ev, gone, 0x500 + i, now);
        return;
      }
      OffDuty(b', cb, id);
      ghost var b0 := b';
      b' := DelInternal(b', cb, id);
      b' := ActiveNolock(b', cb, id, {Timeout});
      SweptOne(b.ev, b0.ev, b'.ev, id, i, now, |b.timers|);
      GoneNext(b.ev, b0.ev, b'.ev, gone, 0x500 + i, now, id);
      AllLinedNext(b, b0, b', gone, id, b0.ev[id].pri);
      gone := gone + {id};
    }
    FirstOnList(b', cb, i);
    GoneAll(b.ev, b'.ev, gone, 0x500 + i, now);
  }

  /** The first of a list is the first of all that have its tag. */
  lemma FirstOnList(b: Base, cb: set<nat>, i: nat)
    requires b.Valid(cb) && i < |b.timers| && Common(i) in b.queues
    ensures forall j: nat :: j < |b.ev| && b.ev[j].pending && Tag(b.ev[j].timeout) == 0x500 + i ==>
      b.queues[Common(i)] != [] && When(b.ev, b.queues[Common(i)][0]) <= When(b.ev, j)
  {
    hide Time, Tag, When, Counted;
    var ids := b.queues[Common(i)];
    assert QueueOk(b.ev, ids, Common(i)) && Served(b.ev, b.queues, b.timers, cb, i);
    forall j: nat | j < |b.ev| && b.ev[j].pending && Tag(b.ev[j].timeout) == 0x500 + i
      ensures ids != [] && When(b.ev, ids[0]) <= When(b.ev, j) {
      EventHas(b, j);
      assert j in ids;
      var k :| 0 <= k < |ids| && ids[k] == j;
      if k > 0 { assert When(b.ev, ids[0]) <= When(b.ev, ids[k]); }
    }
  }

  lemma HasList(b: Base, cb: set<nat>, i: nat)
    requires b.Valid(cb) && i < |b.timers|
    ensures Common(i) in b.queues
  {
    assert Served(b.ev, b.queues, b.timers, cb, i);
  }

  lemma HeadQueue(b: Base, cb: set<nat>, i: nat)
    requires b.Valid(cb) && i < |b.timers| && Common(i) in b.queues && b.queues[Common(i)] != []
    ensures var h := b.queues[Common(i)][0]; h < |b.ev| && QueueOf(b.ev[h], FTimeout, |b.timers|) == Common(i)
  {
    HeadOf(b, cb, i);
    EventHas(b, b.queues[Common(i)][0]);
    CommonIs(b.ev[b.queues[Common(i)][0]].timeout, |b.timers|);
  }

  /** The comparison in common_timeout_callback is one of times. */
  lemma LaterIs(at: Timeval, now: Timeval, ncommon: nat)
    requires IsTime(at, ncommon) && Plain(now)
    ensures at.sec > now.sec || (at.sec == now.sec && Micro(at) > now.usec) <==> Time(at) > Time(now)
  {
    PlainTime(now);
  }

  lemma SweptNone(ev: seq<Event>, i: nat, now: Timeval)
    ensures Sweeping(ev, ev, i, now)
  {}

  lemma SweptOne(ev: seq<Event>, ev1: seq<Event>, ev2: seq<Event>, id: Id, i: nat, now: Timeval, ncommon: nat)
    requires Sweeping(ev, ev1, i, now) && id < |ev| == |ev1| && WellTagged(ev1, ncommon)
    requires !ev1[id].internal && ev1[id].pending && Tag(ev1[id].timeout) == TagOf(i)
    requires Time(ev1[id].timeout) <= Time(now)
    requires ev2 == ev1[id := Deleted(ev1[id])][id := Activated(Deleted(ev1[id]), {Timeout})]
    ensures Sweeping(ev, ev2, i, now) && WellTagged(ev2, ncommon)
  {
    assert ev2[id] == Expired(ev1[id]);
  }

  /** Once the head is later than now, everything due has been swept. */
  lemma SweptAll(b: Base, b': Base, cb: set<nat>, i: nat, now: Timeval, j: Id)
    requires b'.Valid(cb) && b'.(continue_ := b.continue_).Beside(b) && i < |b.timers| && Sweeping(b.ev, b'.ev, i, now)
    requires Common(i) in b'.queues && (b'.queues[Common(i)] != [] ==> Time(now) < When(b'.ev, b'.queues[Common(i)][0]))
    requires j < |b.ev| && !b.ev[j].internal
    ensures |b'.ev| == |b.ev| && Swept(b.ev[j], b'.ev[j], i, now)
  {
    var ids := b'.queues[Common(i)];
    assert QueueOk(b'.ev, ids, Common(i)) && Served(b'.ev, b'.queues, b.timers, cb, i);
    if b'.ev[j] == b.ev[j] && j in ids {
      var k :| 0 <= k < |ids| && ids[k] == j;
      assert When(b'.ev, ids[0]) <= When(b'.ev, ids[k]);
    }
  }

  lemma EmptyServed(b: Base, cb: set<nat>, i: nat)
    requires b.Valid(cb + {i}) && i < |b.timers| && Common(i) in b.queues && b.queues[Common(i)] == []
    ensures b.Valid(cb)
  {
    hide EventQueues.Core;
    forall j | 0 <= j < |b.timers| ensures Served(b.ev, b.queues, b.timers, cb, j) {
      assert Served(b.ev, b.queues, b.timers, cb + {i}, j);
    }
  }

  /** common_timeout_callback: everything due on list i becomes active, and the list is served again. */
  method CommonTimeoutCallback(b: Base, ghost cb: set<nat>, i: nat, now: Timeval) returns (b': Base)
    requires b.Valid(cb + {i}) && i < |b.timers| && Plain(now) && WellTagged(b.ev, |b.timers|)
    ensures b'.Valid(cb) && b'.(continue_ := b.continue_).Beside(b) && WellTagged(b'.ev, |b.timers|)
    ensures |b'.ev| == |b.ev|
    ensures forall j :: 0 <= j < |b.ev| ==>
      if b.ev[j].internal then b'.ev[j].active ==> b.ev[j].active else Swept(b.ev[j], b'.ev[j], i, now)
    ensures forall j :: 0 <= j < |b.ev| && !b.ev[j].internal ==>
      var e := b.ev[j];
      b'.ev[j] ==
        if e.pending && Tag(e.timeout) == 0x500 + i && Time(e.timeout) <= Time(now)
        then e.(pending := false, inserted := false, active := true, res := {Timeout})
        else e
    ensures forall j :: 0 <= j < |b.ev| ==>
      b'.ev[j].internal == b.ev[j].internal && b'.ev[j].pri == b.ev[j].pri && b'.ev[j].persist == b.ev[j].persist
    ensures (b.continue_ ==> b'.continue_) && (b'.continue_ && !b.continue_ ==> b.running > 0)
    ensures AllLinedBut(b, b', AllDue(b.ev, 0x500 + i, now))
  {
    hide EventQueues.Core, TimersOk, AllServed, WellTagged, Sweeping, Swept, OnlyTimers, IsTime, Tag, AllLined,
      AllLinedBut, AllDue, OrderKept, NoInternals;
    b' := SweepList(b, cb + {i}, i, now);
    ghost var b1 := b';
    DueOutside(b, i, now);
    SweptInternal(b.ev, b1.ev, i, now);
    forall j | 0 <= j < |b.ev| && !b.ev[j].internal ensures |b1.ev| == |b.ev| && Swept(b.ev[j], b1.ev[j], i, now) {
      SweptAll(b, b1, cb + {i}, i, now, j);
    }
    if b'.queues[Common(i)] != [] {
      b' := CommonTimeoutSchedule(b', cb, i, b'.queues[Common(i)][0], now);
    } else {
      EmptyServed(b', cb, i);
    }
    AllLinedThen(b, b1, b', AllDue(b.ev, 0x500 + i, now), b.timers[i]);
    CallbackEvents(b.ev, b1.ev, b'.ev, i, now, b.timers);
    SweptIs(b.ev, b'.ev, i, now);
  }

  /** No internal timer is on a list. */
  lemma DueOutside(b: Base, i: nat, now: Timeval)
    requires b.Core() && TimersOk(b.ev, b.timers) && i < |b.timers|
    ensures NoInternals(b.ev, AllDue(b.ev, 0x500 + i, now))
    ensures b.timers[i] < |b.ev| && b.ev[b.timers[i]].internal
  {
    hide EventQueues.Core;
    forall g | g in AllDue(b.ev, 0x500 + i, now) ensures g < |b.ev| && !b.ev[g].internal {
      EventHas(b, g);
    }
  }

  lemma SweptInternal(ev: seq<Event>, ev': seq<Event>, i: nat, now: Timeval)
    requires Sweeping(ev, ev', i, now)
    ensures |ev'| == |ev| && forall j :: 0 <= j < |ev| ==> ev'[j].internal == ev[j].internal
  {}

  lemma CallbackEvents(ev: seq<Event>, ev1: seq<Event>, ev2: seq<Event>, i: nat, now: Timeval, timers: seq<Id>)
    requires i < |timers| && Sweeping(ev, ev1, i, now)
    requires forall j :: 0 <= j < |ev| && !ev[j].internal ==> Swept(ev[j], ev1[j], i, now)
    requires ev2 == ev1 || (timers[i] < |ev1| && OnlyTimers(ev1, ev2, timers[i]) && ev1[timers[i]].internal
      && exists tv, now :: ev2[timers[i]] == AfterAdd(ev1[timers[i]], Some(tv), true, now))
    ensures |ev2| == |ev|
    ensures forall j ::
      0 <= j < |ev| ==> if ev[j].internal then ev2[j].active ==> ev[j].active else Swept(ev[j], ev2[j], i, now)
    ensures forall j ::
      0 <= j < |ev| ==> ev2[j].internal == ev[j].internal && ev2[j].pri == ev[j].pri && ev2[j].persist == ev[j].persist
  {
    forall j | 0 <= j < |ev|
      ensures ev1[j].internal == ev[j].internal && ev1[j].pri == ev[j].pri && ev1[j].persist == ev[j].persist
      ensures ev[j].internal ==> ev1[j] == ev[j] {}
    if ev2 != ev1 {
      forall j | 0 <= j < |ev| ensures j == timers[i] || OnlyRetimed(ev1[j], ev2[j]) {}
    }
  }

  // ----- the heap

  /** min_heap_top: one of the earliest */
  method HeapTop(ev: seq<Event>, heap: seq<Id>) returns (top: Id)
    requires heap != [] && forall k :: 0 <= k < |heap| ==> heap[k] < |ev| && Plain(ev[heap[k]].timeout)
    ensures top in heap && forall k :: 0 <= k < |heap| ==> When(ev, top) <= When(ev, heap[k])
  {
    top := heap[0];
    for k := 1 to |heap|
      invariant top in heap && forall l :: 0 <= l < k ==> When(ev, top) <= When(ev, heap[l])
    {
      PlainOrder(ev[top].timeout, ev[heap[k]].timeout);
      if !Le(ev[top].timeout, ev[heap[k]].timeout) {
        top := heap[k];
      }
    }
  }

  lemma PlainOrder(a: Timeval, c: Timeval)
    requires Plain(a) && Plain(c)
    ensures Le(a, c) <==> Time(a) <= Time(c)
  {
    PlainTime(a);
    PlainTime(c);
  }

  lemma HeapIs(b: Base)
    requires b.Core()
    ensures Heap in b.queues
    ensures forall id: nat :: id in b.queues[Heap] <==> id < |b.ev| && b.ev[id].pending && Tag(b.ev[id].timeout) == 0
    ensures forall k ::
      0 <= k < |b.queues[Heap]| ==> b.queues[Heap][k] < |b.ev| && Plain(b.ev[b.queues[Heap][k]].timeout)
  {
    var heap := b.queues[Heap];
    assert QueueOk(b.ev, heap, Heap);
    forall k | 0 <= k < |heap| ensures heap[k] < |b.ev| && Plain(b.ev[heap[k]].timeout) {
      assert heap[k] in heap;
      EventHas(b, heap[k]);
      CommonIs(b.ev[heap[k]].timeout, |b.timers|);
    }
  }

  /** The lists that an event is the timer of. */
  ghost function TimedBy(timers: seq<Id>, id: Id): (cb: set<nat>)
  {
    set i | 0 <= i < |timers| && timers[i] == id
  }

  lemma TakenOff(b: Base, id: Id)
    requires b.Valid({})
    ensures b.Valid(TimedBy(b.timers, id)) && !OnDuty(b.timers, TimedBy(b.timers, id), id)
  {
    hide EventQueues.Core;
    var cb := TimedBy(b.timers, id);
    forall j | 0 <= j < |b.timers| ensures Served(b.ev, b.queues, b.timers, cb, j) {
      assert Served(b.ev, b.queues, b.timers, {}, j);
    }
  }

  lemma PutBack(b: Base, id: Id)
    requires b.Valid(TimedBy(b.timers, id)) && id < |b.ev| && b.ev[id].active
    ensures b.Valid({})
  {
    hide EventQueues.Core;
    var cb := TimedBy(b.timers, id);
    forall j | 0 <= j < |b.timers| ensures Served(b.ev, b.queues, b.timers, {}, j) {
      assert Served(b.ev, b.queues, b.timers, cb, j);
    }
  }

  /** Whether timeout_process is to expire an event. */
  predicate Due(e: Event, now: Timeval)
  {
    e.pending && Tag(e.timeout) == 0 && Time(e.timeout) <= Time(now)
  }

  ghost predicate Expiring(ev: seq<Event>, ev': seq<Event>, now: Timeval)
  {
    |ev'| == |ev| && forall j :: 0 <= j < |ev| ==> ev'[j] == ev[j] || (Due(ev[j], now) && ev'[j] == Expired(ev[j]))
  }

  /** What is first in the heap is first of all that has a timeout of its own. */
  lemma FirstOfAll(b: Base, top: Id)
    requires b.Core() && Heap in b.queues && top in b.queues[Heap]
    requires forall k :: 0 <= k < |b.queues[Heap]| ==> When(b.ev, top) <= When(b.ev, b.queues[Heap][k])
    ensures forall j: nat ::
      j < |b.ev| && b.ev[j].pending && Tag(b.ev[j].timeout) == 0 ==> When(b.ev, top) <= When(b.ev, j)
  {
    hide Time, Tag, When;
    HeapIs(b);
    forall j: nat | j < |b.ev| && b.ev[j].pending && Tag(b.ev[j].timeout) == 0
      ensures When(b.ev, top) <= When(b.ev, j) {
      var k :| 0 <= k < |b.queues[Heap]| && b.queues[Heap][k] == j;
    }
  }

  /** timeout_process: exactly the events that are due expire. */
  method TimeoutProcess(b: Base, now: Timeval) returns (b': Base)
    requires b.Valid({}) && WellTagged(b.ev, |b.timers|) && Plain(now)
    ensures b'.Valid({}) && WellTagged(b'.ev, |b.timers|) && b'.(continue_ := b.continue_).Beside(b)
    ensures b'.continue_ && !b.continue_ ==> b.running > 0
    ensures |b'.ev| == |b.ev|
    ensures forall j :: 0 <= j < |b.ev| ==> b'.ev[j] == if Due(b.ev[j], now) then Expired(b.ev[j]) else b.ev[j]
    ensures forall j :: 0 <= j < |b.ev| ==>
      var e := b.ev[j];
      b'.ev[j] ==
        if e.pending && Tag(e.timeout) == 0 && Time(e.timeout) <= Time(now)
        then e.(pending := false, inserted := false, active := true, res := {Timeout})
        else e
    ensures AllLined(b, b', AllDue(b.ev, 0, now))
  {
    hide EventQueues.Core, TimersOk, AllServed, OnDuty, WellTagged, Expiring, QueueOf, Plain, Tag, AllLined, Gone,
      AllDue, Without, Places;
    b' := b;
    ghost var gone: set<nat> := {};
    AllLinedNone(b);
    GoneNone(b.ev, 0, now);
    ExpiredNone(b.ev, now);
    HeapIs(b');
    while b'.queues[Heap] != []
      invariant b'.Valid({}) && WellTagged(b'.ev, |b.timers|) && b'.(continue_ := b.continue_).Beside(b)
      invariant Expiring(b.ev, b'.ev, now) && |b'.ev| == |b.ev| && Heap in b'.queues
      invariant (b'.continue_ && !b.continue_ ==> b.running > 0)
      invariant AllLined(b, b', gone) && Gone(b.ev, b'.ev, gone, 0, now)
      decreases |b'.queues[Heap]|
    {
      HeapIs(b');
      var top := HeapTop(b'.ev, b'.queues[Heap]);
      PlainOrder(b'.ev[top].timeout, now);
      if !Le(b'.ev[top].timeout, now) {
        NoneDue(b', now, top);
        AllExpired(b.ev, b'.ev, now);
        GoneAll(b.ev, b'.ev, gone, 0, now);
        return;
      }
      HeapQueue(b', top);
      FirstOfAll(b', top);
      TakenOff(b', top);
      ghost var b0, cb := b', TimedBy(b.timers, top);
      b' := DelInternal(b', cb, top);
      b' := ActiveNolock(b', cb, top, {Timeout});
      ExpiredOne(b.ev, b0.ev, b'.ev, top, now, |b.timers|);
      GoneNext(b.ev, b0.ev, b'.ev, gone, 0, now, top);
      AllLinedNext(b, b0, b', gone, top, b0.ev[top].pri);
      gone := gone + {top};
      PutBack(b', top);
    }
    HeapIs(b');
    AllExpired(b.ev, b'.ev, now);
    GoneAll(b.ev, b'.ev, gone, 0, now);
  }

  /** Sweeping is what happens to those of one tag whose time has come. */
  lemma SweptIs(ev: seq<Event>, ev': seq<Event>, i: nat, now: Timeval)
    requires |ev| == |ev'| && forall j :: 0 <= j < |ev| && !ev[j].internal ==> Swept(ev[j], ev'[j], i, now)
    ensures forall j :: 0 <= j < |ev| && !ev[j].internal ==>
      ev'[j] ==
        if ev[j].pending && Tag(ev[j].timeout) == 0x500 + i && Time(ev[j].timeout) <= Time(now)
        then ev[j].(pending := false, inserted := false, active := true, res := {Timeout})
        else ev[j]
  {
    hide Tag, Time;
  }

  lemma HeapQueue(b: Base, id: Id)
    requires b.Core() && Heap in b.queues && id in b.queues[Heap]
    ensures id < |b.ev| && QueueOf(b.ev[id], FTimeout, |b.timers|) == Heap
  {
    HeapIs(b);
    EventHas(b, id);
    CommonIs(b.ev[id].timeout, |b.timers|);
  }

  lemma NoneDue(b: Base, now: Timeval, top: Id)
    requires b.Core() && Heap in b.queues
    requires forall k :: 0 <= k < |b.queues[Heap]| ==> When(b.ev, top) <= When(b.ev, b.queues[Heap][k])
    requires Time(now) < When(b.ev, top)
    ensures forall j :: 0 <= j < |b.ev| ==> !Due(b.ev[j], now)
  {
    HeapIs(b);
    forall j | 0 <= j < |b.ev| ensures !Due(b.ev[j], now) {
      if j in b.queues[Heap] {
        var k :| 0 <= k < |b.queues[Heap]| && b.queues[Heap][k] == j;
        assert When(b.ev, top) <= When(b.ev, b.queues[Heap][k]);
      }
    }
  }

  lemma ExpiredNone(ev: seq<Event>, now: Timeval)
    ensures Expiring(ev, ev, now)
  {}

  lemma ExpiredOne(ev: seq<Event>, ev1: seq<Event>, ev2: seq<Event>, id: Id, now: Timeval, ncommon: nat)
    requires Expiring(ev, ev1, now) && id < |ev| == |ev1| && WellTagged(ev1, ncommon) && Due(ev1[id], now)
    requires ev2 == ev1[id := Deleted(ev1[id])][id := Activated(Deleted(ev1[id]), {Timeout})]
    ensures Expiring(ev, ev2, now) && WellTagged(ev2, ncommon)
  {
    assert ev2[id] == Expired(ev1[id]);
  }

  lemma AllExpired(ev: seq<Event>, ev': seq<Event>, now: Timeval)
    requires Expiring(ev, ev', now) && |ev'| == |ev| && forall j :: 0 <= j < |ev| ==> !Due(ev'[j], now)
    ensures forall j :: 0 <= j < |ev| ==> ev'[j] == if Due(ev[j], now) then Expired(ev[j]) else ev[j]
  {}
}
