/**
 Running the callbacks of active events, one priority at a time, while they and other threads go on adding,
 deleting and activating.
 */
module EventPriorities {
  import opened Basics
  import opened Timevals
  import opened EventQueues
  import opened EventLoop
  import opened EventDispatch
  import opened EventTimeouts

  /**
   A call that a callback or another thread makes; io is what evmap_io_add would answer.  ActLoopexit is what the
   callback event_loopexit_cb does.
   */
  datatype Act =
    | ActAdd(id: Id, tv: Option<Timeval>, io: int)
    | ActDel(id: Id)
    | ActActivate(id: Id, res: set<Cause>)
    | ActBreak
    | ActLoopexit

  predicate Permitted(b: Base, act: Act)
  {
    match act
    case ActAdd(id, tv, io) =>
      id < |b.ev| && !b.ev[id].internal && -1 <= io <= 1 && (tv.Some? ==> IsDuration(tv.value, |b.timers|))
    case ActDel(id) => id < |b.ev| && !b.ev[id].internal
    case ActActivate(id, res) => id < |b.ev| && !b.ev[id].internal
    case ActBreak => true
    case ActLoopexit => true
  }

  /** Activating an event more urgent than the running priority sets event_continue. */
  ghost predicate Heard(b: Base, b': Base)
  {
    && b'.timers == b.timers && b'.nactive == b.nactive && b'.running == b.running && |b'.ev| == |b.ev|
    && (b.continue_ ==> b'.continue_) && (b'.continue_ && !b.continue_ ==> b.running > 0)
    && (b.break_ ==> b'.break_) && (b.gotterm ==> b'.gotterm)
    && forall j :: 0 <= j < |b.ev| ==> HeardOf(b, b'.ev[j], b'.continue_, j)
  }

  ghost predicate HeardOf(b: Base, e: Event, continue_: bool, j: Id)
    requires j < |b.ev|
  {
    && e.pri == b.ev[j].pri && e.internal == b.ev[j].internal && e.persist == b.ev[j].persist
    && (e.active && !b.ev[j].active && e.pri < b.running ==> continue_)
  }

  lemma HeardSteps(b: Base, b1: Base, b2: Base)
    requires Heard(b, b1) && Heard(b1, b2)
    ensures Heard(b, b2)
  {
    forall j | 0 <= j < |b.ev| ensures HeardOf(b, b2.ev[j], b2.continue_, j) {
      assert HeardOf(b, b1.ev[j], b1.continue_, j) && HeardOf(b1, b2.ev[j], b2.continue_, j);
    }
  }

  /** Nothing more urgent than p is active. */
  ghost predicate NoneBelow(queues: Queues, p: nat)
  {
    forall q: nat :: q < p && Active(q) in queues ==> queues[Active(q)] == []
  }

  lemma StillNone(b: Base, b': Base, p: nat)
    requires b.Core() && b'.Core() && Heard(b, b') && !b'.continue_ && b.running == p && p < b.nactive
    requires NoneBelow(b.queues, p)
    ensures NoneBelow(b'.queues, p)
  {
    forall q: nat | q < p && Active(q) in b'.queues ensures b'.queues[Active(q)] == [] {
      assert ValidKind(Active(q), b.nactive, |b.timers|);
      assert QueueOk(b.ev, b.queues[Active(q)], Active(q)) && QueueOk(b'.ev, b'.queues[Active(q)], Active(q));
      forall id: nat | id < |b.ev| ensures !Belongs(b'.ev[id], Active(q)) {
        assert HeardOf(b, b'.ev[id], b'.continue_, id);
        assert id !in b.queues[Active(q)];
      }
      NoElements(b'.queues[Active(q)]);
    }
  }

  lemma NoElements(ids: seq<Id>)
    requires forall id: nat :: id !in ids
    ensures ids == []
  {
    if ids != [] { HasElement(ids); }
  }

  lemma HasElement(ids: seq<Id>)
    requires ids != []
    ensures exists id: nat :: id in ids
  {
    assert ids[0] in ids;
  }

  /** What a call does; a call with arguments that it does not take does nothing. */
  ghost predicate Done(b: Base, act: Act, now: Timeval, b': Base)
  {
    if !Permitted(b, act) then b' == b
    else match act
      case ActAdd(id, tv, io) =>
        if b.ev[id].io && !b.ev[id].inserted && !b.ev[id].active && io == -1 then b' == b
        else
          && b'.Beside(b) && OnlyTimers(b.ev, b'.ev, id) && Added(b.ev[id], b'.ev[id], tv, false, now)
          && (tv.Some? ==> Waits(b'.queues, id, Tag(tv.value))) && OrderKept(b.ev, b.queues, b'.queues, id)
      case ActDel(id) =>
        && b'.Beside(b) && b'.ev == b.ev[id := b.ev[id].(inserted := false, active := false, pending := false)]
        && b'.queues.Keys == b.queues.Keys
        && forall q :: q in b.queues ==> b'.queues[q] == Without(b.queues[q], id) && id !in b'.queues[q]
      case ActActivate(id, res) =>
        var e := b.ev[id];
        && b'.ev == b.ev[id := e.(active := true, res := if e.active then e.res + res else res)]
        && Active(e.pri) in b.queues
        && b'.queues == (if e.active then b.queues else b.queues[Active(e.pri) := b.queues[Active(e.pri)] + [id]])
        && b'.(continue_ := b.continue_).Beside(b)
        && (b'.continue_ <==> b.continue_ || (!e.active && e.pri < b.running))
      case ActBreak => b' == b.(break_ := true)
      case ActLoopexit => b' == b.(gotterm := true)
  }

  /** One call. */
  method Perform(b: Base, ghost cb: set<nat>, act: Act, now: Timeval) returns (b': Base)
    requires b.Valid(cb) && WellTagged(b.ev, |b.timers|) && Plain(now)
    ensures b'.Valid(cb) && WellTagged(b'.ev, |b.timers|) && Heard(b, b') && Done(b, act, now, b')
    ensures act.ActAdd? && act.id < |b.ev| && !b.ev[act.id].internal && 0 <= act.io <= 1 ==>
      (act.tv.Some? ==> IsDuration(act.tv.value, |b.timers|)) ==>
        && Added(b.ev[act.id], b'.ev[act.id], act.tv, false, now)
        && (act.tv.Some? ==> Waits(b'.queues, act.id, Tag(act.tv.value)))
    ensures act.ActDel? && act.id < |b.ev| && !b.ev[act.id].internal ==>
      !b'.ev[act.id].pending && forall q :: q in b'.queues ==> act.id !in b'.queues[q]
    ensures act.ActActivate? && act.id < |b.ev| && !b.ev[act.id].internal ==>
      var e := b.ev[act.id];
      && act.res <= b'.ev[act.id].res && Active(e.pri) in b'.queues && act.id in b'.queues[Active(e.pri)]
    ensures act.ActBreak? ==> b'.break_
    ensures act.ActLoopexit? ==> b'.gotterm
  {
    hide EventQueues.Core, TimersOk, AllServed, OnDuty, WellTagged, OnlyTimers, IsTime, IsDuration, Plain, AfterAdd,
      HeardOf, Added, Waits, Tag, OrderKept;
    b' := b;
    HeardNone(b);
    if !Permitted(b, act) {
      return;
    }
    match act {
      case ActAdd(id, tv, io) =>
        var r;
        r, b' := AddInternal(b, cb, id, tv, false, now, io);
        AddHeard(b, b', id, tv, false, now);
      case ActDel(id) =>
        OffDuty(b, cb, id);
        b' := DelInternal(b, cb, id);
        DeletedTagged(b.ev, |b.timers|, id, b'.ev);
        DeletedHeard(b, b', id);
      case ActActivate(id, res) =>
        b' := ActiveNolock(b, cb, id, res);
        OnItsQueues(b', id);
        DeletedTagged(b.ev, |b.timers|, id, b'.ev);
        ActivatedHeard(b, b', id, res);
      case ActBreak =>
        BreakValid(b, cb);
        b' := b.(break_ := true);
      case ActLoopexit =>
        BreakValid(b, cb);
        b' := b.(gotterm := true);
    }
  }

  lemma BreakValid(b: Base, cb: set<nat>)
    requires b.Valid(cb)
    ensures b.(break_ := true).Valid(cb) && b.(gotterm := true).Valid(cb)
  {}

  lemma RunningValid(b: Base, cb: set<nat>, p: int)
    requires b.Valid(cb)
    ensures b.(running := p).Valid(cb)
  {}

  lemma AddHeard(b: Base, b': Base, id: Id, tv: Option<Timeval>, absolute: bool, now: Timeval)
    requires id < |b.ev| && b'.Beside(b)
    requires b' == b || (OnlyTimers(b.ev, b'.ev, id) && b'.ev[id] == AfterAdd(b.ev[id], tv, absolute, now))
    ensures Heard(b, b')
  {
    if b' != b {
      forall j | 0 <= j < |b.ev| ensures HeardOf(b, b'.ev[j], b'.continue_, j) {
        assert j == id || OnlyRetimed(b.ev[j], b'.ev[j]);
      }
    }
  }

  lemma DeletedHeard(b: Base, b': Base, id: Id)
    requires b'.Beside(b) && id < |b.ev| && b'.ev == b.ev[id := Deleted(b.ev[id])]
    ensures Heard(b, b')
  {}

  lemma ActivatedHeard(b: Base, b': Base, id: Id, res: set<Cause>)
    requires b'.(continue_ := b.continue_).Beside(b) && id < |b.ev| && b'.ev == b.ev[id := Activated(b.ev[id], res)]
    requires b'.continue_ == (b.continue_ || (!b.ev[id].active && b.ev[id].pri < b.running))
    ensures Heard(b, b')
  {}

  lemma DeletedTagged(ev: seq<Event>, ncommon: nat, id: Id, ev': seq<Event>)
    requires WellTagged(ev, ncommon) && id < |ev|
    requires ev' == ev[id := Deleted(ev[id])] || exists res :: ev' == ev[id := Activated(ev[id], res)]
    ensures WellTagged(ev', ncommon)
  {}

  /** The base after each of a series of calls. */
  ghost predicate IsTrace(trace: seq<Base>, b: Base, acts: seq<Act>, now: Timeval, b': Base)
  {
    && |trace| == |acts| + 1 && trace[0] == b && trace[|acts|] == b'
    && forall i :: 0 <= i < |acts| ==> DoneAt(trace, acts, now, i)
  }

  ghost predicate DoneAt(trace: seq<Base>, acts: seq<Act>, now: Timeval, i: nat)
    requires i < |acts| < |trace|
  {
    Done(trace[i], acts[i], now, trace[i + 1])
  }

  /** A series of calls. */
  method PerformAll(b: Base, ghost cb: set<nat>, acts: seq<Act>, now: Timeval)
    returns (b': Base, ghost trace: seq<Base>)
    requires b.Valid(cb) && WellTagged(b.ev, |b.timers|) && Plain(now)
    ensures b'.Valid(cb) && WellTagged(b'.ev, |b.timers|) && Heard(b, b')
    ensures IsTrace(trace, b, acts, now, b')
  {
    hide EventQueues.Core, TimersOk, AllServed, WellTagged, Heard, Plain, Done;
    b', trace := b, [b];
    HeardNone(b);
    for i := 0 to |acts|
      invariant b'.Valid(cb) && WellTagged(b'.ev, |b.timers|) && Heard(b, b') && b'.timers == b.timers
      invariant IsTrace(trace, b, acts[..i], now, b')
    {
      ghost var b1 := b';
      b' := Perform(b', cb, acts[i], now);
      TraceNext(trace, b, acts, now, b1, b', i);
      trace := trace + [b'];
      HeardSteps(b, b1, b');
      HeardTimers(b1, b');
    }
    assert acts[..|acts|] == acts;
  }

  lemma TraceNext(trace: seq<Base>, b: Base, acts: seq<Act>, now: Timeval, b1: Base, b2: Base, k: nat)
    requires k < |acts| && IsTrace(trace, b, acts[..k], now, b1) && Done(b1, acts[k], now, b2)
    ensures IsTrace(trace + [b2], b, acts[..k + 1], now, b2)
  {
    hide Done;
    var trace', acts' := trace + [b2], acts[..k + 1];
    forall i | 0 <= i < |acts'| ensures DoneAt(trace', acts', now, i) {
      if i < k { assert DoneAt(trace, acts[..k], now, i); }
    }
  }

  lemma HeardNone(b: Base)
    ensures Heard(b, b)
  {}

  lemma HeardTimers(b: Base, b': Base)
    requires Heard(b, b')
    ensures b'.timers == b.timers && b'.nactive == b.nactive && b'.running == b.running && |b'.ev| == |b.ev|
  {}

  // ----- persistent events

  /** When event_persist_closure has an event fire next. */
  ghost function NextTime(e: Event, now: Timeval): (t: int)
  {
    var start := if Timeout in e.res then Time(e.timeout) else Time(now);
    if start + Time(e.ioTimeout) < Time(now) then Time(now) + Time(e.ioTimeout) else start + Time(e.ioTimeout)
  }

  /**
   The time is not in the past, if only the interval is not negative, or the deadline it is counted from is
   late enough.
   */
  ghost predicate NotPast(e: Event, now: Timeval)
  {
    Time(e.ioTimeout) >= 0 || (if Timeout in e.res then Time(e.timeout) else Time(now)) + Time(e.ioTimeout) >= Time(now)
  }

  lemma NextNotPast(e: Event, now: Timeval)
    ensures NextTime(e, now) >= Time(now) <==> NotPast(e, now)
    ensures var last := if Timeout in e.res then Time(e.timeout) else Time(now);
      NextTime(e, now) ==
        if last + Time(e.ioTimeout) >= Time(now) then last + Time(e.ioTimeout) else Time(now) + Time(e.ioTimeout)
  {}

  /** event_persist_closure, before it calls the callback */
  method PersistClosure(b: Base, ghost cb: set<nat>, id: Id, now: Timeval, io: int) returns (b': Base)
    requires b.Valid(cb) && WellTagged(b.ev, |b.timers|) && Plain(now) && id < |b.ev| && !b.ev[id].internal
    requires b.ev[id].persist && -1 <= io <= 1
    ensures b'.Valid(cb) && WellTagged(b'.ev, |b.timers|) && Heard(b, b') && b'.Beside(b)
    ensures b.ev[id].ioTimeout == ZERO ==> b' == b
    ensures b.ev[id].ioTimeout != ZERO ==>
      if b.ev[id].io && !b.ev[id].inserted && !b.ev[id].active && io == -1 then b' == b
      else
        && id < |b'.ev| && b'.ev[id].pending && Time(b'.ev[id].timeout) == NextTime(b.ev[id], now)
        && Tag(b'.ev[id].timeout) == Tag(b.ev[id].ioTimeout) && OnlyTimers(b.ev, b'.ev, id)
        && (Time(b'.ev[id].timeout) >= Time(now) <==> NotPast(b.ev[id], now))
    ensures b.ev[id].ioTimeout != ZERO && b' != b ==>
      var e := b.ev[id];
      var last := if Timeout in e.res then Time(e.timeout) else Time(now);
      id < |b'.ev| && Time(b'.ev[id].timeout) ==
        if last + Time(e.ioTimeout) >= Time(now) then last + Time(e.ioTimeout) else Time(now) + Time(e.ioTimeout)
    ensures b'.ev[id] == b.ev[id].(inserted := b'.ev[id].inserted, active := b'.ev[id].active,
                                   pending := b'.ev[id].pending, timeout := b'.ev[id].timeout)
    ensures !b.ev[id].active ==> !b'.ev[id].active
    ensures OrderKept(b.ev, b.queues, b'.queues, id)
  {
    hide EventQueues.Core, TimersOk, AllServed, OnDuty, WellTagged, OnlyTimers, Heard, IsTime, IsDuration, NextTime,
      Waits, NotPast, Tag, OrderKept, AfterAdd, Time, Fewer;
    b' := b;
    HeardNone(b);
    KeptSame(b, b.queues, id);
    if b.ev[id].ioTimeout != ZERO {
      EventHas(b, id);
      IsTagged(b.ev, |b.timers|, id);
      NextNotPast(b.ev[id], now);
      var runAt := NextRun(b.ev[id], now, |b.timers|);
      var r;
      r, b' := AddInternal(b, cb, id, Some(runAt), true, now, io);
      AddHeard(b, b', id, Some(runAt), true, now);
      HeardTimers(b, b');
    }
  }

  lemma IsTagged(ev: seq<Event>, ncommon: nat, id: Id)
    requires WellTagged(ev, ncommon) && id < |ev| && ev[id].persist && ev[id].ioTimeout != ZERO
    ensures Tag(ev[id].timeout) == Tag(ev[id].ioTimeout) && IsTime(ev[id].timeout, ncommon)
  {}

  /** run_at, with its usec_mask */
  method NextRun(e: Event, now: Timeval, ncommon: nat) returns (runAt: Timeval)
    requires IsTime(e.timeout, ncommon) && IsDuration(e.ioTimeout, ncommon) && Tag(e.timeout) == Tag(e.ioTimeout)
    requires Plain(now) && ncommon <= MAX_COMMON_TIMEOUTS
    ensures IsTime(runAt, ncommon) && Tag(runAt) == Tag(e.ioTimeout) && Time(runAt) == NextTime(e, now)
  {
    hide Tag, Micro, Plus, Tagged, Untagged, Time;
    var relativeTo, delay;
    var tag := 0;
    CommonIs(e.timeout, ncommon);
    CommonIs(e.ioTimeout, ncommon);
    UntagRoundTrip(e.timeout);
    UntagRoundTrip(e.ioTimeout);
    UntaggedPlain(e.timeout, ncommon);
    UntaggedPlain(e.ioTimeout, ncommon);
    if IsCommon(e.timeout, ncommon) {
      delay := Untagged(e.ioTimeout);
      tag := Tag(e.ioTimeout);
      relativeTo := if Timeout in e.res then Untagged(e.timeout) else now;
    } else {
      delay := e.ioTimeout;
      relativeTo := if Timeout in e.res then e.timeout else now;
    }
    runAt := Plus(relativeTo, delay);
    PlusIs(relativeTo, delay);
    PlainOrder(now, runAt);
    if !Le(now, runAt) {
      PlusIs(now, delay);
      runAt := Plus(now, delay);
    }
    TagRoundTrip(runAt, tag);
    RetagIsTime(runAt, tag, e.ioTimeout, ncommon);
    runAt := Tagged(runAt, tag);
  }

  lemma UntaggedPlain(tv: Timeval, ncommon: nat)
    requires IsDuration(tv, ncommon)
    ensures Untagged(tv).usec <= 1000000 && (IsTime(tv, ncommon) ==> Plain(Untagged(tv)))
    ensures (Tag(tv) == 0 ==> Untagged(tv) == tv)
  {
    UntagRoundTrip(tv);
  }

  lemma RetagIsTime(tv: Timeval, tag: nat, like: Timeval, ncommon: nat)
    requires Plain(tv) && IsDuration(like, ncommon) && Tag(like) == tag
    ensures IsTime(Tagged(tv, tag), ncommon)
  {
    PlainTime(tv);
    TagRoundTrip(tv, tag);
  }

  // ----- the active queues

  /** A callback being started: its event, and the base at that time. */
  datatype Start = Start(id: Id, base: Base)

  /** The event is the first of its priority, that priority is the running one, and nothing more urgent is waiting. */
  ghost predicate StartOk(st: Start)
  {
    && st.id < |st.base.ev|
    && var p := st.base.ev[st.id].pri;
      && Active(p) in st.base.queues && st.base.queues[Active(p)] != [] && st.base.queues[Active(p)][0] == st.id
      && st.base.running == p && NoneBelow(st.base.queues, p)
  }

  /**
   No callback was started while one of a more urgent priority was waiting, or before one of its own that
   came first.
   */
  ghost predicate Strict(starts: seq<Start>)
  {
    forall i :: 0 <= i < |starts| ==> StartOk(starts[i])
  }

  lemma StrictNext(starts: seq<Start>, id: Id, b: Base)
    requires Strict(starts) && StartOk(Start(id, b))
    ensures Strict(starts + [Start(id, b)])
  {}

  /** A callback of the library's own. */
  predicate Internal(st: Start)
  {
    st.id < |st.base.ev| && st.base.ev[st.id].internal
  }

  /** How many of the callbacks were not the library's own. */
  ghost function Public(starts: seq<Start>): (n: nat)
  {
    if starts == [] then 0 else Public(starts[..|starts| - 1]) + (if Internal(starts[|starts| - 1]) then 0 else 1)
  }

  lemma PublicNext(starts: seq<Start>, st: Start)
    ensures Public(starts + [st]) == Public(starts) + (if Internal(st) then 0 else 1)
  {
    assert (starts + [st])[..|starts|] == starts;
  }

  lemma {:induction false} PublicJoin(a: seq<Start>, c: seq<Start>)
    ensures Public(a + c) == Public(a) + Public(c)
    decreases |c|
  {
    hide Public, Internal;
    if c == [] {
      NoStarts();
      assert a + c == a;
    } else {
      var n := |c| - 1;
      PublicJoin(a, c[..n]);
      PublicNext(a + c[..n], c[n]);
      PublicNext(c[..n], c[n]);
      assert c[..n] + [c[n]] == c;
      assert a + c == a + c[..n] + [c[n]];
    }
  }

  /** All the callbacks that are not the library's own have one priority. */
  ghost predicate OnePriority(starts: seq<Start>)
  {
    forall i, j :: 0 <= i < j < |starts| && !Internal(starts[i]) && !Internal(starts[j]) ==>
      starts[i].base.running == starts[j].base.running
  }

  lemma OneNone()
    ensures OnePriority([])
  {}

  lemma {:induction false} NonePublic(starts: seq<Start>, i: nat)
    requires Public(starts) == 0 && i < |starts|
    ensures Internal(starts[i])
  {
    if i < |starts| - 1 { NonePublic(starts[..|starts| - 1], i); }
  }

  /** The count is of the callbacks that are not the library's own: 0 exactly if all are. */
  lemma {:induction false} PublicIs(starts: seq<Start>)
    requires forall i :: 0 <= i < |starts| ==> starts[i].id < |starts[i].base.ev|
    ensures Public(starts) == 0 <==> forall i :: 0 <= i < |starts| ==> OfLibrary(starts[i])
    ensures Public(starts) == |starts| <==> forall i :: 0 <= i < |starts| ==> !OfLibrary(starts[i])
    ensures Public(starts) <= |starts|
  {
    if starts != [] {
      var n := |starts| - 1;
      var most := starts[..n];
      PublicIs(most);
      assert forall i :: 0 <= i < n ==> most[i] == starts[i];
    }
  }

  predicate OfLibrary(st: Start)
    requires st.id < |st.base.ev|
  {
    st.base.ev[st.id].internal
  }

  lemma OneMore(starts: seq<Start>, more: seq<Start>, p: int)
    requires Public(starts) == 0 && forall i :: 0 <= i < |more| ==> more[i].base.running == p
    ensures OnePriority(starts + more)
  {
    var all := starts + more;
    forall i | 0 <= i < |all| && !Internal(all[i]) ensures all[i].base.running == p {
      if i < |starts| { NonePublic(starts, i); }
    }
  }

  /** Running one callback, with the calls made meanwhile; io is for event_persist_closure */
  datatype Step = Step(acts: seq<Act>, io: int)

  /**
   The event that is run is off the active queue, and off every queue if it is not persistent; if it is, its
   next timeout is set.
   */
  ghost predicate Taken(b: Base, id: Id, now: Timeval, io: int, b': Base)
    requires id < |b.ev|
  {
    b'.Beside(b) && OrderKept(b.ev, b.queues, b'.queues, id) &&
    var e := b.ev[id].(active := false);
    if !e.persist then b'.ev == b.ev[id := Deleted(b.ev[id])]
    else if e.ioTimeout == ZERO || (e.io && !e.inserted && io == -1) then b'.ev == b.ev[id := e]
    else
      && id < |b'.ev| && b'.ev[id].pending && Time(b'.ev[id].timeout) == NextTime(e, now)
      && Tag(b'.ev[id].timeout) == Tag(e.ioTimeout) && OnlyTimers(b.ev, b'.ev, id)
  }

  /** The timer of list i has run: everything due on the list has expired. */
  ghost predicate ListSwept(b: Base, i: nat, now: Timeval, b': Base)
  {
    b'.Beside(b) && |b'.ev| == |b.ev| && AllLinedBut(b, b', AllDue(b.ev, 0x500 + i, now))
    && forall j :: 0 <= j < |b.ev| && !b.ev[j].internal ==> Swept(b.ev[j], b'.ev[j], i, now)
  }

  /**
   One callback: its event is taken off, the calls made meanwhile are done one after the other, and if the event
   is the timer of a list, what is due on the list expires.
   */
  ghost predicate Ran(b: Base, id: Id, step: Step, now: Timeval, b': Base)
    requires id < |b.ev|
  {
    exists taken, called, trace :: RanBy(b, id, step, now, taken, called, trace, b')
  }

  ghost predicate RanBy(b: Base, id: Id, step: Step, now: Timeval, taken: Base, called: Base, trace: seq<Base>,
                        b': Base)
    requires id < |b.ev|
  {
    && Taken(b, id, now, step.io, taken) && IsTrace(trace, taken, step.acts, now, called)
    && (forall p: nat :: Active(p) in taken.queues ==> id !in taken.queues[Active(p)])
    && if id in b.timers then ListSwept(called, IndexIn(b.timers, id), now, b') else b' == called
  }

  /**
   Each callback is started where the one before it has left the base, but for the running priority, and the last
   one leaves b'.  None is started once the loop has been broken off, or something more urgent has come.
   */
  ghost predicate Chained(starts: seq<Start>, steps: seq<Step>, now: Timeval, b': Base)
  {
    && |starts| <= |steps|
    && (forall i :: 0 <= i < |starts| ==> RanAt(starts, steps, now, b', i))
    && (forall i :: 0 <= i < |starts| ==> !starts[i].base.continue_ && (i > 0 ==> !starts[i].base.break_))
  }

  ghost predicate RanAt(starts: seq<Start>, steps: seq<Step>, now: Timeval, b': Base, i: nat)
    requires i < |starts| <= |steps|
  {
    var b, b1 := starts[i].base, if i + 1 < |starts| then starts[i + 1].base else b';
    starts[i].id < |b.ev| && Ran(b, starts[i].id, steps[i], now, b1.(running := b.running))
  }

  lemma ChainNone(steps: seq<Step>, now: Timeval, b: Base)
    ensures Chained([], steps, now, b)
  {}

  lemma ChainNext(starts: seq<Start>, steps: seq<Step>, now: Timeval, b: Base, id: Id, b': Base)
    requires Chained(starts, steps, now, b) && |starts| < |steps| && id < |b.ev| && b'.running == b.running
    requires Ran(b, id, steps[|starts|], now, b') && !b.continue_ && (starts != [] ==> !b.break_)
    ensures Chained(starts + [Start(id, b)], steps, now, b')
  {
    hide Ran;
    var all := starts + [Start(id, b)];
    forall i | 0 <= i < |all| ensures RanAt(all, steps, now, b', i) {
      if i < |starts| { assert RanAt(starts, steps, now, b, i); }
    }
  }

  lemma ChainRunning(starts: seq<Start>, steps: seq<Step>, now: Timeval, b: Base, p: int)
    requires Chained(starts, steps, now, b)
    ensures Chained(starts, steps, now, b.(running := p))
  {
    hide Ran;
    forall i | 0 <= i < |starts| ensures RanAt(starts, steps, now, b.(running := p), i) {
      assert RanAt(starts, steps, now, b, i);
    }
  }

  /** The callbacks of one priority, and then those of the next. */
  lemma ChainJoin(a: seq<Start>, c: seq<Start>, steps: seq<Step>, now: Timeval, b: Base, b': Base)
    requires Chained(a, steps, now, b) && Chained(c, steps[|a|..], now, b')
    requires if c == [] then b' == b else c[0].base == b && (a != [] ==> !b.break_)
    ensures Chained(a + c, steps, now, b')
  {
    hide Ran;
    var all := a + c;
    forall i | 0 <= i < |all| ensures RanAt(all, steps, now, b', i) {
      if i < |a| {
        assert RanAt(a, steps, now, b, i);
      } else {
        assert RanAt(c, steps[|a|..], now, b', i - |a|);
      }
    }
  }

  /**
   The part of event_process_active_single_queue that takes an event off the queue, and the scheduling of it
   if it is persistent
   */
  method TakeOff(b: Base, id: Id, now: Timeval, io: int) returns (b': Base)
    requires b.Valid({}) && WellTagged(b.ev, |b.timers|) && Plain(now) && id < |b.ev| && b.ev[id].active
    requires -1 <= io <= 1
    ensures b'.Valid(TimedBy(b.timers, id)) && WellTagged(b'.ev, |b.timers|) && Heard(b, b')
    ensures Taken(b, id, now, io, b')
    ensures id < |b'.ev|
    ensures forall p: nat :: Active(p) in b'.queues ==> id !in b'.queues[Active(p)]
    ensures !b.ev[id].persist ==> forall q :: q in b'.queues ==> id !in b'.queues[q]
    ensures b.ev[id].persist && b.ev[id].ioTimeout != ZERO && io >= 0 ==>
      b'.ev[id].pending && Waits(b'.queues, id, Tag(b.ev[id].ioTimeout))
  {
    hide EventQueues.Core, TimersOk, AllServed, OnDuty, WellTagged, Heard, Plain, OnlyTimers, NextTime, OrderKept,
      Without;
    ghost var cb := TimedBy(b.timers, id);
    TakenOff(b, id);
    if b.ev[id].persist {
      b' := QueueRemove(b, cb, id, FActive);
    } else {
      b' := DelInternal(b, cb, id);
    }
    TakenHeard(b, b', id);
    KeptOne(b, b'.queues, id);
    NotTimed(b, id);
    if b.ev[id].persist {
      ghost var b1 := b';
      b' := PersistClosure(b', cb, id, now, io);
      HeardSteps(b, b1, b');
      HeardTimers(b, b');
      TimersOnly(b, b1, id, b');
      KeptTwice(b.ev, b1.ev, b.queues, b1.queues, b'.queues, id, id);
    }
    OnItsQueues(b', id);
  }

  /** The part that runs an event: it is taken off the queue, and then its callback is called. */
  method RunOne(b: Base, id: Id, step: Step, now: Timeval)
    returns (b': Base, ghost taken: Base, ghost called: Base, ghost trace: seq<Base>)
    requires b.Valid({}) && WellTagged(b.ev, |b.timers|) && Plain(now) && id < |b.ev| && b.ev[id].active
    requires -1 <= step.io <= 1
    requires b.running == b.ev[id].pri
    ensures b'.Valid({}) && WellTagged(b'.ev, |b.timers|) && Heard(b, b')
    ensures Taken(b, id, now, step.io, taken) && IsTrace(trace, taken, step.acts, now, called)
    ensures forall p: nat :: Active(p) in taken.queues ==> id !in taken.queues[Active(p)]
    ensures !b.ev[id].persist ==> forall q :: q in taken.queues ==> id !in taken.queues[q]
    ensures if id in b.timers then ListSwept(called, IndexIn(b.timers, id), now, b') else b' == called
    ensures Ran(b, id, step, now, b')
  {
    hide EventQueues.Core, TimersOk, AllServed, OnDuty, WellTagged, Heard, Plain, Swept, IsTrace, Taken,
      AllLinedBut, AllDue;
    ghost var cb := TimedBy(b.timers, id);
    NotTimed(b, id);
    b' := TakeOff(b, id, now, step.io);
    HeardTimers(b, b');
    taken := b';
    b', trace := PerformAll(b', cb, step.acts, now);
    called := b';
    HeardSteps(b, taken, b');
    HeardTimers(b, b');
    if id in b.timers {
      var i := IndexIn(b.timers, id);
      OnlyTimer(b, id, i);
      assert cb == {} + {i};
      b' := CommonTimeoutCallback(b', {}, i, now);
      CallbackHeard(called, b', i, now);
      HeardSteps(b, called, b');
    } else {
      assert cb == {};
    }
    assert RanBy(b, id, step, now, taken, called, trace, b');
  }

  lemma TimersOnly(b: Base, b1: Base, id: Id, b2: Base)
    requires id < |b.ev| && b1.ev == b.ev[id := SetFlag(b.ev[id], FActive, false)]
    ensures OnlyTimers(b1.ev, b2.ev, id) ==> OnlyTimers(b.ev, b2.ev, id)
  {}

  lemma TakenHeard(b: Base, b': Base, id: Id)
    requires b'.Beside(b) && id < |b.ev| && WellTagged(b.ev, |b.timers|)
    requires b'.ev == b.ev[id := SetFlag(b.ev[id], FActive, false)] || b'.ev == b.ev[id := Deleted(b.ev[id])]
    ensures Heard(b, b') && WellTagged(b'.ev, |b.timers|)
  {}

  /** Internal events are not persistent. */
  lemma NotTimed(b: Base, id: Id)
    requires b.Valid({}) && id < |b.ev|
    ensures b.ev[id].persist ==> !b.ev[id].internal
    ensures id in b.timers ==> b.ev[id].pri == 0
  {
    EventHas(b, id);
  }

  lemma OnlyTimer(b: Base, id: Id, i: nat)
    requires b.Valid({}) && i < |b.timers| && b.timers[i] == id
    ensures TimedBy(b.timers, id) == {i}
  {
    hide EventQueues.Core, AllServed;
  }

  lemma CallbackHeard(b: Base, b': Base, i: nat, now: Timeval)
    requires b'.(continue_ := b.continue_).Beside(b) && |b'.ev| == |b.ev| && (b.continue_ ==> b'.continue_)
    requires (b'.continue_ && !b.continue_ ==> b.running > 0) && b.running <= 0
    requires forall j :: 0 <= j < |b.ev| ==>
      if b.ev[j].internal then b'.ev[j].active ==> b.ev[j].active else Swept(b.ev[j], b'.ev[j], i, now)
    requires forall j :: 0 <= j < |b.ev| ==>
      b'.ev[j].internal == b.ev[j].internal && b'.ev[j].pri == b.ev[j].pri && b'.ev[j].persist == b.ev[j].persist
    ensures Heard(b, b')
  {}

  /**
   event_process_active_single_queue, for as many callbacks as there are steps: the queue is run empty
   unless the loop is broken off or something more urgent has come, and the count is of those that were
   not internal.
   */
  method SingleQueue(b: Base, p: nat, steps: seq<Step>, now: Timeval)
    returns (c: int, b': Base, starts: seq<Start>, rest: seq<Step>)
    requires b.Valid({}) && WellTagged(b.ev, |b.timers|) && Plain(now) && p < b.nactive && b.running == p
    requires !b.continue_ && NoneBelow(b.queues, p)
    requires forall i :: 0 <= i < |steps| ==> -1 <= steps[i].io <= 1
    ensures b'.Valid({}) && WellTagged(b'.ev, |b.timers|) && Heard(b, b') && Strict(starts)
    ensures forall i :: 0 <= i < |rest| ==> -1 <= rest[i].io <= 1
    ensures |starts| + |rest| == |steps| && rest == steps[|starts|..] && Chained(starts, steps, now, b')
    ensures Active(p) in b.queues && (b.queues[Active(p)] != [] && steps != [] ==> starts != [] && starts[0].base == b)
    ensures forall i :: 0 <= i < |starts| ==> starts[i].base.running == p
    ensures c == -1 || c == Public(starts)
    ensures (c == -1 <==> starts != [] && b'.break_) && (starts == [] ==> b' == b)
    ensures c >= 0 && rest != [] && !b'.continue_ ==> NoneBelow(b'.queues, p + 1)
    ensures c == 0 ==> !b'.continue_
  {
    hide EventQueues.Core, TimersOk, AllServed, WellTagged, Heard, Plain, NoneBelow, Strict, StartOk, Public, Taken,
      IsTrace, ListSwept, Chained, Ran;
    c, b', starts, rest := 0, b, [], steps;
    ChainNone(steps, now, b);
    HeardNone(b);
    NoStarts();
    HasQueue(b', p);
    while b'.queues[Active(p)] != [] && rest != []
      invariant b'.Valid({}) && WellTagged(b'.ev, |b.timers|) && Heard(b, b') && Strict(starts)
      invariant b'.timers == b.timers && b'.nactive == b.nactive && b'.running == p && Active(p) in b'.queues
      invariant !b'.continue_ && NoneBelow(b'.queues, p) && c == Public(starts)
      invariant forall i :: 0 <= i < |rest| ==> -1 <= rest[i].io <= 1
      invariant forall i :: 0 <= i < |starts| ==> starts[i].base.running == p
      invariant |starts| + |rest| == |steps| && if starts == [] then b' == b else starts[0].base == b && !b'.break_
      invariant rest == steps[|starts|..] && Chained(starts, steps, now, b')
      decreases |rest|
    {
      var id := b'.queues[Active(p)][0];
      ActiveHead(b', p);
      StartIs(b', p);
      StrictNext(starts, id, b');
      PublicNext(starts, Start(id, b'));
      var b1 := b';
      var internal := b'.ev[id].internal;
      ghost var taken, called, trace;
      b', taken, called, trace := RunOne(b', id, rest[0], now);
      HeardSteps(b, b1, b');
      HeardTimers(b1, b');
      ChainNext(starts, steps, now, b1, id, b');
      starts := starts + [Start(id, b1)];
      rest := rest[1..];
      if !internal {
        c := c + 1;
      }
      if b'.break_ {
        return -1, b', starts, rest;
      }
      Interrupted(b1, b');
      HasQueue(b', p);
      if b'.continue_ {
        break;
      }
      StillNone(b1, b', p);
    }
    if b'.queues[Active(p)] == [] && !b'.continue_ { NoneHere(b'.queues, p); }
  }

  lemma StartIs(b: Base, p: nat)
    requires b.Core() && Active(p) in b.queues && b.queues[Active(p)] != [] && b.running == p && NoneBelow(b.queues, p)
    ensures StartOk(Start(b.queues[Active(p)][0], b))
  {
    hide NoneBelow;
    ActiveHead(b, p);
  }

  lemma NoStarts()
    ensures Strict([]) && Public([]) == 0
  {}

  lemma HasQueue(b: Base, p: nat)
    requires b.Core() && p < b.nactive
    ensures Active(p) in b.queues
  {
    assert ValidKind(Active(p), b.nactive, |b.timers|);
  }

  lemma ActiveHead(b: Base, p: nat)
    requires b.Core() && Active(p) in b.queues && b.queues[Active(p)] != []
    ensures var id := b.queues[Active(p)][0];
      id < |b.ev| && b.ev[id].active && b.ev[id].pri == p && (b.ev[id].internal ==> p == 0)
  {
    var id := b.queues[Active(p)][0];
    assert QueueOk(b.ev, b.queues[Active(p)], Active(p)) && id in b.queues[Active(p)];
    EventHas(b, id);
  }

  /** Only at a priority other than the most urgent one can event_continue be set. */
  lemma Interrupted(b: Base, b': Base)
    requires Heard(b, b') && !b.continue_
    ensures b'.continue_ ==> b.running > 0
  {}

  lemma NoneHere(queues: Queues, p: nat)
    requires Active(p) in queues && queues[Active(p)] == [] && NoneBelow(queues, p)
    ensures NoneBelow(queues, p + 1)
  {}

  /**
   event_process_active: strictly by priority, whatever the callbacks and other threads do meanwhile.
   If anything is active something is run, beginning with the first of the most urgent ones; and all
   callbacks of one pass that are not internal have one priority.
   */
  method ProcessActive(b: Base, steps: seq<Step>, now: Timeval) returns (c: int, b': Base, starts: seq<Start>)
    requires b.Valid({}) && WellTagged(b.ev, |b.timers|) && Plain(now) && !b.continue_ && b.running == -1
    requires forall i :: 0 <= i < |steps| ==> -1 <= steps[i].io <= 1
    ensures b'.Valid({}) && WellTagged(b'.ev, |b.timers|) && b'.running == -1 && b'.timers == b.timers
    ensures b'.nactive == b.nactive
    ensures Strict(starts) && |starts| <= |steps|
    ensures c == -1 || c == Public(starts)
    ensures c == -1 <==> starts != [] && b'.break_
    ensures b.countActive > 0 && steps != [] ==> starts != [] && starts[0].base == b.(running := starts[0].base.running)
    ensures OnePriority(starts)
    ensures c == 0 && |starts| < |steps| ==> b'.countActive == 0
    ensures Chained(starts, steps, now, b') && (starts == [] ==> b' == b)
    ensures c > 0 && |starts| < |steps| && !b'.continue_ ==>
      starts != [] && forall q: nat :: q <= starts[|starts| - 1].base.running && Active(q) in b'.queues ==>
        b'.queues[Active(q)] == []
  {
    hide EventQueues.Core, TimersOk, AllServed, WellTagged, Heard, Plain, NoneBelow, Strict, Public, OnePriority,
      Chained, AllKinds, StartOk, Internal;
    c, b', starts := 0, b, [];
    var rest := steps;
    ChainNone(steps, now, b);
    NoStarts();
    OneNone();
    NothingBelow(b'.queues);
    for i := 0 to b.nactive
      invariant b'.Valid({}) && WellTagged(b'.ev, |b.timers|) && Strict(starts)
      invariant b'.timers == b.timers && b'.nactive == b.nactive && !b'.continue_ && NoneBelow(b'.queues, i)
      invariant forall i :: 0 <= i < |rest| ==> -1 <= rest[i].io <= 1
      invariant |starts| + |rest| == |steps| && Public(starts) == 0 == c && (steps != [] ==> rest != [])
      invariant rest == steps[|starts|..] && Chained(starts, steps, now, b')
      invariant OnePriority(starts)
      invariant if starts == [] then b' == b.(running := b'.running)
        else starts[0].base == b.(running := starts[0].base.running) && !b'.break_
    {
      HasQueue(b', i);
      if b'.queues[Active(i)] != [] {
        RunningValid(b', {}, i);
        ChainRunning(starts, steps, now, b', i);
        b' := b'.(running := i);
        ghost var b1 := b';
        var more;
        c, b', more, rest := SingleQueue(b', i, rest, now);
        HeardTimers(b1, b');
        ChainJoin(starts, more, steps, now, b1, b');
        StrictJoin(starts, more);
        PublicJoin(starts, more);
        OneMore(starts, more, i);
        starts := starts + more;
        if c < 0 {
          RunningValid(b', {}, -1);
          ChainRunning(starts, steps, now, b', -1);
          b' := b'.(running := -1);
          return -1, b', starts;
        } else if c > 0 || rest == [] {
          if c > 0 && rest != [] && !b'.continue_ { LastRun(starts, more, b'.queues, i); }
          break;
        }
      } else {
        NoneHere(b'.queues, i);
      }
    }
    if c == 0 && rest != [] { NothingActive(b'); }
    RunningValid(b', {}, -1);
    ChainRunning(starts, steps, now, b', -1);
    b' := b'.(running := -1);
  }

  /** What the last callback was started at, and nothing up to that priority is active. */
  lemma LastRun(starts: seq<Start>, more: seq<Start>, queues: Queues, p: nat)
    requires Public(more) > 0 && |more| <= |starts| && starts[|starts| - |more|..] == more
    requires (forall i :: 0 <= i < |more| ==> more[i].base.running == p) && NoneBelow(queues, p + 1)
    ensures starts != [] && starts[|starts| - 1].base.running == p
    ensures forall q: nat :: q <= p && Active(q) in queues ==> queues[Active(q)] == []
  {
    assert more != [] && more[|more| - 1] == starts[|starts| - 1];
  }

  /** If no queue holds anything, nothing is active. */
  lemma NothingActive(b: Base)
    requires b.Core() && NoneBelow(b.queues, b.nactive)
    ensures b.countActive == 0
  {
    hide NoneBelow;
    forall p | 0 <= p < b.nactive ensures Active(p) in b.queues { HasQueue(b, p); }
    TotalNone(b.queues, b.nactive);
  }

  lemma {:induction false} TotalNone(queues: Queues, n: nat)
    requires (forall p :: 0 <= p < n ==> Active(p) in queues) && NoneBelow(queues, n)
    ensures ActiveTotal(queues, n) == 0
  {
    if n > 0 { TotalNone(queues, n - 1); }
  }

  lemma NothingBelow(queues: Queues)
    ensures NoneBelow(queues, 0)
  {}

  lemma StrictJoin(a: seq<Start>, c: seq<Start>)
    requires Strict(a) && Strict(c)
    ensures Strict(a + c)
  {}
}
