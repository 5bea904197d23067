/** An event_base from its creation on: its calls, and event_base_loop. */
module EventBases {
  import opened Basics
  import opened Timevals
  import opened EventQueues
  import opened EventLoop
  import opened EventDispatch
  import opened EventTimeouts
  import opened EventPriorities

  // ----- a new base

  /** An event that has been assigned and not yet added. */
  predicate Assigned(e: Event, nactive: nat)
  {
    !e.internal && e.pri < nactive && !e.inserted && !e.active && !e.pending && e.timeout == ZERO && e.ioTimeout == ZERO
  }

  lemma {:induction false} NothingCounted(ev: seq<Event>, queues: Queues, kinds: seq<Queue>)
    requires forall i :: 0 <= i < |kinds| ==> kinds[i] in queues && queues[kinds[i]] == []
    ensures CountAll(ev, queues, kinds) == 0
  {
    if kinds != [] { NothingCounted(ev, queues, kinds[..|kinds| - 1]); }
  }

  lemma {:induction false} NoneTotal(queues: Queues, n: nat)
    requires forall p :: 0 <= p < n ==> Active(p) in queues && queues[Active(p)] == []
    ensures ActiveTotal(queues, n) == 0
  {
    if n > 0 { NoneTotal(queues, n - 1); }
  }

  /** The empty queues of a base with nactive priorities. */
  function EmptyQueues(nactive: nat): (queues: Queues)
    ensures forall q :: q in queues <==> ValidKind(q, nactive, 0)
    ensures forall q :: q in queues ==> queues[q] == []
  {
    if nactive == 0 then map[Inserted := [], Heap := []] else EmptyQueues(nactive - 1)[Active(nactive - 1) := []]
  }

  lemma NewBase(ev: seq<Event>, nactive: nat)
    requires forall j :: 0 <= j < |ev| ==> Assigned(ev[j], nactive)
    ensures Base(ev, EmptyQueues(nactive), [], nactive, 0, 0, -1, false, false, false).Valid({}) && WellTagged(ev, 0)
  {
    hide CountAll, ActiveTotal, KindsOk, AllKinds;
    var queues, kinds := EmptyQueues(nactive), AllKinds(nactive, 0);
    AllKindsOk(queues, nactive, 0);
    forall i | 0 <= i < |kinds| ensures kinds[i] in queues {
      assert kinds[i] in kinds;
    }
    NothingCounted(ev, queues, kinds);
    assert forall p :: 0 <= p < nactive ==> ValidKind(Active(p), nactive, 0);
    NoneTotal(queues, nactive);
    PlainIsTime(ZERO, 0);
  }

  // ----- a new common timeout

  /** The timeout_event of list i, as event_base_init_common_timeout assigns it */
  const TIMER := Event(false, false, true, 0, false, false, false, ZERO, ZERO, {})

  lemma {:induction false} CountLonger(ev: seq<Event>, ids: seq<Id>, e: Event)
    requires forall i :: 0 <= i < |ids| ==> ids[i] < |ev|
    ensures Count(ev + [e], ids) == Count(ev, ids)
  {
    if ids != [] { CountLonger(ev, ids[..|ids| - 1], e); }
  }

  lemma {:induction false} CountAllLonger(ev: seq<Event>, queues: Queues, kinds: seq<Queue>, e: Event, q: Queue)
    requires Members(ev, queues) && q !in queues && forall i :: 0 <= i < |kinds| ==> kinds[i] in queues
    ensures CountAll(ev + [e], queues[q := []], kinds) == CountAll(ev, queues, kinds)
  {
    if kinds != [] {
      var k := kinds[|kinds| - 1];
      CountAllLonger(ev, queues, kinds[..|kinds| - 1], e, q);
      assert QueueOk(ev, queues[k], k);
      forall i | 0 <= i < |queues[k]| ensures queues[k][i] < |ev| {
        assert queues[k][i] in queues[k];
      }
      CountLonger(ev, queues[k], e);
    }
  }

  lemma {:induction false} ActiveTotalLonger(queues: Queues, n: nat, q: Queue)
    requires (forall p :: 0 <= p < n ==> Active(p) in queues) && q !in queues
    ensures ActiveTotal(queues[q := []], n) == ActiveTotal(queues, n)
  {
    if n > 0 { ActiveTotalLonger(queues, n - 1, q); }
  }

  /** A base with one more list, empty, and its timer. */
  function WithList(b: Base): (b': Base)
  {
    b.(ev := b.ev + [TIMER], queues := b.queues[Common(|b.timers|) := []], timers := b.timers + [|b.ev|])
  }

  lemma WithListCore(b: Base)
    requires b.Core() && |b.timers| < MAX_COMMON_TIMEOUTS && 0 < b.nactive
    ensures WithList(b).Core()
  {
    hide Members, CountAll, ActiveTotal, EventOk, Belongs, KindsOk;
    var b', n, q := WithList(b), |b.timers|, Common(|b.timers|);
    var kinds, kinds' := AllKinds(b.nactive, n), AllKinds(b.nactive, n + 1);
    WithListKinds(b);
    WithListMembers(b);
    forall j | 0 <= j < |b'.ev| ensures EventOk(b'.ev[j], b.nactive, n + 1) {
      if j < |b.ev| { EventHas(b, j); EventOkMore(b.ev[j], b.nactive, n); } else { TimerOk(b.nactive, n + 1); }
    }
    WithListCounted(b);
  }

  lemma EventOkMore(e: Event, nactive: nat, n: nat)
    requires EventOk(e, nactive, n)
    ensures EventOk(e, nactive, n + 1)
  {}

  lemma TimerOk(nactive: nat, n: nat)
    requires 0 < nactive
    ensures EventOk(TIMER, nactive, n)
  {
    hide IsTime;
    PlainIsTime(ZERO, n);
  }

  lemma WithListKinds(b: Base)
    requires b.Core()
    ensures var n := |b.timers|; KindsOk(WithList(b).queues, AllKinds(b.nactive, n + 1), b.nactive, n + 1)
    ensures Common(|b.timers|) !in b.queues
  {
    hide Members, EventsOk, Counted;
    var b', n := WithList(b), |b.timers|;
    forall q' ensures q' in b'.queues <==> ValidKind(q', b.nactive, n + 1) {
      assert q' in b.queues <==> ValidKind(q', b.nactive, n);
    }
    AllKindsOk(b'.queues, b.nactive, n + 1);
    assert !ValidKind(Common(n), b.nactive, n);
  }

  lemma WithListMembers(b: Base)
    requires b.Core()
    ensures Members(WithList(b).ev, WithList(b).queues)
  {
    hide Counted, KindsOk;
    var b', q := WithList(b), Common(|b.timers|);
    forall q' | q' in b'.queues ensures QueueOk(b'.ev, b'.queues[q'], q') {
      if q' != q { assert QueueOk(b.ev, b.queues[q'], q'); } else { NoneTagged(b); }
    }
  }

  lemma WithListCounted(b: Base)
    requires b.Core() && KindsOk(WithList(b).queues, AllKinds(b.nactive, |b.timers| + 1), b.nactive, |b.timers| + 1)
    requires Common(|b.timers|) !in b.queues
    ensures Counted(WithList(b).ev, WithList(b).queues, AllKinds(b.nactive, |b.timers| + 1), b.nactive, |b.timers| + 1,
                    b.count, b.countActive)
  {
    hide EventsOk, Members, QueueOk, AllKinds, KindsOk, ActiveTotal, CountAll;
    var b', n, q := WithList(b), |b.timers|, Common(|b.timers|);
    KindsGrow(b.nactive, n);
    CountAllLonger(b.ev, b.queues, AllKinds(b.nactive, n), TIMER, q);
    CountAllPush(b'.ev, b'.queues, AllKinds(b.nactive, n), q);
    ActiveTotalLonger(b.queues, b.nactive, q);
  }

  lemma KindsGrow(nactive: nat, n: nat)
    ensures AllKinds(nactive, n + 1) == AllKinds(nactive, n) + [Common(n)]
  {}

  lemma CountAllPush(ev: seq<Event>, queues: Queues, kinds: seq<Queue>, q: Queue)
    requires (forall i :: 0 <= i < |kinds| ==> kinds[i] in queues) && q in queues && queues[q] == []
    ensures CountAll(ev, queues, kinds + [q]) == CountAll(ev, queues, kinds)
  {
    assert (kinds + [q])[..|kinds|] == kinds;
  }

  lemma NoneTagged(b: Base)
    requires b.Core()
    ensures forall j :: 0 <= j < |b.ev| ==> !Belongs(b.ev[j], Common(|b.timers|))
  {
    forall j | 0 <= j < |b.ev| ensures !Belongs(b.ev[j], Common(|b.timers|)) {
      EventHas(b, j);
    }
  }

  lemma WithListValid(b: Base)
    requires b.Valid({}) && WellTagged(b.ev, |b.timers|) && |b.timers| < MAX_COMMON_TIMEOUTS && 0 < b.nactive
    ensures WithList(b).Valid({}) && WellTagged(WithList(b).ev, |b.timers| + 1)
  {
    hide EventQueues.Core;
    var b' := WithList(b);
    WithListCore(b);
    forall i | 0 <= i < |b'.timers| ensures Served(b'.ev, b'.queues, b'.timers, {}, i) {
      if i < |b.timers| {
        assert Served(b.ev, b.queues, b.timers, {}, i);
        ListIs(b, Common(i));
      }
    }
  }

  // ----- the base

  /**
   One turn of event_base_loop: what the clock says at each reading, what the backend and other threads do,
   (which may fail), and each callback
   */
  datatype Turn = Turn(corrected: Timeval, slept: Timeval, waking: Timeval, woken: Timeval, io: seq<Act>, failed: bool,
                       steps: seq<Step>)

  /** EVLOOP_ONCE and EVLOOP_NONBLOCK, and whether the clock is monotonic */
  datatype Flags = Flags(once: bool, nonblock: bool, useMonotonic: bool)

  ghost predicate TurnOk(t: Turn)
  {
    && Plain(t.corrected) && Plain(t.slept) && Plain(t.waking) && Plain(t.woken)
    && forall i :: 0 <= i < |t.steps| ==> -1 <= t.steps[i].io <= 1
  }

  /**
   What timeout_correct does at the beginning of a turn: a clock that has gone back takes all the timeouts
   with it.
   */
  ghost predicate ClockCorrected(b: Base, eventTv: Timeval, t: Turn, useMonotonic: bool, b': Base)
  {
    if b.gotterm || b.break_ || useMonotonic then b' == b.(continue_ := false)
    else
      && b' == b.(continue_ := false, ev := b'.ev) && |b'.ev| == |b.ev|
      && (forall j :: 0 <= j < |b.ev| ==>
        b'.ev[j] == b.ev[j].(timeout := b'.ev[j].timeout) && Tag(b'.ev[j].timeout) == Tag(b.ev[j].timeout))
      && (forall j :: 0 <= j < |b.ev| && b.ev[j].pending ==>
            Time(b'.ev[j].timeout) - Time(t.corrected) == Time(b.ev[j].timeout) - Max(Time(t.corrected), Time(eventTv)))
  }

  lemma DurationIs(duration: Timeval, d: Timeval, ncommon: nat)
    requires ncommon <= MAX_COMMON_TIMEOUTS
    requires var m := if duration.usec > 1000000 && IsCommon(duration, ncommon) then Untagged(duration) else duration;
      d == if duration.usec > 1000000 then Timeval(m.sec + m.usec / 1000000, m.usec % 1000000) else m
    ensures d.usec <= 1000000 && (d.usec == 1000000 <==> duration.usec == 1000000)
    ensures Time(d) == if IsCommon(duration, ncommon) then Time(duration) else duration.sec * 1000000 + duration.usec
  {
    if duration.usec <= 1000000 { assert Tag(duration) == 0; }
    UntagRoundTrip(duration);
  }

  /** The timeval for list i. */
  lemma DurationCommon(tv: Timeval, d: Timeval, i: nat, ncommon: nat)
    requires Tag(tv) == TagOf(i) && i < ncommon <= MAX_COMMON_TIMEOUTS && tv.sec == d.sec && Micro(tv) == d.usec
    requires d.usec <= 1000000
    ensures IsCommon(tv, ncommon) && Time(tv) == Time(d) && IsDuration(tv, ncommon)
  {}

  lemma NewDuration(d: Timeval, i: nat)
    requires d.usec <= 1000000
    ensures var tv := Tagged(d, TagOf(i)); Tag(tv) == TagOf(i) && tv.sec == d.sec && Micro(tv) == d.usec
  {
    assert (d.usec + TagOf(i) * MICROSECONDS) / MICROSECONDS == TagOf(i);
  }

  /**
   One turn of event_base_loop: the base before it and after it, and in between when the clock is corrected, the
   backend has been polled and what is due has expired; n is what event_process_active returns.
   */
  datatype TurnLog = TurnLog(before: Base, clock: Timeval, corrected: Base, wait: Option<Timeval>, trace: seq<Base>,
                             polled: Base, expired: Base, starts: seq<Start>, n: int, after: Base, clockAfter: Timeval,
                             end: Option<int>)

  /**
   How long the backend is to wait: not at all if there is something to run already, or with EVLOOP_NONBLOCK; else
   exactly until the first timeout, and for ever if there is none.
   */
  ghost predicate Waited(b: Base, t: Turn, flags: Flags, wait: Option<Timeval>)
  {
    if b.countActive != 0 || flags.nonblock then wait == Some(ZERO)
    else
      && (forall j :: 0 <= j < |b.ev| && b.ev[j].pending ==>
        wait.Some? && Time(t.slept) + Time(wait.value) <= Max(Time(t.slept), Time(b.ev[j].timeout)))
      && (wait.Some? ==> exists j ::
        && 0 <= j < |b.ev| && b.ev[j].pending
        && Time(t.slept) + Time(wait.value) == Max(Time(t.slept), Time(b.ev[j].timeout)))
  }

  lemma WaitedIs(b: Base, t: Turn, flags: Flags, wait: Option<Timeval>)
    requires b.countActive != 0 || flags.nonblock ==> wait == Some(ZERO)
    requires b.countActive == 0 && !flags.nonblock ==>
      && (forall j :: 0 <= j < |b.ev| && b.ev[j].pending ==>
        wait.Some? && Time(t.slept) + Time(wait.value) <= Max(Time(t.slept), Time(b.ev[j].timeout)))
      && (wait.Some? ==> exists j ::
        && 0 <= j < |b.ev| && b.ev[j].pending
        && Time(t.slept) + Time(wait.value) == Max(Time(t.slept), Time(b.ev[j].timeout)))
    ensures Waited(b, t, flags, wait)
  {}

  /**
   What one turn does, and exactly when it is the last one: the loop has been asked to terminate, there is nothing to
   wait for, the backend failed, or the flags say so.
   */
  ghost predicate Turned(t: Turn, flags: Flags, l: TurnLog)
  {
    && ClockCorrected(l.before, l.clock, t, flags.useMonotonic, l.corrected)
    && if l.corrected.gotterm || l.corrected.break_ then
      l.end == Some(0) && l.after == l.corrected && l.clockAfter == l.clock && l.starts == []
    else
      && Waited(l.corrected, t, flags, l.wait)
      && if l.corrected.count == 0 && l.corrected.countActive == 0 then
        && l.end == Some(1) && l.after == l.corrected && l.starts == []
        && l.clockAfter == if flags.useMonotonic then l.clock else t.corrected
      else
        && IsTrace(l.trace, l.corrected, t.io, t.woken, l.polled) && l.clockAfter == t.waking
        && if t.failed then l.end == Some(-1) && l.after == l.polled && l.starts == [] else ExpiredAndRun(t, flags, l)
  }

  /** Exactly what is due expires, to be run in the order of the times, and what is active is run. */
  ghost predicate ExpiredAndRun(t: Turn, flags: Flags, l: TurnLog)
  {
    && |l.expired.ev| == |l.polled.ev|
    && (forall j :: 0 <= j < |l.polled.ev| ==>
      var e := l.polled.ev[j];
      l.expired.ev[j] ==
        if e.pending && Tag(e.timeout) == 0 && Time(e.timeout) <= Time(t.woken)
        then e.(pending := false, inserted := false, active := true, res := {Timeout})
        else e)
    && AllLined(l.polled, l.expired, AllDue(l.polled.ev, 0, t.woken))
    && Chained(l.starts, t.steps, t.woken, l.after) && (l.starts == [] ==> l.after == l.expired)
    && if l.expired.countActive == 0 then l.starts == [] && l.end == if flags.nonblock then Some(0) else None
    else
      && (t.steps != [] ==> l.starts != [] && l.starts[0].base == l.expired.(running := l.starts[0].base.running))
      && l.n == (if l.starts != [] && l.after.break_ then -1 else Public(l.starts))
      && l.end == if flags.once && l.after.countActive == 0 && l.n != 0 then Some(0) else None
  }

  /** The second half of a turn of event_base_loop */
  method ExpireAndRun(b: Base, t: Turn, flags: Flags, ghost l: TurnLog)
    returns (end: Option<int>, b': Base, n: int, starts: seq<Start>, ghost expired: Base)
    requires b.Valid({}) && WellTagged(b.ev, |b.timers|) && b.running == -1 && !b.continue_ && TurnOk(t)
    requires l.polled == b
    ensures b'.Valid({}) && WellTagged(b'.ev, |b'.timers|) && b'.running == -1
    ensures b'.timers == b.timers && b'.nactive == b.nactive
    ensures Strict(starts) && OnePriority(starts)
    ensures ExpiredAndRun(t, flags, l.(expired := expired, starts := starts, n := n, after := b', end := end))
  {
    hide Base.Valid, WellTagged, Strict, Plain, EventPriorities.Heard, OnePriority, Public, Due, Expired, Chained,
      AllLined, AllDue;
    end, n, starts := None, 0, [];
    NoStarts();
    OneNone();
    b' := TimeoutProcess(b, t.woken);
    expired := b';
    ChainNone(t.steps, t.woken, b');
    CountsPositive(b');
    if b'.countActive > 0 {
      n, b', starts := ProcessActive(b', t.steps, t.woken);
      if flags.once && b'.countActive == 0 && n != 0 {
        end := Some(0);
      }
    } else if flags.nonblock {
      end := Some(0);
    }
  }

  /** The beginning of a turn: event_continue is cleared, and timeout_correct called unless the loop is to stop. */
  method StartTurn(b: Base, eventTv: Timeval, t: Turn, useMonotonic: bool) returns (b': Base, eventTv': Timeval)
    requires b.Valid({}) && WellTagged(b.ev, |b.timers|) && Plain(eventTv) && TurnOk(t)
    ensures b'.Valid({}) && WellTagged(b'.ev, |b'.timers|) && Plain(eventTv')
    ensures b' == b.(continue_ := false, ev := b'.ev)
    ensures ClockCorrected(b, eventTv, t, useMonotonic, b')
    ensures !b.gotterm && !b.break_ && !useMonotonic ==> Shifted(b, b', Time(t.corrected), Time(eventTv))
    ensures eventTv' == if b.gotterm || b.break_ || useMonotonic then eventTv else t.corrected
  {
    hide Base.Valid, WellTagged, Plain;
    ContinueCleared(b);
    b', eventTv' := b.(continue_ := false), eventTv;
    if !b.gotterm && !b.break_ && !useMonotonic {
      b', eventTv' := TimeoutCorrect(b', eventTv, t.corrected);
    }
  }

  /** No pending timeout is nearer or farther than before, when it was `was` o'clock at most. */
  ghost predicate Shifted(b: Base, b': Base, now: int, was: int)
  {
    && |b'.ev| == |b.ev|
    && forall j :: 0 <= j < |b.ev| && b.ev[j].pending ==>
      b'.ev[j].pending && Time(b'.ev[j].timeout) - now == Time(b.ev[j].timeout) - Max(now, was)
  }

  /** Turn after turn, from the base b and the clock as it was then. */
  ghost predicate IsRun(logs: seq<TurnLog>, turns: seq<Turn>, flags: Flags, b: Base, clock: Timeval, b': Base,
                        clock': Timeval)
  {
    && |logs| == |turns|
    && (forall k :: 0 <= k < |logs| ==> Turned(turns[k], flags, logs[k]) && (k + 1 < |logs| ==> logs[k].end.None?))
    && (forall k :: 0 < k < |logs| ==> logs[k].before == logs[k - 1].after && logs[k].clock == logs[k - 1].clockAfter)
    && if logs == [] then b' == b && clock' == clock
      else
        && logs[0].before == b && logs[0].clock == clock
        && b' == logs[|logs| - 1].after && clock' == logs[|logs| - 1].clockAfter
  }

  lemma RunNone(flags: Flags, b: Base, clock: Timeval)
    ensures IsRun([], [], flags, b, clock, b, clock) && AllStarts([]) == []
  {}

  lemma RunNext(logs: seq<TurnLog>, turns: seq<Turn>, n: nat, flags: Flags, b: Base, clock: Timeval, b1: Base,
                clock1: Timeval, log: TurnLog)
    requires n < |turns| && IsRun(logs, turns[..n], flags, b, clock, b1, clock1) && Turned(turns[n], flags, log)
    requires log.before == b1 && log.clock == clock1 && (n > 0 ==> logs[n - 1].end.None?)
    ensures IsRun(logs + [log], turns[..n + 1], flags, b, clock, log.after, log.clockAfter)
  {
    hide Turned;
    var all, ts := logs + [log], turns[..n + 1];
    forall k | 0 <= k < |all| ensures Turned(ts[k], flags, all[k]) && (k + 1 < |all| ==> all[k].end.None?) {
      if k < n { assert turns[..n][k] == ts[k]; }
    }
  }

  /** All the callbacks of a run. */
  ghost function AllStarts(logs: seq<TurnLog>): (starts: seq<Start>)
  {
    if logs == [] then [] else AllStarts(logs[..|logs| - 1]) + logs[|logs| - 1].starts
  }

  lemma StartsNext(logs: seq<TurnLog>, log: TurnLog)
    ensures AllStarts(logs + [log]) == AllStarts(logs) + log.starts
  {
    assert (logs + [log])[..|logs|] == logs;
  }

  class EventBase {
    var base: Base
    /** durations of the common timeouts, tagged */
    var durations: seq<Timeval>
    var eventTv: Timeval

    ghost predicate Valid()
      reads this
    {
      && base.Valid({}) && WellTagged(base.ev, |base.timers|) && base.running == -1 && Plain(eventTv)
      && 0 < base.nactive
      && |durations| == |base.timers|
      && forall i :: 0 <= i < |durations| ==> Tag(durations[i]) == TagOf(i)
    }

    constructor (ev: seq<Event>, nactive: nat)
      requires 0 < nactive && forall j :: 0 <= j < |ev| ==> Assigned(ev[j], nactive)
      ensures Valid() && base.ev == ev && base.timers == []
    {
      NewBase(ev, nactive);
      base, durations, eventTv := Base(ev, EmptyQueues(nactive), [], nactive, 0, 0, -1, false, false, false), [], ZERO;
    }

    /**
     event_base_init_common_timeout: the timeval to pass for a duration, whose microseconds are carried
     over into the seconds unless there are exactly a million.
     */
    method InitCommonTimeout(duration: Timeval) returns (tv: Option<Timeval>)
      requires Valid()
      modifies this
      ensures Valid() && |old(base.ev)| <= |base.ev| && base.ev[..|old(base.ev)|] == old(base.ev)
      ensures tv.Some? ==> IsCommon(tv.value, |base.timers|) && IsDuration(tv.value, |base.timers|)
      ensures tv.Some? ==>
        Time(tv.value) ==
          if IsCommon(duration, |old(base.timers)|) then Time(duration) else duration.sec * 1000000 + duration.usec
      ensures tv.None? ==> |base.timers| == 256 && base == old(base)
    {
      hide EventQueues.Core, TimersOk, AllServed, WellTagged, IsCommon, IsDuration;
      CoreHas(base);
      var d := duration;
      if duration.usec > 1000000 {
        if IsCommon(duration, |base.timers|) {
          d := Untagged(d);
        }
        d := Timeval(d.sec + d.usec / 1000000, d.usec % 1000000);
      }
      DurationIs(duration, d, |base.timers|);
      for i := 0 to |durations|
        invariant Valid() && base == old(base)
      {
        if durations[i].sec == d.sec && Micro(durations[i]) == d.usec {
          DurationCommon(durations[i], d, i, |base.timers|);
          return Some(durations[i]);
        }
      }
      if |base.timers| == MAX_COMMON_TIMEOUTS {
        return None;
      }
      var i := |base.timers|;
      WithListValid(base);
      NewDuration(d, i);
      DurationCommon(Tagged(d, TagOf(i)), d, i, i + 1);
      base := WithList(base);
      durations := durations + [Tagged(d, TagOf(i))];
      tv := Some(durations[i]);
    }

    /** event_add, event_del, event_active and event_base_loopbreak, outside the loop */
    method Call(act: Act, now: Timeval)
      requires Valid() && Plain(now)
      modifies this`base
      ensures Valid() && Done(old(base), act, now, base)
      ensures act.ActAdd? && act.id < |old(base).ev| && !old(base).ev[act.id].internal && 0 <= act.io <= 1 ==>
        (act.tv.Some? ==> IsDuration(act.tv.value, |base.timers|)) ==>
          && act.id < |base.ev| && Added(old(base).ev[act.id], base.ev[act.id], act.tv, false, now)
          && (act.tv.Some? ==> Waits(base.queues, act.id, Tag(act.tv.value)))
      ensures act.ActDel? && act.id < |old(base).ev| && !old(base).ev[act.id].internal ==>
        forall q :: q in base.queues ==> act.id !in base.queues[q]
    {
      base := Perform(base, {}, act, now);
    }

    /**
     One turn of event_base_loop.  The clock is corrected, the backend waits no longer than to the
     first timeout and makes its events active, what is due expires, and what is active is run.
     */
    method OneTurn(t: Turn, flags: Flags)
      returns (end: Option<int>, wait: Option<Timeval>, n: int, starts: seq<Start>, ghost log: TurnLog)
      requires Valid() && TurnOk(t)
      modifies this
      ensures Valid() && Strict(starts) && OnePriority(starts)
      ensures log == TurnLog(old(base), old(eventTv), log.corrected, wait, log.trace, log.polled, log.expired, starts,
                             n, base, eventTv, end)
      ensures Turned(t, flags, log)
      ensures !old(base).gotterm && !old(base).break_ && !flags.useMonotonic ==>
        Shifted(old(base), log.corrected, Time(t.corrected), Time(old(eventTv)))
      ensures var b := log.corrected;
        && (b.gotterm || b.break_ ==> end == Some(0) && starts == [])
        && (!b.gotterm && !b.break_ && b.count == 0 && b.countActive == 0 ==> end == Some(1) && starts == [])
    {
      hide Base.Valid, WellTagged, Strict, Plain, EventPriorities.Heard, OnePriority, Public, IsTrace, Due, Expired,
        ClockCorrected, Shifted, Chained, Waited, ExpiredAndRun;
      end, wait, n, starts := None, None, 0, [];
      NoStarts();
      OneNone();
      ghost var before, clock := base, eventTv;
      base, eventTv := StartTurn(base, eventTv, t, flags.useMonotonic);
      log := TurnLog(before, clock, base, wait, [], base, base, starts, n, base, eventTv, end);
      if base.gotterm || base.break_ {
        end := Some(0);
        log := log.(end := end);
        return;
      }
      CountsPositive(base);
      if base.countActive == 0 && !flags.nonblock {
        wait := TimeoutNext(base, t.slept);
      } else {
        wait := Some(ZERO);
      }
      WaitedIs(base, t, flags, wait);
      log := log.(wait := wait);
      if base.count == 0 && base.countActive == 0 {
        end := Some(1);
        log := log.(end := end);
        return;
      }
      ghost var corrected := base;
      eventTv := t.waking;
      ghost var trace;
      base, trace := PerformAll(base, {}, t.io, t.woken);
      log := log.(trace := trace, polled := base, expired := base, after := base, clockAfter := eventTv);
      HeardTimers(corrected, base);
      NotInterrupted(corrected, base);
      if t.failed {
        end := Some(-1);
        log := log.(end := end);
        return;
      }
      ghost var expired;
      end, base, n, starts, expired := ExpireAndRun(base, t, flags, log);
      log := log.(expired := expired, starts := starts, n := n, after := base, end := end);
    }

    /**
     event_base_loop, for any number of turns: each goes on from where the one before it has left the base, and all
     but the last go on.  What it returns tells why it came to an end; without an end it would go on.
     */
    method Loop(turns: seq<Turn>, flags: Flags)
      returns (end: Option<int>, done: nat, starts: seq<Start>, ghost logs: seq<TurnLog>)
      requires Valid() && forall i :: 0 <= i < |turns| ==> TurnOk(turns[i])
      modifies this
      ensures Valid() && Strict(starts) && done <= |turns| && (end.None? ==> done == |turns|)
      ensures IsRun(logs, turns[..done], flags, old(base).(break_ := false, gotterm := false), old(eventTv), base,
                    eventTv)
      ensures starts == AllStarts(logs) && end == if done == 0 then None else logs[done - 1].end
      ensures end.Some? ==> Ended(base, turns, flags, done, starts, end.value)
    {
      hide Base.Valid, WellTagged, Strict, Plain, ClockCorrected, OnePriority, IsTrace, Due, Expired, Public, Chained,
        Waited, Shifted, IsRun, AllStarts;
      end, done, starts, logs := None, 0, [], [];
      NoStarts();
      BreakCleared(base);
      base := base.(break_ := false, gotterm := false);
      ghost var b0, clock0 := base, eventTv;
      RunNone(flags, b0, clock0);
      assert turns[..0] == [];
      while end.None? && done < |turns|
        invariant Valid() && Strict(starts) && done <= |turns|
        invariant IsRun(logs, turns[..done], flags, b0, clock0, base, eventTv) && |logs| == done
        invariant starts == AllStarts(logs) && end == if done == 0 then None else logs[done - 1].end
        invariant end.Some? ==> Ended(base, turns, flags, done, starts, end.value)
        decreases |turns| - done
      {
        ghost var b1, clock1 := base, eventTv;
        var wait, n, more; ghost var log;
        end, wait, n, more, log := OneTurn(turns[done], flags);
        StrictJoin(starts, more);
        PublicJoin(starts, more);
        RunNext(logs, turns, done, flags, b0, clock0, b1, clock1, log);
        StartsNext(logs, log);
        starts := starts + more;
        logs := logs + [log];
        done := done + 1;

      }
    }
  }

  /**
   0: it was asked to terminate, or nothing is active and, with EVLOOP_ONCE, a callback has been run.  1: no event is
   left.  -1: the backend failed.
   */
  ghost predicate Ended(b: Base, turns: seq<Turn>, flags: Flags, done: nat, starts: seq<Start>, r: int)
  {
    match r
    case 0 =>
      || b.gotterm || b.break_
      || (b.countActive == 0 && (flags.nonblock || (flags.once && Public(starts) > 0)))
    case 1 => !b.gotterm && !b.break_ && b.count == 0 && b.countActive == 0
    case -1 => 0 < done <= |turns| && turns[done - 1].failed
    case _ => false
  }

  lemma CountsPositive(b: Base)
    requires b.Valid({})
    ensures b.countActive >= 0 && b.count >= 0
  {}

  lemma BreakCleared(b: Base)
    requires b.Valid({})
    ensures b.(break_ := false, gotterm := false).Valid({})
  {}

  lemma ContinueCleared(b: Base)
    requires b.Valid({})
    ensures b.(continue_ := false).Valid({})
  {}

  lemma NotInterrupted(b: Base, b': Base)
    requires Heard(b, b') && !b.continue_ && b.running == -1
    ensures !b'.continue_
  {}

  // ----- a timeout of less than nothing

  /** A persistent event that has been assigned to priority 0. */
  const PERSISTENT := Event(false, true, false, 0, false, false, false, ZERO, ZERO, {})

  const TEN := Timeval(10, 0)

  /** event_add of it with a timeout of minus one second, and event_persist_closure in the same second: it is late. */
  method ScheduledBack() returns (b: Base)
    ensures |b.ev| == 1 && b.ev[0].pending
    ensures Time(b.ev[0].timeout) == 9000000 < Time(TEN)
  {
    hide Base.Valid, WellTagged, EventQueues.Core, TimersOk, AllServed, OnlyRetimed, Heard, AfterAdd, NextTime, NotPast,
      Takes, IsDuration, IsTime, Plain, Tag, Time, EmptyQueues, Assigned;
    MinusOne();
    NewBase([PERSISTENT], 1);
    b := Base([PERSISTENT], EmptyQueues(1), [], 1, 0, 0, -1, false, false, false);
    var r;
    r, b := AddInternal(b, {}, 0, Some(Timeval(-1, 0)), false, TEN, 0);
    b := PersistClosure(b, {}, 0, TEN, 0);
  }

  lemma MinusOne()
    ensures Plain(TEN) && Time(TEN) == 10000000 && Time(Timeval(-1, 0)) == -1000000
    ensures Takes(Timeval(-1, 0), false, 0) && Tag(Timeval(-1, 0)) == 0 && Assigned(PERSISTENT, 1)
    ensures var e := AfterAdd(PERSISTENT, Some(Timeval(-1, 0)), false, TEN);
      && e == PERSISTENT.(pending := true, ioTimeout := Timeval(-1, 0), timeout := e.timeout)
      && NextTime(e, TEN) == 9000000
  {}
}
