/** Adding, deleting and activating events; timeouts; and running the callbacks of active events. */
module EventLoop {
  import opened Basics
  import opened Timevals
  import opened EventQueues

  // ----- common timeouts

  function When(ev: seq<Event>, id: Id): (t: int)
  {
    if id < |ev| then Time(ev[id].timeout) else 0
  }

  ghost predicate InOrder(ev: seq<Event>, ids: seq<Id>)
  {
    forall i, j :: 0 <= i < j < |ids| ==> When(ev, ids[i]) <= When(ev, ids[j])
  }

  /**
   The internal timer of a list will have its callback run at a time no later than t, or as soon as active
   events run.
   */
  ghost predicate Covers(timer: Event, t: int)
  {
    timer.active || (timer.pending && Time(timer.timeout) <= t)
  }

  /**
   The list of common timeout i is sorted, and is not forgotten: its timer covers its head,
   unless the callback of the timer is being run.
   */
  ghost predicate Served(ev: seq<Event>, queues: Queues, timers: seq<Id>, inCallback: set<nat>, i: nat)
    requires i < |timers|
  {
    && Common(i) in queues && timers[i] < |ev|
    && InOrder(ev, queues[Common(i)])
    && (queues[Common(i)] != [] ==> i in inCallback || Covers(ev[timers[i]], When(ev, queues[Common(i)][0])))
  }

  ghost predicate AllServed(ev: seq<Event>, queues: Queues, timers: seq<Id>, inCallback: set<nat>)
  {
    forall i :: 0 <= i < |timers| ==> Served(ev, queues, timers, inCallback, i)
  }

  ghost predicate TimersOk(ev: seq<Event>, timers: seq<Id>)
  {
    Distinct(timers) && forall i :: 0 <= i < |timers| ==> timers[i] < |ev| && ev[timers[i]].internal
  }

  lemma OrderSame(ev: seq<Event>, ev': seq<Event>, ids: seq<Id>)
    requires forall i :: 0 <= i < |ids| ==> When(ev', ids[i]) == When(ev, ids[i])
    ensures InOrder(ev, ids) ==> InOrder(ev', ids)
  {}

  lemma OrderWithout(ev: seq<Event>, ids: seq<Id>, id: Id)
    requires InOrder(ev, ids) && id in ids
    ensures InOrder(ev, Without(ids, id))
    ensures var w := Without(ids, id); w != [] ==> When(ev, ids[0]) <= When(ev, w[0])
  {
    hide Without;
    WithoutAt(ids, id);
    var k, w := IndexIn(ids, id), Without(ids, id);
    forall i, j | 0 <= i < j < |w| ensures When(ev, w[i]) <= When(ev, w[j]) {
      assert w[i] == ids[if i < k then i else i + 1] && w[j] == ids[if j < k then j else j + 1];
    }
  }

  /** id goes after the last one that is no later. */
  ghost predicate Place(ev: seq<Event>, ids: seq<Id>, k: nat, id: Id)
    requires k <= |ids|
  {
    (k > 0 ==> When(ev, ids[k - 1]) <= When(ev, id)) && (k < |ids| ==> When(ev, id) < When(ev, ids[k]))
  }

  lemma OrderWith(ev: seq<Event>, ids: seq<Id>, k: nat, id: Id)
    requires InOrder(ev, ids) && k <= |ids| && Place(ev, ids, k, id)
    ensures InOrder(ev, With(ids, k, id))
  {
    hide With;
    WithAt(ids, k, id);
    var w := With(ids, k, id);
    forall i, j | 0 <= i < j < |w| ensures When(ev, w[i]) <= When(ev, w[j]) {
      var i', j' := if i < k then i else i - 1, if j < k then j else j - 1;
      assert i != k ==> w[i] == ids[i'];
      assert j != k ==> w[j] == ids[j'];
    }
  }

  /** Whether id is the timer of a list whose callback is not being run. */
  ghost predicate OnDuty(timers: seq<Id>, inCallback: set<nat>, id: Id)
  {
    exists i :: 0 <= i < |timers| && timers[i] == id && i !in inCallback
  }

  /** Taking an event off a queue. */
  lemma ServedRemove(ev: seq<Event>, queues: Queues, timers: seq<Id>, inCallback: set<nat>, id: Id, f: Flag,
                     nactive: nat)
    requires AllServed(ev, queues, timers, inCallback) && TimersOk(ev, timers) && Members(ev, queues)
    requires EventsOk(ev, nactive, |timers|)
    requires id < |ev| && HasFlag(ev[id], f) && QueueOf(ev[id], f, |timers|) in queues
    requires id in queues[QueueOf(ev[id], f, |timers|)]
    requires f.FInserted? || !OnDuty(timers, inCallback, id)
    ensures var q := QueueOf(ev[id], f, |timers|);
      AllServed(ev[id := SetFlag(ev[id], f, false)], queues[q := Without(queues[q], id)], timers, inCallback)
  {
    hide InOrder, Without, Distinct, EventOk, QueueOk, QueueOf;
    var q, ev' := QueueOf(ev[id], f, |timers|), ev[id := SetFlag(ev[id], f, false)];
    var queues' := queues[q := Without(queues[q], id)];
    forall i | 0 <= i < |timers| ensures Served(ev', queues', timers, inCallback, i) {
      assert Served(ev, queues, timers, inCallback, i);
      OrderSame(ev, ev', queues'[Common(i)]);
      if q == Common(i) {
        OrderWithout(ev, queues[q], id);
      }
    }
  }

  /** Putting an event on a queue; if it becomes the head of a list, the list may not be covered. */
  lemma ServedInsert(ev: seq<Event>, queues: Queues, timers: seq<Id>, inCallback: set<nat>, id: Id, f: Flag, k: nat)
    requires AllServed(ev, queues, timers, inCallback) && TimersOk(ev, timers)
    requires id < |ev| && !HasFlag(ev[id], f)
    requires var q := QueueOf(ev[id], f, |timers|);
      && q in queues && k <= |queues[q]|
      && (q.Common? ==> Place(ev, queues[q], k, id) && (k == 0 ==> q.i in inCallback))
    ensures var q := QueueOf(ev[id], f, |timers|);
      AllServed(ev[id := SetFlag(ev[id], f, true)], queues[q := With(queues[q], k, id)], timers, inCallback)
  {
    hide InOrder, Distinct, Place;
    var q, ev' := QueueOf(ev[id], f, |timers|), ev[id := SetFlag(ev[id], f, true)];
    var queues' := queues[q := With(queues[q], k, id)];
    forall i | 0 <= i < |timers| ensures Served(ev', queues', timers, inCallback, i) {
      assert Served(ev, queues, timers, inCallback, i);
      OrderSame(ev, ev', queues'[Common(i)]);
      if q == Common(i) {
        OrderWith(ev, queues[q], k, id);
      }
    }
  }

  /** Changing an event that is in no list of a common timeout, and not weakening a timer. */
  lemma ServedSame(ev: seq<Event>, queues: Queues, timers: seq<Id>, inCallback: set<nat>, id: Id, e: Event)
    requires AllServed(ev, queues, timers, inCallback) && Members(ev, queues) && id < |ev|
    requires !ev[id].pending || Tag(ev[id].timeout) == 0 || e.timeout == ev[id].timeout
    requires !OnDuty(timers, inCallback, id)
      || (e.active == ev[id].active && e.pending == ev[id].pending && e.timeout == ev[id].timeout)
    ensures AllServed(ev[id := e], queues, timers, inCallback)
  {
    hide InOrder, Distinct;
    var ev' := ev[id := e];
    forall i | 0 <= i < |timers| ensures Served(ev', queues, timers, inCallback, i) {
      assert Served(ev, queues, timers, inCallback, i);
      assert QueueOk(ev, queues[Common(i)], Common(i));
      OrderSame(ev, ev', queues[Common(i)]);
    }
  }

  /** struct event_base */
  datatype Base = Base(ev: seq<Event>, queues: Queues, timers: seq<Id>, nactive: nat, count: int, countActive: int,
                       running: int, continue_: bool, break_: bool, gotterm: bool)
  {
    ghost predicate Core() {
      EventQueues.Core(ev, queues, AllKinds(nactive, |timers|), nactive, |timers|, count, countActive)
    }

    /** inCallback: the lists whose timer is off the active queue, and whose callback has not scheduled it again yet */
    ghost predicate Valid(inCallback: set<nat>) {
      Core() && TimersOk(ev, timers) && AllServed(ev, queues, timers, inCallback)
    }

    /** Only events and queues change. */
    ghost predicate Beside(b: Base) {
      this == b.(ev := ev, queues := queues, count := count, countActive := countActive)
    }
  }

  lemma CoreHas(b: Base)
    requires b.Core()
    ensures Members(b.ev, b.queues) && EventsOk(b.ev, b.nactive, |b.timers|) && |b.timers| <= MAX_COMMON_TIMEOUTS
  {}

  lemma EventHas(b: Base, id: Id)
    requires b.Core() && id < |b.ev|
    ensures EventOk(b.ev[id], b.nactive, |b.timers|) && |b.timers| <= MAX_COMMON_TIMEOUTS
  {}

  /** event_queue_remove */
  method QueueRemove(b: Base, ghost cb: set<nat>, id: Id, f: Flag) returns (b': Base)
    requires b.Valid(cb) && id < |b.ev| && HasFlag(b.ev[id], f)
    requires f.FInserted? || !OnDuty(b.timers, cb, id)
    ensures b'.Valid(cb) && b'.Beside(b) && b'.ev == b.ev[id := SetFlag(b.ev[id], f, false)]
    ensures var q := QueueOf(b.ev[id], f, |b.timers|);
      q in b.queues && id in b.queues[q] && b'.queues == b.queues[q := Without(b.queues[q], id)]
    ensures b'.count == b.count - (if b.ev[id].internal then 0 else 1)
    ensures b'.countActive == b.countActive - (if f.FActive? then 1 else 0)
  {
    hide EventQueues.Core, TimersOk, AllServed, Without, OnDuty;
    var e := b.ev[id];
    var q := QueueOf(e, f, |b.timers|);
    CoreRemove(b.ev, b.queues, AllKinds(b.nactive, |b.timers|), b.nactive, |b.timers|, b.count, b.countActive, id, f);
    CoreHas(b);
    ServedRemove(b.ev, b.queues, b.timers, cb, id, f, b.nactive);
    TimersStay(b.ev, b.timers, id, SetFlag(e, f, false));
    b' := b;
    if !e.internal {
      b' := b'.(count := b'.count - 1);
    }
    b' := b'.(ev := b'.ev[id := SetFlag(e, f, false)]);
    if f.FActive? {
      b' := b'.(countActive := b'.countActive - 1);
    }
    b' := b'.(queues := b'.queues[q := Without(b'.queues[q], id)]);
  }

  /** insert_common_timeout_inorder: where to put id, looking from the end */
  method PlaceInOrder(ev: seq<Event>, ids: seq<Id>, id: Id) returns (k: nat)
    requires id < |ev|
    requires forall i :: 0 <= i < |ids| ==>
      ids[i] < |ev| && Tag(ev[ids[i]].timeout) == Tag(ev[id].timeout) && Micro(ev[ids[i]].timeout) < 1000000
    requires Micro(ev[id].timeout) < 1000000
    ensures k <= |ids| && Place(ev, ids, k, id)
  {
    k := |ids|;
    while k > 0 && !Le(ev[ids[k - 1]].timeout, ev[id].timeout)
      invariant k <= |ids| && (k < |ids| ==> When(ev, id) < When(ev, ids[k]))
    {
      OrderIs(ev[ids[k - 1]].timeout, ev[id].timeout);
      k := k - 1;
    }
    if k > 0 { OrderIs(ev[ids[k - 1]].timeout, ev[id].timeout); }
  }

  /** An event is put on its queue for f at place n, which in a list is the one for its time. */
  ghost predicate PutAt(b: Base, b': Base, id: Id, f: Flag, n: nat)
    requires id < |b.ev|
  {
    var q := QueueOf(b.ev[id], f, |b.timers|);
    && q in b.queues && n <= |b.queues[q]|
    && b' == b.(ev := b.ev[id := SetFlag(b.ev[id], f, true)], queues := b.queues[q := With(b.queues[q], n, id)],
                count := b.count + (if b.ev[id].internal then 0 else 1),
                countActive := b.countActive + (if f.FActive? then 1 else 0))
  }

  lemma PutValid(b: Base, b': Base, cb: set<nat>, cb': set<nat>, id: Id, f: Flag, n: nat)
    requires b.Valid(cb) && id < |b.ev| && !HasFlag(b.ev[id], f) && PutAt(b, b', id, f, n)
    requires EventOk(SetFlag(b.ev[id], f, true), b.nactive, |b.timers|)
    requires var q := QueueOf(b.ev[id], f, |b.timers|);
      && (q.Common? ==> Place(b.ev, b.queues[q], n, id))
      && cb' == if q.Common? && n == 0 then cb + {q.i} else cb
    ensures b'.Valid(cb')
  {
    hide EventQueues.Core, TimersOk, AllServed, OnDuty, Place, Members, EventOk, With, QueueOf, HasFlag, SetFlag;
    var q := QueueOf(b.ev[id], f, |b.timers|);
    CoreInsert(b.ev, b.queues, AllKinds(b.nactive, |b.timers|), b.nactive, |b.timers|, b.count, b.countActive, id, f,
      n);
    if cb' != cb { ServedMore(b.ev, b.queues, b.timers, cb, q.i); }
    ServedInsert(b.ev, b.queues, b.timers, cb', id, f, n);
    FlagInternal(b.ev[id], f);
    TimersStay(b.ev, b.timers, id, SetFlag(b.ev[id], f, true));
  }

  lemma PutIs(b: Base, b': Base, cb: set<nat>, cb': set<nat>, id: Id, f: Flag, n: nat)
    requires id < |b.ev| && PutAt(b, b', id, f, n)
    requires var q := QueueOf(b.ev[id], f, |b.timers|);
      && id !in b.queues[q] && (!q.Common? ==> n == |b.queues[q]|)
      && cb' == if q.Common? && n == 0 then cb + {q.i} else cb
    ensures b'.Beside(b) && b'.ev == b.ev[id := SetFlag(b.ev[id], f, true)]
    ensures var q := QueueOf(b.ev[id], f, |b.timers|);
      && q in b.queues && q in b'.queues && b'.queues[q] != [] && b'.queues == b.queues[q := b'.queues[q]]
      && (!q.Common? ==> b'.queues[q] == b.queues[q] + [id])
      && cb' == if q.Common? && b'.queues[q][0] == id then cb + {q.i} else cb
    ensures b'.count == b.count + (if b.ev[id].internal then 0 else 1)
    ensures b'.countActive == b.countActive + (if f.FActive? then 1 else 0)
  {
    hide With, SetFlag, QueueOf;
    var q := QueueOf(b.ev[id], f, |b.timers|);
    HeadIs(b.queues[q], n, id);
    WithEnd(b.queues[q], id);
  }

  lemma FlagInternal(e: Event, f: Flag)
    ensures SetFlag(e, f, true).internal == e.internal
  {}

  /** Where event_queue_insert puts an event: at the end of a queue, or in order in a list */
  method PlaceOf(b: Base, ghost cb: set<nat>, id: Id, f: Flag) returns (n: nat)
    requires b.Valid(cb) && id < |b.ev| && EventOk(SetFlag(b.ev[id], f, true), b.nactive, |b.timers|)
    requires QueueOf(b.ev[id], f, |b.timers|) in b.queues
    ensures var q := QueueOf(b.ev[id], f, |b.timers|);
      n <= |b.queues[q]| && if q.Common? then Place(b.ev, b.queues[q], n, id) else n == |b.queues[q]|
  {
    hide Place, EventOk, Base.Valid, SetFlag, QueueOf, Tag, Micro;
    var q := QueueOf(b.ev[id], f, |b.timers|);
    n := |b.queues[q]|;
    if q.Common? {
      ListTagsOf(b, cb, id, f);
      n := PlaceInOrder(b.ev, b.queues[q], id);
    }
  }

  /** event_queue_insert; at the head of a list, an event may not be covered by the timer. */
  method QueueInsert(b: Base, ghost cb: set<nat>, id: Id, f: Flag) returns (b': Base, ghost cb': set<nat>)
    requires b.Valid(cb) && id < |b.ev| && !HasFlag(b.ev[id], f)
    requires EventOk(SetFlag(b.ev[id], f, true), b.nactive, |b.timers|)
    ensures b'.Valid(cb') && b'.Beside(b) && b'.ev == b.ev[id := SetFlag(b.ev[id], f, true)]
    ensures var q := QueueOf(b.ev[id], f, |b.timers|);
      && q in b.queues && q in b'.queues && b'.queues[q] != [] && b'.queues == b.queues[q := b'.queues[q]]
      && (!q.Common? ==> b'.queues[q] == b.queues[q] + [id])
      && cb' == if q.Common? && b'.queues[q][0] == id then cb + {q.i} else cb
    ensures b'.count == b.count + (if b.ev[id].internal then 0 else 1)
    ensures b'.countActive == b.countActive + (if f.FActive? then 1 else 0)
  {
    hide EventQueues.Core, TimersOk, AllServed, OnDuty, Place, Members, EventOk, With, Base.Valid, HasFlag, SetFlag,
      QueueOf, Tag, Micro, Base.Beside;
    PutThere(b, cb, id, f);
    var e := b.ev[id];
    var q := QueueOf(e, f, |b.timers|);
    var n := PlaceOf(b, cb, id, f);
    cb' := if q.Common? && n == 0 then cb + {q.i} else cb;
    b' := b;
    if !e.internal {
      b' := b'.(count := b'.count + 1);
    }
    b' := b'.(ev := b'.ev[id := SetFlag(e, f, true)]);
    if f.FActive? {
      b' := b'.(countActive := b'.countActive + 1);
    }
    b' := b'.(queues := b'.queues[q := With(b'.queues[q], n, id)]);
    PutValid(b, b', cb, cb', id, f, n);
    PutIs(b, b', cb, cb', id, f, n);
  }

  lemma PutThere(b: Base, cb: set<nat>, id: Id, f: Flag)
    requires b.Valid(cb) && id < |b.ev| && !HasFlag(b.ev[id], f)
    requires EventOk(SetFlag(b.ev[id], f, true), b.nactive, |b.timers|)
    ensures var q := QueueOf(b.ev[id], f, |b.timers|); q in b.queues && id !in b.queues[q]
  {
    hide EventQueues.Core, TimersOk, AllServed, EventOk;
    CoreInsert(b.ev, b.queues, AllKinds(b.nactive, |b.timers|), b.nactive, |b.timers|, b.count, b.countActive, id, f,
      0);
  }

  lemma ListTagsOf(b: Base, cb: set<nat>, id: Id, f: Flag)
    requires b.Valid(cb) && id < |b.ev| && QueueOf(b.ev[id], f, |b.timers|).Common?
    requires EventOk(SetFlag(b.ev[id], f, true), b.nactive, |b.timers|)
    ensures Micro(b.ev[id].timeout) < 1000000
    ensures var ev, q := b.ev, QueueOf(b.ev[id], f, |b.timers|);
      && q in b.queues
      && forall i :: 0 <= i < |b.queues[q]| ==>
        && b.queues[q][i] < |ev| && Tag(ev[b.queues[q][i]].timeout) == Tag(ev[id].timeout)
        && Micro(ev[b.queues[q][i]].timeout) < 1000000
  {
    hide EventQueues.Core, TimersOk, AllServed, EventOk, IsCommon, CommonIdx, Tag, Micro;
    ListTags(b, id);
  }

  ghost predicate SameFlags(e: Event, e': Event)
  {
    && e'.inserted == e.inserted && e'.active == e.active && e'.pending == e.pending && e'.pri == e.pri
    && e'.internal == e.internal
    && (e'.pending ==> e'.timeout == e.timeout)
  }

  /** Storing fields of an event that no queue depends on. */
  lemma Stored(b: Base, cb: set<nat>, id: Id, e: Event)
    requires b.Valid(cb) && id < |b.ev| && EventOk(e, b.nactive, |b.timers|)
    requires SameFlags(b.ev[id], e) && (e.timeout == b.ev[id].timeout || !OnDuty(b.timers, cb, id))
    ensures b.(ev := b.ev[id := e]).Valid(cb)
  {
    hide TimersOk, AllServed, OnDuty, Members;
    CoreSame(b.ev, b.queues, AllKinds(b.nactive, |b.timers|), b.nactive, |b.timers|, b.count, b.countActive, id, e);
    CoreHas(b);
    ServedSame(b.ev, b.queues, b.timers, cb, id, e);
    TimersStay(b.ev, b.timers, id, e);
  }

  function Unscheduled(e: Event): (e': Event)
  {
    e.(pending := false, active := e.active && Timeout !in e.res)
  }

  // ----- the order of active events

  /** The events of a queue that are not gone. */
  ghost function Staying(ids: seq<Id>, gone: set<nat>): (r: seq<Id>)
    ensures forall id :: id in r ==> id in ids && id !in gone
  {
    if ids == [] then [] else (if ids[0] in gone then [] else [ids[0]]) + Staying(ids[1..], gone)
  }

  lemma {:induction false} StayingAll(ids: seq<Id>)
    ensures Staying(ids, {}) == ids
  {
    if ids != [] { StayingAll(ids[1..]); }
  }

  lemma WithoutFront(x: Id, r: seq<Id>, id: Id)
    ensures Without([x] + r, id) == if x == id then r else [x] + Without(r, id)
  {
    hide IndexIn, DropAt;
    IndexFront(x, r, id);
    if x == id {
      DropFront(x, r, 0);
    } else if id in r {
      DropFront(x, r, IndexIn(r, id) + 1);
    }
  }

  lemma IndexFront(x: Id, r: seq<Id>, id: Id)
    ensures id in [x] + r <==> x == id || id in r
    ensures x == id ==> IndexIn([x] + r, id) == 0
    ensures x != id && id in r ==> IndexIn([x] + r, id) == IndexIn(r, id) + 1
  {
    assert ([x] + r)[1..] == r;
  }

  lemma DropFront(x: Id, r: seq<Id>, k: nat)
    requires k <= |r|
    ensures DropAt([x] + r, k) == if k == 0 then r else [x] + DropAt(r, k - 1)
  {
    var s := [x] + r;
    if k == 0 {
      assert s[..0] + s[1..] == r;
    } else {
      assert s[..k] == [x] + r[..k - 1] && s[k + 1..] == r[k..];
    }
  }

  lemma {:induction false} StayingMore(ids: seq<Id>, gone: set<nat>, id: Id)
    requires Distinct(ids) && id !in gone
    ensures Staying(ids, gone + {id}) == Without(Staying(ids, gone), id)
  {
    hide Without, IndexIn, Staying;
    if ids == [] {
      StayingNone(gone);
      StayingNone(gone + {id});
      Absent([], id);
    } else {
      StayingMore(ids[1..], gone, id);
      StayingIs(ids, gone);
      StayingIs(ids, gone + {id});
      WithoutFront(ids[0], Staying(ids[1..], gone), id);
      if ids[0] == id { Absent(Staying(ids[1..], gone), id); }
    }
  }

  lemma StayingNone(gone: set<nat>)
    ensures Staying([], gone) == []
  {}

  lemma StayingIs(ids: seq<Id>, gone: set<nat>)
    requires ids != []
    ensures Staying(ids, gone) == if ids[0] in gone then Staying(ids[1..], gone) else [ids[0]] + Staying(ids[1..], gone)
  {}

  lemma Absent(ids: seq<Id>, id: Id)
    requires id !in ids
    ensures Without(ids, id) == ids
  {}

  lemma {:induction false} StayingTwice(ids: seq<Id>, a: set<nat>, c: set<nat>)
    ensures Staying(Staying(ids, a), c) == Staying(ids, a + c)
  {
    hide Staying;
    if ids == [] {
      StayingNone(a);
      StayingNone(c);
      StayingNone(a + c);
    } else {
      StayingTwice(ids[1..], a, c);
      StayingIs(ids, a);
      StayingIs(ids, a + c);
      var r := Staying(ids[1..], a);
      StayingIs([ids[0]] + r, c);
      assert ([ids[0]] + r)[1..] == r;
    }
  }

  /** Some of a queue, in the same order: all but id and internal timers at least */
  ghost predicate Fewer(ev: seq<Event>, ids: seq<Id>, ids': seq<Id>, id: Id)
  {
    exists gone: set<nat> :: OwnOnly(ev, gone, id) && ids' == Staying(ids, gone)
  }

  ghost predicate OwnOnly(ev: seq<Event>, gone: set<nat>, id: Id)
  {
    forall g :: g in gone ==> g == id || (g < |ev| && ev[g].internal)
  }

  lemma FewerOne(ev: seq<Event>, ids: seq<Id>, ids': seq<Id>, id: Id)
    requires Distinct(ids) && (ids' == ids || ids' == Without(ids, id))
    ensures Fewer(ev, ids, ids', id)
  {
    hide Staying, Without;
    StayingAll(ids);
    StayingMore(ids, {}, id);
    assert OwnOnly(ev, {}, id) && OwnOnly(ev, {} + {id}, id);
    assert ids' == Staying(ids, {}) || ids' == Staying(ids, {} + {id});
  }

  lemma FewerTwice(ev: seq<Event>, ev1: seq<Event>, ids: seq<Id>, ids1: seq<Id>, ids2: seq<Id>, id: Id, t: Id)
    requires Fewer(ev, ids, ids1, id) && Fewer(ev1, ids1, ids2, t) && t < |ev| == |ev1|
    requires t == id || ev[t].internal
    requires forall j :: 0 <= j < |ev| ==> ev1[j].internal == ev[j].internal
    ensures Fewer(ev, ids, ids2, id)
  {
    hide Staying;
    var a: set<nat> :| OwnOnly(ev, a, id) && ids1 == Staying(ids, a);
    var c: set<nat> :| OwnOnly(ev1, c, t) && ids2 == Staying(ids1, c);
    StayingTwice(ids, a, c);
    assert OwnOnly(ev, a + c, id) && ids2 == Staying(ids, a + c);
  }

  /** The queues of active events have lost at most id and internal timers, and are otherwise in the same order. */
  ghost predicate OrderKept(ev: seq<Event>, queues: Queues, queues': Queues, id: Id)
  {
    forall p: nat :: Active(p) in queues ==>
      Active(p) in queues' && Fewer(ev, queues[Active(p)], queues'[Active(p)], id)
  }

  /** As OrderKept, for one event. */
  ghost predicate Dropped(queues: Queues, queues': Queues, id: Id)
  {
    forall p: nat :: Active(p) in queues ==>
      && Active(p) in queues'
      && (queues'[Active(p)] == queues[Active(p)] || queues'[Active(p)] == Without(queues[Active(p)], id))
  }

  lemma KeptOne(b: Base, queues': Queues, id: Id)
    requires b.Core() && Dropped(b.queues, queues', id)
    ensures OrderKept(b.ev, b.queues, queues', id)
  {
    hide Fewer, Without, Counted, EventsOk;
    forall p: nat | Active(p) in b.queues
      ensures Active(p) in queues' && Fewer(b.ev, b.queues[Active(p)], queues'[Active(p)], id) {
      assert QueueOk(b.ev, b.queues[Active(p)], Active(p));
      FewerOne(b.ev, b.queues[Active(p)], queues'[Active(p)], id);
    }
  }

  lemma KeptTwice(ev: seq<Event>, ev1: seq<Event>, queues: Queues, queues1: Queues, queues2: Queues, id: Id, t: Id)
    requires OrderKept(ev, queues, queues1, id) && OrderKept(ev1, queues1, queues2, t)
    requires t < |ev| == |ev1| && (t == id || ev[t].internal)
    requires forall j :: 0 <= j < |ev| ==> ev1[j].internal == ev[j].internal
    ensures OrderKept(ev, queues, queues2, id)
  {
    hide Fewer;
    forall p: nat | Active(p) in queues
      ensures Active(p) in queues2 && Fewer(ev, queues[Active(p)], queues2[Active(p)], id) {
      FewerTwice(ev, ev1, queues[Active(p)], queues1[Active(p)], queues2[Active(p)], id, t);
    }
  }

  lemma KeptSame(b: Base, queues': Queues, id: Id)
    requires b.Core()
    requires forall p: nat :: Active(p) in b.queues ==>
      Active(p) in queues' && queues'[Active(p)] == b.queues[Active(p)]
    ensures OrderKept(b.ev, b.queues, queues', id)
  {
    hide OrderKept;
    KeptOne(b, queues', id);
  }

  lemma KeptFrom(ev: seq<Event>, ev1: seq<Event>, queues: Queues, queues1: Queues, queues': Queues, id: Id)
    requires OrderKept(ev1, queues1, queues', id)
    requires forall p: nat :: Active(p) in queues ==>
      Active(p) in queues1 && queues1[Active(p)] == queues[Active(p)]
    requires |ev| == |ev1| && forall j :: 0 <= j < |ev| ==> ev1[j].internal == ev[j].internal
    ensures OrderKept(ev, queues, queues', id)
  {
    hide Staying;
    forall p: nat | Active(p) in queues
      ensures Active(p) in queues' && Fewer(ev, queues[Active(p)], queues'[Active(p)], id) {
      var gone: set<nat> :| OwnOnly(ev1, gone, id) && queues'[Active(p)] == Staying(queues[Active(p)], gone);
      assert OwnOnly(ev, gone, id);
    }
  }

  lemma SameInternal(ev: seq<Event>, id: Id, tv: Timeval, absolute: bool, now: Timeval)
    requires id < |ev|
    ensures forall j :: 0 <= j < |ev| ==> ev[id := Timed(ev[id], tv, absolute, now)][j].internal == ev[j].internal
  {}

  /** The part of event_add_internal that takes back an earlier timeout, expired or not */
  method Unschedule(b: Base, ghost cb: set<nat>, id: Id) returns (b': Base)
    requires b.Valid(cb) && id < |b.ev| && !OnDuty(b.timers, cb, id)
    ensures b'.Valid(cb) && b'.Beside(b) && b'.ev == b.ev[id := Unscheduled(b.ev[id])]
    ensures Dropped(b.queues, b'.queues, id)
  {
    hide EventQueues.Core, TimersOk, AllServed, Without, OnDuty, IsCommon, CommonIdx;
    b' := b;
    if b'.ev[id].pending {
      b' := QueueRemove(b', cb, id, FTimeout);
    }
    if b'.ev[id].active && Timeout in b'.ev[id].res {
      b' := QueueRemove(b', cb, id, FActive);
    }
  }

  /** What event_add_internal takes: a time, or a timeout to be added to now */
  predicate Takes(tv: Timeval, absolute: bool, ncommon: nat)
  {
    if absolute then IsTime(tv, ncommon) else IsDuration(tv, ncommon)
  }

  /** The new ev_timeout */
  method NewTimeout(tv: Timeval, absolute: bool, now: Timeval, ncommon: nat) returns (timeout: Timeval)
    requires Takes(tv, absolute, ncommon) && Plain(now) && ncommon <= MAX_COMMON_TIMEOUTS
    ensures timeout == TimeoutFor(tv, absolute, now)
  {
    CommonIs(tv, ncommon);
    if absolute {
      timeout := tv;
    } else if IsCommon(tv, ncommon) {
      timeout := Tagged(Plus(now, Untagged(tv)), Tag(tv));
    } else {
      timeout := Plus(now, tv);
    }
  }

  /** event_add_internal from ev_io_timeout to ev_timeout */
  method Prepare(b: Base, ghost cb: set<nat>, id: Id, tv: Timeval, absolute: bool, now: Timeval) returns (b': Base)
    requires b.Valid(cb) && id < |b.ev| && Plain(now) && Takes(tv, absolute, |b.timers|) && !OnDuty(b.timers, cb, id)
    requires b.ev[id].internal ==> absolute && Tag(tv) == 0
    ensures b'.Valid(cb) && b'.Beside(b) && b'.ev == b.ev[id := Timed(b.ev[id], tv, absolute, now).(pending := false)]
    ensures Dropped(b.queues, b'.queues, id)
  {
    hide EventQueues.Core, TimersOk, AllServed, OnDuty, EventOk, IsTime, Takes, Plain, Tag, TimeoutFor, Timed,
      SameFlags, Unscheduled;
    EventHas(b, id);
    TimedOk(b.ev[id], tv, absolute, now, b.nactive, |b.timers|);
    b' := b;
    var e := b.ev[id];
    if e.persist && !absolute {
      e := e.(ioTimeout := tv);
    }
    TimedSteps(b.ev[id], e, Unscheduled(e), tv, absolute, now);
    Stored(b', cb, id, e);
    b' := b'.(ev := b'.ev[id := e]);
    b' := Unschedule(b', cb, id);
    var timeout := NewTimeout(tv, absolute, now, |b.timers|);
    e := b'.ev[id].(timeout := timeout);
    Stored(b', cb, id, e);
    b' := b'.(ev := b'.ev[id := e]);
  }

  lemma TimedSteps(e: Event, e1: Event, e2: Event, tv: Timeval, absolute: bool, now: Timeval)
    requires e1 == if e.persist && !absolute then e.(ioTimeout := tv) else e
    requires e2 == Unscheduled(e1)
    ensures SameFlags(e, e1)
    ensures e2.(timeout := TimeoutFor(tv, absolute, now)) == Timed(e, tv, absolute, now).(pending := false)
    ensures SameFlags(e2, Timed(e, tv, absolute, now).(pending := false))
  {}

  /** The timeout half of event_add_internal: from ev_io_timeout to the insertion in the heap or in a list. */
  method SetTimeout(b: Base, ghost cb: set<nat>, id: Id, tv: Timeval, absolute: bool, now: Timeval)
    returns (b': Base, ghost cb': set<nat>)
    requires b.Valid(cb) && id < |b.ev| && Plain(now) && Takes(tv, absolute, |b.timers|) && !OnDuty(b.timers, cb, id)
    requires b.ev[id].internal ==> absolute && Tag(tv) == 0
    ensures b'.Valid(cb') && b'.Beside(b) && b'.ev == b.ev[id := Timed(b.ev[id], tv, absolute, now)]
    ensures Dropped(b.queues, b'.queues, id)
    ensures var t := b'.ev[id].timeout; Tag(t) == Tag(tv) && IsTime(t, |b.timers|) && CommonIdx(t) == CommonIdx(tv)
    ensures if IsCommon(tv, |b.timers|) then
        var i := CommonIdx(tv);
        && i < |b.timers| && Common(i) in b'.queues && b'.queues[Common(i)] != []
        && cb' == if b'.queues[Common(i)][0] == id then cb + {i} else cb
      else cb' == cb
  {
    hide EventQueues.Core, TimersOk, AllServed, OnDuty, QueueOf, EventOk, IsTime, Takes, Plain, IsCommon, Tag,
      CommonIdx, Timed;
    EventHas(b, id);
    TimedOk(b.ev[id], tv, absolute, now, b.nactive, |b.timers|);
    b' := Prepare(b, cb, id, tv, absolute, now);
    b', cb' := QueueInsert(b', cb, id, FTimeout);
  }

  /** common_timeout_schedule, for the head of list i */
  method CommonTimeoutSchedule(b: Base, ghost cb: set<nat>, i: nat, head: Id, now: Timeval) returns (b': Base)
    requires b.Valid(cb + {i}) && WellTagged(b.ev, |b.timers|) && Plain(now)
    requires i < |b.timers| && Common(i) in b.queues && b.queues[Common(i)] != [] && b.queues[Common(i)][0] == head
    ensures b'.Valid(cb) && b'.Beside(b) && WellTagged(b'.ev, |b.timers|)
    ensures var t := b.timers[i];
      && t < |b.ev| && OnlyTimers(b.ev, b'.ev, t) && b.ev[t].internal && !b.ev[t].io && !b.ev[t].persist
      && head < |b.ev|
      && b'.ev[t] == AfterAdd(b.ev[t], Some(Untagged(b.ev[head].timeout)), true, now)
      && b'.ev[t].pending && Tag(b'.ev[t].timeout) == 0 && Time(b'.ev[t].timeout) == Time(b.ev[head].timeout)
      && OrderKept(b.ev, b.queues, b'.queues, t)
    decreases 2
  {
    hide EventQueues.Core, TimersOk, AllServed, OnDuty, WellTagged, OnlyRetimed, EventOk, QueueOf, IsTime, Takes, Plain,
      Tag, Untagged, OrderKept;
    ghost var cb' := cb + {i};
    HeadOf(b, cb', i);
    InternalIs(b, cb', i, head);
    TimerTime(b.ev[head].timeout, |b.timers|);
    var r;
    r, b' := AddInternal(b, cb', b.timers[i], Some(Untagged(b.ev[head].timeout)), true, now, 0);
    Rescheduled(b, b', cb', cb, i, head);
  }

  lemma HeadOf(b: Base, cb: set<nat>, i: nat)
    requires b.Valid(cb) && i < |b.timers| && Common(i) in b.queues && b.queues[Common(i)] != []
    ensures var h := b.queues[Common(i)][0];
      && h < |b.ev| && !b.ev[h].internal && b.ev[h].pending
      && IsTime(b.ev[h].timeout, |b.timers|) && Tag(b.ev[h].timeout) == TagOf(i)
  {
    var h := b.queues[Common(i)][0];
    assert QueueOk(b.ev, b.queues[Common(i)], Common(i)) && h in b.queues[Common(i)];
    EventHas(b, h);
  }

  /** The timeout half of event_add_internal, and the timer of the list if the event is now its head */
  method AddTimeout(b: Base, ghost cb: set<nat>, id: Id, tv: Timeval, absolute: bool, now: Timeval) returns (b': Base)
    requires b.Valid(cb) && WellTagged(b.ev, |b.timers|) && id < |b.ev| && Plain(now)
    requires Takes(tv, absolute, |b.timers|) && (absolute && b.ev[id].persist ==> Tag(tv) == Tag(b.ev[id].ioTimeout))
    requires b.ev[id].internal ==> absolute && Tag(tv) == 0 && !OnDuty(b.timers, cb, id)
    ensures b'.Valid(cb) && b'.Beside(b) && WellTagged(b'.ev, |b.timers|)
    ensures OnlyTimers(b.ev, b'.ev, id) && b'.ev[id] == Timed(b.ev[id], tv, absolute, now)
    ensures OrderKept(b.ev, b.queues, b'.queues, id)
    decreases if b.ev[id].internal then 0 else 3
  {
    hide EventQueues.Core, TimersOk, AllServed, OnDuty, WellTagged, OnlyTimers, OnlyRetimed, EventOk, QueueOf, IsTime,
      Takes, Plain, IsCommon, Tag, CommonIdx, Untagged, TimeoutFor, Timed, OrderKept, Dropped;
    EventHas(b, id);
    if !b.ev[id].internal { OffDuty(b, cb, id); }
    ghost var cb';
    b', cb' := SetTimeout(b, cb, id, tv, absolute, now);
    TimedTagged(b.ev[id], tv, absolute, now, |b.timers|);
    TaggedStill(b.ev, |b.timers|, id, b'.ev[id]);
    OnlyOne(b.ev, id, b'.ev[id]);
    KeptOne(b, b'.queues, id);
    if IsCommon(tv, |b.timers|) {
      var i := CommonIdx(b'.ev[id].timeout);
      if b'.queues[Common(i)][0] == id {
        ghost var b1 := b';
        b' := CommonTimeoutSchedule(b', cb, i, id, now);
        OnlyTwo(b.ev, b1.ev, b'.ev, id, b.timers[i], Untagged(b1.ev[id].timeout), now);
        SameInternal(b.ev, id, tv, absolute, now);
        KeptTwice(b.ev, b1.ev, b.queues, b1.queues, b'.queues, id, b.timers[i]);
      }
    }
  }

  /** The part of event_add_internal that registers the event; io is what evmap_io_add answers. */
  method Register(b: Base, ghost cb: set<nat>, id: Id, io: int) returns (r: int, b': Base)
    requires b.Valid(cb) && WellTagged(b.ev, |b.timers|) && id < |b.ev| && -1 <= io <= 1
    ensures b'.Valid(cb) && b'.Beside(b) && WellTagged(b'.ev, |b.timers|)
    ensures r == if b.ev[id].io && !b.ev[id].inserted && !b.ev[id].active && io == -1 then -1 else 0
    ensures r == -1 ==> b' == b
    ensures r == 0 ==>
      b'.ev == b.ev[id := b.ev[id].(inserted := b.ev[id].inserted || (b.ev[id].io && !b.ev[id].active))]
    ensures forall p: nat :: Active(p) in b.queues ==>
      Active(p) in b'.queues && b'.queues[Active(p)] == b.queues[Active(p)]
  {
    hide EventQueues.Core, TimersOk, AllServed, OnDuty, WellTagged, EventOk, QueueOf;
    r, b' := 0, b;
    if b.ev[id].io && !b.ev[id].inserted && !b.ev[id].active {
      r := io;
      if r != -1 {
        InsertedOk(b, id);
        ghost var cb';
        b', cb' := QueueInsert(b', cb, id, FInserted);
        TaggedStill(b.ev, |b.timers|, id, b'.ev[id]);
      }
      if r == 1 {
        r := 0;
      }
    }
  }

  /** event_add_internal; io is what evmap_io_add answers */
  method AddInternal(b: Base, ghost cb: set<nat>, id: Id, tv: Option<Timeval>, absolute: bool, now: Timeval, io: int)
    returns (r: int, b': Base)
    requires b.Valid(cb) && WellTagged(b.ev, |b.timers|) && id < |b.ev| && -1 <= io <= 1 && Plain(now)
    requires tv.Some? ==>
      && Takes(tv.value, absolute, |b.timers|)
      && (absolute && b.ev[id].persist ==> Tag(tv.value) == Tag(b.ev[id].ioTimeout))
    requires b.ev[id].internal ==> tv.Some? && absolute && Tag(tv.value) == 0 && !OnDuty(b.timers, cb, id)
    ensures b'.Valid(cb) && b'.Beside(b) && WellTagged(b'.ev, |b.timers|)
    ensures if b.ev[id].io && !b.ev[id].inserted && !b.ev[id].active && io == -1 then r == -1 && b' == b
            else r == 0 && OnlyTimers(b.ev, b'.ev, id) && b'.ev[id] == AfterAdd(b.ev[id], tv, absolute, now)
    ensures r == 0 ==> id < |b'.ev| && Added(b.ev[id], b'.ev[id], tv, absolute, now)
    ensures r == 0 && tv.Some? ==>
      var e := b'.ev[id];
      && e.pending && Tag(e.timeout) == Tag(tv.value)
      && Time(e.timeout) == (if absolute then Time(tv.value) else Time(now) + Time(tv.value))
      && (b.ev[id].active && Timeout in b.ev[id].res ==> !e.active)
      && Waits(b'.queues, id, Tag(tv.value))
    ensures r == 0 && b.ev[id].io && !b.ev[id].active ==>
      b'.ev[id].inserted && Inserted in b'.queues && id in b'.queues[Inserted]
    ensures forall p: nat :: Active(p) in b'.queues && id in b'.queues[Active(p)] ==>
      b.ev[id].active && b.ev[id].pri == p && (tv.None? || Timeout !in b.ev[id].res || r == -1)
    ensures OrderKept(b.ev, b.queues, b'.queues, id)
    decreases if b.ev[id].internal then 1 else 4
  {
    hide EventQueues.Core, TimersOk, AllServed, OnDuty, WellTagged, OnlyTimers, OnlyRetimed, EventOk, QueueOf, IsTime,
      Takes, Plain, Tag, Timed, Waits, OrderKept;
    r, b' := Register(b, cb, id, io);
    Unchanged(b.ev, id);
    OnlyOne(b.ev, id, b'.ev[id]);
    KeptSame(b, b'.queues, id);
    if r != -1 && tv.Some? {
      ghost var b1 := b';
      b' := AddTimeout(b', cb, id, tv.value, absolute, now);
      OnlySame(b.ev, b1.ev, b'.ev, id);
      KeptFrom(b.ev, b1.ev, b.queues, b1.queues, b'.queues, id);
    }
    AddedOn(b, b', id, tv, absolute, now);
  }

  lemma AddedOn(b: Base, b': Base, id: Id, tv: Option<Timeval>, absolute: bool, now: Timeval)
    requires b.Core() && b'.Core() && b'.timers == b.timers && id < |b.ev| == |b'.ev| && Plain(now)
    requires (tv.Some? ==> Takes(tv.value, absolute, |b.timers|))
    requires b' == b || b'.ev[id] == AfterAdd(b.ev[id], tv, absolute, now)
    ensures Inserted in b'.queues && (b'.ev[id].inserted ==> id in b'.queues[Inserted])
    ensures forall p: nat :: Active(p) in b'.queues && id in b'.queues[Active(p)] ==>
      b'.ev[id].active && b'.ev[id].pri == p
    ensures b'.ev[id] == AfterAdd(b.ev[id], tv, absolute, now) ==>
      Added(b.ev[id], b'.ev[id], tv, absolute, now) && (tv.Some? ==> Waits(b'.queues, id, Tag(tv.value)))
  {
    hide EventQueues.Core, IsTime, Tag, Timed, AfterAdd, Takes, Plain;
    CoreHas(b);
    OnItsQueues(b', id);
    AddedIs(b.ev[id], tv, absolute, now, |b.timers|);
  }

  /** In the heap, or on the list of a common timeout, by the tag of the timeout */
  ghost predicate Waits(queues: Queues, id: Id, tag: nat)
  {
    var q := if tag == 0 then Heap else Common(if tag < 0x500 then 0 else tag - 0x500);
    (tag == 0 || tag >= 0x500) && q in queues && id in queues[q]
  }

  /** What event_add_internal makes of an event, field by field */
  ghost predicate Added(e: Event, e': Event, tv: Option<Timeval>, absolute: bool, now: Timeval)
  {
    && e' == e.(inserted := e'.inserted, active := e'.active, pending := e'.pending, timeout := e'.timeout,
                ioTimeout := e'.ioTimeout)
    && (e'.inserted <==> e.inserted || (e.io && !e.active))
    && (e'.active <==> e.active && !(tv.Some? && Timeout in e.res))
    && (tv.None? ==> e'.pending == e.pending && e'.timeout == e.timeout && e'.ioTimeout == e.ioTimeout)
    && (tv.Some? ==>
      && e'.pending && Tag(e'.timeout) == Tag(tv.value)
      && Time(e'.timeout) == (if absolute then Time(tv.value) else Time(now) + Time(tv.value))
      && e'.ioTimeout == if e.persist && !absolute then tv.value else e.ioTimeout)
  }

  lemma AddedIs(e: Event, tv: Option<Timeval>, absolute: bool, now: Timeval, ncommon: nat)
    requires Plain(now) && ncommon <= MAX_COMMON_TIMEOUTS && (tv.Some? ==> Takes(tv.value, absolute, ncommon))
    ensures Added(e, AfterAdd(e, tv, absolute, now), tv, absolute, now)
  {
    if tv.Some? && !absolute { TimeoutIs(tv.value, now, ncommon); }
  }

  /** The queues that an event is on are those of its flags. */
  lemma OnItsQueues(b: Base, id: Id)
    requires b.Core() && id < |b.ev|
    ensures Inserted in b.queues && (id in b.queues[Inserted] <==> b.ev[id].inserted)
    ensures forall p: nat :: Active(p) in b.queues ==>
      (id in b.queues[Active(p)] <==> b.ev[id].active && b.ev[id].pri == p)
    ensures b.ev[id].pending ==> Waits(b.queues, id, Tag(b.ev[id].timeout))
    ensures !b.ev[id].pending ==>
      forall q :: q in b.queues && (q.Heap? || q.Common?) ==> id !in b.queues[q]
  {
    hide Counted;
    EventHas(b, id);
    forall q | q in b.queues ensures id in b.queues[q] <==> Belongs(b.ev[id], q) {
      assert QueueOk(b.ev, b.queues[q], q);
    }
    assert forall q :: ValidKind(q, b.nactive, |b.timers|) ==> q in b.queues;
  }

  /** A persistent event's own timeout and the one it is added again with are of one kind. */
  ghost predicate WellTagged(ev: seq<Event>, ncommon: nat)
  {
    forall i :: 0 <= i < |ev| && ev[i].persist && ev[i].ioTimeout != ZERO ==>
      Tag(ev[i].timeout) == Tag(ev[i].ioTimeout) && IsTime(ev[i].timeout, ncommon)
  }

  /** What setting a timeout makes of an event. */
  function Timed(e: Event, tv: Timeval, absolute: bool, now: Timeval): (e': Event)
  {
    e.(pending := true, active := e.active && Timeout !in e.res,
       ioTimeout := if e.persist && !absolute then tv else e.ioTimeout,
       timeout := TimeoutFor(tv, absolute, now))
  }

  /** The time that a timeout is due. */
  function TimeoutFor(tv: Timeval, absolute: bool, now: Timeval): (t: Timeval)
  {
    if absolute then tv
    else if Tag(tv) != 0 then Tagged(Plus(now, Untagged(tv)), Tag(tv))
    else Plus(now, tv)
  }

  /** What event_add_internal makes of an event. */
  function AfterAdd(e: Event, tv: Option<Timeval>, absolute: bool, now: Timeval): (e': Event)
  {
    var e1 := if e.io && !e.inserted && !e.active then e.(inserted := true) else e;
    if tv.None? then e1 else Timed(e1, tv.value, absolute, now)
  }

  /** Only internal timers change apart from id, only in when they fire, and none becomes active. */
  ghost predicate OnlyTimers(ev: seq<Event>, ev': seq<Event>, id: Id)
  {
    && |ev'| == |ev|
    && forall j :: 0 <= j < |ev| && j != id ==> OnlyRetimed(ev[j], ev'[j])
  }

  ghost predicate OnlyRetimed(e: Event, e': Event)
  {
    if e.internal then e' == e.(pending := e'.pending, active := e'.active, timeout := e'.timeout)
      && (e'.active ==> e.active)
    else e' == e
  }

  /** event_add_internal's new ev_timeout stands for the right time, and keeps the tag. */
  lemma TimeoutIs(tv: Timeval, now: Timeval, ncommon: nat)
    requires IsDuration(tv, ncommon) && Plain(now) && ncommon <= MAX_COMMON_TIMEOUTS
    ensures var t := if IsCommon(tv, ncommon) then Tagged(Plus(now, Untagged(tv)), Tag(tv)) else Plus(now, tv);
      IsTime(t, ncommon) && Tag(t) == Tag(tv) && Time(t) == Time(now) + Time(tv)
    ensures IsCommon(tv, ncommon) <==> Tag(tv) != 0
    ensures forall t ::
      Tag(t) == Tag(tv) ==> CommonIdx(t) == CommonIdx(tv) && (IsCommon(t, ncommon) <==> IsCommon(tv, ncommon))
  {
    CommonIs(tv, ncommon);
    UntagRoundTrip(tv);
    PlusIs(now, Untagged(tv));
    TagRoundTrip(Plus(now, Untagged(tv)), Tag(tv));
    if Tag(tv) == 0 { PlainTime(Plus(now, tv)); }
  }

  /** Setting a timeout step by step. */
  lemma TimedOk(e: Event, tv: Timeval, absolute: bool, now: Timeval, nactive: nat, ncommon: nat)
    requires EventOk(e, nactive, ncommon) && Takes(tv, absolute, ncommon) && Plain(now)
    requires ncommon <= MAX_COMMON_TIMEOUTS
    requires e.internal ==> absolute && Tag(tv) == 0
    ensures e.persist && !absolute ==> EventOk(e.(ioTimeout := tv), nactive, ncommon)
    ensures var e' := Timed(e, tv, absolute, now);
      && EventOk(e'.(pending := false), nactive, ncommon) && EventOk(e', nactive, ncommon)
      && e'.pending && e'.(pending := false).(pending := true) == e'
      && IsTime(e'.timeout, ncommon) && Tag(e'.timeout) == Tag(tv) && (IsCommon(tv, ncommon) <==> Tag(tv) != 0)
      && QueueOf(e', FTimeout, ncommon) == QueueOf(e'.(pending := false), FTimeout, ncommon)
      && QueueOf(e', FTimeout, ncommon) == (if IsCommon(tv, ncommon) then Common(CommonIdx(tv)) else Heap)
      && CommonIdx(e'.timeout) == CommonIdx(tv) && (IsCommon(tv, ncommon) ==> CommonIdx(tv) < ncommon)
  {
    TimeoutIs(tv, now, ncommon);
  }

  lemma OffDuty(b: Base, cb: set<nat>, id: Id)
    requires b.Valid(cb) && id < |b.ev| && !b.ev[id].internal
    ensures !OnDuty(b.timers, cb, id)
  {
    hide EventQueues.Core, AllServed;
  }

  /** The timer of a list, and one of its events. */
  lemma InternalIs(b: Base, cb: set<nat>, i: nat, id: Id)
    requires b.Valid(cb) && i < |b.timers| && i in cb && id < |b.ev|
    ensures var t := b.timers[i];
      t < |b.ev| && b.ev[t].internal && !OnDuty(b.timers, cb, t) && !b.ev[t].io && !b.ev[t].persist
  {
    EventHas(b, b.timers[i]);
  }

  /** A change to id, then to an internal timer. */
  lemma OnlyTwo(ev: seq<Event>, ev1: seq<Event>, ev2: seq<Event>, id: Id, t: Id, tv: Timeval, now: Timeval)
    requires id < |ev| == |ev1| && ev1 == ev[id := ev1[id]] && OnlyTimers(ev1, ev2, t) && t < |ev| && ev1[t].internal
    requires !ev1[t].io && !ev1[t].persist
    requires ev2[t] == AfterAdd(ev1[t], Some(tv), true, now) && !ev1[id].internal
    ensures OnlyTimers(ev, ev2, id) && ev2[id] == ev1[id]
  {
    assert OnlyRetimed(ev1[id], ev2[id]);
    forall j | 0 <= j < |ev| && j != id ensures OnlyRetimed(ev[j], ev2[j]) {
      if j != t { assert OnlyRetimed(ev1[j], ev2[j]); }
    }
  }

  /** The kind of a persistent event's timeout is that of ev_io_timeout. */
  lemma TimedTagged(e: Event, tv: Timeval, absolute: bool, now: Timeval, ncommon: nat)
    requires Takes(tv, absolute, ncommon) && Plain(now) && ncommon <= MAX_COMMON_TIMEOUTS
    requires (absolute && e.persist ==> Tag(tv) == Tag(e.ioTimeout))
    ensures IsCommon(tv, ncommon) <==> Tag(tv) != 0
    ensures Timed(e, tv, absolute, now).internal == e.internal
    ensures var e' := Timed(e, tv, absolute, now);
      e'.persist ==> Tag(e'.timeout) == Tag(e'.ioTimeout) && IsTime(e'.timeout, ncommon)
  {
    TimeoutIs(tv, now, ncommon);
  }

  /** The timeval that common_timeout_schedule passes on. */
  lemma TimerTime(tv: Timeval, ncommon: nat)
    requires IsTime(tv, ncommon)
    ensures Takes(Untagged(tv), true, ncommon) && Tag(Untagged(tv)) == 0 && Time(Untagged(tv)) == Time(tv)
    ensures !IsCommon(Untagged(tv), ncommon)
  {
    UntagRoundTrip(tv);
    PlainTime(Untagged(tv));
  }

  lemma InsertedOk(b: Base, id: Id)
    requires b.Core() && id < |b.ev| && b.ev[id].io
    ensures !b.ev[id].internal && EventOk(b.ev[id].(inserted := true), b.nactive, |b.timers|)
    ensures QueueOf(b.ev[id], FInserted, |b.timers|) == Inserted
  {}

  lemma Unchanged(ev: seq<Event>, id: Id)
    ensures OnlyTimers(ev, ev, id)
  {}

  lemma OnlyOne(ev: seq<Event>, id: Id, e: Event)
    requires id < |ev|
    ensures OnlyTimers(ev, ev[id := e], id)
  {}

  lemma OnlySame(ev: seq<Event>, ev1: seq<Event>, ev2: seq<Event>, id: Id)
    requires id < |ev| && |ev1| == |ev| && OnlyTimers(ev1, ev2, id)
    requires forall j :: 0 <= j < |ev| && j != id ==> ev1[j] == ev[j]
    ensures OnlyTimers(ev, ev2, id)
  {}

  lemma TaggedStill(ev: seq<Event>, ncommon: nat, id: Id, e: Event)
    requires WellTagged(ev, ncommon) && id < |ev|
    requires e.(inserted := ev[id].inserted) == ev[id]
      || (e.persist ==> Tag(e.timeout) == Tag(e.ioTimeout) && IsTime(e.timeout, ncommon))
    ensures WellTagged(ev[id := e], ncommon)
  {}

  /** After an event became the head, scheduling the timer for it serves the list again. */
  lemma Rescheduled(b: Base, b': Base, cb: set<nat>, cb0: set<nat>, i: nat, id: Id)
    requires b.Valid(cb) && b'.Valid(cb) && b'.Beside(b) && cb == cb0 + {i}
    requires i < |b.timers| && Common(i) in b.queues && b.queues[Common(i)] != [] && b.queues[Common(i)][0] == id
    requires OnlyTimers(b.ev, b'.ev, b.timers[i])
    requires b.timers[i] < |b'.ev| && b'.ev[b.timers[i]].pending && Time(b'.ev[b.timers[i]].timeout) == When(b.ev, id)
    ensures b'.Valid(cb0)
  {
    hide Counted, KindsOk;
    assert Served(b.ev, b.queues, b.timers, cb, i);
    forall j | 0 <= j < |b.timers| ensures Served(b'.ev, b'.queues, b.timers, cb0, j) {
      assert Served(b'.ev, b'.queues, b.timers, cb, j);
      if j == i && b'.queues[Common(i)] != [] {
        var h := b'.queues[Common(i)][0];
        assert QueueOk(b'.ev, b'.queues[Common(i)], Common(i)) && QueueOk(b.ev, b.queues[Common(i)], Common(i));
        assert h in b'.queues[Common(i)];
        assert EventOk(b'.ev[h], b.nactive, |b.timers|);
        assert OnlyRetimed(b.ev[h], b'.ev[h]);
        assert h in b.queues[Common(i)];
      }
    }
  }

  lemma WithEnd(ids: seq<Id>, id: Id)
    ensures With(ids, |ids|, id) == ids + [id]
  {}

  lemma HeadIs(ids: seq<Id>, k: nat, id: Id)
    requires k <= |ids| && id !in ids
    ensures With(ids, k, id) != [] && (With(ids, k, id)[0] == id <==> k == 0)
  {
    if k > 0 { assert ids[0] in ids && With(ids, k, id)[0] == ids[0]; }
  }

  lemma TimersStay(ev: seq<Event>, timers: seq<Id>, id: Id, e: Event)
    requires TimersOk(ev, timers) && id < |ev| && e.internal == ev[id].internal
    ensures TimersOk(ev[id := e], timers)
  {}

  lemma ServedMore(ev: seq<Event>, queues: Queues, timers: seq<Id>, inCallback: set<nat>, i: nat)
    requires AllServed(ev, queues, timers, inCallback)
    ensures AllServed(ev, queues, timers, inCallback + {i})
  {
    forall j | 0 <= j < |timers| ensures Served(ev, queues, timers, inCallback + {i}, j) {
      assert Served(ev, queues, timers, inCallback, j);
    }
  }

  /** The events of one list, and one that goes there, have one tag. */
  lemma ListTags(b: Base, id: Id)
    requires b.Core() && id < |b.ev| && EventOk(b.ev[id].(pending := true), b.nactive, |b.timers|)
    requires IsCommon(b.ev[id].timeout, |b.timers|)
    ensures Micro(b.ev[id].timeout) < 1000000 && Common(CommonIdx(b.ev[id].timeout)) in b.queues
    ensures var ev, ids := b.ev, b.queues[Common(CommonIdx(b.ev[id].timeout))];
      forall i :: 0 <= i < |ids| ==>
        ids[i] < |ev| && Tag(ev[ids[i]].timeout) == Tag(ev[id].timeout) && Micro(ev[ids[i]].timeout) < 1000000
  {
    hide Counted;
    var q := Common(CommonIdx(b.ev[id].timeout));
    CommonIs(b.ev[id].timeout, |b.timers|);
    assert ValidKind(q, b.nactive, |b.timers|);
    assert QueueOk(b.ev, b.queues[q], q);
    var ev, ids := b.ev, b.queues[q];
    forall i | 0 <= i < |ids|
      ensures ids[i] < |ev| && Tag(ev[ids[i]].timeout) == Tag(ev[id].timeout) && Micro(ev[ids[i]].timeout) < 1000000 {
      assert ids[i] in ids;
      assert EventOk(ev[ids[i]], b.nactive, |b.timers|);
    }
  }
}
