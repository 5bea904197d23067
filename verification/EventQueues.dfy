/**
 The queues of an event_base: inserted events, one list of active events for each priority,
 the heap of timeouts, and one list for each common timeout.  struct event values live in a
 sequence that stands for memory, and queues hold their indices.
 */
module EventQueues {
  import opened Basics
  import opened Timevals

  type Id = nat

  datatype Cause = Timeout | Read | Write

  /** struct event: what it was assigned with, its EVLIST flags, its timeouts, and ev_res */
  datatype Event = Event(io: bool, persist: bool, internal: bool, pri: nat,
                         inserted: bool, active: bool, pending: bool,
                         timeout: Timeval, ioTimeout: Timeval, res: set<Cause>)

  /** EVLIST_INSERTED, EVLIST_ACTIVE, EVLIST_TIMEOUT */
  datatype Flag = FInserted | FActive | FTimeout

  /** eventqueue, activequeues[pri], timeheap, common_timeout_queues[i]->events */
  datatype Queue = Inserted | Active(pri: nat) | Heap | Common(i: nat)

  type Queues = map<Queue, seq<Id>>

  function HasFlag(e: Event, f: Flag): (b: bool)
  {
    match f
    case FInserted => e.inserted
    case FActive => e.active
    case FTimeout => e.pending
  }

  function SetFlag(e: Event, f: Flag, b: bool): (e': Event)
  {
    match f
    case FInserted => e.(inserted := b)
    case FActive => e.(active := b)
    case FTimeout => e.(pending := b)
  }

  /** The queue that a flag stands for. */
  function QueueOf(e: Event, f: Flag, ncommon: nat): (q: Queue)
  {
    match f
    case FInserted => Inserted
    case FActive => Active(e.pri)
    case FTimeout => if IsCommon(e.timeout, ncommon) then Common(CommonIdx(e.timeout)) else Heap
  }

  /** Whether an event is to be on a queue. */
  predicate Belongs(e: Event, q: Queue)
  {
    match q
    case Inserted => e.inserted
    case Active(p) => e.active && e.pri == p
    case Heap => e.pending && Tag(e.timeout) == 0
    case Common(i) => e.pending && Tag(e.timeout) == TagOf(i)
  }

  /** Setting a flag puts an event on the one queue of that flag, and on no other. */
  lemma FlagIs(e: Event, f: Flag, ncommon: nat)
    requires f.FTimeout? ==> IsTime(e.timeout, ncommon)
    requires ncommon <= MAX_COMMON_TIMEOUTS
    ensures var q0 := QueueOf(e, f, ncommon);
      && (HasFlag(e, f) <==> Belongs(e, q0)) && Belongs(SetFlag(e, f, true), q0) && !Belongs(SetFlag(e, f, false), q0)
      && (!HasFlag(e, f) ==> forall q :: q != q0 ==> Belongs(SetFlag(e, f, true), q) == Belongs(e, q))
      && (HasFlag(e, f) ==> forall q :: q != q0 ==> Belongs(SetFlag(e, f, false), q) == Belongs(e, q))
      && (f.FTimeout? ==> q0 == if Tag(e.timeout) == 0 then Heap else Common(Tag(e.timeout) - COMMON_TIMEOUT_TAG))
  {
    if f.FTimeout? { CommonIs(e.timeout, ncommon); }
  }

  // ----- lists of events

  /** ids with id put at place k */
  function With(ids: seq<Id>, k: nat, id: Id): (r: seq<Id>)
    requires k <= |ids|
  {
    ids[..k] + [id] + ids[k..]
  }

  lemma WithAt(ids: seq<Id>, k: nat, id: Id)
    requires k <= |ids|
    ensures var w := With(ids, k, id);
      && |w| == |ids| + 1 && w[k] == id
      && forall i :: 0 <= i < |w| && i != k ==> w[i] == ids[if i < k then i else i - 1]
  {}

  lemma WithIs(ids: seq<Id>, k: nat, id: Id)
    requires k <= |ids| && Distinct(ids) && id !in ids
    ensures Distinct(With(ids, k, id)) && forall x :: x in With(ids, k, id) <==> x == id || x in ids
  {
    hide With;
    WithAt(ids, k, id);
    var w := With(ids, k, id);
    forall x ensures x in w <==> x == id || x in ids {
      if x in ids {
        var i :| 0 <= i < |ids| && ids[i] == x;
        assert w[if i < k then i else i + 1] == x;
      }
      assert w[k] == id;
    }
    forall i, j | 0 <= i < j < |w| ensures w[i] != w[j] {
      var i', j' := if i < k then i else i - 1, if j < k then j else j - 1;
      assert i != k ==> w[i] == ids[i'];
      assert j != k ==> w[j] == ids[j'];
    }
  }

  // ----- queues and flags

  ghost predicate QueueOk(ev: seq<Event>, ids: seq<Id>, q: Queue)
  {
    Distinct(ids) && forall id: nat :: id in ids <==> id < |ev| && Belongs(ev[id], q)
  }

  /** On every queue are exactly the events that belong there, each once. */
  ghost predicate Members(ev: seq<Event>, queues: Queues)
  {
    forall q :: q in queues ==> QueueOk(ev, queues[q], q)
  }

  lemma InsertMembers(ev: seq<Event>, queues: Queues, id: Id, q0: Queue, e: Event, k: nat)
    requires Members(ev, queues) && q0 in queues && id < |ev| && k <= |queues[q0]|
    requires Belongs(e, q0) && !Belongs(ev[id], q0) && forall q :: q != q0 ==> Belongs(e, q) == Belongs(ev[id], q)
    ensures Members(ev[id := e], queues[q0 := With(queues[q0], k, id)])
  {
    hide Belongs;
    assert QueueOk(ev, queues[q0], q0);
    WithIs(queues[q0], k, id);
    var ev', queues' := ev[id := e], queues[q0 := With(queues[q0], k, id)];
    forall q | q in queues' ensures QueueOk(ev', queues'[q], q) {
      assert QueueOk(ev, queues[q], q);
    }
  }

  lemma RemoveMembers(ev: seq<Event>, queues: Queues, id: Id, q0: Queue, e: Event)
    requires Members(ev, queues) && q0 in queues && id < |ev|
    requires !Belongs(e, q0) && Belongs(ev[id], q0) && forall q :: q != q0 ==> Belongs(e, q) == Belongs(ev[id], q)
    ensures Members(ev[id := e], queues[q0 := Without(queues[q0], id)])
    ensures id in queues[q0]
  {
    hide Belongs;
    assert QueueOk(ev, queues[q0], q0);
    WithoutIs(queues[q0], id);
    var ev', queues' := ev[id := e], queues[q0 := Without(queues[q0], id)];
    forall q | q in queues' ensures QueueOk(ev', queues'[q], q) {
      assert QueueOk(ev, queues[q], q);
    }
  }

  lemma SameMembers(ev: seq<Event>, queues: Queues, id: Id, e: Event)
    requires Members(ev, queues) && id < |ev| && forall q :: Belongs(e, q) == Belongs(ev[id], q)
    ensures Members(ev[id := e], queues)
  {
    hide Belongs;
    forall q | q in queues ensures QueueOk(ev[id := e], queues[q], q) {
      assert QueueOk(ev, queues[q], q);
    }
  }

  // ----- counting

  /** How many of the events are not internal. */
  ghost function Count(ev: seq<Event>, ids: seq<Id>): (n: nat)
  {
    if ids == [] then 0
    else Count(ev, ids[..|ids| - 1]) + (if ids[|ids| - 1] < |ev| && ev[ids[|ids| - 1]].internal then 0 else 1)
  }

  ghost predicate SameInternal(ev: seq<Event>, ev': seq<Event>)
  {
    |ev| == |ev'| && forall i :: 0 <= i < |ev| ==> ev[i].internal == ev'[i].internal
  }

  lemma {:induction false} CountSame(ev: seq<Event>, ev': seq<Event>, ids: seq<Id>)
    requires SameInternal(ev, ev')
    ensures Count(ev, ids) == Count(ev', ids)
  {
    if ids != [] { CountSame(ev, ev', ids[..|ids| - 1]); }
  }

  lemma {:induction false} CountConcat(ev: seq<Event>, a: seq<Id>, b: seq<Id>)
    ensures Count(ev, a + b) == Count(ev, a) + Count(ev, b)
  {
    if b == [] {
      assert a + b == a;
    } else {
      CountConcat(ev, a, b[..|b| - 1]);
      assert (a + b)[..|a + b| - 1] == a + b[..|b| - 1];
    }
  }

  lemma CountWith(ev: seq<Event>, ids: seq<Id>, k: nat, id: Id)
    requires k <= |ids| && id < |ev|
    ensures Count(ev, With(ids, k, id)) == Count(ev, ids) + (if ev[id].internal then 0 else 1)
  {
    hide Count;
    CountConcat(ev, ids[..k] + [id], ids[k..]);
    CountConcat(ev, ids[..k], [id]);
    CountConcat(ev, ids[..k], ids[k..]);
    assert ids == ids[..k] + ids[k..];
    CountOne(ev, id);
  }

  lemma CountOne(ev: seq<Event>, id: Id)
    requires id < |ev|
    ensures Count(ev, [id]) == if ev[id].internal then 0 else 1
  {
    assert [id][..0] == [];
  }

  lemma CountWithout(ev: seq<Event>, ids: seq<Id>, id: Id)
    requires id in ids && id < |ev|
    ensures Count(ev, Without(ids, id)) == Count(ev, ids) - (if ev[id].internal then 0 else 1)
  {
    hide Count, Without, With;
    WithBack(ids, id);
    CountWith(ev, Without(ids, id), IndexIn(ids, id), id);
  }

  /** What was taken out goes back to its place. */
  lemma WithBack(ids: seq<Id>, id: Id)
    requires id in ids
    ensures var k := IndexIn(ids, id); k <= |Without(ids, id)| && With(Without(ids, id), k, id) == ids
  {
    hide Without, With;
    var k := IndexIn(ids, id);
    WithoutAt(ids, id);
    WithAt(Without(ids, id), k, id);
  }

  /** The memberships of events that are not internal, over a listing of the queues. */
  ghost function CountAll(ev: seq<Event>, queues: Queues, kinds: seq<Queue>): (n: nat)
    requires forall i :: 0 <= i < |kinds| ==> kinds[i] in queues
  {
    if kinds == [] then 0
    else CountAll(ev, queues, kinds[..|kinds| - 1]) + Count(ev, queues[kinds[|kinds| - 1]])
  }

  lemma {:induction false} CountAllChange(ev: seq<Event>, ev': seq<Event>, queues: Queues, kinds: seq<Queue>,
      q0: Queue, ids: seq<Id>)
    requires (forall i :: 0 <= i < |kinds| ==> kinds[i] in queues) && Distinct(kinds) && q0 in queues
    requires SameInternal(ev, ev')
    ensures CountAll(ev', queues[q0 := ids], kinds)
      == CountAll(ev, queues, kinds) + (if q0 in kinds then Count(ev, ids) - Count(ev, queues[q0]) else 0)
  {
    if kinds != [] {
      var n := |kinds| - 1;
      CountAllChange(ev, ev', queues, kinds[..n], q0, ids);
      CountSame(ev, ev', if kinds[n] == q0 then ids else queues[kinds[n]]);
    }
  }

  /** How long the active queues are together. */
  ghost function ActiveTotal(queues: Queues, n: nat): (t: nat)
    requires forall p :: 0 <= p < n ==> Active(p) in queues
  {
    if n == 0 then 0 else ActiveTotal(queues, n - 1) + |queues[Active(n - 1)]|
  }

  lemma {:induction false} ActiveTotalChange(queues: Queues, n: nat, q0: Queue, ids: seq<Id>)
    requires (forall p :: 0 <= p < n ==> Active(p) in queues) && q0 in queues
    ensures ActiveTotal(queues[q0 := ids], n)
      == ActiveTotal(queues, n) + (if q0.Active? && q0.pri < n then |ids| - |queues[q0]| else 0)
  {
    if n > 0 { ActiveTotalChange(queues, n - 1, q0, ids); }
  }

  // ----- the base

  predicate ValidKind(q: Queue, nactive: nat, ncommon: nat)
  {
    match q
    case Active(p) => p < nactive
    case Common(i) => i < ncommon
    case _ => true
  }

  ghost predicate KindsOk(queues: Queues, kinds: seq<Queue>, nactive: nat, ncommon: nat)
  {
    && Distinct(kinds)
    && (forall q :: q in kinds <==> q in queues)
    && (forall q :: q in queues <==> ValidKind(q, nactive, ncommon))
  }

  ghost predicate EventOk(e: Event, nactive: nat, ncommon: nat)
  {
    && e.pri < nactive
    && (e.pending ==> IsTime(e.timeout, ncommon))
    && IsDuration(e.ioTimeout, ncommon)
    && (e.internal ==> e.pri == 0 && !e.io && !e.persist && (e.pending ==> Tag(e.timeout) == 0))
  }

  ghost predicate EventsOk(ev: seq<Event>, nactive: nat, ncommon: nat)
  {
    forall i :: 0 <= i < |ev| ==> EventOk(ev[i], nactive, ncommon)
  }

  ghost predicate Counted(ev: seq<Event>, queues: Queues, kinds: seq<Queue>, nactive: nat, ncommon: nat, count: int,
                          countActive: int)
    requires KindsOk(queues, kinds, nactive, ncommon)
  {
    && (forall i :: 0 <= i < |kinds| ==> kinds[i] in queues)
    && (forall p :: 0 <= p < nactive ==> Active(p) in queues)
    && count == CountAll(ev, queues, kinds)
    && countActive == ActiveTotal(queues, nactive)
  }

  lemma KindIn(queues: Queues, kinds: seq<Queue>, nactive: nat, ncommon: nat, q: Queue, ids: seq<Id>)
    requires KindsOk(queues, kinds, nactive, ncommon) && ValidKind(q, nactive, ncommon)
    ensures q in queues && q in kinds && KindsOk(queues[q := ids], kinds, nactive, ncommon)
  {}

  lemma CountedChange(ev: seq<Event>, ev': seq<Event>, queues: Queues, kinds: seq<Queue>, nactive: nat, ncommon: nat,
                      count: int, countActive: int, q: Queue, ids: seq<Id>)
    requires KindsOk(queues, kinds, nactive, ncommon)
    requires Counted(ev, queues, kinds, nactive, ncommon, count, countActive)
    requires q in queues && q in kinds && SameInternal(ev, ev')
    requires KindsOk(queues[q := ids], kinds, nactive, ncommon)
    ensures Counted(ev', queues[q := ids], kinds, nactive, ncommon,
                    count + Count(ev, ids) - Count(ev, queues[q]),
                    countActive + if q.Active? then |ids| - |queues[q]| else 0)
  {
    CountAllChange(ev, ev', queues, kinds, q, ids);
    ActiveTotalChange(queues, nactive, q, ids);
    assert forall p :: 0 <= p < nactive ==> Active(p) in queues[q := ids];
    assert ValidKind(q, nactive, ncommon);
  }

  /** What all operations on the queues keep: flags and queues agree, and the two counters are right. */
  ghost predicate Core(ev: seq<Event>, queues: Queues, kinds: seq<Queue>, nactive: nat, ncommon: nat, count: int,
                       countActive: int)
  {
    && KindsOk(queues, kinds, nactive, ncommon) && ncommon <= MAX_COMMON_TIMEOUTS
    && Members(ev, queues)
    && EventsOk(ev, nactive, ncommon)
    && Counted(ev, queues, kinds, nactive, ncommon, count, countActive)
  }

  /** Setting a flag and putting the event on its queue. */
  lemma CoreInsert(ev: seq<Event>, queues: Queues, kinds: seq<Queue>, nactive: nat, ncommon: nat, count: int,
                   countActive: int, id: Id, f: Flag, k: nat)
    requires Core(ev, queues, kinds, nactive, ncommon, count, countActive) && id < |ev| && !HasFlag(ev[id], f)
    requires EventOk(SetFlag(ev[id], f, true), nactive, ncommon)
    ensures var q := QueueOf(ev[id], f, ncommon);
      && q in queues && id !in queues[q]
      && (k <= |queues[q]| ==> Core(ev[id := SetFlag(ev[id], f, true)], queues[q := With(queues[q], k, id)], kinds,
                                    nactive, ncommon, count + (if ev[id].internal then 0 else 1),
                                    countActive + (if f.FActive? then 1 else 0)))
  {
    hide Belongs, Counted, CountAll, Count, EventOk, KindsOk, Members, With, Without;
    var q, e := QueueOf(ev[id], f, ncommon), SetFlag(ev[id], f, true);
    EventAt(ev, nactive, ncommon, id);
    FitsFlag(e, f, nactive, ncommon);
    KindIn(queues, kinds, nactive, ncommon, q, []);
    FlagIs(ev[id], f, ncommon);
    NotYet(ev, queues, q, id);
    if k <= |queues[q]| {
      var ids := With(queues[q], k, id);
      InsertMembers(ev, queues, id, q, e, k);
      CountWith(ev, queues[q], k, id);
      KindIn(queues, kinds, nactive, ncommon, q, ids);
      WithLength(queues[q], k, id);
      CountedChange(ev, ev[id := e], queues, kinds, nactive, ncommon, count, countActive, q, ids);
    }
  }

  lemma WithLength(ids: seq<Id>, k: nat, id: Id)
    requires k <= |ids|
    ensures |With(ids, k, id)| == |ids| + 1
  {}

  lemma NotYet(ev: seq<Event>, queues: Queues, q: Queue, id: Id)
    requires Members(ev, queues) && q in queues && id < |ev|
    ensures id in queues[q] <==> Belongs(ev[id], q)
    ensures Distinct(queues[q])
  {
    assert QueueOk(ev, queues[q], q);
  }

  lemma EventAt(ev: seq<Event>, nactive: nat, ncommon: nat, id: Id)
    requires EventsOk(ev, nactive, ncommon) && id < |ev|
    ensures EventOk(ev[id], nactive, ncommon)
  {}

  lemma FitsFlag(e: Event, f: Flag, nactive: nat, ncommon: nat)
    requires EventOk(e, nactive, ncommon) && HasFlag(e, f)
    ensures (f.FTimeout? ==> IsTime(e.timeout, ncommon)) && ValidKind(QueueOf(e, f, ncommon), nactive, ncommon)
    ensures forall b :: QueueOf(SetFlag(e, f, b), f, ncommon) == QueueOf(e, f, ncommon)
  {}

  /** Clearing a flag and taking the event off its queue. */
  lemma CoreRemove(ev: seq<Event>, queues: Queues, kinds: seq<Queue>, nactive: nat, ncommon: nat, count: int,
                   countActive: int, id: Id, f: Flag)
    requires Core(ev, queues, kinds, nactive, ncommon, count, countActive) && id < |ev| && HasFlag(ev[id], f)
    ensures var q := QueueOf(ev[id], f, ncommon);
      && q in queues && id in queues[q]
      && Core(ev[id := SetFlag(ev[id], f, false)], queues[q := Without(queues[q], id)], kinds, nactive, ncommon,
              count - (if ev[id].internal then 0 else 1), countActive - (if f.FActive? then 1 else 0))
  {
    hide Belongs, Counted, CountAll, Count, EventOk, KindsOk, Members, With, Without;
    var q, e := QueueOf(ev[id], f, ncommon), SetFlag(ev[id], f, false);
    EventAt(ev, nactive, ncommon, id);
    FitsFlag(ev[id], f, nactive, ncommon);
    KindIn(queues, kinds, nactive, ncommon, q, []);
    FlagIs(ev[id], f, ncommon);
    RemoveMembers(ev, queues, id, q, e);
    var ids := Without(queues[q], id);
    CountWithout(ev, queues[q], id);
    KindIn(queues, kinds, nactive, ncommon, q, ids);
    WithoutLength(queues[q], id);
    StillOk(ev[id], f, nactive, ncommon);
    CountedChange(ev, ev[id := e], queues, kinds, nactive, ncommon, count, countActive, q, ids);
  }

  lemma WithoutLength(ids: seq<Id>, id: Id)
    requires id in ids
    ensures |Without(ids, id)| == |ids| - 1
  {}

  lemma StillOk(e: Event, f: Flag, nactive: nat, ncommon: nat)
    requires EventOk(e, nactive, ncommon)
    ensures EventOk(SetFlag(e, f, false), nactive, ncommon)
  {}

  /** Changing what no queue depends on. */
  lemma CoreSame(ev: seq<Event>, queues: Queues, kinds: seq<Queue>, nactive: nat, ncommon: nat, count: int,
                 countActive: int, id: Id, e: Event)
    requires Core(ev, queues, kinds, nactive, ncommon, count, countActive) && id < |ev| && EventOk(e, nactive, ncommon)
    requires e.inserted == ev[id].inserted && e.active == ev[id].active && e.pending == ev[id].pending
    requires e.pri == ev[id].pri
    requires e.internal == ev[id].internal && (e.pending ==> Tag(e.timeout) == Tag(ev[id].timeout))
    ensures Core(ev[id := e], queues, kinds, nactive, ncommon, count, countActive)
  {
    hide Counted, CountAll, Count, EventOk, KindsOk, Members, With, Without;
    SameMembers(ev, queues, id, e);
    KindIn(queues, kinds, nactive, ncommon, Inserted, []);
    KindIn(queues, kinds, nactive, ncommon, Inserted, queues[Inserted]);
    assert queues[Inserted := queues[Inserted]] == queues;
    CountedChange(ev, ev[id := e], queues, kinds, nactive, ncommon, count, countActive, Inserted, queues[Inserted]);
    CountSame(ev, ev[id := e], queues[Inserted]);
  }

  /** Every queue of a base. */
  ghost function AllKinds(nactive: nat, ncommon: nat): (kinds: seq<Queue>)
  {
    [Inserted, Heap] + seq(nactive, p requires 0 <= p => Active(p)) + seq(ncommon, i requires 0 <= i => Common(i))
  }

  lemma AllKindsOk(queues: Queues, nactive: nat, ncommon: nat)
    requires forall q :: q in queues <==> ValidKind(q, nactive, ncommon)
    ensures KindsOk(queues, AllKinds(nactive, ncommon), nactive, ncommon)
  {
    var kinds := AllKinds(nactive, ncommon);
    forall q ensures q in kinds <==> ValidKind(q, nactive, ncommon) {
      match q {
        case Inserted => assert kinds[0] == q;
        case Heap => assert kinds[1] == q;
        case Active(p) => if p < nactive { assert kinds[2 + p] == q; }
        case Common(i) => if i < ncommon { assert kinds[2 + nactive + i] == q; }
      }
    }
  }
}
