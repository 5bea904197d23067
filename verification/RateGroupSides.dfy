/**
 Reading and writing of a rate-limit group together: one set of locks, one list of members, one timer.  For each
 side, every step is a step of the protocol of RateGroup, or none.
 */
module RateGroupSides {
  import opened Basics
  import opened TokenBucket
  import opened RateGroup

  datatype Side = Reading | Writing

  /** What a group and its members have twice */
  datatype Half = Half(suspended: bool, pending: bool, bit: set<Member>, missed: set<Member>)

  /** What a thread is in the middle of, with read_suspended and write_suspended as it has found them */
  datatype Task = Joins(m: Member, suspendRead: bool, suspendWrite: bool) | Leaves(m: Member)

  /** What _bev_group_refill_callback is still to do, about writing; and the bucket before */
  datatype Rest = Rest(was: Bucket, tick: nat, minShare: nat)

  /** The walk that is going on, if there is one, is for that side. */
  datatype Group = Group(members: seq<Member>, read: Half, write: Half, cfg: Cfg, bucket: Bucket,
                         lock: map<Member, (Thread, nat)>, holder: Option<Thread>, walk: Walk, side: Side,
                         tasks: map<Thread, Task>, freed: set<Member>, rest: Option<Rest>)
  {
    function Of(side: Side): (h: Half) {
      if side.Reading? then read else write
    }

    function With(side: Side, h: Half): (g: Group) {
      if side.Reading? then this.(read := h) else this.(write := h)
    }

    function Limit(side: Side): (limit: int) {
      if side.Reading? then bucket.read else bucket.write
    }
  }

  /** A step; the side matters only where a step is about one side. */
  datatype Move = Move(a: Action, side: Side)

  predicate Shared(a: Action)
  {
    !(a.GetMax? || a.Decrement? || a.Refill? || a.Visit?)
  }

  predicate Has(g: Group, t: Thread, m: Member)
  {
    m in g.lock && g.lock[m].0 == t
  }

  /** EVLOCK_TRY_LOCK would get it. */
  predicate Free(g: Group, t: Thread, m: Member)
  {
    m in g.lock ==> g.lock[m].0 == t
  }

  /** The thread has the group's lock, and is not in a loop, nor in the refill callback. */
  predicate AtLeisure(g: Group, t: Thread)
  {
    t !in g.tasks && g.holder == Some(t) && g.walk.NoWalk? && g.rest.None?
  }

  predicate Allowed(g: Group, mv: Move)
  {
    match mv.a
    case LockMember(t, m) => t !in g.tasks && g.holder != Some(t) && Free(g, t, m)
    case UnlockMember(t, m) => t !in g.tasks && g.holder != Some(t) && Has(g, t, m)
    case LockGroup(t) => t !in g.tasks && g.holder.None?
    case UnlockGroup(t) => g.holder == Some(t) && g.walk.NoWalk? && g.rest.None?
    case AddMember(t, m) => AtLeisure(g, t) && Has(g, t, m) && m !in g.members && m !in g.freed
    case FinishAdd(t) => t in g.tasks && g.tasks[t].Joins? && g.holder != Some(t)
    case RemoveMember(t, m, _) => AtLeisure(g, t) && Has(g, t, m) && m in g.members
    case FinishRemove(t) => t in g.tasks && g.tasks[t].Leaves? && g.holder != Some(t)
    case GetMax(t, m) => AtLeisure(g, t) && Has(g, t, m) && m in g.members
    case Decrement(t, bytes, first) =>
      && AtLeisure(g, t) && (g.members == [] || first < |g.members|) && SSIZE_MIN <= g.Limit(mv.side) - bytes
    case Refill(t, tick, minShare, first) =>
      && t !in g.tasks && g.holder == Some(t) && g.walk.NoWalk? && (g.members == [] || first < |g.members|)
      && tick < TWO32
      && if mv.side.Reading? then g.rest.None?
         else g.rest.Some? && g.rest.value.tick == tick && g.rest.value.minShare == minShare
    case Visit(t) => g.holder == Some(t) && !g.walk.NoWalk? && g.side == mv.side
  }

  /** _bev_group_suspend_reading and _bev_group_suspend_writing, up to their loops */
  function Suspend(g: Group, side: Side): (g': Group)
  {
    g.With(side, g.Of(side).(suspended := true, pending := false, missed := {})).(
      walk := Suspending(g.members), side := side)
  }

  /** _bev_group_unsuspend_reading and _bev_group_unsuspend_writing, up to their loops */
  function Unsuspend(g: Group, side: Side, first: nat): (g': Group)
  {
    g.With(side, g.Of(side).(suspended := false, missed := {})).(
      walk := Unsuspending(RandomOrder(g.members, first), false), side := side)
  }

  /** One turn of a loop, or its end */
  function Visited(g: Group, t: Thread): (g': Group)
    requires !g.walk.NoWalk?
  {
    var side, h := g.side, g.Of(g.side);
    match g.walk
    case Suspending(todo) =>
      if todo == [] then g.(walk := NoWalk)
      else
        var h' := if Free(g, t, todo[0]) then h.(bit := h.bit + {todo[0]}) else h.(missed := h.missed + {todo[0]});
        g.With(side, h').(walk := Suspending(todo[1..]))
    case Unsuspending(todo, again) =>
      if todo == [] then g.With(side, h.(pending := again)).(walk := NoWalk)
      else if Free(g, t, todo[0])
        then g.With(side, h.(bit := h.bit - {todo[0]})).(walk := Unsuspending(todo[1..], again))
      else g.(walk := Unsuspending(todo[1..], true))
  }

  /** The group after a step */
  function Moved(g: Group, mv: Move): (g': Group)
    requires Allowed(g, mv)
  {
    var side, h := mv.side, g.Of(mv.side);
    match mv.a
    case LockMember(t, m) => g.(lock := g.lock[m := (t, if m in g.lock then g.lock[m].1 + 1 else 1)])
    case UnlockMember(t, m) => g.(lock := if g.lock[m].1 > 1 then g.lock[m := (t, g.lock[m].1 - 1)] else g.lock - {m})
    case LockGroup(t) => g.(holder := Some(t))
    case UnlockGroup(t) => g.(holder := None)
    case AddMember(t, m) =>
      g.(members := g.members + [m], tasks := g.tasks[t := Joins(m, g.read.suspended, g.write.suspended)])
    case FinishAdd(t) =>
      var j := g.tasks[t];
      g.(read := g.read.(bit := if j.suspendRead then g.read.bit + {j.m} else g.read.bit),
         write := g.write.(bit := if j.suspendWrite then g.write.bit + {j.m} else g.write.bit),
         tasks := g.tasks - {t})
    case RemoveMember(t, m, unsuspend) =>
      var g1 := g.(members := AllBut(g.members, m));
      if unsuspend then g1.(tasks := g1.tasks[t := Leaves(m)]) else g1.(freed := g1.freed + {m})
    case FinishRemove(t) =>
      var m := g.tasks[t].m;
      g.(read := g.read.(bit := g.read.bit - {m}), write := g.write.(bit := g.write.bit - {m}), tasks := g.tasks - {t})
    case GetMax(t, m) => if h.suspended then g.With(side, h.(bit := h.bit + {m}, missed := h.missed - {m})) else g
    case Decrement(t, bytes, first) =>
      var b := if side.Reading? then g.bucket.(read := g.bucket.read - bytes)
        else g.bucket.(write := g.bucket.write - bytes);
      var g1 := g.(bucket := b);
      if g1.Limit(side) <= 0 then Suspend(g1, side)
      else if h.suspended then Unsuspend(g1, side, first)
      else g1
    case Refill(t, tick, minShare, first) =>
      var g1 := if side.Reading?
        then g.(bucket := Updated(g.bucket, g.cfg, tick), rest := Some(Rest(g.bucket, tick, minShare)))
        else g.(rest := None);
      if h.pending || (h.suspended && g1.Limit(side) >= minShare) then Unsuspend(g1, side, first) else g1
    case Visit(t) => Visited(g, t)
  }

  // ----- each side for itself

  function Seen(task: Task, side: Side): (d: Doing)
  {
    match task
    case Joins(m, r, w) => Adding(m, if side.Reading? then r else w)
    case Leaves(m) => Removing(m)
  }

  function AllSeen(tasks: map<Thread, Task>, side: Side): (doing: map<Thread, Doing>)
    ensures doing.Keys == tasks.Keys
  {
    map t | t in tasks :: Seen(tasks[t], side)
  }

  lemma SeenPut(tasks: map<Thread, Task>, side: Side, t: Thread, task: Task)
    ensures AllSeen(tasks[t := task], side) == AllSeen(tasks, side)[t := Seen(task, side)]
    ensures AllSeen(tasks - {t}, side) == AllSeen(tasks, side) - {t}
  {}

  /**
   The group as the protocol has it for one side.  Writing gets the refill only when the callback comes to it;
   until then nobody else can look.
   */
  function View(g: Group, side: Side): (s: State)
  {
    var h := g.Of(side);
    var b := if side.Writing? && g.rest.Some? then g.rest.value.was else g.bucket;
    State(g.members, h.suspended, h.pending, if side.Reading? then g.cfg.read else g.cfg.write,
          if side.Reading? then b.read else b.write, b.lastUpdated, h.bit, h.missed, g.lock, g.holder,
          if g.side == side then g.walk else NoWalk, AllSeen(g.tasks, side), g.freed)
  }

  /** While the callback is not done, the bucket is the old one with the ticks added. */
  ghost predicate RestOk(g: Group)
  {
    g.rest.Some? ==> g.bucket == Updated(g.rest.value.was, g.cfg, g.rest.value.tick)
  }

  /** A step that is not about this side does nothing to it. */
  predicate Concerns(mv: Move, side: Side)
  {
    Shared(mv.a) || mv.side == side
  }

  /** For one side the step is what the protocol does, or, if it is about the other side, nothing. */
  ghost predicate Follows(g: Group, mv: Move, side: Side)
    requires Allowed(g, mv)
  {
    && RestOk(Moved(g, mv))
    && if Concerns(mv, side)
       then Enabled(View(g, side), mv.a) && Next(View(g, side), mv.a) == View(Moved(g, mv), side)
       else View(Moved(g, mv), side) == View(g, side)
  }

  lemma LockSeen(g: Group, t: Thread, m: Member, of: Side, side: Side)
    requires Allowed(g, Move(LockMember(t, m), of)) && RestOk(g)
    ensures Follows(g, Move(LockMember(t, m), of), side)
  {
    hide Updated, AllSeen, RandomOrder;
  }

  lemma UnlockSeen(g: Group, t: Thread, m: Member, of: Side, side: Side)
    requires Allowed(g, Move(UnlockMember(t, m), of)) && RestOk(g)
    ensures Follows(g, Move(UnlockMember(t, m), of), side)
  {
    hide Updated, AllSeen, RandomOrder;
  }

  lemma LockGroupSeen(g: Group, t: Thread, of: Side, side: Side)
    requires RestOk(g)
    ensures Allowed(g, Move(LockGroup(t), of)) ==> Follows(g, Move(LockGroup(t), of), side)
    ensures Allowed(g, Move(UnlockGroup(t), of)) ==> Follows(g, Move(UnlockGroup(t), of), side)
  {
    hide Updated, AllSeen, RandomOrder;
  }

  lemma AddSeen(g: Group, t: Thread, m: Member, of: Side, side: Side)
    requires Allowed(g, Move(AddMember(t, m), of)) && RestOk(g)
    ensures Follows(g, Move(AddMember(t, m), of), side)
  {
    hide Updated, AllSeen, RandomOrder;
    SeenPut(g.tasks, side, t, Joins(m, g.read.suspended, g.write.suspended));
  }

  lemma FinishAddSeen(g: Group, t: Thread, of: Side, side: Side)
    requires Allowed(g, Move(FinishAdd(t), of)) && RestOk(g)
    ensures Follows(g, Move(FinishAdd(t), of), side)
  {
    hide Updated, RandomOrder;
    SeenPut(g.tasks, side, t, g.tasks[t]);
    assert AllSeen(g.tasks, side)[t] == Seen(g.tasks[t], side);
  }

  lemma RemoveSeen(g: Group, t: Thread, m: Member, unsuspend: bool, of: Side, side: Side)
    requires Allowed(g, Move(RemoveMember(t, m, unsuspend), of)) && RestOk(g)
    ensures Follows(g, Move(RemoveMember(t, m, unsuspend), of), side)
  {
    hide Updated, AllSeen, RandomOrder, AllBut;
    SeenPut(g.tasks, side, t, Leaves(m));
  }

  lemma FinishRemoveSeen(g: Group, t: Thread, of: Side, side: Side)
    requires Allowed(g, Move(FinishRemove(t), of)) && RestOk(g)
    ensures Follows(g, Move(FinishRemove(t), of), side)
  {
    hide Updated, RandomOrder;
    SeenPut(g.tasks, side, t, g.tasks[t]);
    assert AllSeen(g.tasks, side)[t] == Seen(g.tasks[t], side);
  }

  lemma GetMaxSeen(g: Group, t: Thread, m: Member, of: Side, side: Side)
    requires Allowed(g, Move(GetMax(t, m), of)) && RestOk(g)
    ensures Follows(g, Move(GetMax(t, m), of), side)
  {
    hide Updated, AllSeen, RandomOrder;
  }

  lemma DecrementSeen(g: Group, t: Thread, bytes: nat, first: nat, of: Side)
    requires Allowed(g, Move(Decrement(t, bytes, first), of)) && RestOk(g)
    ensures Follows(g, Move(Decrement(t, bytes, first), of), of)
  {
    hide Updated, AllSeen, RandomOrder;
  }

  lemma RefillSeen(g: Group, t: Thread, tick: nat, minShare: nat, first: nat, of: Side, side: Side)
    requires Allowed(g, Move(Refill(t, tick, minShare, first), of)) && RestOk(g)
    ensures Follows(g, Move(Refill(t, tick, minShare, first), of), side)
  {
    hide AllSeen, RandomOrder, Refilled;
  }

  lemma OtherDecrement(g: Group, t: Thread, bytes: nat, first: nat, of: Side, side: Side)
    requires Allowed(g, Move(Decrement(t, bytes, first), of)) && RestOk(g) && of != side
    ensures Follows(g, Move(Decrement(t, bytes, first), of), side)
  {
    hide Updated, AllSeen, RandomOrder;
  }

  /** A walk touches only the half that it is for. */
  lemma VisitedIs(g: Group, t: Thread)
    requires !g.walk.NoWalk?
    ensures Visited(g, t) == g.With(g.side, Visited(g, t).Of(g.side)).(walk := Visited(g, t).walk)
  {}

  lemma OtherVisit(g: Group, t: Thread, side: Side)
    requires Allowed(g, Move(Visit(t), g.side)) && RestOk(g) && g.side != side
    ensures Follows(g, Move(Visit(t), g.side), side)
  {
    hide Updated, AllSeen, RandomOrder, Visited;
    VisitedIs(g, t);
  }

  lemma SuspendEndSeen(g: Group, t: Thread)
    requires Allowed(g, Move(Visit(t), g.side)) && RestOk(g) && g.walk.Suspending? && g.walk.todo == []
    ensures Follows(g, Move(Visit(t), g.side), g.side)
  {
    hide Updated, AllSeen, RandomOrder;
  }

  lemma SuspendTurnSeen(g: Group, t: Thread)
    requires Allowed(g, Move(Visit(t), g.side)) && RestOk(g) && g.walk.Suspending? && g.walk.todo != []
    ensures Follows(g, Move(Visit(t), g.side), g.side)
  {
    hide Updated, AllSeen, RandomOrder;
    assert CanLock(View(g, g.side), t, g.walk.todo[0]) <==> Free(g, t, g.walk.todo[0]);
  }

  lemma UnsuspendEndSeen(g: Group, t: Thread)
    requires Allowed(g, Move(Visit(t), g.side)) && RestOk(g) && g.walk.Unsuspending? && g.walk.todo == []
    ensures Follows(g, Move(Visit(t), g.side), g.side)
  {
    hide Updated, AllSeen, RandomOrder;
  }

  lemma UnsuspendTurnSeen(g: Group, t: Thread)
    requires Allowed(g, Move(Visit(t), g.side)) && RestOk(g) && g.walk.Unsuspending? && g.walk.todo != []
    ensures Follows(g, Move(Visit(t), g.side), g.side)
  {
    hide Updated, AllSeen, RandomOrder;
    assert CanLock(View(g, g.side), t, g.walk.todo[0]) <==> Free(g, t, g.walk.todo[0]);
  }

  lemma IsTurn(g: Group, mv: Move)
    requires Allowed(g, mv) && mv.a.Visit?
    ensures !g.walk.NoWalk? && g.side == mv.side
  {}

  lemma MoveSeen(g: Group, mv: Move, side: Side)
    requires Allowed(g, mv) && RestOk(g)
    ensures Follows(g, mv, side)
  {
    hide Follows, RestOk, Allowed, Moved;
    match mv.a {
      case AddMember(t, m) => AddSeen(g, t, m, mv.side, side);
      case FinishAdd(t) => FinishAddSeen(g, t, mv.side, side);
      case RemoveMember(t, m, unsuspend) => RemoveSeen(g, t, m, unsuspend, mv.side, side);
      case FinishRemove(t) => FinishRemoveSeen(g, t, mv.side, side);
      case GetMax(t, m) => GetMaxSeen(g, t, m, mv.side, side);
      case Decrement(t, bytes, first) =>
        if mv.side == side {
          DecrementSeen(g, t, bytes, first, side);
        } else {
          OtherDecrement(g, t, bytes, first, mv.side, side);
        }
      case Refill(t, tick, minShare, first) => RefillSeen(g, t, tick, minShare, first, mv.side, side);
      case Visit(t) =>
        IsTurn(g, mv);
        if g.side != side {
          OtherVisit(g, t, side);
        } else if g.walk.Suspending? && g.walk.todo == [] {
          SuspendEndSeen(g, t);
        } else if g.walk.Suspending? {
          SuspendTurnSeen(g, t);
        } else if g.walk.todo == [] {
          UnsuspendEndSeen(g, t);
        } else {
          UnsuspendTurnSeen(g, t);
        }
      case LockMember(t, m) => LockSeen(g, t, m, mv.side, side);
      case UnlockMember(t, m) => UnlockSeen(g, t, m, mv.side, side);
      case LockGroup(t) => LockGroupSeen(g, t, mv.side, side);
      case UnlockGroup(t) => LockGroupSeen(g, t, mv.side, side);
    }
  }

  // ----- runs

  /** The state after the first n steps */
  ghost function Reached(g: Group, mvs: seq<Move>, n: nat): (g': Option<Group>)
    requires n <= |mvs|
  {
    if n == 0 then Some(g)
    else match Reached(g, mvs, n - 1)
      case None => None
      case Some(g1) => if Allowed(g1, mvs[n - 1]) then Some(Moved(g1, mvs[n - 1])) else None
  }

  /** No thread has done anything yet. */
  ghost predicate Fresh(g: Group)
  {
    && g.cfg.Ok() && g.bucket == Bucket(g.cfg.read.rate, g.cfg.write.rate, g.bucket.lastUpdated)
    && g.bucket.lastUpdated < TWO32
    && g.members == [] && g.read == g.write == Half(false, false, {}, {}) && g.lock == map[] && g.holder.None?
    && g.walk.NoWalk? && g.tasks == map[] && g.freed == {} && g.rest.None?
  }

  /** A member is suspended for a side, or the thread that is adding it is about to do that. */
  ghost predicate Waits(g: Group, side: Side, m: Member)
  {
    m in g.Of(side).bit || exists t :: t in g.tasks && Seen(g.tasks[t], side) == Adding(m, true)
  }

  lemma WaitsIs(g: Group, side: Side, m: Member)
    ensures Waits(g, side, m) <==> Carries(View(g, side), m)
  {
    var v := View(g, side);
    if exists t :: t in g.tasks && Seen(g.tasks[t], side) == Adding(m, true) {
      var t :| t in g.tasks && Seen(g.tasks[t], side) == Adding(m, true);
      assert t in v.doing && v.doing[t] == Adding(m, true);
    }
    if exists t :: t in v.doing && v.doing[t] == Adding(m, true) {
      var t :| t in v.doing && v.doing[t] == Adding(m, true);
      assert Seen(g.tasks[t], side) == Adding(m, true);
    }
  }

  lemma FreshInit(g: Group, side: Side)
    requires Fresh(g)
    ensures Init(View(g, side)) && RestOk(g)
  {}

  lemma BothKept(g: Group, mv: Move, side: Side)
    requires Allowed(g, mv) && RestOk(g) && Inv(View(g, side))
    ensures RestOk(Moved(g, mv)) && Inv(View(Moved(g, mv), side))
  {
    hide Moved, View, RestOk, Inv, Next, Allowed;
    MoveSeen(g, mv, side);
    if Concerns(mv, side) { StepInv(View(g, side), mv.a); }
  }

  /**
   In every state of every run, for reading and for writing alike: an overdrawn group is suspended, and while nobody
   has the group's lock, a suspended member is one that somebody will come for.
   */
  lemma {:induction false} EveryRunBoth(g: Group, mvs: seq<Move>, n: nat, side: Side)
    requires Fresh(g) && n <= |mvs| && Reached(g, mvs, n).Some?
    ensures var g' := Reached(g, mvs, n).value; var h := g'.Of(side);
      && RestOk(g') && Inv(View(g', side)) && (h.pending ==> !h.suspended)
      && (g'.rest.None? && g'.Limit(side) < 0 ==> h.suspended)
      && (g'.walk.NoWalk? && h.suspended ==> forall m :: m in g'.members ==> Waits(g', side, m) || m in h.missed)
      && (g'.holder.None? ==> forall m :: m in g'.members && Waits(g', side, m) ==> h.suspended || h.pending)
  {
    hide Moved, RestOk, Next, Allowed, Waits, Carries, Fresh;
    if n == 0 {
      FreshInit(g, side);
      InitInv(View(g, side));
    } else {
      EveryRunBoth(g, mvs, n - 1, side);
      BothKept(Reached(g, mvs, n - 1).value, mvs[n - 1], side);
    }
    var g' := Reached(g, mvs, n).value;
    forall m ensures Waits(g', side, m) <==> Carries(View(g', side), m) { WaitsIs(g', side, m); }
  }
}
