/**
 The protocol by which threads suspend and resume the members of a rate-limit group, for one side: reading or
 writing.  Members are locked before the group, so a walk over the members, which runs with the group locked,
 only tries their locks, and passes over those it does not get.
 */
module RateGroup {
  import opened Basics
  import opened TokenBucket

  type Thread = nat
  type Member = nat

  /** What a thread is in the middle of, the group's lock given back: adding or removing a member that it has locked */
  datatype Doing = Adding(m: Member, suspend: bool) | Removing(m: Member)

  /** The loop that the holder of the group's lock is in, with the members still to be visited */
  datatype Walk = NoWalk | Suspending(todo: seq<Member>) | Unsuspending(todo: seq<Member>, again: bool)

  /**
   struct bufferevent_rate_limit_group and the locks, bits and program points that the protocol is about; and, for the
   record, the members that the last suspending walk has missed and that have not asked for their grant since
   */
  datatype State = State(members: seq<Member>, suspended: bool, pending: bool, rate: Rate, limit: int,
                         lastUpdated: nat, bit: set<Member>, missed: set<Member>, lock: map<Member, (Thread, nat)>,
                         group: Option<Thread>, walk: Walk, doing: map<Thread, Doing>, freed: set<Member>)

  /** One step of one thread. */
  datatype Action =
    | LockMember(t: Thread, m: Member)
    | UnlockMember(t: Thread, m: Member)
    | LockGroup(t: Thread)
    | UnlockGroup(t: Thread)
    | AddMember(t: Thread, m: Member)
    | FinishAdd(t: Thread)
    | RemoveMember(t: Thread, m: Member, unsuspend: bool)
    | FinishRemove(t: Thread)
    | GetMax(t: Thread, m: Member)
    | Decrement(t: Thread, bytes: nat, first: nat)
    | Refill(t: Thread, tick: nat, minShare: nat, first: nat)
    | Visit(t: Thread)

  predicate Holds(s: State, t: Thread, m: Member)
  {
    m in s.lock && s.lock[m].0 == t
  }

  /** EVLOCK_TRY_LOCK on a recursive lock */
  predicate CanLock(s: State, t: Thread, m: Member)
  {
    m in s.lock ==> s.lock[m].0 == t
  }

  predicate HoldsGroup(s: State, t: Thread)
  {
    s.group == Some(t)
  }

  /** The order of FOREACH_RANDOM_ORDER: from the first one to the end, then from the start up to the first one */
  function RandomOrder(members: seq<Member>, first: nat): (order: seq<Member>)
  {
    if first < |members| then members[first..] + members[..first] else members
  }

  /** Whether an action can be taken now: locks are free or held, and a thread does one thing at a time. */
  predicate Enabled(s: State, a: Action)
  {
    match a
    case LockMember(t, m) => t !in s.doing && !HoldsGroup(s, t) && CanLock(s, t, m)
    case UnlockMember(t, m) => t !in s.doing && !HoldsGroup(s, t) && Holds(s, t, m)
    case LockGroup(t) => t !in s.doing && s.group.None?
    case UnlockGroup(t) => HoldsGroup(s, t) && s.walk.NoWalk?
    case AddMember(t, m) =>
      t !in s.doing && HoldsGroup(s, t) && s.walk.NoWalk? && Holds(s, t, m) && m !in s.members && m !in s.freed
    case FinishAdd(t) => t in s.doing && s.doing[t].Adding? && !HoldsGroup(s, t)
    case RemoveMember(t, m, _) =>
      t !in s.doing && HoldsGroup(s, t) && s.walk.NoWalk? && Holds(s, t, m) && m in s.members
    case FinishRemove(t) => t in s.doing && s.doing[t].Removing? && !HoldsGroup(s, t)
    case GetMax(t, m) => t !in s.doing && HoldsGroup(s, t) && s.walk.NoWalk? && Holds(s, t, m) && m in s.members
    case Decrement(t, bytes, first) =>
      && t !in s.doing && HoldsGroup(s, t) && s.walk.NoWalk? && (s.members == [] || first < |s.members|)
      && SSIZE_MIN <= s.limit - bytes
    case Refill(t, tick, _, first) =>
      && t !in s.doing && HoldsGroup(s, t) && s.walk.NoWalk? && (s.members == [] || first < |s.members|)
      && tick < TWO32
    case Visit(t) => HoldsGroup(s, t) && !s.walk.NoWalk?
  }

  /** _bev_group_suspend_reading, up to its loop */
  function StartSuspend(s: State): (s': State)
  {
    s.(suspended := true, pending := false, missed := {}, walk := Suspending(s.members))
  }

  /** _bev_group_unsuspend_reading, up to its loop */
  function StartUnsuspend(s: State, first: nat): (s': State)
  {
    s.(suspended := false, missed := {}, walk := Unsuspending(RandomOrder(s.members, first), false))
  }

  /** One side of a token bucket, as if it were both */
  function SideBucket(limit: int, lastUpdated: nat): (bucket: Bucket)
  {
    Bucket(limit, limit, lastUpdated)
  }

  function SideCfg(rate: Rate): (cfg: Cfg)
  {
    Cfg(0, rate, rate)
  }

  /** ev_token_bucket_update, for one side */
  function Topped(s: State, tick: nat): (s': State)
  {
    var b := Updated(SideBucket(s.limit, s.lastUpdated), SideCfg(s.rate), tick);
    s.(limit := b.read, lastUpdated := b.lastUpdated)
  }

  /** The state after an action. */
  function Next(s: State, a: Action): (s': State)
    requires Enabled(s, a)
  {
    match a
    case LockMember(t, m) => s.(lock := s.lock[m := (t, if m in s.lock then s.lock[m].1 + 1 else 1)])
    case UnlockMember(t, m) => s.(lock := if s.lock[m].1 > 1 then s.lock[m := (t, s.lock[m].1 - 1)] else s.lock - {m})
    case LockGroup(t) => s.(group := Some(t))
    case UnlockGroup(t) => s.(group := None)
    // bufferevent_add_to_rate_limit_group, with the group locked; then the end of it
    case AddMember(t, m) => s.(members := s.members + [m], doing := s.doing[t := Adding(m, s.suspended)])
    case FinishAdd(t) =>
      s.(bit := if s.doing[t].suspend then s.bit + {s.doing[t].m} else s.bit, doing := s.doing - {t})
    // bufferevent_remove_from_rate_limit_group_internal, with the group locked; then the end of it
    case RemoveMember(t, m, unsuspend) =>
      var s1 := s.(members := AllBut(s.members, m));
      if unsuspend then s1.(doing := s1.doing[t := Removing(m)]) else s1.(freed := s1.freed + {m})
    case FinishRemove(t) => s.(bit := s.bit - {s.doing[t].m}, doing := s.doing - {t})
    // _bufferevent_get_rlim_max
    case GetMax(t, m) => if s.suspended then s.(bit := s.bit + {m}, missed := s.missed - {m}) else s
    // _bufferevent_decrement_read_buckets
    case Decrement(t, bytes, first) =>
      var s1 := s.(limit := s.limit - bytes);
      if s1.limit <= 0 then StartSuspend(s1) else if s1.suspended then StartUnsuspend(s1, first) else s1
    // _bev_group_refill_callback
    case Refill(t, tick, minShare, first) =>
      var s1 := Topped(s, tick);
      if s1.pending || (s1.suspended && s1.limit >= minShare) then StartUnsuspend(s1, first) else s1
    // one turn of a loop, or its end
    case Visit(t) =>
      match s.walk
      case Suspending(todo) =>
        if todo == [] then s.(walk := NoWalk)
        else if CanLock(s, t, todo[0]) then s.(bit := s.bit + {todo[0]}, walk := Suspending(todo[1..]))
        else s.(missed := s.missed + {todo[0]}, walk := Suspending(todo[1..]))
      case Unsuspending(todo, again) =>
        if todo == [] then s.(pending := again, walk := NoWalk)
        else if CanLock(s, t, todo[0]) then s.(bit := s.bit - {todo[0]}, walk := Unsuspending(todo[1..], again))
        else s.(walk := Unsuspending(todo[1..], true))
      case NoWalk => s
  }

  function AllBut(ms: seq<Member>, m: Member): (r: seq<Member>)
    ensures forall x :: x in r <==> x in ms && x != m
    decreases |ms|
  {
    if ms == [] then []
    else if ms[0] == m then AllBut(ms[1..], m)
    else [ms[0]] + AllBut(ms[1..], m)
  }

  /** No thread has done anything yet. */
  ghost predicate Init(s: State)
  {
    && s.rate.Ok() && s.limit == s.rate.rate && s.lastUpdated < TWO32
    && s.members == [] && !s.suspended && !s.pending && s.bit == {} && s.missed == {} && s.lock == map[]
    && s.group.None? && s.walk.NoWalk? && s.doing == map[] && s.freed == {}
  }

  // ----- what every step keeps

  /** A member has its suspend bit, or the thread that is adding it is about to set it. */
  ghost predicate Carries(s: State, m: Member)
  {
    m in s.bit || exists t :: t in s.doing && s.doing[t] == Adding(m, true)
  }

  /** A thread that is adding or removing has that member locked. */
  ghost predicate DoingOk(s: State)
  {
    forall t :: t in s.doing ==> Holds(s, t, s.doing[t].m) && (s.doing[t].Adding? <==> s.doing[t].m in s.members)
  }

  /**
   Somebody will come for every suspended member: the group is suspended, or is to try again, or is being
   walked over right now.
   */
  ghost predicate NobodyStranded(s: State)
  {
    forall m :: m in s.members && Carries(s, m) ==>
      if s.walk.Unsuspending? then m in s.walk.todo || s.walk.again else s.suspended || s.pending
  }

  /** While a group is suspended, every member is, but for those still to be visited and those that were missed. */
  ghost predicate AllSuspended(s: State)
  {
    s.suspended ==> forall m :: m in s.members ==>
      Carries(s, m) || m in s.missed || (s.walk.Suspending? && m in s.walk.todo)
  }

  /** A group that is overdrawn is suspended. */
  ghost predicate Paying(s: State)
  {
    BucketOk(SideBucket(s.limit, s.lastUpdated), SideCfg(s.rate)) && (s.limit < 0 ==> s.suspended)
  }

  ghost predicate Inv(s: State)
  {
    Orderly(s) && AllSuspended(s)
  }

  ghost predicate Orderly(s: State)
  {
    && Paying(s)
    && (s.pending ==> !s.suspended) && (!s.suspended ==> s.missed == {})
    && (!s.walk.NoWalk? ==> s.group.Some? && s.group.value !in s.doing)
    && (!s.walk.NoWalk? ==> forall i :: 0 <= i < |s.walk.todo| ==> s.walk.todo[i] in s.members)
    && (s.walk.Suspending? ==> s.suspended)
    && (s.walk.Unsuspending? ==> !s.suspended)
    && DoingOk(s) && NobodyStranded(s)
    && (forall m :: m in s.lock ==> s.lock[m].1 >= 1)
    && (forall m :: m in s.bit && m !in s.members ==>
      m in s.freed || exists t :: t in s.doing && s.doing[t] == Removing(m))
  }

  lemma InitInv(s: State)
    requires Init(s)
    ensures Inv(s)
  {}

  /** Nothing that Carries depends on changes. */
  lemma SameCarries(s: State, s': State)
    requires s'.bit == s.bit && s'.doing == s.doing
    ensures forall m :: Carries(s', m) <==> Carries(s, m)
  {}

  lemma LocksInv(s: State, a: Action)
    requires Orderly(s) && Enabled(s, a) && (a.LockMember? || a.UnlockMember? || a.LockGroup? || a.UnlockGroup?)
    ensures Orderly(Next(s, a))
  {
    SameCarries(s, Next(s, a));
    if a.UnlockMember? {
      forall t | t in s.doing ensures Holds(Next(s, a), t, s.doing[t].m) {
        assert Holds(s, t, s.doing[t].m);
      }
    }
  }

  /** A member that a thread has locked is not being added or removed by another. */
  lemma DoingAlone(s: State, t: Thread, m: Member)
    requires Orderly(s) && t !in s.doing && Holds(s, t, m)
    ensures forall u :: u in s.doing ==> s.doing[u].m != m
    ensures m in s.bit && m !in s.members ==> m in s.freed
  {
    forall u | u in s.doing ensures s.doing[u].m != m {
      assert Holds(s, u, s.doing[u].m);
    }
  }

  lemma AddInv(s: State, t: Thread, m: Member)
    requires Orderly(s) && Enabled(s, AddMember(t, m))
    ensures Orderly(Next(s, AddMember(t, m)))
  {
    var s' := Next(s, AddMember(t, m));
    DoingAlone(s, t, m);
    forall x | x in s'.members && Carries(s', x) ensures s'.suspended || s'.pending {
      if x != m {
        assert Carries(s, x) by {
          if x !in s'.bit {
            var u :| u in s'.doing && s'.doing[u] == Adding(x, true);
            assert u in s.doing && s.doing[u] == Adding(x, true);
          }
        }
      } else {
        var u :| u in s'.doing && s'.doing[u] == Adding(m, true);
      }
    }
    forall x | x in s'.bit && x !in s'.members
      ensures x in s'.freed || exists u :: u in s'.doing && s'.doing[u] == Removing(x) {
      if x !in s.freed {
        var u :| u in s.doing && s.doing[u] == Removing(x);
        assert u in s'.doing && s'.doing[u] == Removing(x);
      }
    }
  }

  lemma FinishAddInv(s: State, t: Thread)
    requires Orderly(s) && Enabled(s, FinishAdd(t))
    ensures Orderly(Next(s, FinishAdd(t)))
  {
    var s', m := Next(s, FinishAdd(t)), s.doing[t].m;
    assert Holds(s, t, m);
    forall x | Carries(s', x) ensures Carries(s, x) {
      if x !in s'.bit {
        var u :| u in s'.doing && s'.doing[u] == Adding(x, true);
        assert u in s.doing && s.doing[u] == Adding(x, true);
      } else if x !in s.bit {
        assert t in s.doing && s.doing[t] == Adding(x, true);
      }
    }
    forall x | x in s'.bit && x !in s'.members
      ensures x in s'.freed || exists u :: u in s'.doing && s'.doing[u] == Removing(x) {
      if x !in s.freed {
        var u :| u in s.doing && s.doing[u] == Removing(x);
        assert u in s'.doing && s'.doing[u] == Removing(x);
      }
    }
  }

  lemma RemoveInv(s: State, t: Thread, m: Member, unsuspend: bool)
    requires Orderly(s) && Enabled(s, RemoveMember(t, m, unsuspend))
    ensures Orderly(Next(s, RemoveMember(t, m, unsuspend)))
  {
    var s' := Next(s, RemoveMember(t, m, unsuspend));
    DoingAlone(s, t, m);
    forall x | x in s'.members && Carries(s', x) ensures Carries(s, x) {
      if x !in s'.bit {
        var u :| u in s'.doing && s'.doing[u] == Adding(x, true);
        assert u in s.doing && s.doing[u] == Adding(x, true);
      }
    }
    forall x | x in s'.bit && x !in s'.members
      ensures x in s'.freed || exists u :: u in s'.doing && s'.doing[u] == Removing(x) {
      if x == m && unsuspend {
        assert t in s'.doing && s'.doing[t] == Removing(x);
      } else if x != m && x !in s.freed {
        var u :| u in s.doing && s.doing[u] == Removing(x);
        assert u in s'.doing && s'.doing[u] == Removing(x);
      }
    }
  }

  lemma FinishRemoveInv(s: State, t: Thread)
    requires Orderly(s) && Enabled(s, FinishRemove(t))
    ensures Orderly(Next(s, FinishRemove(t)))
  {
    var s', m := Next(s, FinishRemove(t)), s.doing[t].m;
    assert Holds(s, t, m);
    forall x | Carries(s', x) ensures Carries(s, x) {
      if x !in s'.bit {
        var u :| u in s'.doing && s'.doing[u] == Adding(x, true);
        assert u in s.doing && s.doing[u] == Adding(x, true);
      }
    }
    forall x | x in s'.bit && x !in s'.members
      ensures x in s'.freed || exists u :: u in s'.doing && s'.doing[u] == Removing(x) {
      if x !in s.freed {
        var u :| u in s.doing && s.doing[u] == Removing(x);
        assert u in s'.doing && s'.doing[u] == Removing(x);
      }
    }
  }

  lemma PayingStep(s: State, a: Action)
    requires Paying(s) && (s.pending ==> !s.suspended) && Enabled(s, a) && (a.GetMax? || a.Decrement? || a.Refill?)
    ensures Paying(Next(s, a))
  {
    hide Updated;
    if a.Refill? { UpdatedOk(SideBucket(s.limit, s.lastUpdated), SideCfg(s.rate), a.tick); }
  }

  lemma GroupInv(s: State, a: Action)
    requires Orderly(s) && Enabled(s, a) && (a.GetMax? || a.Decrement? || a.Refill?)
    ensures Orderly(Next(s, a))
  {
    hide Updated, BucketOk, RandomOrder, Paying;
    var s' := Next(s, a);
    PayingStep(s, a);
    if !a.GetMax? { SameCarries(s, s'); }
    if s'.walk.Unsuspending? { OrderHasAll(s.members, a.first); }
  }

  lemma OrderHasAll(members: seq<Member>, first: nat)
    ensures forall m :: m in members ==> m in RandomOrder(members, first)
    ensures forall i :: 0 <= i < |RandomOrder(members, first)| ==> RandomOrder(members, first)[i] in members
  {
    if first < |members| {
      assert members == members[..first] + members[first..];
    }
  }

  /** A member whose lock is not got is remembered; one whose lock is got is not being added. */
  lemma VisitInv(s: State, t: Thread)
    requires Orderly(s) && Enabled(s, Visit(t))
    ensures Orderly(Next(s, Visit(t)))
  {
    var s' := Next(s, Visit(t));
    if s.walk.todo == [] {
      SameCarries(s, s');
    } else {
      var m := s.walk.todo[0];
      var rest := s.walk.todo[1..];
      assert forall i :: 0 <= i < |rest| ==> rest[i] == s.walk.todo[i + 1];
      assert forall x :: x in s.walk.todo ==> x == m || x in rest;
      if s.walk.Unsuspending? && CanLock(s, t, m) {
        forall x | Carries(s', x) ensures Carries(s, x) {}
        forall u | u in s.doing ensures Holds(s, u, s.doing[u].m) {}
      }
    }
  }

  /** Whoever carries on, carries on, but for those whose bit is taken. */
  lemma StillCarries(s: State, a: Action, m: Member)
    requires Orderly(s) && Enabled(s, a) && s.suspended && Next(s, a).suspended && m in Next(s, a).members
    requires Carries(s, m)
    ensures Carries(Next(s, a), m)
  {
    hide Updated, RandomOrder, AllBut, Paying, NobodyStranded;
    var s' := Next(s, a);
    if a.FinishRemove? { assert Holds(s, a.t, s.doing[a.t].m); }
    if m !in s.bit {
      var u :| u in s.doing && s.doing[u] == Adding(m, true);
      if u in s'.doing { assert s'.doing[u] == Adding(m, true); }
    }
  }

  lemma SuspendedStep(s: State, a: Action)
    requires Inv(s) && Enabled(s, a)
    ensures AllSuspended(Next(s, a))
  {
    var s' := Next(s, a);
    if s'.suspended {
      forall m | m in s'.members
        ensures Carries(s', m) || m in s'.missed || (s'.walk.Suspending? && m in s'.walk.todo) {
        if a.AddMember? && m == a.m {
          assert a.t in s'.doing && s'.doing[a.t] == Adding(m, true);
        } else if s.suspended {
          if Carries(s, m) { StillCarries(s, a, m); }
        }
      }
    }
  }

  lemma StepInv(s: State, a: Action)
    requires Inv(s) && Enabled(s, a)
    ensures Inv(Next(s, a))
  {
    hide Enabled, Next, AllSuspended, Orderly;
    SuspendedStep(s, a);
    match a {
      case AddMember(t, m) => AddInv(s, t, m);
      case FinishAdd(t) => FinishAddInv(s, t);
      case RemoveMember(t, m, unsuspend) => RemoveInv(s, t, m, unsuspend);
      case FinishRemove(t) => FinishRemoveInv(s, t);
      case Visit(t) => VisitInv(s, t);
      case GetMax(_, _) => GroupInv(s, a);
      case Decrement(_, _, _) => GroupInv(s, a);
      case Refill(_, _, _, _) => GroupInv(s, a);
      case _ => LocksInv(s, a);
    }
  }

  // ----- runs

  /** The state after the first n actions. */
  ghost function After(s: State, acts: seq<Action>, n: nat): (s': Option<State>)
    requires n <= |acts|
  {
    if n == 0 then Some(s)
    else match After(s, acts, n - 1)
      case None => None
      case Some(s1) => if Enabled(s1, acts[n - 1]) then Some(Next(s1, acts[n - 1])) else None
  }

  /**
   In every state of every run, a suspended member is one that somebody will come for; and a group that is to
   try again is not suspended.
   */
  lemma {:induction false} EveryRun(s: State, acts: seq<Action>, n: nat)
    requires Init(s) && n <= |acts| && After(s, acts, n).Some?
    ensures var s' := After(s, acts, n).value;
      && Inv(s') && (s'.pending ==> !s'.suspended) && (s'.limit < 0 ==> s'.suspended)
      && (s'.group.None? ==> forall m :: m in s'.members && Carries(s', m) ==> s'.suspended || s'.pending)
  {
    if n == 0 {
      InitInv(s);
    } else {
      EveryRun(s, acts, n - 1);
      StepInv(After(s, acts, n - 1).value, acts[n - 1]);
    }
  }

  /** Why a member is missed: a walk has come by while another thread had it locked. */
  ghost predicate PassedOver(s: State, a: Action, m: Member)
  {
    && a.Visit? && s.walk.Suspending? && s.walk.todo != [] && s.walk.todo[0] == m
    && m in s.lock && s.lock[m].0 != a.t
  }

  /** No action from i up to n is a member's asking for its grant. */
  ghost predicate NotAsked(acts: seq<Action>, i: nat, n: nat, m: Member)
    requires n <= |acts|
  {
    forall k :: i <= k < n ==> !(acts[k].GetMax? && acts[k].m == m)
  }

  ghost predicate PassedOverAt(s: State, acts: seq<Action>, k: nat, m: Member)
    requires k < |acts|
  {
    After(s, acts, k).Some? && PassedOver(After(s, acts, k).value, acts[k], m)
  }

  /**
   A member is missed only if a walk has passed over it because of its lock, and it has not asked for its grant
   since.
   */
  lemma {:induction false} MissedIs(s: State, acts: seq<Action>, n: nat, m: Member)
    requires Init(s) && n <= |acts| && After(s, acts, n).Some? && m in After(s, acts, n).value.missed
    ensures exists k :: 0 <= k < n && PassedOverAt(s, acts, k, m) && NotAsked(acts, k + 1, n, m)
  {
    hide Enabled, Next;
    var s1, a := After(s, acts, n - 1).value, acts[n - 1];
    EveryRun(s, acts, n - 1);
    MissedStep(s1, a, m);
    if PassedOver(s1, a, m) {
      assert PassedOverAt(s, acts, n - 1, m) && NotAsked(acts, n, n, m);
    } else {
      MissedIs(s, acts, n - 1, m);
      var k :| 0 <= k < n - 1 && PassedOverAt(s, acts, k, m) && NotAsked(acts, k + 1, n - 1, m);
      assert NotAsked(acts, k + 1, n, m);
    }
  }

  lemma MissedStep(s: State, a: Action, m: Member)
    requires Enabled(s, a) && m in Next(s, a).missed && (!s.suspended ==> s.missed == {})
    ensures PassedOver(s, a, m) || (m in s.missed && !(a.GetMax? && a.m == m))
  {
    hide Updated, RandomOrder, AllBut;
  }

  /**
   In every run, when a suspending walk is over and the group still suspended, every member carries its bit, but for
   those that the walk passed over because another thread had them locked, and that have not asked for their
   grant since.
   */
  lemma WalkSuspends(s: State, acts: seq<Action>, n: nat, m: Member)
    requires Init(s) && n <= |acts| && After(s, acts, n).Some?
    requires var s' := After(s, acts, n).value; s'.suspended && s'.walk.NoWalk? && m in s'.members
    ensures Carries(After(s, acts, n).value, m)
      || exists k :: 0 <= k < n && PassedOverAt(s, acts, k, m) && NotAsked(acts, k + 1, n, m)
  {
    hide Enabled, Next, Orderly, Carries;
    EveryRun(s, acts, n);
    if !Carries(After(s, acts, n).value, m) { MissedIs(s, acts, n, m); }
  }

  /** A turn of the suspending walk: the member gets its bit, or another thread has it locked. */
  lemma TurnSuspends(s: State, t: Thread)
    requires Enabled(s, Visit(t)) && s.walk.Suspending? && s.walk.todo != []
    ensures var m, s' := s.walk.todo[0], Next(s, Visit(t));
      && s'.walk == Suspending(s.walk.todo[1..]) && s'.bit - {m} == s.bit - {m}
      && (m in s'.bit || (m in s.lock && s.lock[m].0 != t && m in s'.missed))
  {}

  /** A member of a suspended group that asks for its grant is suspended by that. */
  lemma GrantSuspends(s: State, t: Thread, m: Member)
    requires Enabled(s, GetMax(t, m)) && s.suspended
    ensures var s' := Next(s, GetMax(t, m)); m in s'.bit && m !in s'.missed && s'.suspended
  {}

  /** A walk that gets every lock leaves nobody suspended. */
  lemma NobodyLeft(s: State, t: Thread)
    requires Inv(s) && Enabled(s, Visit(t)) && s.walk == Unsuspending([], false)
    ensures var s' := Next(s, Visit(t)); !s'.suspended && !s'.pending && forall m :: m in s'.members ==> !Carries(s', m)
  {
    SameCarries(s, Next(s, Visit(t)));
    forall m | m in s.members ensures !Carries(s, m) {
      assert m !in s.walk.todo;
    }
  }

  // ----- what the group gives

  /** Payment: the limit goes down by the bytes, and the group is suspended exactly if nothing is left. */
  lemma DecrementIs(s: State, t: Thread, bytes: nat, first: nat)
    requires Enabled(s, Decrement(t, bytes, first))
    ensures var s' := Next(s, Decrement(t, bytes, first));
      && s'.limit == s.limit - bytes && (s'.suspended <==> s.limit - bytes <= 0)
      && (s.limit <= bytes ==> s'.walk == Suspending(s.members))
      && (s.limit > bytes && s.suspended ==> s'.walk.Unsuspending? && multiset(s'.walk.todo) == multiset(s.members))
      && (s.limit > bytes && !s.suspended ==> s'.walk.NoWalk?)
  {
    hide RandomOrder;
    OrderCounts(s.members, first);
  }

  /** How many ticks a refill counts: none, if the clock seems to have gone back */
  ghost function Ticks(tick: nat, last: nat): (n: nat)
  {
    var n := (tick - last) % 0x1_0000_0000;
    if n <= 0x7FFF_FFFF then n else 0
  }

  /** What the actions up to n have paid */
  ghost function Spent(acts: seq<Action>, n: nat): (bytes: nat)
    requires n <= |acts|
  {
    if n == 0 then 0 else Spent(acts, n - 1) + (if acts[n - 1].Decrement? then acts[n - 1].bytes else 0)
  }

  /** What the refills up to n may have brought */
  ghost function Earned(s: State, acts: seq<Action>, n: nat): (bytes: nat)
    requires n <= |acts|
  {
    if n == 0 then 0 else Earned(s, acts, n - 1) + EarnedBy(After(s, acts, n - 1), acts[n - 1], s.rate.rate)
  }

  ghost function EarnedBy(s1: Option<State>, a: Action, rate: nat): (bytes: nat)
  {
    if s1.Some? && a.Refill? then TickBytes(rate, Ticks(a.tick, s1.value.lastUpdated)) else 0
  }

  function TickBytes(rate: nat, n: nat): (bytes: nat)
  {
    rate * n
  }

  lemma BudgetStep(s: State, a: Action)
    requires Orderly(s) && Enabled(s, a)
    ensures Next(s, a).rate == s.rate
    ensures Next(s, a).limit <=
      s.limit + EarnedBy(Some(s), a, s.rate.rate) - (if a.Decrement? then a.bytes else 0)
  {
    hide RandomOrder, AllBut, Updated, TickBytes, Ticks, NobodyStranded, DoingOk;
    if a.Refill? { ToppedIs(s, a.tick); }
  }

  /** A refill brings no more than the rate times the ticks, and never more than the maximum. */
  lemma ToppedIs(s: State, tick: nat)
    requires Paying(s) && tick < TWO32
    ensures Topped(s, tick).limit ==
      Min(s.rate.maximum, s.limit + TickBytes(s.rate.rate, Ticks(tick, s.lastUpdated)))
  {
    hide Refilled;
    var n := Ticks(tick, s.lastUpdated);
    if n > 0 { RefillIs(s.rate, s.limit, n); }
  }

  /**
   In every run, whoever pays: the bytes paid and what is left are no more than the group had at first and what the
   ticks have brought.
   */
  lemma {:induction false} GroupBudget(s: State, acts: seq<Action>, n: nat)
    requires Init(s) && n <= |acts| && After(s, acts, n).Some?
    ensures After(s, acts, n).value.rate == s.rate
    ensures Spent(acts, n) + After(s, acts, n).value.limit <= s.rate.rate + Earned(s, acts, n)
  {
    hide Enabled, Next, Orderly, TickBytes, Ticks;
    if n > 0 {
      EveryRun(s, acts, n - 1);
      GroupBudget(s, acts, n - 1);
      BudgetStep(After(s, acts, n - 1).value, acts[n - 1]);
    }
  }

  /** How many ticks it takes until a limit is up to share. */
  function TicksToShare(cfg: Rate, limit: int, share: nat): (n: nat)
    requires cfg.Ok()
  {
    if limit >= share then 0 else Quotient(share - limit - 1, cfg.rate) + 1
  }

  lemma ShareRefilled(cfg: Rate, limit: int, share: nat, n: nat)
    requires cfg.Ok() && share <= cfg.maximum
    ensures Ideal(cfg, limit, n) >= share <==> n >= TicksToShare(cfg, limit, share)
  {
    hide Times, Quotient;
    if limit >= share { MulLe(cfg.rate, 0, n); } else { DivLess(share - limit - 1, cfg.rate, n); }
  }

  /**
   With a member suspended, a refill walks over the group, that member included, if something went
   wrong before, or else exactly if the ticks since the last one bring the bucket up to the share;
   so that is the longest that a member of a group waits.
   */
  lemma RefillComes(s: State, t: Thread, last: nat, now: nat, minShare: nat, first: nat, m: Member)
    requires Inv(s) && Enabled(s, Refill(t, now % TWO32, minShare, first)) && m in s.members && Carries(s, m)
    requires s.lastUpdated == last % TWO32 && last <= now <= last + INT_MAX
    requires minShare <= s.rate.maximum
    ensures var s' := Next(s, Refill(t, now % TWO32, minShare, first));
      && (s'.walk.Unsuspending? <==> s.pending || now - last >= TicksToShare(s.rate, s.limit, minShare))
      && (s'.walk.Unsuspending? ==> m in s'.walk.todo && !s'.suspended)
      && s'.limit == Min(s.rate.maximum, s.limit + (now - last) * s.rate.rate)
  {
    hide Updated, TicksToShare;
    OrderHasAll(s.members, first);
    UpdatedIs(SideBucket(s.limit, s.lastUpdated), SideCfg(s.rate), last, now);
    ShareRefilled(s.rate, s.limit, minShare, now - last);
  }

  /** FOREACH_RANDOM_ORDER, starting at first if there are members */
  method ForEachRandomOrder(members: seq<Member>, first: nat) returns (visited: seq<Member>)
    requires first < |members| || members == []
    ensures visited == RandomOrder(members, first)
    ensures multiset(visited) == multiset(members) && |visited| == |members|
    ensures forall k :: 0 <= k < |members| ==>
      visited[k] == members[if first + k < |members| then first + k else first + k - |members|]
  {
    visited := [];
    var i := first;
    while i < |members|
      invariant first <= i && (i <= |members| || members == [])
      invariant visited == (if first < |members| then members[first..i] else [])
    {
      SliceNext(members, first, i);
      visited := visited + [members[i]];
      i := i + 1;
    }
    ghost var tail := visited;
    i := 0;
    while i < |members| && i != first
      invariant i <= first && i <= |members| && visited == tail + members[..i]
    {
      SliceNext(members, 0, i);
      visited := visited + [members[i]];
      i := i + 1;
    }
    OrderCounts(members, first);
  }

  lemma SliceNext(s: seq<Member>, from: nat, i: nat)
    requires from <= i < |s|
    ensures s[from..i] + [s[i]] == s[from..i + 1] && s[from..from] == []
    ensures forall t: seq<Member> :: t + s[..i] + [s[i]] == t + s[..i + 1]
  {}

  /** Each member comes once. */
  lemma OrderCounts(members: seq<Member>, first: nat)
    ensures multiset(RandomOrder(members, first)) == multiset(members)
  {
    if first < |members| {
      assert members == members[..first] + members[first..];
    }
  }
}
