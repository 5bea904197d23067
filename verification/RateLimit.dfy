/**
 Rate limiting of one bufferevent: suspend bits, the refill timer, reading under a grant, and what it has to do with
 its group.
 */
module RateLimit {
  import opened Basics
  import opened TokenBucket

  /** BEV_SUSPEND_WM, BEV_SUSPEND_BW, BEV_SUSPEND_BW_GROUP, BEV_SUSPEND_LOOKUP */
  datatype Why = Wm | Bw | BwGroup | Lookup

  /** struct bufferevent_rate_limit_group, as a member sees it */
  datatype Group = Group(bucket: Bucket, nMembers: nat, minShare: nat, readSuspended: bool, writeSuspended: bool)
  {
    /** A group that is overdrawn is suspended. */
    predicate Ok() {
      && 1 <= nMembers <= INT_MAX && minShare <= SSIZE_MAX && bucket.read <= SSIZE_MAX && bucket.write <= SSIZE_MAX
      && (bucket.read < 0 ==> readSuspended) && (bucket.write < 0 ==> writeSuspended)
    }

    /** What a member may read at once: its part of what there is, but at least the minimum */
    function Share(): (share: nat)
      requires Ok() && !readSuspended
    {
      Max(Quotient(bucket.read, nMembers), minShare)
    }

    /** The share is nothing at all. */
    predicate Starved() {
      !readSuspended && minShare == 0 && bucket.read < nMembers
    }

    /** All members together get no more than there is, or their minimum each. */
    lemma SharesCovered()
      requires Ok() && !readSuspended
      ensures Share() * nMembers <= Max(bucket.read, minShare * nMembers)
      ensures Share() >= minShare && (Share() + 1) * nMembers > bucket.read
      ensures Share() <= minShare || Share() * nMembers <= bucket.read
      ensures Share() == 0 <==> Starved()
    {
      hide Quotient;
      QuotientIs(bucket.read, nMembers);
      if Share() == minShare { MulGrows(Quotient(bucket.read, nMembers) + 1, minShare + 1, nMembers); }
    }
  }

  lemma MulGrows(a: nat, b: nat, n: nat)
    requires a <= b
    ensures a * n <= b * n
  {}

  lemma QuotientIs(a: nat, n: nat)
    requires n > 0
    ensures Quotient(a, n) * n <= a < (Quotient(a, n) + 1) * n
    ensures Quotient(a, n) <= a && (Quotient(a, n) == 0 <==> a < n)
  {
    hide Quotient, Times;
    DivLess(a, n, Quotient(a, n));
    DivLess(a, n, Quotient(a, n) + 1);
    DivLess(a, n, 1);
    DivLess(a, n, a + 1);
    MulLe(a + 1, 1, n);
  }

  /**
   An operation at a true tick: a read that finds some bytes available, the firing of the refill timer, or what other
   members and the group do to the group, or joining or leaving one; told is whether this member was told of it, or
   its lock was taken
   */
  datatype Op = Read(now: nat, available: nat) | Timer(now: nat) | Others(now: nat, group: Option<Group>, told: bool)

  predicate GroupOk(op: Op)
  {
    op.Others? && op.group.Some? ==> op.group.value.Ok()
  }

  /** ev_token_bucket_init */
  function BucketInit(bucket: Bucket, cfg: Cfg, tick: nat, reinitialize: bool): (bucket': Bucket)
  {
    if reinitialize then bucket.(
      read := Min(bucket.read, cfg.read.maximum), write := Min(bucket.write, cfg.write.maximum))
    else Bucket(cfg.read.rate, cfg.write.rate, tick)
  }

  /** The bucket under a new configuration: a full tick's worth at first, and only ever less on a change. */
  function Reconfigured(was: Option<Cfg>, bucket: Bucket, cfg: Cfg, tick: nat): (bucket': Bucket)
  {
    BucketInit(bucket, cfg, tick, was.Some?)
  }

  class Bufferevent {
    var enabledRead: bool
    var enabledWrite: bool
    /** whether the backend has been told to read, and to write */
    var reading: bool
    var writing: bool
    var readSuspended: set<Why>
    var writeSuspended: set<Why>
    var cfg: Option<Cfg>
    var limit: Bucket
    var group: Option<Group>
    /** refill_bucket_event is pending, or its callback has been called and waits for the lock */
    var refillPending: bool
    var refillFiring: bool

    /** A side with an empty bucket is suspended, and a suspended side has a timer to wait for. */
    ghost predicate Suspending()
      reads this
    {
      && (reading <==> enabledRead && readSuspended == {})
      && (writing <==> enabledWrite && writeSuspended == {})
      && (cfg.None? ==> Bw !in readSuspended && Bw !in writeSuspended)
      && (cfg.Some? ==>
        && (limit.read <= 0 ==> Bw in readSuspended) && (limit.write <= 0 ==> Bw in writeSuspended)
        && (Bw in readSuspended || Bw in writeSuspended ==> refillPending || refillFiring))
    }

    ghost predicate Valid()
      reads this
    {
      Suspending() && (cfg.Some? ==> BucketOk(limit, cfg.value)) && (group.Some? ==> group.value.Ok())
    }

    constructor (enabledRead: bool, enabledWrite: bool)
      ensures Valid() && cfg.None? && this.enabledRead == enabledRead && this.enabledWrite == enabledWrite
      ensures readSuspended == {} && writeSuspended == {} && !refillPending && !refillFiring && group.None?
    {
      this.enabledRead, this.enabledWrite, reading, writing := enabledRead, enabledWrite, enabledRead, enabledWrite;
      readSuspended, writeSuspended, cfg, limit := {}, {}, None, Bucket(0, 0, 0);
      refillPending, refillFiring, group := false, false, None;
    }

    /** bufferevent_suspend_read */
    method SuspendRead(what: Why)
      modifies this`reading, this`readSuspended
      ensures readSuspended == old(readSuspended) + {what}
      ensures reading == (old(reading) && old(readSuspended) != {})
    {
      if readSuspended == {} {
        reading := false;
      }
      readSuspended := readSuspended + {what};
    }

    /** bufferevent_unsuspend_read */
    method UnsuspendRead(what: Why)
      modifies this`reading, this`readSuspended
      ensures readSuspended == old(readSuspended) - {what}
      ensures reading == (old(reading) || (enabledRead && readSuspended == {}))
    {
      readSuspended := readSuspended - {what};
      if readSuspended == {} && enabledRead {
        reading := true;
      }
    }

    /** bufferevent_suspend_write */
    method SuspendWrite(what: Why)
      modifies this`writing, this`writeSuspended
      ensures writeSuspended == old(writeSuspended) + {what}
      ensures writing == (old(writing) && old(writeSuspended) != {})
    {
      if writeSuspended == {} {
        writing := false;
      }
      writeSuspended := writeSuspended + {what};
    }

    /** bufferevent_unsuspend_write */
    method UnsuspendWrite(what: Why)
      modifies this`writing, this`writeSuspended
      ensures writeSuspended == old(writeSuspended) - {what}
      ensures writing == (old(writing) || (enabledWrite && writeSuspended == {}))
    {
      writeSuspended := writeSuspended - {what};
      if writeSuspended == {} && enabledWrite {
        writing := true;
      }
    }

    /** What others do to the group, and the walk over its members, unless it did not get the lock of this one */
    method GroupBecomes(g: Option<Group>, told: bool)
      requires Valid() && (g.Some? ==> g.value.Ok())
      modifies this`group, this`reading, this`readSuspended, this`writing, this`writeSuspended
      ensures Valid() && group == g
      ensures readSuspended == if !told then old(readSuspended)
        else if g.Some? && g.value.readSuspended then old(readSuspended) + {BwGroup} else old(readSuspended) - {BwGroup}
      ensures writeSuspended == if !told then old(writeSuspended)
        else if g.Some? && g.value.writeSuspended then old(writeSuspended) + {BwGroup}
        else old(writeSuspended) - {BwGroup}
    {
      group := g;
      if told {
        if g.Some? && g.value.readSuspended {
          SuspendRead(BwGroup);
        } else {
          UnsuspendRead(BwGroup);
        }
        if g.Some? && g.value.writeSuspended {
          SuspendWrite(BwGroup);
        } else {
          UnsuspendWrite(BwGroup);
        }
      }
    }

    /** The part of _bufferevent_get_rlim_max about the group: what it gives, which is nothing if it is suspended */
    method GroupShare() returns (share: nat)
      requires group.Some? && group.value.Ok() && (reading <==> enabledRead && readSuspended == {})
      modifies this`reading, this`readSuspended
      ensures reading <==> enabledRead && readSuspended == {}
      ensures group.value.readSuspended ==> share == 0 && readSuspended == old(readSuspended) + {BwGroup}
      ensures !group.value.readSuspended ==> share == group.value.Share() && readSuspended == old(readSuspended)
    {
      hide Quotient;
      var g := group.value;
      if g.readSuspended {
        SuspendRead(BwGroup);
        share := 0;
      } else {
        QuotientIs(g.bucket.read, g.nMembers);
        share := Quotient(g.bucket.read, g.nMembers);
        if share < g.minShare {
          share := g.minShare;
        }
      }
    }

    /**
     _bufferevent_get_read_max: no more than the own limit, and no more than the share in a group; if the group is
     suspended, so is this one from now on.  Without being suspended it gets nothing exactly if the group is Starved.
     */
    method GetReadMax(tick: nat) returns (max: int)
      requires Valid() && tick < TWO32
      modifies this`limit, this`reading, this`readSuspended
      ensures Valid() && limit == if cfg.Some? then Updated(old(limit), cfg.value, tick) else old(limit)
      ensures readSuspended ==
        if group.Some? && group.value.readSuspended then old(readSuspended) + {BwGroup} else old(readSuspended)
      ensures max >= 0 && (group.Some? && group.value.readSuspended ==> max == 0)
      ensures max > 0 ==>
        var own := if cfg.Some? then limit.read else MAX_TO_READ_EVER;
        max == if group.Some? then Min(own, group.value.Share()) else own
      ensures readSuspended == {} ==> (max == 0 <==> group.Some? && group.value.Starved())
      ensures readSuspended == {} && group.Some? ==>
        var g, own := group.value, if cfg.Some? then limit.read else 16384;
        && max <= own && (max <= g.minShare || max * g.nMembers <= g.bucket.read)
        && (max == own || (max >= g.minShare && (max + 1) * g.nMembers > g.bucket.read))
    {
      hide Updated, Group.Share;
      max := MAX_TO_READ_EVER;
      if cfg.Some? {
        UpdatedOk(limit, cfg.value, tick);
        UpdatedSame(limit, cfg.value);
        if tick != limit.lastUpdated {
          limit := Update(limit, cfg.value, tick);
        }
        max := limit.read;
      }
      if group.Some? {
        var share := GroupShare();
        if max > share {
          max := share;
        }
      }
      if max < 0 {
        max := 0;
      }
      if readSuspended == {} && group.Some? {
        GrantIs(group.value, if cfg.Some? then limit.read else MAX_TO_READ_EVER, max);
      }
    }

    /** The part that takes the bytes from the own bucket, and suspends or resumes this bufferevent */
    method OwnPaysRead(bytes: nat)
      requires Valid() && cfg.Some? && SSIZE_MIN <= limit.read - bytes
      modifies this`limit, this`reading, this`readSuspended, this`refillPending
      ensures Valid() && limit == old(limit).(read := old(limit).read - bytes)
      ensures readSuspended == if limit.read <= 0 then old(readSuspended) + {Bw} else old(readSuspended) - {Bw}
    {
      limit := limit.(read := limit.read - bytes);
      if limit.read <= 0 {
        SuspendRead(Bw);
        refillPending := true;
      } else if Bw in readSuspended {
        if Bw !in writeSuspended {
          refillPending := false;
        }
        UnsuspendRead(Bw);
      }
    }

    /** The part that takes the bytes from the group, and suspends or resumes the group */
    method GroupPaysRead(bytes: nat)
      requires group.Some? && group.value.Ok() && SSIZE_MIN <= group.value.bucket.read - bytes
      requires reading <==> enabledRead && readSuspended == {}
      modifies this`group, this`reading, this`readSuspended
      ensures reading <==> enabledRead && readSuspended == {}
      ensures group.Some? && group.value.Ok()
      ensures var left := old(group).value.bucket.read - bytes;
        && group.value == old(group).value.(bucket := group.value.bucket, readSuspended := left <= 0)
        && group.value.bucket == old(group).value.bucket.(read := left)
        && readSuspended == if left <= 0 then old(readSuspended) + {BwGroup}
          else if old(group).value.readSuspended then old(readSuspended) - {BwGroup}
          else old(readSuspended)
    {
      var g := group.value;
      g := g.(bucket := g.bucket.(read := g.bucket.read - bytes));
      if g.bucket.read <= 0 {
        g := g.(readSuspended := true);
        SuspendRead(BwGroup);
      } else if g.readSuspended {
        g := g.(readSuspended := false);
        UnsuspendRead(BwGroup);
      }
      group := Some(g);
    }

    /**
     _bufferevent_decrement_read_buckets, for a count that was granted: the own bucket pays, and the group's; either
     is suspended exactly if nothing is left.
     */
    method DecrementReadBuckets(bytes: nat)
      requires Valid() && (cfg.Some? ==> SSIZE_MIN <= limit.read - bytes)
      requires group.Some? ==> SSIZE_MIN <= group.value.bucket.read - bytes
      modifies this
      ensures Valid() && cfg == old(cfg) && enabledRead == old(enabledRead) && enabledWrite == old(enabledWrite)
      ensures limit == if cfg.Some? then old(limit).(read := old(limit).read - bytes) else old(limit)
      ensures group.Some? == old(group).Some?
      ensures group.Some? ==>
        var left := old(group).value.bucket.read - bytes;
        && group.value == old(group).value.(bucket := group.value.bucket, readSuspended := left <= 0)
        && group.value.bucket == old(group).value.bucket.(read := left)
      ensures readSuspended ==
        var own := if cfg.None? then old(readSuspended)
          else if limit.read <= 0 then old(readSuspended) + {Bw} else old(readSuspended) - {Bw};
        if group.None? || (!group.value.readSuspended && !old(group).value.readSuspended) then own
        else if group.value.readSuspended then own + {BwGroup} else own - {BwGroup}
      ensures writeSuspended == old(writeSuspended) && refillFiring == old(refillFiring)
    {
      if cfg.Some? {
        OwnPaysRead(bytes);
      }
      if group.Some? {
        GroupPaysRead(bytes);
      }
    }

    /** The part that takes the bytes from the own bucket, and suspends or resumes this bufferevent */
    method OwnPaysWrite(bytes: nat)
      requires Valid() && cfg.Some? && SSIZE_MIN <= limit.write - bytes
      modifies this`limit, this`writing, this`writeSuspended, this`refillPending
      ensures Valid() && limit == old(limit).(write := old(limit).write - bytes)
      ensures writeSuspended == if limit.write <= 0 then old(writeSuspended) + {Bw} else old(writeSuspended) - {Bw}
    {
      limit := limit.(write := limit.write - bytes);
      if limit.write <= 0 {
        SuspendWrite(Bw);
        refillPending := true;
      } else if Bw in writeSuspended {
        if Bw !in readSuspended {
          refillPending := false;
        }
        UnsuspendWrite(Bw);
      }
    }

    /** The part that takes the bytes from the group, and suspends or resumes the group */
    method GroupPaysWrite(bytes: nat)
      requires group.Some? && group.value.Ok() && SSIZE_MIN <= group.value.bucket.write - bytes
      requires writing <==> enabledWrite && writeSuspended == {}
      modifies this`group, this`writing, this`writeSuspended
      ensures writing <==> enabledWrite && writeSuspended == {}
      ensures group.Some? && group.value.Ok()
      ensures var left := old(group).value.bucket.write - bytes;
        && group.value == old(group).value.(bucket := group.value.bucket, writeSuspended := left <= 0)
        && group.value.bucket == old(group).value.bucket.(write := left)
        && writeSuspended == if left <= 0 then old(writeSuspended) + {BwGroup}
          else if old(group).value.writeSuspended then old(writeSuspended) - {BwGroup}
          else old(writeSuspended)
    {
      var g := group.value;
      g := g.(bucket := g.bucket.(write := g.bucket.write - bytes));
      if g.bucket.write <= 0 {
        g := g.(writeSuspended := true);
        SuspendWrite(BwGroup);
      } else if g.writeSuspended {
        g := g.(writeSuspended := false);
        UnsuspendWrite(BwGroup);
      }
      group := Some(g);
    }

    /** _bufferevent_decrement_write_buckets */
    method DecrementWriteBuckets(bytes: nat)
      requires Valid() && (cfg.Some? ==> SSIZE_MIN <= limit.write - bytes)
      requires group.Some? ==> SSIZE_MIN <= group.value.bucket.write - bytes
      modifies this
      ensures Valid() && cfg == old(cfg) && enabledRead == old(enabledRead) && enabledWrite == old(enabledWrite)
      ensures limit == if cfg.Some? then old(limit).(write := old(limit).write - bytes) else old(limit)
      ensures group.Some? == old(group).Some?
      ensures group.Some? ==>
        var left := old(group).value.bucket.write - bytes;
        && group.value == old(group).value.(bucket := group.value.bucket, writeSuspended := left <= 0)
        && group.value.bucket == old(group).value.bucket.(write := left)
      ensures writeSuspended ==
        var own := if cfg.None? then old(writeSuspended)
          else if limit.write <= 0 then old(writeSuspended) + {Bw} else old(writeSuspended) - {Bw};
        if group.None? || (!group.value.writeSuspended && !old(group).value.writeSuspended) then own
        else if group.value.writeSuspended then own + {BwGroup} else own - {BwGroup}
      ensures readSuspended == old(readSuspended) && refillFiring == old(refillFiring)
    {
      if cfg.Some? {
        OwnPaysWrite(bytes);
      }
      if group.Some? {
        GroupPaysWrite(bytes);
      }
    }

    /** bufferevent_decrement_read_limit, which users call; a negative count gives bytes back */
    method DecrementReadLimit(decr: int)
      requires Valid() && cfg.Some? && SSIZE_MIN <= limit.read - decr <= SSIZE_MAX
      modifies this
      ensures Suspending() && cfg == old(cfg) && limit == old(limit).(read := old(limit).read - decr)
      ensures Valid() <==> limit.read <= cfg.value.read.maximum
      ensures readSuspended ==
        if limit.read <= 0 then old(readSuspended) + {Bw}
        else if old(limit).read <= 0 then old(readSuspended) - {Bw}
        else old(readSuspended)
    {
      var oldLimit := limit.read;
      limit := limit.(read := limit.read - decr);
      if oldLimit > 0 && limit.read <= 0 {
        SuspendRead(Bw);
        refillPending := true;
      } else if oldLimit <= 0 && limit.read > 0 {
        if Bw !in writeSuspended {
          refillPending := false;
        }
        UnsuspendRead(Bw);
      }
    }

    /** The loop takes the expired refill timer off, and is about to call its callback. */
    method FireRefill()
      requires Valid() && refillPending
      modifies this`refillPending, this`refillFiring
      ensures Valid() && !refillPending && refillFiring
    {
      refillPending := false;
      refillFiring := true;
    }

    /**
     _bev_refill_callback: a side resumes exactly if its bucket is no longer empty; otherwise the timer is
     set again.
     */
    method RefillCallback(tick: nat)
      requires Valid() && refillFiring && tick < TWO32
      modifies this
      ensures Valid() && cfg == old(cfg) && !refillFiring && enabledRead == old(enabledRead)
      ensures enabledWrite == old(enabledWrite)
      ensures cfg.None? ==>
        limit == old(limit) && readSuspended == old(readSuspended) && writeSuspended == old(writeSuspended)
      ensures cfg.Some? ==>
        && limit == Updated(old(limit), cfg.value, tick)
        && readSuspended == (if limit.read > 0 then old(readSuspended) - {Bw} else old(readSuspended))
        && writeSuspended == (if limit.write > 0 then old(writeSuspended) - {Bw} else old(writeSuspended))
    {
      hide Updated;
      refillFiring := false;
      if cfg.None? {
        return;
      }
      UpdatedOk(limit, cfg.value, tick);
      limit := Update(limit, cfg.value, tick);
      var again := false;
      if Bw in readSuspended {
        if limit.read > 0 {
          UnsuspendRead(Bw);
        } else {
          again := true;
        }
      }
      if Bw in writeSuspended {
        if limit.write > 0 {
          UnsuspendWrite(Bw);
        } else {
          again := true;
        }
      }
      if again {
        refillPending := true;
      }
    }

    /** bufferevent_set_rate_limit */
    method SetRateLimit(newCfg: Option<Cfg>, tick: nat)
      requires Valid() && tick < TWO32 && (newCfg.Some? ==> newCfg.value.Ok())
      requires cfg.Some? && newCfg.Some? && cfg.value.id == newCfg.value.id ==> cfg == newCfg
      modifies this
      ensures Valid() && cfg == newCfg
      ensures newCfg.Some? && newCfg != old(cfg) ==> limit == Reconfigured(old(cfg), old(limit), newCfg.value, tick)
      ensures newCfg.Some? && old(cfg).None? ==> limit == Bucket(newCfg.value.read.rate, newCfg.value.write.rate, tick)
      ensures newCfg.Some? && old(cfg).Some? && newCfg != old(cfg) ==>
        var c, was := newCfg.value, old(limit);
        && limit.lastUpdated == was.lastUpdated
        && limit.read == (if was.read <= c.read.maximum then was.read else c.read.maximum)
        && limit.write == (if was.write <= c.write.maximum then was.write else c.write.maximum)
      ensures newCfg.Some? && newCfg != old(cfg) ==>
        && (Bw in readSuspended <==> limit.read <= 0) && (Bw in writeSuspended <==> limit.write <= 0)
        && (Bw in readSuspended || Bw in writeSuspended ==> refillPending)
      ensures newCfg == old(cfg) ==>
        limit == old(limit) && readSuspended == old(readSuspended) && writeSuspended == old(writeSuspended)
    {
      if newCfg.None? {
        if cfg.Some? {
          cfg := None;
          UnsuspendRead(Bw);
          UnsuspendWrite(Bw);
          refillPending := false;
        }
        return;
      }
      var c := newCfg.value;
      if cfg.Some? && cfg.value.id == c.id {
        return;
      }
      var reinit := cfg.Some?;
      cfg := newCfg;
      limit := BucketInit(limit, c, tick, reinit);
      if reinit {
        refillPending := false;
      }
      var suspended := false;
      if limit.read > 0 {
        UnsuspendRead(Bw);
      } else {
        SuspendRead(Bw);
        suspended := true;
      }
      if limit.write > 0 {
        UnsuspendWrite(Bw);
      } else {
        SuspendWrite(Bw);
        suspended := true;
      }
      if suspended {
        refillPending := true;
      }
    }

    /**
     The part of bufferevent_readcb that asks for a grant, reads no more than that, and pays for it.  It asks the kernel
     for nothing, and takes the answer for the end of the stream, exactly if it is not suspended and the group is
     Starved.  The own limit is never overdrawn, and the group by no more than its min_share.
     */
    method ReadCb(tick: nat, available: nat) returns (res: nat, asked: Option<nat>)
      requires Valid() && tick < TWO32
      modifies this
      ensures Valid() && cfg == old(cfg) && refillFiring == old(refillFiring)
      ensures asked.None? <==> old(readSuspended) != {} || (old(group).Some? && old(group).value.readSuspended)
      ensures res == if asked.Some? then Min(available, asked.value) else 0
      ensures asked.Some? ==> (asked.value == 0 <==> old(group).Some? && old(group).value.Starved())
      ensures asked.Some? && asked.value > 0 ==>
        var own := if cfg.Some? then Updated(old(limit), cfg.value, tick).read else MAX_TO_READ_EVER;
        asked.value == if old(group).Some? then Min(own, old(group).value.Share()) else own
      ensures asked.Some? && old(group).Some? ==>
        var g, max := old(group).value, asked.value;
        var own := if cfg.Some? then Updated(old(limit), cfg.value, tick).read else 16384;
        && max <= own && (max <= g.minShare || max * g.nMembers <= g.bucket.read)
        && (max == own || (max >= g.minShare && (max + 1) * g.nMembers > g.bucket.read))
      ensures cfg.Some? ==>
        var limit1 := Updated(old(limit), cfg.value, tick);
        limit == limit1.(read := limit1.read - res) && (res > 0 ==> limit.read >= 0)
      ensures cfg.None? ==> limit == old(limit)
      ensures group.Some? == old(group).Some?
      ensures group.Some? ==>
        && group.value.bucket == old(group).value.bucket.(read := old(group).value.bucket.read - res)
        && (res > 0 ==> group.value.bucket.read + group.value.minShare >= 0)
    {
      hide Updated, Quotient;
      var readmax := GetReadMax(tick);
      if readSuspended != {} {
        return 0, None;
      }
      asked := Some(readmax);
      res := if available < readmax then available else readmax;
      if res > 0 {
        if group.Some? { QuotientIs(group.value.bucket.read, group.value.nMembers); }
        DecrementReadBuckets(res);
      }
    }
  }

  /** A new group of two with one byte to give and min_share 0: a member asks the kernel for nothing. */
  method AskedForNothing() returns (res: nat, asked: Option<nat>)
    ensures res == 0 && asked == Some(0)
  {
    var b := new Bufferevent(true, true);
    b.GroupBecomes(Some(Group(Bucket(1, 1, 0), 2, 0, false, false)), true);
    res, asked := b.ReadCb(0, 5);
  }

  /** The smaller of a limit and the share, in terms of what the group has. */
  lemma GrantIs(g: Group, own: int, max: nat)
    requires g.Ok() && !g.readSuspended && own > 0 && max == Min(own, g.Share())
    ensures max <= own && (max <= g.minShare || max * g.nMembers <= g.bucket.read)
    ensures max == own || (max >= g.minShare && (max + 1) * g.nMembers > g.bucket.read)
    ensures max == 0 <==> g.Starved()
  {
    hide Group.Share;
    g.SharesCovered();
    MulGrows(max, g.Share(), g.nMembers);
  }

  lemma UpdatedSame(bucket: Bucket, cfg: Cfg)
    ensures Updated(bucket, cfg, bucket.lastUpdated) == bucket
  {}

  /** How many ticks it takes until a limit is positive. */
  function TicksNeeded(cfg: Rate, limit: int): (n: nat)
    requires cfg.Ok()
  {
    if limit > 0 then 0 else Quotient(-limit, cfg.rate) + 1
  }

  lemma Repaid(cfg: Rate, limit: int, n: nat)
    requires cfg.Ok()
    ensures Ideal(cfg, limit, n) > 0 <==> n >= TicksNeeded(cfg, limit)
  {
    hide Times, Quotient;
    if limit > 0 { MulLe(cfg.rate, 0, n); } else { DivLess(-limit, cfg.rate, n); }
  }

  /** The ticks at which the refill timer goes off: never back, and not too far apart for 32 bits. */
  ghost predicate SteadyTicks(nows: seq<nat>, last: nat)
  {
    forall i :: 0 <= i < |nows| ==> SteadyAt(nows, last, i)
  }

  ghost predicate SteadyAt(nows: seq<nat>, last: nat, i: nat)
    requires i < |nows|
  {
    var before := if i == 0 then last else nows[i - 1];
    before <= nows[i] <= before + INT_MAX
  }

  /** Where the bucket is while somebody waits for it: all the ticks since last0 have been added. */
  ghost predicate Refilling(c: Cfg, bucket0: Bucket, last0: nat, bucket: Bucket, now: nat)
  {
    && last0 <= now && bucket.lastUpdated == now % TWO32
    && bucket.read == Ideal(c.read, bucket0.read, now - last0)
    && bucket.write == Ideal(c.write, bucket0.write, now - last0)
  }

  lemma RefillingNext(c: Cfg, bucket0: Bucket, last0: nat, bucket: Bucket, last: nat, now: nat)
    requires BucketOk(bucket0, c) && BucketOk(bucket, c) && Refilling(c, bucket0, last0, bucket, last)
    requires last <= now <= last + INT_MAX
    ensures Refilling(c, bucket0, last0, Updated(bucket, c, now % TWO32), now)
  {
    hide Updated, Ideal;
    UpdatedIs(bucket, c, last, now);
    IdealTwice(c.read, bucket0.read, last - last0, now - last);
    IdealTwice(c.write, bucket0.write, last - last0, now - last);
  }

  lemma RefillingFirst(c: Cfg, bucket0: Bucket, last0: nat)
    requires BucketOk(bucket0, c) && bucket0.lastUpdated == last0 % TWO32
    ensures Refilling(c, bucket0, last0, bucket0, last0)
  {}

  lemma RefillingIs(c: Cfg, bucket0: Bucket, last0: nat, bucket: Bucket, now: nat)
    requires BucketOk(bucket0, c) && Refilling(c, bucket0, last0, bucket, now)
    ensures bucket.read > 0 <==> now - last0 >= TicksNeeded(c.read, bucket0.read)
    ensures bucket.write > 0 <==> now - last0 >= TicksNeeded(c.write, bucket0.write)
  {
    hide Ideal, TicksNeeded;
    Repaid(c.read, bucket0.read, now - last0);
    Repaid(c.write, bucket0.write, now - last0);
  }

  /**
   Waiting: the refill timer goes off again and again, and nothing is drawn.  A suspended side resumes
   at the first time that is as many ticks after last0 as its debt takes, and one more; until then it
   stays suspended, with the timer on.
   */
  method NeverStuck(b: Bufferevent, nows: seq<nat>, ghost last0: nat)
    requires b.Valid() && b.cfg.Some? && b.limit.lastUpdated == last0 % TWO32 && SteadyTicks(nows, last0) && nows != []
    modifies b
    ensures b.Valid() && b.cfg == old(b.cfg) && b.enabledRead == old(b.enabledRead)
    ensures b.enabledWrite == old(b.enabledWrite)
    ensures var waited := nows[|nows| - 1] - last0; var c := b.cfg.value;
      && b.readSuspended
         == (if waited >= TicksNeeded(c.read, old(b.limit).read) then old(b.readSuspended) - {Bw}
             else old(b.readSuspended))
      && b.writeSuspended
         == (if waited >= TicksNeeded(c.write, old(b.limit).write) then old(b.writeSuspended) - {Bw}
             else old(b.writeSuspended))
    ensures b.reading <==> b.enabledRead && b.readSuspended == {}
    ensures b.writing <==> b.enabledWrite && b.writeSuspended == {}
    ensures Bw in b.readSuspended || Bw in b.writeSuspended ==> b.refillPending
  {
    hide Updated, TicksNeeded, Refilling;
    ghost var c, bucket0, whyRead, whyWrite := b.cfg.value, b.limit, b.readSuspended, b.writeSuspended;
    ghost var last, needR, needW := last0, TicksNeeded(c.read, bucket0.read), TicksNeeded(c.write, bucket0.write);
    RefillingFirst(c, bucket0, last0);
    for k := 0 to |nows|
      invariant b.Valid() && b.cfg == Some(c) && b.enabledRead == old(b.enabledRead)
      invariant b.enabledWrite == old(b.enabledWrite)
      invariant last0 <= last == if k == 0 then last0 else nows[k - 1]
      invariant b.readSuspended == if k > 0 && last - last0 >= needR then whyRead - {Bw} else whyRead
      invariant b.writeSuspended == if k > 0 && last - last0 >= needW then whyWrite - {Bw} else whyWrite
      invariant Bw in b.readSuspended || Bw in b.writeSuspended ==> Refilling(c, bucket0, last0, b.limit, last)
      invariant k > 0 ==> !b.refillFiring
    {
      assert SteadyAt(nows, last0, k);
      var now := nows[k];
      ghost var waiting := Bw in b.readSuspended || Bw in b.writeSuspended;
      if waiting {
        RefillingNext(c, bucket0, last0, b.limit, last, now);
        RefillingIs(c, bucket0, last0, Updated(b.limit, c, now % TWO32), now);
      }
      if b.refillPending {
        b.FireRefill();
      }
      if b.refillFiring {
        b.RefillCallback(now % TWO32);
      }
      last := now;
    }
  }

  // ----- runs

  ghost function Sum(bytes: seq<nat>): (s: nat)
  {
    if bytes == [] then 0 else Sum(bytes[..|bytes| - 1]) + bytes[|bytes| - 1]
  }

  /** Ticks never go back, and the bucket is looked at often enough for 32 bits. */
  ghost predicate Steady(ops: seq<Op>, last: nat)
  {
    forall i :: 0 <= i < |ops| ==> FollowsAt(ops, last, i)
  }

  ghost predicate FollowsAt(ops: seq<Op>, last: nat, i: nat)
    requires i < |ops|
  {
    var before := if i == 0 then last else ops[i - 1].now;
    before <= ops[i].now <= before + INT_MAX
  }

  /**
   What is known after some operations, the bucket last updated at tick `last`: in any window that
   starts with operation i, at most the burst and what the ticks since have given was read.
   */
  ghost predicate Bounded(c: Rate, ops: seq<Op>, bytes: seq<nat>, last: nat, limit: int)
    requires |bytes| <= |ops|
  {
    forall i :: 0 <= i < |bytes| ==> BoundedFrom(c, ops, bytes, last, limit, i)
  }

  ghost predicate BoundedFrom(c: Rate, ops: seq<Op>, bytes: seq<nat>, last: nat, limit: int, i: nat)
    requires i < |bytes| <= |ops|
  {
    && ops[i].now <= last
    && Sum(bytes[i..]) + limit <= c.maximum + (last - ops[i].now) * c.rate
    && Sum(bytes[i..]) <= c.maximum + (last - ops[i].now) * c.rate
  }

  lemma SumPush(bytes: seq<nat>, n: nat)
    ensures Sum(bytes + [n]) == Sum(bytes) + n
  {
    assert (bytes + [n])[..|bytes|] == bytes;
  }

  lemma BoundedStep(c: Rate, limit: int, sum: nat, start: nat, last: nat, now: nat, res: nat)
    requires c.Ok() && start <= last <= now && limit <= c.maximum
    requires sum + limit <= c.maximum + (last - start) * c.rate && sum <= c.maximum + (last - start) * c.rate
    ensures var left := Ideal(c, limit, now - last) - res;
      && (res > 0 ==> left >= 0) ==>
        sum + res + left <= c.maximum + (now - start) * c.rate && sum + res <= c.maximum + (now - start) * c.rate
  {
    var given, more := (last - start) * c.rate, (now - last) * c.rate;
    assert (now - start) * c.rate == given + more;
    MulLe(c.rate, 0, now - last);
  }

  lemma BoundedNext(c: Rate, ops: seq<Op>, bytes: seq<nat>, last: nat, limit: int, limit1: int, res: nat)
    requires |bytes| < |ops| && c.Ok() && Bounded(c, ops, bytes, last, limit)
    requires var now := ops[|bytes|].now; last <= now && limit1 == Ideal(c, limit, now - last) && limit <= c.maximum
    requires res > 0 ==> limit1 - res >= 0
    ensures Bounded(c, ops, bytes + [res], ops[|bytes|].now, limit1 - res)
  {
    var k, bytes' := |bytes|, bytes + [res];
    var now := ops[k].now;
    var left := limit1 - res;
    forall i | 0 <= i < |bytes'| ensures BoundedFrom(c, ops, bytes', now, left, i) {
      if i < k {
        assert BoundedFrom(c, ops, bytes, last, limit, i);
        assert bytes'[i..] == bytes[i..] + [res];
        SumPush(bytes[i..], res);
        BoundedStep(c, limit, Sum(bytes[i..]), ops[i].now, last, now, res);
      } else {
        assert bytes'[k..] == [] + [res];
        SumPush([], res);
      }
    }
  }

  /** From operation i up to operation j, no more was read than the burst and what the ticks between them give. */
  ghost predicate WindowOk(c: Rate, ops: seq<Op>, bytes: seq<nat>, i: nat, j: nat)
    requires i < j <= |bytes| <= |ops|
  {
    Sum(bytes[i..j]) <= c.maximum + (ops[j - 1].now - ops[i].now) * c.rate
  }

  ghost predicate AllWindows(c: Rate, ops: seq<Op>, bytes: seq<nat>)
    requires |bytes| <= |ops|
  {
    forall i, j :: 0 <= i < j <= |bytes| ==> WindowOk(c, ops, bytes, i, j)
  }

  lemma WindowsNext(c: Rate, ops: seq<Op>, bytes: seq<nat>, res: nat, limit: int)
    requires |bytes| < |ops| && AllWindows(c, ops, bytes) && Bounded(c, ops, bytes + [res], ops[|bytes|].now, limit)
    ensures AllWindows(c, ops, bytes + [res])
  {
    var bytes' := bytes + [res];
    forall i, j | 0 <= i < j <= |bytes'| ensures WindowOk(c, ops, bytes', i, j) {
      if j <= |bytes| {
        assert bytes'[i..j] == bytes[i..j];
        assert WindowOk(c, ops, bytes, i, j);
      } else {
        assert bytes'[i..j] == bytes'[i..];
        assert BoundedFrom(c, ops, bytes', ops[|bytes|].now, limit, i);
      }
    }
  }

  /** Any run of reads under grants, and of timers: what each operation read, and the tick of the last. */
  method Run(b: Bufferevent, ops: seq<Op>, ghost last0: nat) returns (bytes: seq<nat>, ghost last: nat)
    requires b.Valid() && b.cfg.Some? && b.limit.lastUpdated == last0 % TWO32 && Steady(ops, last0)
    requires forall i :: 0 <= i < |ops| ==> GroupOk(ops[i])
    modifies b
    ensures b.Valid() && b.cfg == old(b.cfg) && |bytes| == |ops| && (ops != [] ==> last == ops[|ops| - 1].now)
    ensures Bounded(b.cfg.value.read, ops, bytes, last, b.limit.read) && AllWindows(b.cfg.value.read, ops, bytes)
  {
    hide Updated, Bounded, AllWindows, Ideal;
    bytes, last := [], last0;
    ghost var c := b.cfg.value;
    NoBytes(c.read, ops, last0, b.limit.read);
    for k := 0 to |ops|
      invariant b.Valid() && b.cfg == old(b.cfg) && |bytes| == k && b.limit.lastUpdated == last % TWO32
      invariant last == if k == 0 then last0 else ops[k - 1].now
      invariant Bounded(c.read, ops, bytes, last, b.limit.read) && AllWindows(c.read, ops, bytes)
    {
      assert FollowsAt(ops, last0, k);
      var now := ops[k].now;
      ghost var limit0 := b.limit;
      UpdatedIs(b.limit, c, last, now);
      var res: nat := 0;
      match ops[k] {
        case Read(_, available) =>
          var asked;
          res, asked := b.ReadCb(now % TWO32, available);
        case Timer(_) =>
          if b.refillPending {
            b.FireRefill();
            b.RefillCallback(now % TWO32);
          } else {
            var max := b.GetReadMax(now % TWO32);
          }
        case Others(_, group, told) =>
          b.GroupBecomes(group, told);
          var max := b.GetReadMax(now % TWO32);
      }
      ghost var limit1 := Updated(limit0, c, now % TWO32);
      BoundedNext(c.read, ops, bytes, last, limit0.read, limit1.read, res);
      WindowsNext(c.read, ops, bytes, res, b.limit.read);
      bytes := bytes + [res];
      last := now;
    }
  }

  lemma NoBytes(c: Rate, ops: seq<Op>, last: nat, limit: int)
    ensures Bounded(c, ops, [], last, limit) && AllWindows(c, ops, [])
  {}
}
