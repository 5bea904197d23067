/** Token buckets, in the machine arithmetic of ev_token_bucket_update, and the limits of one bufferevent. */
module TokenBucket {
  import opened Basics
  const SSIZE_MIN: int := -0x8000_0000_0000_0000
  const MAX_TO_READ_EVER: nat := 16384

  /** An ev_ssize_t. */
  predicate IsSsize(x: int)
  {
    SSIZE_MIN <= x <= SSIZE_MAX
  }

  /** The value of a number in size_t, modulo 2^64 */
  function Unsigned(x: int): (u: nat)
    ensures u < TWO64
  {
    x % TWO64
  }

  /** ... and back in ev_ssize_t */
  function Signed(u: nat): (x: int)
    requires u < TWO64
    ensures IsSsize(x) && Unsigned(x) == u
  {
    if u <= SSIZE_MAX then u else u - TWO64
  }

  lemma UnsignedIs(x: int)
    ensures 0 <= x < TWO64 ==> Unsigned(x) == x
    ensures 0 - TWO64 <= x < 0 ==> Unsigned(x) == x + TWO64
    ensures IsSsize(x) ==> Signed(Unsigned(x)) == x
  {}

  /** One side of ev_token_bucket_cfg */
  datatype Rate = Rate(rate: nat, maximum: nat) {
    /** What ev_token_bucket_cfg_new lets through. */
    predicate Ok() {
      1 <= rate <= maximum <= SSIZE_MAX
    }
  }

  // ----- the update

  /** One side of ev_token_bucket_update */
  method Refill(cfg: Rate, limit: int, nTicks: nat) returns (limit': int)
    requires cfg.Ok() && IsSsize(limit) && 0 < nTicks <= INT_MAX
    ensures limit' == Refilled(cfg, limit, nTicks)
    ensures limit <= cfg.maximum ==> limit' == Min(cfg.maximum, limit + nTicks * cfg.rate)
    ensures limit > cfg.maximum ==> (limit' == cfg.maximum <==> cfg.maximum - limit + TWO64 <= nTicks * cfg.rate)
  {
    hide Unsigned, Signed, Quotient, Times, Refilled;
    if limit <= cfg.maximum {
      RefillIs(cfg, limit, nTicks);
    } else {
      RefillOver(cfg, limit, nTicks);
    }
    RefilledIs(cfg, limit, nTicks);
    if Quotient(Unsigned(cfg.maximum - limit), nTicks) < cfg.rate {
      limit' := cfg.maximum;
    } else {
      limit' := Signed(Unsigned(Unsigned(limit) + Unsigned(Times(nTicks, cfg.rate))));
    }
  }

  function Quotient(a: nat, n: nat): (q: nat)
    requires n > 0
  {
    a / n
  }

  function Times(a: nat, b: nat): (p: nat)
  {
    a * b
  }

  function Refilled(cfg: Rate, limit: int, nTicks: nat): (limit': int)
    requires nTicks > 0
  {
    if Quotient(Unsigned(cfg.maximum - limit), nTicks) < cfg.rate then cfg.maximum
    else Signed(Unsigned(Unsigned(limit) + Unsigned(Times(nTicks, cfg.rate))))
  }

  lemma RefilledIs(cfg: Rate, limit: int, nTicks: nat)
    requires nTicks > 0
    ensures Refilled(cfg, limit, nTicks)
      == if Quotient(Unsigned(cfg.maximum - limit), nTicks) < cfg.rate then cfg.maximum
         else Signed(Unsigned(Unsigned(limit) + Unsigned(Times(nTicks, cfg.rate))))
  {
    hide Unsigned, Signed, Quotient, Times;
  }

  lemma DivLess(a: nat, n: nat, r: nat)
    requires n > 0
    ensures Quotient(a, n) < r <==> a < Times(n, r)
    ensures Times(n, r) == n * r
  {
    var q := a / n;
    assert a == n * q + a % n;
    if q < r {
      assert n * (q + 1) <= n * r by { assert q + 1 <= r; MulLe(n, q + 1, r); }
      assert n * (q + 1) == n * q + n;
    } else {
      MulLe(n, r, q);
    }
  }

  lemma MulLe(n: nat, a: nat, b: nat)
    requires a <= b
    ensures n * a <= n * b
  {}

  /**
   The update that avoids overflow is the one with unbounded numbers, unless a refund has pushed the limit
   over the maximum.
   */
  lemma RefillIs(cfg: Rate, limit: int, nTicks: nat)
    requires cfg.Ok() && IsSsize(limit) && 0 < nTicks <= INT_MAX && limit <= cfg.maximum
    ensures Refilled(cfg, limit, nTicks) == Min(cfg.maximum, limit + nTicks * cfg.rate)
  {
    hide Unsigned, Signed, Quotient, Times;
    var room, more: nat := cfg.maximum - limit, Times(nTicks, cfg.rate);
    UnsignedIs(room);
    DivLess(room, nTicks, cfg.rate);
    if more <= room {
      UnsignedIs(more);
      SumWraps(limit, more);
    }
  }

  lemma SumWraps(a: int, b: nat)
    requires IsSsize(a) && IsSsize(a + b) && b < TWO64
    ensures Signed(Unsigned(Unsigned(a) + b)) == a + b
  {
    UnsignedIs(a);
    UnsignedIs(a + b);
    if a < 0 {
      if a + b >= 0 { assert a + TWO64 + b == (a + b) + TWO64; WrapOnce(a + b); }
    }
  }

  lemma WrapOnce(x: int)
    ensures Unsigned(x + TWO64) == Unsigned(x)
  {}

  /**
   With a limit over the maximum, it comes down to the maximum exactly if the difference, wrapped round, is
   used up too.
   */
  lemma RefillOver(cfg: Rate, limit: int, nTicks: nat)
    requires cfg.Ok() && IsSsize(limit) && 0 < nTicks <= INT_MAX && limit > cfg.maximum
    ensures Refilled(cfg, limit, nTicks) == cfg.maximum <==> cfg.maximum - limit + TWO64 <= nTicks * cfg.rate
  {
    hide Unsigned, Signed, Quotient, Times;
    var d, more: nat := cfg.maximum - limit, Times(nTicks, cfg.rate);
    UnsignedIs(d);
    DivLess(d + TWO64, nTicks, cfg.rate);
    if more <= d + TWO64 {
      UnsignedIs(more);
      OverWraps(limit, more, cfg.maximum);
    }
  }

  /** Adding to a limit gives max, modulo 2^64, exactly if what is added is the difference. */
  lemma OverWraps(limit: int, more: nat, max: nat)
    requires IsSsize(limit) && max < limit && IsSsize(max) && more < TWO64
    ensures Signed(Unsigned(Unsigned(limit) + more)) == max <==> more == max - limit + TWO64
  {
    UnsignedIs(limit);
    UnsignedIs(max);
    var sum := limit + more;
    if sum >= TWO64 { WrapOnce(sum - TWO64); UnsignedIs(sum - TWO64); } else { UnsignedIs(sum); }
  }

  /** After a refund of 1 beyond a maximum of 10, the next tick adds to the limit instead of cutting it. */
  lemma RefillOverFails()
    ensures var cfg := Rate(1, 10); cfg.Ok() && Refilled(cfg, 11, 1) == 12 != Min(cfg.maximum, 11 + 1 * cfg.rate)
  {
    UnsignedIs(10 - 11);
  }

  /** What n ticks should do to a limit. */
  function Ideal(cfg: Rate, limit: int, n: nat): (l: int)
  {
    Min(cfg.maximum, limit + n * cfg.rate)
  }

  lemma IdealTwice(cfg: Rate, limit: int, a: nat, b: nat)
    requires limit <= cfg.maximum
    ensures Ideal(cfg, Ideal(cfg, limit, a), b) == Ideal(cfg, limit, a + b)
  {
    assert (a + b) * cfg.rate == a * cfg.rate + b * cfg.rate;
    MulLe(b, 0, cfg.rate);
  }

  /** Updating after a ticks and again after b more is updating once after all of them. */
  lemma RefillTwice(cfg: Rate, limit: int, a: nat, b: nat)
    requires cfg.Ok() && IsSsize(limit) && limit <= cfg.maximum && 0 < a && 0 < b && a + b <= INT_MAX
    ensures IsSsize(Refilled(cfg, limit, a)) && Refilled(cfg, Refilled(cfg, limit, a), b) == Refilled(cfg, limit, a + b)
  {
    hide Refilled;
    RefillIs(cfg, limit, a);
    MulLe(cfg.rate, 0, a);
    assert a * cfg.rate >= 0;
    RefillIs(cfg, Refilled(cfg, limit, a), b);
    RefillIs(cfg, limit, a + b);
    IdealTwice(cfg, limit, a, b);
  }

  // ----- ticks

  /** current_tick - last_updated, as unsigned */
  function TicksSince(tick: nat, last: nat): (n: nat)
  {
    (tick - last) % TWO32
  }

  /** With ticks counted without end, the 32-bit difference is the real one, for up to INT_MAX ticks. */
  lemma TicksAre(now: nat, last: nat)
    requires last <= now <= last + INT_MAX
    ensures TicksSince(now % TWO32, last % TWO32) == now - last
  {}

  /** struct ev_token_bucket */
  datatype Bucket = Bucket(read: int, write: int, lastUpdated: nat)

  datatype Cfg = Cfg(id: nat, read: Rate, write: Rate) {
    predicate Ok() {
      read.Ok() && write.Ok()
    }
  }

  /** ev_token_bucket_update */
  method Update(bucket: Bucket, cfg: Cfg, tick: nat) returns (bucket': Bucket)
    requires cfg.Ok() && IsSsize(bucket.read) && IsSsize(bucket.write) && tick < TWO32
    ensures bucket' == Updated(bucket, cfg, tick)
  {
    var n := TicksSince(tick, bucket.lastUpdated);
    bucket' := bucket;
    if n == 0 || n > INT_MAX {
      return;
    }
    var r := Refill(cfg.read, bucket.read, n);
    var w := Refill(cfg.write, bucket.write, n);
    bucket' := Bucket(r, w, tick);
  }

  function Updated(bucket: Bucket, cfg: Cfg, tick: nat): (bucket': Bucket)
  {
    var n := TicksSince(tick, bucket.lastUpdated);
    if n == 0 || n > INT_MAX then bucket
    else Bucket(Refilled(cfg.read, bucket.read, n), Refilled(cfg.write, bucket.write, n), tick)
  }

  ghost predicate BucketOk(bucket: Bucket, cfg: Cfg)
  {
    && cfg.Ok() && SSIZE_MIN <= bucket.read <= cfg.read.maximum && SSIZE_MIN <= bucket.write <= cfg.write.maximum
    && bucket.lastUpdated < TWO32
  }

  /** After n ticks by the true count. */
  lemma UpdatedIs(bucket: Bucket, cfg: Cfg, last: nat, now: nat)
    requires BucketOk(bucket, cfg) && bucket.lastUpdated == last % TWO32 && last <= now <= last + INT_MAX
    ensures var b' := Updated(bucket, cfg, now % TWO32);
      && BucketOk(b', cfg) && b'.lastUpdated == now % TWO32
      && b'.read == Ideal(cfg.read, bucket.read, now - last) && b'.write == Ideal(cfg.write, bucket.write, now - last)
      && b'.read >= bucket.read && b'.write >= bucket.write
  {
    hide Refilled;
    TicksAre(now, last);
    var n := now - last;
    if n > 0 {
      RefillIs(cfg.read, bucket.read, n);
      RefillIs(cfg.write, bucket.write, n);
      MulLe(n, 0, cfg.read.rate);
      MulLe(n, 0, cfg.write.rate);
    }
  }

  /** Without a tick in between, or if the clock seems to have gone back, nothing is brought. */
  lemma UpdatedNot(bucket: Bucket, cfg: Cfg, tick: nat)
    requires bucket.lastUpdated < 0x1_0000_0000 && tick < 0x1_0000_0000
    ensures tick == bucket.lastUpdated ==> Updated(bucket, cfg, tick) == bucket
    ensures 0 < bucket.lastUpdated - tick <= 0x8000_0000 ==> Updated(bucket, cfg, tick) == bucket
    ensures tick - bucket.lastUpdated >= 0x8000_0000 ==> Updated(bucket, cfg, tick) == bucket
  {}

  /** Whatever the tick, an update keeps a limit within the maximum, and never lowers it. */
  lemma UpdatedOk(bucket: Bucket, cfg: Cfg, tick: nat)
    requires BucketOk(bucket, cfg) && tick < TWO32
    ensures var b' := Updated(bucket, cfg, tick);
      BucketOk(b', cfg) && b'.read >= bucket.read && b'.write >= bucket.write
  {
    hide Refilled;
    var n := TicksSince(tick, bucket.lastUpdated);
    if 0 < n <= INT_MAX {
      RefillIs(cfg.read, bucket.read, n);
      RefillIs(cfg.write, bucket.write, n);
      MulLe(n, 0, cfg.read.rate);
      MulLe(n, 0, cfg.write.rate);
    }
  }
}
