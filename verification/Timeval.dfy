/**
 struct timeval, and the common timeouts hidden in its tv_usec: 20 bits of microseconds,
 8 bits of list index and 4 bits of magic number.
 */
module Timevals {
  const MICROSECONDS: nat := 0x10_0000      // one more than MICROSECONDS_MASK
  const COMMON_TIMEOUT_TAG: nat := 0x500    // COMMON_TIMEOUT_MAGIC, in units of MICROSECONDS
  const MAX_COMMON_TIMEOUTS: nat := 256

  datatype Timeval = Timeval(sec: int, usec: nat)

  const ZERO := Timeval(0, 0)

  /** tv_usec & MICROSECONDS_MASK */
  function Micro(tv: Timeval): (m: nat)
  {
    tv.usec % MICROSECONDS
  }

  /** tv_usec & ~MICROSECONDS_MASK, shifted down */
  function Tag(tv: Timeval): (t: nat)
  {
    tv.usec / MICROSECONDS
  }

  /** tv_usec & MICROSECONDS_MASK, as a timeval */
  function Untagged(tv: Timeval): (r: Timeval)
  {
    Timeval(tv.sec, Micro(tv))
  }

  /** tv_usec | tag, for a tv without one */
  function Tagged(tv: Timeval, tag: nat): (r: Timeval)
  {
    Timeval(tv.sec, tv.usec + tag * MICROSECONDS)
  }

  function TagOf(i: nat): (t: nat)
  {
    COMMON_TIMEOUT_TAG + i
  }

  /** COMMON_TIMEOUT_IDX */
  function CommonIdx(tv: Timeval): (i: nat)
  {
    Tag(tv) % MAX_COMMON_TIMEOUTS
  }

  /** is_common_timeout, with n common timeouts in the base; tv_usec has 32 bits */
  predicate IsCommon(tv: Timeval, n: nat)
  {
    Tag(tv) / MAX_COMMON_TIMEOUTS == COMMON_TIMEOUT_TAG / MAX_COMMON_TIMEOUTS && CommonIdx(tv) < n
  }

  /** An ordinary timeval. */
  predicate Plain(tv: Timeval)
  {
    tv.usec < 1000000
  }

  /** A tag that the base has given out, or none. */
  predicate TagOk(tv: Timeval, n: nat)
  {
    Tag(tv) == 0 || COMMON_TIMEOUT_TAG <= Tag(tv) < COMMON_TIMEOUT_TAG + n
  }

  /** A time that ev_timeout may hold. */
  predicate IsTime(tv: Timeval, n: nat)
  {
    Micro(tv) < 1000000 && TagOk(tv, n)
  }

  /** A timeout that callers may pass; with exactly a million microseconds, adding it to a time carries. */
  predicate IsDuration(tv: Timeval, n: nat)
  {
    Micro(tv) <= 1000000 && TagOk(tv, n)
  }

  /** The time a timeval stands for, tag or no tag. */
  function Time(tv: Timeval): (t: int)
  {
    tv.sec * 1000000 + Micro(tv)
  }

  /** evutil_timercmp with <= */
  predicate Le(a: Timeval, b: Timeval)
  {
    if a.sec == b.sec then a.usec <= b.usec else a.sec < b.sec
  }

  /** evutil_timeradd */
  function Plus(a: Timeval, b: Timeval): (r: Timeval)
  {
    if a.usec + b.usec >= 1000000 then Timeval(a.sec + b.sec + 1, a.usec + b.usec - 1000000)
    else Timeval(a.sec + b.sec, a.usec + b.usec)
  }

  /** evutil_timersub */
  function Minus(a: Timeval, b: Timeval): (r: Timeval)
    requires Plain(b)
  {
    if a.usec < b.usec then Timeval(a.sec - b.sec - 1, a.usec + 1000000 - b.usec)
    else Timeval(a.sec - b.sec, a.usec - b.usec)
  }

  lemma PlainTime(tv: Timeval)
    requires Plain(tv)
    ensures Tag(tv) == 0 && Micro(tv) == tv.usec && Time(tv) == tv.sec * 1000000 + tv.usec && Untagged(tv) == tv
  {}

  lemma ZeroTime()
    ensures Plain(ZERO) && Time(ZERO) == 0
  {
    PlainTime(ZERO);
  }

  lemma PlainIsTime(tv: Timeval, n: nat)
    requires Plain(tv)
    ensures !IsCommon(tv, n) && IsTime(tv, n)
  {
    PlainTime(tv);
  }

  /** Packing an index beside the microseconds and unpacking it again; and the reverse. */
  lemma TagRoundTrip(tv: Timeval, tag: nat)
    requires Plain(tv)
    ensures Tag(Tagged(tv, tag)) == tag && Untagged(Tagged(tv, tag)) == tv
    ensures Time(Tagged(tv, tag)) == Time(tv)
  {
    PlainTime(tv);
    assert (tv.usec + tag * MICROSECONDS) / MICROSECONDS == tag;
  }

  lemma UntagRoundTrip(tv: Timeval)
    ensures Tagged(Untagged(tv), Tag(tv)) == tv && Time(Untagged(tv)) == Time(tv)
    ensures Micro(tv) < 1000000 ==> Plain(Untagged(tv))
  {
    assert tv.usec == tv.usec % MICROSECONDS + tv.usec / MICROSECONDS * MICROSECONDS;
    assert tv.usec % MICROSECONDS % MICROSECONDS == tv.usec % MICROSECONDS;
  }

  /** The magic number and the index are read back right, and never read from an ordinary timeval. */
  lemma CommonIs(tv: Timeval, n: nat)
    requires IsDuration(tv, n) && n <= MAX_COMMON_TIMEOUTS
    ensures IsCommon(tv, n) <==> Tag(tv) != 0
    ensures IsCommon(tv, n) ==> Tag(tv) == TagOf(CommonIdx(tv))
    ensures Tag(tv) == 0 ==> Untagged(tv) == tv && (IsTime(tv, n) ==> Plain(tv))
  {
    UntagRoundTrip(tv);
  }

  /** Where the bits are: 20 of microseconds, 8 of the index, and the magic number 5 */
  lemma Layout(tv: Timeval, tag: nat, n: nat)
    requires tv.usec < 0x1_0000_0000
    ensures Micro(tv) == tv.usec % 0x10_0000 && Tag(tv) == tv.usec / 0x10_0000
    ensures CommonIdx(tv) == tv.usec / 0x10_0000 % 0x100
    ensures IsCommon(tv, n) <==> tv.usec / 0x1000_0000 == 5 && tv.usec / 0x10_0000 % 0x100 < n
    ensures Tagged(tv, TagOf(n)).usec == 0x5000_0000 + n * 0x10_0000 + tv.usec
  {}

  /** Timevals with one tag are ordered as the times they stand for. */
  lemma OrderIs(a: Timeval, b: Timeval)
    requires Micro(a) < 1000000 && Micro(b) < 1000000 && Tag(a) == Tag(b)
    ensures Le(a, b) <==> Time(a) <= Time(b)
  {
    UntagRoundTrip(a);
    UntagRoundTrip(b);
  }

  /** evutil_timeradd normalises a sum with up to a million microseconds in one of its terms. */
  lemma PlusIs(a: Timeval, b: Timeval)
    requires Plain(a) && b.usec <= 1000000
    ensures Plain(Plus(a, b)) && Time(Plus(a, b)) == Time(a) + Time(b)
  {
    PlainTime(a);
    assert b.usec % MICROSECONDS == b.usec;
    PlainTime(Plus(a, b));
  }

  lemma MinusIs(a: Timeval, b: Timeval)
    requires Plain(a) && Plain(b)
    ensures Plain(Minus(a, b)) && Time(Minus(a, b)) == Time(a) - Time(b)
  {
    PlainTime(a);
    PlainTime(b);
    PlainTime(Minus(a, b));
  }
}
