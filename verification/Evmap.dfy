/**
 File descriptors and their backend: the table of events by descriptor, the list of
 changes to make at the next dispatch, and the epoll set in the kernel.
 */
module Evmap {
  import opened Basics
  /** EV_READ and EV_WRITE */
  datatype Interest = Interest(read: bool, write: bool)

  const NOTHING := Interest(false, false)

  /** A struct event on a descriptor: its ev_events as flags. */
  datatype Event = Event(id: nat, fd: int, read: bool, write: bool, et: bool)

  /** struct evmap_io, with the event_changelist_fdinfo that follows it */
  datatype EvmapIo = EvmapIo(events: seq<Event>, nread: nat, nwrite: nat, idxplus1: nat) {
    function Wanted(): (i: Interest) {
      Interest(nread > 0, nwrite > 0)
    }
  }

  const EMPTY_IO := EvmapIo([], 0, 0, 0)

  /** read_change or write_change: EV_CHANGE_ADD with its EV_ET bit, EV_CHANGE_DEL, or neither */
  datatype Change = Same | Add(et: bool) | Del {
    function Apply(was: bool): (now: bool) {
      if Add? then true else if Del? then false else was
    }
  }

  /** struct event_change */
  datatype EventChange = EventChange(fd: int, before: Interest, read: Change, write: Change) {
    /** The interest this change asks for. */
    function Target(): (i: Interest) {
      Interest(read.Apply(before.read), write.Apply(before.write))
    }

    /** Only interest that was there at the last flush is ever deleted. */
    predicate Sensible() {
      (read.Del? ==> before.read) && (write.Del? ==> before.write)
    }
  }

  // ----- the kernel

  datatype CtlOp = CtlAdd | CtlMod | CtlDel
  datatype Errno = Success | EEXIST | ENOENT | EBADF

  /** struct epoll_event: EPOLLIN, EPOLLOUT, EPOLLET */
  datatype Epev = Epev(in_: bool, out: bool, et: bool)

  /** The epoll set, by descriptor. */
  type Kernel = map<int, Epev>

  function CtlErrno(k: Kernel, open: set<int>, op: CtlOp, fd: int): (e: Errno)
  {
    if fd !in open then EBADF
    else if op.CtlAdd? && fd in k then EEXIST
    else if !op.CtlAdd? && fd !in k then ENOENT
    else Success
  }

  /** epoll_ctl */
  function EpollCtl(k: Kernel, open: set<int>, op: CtlOp, fd: int, ev: Epev): (k': Kernel)
  {
    if CtlErrno(k, open, op, fd) != Success then k
    else if op.CtlDel? then k - {fd}
    else k[fd := ev]
  }

  /** What the kernel will report on fd. */
  function Registered(k: Kernel, fd: int): (i: Interest)
  {
    if fd in k then Interest(k[fd].in_, k[fd].out) else NOTHING
  }

  // ----- events on one descriptor

  ghost function CountRead(evs: seq<Event>): (n: nat)
  {
    if evs == [] then 0 else CountRead(evs[..|evs| - 1]) + (if evs[|evs| - 1].read then 1 else 0)
  }

  ghost function CountWrite(evs: seq<Event>): (n: nat)
  {
    if evs == [] then 0 else CountWrite(evs[..|evs| - 1]) + (if evs[|evs| - 1].write then 1 else 0)
  }

  /** One more event on a descriptor than a 16-bit counter can count. */
  ghost predicate TooMany(evs: seq<Event>, ev: Event)
  {
    (ev.read && CountRead(evs) == 0xffff) || (ev.write && CountWrite(evs) == 0xffff)
  }

  lemma {:induction false} CountWithout(evs: seq<Event>, i: nat)
    requires i < |evs|
    ensures CountRead(DropAt(evs, i)) == CountRead(evs) - (if evs[i].read then 1 else 0)
    ensures CountWrite(DropAt(evs, i)) == CountWrite(evs) - (if evs[i].write then 1 else 0)
  {
    var n := |evs| - 1;
    if i == n {
      assert DropAt(evs, i) == evs[..n];
    } else {
      CountWithout(evs[..n], i);
      assert DropAt(evs, i)[..n - 1] == DropAt(evs[..n], i);
    }
  }

  lemma CountPush(evs: seq<Event>, ev: Event)
    ensures CountRead(evs + [ev]) == CountRead(evs) + (if ev.read then 1 else 0)
    ensures CountWrite(evs + [ev]) == CountWrite(evs) + (if ev.write then 1 else 0)
  {
    assert (evs + [ev])[..|evs|] == evs;
  }

  /** One entry of the table: the counts are those of the list. */
  ghost predicate EntryOk(fd: int, evs: seq<Event>, nread: nat, nwrite: nat)
  {
    && nread == CountRead(evs) <= 0xffff && nwrite == CountWrite(evs) <= 0xffff
    && Distinct(evs)
    && forall ev :: ev in evs ==> ev.fd == fd
  }

  function B2N(b: bool): (n: nat)
  {
    if b then 1 else 0
  }

  /** Counting one more event: the counters fit, or there are too many. */
  lemma EntryPush(fd: int, evs: seq<Event>, nread: nat, nwrite: nat, ev: Event)
    requires EntryOk(fd, evs, nread, nwrite) && ev.fd == fd && ev !in evs
    ensures nread + B2N(ev.read) > 0xffff || nwrite + B2N(ev.write) > 0xffff <==> TooMany(evs, ev)
    ensures !TooMany(evs, ev) ==> EntryOk(fd, evs + [ev], nread + B2N(ev.read), nwrite + B2N(ev.write))
  {
    CountPush(evs, ev);
  }

  lemma EntryWithout(fd: int, evs: seq<Event>, nread: nat, nwrite: nat, ev: Event)
    requires EntryOk(fd, evs, nread, nwrite) && ev in evs
    ensures (ev.read ==> nread > 0) && (ev.write ==> nwrite > 0)
    ensures EntryOk(fd, Without(evs, ev), nread - B2N(ev.read), nwrite - B2N(ev.write))
  {
    var i := IndexIn(evs, ev);
    CountWithout(evs, i);
    var w := DropAt(evs, i);
    forall a, b | 0 <= a < b < |w| ensures w[a] != w[b] {
      assert w[a] == evs[if a < i then a else a + 1] && w[b] == evs[if b < i then b else b + 1];
    }
  }

  // ----- the table

  /** The events registered on fd. */
  function EventsOn(io: seq<Option<EvmapIo>>, fd: int): (evs: seq<Event>)
  {
    if 0 <= fd < |io| && io[fd].Some? then io[fd].value.events else []
  }

  /** What the counters say should be watched on fd. */
  function Wanted(io: seq<Option<EvmapIo>>, fd: int): (i: Interest)
  {
    if 0 <= fd < |io| && io[fd].Some? then io[fd].value.Wanted() else NOTHING
  }

  ghost predicate EntriesOk(io: seq<Option<EvmapIo>>)
  {
    forall fd :: 0 <= fd < |io| && io[fd].Some? ==>
      EntryOk(fd, io[fd].value.events, io[fd].value.nread, io[fd].value.nwrite)
  }

  /** New entries start empty. */
  lemma SameEntries(io: seq<Option<EvmapIo>>, io': seq<Option<EvmapIo>>)
    requires EntriesOk(io) && |io| <= |io'|
    requires forall fd ::
      0 <= fd < |io'| && io'[fd].Some? ==> io'[fd].value == EMPTY_IO || (fd < |io| && io'[fd] == io[fd])
    requires forall fd :: 0 <= fd < |io| && io[fd].Some? ==> io'[fd] == io[fd]
    ensures EntriesOk(io') && forall fd :: EventsOn(io', fd) == EventsOn(io, fd) && Wanted(io', fd) == Wanted(io, fd)
  {}

  lemma EntryAt(io: seq<Option<EvmapIo>>, fd: int)
    requires EntriesOk(io) && 0 <= fd < |io| && io[fd].Some?
    ensures EntryOk(fd, io[fd].value.events, io[fd].value.nread, io[fd].value.nwrite)
  {}

  // ----- the change list

  /** The idxplus1 of fd; 0 for a descriptor without an entry. */
  function IdxPlus1(io: seq<Option<EvmapIo>>, fd: int): (i: nat)
  {
    if 0 <= fd < |io| && io[fd].Some? then io[fd].value.idxplus1 else 0
  }

  /** The change for fd, if there is one. */
  ghost function ChangeOn(io: seq<Option<EvmapIo>>, changes: seq<EventChange>, fd: int): (ch: Option<EventChange>)
  {
    var x := IdxPlus1(io, fd);
    if 0 < x <= |changes| then Some(changes[x - 1]) else None
  }

  /** Watching fd for more than what it was watched for: the change that there is, taken further, or a new one. */
  function Joining(ch: Option<EventChange>, fd: int, was: Interest, res: Interest, et: bool): (ch': EventChange)
  {
    var c := if ch.Some? then ch.value else EventChange(fd, was, Same, Same);
    c.(read := if res.read then Add(et) else c.read, write := if res.write then Add(et) else c.write)
  }

  /** Taking an interest away: an addition that the kernel has not seen is forgotten. */
  function Leaving(ch: Option<EventChange>, fd: int, was: Interest, res: Interest): (ch': EventChange)
  {
    var c := if ch.Some? then ch.value else EventChange(fd, was, Same, Same);
    c.(read := if !res.read then c.read else if !c.before.read && c.read.Add? then Same else Del,
       write := if !res.write then c.write else if !c.before.write && c.write.Add? then Same else Del)
  }

  /** Whether the kernel has EPOLLET for fd after a flush, if it has fd: as the change says, or else as before. */
  ghost predicate EdgeOn(k0: Kernel, ch: Option<EventChange>, k: Kernel, fd: int)
  {
    fd in k ==>
      if ch.Some? && !(ch.value.read.Same? && ch.value.write.Same?) then
        k[fd].et == (ch.value.read == Add(true) || ch.value.write == Add(true))
      else fd in k0 && k[fd].et == k0[fd].et
  }

  ghost predicate FoundBack(io: seq<Option<EvmapIo>>, changes: seq<EventChange>, i: nat)
    requires i < |changes|
  {
    IdxPlus1(io, changes[i].fd) == i + 1
  }

  ghost predicate Finds(io: seq<Option<EvmapIo>>, changes: seq<EventChange>, n: nat, fd: int)
    requires n <= |changes|
  {
    var x := IdxPlus1(io, fd);
    x > 0 ==> x <= n && changes[x - 1].fd == fd
  }

  /** idxplus1 finds the one change for a descriptor, and every change is found by its descriptor. */
  ghost predicate Indexed(io: seq<Option<EvmapIo>>, changes: seq<EventChange>, n: nat)
  {
    && n <= |changes|
    && (forall i :: 0 <= i < n ==> FoundBack(io, changes, i))
    && (forall fd :: Finds(io, changes, n, fd))
  }

  /** The change for fd leads from what the kernel has to w; without one, the kernel has w. */
  ghost predicate Leads(io: seq<Option<EvmapIo>>, changes: seq<EventChange>, k: Kernel, open: set<int>, fd: int,
                        w: Interest)
  {
    var x := IdxPlus1(io, fd);
    if 0 < x <= |changes| then
      var ch := changes[x - 1];
      ch.before == Registered(k, fd) && ch.Target() == w && ch.Sensible() && fd in open
    else
      Registered(k, fd) == w
  }

  /** Only idxplus1 matters. */
  lemma SameIdx(io: seq<Option<EvmapIo>>, io': seq<Option<EvmapIo>>, changes: seq<EventChange>, n: nat, k: Kernel,
                open: set<int>)
    requires Indexed(io, changes, n) && forall fd :: IdxPlus1(io', fd) == IdxPlus1(io, fd)
    ensures Indexed(io', changes, n)
    ensures forall f, w :: Leads(io', changes, k, open, f, w) == Leads(io, changes, k, open, f, w)
  {
    forall i | 0 <= i < n ensures FoundBack(io', changes, i) {
      assert FoundBack(io, changes, i);
    }
    forall f ensures Finds(io', changes, n, f) {
      assert Finds(io, changes, n, f);
    }
  }

  /** A new change for fd. */
  lemma NewChange(io: seq<Option<EvmapIo>>, changes: seq<EventChange>, n: nat, changes': seq<EventChange>, fd: int,
                  k: Kernel, open: set<int>)
    requires Indexed(io, changes, n) && 0 <= fd < |io| && io[fd].Some? && io[fd].value.idxplus1 == 0
    requires n < |changes'| && |changes| <= |changes'| && changes'[n].fd == fd
    requires forall i :: 0 <= i < n ==> changes'[i] == changes[i]
    ensures var io' := io[fd := Some(io[fd].value.(idxplus1 := n + 1))];
      && Indexed(io', changes', n + 1)
      && forall f, w :: f != fd ==> Leads(io', changes', k, open, f, w) == Leads(io, changes, k, open, f, w)
  {
    var io' := io[fd := Some(io[fd].value.(idxplus1 := n + 1))];
    hide IdxPlus1;
    Reindexed(io, fd, n + 1);
    assert IdxPlus1(io, fd) == 0;
    forall i | 0 <= i < n + 1 ensures FoundBack(io', changes', i) {
      if i < n { assert FoundBack(io, changes, i); }
    }
    var n' := n + 1;
    forall f ensures Finds(io', changes', n', f) {
      assert Finds(io, changes, n, f);
    }
    forall f, w | f != fd ensures Leads(io', changes', k, open, f, w) == Leads(io, changes, k, open, f, w) {
      assert Finds(io, changes, n, f);
    }
  }

  lemma Reindexed(io: seq<Option<EvmapIo>>, fd: int, x: nat)
    requires 0 <= fd < |io| && io[fd].Some?
    ensures var io' := io[fd := Some(io[fd].value.(idxplus1 := x))];
      forall f :: IdxPlus1(io', f) == if f == fd then x else IdxPlus1(io, f)
    ensures IdxPlus1(io, fd) == io[fd].value.idxplus1
  {}

  lemma IndexHere(io: seq<Option<EvmapIo>>, changes: seq<EventChange>, n: nat, fd: int)
    requires Indexed(io, changes, n) && 0 <= fd < |io| && io[fd].Some?
    ensures n <= |changes| && io[fd].value.idxplus1 <= n
    ensures (io[fd].value.idxplus1 > 0 ==> changes[io[fd].value.idxplus1 - 1].fd == fd)
  {
    assert Finds(io, changes, n, fd);
  }

  /** Rewriting the change for fd. */
  lemma NewTarget(io: seq<Option<EvmapIo>>, changes: seq<EventChange>, n: nat, idx: nat, ch: EventChange, k: Kernel,
                  open: set<int>)
    requires Indexed(io, changes, n) && idx < n && ch.fd == changes[idx].fd
    ensures var changes' := changes[idx := ch];
      && Indexed(io, changes', n)
      && forall f, w :: f != ch.fd ==> Leads(io, changes', k, open, f, w) == Leads(io, changes, k, open, f, w)
  {
    var changes' := changes[idx := ch];
    assert FoundBack(io, changes, idx);
    forall i | 0 <= i < n ensures FoundBack(io, changes', i) {
      assert FoundBack(io, changes, i);
    }
    forall f ensures Finds(io, changes', n, f) {
      assert Finds(io, changes, n, f);
    }
    forall f, w | f != ch.fd ensures Leads(io, changes', k, open, f, w) == Leads(io, changes, k, open, f, w) {
      assert Finds(io, changes, n, f);
    }
  }

  // ----- the event base

  class EventBase {
    /** base->evsel is epollops_changelist rather than epollops */
    const changelist: bool
    /** descriptors that the process has open */
    const open: set<int>
    /** base->io: entries, nentries long */
    var io: seq<Option<EvmapIo>>
    /** base->changelist: changes, changes_size long */
    var changes: seq<EventChange>
    var nChanges: nat
    var kernel: Kernel
    /** what epoll_ctl has answered so far */
    var answers: seq<Errno>

    constructor (changelist: bool, open: set<int>)
      ensures Valid() && this.changelist == changelist && this.open == open
      ensures forall fd :: EventsOn(io, fd) == [] && changes == []
    {
      this.changelist, this.open := changelist, open;
      io, changes, nChanges, kernel, answers := [], [], 0, map[], [];
    }

    ghost predicate InStep()
      reads this
    {
      forall fd :: Leads(io, changes, kernel, open, fd, Wanted(io, fd))
    }

    /** The kernel has only open descriptors, each with something to watch. */
    ghost predicate KernelOk()
      reads this`kernel
    {
      forall fd :: fd in kernel ==> fd in open && Registered(kernel, fd) != NOTHING
    }

    ghost predicate AllSucceeded()
      reads this`answers
    {
      forall i :: 0 <= i < |answers| ==> answers[i] == Success
    }

    ghost predicate Valid()
      reads this
    {
      && EntriesOk(io) && Indexed(io, changes, nChanges) && (changelist || nChanges == 0)
      && InStep() && KernelOk() && AllSucceeded()
    }

    /** epoll_ctl, and what it answers */
    method Ctl(op: CtlOp, fd: int, ev: Epev) returns (e: Errno)
      modifies this`kernel, this`answers
      ensures e == CtlErrno(old(kernel), open, op, fd) && kernel == EpollCtl(old(kernel), open, op, fd, ev)
      ensures answers == old(answers) + [e]
    {
      e := CtlErrno(kernel, open, op, fd);
      kernel := EpollCtl(kernel, open, op, fd, ev);
      answers := answers + [e];
    }

    /** The first half of epoll_apply_one_change: which op, with which events */
    static method Choose(ch: EventChange) returns (op: CtlOp, events: Epev)
      ensures events == Epev(false, false, false) <==> ch.read.Same? && ch.write.Same?
      ensures !op.CtlDel? ==>
        Interest(events.in_, events.out) == (if ch.read.Same? && ch.write.Same? then NOTHING else ch.Target())
      ensures !op.CtlDel? ==> (events.et <==> ch.read == Add(true) || ch.write == Add(true))
      ensures !(ch.read.Same? && ch.write.Same?) ==> (op.CtlDel? <==> ch.Target() == NOTHING)
      ensures op.CtlMod? ==> ch.before != NOTHING
      ensures op.CtlAdd? && !(ch.read.Same? && ch.write.Same?) ==> ch.before == NOTHING
      ensures op.CtlDel? && ch.Sensible() ==> ch.before != NOTHING
    {
      events := Epev(false, false, false);
      op := CtlAdd;
      if ch.read.Add? || ch.write.Add? {
        if ch.read.Add? {
          events := events.(in_ := true);
        } else if ch.read.Del? {
        } else if ch.before.read {
          events := events.(in_ := true);
        }
        if ch.write.Add? {
          events := events.(out := true);
        } else if ch.write.Del? {
        } else if ch.before.write {
          events := events.(out := true);
        }
        if (ch.read.Add? && ch.read.et) || (ch.write.Add? && ch.write.et) {
          events := events.(et := true);
        }
        if ch.before != NOTHING {
          op := CtlMod;
        }
      } else if ch.read.Del? || ch.write.Del? {
        op := CtlDel;
        if ch.read.Del? {
          if ch.write.Del? {
            events := Epev(true, true, false);
          } else if ch.before.write {
            events := Epev(false, true, false);
            op := CtlMod;
          } else {
            events := Epev(true, false, false);
          }
        } else {
          if ch.before.read {
            events := Epev(true, false, false);
            op := CtlMod;
          } else {
            events := Epev(false, true, false);
          }
        }
      }
    }

    /**
     epoll_apply_one_change.  Whatever the kernel has for an open descriptor, it has the
     target afterwards; the first epoll_ctl succeeds if what it has is what the change says.
     */
    method ApplyOneChange(ch: EventChange) returns (r: int)
      modifies this`kernel, this`answers
      ensures ch.read.Same? && ch.write.Same? ==> r == 0 && kernel == old(kernel) && answers == old(answers)
      ensures !(ch.read.Same? && ch.write.Same?) && ch.fd in open ==>
        && r == 0 && Registered(kernel, ch.fd) == ch.Target() && (ch.fd in kernel <==> ch.Target() != NOTHING)
        && (ch.fd in kernel ==> kernel[ch.fd].et == (ch.read == Add(true) || ch.write == Add(true)))
      ensures ch.fd !in open ==> kernel == old(kernel) && (r < 0 ==> ch.Target() != NOTHING)
      ensures forall fd ::
        fd != ch.fd ==> (fd in kernel <==> fd in old(kernel)) && (fd in kernel ==> kernel[fd] == old(kernel)[fd])
      ensures ch.fd in open && ch.Sensible() && ch.before == Registered(old(kernel), ch.fd) && old(KernelOk()) ==>
        answers == old(answers) || answers == old(answers) + [Success]
    {
      var op, events := Choose(ch);
      if events == Epev(false, false, false) {
        return 0;
      }
      var e := Ctl(op, ch.fd, events);
      if e != Success {
        if op.CtlMod? && e == ENOENT {
          var e' := Ctl(CtlAdd, ch.fd, events);
          if e' != Success {
            return -1;
          }
        } else if op.CtlAdd? && e == EEXIST {
          var e' := Ctl(CtlMod, ch.fd, events);
          if e' != Success {
            return -1;
          }
        } else if op.CtlDel? && (e == ENOENT || e == EBADF) {
        } else {
          return -1;
        }
      }
      return 0;
    }

    // ----- telling the backend

    /** event_changelist_get_or_construct, growing the array when it is full */
    method GetOrConstruct(fd: int, before: Interest) returns (idx: nat)
      requires Indexed(io, changes, nChanges) && 0 <= fd < |io| && io[fd].Some?
      modifies this`io, this`changes, this`nChanges
      ensures Indexed(io, changes, nChanges) && idx < nChanges <= |changes| && changes[idx].fd == fd
      ensures io == old(io)[fd := Some(old(io)[fd].value.(idxplus1 := idx + 1))]
      ensures if old(io)[fd].value.idxplus1 > 0 then changes == old(changes) && io == old(io)
        else changes[idx] == EventChange(fd, before, Same, Same)
      ensures forall f, w :: f != fd ==>
        Leads(io, changes, kernel, open, f, w) == Leads(old(io), old(changes), kernel, open, f, w)
    {
      hide Leads, Indexed;
      IndexHere(io, changes, nChanges, fd);
      var info := io[fd].value;
      if info.idxplus1 == 0 {
        ghost var before' := changes;
        if nChanges == |changes| {
          var size := if |changes| < 64 then 64 else |changes| * 2;
          assert |seq(size - |changes|, _ => EventChange(0, NOTHING, Same, Same))| == size - |changes|;
          var more: seq<EventChange> :| |more| == size - |changes|;  // uninitialised memory
          changes := changes + more;
        }
        idx := nChanges;
        ghost var after := changes[idx := EventChange(fd, before, Same, Same)];
        NewChange(io, before', idx, after, fd, kernel, open);
        nChanges := nChanges + 1;
        io := io[fd := Some(info.(idxplus1 := idx + 1))];
        changes := changes[idx := EventChange(fd, before, Same, Same)];
      } else {
        idx := info.idxplus1 - 1;
        assert io == io[fd := io[fd]];
      }
    }

    /** What a backend's add and del leave behind: only fd's own change is touched, and it now leads to w. */
    ghost predicate Told(was: seq<Option<EvmapIo>>, fd: int, w: Interest)
      reads this
    {
      && Indexed(io, changes, nChanges) && (changelist || nChanges == 0) && KernelOk() && AllSucceeded()
      && 0 <= fd < |io| && io[fd].Some? && fd < |was| && was[fd].Some?
      && io == was[fd := Some(was[fd].value.(idxplus1 := io[fd].value.idxplus1))]
      && Leads(io, changes, kernel, open, fd, w)
      && (forall f :: f != fd ==> Leads(io, changes, kernel, open, f, Wanted(was, f)))
    }

    /** event_changelist_add */
    method ChangelistAdd(fd: int, was: Interest, res: Interest, et: bool)
      requires changelist && Valid() && 0 <= fd < |io| && io[fd].Some? && fd in open && was == Wanted(io, fd)
      modifies this`io, this`changes, this`nChanges
      ensures Told(old(io), fd, Interest(was.read || res.read, was.write || res.write))
      ensures ChangeOn(io, changes, fd) == Some(Joining(ChangeOn(old(io), old(changes), fd), fd, was, res, et))
    {
      hide EntriesOk, KernelOk, AllSucceeded, Indexed;
      IndexHere(io, changes, nChanges, fd);
      assert Leads(io, changes, kernel, open, fd, was);
      var idx := GetOrConstruct(fd, was);
      var ch := changes[idx];
      if res.read {
        ch := ch.(read := Add(et));
      }
      if res.write {
        ch := ch.(write := Add(et));
      }
      NewTarget(io, changes, nChanges, idx, ch, kernel, open);
      changes := changes[idx := ch];
    }

    /** event_changelist_del */
    method ChangelistDel(fd: int, was: Interest, res: Interest)
      requires changelist && Valid() && 0 <= fd < |io| && io[fd].Some? && fd in open && was == Wanted(io, fd)
      requires (res.read ==> was.read) && (res.write ==> was.write)
      modifies this`io, this`changes, this`nChanges
      ensures Told(old(io), fd, Interest(was.read && !res.read, was.write && !res.write))
      ensures ChangeOn(io, changes, fd) == Some(Leaving(ChangeOn(old(io), old(changes), fd), fd, was, res))
    {
      hide EntriesOk, KernelOk, AllSucceeded, Indexed;
      IndexHere(io, changes, nChanges, fd);
      assert Leads(io, changes, kernel, open, fd, was);
      var idx := GetOrConstruct(fd, was);
      var ch := changes[idx];
      if res.read {
        if !ch.before.read && ch.read.Add? {
          ch := ch.(read := Same);
        } else {
          ch := ch.(read := Del);
        }
      }
      if res.write {
        if !ch.before.write && ch.write.Add? {
          ch := ch.(write := Same);
        } else {
          ch := ch.(write := Del);
        }
      }
      NewTarget(io, changes, nChanges, idx, ch, kernel, open);
      changes := changes[idx := ch];
    }

    /** epoll_nochangelist_add, and epoll_nochangelist_del when del: the change is made at once */
    method TellNow(fd: int, was: Interest, res: Interest, et: bool, del: bool) returns (r: int)
      requires !changelist && Valid() && 0 <= fd < |io| && io[fd].Some? && fd in open && was == Wanted(io, fd)
      requires del ==> (res.read ==> was.read) && (res.write ==> was.write)
      modifies this`kernel, this`answers
      ensures r == 0
      ensures Told(old(io), fd,
                   if del then Interest(was.read && !res.read, was.write && !res.write)
                   else Interest(was.read || res.read, was.write || res.write))
    {
      hide EntriesOk, Indexed;
      IndexHere(io, changes, nChanges, fd);
      assert Leads(io, changes, kernel, open, fd, was);
      var ch := EventChange(fd, was, Same, Same);
      if res.write {
        ch := ch.(write := if del then Del else Add(et));
      }
      if res.read {
        ch := ch.(read := if del then Del else Add(et));
      }
      r := ApplyOneChange(ch);
      assert io == io[fd := io[fd]];
    }

    // ----- adding and deleting events

    /** evmap_make_space */
    method MakeSpace(slot: nat)
      requires Valid()
      modifies this`io
      ensures Valid() && |io| > slot && forall fd :: EventsOn(io, fd) == EventsOn(old(io), fd)
      ensures forall fd :: Wanted(io, fd) == Wanted(old(io), fd) && IdxPlus1(io, fd) == IdxPlus1(old(io), fd)
    {
      if |io| <= slot {
        var n := if |io| != 0 then |io| else 32;
        while n <= slot
          invariant n >= |io| && n > 0
          decreases slot - n
        {
          n := n * 2;
        }
        ghost var was := io;
        io := io + seq(n - |io|, _ => None);
        SameIdx(was, io, changes, nChanges, kernel, open);
        SameEntries(was, io);
      }
    }

    /** GET_IO_SLOT_AND_CTOR */
    method GetSlot(fd: nat) returns (ctx: EvmapIo)
      requires Valid()
      modifies this`io
      ensures Valid() && forall f :: EventsOn(io, f) == EventsOn(old(io), f)
      ensures Wanted(io, fd) == Wanted(old(io), fd) && IdxPlus1(io, fd) == IdxPlus1(old(io), fd)
      ensures fd < |io| && io[fd] == Some(ctx) && EntryOk(fd, ctx.events, ctx.nread, ctx.nwrite)
    {
      if fd >= |io| {
        MakeSpace(fd);
      }
      if io[fd].None? {
        ghost var was := io;
        io := io[fd := Some(EMPTY_IO)];
        SameIdx(was, io, changes, nChanges, kernel, open);
        SameEntries(was, io);
      }
      ctx := io[fd].value;
    }

    /** Nothing to tell. */
    lemma NotTold(fd: int)
      requires Valid() && 0 <= fd < |io| && io[fd].Some?
      ensures Told(io, fd, Wanted(io, fd)) && EntriesOk(io)
    {
      hide Leads, Indexed, KernelOk, AllSucceeded;
      assert io == io[fd := io[fd]];
    }

    /** evsel->add, or evsel->del when del */
    method Tell(fd: int, was: Interest, res: Interest, et: bool, del: bool) returns (r: int)
      requires Valid() && 0 <= fd < |io| && io[fd].Some? && fd in open && was == Wanted(io, fd)
      requires del ==> (res.read ==> was.read) && (res.write ==> was.write)
      modifies this
      ensures r == 0 && (changelist ==> kernel == old(kernel))
      ensures Told(old(io), fd,
                   if del then Interest(was.read && !res.read, was.write && !res.write)
                   else Interest(was.read || res.read, was.write || res.write))
      ensures changelist ==>
        var ch := ChangeOn(old(io), old(changes), fd);
        ChangeOn(io, changes, fd) == Some(if del then Leaving(ch, fd, was, res) else Joining(ch, fd, was, res, et))
    {
      hide Leads, Indexed, EntriesOk, InStep, KernelOk, AllSucceeded, Joining, Leaving, ChangeOn;
      r := 0;
      if !changelist {
        r := TellNow(fd, was, res, et, del);
      } else if del {
        ChangelistDel(fd, was, res);
      } else {
        ChangelistAdd(fd, was, res, et);
      }
    }

    /** The end of evmap_io_add and evmap_io_del: the backend knows, and now the entry of fd does. */
    method Settle(ghost was: seq<Option<EvmapIo>>, fd: int, nread: nat, nwrite: nat, events: seq<Event>)
      requires Told(was, fd, Interest(nread > 0, nwrite > 0)) && EntriesOk(was)
      requires EntryOk(fd, events, nread, nwrite)
      modifies this`io
      ensures Valid() && |io| == |was| && EventsOn(io, fd) == events
      ensures Wanted(io, fd) == Interest(nread > 0, nwrite > 0) && IdxPlus1(io, fd) == IdxPlus1(old(io), fd)
      ensures forall f :: f != fd ==> EventsOn(io, f) == EventsOn(was, f)
    {
      hide EntryOk, Leads, Indexed, KernelOk, AllSucceeded;
      ghost var told := io;
      io := io[fd := Some(io[fd].value.(nread := nread, nwrite := nwrite, events := events))];
      SameIdx(told, io, changes, nChanges, kernel, open);
      forall f ensures Leads(io, changes, kernel, open, f, Wanted(io, f)) {
        assert f != fd ==> Wanted(io, f) == Wanted(was, f);
      }
    }

    /**
     evmap_io_add: -1, and nothing registered, exactly if a counter would overflow; 1 exactly if the backend
     has something new to watch
     */
    method IoAdd(ev: Event) returns (r: int)
      requires Valid() && (0 <= ev.fd ==> ev.fd in open) && ev !in EventsOn(io, ev.fd)
      modifies this
      ensures Valid()
      ensures ev.fd < 0 ==> r == 0 && io == old(io)
      ensures ev.fd >= 0 ==>
        && EventsOn(io, ev.fd) == EventsOn(old(io), ev.fd) + (if r == -1 then [] else [ev])
        && r == (if TooMany(EventsOn(old(io), ev.fd), ev) then -1
                 else if Wanted(io, ev.fd) != Wanted(old(io), ev.fd) then 1
                 else 0)
      ensures forall fd :: fd != ev.fd ==> EventsOn(io, fd) == EventsOn(old(io), fd)
      ensures changelist ==> kernel == old(kernel)
      ensures changelist && r == 1 ==>
        var was, now := Wanted(old(io), ev.fd), Wanted(io, ev.fd);
        ChangeOn(io, changes, ev.fd) == Some(Joining(
          ChangeOn(old(io), old(changes), ev.fd), ev.fd, was,
          Interest(now.read && !was.read, now.write && !was.write), ev.et))
    {
      hide Leads, Indexed, KernelOk, AllSucceeded, EntryOk, EntriesOk, InStep, Told, TooMany, CountRead, CountWrite,
        Without, Joining;
      var fd := ev.fd;
      if fd < 0 {
        return 0;
      }
      var ctx := GetSlot(fd);
      ghost var before := io;
      EntryPush(fd, ctx.events, ctx.nread, ctx.nwrite, ev);
      var nread, nwrite := ctx.nread, ctx.nwrite;
      var was := Interest(nread != 0, nwrite != 0);
      var res := NOTHING;
      if ev.read {
        nread := nread + 1;
        res := res.(read := nread == 1);
      }
      if ev.write {
        nwrite := nwrite + 1;
        res := res.(write := nwrite == 1);
      }
      if nread > 0xffff || nwrite > 0xffff {
        return -1;
      }
      r := 0;
      NotTold(fd);
      assert Interest(was.read || res.read, was.write || res.write) == Interest(nread > 0, nwrite > 0);
      if res != NOTHING {
        var failed := Tell(fd, was, res, ev.et, false);
        if failed == -1 {
          return -1;
        }
        r := 1;
      }
      Settle(before, fd, nread, nwrite, ctx.events + [ev]);
    }

    /** evmap_io_del: 1 exactly if the backend has less to watch */
    method IoDel(ev: Event) returns (r: int)
      requires Valid() && (0 <= ev.fd < |io| ==> ev in EventsOn(io, ev.fd) && ev.fd in open)
      modifies this
      ensures Valid() && |io| == |old(io)|
      ensures ev.fd < 0 ==> r == 0 && io == old(io)
      ensures ev.fd >= |io| ==> r == -1 && io == old(io)
      ensures 0 <= ev.fd < |io| ==>
        && EventsOn(io, ev.fd) == Without(EventsOn(old(io), ev.fd), ev)
        && r == if Wanted(io, ev.fd) != Wanted(old(io), ev.fd) then 1 else 0
      ensures forall fd :: fd != ev.fd ==> EventsOn(io, fd) == EventsOn(old(io), fd)
      ensures changelist ==> kernel == old(kernel)
      ensures changelist && r == 1 ==>
        var was, now := Wanted(old(io), ev.fd), Wanted(io, ev.fd);
        ChangeOn(io, changes, ev.fd) == Some(Leaving(
          ChangeOn(old(io), old(changes), ev.fd), ev.fd, was,
          Interest(was.read && !now.read, was.write && !now.write)))
    {
      hide Leads, Indexed, KernelOk, AllSucceeded, EntryOk, EntriesOk, InStep, Told, TooMany, CountRead, CountWrite,
        Without, Leaving;
      var fd := ev.fd;
      if fd < 0 {
        return 0;
      }
      if fd >= |io| {
        return -1;
      }
      var ctx := io[fd].value;
      ghost var before := io;
      EntryAt(io, fd);
      EntryWithout(fd, ctx.events, ctx.nread, ctx.nwrite, ev);
      var nread, nwrite := ctx.nread, ctx.nwrite;
      var was := Interest(nread != 0, nwrite != 0);
      var res := NOTHING;
      if ev.read {
        nread := nread - 1;
        res := res.(read := nread == 0);
      }
      if ev.write {
        nwrite := nwrite - 1;
        res := res.(write := nwrite == 0);
      }
      r := 0;
      NotTold(fd);
      assert Interest(was.read && !res.read, was.write && !res.write) == Interest(nread > 0, nwrite > 0);
      if res != NOTHING {
        var failed := Tell(fd, was, res, false, true);
        if failed == -1 {
          return -1;
        }
        r := 1;
      }
      Settle(before, fd, nread, nwrite, Without(ctx.events, ev));
    }

    // ----- dispatching

    /** After the first i changes: what they asked for is in the kernel, and the others still lead to it. */
    ghost predicate FlushedTo(i: nat)
      reads this
    {
      forall fd :: FlushedAt(io, changes, kernel, open, i, fd)
    }

    /** epoll_apply_changes */
    method ApplyChanges() returns (r: int)
      requires Valid()
      modifies this`kernel, this`answers
      ensures r == 0 && KernelOk() && AllSucceeded()
      ensures forall fd :: Registered(kernel, fd) == Wanted(io, fd)
      ensures forall fd :: EdgeOn(old(kernel), ChangeOn(io, changes, fd), kernel, fd)
    {
      hide EntriesOk, Leads, Indexed;
      r := 0;
      ghost var k0 := kernel;
      EdgesNone(io, changes, k0);
      forall fd ensures FlushedAt(io, changes, kernel, open, 0, fd) {}
      for i := 0 to nChanges
        invariant r == 0 && KernelOk() && AllSucceeded() && FlushedTo(i) && EdgesTo(io, changes, k0, kernel, i)
      {
        hide EdgesTo;
        ghost var k := kernel;
        ghost var fd := FlushNext(io, changes, nChanges, k, open, i);
        var one := ApplyOneChange(changes[i]);
        if one < 0 {
          r := -1;
        }
        assert changes[i].before == Interest(changes[i].before.read, changes[i].before.write);
        FlushStep(io, changes, nChanges, k, kernel, open, i, i + 1);
        EdgesNext(io, changes, nChanges, k0, k, kernel, i);
      }
      FlushDone(io, changes, nChanges, kernel, open);
      EdgesDone(io, changes, nChanges, k0, kernel);
    }

    /** event_changelist_remove_all */
    method RemoveAll()
      requires Indexed(io, changes, nChanges) && EntriesOk(io)
      modifies this`io, this`nChanges
      ensures nChanges == 0 && EntriesOk(io) && (forall fd :: IdxPlus1(io, fd) == 0)
      ensures forall fd :: EventsOn(io, fd) == EventsOn(old(io), fd) && Wanted(io, fd) == Wanted(old(io), fd)
    {
      hide EntryOk, Indexed;
      ghost var was := io;
      for i := 0 to nChanges
        invariant EntriesOk(io) && |io| == |was| && nChanges == old(nChanges)
        invariant forall fd :: IdxPlus1(io, fd) == if IdxPlus1(was, fd) <= i then 0 else IdxPlus1(was, fd)
        invariant forall fd :: EventsOn(io, fd) == EventsOn(was, fd) && Wanted(io, fd) == Wanted(was, fd)
      {
        ChangeAt(was, changes, nChanges, i);
        var fd := changes[i].fd;
        assert IdxPlus1(was, fd) == i + 1 == IdxPlus1(io, fd);
        io := io[fd := Some(io[fd].value.(idxplus1 := 0))];
        forall f ensures IdxPlus1(io, f) == if IdxPlus1(was, f) <= i + 1 then 0 else IdxPlus1(was, f) {
          OnlyOne(was, changes, nChanges, i, f);
        }
      }
      forall fd ensures IdxPlus1(io, fd) == 0 {
        OnlyOne(was, changes, nChanges, 0, fd);
      }
      nChanges := 0;
    }

    /** The part of epoll_dispatch that flushes the change list. */
    method Dispatch()
      requires Valid()
      modifies this
      ensures Valid() && nChanges == 0 && forall fd :: Registered(kernel, fd) == Wanted(io, fd)
      ensures forall fd :: EventsOn(io, fd) == EventsOn(old(io), fd) && Wanted(io, fd) == Wanted(old(io), fd)
      ensures forall fd :: EdgeOn(old(kernel), ChangeOn(old(io), old(changes), fd), kernel, fd)
      ensures forall fd :: ChangeOn(io, changes, fd) == None
    {
      hide EntryOk, EntriesOk, Indexed;
      var r := ApplyChanges();
      BoundOf(io, changes, nChanges);
      RemoveAll();
      NoneIndexed(io, changes);
    }
  }

  /** EPOLLET after the first n changes. */
  ghost predicate EdgesTo(io: seq<Option<EvmapIo>>, changes: seq<EventChange>, k0: Kernel, k: Kernel, n: nat)
  {
    forall fd :: EdgeOn(k0, if IdxPlus1(io, fd) <= n then ChangeOn(io, changes, fd) else None, k, fd)
  }

  lemma EdgesNone(io: seq<Option<EvmapIo>>, changes: seq<EventChange>, k: Kernel)
    ensures EdgesTo(io, changes, k, k, 0)
  {}

  lemma EdgesNext(io: seq<Option<EvmapIo>>, changes: seq<EventChange>, n: nat, k0: Kernel, k: Kernel, k': Kernel,
                  i: nat)
    requires Indexed(io, changes, n) && i < n && EdgesTo(io, changes, k0, k, i)
    requires var ch := changes[i];
      && (ch.read.Same? && ch.write.Same? ==> k' == k)
      && (!(ch.read.Same? && ch.write.Same?) && ch.fd in k' ==>
          k'[ch.fd].et == (ch.read == Add(true) || ch.write == Add(true)))
    requires forall fd :: fd != changes[i].fd ==> (fd in k' <==> fd in k) && (fd in k' ==> k'[fd] == k[fd])
    ensures EdgesTo(io, changes, k0, k', i + 1)
  {
    assert FoundBack(io, changes, i);
    forall fd ensures EdgeOn(k0, if IdxPlus1(io, fd) <= i + 1 then ChangeOn(io, changes, fd) else None, k', fd) {
      assert EdgeOn(k0, if IdxPlus1(io, fd) <= i then ChangeOn(io, changes, fd) else None, k, fd);
      assert Finds(io, changes, n, fd);
    }
  }

  lemma EdgesDone(io: seq<Option<EvmapIo>>, changes: seq<EventChange>, n: nat, k0: Kernel, k: Kernel)
    requires Indexed(io, changes, n) && EdgesTo(io, changes, k0, k, n)
    ensures forall fd :: EdgeOn(k0, ChangeOn(io, changes, fd), k, fd)
  {
    forall fd ensures EdgeOn(k0, ChangeOn(io, changes, fd), k, fd) {
      assert EdgeOn(k0, if IdxPlus1(io, fd) <= n then ChangeOn(io, changes, fd) else None, k, fd);
      assert Finds(io, changes, n, fd);
    }
  }

  ghost predicate FlushedAt(io: seq<Option<EvmapIo>>, changes: seq<EventChange>, k: Kernel, open: set<int>, i: nat,
                            fd: int)
  {
    if 0 < IdxPlus1(io, fd) <= i then Registered(k, fd) == Wanted(io, fd)
    else Leads(io, changes, k, open, fd, Wanted(io, fd))
  }

  lemma ChangeAt(io: seq<Option<EvmapIo>>, changes: seq<EventChange>, n: nat, i: nat)
    requires Indexed(io, changes, n) && i < n
    ensures n <= |changes| && 0 <= changes[i].fd < |io| && io[changes[i].fd].Some?
    ensures io[changes[i].fd].value.idxplus1 == i + 1
  {
    assert FoundBack(io, changes, i);
  }

  lemma OnlyOne(io: seq<Option<EvmapIo>>, changes: seq<EventChange>, n: nat, i: nat, fd: int)
    requires Indexed(io, changes, n)
    ensures n <= |changes| && IdxPlus1(io, fd) <= n && (i < n && IdxPlus1(io, fd) == i + 1 ==> changes[i].fd == fd)
  {
    assert Finds(io, changes, n, fd);
  }

  lemma BoundOf(io: seq<Option<EvmapIo>>, changes: seq<EventChange>, n: nat)
    requires Indexed(io, changes, n)
    ensures n <= |changes|
  {}

  lemma NoneIndexed(io: seq<Option<EvmapIo>>, changes: seq<EventChange>)
    requires forall fd :: IdxPlus1(io, fd) == 0
    ensures Indexed(io, changes, 0)
  {}

  /** The next change is legal: what it says was there is there. */
  lemma FlushNext(io: seq<Option<EvmapIo>>, changes: seq<EventChange>, n: nat, k: Kernel, open: set<int>, i: nat)
    returns (fd: int)
    requires Indexed(io, changes, n) && i < n
    requires forall f :: FlushedAt(io, changes, k, open, i, f)
    ensures i < |changes| && fd == changes[i].fd && fd in open && changes[i].before == Registered(k, fd)
    ensures changes[i].Sensible()
    ensures changes[i].Target() == Wanted(io, fd) && IdxPlus1(io, fd) == i + 1
  {
    ChangeAt(io, changes, n, i);
    fd := changes[i].fd;
    assert FlushedAt(io, changes, k, open, i, fd);
  }

  lemma FlushStep(io: seq<Option<EvmapIo>>, changes: seq<EventChange>, n: nat, k: Kernel, k': Kernel, open: set<int>,
                  i: nat, j: nat)
    requires Indexed(io, changes, n) && i < n && j == i + 1
    requires forall f :: FlushedAt(io, changes, k, open, i, f)
    requires Registered(k', changes[i].fd) == Wanted(io, changes[i].fd)
    requires forall f :: f != changes[i].fd ==> Registered(k', f) == Registered(k, f)
    ensures forall f :: FlushedAt(io, changes, k', open, j, f)
  {
    ChangeAt(io, changes, n, i);
    forall f ensures FlushedAt(io, changes, k', open, j, f) {
      OnlyOne(io, changes, n, i, f);
      assert FlushedAt(io, changes, k, open, i, f);
    }
  }

  lemma FlushDone(io: seq<Option<EvmapIo>>, changes: seq<EventChange>, n: nat, k: Kernel, open: set<int>)
    requires Indexed(io, changes, n) && forall f :: FlushedAt(io, changes, k, open, n, f)
    ensures forall f :: Registered(k, f) == Wanted(io, f)
  {
    forall f ensures Registered(k, f) == Wanted(io, f) {
      OnlyOne(io, changes, n, 0, f);
      assert FlushedAt(io, changes, k, open, n, f);
    }
  }

  // ----- runs

  datatype Op = AddEvent(ev: Event) | DelEvent(ev: Event) | DispatchOnce

  /** The events registered on fd after the first n operations. */
  ghost function After(ops: seq<Op>, n: nat, fd: int): (evs: seq<Event>)
    requires n <= |ops|
  {
    if n == 0 then []
    else
      var evs := After(ops, n - 1, fd);
      match ops[n - 1]
      case AddEvent(ev) => if ev.fd == fd >= 0 && !TooMany(evs, ev) then evs + [ev] else evs
      case DelEvent(ev) => if ev.fd == fd >= 0 then Without(evs, ev) else evs
      case DispatchOnce => evs
  }

  /**
   What the callers must respect: descriptors stay open; an event is added once, and deleted only when it was
   added.
   */
  ghost predicate Legal(ops: seq<Op>, open: set<int>)
  {
    forall i :: 0 <= i < |ops| ==> LegalAt(ops, open, i)
  }

  ghost predicate LegalAt(ops: seq<Op>, open: set<int>, i: nat)
    requires i < |ops|
  {
    match ops[i]
    case AddEvent(ev) => ev.fd >= 0 ==> ev.fd in open && ev !in After(ops, i, ev.fd)
    case DelEvent(ev) => ev.fd >= 0 ==> ev.fd in open && ev in After(ops, i, ev.fd)
    case DispatchOnce => true
  }

  method Run(base: EventBase, ops: seq<Op>)
    requires base.Valid() && Legal(ops, base.open) && forall fd :: EventsOn(base.io, fd) == []
    modifies base
    ensures base.Valid() && forall fd :: EventsOn(base.io, fd) == After(ops, |ops|, fd)
  {
    hide EventBase.Valid, Without, TooMany, EventsOn;
    for i := 0 to |ops|
      invariant base.Valid() && forall fd :: EventsOn(base.io, fd) == After(ops, i, fd)
    {
      assert LegalAt(ops, base.open, i);
      match ops[i] {
        case AddEvent(ev) =>
          NoneBelowZero(base.io, ev.fd);
          var r := base.IoAdd(ev);
        case DelEvent(ev) =>
          NoneBelowZero(base.io, ev.fd);
          var r := base.IoDel(ev);
        case DispatchOnce =>
          base.Dispatch();
      }
    }
  }

  lemma NoneBelowZero(io: seq<Option<EvmapIo>>, fd: int)
    ensures !(0 <= fd < |io|) ==> EventsOn(io, fd) == []
  {}

  lemma {:induction false} SomeoneCounts(evs: seq<Event>)
    ensures CountRead(evs) > 0 <==> exists i :: 0 <= i < |evs| && evs[i].read
    ensures CountWrite(evs) > 0 <==> exists i :: 0 <= i < |evs| && evs[i].write
  {
    if evs != [] {
      var n := |evs| - 1;
      SomeoneCounts(evs[..n]);
      assert forall i :: 0 <= i < n ==> evs[..n][i] == evs[i];
    }
  }

  ghost function Asked(evs: seq<Event>): (i: Interest)
  {
    Interest(exists i :: 0 <= i < |evs| && evs[i].read, exists i :: 0 <= i < |evs| && evs[i].write)
  }

  /** A descriptor is watched for what some event registered on it asks for. */
  lemma WantedIs(io: seq<Option<EvmapIo>>, fd: int)
    requires EntriesOk(io)
    ensures Wanted(io, fd) == Asked(EventsOn(io, fd))
  {
    SomeoneCounts(EventsOn(io, fd));
  }

  /**
   Any run, on a base with the change list and on one without, then one more dispatch: both
   kernels watch exactly what the events registered ask for, and no epoll_ctl ever failed.
   */
  method BothBackends(open: set<int>, ops: seq<Op>) returns (coalesced: Kernel, immediate: Kernel, answers: seq<Errno>)
    requires Legal(ops, open)
    ensures forall fd :: Registered(coalesced, fd) == Registered(immediate, fd) == Asked(After(ops, |ops|, fd))
    ensures forall fd :: fd in coalesced || fd in immediate ==> fd in open && Asked(After(ops, |ops|, fd)) != NOTHING
    ensures forall i :: 0 <= i < |answers| ==> answers[i] == Success
  {
    var a := new EventBase(true, open);
    var b := new EventBase(false, open);
    Run(a, ops);
    Run(b, ops);
    a.Dispatch();
    b.Dispatch();
    forall fd ensures Registered(a.kernel, fd) == Registered(b.kernel, fd) == Asked(After(ops, |ops|, fd)) {
      WantedIs(a.io, fd);
      WantedIs(b.io, fd);
    }
    coalesced, immediate, answers := a.kernel, b.kernel, a.answers + b.answers;
  }

  /**
   Two edge-triggered events on one descriptor, one for reading and one for writing; and then the one for
   writing is deleted: what is left is level-triggered in the kernel.
   */
  method EdgeLost() returns (was: Epev, now: Epev)
    ensures was == Epev(true, true, true) && now == Epev(true, false, false)
  {
    hide Indexed, EntriesOk, EventBase.InStep, EventBase.KernelOk, EventBase.AllSucceeded, CountRead, CountWrite, Asked,
      Wanted, ChangeOn, Without, TooMany;
    var base := new EventBase(true, {0});
    TwoEvents();
    WantedIs(base.io, 0);
    NoChange(base.io, base.changes, 0);
    var r := base.IoAdd(READING);
    WantedIs(base.io, 0);
    r := base.IoAdd(WRITING);
    WantedIs(base.io, 0);
    base.Dispatch();
    was := base.kernel[0];
    assert ChangeOn(base.io, base.changes, 0) == None;
    r := base.IoDel(WRITING);
    WantedIs(base.io, 0);
    assert ChangeOn(base.io, base.changes, 0) == Some(EventChange(0, Interest(true, true), Same, Del));
    base.Dispatch();
    now := base.kernel[0];
  }

  const READING := Event(1, 0, true, false, true)
  const WRITING := Event(2, 0, false, true, true)

  lemma TwoEvents()
    ensures Asked([]) == NOTHING && Asked([READING]) == Interest(true, false)
    ensures Asked([READING, WRITING]) == Interest(true, true) && [] + [READING] == [READING]
    ensures [READING] + [WRITING] == [READING, WRITING] && Without([READING, WRITING], WRITING) == [READING]
    ensures !TooMany([], READING) && !TooMany([READING], WRITING)
  {
    CountPush([], READING);
    assert [] + [READING] == [READING];
    assert [READING, WRITING][..1] == [READING];
    assert [READING, WRITING][0].read && [READING, WRITING][1].write;
  }

  lemma NoChange(io: seq<Option<EvmapIo>>, changes: seq<EventChange>, fd: int)
    ensures changes == [] ==> ChangeOn(io, changes, fd) == None
  {}
}
