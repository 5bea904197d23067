/** Any number of evbuffers in one memory, and whole runs of operations on them. */
module EvbufferRun {
  import opened Basics
  import opened Chunks
  import opened Evbuffers
  import opened EvbufferSplice
  import opened EvbufferPullup
  import opened EvbufferReserve
  import opened EvbufferCommit
  import opened EvbufferSearch
  import EvbufferValidate

  ghost predicate Disjoint(g: seq<Abs>)
  {
    forall i, j :: 0 <= i < j < |g| ==> Addrs(g[i].cells) !! Addrs(g[j].cells)
  }

  /** Every buffer is sound, but perhaps for where its last_with_datap points; no two have a chunk in common. */
  ghost predicate AllPointed(m: Memory, b: seq<Evbuffer>, g: seq<Abs>)
  {
    |b| == |g| && Disjoint(g) && forall i :: 0 <= i < |b| ==> b[i].Pointed(m, g[i])
  }

  /** Every last_with_datap is right. */
  ghost predicate AllMarked(g: seq<Abs>)
  {
    forall i :: 0 <= i < |g| ==> Marked(g[i].cells, g[i].mark)
  }

  /** No buffer has an empty chunk, except one without data, which may have a single one. */
  ghost predicate AllTight(g: seq<Abs>)
  {
    forall i :: 0 <= i < |g| ==> g[i].Tight() && g[i].Packed()
  }

  /** An operation on other chunks leaves a buffer as it is. */
  lemma PointedAway(m: Memory, b: Evbuffer, g: Abs, m': Memory, cs: seq<Cell>, cs': seq<Cell>)
    requires b.Pointed(m, g) && Kept(m, cs, m', cs') && Addrs(cs) !! Addrs(g.cells)
    ensures b.Pointed(m', g) && Addrs(cs') !! Addrs(g.cells)
  {
    hide Kept, Seg, Sound, Bytes, BytesTo;
    KeptApart(m, cs, m', cs', g.cells, NULL);
  }

  lemma OneChanged(m: Memory, b: seq<Evbuffer>, g: seq<Abs>, i: nat, m': Memory, bi: Evbuffer, gi: Abs)
    requires AllPointed(m, b, g) && i < |b| && bi.Pointed(m', gi) && Kept(m, g[i].cells, m', gi.cells)
    ensures AllPointed(m', b[i := bi], g[i := gi])
    ensures AllMarked(g) ==> (AllMarked(g[i := gi]) <==> Marked(gi.cells, gi.mark))
    ensures AllTight(g) && gi.Tight() && gi.Packed() ==> AllTight(g[i := gi])
  {
    hide Evbuffer.Pointed, Kept, Addrs, Marked, Abs.Tight, Abs.Packed;
    var g' := g[i := gi];
    forall k | 0 <= k < |b| && k != i ensures b[k].Pointed(m', g[k]) && Addrs(gi.cells) !! Addrs(g[k].cells) {
      DisjointAt(g, i, k);
      PointedAway(m, b[k], g[k], m', g[i].cells, gi.cells);
    }
    assert g'[i] == gi;
  }

  lemma DisjointAt(g: seq<Abs>, i: nat, k: nat)
    requires Disjoint(g) && i < |g| && k < |g| && i != k
    ensures Addrs(g[i].cells) !! Addrs(g[k].cells)
  {}

  lemma TwoChanged(m: Memory, b: seq<Evbuffer>, g: seq<Abs>, i: nat, j: nat, m': Memory, bi: Evbuffer, gi: Abs,
                   bj: Evbuffer, gj: Abs)
    requires AllPointed(m, b, g) && i < |b| && j < |b| && i != j && bi.Pointed(m', gi) && bj.Pointed(m', gj)
    requires Addrs(gi.cells) !! Addrs(gj.cells)
    requires Kept(m, g[i].cells + g[j].cells, m', gi.cells + gj.cells)
    ensures AllPointed(m', b[i := bi][j := bj], g[i := gi][j := gj])
    ensures AllMarked(g) ==>
      (AllMarked(g[i := gi][j := gj]) <==> Marked(gi.cells, gi.mark) && Marked(gj.cells, gj.mark))
    ensures AllTight(g) && gi.Tight() && gi.Packed() && gj.Tight() && gj.Packed() ==> AllTight(g[i := gi][j := gj])
  {
    hide Evbuffer.Pointed, Kept, Addrs, Marked, Abs.Tight, Abs.Packed;
    var g' := g[i := gi][j := gj];
    AddrsJoin(g[i].cells, g[j].cells);
    AddrsJoin(gi.cells, gj.cells);
    forall k | 0 <= k < |b| && k != i && k != j
      ensures b[k].Pointed(m', g[k]) && Addrs(gi.cells) !! Addrs(g[k].cells) && Addrs(gj.cells) !! Addrs(g[k].cells) {
      DisjointAt(g, i, k);
      DisjointAt(g, j, k);
      PointedAway(m, b[k], g[k], m', g[i].cells + g[j].cells, gi.cells + gj.cells);
    }
    assert g'[i] == gi && g'[j] == gj;
  }

  /** What several buffers hold. */
  ghost function AllContents(g: seq<Abs>): (s: seq<seq<byte>>)
    ensures |s| == |g| && forall i :: 0 <= i < |g| ==> s[i] == g[i].Contents()
  {
    seq(|g|, i requires 0 <= i < |g| => g[i].Contents())
  }

  class Buffers {
    var m: Memory
    var b: seq<Evbuffer>
    ghost var g: seq<Abs>

    ghost predicate Pointing()
      reads this
    {
      AllPointed(m, b, g)
    }

    ghost predicate Valid()
      reads this
    {
      Pointing() && AllMarked(g)
    }

    /** Besides, each buffer is Tight and Packed: what most operations keep. */
    ghost predicate Fine()
      reads this
    {
      Valid() && AllTight(g)
    }

    /** The bytes of each buffer. */
    ghost function Contents(): (s: seq<seq<byte>>)
      reads this
    {
      AllContents(g)
    }

    lemma Count()
      requires Valid()
      ensures |Contents()| == |b| && Pointing()
    {}

    lemma ValidAt(i: nat)
      requires Valid() && i < |b|
      ensures i < |g| && b[i].Valid(m, g[i]) && (g[i].mark < |g[i].cells| || g[i].mark == |g[i].cells| == 0)
      ensures Fine() ==> g[i].Tight() && g[i].Packed()
      ensures |Contents()| == |b| && Contents()[i] == g[i].Contents() && b[i].totalLen == |Contents()[i]|
    {
      hide Bytes, BytesTo, Seg, Sound, Marked, Disjoint;
      ValidIs(m, b[i], g[i]);
    }

    /** n buffers from evbuffer_new */
    constructor (n: nat)
      ensures Fine() && |b| == |Contents()| == n && forall i :: 0 <= i < n ==> Contents()[i] == []
    {
      m, b, g := map[], seq(n, _ => EMPTY), seq(n, _ => Abs([], 0));
      EmptyValid(map[]);
      new;
      ValidIs(m, EMPTY, Abs([], 0));
      assert forall i :: 0 <= i < n ==> g[i] == Abs([], 0);
    }

    /** evbuffer_get_length */
    method Length(i: nat) returns (n: nat)
      requires Valid() && i < |b|
      ensures i < |Contents()| && n == |Contents()[i]|
    {
      hide Bytes, BytesTo, Kept, Addrs, Seg, Sound, Marked, Disjoint;
      ValidAt(i);
      n := b[i].totalLen;
    }

    /** evbuffer_add.  If the assertion in it fails, the program ends, and the buffers are as they were before. */
    method Add(i: nat, data: seq<byte>) returns (r: Added)
      requires Valid() && i < |b|
      modifies this
      ensures Pointing() && |b| == |old(b)| && i < |old(g)| && i < |old(Contents())|
      ensures r == Refused <==> |data| > CHAIN_MAX - CHAIN_SIZE || |data| + |old(Contents())[i]| > SIZE_MAX
      ensures old(g)[i].mark < |old(g)[i].cells| || old(g)[i].mark == |old(g)[i].cells| == 0
      ensures r == Broken <==> r != Refused && AddFate(old(g)[i], |data|) == Aborted
      ensures Contents() ==
        if r == Done then old(Contents())[i := old(Contents())[i] + data] else old(Contents())
      ensures Valid() <==> r != Done || AddFate(old(g)[i], |data|) == Intact
      ensures old(Fine()) ==> Fine() && r != Broken
    {
      hide Bytes, BytesTo, Kept, Addrs, Seg, Sound, Marked, Disjoint, AllPointed, AllMarked, AllTight, AddFate,
        Abs.Tight, Abs.Packed, Abs.Contents;
      ValidAt(i);
      ValidIs(m, b[i], g[i]);
      FateTightTo(m, b[i], g[i], |data|);
      var m', bi; ghost var gi;
      r, m', bi, gi := Evbuffers.AddAnywhere(m, b[i], g[i], data);
      if r == Done {
        OneChanged(m, b, g, i, m', bi, gi);
        ValidIs(m', bi, gi);
        m, b, g := m', b[i := bi], g[i := gi];
      }
    }

    /** evbuffer_prepend */
    method Prepend(i: nat, data: seq<byte>) returns (ok: bool)
      requires Valid() && i < |b|
      modifies this
      ensures Valid() && |b| == |old(b)| && i < |old(g)| && i < |old(Contents())|
      ensures ok <==>
        |data| + |old(Contents())[i]| <= SIZE_MAX && |data| <= FrontRoom(old(g)[i]) + (CHAIN_MAX - CHAIN_SIZE)
      ensures ok ==> Contents() == old(Contents())[i := data + old(Contents())[i]]
      ensures !ok && |data| + |old(Contents())[i]| > SIZE_MAX ==> Contents() == old(Contents())
      ensures !ok && |data| + |old(Contents())[i]| <= SIZE_MAX ==>
        Contents() == old(Contents())[i := data[|data| - FrontRoom(old(g)[i])..] + old(Contents())[i]]
      ensures old(Fine()) ==> Fine()
    {
      hide Bytes, BytesTo, Kept, Addrs, Seg, Sound, Marked, Disjoint, AllPointed, AllMarked, AllTight, Abs.Tight,
        Abs.Packed, Abs.Contents;
      ValidAt(i);
      var m', bi; ghost var gi;
      NoneAdded(g[i].Contents());
      ok, m', bi, gi := Evbuffers.Prepend(m, b[i], g[i], data);
      ValidIs(m', bi, gi);
      OneChanged(m, b, g, i, m', bi, gi);
      m, b, g := m', b[i := bi], g[i := gi];
    }

    /** evbuffer_drain */
    method Drain(i: nat, len: nat)
      requires Valid() && i < |b|
      modifies this
      ensures Valid() && |b| == |old(b)| && i < |old(Contents())|
      ensures Contents() == old(Contents())[i := Drop(old(Contents())[i], len)]
      ensures old(Fine()) ==> Fine()
    {
      hide Bytes, BytesTo, Kept, Addrs, Seg, Sound, Marked, Disjoint, AllPointed, AllMarked, AllTight, Abs.Tight,
        Abs.Packed, Abs.Contents;
      ValidAt(i);
      var m', bi; ghost var gi;
      m', bi, gi := Evbuffers.Drain(m, b[i], g[i], len);
      ValidIs(m', bi, gi);
      OneChanged(m, b, g, i, m', bi, gi);
      m, b, g := m', b[i := bi], g[i := gi];
    }

    /** evbuffer_remove */
    method Remove(i: nat, len: nat) returns (out: seq<byte>)
      requires Valid() && i < |b|
      modifies this
      ensures Valid() && |b| == |old(b)| && i < |old(Contents())|
      ensures out == Take(old(Contents())[i], len)
      ensures Contents() == old(Contents())[i := Drop(old(Contents())[i], len)]
      ensures old(Fine()) ==> Fine()
    {
      hide Bytes, BytesTo, Kept, Addrs, Seg, Sound, Marked, Disjoint, AllPointed, AllMarked, AllTight, Abs.Tight,
        Abs.Packed, Abs.Contents;
      ValidAt(i);
      var m', bi; ghost var gi;
      out, m', bi, gi := Evbuffers.Remove(m, b[i], g[i], len);
      ValidIs(m', bi, gi);
      OneChanged(m, b, g, i, m', bi, gi);
      m, b, g := m', b[i := bi], g[i := gi];
    }

    /** evbuffer_pullup, and the bytes it makes contiguous */
    method Pullup(i: nat, size: int) returns (data: Option<seq<byte>>)
      requires Valid() && i < |b|
      modifies this
      ensures Valid() && |b| == |old(b)| && Contents() == old(Contents()) && i < |Contents()|
      ensures var s := Contents()[i]; var n := if size < 0 then |s| else size;
        if 0 < n <= |s| && n <= CHAIN_MAX - CHAIN_SIZE then data == Some(s[..n]) else data == None
      ensures old(Fine()) ==> Fine()
    {
      hide Bytes, BytesTo, Kept, Addrs, Seg, Sound, Marked, Disjoint, AllPointed, AllMarked, AllTight, Abs.Tight,
        Abs.Packed, Abs.Contents;
      ValidAt(i);
      var r, m', bi; ghost var gi;
      r, m', bi, gi := EvbufferPullup.Pullup(m, b[i], g[i], size);
      ValidIs(m', bi, gi);
      OneChanged(m, b, g, i, m', bi, gi);
      var n := if size < 0 then b[i].totalLen else size;
      m, b, g := m', b[i := bi], g[i := gi];
      data := match r case Nothing => None case Within(chain, pos) => Some(m[chain].buffer[pos..pos + n]);
    }

    /** evbuffer_expand */
    method Expand(i: nat, len: nat) returns (e: Expansion)
      requires Valid() && i < |b| && len <= SIZE_MAX
      modifies this
      ensures Valid() && |b| == |old(b)| && Contents() == old(Contents()) && i < |old(g)|
      ensures e.Asserts? || e.Overruns? <==> Wraps(old(g)[i], len)
      ensures len <= CHAIN_MAX - MAX_TO_COPY_IN_EXPAND ==> e.Ready?
    {
      hide Bytes, BytesTo, Kept, Addrs, Seg, Sound, Marked, Disjoint, AllPointed, AllMarked, Abs.Contents, Wraps, Found,
        Inserted;
      ValidAt(i);
      var result, m', bi; ghost var gi, r;
      e, result, m', bi, gi, r := ExpandSinglechain(m, b[i], g[i], len);
      ValidIs(m', bi, gi);
      OneChanged(m, b, g, i, m', bi, gi);
      m, b, g := m', b[i := bi], g[i := gi];
    }

    /** evbuffer_reserve_space, a write of data into the iovecs, and evbuffer_commit_space of what was written */
    method Write(i: nat, size: nat, nVecs: nat, data: seq<byte>) returns (ok: bool)
      requires Valid() && i < |b| && 0 < |data| <= size <= SSIZE_MAX && nVecs >= 1
      modifies this
      ensures Valid() && |b| == |old(b)| && i < |old(g)| && i < |old(Contents())|
      ensures Contents() == if ok then old(Contents())[i := old(Contents())[i] + data] else old(Contents())
      ensures size <= CHAIN_MAX - MAX_TO_COPY_IN_EXPAND ==> (ok <==> nVecs >= 2 || !Skips(old(g)[i], size))
      ensures old(Fine()) && size <= CHAIN_MAX - MAX_TO_COPY_IN_EXPAND ==> ok && (nVecs == 1 ==> Fine())
    {
      hide Bytes, BytesTo, Kept, Addrs, Seg, Sound, Marked, Disjoint, AllPointed, AllMarked, AllTight, Abs.Packed,
        Abs.Contents;
      ValidAt(i);
      var m', bi; ghost var gi;
      ok, m', bi, gi := ReserveWriteCommit(m, b[i], g[i], size, nVecs, data);
      ValidIs(m', bi, gi);
      OneChanged(m, b, g, i, m', bi, gi);
      m, b, g := m', b[i := bi], g[i := gi];
    }

    /** evbuffer_add_buffer */
    method AddBuffer(out: nat, inp: nat)
      requires Valid() && out < |b| && inp < |b|
      modifies this
      ensures Valid() && |b| == |old(b)| == |old(Contents())|
      ensures Contents() == if out == inp then old(Contents())
        else old(Contents())[out := old(Contents())[out] + old(Contents())[inp]][inp := []]
      ensures old(Fine()) ==> Fine()
    {
      hide Bytes, BytesTo, Kept, Addrs, Seg, Sound, Marked, Disjoint, AllMarked, AllTight, Abs.Tight, Abs.Packed,
        Abs.Contents;
      ValidAt(out);
      ValidAt(inp);
      if b[inp].totalLen == 0 || out == inp {
        NothingMoved(Contents(), out, inp);
        return;
      }
      DisjointAt(g, out, inp);
      hide AllPointed;
      var m', bo, bi; ghost var go, gi;
      m', bo, go, bi, gi := EvbufferSplice.AddBuffer(m, b[out], g[out], b[inp], g[inp]);
      ValidIs(m', bo, go);
      ValidIs(m', bi, gi);
      TwoChanged(m, b, g, out, inp, m', bo, go, bi, gi);
      m, b, g := m', b[out := bo][inp := bi], g[out := go][inp := gi];
    }

    /** evbuffer_prepend_buffer */
    method PrependBuffer(out: nat, inp: nat)
      requires Valid() && out < |b| && inp < |b|
      modifies this
      ensures Valid() && |b| == |old(b)| == |old(Contents())|
      ensures Contents() == if out == inp then old(Contents())
        else old(Contents())[out := old(Contents())[inp] + old(Contents())[out]][inp := []]
      ensures old(Fine()) ==> Fine()
    {
      hide Bytes, BytesTo, Kept, Addrs, Seg, Sound, Marked, Disjoint, AllMarked, AllTight, Abs.Tight, Abs.Packed,
        Abs.Contents;
      ValidAt(out);
      ValidAt(inp);
      if b[inp].totalLen == 0 || inp == out {
        NothingMoved(Contents(), out, inp);
        return;
      }
      DisjointAt(g, out, inp);
      hide AllPointed;
      var m', bo, bi; ghost var go, gi;
      m', bo, go, bi, gi := EvbufferSplice.PrependBuffer(m, b[out], g[out], b[inp], g[inp]);
      KeptTurned(m, g[inp].cells, g[out].cells, m', go.cells + gi.cells);
      ValidIs(m', bo, go);
      ValidIs(m', bi, gi);
      TwoChanged(m, b, g, out, inp, m', bo, go, bi, gi);
      m, b, g := m', b[out := bo][inp := bi], g[out := go][inp := gi];
    }

    /** evbuffer_remove_buffer.  If an assertion in it fails, the buffers are taken to be as they were. */
    method RemoveBuffer(src: nat, dst: nat, datlen: nat) returns (aborted: bool, n: nat)
      requires Valid() && src < |b| && dst < |b| && |Contents()| == |b|
      requires src != dst ==> |Contents()[src]| + |Contents()[dst]| <= SIZE_MAX
      modifies this
      ensures Pointing() && |b| == |old(b)| == |old(Contents())| == |old(g)|
      ensures old(g)[dst].mark < |old(g)[dst].cells| || old(g)[dst].mark == |old(g)[dst].cells| == 0
      ensures aborted <==> src != dst && RemoveFate(old(g)[dst], old(g)[src], datlen) == Aborted
      ensures !aborted ==> n == if src == dst then 0 else |Take(old(Contents())[src], datlen)|
      ensures Contents() == if aborted || src == dst then old(Contents())
        else var s := old(Contents()); s[src := Drop(s[src], datlen)][dst := s[dst] + Take(s[src], datlen)]
      ensures Valid() <==>
        || aborted || src == dst
        || (RemoveFate(old(g)[dst], old(g)[src], datlen) == Intact && SourceKept(old(g)[src], datlen))
      ensures old(Fine()) ==> Fine() && !aborted
    {
      hide Bytes, BytesTo, Kept, Addrs, Seg, Sound, Marked, Disjoint, AllMarked, AllTight, Abs.Tight, Abs.Packed,
        Abs.Contents, AddFate, DataAfterSpare, Linked, Whole;
      aborted, n := false, 0;
      ValidAt(src);
      ValidAt(dst);
      if datlen == 0 || dst == src {
        NothingTaken(Contents(), src, dst);
        return;
      }
      DisjointAt(g, dst, src);
      hide AllPointed, RemoveFate, SourceKept;
      var m', bs, bd; ghost var gs, gd;
      aborted, n, m', bs, gs, bd, gd := EvbufferSplice.RemoveBuffer(m, b[src], g[src], b[dst], g[dst], datlen);
      if aborted {
        return;
      }
      ValidIs(m', bd, gd);
      ValidIs(m', bs, gs);
      TwoChanged(m, b, g, dst, src, m', bd, gd, bs, gs);
      MovedBytes(g[src].Contents(), datlen, n);
      m, b, g := m', b[dst := bd][src := bs], g[dst := gd][src := gs];
    }

    /** evbuffer_readln */
    method Readln(i: nat, style: EolStyle) returns (line: Option<seq<byte>>)
      requires Valid() && i < |b| && i < |Contents()| && |Contents()[i]| <= SIZE_MAX
      modifies this
      ensures Valid() && |b| == |old(b)|
      ensures var s := old(Contents())[i];
        if line.None? then Contents() == old(Contents()) && NoEol(s, style, 0, |s| + 1)
        else
          var p := |line.value|;
          && p <= |s| && line.value == s[..p] && EolAt(s, style, p) > 0 && NoEol(s, style, 0, p)
          && Contents() == old(Contents())[i := s[p + EolAt(s, style, p)..]]
      ensures i < |Contents()| && i < |old(Contents())|
      ensures if line.None? then NoLine(old(Contents())[i], style)
        else FirstLine(old(Contents())[i], style, line.value, Contents()[i])
      ensures old(Fine()) ==> Fine()
    {
      hide Bytes, BytesTo, Kept, Addrs, Seg, Sound, Marked, Disjoint, NoEol, EolAt, AllPointed, AllMarked, AllTight,
        Abs.Tight, Abs.Packed, Abs.Contents;
      ValidAt(i);
      ghost var s := Contents()[i];
      var m', bi; ghost var gi;
      line, m', bi, gi := EvbufferSearch.Readln(m, b[i], g[i], style);
      ValidIs(m', bi, gi);
      OneChanged(m, b, g, i, m', bi, gi);
      if line.Some? { CutLine(s, line.value, EolAt(s, style, |line.value|), gi.Contents()); }
      m, b, g := m', b[i := bi], g[i := gi];
    }

    /** _evbuffer_validate, for each buffer */
    method Validate() returns (ok: bool)
      requires Pointing()
      ensures ok <==> Valid()
    {
      hide Bytes, BytesTo, Kept, Addrs, Seg, Sound, Marked, Disjoint;
      ok := true;
      for i := 0 to |b|
        invariant ok <==> forall k :: 0 <= k < i ==> Marked(g[k].cells, g[k].mark)
      {
        var good := EvbufferValidate.Validate(m, b[i], g[i]);
        ValidIs(m, b[i], g[i]);
        ok := ok && good;
      }
    }
  }

  lemma MovedBytes(s: seq<byte>, datlen: nat, n: nat)
    requires n == if datlen < |s| then datlen else |s|
    ensures s[..n] == Take(s, datlen) && s[n..] == Drop(s, datlen) && |Take(s, datlen)| == n
  {}

  lemma CutLine(s: seq<byte>, line: seq<byte>, n: nat, rest: seq<byte>)
    requires |line| + n <= |s| && s == line + s[|line|..|line| + n] + rest
    ensures line == s[..|line|] && rest == s[|line| + n..]
  {}

  lemma NothingMoved(s: seq<seq<byte>>, out: nat, inp: nat)
    requires out < |s| && inp < |s|
    ensures s[inp] == [] ==> s[out := s[out] + s[inp]][inp := []] == s && s[out := s[inp] + s[out]][inp := []] == s
  {
    assert s[inp] == [] ==> s[out] + s[inp] == s[out] && s[inp] + s[out] == s[out];
  }

  lemma NothingTaken(s: seq<seq<byte>>, src: nat, dst: nat)
    requires src < |s| && dst < |s|
    ensures Take(s[src], 0) == [] && Drop(s[src], 0) == s[src]
    ensures s[src := Drop(s[src], 0)][dst := s[dst] + Take(s[src], 0)] == s
  {
    assert s[dst] + [] == s[dst];
  }

  lemma KeptTurned(m: Memory, a: seq<Cell>, c: seq<Cell>, m': Memory, cs: seq<Cell>)
    requires Kept(m, a + c, m', cs)
    ensures Kept(m, c + a, m', cs)
  {
    AddrsJoin(a, c);
    AddrsJoin(c, a);
  }

  function Take(s: seq<byte>, n: nat): (r: seq<byte>)
  {
    if n < |s| then s[..n] else s
  }

  function Drop(s: seq<byte>, n: nat): (r: seq<byte>)
  {
    if n < |s| then s[n..] else []
  }

  /** How many bytes the first line from p on reaches to, terminator and all; 0 if there is no terminator. */
  ghost function LineEnd(s: seq<byte>, style: EolStyle, p: nat): (n: nat)
    requires p <= |s|
    decreases |s| - p
  {
    if EolAt(s, style, p) > 0 then p + EolAt(s, style, p)
    else if p < |s| then LineEnd(s, style, p + 1)
    else 0
  }

  lemma {:induction false} LineEndIs(s: seq<byte>, style: EolStyle, p: nat, q: nat)
    requires p <= q && p <= |s| && NoEol(s, style, p, q) && (q <= |s| ==> EolAt(s, style, q) > 0)
    ensures LineEnd(s, style, p) == if q <= |s| then q + EolAt(s, style, q) else 0
    decreases |s| - p
  {
    hide EolAt;
    if p < q && p < |s| {
      assert EolAt(s, style, p) == 0;
      LineEndIs(s, style, p + 1, q);
    }
  }

  /** What evbuffer_readln does to the bytes. */
  lemma LineCut(s: seq<byte>, style: EolStyle, line: Option<seq<byte>>, rest: seq<byte>)
    requires line.None? ==> rest == s && NoEol(s, style, 0, |s| + 1)
    requires line.Some? ==>
      && |line.value| <= |s| && NoEol(s, style, 0, |line.value|) && EolAt(s, style, |line.value|) > 0
      && rest == s[|line.value| + EolAt(s, style, |line.value|)..]
    ensures rest == Drop(s, LineEnd(s, style, 0))
  {
    hide EolAt, NoEol, LineEnd;
    LineEndIs(s, style, 0, if line.None? then |s| + 1 else |line.value|);
  }

  // ----- runs

  datatype Op =
    | OpAdd(i: nat, data: seq<byte>)
    | OpPrepend(i: nat, data: seq<byte>)
    | OpDrain(i: nat, n: nat)
    | OpRemove(i: nat, n: nat)
    | OpAddBuffer(out: nat, inp: nat)
    | OpPrependBuffer(out: nat, inp: nat)
    | OpRemoveBuffer(src: nat, dst: nat, n: nat)
    | OpReadln(i: nat, style: EolStyle)
    | OpPullup(i: nat, n: nat)
    | OpExpand(i: nat, n: nat)
    | OpWrite(i: nat, size: nat, nVecs: nat, data: seq<byte>)

  /** The bytes an operation puts in, and those it takes out. */
  function Given(op: Op): (s: seq<byte>)
  {
    if op.OpAdd? || op.OpPrepend? || op.OpWrite? then op.data else []
  }

  /** How many bytes an operation takes from the front of its buffer, if there are as many. */
  ghost function CutLen(s: seq<byte>, op: Op): (n: nat)
  {
    match op
    case OpDrain(_, n) => n
    case OpRemove(_, n) => n
    case OpReadln(_, style) => LineEnd(s, style, 0)
    case _ => 0
  }

  ghost predicate Cuts(op: Op)
  {
    op.OpDrain? || op.OpRemove? || op.OpReadln?
  }

  ghost function Taken(s: seq<seq<byte>>, op: Op): (t: seq<byte>)
    requires OnBuffers(op, |s|)
  {
    if Cuts(op) then Take(s[op.i], CutLen(s[op.i], op)) else []
  }

  predicate OnBuffers(op: Op, n: nat)
  {
    match op
    case OpAddBuffer(out, inp) => out < n && inp < n
    case OpPrependBuffer(out, inp) => out < n && inp < n
    case OpRemoveBuffer(src, dst, _) => src < n && dst < n
    case _ => op.i < n
  }

  /** The same operation on byte strings. */
  ghost function Spec(s: seq<seq<byte>>, op: Op): (s': seq<seq<byte>>)
    requires OnBuffers(op, |s|)
    ensures |s'| == |s|
  {
    match op
    case OpAdd(i, data) => s[i := s[i] + data]
    case OpPrepend(i, data) => s[i := data + s[i]]
    case OpDrain(i, n) => s[i := Drop(s[i], n)]
    case OpRemove(i, n) => s[i := Drop(s[i], n)]
    case OpReadln(i, style) => s[i := Drop(s[i], LineEnd(s[i], style, 0))]
    case OpAddBuffer(out, inp) => if out == inp then s else s[out := s[out] + s[inp]][inp := []]
    case OpPrependBuffer(out, inp) => if out == inp then s else s[out := s[inp] + s[out]][inp := []]
    case OpRemoveBuffer(src, dst, n) =>
      if src == dst then s else s[src := Drop(s[src], n)][dst := s[dst] + Take(s[src], n)]
    case OpPullup(_, _) => s
    case OpExpand(_, _) => s
    case OpWrite(i, _, _, data) => s[i := s[i] + data]
  }

  ghost function SpecAll(s: seq<seq<byte>>, ops: seq<Op>, k: nat): (s': seq<seq<byte>>)
    requires k <= |ops| && forall i :: 0 <= i < |ops| ==> OnBuffers(ops[i], |s|)
    ensures |s'| == |s|
  {
    if k == 0 then s else Spec(SpecAll(s, ops, k - 1), ops[k - 1])
  }

  ghost function TakenAll(s: seq<seq<byte>>, ops: seq<Op>, k: nat): (t: seq<byte>)
    requires k <= |ops| && forall i :: 0 <= i < |ops| ==> OnBuffers(ops[i], |s|)
  {
    if k == 0 then [] else TakenAll(s, ops, k - 1) + Taken(SpecAll(s, ops, k - 1), ops[k - 1])
  }

  ghost function GivenAll(ops: seq<Op>, k: nat): (s: seq<byte>)
    requires k <= |ops|
  {
    if k == 0 then [] else GivenAll(ops, k - 1) + Given(ops[k - 1])
  }

  ghost function Total(s: seq<seq<byte>>): (n: nat)
  {
    if s == [] then 0 else Total(s[..|s| - 1]) + |s[|s| - 1]|
  }

  lemma {:induction false} TotalUpdate(s: seq<seq<byte>>, i: nat, x: seq<byte>)
    requires i < |s|
    ensures Total(s[i := x]) == Total(s) - |s[i]| + |x| && Total(s) >= |s[i]|
  {
    var n := |s| - 1;
    if i == n {
      assert s[i := x][..n] == s[..n];
    } else {
      TotalUpdate(s[..n], i, x);
      assert s[i := x][..n] == s[..n][i := x];
    }
  }

  /** No operation makes or loses bytes. */
  lemma TotalStep(s: seq<seq<byte>>, op: Op)
    requires OnBuffers(op, |s|)
    ensures Total(Spec(s, op)) + |Taken(s, op)| == Total(s) + |Given(op)|
  {
    hide LineEnd, Total;
    match op {
      case OpAdd(i, data) => TotalUpdate(s, i, s[i] + data);
      case OpPrepend(i, data) => TotalUpdate(s, i, data + s[i]);
      case OpDrain(i, n) => TotalUpdate(s, i, Drop(s[i], n));
      case OpRemove(i, n) => TotalUpdate(s, i, Drop(s[i], n));
      case OpReadln(i, style) => TotalUpdate(s, i, Drop(s[i], LineEnd(s[i], style, 0)));
      case OpAddBuffer(out, inp) =>
        if out != inp {
          TotalUpdate(s, out, s[out] + s[inp]);
          TotalUpdate(s[out := s[out] + s[inp]], inp, []);
        }
      case OpPrependBuffer(out, inp) =>
        if out != inp {
          TotalUpdate(s, out, s[inp] + s[out]);
          TotalUpdate(s[out := s[inp] + s[out]], inp, []);
        }
      case OpRemoveBuffer(src, dst, n) =>
        if src != dst {
          TotalUpdate(s, src, Drop(s[src], n));
          TotalUpdate(s[src := Drop(s[src], n)], dst, s[dst] + Take(s[src], n));
        }
      case OpPullup(_, _) =>
      case OpExpand(_, _) =>
      case OpWrite(i, _, _, data) => TotalUpdate(s, i, s[i] + data);
    }
  }

  lemma {:induction false} TotalRun(s: seq<seq<byte>>, ops: seq<Op>, k: nat)
    requires k <= |ops| && forall i :: 0 <= i < |ops| ==> OnBuffers(ops[i], |s|)
    ensures Total(SpecAll(s, ops, k)) + |TakenAll(s, ops, k)| == Total(s) + |GivenAll(ops, k)|
  {
    if k > 0 {
      TotalRun(s, ops, k - 1);
      TotalStep(SpecAll(s, ops, k - 1), ops[k - 1]);
    }
  }

  lemma {:induction false} GivenGrows(ops: seq<Op>, k: nat, n: nat)
    requires k <= n <= |ops|
    ensures |GivenAll(ops, k)| <= |GivenAll(ops, n)|
  {
    if k < n { GivenGrows(ops, k, n - 1); }
  }

  lemma NothingYet(s: seq<seq<byte>>, ops: seq<Op>)
    requires forall i :: 0 <= i < |ops| ==> OnBuffers(ops[i], |s|)
    ensures SpecAll(s, ops, 0) == s && TakenAll(s, ops, 0) == [] && GivenAll(ops, 0) == []
  {}

  lemma RunNext(s: seq<seq<byte>>, ops: seq<Op>, k: nat)
    requires k < |ops| && forall i :: 0 <= i < |ops| ==> OnBuffers(ops[i], |s|)
    ensures SpecAll(s, ops, k + 1) == Spec(SpecAll(s, ops, k), ops[k])
    ensures TakenAll(s, ops, k + 1) == TakenAll(s, ops, k) + Taken(SpecAll(s, ops, k), ops[k])
    ensures GivenAll(ops, k + 1) == GivenAll(ops, k) + Given(ops[k])
  {}

  // ----- runs on real buffers

  /** What becomes of an operation: last_with_datap is right, or not; or an assertion fails; or an error is returned. */
  datatype Outcome = Right | Wrong | Stopped | Declined

  ghost function OfFate(f: Fate): (o: Outcome)
  {
    match f
    case Intact => Right
    case Behind => Wrong
    case Aborted => Stopped
  }

  ghost predicate MarkIn(g: Abs)
  {
    g.mark < |g.cells| || g.mark == |g.cells| == 0
  }

  ghost predicate MarksIn(g: seq<Abs>)
  {
    forall i :: 0 <= i < |g| ==> MarkIn(g[i])
  }

  /** What becomes of an operation on Valid buffers can be told before. */
  ghost function OutcomeOf(g: seq<Abs>, op: Op): (o: Outcome)
    requires OnBuffers(op, |g|) && MarksIn(g)
  {
    match op
    case OpAdd(i, data) => assert MarkIn(g[i]); OfFate(AddFate(g[i], |data|))
    case OpRemoveBuffer(src, dst, n) =>
      assert MarkIn(g[dst]);
      if src == dst then Right
      else
        var f := RemoveFate(g[dst], g[src], n);
        if f == Intact && !SourceKept(g[src], n) then Wrong else OfFate(f)
    case OpWrite(i, size, nVecs, _) => if nVecs == 1 && Skips(g[i], size) then Declined else Right
    case _ => Right
  }

  /** What callers may ask for, in sizes that are not refused. */
  predicate Sized(op: Op)
  {
    && |Given(op)| <= CHAIN_MAX - CHAIN_SIZE
    && (op.OpExpand? ==> op.n <= CHAIN_MAX - MAX_TO_COPY_IN_EXPAND)
    && (op.OpWrite? ==> 0 < |op.data| <= op.size <= CHAIN_MAX - MAX_TO_COPY_IN_EXPAND && op.nVecs >= 1)
  }

  /** The operations that leave no empty chunk behind. */
  predicate KeepsFine(op: Op)
  {
    !op.OpExpand? && (op.OpWrite? ==> op.nVecs == 1)
  }

  lemma AllIn(bufs: Buffers)
    requires bufs.Valid()
    ensures MarksIn(bufs.g)
  {
    forall i | 0 <= i < |bufs.g| ensures MarkIn(bufs.g[i]) {
      bufs.ValidAt(i);
    }
  }

  /** Whether the operation returned, was stopped by an assertion, or declined. */
  predicate Reported(r: Outcome, o: Outcome)
  {
    if o == Wrong then r == Right else r == o
  }

  /** One operation that has two buffers */
  method Move(bufs: Buffers, op: Op) returns (r: Outcome)
    requires bufs.Valid() && OnBuffers(op, |bufs.b|)
    requires op.OpAddBuffer? || op.OpPrependBuffer? || op.OpRemoveBuffer?
    requires Total(bufs.Contents()) <= SIZE_MAX
    modifies bufs
    ensures bufs.Pointing() && |bufs.b| == |old(bufs.b)|
    ensures |old(bufs.b)| == |old(bufs.g)| == |old(bufs.Contents())|
    ensures MarksIn(old(bufs.g))
    ensures var o := OutcomeOf(old(bufs.g), op); Reported(r, o) && (bufs.Valid() <==> o != Wrong)
    ensures r == Right ==> bufs.Contents() == Spec(old(bufs.Contents()), op)
    ensures r != Right ==> bufs.Contents() == old(bufs.Contents())
    ensures old(bufs.Fine()) ==> bufs.Fine() && OutcomeOf(old(bufs.g), op) == Right
  {
    hide Buffers.Pointing, AllMarked, AllTight, Take, Drop, Total, LineEnd, AddFate, RemoveFate, SourceKept, MarkIn;
    bufs.Count();
    AllIn(bufs);
    ghost var s := bufs.Contents();
    r := Right;
    match op {
      case OpAddBuffer(out, inp) =>
        bufs.AddBuffer(out, inp);
      case OpPrependBuffer(out, inp) =>
        bufs.PrependBuffer(out, inp);
      case OpRemoveBuffer(src, dst, n) =>
        TotalTwo(s, src, dst);
        var aborted, moved := bufs.RemoveBuffer(src, dst, n);
        if aborted { r := Stopped; }
    }
  }

  /** One operation that has one buffer */
  method Change(bufs: Buffers, op: Op) returns (r: Outcome, ghost taken: seq<byte>)
    requires bufs.Valid() && OnBuffers(op, |bufs.b|) && Sized(op)
    requires !op.OpAddBuffer? && !op.OpPrependBuffer? && !op.OpRemoveBuffer?
    requires Total(bufs.Contents()) + |Given(op)| <= SIZE_MAX
    modifies bufs
    ensures bufs.Pointing() && |bufs.b| == |old(bufs.b)|
    ensures |old(bufs.b)| == |old(bufs.g)| == |old(bufs.Contents())|
    ensures MarksIn(old(bufs.g))
    ensures var o := OutcomeOf(old(bufs.g), op); Reported(r, o) && (bufs.Valid() <==> o != Wrong)
    ensures r == Right ==>
      bufs.Contents() == Spec(old(bufs.Contents()), op) && taken == Taken(old(bufs.Contents()), op)
    ensures r != Right ==> bufs.Contents() == old(bufs.Contents()) && taken == []
    ensures old(bufs.Fine()) && KeepsFine(op) ==> bufs.Fine() && OutcomeOf(old(bufs.g), op) == Right
  {
    hide Buffers.Pointing, AllMarked, AllTight, Take, Drop, Total, LineEnd, EolAt, NoEol, AddFate, Skips, Wraps,
      FrontRoom, MarkIn;
    taken := [];
    bufs.Count();
    AllIn(bufs);
    ghost var s := bufs.Contents();
    TotalUpdate(s, op.i, []);
    r := Right;
    match op {
      case OpAdd(i, data) =>
        var added := bufs.Add(i, data);
        if added == Broken { r := Stopped; }
      case OpPrepend(i, data) =>
        var ok := bufs.Prepend(i, data);
      case OpDrain(i, n) =>
        bufs.Drain(i, n);
        taken := Take(s[i], n);
      case OpRemove(i, n) =>
        var out := bufs.Remove(i, n);
        taken := out;
      case OpReadln(i, style) =>
        TotalTwo(s, i, i);
        var line := bufs.Readln(i, style);
        LineCut(s[i], style, line, bufs.Contents()[i]);
        taken := Take(s[i], LineEnd(s[i], style, 0));
      case OpPullup(i, n) =>
        var data := bufs.Pullup(i, n);
      case OpExpand(i, n) =>
        var e := bufs.Expand(i, n);
      case OpWrite(i, size, nVecs, data) =>
        var ok := bufs.Write(i, size, nVecs, data);
        if !ok { r := Declined; }
    }
  }

  /** One operation on Valid buffers, and then the check that the regression tests make. */
  method RunOne(bufs: Buffers, op: Op) returns (o: Outcome, ghost taken: seq<byte>)
    requires bufs.Valid() && OnBuffers(op, |bufs.b|) && Sized(op)
    requires Total(bufs.Contents()) + |Given(op)| <= SIZE_MAX
    modifies bufs
    ensures bufs.Pointing() && |bufs.b| == |old(bufs.b)|
    ensures |old(bufs.b)| == |old(bufs.g)| == |old(bufs.Contents())|
    ensures MarksIn(old(bufs.g))
    ensures o == OutcomeOf(old(bufs.g), op) && (bufs.Valid() <==> o != Wrong)
    ensures o == Right || o == Wrong ==>
      bufs.Contents() == Spec(old(bufs.Contents()), op) && taken == Taken(old(bufs.Contents()), op)
    ensures o == Stopped || o == Declined ==> bufs.Contents() == old(bufs.Contents()) && taken == []
    ensures old(bufs.Fine()) && KeepsFine(op) ==> bufs.Fine() && o == Right
  {
    hide Buffers.Pointing, AllMarked, AllTight, Total, OutcomeOf, Spec, Sized, KeepsFine, MarksIn, Buffers.Fine,
      Buffers.Valid, Buffers.Contents;
    taken := [];
    if op.OpAddBuffer? || op.OpPrependBuffer? || op.OpRemoveBuffer? {
      o := Move(bufs, op);
    } else {
      o, taken := Change(bufs, op);
    }
    if o == Right {
      var good := bufs.Validate();
      if !good { o := Wrong; }
    }
  }

  /** The states of a run, each before the operation of the same number, and the last one after all. */
  ghost predicate Went(gs: seq<seq<Abs>>, ops: seq<Op>, n: nat, k: nat)
    requires k <= |ops| && k <= |gs| && forall i :: 0 <= i < |ops| ==> OnBuffers(ops[i], n)
  {
    forall i :: 0 <= i < k ==>
      |gs[i]| == n && MarksIn(gs[i]) && OutcomeOf(gs[i], ops[i]) == Right
  }

  lemma WentNone(gs: seq<seq<Abs>>, ops: seq<Op>, n: nat)
    requires forall i :: 0 <= i < |ops| ==> OnBuffers(ops[i], n)
    ensures Went(gs, ops, n, 0)
  {}

  /** One operation more. */
  lemma WentNext(gs: seq<seq<Abs>>, g: seq<Abs>, ops: seq<Op>, n: nat, k: nat, o: Outcome)
    requires (forall i :: 0 <= i < |ops| ==> OnBuffers(ops[i], n)) && k < |ops| && |gs| == k + 1 && Went(gs, ops, n, k)
    requires |gs[k]| == n && MarksIn(gs[k]) && OutcomeOf(gs[k], ops[k]) == o
    ensures Went(gs + [g], ops, n, if o == Right then k + 1 else k)
  {
    hide OutcomeOf, MarksIn;
    var gs' := gs + [g];
    assert forall i :: 0 <= i <= k ==> gs'[i] == gs[i];
  }

  /**
   A run on any Valid buffers, checked after each operation, up to the first one that goes wrong; all the
   bytes there ever are can be counted in a size_t.  What the buffers hold is what the operations make of
   byte strings; which operation goes wrong, and how, is told by the state before it; and none does
   if the buffers have no empty chunks to begin with and the operations leave none behind.
   */
  method Run(bufs: Buffers, ops: seq<Op>)
    returns (o: Outcome, done: nat, ghost taken: seq<byte>, ghost gs: seq<seq<Abs>>)
    requires bufs.Valid() && forall i :: 0 <= i < |ops| ==> OnBuffers(ops[i], |bufs.b|) && Sized(ops[i])
    requires Total(bufs.Contents()) + |GivenAll(ops, |ops|)| <= SIZE_MAX
    modifies bufs
    ensures bufs.Pointing() && |bufs.b| == |old(bufs.b)| == |old(bufs.Contents())| && done <= |ops|
    ensures bufs.Contents() == SpecAll(old(bufs.Contents()), ops, done)
    ensures taken == TakenAll(old(bufs.Contents()), ops, done)
    ensures |gs| == done + 1 && gs[0] == old(bufs.g) && (o == Right || o == Wrong ==> gs[done] == bufs.g)
    ensures Went(gs, ops, |bufs.b|, if o == Wrong && done > 0 then done - 1 else done)
    ensures bufs.Valid() <==> o != Wrong
    ensures o == Right ==> done == |ops|
    ensures o == Wrong ==>
      && done > 0 && |gs[done - 1]| == |bufs.b| && MarksIn(gs[done - 1])
      && OutcomeOf(gs[done - 1], ops[done - 1]) == o
    ensures o == Stopped || o == Declined ==>
      && done < |ops| && |gs[done]| == |bufs.b| && MarksIn(gs[done])
      && OutcomeOf(gs[done], ops[done]) == o
    ensures old(bufs.Fine()) && (forall i :: 0 <= i < |ops| ==> KeepsFine(ops[i])) ==> o == Right && bufs.Fine()
  {
    hide Buffers.Pointing, AllMarked, AllTight, Spec, Taken, SpecAll, TakenAll, GivenAll, Given, Total, OutcomeOf,
      MarksIn, KeepsFine, Went, Sized, Buffers.Valid, Buffers.Fine, Buffers.Contents;
    taken, done, o, gs := [], 0, Right, [bufs.g];
    bufs.Count();
    ghost var s := bufs.Contents();
    NothingYet(s, ops);
    WentNone(gs, ops, |s|);
    while o == Right && done < |ops|
      invariant done <= |ops| && bufs.Pointing() && |bufs.b| == |s| && (bufs.Valid() <==> o != Wrong)
      invariant bufs.Contents() == SpecAll(s, ops, done) && taken == TakenAll(s, ops, done)
      invariant |gs| == done + 1 && gs[0] == old(bufs.g) && (o == Right || o == Wrong ==> gs[done] == bufs.g)
      invariant Went(gs, ops, |s|, if o == Wrong && done > 0 then done - 1 else done)
      invariant o == Wrong ==>
        && done > 0 && |gs[done - 1]| == |s| && MarksIn(gs[done - 1])
        && OutcomeOf(gs[done - 1], ops[done - 1]) == o
      invariant o == Stopped || o == Declined ==>
        && done < |ops| && |gs[done]| == |s| && MarksIn(gs[done])
        && OutcomeOf(gs[done], ops[done]) == o
      invariant old(bufs.Fine()) && (forall i :: 0 <= i < |ops| ==> KeepsFine(ops[i])) ==> o == Right && bufs.Fine()
      decreases o == Right, |ops| - done
    {
      bufs.Count();
      TotalRun(s, ops, done);
      GivenGrows(ops, done + 1, |ops|);
      RunNext(s, ops, done);
      ghost var was, gs0 := bufs.g, gs;
      ghost var piece;
      o, piece := RunOne(bufs, ops[done]);
      if o == Right || o == Wrong {
        taken := taken + piece;
        gs := gs + [bufs.g];
        WentNext(gs0, bufs.g, ops, |s|, done, o);
        done := done + 1;
      }
    }
  }

  lemma TotalTwo(s: seq<seq<byte>>, i: nat, j: nat)
    requires i < |s| && j < |s|
    ensures i != j ==> |s[i]| + |s[j]| <= Total(s)
    ensures |s[i]| <= Total(s)
  {
    TotalUpdate(s, i, []);
    TotalUpdate(s[i := []], j, []);
  }

  // ----- first in, first out

  /** What is in a row of buffers, oldest first: the last buffer is the furthest along. */
  ghost function Flat(s: seq<seq<byte>>): (r: seq<byte>)
  {
    if s == [] then [] else s[|s| - 1] + Flat(s[..|s| - 1])
  }

  /**
   An operation of a pipeline: bytes go in at buffer 0, move on to the next buffer in order, and come out at
   the last one.
   */
  predicate Forward(op: Op, n: nat)
  {
    match op
    case OpAdd(i, _) => i == 0 < n
    case OpDrain(i, _) => i == n - 1
    case OpRemove(i, _) => i == n - 1
    case OpReadln(i, _) => i == n - 1
    case OpAddBuffer(out, inp) => out == inp + 1 < n
    case OpRemoveBuffer(src, dst, _) => dst == src + 1 < n
    case OpPullup(i, _) => i < n
    case OpExpand(i, _) => i < n
    case OpWrite(i, _, _, _) => i == 0 < n
    case _ => false
  }

  lemma {:induction false} FlatSplit(s: seq<seq<byte>>, k: nat)
    requires k <= |s|
    ensures Flat(s) == Flat(s[k..]) + Flat(s[..k])
  {
    if k == |s| {
      assert s[..k] == s && s[k..] == [];
    } else {
      FlatSplit(s[..|s| - 1], k);
      assert s[..|s| - 1][..k] == s[..k];
      assert s[k..][..|s| - k - 1] == s[..|s| - 1][k..];
    }
  }

  lemma FlatPush(s: seq<seq<byte>>, k: nat)
    requires k < |s|
    ensures Flat(s[..k + 1]) == s[k] + Flat(s[..k])
  {
    assert s[..k + 1][..k] == s[..k] && s[..k + 1][k] == s[k];
  }

  /** Buffers k and k + 1, with their neighbours. */
  lemma FlatPair(s: seq<seq<byte>>, k: nat)
    requires k + 1 < |s|
    ensures Flat(s) == Flat(s[k + 2..]) + (s[k + 1] + s[k]) + Flat(s[..k])
  {
    hide Flat;
    FlatSplit(s, k + 2);
    FlatPush(s, k + 1);
    FlatPush(s, k);
    var a, b, c, d := Flat(s[k + 2..]), s[k + 1], s[k], Flat(s[..k]);
    assert a + (b + (c + d)) == a + (b + c) + d;
  }

  lemma FlatMoved(s: seq<seq<byte>>, s': seq<seq<byte>>, k: nat)
    requires k + 1 < |s| == |s'| && (forall i :: 0 <= i < |s| && i != k && i != k + 1 ==> s'[i] == s[i])
    requires s'[k + 1] + s'[k] == s[k + 1] + s[k]
    ensures Flat(s') == Flat(s)
  {
    FlatPair(s, k);
    FlatPair(s', k);
    assert s'[k + 2..] == s[k + 2..] && s'[..k] == s[..k];
  }

  /** Bytes put in, or taken out. */
  lemma ForwardEnds(s: seq<seq<byte>>, op: Op)
    requires Forward(op, |s|) && (op.OpAdd? || op.OpWrite? || Cuts(op))
    ensures Taken(s, op) + Flat(Spec(s, op)) == Flat(s) + Given(op)
  {
    hide Flat, Take, Drop, LineEnd;
    NoneAdded(Flat(s));
    NoneAdded(Flat(Spec(s, op)));
    if !Cuts(op) { FlatFirst(s, op.data); } else { FlatLast(s, CutLen(s[op.i], op)); }
  }

  /** Putting other bytes into buffers k and k + 1, all in all in the same order. */
  lemma FlatPut(s: seq<seq<byte>>, k: nat, x: seq<byte>, y: seq<byte>)
    requires k + 1 < |s| && y + x == s[k + 1] + s[k]
    ensures Flat(s[k + 1 := y][k := x]) == Flat(s)
    ensures s[k + 1 := y][k := x] == s[k := x][k + 1 := y]
  {
    hide Flat;
    FlatMoved(s, s[k + 1 := y][k := x], k);
  }

  /** Bytes moved on. */
  lemma ForwardAdd(s: seq<seq<byte>>, inp: nat)
    requires inp + 1 < |s|
    ensures Flat(Spec(s, OpAddBuffer(inp + 1, inp))) == Flat(s)
  {
    hide Flat;
    NoneAdded(s[inp + 1] + s[inp]);
    FlatPut(s, inp, [], s[inp + 1] + s[inp]);
  }

  lemma ForwardRemove(s: seq<seq<byte>>, src: nat, n: nat)
    requires src + 1 < |s|
    ensures Flat(Spec(s, OpRemoveBuffer(src, src + 1, n))) == Flat(s)
  {
    hide Flat, Take, Drop;
    TakeDrop(s[src], n, s[src + 1]);
    FlatPut(s, src, Drop(s[src], n), s[src + 1] + Take(s[src], n));
  }

  lemma ForwardStays(s: seq<seq<byte>>, op: Op)
    requires OnBuffers(op, |s|) && (op.OpPullup? || op.OpExpand?)
    ensures Spec(s, op) == s
  {
    hide Take, Drop, LineEnd;
  }

  lemma ForwardMoves(s: seq<seq<byte>>, op: Op)
    requires Forward(op, |s|) && (op.OpAddBuffer? || op.OpRemoveBuffer? || op.OpPullup? || op.OpExpand?)
    ensures Flat(Spec(s, op)) == Flat(s)
  {
    hide Flat, Spec;
    match op {
      case OpAddBuffer(out, inp) => ForwardAdd(s, inp);
      case OpRemoveBuffer(src, dst, n) => ForwardRemove(s, src, n);
      case OpPullup(_, _) => ForwardStays(s, op);
      case OpExpand(_, _) => ForwardStays(s, op);
    }
  }

  lemma ForwardStep(s: seq<seq<byte>>, op: Op)
    requires Forward(op, |s|)
    ensures OnBuffers(op, |s|) && Taken(s, op) + Flat(Spec(s, op)) == Flat(s) + Given(op)
  {
    hide Flat, Spec;
    if op.OpAdd? || op.OpWrite? || Cuts(op) {
      ForwardEnds(s, op);
    } else {
      ForwardMoves(s, op);
      NoneAdded(Flat(s));
    }
  }

  lemma NoneAdded(s: seq<byte>)
    ensures s + [] == s && [] + s == s
  {}

  lemma TakeDrop(s: seq<byte>, n: nat, before: seq<byte>)
    ensures (before + Take(s, n)) + Drop(s, n) == before + s
  {}

  lemma FlatFirst(s: seq<seq<byte>>, data: seq<byte>)
    requires s != []
    ensures Flat(s[0 := s[0] + data]) == Flat(s) + data
  {
    var s' := s[0 := s[0] + data];
    FlatSplit(s, 1);
    FlatSplit(s', 1);
    assert s'[1..] == s[1..] && s'[..1] == [s[0] + data] && s[..1] == [s[0]];
    FlatOne(s[0]);
    FlatOne(s[0] + data);
    assert Flat(s[1..]) + (s[0] + data) == (Flat(s[1..]) + s[0]) + data;
  }

  lemma FlatOne(x: seq<byte>)
    ensures Flat([x]) == x
  {
    assert Flat([x][..0]) == [];
  }

  lemma FlatLast(s: seq<seq<byte>>, n: nat)
    requires s != []
    ensures var i := |s| - 1; Take(s[i], n) + Flat(s[i := Drop(s[i], n)]) == Flat(s)
  {
    var i := |s| - 1;
    assert Take(s[i], n) + Drop(s[i], n) == s[i];
    assert s[i := Drop(s[i], n)][..i] == s[..i];
  }

  /**
   Whatever comes out of a row of buffers, with what is still in them, is what was in them and what was put
   in, in that order.
   */
  lemma {:induction false} FirstInFirstOut(s: seq<seq<byte>>, ops: seq<Op>, k: nat)
    requires k <= |ops| && forall i :: 0 <= i < |ops| ==> Forward(ops[i], |s|)
    ensures forall i :: 0 <= i < |ops| ==> OnBuffers(ops[i], |s|)
    ensures TakenAll(s, ops, k) + Flat(SpecAll(s, ops, k)) == Flat(s) + GivenAll(ops, k)
  {
    hide Flat, Spec, Taken, Given, Forward;
    forall i | 0 <= i < |ops| ensures OnBuffers(ops[i], |s|) {
      ForwardStep(s, ops[i]);
    }
    if k == 0 {
      assert [] + Flat(s) == Flat(s) + [];
    } else {
      FirstInFirstOut(s, ops, k - 1);
      var s1 := SpecAll(s, ops, k - 1);
      ForwardStep(s1, ops[k - 1]);
      Regroup(TakenAll(s, ops, k - 1), Taken(s1, ops[k - 1]), Flat(SpecAll(s, ops, k)), Flat(s1), Given(ops[k - 1]),
        Flat(s), GivenAll(ops, k - 1));
    }
  }

  lemma Regroup(t: seq<byte>, u: seq<byte>, f: seq<byte>, f1: seq<byte>, d: seq<byte>, g: seq<byte>, h: seq<byte>)
    requires t + f1 == g + h && u + f == f1 + d
    ensures (t + u) + f == g + (h + d)
  {
    assert (t + u) + f == t + (u + f);
    assert t + (f1 + d) == (t + f1) + d;
    assert (g + h) + d == g + (h + d);
  }
}
